/**
 * The cleanup workflow of the console program: read the operator's
 * selection, confirm it, delete each selected entry, restart Explorer, and
 * pick the exit code. Console output is left out; the two input lines, the
 * faults of the store, and a possible unexpected exception are parameters.
 */
module Cleanup {
  import opened Wrappers
  import opened Text
  import opened ItemFilter
  import opened Models
  import opened RegistryScanner

  // ---------------------------------------------------------------- selection

  /** What the selection prompt yields: quit the program, or a list of items. */
  datatype Selection = Quit | Selected(items: seq<QuickAccessItem>)

  /** `items.FirstOrDefault(i => i.Number == n)`: the first item with that number. */
  function FindByNumber(items: seq<QuickAccessItem>, n: int): (r: Option<QuickAccessItem>)
    ensures r.Some? ==> r.value in items && r.value.Number == n
  {
    if |items| == 0 then None
    else if items[0].Number == n then Some(items[0])
    else FindByNumber(items[1..], n)
  }

  /** The lookup finds nothing exactly when no item has the number, and otherwise the first item that has it. */
  lemma {:induction false} FindByNumberFirst(items: seq<QuickAccessItem>, n: int)
    ensures FindByNumber(items, n).None? <==> forall i :: 0 <= i < |items| ==> items[i].Number != n
    ensures FindByNumber(items, n).Some? ==> exists i :: (0 <= i < |items| && items[i] == FindByNumber(items, n).value
      && items[i].Number == n && forall j :: 0 <= j < i ==> items[j].Number != n)
  {
    if |items| > 0 && items[0].Number == n {
      assert items[0] == FindByNumber(items, n).value;
    } else if |items| > 0 {
      var r := FindByNumber(items[1..], n);
      FindByNumberFirst(items[1..], n);
      if r.Some? {
        var i :| 0 <= i < |items| - 1 && items[1..][i] == r.value && items[1..][i].Number == n
          && forall j :: 0 <= j < i ==> items[1..][j].Number != n;
        assert items[i + 1] == r.value;
        forall j | 0 <= j < i + 1 ensures items[j].Number != n {
          if j > 0 { assert items[j] == items[1..][j - 1]; }
        }
      } else {
        forall i | 0 <= i < |items| ensures items[i].Number != n {
          if i > 0 { assert items[i] == items[1..][i - 1]; }
        }
      }
    }
  }

  /** The items one comma-separated token selects: the first item whose number it parses to, if any. */
  function PickOne(items: seq<QuickAccessItem>, token: string): (r: seq<QuickAccessItem>)
    ensures |r| <= 1
    ensures forall x :: x in r ==> x in items
  {
    match ParseInt32(Trim(token))
    case None => []
    case Some(n) =>
      match FindByNumber(items, n)
      case None => []
      case Some(x) => [x]
  }

  /** A token selects at most one item: a listed item whose number the token parses to. */
  lemma PickOneSpec(items: seq<QuickAccessItem>, token: string)
    ensures |PickOne(items, token)| <= 1
    ensures forall x :: x in PickOne(items, token) ==> x in items && Some(x.Number) == ParseInt32(Trim(token))
  {
    var p := ParseInt32(Trim(token));
    if p.Some? {
      FindByNumberFirst(items, p.value);
    }
  }

  /** The items a list of tokens selects, in token order, repeats kept. */
  function Picked(items: seq<QuickAccessItem>, tokens: seq<string>): (r: seq<QuickAccessItem>)
    ensures |r| <= |tokens|
  {
    if |tokens| == 0 then []
    else Picked(items, tokens[..|tokens| - 1]) + PickOne(items, tokens[|tokens| - 1])
  }

  /** Every picked item is one of the listed items, picked by a token that parses to its number. */
  lemma {:induction false} PickedFromItems(items: seq<QuickAccessItem>, tokens: seq<string>, x: QuickAccessItem)
    requires x in Picked(items, tokens)
    ensures x in items
    ensures exists t :: t in tokens && ParseInt32(Trim(t)) == Some(x.Number)
  {
    var n := |tokens| - 1;
    if x in Picked(items, tokens[..n]) {
      PickedFromItems(items, tokens[..n], x);
      var t :| t in tokens[..n] && ParseInt32(Trim(t)) == Some(x.Number);
      assert t in tokens;
    } else {
      PickOneSpec(items, tokens[n]);
    }
  }

  /** Every picked item is one of the listed items. */
  lemma PickedAllFromItems(items: seq<QuickAccessItem>, tokens: seq<string>)
    ensures forall x :: x in Picked(items, tokens) ==> x in items
  {
    forall x | x in Picked(items, tokens) ensures x in items {
      PickedFromItems(items, tokens, x);
    }
  }

  /** The choice line as the program reads it: a missing line is empty, and it is trimmed. */
  function Choice(line: Option<string>): string {
    Trim(line.GetOr(""))
  }

  /**
   * The meaning of the selection line: "Q" in either case quits, "A" in
   * either case selects every item, anything else is a comma-separated list
   * of numbers.
   */
  function UserSelection(items: seq<QuickAccessItem>, line: Option<string>): (r: Selection)
    ensures r.Selected? ==> forall x :: x in r.items ==> x in items
  {
    var choice := Choice(line);
    if EqualsIgnoreCase(choice, "Q") then Quit
    else if EqualsIgnoreCase(choice, "A") then Selected(items)
    else
      var tokens := SplitNonEmpty(choice, ',');
      PickedAllFromItems(items, tokens);
      Selected(Picked(items, tokens))
  }

  /** `GetUserSelection`: reads the choice and builds the selected list token by token. */
  method GetUserSelection(items: seq<QuickAccessItem>, line: Option<string>) returns (sel: Selection)
    ensures sel == UserSelection(items, line)
  {
    var choice := Trim(line.GetOr(""));
    if EqualsIgnoreCase(choice, "Q") {
      return Quit;
    }
    if EqualsIgnoreCase(choice, "A") {
      return Selected(items);
    }
    var selectedItems: seq<QuickAccessItem> := [];
    var numbers := SplitNonEmpty(choice, ',');
    var i := 0;
    while i < |numbers|
      invariant 0 <= i <= |numbers|
      invariant selectedItems == Picked(items, numbers[..i])
    {
      PickedPrefix(items, numbers, i);
      var numStr := numbers[i];
      var parsed := ParseInt32(Trim(numStr));
      if parsed.Some? {
        var item := FindByNumber(items, parsed.value);
        if item.Some? {
          selectedItems := selectedItems + [item.value];
        }
      }
      i := i + 1;
    }
    assert numbers[..|numbers|] == numbers;
    return Selected(selectedItems);
  }

  // ---------------------------------------------------------------- selection properties

  /** The trimmed line "Q" or "q", and nothing else, quits. */
  lemma QuitChoice(items: seq<QuickAccessItem>, line: Option<string>)
    ensures UserSelection(items, line) == Quit <==> Choice(line) == "Q" || Choice(line) == "q"
  {
    EqualsIgnoreCaseLetter(Choice(line), 'Q');
  }

  /** The trimmed line "A" or "a" selects every item, unchanged. */
  lemma AllChoice(items: seq<QuickAccessItem>, line: Option<string>)
    requires Choice(line) == "A" || Choice(line) == "a"
    ensures UserSelection(items, line) == Selected(items)
  {
    EqualsIgnoreCaseLetter(Choice(line), 'Q');
    EqualsIgnoreCaseLetter(Choice(line), 'A');
  }

  /** Whatever is typed, only listed items are selected. */
  lemma SelectionFromItems(items: seq<QuickAccessItem>, line: Option<string>, x: QuickAccessItem)
    requires UserSelection(items, line).Selected? && x in UserSelection(items, line).items
    ensures x in items
  {
    var choice := Choice(line);
    if !EqualsIgnoreCase(choice, "A") {
      PickedFromItems(items, SplitNonEmpty(choice, ','), x);
    }
  }

  /** Taking one more token of a list appends what that token picks. */
  lemma PickedPrefix(items: seq<QuickAccessItem>, tokens: seq<string>, i: nat)
    requires i < |tokens|
    ensures Picked(items, tokens[..i + 1]) == Picked(items, tokens[..i]) + PickOne(items, tokens[i])
  {
    assert tokens[..i + 1][..i] == tokens[..i];
  }

  /** Selecting with one more token appends what that token selects. */
  lemma PickedSnoc(items: seq<QuickAccessItem>, tokens: seq<string>, t: string)
    ensures Picked(items, tokens + [t]) == Picked(items, tokens) + PickOne(items, t)
  {
    var s := tokens + [t];
    assert s[..|s| - 1] == tokens;
  }

  /** Selection follows token order: the tokens of a concatenation select the concatenated items. */
  lemma {:induction false} PickedAppend(items: seq<QuickAccessItem>, a: seq<string>, b: seq<string>)
    ensures Picked(items, a + b) == Picked(items, a) + Picked(items, b)
    decreases |b|
  {
    if |b| == 0 {
      assert a + b == a;
    } else {
      var init, last := b[..|b| - 1], b[|b| - 1];
      assert a + b == (a + init) + [last];
      assert init + [last] == b;
      PickedSnoc(items, a + init, last);
      PickedSnoc(items, init, last);
      PickedAppend(items, a, init);
      AppendRegroup(Picked(items, a + b), Picked(items, a + init), Picked(items, b), Picked(items, init),
        Picked(items, a), PickOne(items, last));
    }
  }

  /** Regrouping a concatenation that ends in the same part on both sides. */
  lemma AppendRegroup<T>(whole: seq<T>, front: seq<T>, right: seq<T>, middle: seq<T>, left: seq<T>, last: seq<T>)
    requires whole == front + last && right == middle + last && front == left + middle
    ensures whole == left + right
  {
  }

  /** A numbered list: item i carries number i + 1, as every scan result does. */
  predicate NumberedInOrder(items: seq<QuickAccessItem>) {
    forall i :: 0 <= i < |items| ==> items[i].Number == i + 1
  }

  /** Every scan result is numbered 1, 2, 3, ... in order, whether or not the scan was cut short. */
  lemma ScanResultNumbered(nameSpace: Option<seq<SubKey>>, fault: Option<nat>)
    ensures NumberedInOrder(ScanResult(nameSpace, fault))
  {
    if nameSpace.Some? {
      var keys := nameSpace.value;
      var prefix := keys[..Reached(|keys|, fault)];
      forall i | 0 <= i < |Scan(prefix)| ensures Scan(prefix)[i].Number == i + 1 {
        ScanNumbers(prefix, i);
      }
    }
  }

  /** In a numbered list, the token for number k picks item k. */
  lemma PickNumber(items: seq<QuickAccessItem>, i: nat, token: string)
    requires NumberedInOrder(items) && i < |items|
    requires ParseInt32(Trim(token)) == Some(i + 1)
    ensures PickOne(items, token) == [items[i]]
  {
    FindByNumberFirst(items, i + 1);
    assert items[i].Number == i + 1;
  }

  /** In a numbered list, a token that names no number picks nothing. */
  lemma PickMissing(items: seq<QuickAccessItem>, token: string)
    requires NumberedInOrder(items)
    requires ParseInt32(Trim(token)).None? || ParseInt32(Trim(token)).value < 1 || ParseInt32(Trim(token)).value > |items|
    ensures PickOne(items, token) == []
  {
    var p := ParseInt32(Trim(token));
    if p.Some? {
      FindByNumberFirst(items, p.value);
    }
  }

  /** A displayed number, typed back as a token, parses to that number. */
  lemma TokenParses(token: string, n: nat)
    requires n <= Int32Max && token == Decimal(n)
    ensures ParseInt32(Trim(token)) == Some(n)
  {
    assert IsDigit(token[0]) && IsDigit(token[|token| - 1]);
    TrimUnchanged(token);
    ParseDecimal(n);
  }

  /** The line an operator types to pick the items at positions `idx`: their numbers, comma-separated. */
  function NumbersLine(idx: seq<nat>): string {
    if |idx| == 0 then ""
    else if |idx| == 1 then Decimal(idx[0] + 1)
    else Decimal(idx[0] + 1) + [','] + NumbersLine(idx[1..])
  }

  /** A non-empty numbers line starts and ends with a digit. */
  lemma {:induction false} NumbersLineEnds(idx: seq<nat>)
    requires |idx| > 0
    ensures var line := NumbersLine(idx); |line| > 0 && IsDigit(line[0]) && IsDigit(line[|line| - 1])
  {
    if |idx| > 1 {
      NumbersLineEnds(idx[1..]);
    }
  }

  /** The items at positions `idx`, in that order, repeats kept. */
  function ItemsAt(items: seq<QuickAccessItem>, idx: seq<nat>): seq<QuickAccessItem>
    requires forall k :: 0 <= k < |idx| ==> idx[k] < |items|
  {
    if |idx| == 0 then [] else [items[idx[0]]] + ItemsAt(items, idx[1..])
  }

  /** Positions that can be typed back: within the list, and numbers that fit in 32 bits. */
  predicate Typable(items: seq<QuickAccessItem>, idx: seq<nat>) {
    forall k :: 0 <= k < |idx| ==> idx[k] < |items| && idx[k] + 1 <= Int32Max
  }

  /** The tokens of a numbers line pick the items at those positions, in order. */
  lemma {:induction false} NumbersLinePicks(items: seq<QuickAccessItem>, idx: seq<nat>)
    requires NumberedInOrder(items) && Typable(items, idx)
    ensures Picked(items, SplitNonEmpty(NumbersLine(idx), ',')) == ItemsAt(items, idx)
  {
    if |idx| == 0 {
      SplitNonEmptySingle("", ',');
    } else {
      var d := Decimal(idx[0] + 1);
      assert ',' !in d;
      TokenParses(d, idx[0] + 1);
      PickNumber(items, idx[0], d);
      PickedSnoc(items, [], d);
      assert [] + [d] == [d];
      var first := Picked(items, [d]);
      assert first == [items[idx[0]]];
      if |idx| == 1 {
        SplitNonEmptySingle(d, ',');
        assert ItemsAt(items, idx) == [items[idx[0]]];
      } else {
        var rest := NumbersLine(idx[1..]);
        assert NumbersLine(idx) == d + [','] + rest;
        var tail := SplitNonEmpty(rest, ',');
        SplitNonEmptyField(d, rest, ',');
        NumbersLinePicks(items, idx[1..]);
        PickedAppend(items, [d], tail);
        assert ItemsAt(items, idx) == [items[idx[0]]] + ItemsAt(items, idx[1..]);
      }
    }
  }

  /**
   * Typing back displayed numbers, comma-separated, selects exactly those
   * items in the order typed; a number typed twice selects its item twice.
   */
  lemma TypedNumbersSelectItems(items: seq<QuickAccessItem>, idx: seq<nat>)
    requires NumberedInOrder(items) && Typable(items, idx) && |idx| > 0
    ensures UserSelection(items, Some(NumbersLine(idx))) == Selected(ItemsAt(items, idx))
  {
    var line := NumbersLine(idx);
    NumbersLineEnds(idx);
    TrimUnchanged(line);
    EqualsIgnoreCaseLetter(line, 'Q');
    EqualsIgnoreCaseLetter(line, 'A');
    NumbersLinePicks(items, idx);
  }

  /** "2,2" selects item 2 twice: repeats are kept. */
  lemma RepeatedNumberSelectedTwice(items: seq<QuickAccessItem>)
    requires |items| >= 2 && NumberedInOrder(items)
    ensures NumbersLine([1, 1]) == "2,2"
    ensures UserSelection(items, Some("2,2")) == Selected([items[1], items[1]])
  {
    assert Decimal(2) == "2";
    assert [1, 1][1..] == [1];
    assert ItemsAt(items, [1]) == [items[1]];
    TypedNumbersSelectItems(items, [1, 1]);
  }

  /** An empty or missing line selects nothing (and does not quit). */
  lemma EmptyLineSelectsNothing(items: seq<QuickAccessItem>, line: Option<string>)
    requires line.None? || line.value == ""
    ensures UserSelection(items, line) == Selected([])
  {
    TrimUnchanged("");
    assert Choice(line) == "";
    SplitNonEmptySingle("", ',');
  }

  // ---------------------------------------------------------------- confirmation

  /** `ConfirmRemoval`: only the trimmed reply "Y", in either case, confirms. */
  function ConfirmRemoval(reply: Option<string>): (r: bool)
    ensures r <==> Trim(reply.GetOr("")) == "Y" || Trim(reply.GetOr("")) == "y"
  {
    var confirm := Trim(reply.GetOr(""));
    EqualsIgnoreCaseLetter(confirm, 'Y');
    EqualsIgnoreCase(confirm, "Y")
  }

  // ---------------------------------------------------------------- removal

  /** The GUIDs actually deleted when removing `items` in order, the calls in `faults` throwing. */
  function DeletedGuids(items: seq<QuickAccessItem>, faults: set<nat>): seq<string> {
    if |items| == 0 then []
    else
      var n := |items| - 1;
      DeletedGuids(items[..n], faults) + (if n in faults then [] else [items[n].Guid])
  }

  /** Exactly the GUIDs of the calls that did not throw are deleted. */
  lemma {:induction false} DeletedGuidsAre(items: seq<QuickAccessItem>, faults: set<nat>, g: string)
    ensures g in DeletedGuids(items, faults) <==> exists i :: 0 <= i < |items| && i !in faults && items[i].Guid == g
  {
    if |items| > 0 {
      var n := |items| - 1;
      DeletedGuidsAre(items[..n], faults, g);
      if exists i :: 0 <= i < |items| && i !in faults && items[i].Guid == g {
        var i :| 0 <= i < |items| && i !in faults && items[i].Guid == g;
        if i < n { assert items[..n][i] == items[i]; }
      }
      if g in DeletedGuids(items[..n], faults) {
        var i :| 0 <= i < n && i !in faults && items[..n][i].Guid == g;
        assert items[i] == items[..n][i];
      }
    }
  }

  /** `keys` after deleting each of `names` in turn. */
  function WithoutAll(keys: seq<SubKey>, names: seq<string>): seq<SubKey> {
    if |names| == 0 then keys
    else Without(WithoutAll(keys, names[..|names| - 1]), names[|names| - 1])
  }

  /** After the deletions exactly the keys whose names were not deleted remain; nothing else changes. */
  lemma {:induction false} WithoutAllKeeps(keys: seq<SubKey>, names: seq<string>, k: SubKey)
    ensures k in WithoutAll(keys, names) <==> k in keys && k.name !in names
  {
    if |names| > 0 {
      var init := names[..|names| - 1];
      WithoutAllKeeps(keys, init, k);
      WithoutKeeps(WithoutAll(keys, init), names[|names| - 1], k);
      assert names == init + [names[|names| - 1]];
    }
  }

  /** Removing one more item deletes its GUID from what is left, unless that call throws. */
  lemma RemovalStep(keys: seq<SubKey>, items: seq<QuickAccessItem>, i: nat, faults: set<nat>)
    requires i < |items|
    ensures WithoutAll(keys, DeletedGuids(items[..i + 1], faults)) ==
      if i in faults then WithoutAll(keys, DeletedGuids(items[..i], faults))
      else Without(WithoutAll(keys, DeletedGuids(items[..i], faults)), items[i].Guid)
  {
    assert items[..i + 1][..i] == items[..i];
    var done := DeletedGuids(items[..i], faults);
    if i in faults {
      assert done + [] == done;
    } else {
      var s := done + [items[i].Guid];
      assert s[..|s| - 1] == done;
    }
  }

  /** The per-item report lines: success exactly when the store is reachable, writable and the call does not throw. */
  function Reports(n: nat, live: bool, faults: set<nat>): (r: seq<bool>)
    ensures |r| == n
  {
    if n == 0 then [] else Reports(n - 1, live, faults) + [live && n - 1 !in faults]
  }

  /** One more removal adds its report at the end. */
  lemma ReportsNext(n: nat, live: bool, faults: set<nat>)
    ensures Reports(n + 1, live, faults) == Reports(n, live, faults) + [live && n !in faults]
  {
  }

  /** Report i says success exactly when the i-th removal succeeded. */
  lemma {:induction false} ReportsAt(n: nat, live: bool, faults: set<nat>, i: nat)
    requires i < n
    ensures Reports(n, live, faults)[i] <==> live && i !in faults
  {
    if i < n - 1 {
      ReportsAt(n - 1, live, faults, i);
    }
  }

  /**
   * `RemoveItems`: calls `RemoveItem` once per selected item, in order,
   * whatever the earlier calls returned. The i-th call throws when i is in
   * `faults`. The results are what the per-item report shows.
   */
  method RemoveItems(store: RegistryStore, items: seq<QuickAccessItem>, faults: set<nat>) returns (results: seq<bool>)
    modifies store`nameSpace
    ensures results == Reports(|items|, old(store.nameSpace).Some? && store.writable, faults)
    ensures store.nameSpace ==
      if old(store.nameSpace).Some? && store.writable
      then Some(WithoutAll(old(store.nameSpace).value, DeletedGuids(items, faults)))
      else old(store.nameSpace)
  {
    ghost var start := old(store.nameSpace);
    ghost var live := start.Some? && store.writable;
    results := [];
    var i := 0;
    while i < |items|
      invariant 0 <= i <= |items|
      invariant results == Reports(i, live, faults)
      invariant live ==> store.nameSpace == Some(WithoutAll(start.value, DeletedGuids(items[..i], faults)))
      invariant !live ==> store.nameSpace == start
    {
      var ok := RemoveItem(store, items[i], i in faults);
      RemovalStep(start.GetOr([]), items, i, faults);
      ReportsNext(i, live, faults);
      results := results + [ok];
      i := i + 1;
    }
    assert items[..|items|] == items;
  }

  // ---------------------------------------------------------------- the workflow

  /** The points where an unguarded console operation may throw. */
  datatype Phase =
    | Starting    // clearing the console and printing the header, before the scan
    | Prompting   // showing the table and the options, before the selection is read
    | Confirming  // listing the selection, before the reply is read
    | Reporting   // after the removals, before Explorer is restarted
    | Finishing   // after the restart, before the final pause

  /** How a run ends. */
  datatype Ending =
    | Completed        // removals done and Explorer restarted
    | NothingFound     // the scan returned no item
    | NothingSelected  // the selection was empty
    | Cancelled        // the reply was not "Y"
    | QuitChosen       // the operator typed "Q"
    | Crashed          // an exception escaped to the top level

  /** The observable effects of a run: how it ended, the items passed to RemoveItem in order, and whether Explorer was restarted. */
  datatype Outcome = Outcome(ending: Ending, removals: seq<QuickAccessItem>, restarted: bool)

  /**
   * The run for the scanned items `found`, the two input lines and a
   * possible escaping exception: a linear sequence of steps with early exits.
   */
  function Workflow(found: seq<QuickAccessItem>, choice: Option<string>, reply: Option<string>, crash: Option<Phase>): (o: Outcome)
    ensures o.removals != [] ==> UserSelection(found, choice) == Selected(o.removals) && ConfirmRemoval(reply)
    ensures o.restarted ==> o.removals != []
  {
    if crash == Some(Starting) then Outcome(Crashed, [], false)
    else if |found| == 0 then Outcome(NothingFound, [], false)
    else if crash == Some(Prompting) then Outcome(Crashed, [], false)
    else match UserSelection(found, choice)
      case Quit => Outcome(QuitChosen, [], false)
      case Selected(items) =>
        if |items| == 0 then Outcome(NothingSelected, [], false)
        else if crash == Some(Confirming) then Outcome(Crashed, [], false)
        else if !ConfirmRemoval(reply) then Outcome(Cancelled, [], false)
        else if crash == Some(Reporting) then Outcome(Crashed, items, false)
        else if crash == Some(Finishing) then Outcome(Crashed, items, true)
        else Outcome(Completed, items, true)
  }

  /** `Main`: 1 when an exception escaped the workflow, 0 otherwise (quitting included). */
  function ExitCode(ending: Ending): (code: int)
    ensures code == 0 || code == 1
    ensures code == 1 <==> ending == Crashed
  {
    match ending
    case Crashed => 1
    case _ => 0
  }

  /**
   * `RunCleanup`: scan, select, confirm, remove each item, restart
   * Explorer. `scanFault` and `removeFaults` are the store failures the
   * scanner and the removal catch; `crash` is an exception nothing catches.
   */
  method RunCleanup(store: RegistryStore, scanFault: Option<nat>, choice: Option<string>, reply: Option<string>,
                    removeFaults: set<nat>, crash: Option<Phase>)
    returns (o: Outcome, results: seq<bool>)
    modifies store`nameSpace
    ensures o == Workflow(ScanResult(old(store.nameSpace), scanFault), choice, reply, crash)
    ensures results == Reports(|o.removals|, old(store.nameSpace).Some? && store.writable, removeFaults)
    ensures store.nameSpace ==
      if o.removals != [] && old(store.nameSpace).Some? && store.writable
      then Some(WithoutAll(old(store.nameSpace).value, DeletedGuids(o.removals, removeFaults)))
      else old(store.nameSpace)
  {
    results := [];
    if crash == Some(Starting) {
      return Outcome(Crashed, [], false), results;
    }
    var foundItems := ScanForItems(store, scanFault);
    if |foundItems| == 0 {
      return Outcome(NothingFound, [], false), results;
    }
    if crash == Some(Prompting) {
      return Outcome(Crashed, [], false), results;
    }
    var selection := GetUserSelection(foundItems, choice);
    if selection.Quit? {
      return Outcome(QuitChosen, [], false), results;
    }
    var itemsToRemove := selection.items;
    if |itemsToRemove| == 0 {
      return Outcome(NothingSelected, [], false), results;
    }
    if crash == Some(Confirming) {
      return Outcome(Crashed, [], false), results;
    }
    if !ConfirmRemoval(reply) {
      return Outcome(Cancelled, [], false), results;
    }
    results := RemoveItems(store, itemsToRemove, removeFaults);
    if crash == Some(Reporting) {
      return Outcome(Crashed, itemsToRemove, false), results;
    }
    // RestartExplorer catches its own failures: reaching it means it ran.
    var restarted := true;
    if crash == Some(Finishing) {
      return Outcome(Crashed, itemsToRemove, restarted), results;
    }
    return Outcome(Completed, itemsToRemove, restarted), results;
  }

  // ---------------------------------------------------------------- workflow properties

  /** An empty scan, an empty selection, a declined confirmation or a quit removes nothing and restarts nothing. */
  lemma EarlyExitsChangeNothing(found: seq<QuickAccessItem>, choice: Option<string>, reply: Option<string>, crash: Option<Phase>)
    requires crash.None?
    requires found == []
      || UserSelection(found, choice) == Quit
      || UserSelection(found, choice) == Selected([])
      || !ConfirmRemoval(reply)
    ensures Workflow(found, choice, reply, crash).removals == []
    ensures !Workflow(found, choice, reply, crash).restarted
    ensures ExitCode(Workflow(found, choice, reply, crash).ending) == 0
    ensures Workflow(found, choice, reply, crash).ending ==
      if found == [] then NothingFound
      else if UserSelection(found, choice) == Quit then QuitChosen
      else if UserSelection(found, choice) == Selected([]) then NothingSelected
      else Cancelled
  {
  }

  /** A confirmed, non-empty selection removes every selected item in order and then restarts Explorer once. */
  lemma ConfirmedRunRemovesSelection(found: seq<QuickAccessItem>, choice: Option<string>, reply: Option<string>, items: seq<QuickAccessItem>)
    requires found != [] && UserSelection(found, choice) == Selected(items) && items != []
    requires ConfirmRemoval(reply)
    ensures Workflow(found, choice, reply, None) == Outcome(Completed, items, true)
    ensures ExitCode(Completed) == 0
  {
  }

  /**
   * The run gets as far as the console step `p`: the header is always
   * printed; the table only when items were found; the selection is listed
   * only when it is non-empty; the removals and the restart happen only
   * after a confirming reply.
   */
  predicate PhaseReached(found: seq<QuickAccessItem>, choice: Option<string>, reply: Option<string>, p: Phase) {
    var listed := found != [] && UserSelection(found, choice).Selected? && UserSelection(found, choice).items != [];
    match p
    case Starting => true
    case Prompting => found != []
    case Confirming => listed
    case Reporting => listed && ConfirmRemoval(reply)
    case Finishing => listed && ConfirmRemoval(reply)
  }

  /** `Main` exits with 1 exactly when an exception is thrown at a console step the run reaches. */
  lemma RunExitCode(found: seq<QuickAccessItem>, choice: Option<string>, reply: Option<string>, crash: Option<Phase>)
    ensures ExitCode(Workflow(found, choice, reply, crash).ending) == 1
      <==> crash.Some? && PhaseReached(found, choice, reply, crash.value)
  {
    NoCrashNoError(found, choice, reply);
    if crash.Some? {
      if PhaseReached(found, choice, reply, crash.value) {
        CrashLeavesBehind(found, choice, reply, crash.value);
      } else {
        UnreachedCrashIsHarmless(found, choice, reply, crash.value);
      }
    }
  }

  /** Without an escaping exception the run never ends as crashed. */
  lemma NoCrashNoError(found: seq<QuickAccessItem>, choice: Option<string>, reply: Option<string>)
    ensures Workflow(found, choice, reply, None).ending != Crashed
  {
  }

  /**
   * What a crash leaves behind: one before the removals removes nothing;
   * one after them leaves the selection removed, with Explorer restarted
   * only when the crash comes after the restart.
   */
  lemma CrashLeavesBehind(found: seq<QuickAccessItem>, choice: Option<string>, reply: Option<string>, p: Phase)
    requires PhaseReached(found, choice, reply, p)
    ensures Workflow(found, choice, reply, Some(p)).ending == Crashed
    ensures Workflow(found, choice, reply, Some(p)).removals ==
      if p == Reporting || p == Finishing then UserSelection(found, choice).items else []
    ensures Workflow(found, choice, reply, Some(p)).restarted <==> p == Finishing
  {
    if p == Reporting || p == Finishing {
      CrashAfterRemoval(found, choice, reply, p, UserSelection(found, choice).items);
    } else {
      CrashBeforeRemoval(found, choice, reply, p);
    }
  }

  /** A throw before the reply is read ends the run with nothing removed and no restart. */
  lemma CrashBeforeRemoval(found: seq<QuickAccessItem>, choice: Option<string>, reply: Option<string>, p: Phase)
    requires p == Starting || (p == Prompting && found != [])
      || (p == Confirming && found != [] && UserSelection(found, choice).Selected? && UserSelection(found, choice).items != [])
    ensures Workflow(found, choice, reply, Some(p)) == Outcome(Crashed, [], false)
  {
  }

  /** A throw after the removals ends the run with the selection removed, and restarted only after the restart step. */
  lemma CrashAfterRemoval(found: seq<QuickAccessItem>, choice: Option<string>, reply: Option<string>, p: Phase,
                          items: seq<QuickAccessItem>)
    requires p == Reporting || p == Finishing
    requires found != [] && UserSelection(found, choice) == Selected(items) && items != [] && ConfirmRemoval(reply)
    ensures Workflow(found, choice, reply, Some(p)) == Outcome(Crashed, items, p == Finishing)
  {
  }

  /** A throw at a console step the run never reaches changes nothing. */
  lemma UnreachedCrashIsHarmless(found: seq<QuickAccessItem>, choice: Option<string>, reply: Option<string>, p: Phase)
    requires !PhaseReached(found, choice, reply, p)
    ensures Workflow(found, choice, reply, Some(p)) == Workflow(found, choice, reply, None)
  {
  }

  /**
   * The safety property of the tool: whatever the operator types, every
   * item handed to RemoveItem names a key of the store that is neither a
   * protected system folder nor one of the user's own folders.
   */
  lemma NeverRemovesProtected(keys: seq<SubKey>, scanFault: Option<nat>, choice: Option<string>, reply: Option<string>,
                              crash: Option<Phase>, x: QuickAccessItem)
    requires x in Workflow(ScanResult(Some(keys), scanFault), choice, reply, crash).removals
    ensures !IsBlacklisted(x.Guid)
    ensures exists k :: k in keys && k.name == x.Guid && !IsCustomFolder(k.defaultValue)
  {
    var found := ScanResult(Some(keys), scanFault);
    RemovalRequiresConfirmation(found, choice, reply, crash, x);
    var i :| 0 <= i < |found| && found[i] == x;
    var n := Reached(|keys|, scanFault);
    var prefix := keys[..n];
    assert found == Scan(prefix);
    ScanItemsAreOffered(prefix, i);
    var k :| k in prefix && x.Guid == k.name && !IsBlacklisted(k.name) && !IsCustomFolder(k.defaultValue);
    assert k in keys;
  }

  /** An item that reaches RemoveItem was selected from the scan, and the reply confirmed it. */
  lemma RemovalRequiresConfirmation(found: seq<QuickAccessItem>, choice: Option<string>, reply: Option<string>,
                                    crash: Option<Phase>, x: QuickAccessItem)
    requires x in Workflow(found, choice, reply, crash).removals
    ensures x in found
    ensures Trim(reply.GetOr("")) == "Y" || Trim(reply.GetOr("")) == "y"
  {
    SelectionFromItems(found, choice, x);
  }

  // ---------------------------------------------------------------- a worked run

  /** The Pictures folder, which is blacklisted. */
  const ExamplePictures := SubKey("{f874310e-b6b7-47dc-bc84-b9e6b38f5903}", None, [])
  /** An entry whose default value "Apps Folder" marks a custom folder. */
  const ExampleApps := SubKey("{a1b2c3d4-0000-0000-0000-000000000000}", Some("Apps Folder"), [])
  /** The OneDrive entry, named by the known-items table. */
  const ExampleOneDrive := SubKey("{04271989-C4D2-5507-C554-ABE25D4BDDBA}", None, [])

  /** The Pictures entry is skipped: its GUID is on the blacklist. */
  lemma ExamplePicturesSkipped()
    ensures Skipped(ExamplePictures)
  {
    ListedGuidsProtected(0);
  }

  /** The "Apps Folder" entry is skipped: its default value contains the token "Apps". */
  lemma ExampleAppsSkipped()
    ensures Skipped(ExampleApps)
  {
    assert MatchesAt("Apps Folder", CustomFolders[0], 0);
    assert !IsWhiteSpace("Apps Folder"[0]);
  }

  /** The OneDrive entry is offered, under its table name. */
  lemma ExampleOneDriveOffered()
    ensures !Skipped(ExampleOneDrive)
    ensures GetDisplayName(ExampleOneDrive.name, ExampleOneDrive.defaultValue) == "OneDrive"
  {
    KnownItemsNotProtected(ExampleOneDrive.name);
  }

  /** The OneDrive entry's name differs from the other two. */
  lemma ExampleNamesDiffer()
    ensures ExampleOneDrive.name != ExamplePictures.name && ExampleOneDrive.name != ExampleApps.name
  {
    assert ExampleOneDrive.name[1] == '0' && ExamplePictures.name[1] == 'f' && ExampleApps.name[1] == 'a';
  }

  /** The first two entries offer nothing. */
  lemma ExampleSkippedPair()
    ensures Scan([ExamplePictures, ExampleApps]) == []
  {
    ExamplePicturesSkipped();
    ExampleAppsSkipped();
    ScanSnoc([], ExamplePictures);
    assert [] + [ExamplePictures] == [ExamplePictures];
    ScanSnoc([ExamplePictures], ExampleApps);
    assert [ExamplePictures] + [ExampleApps] == [ExamplePictures, ExampleApps];
  }

  /** Of the three entries only OneDrive is offered, as item 1 named "OneDrive". */
  lemma ExampleScan()
    ensures Scan([ExamplePictures, ExampleApps, ExampleOneDrive]) == [ItemFor(1, ExampleOneDrive)]
    ensures ItemFor(1, ExampleOneDrive).Name == "OneDrive"
  {
    var pair := [ExamplePictures, ExampleApps];
    ExampleSkippedPair();
    ExampleOneDriveOffered();
    ScanSnoc(pair, ExampleOneDrive);
    assert pair + [ExampleOneDrive] == [ExamplePictures, ExampleApps, ExampleOneDrive];
  }

  /** Answering "A" and then "Y" on a non-empty scan removes every item and restarts Explorer. */
  lemma ExampleAnswers(found: seq<QuickAccessItem>)
    requires found != []
    ensures Workflow(found, Some("A"), Some("Y"), None) == Outcome(Completed, found, true)
  {
    TrimUnchanged("A");
    TrimUnchanged("Y");
    AllChoice(found, Some("A"));
    ConfirmedRunRemovesSelection(found, Some("A"), Some("Y"), found);
  }

  /** Deleting the OneDrive entry keeps the other two, in order. */
  lemma ExampleDeletion()
    ensures WithoutAll([ExamplePictures, ExampleApps, ExampleOneDrive], DeletedGuids([ItemFor(1, ExampleOneDrive)], {}))
      == [ExamplePictures, ExampleApps]
  {
    var keys := [ExamplePictures, ExampleApps, ExampleOneDrive];
    var name := ExampleOneDrive.name;
    ExampleNamesDiffer();
    assert DeletedGuids([ItemFor(1, ExampleOneDrive)], {}) == [name];
    assert WithoutAll(keys, [name]) == Without(keys, name);
    assert [ExampleOneDrive][1..] == [];
    assert Without([ExampleOneDrive], name) == [];
    assert [ExampleApps, ExampleOneDrive][1..] == [ExampleOneDrive];
    assert Without([ExampleApps, ExampleOneDrive], name) == [ExampleApps];
    assert keys[1..] == [ExampleApps, ExampleOneDrive];
  }

  /**
   * The worked run end to end: of the Pictures folder, the "Apps Folder"
   * entry and OneDrive, only OneDrive is offered; answering "A" and then
   * "Y" deletes it, keeps the other two, and restarts Explorer.
   */
  lemma ExampleRun()
    ensures var keys := [ExamplePictures, ExampleApps, ExampleOneDrive];
      var found := ScanResult(Some(keys), None);
      var o := Workflow(found, Some("A"), Some("Y"), None);
      && found == [ItemFor(1, ExampleOneDrive)] && found[0].Name == "OneDrive"
      && o == Outcome(Completed, found, true)
      && WithoutAll(keys, DeletedGuids(o.removals, {})) == [ExamplePictures, ExampleApps]
  {
    ExampleScan();
    ExampleAnswers([ItemFor(1, ExampleOneDrive)]);
    ExampleDeletion();
  }
}
