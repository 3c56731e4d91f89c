/**
 * The registry scanner: enumerates the child keys of the Explorer NameSpace
 * key, filters and numbers them, and deletes one child key with its subtree.
 * The registry is an abstract store; the Explorer restart is left to the
 * workflow as a single event.
 */
module RegistryScanner {
  import opened Wrappers
  import opened Text
  import opened ItemFilter
  import opened Models

  const NameSpacePath: string := "Software\\Microsoft\\Windows\\CurrentVersion\\Explorer\\Desktop\\NameSpace"

  /**
   * A child key of NameSpace: its name, its default value as the scanner
   * reads it (None when there is none or the key cannot be opened), and the
   * keys beneath it, which are deleted with it.
   */
  datatype SubKey = SubKey(name: string, defaultValue: Option<string>, children: seq<SubKey>)

  /** Registry key names under one parent are distinct. */
  predicate NamesDistinct(keys: seq<SubKey>) {
    forall i, j :: 0 <= i < j < |keys| ==> keys[i].name != keys[j].name
  }

  // ---------------------------------------------------------------- scanning

  /** A key the scan passes over: a protected system folder or one of the user's own folders. */
  predicate Skipped(k: SubKey) {
    IsBlacklisted(k.name) || IsCustomFolder(k.defaultValue)
  }

  /** The keys the scan offers, in enumeration order. */
  function Kept(keys: seq<SubKey>): (r: seq<SubKey>)
    ensures |r| <= |keys|
  {
    if |keys| == 0 then []
    else Kept(keys[..|keys| - 1]) + (if Skipped(keys[|keys| - 1]) then [] else [keys[|keys| - 1]])
  }

  /** Exactly the keys that are not skipped are offered. */
  lemma {:induction false} KeptMembers(keys: seq<SubKey>, k: SubKey)
    ensures k in Kept(keys) <==> k in keys && !Skipped(k)
  {
    if |keys| > 0 {
      var init, last := keys[..|keys| - 1], keys[|keys| - 1];
      KeptMembers(init, k);
      assert keys == init + [last];
    }
  }

  /** The item built for key `k` when it is the `number`-th one offered. */
  function ItemFor(number: int, k: SubKey): QuickAccessItem {
    QuickAccessItem(number, k.name, GetDisplayName(k.name, k.defaultValue), NameSpacePath + "\\" + k.name, false)
  }

  /**
   * The items a complete scan of `keys` returns, built the way the loop
   * builds them: one per kept key, numbered by a counter that starts at 1.
   * Equivalently, item `i` is the item for the `i`-th kept key, numbered `i + 1`.
   */
  function Scan(keys: seq<SubKey>): (r: seq<QuickAccessItem>)
    ensures |r| == |Kept(keys)|
  {
    if |keys| == 0 then []
    else
      var init, last := keys[..|keys| - 1], keys[|keys| - 1];
      var done := Scan(init);
      if Skipped(last) then done else done + [ItemFor(|done| + 1, last)]
  }

  /** One more enumerated key adds its item, numbered after the others, unless the key is skipped. */
  lemma ScanSnoc(keys: seq<SubKey>, k: SubKey)
    ensures Scan(keys + [k]) == if Skipped(k) then Scan(keys) else Scan(keys) + [ItemFor(|Scan(keys)| + 1, k)]
  {
    assert (keys + [k])[..|keys|] == keys;
  }

  /** Item `i` of a scan is the item for the `i`-th kept key, numbered `i + 1`. */
  lemma {:induction false} ScanNumbers(keys: seq<SubKey>, i: nat)
    requires i < |Scan(keys)|
    ensures Scan(keys)[i] == ItemFor(i + 1, Kept(keys)[i])
  {
    var init := keys[..|keys| - 1];
    if i < |Scan(init)| {
      ScanNumbers(init, i);
    }
  }

  /** How many keys are enumerated before the scan stops: all of them, or up to a fault. */
  function Reached(count: nat, fault: Option<nat>): (n: nat)
    ensures n <= count
    ensures fault.None? ==> n == count
  {
    if fault.Some? && fault.value < count then fault.value else count
  }

  /** What a scan returns for the NameSpace contents `nameSpace` and a possible fault. */
  function ScanResult(nameSpace: Option<seq<SubKey>>, fault: Option<nat>): (r: seq<QuickAccessItem>)
    ensures nameSpace.None? ==> r == []
    ensures nameSpace.Some? && fault.None? ==> r == Scan(nameSpace.value)
    ensures nameSpace.Some? ==> |r| <= |Scan(nameSpace.value)| && r == Scan(nameSpace.value)[..|r|]
  {
    if nameSpace.None? then []
    else
      var keys := nameSpace.value;
      ScanPrefix(keys, Reached(|keys|, fault));
      assert keys[..|keys|] == keys;
      Scan(keys[..Reached(|keys|, fault)])
  }

  /**
   * `ScanForItems` over the store. `fault` is the index of the key whose
   * processing throws (0 also covers a failure to enumerate); the single
   * catch around the loop then returns what was collected so far.
   */
  method ScanForItems(store: RegistryStore, fault: Option<nat>) returns (items: seq<QuickAccessItem>)
    ensures items == ScanResult(store.nameSpace, fault)
  {
    items := [];
    if store.nameSpace.None? {
      return;
    }
    var keys := store.nameSpace.value;
    var stop := Reached(|keys|, fault);
    var itemNumber := 1;
    var i := 0;
    while i < stop
      invariant 0 <= i <= stop
      invariant items == Scan(keys[..i])
      invariant itemNumber == |items| + 1
    {
      var k := keys[i];
      ghost var next := keys[..i + 1];
      assert next[..|next| - 1] == keys[..i] && next[|next| - 1] == k;
      assert Scan(next) == if Skipped(k) then items else items + [ItemFor(|items| + 1, k)];
      if !IsBlacklisted(k.name) && !IsCustomFolder(k.defaultValue) {
        var displayName := GetDisplayName(k.name, k.defaultValue);
        items := items + [QuickAccessItem(itemNumber, k.name, displayName, NameSpacePath + "\\" + k.name, false)];
        itemNumber := itemNumber + 1;
      }
      i := i + 1;
    }
    assert items == Scan(keys[..stop]);
  }

  // ---------------------------------------------------------------- scan properties

  /** How many keys are blacklisted. */
  function CountBlacklisted(keys: seq<SubKey>): nat {
    if |keys| == 0 then 0
    else CountBlacklisted(keys[..|keys| - 1]) + (if IsBlacklisted(keys[|keys| - 1].name) then 1 else 0)
  }

  /** How many of the keys that are not blacklisted have a custom-folder default value. */
  function CountCustom(keys: seq<SubKey>): nat {
    if |keys| == 0 then 0
    else
      var last := keys[|keys| - 1];
      CountCustom(keys[..|keys| - 1]) + (if !IsBlacklisted(last.name) && IsCustomFolder(last.defaultValue) then 1 else 0)
  }

  /** N keys, K blacklisted and M custom among the rest, give N - K - M items. */
  lemma {:induction false} ScanCount(keys: seq<SubKey>)
    ensures |Scan(keys)| == |keys| - CountBlacklisted(keys) - CountCustom(keys)
  {
    if |keys| > 0 {
      ScanCount(keys[..|keys| - 1]);
    }
  }

  /**
   * Every scanned item comes from an enumerated key that is neither
   * blacklisted nor a custom folder; its Guid is the key name, its name is
   * the resolved display name, its path is NameSpace plus the key name, and
   * it is not protected. Numbers run 1..n in order.
   */
  lemma ScanItemsAreOffered(keys: seq<SubKey>, i: nat)
    requires i < |Scan(keys)|
    ensures Scan(keys)[i].Number == i + 1
    ensures exists k :: (k in keys && Scan(keys)[i].Guid == k.name
      && !IsBlacklisted(k.name) && !IsCustomFolder(k.defaultValue)
      && Scan(keys)[i].Name == GetDisplayName(k.name, k.defaultValue)
      && Scan(keys)[i].RegistryPath == NameSpacePath + "\\" + k.name
      && !Scan(keys)[i].IsProtected)
  {
    var k := Kept(keys)[i];
    ScanNumbers(keys, i);
    KeptMembers(keys, k);
  }

  /** No scanned item ever carries a blacklisted GUID. */
  lemma ScanNeverOffersBlacklisted(keys: seq<SubKey>, x: QuickAccessItem)
    requires x in Scan(keys)
    ensures !IsBlacklisted(x.Guid)
  {
    var i :| 0 <= i < |Scan(keys)| && Scan(keys)[i] == x;
    ScanItemsAreOffered(keys, i);
  }

  /** Filtering respects enumeration order: the kept keys of a concatenation are concatenated. */
  lemma {:induction false} KeptAppend(a: seq<SubKey>, b: seq<SubKey>)
    ensures Kept(a + b) == Kept(a) + Kept(b)
    decreases |b|
  {
    if |b| == 0 {
      assert a + b == a;
    } else {
      var b' := b[..|b| - 1];
      KeptAppend(a, b');
      assert (a + b)[..|a + b| - 1] == a + b';
    }
  }

  /** A scan cut short by a fault returns a prefix of the complete scan. */
  lemma {:induction false} ScanPrefix(keys: seq<SubKey>, n: nat)
    requires n <= |keys|
    ensures |Scan(keys[..n])| <= |Scan(keys)|
    ensures Scan(keys[..n]) == Scan(keys)[..|Scan(keys[..n])|]
    decreases |keys|
  {
    if n < |keys| {
      var init := keys[..|keys| - 1];
      ScanPrefix(init, n);
      assert init[..n] == keys[..n];
    } else {
      assert keys[..n] == keys;
    }
  }

  // ---------------------------------------------------------------- the store and removal

  /** The part of the registry the tool touches: the NameSpace key, if it exists. */
  class RegistryStore {
    /** The child keys of NameSpace in enumeration order; None when the key does not exist. */
    var nameSpace: Option<seq<SubKey>>
    /** Whether NameSpace can be opened for writing. */
    var writable: bool

    constructor (nameSpace: Option<seq<SubKey>>, writable: bool)
      ensures this.nameSpace == nameSpace && this.writable == writable
    {
      this.nameSpace := nameSpace;
      this.writable := writable;
    }
  }

  /** `keys` with the key called `name` (and so its whole subtree) deleted; nothing if there is none. */
  function Without(keys: seq<SubKey>, name: string): (r: seq<SubKey>)
    ensures |r| <= |keys|
  {
    if |keys| == 0 then []
    else if keys[0].name == name then Without(keys[1..], name)
    else [keys[0]] + Without(keys[1..], name)
  }

  /**
   * `RemoveItem`: opens NameSpace for writing and deletes the item's key
   * tree, missing or not. Fails, changing nothing, when NameSpace is absent
   * or not writable, or when the deletion throws (`fault`).
   */
  method RemoveItem(store: RegistryStore, item: QuickAccessItem, fault: bool) returns (ok: bool)
    modifies store`nameSpace
    ensures ok <==> old(store.nameSpace).Some? && store.writable && !fault
    ensures ok ==> store.nameSpace == Some(Without(old(store.nameSpace).value, item.Guid))
    ensures !ok ==> store.nameSpace == old(store.nameSpace)
  {
    if store.nameSpace.None? || !store.writable {
      return false;
    }
    if fault {
      return false;
    }
    store.nameSpace := Some(Without(store.nameSpace.value, item.Guid));
    return true;
  }

  // ---------------------------------------------------------------- removal properties

  /** Exactly the keys with another name remain. */
  lemma {:induction false} WithoutKeeps(keys: seq<SubKey>, name: string, k: SubKey)
    ensures k in Without(keys, name) <==> k in keys && k.name != name
  {
    if |keys| > 0 {
      WithoutKeeps(keys[1..], name, k);
      assert keys == [keys[0]] + keys[1..];
    }
  }

  /** Deleting keeps key names distinct. */
  lemma {:induction false} WithoutKeepsDistinct(keys: seq<SubKey>, name: string)
    requires NamesDistinct(keys)
    ensures NamesDistinct(Without(keys, name))
  {
    if |keys| > 0 {
      WithoutKeepsDistinct(keys[1..], name);
      var rest := Without(keys[1..], name);
      if keys[0].name != name {
        forall j | 0 <= j < |rest| ensures keys[0].name != rest[j].name {
          WithoutKeeps(keys[1..], name, rest[j]);
        }
      }
    }
  }

  /** Deleting an absent key changes nothing. */
  lemma {:induction false} WithoutAbsent(keys: seq<SubKey>, name: string)
    requires forall k :: k in keys ==> k.name != name
    ensures Without(keys, name) == keys
  {
    if |keys| > 0 {
      assert keys[0] in keys;
      WithoutAbsent(keys[1..], name);
      assert keys == [keys[0]] + keys[1..];
    }
  }

  /** Deleting twice is deleting once. */
  lemma WithoutIdempotent(keys: seq<SubKey>, name: string)
    ensures Without(Without(keys, name), name) == Without(keys, name)
  {
    forall k | k in Without(keys, name) ensures k.name != name {
      WithoutKeeps(keys, name, k);
    }
    WithoutAbsent(Without(keys, name), name);
  }

  /** Deletion keeps the remaining keys in their order. */
  lemma {:induction false} WithoutAppend(a: seq<SubKey>, b: seq<SubKey>, name: string)
    ensures Without(a + b, name) == Without(a, name) + Without(b, name)
  {
    if |a| > 0 {
      WithoutAppend(a[1..], b, name);
      assert (a + b)[1..] == a[1..] + b;
    } else {
      assert a + b == b;
    }
  }
}
