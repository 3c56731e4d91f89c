/**
 * The few pieces of the .NET string library that the cleanup tool relies on:
 * ordinal ignore-case comparison, `IsNullOrWhiteSpace`, `Trim`,
 * `Split(',', RemoveEmptyEntries)`, ignore-case `Contains` and `int.TryParse`.
 * Case folding is ASCII only and whitespace is a fixed set of characters.
 */
module Text {
  import opened Wrappers

  // ---------------------------------------------------------------- whitespace

  /** The characters treated as white space by `Trim` and `IsNullOrWhiteSpace`. */
  predicate IsWhiteSpace(c: char) {
    c == ' ' || c == '\t' || c == '\n' || c == '\r' || c == '\U{000B}' || c == '\U{000C}'
    || c == '\U{0085}' || c == '\U{00A0}'
  }

  /** Every character of `s` is white space (true of the empty string). */
  predicate IsBlank(s: string) {
    forall i :: 0 <= i < |s| ==> IsWhiteSpace(s[i])
  }

  /** `string.IsNullOrWhiteSpace`: null, empty or only white space, that is, null or empty once trimmed. */
  predicate IsNullOrWhiteSpace(s: Option<string>): (r: bool)
    ensures r <==> s.None? || Trim(s.value) == []
  {
    if s.Some? then TrimEnds(s.value); IsBlank(s.value)
    else true
  }

  // ---------------------------------------------------------------- case folding

  /** Upper-case mapping used by ordinal ignore-case comparison. */
  function ToUpper(c: char): char {
    if 'a' <= c <= 'z' then (c as int - 32) as char else c
  }

  /**
   * Ordinal ignore-case equality: same length and the same upper-cased
   * characters. Equal strings match, and only strings of equal length do.
   */
  predicate EqualsIgnoreCase(a: string, b: string): (r: bool)
    ensures a == b ==> r
    ensures r ==> |a| == |b|
  {
    |a| == |b| && forall i :: 0 <= i < |a| ==> ToUpper(a[i]) == ToUpper(b[i])
  }

  /** A one-letter command matches ignoring case exactly when it is that letter in either case. */
  lemma EqualsIgnoreCaseLetter(s: string, upper: char)
    requires 'A' <= upper <= 'Z'
    ensures EqualsIgnoreCase(s, [upper]) <==> s == [upper] || s == [(upper as int + 32) as char]
  {
    if EqualsIgnoreCase(s, [upper]) {
      assert ToUpper(s[0]) == upper;
    }
  }

  /** The upper-cased form of `s`, which is what a case-insensitive hash set stores. */
  function Upper(s: string): string {
    seq(|s|, i requires 0 <= i < |s| => ToUpper(s[i]))
  }

  /** Comparing upper-cased forms is the same as comparing ignoring case. */
  lemma UpperEqualIff(a: string, b: string)
    ensures Upper(a) == Upper(b) <==> EqualsIgnoreCase(a, b)
  {
    if EqualsIgnoreCase(a, b) {
      assert forall i :: 0 <= i < |a| ==> Upper(a)[i] == Upper(b)[i];
    }
    if Upper(a) == Upper(b) {
      assert |a| == |Upper(a)|;
      forall i | 0 <= i < |a| ensures ToUpper(a[i]) == ToUpper(b[i]) {
        assert Upper(a)[i] == Upper(b)[i];
      }
    }
  }

  /** `t` occurs in `s` starting at position `k`, ignoring case. */
  predicate MatchesAt(s: string, t: string, k: int) {
    0 <= k <= |s| - |t| && EqualsIgnoreCase(s[k..k + |t|], t)
  }

  /** `t` occurs in `s` at some position, ignoring case. */
  ghost predicate OccursIgnoreCase(s: string, t: string) {
    exists k :: MatchesAt(s, t, k)
  }

  /** Dropping the first character moves every occurrence one place to the left. */
  lemma MatchesShift(s: string, t: string, k: nat)
    requires |s| > 0
    ensures MatchesAt(s[1..], t, k) <==> MatchesAt(s, t, k + 1)
  {
    if 0 <= k <= |s| - 1 - |t| {
      assert s[1..][k..k + |t|] == s[k + 1..k + 1 + |t|];
    }
  }

  /** `s` begins with `t`, ignoring case. */
  predicate StartsWithIgnoreCase(s: string, t: string) {
    |t| <= |s| && EqualsIgnoreCase(s[..|t|], t)
  }

  /**
   * `s.Contains(t, StringComparison.OrdinalIgnoreCase)`: a left-to-right
   * search that tries every start position in turn.
   */
  function ContainsIgnoreCase(s: string, t: string): (r: bool)
    ensures r <==> OccursIgnoreCase(s, t)
    decreases |s|
  {
    if StartsWithIgnoreCase(s, t) then
      assert MatchesAt(s, t, 0) by { assert s[0..0 + |t|] == s[..|t|]; }
      true
    else if |s| <= |t| then
      false
    else
      var r := ContainsIgnoreCase(s[1..], t);
      assert r ==> OccursIgnoreCase(s, t) by {
        if r {
          var k :| MatchesAt(s[1..], t, k);
          MatchesShift(s, t, k);
        }
      }
      assert OccursIgnoreCase(s, t) ==> r by {
        if OccursIgnoreCase(s, t) {
          var k :| MatchesAt(s, t, k);
          assert k != 0 by { assert s[..|t|] == s[0..0 + |t|]; }
          MatchesShift(s, t, k - 1);
        }
      }
      r
  }

  // ---------------------------------------------------------------- trimming

  /** `string.Trim`: drops white space at both ends. */
  function Trim(s: string): (r: string)
    ensures |r| <= |s|
    decreases |s|
  {
    if |s| == 0 then s
    else if IsWhiteSpace(s[0]) then Trim(s[1..])
    else if IsWhiteSpace(s[|s| - 1]) then Trim(s[..|s| - 1])
    else s
  }

  /** A trimmed string neither starts nor ends with white space, and it is empty exactly when the input is blank. */
  lemma {:induction false} TrimEnds(s: string)
    ensures Trim(s) == [] || (!IsWhiteSpace(Trim(s)[0]) && !IsWhiteSpace(Trim(s)[|Trim(s)| - 1]))
    ensures Trim(s) == [] <==> IsBlank(s)
    decreases |s|
  {
    if |s| > 0 && IsWhiteSpace(s[0]) {
      TrimEnds(s[1..]);
      assert IsBlank(s) <==> IsBlank(s[1..]) by {
        if IsBlank(s[1..]) {
          forall i | 0 < i < |s| ensures IsWhiteSpace(s[i]) { assert s[i] == s[1..][i - 1]; }
        }
      }
    } else if |s| > 0 && IsWhiteSpace(s[|s| - 1]) {
      TrimEnds(s[..|s| - 1]);
      assert s[..|s| - 1][0] == s[0];
    }
  }

  /** The trimmed string is the part of `s` between a blank prefix and a blank suffix. */
  lemma {:induction false} TrimBounds(s: string) returns (i: nat, j: nat)
    ensures i <= j <= |s| && Trim(s) == s[i..j]
    ensures IsBlank(s[..i]) && IsBlank(s[j..])
    decreases |s|
  {
    if |s| == 0 {
      i, j := 0, 0;
    } else if IsWhiteSpace(s[0]) {
      var i', j' := TrimBounds(s[1..]);
      i, j := i' + 1, j' + 1;
      assert s[1..][i'..j'] == s[i..j];
      assert s[1..][j'..] == s[j..];
      assert s[..i] == [s[0]] + s[1..][..i'];
      BlankAppend([s[0]], s[1..][..i']);
    } else if IsWhiteSpace(s[|s| - 1]) {
      var t := s[..|s| - 1];
      i, j := TrimBounds(t);
      assert t[i..j] == s[i..j];
      assert t[..i] == s[..i];
      assert s[j..] == t[j..] + [s[|s| - 1]];
      BlankAppend(t[j..], [s[|s| - 1]]);
    } else {
      i, j := 0, |s|;
      assert s[0..|s|] == s;
    }
  }

  /** A concatenation is blank exactly when both parts are. */
  lemma BlankAppend(a: string, b: string)
    ensures IsBlank(a + b) <==> IsBlank(a) && IsBlank(b)
  {
    if IsBlank(a + b) {
      forall k | 0 <= k < |a| ensures IsWhiteSpace(a[k]) { assert a[k] == (a + b)[k]; }
      forall k | 0 <= k < |b| ensures IsWhiteSpace(b[k]) { assert b[k] == (a + b)[|a| + k]; }
    }
  }

  /** A string without white space at either end is its own trim. */
  lemma TrimUnchanged(s: string)
    requires s == [] || (!IsWhiteSpace(s[0]) && !IsWhiteSpace(s[|s| - 1]))
    ensures Trim(s) == s
  {
  }

  /** Trimming a trimmed string changes nothing. */
  lemma TrimIdempotent(s: string)
    ensures Trim(Trim(s)) == Trim(s)
  {
    TrimEnds(s);
    TrimUnchanged(Trim(s));
  }

  // ---------------------------------------------------------------- splitting

  /** `s.Split(sep)`: the pieces between separators, empty pieces included. */
  function SplitOn(s: string, sep: char): (r: seq<string>)
    ensures |r| >= 1
  {
    if |s| == 0 then [""]
    else
      var rest := SplitOn(s[1..], sep);
      if s[0] == sep then [""] + rest
      else [[s[0]] + rest[0]] + rest[1..]
  }

  /** No piece contains the separator. */
  lemma {:induction false} SplitOnPieces(s: string, sep: char)
    ensures forall i :: 0 <= i < |SplitOn(s, sep)| ==> sep !in SplitOn(s, sep)[i]
    decreases |s|
  {
    if |s| > 0 {
      var rest := SplitOn(s[1..], sep);
      var r := SplitOn(s, sep);
      SplitOnPieces(s[1..], sep);
      if s[0] == sep {
        forall i | 0 <= i < |r| ensures sep !in r[i] {
          if i > 0 { assert r[i] == rest[i - 1]; }
        }
      } else {
        forall i | 0 <= i < |r| ensures sep !in r[i] {
          if i > 0 { assert r[i] == rest[i]; }
          else { assert r[0] == [s[0]] + rest[0]; }
        }
      }
    }
  }

  /** `string.Join(sep, pieces)`: the inverse of `SplitOn`. */
  function Join(pieces: seq<string>, sep: char): string
    requires |pieces| >= 1
  {
    if |pieces| == 1 then pieces[0] else pieces[0] + [sep] + Join(pieces[1..], sep)
  }

  /** Splitting loses nothing: joining the pieces with the separator gives back the input. */
  lemma {:induction false} SplitJoin(s: string, sep: char)
    ensures Join(SplitOn(s, sep), sep) == s
    decreases |s|
  {
    if |s| > 0 {
      var rest := SplitOn(s[1..], sep);
      SplitJoin(s[1..], sep);
      if s[0] == sep {
        assert SplitOn(s, sep)[1..] == rest;
      } else {
        var r := SplitOn(s, sep);
        if |rest| == 1 {
          assert r == [[s[0]] + rest[0]];
        } else {
          assert r[1..] == rest[1..];
          assert Join(rest, sep) == rest[0] + [sep] + Join(rest[1..], sep);
        }
      }
    }
  }

  /** A string without the separator is a single piece. */
  lemma {:induction false} SplitOnWithoutSeparator(s: string, sep: char)
    requires sep !in s
    ensures SplitOn(s, sep) == [s]
  {
    if |s| > 0 {
      SplitOnWithoutSeparator(s[1..], sep);
      assert [s[0]] + s[1..] == s;
    }
  }

  /** The first piece runs up to the first separator; the rest is split in turn. */
  lemma {:induction false} SplitOnField(a: string, b: string, sep: char)
    requires sep !in a
    ensures SplitOn(a + [sep] + b, sep) == [a] + SplitOn(b, sep)
  {
    var s := a + [sep] + b;
    if |a| == 0 {
      assert s[1..] == b;
    } else {
      SplitOnField(a[1..], b, sep);
      assert s[1..] == a[1..] + [sep] + b;
      assert [a[0]] + a[1..] == a;
    }
  }

  /** `StringSplitOptions.RemoveEmptyEntries`: keeps the non-empty pieces, in order. */
  function RemoveEmpty(pieces: seq<string>): (r: seq<string>)
    ensures |r| <= |pieces|
    ensures forall i :: 0 <= i < |r| ==> r[i] != []
  {
    if |pieces| == 0 then []
    else if pieces[0] == [] then RemoveEmpty(pieces[1..])
    else [pieces[0]] + RemoveEmpty(pieces[1..])
  }

  /** Exactly the non-empty pieces are kept. */
  lemma {:induction false} RemoveEmptyKeeps(pieces: seq<string>, p: string)
    ensures p in RemoveEmpty(pieces) <==> p in pieces && p != []
  {
    if |pieces| > 0 {
      RemoveEmptyKeeps(pieces[1..], p);
      assert pieces == [pieces[0]] + pieces[1..];
    }
  }

  /** `s.Split(sep, StringSplitOptions.RemoveEmptyEntries)`: non-empty tokens free of the separator. */
  function SplitNonEmpty(s: string, sep: char): (r: seq<string>)
    ensures forall i :: 0 <= i < |r| ==> r[i] != [] && sep !in r[i]
  {
    var r := RemoveEmpty(SplitOn(s, sep));
    assert forall i :: 0 <= i < |r| ==> sep !in r[i] by {
      forall i | 0 <= i < |r| ensures sep !in r[i] {
        RemoveEmptyKeeps(SplitOn(s, sep), r[i]);
        SplitOnPieces(s, sep);
      }
    }
    r
  }

  /** A non-empty string without the separator is a single token; an empty one gives none. */
  lemma SplitNonEmptySingle(s: string, sep: char)
    requires sep !in s
    ensures SplitNonEmpty(s, sep) == if s == [] then [] else [s]
  {
    SplitOnWithoutSeparator(s, sep);
    assert [s][1..] == [];
    assert RemoveEmpty([s]) == (if s == [] then [] else [s]) + RemoveEmpty([]);
  }

  /** A non-empty first field is the first token; the tokens of the rest follow. */
  lemma SplitNonEmptyField(a: string, b: string, sep: char)
    requires sep !in a && a != []
    ensures SplitNonEmpty(a + [sep] + b, sep) == [a] + SplitNonEmpty(b, sep)
  {
    SplitOnField(a, b, sep);
    var pieces := [a] + SplitOn(b, sep);
    assert pieces[1..] == SplitOn(b, sep);
  }

  /** Every token is non-empty and free of the separator, and every non-empty piece is a token. */
  lemma SplitNonEmptyTokens(s: string, sep: char, t: string)
    ensures t in SplitNonEmpty(s, sep) <==> t in SplitOn(s, sep) && t != []
    ensures t in SplitNonEmpty(s, sep) ==> sep !in t
  {
    RemoveEmptyKeeps(SplitOn(s, sep), t);
    SplitOnPieces(s, sep);
  }

  // ---------------------------------------------------------------- integers

  const Int32Min: int := -0x8000_0000
  const Int32Max: int := 0x7FFF_FFFF

  predicate IsDigit(c: char) {
    '0' <= c <= '9'
  }

  predicate AllDigits(s: string) {
    forall i :: 0 <= i < |s| ==> IsDigit(s[i])
  }

  /** The value of a string of decimal digits, most significant first. */
  function DigitsValue(ds: string): nat
    requires AllDigits(ds)
  {
    if |ds| == 0 then 0
    else DigitsValue(ds[..|ds| - 1]) * 10 + (ds[|ds| - 1] as int - '0' as int)
  }

  /**
   * The digit loop of `int.TryParse`: reads the digits left to right,
   * multiplying by ten, and fails at the first character that is not a digit.
   */
  function Magnitude(ds: string): (r: Option<nat>)
  {
    if |ds| == 0 then Some(0)
    else match Magnitude(ds[..|ds| - 1])
      case None => None
      case Some(m) => if IsDigit(ds[|ds| - 1]) then Some(m * 10 + (ds[|ds| - 1] as int - '0' as int)) else None
  }

  /** The digit loop succeeds exactly on strings of digits, with their value. */
  lemma {:induction false} MagnitudeValue(ds: string)
    ensures Magnitude(ds) == if AllDigits(ds) then Some(DigitsValue(ds)) else None
  {
    if |ds| > 0 {
      var init := ds[..|ds| - 1];
      MagnitudeValue(init);
      assert AllDigits(ds) <==> AllDigits(init) && IsDigit(ds[|ds| - 1]) by {
        if AllDigits(init) && IsDigit(ds[|ds| - 1]) {
          forall i | 0 <= i < |ds| ensures IsDigit(ds[i]) {
            if i < |ds| - 1 {
              assert ds[i] == init[i];
            }
          }
        }
      }
    }
  }

  /**
   * `int.TryParse` with the default integer style on an already trimmed
   * string: an optional `+` or `-`, then one or more decimal digits, and a
   * value within the 32-bit range; anything else fails, trailing NUL
   * characters included, which .NET would also accept.
   */
  function ParseInt32(s: string): (r: Option<int>)
    ensures r.Some? ==> Int32Min <= r.value <= Int32Max
    ensures r.Some? ==> |s| > 0 && IsDigit(s[|s| - 1])
  {
    var negative := |s| > 0 && s[0] == '-';
    var digits := if |s| > 0 && (s[0] == '-' || s[0] == '+') then s[1..] else s;
    if |digits| == 0 then None
    else match Magnitude(digits)
      case None => None
      case Some(m) =>
        var v: int := if negative then -(m as int) else m;
        if Int32Min <= v <= Int32Max then
          assert IsDigit(s[|s| - 1]) by { assert s[|s| - 1] == digits[|digits| - 1]; }
          Some(v)
        else None
  }

  /** The decimal rendering of a natural number, as the console shows it. */
  function Decimal(n: nat): (r: string)
    ensures |r| >= 1 && AllDigits(r)
  {
    if n < 10 then [('0' as int + n) as char]
    else Decimal(n / 10) + [('0' as int + n % 10) as char]
  }

  /** Reading back a rendered number gives the number. */
  lemma {:induction false} DecimalValue(n: nat)
    ensures DigitsValue(Decimal(n)) == n
  {
    if n >= 10 {
      DecimalValue(n / 10);
      var d := Decimal(n);
      assert d[..|d| - 1] == Decimal(n / 10);
    }
  }

  /** Every number the tool displays parses back to itself. */
  lemma ParseDecimal(n: nat)
    requires n <= Int32Max
    ensures ParseInt32(Decimal(n)) == Some(n)
  {
    DecimalValue(n);
    MagnitudeValue(Decimal(n));
    assert IsDigit(Decimal(n)[0]);
  }

  /** Whatever parses is a run of digits with at most one sign in front, and the digits give the magnitude. */
  lemma ParseInt32Sound(s: string, v: int)
    requires ParseInt32(s) == Some(v)
    ensures exists d :: (|d| > 0 && AllDigits(d) && DigitsValue(d) == (if v < 0 then -v else v)
      && (s == d || s == "+" + d || s == "-" + d))
  {
    MagnitudeValue(if |s| > 0 && (s[0] == '-' || s[0] == '+') then s[1..] else s);
    if |s| > 0 && (s[0] == '-' || s[0] == '+') {
      var d := s[1..];
      assert s == [s[0]] + d;
      if s[0] == '-' {
        assert s == "-" + d;
      } else {
        assert s == "+" + d;
      }
    }
  }

  /** A sign in front of the digits is the first character, and the digits are the rest. */
  lemma SignThenDigits(sign: char, d: string)
    ensures |[sign] + d| > 0 && ([sign] + d)[0] == sign && ([sign] + d)[1..] == d
  {
    assert ([sign] + d)[1..] == d;
  }

  /** Without a sign, the digit loop runs on the whole string. */
  lemma ParseUnsigned(d: string, m: nat)
    requires |d| > 0 && d[0] != '+' && d[0] != '-' && Magnitude(d) == Some(m)
    ensures ParseInt32(d) == if m <= Int32Max then Some(m as int) else None
  {
  }

  /** A `+` in front leaves the value of the digits that follow. */
  lemma ParsePlus(d: string, m: nat)
    requires |d| > 0 && Magnitude(d) == Some(m)
    ensures ParseInt32("+" + d) == if m <= Int32Max then Some(m as int) else None
  {
    SignThenDigits('+', d);
  }

  /** A `-` in front negates the value of the digits that follow. */
  lemma ParseMinus(d: string, m: nat)
    requires |d| > 0 && Magnitude(d) == Some(m)
    ensures ParseInt32("-" + d) == if m <= -Int32Min then Some(-(m as int)) else None
  {
    SignThenDigits('-', d);
  }

  /** Conversely, digits with no sign or a `+` parse to their value, and with a `-` to its negation, when the result fits in 32 bits. */
  lemma ParseInt32Complete(d: string)
    requires |d| > 0 && AllDigits(d)
    ensures ParseInt32(d) == (if DigitsValue(d) <= Int32Max then Some(DigitsValue(d) as int) else None)
    ensures ParseInt32("+" + d) == ParseInt32(d)
    ensures ParseInt32("-" + d) == (if DigitsValue(d) <= -Int32Min then Some(-(DigitsValue(d) as int)) else None)
  {
    MagnitudeValue(d);
    assert d[0] != '+' && d[0] != '-' by { assert IsDigit(d[0]); }
    ParseUnsigned(d, DigitsValue(d));
    ParsePlus(d, DigitsValue(d));
    ParseMinus(d, DigitsValue(d));
  }

  /** A displayed number with a minus sign in front parses to its negation, down to Int32.MinValue. */
  lemma ParseNegativeDecimal(n: nat)
    requires n <= -Int32Min
    ensures ParseInt32("-" + Decimal(n)) == Some(-(n as int))
  {
    DecimalValue(n);
    ParseInt32Complete(Decimal(n));
  }

  /** A token that is neither a sign nor a digit at the front, such as "x", does not parse. */
  lemma ParseInt32RejectsLetter(s: string)
    requires |s| > 0 && !IsDigit(s[0]) && s[0] != '+' && s[0] != '-'
    ensures ParseInt32(s) == None
  {
    if |s| > 0 {
      MagnitudeValue(s);
      assert !AllDigits(s);
    }
  }
}
