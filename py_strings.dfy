/**
 * The few Python `str` operations the coordinate-file reader relies on:
 * `strip()`, `startswith()`, `replace(c, "")`, `split(sep)` with an explicit
 * one-character separator, `int()` on a decimal string and `str()` of an
 * integer.
 */
module PyStrings {
  import opened Wrappers

  /** The characters for which Python's `str.isspace()` holds; `strip()` removes them. */
  predicate IsSpace(c: char) {
    || c == ' ' || c == '\t' || c == '\n' || c == '\r' || c == '\U{0B}' || c == '\U{0C}'
    || ('\U{1C}' <= c <= '\U{1F}') || c == '\U{85}' || c == '\U{A0}' || c == '\U{1680}'
    || ('\U{2000}' <= c <= '\U{200A}') || c == '\U{2028}' || c == '\U{2029}'
    || c == '\U{202F}' || c == '\U{205F}' || c == '\U{3000}'
  }

  /**
   * The whitespace `int()` skips around its digits: ASCII space, tab, line
   * feed, vertical tab, form feed and carriage return, and every non-ASCII
   * `isspace()` character. The ASCII separators U+001C to U+001F, whitespace
   * for `strip()`, are not skipped.
   */
  predicate IsIntSpace(c: char) {
    IsSpace(c) && !('\U{1C}' <= c <= '\U{1F}')
  }

  /** `s` without its leading `ws` characters; `s.lstrip()` when `ws` is `IsSpace`. */
  function StripLeft(s: string, ws: char -> bool): (r: string)
    ensures |r| <= |s|
  {
    if |s| > 0 && ws(s[0]) then StripLeft(s[1..], ws) else s
  }

  /** `s` without its trailing `ws` characters; `s.rstrip()` when `ws` is `IsSpace`. */
  function StripRight(s: string, ws: char -> bool): (r: string)
    ensures |r| <= |s|
  {
    if |s| > 0 && ws(s[|s| - 1]) then StripRight(s[..|s| - 1], ws) else s
  }

  /** `s` without `ws` characters at either end; `s.strip()` when `ws` is `IsSpace`. */
  function Strip(s: string, ws: char -> bool): (r: string)
    ensures |r| <= |s|
  {
    StripRight(StripLeft(s, ws), ws)
  }

  lemma {:induction false} StripLeftParts(s: string, ws: char -> bool)
    ensures var r := StripLeft(s, ws);
      && r == s[|s| - |r|..]
      && (forall k | 0 <= k < |s| - |r| :: ws(s[k]))
      && (r == [] || !ws(r[0]))
  {
    if |s| > 0 && ws(s[0]) {
      StripLeftParts(s[1..], ws);
    }
  }

  lemma {:induction false} StripRightParts(s: string, ws: char -> bool)
    ensures var r := StripRight(s, ws);
      && r == s[..|r|]
      && (forall k | |r| <= k < |s| :: ws(s[k]))
      && (r == [] || !ws(r[|r| - 1]))
  {
    if |s| > 0 && ws(s[|s| - 1]) {
      StripRightParts(s[..|s| - 1], ws);
    }
  }

  /**
   * Stripping removes exactly a whitespace prefix and a whitespace suffix,
   * and what is left neither starts nor ends with whitespace.
   */
  lemma StripParts(s: string, ws: char -> bool)
    ensures var i := |s| - |StripLeft(s, ws)|; var r := Strip(s, ws);
      && i + |r| <= |s| && s[i..i + |r|] == r
      && (forall k | 0 <= k < i :: ws(s[k]))
      && (forall k | i + |r| <= k < |s| :: ws(s[k]))
      && (r == [] || (!ws(r[0]) && !ws(r[|r| - 1])))
  {
    var t := StripLeft(s, ws);
    var i := |s| - |t|;
    var r := StripRight(t, ws);
    StripLeftParts(s, ws);
    StripRightParts(t, ws);
    assert s[i..i + |r|] == r;
    assert r == [] || r[0] == t[0];
    forall k | i + |r| <= k < |s| ensures ws(s[k]) {
      assert s[k] == t[k - i];
    }
  }

  /** A string whose ends are not whitespace is its own strip. */
  lemma StripNoop(s: string, ws: char -> bool)
    requires s == [] || (!ws(s[0]) && !ws(s[|s| - 1]))
    ensures Strip(s, ws) == s
  {
  }

  /** `s.startswith(p)`. */
  predicate StartsWith(s: string, p: string) {
    |p| <= |s| && s[..|p|] == p
  }

  /** `s.replace(c, "")`: `s` with every occurrence of `c` removed. */
  function RemoveChar(s: string, c: char): (r: string)
    ensures c !in r && |r| <= |s|
  {
    if s == [] then [] else (if s[0] == c then [] else [s[0]]) + RemoveChar(s[1..], c)
  }

  /** What `RemoveChar` keeps: no `c`, and every other character as often as before. */
  lemma {:induction false} RemoveCharParts(s: string, c: char)
    ensures c !in RemoveChar(s, c)
    ensures forall d | d != c :: multiset(RemoveChar(s, c))[d] == multiset(s)[d]
  {
    if s != [] {
      RemoveCharParts(s[1..], c);
      assert s == [s[0]] + s[1..];
    }
  }

  /** Removing from `s + [d]` removes from `s`, then keeps `d` unless it is `c`: the kept characters stay in order. */
  lemma {:induction false} RemoveCharSnoc(s: string, d: char, c: char)
    ensures RemoveChar(s + [d], c) == RemoveChar(s, c) + (if d == c then [] else [d])
  {
    if s != [] {
      assert (s + [d])[1..] == s[1..] + [d];
      RemoveCharSnoc(s[1..], d, c);
    }
  }

  /** Removing a character that does not occur changes nothing. */
  lemma {:induction false} RemoveCharAbsent(s: string, c: char)
    requires c !in s
    ensures RemoveChar(s, c) == s
  {
    if s != [] {
      assert c !in s[1..];
      RemoveCharAbsent(s[1..], c);
    }
  }

  /** Index of the first `c` in `s`, as `s.index(c)` finds it. */
  function FirstIndexOf<T(==)>(s: seq<T>, c: T): (i: nat)
    requires c in s
    ensures i < |s| && s[i] == c && c !in s[..i]
  {
    if s[0] == c then 0 else FirstIndexOf(s[1..], c) + 1
  }

  /** `sep.join(parts)`, the inverse of `Split`. */
  function Join(parts: seq<string>, sep: char): string
    requires |parts| >= 1
  {
    if |parts| == 1 then parts[0] else parts[0] + [sep] + Join(parts[1..], sep)
  }

  /** `s.split(sep)` for a one-character separator: the pieces between separators, empty ones included. */
  function Split(s: string, sep: char): (r: seq<string>)
    ensures |r| >= 1
    decreases |s|
  {
    if sep !in s then [s]
    else
      var i := FirstIndexOf(s, sep);
      [s[..i]] + Split(s[i + 1..], sep)
  }

  /** The pieces contain no separator. */
  lemma {:induction false} SplitPiecesFree(s: string, sep: char)
    ensures forall i | 0 <= i < |Split(s, sep)| :: sep !in Split(s, sep)[i]
    decreases |s|
  {
    if sep in s {
      var i := FirstIndexOf(s, sep);
      var rest := Split(s[i + 1..], sep);
      SplitPiecesFree(s[i + 1..], sep);
      assert Split(s, sep) == [s[..i]] + rest;
      assert forall k | 1 <= k < |Split(s, sep)| :: Split(s, sep)[k] == rest[k - 1];
    }
  }

  /** The pieces join back to the input. */
  lemma {:induction false} SplitJoinsBack(s: string, sep: char)
    ensures Join(Split(s, sep), sep) == s
    decreases |s|
  {
    if sep in s {
      var i := FirstIndexOf(s, sep);
      var rest := Split(s[i + 1..], sep);
      SplitJoinsBack(s[i + 1..], sep);
      var parts := [s[..i]] + rest;
      assert Split(s, sep) == parts;
      assert parts[1..] == rest;
      assert Join(parts, sep) == s[..i] + [sep] + Join(rest, sep);
      assert s == s[..i] + [sep] + s[i + 1..];
    }
  }

  /** The first separator of `a + [sep] + b` is the one after `a` when `a` has none. */
  lemma {:induction false} FirstIndexAfter(a: string, sep: char, b: string)
    requires sep !in a
    ensures FirstIndexOf(a + [sep] + b, sep) == |a|
  {
    var s := a + [sep] + b;
    assert s[..|a|] == a;
    assert s[|a|] == sep;
    assert s[..|a| + 1] == a + [sep];
    assert sep in s[..|a| + 1];
  }

  /** Splitting a join of separator-free pieces gives the pieces back. */
  lemma {:induction false} SplitJoin(parts: seq<string>, sep: char)
    requires |parts| >= 1
    requires forall i | 0 <= i < |parts| :: sep !in parts[i]
    ensures Split(Join(parts, sep), sep) == parts
  {
    if |parts| > 1 {
      var rest := Join(parts[1..], sep);
      var s := parts[0] + [sep] + rest;
      assert Join(parts, sep) == s;
      FirstIndexAfter(parts[0], sep, rest);
      var i := |parts[0]|;
      assert s[i] == sep;
      assert s[..i] == parts[0];
      assert s[i + 1..] == rest;
      assert Split(s, sep) == [parts[0]] + Split(rest, sep);
      assert forall k | 0 <= k < |parts| - 1 :: parts[1..][k] == parts[k + 1];
      SplitJoin(parts[1..], sep);
      assert parts == [parts[0]] + parts[1..];
    }
  }


  predicate IsDigit(c: char) {
    '0' <= c <= '9'
  }

  /** Every character is a decimal digit or an underscore. */
  predicate DigitsOrUnderscores(s: string) {
    s == [] || ((IsDigit(s[|s| - 1]) || s[|s| - 1] == '_') && DigitsOrUnderscores(s[..|s| - 1]))
  }

  /** No two underscores in a row. */
  predicate NoDoubleUnderscore(s: string) {
    |s| < 2 || (!(s[|s| - 1] == '_' && s[|s| - 2] == '_') && NoDoubleUnderscore(s[..|s| - 1]))
  }

  /** The digit strings Python's `int()` accepts: digits, with single underscores only between digits. */
  predicate IsDigitRun(s: string) {
    && |s| > 0 && IsDigit(s[0]) && IsDigit(s[|s| - 1])
    && DigitsOrUnderscores(s) && NoDoubleUnderscore(s)
  }

  /** The decimal value of a digit string, underscores ignored. */
  function DigitsValue(s: string): nat
    requires DigitsOrUnderscores(s)
  {
    if s == [] then 0
    else if s[|s| - 1] == '_' then DigitsValue(s[..|s| - 1])
    else DigitsValue(s[..|s| - 1]) * 10 + (s[|s| - 1] as int - '0' as int)
  }

  /** `int(s)` for a decimal string: surrounding whitespace, an optional sign, a digit run; `None` where Python raises ValueError. */
  function ParseInt(s: string): Option<int> {
    var t := Strip(s, IsIntSpace);
    if |t| > 0 && (t[0] == '+' || t[0] == '-') then
      if IsDigitRun(t[1..]) then
        var v: int := DigitsValue(t[1..]);
        Some(if t[0] == '-' then -v else v)
      else None
    else if IsDigitRun(t) then Some(DigitsValue(t))
    else None
  }

  /** `str(n)` for a natural number. */
  function NatToString(n: nat): (r: string)
    ensures |r| >= 1 && IsDigit(r[0]) && IsDigit(r[|r| - 1])
  {
    if n < 10 then ['0' + n as char]
    else NatToString(n / 10) + ['0' + (n % 10) as char]
  }

  /** `str(n)`. */
  function IntToString(n: int): string {
    if n < 0 then "-" + NatToString(-n) else NatToString(n)
  }

  /** The decimal digits of `str(n)` for a natural number. */
  lemma {:induction false} NatToStringDigits(n: nat)
    ensures forall i | 0 <= i < |NatToString(n)| :: IsDigit(NatToString(n)[i])
  {
    if n >= 10 {
      NatToStringDigits(n / 10);
    }
  }

  /** `str(n)` holds no tab and does not end in whitespace. */
  lemma IntToStringPlain(n: int)
    ensures '\t' !in IntToString(n)
    ensures |IntToString(n)| >= 1 && !IsSpace(IntToString(n)[|IntToString(n)| - 1])
  {
    NatToStringDigits(if n < 0 then -n else n);
    var d := NatToString(if n < 0 then -n else n);
    if n < 0 {
      assert IntToString(n) == "-" + d;
      assert forall i | 1 <= i < |IntToString(n)| :: IntToString(n)[i] == d[i - 1];
    }
  }

  lemma {:induction false} NatToStringValue(n: nat)
    ensures DigitsOrUnderscores(NatToString(n)) && NoDoubleUnderscore(NatToString(n))
    ensures DigitsValue(NatToString(n)) == n
  {
    var r := NatToString(n);
    if n >= 10 {
      NatToStringValue(n / 10);
      assert r[..|r| - 1] == NatToString(n / 10);
    }
  }

  /** `int(str(n)) == n`. */
  lemma ParseIntRoundTrip(n: int)
    ensures ParseInt(IntToString(n)) == Some(n)
  {
    var s := IntToString(n);
    var m: nat := if n < 0 then -n else n;
    var d := NatToString(m);
    NatToStringValue(m);
    assert IsDigitRun(d);
    assert Strip(s, IsIntSpace) == s by {
      StripNoop(s, IsIntSpace);
    }
    if n < 0 {
      assert s == "-" + d;
      assert s[1..] == d;
    } else {
      assert s == d && IsDigit(s[0]);
    }
  }

  /** `int()` rejects a field that an ASCII separator U+001C keeps apart from its digits, although `strip()` would remove it. */
  lemma ParseIntKeepsSeparators()
    ensures ParseInt("\U{1C}816") == None
    ensures Strip("\U{1C}816", IsSpace) == "816"
  {
    var s := "\U{1C}816";
    assert !IsIntSpace(s[0]) && !IsIntSpace(s[|s| - 1]);
    StripNoop(s, IsIntSpace);
    assert !IsDigit(s[0]);
    assert s[1..] == "816";
  }
}
