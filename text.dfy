/**
 * The parts of Python's `str` that the wire protocol relies on: `strip()`, `upper()`,
 * `split(sep)`, `sep.join(parts)`, `str(n)` for integers and `int(s)` for base-10 text.
 */
module Text {
  import opened Results

  /** The characters for which Python's `str.isspace()` holds; `str.strip()` removes them. */
  predicate IsSpace(c: char) {
    ('\t' <= c <= '\r') || ('\U{1c}' <= c <= ' ') || c == '\U{85}' || c == '\U{a0}'
    || c == '\U{1680}' || ('\U{2000}' <= c <= '\U{200a}') || c == '\U{2028}' || c == '\U{2029}'
    || c == '\U{202f}' || c == '\U{205f}' || c == '\U{3000}'
  }

  /** The index of the first character at or after `i` that is not white space, or `|s|`. */
  function SkipSpaces(s: string, i: nat): (k: nat)
    requires i <= |s|
    ensures i <= k <= |s|
    ensures forall j :: i <= j < k ==> IsSpace(s[j])
    ensures k < |s| ==> !IsSpace(s[k])
    decreases |s| - i
  {
    if i < |s| && IsSpace(s[i]) then SkipSpaces(s, i + 1) else i
  }

  /** The end of `s[lo..hi]` once the white space at its end is dropped. */
  function DropSpaces(s: string, lo: nat, hi: nat): (k: nat)
    requires lo <= hi <= |s|
    ensures lo <= k <= hi
    ensures forall j :: k <= j < hi ==> IsSpace(s[j])
    ensures k > lo ==> !IsSpace(s[k - 1])
    decreases hi
  {
    if hi > lo && IsSpace(s[hi - 1]) then DropSpaces(s, lo, hi - 1) else hi
  }

  /** `s.strip()`: `s` without the white space at its start and at its end. */
  function Strip(s: string): string {
    var lo := SkipSpaces(s, 0);
    s[lo..DropSpaces(s, lo, |s|)]
  }

  /** `strip()` leaves text as it is exactly when the text starts and ends with a non-space character. */
  lemma StripKeeps(s: string)
    ensures Strip(s) == s <==> s == [] || (!IsSpace(s[0]) && !IsSpace(s[|s| - 1]))
  {
    var lo := SkipSpaces(s, 0);
    var hi := DropSpaces(s, lo, |s|);
    if s == [] || (!IsSpace(s[0]) && !IsSpace(s[|s| - 1])) {
      assert s[0..|s|] == s;
    }
    if Strip(s) == s && s != [] {
      assert |s[lo..hi]| == hi - lo;
      assert lo == 0 && hi == |s|;
    }
  }

  /** `strip()` yields empty text exactly when every character is white space. */
  lemma StripEmpty(s: string)
    ensures Strip(s) == [] <==> forall i :: 0 <= i < |s| ==> IsSpace(s[i])
  {
  }

  /** Stripping twice is stripping once. */
  lemma StripIdempotent(s: string)
    ensures Strip(Strip(s)) == Strip(s)
  {
    var lo := SkipSpaces(s, 0);
    var hi := DropSpaces(s, lo, |s|);
    var t := s[lo..hi];
    if t != [] {
      assert t[0] == s[lo] && t[|t| - 1] == s[hi - 1];
    }
    StripKeeps(t);
  }

  /** `c.upper()` for the ASCII letters; every other character is left as it is. */
  function UpperChar(c: char): char {
    if 'a' <= c <= 'z' then (c as int - 32) as char else c
  }

  /** `s.upper()`, character by character. */
  function Upper(s: string): string {
    seq(|s|, i requires 0 <= i < |s| => UpperChar(s[i]))
  }

  /** Upper-casing keeps the length, so it never turns non-empty text into empty text. */
  lemma UpperLength(s: string)
    ensures |Upper(s)| == |s|
    ensures Upper(s) == [] <==> s == []
  {
  }

  /** Upper-case text contains no ASCII lower-case letter, and then `upper()` leaves it as it is. */
  lemma UpperKeeps(s: string)
    requires forall i :: 0 <= i < |s| ==> !('a' <= s[i] <= 'z')
    ensures Upper(s) == s
  {
  }

  /** The index of the first `c` at or after `i` in `s`, or `|s|` when there is none. */
  function IndexFrom(s: string, c: char, i: nat): (k: nat)
    requires i <= |s|
    ensures i <= k <= |s|
    ensures forall j :: i <= j < k ==> s[j] != c
    ensures k < |s| ==> s[k] == c
    decreases |s| - i
  {
    if i == |s| || s[i] == c then i else IndexFrom(s, c, i + 1)
  }

  /** `s.find(c)`, with `|s|` standing for "not found". */
  function IndexOf(s: string, c: char): nat {
    IndexFrom(s, c, 0)
  }

  predicate StartsWith(s: string, p: string) {
    |p| <= |s| && s[..|p|] == p
  }

  /**
   * `s.split(sep)` for a non-empty separator: `s` is cut at every occurrence of `sep`, each
   * one searched for from the end of the previous cut (leftmost, non-overlapping).
   */
  function Split(s: string, sep: string): (parts: seq<string>)
    requires sep != []
    ensures |parts| >= 1
    decreases |s|
  {
    if StartsWith(s, sep) then [""] + Split(s[|sep|..], sep)
    else if s == [] then [""]
    else
      var rest := Split(s[1..], sep);
      [[s[0]] + rest[0]] + rest[1..]
  }

  /** `sep.join(parts)` for a non-empty list. */
  function Join(parts: seq<string>, sep: string): string
    requires |parts| >= 1
  {
    if |parts| == 1 then parts[0] else parts[0] + sep + Join(parts[1..], sep)
  }

  /** Joining one more part appends the separator and that part. */
  lemma {:induction false} JoinSnoc(parts: seq<string>, sep: string, last: string)
    requires |parts| >= 1
    ensures Join(parts + [last], sep) == Join(parts, sep) + sep + last
  {
    if |parts| > 1 {
      assert (parts + [last])[1..] == parts[1..] + [last];
      JoinSnoc(parts[1..], sep, last);
    }
  }

  /** `sep` occurs nowhere in `p`. */
  predicate NoOccurrence(p: string, sep: string) {
    forall i :: 0 <= i <= |p| ==> !StartsWith(p[i..], sep)
  }

  /**
   * `p` followed by `sep` holds no occurrence of `sep` that starts inside `p`: when `p` is
   * followed by a separator, the leftmost search cuts exactly after `p`.
   */
  predicate Isolated(p: string, sep: string) {
    forall i :: 0 <= i < |p| ==> !StartsWith(p[i..] + sep, sep)
  }

  /** The parts of a list that `split` gives back unchanged after `join`. */
  predicate Separable(parts: seq<string>, sep: string) {
    && |parts| >= 1
    && (forall k :: 0 <= k < |parts| - 1 ==> Isolated(parts[k], sep))
    && NoOccurrence(parts[|parts| - 1], sep)
  }

  lemma {:induction false} SplitWhole(p: string, sep: string)
    requires sep != [] && NoOccurrence(p, sep)
    ensures Split(p, sep) == [p]
    decreases |p|
  {
    assert !StartsWith(p[0..], sep);
    assert p[0..] == p;
    if p != [] {
      forall i | 0 <= i <= |p[1..]| ensures !StartsWith(p[1..][i..], sep) {
        assert p[1..][i..] == p[i + 1..];
      }
      SplitWhole(p[1..], sep);
      assert [p[0]] + p[1..] == p;
    }
  }

  lemma {:induction false} SplitCut(p: string, sep: string, t: string)
    requires sep != [] && Isolated(p, sep)
    ensures Split(p + sep + t, sep) == [p] + Split(t, sep)
    decreases |p|
  {
    var s := p + sep + t;
    if p == [] {
      assert s == sep + t;
      assert s[..|sep|] == sep;
      assert s[|sep|..] == t;
    } else {
      assert (p[0..] + sep)[..|sep|] == s[..|sep|];
      assert p[0..] == p;
      assert !StartsWith(s, sep);
      forall i | 0 <= i < |p[1..]| ensures !StartsWith(p[1..][i..] + sep, sep) {
        assert p[1..][i..] == p[i + 1..];
      }
      assert s[1..] == p[1..] + sep + t;
      SplitCut(p[1..], sep, t);
      assert [p[0]] + p[1..] == p;
    }
  }

  /** `split` undoes `join` for separable parts. */
  lemma {:induction false} SplitJoin(parts: seq<string>, sep: string)
    requires sep != [] && Separable(parts, sep)
    ensures Split(Join(parts, sep), sep) == parts
    decreases |parts|
  {
    if |parts| == 1 {
      SplitWhole(parts[0], sep);
    } else {
      assert Separable(parts[1..], sep) by {
        assert forall k :: 0 <= k < |parts| - 2 ==> parts[1..][k] == parts[k + 1];
      }
      SplitJoin(parts[1..], sep);
      SplitCut(parts[0], sep, Join(parts[1..], sep));
    }
  }

  predicate IsDigit(c: char) {
    '0' <= c <= '9'
  }

  function DigitChar(d: nat): char
    requires d < 10
  {
    ('0' as int + d) as char
  }

  function DigitValue(c: char): nat
    requires IsDigit(c)
  {
    c as int - '0' as int
  }

  /** `str(n)` for a non-negative integer: its decimal digits, most significant first. */
  function NatToString(n: nat): (s: string)
    ensures |s| >= 1 && forall i :: 0 <= i < |s| ==> IsDigit(s[i])
  {
    if n < 10 then [DigitChar(n)] else NatToString(n / 10) + [DigitChar(n % 10)]
  }

  /** `str(i)` for any integer. */
  function IntToString(i: int): string {
    if i < 0 then "-" + NatToString(-i) else NatToString(i)
  }

  predicate DigitsOrUnderscores(s: string) {
    forall i :: 0 <= i < |s| ==> IsDigit(s[i]) || s[i] == '_'
  }

  /** The body of a base-10 literal for `int()`: digits, with single underscores between digits. */
  predicate IsDigitRun(s: string) {
    && |s| >= 1
    && DigitsOrUnderscores(s)
    && IsDigit(s[0]) && IsDigit(s[|s| - 1])
    && forall i :: 0 <= i < |s| - 1 && s[i] == '_' ==> IsDigit(s[i + 1])
  }

  /** The value of a run of digits and underscores, the underscores ignored. */
  function DigitsValue(s: string): nat
    requires DigitsOrUnderscores(s)
  {
    if s == [] then 0
    else if s[|s| - 1] == '_' then DigitsValue(s[..|s| - 1])
    else DigitsValue(s[..|s| - 1]) * 10 + DigitValue(s[|s| - 1])
  }

  /**
   * `int(s)` for a string: white space at either end is stripped with `Strip`'s set, then an optional
   * sign and a digit run; anything else makes Python raise `ValueError`, here `None`. `int()` itself
   * skips a smaller set (no `\x1c`-`\x1f`); every text read here was stripped with `Strip` already.
   */
  function ParseInt(s: string): Option<int> {
    var t := Strip(s);
    if t != [] && (t[0] == '+' || t[0] == '-') then
      if IsDigitRun(t[1..]) then
        Some(if t[0] == '-' then 0 - DigitsValue(t[1..]) else DigitsValue(t[1..]) as int)
      else None
    else if IsDigitRun(t) then Some(DigitsValue(t))
    else None
  }

  /** Python's `repr` of a string without quotes or escapes in it: the text in single quotes. */
  function Repr(s: string): string {
    "'" + s + "'"
  }

  lemma {:induction false} DigitsValueOfNat(n: nat)
    ensures DigitsValue(NatToString(n)) == n
  {
    var s := NatToString(n);
    if n >= 10 {
      DigitsValueOfNat(n / 10);
      assert s[..|s| - 1] == NatToString(n / 10);
    }
  }

  /** The decimal text of a natural number is a digit run worth that number. */
  lemma NatToStringRun(n: nat)
    ensures IsDigitRun(NatToString(n)) && DigitsValue(NatToString(n)) == n
  {
    DigitsValueOfNat(n);
  }

  /** `int(str(i)) == i`: the decimal text of an integer reads back as that integer. */
  lemma ParseIntToString(i: int)
    ensures ParseInt(IntToString(i)) == Some(i)
  {
    if i < 0 {
      ParseIntNegative(-i);
    } else {
      ParseIntNatural(i);
    }
  }

  lemma ParseIntNatural(n: nat)
    ensures ParseInt(NatToString(n)) == Some(n)
  {
    NatToStringRun(n);
    ParseIntRun(NatToString(n));
  }

  lemma ParseIntNegative(n: nat)
    ensures ParseInt("-" + NatToString(n)) == Some(0 - n)
  {
    NatToStringRun(n);
    ParseIntNegativeRun(NatToString(n));
  }

  /** A digit run, unsigned and without white space, reads back as its value. */
  lemma ParseIntRun(t: string)
    requires IsDigitRun(t)
    ensures ParseInt(t) == Some(DigitsValue(t))
  {
    StripDigitEnd(t);
  }

  /** A digit run behind a minus sign reads back as the negated value. */
  lemma ParseIntNegativeRun(t: string)
    requires IsDigitRun(t)
    ensures ParseInt("-" + t) == Some(0 - DigitsValue(t))
  {
    var s := "-" + t;
    assert s[0] == '-' && s[|s| - 1] == t[|t| - 1];
    StripDigitEnd(s);
    assert s[1..] == t;
  }

  /** Text that starts with a non-space and ends with a digit is left as it is by `strip()`. */
  lemma StripDigitEnd(s: string)
    requires s != [] && !IsSpace(s[0]) && IsDigit(s[|s| - 1])
    ensures Strip(s) == s
  {
    StripKeeps(s);
  }
}
