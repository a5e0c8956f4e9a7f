/**
 * The pieces of Python's `str` behaviour that the analyser scripts rely on:
 * `str.isspace`, `str.strip`, `sep.join`, the `in` substring test and the
 * decimal rendering of `int` done by f-strings (`{n}` and `{n:02d}`).
 * Each rendering function has a parser beside it and a round-trip lemma,
 * so that what a rendered string says can be read back from it.
 */
module PyText {

  // ---------------------------------------------------------------------
  // Whitespace and strip()
  // ---------------------------------------------------------------------

  /** `c.isspace()` in Python 3: the characters `str.strip()` removes. */
  predicate IsSpace(c: char) {
    || ('\t' <= c <= '\r')
    || ('\U{1C}' <= c <= ' ')
    || c == '\U{85}' || c == '\U{A0}' || c == '\U{1680}'
    || ('\U{2000}' <= c <= '\U{200A}')
    || c == '\U{2028}' || c == '\U{2029}' || c == '\U{202F}'
    || c == '\U{205F}' || c == '\U{3000}'
  }

  predicate AllSpace(s: string) {
    forall i :: 0 <= i < |s| ==> IsSpace(s[i])
  }

  /** Neither end of `s` is whitespace: `s.strip() == s`. */
  predicate IsStripped(s: string) {
    s == [] || (!IsSpace(s[0]) && !IsSpace(s[|s| - 1]))
  }

  /** `s.lstrip()`: the suffix of `s` left after its leading whitespace. */
  function TrimStart(s: string): (r: string)
    ensures |r| <= |s| && r == s[|s| - |r|..]
    ensures AllSpace(s[..|s| - |r|])
    ensures r == [] || !IsSpace(r[0])
  {
    if s != [] && IsSpace(s[0]) then
      var r := TrimStart(s[1..]);
      assert s[..|s| - |r|] == [s[0]] + s[1..][..|s| - 1 - |r|];
      AllSpaceConcat([s[0]], s[1..][..|s| - 1 - |r|]);
      r
    else s
  }

  /** `s.rstrip()`: the prefix of `s` left before its trailing whitespace. */
  function TrimEnd(s: string): (r: string)
    ensures |r| <= |s| && r == s[..|r|]
    ensures AllSpace(s[|r|..])
    ensures r == [] || !IsSpace(r[|r| - 1])
  {
    if s != [] && IsSpace(s[|s| - 1]) then
      var t := s[..|s| - 1];
      var r := TrimEnd(t);
      assert s[|r|..] == t[|r|..] + [s[|s| - 1]];
      AllSpaceConcat(t[|r|..], [s[|s| - 1]]);
      r
    else s
  }

  /**
   * `s.strip()`: the middle slice of `s` that is left once the whitespace
   * around it is removed; it is empty exactly when `s` is all whitespace.
   */
  function Strip(s: string): (r: string)
    ensures IsStripped(r)
    ensures var i := |s| - |TrimStart(s)|;
      && i + |r| <= |s|
      && r == s[i..i + |r|]
      && AllSpace(s[..i])
      && AllSpace(s[i + |r|..])
    ensures r == [] <==> AllSpace(s)
  {
    var t := TrimStart(s);
    TrimFacts(s, t, TrimEnd(t));
    TrimEnd(t)
  }

  /** What `Strip` promises, proved about any two trims of the shape `TrimStart` and `TrimEnd` give. */
  lemma TrimFacts(s: string, t: string, r: string)
    requires |t| <= |s| && t == s[|s| - |t|..] && AllSpace(s[..|s| - |t|])
    requires t == [] || !IsSpace(t[0])
    requires |r| <= |t| && r == t[..|r|] && AllSpace(t[|r|..])
    requires r == [] || !IsSpace(r[|r| - 1])
    ensures var i := |s| - |t|;
      && IsStripped(r)
      && i + |r| <= |s|
      && r == s[i..i + |r|]
      && AllSpace(s[..i])
      && AllSpace(s[i + |r|..])
      && (r == [] <==> AllSpace(s))
  {
    var i := |s| - |t|;
    assert r == s[i..i + |r|];
    assert s[i + |r|..] == t[|r|..];
    if r != [] {
      assert r[0] == t[0];
    } else {
      assert s == s[..i] + t;
      AllSpaceConcat(s[..i], t);
    }
    if t != [] {
      assert t[0] == s[i];
    }
  }

  /** Stripping a string that is already stripped changes nothing. */
  lemma StripIdentity(s: string)
    requires IsStripped(s)
    ensures Strip(s) == s
  {
    assert TrimStart(s) == s;
    assert TrimEnd(s) == s;
  }

  // ---------------------------------------------------------------------
  // sep.join(parts)
  // ---------------------------------------------------------------------

  /** `sep.join(parts)`. */
  function Join(parts: seq<string>, sep: string): string
  {
    if |parts| == 0 then ""
    else if |parts| == 1 then parts[0]
    else Join(parts[..|parts| - 1], sep) + sep + parts[|parts| - 1]
  }

  lemma AllSpaceConcat(a: string, b: string)
    ensures AllSpace(a + b) <==> AllSpace(a) && AllSpace(b)
  {
    if AllSpace(a + b) {
      forall i | 0 <= i < |a| ensures IsSpace(a[i]) { assert a[i] == (a + b)[i]; }
      forall i | 0 <= i < |b| ensures IsSpace(b[i]) { assert b[i] == (a + b)[|a| + i]; }
    }
  }

  /**
   * Joining with a whitespace separator gives an all-whitespace string
   * exactly when every joined part is all whitespace.
   */
  lemma {:induction false} JoinAllSpace(parts: seq<string>, sep: string)
    requires AllSpace(sep)
    ensures AllSpace(Join(parts, sep)) <==> forall k :: 0 <= k < |parts| ==> AllSpace(parts[k])
  {
    if |parts| > 1 {
      var init := parts[..|parts| - 1];
      JoinAllSpace(init, sep);
      AllSpaceConcat(Join(init, sep), sep);
      AllSpaceConcat(Join(init, sep) + sep, parts[|parts| - 1]);
      assert forall k :: 0 <= k < |init| ==> init[k] == parts[k];
    }
  }

  /** The joined string begins with the first part and ends with the last. */
  lemma {:induction false} JoinEnds(parts: seq<string>, sep: string)
    requires |parts| > 0
    ensures |Join(parts, sep)| >= |parts[0]| && |Join(parts, sep)| >= |parts[|parts| - 1]|
    ensures Join(parts, sep)[..|parts[0]|] == parts[0]
    ensures Join(parts, sep)[|Join(parts, sep)| - |parts[|parts| - 1]|..] == parts[|parts| - 1]
  {
    if |parts| > 1 {
      var init := parts[..|parts| - 1];
      JoinEnds(init, sep);
      var j := Join(init, sep);
      assert Join(parts, sep) == j + sep + parts[|parts| - 1];
      assert (j + sep + parts[|parts| - 1])[..|parts[0]|] == j[..|parts[0]|];
    }
  }

  /**
   * Joining non-empty stripped parts gives a stripped string, whatever the
   * separator: a final `.strip()` of it is a no-op.
   */
  lemma JoinOfStrippedIsStripped(parts: seq<string>, sep: string)
    requires forall k :: 0 <= k < |parts| ==> parts[k] != "" && IsStripped(parts[k])
    ensures IsStripped(Join(parts, sep))
  {
    if |parts| > 0 {
      JoinEnds(parts, sep);
      var j := Join(parts, sep);
      var first, last := parts[0], parts[|parts| - 1];
      assert j[0] == j[..|first|][0] == first[0];
      assert j[|j| - 1] == j[|j| - |last|..][|last| - 1] == last[|last| - 1];
    }
  }

  // ---------------------------------------------------------------------
  // The `in` operator on strings
  // ---------------------------------------------------------------------

  /** `sub in s`: `sub` occurs somewhere in `s`. */
  predicate Contains(s: string, sub: string)
    decreases |s|
  {
    (|sub| <= |s| && s[..|sub|] == sub) || (s != [] && Contains(s[1..], sub))
  }

  // ---------------------------------------------------------------------
  // Decimal rendering of integers (f"{n}", f"{n:02d}") and its parser
  // ---------------------------------------------------------------------

  predicate IsDigit(c: char) {
    '0' <= c <= '9'
  }

  function DigitChar(d: nat): (c: char)
    requires d < 10
    ensures IsDigit(c) && c as int - '0' as int == d
  {
    (d + '0' as int) as char
  }

  /** `str(n)` for `n >= 0`: most significant digit first, no leading zero. */
  function NatStr(n: nat): (r: string)
    ensures |r| > 0 && forall i :: 0 <= i < |r| ==> IsDigit(r[i])
    ensures n >= 10 ==> |r| >= 2
    ensures n < 100 ==> |r| <= 2
  {
    if n < 10 then [DigitChar(n)] else NatStr(n / 10) + [DigitChar(n % 10)]
  }

  /** The value of a string of decimal digits (`int(s)` on digits). */
  function DigitsValue(s: string): int
  {
    if s == [] then 0 else 10 * DigitsValue(s[..|s| - 1]) + (s[|s| - 1] as int - '0' as int)
  }

  /** Reading back the digits of `n` gives `n`. */
  lemma {:induction false} DigitsValueOfNatStr(n: nat)
    ensures DigitsValue(NatStr(n)) == n
  {
    if n >= 10 {
      DigitsValueOfNatStr(n / 10);
      var s := NatStr(n);
      assert s[..|s| - 1] == NatStr(n / 10);
    }
  }

  /** `str(n)` / `f"{n}"` for any Python int. */
  function IntStr(n: int): string
  {
    if n < 0 then "-" + NatStr(-n) else NatStr(n)
  }

  /** `int(s)` on what `IntStr` produces. */
  function ParseInt(s: string): int
  {
    if |s| > 0 && s[0] == '-' then -DigitsValue(s[1..]) else DigitsValue(s)
  }

  /** `IntStr` is read back by `ParseInt`, and uses no character but digits and '-'. */
  lemma IntStrRoundTrip(n: int)
    ensures ParseInt(IntStr(n)) == n
    ensures forall i :: 0 <= i < |IntStr(n)| ==> IsDigit(IntStr(n)[i]) || IntStr(n)[i] == '-'
  {
    if n < 0 {
      var digits := NatStr(-n);
      var s := "-" + digits;
      assert IntStr(n) == s;
      assert s[1..] == digits;
      DigitsValueOfNatStr(-n);
      assert forall i :: 1 <= i < |s| ==> s[i] == digits[i - 1];
    } else {
      DigitsValueOfNatStr(n);
      assert NatStr(n)[0] != '-';
    }
  }

  /**
   * `f"{n:02d}"`: at least two characters, a single digit padded with a
   * leading zero; it still reads back as `n`.
   */
  function Pad2(n: int): (r: string)
    ensures |r| >= 2
    ensures 0 <= n < 100 ==> |r| == 2
    ensures ParseInt(r) == n
    ensures forall i :: 0 <= i < |r| ==> IsDigit(r[i]) || r[i] == '-'
  {
    IntStrRoundTrip(n);
    if 0 <= n < 10 then
      var r := "0" + IntStr(n);
      assert r == ['0', DigitChar(n)];
      assert r[..1] == "0" && DigitsValue("0") == 0;
      assert DigitsValue(r) == n;
      r
    else IntStr(n)
  }

  // ---------------------------------------------------------------------
  // Splitting at a separator character
  // ---------------------------------------------------------------------

  /** `s.find(c)`, or `|s|` when `c` does not occur. */
  function IndexOf(s: string, c: char): (i: nat)
    ensures i <= |s|
    ensures forall k :: 0 <= k < i ==> s[k] != c
    ensures i < |s| ==> s[i] == c
  {
    if s == [] then 0 else if s[0] == c then 0 else 1 + IndexOf(s[1..], c)
  }

  /** `s.partition(c)` without the separator. */
  function SplitAt(s: string, c: char): (string, string)
  {
    var i := IndexOf(s, c);
    (s[..i], if i < |s| then s[i + 1..] else "")
  }

  /** Splitting at the first `c` recovers the two sides when the left one has no `c`. */
  lemma SplitAtConcat(a: string, c: char, b: string)
    requires forall k :: 0 <= k < |a| ==> a[k] != c
    ensures SplitAt(a + [c] + b, c) == (a, b)
  {
    var s := a + [c] + b;
    var i := IndexOf(s, c);
    assert s[|a|] == c;
    assert forall k :: 0 <= k < |a| ==> s[k] == a[k];
    assert i == |a|;
    assert s[..i] == a;
    assert s[i + 1..] == b;
  }

  /** `s[n:]`. */
  function Drop(s: string, n: nat): string {
    if n <= |s| then s[n..] else ""
  }
}
