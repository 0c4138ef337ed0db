/** Python's whitespace test, str.rstrip/lstrip/strip with no argument, and the
    decimal rendering of a non-negative integer (str(n), %02d). */
module Text {

  /** str.isspace() for one character. The regular-expression class \s on a str
      pattern tests the same predicate, so one definition serves both. */
  predicate IsSpace(c: char)
  {
    || c == ' '
    || '\t' <= c <= '\r'
    || '\U{1C}' <= c <= '\U{1F}'
    || c == '\U{85}'
    || c == '\U{A0}'
    || c == '\U{1680}'
    || '\U{2000}' <= c <= '\U{200A}'
    || c == '\U{2028}'
    || c == '\U{2029}'
    || c == '\U{202F}'
    || c == '\U{205F}'
    || c == '\U{3000}'
  }

  predicate AllSpace(s: string)
  {
    forall i | 0 <= i < |s| :: IsSpace(s[i])
  }

  /** s ends with the characters of suffix. */
  predicate EndsWith(s: string, suffix: string)
  {
    |suffix| <= |s| && s[|s| - |suffix|..] == suffix
  }

  /** str.rstrip(): s without its trailing whitespace. */
  function RTrim(s: string): string
  {
    if s != [] && IsSpace(s[|s| - 1]) then RTrim(s[..|s| - 1]) else s
  }

  /** What str.rstrip() keeps is a prefix of s, the removed tail is whitespace,
      and the result does not end in whitespace. */
  lemma {:induction false} RTrimSpec(s: string)
    ensures RTrim(s) <= s
    ensures AllSpace(s[|RTrim(s)|..])
    ensures RTrim(s) == [] || !IsSpace(RTrim(s)[|RTrim(s)| - 1])
  {
    if s != [] && IsSpace(s[|s| - 1]) {
      var r := RTrim(s[..|s| - 1]);
      RTrimSpec(s[..|s| - 1]);
      assert s[|r|..] == s[..|s| - 1][|r|..] + [s[|s| - 1]];
    }
  }

  /** str.lstrip(): s without its leading whitespace. */
  function LTrim(s: string): string
  {
    if s != [] && IsSpace(s[0]) then LTrim(s[1..]) else s
  }

  /** What str.lstrip() keeps is a suffix of s, the removed head is whitespace,
      and the result does not start with whitespace. */
  lemma {:induction false} LTrimSpec(s: string)
    ensures |LTrim(s)| <= |s|
    ensures LTrim(s) == s[|s| - |LTrim(s)|..]
    ensures AllSpace(s[..|s| - |LTrim(s)|])
    ensures LTrim(s) == [] || !IsSpace(LTrim(s)[0])
  {
    if s != [] && IsSpace(s[0]) {
      var r := LTrim(s[1..]);
      LTrimSpec(s[1..]);
      assert s[..|s| - |r|] == [s[0]] + s[1..][..|s| - 1 - |r|];
    }
  }

  /** str.strip(): s without leading and trailing whitespace. */
  function Strip(s: string): string
  {
    LTrim(RTrim(s))
  }

  /** str.strip() neither starts nor ends with whitespace. */
  lemma StripSpec(s: string)
    ensures |Strip(s)| <= |s|
    ensures Strip(s) == [] || (!IsSpace(Strip(s)[0]) && !IsSpace(Strip(s)[|Strip(s)| - 1]))
  {
    var t := RTrim(s);
    RTrimSpec(s);
    LTrimSpec(t);
    var r := LTrim(t);
    if r != [] {
      assert r[|r| - 1] == t[|t| - 1];
    }
  }

  /** What str.strip() removes is whitespace on both sides: s is some whitespace,
      then Strip(s), then more whitespace. */
  lemma {:induction false} StripIsInfix(s: string)
    ensures var r := Strip(s);
      exists i | 0 <= i <= |s| - |r| :: s[..i] + r + s[i + |r|..] == s && AllSpace(s[..i]) && AllSpace(s[i + |r|..])
  {
    var t := RTrim(s);
    var r := LTrim(t);
    RTrimSpec(s);
    LTrimSpec(t);
    var i := |t| - |r|;
    StripAt(s, t, r, i);
  }

  lemma {:induction false} StripAt(s: string, t: string, r: string, i: nat)
    requires t <= s && AllSpace(s[|t|..])
    requires i + |r| == |t| && r == t[i..] && AllSpace(t[..i])
    ensures s[..i] + r + s[i + |r|..] == s && AllSpace(s[..i]) && AllSpace(s[i + |r|..])
  {
    assert s[..i] == t[..i];
    assert s[..i] + r == t;
    assert t + s[|t|..] == s;
  }

  /** RTrim is the only prefix with those two properties. */
  lemma {:induction false} RTrimUnique(s: string, r: string)
    requires r <= s
    requires AllSpace(s[|r|..])
    requires r == [] || !IsSpace(r[|r| - 1])
    ensures r == RTrim(s)
  {
    var t := RTrim(s);
    RTrimSpec(s);
    if |r| < |t| {
      assert false;
    } else if |t| < |r| {
      assert false;
    }
  }

  lemma {:induction false} RTrimIdempotent(s: string)
    ensures RTrim(RTrim(s)) == RTrim(s)
  {
    var t := RTrim(s);
    RTrimSpec(s);
    assert t[|t|..] == [];
    RTrimUnique(t, t);
  }

  // ---------------------------------------------------------------------
  // Decimal rendering
  // ---------------------------------------------------------------------

  predicate IsDigit(c: char)
  {
    '0' <= c <= '9'
  }

  predicate AllDigits(s: string)
  {
    forall i | 0 <= i < |s| :: IsDigit(s[i])
  }

  function DigitChar(d: nat): (c: char)
    requires d < 10
    ensures IsDigit(c)
    ensures c as int - '0' as int == d
  {
    ('0' as int + d) as char
  }

  function DigitValue(c: char): nat
    requires IsDigit(c)
  {
    c as int - '0' as int
  }

  /** str(n) for a non-negative int: its shortest base-10 rendering. */
  function NatToString(n: nat): (r: string)
    ensures r != [] && AllDigits(r)
    ensures |r| > 1 ==> r[0] != '0'
  {
    if n < 10 then [DigitChar(n)] else NatToString(n / 10) + [DigitChar(n % 10)]
  }

  /** Reads a string of decimal digits back as a number. */
  function ParseDecimal(s: string): nat
    requires AllDigits(s)
  {
    if s == [] then 0 else ParseDecimal(s[..|s| - 1]) * 10 + DigitValue(s[|s| - 1])
  }

  lemma {:induction false} ParseNatToString(n: nat)
    ensures ParseDecimal(NatToString(n)) == n
  {
    var s := NatToString(n);
    if n >= 10 {
      ParseNatToString(n / 10);
      assert s[..|s| - 1] == NatToString(n / 10);
    }
  }

  /** Distinct numbers render to distinct strings. */
  lemma {:induction false} NatToStringInjective(m: nat, n: nat)
    requires NatToString(m) == NatToString(n)
    ensures m == n
  {
    ParseNatToString(m);
    ParseNatToString(n);
  }

  /** The %02d rendering of 0 <= n < 100 used by %y, %m and %d. */
  function Pad2(n: nat): (r: string)
    requires n < 100
    ensures |r| == 2 && AllDigits(r)
    ensures ParseDecimal(r) == n
  {
    var r := [DigitChar(n / 10), DigitChar(n % 10)];
    assert r[..1] == [DigitChar(n / 10)];
    assert r[..1][..0] == [];
    assert ParseDecimal(r[..1]) == n / 10;
    assert ParseDecimal(r) == (n / 10) * 10 + n % 10;
    r
  }
}
