/**
 * The string operations the assembler and the loader rely on: Python's
 * str.strip(), str.replace(c, ""), str.split(" ") and int(), on ASCII text.
 */
module Text {
  import opened Options

  /** Python's str.isspace() restricted to ASCII: tab through carriage return, the
      four separator controls 0x1C-0x1F, and the space. */
  predicate IsSpace(c: char) {
    ('\t' <= c <= '\r') || ('\U{1C}' <= c <= ' ')
  }

  /** The whitespace int() skips around an ASCII token: the space and tab through carriage return. */
  predicate IsIntSpace(c: char) {
    c == ' ' || '\t' <= c <= '\r'
  }

  /** Which characters a trim drops: those of str.strip() or those of int(). */
  datatype Spaces = StripSpaces | IntSpaces

  predicate IsSpaceOf(w: Spaces, c: char) {
    match w
    case StripSpaces => IsSpace(c)
    case IntSpaces => IsIntSpace(c)
  }

  predicate IsDigit(c: char) {
    '0' <= c <= '9'
  }

  function TrimLeft(w: Spaces, s: string): string {
    if s != [] && IsSpaceOf(w, s[0]) then TrimLeft(w, s[1..]) else s
  }

  function TrimRight(w: Spaces, s: string): string {
    if s != [] && IsSpaceOf(w, s[|s| - 1]) then TrimRight(w, s[..|s| - 1]) else s
  }

  /** TrimLeft drops every leading whitespace character and nothing else. */
  lemma {:induction false} TrimLeftSpec(w: Spaces, s: string)
    ensures |TrimLeft(w, s)| <= |s| && TrimLeft(w, s) == s[|s| - |TrimLeft(w, s)|..]
    ensures forall i :: 0 <= i < |s| - |TrimLeft(w, s)| ==> IsSpaceOf(w, s[i])
    ensures TrimLeft(w, s) == [] || !IsSpaceOf(w, TrimLeft(w, s)[0])
  {
    if s != [] && IsSpaceOf(w, s[0]) {
      var r := s[1..];
      TrimLeftSpec(w, r);
      var t := TrimLeft(w, r);
      assert TrimLeft(w, s) == t;
      assert s[|s| - |t|..] == r[|r| - |t|..];
      forall i | 0 < i < |s| - |t|
        ensures IsSpaceOf(w, s[i])
      {
        assert s[i] == r[i - 1];
      }
    }
  }

  /** TrimRight drops every trailing whitespace character and nothing else. */
  lemma {:induction false} TrimRightSpec(w: Spaces, s: string)
    ensures |TrimRight(w, s)| <= |s| && TrimRight(w, s) == s[..|TrimRight(w, s)|]
    ensures forall i :: |TrimRight(w, s)| <= i < |s| ==> IsSpaceOf(w, s[i])
    ensures TrimRight(w, s) == [] || !IsSpaceOf(w, TrimRight(w, s)[|TrimRight(w, s)| - 1])
  {
    if s != [] && IsSpaceOf(w, s[|s| - 1]) {
      var r := s[..|s| - 1];
      TrimRightSpec(w, r);
      var t := TrimRight(w, r);
      assert TrimRight(w, s) == t;
      assert s[..|t|] == r[..|t|];
      forall i | |t| <= i < |s| - 1
        ensures IsSpaceOf(w, s[i])
      {
        assert s[i] == r[i];
      }
    }
  }

  /** str.strip() */
  function Strip(s: string): string {
    TrimRight(StripSpaces, TrimLeft(StripSpaces, s))
  }

  /** What int() ignores around an ASCII token. */
  function IntStrip(tok: string): string {
    TrimRight(IntSpaces, TrimLeft(IntSpaces, tok))
  }

  /** str.replace(c, ""): every occurrence of c removed, the rest kept in order. */
  function Without(s: string, c: char): string {
    if s == [] then []
    else if s[0] == c then Without(s[1..], c)
    else [s[0]] + Without(s[1..], c)
  }

  /** No c is left, and every other character is kept, as often as it occurs. */
  lemma {:induction false} WithoutKeepsOthers(s: string, c: char)
    ensures c !in Without(s, c)
    ensures multiset(Without(s, c)) == multiset(s)[c := 0]
  {
    if s != [] {
      WithoutKeepsOthers(s[1..], c);
      assert s == [s[0]] + s[1..];
    }
  }

  lemma {:induction false} WithoutAppend(a: string, b: string, c: char)
    ensures Without(a + b, c) == Without(a, c) + Without(b, c)
  {
    if a == [] {
      assert a + b == b;
    } else {
      assert (a + b)[1..] == a[1..] + b;
      WithoutAppend(a[1..], b, c);
    }
  }

  /** Removing a character that does not occur changes nothing; so replace(c, "") is idempotent. */
  lemma {:induction false} WithoutAbsent(s: string, c: char)
    requires c !in s
    ensures Without(s, c) == s
  {
    if s != [] {
      WithoutAbsent(s[1..], c);
    }
  }

  /** " ".join(parts) */
  function JoinOnSpace(parts: seq<string>): string {
    if parts == [] then ""
    else if |parts| == 1 then parts[0]
    else parts[0] + " " + JoinOnSpace(parts[1..])
  }

  /**
   * str.split(" "): splits at every single space, so two spaces in a row give an
   * empty piece, and the empty string gives [""]. The pieces hold no space and
   * joining them back with single spaces gives the input again.
   */
  function SplitOnSpace(s: string): (r: seq<string>)
    ensures |r| >= 1
  {
    if s == [] then [""]
    else
      var rest := SplitOnSpace(s[1..]);
      if s[0] == ' ' then [""] + rest
      else [[s[0]] + rest[0]] + rest[1..]
  }

  /** The pieces hold no space, and joining them back with single spaces gives the input again. */
  lemma {:induction false} SplitOnSpaceSpec(s: string)
    ensures forall k :: 0 <= k < |SplitOnSpace(s)| ==> ' ' !in SplitOnSpace(s)[k]
    ensures JoinOnSpace(SplitOnSpace(s)) == s
  {
    if s != [] {
      SplitOnSpaceSpec(s[1..]);
      var rest := SplitOnSpace(s[1..]);
      var r := SplitOnSpace(s);
      if s[0] == ' ' {
        assert s == " " + s[1..];
        assert r[1..] == rest;
      } else {
        assert r[1..] == rest[1..];
        assert s == [s[0]] + s[1..];
      }
    }
  }

  /** Splitting undoes joining, for pieces without spaces. */
  lemma {:induction false} SplitJoin(parts: seq<string>)
    requires |parts| >= 1
    requires forall k :: 0 <= k < |parts| ==> ' ' !in parts[k]
    ensures SplitOnSpace(JoinOnSpace(parts)) == parts
  {
    if |parts| == 1 {
      SplitNoSpace(parts[0]);
    } else {
      SplitJoin(parts[1..]);
      SplitPrefix(parts[0], JoinOnSpace(parts[1..]));
      assert [parts[0]] + parts[1..] == parts;
    }
  }

  lemma {:induction false} SplitNoSpace(w: string)
    requires ' ' !in w
    ensures SplitOnSpace(w) == [w]
  {
    if w != [] {
      SplitNoSpace(w[1..]);
      assert [w[0]] + w[1..] == w;
    }
  }

  lemma {:induction false} SplitPrefix(w: string, rest: string)
    requires ' ' !in w
    ensures SplitOnSpace(w + " " + rest) == [w] + SplitOnSpace(rest)
  {
    if w == [] {
      assert (w + " " + rest)[1..] == rest;
    } else {
      assert (w + " " + rest)[1..] == w[1..] + " " + rest;
      SplitPrefix(w[1..], rest);
      assert [w[0]] + w[1..] == w;
    }
  }

  function DigitValue(c: char): (d: nat)
    requires IsDigit(c)
    ensures d < 10
  {
    c as int - '0' as int
  }

  function DigitChar(d: nat): (c: char)
    requires d < 10
    ensures IsDigit(c) && DigitValue(c) == d
  {
    ('0' as int + d) as char
  }

  predicate AllDigits(s: string) {
    forall i :: 0 <= i < |s| ==> IsDigit(s[i])
  }

  /** The value of a string of decimal digits, most significant first. */
  function DecimalValue(s: string): nat
    requires AllDigits(s)
  {
    if s == [] then 0 else DecimalValue(s[..|s| - 1]) * 10 + DigitValue(s[|s| - 1])
  }

  /**
   * What int() makes of a token once surrounding whitespace is gone: an
   * optional sign, then at least one ASCII digit; anything else is None.
   */
  function ReadNumeral(t: string): Option<int> {
    if |t| > 0 && (t[0] == '+' || t[0] == '-') then
      if |t| > 1 && AllDigits(t[1..]) then
        var magnitude: int := DecimalValue(t[1..]);
        Some(if t[0] == '-' then -magnitude else magnitude)
      else None
    else if |t| > 0 && AllDigits(t) then Some(DecimalValue(t))
    else None
  }

  /**
   * int(tok): the whitespace int() skips around the token is ignored, then the
   * rest must be a numeral; any other token raises ValueError, modelled as None.
   */
  function ParseInt(tok: string): Option<int> {
    ReadNumeral(IntStrip(tok))
  }

  /** The sign a numeral may start with. */
  datatype Sign = Unsigned | Plus | Minus

  function SignText(s: Sign): string {
    match s
    case Unsigned => ""
    case Plus => "+"
    case Minus => "-"
  }

  /** A number can be written after sign s: a minus only before a number at most 0, nothing else before a negative one. */
  predicate SignFits(s: Sign, n: int) {
    if s == Minus then n <= 0 else n >= 0
  }

  /** k zero digits. */
  function Zeros(k: nat): string {
    if k == 0 then "" else "0" + Zeros(k - 1)
  }

  function Abs(n: int): nat {
    if n < 0 then -n else n
  }

  /** Sign s, then k leading zeros, then the decimal digits of m. */
  function Numeral(s: Sign, k: nat, m: nat): string {
    SignText(s) + (Zeros(k) + FormatNat(m))
  }

  lemma AppendAssoc(a: string, b: string, c: string)
    ensures a + b + c == a + (b + c)
  {
    assert |a + b + c| == |a + (b + c)|;
    forall i | 0 <= i < |a + b + c|
      ensures (a + b + c)[i] == (a + (b + c))[i]
    {
    }
  }

  /** A leading zero does not change the value of a string of digits. */
  lemma {:induction false} LeadingZeroValue(x: string)
    requires AllDigits(x)
    ensures AllDigits("0" + x) && DecimalValue("0" + x) == DecimalValue(x)
    decreases |x|
  {
    var z := "0" + x;
    assert AllDigits(z) by {
      forall i | 0 < i < |z|
        ensures IsDigit(z[i])
      {
        assert z[i] == x[i - 1];
      }
    }
    if x == [] {
      assert z[..0] == [];
    } else {
      LeadingZeroValue(x[..|x| - 1]);
      assert z[..|z| - 1] == "0" + x[..|x| - 1];
    }
  }

  /** Leading zeros do not change the value of a string of digits. */
  lemma {:induction false} LeadingZerosValue(k: nat, d: string)
    requires AllDigits(d)
    ensures AllDigits(Zeros(k) + d) && DecimalValue(Zeros(k) + d) == DecimalValue(d)
    decreases k
  {
    if k == 0 {
      assert Zeros(k) + d == d;
    } else {
      LeadingZerosValue(k - 1, d);
      AppendAssoc("0", Zeros(k - 1), d);
      LeadingZeroValue(Zeros(k - 1) + d);
    }
  }

  /** A string of digits that does not start with 0, or is a single digit, is str() of its value. */
  lemma {:induction false} CanonicalDigits(d: string)
    requires |d| > 0 && AllDigits(d) && (d[0] != '0' || |d| == 1)
    ensures FormatNat(DecimalValue(d)) == d
    ensures |d| > 1 ==> DecimalValue(d) >= 10
    ensures d[0] != '0' ==> DecimalValue(d) >= 1
    decreases |d|
  {
    var c := d[|d| - 1];
    var p := d[..|d| - 1];
    if |d| == 1 {
      assert p == [];
      assert DecimalValue(d) == DigitValue(c);
      assert [DigitChar(DigitValue(c))] == d;
    } else {
      CanonicalDigits(p);
      var v := DecimalValue(d);
      assert v == DecimalValue(p) * 10 + DigitValue(c);
      assert v / 10 == DecimalValue(p) && v % 10 == DigitValue(c);
      assert DigitChar(DigitValue(c)) == c;
      assert FormatNat(v) == FormatNat(v / 10) + [DigitChar(v % 10)];
      assert p + [c] == d;
    }
  }

  /** How many leading zeros can go before only the last digit or a nonzero digit is left. */
  function ZeroCount(d: string): (z: nat)
    ensures z <= |d|
  {
    if |d| > 1 && d[0] == '0' then 1 + ZeroCount(d[1..]) else 0
  }

  /** A string of digits is its leading zeros, then digits that do not start with 0 unless there is only one. */
  lemma {:induction false} ZeroSplit(d: string)
    requires |d| > 0 && AllDigits(d)
    ensures var z := ZeroCount(d);
      z < |d| && d == Zeros(z) + d[z..] && AllDigits(d[z..]) && (d[z] != '0' || z == |d| - 1)
  {
    if |d| > 1 && d[0] == '0' {
      var rest := d[1..];
      ZeroSplit(rest);
      var z := ZeroCount(rest);
      assert d[z + 1..] == rest[z..] && d[z + 1] == rest[z];
      assert d == "0" + rest;
      AppendAssoc("0", Zeros(z), rest[z..]);
    } else {
      assert Zeros(0) + d == d;
    }
  }

  /** Digits after sign s read as their value, negated after a minus. */
  lemma ReadSigned(s: Sign, d: string)
    requires |d| > 0 && AllDigits(d)
    ensures ReadNumeral(SignText(s) + d) == Some(if s == Minus then 0 - DecimalValue(d) else DecimalValue(d))
  {
    var t := SignText(s) + d;
    if s == Unsigned {
      assert t == d && IsDigit(t[0]);
    } else {
      assert |t| > 1 && t[0] == (if s == Plus then '+' else '-') && t[1..] == d;
    }
  }

  /** Sign s, k zeros and the digits of abs(n) read back as n when s fits n. */
  lemma ReadNumeralOf(s: Sign, k: nat, n: int)
    requires SignFits(s, n)
    ensures ReadNumeral(Numeral(s, k, Abs(n))) == Some(n)
  {
    var d := Zeros(k) + FormatNat(Abs(n));
    LeadingZerosValue(k, FormatNat(Abs(n)));
    ReadSigned(s, d);
    assert Numeral(s, k, Abs(n)) == SignText(s) + d;
  }

  /** A string of digits is its leading zeros followed by str() of its value. */
  lemma DigitsCanonical(d: string)
    requires |d| > 0 && AllDigits(d)
    ensures Zeros(ZeroCount(d)) + FormatNat(DecimalValue(d)) == d
  {
    ZeroSplit(d);
    var z := ZeroCount(d);
    var c := d[z..];
    CanonicalDigits(c);
    LeadingZerosValue(z, c);
    assert DecimalValue(d) == DecimalValue(c);
  }

  /** The value of digits d after sign s is written as s, zeros and the digits of its absolute value. */
  lemma SignedDigitsShape(s: Sign, d: string, n: int)
    requires |d| > 0 && AllDigits(d)
    requires n == if s == Minus then 0 - DecimalValue(d) else DecimalValue(d)
    ensures SignFits(s, n) && SignText(s) + d == Numeral(s, ZeroCount(d), Abs(n))
  {
    assert Abs(n) == DecimalValue(d);
    DigitsCanonical(d);
    assert Zeros(ZeroCount(d)) + FormatNat(Abs(n)) == d;
  }

  /** Digits after sign s that read as n are zeros and the digits of abs(n), and s fits n. */
  lemma DigitsShape(s: Sign, d: string, n: int)
    requires |d| > 0 && AllDigits(d) && ReadNumeral(SignText(s) + d) == Some(n)
    ensures SignFits(s, n) && SignText(s) + d == Numeral(s, ZeroCount(d), Abs(n))
  {
    ReadSigned(s, d);
    SignedDigitsShape(s, d, n);
  }

  /** Whatever ReadNumeral accepts is a sign that fits, zeros, and the digits of the number it gives. */
  lemma ReadNumeralShape(t: string, n: int)
    requires ReadNumeral(t) == Some(n)
    ensures exists s: Sign, k: nat :: SignFits(s, n) && t == Numeral(s, k, Abs(n))
  {
    if t[0] == '+' || t[0] == '-' {
      var s := if t[0] == '+' then Plus else Minus;
      var d := t[1..];
      assert t == SignText(s) + d;
      DigitsShape(s, d, n);
      assert t == Numeral(s, ZeroCount(d), Abs(n));
    } else {
      assert t == SignText(Unsigned) + t;
      DigitsShape(Unsigned, t, n);
      assert t == Numeral(Unsigned, ZeroCount(t), Abs(n));
    }
  }

  /**
   * int() accepts exactly the ways of writing a number: surrounding space, tab,
   * newline, vertical tab, form feed or carriage return,
   * an optional sign that agrees with the number, any leading zeros, then its
   * decimal digits.
   */
  lemma ParseIntAccepts(tok: string, n: int)
    ensures ParseInt(tok) == Some(n) <==> exists s: Sign, k: nat :: SignFits(s, n) && IntStrip(tok) == Numeral(s, k, Abs(n))
  {
    if ParseInt(tok) == Some(n) {
      ReadNumeralShape(IntStrip(tok), n);
    }
    if exists s: Sign, k: nat :: SignFits(s, n) && IntStrip(tok) == Numeral(s, k, Abs(n)) {
      var s: Sign, k: nat :| SignFits(s, n) && IntStrip(tok) == Numeral(s, k, Abs(n));
      ReadNumeralOf(s, k, n);
    }
  }

  /** A token holding any character other than a digit, a sign or int()'s whitespace never parses. */
  lemma ParseIntRejects(tok: string, i: nat)
    requires i < |tok| && !IsDigit(tok[i]) && tok[i] != '+' && tok[i] != '-' && !IsIntSpace(tok[i])
    ensures ParseInt(tok) == None
  {
    TrimKeepsOnly(IntSpaces, tok);
    var t := IntStrip(tok);
    assert tok[i] in t;
  }

  /** strip() drops the separator 0x1C, but int() of an ASCII token does not skip it: int("\x1c5") raises. */
  lemma SeparatorNotIntSpace()
    ensures Strip("\U{1C}5") == "5" && ParseInt("\U{1C}5") == None
  {
    var tok := "\U{1C}5";
    assert tok[1..] == "5";
    assert TrimLeft(StripSpaces, "5") == "5" && TrimRight(StripSpaces, "5") == "5";
    ParseIntRejects(tok, 0);
  }

  /** Trimming both ends drops only whitespace: every other character of s is kept. */
  lemma TrimKeepsOnly(w: Spaces, s: string)
    ensures forall i :: 0 <= i < |s| ==> IsSpaceOf(w, s[i]) || s[i] in TrimRight(w, TrimLeft(w, s))
  {
    var l := TrimLeft(w, s);
    var t := TrimRight(w, l);
    TrimLeftSpec(w, s);
    TrimRightSpec(w, l);
    forall i | 0 <= i < |s| && !IsSpaceOf(w, s[i])
      ensures s[i] in t
    {
      var j := i - (|s| - |l|);
      assert 0 <= j < |l| && l[j] == s[i];
      assert t == l[..|t|];
      assert j < |t|;
      assert t[j] == s[i];
    }
  }

  /** str(n) for a non-negative n: its decimal digits, no leading zeros. */
  function FormatNat(n: nat): (s: string)
    ensures |s| > 0 && AllDigits(s)
    ensures DecimalValue(s) == n
    decreases n
  {
    if n < 10 then [DigitChar(n)]
    else
      var s := FormatNat(n / 10) + [DigitChar(n % 10)];
      assert s[..|s| - 1] == FormatNat(n / 10);
      s
  }

  /** str(n) */
  function FormatInt(n: int): string {
    if n < 0 then "-" + FormatNat(-n) else FormatNat(n)
  }

  /** int(str(n)) == n. */
  lemma ParseFormat(n: int)
    ensures ParseInt(FormatInt(n)) == Some(n)
  {
    var s := FormatInt(n);
    assert !IsIntSpace(s[0]) && !IsIntSpace(s[|s| - 1]);
    assert TrimLeft(IntSpaces, s) == s;
    assert TrimRight(IntSpaces, s) == s;
    if n < 0 {
      assert s[1..] == FormatNat(-n);
    }
  }
}
