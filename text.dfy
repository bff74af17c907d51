// Character-level helpers shared by the string codecs: decimal rendering and
// parsing in the C library's sense (strtol/atoi), padding as std::setw with
// std::setfill does it, std::string::find, and ASCII case folding.

module Text {
  import opened Wrappers
  import opened Bytes

  predicate IsDigit(c: char) { '0' <= c <= '9' }

  /** isspace() in the C locale. */
  predicate IsSpace(c: char)
  {
    c == ' ' || c == '\t' || c == '\n' || c == 11 as char || c == 12 as char || c == '\r'
  }

  function DigitChar(d: nat): (c: char)
    requires d < 10
    ensures IsDigit(c)
  {
    (d + '0' as int) as char
  }

  function DigitValue(c: char): (d: nat)
    requires IsDigit(c)
    ensures d < 10
  {
    c as int - '0' as int
  }

  /** The decimal text of n, without leading zeros ("0" for zero). */
  function Decimal(n: nat): (s: string)
    ensures |s| >= 1
    ensures forall i :: 0 <= i < |s| ==> IsDigit(s[i])
    decreases n
  {
    if n < 10 then [DigitChar(n)] else Decimal(n / 10) + [DigitChar(n % 10)]
  }

  /** What operator<< writes for a signed integer. */
  function IntToString(x: int): (s: string)
  {
    if x < 0 then "-" + Decimal(-x) else Decimal(x)
  }

  predicate AllDigits(s: string)
  {
    forall i :: 0 <= i < |s| ==> IsDigit(s[i])
  }

  /** The value of a string of decimal digits, most significant first. */
  function DigitsValue(s: string): (v: nat)
    requires AllDigits(s)
  {
    if s == [] then 0 else 10 * DigitsValue(s[..|s| - 1]) + DigitValue(s[|s| - 1])
  }

  lemma {:induction false} DecimalValue(n: nat)
    ensures DigitsValue(Decimal(n)) == n
    decreases n
  {
    if n >= 10 {
      var s := Decimal(n);
      assert s[..|s| - 1] == Decimal(n / 10);
      DecimalValue(n / 10);
    }
  }

  function Zeros(k: nat): (z: string)
    ensures |z| == k
    ensures forall i :: 0 <= i < k ==> z[i] == '0'
  {
    seq(k, _ => '0')
  }

  lemma {:induction false} LeadingZerosValue(k: nat, s: string)
    requires AllDigits(s)
    ensures AllDigits(Zeros(k) + s)
    ensures DigitsValue(Zeros(k) + s) == DigitsValue(s)
    decreases |s|
  {
    var t := Zeros(k) + s;
    if s == [] {
      assert t == Zeros(k);
      ZerosValue(k);
    } else {
      assert t[..|t| - 1] == Zeros(k) + s[..|s| - 1];
      LeadingZerosValue(k, s[..|s| - 1]);
    }
  }

  lemma {:induction false} ZerosValue(k: nat)
    ensures AllDigits(Zeros(k))
    ensures DigitsValue(Zeros(k)) == 0
  {
    if k > 0 {
      assert Zeros(k)[..k - 1] == Zeros(k - 1);
      ZerosValue(k - 1);
    }
  }

  /** std::setw(w) with std::setfill(c) and the default adjustment: fill goes in
      front, and a longer text is never cut. */
  function PadLeft(s: string, w: nat, c: char): (r: string)
    ensures |r| == if |s| >= w then |s| else w
    ensures r[|r| - |s|..] == s
    ensures forall i :: 0 <= i < |r| - |s| ==> r[i] == c
  {
    if |s| >= w then s else seq(w - |s|, _ => c) + s
  }

  /** The longest prefix of s made of digits. */
  function DigitPrefix(s: string): (p: string)
    ensures AllDigits(p) && |p| <= |s| && p == s[..|p|]
    ensures |p| < |s| ==> !IsDigit(s[|p|])
  {
    if s == [] || !IsDigit(s[0]) then [] else [s[0]] + DigitPrefix(s[1..])
  }

  function SkipSpaces(s: string): (t: string)
    ensures |t| <= |s| && t == s[|s| - |t|..]
    ensures t == [] || !IsSpace(t[0])
  {
    if s != [] && IsSpace(s[0]) then SkipSpaces(s[1..]) else s
  }

  const LONG_MAX: int := 0x7FFF_FFFF_FFFF_FFFF
  const LONG_MIN: int := -0x8000_0000_0000_0000

  /** strtol(s, NULL, 10) with a 64-bit long: leading white space, an optional
      sign, then as many digits as there are; out-of-range values saturate. */
  function Strtol(s: string): (v: int)
    ensures LONG_MIN <= v <= LONG_MAX
    ensures SkipSpaces(s) == [] ==> v == 0
  {
    var t := SkipSpaces(s);
    var neg := |t| > 0 && t[0] == '-';
    var body := if |t| > 0 && (t[0] == '-' || t[0] == '+') then t[1..] else t;
    var m: int := DigitsValue(DigitPrefix(body));
    var x := if neg then -m else m;
    if x > LONG_MAX then LONG_MAX else if x < LONG_MIN then LONG_MIN else x
  }

  /** glibc's atoi: (int) strtol(s, NULL, 10). */
  function Atoi(s: string): (v: int)
    ensures -0x8000_0000 <= v < 0x8000_0000
    ensures (v - Strtol(s)) % 0x1_0000_0000 == 0
  {
    ToInt32(Strtol(s))
  }

  /** Parsing a zero-padded decimal field gives back the number. */
  lemma StrtolPaddedDecimal(n: nat, w: nat)
    requires n <= LONG_MAX
    ensures Strtol(PadLeft(Decimal(n), w, '0')) == n
  {
    var d := Decimal(n);
    var p := PadLeft(d, w, '0');
    var k := |p| - |d|;
    PadLeftZeros(d, w);
    LeadingZerosValue(k, d);
    DecimalValue(n);
    StrtolDigits(p);
  }

  lemma PadLeftZeros(s: string, w: nat)
    ensures PadLeft(s, w, '0') == Zeros(|PadLeft(s, w, '0')| - |s|) + s
  {
  }

  /** A non-empty run of digits is read by strtol as its plain value. */
  lemma StrtolDigits(p: string)
    requires |p| > 0 && AllDigits(p) && DigitsValue(p) <= LONG_MAX
    ensures Strtol(p) == DigitsValue(p)
  {
    assert IsDigit(p[0]);
    assert !IsSpace(p[0]);
    assert SkipSpaces(p) == p;
    assert p[0] != '-' && p[0] != '+';
    AllDigitsPrefix(p);
  }

  lemma AllDigitsPrefix(s: string)
    requires AllDigits(s)
    ensures DigitPrefix(s) == s
  {
  }

  /** std::string::find(pat, from): the least index i >= from at which pat
      occurs, or None for npos. */
  function FindFrom(s: string, pat: string, from: nat): (r: Option<nat>)
    ensures r.Some? ==> from <= r.value && OccursAt(s, pat, r.value)
    ensures r.Some? ==> forall j :: from <= j < r.value ==> !OccursAt(s, pat, j)
    ensures r.None? ==> forall j :: from <= j ==> !OccursAt(s, pat, j)
    decreases |s| - from
  {
    if from + |pat| > |s| then None
    else if OccursAt(s, pat, from) then Some(from)
    else FindFrom(s, pat, from + 1)
  }

  predicate OccursAt(s: string, pat: string, j: nat)
  {
    j + |pat| <= |s| && s[j..j + |pat|] == pat
  }

  function ToLowerChar(c: char): (d: char)
  {
    if 'A' <= c <= 'Z' then (c as int + 32) as char else c
  }

  /** ::tolower applied to every character, for ASCII text. */
  function ToLower(s: string): (t: string)
    ensures |t| == |s|
    ensures forall i :: 0 <= i < |s| ==> t[i] == ToLowerChar(s[i])
  {
    seq(|s|, i requires 0 <= i < |s| => ToLowerChar(s[i]))
  }

  function HexDigit(d: nat): (c: char)
    requires d < 16
  {
    if d < 10 then DigitChar(d) else (d - 10 + 'a' as int) as char
  }

  /** Lower-case hexadecimal without leading zeros (Integer.toHexString). */
  function Hex(n: nat): (s: string)
    ensures |s| >= 1
    decreases n
  {
    if n < 16 then [HexDigit(n)] else Hex(n / 16) + [HexDigit(n % 16)]
  }

  lemma {:induction false} HexLength(n: nat)
    ensures n < 0x10 ==> |Hex(n)| == 1
    ensures n < 0x100 ==> |Hex(n)| <= 2
    ensures n < 0x1000 ==> |Hex(n)| <= 3
    ensures n < 0x1_0000 ==> |Hex(n)| <= 4
    decreases n
  {
    if n >= 16 { HexLength(n / 16); }
  }

  /** A number below 10^k has at most k decimal digits. */
  lemma {:induction false} DecimalDigitsBound(n: nat, k: nat)
    requires k >= 1 && n < Pow10(k)
    ensures |Decimal(n)| <= k
    decreases n
  {
    if n >= 10 {
      assert Pow10(1) == 10;
      assert k >= 2;
      assert Pow10(k) == 10 * Pow10(k - 1);
      DecimalDigitsBound(n / 10, k - 1);
    }
  }

  function Pow10(k: nat): nat
  {
    if k == 0 then 1 else 10 * Pow10(k - 1)
  }

  /** std::string::substr(pos, n): None where it throws std::out_of_range
      (pos past the end); the count is cut at the end of the string. */
  function Substr(s: string, pos: nat, n: nat): (r: Option<string>)
    ensures r.None? <==> pos > |s|
    ensures r.Some? ==> r.value == s[pos..if pos + n <= |s| then pos + n else |s|]
  {
    if pos > |s| then None
    else if pos + n <= |s| then Some(s[pos..pos + n])
    else Some(s[pos..])
  }

  /** s.erase(0, s.find_first_not_of('0')): the text after the leading
      zeros, empty when there is nothing but zeros. */
  function StripLeadingZeros(s: string): (r: string)
    ensures |r| <= |s| && r == s[|s| - |r|..]
    ensures r == [] || r[0] != '0'
    ensures forall i :: 0 <= i < |s| - |r| ==> s[i] == '0'
  {
    if s != [] && s[0] == '0' then StripLeadingZeros(s[1..]) else s
  }

  lemma {:induction false} DecimalNoLeadingZero(n: nat)
    requires n > 0
    ensures Decimal(n)[0] != '0'
    decreases n
  {
    if n >= 10 {
      DecimalNoLeadingZero(n / 10);
    }
  }

  /** Stripping the zero fill off a padded decimal gives back the decimal
      text, or nothing for zero. */
  lemma StripPaddedDecimal(n: nat, w: nat)
    ensures StripLeadingZeros(PadLeft(Decimal(n), w, '0')) == if n == 0 then "" else Decimal(n)
  {
    var d := Decimal(n);
    var p := PadLeft(d, w, '0');
    var r := StripLeadingZeros(p);
    if n == 0 {
      assert d == "0";
      assert forall i :: 0 <= i < |p| ==> p[i] == '0';
    } else {
      DecimalNoLeadingZero(n);
      var k := |p| - |d|;
      assert p[k..] == d;
      StripZerosOfFill(p, k);
    }
  }

  /** A fill of k zeros in front of a text that does not start with '0' is
      exactly what is stripped. */
  lemma {:induction false} StripZerosOfFill(p: string, k: nat)
    requires k < |p| && p[k] != '0'
    requires forall i :: 0 <= i < k ==> p[i] == '0'
    ensures StripLeadingZeros(p) == p[k..]
    decreases k
  {
    if k > 0 {
      assert p[1..][k - 1] == p[k];
      StripZerosOfFill(p[1..], k - 1);
      assert p[1..][k - 1..] == p[k..];
    }
  }

  /** The digit run of a zero fill followed by a non-digit is the fill. */
  lemma {:induction false} DigitPrefixOfZeros(k: nat, t: string)
    requires t != [] && !IsDigit(t[0])
    ensures DigitPrefix(Zeros(k) + t) == Zeros(k)
    decreases k
  {
    if k > 0 {
      assert (Zeros(k) + t)[1..] == Zeros(k - 1) + t;
      DigitPrefixOfZeros(k - 1, t);
      assert Zeros(k) == [Zeros(k)[0]] + Zeros(k - 1);
    } else {
      assert Zeros(k) + t == t;
    }
  }

  /** strtol stops at a minus sign that follows a zero fill and reads zero. */
  lemma StrtolZerosThenMinus(k: nat, t: string)
    requires k > 0
    ensures Strtol(Zeros(k) + "-" + t) == 0
  {
    var p := Zeros(k) + "-" + t;
    assert p == Zeros(k) + ("-" + t);
    assert !IsSpace(p[0]) && p[0] == '0';
    assert SkipSpaces(p) == p;
    DigitPrefixOfZeros(k, "-" + t);
    ZerosValue(k);
  }
}
