/** Digit strings in base 16 and base 10, and the parser Rust's
    `u32::from_str_radix(s, 16)` applies to the device identifier. */
module Numerals {
  import opened Results
  import opened Bytes

  // ---------------------------------------------------------------- base 16

  predicate IsHexDigit(c: char) {
    '0' <= c <= '9' || 'a' <= c <= 'f' || 'A' <= c <= 'F'
  }

  predicate AllHex(ds: string) {
    forall i :: 0 <= i < |ds| ==> IsHexDigit(ds[i])
  }

  /** Value of a hex digit character; zero for any other character, which
      the parser rejects before it asks. */
  function HexDigitValue(c: char): (d: nat)
    ensures d < 16
  {
    if '0' <= c <= '9' then c as int - '0' as int
    else if 'a' <= c <= 'f' then c as int - 'a' as int + 10
    else if 'A' <= c <= 'F' then c as int - 'A' as int + 10
    else 0
  }

  function Pow16(n: nat): (p: nat)
    ensures p > 0
  {
    if n == 0 then 1 else 16 * Pow16(n - 1)
  }

  /** Positional value of hex digits, most significant digit first. */
  function HexValue(ds: string): nat
  {
    if |ds| == 0 then 0
    else 16 * HexValue(ds[..|ds| - 1]) + HexDigitValue(ds[|ds| - 1])
  }

  /** Reading digits from the left: each one multiplies what has been read
      so far by sixteen and adds its own value. */
  function HexFold(acc: nat, ds: string): nat
    decreases |ds|
  {
    if |ds| == 0 then acc else HexFold(acc * 16 + HexDigitValue(ds[0]), ds[1..])
  }

  /** Reading more digits never makes the running value smaller. */
  lemma {:induction false} HexFoldGrows(acc: nat, ds: string)
    ensures HexFold(acc, ds) >= acc
    decreases |ds|
  {
    if |ds| > 0 {
      HexFoldGrows(acc * 16 + HexDigitValue(ds[0]), ds[1..]);
    }
  }

  /** Reading `q` from the left after `p` has been read gives the value of
      the whole digit string `p + q`. */
  lemma {:induction false} HexFoldValue(p: string, q: string)
    ensures HexFold(HexValue(p), q) == HexValue(p + q)
    decreases |q|
  {
    if |q| == 0 {
      assert p + q == p;
    } else {
      var longer := p + [q[0]];
      assert longer[..|p|] == p;
      assert HexValue(longer) == 16 * HexValue(p) + HexDigitValue(q[0]);
      HexFoldValue(longer, q[1..]);
      assert longer + q[1..] == p + q;
    }
  }

  /** The digit loop of `from_str_radix`: multiply-and-add from the left,
      failing on a non-digit or as soon as the running value leaves `u32`.
      It yields the value read exactly when every character is a digit and
      that value fits. */
  function AccumulateHex(acc: U32, ds: string): (r: Option<U32>)
    ensures r.Some? <==> AllHex(ds) && HexFold(acc, ds) < U32Modulus
    ensures r.Some? ==> r.value == HexFold(acc, ds)
    decreases |ds|
  {
    if |ds| == 0 then Some(acc)
    else if !IsHexDigit(ds[0]) then None
    else
      var next := acc * 16 + HexDigitValue(ds[0]);
      if next >= U32Modulus then
        HexFoldGrows(next, ds[1..]);
        None
      else
        AllHexTail(ds);
        AccumulateHex(next, ds[1..])
  }

  lemma AllHexTail(ds: string)
    requires |ds| > 0 && IsHexDigit(ds[0])
    ensures AllHex(ds) <==> AllHex(ds[1..])
  {
    if AllHex(ds[1..]) {
      forall i | 0 <= i < |ds| ensures IsHexDigit(ds[i]) {
        if i > 0 { assert ds[i] == ds[1..][i - 1]; }
      }
    }
  }

  /** The digits `from_str_radix` reads: the text without one leading `+`. */
  function HexDigitsOf(s: string): string {
    if |s| > 0 && s[0] == '+' then s[1..] else s
  }

  /** `u32::from_str_radix(s, 16)`: an optional `+`, then one or more hex
      digits of either case whose value is below 2^32; leading zeros are
      allowed and a `-` is never accepted. */
  function ParseHexU32(s: string): (r: Option<U32>)
    ensures r.Some? <==>
      var ds := HexDigitsOf(s); |ds| > 0 && AllHex(ds) && HexValue(ds) < U32Modulus
    ensures r.Some? ==> r.value == HexValue(HexDigitsOf(s))
  {
    if |s| == 0 then None
    else if (s[0] == '+' || s[0] == '-') && |s| == 1 then None
    else
      var ds := HexDigitsOf(s);
      HexFoldValue([], ds);
      assert [] + ds == ds;
      AccumulateHex(0, ds)
  }

  /** Upper-case hex digit for a value below 16. */
  function HexDigitChar(d: nat): (c: char)
    requires d < 16
    ensures IsHexDigit(c) && HexDigitValue(c) == d
  {
    if d < 10 then ('0' as int + d) as char else ('A' as int + d - 10) as char
  }

  /** The `n` upper-case hex digits of `v`, zero-padded. */
  function HexDigits(v: nat, n: nat): (ds: string)
    requires v < Pow16(n)
    ensures |ds| == n && AllHex(ds)
    ensures HexValue(ds) == v
  {
    if n == 0 then ""
    else
      var init := HexDigits(v / 16, n - 1);
      var ds := init + [HexDigitChar(v % 16)];
      assert ds[..n - 1] == init;
      ds
  }

  /** An identifier written as eight upper-case hex digits, zero-padded,
      such as "AABBCCDD". */
  function Hex8(v: U32): (s: string)
    ensures |s| == 8
  {
    assert Pow16(8) == U32Modulus;
    HexDigits(v, 8)
  }

  lemma ParseHex8(v: U32)
    ensures ParseHexU32(Hex8(v)) == Some(v)
  {
    var s := Hex8(v);
    assert s[0] != '+';
  }

  // ---------------------------------------------------------------- base 10

  predicate IsDecDigit(c: char) {
    '0' <= c <= '9'
  }

  predicate AllDec(ds: string) {
    forall i :: 0 <= i < |ds| ==> IsDecDigit(ds[i])
  }

  /** Value of a decimal digit character; zero for any other character. */
  function DecDigitValue(c: char): (d: nat)
    ensures d < 10
  {
    if IsDecDigit(c) then c as int - '0' as int else 0
  }

  function DecDigitChar(d: nat): (c: char)
    requires d < 10
    ensures IsDecDigit(c) && DecDigitValue(c) == d
  {
    ('0' as int + d) as char
  }

  /** Length of the run of decimal digits that starts `s`. */
  function DigitRun(s: string): (k: nat)
    ensures k <= |s|
  {
    if |s| == 0 || !IsDecDigit(s[0]) then 0 else 1 + DigitRun(s[1..])
  }

  /** The run is all digits and stops at the first non-digit. */
  lemma {:induction false} DigitRunSpan(s: string)
    ensures var k := DigitRun(s);
      AllDec(s[..k]) && (k < |s| ==> !IsDecDigit(s[k]))
  {
    if |s| > 0 && IsDecDigit(s[0]) {
      DigitRunSpan(s[1..]);
      var k := DigitRun(s);
      assert forall i :: 1 <= i < k ==> s[..k][i] == s[1..][..k - 1][i - 1];
    }
  }

  /** Positional value of decimal digits, most significant digit first. */
  function DecValue(ds: string): nat
  {
    if |ds| == 0 then 0
    else 10 * DecValue(ds[..|ds| - 1]) + DecDigitValue(ds[|ds| - 1])
  }

  /** Canonical decimal text of a byte: no leading zero. */
  function DecByte(v: Byte): (s: string)
    ensures 1 <= |s| <= 3
  {
    if v < 10 then [DecDigitChar(v)]
    else if v < 100 then [DecDigitChar(v / 10), DecDigitChar(v % 10)]
    else [DecDigitChar(v / 100), DecDigitChar(v / 10 % 10), DecDigitChar(v % 10)]
  }

  /** The canonical text is made of digits only. */
  lemma DecByteDigits(v: Byte)
    ensures AllDec(DecByte(v))
  {
  }
}
