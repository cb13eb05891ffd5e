/**
  `UResourceHash.hashStr(byte[])`: a digest rendered as text, one `String.format("%02x", b)`
  per byte, where `b` is the byte already widened to a sign-extended `int`.
 */
module ResourceHash {
  import opened Outcomes
  import JavaText

  /** A Java `byte`. */
  type JByte = b: int | -128 <= b < 128

  /** A lower-case hexadecimal digit. */
  predicate IsHexChar(c: char) {
    '0' <= c <= '9' || 'a' <= c <= 'f'
  }

  /** The lower-case digit for a value below 16. */
  function HexChar(d: int): (c: char)
    requires 0 <= d < 16
    ensures IsHexChar(c)
    ensures d < 10 <==> '0' <= c <= '9'
  {
    if d < 10 then ('0' as int + d) as char else ('a' as int + d - 10) as char
  }

  /** The value of a lower-case digit. */
  function HexValue(c: char): (d: int)
    requires IsHexChar(c)
    ensures 0 <= d < 16 && HexChar(d) == c
  {
    if c <= '9' then c as int - '0' as int else c as int - 'a' as int + 10
  }

  /** The digits of `v` in base 16 with no leading zero (`Integer.toHexString` of a non-negative value). */
  function HexDigits(v: nat): (r: string)
    ensures r != [] && forall i :: 0 <= i < |r| ==> IsHexChar(r[i])
    decreases v
  {
    if v < 16 then [HexChar(v)] else HexDigits(v / 16) + [HexChar(v % 16)]
  }

  /** Appending one digit to a value of one digit or more appends its char. */
  lemma HexDigitsShift(q: nat, d: nat)
    requires q >= 1 && d < 16
    ensures HexDigits(16 * q + d) == HexDigits(q) + [HexChar(d)]
  {
    assert (16 * q + d) / 16 == q && (16 * q + d) % 16 == d;
  }

  /** The `%02x` conversion of an `int`: a negative one is read as its unsigned 32-bit value, then zero-padded to two digits. */
  function Format02x(v: int): (r: string)
    requires -0x8000_0000 <= v < 0x8000_0000
    ensures 2 <= |r| <= 8 && forall i :: 0 <= i < |r| ==> IsHexChar(r[i])
  {
    var unsigned: nat := if v < 0 then v + 0x1_0000_0000 else v;
    var digits := HexDigits(unsigned);
    assert Pow16(8) == 0x1_0000_0000;
    HexDigitsBound(unsigned, 8);
    if |digits| < 2 then "0" + digits else digits
  }

  /** Sixteen to the power `k`. */
  function Pow16(k: nat): (p: nat)
    ensures p >= 1
  {
    if k == 0 then 1 else 16 * Pow16(k - 1)
  }

  /** A value below `16^k` has at most `k` digits. */
  lemma {:induction false} HexDigitsBound(v: nat, k: nat)
    requires 1 <= k && v < Pow16(k)
    ensures |HexDigits(v)| <= k
    decreases v
  {
    if v >= 16 {
      HexDigitsBound(v / 16, k - 1);
    }
  }

  /**
    One byte as `hashStr` renders it: sign-extended, then `%02x`. A non-negative byte is two
    digits; a negative one is six 'f's and then the two digits of `b + 256`.
   */
  function RenderByte(b: JByte): (r: string)
    ensures b >= 0 ==> r == [HexChar(b / 16), HexChar(b % 16)]
    ensures b < 0 ==> r == "ffffff" + [HexChar((b + 256) / 16), HexChar((b + 256) % 16)]
  {
    if b >= 0 then
      FormatNonNegative(b);
      Format02x(b as int)
    else
      FormatNegative(b);
      Format02x(b as int)
  }

  /** `%02x` of a non-negative byte is two digits, high nibble first. */
  lemma FormatNonNegative(b: JByte)
    requires b >= 0
    ensures Format02x(b as int) == [HexChar(b / 16), HexChar(b % 16)]
  {
    if b >= 16 {
      HexDigitsShift(b / 16, b % 16);
    }
  }

  /** The digits of 0xffffff. */
  lemma SixF()
    ensures HexDigits(0xff_ffff) == "ffffff"
  {
    HexDigitsShift(0xf, 0xf);
    HexDigitsShift(0xff, 0xf);
    HexDigitsShift(0xfff, 0xf);
    HexDigitsShift(0xffff, 0xf);
    HexDigitsShift(0xf_ffff, 0xf);
  }

  /** `%02x` of a negative byte is six 'f's from the sign extension and then the two digits of `b + 256`. */
  lemma FormatNegative(b: JByte)
    requires b < 0
    ensures Format02x(b as int) == "ffffff" + [HexChar((b + 256) / 16), HexChar((b + 256) % 16)]
  {
    var u := b + 256;
    var high := 16 * 0xff_ffff + u / 16;
    assert b + 0x1_0000_0000 == 16 * high + u % 16;
    SixF();
    HexDigitsShift(0xff_ffff, u / 16);
    HexDigitsShift(high, u % 16);
  }

  /** `hashStr(hash)`: the renderings of the bytes joined in index order. */
  function HashStr(hash: seq<JByte>): (r: string)
    ensures r == [] <==> hash == []
    ensures forall i :: 0 <= i < |r| ==> IsHexChar(r[i])
  {
    if hash == [] then [] else RenderByte(hash[0]) + HashStr(hash[1..])
  }

  /** The number of negative bytes. */
  function Negatives(hash: seq<JByte>): (n: nat)
    ensures n <= |hash|
  {
    if hash == [] then 0 else (if hash[0] < 0 then 1 else 0) + Negatives(hash[1..])
  }

  /** Each negative byte takes eight chars instead of two. */
  lemma {:induction false} HashStrLength(hash: seq<JByte>)
    ensures |HashStr(hash)| == 2 * |hash| + 6 * Negatives(hash)
  {
    if hash != [] {
      HashStrLength(hash[1..]);
    }
  }

  /** Rendering a concatenation renders each part in turn. */
  lemma {:induction false} HashStrAppend(a: seq<JByte>, b: seq<JByte>)
    ensures HashStr(a + b) == HashStr(a) + HashStr(b)
  {
    if a != [] {
      assert (a + b)[0] == a[0];
      assert (a + b)[1..] == a[1..] + b;
      assert HashStr(a + b) == RenderByte(a[0]) + HashStr(a[1..] + b);
      HashStrAppend(a[1..], b);
      JavaText.AppendAssociative(RenderByte(a[0]), HashStr(a[1..]), HashStr(b));
    } else {
      assert a + b == b;
    }
  }

  /** The byte -1 renders as eight chars where a digest rendering has two. */
  lemma SignExtendedByte()
    ensures HashStr([-1]) == "ffffffff"
    ensures |HashStr([-1])| == 8
  {
    assert [-1 as JByte][1..] == [];
  }

  /* -----------------------------------------------------------------
   * The rendering with the byte read as unsigned (`b & 0xff`)
   * ----------------------------------------------------------------- */

  /** The unsigned value of a byte. */
  function Unsigned(b: JByte): (u: nat)
    ensures u < 256 && (u == b || u == b + 256)
  {
    if b < 0 then b + 256 else b
  }

  /** One byte as two digits of its unsigned value. */
  function RenderUnsigned(b: JByte): (r: string)
    ensures |r| == 2 && IsHexChar(r[0]) && IsHexChar(r[1])
  {
    var u := Unsigned(b);
    [HexChar(u / 16), HexChar(u % 16)]
  }

  /** A digest as text with exactly two digits per byte. */
  function UnsignedHashStr(hash: seq<JByte>): (r: string)
    ensures |r| == 2 * |hash|
    ensures forall i :: 0 <= i < |r| ==> IsHexChar(r[i])
  {
    if hash == [] then [] else RenderUnsigned(hash[0]) + UnsignedHashStr(hash[1..])
  }

  /** A non-negative byte renders the same either way; a negative one loses its six 'f's. */
  lemma UnsignedAgrees(b: JByte)
    ensures b >= 0 ==> RenderUnsigned(b) == RenderByte(b)
    ensures b < 0 ==> RenderByte(b) == "ffffff" + RenderUnsigned(b)
  {
  }

  /** A digest without negative bytes renders the same either way. */
  lemma {:induction false} HashStrAgrees(hash: seq<JByte>)
    requires Negatives(hash) == 0
    ensures HashStr(hash) == UnsignedHashStr(hash)
  {
    if hash != [] {
      UnsignedAgrees(hash[0]);
      HashStrAgrees(hash[1..]);
    }
  }

  /** The byte whose unsigned value is `u`. */
  function Signed(u: int): (b: JByte)
    requires 0 <= u < 256
    ensures Unsigned(b) == u
  {
    if u < 128 then u else u - 256
  }

  /** Reads two digits per byte back; `None` for an odd length or a char that is not a digit. */
  function DecodeHex(s: string): (r: Option<seq<JByte>>)
    ensures r.Some? ==> 2 * |r.value| == |s|
    decreases |s|
  {
    if s == [] then Some([])
    else if |s| < 2 || !IsHexChar(s[0]) || !IsHexChar(s[1]) then None
    else
      match DecodeHex(s[2..])
      case None => None
      case Some(rest) => Some([Signed(16 * HexValue(s[0]) + HexValue(s[1]))] + rest)
  }

  /** The two-digit rendering loses nothing: decoding it gives the digest back. */
  lemma {:induction false} UnsignedHashStrRoundTrip(hash: seq<JByte>)
    ensures DecodeHex(UnsignedHashStr(hash)) == Some(hash)
  {
    if hash != [] {
      var s := UnsignedHashStr(hash);
      var u := Unsigned(hash[0]);
      assert s[..2] == RenderUnsigned(hash[0]);
      assert s[2..] == UnsignedHashStr(hash[1..]);
      assert 16 * HexValue(s[0]) + HexValue(s[1]) == u;
      UnsignedHashStrRoundTrip(hash[1..]);
      assert [hash[0]] + hash[1..] == hash;
    }
  }
}
