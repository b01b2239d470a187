/**
 * Base-16 numbers as the rasterizer reads them with `int(text, 16)`, and the
 * lower-case two-digit rendering of a byte, which is how a packet sniffer
 * prints payload bytes and which `int(text, 16)` inverts.
 */
module Hex {
  import opened Common
  import opened Strings

  type Byte = x: int | 0 <= x < 256

  predicate IsHexDigit(ch: char)
  {
    ('0' <= ch <= '9') || ('a' <= ch <= 'f') || ('A' <= ch <= 'F')
  }

  predicate AllHex(s: string)
  {
    forall i :: 0 <= i < |s| ==> IsHexDigit(s[i])
  }

  function DigitValue(ch: char): (d: nat)
    requires IsHexDigit(ch)
    ensures d < 16
  {
    if '0' <= ch <= '9' then ch as int - '0' as int
    else if 'a' <= ch <= 'f' then 10 + (ch as int - 'a' as int)
    else 10 + (ch as int - 'A' as int)
  }

  function Pow16(n: nat): (p: nat)
    ensures p >= 1
  {
    if n == 0 then 1 else 16 * Pow16(n - 1)
  }

  /** The number written by the digits `s`, most significant first; `None` at a character that is not a hex digit. */
  function ParseDigits(s: string): (r: Option<nat>)
    ensures r.Some? ==> r.value < Pow16(|s|)
    decreases |s|
  {
    if |s| == 0 then Some(0)
    else
      match ParseDigits(s[..|s| - 1])
      case None => None
      case Some(v) =>
        if IsHexDigit(s[|s| - 1]) then Some(16 * v + DigitValue(s[|s| - 1])) else None
  }

  lemma {:induction false} ParseDigitsIff(s: string)
    ensures ParseDigits(s).Some? <==> AllHex(s)
    decreases |s|
  {
    if |s| > 0 {
      var init := s[..|s| - 1];
      ParseDigitsIff(init);
      assert forall i :: 0 <= i < |init| ==> init[i] == s[i];
    }
  }

  /**
   * `int(s, 16)` on a text of at most two word characters: `None` where
   * Python raises ValueError. Sign, surrounding blanks and `0x` prefixes need
   * characters that are not word characters or more than two of them, and an
   * underscore is only accepted between two digits, so on this domain the
   * call succeeds exactly on one or two hex digits.
   */
  function ParseHex(s: string): (r: Option<int>)
    requires IsWord(s) && |s| <= 2
    ensures r.Some? ==> 0 <= r.value <= 255
  {
    if |s| == 0 then None
    else if !IsHexDigit(s[0]) then None
    else if |s| == 1 then Some(DigitValue(s[0]))
    else if !IsHexDigit(s[1]) then None
    else Some(16 * DigitValue(s[0]) + DigitValue(s[1]))
  }

  /** `int(s, 16)` succeeds exactly on one or two hex digits, and agrees with reading them as a base-16 number. */
  lemma ParseHexIff(s: string)
    requires IsWord(s) && |s| <= 2
    ensures ParseHex(s).Some? <==> 0 < |s| && AllHex(s)
    ensures 0 < |s| ==> ParseHex(s).Some? == ParseDigits(s).Some?
    ensures ParseHex(s).Some? ==> ParseHex(s).value == ParseDigits(s).value
  {
    ParseDigitsIff(s);
    if |s| > 0 {
      assert s[..|s| - 1][..0] == [];
    }
    if |s| == 2 {
      assert s[..1][..0] == [];
    }
  }

  function HexChar(d: nat): (ch: char)
    requires d < 16
    ensures IsHexDigit(ch) && IsWordChar(ch) && DigitValue(ch) == d
  {
    if d < 10 then ('0' as int + d) as char else ('a' as int + (d - 10)) as char
  }

  /**
   * Word characters that are not hex digits make the parse fail: a `0x`
   * prefix with no digit after it, and an underscore before or after the
   * only digit, are rejected as `int(_, 16)` rejects them.
   */
  lemma NonDigitWordsRaise()
    ensures ParseHex("0x").None?
    ensures ParseHex("_a").None? && ParseHex("a_").None? && ParseHex("__").None?
  {
  }

  /** The two lower-case hex digits of a byte. */
  function EncodeByte(b: Byte): (s: string)
    ensures |s| == 2 && IsWord(s) && AllHex(s)
  {
    [HexChar(b / 16), HexChar(b % 16)]
  }

  /** Parsing the two digits of a byte gives the byte back. */
  lemma ParseEncodeByte(b: Byte)
    ensures ParseHex(EncodeByte(b)) == Some(b)
  {
    ParseHexIff(EncodeByte(b));
  }

  /** A byte string rendered as hex text, two digits per byte, in order. */
  function Encode(bs: seq<Byte>): (s: string)
    ensures |s| == 2 * |bs| && IsWord(s)
  {
    if |bs| == 0 then [] else EncodeByte(bs[0]) + Encode(bs[1..])
  }

  lemma {:induction false} EncodeAt(bs: seq<Byte>, k: nat)
    requires k < |bs|
    ensures Encode(bs)[2 * k..2 * k + 2] == EncodeByte(bs[k])
  {
    var head := EncodeByte(bs[0]);
    var tail := Encode(bs[1..]);
    assert Encode(bs) == head + tail;
    if k == 0 {
      assert (head + tail)[0..2] == head;
    } else {
      EncodeAt(bs[1..], k - 1);
      assert (head + tail)[2 * k..2 * k + 2] == tail[2 * k - 2..2 * k];
    }
  }

  /** Digits `o = 2k` and `o + 1` of a rendered payload are hex digits that read back as byte `k`. */
  lemma EncodedDigits(bs: seq<Byte>, k: nat, o: nat)
    requires k < |bs| && o == 2 * k
    ensures o + 2 <= |Encode(bs)|
    ensures var s := Encode(bs);
      && IsHexDigit(s[o]) && IsHexDigit(s[o + 1])
      && 16 * DigitValue(s[o]) + DigitValue(s[o + 1]) == bs[k]
  {
    var s := Encode(bs);
    var b := bs[k];
    EncodeAt(bs, k);
    assert s[o..o + 2] == EncodeByte(b);
    assert s[o] == HexChar(b / 16) && s[o + 1] == HexChar(b % 16);
  }
}
