/** The byte-array to lowercase hexadecimal encoder `Md5Util.bytesToHexString`,
    which turns an MD5 digest into the string used as a grouping key. */
module Md5Hex {
  import opened Wrappers

  /** A Java `byte`: a signed 8-bit value. */
  newtype Byte = b: int | -128 <= b < 128

  /** The characters the encoder may produce. */
  predicate IsHexChar(c: char) {
    '0' <= c <= '9' || 'a' <= c <= 'f'
  }

  /** The lowercase hexadecimal digit of a nibble. */
  function HexDigit(n: nat): (c: char)
    requires n < 16
    ensures IsHexChar(c)
  {
    if n < 10 then ('0' as int + n) as char else ('a' as int + (n - 10)) as char
  }

  /** The nibble a hexadecimal digit stands for; the left inverse of `HexDigit`. */
  function DigitValue(c: char): (n: nat)
    requires IsHexChar(c)
    ensures n < 16
    ensures HexDigit(n) == c
  {
    if c <= '9' then c as int - '0' as int else c as int - 'a' as int + 10
  }

  /** The value `b & 0xFF` of a Java byte: its two's-complement bits read unsigned, 0 to 255. */
  function Unsigned(b: Byte): (v: nat)
    ensures v < 256
    ensures v % 256 == (b as int) % 256
  {
    if b < 0 then b as int + 256 else b as int
  }

  /** The Java byte whose unsigned reading is `v`: the narrowing cast `(byte) v`. */
  function ToByte(v: nat): (b: Byte)
    requires v < 256
    ensures Unsigned(b) == v
  {
    if v < 128 then v as Byte else (v - 256) as Byte
  }

  /** The high nibble of a byte. */
  function Hi(b: Byte): (n: nat)
    ensures n < 16
  {
    Unsigned(b) / 16
  }

  /** The low nibble of a byte. */
  function Lo(b: Byte): (n: nat)
    ensures n < 16
  {
    Unsigned(b) % 16
  }

  /** `Integer.toHexString` on a value in 0..255: lowercase, without leading zeros. */
  function ToHexString(v: nat): (s: string)
    requires v < 256
    ensures |s| == 1 <==> v < 16
    ensures 1 <= |s| <= 2
    ensures forall i :: 0 <= i < |s| ==> IsHexChar(s[i])
  {
    if v < 16 then [HexDigit(v)] else [HexDigit(v / 16), HexDigit(v % 16)]
  }

  /** The two characters appended for one byte: a `0` is inserted in front of a
      one-digit `toHexString`, so every byte yields its high and its low nibble. */
  function ByteHex(b: Byte): (s: string)
    ensures s == [HexDigit(Hi(b)), HexDigit(Lo(b))]
  {
    var hv := ToHexString(Unsigned(b));
    if |hv| < 2 then
      assert Hi(b) == 0 && Lo(b) == Unsigned(b);
      "0" + hv
    else hv
  }

  /** The reference encoding: each byte's high and low digit, in input order. */
  function BytesToHex(src: seq<Byte>): (s: string)
    ensures |s| == 2 * |src|
  {
    if |src| == 0 then "" else BytesToHex(src[..|src| - 1]) + [HexDigit(Hi(src[|src| - 1])), HexDigit(Lo(src[|src| - 1]))]
  }

  /** Characters `2i` and `2i+1` of the encoding are the high and low digits of byte `i`. */
  lemma {:induction false} HexAt(src: seq<Byte>, i: nat)
    requires i < |src|
    ensures BytesToHex(src)[2 * i] == HexDigit(Hi(src[i]))
    ensures BytesToHex(src)[2 * i + 1] == HexDigit(Lo(src[i]))
  {
    var n := |src| - 1;
    var p := BytesToHex(src[..n]);
    if i < n {
      HexAt(src[..n], i);
      assert src[..n][i] == src[i];
    }
  }

  /** The encoding, position by position, and its alphabet. */
  lemma BytesToHexDigits(src: seq<Byte>)
    ensures forall i :: 0 <= i < |src| ==>
              BytesToHex(src)[2 * i] == HexDigit(Hi(src[i])) && BytesToHex(src)[2 * i + 1] == HexDigit(Lo(src[i]))
    ensures forall j :: 0 <= j < |BytesToHex(src)| ==> IsHexChar(BytesToHex(src)[j])
  {
    var s := BytesToHex(src);
    forall i | 0 <= i < |src|
      ensures s[2 * i] == HexDigit(Hi(src[i])) && s[2 * i + 1] == HexDigit(Lo(src[i]))
    {
      HexAt(src, i);
    }
    forall j | 0 <= j < |s| ensures IsHexChar(s[j]) {
      HexAt(src, j / 2);
      assert j == 2 * (j / 2) || j == 2 * (j / 2) + 1;
    }
  }

  /** `bytesToHexString`: the StringBuilder loop appending, per byte, a `0` when
      `toHexString` gave one digit and then `toHexString` itself. */
  method BytesToHexString(src: seq<Byte>) returns (s: string)
    ensures s == BytesToHex(src)
    ensures |s| == 2 * |src|
  {
    if |src| <= 0 {
      return "";
    }
    s := "";
    var k := 0;
    while k < |src|
      invariant 0 <= k <= |src|
      invariant s == BytesToHex(src[..k])
    {
      var hv := ToHexString(Unsigned(src[k]));
      var padded := s;
      if |hv| < 2 {
        padded := s + "0";
      }
      assert padded + hv == s + ByteHex(src[k]);
      s := padded + hv;
      assert src[..k + 1][..k] == src[..k];
      k := k + 1;
    }
    assert src[..k] == src;
  }

  /** Reads pairs of hexadecimal digits back into bytes; `None` on an odd length
      or a character outside `0-9a-f`. */
  function HexToBytes(s: string): (r: Option<seq<Byte>>)
    ensures r.Some? ==> 2 * |r.value| == |s|
  {
    if |s| == 0 then Some([])
    else if |s| == 1 then None
    else
      var hi := s[|s| - 2];
      var lo := s[|s| - 1];
      if !IsHexChar(hi) || !IsHexChar(lo) then None
      else
        match HexToBytes(s[..|s| - 2])
        case None => None
        case Some(prefix) => Some(prefix + [ToByte(DigitValue(hi) * 16 + DigitValue(lo))])
  }

  /** A digit reads back to its nibble. */
  lemma DigitRoundTrip(n: nat)
    requires n < 16
    ensures DigitValue(HexDigit(n)) == n
  {
    if n < 10 {
      assert HexDigit(n) as int == '0' as int + n;
    } else {
      assert HexDigit(n) as int == 'a' as int + (n - 10);
    }
  }

  /** The two digits of a byte read back to that byte. */
  lemma ByteDigitsRoundTrip(b: Byte)
    ensures ToByte(DigitValue(HexDigit(Hi(b))) * 16 + DigitValue(HexDigit(Lo(b)))) == b
  {
    DigitRoundTrip(Hi(b));
    DigitRoundTrip(Lo(b));
    assert Hi(b) * 16 + Lo(b) == Unsigned(b);
  }

  /** Decoding a string with two more digits at its end. */
  lemma HexToBytesSnoc(p: string, hi: char, lo: char)
    requires IsHexChar(hi) && IsHexChar(lo)
    requires HexToBytes(p).Some?
    ensures HexToBytes(p + [hi, lo]) == Some(HexToBytes(p).value + [ToByte(DigitValue(hi) * 16 + DigitValue(lo))])
  {
    var s := p + [hi, lo];
    assert s[..|s| - 2] == p;
    assert s[|s| - 2] == hi && s[|s| - 1] == lo;
  }

  /** Decoding the encoding of one more byte appends that byte. */
  lemma HexStep(p: string, prefix: seq<Byte>, b: Byte)
    requires HexToBytes(p) == Some(prefix)
    ensures HexToBytes(p + [HexDigit(Hi(b)), HexDigit(Lo(b))]) == Some(prefix + [b])
  {
    HexToBytesSnoc(p, HexDigit(Hi(b)), HexDigit(Lo(b)));
    ByteDigitsRoundTrip(b);
  }

  /** Decoding recovers every byte from its two digits. */
  lemma {:induction false} HexRoundTrip(src: seq<Byte>)
    ensures HexToBytes(BytesToHex(src)) == Some(src)
  {
    if |src| > 0 {
      var n := |src| - 1;
      HexRoundTrip(src[..n]);
      HexStep(BytesToHex(src[..n]), src[..n], src[n]);
      assert src[..n] + [src[n]] == src;
    }
  }

  /** Distinct digests never share a hexadecimal string. */
  lemma HexInjective(a: seq<Byte>, b: seq<Byte>)
    ensures BytesToHex(a) == BytesToHex(b) <==> a == b
  {
    if BytesToHex(a) == BytesToHex(b) {
      HexRoundTrip(a);
      HexRoundTrip(b);
    }
  }
}
