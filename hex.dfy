/**
 * Bytes and their lowercase base16 text (the encoding of section 8 of
 * RFC 4648 with the alphabet "0123456789abcdef"), as `hex_string` and the
 * `std::hex << std::setw(2) << std::setfill('0')` loops produce it.
 */
module Hex {
  import opened Wrappers

  type byte = b: int | 0 <= b < 256

  /** A SHA-256 digest: 32 bytes. */
  type Digest = d: seq<byte> | |d| == 32 witness seq(32, _ => 0)

  /** SHA-256 (FIPS 180-4) as an uninterpreted function of the bytes fed to it. */
  type Sha256 = seq<byte> -> Digest

  const Digits: string := "0123456789abcdef"

  predicate IsHexDigit(c: char) {
    '0' <= c <= '9' || 'a' <= c <= 'f'
  }

  /** The digit for a nibble. */
  function HexDigit(n: int): (c: char)
    requires 0 <= n < 16
    ensures IsHexDigit(c)
  {
    Digits[n]
  }

  /** The value of a lowercase hex digit, None for any other character. */
  function DigitValue(c: char): (r: Option<int>)
    ensures r.Some? <==> IsHexDigit(c)
    ensures r.Some? ==> 0 <= r.value < 16 && HexDigit(r.value) == c
  {
    if '0' <= c <= '9' then Some(c as int - '0' as int)
    else if 'a' <= c <= 'f' then Some(c as int - 'a' as int + 10)
    else None
  }

  /** Reading a digit back gives the nibble it was written for. */
  lemma DigitRoundTrip(n: int)
    requires 0 <= n < 16
    ensures DigitValue(HexDigit(n)) == Some(n)
  {
    var v := DigitValue(HexDigit(n)).value;
    assert HexDigit(v) == HexDigit(n);
    if v != n {
      DigitsDistinct(v, n);
    }
  }

  /** Distinct nibbles have distinct digits. */
  lemma DigitsDistinct(a: int, b: int)
    requires 0 <= a < 16 && 0 <= b < 16 && a != b
    ensures HexDigit(a) != HexDigit(b)
  {
  }

  /** The two digits of one byte, high nibble first. */
  function Pair(b: byte): string {
    [HexDigit(b / 16), HexDigit(b % 16)]
  }

  /** Two digits per byte, in byte order. */
  function Hex(bs: seq<byte>): (r: string)
    ensures |r| == 2 * |bs|
    ensures forall j :: 0 <= j < |r| ==> IsHexDigit(r[j])
  {
    if bs == [] then [] else Pair(bs[0]) + Hex(bs[1..])
  }

  /** Characters 2i and 2i+1 of the encoding are the high and low nibble digits of byte i. */
  lemma {:induction false} HexAt(bs: seq<byte>, i: nat)
    requires i < |bs|
    ensures Hex(bs)[2 * i] == HexDigit(bs[i] / 16)
    ensures Hex(bs)[2 * i + 1] == HexDigit(bs[i] % 16)
  {
    if i > 0 {
      HexAt(bs[1..], i - 1);
    }
  }

  /** Appending a byte appends its two digits (the loop in `hex_string`). */
  lemma {:induction false} HexSnoc(bs: seq<byte>, b: byte)
    ensures Hex(bs + [b]) == Hex(bs) + Pair(b)
  {
    if bs != [] {
      assert (bs + [b])[1..] == bs[1..] + [b];
      HexSnoc(bs[1..], b);
    } else {
      assert bs + [b] == [b];
    }
  }

  /** An encoding holds no newline (it is read back whole by getline). */
  lemma HexHasNoNewline(bs: seq<byte>)
    ensures '\n' !in Hex(bs)
  {
  }

  /** The byte two digit values stand for. */
  function Join(h: int, l: int): byte
    requires 0 <= h < 16 && 0 <= l < 16
  {
    h * 16 + l
  }

  lemma JoinSplit(b: byte)
    ensures Join(b / 16, b % 16) == b
  {
  }

  lemma SplitJoin(h: int, l: int)
    requires 0 <= h < 16 && 0 <= l < 16
    ensures Join(h, l) / 16 == h && Join(h, l) % 16 == l
  {
  }

  /** Decoding lowercase base16 text; None for odd length or a foreign character. */
  function Unhex(s: string): Option<seq<byte>>
    decreases |s|
  {
    if s == [] then Some([])
    else if |s| == 1 || DigitValue(s[0]).None? || DigitValue(s[1]).None? then None
    else
      var rest := Unhex(s[2..]);
      if rest.None? then None
      else Some([Join(DigitValue(s[0]).value, DigitValue(s[1]).value)] + rest.value)
  }

  /** Decoding undoes encoding. */
  lemma {:induction false} UnhexHex(bs: seq<byte>)
    ensures Unhex(Hex(bs)) == Some(bs)
  {
    if bs != [] {
      UnhexHex(bs[1..]);
      assert Hex(bs) == Pair(bs[0]) + Hex(bs[1..]);
      UnhexPair(bs[0], Hex(bs[1..]));
      assert [bs[0]] + bs[1..] == bs;
    }
  }

  /** Decoding reads the two digits of a byte back as that byte. */
  lemma UnhexPair(b: byte, t: string)
    ensures Unhex(Pair(b) + t) == if Unhex(t).None? then None else Some([b] + Unhex(t).value)
  {
    var s := Pair(b) + t;
    assert s[0] == HexDigit(b / 16) && s[1] == HexDigit(b % 16);
    assert s[2..] == t;
    DigitRoundTrip(b / 16);
    DigitRoundTrip(b % 16);
    JoinSplit(b);
  }

  /** Encoding undoes decoding: the lowercase encoding of a byte string is unique. */
  lemma {:induction false} HexUnhex(s: string)
    requires Unhex(s).Some?
    ensures Hex(Unhex(s).value) == s
  {
    if s != [] {
      var h := DigitValue(s[0]).value;
      var l := DigitValue(s[1]).value;
      var rest := Unhex(s[2..]).value;
      HexUnhex(s[2..]);
      var bs := Unhex(s).value;
      assert bs == [Join(h, l)] + rest;
      assert bs[1..] == rest;
      SplitJoin(h, l);
      assert Pair(bs[0]) == [s[0], s[1]];
      assert s == [s[0], s[1]] + s[2..];
    }
  }

  /**
   * `hex_string(data, len)`: pushes the high then the low nibble digit of
   * each byte onto an initially empty string. What it computes is `Hex`,
   * the single hex encoding in the model; the loops of `hash_directory`
   * and the assembly cache call this method.
   */
  method HexString(data: seq<byte>) returns (r: string)
    ensures r == Hex(data)
  {
    r := [];
    var i := 0;
    while i < |data|
      invariant 0 <= i <= |data|
      invariant r == Hex(data[..i])
    {
      assert data[..i + 1] == data[..i] + [data[i]];
      HexSnoc(data[..i], data[i]);
      r := r + [Digits[data[i] / 16]];
      r := r + [Digits[data[i] % 16]];
      i := i + 1;
    }
    assert data[..i] == data;
  }

  /** The bytes of a text whose characters are all below 256. */
  function Bytes(s: string): (bs: seq<byte>)
    ensures |bs| == |s|
    ensures forall i :: 0 <= i < |s| ==> bs[i] == (s[i] as int) % 256
  {
    seq(|s|, i requires 0 <= i < |s| => (s[i] as int) % 256)
  }

  /** The characters of a byte string. */
  function Chars(bs: seq<byte>): (s: string)
    ensures |s| == |bs|
    ensures forall i :: 0 <= i < |bs| ==> s[i] as int == bs[i]
  {
    seq(|bs|, i requires 0 <= i < |bs| => bs[i] as char)
  }

  /** Hex text written to a file as bytes reads back as the same text. */
  lemma CharsBytesHex(bs: seq<byte>)
    ensures Chars(Bytes(Hex(bs))) == Hex(bs)
  {
    var s := Hex(bs);
    assert forall i :: 0 <= i < |s| ==> Chars(Bytes(s))[i] == s[i];
  }
}
