/**
 * The byte-level arithmetic behind the client's pixel accessors: splitting a
 * packed colour, reading four bytes back as a word on either kind of host,
 * and copying whole native words in and out of the LED buffer.
 */
module PixelCodec {
  import opened NativeTypes

  // ----- Reversal (the client's private Reverse helper) -----

  /** The elements of `s` in the opposite order. */
  function Reversed<T>(s: seq<T>): seq<T>
  {
    if |s| == 0 then [] else [s[|s| - 1]] + Reversed(s[..|s| - 1])
  }

  lemma {:induction false} ReversedLength<T>(s: seq<T>)
    ensures |Reversed(s)| == |s|
  {
    if |s| > 0 {
      ReversedLength(s[..|s| - 1]);
    }
  }

  /** Element k of the reversal is element len-1-k of the input. */
  lemma {:induction false} ReversedAt<T>(s: seq<T>, k: int)
    requires 0 <= k < |s|
    ensures |Reversed(s)| == |s| && Reversed(s)[k] == s[|s| - 1 - k]
  {
    ReversedLength(s);
    if k > 0 {
      ReversedAt(s[..|s| - 1], k - 1);
    }
  }

  /** Reversing twice gives back the input. */
  lemma ReversedTwice<T>(s: seq<T>)
    ensures Reversed(Reversed(s)) == s
  {
    ReversedLength(s);
    ReversedLength(Reversed(s));
    forall k | 0 <= k < |s|
      ensures Reversed(Reversed(s))[k] == s[k]
    {
      ReversedAt(Reversed(s), k);
      ReversedAt(s, |s| - 1 - k);
    }
  }

  // ----- Division by powers of two (the right shifts in SetPixelColor) -----

  /** Quotient and remainder by 0x100 are determined by any split of x. */
  lemma SplitByte(x: int, q: int, r: int)
    requires 0 <= r < 0x100 && x == 0x100 * q + r
    ensures x / 0x100 == q && x % 0x100 == r
  {
  }

  /** A right shift by 16 is two right shifts by 8. */
  lemma ShiftBy16(x: nat)
    ensures x / 0x1_0000 == x / 0x100 / 0x100
  {
  }

  // ----- One pixel: the bytes [a, r, g, b] at offset 4*i -----

  /** The bytes SetPixelColor stores for one pixel: a zero, then red, green, blue. */
  function PixelBytes(r: byte, g: byte, b: byte): seq<byte>
  {
    [0, r, g, b]
  }

  /**
   * The bytes stored for a packed colour: red, green and blue are the colour
   * shifted right by 16, 8 and 0 bits and cut to a byte; bits 24..31 are
   * dropped and 0 is stored in their place.
   */
  function ColorBytes(color: uint32): seq<byte>
  {
    PixelBytes((color / 0x1_0000) % 0x100, (color / 0x100) % 0x100, color % 0x100)
  }

  /** The colour GetPixelColor reports for the bytes [a, r, g, b]: a·2^24 + r·2^16 + g·2^8 + b. */
  function PixelValue(px: seq<byte>): uint32
    requires |px| == 4
  {
    px[0] as int * 0x100_0000 + px[1] as int * 0x1_0000 + px[2] as int * 0x100 + px[3] as int
  }

  /** Storing a colour and reading it back keeps exactly its low 24 bits. */
  lemma ColorBytesValue(color: uint32)
    ensures PixelValue(ColorBytes(color)) == color % 0x100_0000
  {
    ShiftBy16(color);
    var q1 := color / 0x100;
    var q2 := q1 / 0x100;
    var v := PixelValue(ColorBytes(color));
    assert v == 0x1_0000 * (q2 % 0x100) + 0x100 * (q1 % 0x100) + color % 0x100;
    assert color == 0x100_0000 * (q2 / 0x100) + v && 0 <= v < 0x100_0000;
  }

  /** Two colours are stored as the same bytes exactly when their low 24 bits agree. */
  lemma ColorBytesDropTopByte(c1: uint32, c2: uint32)
    ensures ColorBytes(c1) == ColorBytes(c2) <==> c1 % 0x100_0000 == c2 % 0x100_0000
  {
    ColorBytesValue(c1);
    ColorBytesValue(c2);
    BytesToWordInverse(ColorBytes(c1), false);
    BytesToWordInverse(ColorBytes(c2), false);
  }

  // ----- Host byte order (BitConverter.ToUInt32 and its inverse) -----

  /** The word whose host representation is the four bytes `bs`. */
  function BytesToWord(bs: seq<byte>, littleEndian: bool): uint32
    requires |bs| == 4
  {
    var b0, b1, b2, b3 := bs[0] as int, bs[1] as int, bs[2] as int, bs[3] as int;
    if littleEndian then
      b0 + b1 * 0x100 + b2 * 0x1_0000 + b3 * 0x100_0000
    else
      b0 * 0x100_0000 + b1 * 0x1_0000 + b2 * 0x100 + b3
  }

  /** The host representation of the word `w`, lowest address first. */
  function WordToBytes(w: uint32, littleEndian: bool): seq<byte>
  {
    var q1 := w / 0x100;
    var q2 := q1 / 0x100;
    var q3 := q2 / 0x100;
    var b0, b1, b2, b3 := w % 0x100, q1 % 0x100, q2 % 0x100, q3;
    if littleEndian then [b0, b1, b2, b3] else [b3, b2, b1, b0]
  }

  /**
   * GetPixelColor reverses the bytes on a little-endian host and then reads
   * them in host order; on either host that yields the pixel's value.
   */
  lemma HostReadAgrees(px: seq<byte>, littleEndian: bool)
    requires |px| == 4
    ensures |Reversed(px)| == 4
    ensures BytesToWord(if littleEndian then Reversed(px) else px, littleEndian) == PixelValue(px)
  {
    ReversedLength(px);
    forall k | 0 <= k < 4
      ensures Reversed(px)[k] == px[3 - k]
    {
      ReversedAt(px, k);
    }
  }

  /** Reading back the host representation of a word gives the word. */
  lemma WordToBytesInverse(w: uint32, littleEndian: bool)
    ensures |WordToBytes(w, littleEndian)| == 4
    ensures BytesToWord(WordToBytes(w, littleEndian), littleEndian) == w
  {
  }

  /** Four bytes are the host representation of the word they read as. */
  lemma BytesToWordInverse(bs: seq<byte>, littleEndian: bool)
    requires |bs| == 4
    ensures WordToBytes(BytesToWord(bs, littleEndian), littleEndian) == bs
  {
    var w := BytesToWord(bs, littleEndian);
    var lo: int := if littleEndian then bs[0] else bs[3];
    var m1: int := if littleEndian then bs[1] else bs[2];
    var m2: int := if littleEndian then bs[2] else bs[1];
    var hi: int := if littleEndian then bs[3] else bs[0];
    SplitByte(w, m1 + 0x100 * m2 + 0x1_0000 * hi, lo);
    SplitByte(w / 0x100, m2 + 0x100 * hi, m1);
    SplitByte(w / 0x100 / 0x100, hi, m2);
  }

  // ----- Whole buffer of native words (SetPixels / GetPixels) -----

  /** The host representation of a sequence of words, one after another. */
  function EncodeWords(ws: seq<uint32>, littleEndian: bool): (bs: seq<byte>)
    ensures |bs| == 4 * |ws|
  {
    if ws == [] then [] else WordToBytes(ws[0], littleEndian) + EncodeWords(ws[1..], littleEndian)
  }

  /** The words held by a byte buffer, four bytes each; a trailing partial word is ignored. */
  function DecodeWords(bs: seq<byte>, littleEndian: bool): (ws: seq<uint32>)
    ensures |ws| == |bs| / 4
  {
    if |bs| < 4 then [] else [BytesToWord(bs[..4], littleEndian)] + DecodeWords(bs[4..], littleEndian)
  }

  /** Word k of a buffer is read from bytes 4k..4k+3. */
  lemma {:induction false} DecodeWordsAt(bs: seq<byte>, littleEndian: bool, k: int)
    requires 0 <= k < |bs| / 4
    ensures DecodeWords(bs, littleEndian)[k] == BytesToWord(bs[4 * k..4 * k + 4], littleEndian)
  {
    if k > 0 {
      DecodeWordsAt(bs[4..], littleEndian, k - 1);
      SliceAfterWord(bs, 4 * k - 4);
    }
  }

  /** Bytes o..o+3 after dropping the first word are bytes o+4..o+7 of the whole. */
  lemma SliceAfterWord(bs: seq<byte>, o: nat)
    requires o + 8 <= |bs|
    ensures bs[4..][o..o + 4] == bs[o + 4..o + 8]
  {
  }

  /** Decoding an encoded prefix gives back its words, followed by the decoded rest. */
  lemma {:induction false} DecodeEncodeWords(ws: seq<uint32>, rest: seq<byte>, littleEndian: bool)
    ensures DecodeWords(EncodeWords(ws, littleEndian) + rest, littleEndian) == ws + DecodeWords(rest, littleEndian)
  {
    if ws != [] {
      var head := WordToBytes(ws[0], littleEndian);
      var all := EncodeWords(ws, littleEndian) + rest;
      WordToBytesInverse(ws[0], littleEndian);
      assert all == head + (EncodeWords(ws[1..], littleEndian) + rest);
      assert all[..4] == head;
      assert all[4..] == EncodeWords(ws[1..], littleEndian) + rest;
      DecodeEncodeWords(ws[1..], rest, littleEndian);
      calc {
        DecodeWords(all, littleEndian);
        [BytesToWord(head, littleEndian)] + DecodeWords(all[4..], littleEndian);
        [ws[0]] + (ws[1..] + DecodeWords(rest, littleEndian));
        { assert ws == [ws[0]] + ws[1..]; }
        ws + DecodeWords(rest, littleEndian);
      }
    } else {
      assert EncodeWords(ws, littleEndian) + rest == rest;
    }
  }

  /** Dropping the first n words of the decoding is decoding after the first 4n bytes. */
  lemma {:induction false} DecodeWordsDrop(bs: seq<byte>, n: nat, littleEndian: bool)
    requires 4 * n <= |bs|
    ensures DecodeWords(bs, littleEndian)[n..] == DecodeWords(bs[4 * n..], littleEndian)
  {
    if n > 0 {
      DecodeWordsDrop(bs[4..], n - 1, littleEndian);
      assert bs[4..][4 * (n - 1)..] == bs[4 * n..];
    }
  }

  /** The buffer after the words `ws` are copied over its beginning. */
  function StoreWords(buf: seq<byte>, ws: seq<uint32>, littleEndian: bool): seq<byte>
    requires 4 * |ws| <= |buf|
  {
    EncodeWords(ws, littleEndian) + buf[4 * |ws|..]
  }

  /**
   * After the words `ws` are copied in, the buffer reads back as `ws`
   * followed by the words it held beyond them; when `ws` fills the buffer it
   * reads back as exactly `ws`.
   */
  lemma LoadAfterStoreWords(buf: seq<byte>, ws: seq<uint32>, littleEndian: bool)
    requires 4 * |ws| <= |buf|
    ensures |StoreWords(buf, ws, littleEndian)| == |buf|
    ensures DecodeWords(StoreWords(buf, ws, littleEndian), littleEndian)[..|ws|] == ws
    ensures DecodeWords(StoreWords(buf, ws, littleEndian), littleEndian)[|ws|..]
         == DecodeWords(buf, littleEndian)[|ws|..]
    ensures 4 * |ws| == |buf| ==> DecodeWords(StoreWords(buf, ws, littleEndian), littleEndian) == ws
  {
    DecodeEncodeWords(ws, buf[4 * |ws|..], littleEndian);
    DecodeWordsDrop(buf, |ws|, littleEndian);
  }

  // ----- Pixel i of a byte buffer -----

  /** The buffer after the four bytes `px` are written at offset 4i. */
  function StorePixel(buf: seq<byte>, i: nat, px: seq<byte>): seq<byte>
    requires 4 * i + 4 <= |buf| && |px| == 4
  {
    buf[..4 * i] + px + buf[4 * i + 4..]
  }

  /** The colour GetPixelColor reports for pixel i of the buffer. */
  function LoadPixel(buf: seq<byte>, i: nat): uint32
    requires 4 * i + 4 <= |buf|
  {
    PixelValue(buf[4 * i..4 * i + 4])
  }

  /** Writing a colour into pixel i and reading pixel i gives the colour's low 24 bits. */
  lemma LoadStoreSame(buf: seq<byte>, i: nat, color: uint32)
    requires 4 * i + 4 <= |buf|
    ensures LoadPixel(StorePixel(buf, i, ColorBytes(color)), i) == color % 0x100_0000
  {
    ColorBytesValue(color);
  }

  /** Writing pixel i leaves every other pixel as it was. */
  lemma LoadStoreOther(buf: seq<byte>, i: nat, j: nat, px: seq<byte>)
    requires 4 * i + 4 <= |buf| && 4 * j + 4 <= |buf| && |px| == 4 && i != j
    ensures LoadPixel(StorePixel(buf, i, px), j) == LoadPixel(buf, j)
  {
  }
}
