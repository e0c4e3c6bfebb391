/** An image written by the compressor, its bits put into bytes and these into sub-blocks, is decoded to its pixels. */
module GifRoundTrip {
  import opened Wrappers
  import opened Arithmetic
  import opened DiskModel
  import opened Sequences
  import opened BitStreams
  import opened GifPaint
  import opened GifDecoders
  import opened LzwEncoder

  // ------------------------------------------------------------------ bits into bytes

  /** Filled up with zeros to whole bytes. */
  function Padded(bits: seq<bool>): (s: seq<bool>)
    ensures |s| % 8 == 0 && bits <= s
  {
    bits + seq((8 - |bits| % 8) % 8, _ => false)
  }

  function ToBytes(bits: seq<bool>): seq<byte>
    requires |bits| % 8 == 0
  {
    if bits == [] then []
    else
      ToNatBound(bits[..8]);
      Pow2Table();
      [ToNat(bits[..8]) as byte] + ToBytes(bits[8..])
  }

  lemma {:induction false} DigitsBack(s: seq<bool>)
    ensures Digits(ToNat(s), |s|) == s
  {
    if s != [] {
      DigitsBack(s[1..]);
      assert ToNat(s) / 2 == ToNat(s[1..]) && s == [s[0]] + s[1..];
    }
  }

  lemma {:induction false} BytesBack(bits: seq<bool>)
    requires |bits| % 8 == 0
    ensures BytesBits(ToBytes(bits)) == bits
    decreases |bits|
  {
    if bits != [] {
      BytesBack(bits[8..]);
      DigitsBack(bits[..8]);
      ToNatBound(bits[..8]);
      Pow2Table();
      assert ToBytes(bits)[1..] == ToBytes(bits[8..]);
      assert bits == bits[..8] + bits[8..];
    }
  }

  // ------------------------------------------------------------------ bytes into sub-blocks

  /** Sub-blocks of up to 255 bytes, each behind its length, and an empty one. */
  function Framed(bytes: seq<byte>): seq<byte>
    decreases |bytes|
  {
    if bytes == [] then [0]
    else
      var k := if |bytes| < 255 then |bytes| else 255;
      [k as byte] + bytes[..k] + Framed(bytes[k..])
  }

  /** The rest of a sub-block is its bytes. */
  lemma {:induction false} PayloadRun(buf: seq<byte>, pos: nat, rem: nat)
    requires pos + rem <= |buf|
    ensures Payload(buf, pos, rem) == buf[pos..pos + rem] + Payload(buf, pos + rem, 0)
    decreases rem
  {
    if rem == 0 {
      assert buf[pos..pos] == [];
    } else {
      PayloadRun(buf, pos + 1, rem - 1);
      Regrouped([buf[pos]], buf[pos + 1..pos + rem], Payload(buf, pos + rem, 0));
      assert buf[pos..pos + rem] == [buf[pos]] + buf[pos + 1..pos + rem];
    }
  }

  /** The payload of framed bytes is the bytes, whatever is around them. */
  lemma {:induction false} PayloadFramed(front: seq<byte>, bytes: seq<byte>, behind: seq<byte>)
    ensures Payload(front + Framed(bytes) + behind, |front|, 0) == bytes
    decreases |bytes|
  {
    var buf, pos := front + Framed(bytes) + behind, |front|;
    if bytes != [] {
      var k := if |bytes| < 255 then |bytes| else 255;
      var front1 := front + [k as byte] + bytes[..k];
      assert Framed(bytes) == [k as byte] + bytes[..k] + Framed(bytes[k..]);
      assert buf == front1 + Framed(bytes[k..]) + behind;
      assert buf[pos] == k as byte && buf[pos + 1..pos + 1 + k] == bytes[..k] && pos + 1 + k == |front1|;
      PayloadRun(buf, pos + 1, k);
      PayloadFramed(front1, bytes[k..], behind);
      assert bytes == bytes[..k] + bytes[k..];
    }
  }

  // ------------------------------------------------------------------ a whole image

  /** The image data of a GIF file for `data`, behind the byte that says `min`. */
  function ImageData(data: seq<byte>, min: nat): seq<byte>
    requires Lzw.GoodMin(min) && Plain(data, min)
  {
    Framed(ToBytes(Padded(Encode(data, min))))
  }

  lemma ImageDecodes(front: seq<byte>, data: seq<byte>, min: nat, behind: seq<byte>)
    requires Lzw.GoodMin(min) && Plain(data, min)
    ensures var bits := BytesBits(Payload(front + ImageData(data, min) + behind, |front|, 0));
      Lzw.Decode(bits, Lzw.Fresh(min), min, |data|) == Some(data)
  {
    var bits := Encode(data, min);
    PayloadFramed(front, ToBytes(Padded(bits)), behind);
    BytesBack(Padded(bits));
    assert Padded(bits) == bits + Padded(bits)[|bits|..];
    hide Encode, Padded, ToBytes, Framed, Plain, Lzw.Decode, Lzw.Fresh;
    FreshBits(min);
    EncodeDecodes(data, min, Lzw.Fresh(min), Padded(bits)[|bits|..]);
  }

  lemma FreshBits(min: nat)
    requires Lzw.GoodMin(min)
    ensures Lzw.Fresh(min).width == min + 1
  {
  }

  /** Decodes an image that the compressor wrote into `buf` at `at`: the canvas is painted with its pixels. */
  method ShowImage(buf: seq<byte>, at: nat, data: seq<byte>, min: nat, pic: Picture, dst: array<nat>)
    requires Lzw.GoodMin(min) && Plain(data, min) && |data| == pic.Count() && pic.w > 0 && dst.Length == pic.Size()
    requires at <= |buf| && ImageData(data, min) <= buf[at..]
    modifies dst
    ensures dst[..] == pic.Paint(old(dst[..]), data)
  {
    ghost var n := |ImageData(data, min)|;
    assert buf == buf[..at] + ImageData(data, min) + buf[at + n..];
    ImageDecodes(buf[..at], data, min, buf[at + n..]);
    hide Lzw.Decode, Plain, ImageData, Payload, Picture.Paint;
    var stream := new BitStream(buf, at);
    var painter := new Painter(pic, dst);
    var decoder := new GifDecoder(min);
    decoder.Decode(stream, painter);
  }
}
