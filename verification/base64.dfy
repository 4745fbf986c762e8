/** Base64 with the standard alphabet and `=` padding, as defined in
    section 4 of RFC 4648. This is the encoding `btoa` produces. The decoder
    is the strict one of sections 3.3 and 3.5 of RFC 4648: it rejects
    characters outside the alphabet, misplaced padding and non-zero pad bits, so that
    encoding and decoding are exact inverses. */
module Base64 {
  import opened Wrappers

  /** One octet. */
  type Byte = b: int | 0 <= b < 256

  /** A six-bit group: the index of one character of the alphabet. */
  type Sextet = i: int | 0 <= i < 64

  const Pad: char := '='

  /** The character for a six-bit group (Table 1 of RFC 4648). */
  function Char(i: Sextet): (c: char)
    ensures IndexOf(c) == Some(i)
    ensures c != Pad
  {
    if i < 26 then ('A' as int + i) as char
    else if i < 52 then ('a' as int + (i - 26)) as char
    else if i < 62 then ('0' as int + (i - 52)) as char
    else if i == 62 then '+'
    else '/'
  }

  /** The six-bit group a character stands for, or `None` outside the alphabet. */
  function IndexOf(c: char): Option<Sextet>
  {
    if 'A' <= c <= 'Z' then Some(c as int - 'A' as int)
    else if 'a' <= c <= 'z' then Some(c as int - 'a' as int + 26)
    else if '0' <= c <= '9' then Some(c as int - '0' as int + 52)
    else if c == '+' then Some(62)
    else if c == '/' then Some(63)
    else None
  }

  /** Every character of the alphabet is the image of its own index. */
  lemma CharOfIndexOf(c: char)
    requires IndexOf(c).Some?
    ensures Char(IndexOf(c).value) == c
  {
  }

  /** The last, padded group for one remaining octet. */
  function EncodeSingle(a: Byte): string
  {
    [Char(a / 4), Char((a % 4) * 16), Pad, Pad]
  }

  /** The last, padded group for two remaining octets. */
  function EncodePair(a: Byte, b: Byte): string
  {
    [Char(a / 4), Char((a % 4) * 16 + b / 16), Char((b % 16) * 4), Pad]
  }

  /** A full group: three octets as four characters. */
  function EncodeTriple(a: Byte, b: Byte, c: Byte): string
  {
    [Char(a / 4), Char((a % 4) * 16 + b / 16), Char((b % 16) * 4 + c / 64), Char(c % 64)]
  }

  /** The base64 text of an octet sequence. */
  function Encode(bs: seq<Byte>): (s: string)
    ensures |s| == 4 * ((|bs| + 2) / 3)
    decreases |bs|
  {
    if |bs| == 0 then []
    else if |bs| == 1 then EncodeSingle(bs[0])
    else if |bs| == 2 then EncodePair(bs[0], bs[1])
    else EncodeTriple(bs[0], bs[1], bs[2]) + Encode(bs[3..])
  }

  /** Decodes one group of four characters. Padding is accepted only in the
      group that ends the text (`last`), and only with zero pad bits. */
  function DecodeQuad(q: string, last: bool): (r: Option<seq<Byte>>)
    requires |q| == 4
    ensures r.Some? ==> 1 <= |r.value| <= 3
    ensures r.Some? && !last ==> |r.value| == 3
  {
    var w, x, y, z := IndexOf(q[0]), IndexOf(q[1]), IndexOf(q[2]), IndexOf(q[3]);
    if w.None? || x.None? then None
    else if y.Some? && z.Some? then
      Some([w.value * 4 + x.value / 16,
            (x.value % 16) * 16 + y.value / 4,
            (y.value % 4) * 64 + z.value])
    else if last && y.Some? && q[3] == Pad && y.value % 4 == 0 then
      Some([w.value * 4 + x.value / 16, (x.value % 16) * 16 + y.value / 4])
    else if last && q[2] == Pad && q[3] == Pad && x.value % 16 == 0 then
      Some([w.value * 4 + x.value / 16])
    else None
  }

  /** The octets a base64 text stands for, or `None` when it is not the
      canonical encoding of anything. */
  function Decode(s: string): (r: Option<seq<Byte>>)
    decreases |s|
  {
    if |s| == 0 then Some([])
    else if |s| < 4 then None
    else
      match DecodeQuad(s[..4], |s| == 4)
      case None => None
      case Some(head) =>
        match Decode(s[4..])
        case None => None
        case Some(tail) => Some(head + tail)
  }

  lemma TripleRoundTrip(a: Byte, b: Byte, c: Byte, last: bool)
    ensures DecodeQuad(EncodeTriple(a, b, c), last) == Some([a, b, c])
  {
    var q := EncodeTriple(a, b, c);
    var w, x, y, z := a / 4, (a % 4) * 16 + b / 16, (b % 16) * 4 + c / 64, c % 64;
    assert IndexOf(q[0]) == Some(w);
    assert IndexOf(q[1]) == Some(x);
    assert IndexOf(q[2]) == Some(y);
    assert IndexOf(q[3]) == Some(z);
    assert w * 4 + x / 16 == a;
    assert (x % 16) * 16 + y / 4 == b;
    assert (y % 4) * 64 + z == c;
  }

  lemma PairRoundTrip(a: Byte, b: Byte)
    ensures DecodeQuad(EncodePair(a, b), true) == Some([a, b])
  {
    var q := EncodePair(a, b);
    var w, x, y := a / 4, (a % 4) * 16 + b / 16, (b % 16) * 4;
    assert IndexOf(q[0]) == Some(w);
    assert IndexOf(q[1]) == Some(x);
    assert IndexOf(q[2]) == Some(y);
    assert IndexOf(q[3]) == None;
    assert w * 4 + x / 16 == a;
    assert (x % 16) * 16 + y / 4 == b;
  }

  lemma SingleRoundTrip(a: Byte)
    ensures DecodeQuad(EncodeSingle(a), true) == Some([a])
  {
    var q := EncodeSingle(a);
    var w, x := a / 4, (a % 4) * 16;
    assert IndexOf(q[0]) == Some(w);
    assert IndexOf(q[1]) == Some(x);
    assert IndexOf(q[2]) == None;
    assert w * 4 + x / 16 == a;
  }

  /** Decoding undoes encoding. */
  lemma {:induction false} DecodeEncode(bs: seq<Byte>)
    ensures Decode(Encode(bs)) == Some(bs)
    decreases |bs|
  {
    var s := Encode(bs);
    if |bs| == 0 {
    } else if |bs| == 1 {
      SingleRoundTrip(bs[0]);
      assert s[..4] == s;
      assert Decode(s[4..]) == Some([]);
      assert [bs[0]] + [] == bs;
    } else if |bs| == 2 {
      PairRoundTrip(bs[0], bs[1]);
      assert s[..4] == s;
      assert Decode(s[4..]) == Some([]);
      assert [bs[0], bs[1]] + [] == bs;
    } else {
      var rest := bs[3..];
      var q := EncodeTriple(bs[0], bs[1], bs[2]);
      assert s == q + Encode(rest);
      assert s[..4] == q;
      assert s[4..] == Encode(rest);
      TripleRoundTrip(bs[0], bs[1], bs[2], |s| == 4);
      DecodeEncode(rest);
      assert [bs[0], bs[1], bs[2]] + rest == bs;
    }
  }

  /** A group the decoder accepts is exactly the encoding of the octets it yields. */
  lemma QuadInverse(q: string, last: bool)
    requires |q| == 4
    requires DecodeQuad(q, last).Some?
    ensures Encode(DecodeQuad(q, last).value) == q
  {
    var bs := DecodeQuad(q, last).value;
    var w, x := IndexOf(q[0]).value, IndexOf(q[1]).value;
    CharOfIndexOf(q[0]);
    CharOfIndexOf(q[1]);
    if |bs| == 3 {
      var y, z := IndexOf(q[2]).value, IndexOf(q[3]).value;
      CharOfIndexOf(q[2]);
      CharOfIndexOf(q[3]);
      assert bs[0] / 4 == w && bs[0] % 4 == x / 16;
      assert bs[1] / 16 == x % 16 && bs[1] % 16 == y / 4;
      assert bs[2] / 64 == y % 4 && bs[2] % 64 == z;
      assert Encode(bs) == EncodeTriple(bs[0], bs[1], bs[2]) + Encode([]);
    } else if |bs| == 2 {
      var y := IndexOf(q[2]).value;
      CharOfIndexOf(q[2]);
      assert bs[0] / 4 == w && bs[0] % 4 == x / 16;
      assert bs[1] / 16 == x % 16 && bs[1] % 16 == y / 4;
    } else {
      assert bs[0] / 4 == w && bs[0] % 4 == x / 16;
    }
  }

  /** Encoding undoes decoding: the decoder accepts only canonical text. */
  lemma {:induction false} EncodeDecode(s: string)
    requires Decode(s).Some?
    ensures Encode(Decode(s).value) == s
    decreases |s|
  {
    if |s| > 0 {
      var head := DecodeQuad(s[..4], |s| == 4).value;
      var tail := Decode(s[4..]).value;
      QuadInverse(s[..4], |s| == 4);
      EncodeDecode(s[4..]);
      var bs := head + tail;
      if |s| == 4 {
        assert tail == [];
        assert bs == head;
        assert s[..4] == s;
      } else {
        assert |head| == 3;
        assert bs[3..] == tail;
        assert Encode(head) == EncodeTriple(head[0], head[1], head[2]) + Encode([]);
        assert Encode(bs) == EncodeTriple(bs[0], bs[1], bs[2]) + Encode(tail);
        assert s == s[..4] + s[4..];
      }
    }
  }

  /** A text decodes to some octets exactly when it is their encoding. */
  lemma DecodeIffEncode(s: string, bs: seq<Byte>)
    ensures Decode(s) == Some(bs) <==> Encode(bs) == s
  {
    DecodeEncode(bs);
    if Decode(s).Some? {
      EncodeDecode(s);
    }
  }
}
