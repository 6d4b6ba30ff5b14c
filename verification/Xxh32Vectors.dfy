/** The digests that xxhsum checks itself against: the first 0, 1, 14 and 222 bytes of its test buffer. The buffer is
    written here as the little-endian words it is made of. */
module Xxh32Vectors {
  import opened Bytes
  import opened Striping
  import opened Xxh32

  function ToByte(b: word): byte
    requires b < 0x100
  {
    b as byte
  }

  lemma ByteBack(b: word)
    requires b < 0x100
    ensures ToByte(b) as word == b
  {
  }

  /** The four bytes of a word, the lowest first. */
  function Quad(w: word): (q: seq<byte>)
    ensures |q| == 4
  {
    [ToByte(w & 0xFF), ToByte((w >> 8) & 0xFF), ToByte((w >> 16) & 0xFF), ToByte(w >> 24)]
  }

  lemma Parts(w: word)
    ensures (w & 0xFF) | (((w >> 8) & 0xFF) << 8) | (((w >> 16) & 0xFF) << 16) | ((w >> 24) << 24) == w
  {
  }

  /** Reading the bytes of a word gives the word. */
  lemma QuadRead(w: word, s: seq<byte>, i: nat)
    requires i + 4 <= |s| && s[i] == Quad(w)[0] && s[i + 1] == Quad(w)[1]
    requires s[i + 2] == Quad(w)[2] && s[i + 3] == Quad(w)[3]
    ensures ReadLE32(s, i) == w
  {
    ByteBack(w & 0xFF);
    ByteBack((w >> 8) & 0xFF);
    ByteBack((w >> 16) & 0xFF);
    ByteBack(w >> 24);
    Parts(w);
  }

  // ---------------------------------------------------------------- stripes

  function FourWords(a: word, b: word, c: word, d: word): Block
  {
    Quad(a) + Quad(b) + Quad(c) + Quad(d)
  }

  function Rounds(v: Lanes, a: word, b: word, c: word, d: word): Lanes
  {
    [Round(v[0], a), Round(v[1], b), Round(v[2], c), Round(v[3], d)]
  }

  lemma LaneOf(v: Lanes, s: Block, i: nat)
    requires i < 4
    ensures Stripe(v, s)[i] == Round(v[i], ReadLE32(s, 4 * i))
  {
  }

  lemma FourOf<T>(r: seq<T>, a: T, b: T, c: T, d: T)
    requires |r| == 4 && r[0] == a && r[1] == b && r[2] == c && r[3] == d
    ensures r == [a, b, c, d]
  {
  }

  lemma StripeIs(v: Lanes, s: Block)
    ensures Stripe(v, s) == Rounds(v, ReadLE32(s, 0), ReadLE32(s, 4), ReadLE32(s, 8), ReadLE32(s, 12))
  {
    LaneOf(v, s, 0);
    LaneOf(v, s, 1);
    LaneOf(v, s, 2);
    LaneOf(v, s, 3);
    FourOf(Stripe(v, s), Round(v[0], ReadLE32(s, 0)), Round(v[1], ReadLE32(s, 4)),
           Round(v[2], ReadLE32(s, 8)), Round(v[3], ReadLE32(s, 12)));
  }

  lemma WordOfBlock(before: seq<byte>, w: word, after: seq<byte>)
    ensures ReadLE32(before + Quad(w) + after, |before|) == w
  {
    QuadRead(w, before + Quad(w) + after, |before|);
  }

  lemma WordsOfBlock(a: word, b: word, c: word, d: word)
    ensures var s := FourWords(a, b, c, d);
            ReadLE32(s, 0) == a && ReadLE32(s, 4) == b && ReadLE32(s, 8) == c && ReadLE32(s, 12) == d
  {
    var s := FourWords(a, b, c, d);
    assert s == [] + Quad(a) + (Quad(b) + Quad(c) + Quad(d)) == Quad(a) + Quad(b) + (Quad(c) + Quad(d));
    assert s == (Quad(a) + Quad(b) + Quad(c)) + Quad(d) + [];
    WordOfBlock([], a, Quad(b) + Quad(c) + Quad(d));
    WordOfBlock(Quad(a), b, Quad(c) + Quad(d));
    WordOfBlock(Quad(a) + Quad(b), c, Quad(d));
    WordOfBlock(Quad(a) + Quad(b) + Quad(c), d, []);
  }

  /** The first stripe of an input, and what is left to do. */
  lemma FirstStripe(v: Lanes, a: word, b: word, c: word, d: word, rest: seq<byte>) returns (v': Lanes)
    ensures v' == Rounds(v, a, b, c, d)
    ensures var s := FourWords(a, b, c, d) + rest;
            |s| == 16 + |rest| && Absorb(v, s) == Absorb(v', rest) && Pending(s) == Pending(rest)
  {
    var block := FourWords(a, b, c, d);
    WordsOfBlock(a, b, c, d);
    StripeIs(v, block);
    v' := Rounds(v, a, b, c, d);
    assert (block + rest)[..16] == block && (block + rest)[16..] == rest;
  }

  // ---------------------------------------------------------------- what follows the stripes

  lemma FirstWord(h: word, w: word, rest: seq<byte>)
    ensures Remainder(h, Quad(w) + rest) == Remainder(MixWord(h, w), rest)
  {
    var s := Quad(w) + rest;
    assert s[4..] == rest;
    QuadRead(w, s, 0);
  }

  /** Three words and two bytes, which is what is left of 14 and of 222 bytes. */
  function Tail(a: word, b: word, c: word, d: word, e: word): (t: seq<byte>)
    requires d < 0x100 && e < 0x100
    ensures |t| == 14
  {
    Quad(a) + (Quad(b) + (Quad(c) + ([ToByte(d)] + ([ToByte(e)] + []))))
  }

  lemma FirstByte(h: word, b: word, rest: seq<byte>)
    requires b < 0x100 && |rest| < 3
    ensures Remainder(h, [ToByte(b)] + rest) == Remainder(MixByte(h, b), rest)
  {
    var s := [ToByte(b)] + rest;
    assert s[1..] == rest;
    ByteBack(b);
  }

  lemma RemainderOfTail(h: word, a: word, b: word, c: word, d: word, e: word)
    requires d < 0x100 && e < 0x100
    ensures Remainder(h, Tail(a, b, c, d, e)) == MixByte(MixByte(MixWord(MixWord(MixWord(h, a), b), c), d), e)
  {
    var bytes := [ToByte(d)] + ([ToByte(e)] + []);
    var h1 := MixWord(h, a);
    var h2 := MixWord(h1, b);
    var h3 := MixWord(h2, c);
    FirstWord(h, a, Quad(b) + (Quad(c) + bytes));
    FirstWord(h1, b, Quad(c) + bytes);
    FirstWord(h2, c, bytes);
    FirstByte(h3, d, [ToByte(e)] + []);
    FirstByte(MixByte(h3, d), e, []);
  }

  /** The digest from the accumulator on. */
  lemma FinishTail(h: word, n: u32, h0: word, a: word, b: word, c: word, d: word, e: word, r: word)
    requires d < 0x100 && e < 0x100 && h + (n as word) == h0
    requires Avalanche(MixByte(MixByte(MixWord(MixWord(MixWord(h0, a), b), c), d), e)) == r
    ensures Finish(h, n, Tail(a, b, c, d, e)) == r
  {
    RemainderOfTail(h0, a, b, c, d, e);
  }

  // ---------------------------------------------------------------- the vectors

  lemma NoBytes()
    ensures Hash([], 0) == 0x02CC5D05 && Hash([], PRIME32_1) == 0x36B78AE7
  {
  }

  lemma OneByte()
    ensures Hash([0], 0) == 0xCF65B03E
  {
    assert [0 as byte][0] as word == 0 && [0 as byte][1..] == [];
  }

  lemma OneByteSeeded()
    ensures Hash([0], PRIME32_1) == 0xB4545AA4
  {
    assert [0 as byte][0] as word == 0 && [0 as byte][1..] == [];
  }

  const BYTES14: seq<byte> := Tail(0x9B925200, 0x24A332B7, 0x95AF002D, 0x0E, 0xEC)

  lemma FourteenBytes()
    ensures Hash(BYTES14, 0) == 0x1208E7E2
  {
    assert Accumulate(BYTES14, 0) == 0x165667B1 && Pending(BYTES14) == BYTES14;
    FinishTail(0x165667B1, 14, 0x165667BF, 0x9B925200, 0x24A332B7, 0x95AF002D, 0x0E, 0xEC, 0x1208E7E2);
  }

  lemma FourteenBytesSeeded()
    ensures Hash(BYTES14, PRIME32_1) == 0x6AF1D1FE
  {
    assert Accumulate(BYTES14, PRIME32_1) == 0xB48DE162 && Pending(BYTES14) == BYTES14;
    FinishTail(0xB48DE162, 14, 0xB48DE170, 0x9B925200, 0x24A332B7, 0x95AF002D, 0x0E, 0xEC, 0x6AF1D1FE);
  }

  /** The 222 bytes, from the last stripe but k on. */
  const STRIPES0: seq<byte> := Tail(0xD0129FE0, 0x485414D5, 0x5140445D, 0xE3, 0x38)
  const STRIPES1: seq<byte> := FourWords(0x594500ED, 0xB64485C1, 0x41F968C3, 0x87F9EAA9) + STRIPES0
  const STRIPES2: seq<byte> := FourWords(0x3763FDBF, 0x9886E341, 0xBA4CEB1A, 0x87660356) + STRIPES1
  const STRIPES3: seq<byte> := FourWords(0xC2F4104B, 0x4AF8ECEF, 0xC37438B5, 0x0E62A6A4) + STRIPES2
  const STRIPES4: seq<byte> := FourWords(0xCD4209F1, 0xA221B3F9, 0xF4C8F2EB, 0xD1482FE4) + STRIPES3
  const STRIPES5: seq<byte> := FourWords(0xEB4934F3, 0x923BD10F, 0xDB63A9A1, 0xCF3DEDAA) + STRIPES4
  const STRIPES6: seq<byte> := FourWords(0xB3361A5E, 0x51CA0F6B, 0xC4A28BEF, 0x9600ED62) + STRIPES5
  const STRIPES7: seq<byte> := FourWords(0x0973329D, 0xD92F71EA, 0xF0559D7A, 0xE9D08ACA) + STRIPES6
  const STRIPES8: seq<byte> := FourWords(0x86F1B08D, 0x56596108, 0x784E8E6C, 0xABBD6313) + STRIPES7
  const STRIPES9: seq<byte> := FourWords(0x0C5E48DD, 0x65D0CB0C, 0x8FB2AD3F, 0xE86CB011) + STRIPES8
  const STRIPES10: seq<byte> := FourWords(0xB38470B0, 0x769F7C67, 0xED720048, 0xE817987B) + STRIPES9
  const STRIPES11: seq<byte> := FourWords(0xFCFFC059, 0x33B9858F, 0xF774AB1D, 0x279305B6) + STRIPES10
  const STRIPES12: seq<byte> := FourWords(0x93EFDFE3, 0x2ACDD6AA, 0x3F5C8B53, 0xD56F5A54) + STRIPES11
  const STRIPES13: seq<byte> := FourWords(0x9B925200, 0x24A332B7, 0x95AF002D, 0x93B8EC0E) + STRIPES12

  lemma Lanes222()
    ensures Absorb(Init(0), STRIPES13) == [0x799BCE9E, 0x134BA440, 0xF14CC4F7, 0x7EE3875D]
    ensures Pending(STRIPES13) == STRIPES0 && |STRIPES13| == 222
  {
    var v := Init(0);
    v := FirstStripe(v, 0x9B925200, 0x24A332B7, 0x95AF002D, 0x93B8EC0E, STRIPES12);
    v := FirstStripe(v, 0x93EFDFE3, 0x2ACDD6AA, 0x3F5C8B53, 0xD56F5A54, STRIPES11);
    v := FirstStripe(v, 0xFCFFC059, 0x33B9858F, 0xF774AB1D, 0x279305B6, STRIPES10);
    v := FirstStripe(v, 0xB38470B0, 0x769F7C67, 0xED720048, 0xE817987B, STRIPES9);
    v := FirstStripe(v, 0x0C5E48DD, 0x65D0CB0C, 0x8FB2AD3F, 0xE86CB011, STRIPES8);
    v := FirstStripe(v, 0x86F1B08D, 0x56596108, 0x784E8E6C, 0xABBD6313, STRIPES7);
    v := FirstStripe(v, 0x0973329D, 0xD92F71EA, 0xF0559D7A, 0xE9D08ACA, STRIPES6);
    v := FirstStripe(v, 0xB3361A5E, 0x51CA0F6B, 0xC4A28BEF, 0x9600ED62, STRIPES5);
    v := FirstStripe(v, 0xEB4934F3, 0x923BD10F, 0xDB63A9A1, 0xCF3DEDAA, STRIPES4);
    v := FirstStripe(v, 0xCD4209F1, 0xA221B3F9, 0xF4C8F2EB, 0xD1482FE4, STRIPES3);
    v := FirstStripe(v, 0xC2F4104B, 0x4AF8ECEF, 0xC37438B5, 0x0E62A6A4, STRIPES2);
    v := FirstStripe(v, 0x3763FDBF, 0x9886E341, 0xBA4CEB1A, 0x87660356, STRIPES1);
    v := FirstStripe(v, 0x594500ED, 0xB64485C1, 0x41F968C3, 0x87F9EAA9, STRIPES0);
  }

  lemma Bytes222()
    ensures Hash(STRIPES13, 0) == 0x5BD11DBD
  {
    Lanes222();
    assert Accumulate(STRIPES13, 0) == 0x82CF37E7;
    FinishTail(0x82CF37E7, 222, 0x82CF38C5, 0xD0129FE0, 0x485414D5, 0x5140445D, 0xE3, 0x38, 0x5BD11DBD);
  }

  lemma Lanes222Seeded()
    ensures Absorb(Init(PRIME32_1), STRIPES13) == [0xBFB63472, 0x64F144D2, 0xB4802FBC, 0xBF57BD62]
    ensures Pending(STRIPES13) == STRIPES0 && |STRIPES13| == 222
  {
    var v := Init(PRIME32_1);
    v := FirstStripe(v, 0x9B925200, 0x24A332B7, 0x95AF002D, 0x93B8EC0E, STRIPES12);
    v := FirstStripe(v, 0x93EFDFE3, 0x2ACDD6AA, 0x3F5C8B53, 0xD56F5A54, STRIPES11);
    v := FirstStripe(v, 0xFCFFC059, 0x33B9858F, 0xF774AB1D, 0x279305B6, STRIPES10);
    v := FirstStripe(v, 0xB38470B0, 0x769F7C67, 0xED720048, 0xE817987B, STRIPES9);
    v := FirstStripe(v, 0x0C5E48DD, 0x65D0CB0C, 0x8FB2AD3F, 0xE86CB011, STRIPES8);
    v := FirstStripe(v, 0x86F1B08D, 0x56596108, 0x784E8E6C, 0xABBD6313, STRIPES7);
    v := FirstStripe(v, 0x0973329D, 0xD92F71EA, 0xF0559D7A, 0xE9D08ACA, STRIPES6);
    v := FirstStripe(v, 0xB3361A5E, 0x51CA0F6B, 0xC4A28BEF, 0x9600ED62, STRIPES5);
    v := FirstStripe(v, 0xEB4934F3, 0x923BD10F, 0xDB63A9A1, 0xCF3DEDAA, STRIPES4);
    v := FirstStripe(v, 0xCD4209F1, 0xA221B3F9, 0xF4C8F2EB, 0xD1482FE4, STRIPES3);
    v := FirstStripe(v, 0xC2F4104B, 0x4AF8ECEF, 0xC37438B5, 0x0E62A6A4, STRIPES2);
    v := FirstStripe(v, 0x3763FDBF, 0x9886E341, 0xBA4CEB1A, 0x87660356, STRIPES1);
    v := FirstStripe(v, 0x594500ED, 0xB64485C1, 0x41F968C3, 0x87F9EAA9, STRIPES0);
  }

  lemma Bytes222Seeded()
    ensures Hash(STRIPES13, PRIME32_1) == 0x58803C5F
  {
    Lanes222Seeded();
    assert Accumulate(STRIPES13, PRIME32_1) == 0xF0959ABD;
    FinishTail(0xF0959ABD, 222, 0xF0959B9B, 0xD0129FE0, 0x485414D5, 0x5140445D, 0xE3, 0x38, 0x58803C5F);
  }
}
