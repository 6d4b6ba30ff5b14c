/** Bytes, 32-bit words in network order, and the concatenation of byte pieces. */
module Bytes {

  newtype byte = n: int | 0 <= n < 0x100

  datatype Option<+T> = None | Some(value: T)

  const WORD := 0x1_0000_0000

  /** An unsigned 32-bit quantity that is a length or a header value. */
  type u32 = n: int | 0 <= n < WORD

  /** Network (big-endian) encoding of a 32-bit value. */
  function EncodeBE32(n: u32): (bytes: seq<byte>)
    ensures |bytes| == 4
  {
    [(n / 0x100_0000) as byte, (n / 0x1_0000 % 0x100) as byte, (n / 0x100 % 0x100) as byte, (n % 0x100) as byte]
  }

  function DecodeBE32(bytes: seq<byte>): (n: u32)
    requires |bytes| == 4
  {
    ((bytes[0] as int * 0x100 + bytes[1] as int) * 0x100 + bytes[2] as int) * 0x100 + bytes[3] as int
  }

  lemma Base256Digits(n: u32)
    ensures ((n / 0x100_0000 * 0x100 + n / 0x1_0000 % 0x100) * 0x100 + n / 0x100 % 0x100) * 0x100 + n % 0x100 == n
  {
    assert n / 0x1_0000 == (n / 0x100) / 0x100;
    assert n / 0x100_0000 == (n / 0x1_0000) / 0x100;
  }

  lemma DecodeEncodeBE32(n: u32)
    ensures DecodeBE32(EncodeBE32(n)) == n
  {
    Base256Digits(n);
  }

  lemma Digits(a: int, b: int, c: int, d: int)
    requires 0 <= a < 0x100 && 0 <= b < 0x100 && 0 <= c < 0x100 && 0 <= d < 0x100
    ensures var n := ((a * 0x100 + b) * 0x100 + c) * 0x100 + d;
            n / 0x100_0000 == a && n / 0x1_0000 % 0x100 == b && n / 0x100 % 0x100 == c && n % 0x100 == d
  {
    var n := ((a * 0x100 + b) * 0x100 + c) * 0x100 + d;
    assert n / 0x100 == (a * 0x100 + b) * 0x100 + c && n % 0x100 == d;
    assert n / 0x1_0000 == a * 0x100 + b;
  }

  lemma EncodeDecodeBE32(bytes: seq<byte>)
    requires |bytes| == 4
    ensures EncodeBE32(DecodeBE32(bytes)) == bytes
  {
    Digits(bytes[0] as int, bytes[1] as int, bytes[2] as int, bytes[3] as int);
  }

  /** The order of byte strings, the first difference deciding. */
  predicate Before(a: seq<byte>, b: seq<byte>)
  {
    if a == [] || b == [] then a == [] && b != []
    else a[0] < b[0] || (a[0] == b[0] && Before(a[1..], b[1..]))
  }

  lemma {:induction false} DecodeOrder(a: seq<byte>, b: seq<byte>)
    requires |a| == |b| == 4
    ensures Before(a, b) <==> DecodeBE32(a) < DecodeBE32(b)
  {
    assert a[1..][0] == a[1] && a[1..][1..][0] == a[2] && a[1..][1..][1..][0] == a[3];
    assert b[1..][0] == b[1] && b[1..][1..][0] == b[2] && b[1..][1..][1..][0] == b[3];
    assert Before(a[1..][1..][1..], b[1..][1..][1..]) <==> a[3] < b[3];
    assert Before(a[1..][1..], b[1..][1..]) <==> a[2] < b[2] || (a[2] == b[2] && a[3] < b[3]);
  }

  /** The most significant byte is first: encodings are ordered as the numbers are. */
  lemma EncodeOrder(m: u32, n: u32)
    ensures Before(EncodeBE32(m), EncodeBE32(n)) <==> m < n
  {
    DecodeEncodeBE32(m);
    DecodeEncodeBE32(n);
    DecodeOrder(EncodeBE32(m), EncodeBE32(n));
  }

  /** The concatenation of all pieces, in order. */
  function Flatten<T>(pieces: seq<seq<T>>): (whole: seq<T>)
  {
    if pieces == [] then [] else pieces[0] + Flatten(pieces[1..])
  }

  lemma {:induction false} FlattenConcat<T>(a: seq<seq<T>>, b: seq<seq<T>>)
    ensures Flatten(a + b) == Flatten(a) + Flatten(b)
  {
    if a == [] {
      assert a + b == b;
    } else {
      assert (a + b)[1..] == a[1..] + b;
      FlattenConcat(a[1..], b);
    }
  }

  lemma FlattenSingle<T>(piece: seq<T>)
    ensures Flatten([piece]) == piece
  {
    assert Flatten([piece]) == piece + Flatten<T>([]);
  }

  lemma FlattenSnoc<T>(a: seq<seq<T>>, piece: seq<T>)
    ensures Flatten(a + [piece]) == Flatten(a) + piece
  {
    FlattenConcat(a, [piece]);
    FlattenSingle(piece);
  }
}
