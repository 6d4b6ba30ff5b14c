/** The portable 64 x 64 -> 128 bit multiplication of xxHash, over explicit 64-bit words. */
module Mult128 {

  const B32 := 0x1_0000_0000
  const B64 := 0x1_0000_0000_0000_0000

  type u64 = n: int | 0 <= n < B64

  function Lo32(x: u64): (r: int)
    ensures 0 <= r < B32
  {
    x % B32
  }

  function Hi32(x: u64): (r: int)
    ensures 0 <= r < B32
  {
    x / B32
  }

  /** A 64-bit addition or product that would wrap is taken modulo 2^64. */
  function Wrap64(n: nat): u64
  {
    n % B64
  }

  /** The low 32 bits of each operand, multiplied in 64 bits. */
  function Mult32to64(x: u64, y: u64): u64
  {
    Wrap64(Lo32(x) * Lo32(y))
  }

  datatype Product = Product(low64: u64, high64: u64)

  /** The three partial sums, kept apart so that their overflow can be talked about. */
  datatype Partial = Partial(loLo: u64, hiLo: u64, loHi: u64, hiHi: u64)

  function CrossProducts(lhs: u64, rhs: u64): Partial
  {
    Partial(Mult32to64(Lo32(lhs), Lo32(rhs)), Mult32to64(Hi32(lhs), Lo32(rhs)),
            Mult32to64(Lo32(lhs), Hi32(rhs)), Mult32to64(Hi32(lhs), Hi32(rhs)))
  }

  /** The sums as mathematical integers. */
  function CrossSum(p: Partial): nat
  {
    Hi32(p.loLo) + Lo32(p.hiLo) + p.loHi
  }

  function UpperSum(p: Partial): nat
  {
    Hi32(p.hiLo) + CrossSum(p) / B32 + p.hiHi
  }

  /** x << 32 in 64 bits: the high half of x is shifted out. */
  function ShiftLeft32(x: u64): (r: u64)
    ensures r <= (B32 - 1) * B32
  {
    Lo32(x) * B32
  }

  /** The or of cross << 32 and lo_lo & 0xFFFFFFFF is a sum, since the halves do not overlap. */
  function Combine(p: Partial): (r: Product)
  {
    var cross := Wrap64(Hi32(p.loLo) + Lo32(p.hiLo) + p.loHi);
    var upper := Wrap64(Hi32(p.hiLo) + Hi32(cross) + p.hiHi);
    var lower := ShiftLeft32(cross) + Lo32(p.loLo);
    Product(lower, upper)
  }

  function Mult64to128(lhs: u64, rhs: u64): (r: Product)
  {
    Combine(CrossProducts(lhs, rhs))
  }

  lemma MulLe(x: int, y: int, m: int)
    requires 0 <= x <= m && 0 <= y <= m
    ensures 0 <= x * y <= m * m
  {
    assert x * y <= m * y;
    assert m * y <= m * m;
  }

  lemma MulBound(x: int, y: int)
    requires 0 <= x < B32 && 0 <= y < B32
    ensures 0 <= x * y <= (B32 - 1) * (B32 - 1)
  {
    MulLe(x, y, B32 - 1);
  }

  lemma Mult32to64Exact(x: int, y: int)
    requires 0 <= x < B32 && 0 <= y < B32
    ensures Mult32to64(x, y) == x * y <= (B32 - 1) * (B32 - 1)
  {
    MulBound(x, y);
  }

  /** No partial product wraps. */
  lemma CrossProductsExact(lhs: u64, rhs: u64)
    ensures var p := CrossProducts(lhs, rhs);
            && p.loLo == Lo32(lhs) * Lo32(rhs) && p.hiLo == Hi32(lhs) * Lo32(rhs)
            && p.loHi == Lo32(lhs) * Hi32(rhs) && p.hiHi == Hi32(lhs) * Hi32(rhs)
            && p.loHi <= (B32 - 1) * (B32 - 1) && p.hiHi <= (B32 - 1) * (B32 - 1)
            && p.hiLo <= (B32 - 1) * (B32 - 1)
  {
    Mult32to64Exact(Lo32(lhs), Lo32(rhs));
    Mult32to64Exact(Hi32(lhs), Lo32(rhs));
    Mult32to64Exact(Lo32(lhs), Hi32(rhs));
    Mult32to64Exact(Hi32(lhs), Hi32(rhs));
  }

  /** "These will never overflow": neither `cross` nor `upper` reaches 2^64. */
  lemma NeverOverflows(lhs: u64, rhs: u64)
    ensures CrossSum(CrossProducts(lhs, rhs)) < B64
    ensures UpperSum(CrossProducts(lhs, rhs)) < B64
  {
    CrossProductsExact(lhs, rhs);
  }

  /** Grade-school expansion of the product in base B. */
  lemma Expand(a: int, b: int, c: int, d: int, B: int)
    ensures (a * B + b) * (c * B + d) == (a * c) * (B * B) + (a * d + b * c) * B + b * d
  {
    calc {
      (a * B + b) * (c * B + d);
      (a * B) * (c * B) + (a * B) * d + b * (c * B) + b * d;
      { assert (a * B) * (c * B) == (a * c) * (B * B); }
      { assert (a * B) * d == (a * d) * B && b * (c * B) == (b * c) * B; }
      (a * c) * (B * B) + (a * d) * B + (b * c) * B + b * d;
      (a * c) * (B * B) + (a * d + b * c) * B + b * d;
    }
  }

  lemma ProductInBase32(lhs: u64, rhs: u64, p: Partial)
    requires p.loLo == Lo32(lhs) * Lo32(rhs) && p.hiLo == Hi32(lhs) * Lo32(rhs)
    requires p.loHi == Lo32(lhs) * Hi32(rhs) && p.hiHi == Hi32(lhs) * Hi32(rhs)
    ensures lhs * rhs == p.hiHi * B64 + (p.hiLo + p.loHi) * B32 + p.loLo
  {
    Expand(Hi32(lhs), Lo32(lhs), Hi32(rhs), Lo32(rhs), B32);
  }

  /** Carrying the partial products into two words loses nothing. */
  lemma Carry(p: Partial)
    ensures UpperSum(p) * B64 + CrossSum(p) % B32 * B32 + Lo32(p.loLo)
         == p.hiHi * B64 + (p.hiLo + p.loHi) * B32 + p.loLo
  {
  }

  /** When nothing wraps, the words are the mathematical sums. */
  lemma WordsAreSums(p: Partial)
    requires CrossSum(p) < B64 && UpperSum(p) < B64
    ensures Combine(p).high64 == UpperSum(p)
    ensures Combine(p).low64 == CrossSum(p) % B32 * B32 + Lo32(p.loLo)
  {
  }

  lemma ProductOfPartial(lhs: u64, rhs: u64)
    ensures var p := CrossProducts(lhs, rhs); lhs * rhs == p.hiHi * B64 + (p.hiLo + p.loHi) * B32 + p.loLo
  {
    CrossProductsExact(lhs, rhs);
    ProductInBase32(lhs, rhs, CrossProducts(lhs, rhs));
  }

  /** The two words are the exact product. */
  lemma Mult64to128Exact(lhs: u64, rhs: u64)
    ensures var r := Mult64to128(lhs, rhs); r.high64 * B64 + r.low64 == lhs * rhs
  {
    NeverOverflows(lhs, rhs);
    WordsAreSums(CrossProducts(lhs, rhs));
    Carry(CrossProducts(lhs, rhs));
    ProductOfPartial(lhs, rhs);
  }

  /** Shifting by 32 clears the low half, so the source's bitwise or is the sum used above. */
  lemma ShiftOrIsSum(x: bv64, y: bv64)
    ensures ((x << 32) | (y & 0xFFFF_FFFF)) == (x << 32) + (y & 0xFFFF_FFFF)
  {
  }
}
