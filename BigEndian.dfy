/**
 * Fixed-width unsigned integers and their big-endian byte layout.
 *
 * A `U256` is the unsigned 256-bit integer of the guest program, kept as a
 * natural number below 2^256. Byte strings are sequences of `byte`, most
 * significant byte first, as produced by `to_be_bytes` and consumed by
 * `U256::from([u8; 32])`.
 */
module BigEndian {
  import opened Arith

  type byte = b: nat | b < 256

  /** 256^n, the number of distinct values an n-byte string can hold. */
  function Pow256(n: nat): (r: nat)
    ensures r > 0
    ensures n > 0 ==> r >= 256
  {
    if n == 0 then 1 else 256 * Pow256(n - 1)
  }

  /** The exclusive upper bound of a 256-bit word: 2^256. */
  const WordLimit: nat := 0x1_0000_0000_0000_0000_0000_0000_0000_0000_0000_0000_0000_0000_0000_0000_0000_0000

  /** A word is 32 bytes: 2^256 == 256^32. */
  lemma WordIs32Bytes()
    ensures WordLimit == Pow256(32)
  {
    Pow256Add(1, 1);
    Pow256Add(2, 2);
    Pow256Add(4, 4);
    Pow256Add(8, 8);
    Pow256Add(16, 16);
    var p1 := Pow256(1);
    assert p1 == 256;
    var p2 := p1 * p1;
    var p4 := p2 * p2;
    var p8 := p4 * p4;
    var p16 := p8 * p8;
    assert p16 * p16 == WordLimit;
  }

  lemma {:induction false} Pow256Add(a: nat, b: nat)
    ensures Pow256(a + b) == Pow256(a) * Pow256(b)
  {
    if a > 0 {
      Pow256Add(a - 1, b);
      MulAssoc(256, Pow256(a - 1), Pow256(b));
    }
  }

  type U256 = v: nat | v < WordLimit

  /**
   * The n-byte big-endian encoding of `v`: the last byte is `v % 256`, the
   * bytes before it encode `v / 256`. For `v >= 256^n` only the low n bytes
   * are kept, as a fixed-width integer would.
   */
  function ToBE(v: nat, n: nat): (r: seq<byte>)
    ensures |r| == n
  {
    if n == 0 then [] else ToBE(v / 256, n - 1) + [v % 256]
  }

  /** The unsigned integer a big-endian byte string denotes. */
  function FromBE(s: seq<byte>): (r: nat)
    ensures r < Pow256(|s|)
  {
    if s == [] then 0 else FromBE(s[..|s| - 1]) * 256 + s[|s| - 1]
  }

  /** Appending a byte shifts the value one byte to the left. */
  lemma FromBESnoc(s: seq<byte>, b: byte)
    ensures FromBE(s + [b]) == FromBE(s) * 256 + b
  {
    assert (s + [b])[..|s|] == s;
  }

  /** Decoding an encoding gives back every value the width can hold. */
  lemma {:induction false} FromToBE(v: nat, n: nat)
    requires v < Pow256(n)
    ensures FromBE(ToBE(v, n)) == v
  {
    if n > 0 {
      assert v / 256 < Pow256(n - 1);
      FromToBE(v / 256, n - 1);
      FromBESnoc(ToBE(v / 256, n - 1), v % 256);
    }
  }

  /** Encoding a decoded string at its own width gives back the string. */
  lemma {:induction false} ToFromBE(s: seq<byte>)
    ensures ToBE(FromBE(s), |s|) == s
  {
    if s != [] {
      var init, last := s[..|s| - 1], s[|s| - 1];
      assert FromBE(s) / 256 == FromBE(init) && FromBE(s) % 256 == last;
      ToFromBE(init);
      assert s == init + [last];
    }
  }

  /** Two values of the same width with equal encodings are equal. */
  lemma ToBEInjective(v: nat, w: nat, n: nat)
    requires v < Pow256(n) && w < Pow256(n)
    requires ToBE(v, n) == ToBE(w, n)
    ensures v == w
  {
    FromToBE(v, n);
    FromToBE(w, n);
  }
}
