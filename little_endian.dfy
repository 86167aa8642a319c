/**
 * Little-endian fixed-width integers over bytes, as Go's encoding/binary
 * writes and reads them with binary.LittleEndian.
 */
module LittleEndian {
  import opened Bytes

  /** 256 to the power n: the number of values n bytes can hold. */
  function Pow256(n: nat): (p: nat)
    ensures p > 0
  {
    if n == 0 then 1 else 256 * Pow256(n - 1)
  }

  const TwoTo32: nat := 0x1_0000_0000
  const TwoTo63: nat := 0x8000_0000_0000_0000
  const TwoTo64: nat := 0x1_0000_0000_0000_0000

  /** The unsigned value of a little-endian byte sequence. */
  function Decode(b: seq<byte>): (v: nat)
    ensures v < Pow256(|b|)
  {
    if b == [] then 0 else b[0] as nat + 256 * Decode(b[1..])
  }

  /** The n low-order bytes of v, least significant first. */
  function Encode(v: nat, n: nat): (b: seq<byte>)
    ensures |b| == n
  {
    if n == 0 then [] else [(v % 256) as byte] + Encode(v / 256, n - 1)
  }

  /** An i64 written as its two's-complement bit pattern in 8 bytes. */
  function EncodeI64(t: int): (b: seq<byte>)
    requires -(TwoTo63 as int) <= t < TwoTo63
    ensures |b| == 8
  {
    Encode(t % TwoTo64, 8)
  }

  /** 8 bytes read back as a two's-complement i64. */
  function DecodeI64(b: seq<byte>): (t: int)
    requires |b| == 8
    ensures -(TwoTo63 as int) <= t < TwoTo63
  {
    Pow256Values();
    var u := Decode(b);
    if u < TwoTo63 then u else u - TwoTo64
  }

  lemma Pow256Values()
    ensures Pow256(1) == 0x100 && Pow256(4) == TwoTo32 && Pow256(8) == TwoTo64
  {
    assert Pow256(2) == 0x1_0000;
    assert Pow256(3) == 0x100_0000;
    assert Pow256(4) == 0x1_0000_0000;
    assert Pow256(5) == 0x100_0000_0000;
    assert Pow256(6) == 0x1_0000_0000_0000;
    assert Pow256(7) == 0x100_0000_0000_0000;
  }

  /** Splitting a remainder by 256 * p into its low byte and the rest. */
  lemma ModSplit(v: nat, p: nat)
    requires p > 0
    ensures v % (256 * p) == v % 256 + 256 * ((v / 256) % p)
  {
    var q, r := v / 256, v % 256;
    var a, c := q / p, q % p;
    assert v == 256 * q + r;
    assert q == p * a + c;
    assert v == (256 * p) * a + (256 * c + r) by {
      assert 256 * q == 256 * (p * a) + 256 * c;
    }
    assert 0 <= 256 * c + r < 256 * p;
    DivModUnique(v, 256 * p, a, 256 * c + r);
  }

  /** Euclidean division has one quotient and remainder. */
  lemma DivModUnique(v: int, d: int, q: int, r: int)
    requires d > 0 && 0 <= r < d && v == d * q + r
    ensures v % d == r && v / d == q
  {
    var q', r' := v / d, v % d;
    assert v == d * q' + r';
    if q' > q {
      MulStep(d, q, q' - q);
      assert false;
    } else if q' < q {
      MulStep(d, q', q - q');
      assert false;
    }
  }

  /** d * (a + k) is at least d * a + d when k is positive. */
  lemma MulStep(d: int, a: int, k: int)
    requires d > 0 && k >= 1
    ensures d * (a + k) >= d * a + d
  {
    assert d * (a + k) == d * a + d * k;
    assert d * k == d + d * (k - 1);
    assert d * (k - 1) >= 0;
  }

  /** Decoding what Encode wrote gives v reduced to n bytes. */
  lemma {:induction false} DecodeEncode(v: nat, n: nat)
    ensures Decode(Encode(v, n)) == v % Pow256(n)
  {
    if n == 0 {
      assert Encode(v, n) == [];
    } else {
      var b := Encode(v, n);
      var low, p := v % 256, Pow256(n - 1);
      assert b[0] as nat == low;
      assert b[1..] == Encode(v / 256, n - 1);
      DecodeEncode(v / 256, n - 1);
      var rest := Decode(b[1..]);
      assert rest == (v / 256) % p;
      assert Decode(b) == low + 256 * rest;
      ModSplit(v, p);
      assert Pow256(n) == 256 * p;
    }
  }

  /** A value that fits in n bytes survives encoding. */
  lemma DecodeEncodeFits(v: nat, n: nat)
    requires v < Pow256(n)
    ensures Decode(Encode(v, n)) == v
  {
    DecodeEncode(v, n);
    DivModUnique(v, Pow256(n), 0, v);
  }

  /** Re-encoding decoded bytes gives the same bytes. */
  lemma {:induction false} EncodeDecode(b: seq<byte>)
    ensures Encode(Decode(b), |b|) == b
  {
    if b != [] {
      var x, y := b[0] as nat, Decode(b[1..]);
      var v := Decode(b);
      assert v == x + 256 * y;
      DivModUnique(v, 256, y, x);
      EncodeDecode(b[1..]);
      EncodeStep(v, |b|);
      assert b == [b[0]] + b[1..];
    }
  }

  lemma EncodeStep(v: nat, n: nat)
    requires n > 0
    ensures Encode(v, n) == [(v % 256) as byte] + Encode(v / 256, n - 1)
  {
  }

  /** Two byte strings of one width are equal exactly when their values are. */
  lemma DecodeInjective(a: seq<byte>, b: seq<byte>)
    requires |a| == |b|
    ensures Decode(a) == Decode(b) <==> a == b
  {
    if Decode(a) == Decode(b) {
      EncodeDecode(a);
      EncodeDecode(b);
    }
  }

  /** Every i64 survives the two's-complement round trip. */
  lemma I64RoundTrip(t: int)
    requires -(TwoTo63 as int) <= t < TwoTo63
    ensures DecodeI64(EncodeI64(t)) == t
  {
    Pow256Values();
    DecodeEncodeFits(t % TwoTo64, 8);
    if t < 0 {
      DivModUnique(t, TwoTo64, -1, t + TwoTo64);
    } else {
      DivModUnique(t, TwoTo64, 0, t);
    }
  }
}
