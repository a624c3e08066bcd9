/** Fixed-width unsigned integers as they are laid out in both file formats:
    the source copies a `uint64_t` to and from the byte stream with `memcpy`
    and `reinterpret_cast`, which on the little-endian hosts it targets is
    the 8-byte little-endian encoding modelled here. */
module LittleEndian {
  import opened Wrappers

  /** One byte of a file or buffer (`char` in the source, read as unsigned). */
  newtype byte = x: int | 0 <= x < 256

  const TWO64: int := 0x1_0000_0000_0000_0000

  /** `uint64_t` (and `size_t` on a 64-bit host). */
  type u64 = x: int | 0 <= x < TWO64

  /** A byte string whose length fits a `size_t`, as every `std::vector` and
      `std::string` of the source does. */
  type Bytes64 = s: seq<byte> | |s| < TWO64 witness []

  function Pow256(k: nat): (r: nat)
    ensures r > 0
  {
    if k == 0 then 1 else 256 * Pow256(k - 1)
  }

  /** The k low-order bytes of x, least significant first. */
  function LEBytes(x: nat, k: nat): (r: seq<byte>)
    ensures |r| == k
  {
    if k == 0 then [] else [(x % 256) as byte] + LEBytes(x / 256, k - 1)
  }

  /** The number whose little-endian encoding is s. */
  function FromLE(s: seq<byte>): nat
  {
    if |s| == 0 then 0 else s[0] as nat + 256 * FromLE(s[1..])
  }

  lemma {:induction false} FromLEBytes(x: nat, k: nat)
    requires x < Pow256(k)
    ensures FromLE(LEBytes(x, k)) == x
  {
    if k > 0 {
      var s, q, low := LEBytes(x, k), x / 256, x % 256;
      assert s == [low as byte] + LEBytes(q, k - 1);
      assert s[1..] == LEBytes(q, k - 1);
      QuotientBound(x, Pow256(k - 1));
      FromLEBytes(q, k - 1);
      assert s[0] as nat == low;
      assert FromLE(s) == s[0] as nat + 256 * FromLE(s[1..]);
    }
  }

  lemma LowAndHigh(lo: nat, hi: nat)
    requires lo < 256
    ensures (lo + 256 * hi) % 256 == lo && (lo + 256 * hi) / 256 == hi
  {
  }

  lemma QuotientBound(x: nat, p: nat)
    requires x < 256 * p
    ensures x / 256 < p
  {
  }

  lemma {:induction false} FromLEBound(s: seq<byte>)
    ensures FromLE(s) < Pow256(|s|)
  {
    if |s| > 0 {
      FromLEBound(s[1..]);
      var lo, hi, p := s[0] as nat, FromLE(s[1..]), Pow256(|s| - 1);
      assert FromLE(s) == lo + 256 * hi;
      assert 256 * hi <= 256 * p - 256 by { assert hi <= p - 1; }
    }
  }

  lemma {:induction false} BytesFromLE(s: seq<byte>)
    ensures LEBytes(FromLE(s), |s|) == s
  {
    if |s| > 0 {
      BytesFromLE(s[1..]);
      var lo, hi := s[0] as nat, FromLE(s[1..]);
      var v := FromLE(s);
      assert v == lo + 256 * hi;
      LowAndHigh(lo, hi);
      assert LEBytes(v, |s|) == [(lo as byte)] + LEBytes(hi, |s| - 1);
      assert s == [s[0]] + s[1..];
    }
  }

  lemma Pow256Eight()
    ensures Pow256(8) == TWO64
  {
  }

  lemma DivUnique(x: nat, d: nat, q: nat, m: nat)
    requires 0 < d && m < d && x == d * q + m
    ensures x / d == q
  {
    var q', m' := x / d, x % d;
    assert x == d * q' + m';
    if q' < q {
      assert d * q >= d * (q' + 1) by { MulMono(d, q' + 1, q); }
      assert false;
    } else if q < q' {
      assert d * q' >= d * (q + 1) by { MulMono(d, q + 1, q'); }
      assert false;
    }
  }

  lemma MulMono(d: nat, a: nat, b: nat)
    requires a <= b
    ensures d * a <= d * b
  {
  }

  /** Dividing by 256 and then by p is dividing by 256 p. */
  lemma DivDiv(x: nat, p: nat)
    requires p > 0
    ensures x / 256 / p == x / (256 * p)
  {
    var q := x / 256;
    var a, b := q / p, q % p;
    assert x == 256 * (p * a + b) + x % 256;
    assert x == (256 * p) * a + (256 * b + x % 256);
    assert 256 * b + x % 256 < 256 * p;
    DivUnique(x, 256 * p, a, 256 * b + x % 256);
  }

  /** Byte i of the k-byte encoding of x is the i-th base-256 digit of x. */
  lemma {:induction false} LEBytesDigits(x: nat, k: nat)
    ensures forall i :: 0 <= i < k ==> LEBytes(x, k)[i] as int == x / Pow256(i) % 256
  {
    if k > 0 {
      LEBytesDigits(x / 256, k - 1);
      forall i | 0 <= i < k
        ensures LEBytes(x, k)[i] as int == x / Pow256(i) % 256
      {
        if i > 0 {
          assert LEBytes(x, k)[i] == LEBytes(x / 256, k - 1)[i - 1];
          DivDiv(x, Pow256(i - 1));
        }
      }
    }
  }

  /** The 8 bytes the source writes for a `uint64_t` (main.cpp lines 84, 87, 91-92, 171):
      least significant byte first, byte i holding the i-th base-256 digit. */
  function LE8(x: u64): (r: seq<byte>)
    ensures |r| == 8
    ensures forall i :: 0 <= i < 8 ==> r[i] as int == x / Pow256(i) % 256
  {
    LEBytesDigits(x, 8);
    LEBytes(x, 8)
  }

  /** The `uint64_t` the source reads back from 8 bytes (main.cpp lines 60, 123). */
  function DecodeLE8(s: seq<byte>): (r: u64)
    requires |s| == 8
    ensures LE8(r) == s
  {
    FromLEBound(s);
    BytesFromLE(s);
    Pow256Eight();
    FromLE(s)
  }

  /** Decoding inverts encoding, so a written integer is read back unchanged. */
  lemma DecodeEncode(x: u64)
    ensures DecodeLE8(LE8(x)) == x
  {
    Pow256Eight();
    FromLEBytes(x, 8);
  }

  /** `read_u64` (main.cpp lines 122-125) on a cursor at `pos`: it succeeds
      exactly when 8 bytes remain, and returns the value those bytes encode. */
  function ReadU64(b: seq<byte>, pos: nat): (r: Option<u64>)
    requires pos <= |b|
    ensures r.Some? <==> |b| - pos >= 8
    ensures r.Some? ==> LE8(r.value) == b[pos..pos + 8]
  {
    if |b| - pos < 8 then None else Some(DecodeLE8(b[pos..pos + 8]))
  }

}
