/**
  QUIC variable-length integers (section 16 of RFC 9000): the two most
  significant bits of the first byte select a length of 1, 2, 4 or 8 bytes,
  and the remaining bits hold the value big-endian.  The encoder always picks
  the shortest length that fits; the decoder accepts every length.
  These are the `utils.WriteVarInt`, `utils.ReadVarInt` and `utils.VarIntLen`
  helpers that the frame codec calls.
*/
module VarInt {
  import opened Common
  import opened ByteOrder

  const MaxVarInt1: nat := 63
  const MaxVarInt2: nat := 16383
  const MaxVarInt4: nat := 1073741823
  /** 2^62 - 1, the largest value any length can carry. */
  const MaxVarInt8: nat := 4611686018427387903

  /** The four legal encoded lengths. */
  predicate IsLength(n: nat) {
    n == 1 || n == 2 || n == 4 || n == 8
  }

  /** The two-bit length selector written into the top of the first byte. */
  function Selector(n: nat): (t: nat)
    requires IsLength(n)
    ensures t < 4
  {
    if n == 1 then 0 else if n == 2 then 1 else if n == 4 then 2 else 3
  }

  /** Length announced by a first byte: `1 << ((b & 0xc0) >> 6)`. */
  function LengthOf(first: byte): (n: nat)
    ensures IsLength(n)
  {
    if first < 64 then 1 else if first < 128 then 2 else if first < 192 then 4 else 8
  }

  /** Number of values an `n`-byte encoding can carry: 2^(8n - 2). */
  function Capacity(n: nat): (c: nat)
    requires IsLength(n)
  {
    64 * Pow256(n - 1)
  }

  lemma CapacityValues()
    ensures Capacity(1) == MaxVarInt1 + 1
    ensures Capacity(2) == MaxVarInt2 + 1
    ensures Capacity(4) == MaxVarInt4 + 1
    ensures Capacity(8) == MaxVarInt8 + 1
  {
    assert Pow256(1) == 256;
    assert Pow256(3) == 256 * 256 * 256;
    assert Pow256(7) == 256 * 256 * 256 * 256 * 256 * 256 * 256 by {
      assert Pow256(7) == 256 * Pow256(6);
      assert Pow256(6) == 256 * Pow256(5);
      assert Pow256(5) == 256 * Pow256(4);
      assert Pow256(4) == 256 * Pow256(3);
    }
  }

  /** `utils.VarIntLen`: the length the encoder picks, the shortest one whose capacity holds `i`. */
  function VarIntLen(i: nat): (n: nat)
    requires i <= MaxVarInt8
    ensures IsLength(n) && i < Capacity(n)
    ensures forall m :: IsLength(m) && i < Capacity(m) ==> n <= m
  {
    CapacityValues();
    if i <= MaxVarInt1 then 1
    else if i <= MaxVarInt2 then 2
    else if i <= MaxVarInt4 then 4
    else 8
  }

  /** `i` written in `n` bytes, with the length selector in the top two bits of the first. */
  function EncodeWithLength(i: nat, n: nat): (r: seq<byte>)
    requires IsLength(n) && i < Capacity(n)
    ensures |r| == n && LengthOf(r[0]) == n
  {
    var p := Pow256(n - 1);
    DivBelow(i, 64, p);
    [Selector(n) * 64 + i / p] + EncodeBE(i % p, n - 1)
  }

  /** `utils.WriteVarInt`: the minimal-length encoding. */
  function WriteVarInt(i: nat): (r: seq<byte>)
    requires i <= MaxVarInt8
    ensures |r| == VarIntLen(i)
  {
    EncodeWithLength(i, VarIntLen(i))
  }

  /** `utils.ReadVarInt`: the value and the unread remainder; EOF when the input ends early. */
  function ReadVarInt(r: seq<byte>): (res: Result<(nat, seq<byte>)>)
    ensures res.Ok? <==> |r| > 0 && LengthOf(r[0]) <= |r|
    ensures res.Ok? ==> res.value.0 <= MaxVarInt8 && res.value.1 == r[LengthOf(r[0])..]
  {
    if |r| == 0 then Err(EOF)
    else
      var n := LengthOf(r[0]);
      if |r| < n then Err(EOF)
      else
        var v := (r[0] % 64) * Pow256(n - 1) + DecodeBE(r[1..n]);
        MulAddBelow(r[0] % 64, DecodeBE(r[1..n]), 64, Pow256(n - 1));
        CapacityValues();
        Ok((v, r[n..]))
  }

  /** Decoding any legal-length encoding, minimal or not, yields the value and leaves what follows. */
  lemma ReadEncodeWithLength(i: nat, n: nat, rest: seq<byte>)
    requires IsLength(n) && i < Capacity(n)
    ensures ReadVarInt(EncodeWithLength(i, n) + rest) == Ok((i, rest))
  {
    var p := Pow256(n - 1);
    var e := EncodeWithLength(i, n);
    var r := e + rest;
    DivBelow(i, 64, p);
    assert r[0] == Selector(n) * 64 + i / p;
    assert r[0] % 64 == i / p;
    assert r[1..n] == EncodeBE(i % p, n - 1);
    DecodeEncodeBE(i % p, n - 1);
    assert r[n..] == rest;
    assert (r[0] % 64) * p + DecodeBE(r[1..n]) == i by {
      DivMod(i, p);
    }
  }

  lemma DivMod(x: nat, p: nat)
    requires p > 0
    ensures (x / p) * p + x % p == x
  {
  }

  /** Round trip of the encoder the frame writer uses. */
  lemma ReadWriteVarInt(i: nat, rest: seq<byte>)
    requires i <= MaxVarInt8
    ensures ReadVarInt(WriteVarInt(i) + rest) == Ok((i, rest))
  {
    ReadEncodeWithLength(i, VarIntLen(i), rest);
  }

  /**
    Decoding is exact: a successful read consumed precisely the encoding of
    the value in the length its first byte announced.
  */
  lemma ReadVarIntExact(r: seq<byte>)
    requires ReadVarInt(r).Ok?
    ensures var (i, rest) := ReadVarInt(r).value;
      && i < Capacity(LengthOf(r[0]))
      && r == EncodeWithLength(i, LengthOf(r[0])) + rest
  {
    var n := LengthOf(r[0]);
    var p := Pow256(n - 1);
    var (i, rest) := ReadVarInt(r).value;
    var hi, lo := r[0] % 64, DecodeBE(r[1..n]);
    assert i == hi * p + lo;
    MulAddBelow(hi, lo, 64, p);
    DivModUnique(i, hi, lo, p);
    EncodeDecodeBE(r[1..n]);
    SelectorSplitsByte(r[0]);
    var e := EncodeWithLength(i, n);
    assert e == [r[0]] + r[1..n];
    assert r == r[..n] + r[n..];
  }

  /** A first byte is its length selector followed by six value bits. */
  lemma SelectorSplitsByte(b: byte)
    ensures Selector(LengthOf(b)) * 64 + b % 64 == b
  {
  }

  // Arithmetic helpers

  lemma DivBelow(x: nat, a: nat, p: nat)
    requires p > 0 && x < a * p
    ensures x / p < a
  {
    var q := x / p;
    if q >= a {
      assert q * p >= a * p by { MulMono(a, q, p); }
    }
  }

  lemma MulMono(a: nat, b: nat, p: nat)
    requires a <= b
    ensures a * p <= b * p
  {
  }

  lemma MulAddBelow(hi: nat, lo: nat, a: nat, p: nat)
    requires hi < a && lo < p
    ensures hi * p + lo < a * p
  {
    MulMono(hi + 1, a, p);
  }

  lemma DivModUnique(x: nat, hi: nat, lo: nat, p: nat)
    requires p > 0 && lo < p && x == hi * p + lo
    ensures x / p == hi && x % p == lo
  {
    var q, m := x / p, x % p;
    assert (q - hi) * p == lo - m;
    if q > hi {
      MulMono(1, q - hi, p);
    } else if q < hi {
      MulMono(1, hi - q, p);
    }
  }
}
