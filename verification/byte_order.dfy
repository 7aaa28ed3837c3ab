/**
  Big-endian integers over byte sequences: the fixed-width helpers the
  frame codec uses (`utils.BigEndian.ReadUint16` / `WriteUint16`) and the
  n-byte encoding the variable-length integers are built from.
*/
module ByteOrder {
  import opened Common

  /** 256^k, the number of values k bytes can hold. */
  function Pow256(k: nat): (r: nat)
    ensures r > 0
  {
    if k == 0 then 1 else 256 * Pow256(k - 1)
  }

  /** Big-endian encoding of `v` in exactly `n` bytes. */
  function EncodeBE(v: nat, n: nat): (r: seq<byte>)
    requires v < Pow256(n)
    ensures |r| == n
  {
    if n == 0 then [] else EncodeBE(v / 256, n - 1) + [v % 256]
  }

  /** The value of a big-endian byte string; it always fits its width. */
  function DecodeBE(s: seq<byte>): (r: nat)
    ensures r < Pow256(|s|)
  {
    if |s| == 0 then 0 else DecodeBE(s[..|s| - 1]) * 256 + s[|s| - 1]
  }

  /** Decoding undoes encoding. */
  lemma {:induction false} DecodeEncodeBE(v: nat, n: nat)
    requires v < Pow256(n)
    ensures DecodeBE(EncodeBE(v, n)) == v
  {
    if n > 0 {
      var e := EncodeBE(v / 256, n - 1);
      assert EncodeBE(v, n) == e + [v % 256];
      assert (e + [v % 256])[..n - 1] == e;
      DecodeEncodeBE(v / 256, n - 1);
    }
  }

  /** Encoding undoes decoding: a big-endian byte string is determined by its value and width. */
  lemma {:induction false} EncodeDecodeBE(s: seq<byte>)
    ensures EncodeBE(DecodeBE(s), |s|) == s
  {
    if |s| > 0 {
      var init := s[..|s| - 1];
      var v := DecodeBE(s);
      assert v / 256 == DecodeBE(init);
      assert v % 256 == s[|s| - 1];
      EncodeDecodeBE(init);
      assert s == init + [s[|s| - 1]];
    }
  }

  /** `BigEndian.ReadUint16`: two bytes, most significant first; EOF when fewer remain. */
  function ReadUint16(r: seq<byte>): (res: Result<(nat, seq<byte>)>)
    ensures res.Ok? <==> |r| >= 2
    ensures res.Ok? ==> res.value.0 < 0x1_0000 && res.value.1 == r[2..]
    ensures res.Ok? ==> [res.value.0 / 256, res.value.0 % 256] == r[..2]
  {
    if |r| < 2 then Err(EOF) else Ok(((r[0] as nat) * 256 + r[1], r[2..]))
  }

  /** `BigEndian.WriteUint16`: the two bytes of a 16-bit value, most significant first. */
  function WriteUint16(x: nat): (r: seq<byte>)
    requires x < 0x1_0000
    ensures |r| == 2
    ensures (r[0] as nat) * 256 + r[1] == x
  {
    [x / 256, x % 256]
  }

  /** Reading back what `WriteUint16` produced yields the value and leaves what follows. */
  lemma Uint16RoundTrip(x: nat, rest: seq<byte>)
    requires x < 0x1_0000
    ensures ReadUint16(WriteUint16(x) + rest) == Ok((x, rest))
  {
    assert (WriteUint16(x) + rest)[2..] == rest;
  }
}
