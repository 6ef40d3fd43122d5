/**
 * Fixed-width little-endian integers, as the scenario format stores them.
 * `FromLE`/`ToLE` are the unsigned codec; `DecodeInt`/`EncodeInt` add the
 * two's-complement reading used for signed fields (`s8`, `s16`, `s32`, ...)
 * and the range check that makes an encoding of an out-of-range value fail.
 */
module Bytes {
  import opened Wrappers

  newtype byte = b: int | 0 <= b < 256

  /** 256^n: the number of distinct values of an n-byte field. */
  function Pow256(n: nat): (r: nat)
    ensures r > 0
  {
    if n == 0 then 1 else 256 * Pow256(n - 1)
  }

  /** The unsigned value of a little-endian byte string. */
  function FromLE(bs: seq<byte>): (r: nat)
    ensures r < Pow256(|bs|)
  {
    if bs == [] then 0 else bs[0] as nat + 256 * FromLE(bs[1..])
  }

  /** The n-byte little-endian representation of v. */
  function ToLE(v: nat, n: nat): (r: seq<byte>)
    requires v < Pow256(n)
    ensures |r| == n
  {
    if n == 0 then [] else [(v % 256) as byte] + ToLE(v / 256, n - 1)
  }

  lemma {:induction false} FromLEToLE(v: nat, n: nat)
    requires v < Pow256(n)
    ensures FromLE(ToLE(v, n)) == v
  {
    if n > 0 {
      FromLEToLE(v / 256, n - 1);
      assert ToLE(v, n)[1..] == ToLE(v / 256, n - 1);
    }
  }

  lemma {:induction false} ToLEFromLE(bs: seq<byte>)
    ensures ToLE(FromLE(bs), |bs|) == bs
  {
    if bs != [] {
      ToLEFromLE(bs[1..]);
      var v := FromLE(bs);
      assert v % 256 == bs[0] as nat;
      assert v / 256 == FromLE(bs[1..]);
    }
  }

  /** Whether v fits an n-byte field (two's complement when signed). */
  predicate InRange(v: int, n: nat, signed: bool) {
    if signed then -(Pow256(n) as int) <= 2 * v < Pow256(n) else 0 <= v < Pow256(n)
  }

  /** `bytes_to_int`: little-endian, two's complement when signed. */
  function DecodeInt(bs: seq<byte>, signed: bool): (r: int)
    ensures InRange(r, |bs|, signed)
  {
    var u := FromLE(bs);
    if signed && 2 * u >= Pow256(|bs|) then u - Pow256(|bs|) else u
  }

  /** `int_to_bytes`: None when the value does not fit (Python's OverflowError). */
  function EncodeInt(v: int, n: nat, signed: bool): (r: Option<seq<byte>>)
    ensures r.Some? <==> InRange(v, n, signed)
    ensures r.Some? ==> |r.value| == n
  {
    if !InRange(v, n, signed) then None
    else Some(ToLE(if v < 0 then v + Pow256(n) else v, n))
  }

  /** Decoding an encoded integer gives the integer back. */
  lemma DecodeEncodeInt(v: int, n: nat, signed: bool)
    requires InRange(v, n, signed)
    ensures DecodeInt(EncodeInt(v, n, signed).value, signed) == v
  {
    var u := if v < 0 then v + Pow256(n) else v;
    FromLEToLE(u, n);
  }

  /** Encoding a decoded byte string at its own width gives the bytes back. */
  lemma EncodeDecodeInt(bs: seq<byte>, signed: bool)
    ensures EncodeInt(DecodeInt(bs, signed), |bs|, signed) == Some(bs)
  {
    ToLEFromLE(bs);
  }

  /** The concatenation of a list of byte chunks. */
  function Concat(chunks: seq<seq<byte>>): (r: seq<byte>)
    ensures |r| == TotalLength(chunks)
  {
    if chunks == [] then [] else chunks[0] + Concat(chunks[1..])
  }

  /** `sum([len(c) for c in chunks])`. */
  function TotalLength(chunks: seq<seq<byte>>): nat {
    if chunks == [] then 0 else |chunks[0]| + TotalLength(chunks[1..])
  }

  lemma {:induction false} ConcatAppend(chunks: seq<seq<byte>>, c: seq<byte>)
    ensures Concat(chunks + [c]) == Concat(chunks) + c
    ensures TotalLength(chunks + [c]) == TotalLength(chunks) + |c|
  {
    if chunks != [] {
      assert (chunks + [c])[1..] == chunks[1..] + [c];
      ConcatAppend(chunks[1..], c);
    } else {
      assert [c][1..] == [];
    }
  }
}
