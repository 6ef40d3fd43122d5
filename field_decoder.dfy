/**
 * The field decoder. `retrieve_bytes` reads the raw bytes of each of a
 * field's values from the byte generator, `parse_bytes` decodes them, and
 * `retrieve_value` does both for one retriever, after running its construct
 * hooks, and treats the `version` field and the end-of-file field specially.
 *
 * The generator is a `ByteStream`: the file's bytes and how many of them have
 * been taken. Asking it for more bytes than remain is StopIteration, and
 * leaves it exhausted.
 */
module FieldDecoder {
  import opened Wrappers
  import opened Errors
  import opened Bytes
  import opened TypeResolver
  import opened Values
  import opened Dependencies

  /** The byte generator of a scenario file. */
  class ByteStream {
    const bytes: seq<byte>
    var pos: nat

    predicate Valid()
      reads this
    {
      pos <= |bytes|
    }

    constructor (bytes: seq<byte>)
      ensures Valid() && this.bytes == bytes && pos == 0
    {
      this.bytes := bytes;
      pos := 0;
    }
  }

  /** `range(0, repeat)` runs this many times. */
  function Count(repeat: int): nat {
    if repeat < 0 then 0 else repeat
  }

  /**
   * `repeat_generator(generator, n)` from position pos: the next n bytes (none
   * when n <= 0), or None (StopIteration) with the stream exhausted when fewer
   * than n remain.
   */
  function Take(bytes: seq<byte>, pos: nat, n: int): (r: (Option<seq<byte>>, nat))
    requires pos <= |bytes|
    ensures pos <= r.1 <= |bytes|
    ensures r.0.Some? <==> n <= |bytes| - pos
    ensures r.0.Some? ==> r.0.value == bytes[pos..r.1] && |r.0.value| == Count(n)
    ensures r.0.None? ==> r.1 == |bytes|
  {
    if n <= 0 then (Some([]), pos)
    else if n <= |bytes| - pos then (Some(bytes[pos..pos + n]), pos + n)
    else (None, |bytes|)
  }

  /**
   * The bytes one value occupies: `len` of them, and for `str` the `len`-byte
   * signed little-endian length prefix followed by that many payload bytes.
   */
  predicate IsElement(cat: Category, len: nat, c: seq<byte>) {
    |c| >= len &&
    (if cat == Str then |c| == len + Count(DecodeInt(c[..len], true)) else |c| == len)
  }

  /** Read the bytes of one value; None is StopIteration. */
  function ReadElement(bytes: seq<byte>, pos: nat, cat: Category, len: nat): (r: (Option<seq<byte>>, nat))
    requires pos <= |bytes|
    ensures pos <= r.1 <= |bytes|
    ensures r.0.Some? ==> r.0.value == bytes[pos..r.1]
    ensures r.0.None? ==> r.1 == |bytes|
  {
    var (head, p) := Take(bytes, pos, len);
    if head.None? || cat != Str then (head, p)
    else
      var (payload, q) := Take(bytes, p, DecodeInt(head.value, true));
      if payload.None? then (None, q)
      else (Some(head.value + payload.value), q)
  }

  /** What one read takes is one whole value: its prefix, then as many bytes as a `str` prefix says. */
  lemma ReadElementWhole(bytes: seq<byte>, pos: nat, cat: Category, len: nat)
    requires pos <= |bytes|
    ensures var r := ReadElement(bytes, pos, cat, len);
      r.0.Some? ==> IsElement(cat, len, r.0.value)
  {
    var (head, p) := Take(bytes, pos, len);
    if head.Some? && cat == Str {
      var (payload, q) := Take(bytes, p, DecodeInt(head.value, true));
      if payload.Some? {
        assert (head.value + payload.value)[..len] == head.value;
      }
    }
  }

  /** The chunks read so far (or StopIteration), and the stream position after them. */
  datatype Reading = Reading(chunks: Result<seq<seq<byte>>, Error>, pos: nat)

  /** Put `acc` in front of the chunks of a reading that succeeded. */
  function Prefix(acc: seq<seq<byte>>, rd: Reading): Reading {
    match rd.chunks
    case Err(e) => rd
    case Ok(cs) => Reading(Ok(acc + cs), rd.pos)
  }

  /**
   * The read half of `retrieve_value`'s loop: the bytes of `count` values, one
   * chunk per value, or StopIteration once the stream runs out.
   */
  function ReadChunks(bytes: seq<byte>, pos: nat, cat: Category, len: nat, count: nat): (rd: Reading)
    requires pos <= |bytes|
    ensures pos <= rd.pos <= |bytes|
    ensures rd.chunks.Ok? ==> |rd.chunks.value| == count
    ensures rd.chunks.Err? ==> rd.chunks.error == StopIteration && rd.pos == |bytes|
    decreases count
  {
    if count == 0 then Reading(Ok([]), pos)
    else match ReadElement(bytes, pos, cat, len)
      case (None, q) => Reading(Err(StopIteration), q)
      case (Some(c), p) => Prefix([c], ReadChunks(bytes, p, cat, len, count - 1))
  }

  /** The chunks of a reading are the bytes it passed over, one whole value each. */
  lemma {:induction false} ReadChunksCover(bytes: seq<byte>, pos: nat, cat: Category, len: nat, count: nat)
    requires pos <= |bytes|
    ensures var rd := ReadChunks(bytes, pos, cat, len, count);
      rd.chunks.Ok? ==> (
        Concat(rd.chunks.value) == bytes[pos..rd.pos] &&
        forall i :: 0 <= i < |rd.chunks.value| ==> IsElement(cat, len, rd.chunks.value[i]))
    decreases count
  {
    if count > 0 {
      match ReadElement(bytes, pos, cat, len)
      case (None, q) =>
      case (Some(c), p) =>
        ReadElementWhole(bytes, pos, cat, len);
        ReadChunksCover(bytes, p, cat, len, count - 1);
        var rest := ReadChunks(bytes, p, cat, len, count - 1);
        if rest.chunks.Ok? {
          ConsChunk(bytes, pos, p, rest.pos, cat, len, c, rest.chunks.value);
        }
    }
  }

  /** One more chunk in front of chunks read right after it. */
  lemma ConsChunk(bytes: seq<byte>, pos: nat, p: nat, q: nat, cat: Category, len: nat, c: seq<byte>, cs: seq<seq<byte>>)
    requires pos <= p <= q <= |bytes| && c == bytes[pos..p] && Concat(cs) == bytes[p..q]
    requires IsElement(cat, len, c) && forall i :: 0 <= i < |cs| ==> IsElement(cat, len, cs[i])
    ensures Concat([c] + cs) == bytes[pos..q]
    ensures forall i :: 0 <= i < |[c] + cs| ==> IsElement(cat, len, ([c] + cs)[i])
  {
    assert ([c] + cs)[0] == c && ([c] + cs)[1..] == cs;
    assert bytes[pos..p] + bytes[p..q] == bytes[pos..q];
  }

  /** A value read in full: the rest of the reading comes after its chunk. */
  lemma ReadChunksNext(bytes: seq<byte>, pos: nat, cat: Category, len: nat, count: nat, c: seq<byte>, p: nat)
    requires pos <= |bytes| && count > 0 && ReadElement(bytes, pos, cat, len) == (Some(c), p)
    ensures p <= |bytes|
    ensures ReadChunks(bytes, pos, cat, len, count) == Prefix([c], ReadChunks(bytes, p, cat, len, count - 1))
  {
  }

  /** A value cut short by the end of the stream ends the reading with StopIteration. */
  lemma ReadChunksStop(bytes: seq<byte>, pos: nat, cat: Category, len: nat, count: nat, q: nat)
    requires pos <= |bytes| && count > 0 && ReadElement(bytes, pos, cat, len) == (None, q)
    ensures ReadChunks(bytes, pos, cat, len, count) == Reading(Err(StopIteration), q)
  {
  }

  lemma PrefixNone(rd: Reading)
    ensures Prefix([], rd) == rd
  {
    if rd.chunks.Ok? { assert [] + rd.chunks.value == rd.chunks.value; }
  }

  lemma PrefixAll(acc: seq<seq<byte>>, bytes: seq<byte>, pos: nat, cat: Category, len: nat)
    requires pos <= |bytes|
    ensures Prefix(acc, ReadChunks(bytes, pos, cat, len, 0)) == Reading(Ok(acc), pos)
  {
    assert acc + [] == acc;
  }

  /**
   * The loop of `ReadChunksFrom` after one more value: its chunk joins those
   * read before, or the reading ends with StopIteration.
   */
  lemma ReadChunksStep(goal: Reading, acc: seq<seq<byte>>, bytes: seq<byte>, pos: nat, cat: Category, len: nat, count: nat,
                       c: Option<seq<byte>>, p: nat)
    requires pos <= |bytes| && count > 0 && ReadElement(bytes, pos, cat, len) == (c, p)
    requires goal == Prefix(acc, ReadChunks(bytes, pos, cat, len, count))
    ensures c.None? ==> goal == Reading(Err(StopIteration), p)
    ensures c.Some? ==> p <= |bytes| && goal == Prefix(acc + [c.value], ReadChunks(bytes, p, cat, len, count - 1))
  {
    if c.None? {
      ReadChunksStop(bytes, pos, cat, len, count, p);
    } else {
      ReadChunksNext(bytes, pos, cat, len, count, c.value, p);
      PrefixPrefix(acc, [c.value], ReadChunks(bytes, p, cat, len, count - 1));
    }
  }

  lemma PrefixPrefix(a: seq<seq<byte>>, b: seq<seq<byte>>, rd: Reading)
    ensures Prefix(a, Prefix(b, rd)) == Prefix(a + b, rd)
  {
    if rd.chunks.Ok? {
      assert a + (b + rd.chunks.value) == (a + b) + rd.chunks.value;
    }
  }

  /** `repeat_generator` on the stream. */
  method TakeFrom(s: ByteStream, n: int) returns (chunk: Option<seq<byte>>)
    requires s.Valid()
    modifies s
    ensures s.Valid()
    ensures (chunk, s.pos) == Take(s.bytes, old(s.pos), n)
  {
    if n <= 0 {
      chunk := Some([]);
    } else if n <= |s.bytes| - s.pos {
      chunk := Some(s.bytes[s.pos..s.pos + n]);
      s.pos := s.pos + n;
    } else {
      chunk := None;
      s.pos := |s.bytes|;
    }
  }

  /** Read the bytes of one value from the stream. */
  method ReadElementFrom(s: ByteStream, cat: Category, len: nat) returns (chunk: Option<seq<byte>>)
    requires s.Valid()
    modifies s
    ensures s.Valid()
    ensures (chunk, s.pos) == ReadElement(s.bytes, old(s.pos), cat, len)
  {
    var head := TakeFrom(s, len);
    if head.None? || cat != Str {
      return head;
    }
    var payload := TakeFrom(s, DecodeInt(head.value, true));
    if payload.None? {
      return None;
    }
    chunk := Some(head.value + payload.value);
  }

  /** Read the bytes of `count` values from the stream, one after the other. */
  method ReadChunksFrom(s: ByteStream, cat: Category, len: nat, count: nat) returns (res: Result<seq<seq<byte>>, Error>)
    requires s.Valid()
    modifies s
    ensures s.Valid()
    ensures Reading(res, s.pos) == ReadChunks(s.bytes, old(s.pos), cat, len, count)
  {
    ghost var goal := ReadChunks(s.bytes, s.pos, cat, len, count);
    PrefixNone(goal);
    var acc: seq<seq<byte>> := [];
    var k := count;
    while k > 0
      invariant s.Valid()
      invariant goal == Prefix(acc, ReadChunks(s.bytes, s.pos, cat, len, k))
    {
      ghost var p := s.pos;
      var c := ReadElementFrom(s, cat, len);
      ReadChunksStep(goal, acc, s.bytes, p, cat, len, k, c, s.pos);
      if c.None? {
        return Err(StopIteration);
      }
      acc := acc + [c.value];
      k := k - 1;
    }
    PrefixAll(acc, s.bytes, s.pos, cat, len);
    res := Ok(acc);
  }

  /** What `retrieve_bytes` yields for a retriever starting at position pos. */
  function BytesRetrieval(bytes: seq<byte>, pos: nat, r: Retriever): (rd: Reading)
    requires pos <= |bytes|
    ensures pos <= rd.pos <= |bytes|
    ensures rd.chunks.Ok? ==> Concat(rd.chunks.value) == bytes[pos..rd.pos] && |rd.chunks.value| == Count(r.dataType.repeat)
  {
    match TypeToLength(r.dataType.token)
    case Err(e) => Reading(Err(e), pos)
    case Ok((cat, len)) =>
      if cat == Struct then Reading(Err(TypeError), pos)
      else
        ReadChunksCover(bytes, pos, cat, len, Count(r.dataType.repeat));
        ReadChunks(bytes, pos, cat, len, Count(r.dataType.repeat))
  }

  /**
   * `retrieve_bytes`: the raw bytes of each of the field's `repeat` values, in
   * order, read from the stream.
   */
  method RetrieveBytes(s: ByteStream, r: Retriever) returns (res: Result<seq<seq<byte>>, Error>)
    requires s.Valid()
    modifies s
    ensures s.Valid()
    ensures Reading(res, s.pos) == BytesRetrieval(s.bytes, old(s.pos), r)
  {
    var t := TypeToLength(r.dataType.token);
    if t.Err? {
      return Err(t.error);
    }
    var (cat, len) := t.value;
    if cat == Struct {
      return Err(TypeError);
    }
    res := ReadChunksFrom(s, cat, len, Count(r.dataType.repeat));
  }

  /** The decode half of the loop for one value's bytes. */
  function DecodeElement(cat: Category, len: nat, c: seq<byte>): (v: Value)
    ensures !v.List?
  {
    match cat
    case Signed => Int(DecodeInt(c, true))
    case Unsigned => Int(DecodeInt(c, false))
    case Float => Value.Float(c)
    case Chars => Text(c)
    case Data => Raw(c)
    case Str => Text(if |c| >= len then c[len..] else [])
    case Struct => Nothing
  }

  function DecodeAll(cat: Category, len: nat, cs: seq<seq<byte>>): (vs: seq<Value>)
    ensures |vs| == |cs|
  {
    seq(|cs|, i requires 0 <= i < |cs| => DecodeElement(cat, len, cs[i]))
  }

  /**
   * `parse_bytes`: the decoded values, shown as a scalar or a list as `vorl`
   * decides.
   */
  function ParseBytes(r: Retriever, cs: seq<seq<byte>>): (res: Result<Value, Error>)
    ensures res.Ok? ==> TypeToLength(r.dataType.token).Ok? && Listify(res.value) == List(DecodeAll(TypeToLength(r.dataType.token).value.0, TypeToLength(r.dataType.token).value.1, cs))
  {
    match TypeToLength(r.dataType.token)
    case Err(e) => Err(e)
    case Ok((cat, len)) =>
      if cat == Struct then Err(TypeError)
      else
        ListifyVorl(DecodeAll(cat, len, cs), r);
        Ok(Vorl(List(DecodeAll(cat, len, cs)), r))
  }

  /**
   * The byte count `retrieve_value` adds for one value: `len`, and for a `str`
   * also the length its prefix declares, negative or not.
   */
  function ElementLength(cat: Category, len: nat, c: seq<byte>): int {
    if cat == Str && |c| >= len then len + DecodeInt(c[..len], true) else len
  }

  function LengthOf(cat: Category, len: nat, cs: seq<seq<byte>>): int {
    if cs == [] then 0 else ElementLength(cat, len, cs[0]) + LengthOf(cat, len, cs[1..])
  }

  /** A `str` value whose prefix declares a negative length. */
  predicate NegativePrefix(cat: Category, len: nat, c: seq<byte>) {
    cat == Str && |c| >= len && DecodeInt(c[..len], true) < 0
  }

  /**
   * The length `retrieve_value` reports never exceeds the bytes it consumed,
   * and equals them exactly when no `str` prefix is negative; for the other
   * categories it is the repeat count times the width.
   */
  lemma {:induction false} LengthAccounting(cat: Category, len: nat, cs: seq<seq<byte>>)
    requires forall i :: 0 <= i < |cs| ==> IsElement(cat, len, cs[i])
    ensures LengthOf(cat, len, cs) <= TotalLength(cs)
    ensures LengthOf(cat, len, cs) == TotalLength(cs) <==> forall i :: 0 <= i < |cs| ==> !NegativePrefix(cat, len, cs[i])
    ensures cat != Str ==> LengthOf(cat, len, cs) == |cs| * len
  {
    if cs != [] {
      LengthAccounting(cat, len, cs[1..]);
      assert forall i :: 1 <= i < |cs| ==> cs[i] == cs[1..][i - 1];
      if cat != Str {
        assert LengthOf(cat, len, cs) == len + (|cs| - 1) * len;
      }
    }
  }

  // ---------------------------------------------------------------------
  // retrieve_value

  /** The version string the parser accepts, "1.40". */
  const SupportedVersion: seq<byte> := [0x31, 0x2E, 0x34, 0x30]

  /**
   * What `retrieve_value` returns: the end-of-file field found a clean end
   * (`(True, None, None)`) or extra data (`(bytes, None, None)`), or a value
   * and its length with no error or with the error that stopped the loop.
   */
  datatype Outcome =
    | EndOfFile
    | Trailing(rest: seq<byte>)
    | Decoded(value: Value, length: int)
    | Failed(value: Value, length: int, error: Error)

  /** The outcome with the retriever store after it (or the error raised), and the stream position. */
  datatype Retrieval = Retrieval(result: Result<(Outcome, Store), Error>, pos: nat)

  function WithRepeat(r: Retriever, n: int): Retriever {
    r.(dataType := r.dataType.(repeat := n))
  }

  /**
   * The end-of-file field, as intended: with no bytes left the file ended
   * where expected (repeat becomes 0); otherwise every remaining byte is extra
   * data (repeat becomes 1).
   */
  function Sentinel(bytes: seq<byte>, pos: nat, r: Retriever): (res: (Outcome, Retriever))
    requires pos <= |bytes|
  {
    if pos == |bytes| then (EndOfFile, WithRepeat(r, 0))
    else (Trailing(bytes[pos..]), WithRepeat(r, 1))
  }

  /** The intended end-of-file rule reports every remaining byte, and a clean end exactly when there are none. */
  lemma SentinelDrains(bytes: seq<byte>, pos: nat, r: Retriever)
    requires pos <= |bytes|
    ensures Sentinel(bytes, pos, r).0 == EndOfFile <==> pos == |bytes|
    ensures Sentinel(bytes, pos, r).0.Trailing? ==> Sentinel(bytes, pos, r).0.rest == bytes[pos..] != []
    ensures Sentinel(bytes, pos, r).1 == WithRepeat(r, if pos == |bytes| then 0 else 1)
  {
  }

  /**
   * The end-of-file field as the code is written: its values are read like
   * any field's; StopIteration is a clean end, and otherwise only the bytes
   * left after the values read count as extra data.
   */
  function SentinelAsWritten(bytes: seq<byte>, pos: nat, cat: Category, len: nat, r: Retriever): (res: (Outcome, Retriever))
    requires pos <= |bytes|
  {
    if cat == Struct then
      if r.dataType.repeat >= 1 then (Failed(Vorl(List([]), r), 0, TypeError), r)
      else (Trailing(bytes[pos..]), WithRepeat(r, 1))
    else
      var rd := ReadChunks(bytes, pos, cat, len, Count(r.dataType.repeat));
      if rd.chunks.Err? then (EndOfFile, WithRepeat(r, 0))
      else (Trailing(bytes[rd.pos..]), WithRepeat(r, 1))
  }

  /**
   * As written, a non-`str` end-of-file field with a positive width and
   * repeat never reports the remaining bytes when there are any: either the
   * values read swallow some of them, or a short tail is taken for a clean end.
   */
  lemma SentinelAsWrittenLosesBytes(bytes: seq<byte>, pos: nat, cat: Category, len: nat, r: Retriever)
    requires pos < |bytes| && cat != Struct && cat != Str && len >= 1 && r.dataType.repeat >= 1
    ensures SentinelAsWritten(bytes, pos, cat, len, r).0 != Sentinel(bytes, pos, r).0
  {
    var rd := ReadChunks(bytes, pos, cat, len, Count(r.dataType.repeat));
    if rd.chunks.Ok? {
      var cs := rd.chunks.value;
      assert IsElement(cat, len, cs[0]);
      assert TotalLength(cs) >= |cs[0]|;
      assert |bytes[rd.pos..]| < |bytes[pos..]|;
    }
  }

  /** A one-byte end-of-file field followed by five bytes reports only the last four. */
  lemma SentinelAsWrittenExample(r: Retriever)
    requires r.dataType.repeat == 1
    ensures SentinelAsWritten([1, 2, 3, 4, 5], 0, Data, 1, r).0 == Trailing([2, 3, 4, 5])
    ensures Sentinel([1, 2, 3, 4, 5], 0, r).0 == Trailing([1, 2, 3, 4, 5])
  {
    var bytes: seq<byte> := [1, 2, 3, 4, 5];
    assert bytes[0..1] == [1] && bytes[1..] == [2, 3, 4, 5];
    assert ReadElement(bytes, 0, Data, 1) == (Some([1]), 1);
    assert ReadChunks(bytes, 1, Data, 1, 0) == Reading(Ok([]), 1);
    assert [[1]] + [] == [[1 as byte]];
    assert ReadChunks(bytes, 0, Data, 1, 1) == Reading(Ok([[1]]), 1);
  }

  /**
   * `retrieve_value` for retriever idx of list cur, reading from position pos
   * (the stale struct branch included: instantiating the type token fails
   * with TypeError, caught and returned with the empty result). The
   * end-of-file field follows the corrected rule `Sentinel`, not the code as
   * written, which `SentinelAsWritten` models.
   */
  function ValueRetrieval(fuel: nat, bytes: seq<byte>, pos: nat, st: Store, cur: Loc, idx: nat): (rv: Retrieval)
    requires pos <= |bytes| && st.Valid(cur, idx)
    ensures pos <= rv.pos <= |bytes|
    ensures rv.result.Ok? ==> Shape(rv.result.value.1) == Shape(st) && rv.result.value.1.Valid(cur, idx)
  {
    var r0 := st.At(cur, idx);
    match TypeToLength(r0.dataType.token)
    case Err(e) => Retrieval(Err(e), pos)
    case Ok((cat, len)) =>
      match Hooked(fuel, st, cur, idx)
      case Err(e) => Retrieval(Err(e), pos)
      case Ok(st1) =>
        SameShape(st1, st);
        FieldRetrieval(bytes, pos, st1, cur, idx, cat, len)
  }

  /**
   * `retrieve_value` once the type is resolved and the construct hooks have
   * run, with the corrected end-of-file rule `Sentinel`.
   */
  function FieldRetrieval(bytes: seq<byte>, pos: nat, st: Store, cur: Loc, idx: nat, cat: Category, len: nat): (rv: Retrieval)
    requires pos <= |bytes| && st.Valid(cur, idx)
    ensures pos <= rv.pos <= |bytes|
    ensures rv.result.Ok? ==> Shape(rv.result.value.1) == Shape(st) && rv.result.value.1.Valid(cur, idx)
  {
    var r := st.At(cur, idx);
    if r.name == EndOfFileMark then
      var (out, r') := Sentinel(bytes, pos, r);
      PutKeepsShape(st, cur, idx, r');
      Retrieval(Ok((out, st.Put(cur, idx, r'))), |bytes|)
    else if cat == Struct then
      if r.dataType.repeat >= 1 then Retrieval(Ok((Failed(Vorl(List([]), r), 0, TypeError), st)), pos)
      else Retrieval(Ok((Decoded(Vorl(List([]), r), 0), st)), pos)
    else
      var rd := ReadChunks(bytes, pos, cat, len, Count(r.dataType.repeat));
      match rd.chunks
      case Err(e) => Retrieval(Err(e), rd.pos)
      case Ok(cs) =>
        var v := Vorl(List(DecodeAll(cat, len, cs)), r);
        if r.name == "version" && r.dataType.token == "c4" && v != Text(SupportedVersion) then
          Retrieval(Err(UnsupportedVersion), rd.pos)
        else Retrieval(Ok((Decoded(v, LengthOf(cat, len, cs)), st)), rd.pos)
  }

  /** Take every remaining byte of the stream. */
  method Drain(s: ByteStream) returns (rest: seq<byte>)
    requires s.Valid()
    modifies s
    ensures s.Valid() && s.pos == |s.bytes|
    ensures rest == s.bytes[old(s.pos)..]
  {
    rest := [];
    while s.pos < |s.bytes|
      invariant old(s.pos) <= s.pos <= |s.bytes|
      invariant rest == s.bytes[old(s.pos)..s.pos]
      decreases |s.bytes| - s.pos
    {
      assert s.bytes[old(s.pos)..s.pos + 1] == s.bytes[old(s.pos)..s.pos] + [s.bytes[s.pos]];
      rest := rest + [s.bytes[s.pos]];
      s.pos := s.pos + 1;
    }
  }

  /**
   * `retrieve_value`: run the construct hooks, then read and decode the
   * field's values from the stream (the end-of-file field by the corrected
   * rule `Sentinel`).
   */
  method RetrieveValue(s: ByteStream, fuel: nat, st: Store, cur: Loc, idx: nat) returns (res: Result<(Outcome, Store), Error>)
    requires s.Valid() && st.Valid(cur, idx)
    modifies s
    ensures s.Valid()
    ensures Retrieval(res, s.pos) == ValueRetrieval(fuel, s.bytes, old(s.pos), st, cur, idx)
  {
    var r0 := st.At(cur, idx);
    var t := TypeToLength(r0.dataType.token);
    if t.Err? {
      return Err(t.error);
    }
    var (cat, len) := t.value;
    var st1 := st;
    if OnConstruct in r0.hooks {
      var hooked := HandleRetrieverDependency(fuel, st, cur, idx, "construct");
      if hooked.Err? {
        return Err(hooked.error);
      }
      st1 := hooked.value;
    }
    SameShape(st1, st);
    res := RetrieveField(s, st1, cur, idx, cat, len);
  }

  method RetrieveField(s: ByteStream, st: Store, cur: Loc, idx: nat, cat: Category, len: nat) returns (res: Result<(Outcome, Store), Error>)
    requires s.Valid() && st.Valid(cur, idx)
    modifies s
    ensures s.Valid()
    ensures Retrieval(res, s.pos) == FieldRetrieval(s.bytes, old(s.pos), st, cur, idx, cat, len)
  {
    var r := st.At(cur, idx);
    if r.name == EndOfFileMark {
      if s.pos == |s.bytes| {
        return Ok((EndOfFile, st.Put(cur, idx, WithRepeat(r, 0))));
      }
      var rest := Drain(s);
      return Ok((Trailing(rest), st.Put(cur, idx, WithRepeat(r, 1))));
    }
    if cat == Struct {
      if r.dataType.repeat >= 1 {
        return Ok((Failed(Vorl(List([]), r), 0, TypeError), st));
      }
      return Ok((Decoded(Vorl(List([]), r), 0), st));
    }
    var cs := ReadChunksFrom(s, cat, len, Count(r.dataType.repeat));
    if cs.Err? {
      return Err(cs.error);
    }
    var v := Vorl(List(DecodeAll(cat, len, cs.value)), r);
    if r.name == "version" && r.dataType.token == "c4" && v != Text(SupportedVersion) {
      return Err(UnsupportedVersion);
    }
    res := Ok((Decoded(v, LengthOf(cat, len, cs.value)), st));
  }

  // ---------------------------------------------------------------------
  // Properties of retrieve_value

  /** The store after the field's construct hooks, when it has them. */
  function Hooked(fuel: nat, st: Store, cur: Loc, idx: nat): Result<Store, Error>
    requires st.Valid(cur, idx)
  {
    if OnConstruct in st.At(cur, idx).hooks then Resolve(fuel, st, cur, idx, "construct") else Ok(st)
  }

  /**
   * `retrieve_value` is its construct hooks, when the field has them, and
   * then `FieldRetrieval` on the store they leave; an error in the hooks is
   * raised before anything is read.
   */
  lemma RetrieveAfterHooks(fuel: nat, bytes: seq<byte>, pos: nat, st: Store, cur: Loc, idx: nat)
    requires pos <= |bytes| && st.Valid(cur, idx) && TypeToLength(st.At(cur, idx).dataType.token).Ok?
    ensures var hooked := Hooked(fuel, st, cur, idx);
      hooked.Err? ==> ValueRetrieval(fuel, bytes, pos, st, cur, idx) == Retrieval(Err(hooked.error), pos)
    ensures var hooked := Hooked(fuel, st, cur, idx);
      var (cat, len) := TypeToLength(st.At(cur, idx).dataType.token).value;
      hooked.Ok? ==> (Shape(hooked.value) == Shape(st) && hooked.value.Valid(cur, idx) &&
        ValueRetrieval(fuel, bytes, pos, st, cur, idx) == FieldRetrieval(bytes, pos, hooked.value, cur, idx, cat, len))
  {
    var hooked := Hooked(fuel, st, cur, idx);
    if hooked.Ok? { SameShape(hooked.value, st); }
  }

  /**
   * Under the corrected end-of-file rule, the end-of-file field, after
   * whatever its construct hooks did, takes the rest of the stream: a clean
   * end sets its repeat to 0, extra bytes are all reported and set it to 1.
   */
  lemma RetrieveEndOfFile(bytes: seq<byte>, pos: nat, st: Store, cur: Loc, idx: nat, cat: Category, len: nat)
    requires pos <= |bytes| && st.Valid(cur, idx)
    requires var r := st.At(cur, idx);
      r.name == EndOfFileMark && TypeToLength(r.dataType.token) == Ok((cat, len))
    ensures var rv := FieldRetrieval(bytes, pos, st, cur, idx, cat, len);
      var r := st.At(cur, idx);
      rv.pos == |bytes| &&
      (pos == |bytes| ==> rv.result == Ok((EndOfFile, st.Put(cur, idx, WithRepeat(r, 0))))) &&
      (pos < |bytes| ==> rv.result == Ok((Trailing(bytes[pos..]), st.Put(cur, idx, WithRepeat(r, 1)))))
  {
  }

  /**
   * The values of a fixed-width category can all be read exactly when the
   * stream holds `count` times the width, and then exactly that is read.
   */
  lemma {:induction false} ReadChunksFixed(bytes: seq<byte>, pos: nat, cat: Category, len: nat, count: nat)
    requires pos <= |bytes| && cat != Str
    ensures ReadChunks(bytes, pos, cat, len, count).chunks.Ok? <==> count * len <= |bytes| - pos
    ensures ReadChunks(bytes, pos, cat, len, count).chunks.Ok? ==> ReadChunks(bytes, pos, cat, len, count).pos == pos + count * len
    decreases count
  {
    var rd := ReadChunks(bytes, pos, cat, len, count);
    MulSucc(count - 1, len);
    if count == 0 {
    } else if len <= |bytes| - pos {
      var q := pos + len;
      ReadChunksNext(bytes, pos, cat, len, count, bytes[pos..q], q);
      ReadChunksFixed(bytes, q, cat, len, count - 1);
      var rest := ReadChunks(bytes, q, cat, len, count - 1);
      assert rd.chunks.Ok? <==> rest.chunks.Ok?;
      assert rd.pos == rest.pos;
    } else {
      ReadChunksStop(bytes, pos, cat, len, count, |bytes|);
    }
  }

  lemma MulSucc(a: int, b: nat)
    ensures (a + 1) * b == a * b + b && (a >= 0 ==> a * b >= 0) && 0 * b == 0
  {
  }

  /**
   * Any other field, after whatever its construct hooks did, raises
   * StopIteration to the caller, with the stream exhausted, exactly when the
   * stream runs out before its last value is read in full, at whichever value
   * and within a `str` payload too; for fixed-width categories that is when
   * fewer than repeat times the width bytes remain.
   */
  lemma RetrieveStopIteration(bytes: seq<byte>, pos: nat, st: Store, cur: Loc, idx: nat, cat: Category, len: nat)
    requires pos <= |bytes| && st.Valid(cur, idx)
    requires var r := st.At(cur, idx);
      r.name != EndOfFileMark && TypeToLength(r.dataType.token) == Ok((cat, len)) && cat != Struct
    ensures var r := st.At(cur, idx);
      var rv := FieldRetrieval(bytes, pos, st, cur, idx, cat, len);
      (rv.result == Err(StopIteration) <==> ReadChunks(bytes, pos, cat, len, Count(r.dataType.repeat)).chunks.Err?) &&
      (rv.result == Err(StopIteration) ==> rv.pos == |bytes|) &&
      (cat != Str ==> (rv.result == Err(StopIteration) <==> Count(r.dataType.repeat) * len > |bytes| - pos))
  {
    var r := st.At(cur, idx);
    if cat != Str {
      ReadChunksFixed(bytes, pos, cat, len, Count(r.dataType.repeat));
    }
  }

  /**
   * A single, scalar `version` field of type `c4` (its repeat as the
   * construct hooks left it) is accepted exactly when its four bytes spell
   * "1.40"; any other value is UnsupportedVersion.
   */
  lemma RetrieveVersion(bytes: seq<byte>, pos: nat, st: Store, cur: Loc, idx: nat)
    requires pos + 4 <= |bytes| && st.Valid(cur, idx)
    requires var r := st.At(cur, idx);
      r.name == "version" && r.dataType.token == "c4" && r.dataType.repeat == 1 && !ForcesList(r)
    ensures var rv := FieldRetrieval(bytes, pos, st, cur, idx, Chars, 4);
      rv.pos == pos + 4 &&
      (rv.result.Ok? <==> bytes[pos..pos + 4] == SupportedVersion) &&
      (rv.result.Ok? ==> rv.result.value.0 == Decoded(Text(SupportedVersion), 4)) &&
      (rv.result.Err? ==> rv.result.error == UnsupportedVersion)
  {
    var c := bytes[pos..pos + 4];
    assert ReadElement(bytes, pos, Chars, 4) == (Some(c), pos + 4);
    assert ReadChunks(bytes, pos + 4, Chars, 4, 0) == Reading(Ok([]), pos + 4);
    assert [c] + [] == [c];
    assert ReadChunks(bytes, pos, Chars, 4, 1) == Reading(Ok([c]), pos + 4);
    assert DecodeAll(Chars, 4, [c]) == [Text(c)];
    assert LengthOf(Chars, 4, [c]) == 4;
  }

  /**
   * A `version` field of type `c4` whose value `vorl` leaves as a list (a
   * repeat other than 1, or list form forced) is never "1.40": once its
   * values are read it always raises UnsupportedVersion.
   */
  lemma RetrieveVersionList(bytes: seq<byte>, pos: nat, st: Store, cur: Loc, idx: nat)
    requires pos <= |bytes| && st.Valid(cur, idx)
    requires var r := st.At(cur, idx);
      r.name == "version" && r.dataType.token == "c4" && (r.dataType.repeat != 1 || ForcesList(r))
    ensures var rv := FieldRetrieval(bytes, pos, st, cur, idx, Chars, 4);
      var r := st.At(cur, idx);
      rv.result.Err? &&
      (ReadChunks(bytes, pos, Chars, 4, Count(r.dataType.repeat)).chunks.Ok? ==> rv.result.error == UnsupportedVersion) &&
      (ReadChunks(bytes, pos, Chars, 4, Count(r.dataType.repeat)).chunks.Err? ==> rv.result.error == StopIteration)
  {
    var r := st.At(cur, idx);
    var rd := ReadChunks(bytes, pos, Chars, 4, Count(r.dataType.repeat));
    if rd.chunks.Ok? {
      var xs := DecodeAll(Chars, 4, rd.chunks.value);
      assert |xs| == Count(r.dataType.repeat);
      ListifyVorl(xs, r);
    }
  }

  /**
   * A decoded field holds exactly `repeat` values (the repeat the construct
   * hooks left) once `listify`-ed, and its reported length never exceeds the
   * bytes read: it is repeat times the width for fixed-width categories, and
   * for `str` it is the bytes read exactly when no prefix is negative.
   */
  lemma RetrieveDecodedLength(fuel: nat, bytes: seq<byte>, pos: nat, st: Store, cur: Loc, idx: nat)
    requires pos <= |bytes| && st.Valid(cur, idx)
    requires var r := st.At(cur, idx);
      r.name != EndOfFileMark && TypeToLength(r.dataType.token).Ok? && TypeToLength(r.dataType.token).value.0 != Struct
    requires ValueRetrieval(fuel, bytes, pos, st, cur, idx).result.Ok?
    ensures var rv := ValueRetrieval(fuel, bytes, pos, st, cur, idx);
      var (cat, len) := TypeToLength(st.At(cur, idx).dataType.token).value;
      var (out, st') := rv.result.value;
      var repeat := st'.At(cur, idx).dataType.repeat;
      out.Decoded? &&
      |Listify(out.value).items| == Count(repeat) &&
      out.length <= rv.pos - pos &&
      (cat != Str ==> out.length == rv.pos - pos == Count(repeat) * len)
  {
    var r0 := st.At(cur, idx);
    var (cat, len) := TypeToLength(r0.dataType.token).value;
    var st1 := if OnConstruct in r0.hooks then Resolve(fuel, st, cur, idx, "construct").value else st;
    SameShape(st1, st);
    var r := st1.At(cur, idx);
    assert FrameOf(r) == FrameOf(r0);
    var rd := ReadChunks(bytes, pos, cat, len, Count(r.dataType.repeat));
    var cs := rd.chunks.value;
    ReadChunksCover(bytes, pos, cat, len, Count(r.dataType.repeat));
    LengthAccounting(cat, len, cs);
    ListifyVorl(DecodeAll(cat, len, cs), r);
  }
}
