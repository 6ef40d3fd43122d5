/**
 * The field encoder, `retriever_to_bytes`: the bytes of a retriever's data,
 * or None when some value is missing. A list value first resets the repeat
 * count to its length. A struct value is encoded member by member; a member
 * that encodes to None is given its default from the struct's defaults and
 * encoded again, and the updated members stay in the struct.
 *
 * `fuel` stands for the interpreter's recursion limit, one unit per nested
 * struct level.
 */
module FieldEncoder {
  import opened Wrappers
  import opened Errors
  import opened Bytes
  import opened TypeResolver
  import opened Values
  import opened Dependencies
  import opened FieldDecoder

  /** The defaults of each struct model, by struct name and member name. */
  type Defaults = map<string, map<string, Value>>

  /** The bytes of the field (None: a value is missing) and the retriever as the encoder leaves it. */
  datatype Encoded = Encoded(out: Option<seq<byte>>, r: Retriever)

  /**
   * The bytes of one value of a non-struct category: fixed-width little-endian
   * integers (OverflowError out of range), floats, fixed chars and raw data as
   * they are, and a `str` as its signed length prefix and its bytes.
   */
  function EncodeElement(cat: Category, len: nat, v: Value): (res: Result<seq<byte>, Error>)
    ensures res.Ok? && (cat == Signed || cat == Unsigned) ==> |res.value| == len
  {
    if cat == Signed || cat == Unsigned then
      if !v.Int? then Err(TypeError)
      else match EncodeInt(v.i, len, cat == Signed)
        case None => Err(OverflowError)
        case Some(bs) => Ok(bs)
    else if cat == Category.Float then (if v.Float? then Ok(v.bits) else Err(TypeError))
    else if cat == Chars then (if v.Text? then Ok(v.chars) else Err(TypeError))
    else if cat == Data then (if v.Raw? then Ok(v.bytes) else Err(TypeError))
    else if cat == Str then
      if !v.Text? then Err(TypeError)
      else match EncodeInt(|v.chars|, len, true)
        case None => Err(OverflowError)
        case Some(prefix) => Ok(prefix + v.chars)
    else Ok([])
  }

  /** The value of iteration i: the i-th element of a list, or the scalar itself. */
  function ItemAt(r: Retriever, i: nat): Value
    requires r.data.List? ==> i < |r.data.items|
  {
    if r.data.List? then r.data.items[i] else r.data
  }

  /** The repeat count `retriever_to_bytes` uses: the list's length for a list. */
  function RepeatFor(r: Retriever): int {
    if r.data.List? then |r.data.items| else r.dataType.repeat
  }

  /** `retriever_to_bytes`, as a specification. */
  function Encode(fuel: nat, defaults: Defaults, r: Retriever): (res: Result<Encoded, Error>)
    ensures res.Ok? ==> FrameOf(res.value.r) == FrameOf(r) && res.value.r.dataType.repeat == RepeatFor(r)
    decreases fuel, 2, 0
  {
    if fuel == 0 then Err(RecursionError)
    else
      var t :- TypeToLength(r.dataType.token);
      var r1 := r.(dataType := r.dataType.(repeat := RepeatFor(r)));
      EncodeItems(fuel, defaults, r1, t.0, t.1, 0, [])
  }

  /** The loop over the field's values from the i-th on, with the bytes `acc` so far. */
  function EncodeItems(fuel: nat, defaults: Defaults, r: Retriever, cat: Category, len: nat, i: nat, acc: seq<byte>)
    : (res: Result<Encoded, Error>)
    requires fuel > 0
    requires r.data.List? ==> |r.data.items| == r.dataType.repeat
    requires cat == Struct ==> IsStructToken(r.dataType.token)
    ensures res.Ok? ==> FrameOf(res.value.r) == FrameOf(r) && res.value.r.dataType == r.dataType
    ensures res.Ok? && cat != Struct ==> res.value.r == r
    ensures res.Ok? && res.value.out.Some? ==> |acc| <= |res.value.out.value| && res.value.out.value[..|acc|] == acc
    decreases fuel, 1, Count(r.dataType.repeat) - i
  {
    if i >= Count(r.dataType.repeat) then Ok(Encoded(Some(acc), r))
    else
      var d := ItemAt(r, i);
      if d.Nothing? then Ok(Encoded(None, r))
      else if cat == Struct then
        if !d.Part? then Err(AttributeError)
        else
          var em :- EncodeMembers(fuel, defaults, StructName(r.dataType.token), d.retrievers, 0, []);
          var d' := d.(retrievers := em.1);
          var r' := r.(data := if r.data.List? then List(r.data.items[i := d']) else d');
          var res := EncodeItems(fuel, defaults, r', cat, len, i + 1, acc + em.0);
          assert res.Ok? && res.value.out.Some? ==> res.value.out.value[..|acc|] == (acc + em.0)[..|acc|];
          res
      else
        var bs :- EncodeElement(cat, len, d);
        var res := EncodeItems(fuel, defaults, r, cat, len, i + 1, acc + bs);
        assert res.Ok? && res.value.out.Some? ==> res.value.out.value[..|acc|] == (acc + bs)[..|acc|];
        res
  }

  /**
   * One struct member: its bytes, or, when it encodes to None, the bytes of
   * its default (KeyError without a default, TypeError when the default
   * encodes to None too); and the member as the encoder leaves it.
   */
  function EncodeMember(fuel: nat, defaults: Defaults, sname: string, m: Retriever): (res: Result<(seq<byte>, Retriever), Error>)
    requires fuel > 0
    ensures res.Ok? ==> FrameOf(res.value.1) == FrameOf(m)
    decreases fuel, 0, 0
  {
    var e :- Encode(fuel - 1, defaults, m);
    if e.out.Some? then Ok((e.out.value, e.r))
    else if sname !in defaults || m.name !in defaults[sname] then Err(KeyError)
    else
      var e2 :- Encode(fuel - 1, defaults, e.r.(data := defaults[sname][m.name]));
      if e2.out.None? then Err(TypeError)
      else Ok((e2.out.value, e2.r))
  }

  /** The loop over a struct's members from the k-th on, with the bytes `acc` so far. */
  function EncodeMembers(fuel: nat, defaults: Defaults, sname: string, ms: seq<Retriever>, k: nat, acc: seq<byte>)
    : (res: Result<(seq<byte>, seq<Retriever>), Error>)
    requires fuel > 0
    ensures res.Ok? ==> |res.value.1| == |ms| && forall j :: 0 <= j < |ms| ==> FrameOf(res.value.1[j]) == FrameOf(ms[j])
    ensures res.Ok? ==> forall j :: 0 <= j < k && j < |ms| ==> res.value.1[j] == ms[j]
    decreases fuel, 0, |ms| - k
  {
    if k >= |ms| then Ok((acc, ms))
    else
      var em :- EncodeMember(fuel, defaults, sname, ms[k]);
      EncodeMembers(fuel, defaults, sname, ms[k := em.1], k + 1, acc + em.0)
  }

  /** `retriever_to_bytes`, proved to compute `Encode`. */
  method RetrieverToBytes(fuel: nat, defaults: Defaults, r: Retriever) returns (res: Result<Encoded, Error>)
    ensures res == Encode(fuel, defaults, r)
    decreases fuel, 2
  {
    if fuel == 0 {
      return Err(RecursionError);
    }
    var t := TypeToLength(r.dataType.token);
    if t.Err? {
      return Err(t.error);
    }
    var (cat, len) := t.value;
    var cur := r.(dataType := r.dataType.(repeat := RepeatFor(r)));
    var acc: seq<byte> := [];
    var i: nat := 0;
    while i < Count(cur.dataType.repeat)
      invariant cur.dataType == r.dataType.(repeat := RepeatFor(r))
      invariant cur.data.List? ==> |cur.data.items| == cur.dataType.repeat
      invariant Encode(fuel, defaults, r) == EncodeItems(fuel, defaults, cur, cat, len, i, acc)
      decreases Count(cur.dataType.repeat) - i
    {
      var d := ItemAt(cur, i);
      if d.Nothing? {
        return Ok(Encoded(None, cur));
      }
      if cat == Struct {
        if !d.Part? {
          return Err(AttributeError);
        }
        var em := MembersToBytes(fuel, defaults, StructName(cur.dataType.token), d.retrievers);
        if em.Err? {
          return Err(em.error);
        }
        var d' := d.(retrievers := em.value.1);
        cur := cur.(data := if cur.data.List? then List(cur.data.items[i := d']) else d');
        acc := acc + em.value.0;
      } else {
        var bs := EncodeElement(cat, len, d);
        if bs.Err? {
          return Err(bs.error);
        }
        acc := acc + bs.value;
      }
      i := i + 1;
    }
    res := Ok(Encoded(Some(acc), cur));
  }

  /** One struct member, as the member loop of `retriever_to_bytes` encodes it. */
  method MemberToBytes(fuel: nat, defaults: Defaults, sname: string, m: Retriever)
    returns (res: Result<(seq<byte>, Retriever), Error>)
    requires fuel > 0
    ensures res == EncodeMember(fuel, defaults, sname, m)
    decreases fuel, 0
  {
    var e := RetrieverToBytes(fuel - 1, defaults, m);
    if e.Err? {
      return Err(e.error);
    }
    if e.value.out.Some? {
      return Ok((e.value.out.value, e.value.r));
    }
    if sname !in defaults || m.name !in defaults[sname] {
      return Err(KeyError);
    }
    var e2 := RetrieverToBytes(fuel - 1, defaults, e.value.r.(data := defaults[sname][m.name]));
    if e2.Err? {
      return Err(e2.error);
    }
    if e2.value.out.None? {
      return Err(TypeError);
    }
    res := Ok((e2.value.out.value, e2.value.r));
  }

  /** The member loop of `retriever_to_bytes` for one struct instance. */
  method MembersToBytes(fuel: nat, defaults: Defaults, sname: string, ms: seq<Retriever>)
    returns (res: Result<(seq<byte>, seq<Retriever>), Error>)
    requires fuel > 0
    ensures res == EncodeMembers(fuel, defaults, sname, ms, 0, [])
    decreases fuel, 1
  {
    var cur := ms;
    var acc: seq<byte> := [];
    var k := 0;
    while k < |cur|
      invariant |cur| == |ms|
      invariant EncodeMembers(fuel, defaults, sname, ms, 0, []) == EncodeMembers(fuel, defaults, sname, cur, k, acc)
      decreases |cur| - k
    {
      var em := MemberToBytes(fuel, defaults, sname, cur[k]);
      if em.Err? {
        return Err(em.error);
      }
      acc := acc + em.value.0;
      cur := cur[k := em.value.1];
      k := k + 1;
    }
    res := Ok((acc, cur));
  }

  // ---------------------------------------------------------------------
  // Properties of retriever_to_bytes

  /**
   * A value the category can hold without loss: an integer within the width,
   * exactly `len` bytes for floats, fixed chars and raw data, and a string
   * whose length fits the signed prefix.
   */
  predicate FitsWidth(cat: Category, len: nat, v: Value) {
    if cat == Signed || cat == Unsigned then v.Int? && InRange(v.i, len, cat == Signed)
    else if cat == Category.Float then v.Float? && |v.bits| == len
    else if cat == Chars then v.Text? && |v.chars| == len
    else if cat == Data then v.Raw? && |v.bytes| == len
    else if cat == Str then v.Text? && InRange(|v.chars|, len, true)
    else false
  }

  /** What the encoder writes for one value is one whole value's bytes, and decodes to the value. */
  lemma ElementDecodes(cat: Category, len: nat, v: Value)
    requires FitsWidth(cat, len, v)
    requires EncodeElement(cat, len, v).Ok?
    ensures var bs := EncodeElement(cat, len, v).value;
      IsElement(cat, len, bs) && DecodeElement(cat, len, bs) == v
  {
    if cat == Signed || cat == Unsigned {
      DecodeEncodeInt(v.i, len, cat == Signed);
    } else if cat == Str {
      var bs := EncodeElement(cat, len, v).value;
      var prefix := EncodeInt(|v.chars|, len, true).value;
      DecodeEncodeInt(|v.chars|, len, true);
      assert bs[..len] == prefix && bs[len..] == v.chars;
    }
  }

  /** Reading back what the encoder wrote for one value gives its bytes and then the value. */
  lemma ElementRoundTrip(cat: Category, len: nat, v: Value, bytes: seq<byte>, pos: nat)
    requires FitsWidth(cat, len, v)
    requires EncodeElement(cat, len, v).Ok?
    requires var bs := EncodeElement(cat, len, v).value;
      pos + |bs| <= |bytes| && bytes[pos..pos + |bs|] == bs
    ensures var bs := EncodeElement(cat, len, v).value;
      ReadElement(bytes, pos, cat, len) == (Some(bs), pos + |bs|) && DecodeElement(cat, len, bs) == v
  {
    ElementDecodes(cat, len, v);
    ReadWholeElement(bytes, pos, cat, len, EncodeElement(cat, len, v).value);
  }

  /** Every value of the field can be encoded without loss. */
  lemma FitsEncodes(cat: Category, len: nat, v: Value)
    requires FitsWidth(cat, len, v)
    ensures EncodeElement(cat, len, v).Ok?
  {
  }

  /**
   * Decoding one value's bytes and encoding the value again gives the same
   * bytes, exactly when the value is not a `str` with a negative length prefix.
   */
  lemma ElementDecodeEncode(cat: Category, len: nat, c: seq<byte>)
    requires cat != Struct && IsElement(cat, len, c)
    ensures EncodeElement(cat, len, DecodeElement(cat, len, c)) == Ok(c) <==> !NegativePrefix(cat, len, c)
  {
    if cat == Signed || cat == Unsigned {
      EncodeDecodeInt(c, cat == Signed);
    } else if cat == Str {
      var head := c[..len];
      EncodeDecodeInt(head, true);
      if DecodeInt(head, true) >= 0 {
        assert c == head + c[len..];
      } else {
        assert c[len..] == [] && c[..len] == c;
        DecodeEncodeInt(0, len, true);
        assert DecodeInt(EncodeInt(0, len, true).value, true) == 0;
        assert EncodeElement(cat, len, DecodeElement(cat, len, c)) == Ok(EncodeInt(0, len, true).value + []);
      }
    }
  }

  lemma ConcatFrom(cs: seq<seq<byte>>, i: nat)
    requires i < |cs|
    ensures Concat(cs[i..]) == cs[i] + Concat(cs[i + 1..])
  {
    assert cs[i..][0] == cs[i] && cs[i..][1..] == cs[i + 1..];
  }

  /** A non-struct value that encodes to c: the loop goes on from the next value with c appended. */
  lemma EncodeItemsNext(fuel: nat, defaults: Defaults, r: Retriever, cat: Category, len: nat, i: nat, acc: seq<byte>, c: seq<byte>)
    requires fuel > 0 && cat != Struct && i < Count(r.dataType.repeat)
    requires r.data.List? ==> |r.data.items| == r.dataType.repeat
    requires EncodeElement(cat, len, ItemAt(r, i)) == Ok(c)
    ensures EncodeItems(fuel, defaults, r, cat, len, i, acc) == EncodeItems(fuel, defaults, r, cat, len, i + 1, acc + c)
  {
  }

  /** The value loop, when every value from the i-th on encodes to its chunk. */
  lemma {:induction false} EncodeItemsOk(fuel: nat, defaults: Defaults, r: Retriever, cat: Category, len: nat, i: nat, acc: seq<byte>, cs: seq<seq<byte>>)
    requires fuel > 0 && cat != Struct && i <= |cs|
    requires r.data.List? ==> |r.data.items| == r.dataType.repeat
    requires |cs| == Count(r.dataType.repeat)
    requires forall j :: i <= j < |cs| ==> EncodeElement(cat, len, ItemAt(r, j)) == Ok(cs[j])
    ensures EncodeItems(fuel, defaults, r, cat, len, i, acc) == Ok(Encoded(Some(acc + Concat(cs[i..])), r))
    decreases |cs| - i
  {
    if i < |cs| {
      EncodeItemsNext(fuel, defaults, r, cat, len, i, acc, cs[i]);
      EncodeItemsOk(fuel, defaults, r, cat, len, i + 1, acc + cs[i], cs);
      ConcatFrom(cs, i);
      assert acc + cs[i] + Concat(cs[i + 1..]) == acc + Concat(cs[i..]);
    } else {
      assert cs[i..] == [] && acc + [] == acc;
    }
  }

  /** The retriever as the encoder leaves it: repeat reset to the list's length. */
  function Repeated(r: Retriever): Retriever {
    r.(dataType := r.dataType.(repeat := RepeatFor(r)))
  }

  /**
   * A non-struct field whose values encode to the chunks cs is the
   * concatenation of the chunks; the retriever keeps its data.
   */
  lemma EncodeField(fuel: nat, defaults: Defaults, r: Retriever, cs: seq<seq<byte>>)
    requires fuel > 0 && TypeToLength(r.dataType.token).Ok?
    requires var (cat, len) := TypeToLength(r.dataType.token).value;
      cat != Struct && |cs| == Count(RepeatFor(r)) &&
      forall j :: 0 <= j < |cs| ==> EncodeElement(cat, len, ItemAt(Repeated(r), j)) == Ok(cs[j])
    ensures Encode(fuel, defaults, r) == Ok(Encoded(Some(Concat(cs)), Repeated(r)))
  {
    var (cat, len) := TypeToLength(r.dataType.token).value;
    EncodeItemsOk(fuel, defaults, Repeated(r), cat, len, 0, [], cs);
    assert cs[0..] == cs && [] + Concat(cs) == Concat(cs);
  }

  /** A `data` field passes its bytes through unchanged, list element by list element. */
  lemma DataPassthrough(fuel: nat, defaults: Defaults, r: Retriever, chunks: seq<seq<byte>>)
    requires fuel > 0 && TypeToLength(r.dataType.token).Ok? && TypeToLength(r.dataType.token).value.0 == Data
    requires r.data == List(seq(|chunks|, i requires 0 <= i < |chunks| => Raw(chunks[i])))
    ensures Encode(fuel, defaults, r) == Ok(Encoded(Some(Concat(chunks)), Repeated(r)))
  {
    EncodeField(fuel, defaults, r, chunks);
  }

  /** The value loop stops with None at the first missing value. */
  lemma {:induction false} EncodeItemsMissing(fuel: nat, defaults: Defaults, r: Retriever, cat: Category, len: nat, i: nat, acc: seq<byte>, k: nat)
    requires fuel > 0 && cat != Struct && i <= k < Count(r.dataType.repeat)
    requires r.data.List? ==> |r.data.items| == r.dataType.repeat
    requires forall j :: i <= j < k ==> EncodeElement(cat, len, ItemAt(r, j)).Ok?
    requires ItemAt(r, k).Nothing?
    ensures EncodeItems(fuel, defaults, r, cat, len, i, acc) == Ok(Encoded(None, r))
    decreases k - i
  {
    if i < k {
      EncodeItemsMissing(fuel, defaults, r, cat, len, i + 1, acc + EncodeElement(cat, len, ItemAt(r, i)).value, k);
    }
  }

  /**
   * A field with a missing (None) value encodes to None, whatever it holds
   * after it, as long as the values before it encode.
   */
  lemma MissingValueGivesNone(fuel: nat, defaults: Defaults, r: Retriever, k: nat)
    requires fuel > 0 && TypeToLength(r.dataType.token).Ok?
    requires var (cat, len) := TypeToLength(r.dataType.token).value;
      cat != Struct && k < Count(RepeatFor(r)) && ItemAt(Repeated(r), k).Nothing? &&
      forall j :: 0 <= j < k ==> EncodeElement(cat, len, ItemAt(Repeated(r), j)).Ok?
    ensures Encode(fuel, defaults, r) == Ok(Encoded(None, Repeated(r)))
  {
    var (cat, len) := TypeToLength(r.dataType.token).value;
    EncodeItemsMissing(fuel, defaults, Repeated(r), cat, len, 0, [], k);
  }

  lemma SliceOfConcat(bytes: seq<byte>, pos: nat, x: seq<byte>, y: seq<byte>)
    requires pos + |x + y| <= |bytes| && bytes[pos..pos + |x + y|] == x + y
    ensures bytes[pos..pos + |x|] == x
    ensures bytes[pos + |x|..pos + |x| + |y|] == y
  {
    assert bytes[pos..pos + |x|] == (x + y)[..|x|];
    assert bytes[pos + |x|..pos + |x| + |y|] == (x + y)[|x|..];
  }

  /** The chunks the encoder writes for values that fit the width. */
  function EncodeAll(cat: Category, len: nat, vs: seq<Value>): (cs: seq<seq<byte>>)
    requires forall j :: 0 <= j < |vs| ==> FitsWidth(cat, len, vs[j])
    ensures |cs| == |vs| && forall j :: 0 <= j < |vs| ==> EncodeElement(cat, len, vs[j]) == Ok(cs[j])
  {
    if vs == [] then []
    else
      FitsEncodes(cat, len, vs[0]);
      [EncodeElement(cat, len, vs[0]).value] + EncodeAll(cat, len, vs[1..])
  }

  /** One more chunk in front of a successful read. */
  lemma ReadChunksCons(bytes: seq<byte>, pos: nat, cat: Category, len: nat, c: seq<byte>, p: nat, t: seq<seq<byte>>, q: nat)
    requires pos <= |bytes| && ReadElement(bytes, pos, cat, len) == (Some(c), p)
    requires ReadChunks(bytes, p, cat, len, |t|) == Reading(Ok(t), q)
    ensures ReadChunks(bytes, pos, cat, len, |t| + 1) == Reading(Ok([c] + t), q)
  {
  }

  /** One whole value's bytes, wherever a stream holds them, read back as exactly those bytes. */
  lemma ReadWholeElement(bytes: seq<byte>, pos: nat, cat: Category, len: nat, c: seq<byte>)
    requires IsElement(cat, len, c) && pos + |c| <= |bytes| && bytes[pos..pos + |c|] == c
    ensures ReadElement(bytes, pos, cat, len) == (Some(c), pos + |c|)
  {
    assert bytes[pos..pos + len] == c[..len];
    if cat == Str {
      assert bytes[pos + len..pos + |c|] == c[len..];
      assert c == c[..len] + c[len..];
    }
  }

  /** Reading back whole values' bytes, from any position of any stream that holds them. */
  lemma {:induction false} ReadBackChunks(cat: Category, len: nat, cs: seq<seq<byte>>, bytes: seq<byte>, pos: nat)
    requires forall j :: 0 <= j < |cs| ==> IsElement(cat, len, cs[j])
    requires pos + |Concat(cs)| <= |bytes| && bytes[pos..pos + |Concat(cs)|] == Concat(cs)
    ensures ReadChunks(bytes, pos, cat, len, |cs|) == Reading(Ok(cs), pos + |Concat(cs)|)
  {
    if cs != [] {
      var c, t := cs[0], cs[1..];
      var p := pos + |c|;
      var q := p + |Concat(t)|;
      assert Concat(cs) == c + Concat(t);
      SliceOfConcat(bytes, pos, c, Concat(t));
      ReadWholeElement(bytes, pos, cat, len, c);
      ReadBackChunks(cat, len, t, bytes, p);
      ReadChunksCons(bytes, pos, cat, len, c, p, t, q);
      assert [c] + t == cs;
    }
  }

  /** The values of a field as the encoder visits them. */
  function FieldValues(r: Retriever): (vs: seq<Value>)
    ensures |vs| == Count(RepeatFor(r))
  {
    if r.data.List? then r.data.items else seq(Count(r.dataType.repeat), i => r.data)
  }

  /**
   * Encode then decode: a non-struct field whose values fit the width encodes
   * to bytes that `retrieve_bytes` reads back, value by value and to the last
   * byte, and that `parse_bytes` decodes to the same values; a fixed-width
   * field takes repeat times the width.
   */
  lemma EncodeThenRead(fuel: nat, defaults: Defaults, r: Retriever, rest: seq<byte>)
    requires fuel > 0 && TypeToLength(r.dataType.token).Ok?
    requires var (cat, len) := TypeToLength(r.dataType.token).value;
      cat != Struct && forall j :: 0 <= j < |FieldValues(r)| ==> FitsWidth(cat, len, FieldValues(r)[j])
    ensures var e := Encode(fuel, defaults, r);
      var (cat, len) := TypeToLength(r.dataType.token).value;
      e.Ok? && e.value.out.Some? && e.value.r == Repeated(r) &&
      var out := e.value.out.value;
      var rd := BytesRetrieval(out + rest, 0, e.value.r);
      rd.chunks.Ok? && rd.pos == |out| &&
      DecodeAll(cat, len, rd.chunks.value) == FieldValues(r) &&
      ParseBytes(e.value.r, rd.chunks.value) == Ok(Vorl(List(FieldValues(r)), e.value.r)) &&
      (cat != Str ==> |out| == Count(RepeatFor(r)) * len)
  {
    var (cat, len) := TypeToLength(r.dataType.token).value;
    var vs := FieldValues(r);
    var cs := EncodeAll(cat, len, vs);
    EncodeFieldValues(fuel, defaults, r);
    var out := Concat(cs);
    ReadAllBack(cat, len, vs, rest);
    if cat != Str {
      LengthAccounting(cat, len, cs);
    }
  }

  /** The field's bytes are the chunks of its values. */
  lemma EncodeFieldValues(fuel: nat, defaults: Defaults, r: Retriever)
    requires fuel > 0 && TypeToLength(r.dataType.token).Ok?
    requires var (cat, len) := TypeToLength(r.dataType.token).value;
      cat != Struct && forall j :: 0 <= j < |FieldValues(r)| ==> FitsWidth(cat, len, FieldValues(r)[j])
    ensures var (cat, len) := TypeToLength(r.dataType.token).value;
      Encode(fuel, defaults, r) == Ok(Encoded(Some(Concat(EncodeAll(cat, len, FieldValues(r)))), Repeated(r)))
  {
    var (cat, len) := TypeToLength(r.dataType.token).value;
    var vs := FieldValues(r);
    assert forall j :: 0 <= j < |vs| ==> ItemAt(Repeated(r), j) == vs[j];
    EncodeField(fuel, defaults, r, EncodeAll(cat, len, vs));
  }

  /** The chunks of values that fit, followed by anything, read back and decode to the values. */
  lemma ReadAllBack(cat: Category, len: nat, vs: seq<Value>, rest: seq<byte>)
    requires cat != Struct && forall j :: 0 <= j < |vs| ==> FitsWidth(cat, len, vs[j])
    ensures var cs := EncodeAll(cat, len, vs);
      ReadChunks(Concat(cs) + rest, 0, cat, len, |vs|) == Reading(Ok(cs), |Concat(cs)|) &&
      DecodeAll(cat, len, cs) == vs
  {
    var cs := EncodeAll(cat, len, vs);
    var out := Concat(cs);
    forall j | 0 <= j < |cs| ensures DecodeElement(cat, len, cs[j]) == vs[j] && IsElement(cat, len, cs[j]) {
      ElementDecodes(cat, len, vs[j]);
    }
    assert (out + rest)[0..|out|] == out;
    ReadBackChunks(cat, len, cs, out + rest, 0);
  }

  /**
   * Decode then encode: writing back what `parse_bytes` made of the chunks
   * `retrieve_bytes` read gives the same bytes, provided no `str` prefix was
   * negative.
   */
  lemma ReadThenEncode(fuel: nat, defaults: Defaults, r: Retriever, cs: seq<seq<byte>>)
    requires fuel > 0 && TypeToLength(r.dataType.token).Ok?
    requires var (cat, len) := TypeToLength(r.dataType.token).value;
      cat != Struct && |cs| == Count(r.dataType.repeat) &&
      forall j :: 0 <= j < |cs| ==> IsElement(cat, len, cs[j]) && !NegativePrefix(cat, len, cs[j])
    ensures ParseBytes(r, cs).Ok?
    ensures Encode(fuel, defaults, r.(data := ParseBytes(r, cs).value)).Ok?
    ensures Encode(fuel, defaults, r.(data := ParseBytes(r, cs).value)).value.out == Some(Concat(cs))
  {
    var (cat, len) := TypeToLength(r.dataType.token).value;
    var xs := DecodeAll(cat, len, cs);
    var v := ParseBytes(r, cs).value;
    var r' := r.(data := v);
    assert v == Vorl(List(xs), r);
    ListifyVorl(xs, r);
    forall j | 0 <= j < |cs| ensures EncodeElement(cat, len, ItemAt(Repeated(r'), j)) == Ok(cs[j]) {
      ElementDecodeEncode(cat, len, cs[j]);
      assert ItemAt(Repeated(r'), j) == xs[j];
    }
    EncodeField(fuel, defaults, r', cs);
  }

  /** Encoding a non-struct field twice: the second time finds the retriever as the first left it. */
  lemma EncodeStable(fuel: nat, defaults: Defaults, r: Retriever)
    requires !IsStructToken(r.dataType.token) && Encode(fuel, defaults, r).Ok?
    ensures Encode(fuel, defaults, r).value.r == Repeated(r)
    ensures Encode(fuel, defaults, Repeated(r)) == Encode(fuel, defaults, r)
  {
    assert Repeated(Repeated(r)) == Repeated(r);
  }

  /** A member, once encoded with its default filled in, encodes to the same bytes without it. */
  lemma MemberStable(fuel: nat, defaults: Defaults, sname: string, m: Retriever)
    requires fuel > 0 && !IsStructToken(m.dataType.token)
    requires EncodeMember(fuel, defaults, sname, m).Ok?
    ensures var (b, m') := EncodeMember(fuel, defaults, sname, m).value;
      EncodeMember(fuel, defaults, sname, m') == Ok((b, m')) &&
      Encode(fuel - 1, defaults, m).Ok? &&
      (Encode(fuel - 1, defaults, m).value.out.Some? ==> m'.data == m.data) &&
      (Encode(fuel - 1, defaults, m).value.out.None? ==>
        sname in defaults && m.name in defaults[sname] && m'.data == defaults[sname][m.name])
  {
    EncodeStable(fuel - 1, defaults, m);
    if Encode(fuel - 1, defaults, m).value.out.Some? {
      MemberStableOwn(fuel, defaults, sname, m);
    } else {
      MemberStableDefault(fuel, defaults, sname, m);
    }
  }

  /** A member that encodes by itself comes back as `Repeated(m)`, which encodes the same. */
  lemma MemberStableOwn(fuel: nat, defaults: Defaults, sname: string, m: Retriever)
    requires fuel > 0 && !IsStructToken(m.dataType.token)
    requires Encode(fuel - 1, defaults, m).Ok? && Encode(fuel - 1, defaults, m).value.out.Some?
    ensures EncodeMember(fuel, defaults, sname, m) == Ok((Encode(fuel - 1, defaults, m).value.out.value, Repeated(m)))
    ensures EncodeMember(fuel, defaults, sname, Repeated(m)) == EncodeMember(fuel, defaults, sname, m)
  {
    EncodeStable(fuel - 1, defaults, m);
  }

  /** A member that encodes to None comes back holding its default, and then encodes by itself. */
  lemma MemberStableDefault(fuel: nat, defaults: Defaults, sname: string, m: Retriever)
    requires fuel > 0 && !IsStructToken(m.dataType.token)
    requires Encode(fuel - 1, defaults, m).Ok? && Encode(fuel - 1, defaults, m).value.out.None?
    requires EncodeMember(fuel, defaults, sname, m).Ok?
    ensures sname in defaults && m.name in defaults[sname]
    ensures var m2 := Repeated(m).(data := defaults[sname][m.name]);
      Encode(fuel - 1, defaults, m2).Ok? && Encode(fuel - 1, defaults, m2).value.out.Some? &&
      EncodeMember(fuel, defaults, sname, m) == Ok((Encode(fuel - 1, defaults, m2).value.out.value, Repeated(m2))) &&
      EncodeMember(fuel, defaults, sname, Repeated(m2)) == EncodeMember(fuel, defaults, sname, m)
  {
    EncodeStable(fuel - 1, defaults, m);
    var m2 := Repeated(m).(data := defaults[sname][m.name]);
    EncodeStable(fuel - 1, defaults, m2);
  }

  /**
   * Defaults for a struct whose members are not structs: every member that
   * encoded to None ends holding its default, every other keeps its data, and
   * encoding the updated members again gives the same bytes and consults no
   * default.
   */
  lemma StructDefaultsFilled(fuel: nat, defaults: Defaults, sname: string, ms: seq<Retriever>, k: nat, acc: seq<byte>)
    requires fuel > 0 && k <= |ms|
    requires forall j :: k <= j < |ms| ==> !IsStructToken(ms[j].dataType.token)
    requires EncodeMembers(fuel, defaults, sname, ms, k, acc).Ok?
    ensures var res := EncodeMembers(fuel, defaults, sname, ms, k, acc).value;
      (forall j :: k <= j < |ms| ==>
        Encode(fuel - 1, defaults, ms[j]).Ok? &&
        (Encode(fuel - 1, defaults, ms[j]).value.out.Some? ==> res.1[j].data == ms[j].data) &&
        (Encode(fuel - 1, defaults, ms[j]).value.out.None? ==>
          sname in defaults && ms[j].name in defaults[sname] && res.1[j].data == defaults[sname][ms[j].name])) &&
      EncodeMembers(fuel, defaults, sname, res.1, k, acc) == Ok(res)
  {
    MembersStable(fuel, defaults, sname, ms, k, acc);
    var res := EncodeMembers(fuel, defaults, sname, ms, k, acc).value;
    forall j | k <= j < |ms| ensures TookDefault(fuel, defaults, sname, ms[j], res.1[j]) {
      MemberTakesDefaultIn(fuel, defaults, sname, ms, k, acc, j);
    }
  }

  /** One member of the loop encoded: the loop goes on from the next one. */
  lemma EncodeMembersNext(fuel: nat, defaults: Defaults, sname: string, ms: seq<Retriever>, k: nat, acc: seq<byte>,
                          b: seq<byte>, m': Retriever)
    requires fuel > 0 && k < |ms| && EncodeMember(fuel, defaults, sname, ms[k]) == Ok((b, m'))
    ensures EncodeMembers(fuel, defaults, sname, ms, k, acc) == EncodeMembers(fuel, defaults, sname, ms[k := m'], k + 1, acc + b)
  {
  }

  /** Member m, once encoded, holds m2's data: its own if it encoded, otherwise its default. */
  predicate TookDefault(fuel: nat, defaults: Defaults, sname: string, m: Retriever, m2: Retriever)
    requires fuel > 0
  {
    Encode(fuel - 1, defaults, m).Ok? &&
    (Encode(fuel - 1, defaults, m).value.out.Some? ==> m2.data == m.data) &&
    (Encode(fuel - 1, defaults, m).value.out.None? ==>
      sname in defaults && m.name in defaults[sname] && m2.data == defaults[sname][m.name])
  }

  /** One member encoded in the loop holds its own data if it encoded, otherwise its default. */
  lemma MemberTakesDefault(fuel: nat, defaults: Defaults, sname: string, m: Retriever)
    requires fuel > 0 && !IsStructToken(m.dataType.token)
    requires EncodeMember(fuel, defaults, sname, m).Ok?
    ensures TookDefault(fuel, defaults, sname, m, EncodeMember(fuel, defaults, sname, m).value.1)
  {
    EncodeStable(fuel - 1, defaults, m);
  }

  /** The data member j ends with. */
  lemma {:induction false} MemberTakesDefaultIn(fuel: nat, defaults: Defaults, sname: string, ms: seq<Retriever>, k: nat, acc: seq<byte>, j: nat)
    requires fuel > 0 && k <= j < |ms| && !IsStructToken(ms[j].dataType.token)
    requires EncodeMembers(fuel, defaults, sname, ms, k, acc).Ok?
    ensures TookDefault(fuel, defaults, sname, ms[j], EncodeMembers(fuel, defaults, sname, ms, k, acc).value.1[j])
    decreases |ms| - k
  {
    var (b, m') := EncodeMember(fuel, defaults, sname, ms[k]).value;
    var ms1 := ms[k := m'];
    EncodeMembersNext(fuel, defaults, sname, ms, k, acc, b, m');
    var res := EncodeMembers(fuel, defaults, sname, ms1, k + 1, acc + b).value;
    if j == k {
      MemberTakesDefault(fuel, defaults, sname, ms[k]);
      assert res.1[k] == m';
    } else {
      assert ms1[j] == ms[j];
      MemberTakesDefaultIn(fuel, defaults, sname, ms1, k + 1, acc + b, j);
    }
  }

  /** Encoding the members as they were left gives the same bytes and members again. */
  lemma {:induction false} MembersStable(fuel: nat, defaults: Defaults, sname: string, ms: seq<Retriever>, k: nat, acc: seq<byte>)
    requires fuel > 0 && k <= |ms|
    requires forall j :: k <= j < |ms| ==> !IsStructToken(ms[j].dataType.token)
    requires EncodeMembers(fuel, defaults, sname, ms, k, acc).Ok?
    ensures var res := EncodeMembers(fuel, defaults, sname, ms, k, acc).value;
      EncodeMembers(fuel, defaults, sname, res.1, k, acc) == Ok(res)
    decreases |ms| - k
  {
    if k < |ms| {
      var (b, m') := EncodeMember(fuel, defaults, sname, ms[k]).value;
      var ms1 := ms[k := m'];
      EncodeMembersNext(fuel, defaults, sname, ms, k, acc, b, m');
      MemberStable(fuel, defaults, sname, ms[k]);
      MembersStable(fuel, defaults, sname, ms1, k + 1, acc + b);
      var res := EncodeMembers(fuel, defaults, sname, ms1, k + 1, acc + b).value;
      assert res.1[k := m'] == res.1;
      EncodeMembersNext(fuel, defaults, sname, res.1, k, acc, b, m');
    }
  }
}
