/**
 * `AoE2FilePart`: one section of a scenario file, an ordered list of
 * retrievers filled from the byte generator field by field. A struct field
 * holds clones of a struct template, each filled the same way in turn.
 *
 * The section's own retrievers are the `here` list of a `Store`; the other
 * registered sections (`pieces`) are an object whose retriever lists the
 * dependency hooks may change.
 */
module FilePart {
  import opened Wrappers
  import opened Errors
  import opened Bytes
  import opened TypeResolver
  import opened Values
  import opened Dependencies
  import opened FieldDecoder

  /** Class-level `dependencies`: hook lists by retriever name, then by hook attribute. */
  type ClassDependencies = map<string, map<Phase, seq<Hook>>>

  /** `struct_models`: the retriever template of each struct, by struct name. */
  type StructModels = map<string, seq<Retriever>>

  /** The registered sections, by name: the `pieces` dictionary. */
  class Pieces {
    var sections: map<string, seq<Retriever>>

    constructor (sections: map<string, seq<Retriever>>)
      ensures this.sections == sections
    {
      this.sections := sections;
    }
  }

  /** The frames of every registered section's retrievers. */
  function PiecesFrames(p: map<string, seq<Retriever>>): map<string, seq<Frame>> {
    map k | k in p :: Frames(p[k])
  }

  lemma ShapeFromParts(a: Store, b: Store)
    requires Frames(a.here) == Frames(b.here) && PiecesFrames(a.pieces) == PiecesFrames(b.pieces)
    ensures Shape(a) == Shape(b)
  {
  }

  lemma ShapeParts(a: Store, b: Store)
    requires Shape(a) == Shape(b)
    ensures Frames(a.here) == Frames(b.here) && PiecesFrames(a.pieces) == PiecesFrames(b.pieces)
    ensures |a.here| == |b.here|
  {
    assert Shape(a).0 == Shape(b).0 && Shape(a).1 == Shape(b).1;
    assert |Frames(a.here)| == |a.here| && |Frames(b.here)| == |b.here|;
  }

  // ---------------------------------------------------------------------
  // __init__ and from_structure

  /**
   * A retriever with the class's dependencies for its name attached: each
   * listed hook attribute is set to the given hooks, replacing any it had.
   */
  function Attach(r: Retriever, deps: ClassDependencies): (a: Retriever)
    ensures a.name == r.name && a.dataType == r.dataType && a.data == r.data && a.possiblyList == r.possiblyList
    ensures r.name in deps ==> forall p :: p in deps[r.name] ==> p in a.hooks && a.hooks[p] == deps[r.name][p]
    ensures forall p :: p in r.hooks && (r.name !in deps || p !in deps[r.name]) ==> p in a.hooks && a.hooks[p] == r.hooks[p]
    ensures forall p :: p in a.hooks ==> p in r.hooks || (r.name in deps && p in deps[r.name])
    ensures r.name !in deps ==> a == r
  {
    if r.name in deps then r.(hooks := r.hooks + deps[r.name]) else r
  }

  /** One entry of a structure's `retrievers` description: a name, a type token and an optional repeat. */
  datatype Entry = Entry(name: string, token: string, repeat: Option<int>)

  /** The retriever `from_structure` builds for an entry: no data, no hooks, repeat 1 unless given. */
  function EntryRetriever(e: Entry): Retriever {
    Retriever(e.name, DataType(e.token, e.repeat.GetOr(1)), Nothing, map[], true)
  }

  /** `structure.get('retrievers', {})`. */
  function EntriesOf(structure: Option<seq<Entry>>): seq<Entry> {
    structure.GetOr([])
  }

  /** The loop of `from_structure`: one retriever per entry, in order. */
  method BuildRetrievers(entries: seq<Entry>) returns (rs: seq<Retriever>)
    ensures |rs| == |entries|
    ensures forall i :: 0 <= i < |rs| ==> rs[i] == EntryRetriever(entries[i])
  {
    rs := [];
    var i := 0;
    while i < |entries|
      invariant i <= |entries| && |rs| == i
      invariant forall j :: 0 <= j < i ==> rs[j] == EntryRetriever(entries[j])
    {
      rs := rs + [EntryRetriever(entries[i])];
      i := i + 1;
    }
  }

  // ---------------------------------------------------------------------
  // __getattr__ and __setattr__

  /**
   * Attribute lookup on a section: the instance's own attributes first, then
   * `__getattr__`, the data of the first retriever of that name; otherwise
   * AttributeError.
   */
  function Lookup(rs: seq<Retriever>, attrs: map<string, Value>, item: string): Result<Value, Error> {
    if item in attrs then Ok(attrs[item])
    else match FindRetriever(rs, item)
      case Some(i) => Ok(rs[i].data)
      case None => Err(AttributeError)
  }

  /**
   * `__setattr__` on a section: the data of the first retriever of that name,
   * or else an attribute of the instance's own.
   */
  function Assign(rs: seq<Retriever>, attrs: map<string, Value>, name: string, v: Value): (seq<Retriever>, map<string, Value>) {
    match FindRetriever(rs, name)
    case Some(i) => (rs[i := rs[i].(data := v)], attrs)
    case None => (rs, attrs[name := v])
  }

  /** No attribute of the instance's own has the name of a retriever. */
  predicate NoShadow(rs: seq<Retriever>, attrs: map<string, Value>) {
    forall k :: k in attrs ==> FindRetriever(rs, k).None?
  }

  lemma NoShadowFrames(a: seq<Retriever>, b: seq<Retriever>, attrs: map<string, Value>)
    requires Frames(a) == Frames(b) && NoShadow(a, attrs)
    ensures NoShadow(b, attrs)
  {
    forall k | k in attrs ensures FindRetriever(b, k).None? {
      FindRetrieverFrames(a, b, k);
    }
  }

  /** Assigning an attribute changes data only: every retriever keeps its frame. */
  lemma AssignKeepsFrames(rs: seq<Retriever>, attrs: map<string, Value>, name: string, v: Value)
    ensures Frames(Assign(rs, attrs, name, v).0) == Frames(rs)
  {
    match FindRetriever(rs, name)
    case Some(i) =>
      assert Frames(rs[i := rs[i].(data := v)]) == Frames(rs);
    case None =>
  }

  /** Reading an attribute back after assigning it gives the value assigned, and keeps the invariant. */
  lemma GetAfterSet(rs: seq<Retriever>, attrs: map<string, Value>, name: string, v: Value)
    requires NoShadow(rs, attrs)
    ensures var (rs', attrs') := Assign(rs, attrs, name, v);
      Lookup(rs', attrs', name) == Ok(v) && NoShadow(rs', attrs')
  {
    var (rs', attrs') := Assign(rs, attrs, name, v);
    AssignKeepsFrames(rs, attrs, name, v);
    FindRetrieverFrames(rs, rs', name);
    match FindRetriever(rs, name)
    case Some(i) =>
      NoShadowFrames(rs, rs', attrs);
    case None =>
      forall k | k in attrs' ensures FindRetriever(rs', k).None? {
        if k != name {
          assert k in attrs;
        }
      }
  }

  /** Assigning one attribute leaves every other attribute as it was. */
  lemma SetLeavesOthers(rs: seq<Retriever>, attrs: map<string, Value>, name: string, v: Value, other: string)
    requires other != name
    ensures var (rs', attrs') := Assign(rs, attrs, name, v);
      Lookup(rs', attrs', other) == Lookup(rs, attrs, other)
  {
    var (rs', attrs') := Assign(rs, attrs, name, v);
    AssignKeepsFrames(rs, attrs, name, v);
    FindRetrieverFrames(rs, rs', other);
  }

  // ---------------------------------------------------------------------
  // set_data

  /** Retriever i of the section with the data of position i assigned. */
  function WithData(rs: seq<Retriever>, data: seq<Value>, i: nat): (out: seq<Retriever>)
    requires |data| == |rs| && i <= |rs|
    ensures |out| == |rs| && Frames(out) == Frames(rs)
  {
    var out := seq(|rs|, j requires 0 <= j < |rs| => if j < i then rs[j].(data := data[j]) else rs[j]);
    assert Frames(out) == Frames(rs);
    out
  }

  /**
   * The loop of `set_data` from position i: assign the data, then run the
   * retriever's construct hooks if it has any.
   */
  function Fill(fuel: nat, data: seq<Value>, st: Store, i: nat): (r: Result<Store, Error>)
    requires |data| == |st.here| && i <= |st.here|
    ensures r.Ok? ==> Shape(r.value) == Shape(st)
    decreases |st.here| - i
  {
    if i == |st.here| then Ok(st)
    else
      var r := st.here[i].(data := data[i]);
      PutKeepsShape(st, Here, i, r);
      var st1 := st.Put(Here, i, r);
      var st2 :- if OnConstruct in r.hooks then Resolve(fuel, st1, Here, i, "construct") else Ok(st1);
      ShapeParts(st2, st);
      Fill(fuel, data, st2, i + 1)
  }

  /** `set_data`: ValueError unless there is exactly one value per retriever. */
  function SetDataSpec(fuel: nat, data: seq<Value>, st: Store): (r: Result<Store, Error>)
    ensures |data| != |st.here| ==> r == Err(DataSizeMismatch)
    ensures r.Ok? ==> |data| == |st.here| && Shape(r.value) == Shape(st)
  {
    if |data| != |st.here| then Err(DataSizeMismatch) else Fill(fuel, data, st, 0)
  }

  /** No retriever of the list has construct hooks. */
  predicate NoConstructHooks(rs: seq<Retriever>) {
    forall j :: 0 <= j < |rs| ==> OnConstruct !in rs[j].hooks
  }

  lemma {:induction false} FillPlain(fuel: nat, data: seq<Value>, rs: seq<Retriever>, pieces: map<string, seq<Retriever>>, i: nat)
    requires |data| == |rs| && i <= |rs| && NoConstructHooks(rs)
    ensures Fill(fuel, data, Store(WithData(rs, data, i), pieces), i) == Ok(Store(WithData(rs, data, |rs|), pieces))
    decreases |rs| - i
  {
    if i < |rs| {
      var st := Store(WithData(rs, data, i), pieces);
      var r := st.here[i].(data := data[i]);
      assert r == rs[i].(data := data[i]);
      assert st.here[i := r] == WithData(rs, data, i + 1);
      FillPlain(fuel, data, rs, pieces, i + 1);
    }
  }

  /**
   * Without construct hooks, `set_data` assigns the values in order, one
   * per retriever, and changes nothing else, not even the other sections.
   */
  lemma SetDataAssigns(fuel: nat, data: seq<Value>, st: Store)
    requires |data| == |st.here| && NoConstructHooks(st.here)
    ensures SetDataSpec(fuel, data, st).Ok?
    ensures var r := SetDataSpec(fuel, data, st).value;
      r.pieces == st.pieces && |r.here| == |st.here| &&
      forall j :: 0 <= j < |st.here| ==> r.here[j] == st.here[j].(data := data[j])
  {
    assert WithData(st.here, data, 0) == st.here;
    FillPlain(fuel, data, st.here, st.pieces, 0);
  }

  // ---------------------------------------------------------------------
  // set_data_from_generator

  /** A section's retrievers filled from position pos on: the new store and the bytes it took. */
  datatype Section = Section(result: Result<(Store, nat), Error>, pos: nat)

  /** Struct clones filled from position pos on: the registered sections, the clones and the bytes they took. */
  datatype Structs = Structs(result: Result<(map<string, seq<Retriever>>, seq<Value>, nat), Error>, pos: nat)

  /** Each value is a filled clone of the struct of that name. */
  predicate ClonesOf(vs: seq<Value>, sname: string) {
    forall j :: 0 <= j < |vs| ==> vs[j].Part? && vs[j].name == sname
  }

  /**
   * One pass of `set_data_from_generator` over the retrievers from position i
   * on, `total` bytes taken so far.
   */
  function DecodeFrom(fuel: nat, bytes: seq<byte>, pos: nat, models: StructModels, st: Store, i: nat, total: nat): (sec: Section)
    requires pos <= |bytes| && i <= |st.here|
    ensures pos <= sec.pos <= |bytes|
    ensures sec.result.Ok? ==> Shape(sec.result.value.0) == Shape(st) && sec.result.value.1 == total + (sec.pos - pos)
    decreases fuel, 3, |st.here| - i, 1
  {
    if i == |st.here| then Section(Ok((st, total)), pos)
    else DecodeStep(fuel, bytes, pos, models, st, i, total)
  }

  /** Retriever i of the pass, then the rest of the pass unless it failed. */
  function DecodeStep(fuel: nat, bytes: seq<byte>, pos: nat, models: StructModels, st: Store, i: nat, total: nat): (sec: Section)
    requires pos <= |bytes| && i < |st.here|
    ensures pos <= sec.pos <= |bytes|
    ensures sec.result.Ok? ==> Shape(sec.result.value.0) == Shape(st) && sec.result.value.1 == total + (sec.pos - pos)
    decreases fuel, 3, |st.here| - i, 0
  {
    var f := DecodeField(fuel, bytes, pos, models, st, i);
    if f.result.Err? then Section(Err(f.result.error), f.pos)
    else DecodeFrom(fuel, bytes, f.pos, models, f.result.value.0, i + 1, total + f.result.value.1)
  }

  /**
   * The body of `set_data_from_generator` for retriever i: its construct
   * hooks (an AttributeError if it has none), then either `repeat` filled
   * clones of its struct, or its values read and decoded.
   */
  function DecodeField(fuel: nat, bytes: seq<byte>, pos: nat, models: StructModels, st: Store, i: nat): (sec: Section)
    requires pos <= |bytes| && i < |st.here|
    ensures pos <= sec.pos <= |bytes|
    ensures sec.result.Ok? ==> Shape(sec.result.value.0) == Shape(st) && sec.result.value.1 == sec.pos - pos
    ensures sec.result.Ok? ==> |sec.result.value.0.here| == |st.here|
    ensures fuel > 0 && OnConstruct !in st.here[i].hooks ==> sec == Section(Err(AttributeError), pos)
    decreases fuel, 2, 0
  {
    match Resolve(fuel, st, Here, i, "construct")
    case Err(e) => Section(Err(e), pos)
    case Ok(st1) =>
      ShapeParts(st1, st);
      DecodeHooked(fuel, bytes, pos, models, st1, i)
  }

  /** Retriever i once its construct hooks have run: the clones of its struct, or its values read and decoded. */
  function DecodeHooked(fuel: nat, bytes: seq<byte>, pos: nat, models: StructModels, st: Store, i: nat): (sec: Section)
    requires pos <= |bytes| && i < |st.here|
    ensures pos <= sec.pos <= |bytes|
    ensures sec.result.Ok? ==> Shape(sec.result.value.0) == Shape(st) && sec.result.value.1 == sec.pos - pos
    ensures sec.result.Ok? ==> |sec.result.value.0.here| == |st.here|
    decreases fuel, 1, 0
  {
    var r := st.here[i];
    if IsStructToken(r.dataType.token) then
      var sd := DecodeStructs(fuel, bytes, pos, models, st.pieces, StructName(r.dataType.token), Count(r.dataType.repeat), [], 0);
      match sd.result
      case Err(e) => Section(Err(e), sd.pos)
      case Ok((pieces2, items, n)) =>
        var st2 := Store(st.here[i := r.(data := List(items))], pieces2);
        assert Frames(st2.here) == Frames(st.here);
        ShapeFromParts(st2, st);
        Section(Ok((st2, n)), sd.pos)
    else
      var rd := BytesRetrieval(bytes, pos, r);
      match rd.chunks
      case Err(e) => Section(Err(e), rd.pos)
      case Ok(cs) =>
        match ParseBytes(r, cs)
        case Err(e) => Section(Err(e), rd.pos)
        case Ok(v) =>
          PutKeepsShape(st, Here, i, r.(data := v));
          Section(Ok((st.Put(Here, i, r.(data := v)), TotalLength(cs))), rd.pos)
  }

  /**
   * A filled field holds its `repeat` values: the filled clones of its struct
   * for a struct token, otherwise values that `listify` turns into a list of
   * that length.
   */
  lemma DecodeFieldFills(fuel: nat, bytes: seq<byte>, pos: nat, models: StructModels, st: Store, i: nat)
    requires pos <= |bytes| && i < |st.here|
    ensures var sec := DecodeField(fuel, bytes, pos, models, st, i);
      sec.result.Ok? ==> (
      var r := sec.result.value.0.here[i];
      (IsStructToken(r.dataType.token) ==>
        r.data.List? && |r.data.items| == Count(r.dataType.repeat) && ClonesOf(r.data.items, StructName(r.dataType.token))) &&
      (!IsStructToken(r.dataType.token) ==> |Listify(r.data).items| == Count(r.dataType.repeat)))
  {
    match Resolve(fuel, st, Here, i, "construct")
    case Err(e) =>
    case Ok(st1) =>
      ShapeParts(st1, st);
      var r := st1.here[i];
      if IsStructToken(r.dataType.token) {
        var sd := DecodeStructs(fuel, bytes, pos, models, st1.pieces, StructName(r.dataType.token), Count(r.dataType.repeat), [], 0);
        if sd.result.Ok? {
          var (pieces2, items, n) := sd.result.value;
          assert DecodeHooked(fuel, bytes, pos, models, st1, i).result.value.0.here[i] == r.(data := List(items));
        }
      } else {
        var rd := BytesRetrieval(bytes, pos, r);
        if rd.chunks.Ok? && ParseBytes(r, rd.chunks.value).Ok? {
          var v := ParseBytes(r, rd.chunks.value).value;
          assert DecodeHooked(fuel, bytes, pos, models, st1, i).result.value.0.here[i] == r.(data := v);
        }
      }
  }

  /** The loop over a struct field's repeat: fill clones until there are `count`. */
  function DecodeStructs(fuel: nat, bytes: seq<byte>, pos: nat, models: StructModels, pieces: map<string, seq<Retriever>>,
                         sname: string, count: nat, items: seq<Value>, total: nat): (sd: Structs)
    requires pos <= |bytes| && |items| <= count && ClonesOf(items, sname)
    ensures pos <= sd.pos <= |bytes|
    ensures sd.result.Ok? ==> (
      PiecesFrames(sd.result.value.0) == PiecesFrames(pieces) &&
      |sd.result.value.1| == count && sd.result.value.1[..|items|] == items && ClonesOf(sd.result.value.1, sname) &&
      sd.result.value.2 == total + (sd.pos - pos))
    decreases fuel, 0, count - |items|
  {
    if |items| == count then Structs(Ok((pieces, items, total)), pos)
    else if sname !in models then Structs(Err(AttributeError), pos)
    else if fuel == 0 then Structs(Err(RecursionError), pos)
    else
      var sec := DecodeFrom(fuel - 1, bytes, pos, models, Store(models[sname], pieces), 0, 0);
      match sec.result
      case Err(e) => Structs(Err(e), sec.pos)
      case Ok((st, n)) =>
        ShapeParts(st, Store(models[sname], pieces));
        var more := items + [Part(sname, st.here, n)];
        var sd := DecodeStructs(fuel, bytes, sec.pos, models, st.pieces, sname, count, more, total + n);
        assert sd.result.Ok? ==> sd.result.value.1[..|items|] == more[..|items|];
        sd
  }

  /** One retriever of `DecodeFrom`: once it is filled, go on from the next one. */
  lemma DecodeFromNext(fuel: nat, bytes: seq<byte>, pos: nat, models: StructModels, st: Store, i: nat, total: nat,
                       st1: Store, n: nat, p1: nat)
    requires pos <= |bytes| && i < |st.here|
    requires DecodeField(fuel, bytes, pos, models, st, i) == Section(Ok((st1, n)), p1)
    ensures p1 <= |bytes| && i + 1 <= |st1.here|
    ensures DecodeFrom(fuel, bytes, pos, models, st, i, total) == DecodeFrom(fuel, bytes, p1, models, st1, i + 1, total + n)
  {
  }

  /** A retriever that cannot be filled ends the pass with its error. */
  lemma DecodeFromFails(fuel: nat, bytes: seq<byte>, pos: nat, models: StructModels, st: Store, i: nat, total: nat, e: Error, p1: nat)
    requires pos <= |bytes| && i < |st.here|
    requires DecodeField(fuel, bytes, pos, models, st, i) == Section(Err(e), p1)
    ensures DecodeFrom(fuel, bytes, pos, models, st, i, total) == Section(Err(e), p1)
  {
  }

  /** One clone of `DecodeStructs`: once it is filled, go on with the next one. */
  lemma DecodeStructsNext(fuel: nat, bytes: seq<byte>, pos: nat, models: StructModels, pieces: map<string, seq<Retriever>>,
                          sname: string, count: nat, items: seq<Value>, total: nat, st: Store, n: nat, p1: nat)
    requires pos <= |bytes| && |items| < count && ClonesOf(items, sname) && sname in models && fuel > 0
    requires DecodeFrom(fuel - 1, bytes, pos, models, Store(models[sname], pieces), 0, 0) == Section(Ok((st, n)), p1)
    ensures p1 <= |bytes| && ClonesOf(items + [Part(sname, st.here, n)], sname)
    ensures DecodeStructs(fuel, bytes, pos, models, pieces, sname, count, items, total)
         == DecodeStructs(fuel, bytes, p1, models, st.pieces, sname, count, items + [Part(sname, st.here, n)], total + n)
  {
  }

  /** A clone that cannot be filled ends the loop with its error. */
  lemma DecodeStructsFails(fuel: nat, bytes: seq<byte>, pos: nat, models: StructModels, pieces: map<string, seq<Retriever>>,
                           sname: string, count: nat, items: seq<Value>, total: nat, e: Error, p1: nat)
    requires pos <= |bytes| && |items| < count && ClonesOf(items, sname) && sname in models && fuel > 0
    requires DecodeFrom(fuel - 1, bytes, pos, models, Store(models[sname], pieces), 0, 0) == Section(Err(e), p1)
    ensures DecodeStructs(fuel, bytes, pos, models, pieces, sname, count, items, total) == Structs(Err(e), p1)
  {
  }

  /**
   * The two read paths agree: for a plain field with construct hooks (not the
   * end-of-file field, not the checked version field), filling it from the
   * generator stores exactly the value `retrieve_value` decodes, at the same
   * stream position; the byte counts differ only for `str` fields, where
   * `retrieve_value` adds the declared, possibly negative, lengths.
   */
  lemma FieldAgreesWithRetrieveValue(fuel: nat, bytes: seq<byte>, pos: nat, models: StructModels, st: Store, i: nat)
    requires pos <= |bytes| && i < |st.here| && OnConstruct in st.here[i].hooks
    requires TypeToLength(st.here[i].dataType.token).Ok? && TypeToLength(st.here[i].dataType.token).value.0 != Struct
    requires st.here[i].name != EndOfFileMark && !(st.here[i].name == "version" && st.here[i].dataType.token == "c4")
    ensures var f := DecodeField(fuel, bytes, pos, models, st, i);
      var rv := ValueRetrieval(fuel, bytes, pos, st, Here, i);
      f.pos == rv.pos && (f.result.Ok? <==> rv.result.Ok?) && (f.result.Err? ==> f.result.error == rv.result.error) &&
      (rv.result.Ok? ==> (
        rv.result.value.0.Decoded? &&
        f.result.value.0 == rv.result.value.1.Put(Here, i, rv.result.value.1.At(Here, i).(data := rv.result.value.0.value)) &&
        (TypeToLength(st.here[i].dataType.token).value.0 != Str ==> f.result.value.1 == rv.result.value.0.length)))
  {
    var (cat, len) := TypeToLength(st.here[i].dataType.token).value;
    var hooked := Resolve(fuel, st, Here, i, "construct");
    if hooked.Ok? {
      var st1 := hooked.value;
      SameShape(st1, st);
      var r := st1.here[i];
      assert FrameOf(r) == FrameOf(st.here[i]);
      assert r.dataType.token == st.here[i].dataType.token && r.name == st.here[i].name;
      var rd := ReadChunks(bytes, pos, cat, len, Count(r.dataType.repeat));
      assert BytesRetrieval(bytes, pos, r) == rd;
      if rd.chunks.Ok? {
        ReadChunksCover(bytes, pos, cat, len, Count(r.dataType.repeat));
        LengthAccounting(cat, len, rd.chunks.value);
      }
    }
  }

  // ---------------------------------------------------------------------
  // The section object

  /**
   * `AoE2FilePart`. The instance's own attributes that are not fields of the
   * class (the ones `__setattr__` stores on the instance) are `attributes`.
   */
  class AoE2FilePart {
    var name: string
    var retrievers: seq<Retriever>
    var byteLength: int
    var structModels: StructModels
    var attributes: map<string, Value>

    /** No instance attribute hides a retriever of the same name. */
    predicate Valid()
      reads this
    {
      NoShadow(retrievers, attributes)
    }

    /** `__init__`: the class's dependencies attached to the retrievers of those names, and no length yet. */
    constructor (name: string, rs: seq<Retriever>, deps: ClassDependencies)
      ensures Valid() && this.name == name && byteLength == -1 && structModels == map[] && attributes == map[]
      ensures |retrievers| == |rs| && forall i :: 0 <= i < |rs| ==> retrievers[i] == Attach(rs[i], deps)
    {
      var out: seq<Retriever> := [];
      var i := 0;
      while i < |rs|
        invariant i <= |rs| && |out| == i
        invariant forall j :: 0 <= j < i ==> out[j] == Attach(rs[j], deps)
      {
        var r := rs[i];
        if r.name in deps {
          r := r.(hooks := r.hooks + deps[r.name]);
        }
        out := out + [r];
        i := i + 1;
      }
      this.name := name;
      retrievers := out;
      byteLength := -1;
      structModels := map[];
      attributes := map[];
    }

    /** A fresh instance of a struct template (`clone_as_struct`), sharing the section's struct templates. */
    constructor Clone(name: string, template: seq<Retriever>, models: StructModels)
      ensures Valid() && this.name == name && retrievers == template && byteLength == -1
      ensures structModels == models && attributes == map[]
    {
      this.name := name;
      retrievers := template;
      byteLength := -1;
      structModels := models;
      attributes := map[];
    }

    /** `from_structure`: a section with one retriever per entry of the structure, in order. */
    static method FromStructure(pieceName: string, structure: Option<seq<Entry>>, deps: ClassDependencies)
      returns (part: AoE2FilePart)
      ensures fresh(part) && part.Valid() && part.name == pieceName && part.byteLength == -1
      ensures |part.retrievers| == |EntriesOf(structure)|
      ensures forall i :: 0 <= i < |part.retrievers| ==> part.retrievers[i] == Attach(EntryRetriever(EntriesOf(structure)[i]), deps)
    {
      var rs := BuildRetrievers(EntriesOf(structure));
      part := new AoE2FilePart(pieceName, rs, deps);
    }

    /** Attribute read on the section. */
    function GetAttr(item: string): Result<Value, Error>
      reads this
    {
      Lookup(retrievers, attributes, item)
    }

    /** `__setattr__`: the value reads back, and every other attribute reads as before. */
    method SetAttr(key: string, v: Value)
      requires Valid()
      modifies this`retrievers, this`attributes
      ensures Valid() && (retrievers, attributes) == Assign(old(retrievers), old(attributes), key, v)
      ensures GetAttr(key) == Ok(v)
      ensures forall other :: other != key ==> GetAttr(other) == old(GetAttr(other))
    {
      GetAfterSet(retrievers, attributes, key, v);
      forall other | other != key
        ensures Lookup(Assign(retrievers, attributes, key, v).0, Assign(retrievers, attributes, key, v).1, other)
             == Lookup(retrievers, attributes, other)
      {
        SetLeavesOthers(retrievers, attributes, key, v, other);
      }
      match FindRetriever(retrievers, key)
      case Some(i) =>
        retrievers := retrievers[i := retrievers[i].(data := v)];
      case None =>
        attributes := attributes[key := v];
    }

    /**
     * `set_data`: one value per retriever, assigned in order, each followed by
     * the retriever's construct hooks when it has them.
     */
    method SetData(data: seq<Value>, pieces: Pieces, fuel: nat) returns (res: Result<(), Error>)
      requires Valid()
      modifies this`retrievers, pieces
      ensures Valid()
      ensures Shape(Store(retrievers, pieces.sections)) == old(Shape(Store(retrievers, pieces.sections)))
      ensures var r := SetDataSpec(fuel, data, old(Store(retrievers, pieces.sections)));
        (res.Ok? <==> r.Ok?) && (r.Err? ==> res == Err(r.error)) && (r.Ok? ==> Store(retrievers, pieces.sections) == r.value)
      ensures |data| != |old(retrievers)| ==> retrievers == old(retrievers) && pieces.sections == old(pieces.sections)
    {
      if |data| != |retrievers| {
        return Err(DataSizeMismatch);
      }
      ghost var st0 := Store(retrievers, pieces.sections);
      var i := 0;
      while i < |data|
        invariant i <= |data| == |retrievers| && Valid()
        invariant Shape(Store(retrievers, pieces.sections)) == Shape(st0)
        invariant Fill(fuel, data, st0, 0) == Fill(fuel, data, Store(retrievers, pieces.sections), i)
      {
        var st := Store(retrievers, pieces.sections);
        var r := retrievers[i].(data := data[i]);
        PutKeepsShape(st, Here, i, r);
        retrievers := retrievers[i := r];
        NoShadowFrames(st.here, retrievers, attributes);
        if OnConstruct in r.hooks {
          var hooked := HandleRetrieverDependency(fuel, Store(retrievers, pieces.sections), Here, i, "construct");
          if hooked.Err? {
            return Err(hooked.error);
          }
          ShapeParts(hooked.value, st);
          NoShadowFrames(st.here, hooked.value.here, attributes);
          retrievers := hooked.value.here;
          pieces.sections := hooked.value.pieces;
        }
        i := i + 1;
      }
      return Ok(());
    }

    /**
     * `set_data_from_generator`: fill every retriever from the stream, in
     * order, and record the number of bytes taken as the byte length.
     */
    method SetDataFromGenerator(s: ByteStream, pieces: Pieces, fuel: nat) returns (res: Result<(), Error>)
      requires s.Valid() && Valid()
      modifies this`retrievers, this`byteLength, s, pieces
      ensures s.Valid() && Valid()
      ensures Shape(Store(retrievers, pieces.sections)) == old(Shape(Store(retrievers, pieces.sections)))
      ensures var sec := DecodeFrom(fuel, s.bytes, old(s.pos), structModels, old(Store(retrievers, pieces.sections)), 0, 0);
        s.pos == sec.pos && (res.Ok? <==> sec.result.Ok?) &&
        (sec.result.Err? ==> res == Err(sec.result.error) && byteLength == old(byteLength)) &&
        (sec.result.Ok? ==> Store(retrievers, pieces.sections) == sec.result.value.0 && byteLength == sec.result.value.1)
      decreases fuel, 4
    {
      ghost var st0 := Store(retrievers, pieces.sections);
      ghost var goal := DecodeFrom(fuel, s.bytes, s.pos, structModels, st0, 0, 0);
      var total: nat := 0;
      var i := 0;
      while i < |retrievers|
        invariant i <= |retrievers| == |st0.here| && s.Valid() && Valid() && byteLength == old(byteLength)
        invariant Shape(Store(retrievers, pieces.sections)) == Shape(st0)
        invariant goal == DecodeFrom(fuel, s.bytes, s.pos, structModels, Store(retrievers, pieces.sections), i, total)
        decreases |st0.here| - i
      {
        var n := FillNext(s, pieces, fuel, i, total, goal);
        if n.Err? {
          return Err(n.error);
        }
        total := total + n.value;
        i := i + 1;
      }
      byteLength := total;
      return Ok(());
    }

    /** One turn of the loop of `set_data_from_generator`: what is left of the pass after retriever i. */
    method FillNext(s: ByteStream, pieces: Pieces, fuel: nat, i: nat, ghost total: nat, ghost goal: Section)
      returns (res: Result<nat, Error>)
      requires s.Valid() && Valid() && i < |retrievers|
      requires goal == DecodeFrom(fuel, s.bytes, s.pos, structModels, Store(retrievers, pieces.sections), i, total)
      modifies this`retrievers, s, pieces
      ensures s.Valid() && Valid() && |retrievers| == old(|retrievers|)
      ensures Shape(Store(retrievers, pieces.sections)) == old(Shape(Store(retrievers, pieces.sections)))
      ensures res.Err? ==> goal == Section(Err(res.error), s.pos)
      ensures res.Ok? ==> goal == DecodeFrom(fuel, s.bytes, s.pos, structModels, Store(retrievers, pieces.sections), i + 1, total + res.value)
      decreases fuel, 3
    {
      ghost var before := Store(retrievers, pieces.sections);
      ghost var pb := s.pos;
      res := FillField(s, pieces, fuel, i);
      ShapeParts(Store(retrievers, pieces.sections), before);
      NoShadowFrames(before.here, retrievers, attributes);
      if res.Err? {
        DecodeFromFails(fuel, s.bytes, pb, structModels, before, i, total, res.error, s.pos);
      } else {
        DecodeFromNext(fuel, s.bytes, pb, structModels, before, i, total, Store(retrievers, pieces.sections), res.value, s.pos);
      }
    }

    /** The body of `set_data_from_generator`'s loop for retriever i; the bytes it took. */
    method FillField(s: ByteStream, pieces: Pieces, fuel: nat, i: nat) returns (res: Result<nat, Error>)
      requires s.Valid() && i < |retrievers|
      modifies this`retrievers, s, pieces
      ensures s.Valid()
      ensures Shape(Store(retrievers, pieces.sections)) == old(Shape(Store(retrievers, pieces.sections)))
      ensures res.Err? ==>
        DecodeField(fuel, s.bytes, old(s.pos), structModels, old(Store(retrievers, pieces.sections)), i) ==
        Section(Err(res.error), s.pos)
      ensures res.Ok? ==>
        DecodeField(fuel, s.bytes, old(s.pos), structModels, old(Store(retrievers, pieces.sections)), i) ==
        Section(Ok((Store(retrievers, pieces.sections), res.value)), s.pos)
      decreases fuel, 2
    {
      var st := Store(retrievers, pieces.sections);
      var hooked := HandleRetrieverDependency(fuel, st, Here, i, "construct");
      if hooked.Err? {
        return Err(hooked.error);
      }
      var st1 := hooked.value;
      ShapeParts(st1, st);
      retrievers := st1.here;
      pieces.sections := st1.pieces;
      var r := retrievers[i];
      if IsStructToken(r.dataType.token) {
        retrievers := retrievers[i := r.(data := List([]))];
        assert Frames(retrievers) == Frames(st1.here);
        var got := ReadStructs(s, pieces, fuel, StructName(r.dataType.token), Count(r.dataType.repeat));
        ShapeFromParts(Store(retrievers, pieces.sections), st1);
        if got.Err? {
          return Err(got.error);
        }
        retrievers := retrievers[i := r.(data := List(got.value.0))];
        assert retrievers == st1.here[i := r.(data := List(got.value.0))];
        assert Frames(retrievers) == Frames(st1.here);
        ShapeFromParts(Store(retrievers, pieces.sections), st1);
        return Ok(got.value.1);
      } else {
        var cs := RetrieveBytes(s, r);
        if cs.Err? {
          return Err(cs.error);
        }
        var v := ParseBytes(r, cs.value);
        if v.Err? {
          return Err(v.error);
        }
        PutKeepsShape(st1, Here, i, r.(data := v.value));
        retrievers := retrievers[i := r.(data := v.value)];
        return Ok(TotalLength(cs.value));
      }
    }

    /** The struct branch: `count` clones of the struct's template, each filled from the stream in turn. */
    method ReadStructs(s: ByteStream, pieces: Pieces, fuel: nat, sname: string, count: nat)
      returns (res: Result<(seq<Value>, nat), Error>)
      requires s.Valid()
      modifies s, pieces
      ensures s.Valid()
      ensures PiecesFrames(pieces.sections) == PiecesFrames(old(pieces.sections))
      ensures var sd := DecodeStructs(fuel, s.bytes, old(s.pos), structModels, old(pieces.sections), sname, count, [], 0);
        s.pos == sd.pos && (res.Ok? <==> sd.result.Ok?) && (sd.result.Err? ==> res == Err(sd.result.error)) &&
        (sd.result.Ok? ==> pieces.sections == sd.result.value.0 && res.value == (sd.result.value.1, sd.result.value.2))
      decreases fuel, 1
    {
      ghost var p0 := s.pos;
      ghost var pieces0 := pieces.sections;
      ghost var bytes := s.bytes;
      ghost var goal := DecodeStructs(fuel, bytes, p0, structModels, pieces0, sname, count, [], 0);
      var items: seq<Value> := [];
      var total: nat := 0;
      while |items| < count
        invariant |items| <= count && s.Valid() && ClonesOf(items, sname)
        invariant PiecesFrames(pieces.sections) == PiecesFrames(pieces0)
        invariant goal == DecodeStructs(fuel, bytes, s.pos, structModels, pieces.sections, sname, count, items, total)
        decreases count - |items|
      {
        if sname !in structModels {
          return Err(AttributeError);
        }
        if fuel == 0 {
          return Err(RecursionError);
        }
        ghost var before := pieces.sections;
        ghost var pb := s.pos;
        var sub := FillClone(s, pieces, fuel, sname);
        if sub.Err? {
          DecodeStructsFails(fuel, bytes, pb, structModels, before, sname, count, items, total, sub.error, s.pos);
          return Err(sub.error);
        }
        var (filled, n) := sub.value;
        DecodeStructsNext(fuel, bytes, pb, structModels, before, sname, count, items, total,
                          Store(filled, pieces.sections), n, s.pos);
        items := items + [Part(sname, filled, n)];
        total := total + n;
      }
      return Ok((items, total));
    }

    /** One clone of the struct's template, filled from the stream: its retrievers and the bytes it took. */
    method FillClone(s: ByteStream, pieces: Pieces, fuel: nat, sname: string) returns (res: Result<(seq<Retriever>, nat), Error>)
      requires s.Valid() && sname in structModels && fuel > 0
      modifies s, pieces
      ensures s.Valid()
      ensures PiecesFrames(pieces.sections) == PiecesFrames(old(pieces.sections))
      ensures var sec := DecodeFrom(fuel - 1, s.bytes, old(s.pos), structModels, Store(structModels[sname], old(pieces.sections)), 0, 0);
        s.pos == sec.pos && (res.Ok? <==> sec.result.Ok?) && (sec.result.Err? ==> res == Err(sec.result.error)) &&
        (sec.result.Ok? ==> pieces.sections == sec.result.value.0.pieces && res.value == (sec.result.value.0.here, sec.result.value.1))
      decreases fuel, 0
    {
      ghost var st0 := Store(structModels[sname], pieces.sections);
      ghost var sec := DecodeFrom(fuel - 1, s.bytes, s.pos, structModels, st0, 0, 0);
      var part := new AoE2FilePart.Clone(sname, structModels[sname], structModels);
      assert Store(part.retrievers, pieces.sections) == st0;
      var sub := part.SetDataFromGenerator(s, pieces, fuel - 1);
      ShapeParts(Store(part.retrievers, pieces.sections), st0);
      assert s.pos == sec.pos && (sub.Ok? <==> sec.result.Ok?);
      if sub.Err? {
        return Err(sub.error);
      }
      return Ok((part.retrievers, part.byteLength));
    }
  }
}
