/**
 * The objects the parser works on, as values: a field descriptor
 * ("retriever") with its data type, current data and dependency hooks, and
 * the Python values a field can hold. Nested struct instances are `Part`
 * values, owned by the field that holds them.
 *
 * Also `listify` and `vorl`, the scalar/list unification rule, and
 * `get_retriever_by_name`.
 */
module Values {
  import opened Wrappers
  import opened Bytes

  /** The three hook attributes a retriever may carry. */
  datatype Phase = OnRefresh | OnConstruct | OnCommit

  /** `DependencyAction`. */
  datatype Action = RefreshSelf | RefreshTarget | SetValue | SetRepeat

  /** The closed expression language that replaces the `eval` strings of the schema. */
  datatype Expr =
    | Const(n: int)
    | Name(id: string)
    | Add(left: Expr, right: Expr)
    | Sub(left: Expr, right: Expr)
    | Mul(left: Expr, right: Expr)
    | Len(arg: Expr)

  /** `DependencyEval`: the code, its constants, and the optional names that destructure a list value. */
  datatype DependencyEval = DependencyEval(code: Expr, locals: map<string, Value>, valuesAsVariable: seq<string>)

  /**
   * One dependency hook. `targetPieces[i]` (a section name or "self") and
   * `attrNames[i]` name the i-th target field.
   */
  datatype Hook = Hook(action: Action, targetPieces: seq<string>, attrNames: seq<string>, eval: DependencyEval)

  /** `DataType`: the type token and the repeat count. */
  datatype DataType = DataType(token: string, repeat: int)

  /**
   * `Retriever`. A phase absent from `hooks` is an attribute the retriever does
   * not have (`hasattr` is false); a present phase holds its hooks in order.
   */
  datatype Retriever = Retriever(
    name: string,
    dataType: DataType,
    data: Value,
    hooks: map<Phase, seq<Hook>>,
    possiblyList: bool)

  /** The Python values a field holds. */
  datatype Value =
    | Nothing                                   // None
    | Int(i: int)
    | Float(bits: seq<byte>)                    // an IEEE value, kept as its bytes
    | Text(chars: seq<byte>)                    // a decoded string, kept as its bytes
    | Raw(bytes: seq<byte>)                     // a `bytes` object
    | Part(name: string, retrievers: seq<Retriever>, byteLength: int)  // a struct instance
    | List(items: seq<Value>)

  /** The name that marks "the rest of the file". */
  const EndOfFileMark: string := "__END_OF_FILE_MARK__"

  /** `listify`: a list stays as it is, anything else is wrapped in a one-element list. */
  function Listify(v: Value): (r: Value)
    ensures r.List?
  {
    if v.List? then v else List([v])
  }

  /** The hook attributes in the order `vorl` visits them. */
  const HookAttributes: seq<Phase> := [OnRefresh, OnConstruct, OnCommit]

  predicate HasSetRepeat(hooks: seq<Hook>) {
    exists k :: 0 <= k < |hooks| && hooks[k].action == SetRepeat
  }

  /**
   * The loop of `vorl` over the hook attributes: `deps` holds the hooks of the
   * attributes seen so far, and list form is forced at the first present
   * attribute after which the repeat is not 1 or a SET_REPEAT has been seen.
   */
  function ForcedFrom(r: Retriever, attrs: seq<Phase>, deps: seq<Hook>): bool
    decreases |attrs|
  {
    if attrs == [] then false
    else if attrs[0] in r.hooks then
      var deps' := deps + r.hooks[attrs[0]];
      if r.dataType.repeat != 1 || HasSetRepeat(deps') then true
      else ForcedFrom(r, attrs[1..], deps')
    else ForcedFrom(r, attrs[1..], deps)
  }

  /** Whether `vorl` keeps list form for this retriever. */
  predicate ForcesList(r: Retriever) {
    r.possiblyList && ForcedFrom(r, HookAttributes, [])
  }

  /** `vorl`, "variable or list". */
  function Vorl(v: Value, r: Retriever): Value {
    if ForcesList(r) then Listify(v)
    else if v.List? && |v.items| == 1 then v.items[0]
    else v
  }

  lemma HasSetRepeatAppend(a: seq<Hook>, b: seq<Hook>)
    ensures HasSetRepeat(a + b) <==> HasSetRepeat(a) || HasSetRepeat(b)
  {
    if HasSetRepeat(a + b) {
      var k :| 0 <= k < |a + b| && (a + b)[k].action == SetRepeat;
      if k >= |a| { assert b[k - |a|] == (a + b)[k]; } else { assert a[k] == (a + b)[k]; }
    }
    if HasSetRepeat(a) {
      var k :| 0 <= k < |a| && a[k].action == SetRepeat;
      assert (a + b)[k] == a[k];
    }
    if HasSetRepeat(b) {
      var k :| 0 <= k < |b| && b[k].action == SetRepeat;
      assert (a + b)[|a| + k] == b[k];
    }
  }

  predicate AnyPresent(r: Retriever, attrs: seq<Phase>)
    decreases |attrs|
  {
    attrs != [] && (attrs[0] in r.hooks || AnyPresent(r, attrs[1..]))
  }

  predicate AnySetRepeat(r: Retriever, attrs: seq<Phase>)
    decreases |attrs|
  {
    attrs != [] && ((attrs[0] in r.hooks && HasSetRepeat(r.hooks[attrs[0]])) || AnySetRepeat(r, attrs[1..]))
  }

  lemma {:induction false} AnySetRepeatIsPresent(r: Retriever, attrs: seq<Phase>)
    ensures AnySetRepeat(r, attrs) ==> AnyPresent(r, attrs)
    decreases |attrs|
  {
    if attrs != [] { AnySetRepeatIsPresent(r, attrs[1..]); }
  }

  /** The loop of `vorl` in closed form. */
  lemma {:induction false} ForcedFromIff(r: Retriever, attrs: seq<Phase>, deps: seq<Hook>)
    ensures ForcedFrom(r, attrs, deps) <==>
      AnyPresent(r, attrs) && (r.dataType.repeat != 1 || HasSetRepeat(deps) || AnySetRepeat(r, attrs))
    decreases |attrs|
  {
    if attrs != [] {
      var p := attrs[0];
      AnySetRepeatIsPresent(r, attrs[1..]);
      if p in r.hooks {
        HasSetRepeatAppend(deps, r.hooks[p]);
        ForcedFromIff(r, attrs[1..], deps + r.hooks[p]);
      } else {
        ForcedFromIff(r, attrs[1..], deps);
      }
    }
  }

  /**
   * List form is forced exactly when the retriever may be a list, has at least
   * one hook attribute, and either its repeat is not 1 or one of its own hooks
   * is a SET_REPEAT.
   */
  lemma ForcesListIff(r: Retriever)
    ensures ForcesList(r) <==>
      r.possiblyList && (exists p :: p in r.hooks) &&
      (r.dataType.repeat != 1 || exists p :: p in r.hooks && HasSetRepeat(r.hooks[p]))
  {
    var a := HookAttributes;
    ForcedFromIff(r, a, []);
    assert !HasSetRepeat([]);
    assert a[1..] == [OnConstruct, OnCommit] && a[1..][1..] == [OnCommit] && a[1..][1..][1..] == [];
    assert AnyPresent(r, a) <==> OnRefresh in r.hooks || OnConstruct in r.hooks || OnCommit in r.hooks;
    assert AnySetRepeat(r, a) <==>
      (OnRefresh in r.hooks && HasSetRepeat(r.hooks[OnRefresh])) ||
      (OnConstruct in r.hooks && HasSetRepeat(r.hooks[OnConstruct])) ||
      (OnCommit in r.hooks && HasSetRepeat(r.hooks[OnCommit]));
    if exists p :: p in r.hooks {
      var p :| p in r.hooks;
      assert p == OnRefresh || p == OnConstruct || p == OnCommit;
    }
    if exists p :: p in r.hooks && HasSetRepeat(r.hooks[p]) {
      var p :| p in r.hooks && HasSetRepeat(r.hooks[p]);
      assert p == OnRefresh || p == OnConstruct || p == OnCommit;
    }
  }

  /**
   * What `listify` recovers from `vorl`: the decoded list, unless a single
   * element was itself a list and got unwrapped.
   */
  lemma ListifyVorl(xs: seq<Value>, r: Retriever)
    requires |xs| == 1 ==> !xs[0].List?
    ensures Listify(Vorl(List(xs), r)) == List(xs)
    ensures !ForcesList(r) && |xs| == 1 ==> Vorl(List(xs), r) == xs[0]
    ensures ForcesList(r) || |xs| != 1 ==> Vorl(List(xs), r) == List(xs)
  {
  }

  /** `get_retriever_by_name`: the index of the first retriever with that name. */
  function FindRetriever(rs: seq<Retriever>, name: string): (r: Option<nat>)
    ensures r.Some? ==> r.value < |rs| && rs[r.value].name == name
    ensures r.Some? ==> forall j :: 0 <= j < r.value ==> rs[j].name != name
    ensures r.None? ==> forall j :: 0 <= j < |rs| ==> rs[j].name != name
  {
    if rs == [] then None
    else if rs[0].name == name then Some(0)
    else match FindRetriever(rs[1..], name)
      case None => None
      case Some(i) => Some(i + 1)
  }
}
