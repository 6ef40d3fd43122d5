/**
 * The dependency engine: `handle_retriever_dependency`,
 * `handle_dependency_target` and `handle_dependency_eval`.
 *
 * The engine runs the hooks of one phase of one retriever, in order. It can
 * change the `data` or the repeat count of that retriever (SET_VALUE,
 * SET_REPEAT), and it can run the refresh hooks of itself (REFRESH_SELF) or
 * of target retrievers in the current section or in other registered
 * sections (REFRESH). Every change it makes is to some retriever's `data` or
 * repeat; names, type tokens and hooks never change, nor does the number of
 * retrievers anywhere.
 *
 * `fuel` stands for the interpreter's recursion limit: each nested call of
 * `handle_retriever_dependency` uses one unit, and a call made with none left
 * fails with RecursionError.
 */
module Dependencies {
  import opened Wrappers
  import opened Errors
  import opened Bytes
  import opened Values

  /** Which retriever list a reference points into. */
  datatype Loc = Here | Piece(name: string)

  /**
   * The retriever lists the engine reaches: the current section's (`here`,
   * what "self" names at the top level) and each registered piece's.
   */
  datatype Store = Store(here: seq<Retriever>, pieces: map<string, seq<Retriever>>) {
    predicate Has(loc: Loc) {
      loc.Here? || loc.name in pieces
    }

    function Lookup(loc: Loc): seq<Retriever>
      requires Has(loc)
    {
      if loc.Here? then here else pieces[loc.name]
    }

    predicate Valid(loc: Loc, i: nat) {
      Has(loc) && i < |Lookup(loc)|
    }

    function At(loc: Loc, i: nat): Retriever
      requires Valid(loc, i)
    {
      Lookup(loc)[i]
    }

    /** The store with retriever i of loc replaced by r. */
    function Put(loc: Loc, i: nat, r: Retriever): (s: Store)
      requires Valid(loc, i)
      ensures forall l :: s.Has(l) <==> Has(l)
      ensures s.Lookup(loc) == Lookup(loc)[i := r]
      ensures forall l :: l != loc && Has(l) ==> s.Lookup(l) == Lookup(l)
    {
      if loc.Here? then Store(here[i := r], pieces)
      else Store(here, pieces[loc.name := pieces[loc.name][i := r]])
    }
  }

  /** What the engine never changes about a retriever. */
  datatype Frame = Frame(name: string, token: string, hooks: map<Phase, seq<Hook>>, possiblyList: bool)

  function FrameOf(r: Retriever): Frame {
    Frame(r.name, r.dataType.token, r.hooks, r.possiblyList)
  }

  function Frames(rs: seq<Retriever>): seq<Frame> {
    seq(|rs|, i requires 0 <= i < |rs| => FrameOf(rs[i]))
  }

  /** Everything about a store except the retrievers' data and repeat counts. */
  function Shape(st: Store): (seq<Frame>, map<string, seq<Frame>>) {
    (Frames(st.here), map k | k in st.pieces :: Frames(st.pieces[k]))
  }

  lemma FramesEqual(a: seq<Retriever>, b: seq<Retriever>)
    requires Frames(a) == Frames(b)
    ensures |a| == |b| && forall i :: 0 <= i < |a| ==> FrameOf(a[i]) == FrameOf(b[i])
  {
    assert |Frames(a)| == |a| && |Frames(b)| == |b|;
    forall i | 0 <= i < |a| ensures FrameOf(a[i]) == FrameOf(b[i]) {
      assert Frames(a)[i] == FrameOf(a[i]) && Frames(b)[i] == FrameOf(b[i]);
    }
  }

  /** Stores of the same shape have the same references and the same frames at each. */
  lemma SameShape(a: Store, b: Store)
    requires Shape(a) == Shape(b)
    ensures forall l :: a.Has(l) <==> b.Has(l)
    ensures forall l :: a.Has(l) ==> |a.Lookup(l)| == |b.Lookup(l)|
    ensures forall l, i :: a.Valid(l, i) ==> b.Valid(l, i) && FrameOf(a.At(l, i)) == FrameOf(b.At(l, i))
  {
    var ma := Shape(a).1;
    var mb := Shape(b).1;
    assert ma.Keys == a.pieces.Keys && mb.Keys == b.pieces.Keys;
    FramesEqual(a.here, b.here);
    forall k | k in a.pieces ensures Frames(a.pieces[k]) == Frames(b.pieces[k]) {
      assert ma[k] == Frames(a.pieces[k]) && mb[k] == Frames(b.pieces[k]);
    }
    forall k | k in a.pieces ensures |a.pieces[k]| == |b.pieces[k]| &&
      forall i :: 0 <= i < |a.pieces[k]| ==> FrameOf(a.pieces[k][i]) == FrameOf(b.pieces[k][i]) {
      FramesEqual(a.pieces[k], b.pieces[k]);
    }
  }

  /** Replacing a retriever by one with the same frame keeps the shape. */
  lemma PutKeepsShape(st: Store, loc: Loc, i: nat, r: Retriever)
    requires st.Valid(loc, i) && FrameOf(r) == FrameOf(st.At(loc, i))
    ensures Shape(st.Put(loc, i, r)) == Shape(st)
  {
    var s := st.Put(loc, i, r);
    var l := st.Lookup(loc);
    assert Frames(l[i := r]) == Frames(l);
    if loc.Here? {
      assert s.pieces == st.pieces;
    } else {
      assert s.here == st.here;
      assert s.pieces.Keys == st.pieces.Keys;
      assert Shape(s).1 == Shape(st).1;
    }
  }

  // ---------------------------------------------------------------------
  // handle_dependency_target and handle_dependency_eval

  /**
   * `handle_dependency_target`: "self" names the current list; any other
   * name is a registered piece, and a missing one is a KeyError.
   */
  function HandleDependencyTarget(target: string, cur: Loc, st: Store): (r: Result<Loc, Error>)
    requires st.Has(cur)
    ensures r.Err? <==> target != "self" && target !in st.pieces
    ensures r.Err? ==> r.error == KeyError
    ensures r.Ok? ==> st.Has(r.value) && st.Lookup(r.value) == if target == "self" then st.Lookup(cur) else st.pieces[target]
  {
    if target == "self" then Ok(cur)
    else if target in st.pieces then Ok(Piece(target))
    else Err(KeyError)
  }

  /** `dict(zip(names, values))`: pairs up to the shorter list; a later name wins. */
  function ZipLocals(names: seq<string>, vals: seq<Value>): map<string, Value>
    decreases |names|
  {
    if names == [] || vals == [] then map[]
    else map[names[0] := vals[0]] + ZipLocals(names[1..], vals[1..])
  }

  /**
   * What iterating a value yields, as `zip` does: a list's items, the byte
   * values of a `bytes` object, the one-character strings of a `str`; None for
   * a value that cannot be iterated.
   */
  function Iterated(v: Value): Option<seq<Value>> {
    match v
    case List(items) => Some(items)
    case Raw(bs) => Some(seq(|bs|, i requires 0 <= i < |bs| => Int(bs[i] as int)))
    case Text(cs) => Some(seq(|cs|, i requires 0 <= i < |cs| => Text([cs[i]])))
    case _ => None
  }

  /** The variables an expression sees: its constants plus the bound target value. */
  function Bind(ev: DependencyEval, value: Value): Result<map<string, Value>, Error> {
    if |ev.valuesAsVariable| > 0 then
      match Iterated(value)
      case Some(items) => Ok(ev.locals + ZipLocals(ev.valuesAsVariable, items))
      case None => Err(TypeError)
    else Ok(ev.locals["x" := value])
  }

  /** The evaluator of the closed expression language. */
  function EvalExpr(e: Expr, env: map<string, Value>): Result<Value, Error> {
    match e
    case Const(n) => Ok(Int(n))
    case Name(id) => if id in env then Ok(env[id]) else Err(NameError)
    case Add(a, b) =>
      var x :- EvalExpr(a, env);
      var y :- EvalExpr(b, env);
      if x.Int? && y.Int? then Ok(Int(x.i + y.i)) else Err(TypeError)
    case Sub(a, b) =>
      var x :- EvalExpr(a, env);
      var y :- EvalExpr(b, env);
      if x.Int? && y.Int? then Ok(Int(x.i - y.i)) else Err(TypeError)
    case Mul(a, b) =>
      var x :- EvalExpr(a, env);
      var y :- EvalExpr(b, env);
      if x.Int? && y.Int? then Ok(Int(x.i * y.i)) else Err(TypeError)
    case Len(a) =>
      var x :- EvalExpr(a, env);
      match x
      case List(items) => Ok(Int(|items|))
      case Text(cs) => Ok(Int(|cs|))
      case Raw(bs) => Ok(Int(|bs|))
      case _ => Err(TypeError)
  }

  /** `handle_dependency_eval`: evaluate the hook's code against the target's value. */
  function HandleDependencyEval(ev: DependencyEval, value: Value): Result<Value, Error> {
    var env :- Bind(ev, value);
    EvalExpr(ev.code, env)
  }

  /** Without positional names the whole target value is bound to `x`, over any constant `x`. */
  lemma BindWholeValue(ev: DependencyEval, value: Value)
    requires ev.valuesAsVariable == []
    ensures Bind(ev, value).Ok?
    ensures var env := Bind(ev, value).value;
      env["x"] == value && forall n :: n in ev.locals && n != "x" ==> n in env && env[n] == ev.locals[n]
  {
  }

  lemma {:induction false} ZipLocalsAt(names: seq<string>, vals: seq<Value>, i: nat)
    requires i < |names| && i < |vals|
    requires forall j :: i < j < |names| ==> names[j] != names[i]
    ensures names[i] in ZipLocals(names, vals) && ZipLocals(names, vals)[names[i]] == vals[i]
  {
    if i == 0 {
      if names[1..] != [] && vals[1..] != [] {
        ZipLocalsKeys(names[1..], vals[1..]);
      }
    } else {
      ZipLocalsAt(names[1..], vals[1..], i - 1);
    }
  }

  lemma {:induction false} ZipLocalsKeys(names: seq<string>, vals: seq<Value>)
    ensures forall n :: n in ZipLocals(names, vals) ==>
      exists j :: 0 <= j < |names| && j < |vals| && names[j] == n
    decreases |names|
  {
    if names != [] && vals != [] {
      ZipLocalsKeys(names[1..], vals[1..]);
      forall n | n in ZipLocals(names, vals)
        ensures exists j :: 0 <= j < |names| && j < |vals| && names[j] == n
      {
        if n != names[0] {
          assert n in ZipLocals(names[1..], vals[1..]);
          var j :| 0 <= j < |names[1..]| && j < |vals[1..]| && names[1..][j] == n;
          assert names[j + 1] == n;
        }
      }
    }
  }

  /**
   * With positional names, the i-th name (the last occurrence of it) is bound
   * to the i-th element of the target's list value, over any constant of that name.
   */
  lemma BindPositional(ev: DependencyEval, items: seq<Value>, i: nat)
    requires i < |ev.valuesAsVariable| && i < |items|
    requires forall j :: i < j < |ev.valuesAsVariable| ==> ev.valuesAsVariable[j] != ev.valuesAsVariable[i]
    ensures Bind(ev, List(items)).Ok?
    ensures var env := Bind(ev, List(items)).value;
      ev.valuesAsVariable[i] in env && env[ev.valuesAsVariable[i]] == items[i]
  {
    ZipLocalsAt(ev.valuesAsVariable, items, i);
  }

  /** With positional names, the i-th name is bound to the i-th byte of a `bytes` value, as an integer. */
  lemma BindPositionalBytes(ev: DependencyEval, bs: seq<byte>, i: nat)
    requires i < |ev.valuesAsVariable| && i < |bs|
    requires forall j :: i < j < |ev.valuesAsVariable| ==> ev.valuesAsVariable[j] != ev.valuesAsVariable[i]
    ensures Bind(ev, Raw(bs)).Ok?
    ensures var env := Bind(ev, Raw(bs)).value;
      ev.valuesAsVariable[i] in env && env[ev.valuesAsVariable[i]] == Int(bs[i] as int)
  {
    ZipLocalsAt(ev.valuesAsVariable, Iterated(Raw(bs)).value, i);
  }

  /** With positional names, the i-th name is bound to the i-th character of a `str` value. */
  lemma BindPositionalText(ev: DependencyEval, cs: seq<byte>, i: nat)
    requires i < |ev.valuesAsVariable| && i < |cs|
    requires forall j :: i < j < |ev.valuesAsVariable| ==> ev.valuesAsVariable[j] != ev.valuesAsVariable[i]
    ensures Bind(ev, Text(cs)).Ok?
    ensures var env := Bind(ev, Text(cs)).value;
      ev.valuesAsVariable[i] in env && env[ev.valuesAsVariable[i]] == Text([cs[i]])
  {
    ZipLocalsAt(ev.valuesAsVariable, Iterated(Text(cs)).value, i);
  }

  /** Positional names on a value that cannot be iterated (None, a number, a struct) give TypeError. */
  lemma BindPositionalNeedsIterable(ev: DependencyEval, value: Value)
    requires |ev.valuesAsVariable| > 0
    ensures Bind(ev, value) == Err(TypeError) <==> !(value.List? || value.Raw? || value.Text?)
  {
  }

  /** The schema's `x * 2`: twice the target's integer value. */
  lemma EvalTwiceX(locals: map<string, Value>, n: int)
    ensures HandleDependencyEval(DependencyEval(Mul(Name("x"), Const(2)), locals, []), Int(n)) == Ok(Int(2 * n))
  {
    var env := locals["x" := Int(n)];
    assert Bind(DependencyEval(Mul(Name("x"), Const(2)), locals, []), Int(n)) == Ok(env);
    assert EvalExpr(Name("x"), env) == Ok(Int(n));
    assert EvalExpr(Const(2), env) == Ok(Int(2));
  }

  // ---------------------------------------------------------------------
  // handle_retriever_dependency

  /** The hook attribute a state string selects. */
  function PhaseOf(state: string): Option<Phase> {
    if state == "construct" then Some(OnConstruct)
    else if state == "commit" then Some(OnCommit)
    else if state == "refresh" then Some(OnRefresh)
    else None
  }

  /** Store an evaluated value as the retriever's data (SET_VALUE) or repeat (SET_REPEAT). */
  function ApplyValue(st: Store, cur: Loc, idx: nat, action: Action, v: Value): (r: Result<Store, Error>)
    requires st.Valid(cur, idx) && (action == SetValue || action == SetRepeat)
    ensures r.Ok? ==> Shape(r.value) == Shape(st)
  {
    var old_ := st.At(cur, idx);
    if action == SetValue then
      PutKeepsShape(st, cur, idx, old_.(data := v));
      Ok(st.Put(cur, idx, old_.(data := v)))
    else if v.Int? then
      PutKeepsShape(st, cur, idx, old_.(dataType := old_.dataType.(repeat := v.i)));
      Ok(st.Put(cur, idx, old_.(dataType := old_.dataType.(repeat := v.i))))
    else Err(TypeError)
  }

  /**
   * The engine, as a specification: run the hooks of the phase `state` names
   * of retriever idx of list cur.
   */
  function Resolve(fuel: nat, st: Store, cur: Loc, idx: nat, state: string): (r: Result<Store, Error>)
    requires st.Valid(cur, idx)
    ensures r.Ok? ==> Shape(r.value) == Shape(st)
    decreases fuel, 0, 0
  {
    if fuel == 0 then Err(RecursionError)
    else match PhaseOf(state)
      case None => Err(UnknownState)
      case Some(phase) =>
        var r := st.At(cur, idx);
        if phase !in r.hooks then Err(AttributeError)
        else RunHooks(fuel - 1, st, cur, idx, r.hooks[phase], 0)
  }

  /** Run hooks[k..] in order, stopping at the first error. */
  function RunHooks(fuel: nat, st: Store, cur: Loc, idx: nat, hooks: seq<Hook>, k: nat): (r: Result<Store, Error>)
    requires st.Valid(cur, idx)
    ensures r.Ok? ==> Shape(r.value) == Shape(st)
    decreases fuel, 3, |hooks| - k
  {
    if k >= |hooks| then Ok(st)
    else
      var st' :- RunHook(fuel, st, cur, idx, hooks[k]);
      SameShape(st', st);
      RunHooks(fuel, st', cur, idx, hooks, k + 1)
  }

  /** Run one hook. */
  function RunHook(fuel: nat, st: Store, cur: Loc, idx: nat, h: Hook): (r: Result<Store, Error>)
    requires st.Valid(cur, idx)
    ensures r.Ok? ==> Shape(r.value) == Shape(st)
    decreases fuel, 2, 0
  {
    if h.action == RefreshSelf then Resolve(fuel, st, cur, idx, "refresh")
    else RunTargets(fuel, st, cur, idx, h, 0)
  }

  /**
   * The j-th target of a hook: its list (KeyError if the section is not
   * registered), then the name (IndexError if there are fewer names than
   * sections), then the first retriever of that name (AttributeError if none).
   */
  function TargetRef(st: Store, cur: Loc, h: Hook, j: nat): (r: Result<(Loc, nat), Error>)
    requires st.Has(cur) && j < |h.targetPieces|
    ensures r.Ok? ==> j < |h.attrNames| && st.Valid(r.value.0, r.value.1) && st.At(r.value.0, r.value.1).name == h.attrNames[j]
  {
    var loc :- HandleDependencyTarget(h.targetPieces[j], cur, st);
    if j >= |h.attrNames| then Err(IndexError)
    else match FindRetriever(st.Lookup(loc), h.attrNames[j])
      case None => Err(AttributeError)
      case Some(t) => Ok((loc, t))
  }

  /** Visit the hook's targets from the j-th on, in order. */
  function RunTargets(fuel: nat, st: Store, cur: Loc, idx: nat, h: Hook, j: nat): (r: Result<Store, Error>)
    requires st.Valid(cur, idx) && h.action != RefreshSelf
    ensures r.Ok? ==> Shape(r.value) == Shape(st)
    decreases fuel, 1, |h.targetPieces| - j, 1
  {
    if j >= |h.targetPieces| then Ok(st)
    else
      var st' :- VisitTarget(fuel, st, cur, idx, h, j);
      SameShape(st', st);
      RunTargets(fuel, st', cur, idx, h, j + 1)
  }

  /**
   * The j-th target of a hook: refresh it (REFRESH_TARGET), or evaluate the
   * hook's expression on its data and store the value (SET_VALUE, SET_REPEAT).
   */
  function VisitTarget(fuel: nat, st: Store, cur: Loc, idx: nat, h: Hook, j: nat): (r: Result<Store, Error>)
    requires st.Valid(cur, idx) && h.action != RefreshSelf && j < |h.targetPieces|
    ensures r.Ok? ==> Shape(r.value) == Shape(st)
    decreases fuel, 1, |h.targetPieces| - j, 0
  {
    if h.action == RefreshTarget then
      var ref :- TargetRef(st, cur, h, j);
      Resolve(fuel, st, ref.0, ref.1, "refresh")
    else AssignTarget(st, cur, idx, h, j)
  }

  /** SET_VALUE or SET_REPEAT from the j-th target. */
  function AssignTarget(st: Store, cur: Loc, idx: nat, h: Hook, j: nat): (r: Result<Store, Error>)
    requires st.Valid(cur, idx) && (h.action == SetValue || h.action == SetRepeat) && j < |h.targetPieces|
    ensures r.Ok? ==> Shape(r.value) == Shape(st)
  {
    var ref :- TargetRef(st, cur, h, j);
    var v :- HandleDependencyEval(h.eval, st.At(ref.0, ref.1).data);
    ApplyValue(st, cur, idx, h.action, v)
  }

  /**
   * The targets of a SET_VALUE or SET_REPEAT hook from the j-th on: these
   * never recurse into the engine.
   */
  function AssignTargets(st: Store, cur: Loc, idx: nat, h: Hook, j: nat): (r: Result<Store, Error>)
    requires st.Valid(cur, idx) && (h.action == SetValue || h.action == SetRepeat)
    ensures r.Ok? ==> Shape(r.value) == Shape(st)
    decreases |h.targetPieces| - j, 1
  {
    if j >= |h.targetPieces| then Ok(st) else AssignStep(st, cur, idx, h, j)
  }

  /** The j-th of those targets, then the rest. */
  function AssignStep(st: Store, cur: Loc, idx: nat, h: Hook, j: nat): (r: Result<Store, Error>)
    requires st.Valid(cur, idx) && (h.action == SetValue || h.action == SetRepeat) && j < |h.targetPieces|
    ensures r.Ok? ==> Shape(r.value) == Shape(st)
    decreases |h.targetPieces| - j, 0
  {
    var st' :- AssignTarget(st, cur, idx, h, j);
    SameShape(st', st);
    AssignTargets(st', cur, idx, h, j + 1)
  }

  /** For SET_VALUE and SET_REPEAT, the targets are visited without using any fuel. */
  lemma {:induction false} RunTargetsAssign(fuel: nat, st: Store, cur: Loc, idx: nat, h: Hook, j: nat)
    requires st.Valid(cur, idx) && (h.action == SetValue || h.action == SetRepeat)
    ensures RunTargets(fuel, st, cur, idx, h, j) == AssignTargets(st, cur, idx, h, j)
    decreases |h.targetPieces| - j
  {
    if j < |h.targetPieces| {
      var r := AssignTarget(st, cur, idx, h, j);
      assert VisitTarget(fuel, st, cur, idx, h, j) == r;
      if r.Ok? {
        SameShape(r.value, st);
        RunTargetsAssign(fuel, r.value, cur, idx, h, j + 1);
      }
    }
  }

  /** `handle_retriever_dependency`, proved to compute `Resolve`. */
  method HandleRetrieverDependency(fuel: nat, st: Store, cur: Loc, idx: nat, state: string)
    returns (res: Result<Store, Error>)
    requires st.Valid(cur, idx)
    ensures res == Resolve(fuel, st, cur, idx, state)
    decreases fuel, 0
  {
    if fuel == 0 {
      return Err(RecursionError);
    }
    var phase: Phase;
    if state == "construct" {
      phase := OnConstruct;
    } else if state == "commit" {
      phase := OnCommit;
    } else if state == "refresh" {
      phase := OnRefresh;
    } else {
      return Err(UnknownState);
    }
    var r := st.At(cur, idx);
    if phase !in r.hooks {
      return Err(AttributeError);
    }
    var hooks := r.hooks[phase];
    var s := st;
    var k := 0;
    while k < |hooks|
      invariant k <= |hooks|
      invariant Shape(s) == Shape(st) && s.Valid(cur, idx)
      invariant RunHooks(fuel - 1, st, cur, idx, hooks, 0) == RunHooks(fuel - 1, s, cur, idx, hooks, k)
    {
      var h := hooks[k];
      var sub: Result<Store, Error>;
      if h.action == RefreshSelf {
        sub := HandleRetrieverDependency(fuel - 1, s, cur, idx, "refresh");
      } else {
        sub := VisitTargets(fuel - 1, s, cur, idx, h);
      }
      RunHooksStep(fuel - 1, s, cur, idx, hooks, k, sub);
      if sub.Err? {
        return Err(sub.error);
      }
      s := sub.value;
      k := k + 1;
    }
    return Ok(s);
  }

  /** The loop of `HandleRetrieverDependency` after the k-th hook: an error ends the run, a new store carries it on. */
  lemma RunHooksStep(fuel: nat, s: Store, cur: Loc, idx: nat, hooks: seq<Hook>, k: nat, sub: Result<Store, Error>)
    requires s.Valid(cur, idx) && k < |hooks|
    requires sub == RunHook(fuel, s, cur, idx, hooks[k])
    ensures sub.Err? ==> RunHooks(fuel, s, cur, idx, hooks, k) == Err(sub.error)
    ensures sub.Ok? ==> Shape(sub.value) == Shape(s) && sub.value.Valid(cur, idx)
    ensures sub.Ok? ==> RunHooks(fuel, s, cur, idx, hooks, k) == RunHooks(fuel, sub.value, cur, idx, hooks, k + 1)
  {
    if sub.Ok? {
      SameShape(sub.value, s);
    }
  }

  /** The inner loop of `handle_retriever_dependency`: one hook's targets, in order. */
  method VisitTargets(fuel: nat, st: Store, cur: Loc, idx: nat, h: Hook)
    returns (res: Result<Store, Error>)
    requires st.Valid(cur, idx) && h.action != RefreshSelf
    ensures res == RunTargets(fuel, st, cur, idx, h, 0)
    decreases fuel, 3
  {
    var s := st;
    var j := 0;
    while j < |h.targetPieces|
      invariant Shape(s) == Shape(st) && s.Valid(cur, idx)
      invariant RunTargets(fuel, st, cur, idx, h, 0) == RunTargets(fuel, s, cur, idx, h, j)
    {
      var sub := VisitNext(fuel, s, cur, idx, h, j);
      if sub.Err? {
        return Err(sub.error);
      }
      s := sub.value;
      j := j + 1;
    }
    return Ok(s);
  }

  /** The j-th target, as the loop of `VisitTargets` sees it: an error ends the run, a new store carries it on. */
  method VisitNext(fuel: nat, s: Store, cur: Loc, idx: nat, h: Hook, j: nat)
    returns (sub: Result<Store, Error>)
    requires s.Valid(cur, idx) && h.action != RefreshSelf && j < |h.targetPieces|
    ensures sub.Err? ==> RunTargets(fuel, s, cur, idx, h, j) == Err(sub.error)
    ensures sub.Ok? ==> Shape(sub.value) == Shape(s) && sub.value.Valid(cur, idx)
    ensures sub.Ok? ==> RunTargets(fuel, s, cur, idx, h, j) == RunTargets(fuel, sub.value, cur, idx, h, j + 1)
    decreases fuel, 2
  {
    sub := VisitOne(fuel, s, cur, idx, h, j);
    RunTargetsStep(fuel, s, cur, idx, h, j, sub);
  }

  /** The loop of `VisitTargets` after the j-th target: an error ends the run, a new store carries it on. */
  lemma RunTargetsStep(fuel: nat, s: Store, cur: Loc, idx: nat, h: Hook, j: nat, sub: Result<Store, Error>)
    requires s.Valid(cur, idx) && h.action != RefreshSelf && j < |h.targetPieces|
    requires sub == VisitTarget(fuel, s, cur, idx, h, j)
    ensures sub.Err? ==> RunTargets(fuel, s, cur, idx, h, j) == Err(sub.error)
    ensures sub.Ok? ==> Shape(sub.value) == Shape(s) && sub.value.Valid(cur, idx)
    ensures sub.Ok? ==> RunTargets(fuel, s, cur, idx, h, j) == RunTargets(fuel, sub.value, cur, idx, h, j + 1)
  {
    if sub.Ok? {
      SameShape(sub.value, s);
    }
  }

  /** The body of that loop for the j-th target. */
  method VisitOne(fuel: nat, s: Store, cur: Loc, idx: nat, h: Hook, j: nat)
    returns (res: Result<Store, Error>)
    requires s.Valid(cur, idx) && h.action != RefreshSelf && j < |h.targetPieces|
    ensures res == VisitTarget(fuel, s, cur, idx, h, j)
    decreases fuel, 1
  {
    var loc: Loc;
    if h.targetPieces[j] == "self" {
      loc := cur;
    } else if h.targetPieces[j] in s.pieces {
      loc := Piece(h.targetPieces[j]);
    } else {
      return Err(KeyError);
    }
    if j >= |h.attrNames| {
      return Err(IndexError);
    }
    var found := FindRetriever(s.Lookup(loc), h.attrNames[j]);
    if found.None? {
      return Err(AttributeError);
    }
    var t := found.value;
    assert TargetRef(s, cur, h, j) == Ok((loc, t));
    if h.action == RefreshTarget {
      res := HandleRetrieverDependency(fuel, s, loc, t, "refresh");
      return;
    }
    var v := HandleDependencyEval(h.eval, s.At(loc, t).data);
    if v.Err? {
      return Err(v.error);
    }
    var target := s.At(cur, idx);
    if h.action == SetValue {
      return Ok(s.Put(cur, idx, target.(data := v.value)));
    }
    if !v.value.Int? {
      return Err(TypeError);
    }
    return Ok(s.Put(cur, idx, target.(dataType := target.dataType.(repeat := v.value.i))));
  }

  // ---------------------------------------------------------------------
  // Properties of the engine

  lemma PutAt(st: Store, loc: Loc, i: nat, r: Retriever, l: Loc, k: nat)
    requires st.Valid(loc, i) && st.Valid(l, k)
    ensures st.Put(loc, i, r).Valid(l, k)
    ensures st.Put(loc, i, r).At(l, k) == if l == loc && k == i then r else st.At(l, k)
  {
  }

  lemma PutPut(st: Store, loc: Loc, i: nat, r1: Retriever, r2: Retriever)
    requires st.Valid(loc, i)
    ensures st.Put(loc, i, r1).Valid(loc, i)
    ensures st.Put(loc, i, r1).Put(loc, i, r2) == st.Put(loc, i, r2)
  {
    if loc.Piece? {
      assert st.Put(loc, i, r1).pieces[loc.name][i := r2] == st.pieces[loc.name][i := r2];
    }
  }

  lemma PutSame(st: Store, loc: Loc, i: nat)
    requires st.Valid(loc, i)
    ensures st.Put(loc, i, st.At(loc, i)) == st
  {
    if loc.Piece? {
      assert st.pieces[loc.name][i := st.At(loc, i)] == st.pieces[loc.name];
      assert st.pieces[loc.name := st.pieces[loc.name]] == st.pieces;
    } else {
      assert st.here[i := st.At(loc, i)] == st.here;
    }
  }

  lemma {:induction false} FindRetrieverFrames(a: seq<Retriever>, b: seq<Retriever>, name: string)
    requires Frames(a) == Frames(b)
    ensures FindRetriever(a, name) == FindRetriever(b, name)
  {
    FramesEqual(a, b);
    if a != [] {
      assert Frames(a[1..]) == Frames(b[1..]) by {
        FramesEqual(a, b);
        assert forall i :: 0 <= i < |a[1..]| ==> Frames(a[1..])[i] == FrameOf(a[i + 1]);
      }
      FindRetrieverFrames(a[1..], b[1..], name);
    }
  }

  /** Where a target lives depends only on the names, never on the data. */
  lemma TargetRefShape(a: Store, b: Store, cur: Loc, h: Hook, j: nat)
    requires Shape(a) == Shape(b) && a.Has(cur) && j < |h.targetPieces|
    ensures b.Has(cur) && TargetRef(a, cur, h, j) == TargetRef(b, cur, h, j)
  {
    SameShape(a, b);
    var la := HandleDependencyTarget(h.targetPieces[j], cur, a);
    if la.Ok? && j < |h.attrNames| {
      var l := la.value;
      if l.Here? {
        FramesEqual(a.here, b.here);
        assert Frames(a.here) == Frames(b.here);
      } else {
        assert Shape(a).1[l.name] == Frames(a.pieces[l.name]);
        assert Shape(b).1[l.name] == Frames(b.pieces[l.name]);
      }
      FindRetrieverFrames(a.Lookup(l), b.Lookup(l), h.attrNames[j]);
    }
  }

  /** A state string other than construct, commit or refresh is a ValueError. */
  lemma UnknownStateFails(fuel: nat, st: Store, cur: Loc, idx: nat, state: string)
    requires st.Valid(cur, idx) && fuel > 0
    requires state != "construct" && state != "commit" && state != "refresh"
    ensures Resolve(fuel, st, cur, idx, state) == Err(UnknownState)
  {
  }

  /** A retriever without the attribute of the state's phase is an AttributeError. */
  lemma MissingPhaseFails(fuel: nat, st: Store, cur: Loc, idx: nat, state: string)
    requires st.Valid(cur, idx) && fuel > 0
    requires PhaseOf(state).Some? && PhaseOf(state).value !in st.At(cur, idx).hooks
    ensures Resolve(fuel, st, cur, idx, state) == Err(AttributeError)
  {
  }

  /** The result of running two hook lists back to back. */
  function Then(r: Result<Store, Error>, fuel: nat, cur: Loc, idx: nat, hooks: seq<Hook>): Result<Store, Error>
    requires r.Ok? ==> r.value.Valid(cur, idx)
  {
    match r
    case Err(e) => Err(e)
    case Ok(s) => RunHooks(fuel, s, cur, idx, hooks, 0)
  }

  lemma {:induction false} RunHooksSuffix(fuel: nat, st: Store, cur: Loc, idx: nat, h1: seq<Hook>, h2: seq<Hook>, m: nat)
    requires st.Valid(cur, idx) && m <= |h2|
    ensures RunHooks(fuel, st, cur, idx, h1 + h2, |h1| + m) == RunHooks(fuel, st, cur, idx, h2, m)
    decreases |h2| - m
  {
    if m < |h2| {
      assert (h1 + h2)[|h1| + m] == h2[m];
      var r := RunHook(fuel, st, cur, idx, h2[m]);
      if r.Ok? {
        SameShape(r.value, st);
        RunHooksSuffix(fuel, r.value, cur, idx, h1, h2, m + 1);
      }
    }
  }

  /**
   * Hooks run in list order and every one runs: the hooks h1 + h2 do what
   * h1 does and then what h2 does, and an error in h1 stops the rest.
   */
  lemma {:induction false} RunHooksAppend(fuel: nat, st: Store, cur: Loc, idx: nat, h1: seq<Hook>, h2: seq<Hook>, k: nat)
    requires st.Valid(cur, idx) && k <= |h1|
    ensures SameShapeValid(RunHooks(fuel, st, cur, idx, h1, k), st, cur, idx)
    ensures RunHooks(fuel, st, cur, idx, h1 + h2, k) == Then(RunHooks(fuel, st, cur, idx, h1, k), fuel, cur, idx, h2)
    decreases |h1| - k
  {
    var r1 := RunHooks(fuel, st, cur, idx, h1, k);
    if r1.Ok? { SameShape(r1.value, st); }
    if k == |h1| {
      RunHooksSuffix(fuel, st, cur, idx, h1, h2, 0);
    } else {
      assert (h1 + h2)[k] == h1[k];
      var r := RunHook(fuel, st, cur, idx, h1[k]);
      if r.Ok? {
        SameShape(r.value, st);
        RunHooksAppend(fuel, r.value, cur, idx, h1, h2, k + 1);
      }
    }
  }

  predicate SameShapeValid(r: Result<Store, Error>, st: Store, cur: Loc, idx: nat) {
    r.Ok? ==> r.value.Valid(cur, idx)
  }

  /**
   * A REFRESH_SELF hook first in a retriever's own refresh hooks recurses
   * without end: whatever the recursion budget, the result is RecursionError.
   */
  lemma {:induction false} RefreshSelfLoops(fuel: nat, st: Store, cur: Loc, idx: nat)
    requires st.Valid(cur, idx)
    requires OnRefresh in st.At(cur, idx).hooks
    requires |st.At(cur, idx).hooks[OnRefresh]| > 0 && st.At(cur, idx).hooks[OnRefresh][0].action == RefreshSelf
    ensures Resolve(fuel, st, cur, idx, "refresh") == Err(RecursionError)
  {
    if fuel > 0 {
      var hooks := st.At(cur, idx).hooks[OnRefresh];
      RefreshSelfLoops(fuel - 1, st, cur, idx);
      assert RunHook(fuel - 1, st, cur, idx, hooks[0]) == Err(RecursionError);
      assert RunHooks(fuel - 1, st, cur, idx, hooks, 0) == Err(RecursionError);
    }
  }

  /**
   * Every target of the hook can be read, is not the hook's own retriever,
   * and evaluates (to an integer, for SET_REPEAT).
   */
  predicate ReadsOtherTargets(st: Store, cur: Loc, idx: nat, h: Hook)
    requires st.Has(cur)
  {
    forall j :: 0 <= j < |h.targetPieces| ==> ReadsTarget(st, cur, idx, h, j)
  }

  /** The j-th target of the hook can be read, is not the hook's own retriever, and evaluates (to an integer, for SET_REPEAT). */
  predicate ReadsTarget(st: Store, cur: Loc, idx: nat, h: Hook, j: nat)
    requires st.Has(cur) && j < |h.targetPieces|
  {
    var ref := TargetRef(st, cur, h, j);
    ref.Ok? && ref.value != (cur, idx) &&
    var v := HandleDependencyEval(h.eval, st.At(ref.value.0, ref.value.1).data);
    v.Ok? && (h.action == SetRepeat ==> v.value.Int?)
  }

  /** The value a SET hook computes from its j-th target. */
  function TargetValue(st: Store, cur: Loc, idx: nat, h: Hook, j: nat): Value
    requires st.Has(cur) && j < |h.targetPieces| && ReadsTarget(st, cur, idx, h, j)
  {
    var ref := TargetRef(st, cur, h, j).value;
    HandleDependencyEval(h.eval, st.At(ref.0, ref.1).data).value
  }

  /** The hook's own retriever once SET_VALUE has stored v as its data, or SET_REPEAT an integer v as its repeat. */
  function Stored(r: Retriever, action: Action, v: Value): Retriever {
    if action == SetValue then r.(data := v)
    else if v.Int? then r.(dataType := r.dataType.(repeat := v.i))
    else r
  }

  /** What a SET_VALUE or SET_REPEAT hook overwrites: the data, or the repeat count. */
  function Current(r: Retriever, action: Action): Value {
    if action == SetValue then r.data else Int(r.dataType.repeat)
  }

  /** SET_VALUE or SET_REPEAT on one target other than the retriever itself: the evaluated value is stored. */
  lemma AssignVisit(st: Store, cur: Loc, idx: nat, h: Hook, j: nat, d: Value)
    requires st.Valid(cur, idx) && (h.action == SetValue || h.action == SetRepeat)
    requires j < |h.targetPieces| && ReadsTarget(st, cur, idx, h, j)
    ensures var r0 := st.At(cur, idx);
      AssignTarget(st.Put(cur, idx, Stored(r0, h.action, d)), cur, idx, h, j)
      == Ok(st.Put(cur, idx, Stored(r0, h.action, TargetValue(st, cur, idx, h, j))))
  {
    var r0 := st.At(cur, idx);
    var rd := Stored(r0, h.action, d);
    var s := st.Put(cur, idx, rd);
    PutKeepsShape(st, cur, idx, rd);
    TargetRefShape(st, s, cur, h, j);
    var ref := TargetRef(st, cur, h, j).value;
    PutAt(st, cur, idx, rd, ref.0, ref.1);
    PutAt(st, cur, idx, rd, cur, idx);
    var v := TargetValue(st, cur, idx, h, j);
    assert ApplyValue(s, cur, idx, h.action, v) == Ok(s.Put(cur, idx, Stored(r0, h.action, v)));
    PutPut(st, cur, idx, rd, Stored(r0, h.action, v));
  }

  /** The j-th of several SET_VALUE or SET_REPEAT targets: the rest start from its value. */
  lemma AssignNext(st: Store, cur: Loc, idx: nat, h: Hook, j: nat, d: Value)
    requires st.Valid(cur, idx) && (h.action == SetValue || h.action == SetRepeat)
    requires j < |h.targetPieces| && ReadsTarget(st, cur, idx, h, j)
    ensures var r0 := st.At(cur, idx);
      AssignTargets(st.Put(cur, idx, Stored(r0, h.action, d)), cur, idx, h, j)
      == AssignTargets(st.Put(cur, idx, Stored(r0, h.action, TargetValue(st, cur, idx, h, j))), cur, idx, h, j + 1)
  {
    AssignVisit(st, cur, idx, h, j, d);
  }

  /**
   * Running the targets from the k-th on with ds[k] stored comes to the same
   * as running them from the (k+1)-th on with ds[k + 1] stored.
   */
  predicate AssignLink(st: Store, cur: Loc, idx: nat, h: Hook, ds: seq<Value>, k: nat)
    requires st.Valid(cur, idx) && (h.action == SetValue || h.action == SetRepeat) && k + 1 < |ds|
  {
    var r0 := st.At(cur, idx);
    AssignTargets(st.Put(cur, idx, Stored(r0, h.action, ds[k])), cur, idx, h, k)
    == AssignTargets(st.Put(cur, idx, Stored(r0, h.action, ds[k + 1])), cur, idx, h, k + 1)
  }

  /** Links all along from the j-th target: what is stored at the end is ds's last value. */
  lemma {:induction false} AssignChain(st: Store, cur: Loc, idx: nat, h: Hook, ds: seq<Value>, j: nat)
    requires st.Valid(cur, idx) && (h.action == SetValue || h.action == SetRepeat)
    requires |ds| == |h.targetPieces| + 1 && j < |ds|
    requires forall k :: j <= k < |h.targetPieces| ==> AssignLink(st, cur, idx, h, ds, k)
    ensures AssignTargets(st.Put(cur, idx, Stored(st.At(cur, idx), h.action, ds[j])), cur, idx, h, j)
      == Ok(st.Put(cur, idx, Stored(st.At(cur, idx), h.action, ds[|h.targetPieces|])))
    decreases |h.targetPieces| - j
  {
    if j < |h.targetPieces| {
      assert AssignLink(st, cur, idx, h, ds, j);
      AssignChain(st, cur, idx, h, ds, j + 1);
    }
  }

  /** Every target overwrites what the one before it stored. */
  lemma AssignLinks(st: Store, cur: Loc, idx: nat, h: Hook, ds: seq<Value>)
    requires st.Valid(cur, idx) && (h.action == SetValue || h.action == SetRepeat) && ReadsOtherTargets(st, cur, idx, h)
    requires |ds| == |h.targetPieces| + 1
    requires forall k :: 0 <= k < |h.targetPieces| ==> ds[k + 1] == TargetValue(st, cur, idx, h, k)
    ensures forall k :: 0 <= k < |h.targetPieces| ==> AssignLink(st, cur, idx, h, ds, k)
  {
    forall k | 0 <= k < |h.targetPieces| ensures AssignLink(st, cur, idx, h, ds, k) {
      AssignNext(st, cur, idx, h, k, ds[k]);
    }
  }

  /** The targets in turn, each overwriting the value the one before left. */
  lemma AssignTargetsLast(st: Store, cur: Loc, idx: nat, h: Hook)
    requires st.Valid(cur, idx) && (h.action == SetValue || h.action == SetRepeat) && ReadsOtherTargets(st, cur, idx, h)
    requires |h.targetPieces| > 0
    ensures AssignTargets(st, cur, idx, h, 0)
      == Ok(st.Put(cur, idx, Stored(st.At(cur, idx), h.action, TargetValue(st, cur, idx, h, |h.targetPieces| - 1))))
  {
    var n := |h.targetPieces|;
    var r0 := st.At(cur, idx);
    // ds[k] is what is stored before the k-th target
    var ds := seq(n + 1, k requires 0 <= k <= n => if k == 0 then Current(r0, h.action) else TargetValue(st, cur, idx, h, k - 1));
    AssignLinks(st, cur, idx, h, ds);
    AssignChain(st, cur, idx, h, ds, 0);
    assert Stored(r0, h.action, Current(r0, h.action)) == r0;
    PutSame(st, cur, idx);
  }

  /**
   * SET_VALUE and SET_REPEAT store the evaluated expression in the hook's own
   * retriever, as its data or as its repeat count, once per target; when the
   * targets are other retrievers, the last one wins and nothing else in the
   * store changes.
   */
  lemma SetLastTargetWins(fuel: nat, st: Store, cur: Loc, idx: nat, h: Hook)
    requires st.Valid(cur, idx) && (h.action == SetValue || h.action == SetRepeat) && ReadsOtherTargets(st, cur, idx, h)
    requires |h.targetPieces| > 0
    ensures var r := st.At(cur, idx);
      var v := TargetValue(st, cur, idx, h, |h.targetPieces| - 1);
      RunHook(fuel, st, cur, idx, h)
      == Ok(st.Put(cur, idx, if h.action == SetValue then r.(data := v) else r.(dataType := r.dataType.(repeat := v.i))))
  {
    var r := st.At(cur, idx);
    var v := TargetValue(st, cur, idx, h, |h.targetPieces| - 1);
    assert ReadsTarget(st, cur, idx, h, |h.targetPieces| - 1);
    assert h.action == SetRepeat ==> v.Int?;
    RunTargetsAssign(fuel, st, cur, idx, h, 0);
    AssignTargetsLast(st, cur, idx, h);
  }

  /**
   * A field whose hook is SET_VALUE from field "B" of its own section through
   * `x * 2` holds twice B's value after that phase's hooks have run.
   */
  lemma TwiceOtherField(fuel: nat, st: Store, ia: nat, ib: nat, b: int, state: string, locals: map<string, Value>)
    requires fuel > 0 && ia < |st.here| && PhaseOf(state).Some?
    requires st.here[ia].hooks == map[PhaseOf(state).value :=
      [Hook(SetValue, ["self"], ["B"], DependencyEval(Mul(Name("x"), Const(2)), locals, []))]]
    requires FindRetriever(st.here, "B") == Some(ib) && ib != ia && st.here[ib].data == Int(b)
    ensures Resolve(fuel, st, Here, ia, state) == Ok(st.Put(Here, ia, st.here[ia].(data := Int(2 * b))))
  {
    var h := Hook(SetValue, ["self"], ["B"], DependencyEval(Mul(Name("x"), Const(2)), locals, []));
    assert TargetRef(st, Here, h, 0) == Ok((Here, ib));
    EvalTwiceX(locals, b);
    assert ReadsOtherTargets(st, Here, ia, h);
    SetLastTargetWins(fuel - 1, st, Here, ia, h);
    var s := st.Put(Here, ia, st.here[ia].(data := Int(2 * b)));
    PutKeepsShape(st, Here, ia, st.here[ia].(data := Int(2 * b)));
    SameShape(s, st);
    assert RunHooks(fuel - 1, st, Here, ia, [h], 0) == RunHooks(fuel - 1, s, Here, ia, [h], 1);
  }
}
