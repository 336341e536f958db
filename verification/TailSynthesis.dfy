/** How the body of a contract function ends (`generate_contract_fn`): with what was lifted,
    with a synthesized `Ok(())` or `todo!()`, or as a stub. */
module TailSynthesis {
  import opened Ir
  import opened Spec
  import opened Semantics
  import opened Recovery

  predicate IsUnitOkType(t: SpecType) {
    match t
    case TVoid => true
    case TTuple(types) => types == []
    case _ => false
  }

  function Last(ss: seq<Stmt>): Option<Stmt> {
    if ss == [] then None else Some(ss[|ss| - 1])
  }

  predicate NeedsOkUnitTail(returnType: Option<SpecType>, body: seq<Stmt>) {
    && returnType.Some? && returnType.value.TResult?
    && IsUnitOkType(returnType.value.ok)
    && !(Last(body).Some? && Last(body).value.Return?)
  }

  predicate NeedsTodoValueTail(returnType: Option<SpecType>, body: seq<Stmt>) {
    match returnType
    case None => false
    case Some(TVoid) => false
    case Some(t) =>
      !(t.TResult? && IsUnitOkType(t.ok)) &&
      (match Last(body) case Some(s) => TailIsUnit(s) case None => false)
  }

  predicate CodegenSynthesizesTail(returnType: Option<SpecType>, body: seq<Stmt>) {
    NeedsOkUnitTail(returnType, body) || NeedsTodoValueTail(returnType, body)
  }

  predicate ExprIsUnitTyped(e: Expr) {
    match e
    case Unary(op, _) => op.StorageRemove? || op in {RequireAuth, AuthorizeAsCurrContract, PrngReseed, Try}
    case Binary(op, _, _) => op.StorageSet? || op in {ExtendInstanceAndCodeTtl, RequireAuthForArgs}
    case Ternary(op, _, _, _) => op.StorageExtendTtl?
    case PublishEvent(_, _, _) => true
    case Nary(op, _) => op == Log
    case _ => false
  }

  predicate TailIsUnit(s: Stmt)
    decreases s, 1
  {
    match s
    case If(_, a, b) => b == [] || (StmtsTailIsUnit(a) && StmtsTailIsUnit(b))
    case Loop(_) => true
    case For(_, _, _, _, _) => true
    case Block(b) => StmtsTailIsUnit(b)
    case ExprStmt(e) => ExprIsUnitTyped(e)
    case _ => false
  }

  predicate StmtsTailIsUnit(ss: seq<Stmt>)
    decreases ss, 0
  {
    if ss == [] then true else TailIsUnit(ss[|ss| - 1])
  }

  // ---------------------------------------------------------------------
  // The body choice
  // ---------------------------------------------------------------------

  datatype Ending = OwnBody | OkUnit | TodoValue | Stub

  /** Which of the four endings codegen emits. */
  method ChooseEnding(f: ContractFn) returns (r: Ending)
    ensures r == OkUnit <==> NeedsOkUnitTail(f.returnType, f.body)
    ensures r == TodoValue <==> NeedsTodoValueTail(f.returnType, f.body)
    ensures r == Stub <==> f.body == [] && f.returnType.Some? && f.returnType.value != TVoid &&
                           !(f.returnType.value.TResult? && IsUnitOkType(f.returnType.value.ok))
    ensures r in {OkUnit, TodoValue} <==> CodegenSynthesizesTail(f.returnType, f.body)
  {
    var needsOk := NeedsOkUnitTail(f.returnType, f.body);
    var needsTodo := !needsOk && NeedsTodoValueTail(f.returnType, f.body);
    if needsOk {
      r := OkUnit;
    } else if needsTodo {
      r := TodoValue;
    } else if f.body == [] && f.returnType.Some? && f.returnType.value != TVoid {
      r := Stub;
    } else {
      r := OwnBody;
    }
  }

  /** The two synthesized tails exclude each other. */
  lemma TailsAreDisjoint(returnType: Option<SpecType>, body: seq<Stmt>)
    ensures !(NeedsOkUnitTail(returnType, body) && NeedsTodoValueTail(returnType, body))
  {
    if returnType.Some? && returnType.value.TResult? {}
  }

  /** For an empty body without host calls and without a raw signature, grading and codegen
      agree: the stub is emitted exactly if the logic is reported lost - except that a
      `Result<(), _>` is reported lost although codegen ends it with `Ok(())`. */
  method StubMeansLogicLost(name: string, f: ContractFn) returns (ending: Ending, graded: FnRecovery)
    requires f.body == [] && !f.hadHostCalls && f.wasmResults.None?
    ensures graded.status == LogicLost <==> ending == Stub || ending == OkUnit
    ensures ending == OkUnit <==> f.returnType.Some? && f.returnType.value.TResult? && IsUnitOkType(f.returnType.value.ok)
    ensures graded.status == Trivial <==> ending == OwnBody
  {
    ending := ChooseEnding(f);
    graded := ScoreFn(name, f);
  }

  /** An empty function of type `Result<(), E>` is reported as lost although it ends with `Ok(())`. */
  method ResultUnitIsCalledLost(name: string, err: SpecType) returns (ending: Ending, graded: FnRecovery)
    ensures ending == OkUnit && graded.status == LogicLost
  {
    var f := ContractFn(name, Some(TResult(TVoid, err)), [], false, None);
    ending, graded := StubMeansLogicLost(name, f);
  }

  // ---------------------------------------------------------------------
  // Soundness
  // ---------------------------------------------------------------------

  /** The operations that the SDK types as `()` answer with the unit value. */
  ghost predicate UnitHost(h: Host) {
    forall op, ws, t: Trace | IsUnitOp(op) && h.apply(op, ws, t).Ok? :: h.apply(op, ws, t).word == VOID
  }

  predicate IsUnitOp(op: Op) {
    match op
    case OpUnary(u) => u.StorageRemove? || u == RequireAuth || u == AuthorizeAsCurrContract || u == PrngReseed
    case OpBinary(b) => b.StorageSet? || b == ExtendInstanceAndCodeTtl || b == RequireAuthForArgs
    case OpTernary(t) => t.StorageExtendTtl?
    case OpPublish(_) => true
    case OpNary(n) => n == Log
    case _ => false
  }

  lemma {:induction false} UnitExprYieldsUnit(h: Host, e: Expr, frames: Frames, trace: Trace)
    requires UnitHost(h) && ExprIsUnitTyped(e)
    ensures var r := Eval(h, e, frames, trace); r.Val? ==> r.word == VOID || (e.Unary? && e.uop == Try)
  {
    match e
    case Unary(op, a) =>
    case Binary(op, a, b) =>
    case Ternary(_, a, b, c) =>
    case PublishEvent(_, _, _) =>
    case Nary(_, _) =>
  }

  predicate YieldsUnit(o: Outcome) { o.Normal? ==> o.value == VOID }

  /** What `tail_is_unit` accepts has no value: every normal completion of it yields `()`,
      at any nesting, in any run. */
  lemma {:induction false} TailIsUnitSound(h: Host, fuel: nat, s: Stmt, frames: Frames, trace: Trace)
    requires UnitHost(h) && TailIsUnit(s)
    ensures YieldsUnit(Exec(h, fuel, s, frames, trace))
    decreases s, 1
  {
    match s
    case ExprStmt(e) => UnitExprYieldsUnit(h, e, frames, trace);
    case If(c, a, b) =>
      if b != [] {
        var r := Eval(h, c, frames, trace);
        if r.Val? {
          StmtsTailIsUnitSound(h, fuel, a, frames + [map[]], r.trace);
          StmtsTailIsUnitSound(h, fuel, b, frames + [map[]], r.trace);
        }
      }
    case Block(b) => StmtsTailIsUnitSound(h, fuel, b, frames + [map[]], trace);
    case Loop(b) => LoopYieldsUnit(h, fuel, b, frames, trace);
    case For(x, lo, hi, step, b) =>
      var r := Eval(h, lo, frames, trace);
      if r.Val? {
        var r' := Eval(h, hi, frames, r.trace);
        if r'.Val? { ForYieldsUnit(h, fuel, x, r.word, r'.word, step, b, frames, r'.trace); }
      }
  }

  lemma {:induction false} StmtsTailIsUnitSound(h: Host, fuel: nat, ss: seq<Stmt>, frames: Frames, trace: Trace)
    requires UnitHost(h) && StmtsTailIsUnit(ss)
    ensures YieldsUnit(ExecAll(h, fuel, ss, frames, trace))
    decreases ss, 0
  {
    if |ss| == 1 {
      TailIsUnitSound(h, fuel, ss[0], frames, trace);
    } else if ss != [] {
      var o := Exec(h, fuel, ss[0], frames, trace);
      if o.Normal? { StmtsTailIsUnitSound(h, fuel, ss[1..], o.frames, o.trace); }
    }
  }

  lemma {:induction false} LoopYieldsUnit(h: Host, fuel: nat, body: seq<Stmt>, frames: Frames, trace: Trace)
    ensures YieldsUnit(ExecLoop(h, fuel, body, frames, trace))
    decreases fuel
  {
    if fuel != 0 {
      var o := ExecBlock(h, fuel - 1, body, map[], frames, trace);
      if o.Normal? || o.Continued? { LoopYieldsUnit(h, fuel - 1, body, o.frames, o.trace); }
    }
  }

  lemma {:induction false} ForYieldsUnit(h: Host, fuel: nat, x: string, lo: Word, hi: Word, step: int, body: seq<Stmt>, frames: Frames, trace: Trace)
    ensures YieldsUnit(ExecFor(h, fuel, x, lo, hi, step, body, frames, trace))
    decreases fuel
  {
    if lo < hi && fuel != 0 {
      var o := ExecBlock(h, fuel - 1, body, map[x := lo], frames, trace);
      if o.Normal? || o.Continued? { ForYieldsUnit(h, fuel - 1, x, lo + step, hi, step, body, o.frames, o.trace); }
    }
  }

  /** No recovered value is ever shadowed by a synthesized `todo!()`: a body that gets one
      either ends early or falls off its end with `()`. */
  lemma TodoTailHidesNoValue(h: Host, fuel: nat, returnType: Option<SpecType>, body: seq<Stmt>, frames: Frames, trace: Trace)
    requires UnitHost(h) && NeedsTodoValueTail(returnType, body)
    ensures YieldsUnit(ExecAll(h, fuel, body, frames, trace))
  {
    StmtsTailIsUnitSound(h, fuel, body, frames, trace);
  }

  /** Without an `else` the branch does not matter: a value at its end is discarded, so the
      test may not look at it. */
  lemma IfWithoutElseDiscards(h: Host, fuel: nat, w: Word, frames: Frames, trace: Trace)
    requires frames != []
    ensures TailIsUnit(If(BoolLit(true), [ExprStmt(Lit(I64, w))], [])) && !StmtsTailIsUnit([ExprStmt(Lit(I64, w))])
    ensures Exec(h, fuel, If(BoolLit(true), [ExprStmt(Lit(I64, w))], []), frames, trace) == Normal(frames, trace, VOID)
  {
    assert Pop(frames + [map[]]) == frames;
    assert ExecAll(h, fuel, [ExprStmt(Lit(I64, w))], frames + [map[]], trace) == Normal(frames + [map[]], trace, w);
  }
}
