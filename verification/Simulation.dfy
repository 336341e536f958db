/** When two trees of the same shape run alike.

    Several passes only change expressions, and only into expressions that mean the same
    wherever they are evaluated. This module proves once, for whole statement trees, that
    such a change cannot be observed. */
module Simulation {
  import opened Ir
  import opened Semantics

  // ---------------------------------------------------------------------
  // Expressions
  // ---------------------------------------------------------------------

  /** The two expressions evaluate alike in this store. */
  ghost predicate SameAt(h: Host, e: Expr, f: Expr, frames: Frames) {
    forall trace :: Eval(h, e, frames, trace) == Eval(h, f, frames, trace)
  }

  ghost predicate SameAllAt(h: Host, es: seq<Expr>, fs: seq<Expr>, frames: Frames) {
    |es| == |fs| && forall i | 0 <= i < |es| :: SameAt(h, es[i], fs[i], frames)
  }

  /** The two expressions evaluate alike in every store. */
  ghost predicate SameValue(h: Host, e: Expr, f: Expr) {
    forall frames, trace :: Eval(h, e, frames, trace) == Eval(h, f, frames, trace)
  }

  ghost predicate SameValues(h: Host, es: seq<Expr>, fs: seq<Expr>) {
    |es| == |fs| && forall i | 0 <= i < |es| :: SameValue(h, es[i], fs[i])
  }

  lemma {:induction false} SameAllEval(h: Host, es: seq<Expr>, fs: seq<Expr>, frames: Frames, trace: Trace)
    requires SameAllAt(h, es, fs, frames)
    ensures EvalAll(h, es, frames, trace) == EvalAll(h, fs, frames, trace)
  {
    if es != [] {
      assert SameAt(h, es[0], fs[0], frames);
      assert SameAllAt(h, es[1..], fs[1..], frames);
      var r := Eval(h, es[0], frames, trace);
      if r.Val? { SameAllEval(h, es[1..], fs[1..], frames, r.trace); }
    }
  }

  /** Evaluation is a congruence: replacing the children of a node by children that
      evaluate alike gives a node that evaluates alike. */
  lemma Congruence(h: Host, e: Expr, f: Expr)
    requires SameHead(e, f) && SameValues(h, Children(e), Children(f))
    ensures SameValue(h, e, f)
  {
    forall frames, trace
      ensures Eval(h, e, frames, trace) == Eval(h, f, frames, trace)
    {
      forall i | 0 <= i < |Children(e)| ensures SameAt(h, Children(e)[i], Children(f)[i], frames) {
        assert SameValue(h, Children(e)[i], Children(f)[i]);
      }
      CongruenceAt(h, e, f, frames);
      assert SameAt(h, e, f, frames);
    }
  }

  /** The same in a single store. */
  lemma CongruenceAt(h: Host, e: Expr, f: Expr, frames: Frames)
    requires SameHead(e, f) && SameAllAt(h, Children(e), Children(f), frames)
    ensures SameAt(h, e, f, frames)
  {
    forall trace ensures Eval(h, e, frames, trace) == Eval(h, f, frames, trace) {
      if e.Unary? || e.Binary? || e.Ternary? || e.StorageGet? {
        CongruenceFixed(h, e, f, frames, trace);
      } else if e.Nary? || e.RawHostCall? || e.MethodCall? || e.PublishEvent? || e.Invoke? {
        CongruenceList(h, e, f, frames, trace);
      }
    }
  }

  lemma CongruenceFixed(h: Host, e: Expr, f: Expr, frames: Frames, trace: Trace)
    requires e.Unary? || e.Binary? || e.Ternary? || e.StorageGet?
    requires SameHead(e, f) && SameAllAt(h, Children(e), Children(f), frames)
    ensures Eval(h, e, frames, trace) == Eval(h, f, frames, trace)
  {
    assert SameAt(h, Children(e)[0], Children(f)[0], frames);
    match e
    case Binary(_, a, b) => assert SameAt(h, Children(e)[1], Children(f)[1], frames);
    case Ternary(_, a, b, c) =>
      assert SameAt(h, Children(e)[1], Children(f)[1], frames);
      assert SameAt(h, Children(e)[2], Children(f)[2], frames);
    case _ =>
  }

  lemma CongruenceList(h: Host, e: Expr, f: Expr, frames: Frames, trace: Trace)
    requires e.Nary? || e.RawHostCall? || e.MethodCall? || e.PublishEvent? || e.Invoke?
    requires SameHead(e, f) && SameAllAt(h, Children(e), Children(f), frames)
    ensures Eval(h, e, frames, trace) == Eval(h, f, frames, trace)
  {
    var es, fs := Children(e), Children(f);
    match e
    case MethodCall(a, _, args) =>
      assert SameAt(h, es[0], fs[0], frames) && es[1..] == args && fs[1..] == f.args;
      var r := Eval(h, a, frames, trace);
      if r.Val? { SameAllEval(h, args, f.args, frames, r.trace); }
    case PublishEvent(_, topics, data) =>
      var n := |topics|;
      assert SameAt(h, es[n], fs[n], frames) && es[..n] == topics && fs[..n] == f.topics;
      SameAllEval(h, topics, f.topics, frames, trace);
    case Invoke(_, _, _, _) => CongruenceInvoke(h, e, f, frames, trace);
    case _ => SameAllEval(h, es, fs, frames, trace);
  }

  lemma CongruenceInvoke(h: Host, e: Expr, f: Expr, frames: Frames, trace: Trace)
    requires e.Invoke? && SameHead(e, f) && SameAllAt(h, Children(e), Children(f), frames)
    ensures Eval(h, e, frames, trace) == Eval(h, f, frames, trace)
  {
    var es, fs := Children(e), Children(f);
    assert SameAt(h, es[0], fs[0], frames) && SameAt(h, es[1], fs[1], frames);
    assert es[2..] == e.args && fs[2..] == f.args;
    var r := Eval(h, e.address, frames, trace);
    if r.Val? {
      var r' := Eval(h, e.callee, frames, r.trace);
      if r'.Val? { SameAllEval(h, e.args, f.args, frames, r'.trace); }
    }
  }

  // ---------------------------------------------------------------------
  // Statements
  // ---------------------------------------------------------------------

  /** `?` in statement position discards its value, so it must stay one or stay none. */
  predicate IsTry(e: Expr) { e.Unary? && e.uop == Try }

  /** Same statement up to expressions that evaluate alike. */
  ghost predicate Alike(h: Host, s: Stmt, s': Stmt)
    decreases s, 1
  {
    match s
    case ExprStmt(e) => s'.ExprStmt? && SameValue(h, e, s'.e) && IsTry(e) == IsTry(s'.e)
    case Let(x, _, e) => s'.Let? && x == s'.name && SameValue(h, e, s'.value)
    case Assign(x, e) => s'.Assign? && x == s'.target && SameValue(h, e, s'.value)
    case Return(Some(e)) => s'.Return? && s'.result.Some? && SameValue(h, e, s'.result.value)
    case If(c, a, b) =>
      && s'.If? && SameValue(h, c, s'.cond)
      && AlikeAll(h, a, s'.thenBody) && AlikeAll(h, b, s'.elseBody)
    case Match(e, arms) => s'.Match? && SameValue(h, e, s'.scrutinee) && AlikeArms(h, arms, s'.arms)
    case Loop(b) => s'.Loop? && AlikeAll(h, b, s'.body)
    case For(x, lo, hi, step, b) =>
      && s'.For? && x == s'.loopVar && step == s'.step
      && SameValue(h, lo, s'.start) && SameValue(h, hi, s'.end) && AlikeAll(h, b, s'.body)
    case Block(b) => s'.Block? && AlikeAll(h, b, s'.body)
    case _ => s == s'
  }

  ghost predicate AlikeAll(h: Host, ss: seq<Stmt>, ss': seq<Stmt>)
    decreases ss, 0
  {
    |ss| == |ss'| && (ss == [] || (Alike(h, ss[0], ss'[0]) && AlikeAll(h, ss[1..], ss'[1..])))
  }

  ghost predicate AlikeArms(h: Host, arms: seq<Arm>, arms': seq<Arm>)
    decreases arms, 0
  {
    |arms| == |arms'| &&
    (arms == [] ||
     (&& arms[0].pattern == arms'[0].pattern
      && AlikeAll(h, arms[0].body, arms'[0].body)
      && AlikeArms(h, arms[1..], arms'[1..])))
  }

  lemma {:induction false} ExecAlike(h: Host, fuel: nat, s: Stmt, s': Stmt, frames: Frames, trace: Trace)
    requires Alike(h, s, s')
    ensures Exec(h, fuel, s, frames, trace) == Exec(h, fuel, s', frames, trace)
    decreases fuel, s, 2
  {
    match s
    case If(c, a, b) => ExecIfAlike(h, fuel, s, s', frames, trace);
    case Match(e, arms) =>
      var r := Eval(h, e, frames, trace);
      if r.Val? { ExecArmsAlike(h, fuel, arms, s'.arms, r.word, frames, r.trace); }
    case Loop(b) => ExecLoopAlike(h, fuel, b, s'.body, frames, trace);
    case Block(b) => ExecBlockAlike(h, fuel, b, s'.body, map[], frames, trace);
    case For(x, lo, hi, step, b) => ExecRangeAlike(h, fuel, s, s', frames, trace);
    case _ =>
  }

  lemma {:induction false} ExecIfAlike(h: Host, fuel: nat, s: Stmt, s': Stmt, frames: Frames, trace: Trace)
    requires s.If? && Alike(h, s, s')
    ensures Exec(h, fuel, s, frames, trace) == Exec(h, fuel, s', frames, trace)
    decreases fuel, s, 1
  {
    var r := Eval(h, s.cond, frames, trace);
    if r.Val? {
      ExecBlockAlike(h, fuel, s.thenBody, s'.thenBody, map[], frames, r.trace);
      ExecBlockAlike(h, fuel, s.elseBody, s'.elseBody, map[], frames, r.trace);
    }
  }

  lemma {:induction false} ExecRangeAlike(h: Host, fuel: nat, s: Stmt, s': Stmt, frames: Frames, trace: Trace)
    requires s.For? && Alike(h, s, s')
    ensures Exec(h, fuel, s, frames, trace) == Exec(h, fuel, s', frames, trace)
    decreases fuel, s, 1
  {
    var r := Eval(h, s.start, frames, trace);
    if r.Val? {
      var r' := Eval(h, s.end, frames, r.trace);
      if r'.Val? { ExecForAlike(h, fuel, s.loopVar, r.word, r'.word, s.step, s.body, s'.body, frames, r'.trace); }
    }
  }

  lemma {:induction false} ExecAllAlike(h: Host, fuel: nat, ss: seq<Stmt>, ss': seq<Stmt>, frames: Frames, trace: Trace)
    requires AlikeAll(h, ss, ss')
    ensures ExecAll(h, fuel, ss, frames, trace) == ExecAll(h, fuel, ss', frames, trace)
    decreases fuel, ss, 0
  {
    if ss != [] {
      ExecAlike(h, fuel, ss[0], ss'[0], frames, trace);
      var o := Exec(h, fuel, ss[0], frames, trace);
      if o.Normal? { ExecAllAlike(h, fuel, ss[1..], ss'[1..], o.frames, o.trace); }
    }
  }

  lemma {:induction false} ExecBlockAlike(h: Host, fuel: nat, ss: seq<Stmt>, ss': seq<Stmt>, scope: Frame, frames: Frames, trace: Trace)
    requires AlikeAll(h, ss, ss')
    ensures ExecBlock(h, fuel, ss, scope, frames, trace) == ExecBlock(h, fuel, ss', scope, frames, trace)
    decreases fuel, ss, 1
  {
    var inner := frames + [scope];
    ExecAllAlike(h, fuel, ss, ss', inner, trace);
  }

  lemma {:induction false} ExecArmsAlike(h: Host, fuel: nat, arms: seq<Arm>, arms': seq<Arm>, w: Word, frames: Frames, trace: Trace)
    requires AlikeArms(h, arms, arms')
    ensures ExecArms(h, fuel, arms, w, frames, trace) == ExecArms(h, fuel, arms', w, frames, trace)
    decreases fuel, arms, 0
  {
    if arms != [] {
      var b, b' := arms[0].body, arms'[0].body;
      match arms[0].pattern
      case Wildcard => ExecBlockAlike(h, fuel, b, b', map[], frames, trace);
      case EnumVariant(ty, v, xs) =>
        if h.matches(ty, v, w) {
          ExecBlockAlike(h, fuel, b, b', Payload(h, ty, v, w, xs), frames, trace);
        } else {
          ExecArmsAlike(h, fuel, arms[1..], arms'[1..], w, frames, trace);
        }
      case Literal(e) =>
        var r := Eval(h, e, frames, trace);
        if r.Val? && r.word == w {
          ExecBlockAlike(h, fuel, b, b', map[], frames, r.trace);
        } else if r.Val? {
          ExecArmsAlike(h, fuel, arms[1..], arms'[1..], w, frames, r.trace);
        }
    }
  }

  lemma {:induction false} ExecLoopAlike(h: Host, fuel: nat, body: seq<Stmt>, body': seq<Stmt>, frames: Frames, trace: Trace)
    requires AlikeAll(h, body, body')
    ensures ExecLoop(h, fuel, body, frames, trace) == ExecLoop(h, fuel, body', frames, trace)
    decreases fuel, body, 3
  {
    if fuel != 0 {
      ExecBlockAlike(h, fuel - 1, body, body', map[], frames, trace);
      var o := ExecBlock(h, fuel - 1, body, map[], frames, trace);
      if o.Normal? || o.Continued? {
        ExecLoopAlike(h, fuel - 1, body, body', o.frames, o.trace);
      }
    }
  }

  lemma {:induction false} ExecForAlike(h: Host, fuel: nat, x: string, lo: Word, hi: Word, step: int, body: seq<Stmt>, body': seq<Stmt>, frames: Frames, trace: Trace)
    requires AlikeAll(h, body, body')
    ensures ExecFor(h, fuel, x, lo, hi, step, body, frames, trace) == ExecFor(h, fuel, x, lo, hi, step, body', frames, trace)
    decreases fuel, body, 3
  {
    if lo < hi && fuel != 0 {
      ExecBlockAlike(h, fuel - 1, body, body', map[x := lo], frames, trace);
      var o := ExecBlock(h, fuel - 1, body, map[x := lo], frames, trace);
      if o.Normal? || o.Continued? {
        ExecForAlike(h, fuel - 1, x, lo + step, hi, step, body, body', o.frames, o.trace);
      }
    }
  }

  // ---------------------------------------------------------------------
  // Loop invariants
  // ---------------------------------------------------------------------

  /** What a run leaves behind satisfies the invariant. */
  ghost predicate Upholds(o: Outcome, inv: Frames -> bool) {
    o.Normal? || o.Broke? || o.Continued? ==> inv(o.frames)
  }

  /** One turn of the two bodies is the same, and keeps the invariant. */
  ghost predicate TurnAlike(h: Host, fuel: nat, body: seq<Stmt>, body': seq<Stmt>, scope: Frame, inv: Frames -> bool, frames: Frames, trace: Trace) {
    && ExecBlock(h, fuel, body, scope, frames, trace) == ExecBlock(h, fuel, body', scope, frames, trace)
    && Upholds(ExecBlock(h, fuel, body, scope, frames, trace), inv)
  }

  lemma {:induction false} LoopInvariant(h: Host, fuel: nat, body: seq<Stmt>, body': seq<Stmt>, inv: Frames -> bool, frames: Frames, trace: Trace)
    requires inv(frames)
    requires forall k: nat, f, t | k < fuel && inv(f) :: TurnAlike(h, k, body, body', map[], inv, f, t)
    ensures ExecLoop(h, fuel, body, frames, trace) == ExecLoop(h, fuel, body', frames, trace)
    ensures Upholds(ExecLoop(h, fuel, body, frames, trace), inv)
  {
    if fuel != 0 {
      assert TurnAlike(h, fuel - 1, body, body', map[], inv, frames, trace);
      var o := ExecBlock(h, fuel - 1, body, map[], frames, trace);
      if o.Normal? || o.Continued? { LoopInvariant(h, fuel - 1, body, body', inv, o.frames, o.trace); }
    }
  }

  lemma {:induction false} ForInvariant(h: Host, fuel: nat, x: string, lo: Word, hi: Word, step: int, body: seq<Stmt>,
                                        inv: Frames -> bool, frames: Frames, trace: Trace)
    requires inv(frames)
    requires forall k: nat, w, f, t | k < fuel && inv(f) :: TurnAlike(h, k, body, body, map[x := w], inv, f, t)
    ensures Upholds(ExecFor(h, fuel, x, lo, hi, step, body, frames, trace), inv)
  {
    if lo < hi && fuel != 0 {
      assert TurnAlike(h, fuel - 1, body, body, map[x := lo], inv, frames, trace);
      var o := ExecBlock(h, fuel - 1, body, map[x := lo], frames, trace);
      if o.Normal? || o.Continued? { ForInvariant(h, fuel - 1, x, lo + step, hi, step, body, inv, o.frames, o.trace); }
    }
  }
}
