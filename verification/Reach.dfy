/** Which outcomes an expression can have, read off its text.

    An expression yields a value, leaves the function through `?`, or aborts at a hole or panic it
    reaches. What it reaches depends on the operands that `&&` and `||` skip; where the left
    operand is a name or a literal, its truth is given by a valuation. */
module Reach {
  import opened Ir
  import opened Semantics

  type Valuation = string -> bool

  /** The truth of an operand that is a literal or a name. */
  function Known(e: Expr, v: Valuation): Option<bool> {
    match e
    case Lit(_, n) => Some(n != 0)
    case BoolLit(b) => Some(b)
    case Void => Some(true)
    case _ => if NameOf(e).Some? then Some(v(NameOf(e).value)) else None
  }

  predicate IsLazy(e: Expr) { e.Binary? && (e.bop == And || e.bop == Or) }

  /** The right operand may be skipped, or may be evaluated. */
  predicate MaySkip(e: Expr, v: Valuation)
    requires IsLazy(e)
  {
    Known(e.lhs, v) != Some(e.bop == And)
  }

  predicate MayGoOn(e: Expr, v: Valuation)
    requires IsLazy(e)
  {
    Known(e.lhs, v) != Some(e.bop == Or)
  }

  predicate IsPanicWithError(e: Expr) { e.Unary? && e.uop == PanicWithError }

  predicate IsTryOf(e: Expr) { e.Unary? && e.uop == Try }

  /** A storage read that evaluates its fallback whether or not the entry is there. */
  predicate HasEagerFallback(e: Expr) {
    e.StorageGet? && e.onMissing.Some? && !IsPanicWithError(e.onMissing.value)
  }

  /** The expression can yield a value. */
  predicate Yields(e: Expr, v: Valuation) {
    && e != UnknownVal && !e.CyclicSlot? && e != Panic && !IsPanicWithError(e)
    && (if IsLazy(e) then Yields(e.lhs, v) && (MaySkip(e, v) || Yields(e.rhs, v))
        else forall i :: 0 <= i < |Children(e)| ==> Yields(Children(e)[i], v))
    && (HasEagerFallback(e) ==> Yields(e.onMissing.value, v))
  }

  /** The expression can leave the function. */
  predicate Leaves(e: Expr, v: Valuation) {
    if IsLazy(e) then Leaves(e.lhs, v) || (Yields(e.lhs, v) && MayGoOn(e, v) && Leaves(e.rhs, v))
    else
      || (exists k :: 0 <= k < |Children(e)| && Leaves(Children(e)[k], v) && YieldsBefore(e, k, v))
      || (IsTryOf(e) && Yields(e.arg, v))
      || (e.StorageGet? && e.onMissing.Some? && Yields(e.key, v) && Leaves(e.onMissing.value, v))
  }

  predicate YieldsBefore(e: Expr, k: nat, v: Valuation)
    requires k <= |Children(e)|
    decreases e, 0
  {
    forall j :: 0 <= j < k ==> Yields(Children(e)[j], v)
  }

  /** Whatever names hold and whatever the host answers, the expression aborts. */
  ghost predicate Doomed(e: Expr) { forall v: Valuation :: !Yields(e, v) && !Leaves(e, v) }

  // ---------------------------------------------------------------------
  // The analysis is right
  // ---------------------------------------------------------------------

  /** Nothing but `?` returns from the function early, and holes trap. */
  ghost predicate OnlyTryLeaves(h: Host) {
    && h.hole == Trap
    && (forall op, ws, t: Trace | op != OpUnary(Try) :: !h.apply(op, ws, t).Leave?)
  }

  /** Which names hold a true word. */
  function Truths(h: Host, frames: Frames): Valuation { (x: string) => Read(h, frames, x) != 0 }

  lemma EvalKnown(h: Host, e: Expr, frames: Frames, trace: Trace)
    requires Known(e, Truths(h, frames)).Some?
    ensures var r := Eval(h, e, frames, trace);
            r.Val? && r.trace == trace && (r.word != 0) == Known(e, Truths(h, frames)).value
  {
  }

  /** A node that evaluates all its children does what the list of them does, and then asks
      the host. */
  predicate IsEager(e: Expr) {
    || (e.Unary? && !IsTryOf(e) && !IsPanicWithError(e)) || (e.Binary? && !IsLazy(e)) || e.Ternary?
    || e.Nary? || e.RawHostCall? || e.MethodCall? || e.PublishEvent? || e.Invoke?
  }

  ghost predicate AsksHost(h: Host, r: Res) {
    exists op, ws, t: Trace :: op != OpUnary(Try) && r == Respond(h, op, ws, t)
  }

  ghost predicate EvalsEagerly(h: Host, e: Expr, frames: Frames, trace: Trace) {
    var all := EvalAll(h, Children(e), frames, trace);
    if all.Stopped? then Eval(h, e, frames, trace) == all.res else AsksHost(h, Eval(h, e, frames, trace))
  }

  lemma EagerNode(h: Host, e: Expr, frames: Frames, trace: Trace)
    requires IsEager(e)
    ensures EvalsEagerly(h, e, frames, trace)
  {
    if e.Unary? {
      assert Children(e)[1..] == [];
      EagerUnary(h, e, frames, trace);
    } else if e.Binary? {
      EagerBinary(h, e, frames, trace);
    } else if e.Ternary? {
      EagerTernary(h, e, frames, trace);
    } else {
      EagerCall(h, e, frames, trace);
    }
  }

  lemma EagerUnary(h: Host, e: Expr, frames: Frames, trace: Trace)
    requires IsEager(e) && e.Unary?
    ensures EvalsEagerly(h, e, frames, trace)
  {
    EvalFirst(h, e.arg, [], frames, trace);
    var r := Eval(h, e.arg, frames, trace);
    if r.Val? { assert Eval(h, e, frames, trace) == Respond(h, OpUnary(e.uop), [r.word], r.trace); }
  }

  lemma EagerBinary(h: Host, e: Expr, frames: Frames, trace: Trace)
    requires IsEager(e) && e.Binary?
    ensures EvalsEagerly(h, e, frames, trace)
  {
    EvalPair(h, e.lhs, e.rhs, frames, trace);
    var r := Eval(h, e.lhs, frames, trace);
    if r.Val? {
      var r' := Eval(h, e.rhs, frames, r.trace);
      if r'.Val? { assert Eval(h, e, frames, trace) == Respond(h, OpBinary(e.bop), [r.word, r'.word], r'.trace); }
    }
  }

  lemma EvalPair(h: Host, a: Expr, b: Expr, frames: Frames, trace: Trace)
    ensures var r := Eval(h, a, frames, trace);
            EvalAll(h, [a, b], frames, trace) ==
            if !r.Val? then Stopped(r)
            else
              var r' := Eval(h, b, frames, r.trace);
              if r'.Val? then Vals([r.word, r'.word], r'.trace) else Stopped(r')
  {
    EvalFirst(h, a, [b], frames, trace);
    var r := Eval(h, a, frames, trace);
    if r.Val? { EvalFirst(h, b, [], frames, r.trace); }
  }

  lemma EagerTernary(h: Host, e: Expr, frames: Frames, trace: Trace)
    requires e.Ternary?
    ensures EvalsEagerly(h, e, frames, trace)
  {
    EvalFirst(h, e.first, [e.second, e.third], frames, trace);
    var r := Eval(h, e.first, frames, trace);
    if r.Val? {
      EvalPair(h, e.second, e.third, frames, r.trace);
      var r' := Eval(h, e.second, frames, r.trace);
      if r'.Val? {
        var r'' := Eval(h, e.third, frames, r'.trace);
        if r''.Val? {
          assert Eval(h, e, frames, trace) == Respond(h, OpTernary(e.top), [r.word, r'.word, r''.word], r''.trace);
        }
      }
    }
  }

  lemma EagerCall(h: Host, e: Expr, frames: Frames, trace: Trace)
    requires e.Nary? || e.RawHostCall? || e.MethodCall? || e.PublishEvent? || e.Invoke?
    ensures EvalsEagerly(h, e, frames, trace)
  {
    match e
    case Nary(op, es) => Applied(h, OpNary(op), EvalAll(h, es, frames, trace));
    case RawHostCall(m, f, es) => Applied(h, OpRaw(m, f), EvalAll(h, es, frames, trace));
    case MethodCall(a, f, es) =>
      EvalFirst(h, a, es, frames, trace);
      var r := Eval(h, a, frames, trace);
      if r.Val? { Applied(h, OpMethod(f), Cons(r.word, EvalAll(h, es, frames, r.trace))); }
    case PublishEvent(_, _, _) => EagerEvent(h, e, frames, trace);
    case Invoke(_, _, _, _) => EagerInvoke(h, e, frames, trace);
  }

  lemma Applied(h: Host, op: Op, args: ResAll)
    requires op != OpUnary(Try)
    ensures if args.Stopped? then Apply(h, op, args) == args.res else AsksHost(h, Apply(h, op, args))
  {
    if args.Vals? { assert Apply(h, op, args) == Respond(h, op, args.words, args.trace); }
  }

  lemma EagerEvent(h: Host, e: Expr, frames: Frames, trace: Trace)
    requires e.PublishEvent?
    ensures EvalsEagerly(h, e, frames, trace)
  {
    EvalAllAppend(h, e.topics, e.data, frames, trace);
    var r := EvalAll(h, e.topics, frames, trace);
    if r.Vals? {
      var d := Eval(h, e.data, frames, r.trace);
      if d.Val? { assert Eval(h, e, frames, trace) == Respond(h, OpPublish(e.eventName), r.words + [d.word], d.trace); }
    }
  }

  lemma EagerInvoke(h: Host, e: Expr, frames: Frames, trace: Trace)
    requires e.Invoke?
    ensures EvalsEagerly(h, e, frames, trace)
  {
    var tail := [e.callee] + e.args;
    assert Children(e) == [e.address] + tail;
    EvalFirst(h, e.address, tail, frames, trace);
    var r := Eval(h, e.address, frames, trace);
    if r.Val? {
      EvalFirst(h, e.callee, e.args, frames, r.trace);
      var r' := Eval(h, e.callee, frames, r.trace);
      if r'.Val? { Applied(h, OpInvoke(e.call), Cons(r.word, Cons(r'.word, EvalAll(h, e.args, frames, r'.trace)))); }
    }
  }

  lemma EvalFirst(h: Host, a: Expr, es: seq<Expr>, frames: Frames, trace: Trace)
    ensures var r := Eval(h, a, frames, trace);
            EvalAll(h, [a] + es, frames, trace) == if r.Val? then Cons(r.word, EvalAll(h, es, frames, r.trace)) else Stopped(r)
  {
    assert ([a] + es)[1..] == es;
  }

  lemma {:induction false} EvalAllAppend(h: Host, es: seq<Expr>, d: Expr, frames: Frames, trace: Trace)
    ensures var r := EvalAll(h, es, frames, trace);
            EvalAll(h, es + [d], frames, trace) ==
            if r.Stopped? then r
            else
              var v := Eval(h, d, frames, r.trace);
              if v.Val? then Vals(r.words + [v.word], v.trace) else Stopped(v)
  {
    if es == [] {
      assert es + [d] == [d] && [d][1..] == [];
    } else {
      assert (es + [d])[1..] == es[1..] + [d];
      var r := Eval(h, es[0], frames, trace);
      if r.Val? { EvalAllAppend(h, es[1..], d, frames, r.trace); }
    }
  }

  /** What an evaluation comes to can be read off the text. */
  ghost predicate Shows(r: Res, e: Expr, v: Valuation) {
    (r.Val? ==> Yields(e, v)) && (r.Early? ==> Leaves(e, v))
  }

  lemma {:induction false} EvalShows(h: Host, e: Expr, frames: Frames, trace: Trace)
    requires OnlyTryLeaves(h)
    ensures Shows(Eval(h, e, frames, trace), e, Truths(h, frames))
    decreases e, 1
  {
    if IsLazy(e) {
      LazyShows(h, e, frames, trace);
    } else if e.StorageGet? {
      GetShows(h, e, frames, trace);
    } else if IsTryOf(e) || IsPanicWithError(e) {
      UnaryShows(h, e, frames, trace);
    } else if IsEager(e) {
      ListShows(h, e, 0, frames, trace);
      assert Children(e)[0..] == Children(e);
      EagerNode(h, e, frames, trace);
      EagerShows(h, e, frames, trace);
    }
  }

  lemma {:induction false} LazyShows(h: Host, e: Expr, frames: Frames, trace: Trace)
    requires OnlyTryLeaves(h) && IsLazy(e)
    ensures Shows(Eval(h, e, frames, trace), e, Truths(h, frames))
    decreases e, 0
  {
    var v := Truths(h, frames);
    EvalShows(h, e.lhs, frames, trace);
    var r := Eval(h, e.lhs, frames, trace);
    if r.Val? {
      EvalShows(h, e.rhs, frames, r.trace);
      if Known(e.lhs, v).Some? { EvalKnown(h, e.lhs, frames, trace); }
    }
  }

  lemma {:induction false} GetShows(h: Host, e: Expr, frames: Frames, trace: Trace)
    requires OnlyTryLeaves(h) && e.StorageGet?
    ensures Shows(Eval(h, e, frames, trace), e, Truths(h, frames))
    decreases e, 0
  {
    var v := Truths(h, frames);
    assert Children(e)[0] == e.key && YieldsBefore(e, 0, v);
    EvalShows(h, e.key, frames, trace);
    var r := Eval(h, e.key, frames, trace);
    if r.Early? {
      var k: nat := 0;
      assert k < |Children(e)| && Leaves(Children(e)[k], v) && YieldsBefore(e, k, v);
      assert Leaves(e, v);
    } else if r.Val? && e.onMissing.None? {
      assert !h.apply(OpStorageGet(e.read), [r.word], r.trace).Leave?;
      assert !Eval(h, e, frames, trace).Early?;
    } else if r.Val? {
      var m := e.onMissing.value;
      forall t ensures Shows(Eval(h, m, frames, t), m, v) { EvalShows(h, m, frames, t); }
      FallbackShows(h, e, r.word, frames, r.trace);
      assert Eval(h, e, frames, trace) == EvalGet(h, r.word, e.read, e.onMissing, frames, r.trace);
      if Eval(h, e, frames, trace).Early? { assert Yields(e.key, v) && Leaves(m, v) && Leaves(e, v); }
    }
  }

  lemma FallbackShows(h: Host, e: Expr, key: Word, frames: Frames, trace: Trace)
    requires OnlyTryLeaves(h) && e.StorageGet? && e.onMissing.Some?
    requires forall t :: Shows(Eval(h, e.onMissing.value, frames, t), e.onMissing.value, Truths(h, frames))
    ensures var r, v := EvalGet(h, key, e.read, e.onMissing, frames, trace), Truths(h, frames);
            && (r.Val? && HasEagerFallback(e) ==> Yields(e.onMissing.value, v))
            && (r.Early? ==> Leaves(e.onMissing.value, v))
  {
    var m, answer := e.onMissing.value, h.apply(OpStorageGet(e.read), [key], trace);
    if !(IsPanicWithError(m) && !answer.Missing?) {
      var first := Settle(if answer.Missing? then Ok(VOID, false) else answer, OpStorageGet(e.read), [key], trace);
      if first.Val? { assert Shows(Eval(h, m, frames, first.trace), m, Truths(h, frames)); }
    }
  }

  /** `?` and the panic with an error. */
  lemma {:induction false} UnaryShows(h: Host, e: Expr, frames: Frames, trace: Trace)
    requires OnlyTryLeaves(h) && (IsTryOf(e) || IsPanicWithError(e))
    ensures Shows(Eval(h, e, frames, trace), e, Truths(h, frames))
    decreases e, 0
  {
    assert Children(e) == [e.arg] && YieldsBefore(e, 0, Truths(h, frames));
    EvalShows(h, e.arg, frames, trace);
  }

  /** The children from the `i`-th on, evaluated in order. */
  ghost predicate ListShown(all: ResAll, e: Expr, i: nat, v: Valuation)
    requires i <= |Children(e)|
  {
    && (all.Vals? ==> forall j :: i <= j < |Children(e)| ==> Yields(Children(e)[j], v))
    && (all.Stopped? && all.res.Early? ==>
          exists k :: i <= k < |Children(e)| && Leaves(Children(e)[k], v) && forall j :: i <= j < k ==> Yields(Children(e)[j], v))
  }

  lemma {:induction false} ListShows(h: Host, e: Expr, i: nat, frames: Frames, trace: Trace)
    requires OnlyTryLeaves(h) && i <= |Children(e)|
    ensures ListShown(EvalAll(h, Children(e)[i..], frames, trace), e, i, Truths(h, frames))
    decreases e, 0, |Children(e)| - i
  {
    var es := Children(e);
    if i < |es| {
      assert es[i..][0] == es[i] && es[i..][1..] == es[i + 1..];
      EvalShows(h, es[i], frames, trace);
      var r := Eval(h, es[i], frames, trace);
      if r.Val? { ListShows(h, e, i + 1, frames, r.trace); }
    }
  }

  lemma EagerShows(h: Host, e: Expr, frames: Frames, trace: Trace)
    requires OnlyTryLeaves(h) && IsEager(e) && EvalsEagerly(h, e, frames, trace)
    requires ListShown(EvalAll(h, Children(e), frames, trace), e, 0, Truths(h, frames))
    ensures Shows(Eval(h, e, frames, trace), e, Truths(h, frames))
  {
    var all := EvalAll(h, Children(e), frames, trace);
    if all.Stopped? && all.res.Early? {
      var k :| 0 <= k < |Children(e)| && Leaves(Children(e)[k], Truths(h, frames))
        && forall j :: 0 <= j < k ==> Yields(Children(e)[j], Truths(h, frames));
      assert YieldsBefore(e, k, Truths(h, frames));
    }
  }

  /** A doomed expression aborts on every host. */
  lemma DoomedAborts(h: Host, e: Expr, frames: Frames, trace: Trace)
    requires OnlyTryLeaves(h) && Doomed(e)
    ensures Eval(h, e, frames, trace).Abort?
  {
    EvalShows(h, e, frames, trace);
  }

  // ---------------------------------------------------------------------
  // Holes that are reached
  // ---------------------------------------------------------------------

  /** What is syntactically never rooted cannot yield. */
  lemma {:induction false} NeverRootedNeverYields(e: Expr, v: Valuation)
    requires IsNeverRooted(e)
    ensures !Yields(e, v)
  {
    if Children(e) != [] && !IsPanicWithError(e) {
      var k := if e.Binary? && !IsNeverRooted(e.lhs) then 1 else 0;
      NeverRootedNeverYields(Children(e)[k], v);
    }
  }

  /** A never-rooted node stands where it is always evaluated: in no right operand of `&&` or `||`,
      and in no fallback. */
  predicate HoleIsReached(e: Expr) {
    IsNeverRooted(e) || exists k :: 0 <= k < |Children(e)| && (IsLazy(e) ==> k == 0) && HoleIsReached(Children(e)[k])
  }

  lemma {:induction false} ReachedHoleNeverYields(e: Expr, v: Valuation)
    requires HoleIsReached(e)
    ensures !Yields(e, v)
  {
    if IsNeverRooted(e) {
      NeverRootedNeverYields(e, v);
    } else {
      var k :| 0 <= k < |Children(e)| && (IsLazy(e) ==> k == 0) && HoleIsReached(Children(e)[k]);
      ReachedHoleNeverYields(Children(e)[k], v);
      if IsLazy(e) { assert Children(e)[0] == e.lhs; }
    }
  }

  /** There is no `?` in the expression. */
  predicate HasNoTry(e: Expr) {
    && !IsTryOf(e) && (forall i :: 0 <= i < |Children(e)| ==> HasNoTry(Children(e)[i]))
    && (e.StorageGet? && e.onMissing.Some? ==> HasNoTry(e.onMissing.value))
  }

  lemma {:induction false} NoTryNeverLeaves(e: Expr, v: Valuation)
    requires HasNoTry(e)
    ensures !Leaves(e, v)
  {
    forall i | 0 <= i < |Children(e)| ensures !Leaves(Children(e)[i], v) { NoTryNeverLeaves(Children(e)[i], v); }
    if IsLazy(e) { assert Children(e)[0] == e.lhs && Children(e)[1] == e.rhs; }
    if e.StorageGet? && e.onMissing.Some? { NoTryNeverLeaves(e.onMissing.value, v); }
  }

  /** Without `?`, a hole that is reached dooms. */
  lemma ReachedHoleDooms(e: Expr)
    requires HoleIsReached(e) && HasNoTry(e)
    ensures Doomed(e)
  {
    forall v: Valuation ensures !Yields(e, v) && !Leaves(e, v) {
      ReachedHoleNeverYields(e, v);
      NoTryNeverLeaves(e, v);
    }
  }
}
