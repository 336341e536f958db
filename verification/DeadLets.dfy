/** Removing `let` bindings that nothing refers to (`drop_dead_lets`), as done for
    functions without a result. */
module DeadLets {
  import opened Ir
  import opened Semantics

  /** Only a bare variable is looked at; anything else is taken to refer to every name. */
  predicate ExprReferences(e: Expr, x: string) {
    match e
    case NamedLocal(y) => y == x
    case Param(y) => y == x
    case Local(slot) => SlotName(slot) == x
    case _ => true
  }

  predicate StmtReferences(s: Stmt, x: string)
    decreases s, 1
  {
    match s
    case ExprStmt(e) => ExprReferences(e, x)
    case Return(Some(e)) => ExprReferences(e, x)
    case Let(_, _, e) => ExprReferences(e, x)
    case Assign(y, e) => y == x || ExprReferences(e, x)
    case If(c, a, b) => ExprReferences(c, x) || References(a, x) || References(b, x)
    case Match(e, arms) => ExprReferences(e, x) || ArmsReference(arms, x)
    case Loop(b) => References(b, x)
    case Block(b) => References(b, x)
    case _ => false
  }

  predicate References(ss: seq<Stmt>, x: string)
    decreases ss, 0
  {
    ss != [] && (StmtReferences(ss[0], x) || References(ss[1..], x))
  }

  predicate ArmsReference(arms: seq<Arm>, x: string)
    decreases arms, 0
  {
    arms != [] && (References(arms[0].body, x) || ArmsReference(arms[1..], x))
  }

  predicate IsPureValue(e: Expr)
    decreases e, 1
  {
    match e
    case Param(_) => true
    case Local(_) => true
    case NamedLocal(_) => true
    case Lit(_, _) => true
    case BoolLit(_) => true
    case UnknownVal => true
    case Unary(ValConvert(_), a) => IsPureValue(a)
    case Nary(op, es) => (op == TupleConstruct || op == VecConstruct) && ArePureValues(es)
    case _ => false
  }

  predicate ArePureValues(es: seq<Expr>)
    decreases es, 0
  {
    es == [] || (IsPureValue(es[0]) && ArePureValues(es[1..]))
  }

  predicate IsDead(s: Stmt, rest: seq<Stmt>) {
    s.Let? && !References(rest, s.name)
  }

  /** What one left-to-right sweep makes of a statement list. */
  function Drop(ss: seq<Stmt>): seq<Stmt> {
    if ss == [] then []
    else if !IsDead(ss[0], ss[1..]) then [ss[0]] + Drop(ss[1..])
    else if IsPureValue(ss[0].value) then Drop(ss[1..])
    else [ExprStmt(ss[0].value)] + Drop(ss[1..])
  }

  /** The growable statement list that the pass edits in place. */
  class Body {
    var stmts: seq<Stmt>

    constructor (stmts: seq<Stmt>)
      ensures this.stmts == stmts
    {
      this.stmts := stmts;
    }

    method DropDeadLets()
      modifies this
      ensures stmts == Drop(old(stmts))
    {
      var i := 0;
      while i < |stmts|
        invariant 0 <= i <= |stmts|
        invariant stmts[..i] + Drop(stmts[i..]) == Drop(old(stmts))
        decreases |stmts| - i
      {
        var s := stmts[i];
        DropStep(stmts, i);
        if s.Let? && !References(stmts[i + 1..], s.name) {
          if IsPureValue(s.value) {
            Removed(stmts, i);
            stmts := stmts[..i] + stmts[i + 1..];
            continue;
          }
          Replaced(stmts, i, ExprStmt(s.value));
          stmts := stmts[i := ExprStmt(s.value)];
        }
        i := i + 1;
      }
      assert stmts[..i] == stmts && stmts[i..] == [];
    }
  }

  /** What becomes of the statement at `i`, given what becomes of the ones after it. */
  lemma DropStep(ss: seq<Stmt>, i: nat)
    requires i < |ss|
    ensures var s, rest := ss[i], ss[i + 1..];
            ss[..i] + Drop(ss[i..]) ==
            if !IsDead(s, rest) then ss[..i + 1] + Drop(rest)
            else if IsPureValue(s.value) then ss[..i] + Drop(rest)
            else (ss[..i] + [ExprStmt(s.value)]) + Drop(rest)
  {
    assert ss[i..] == [ss[i]] + ss[i + 1..];
    assert ss[..i + 1] == ss[..i] + [ss[i]];
  }

  lemma Removed(ss: seq<Stmt>, i: nat)
    requires i < |ss|
    ensures var t := ss[..i] + ss[i + 1..]; t[..i] == ss[..i] && t[i..] == ss[i + 1..]
  {
  }

  lemma Replaced(ss: seq<Stmt>, i: nat, s: Stmt)
    requires i < |ss|
    ensures var t := ss[i := s]; t[..i + 1] == ss[..i] + [s] && t[i + 1..] == ss[i + 1..]
  {
  }

  // ---------------------------------------------------------------------
  // What survives
  // ---------------------------------------------------------------------

  /** The list with its bindings taken off: pure initializers vanish, others are kept as
      plain expression statements. */
  function Work(ss: seq<Stmt>): seq<Stmt> {
    if ss == [] then []
    else if !ss[0].Let? then [ss[0]] + Work(ss[1..])
    else if IsPureValue(ss[0].value) then Work(ss[1..])
    else [ExprStmt(ss[0].value)] + Work(ss[1..])
  }

  /** Nothing but bindings and pure initializers is lost, duplicated or moved. */
  lemma {:induction false} DropKeepsWork(ss: seq<Stmt>)
    ensures Work(Drop(ss)) == Work(ss)
  {
    if ss != [] {
      DropKeepsWork(ss[1..]);
      var rest := Drop(ss[1..]);
      assert ([ss[0]] + rest)[1..] == rest;
      if ss[0].Let? { assert ([ExprStmt(ss[0].value)] + rest)[1..] == rest; }
    }
  }

  /** The sweep looks at each binding once, before later ones are gone: a binding used only
      by a dead binding stays, and a second sweep removes it. */
  lemma OneSweepIsNotEnough(p: string, x: string, y: string)
    requires x != y
    ensures var ss := [Let(x, false, Param(p)), Let(y, false, NamedLocal(x))];
            Drop(ss) == [ss[0]] && Drop(Drop(ss)) == []
  {
    var a, b := Let(x, false, Param(p)), Let(y, false, NamedLocal(x));
    assert [a, b][1..] == [b] && [b][1..] == [] && [a][1..] == [];
    assert StmtReferences(b, x) && References([b], x);
    assert Drop([b]) == Drop([]) && Drop([a]) == Drop([]);
  }

  /** Some statement that the sweep leaves in mentions `x`. */
  predicate StaysReferenced(ss: seq<Stmt>, x: string) {
    ss != [] &&
    ((!(IsDead(ss[0], ss[1..]) && IsPureValue(ss[0].value)) && StmtReferences(ss[0], x)) || StaysReferenced(ss[1..], x))
  }

  /** Some binding is used, but only by bindings that the sweep removes. */
  predicate HasChain(ss: seq<Stmt>) {
    ss != [] &&
    ((ss[0].Let? && References(ss[1..], ss[0].name) && !StaysReferenced(ss[1..], ss[0].name)) || HasChain(ss[1..]))
  }

  predicate HasDead(ss: seq<Stmt>) { ss != [] && (IsDead(ss[0], ss[1..]) || HasDead(ss[1..])) }

  lemma {:induction false} ReferencesLeft(ss: seq<Stmt>, x: string)
    ensures References(Drop(ss), x) <==> StaysReferenced(ss, x)
  {
    if ss != [] {
      var rest := Drop(ss[1..]);
      ReferencesLeft(ss[1..], x);
      assert ([ss[0]] + rest)[1..] == rest;
      if ss[0].Let? { assert ([ExprStmt(ss[0].value)] + rest)[1..] == rest; }
    }
  }

  lemma {:induction false} DropIdle(ss: seq<Stmt>)
    ensures |Drop(ss)| <= |ss| && (Drop(ss) == ss <==> !HasDead(ss))
  {
    if ss != [] {
      DropIdle(ss[1..]);
      assert ([ss[0]] + Drop(ss[1..]))[1..] == Drop(ss[1..]) && ss == [ss[0]] + ss[1..];
    }
  }

  lemma {:induction false} DeadAfterDrop(ss: seq<Stmt>)
    ensures HasDead(Drop(ss)) <==> HasChain(ss)
  {
    if ss != [] {
      var s, rest := ss[0], Drop(ss[1..]);
      DeadAfterDrop(ss[1..]);
      if s.Let? { ReferencesLeft(ss[1..], s.name); }
      assert ([s] + rest)[1..] == rest;
      if s.Let? { assert ([ExprStmt(s.value)] + rest)[1..] == rest; }
    }
  }

  /** One sweep leaves nothing to the next exactly if no binding is used only by bindings that
      the sweep removes. */
  lemma OneSweepIsEnoughExactlyWhen(ss: seq<Stmt>)
    ensures Drop(Drop(ss)) == Drop(ss) <==> !HasChain(ss)
  {
    DropIdle(Drop(ss));
    DeadAfterDrop(ss);
  }

  // ---------------------------------------------------------------------
  // Meaning
  // ---------------------------------------------------------------------

  /** Unrecovered values have no effect, and neither have the constructors that the purity
      test accepts. */
  ghost predicate PureHost(h: Host) { h.hole.Ok? && BuildsPurely(h) }

  ghost predicate BuildsPurely(h: Host) {
    (forall op, ws, t: Trace | op == OpNary(TupleConstruct) || op == OpNary(VecConstruct) ||
                                  (op.OpUnary? && op.uop.ValConvert?) ::
          h.apply(op, ws, t).Ok? && !h.apply(op, ws, t).effect)
  }

  /** The variable `x` occurs in the expression. */
  predicate ExprMentions(e: Expr, x: string)
    decreases e, 1
  {
    || (e.Param? && e.name == x) || (e.NamedLocal? && e.name == x) || (e.Local? && SlotName(e.slot) == x)
    || (exists i :: 0 <= i < |Children(e)| && ExprMentions(Children(e)[i], x))
    || (e.StorageGet? && e.onMissing.Some? && ExprMentions(e.onMissing.value, x))
  }

  /** The statement reads `x` or assigns to it, at any depth. */
  predicate StmtMentions(s: Stmt, x: string)
    decreases s, 1
  {
    match s
    case ExprStmt(e) => ExprMentions(e, x)
    case Return(Some(e)) => ExprMentions(e, x)
    case Let(_, _, e) => ExprMentions(e, x)
    case Assign(y, e) => y == x || ExprMentions(e, x)
    case If(c, a, b) => ExprMentions(c, x) || Mentions(a, x) || Mentions(b, x)
    case Match(e, arms) => ExprMentions(e, x) || ArmsMention(arms, x)
    case For(_, lo, hi, _, b) => ExprMentions(lo, x) || ExprMentions(hi, x) || Mentions(b, x)
    case Loop(b) => Mentions(b, x)
    case Block(b) => Mentions(b, x)
    case _ => false
  }

  predicate Mentions(ss: seq<Stmt>, x: string)
    decreases ss, 0
  {
    ss != [] && (StmtMentions(ss[0], x) || Mentions(ss[1..], x))
  }

  predicate ArmsMention(arms: seq<Arm>, x: string)
    decreases arms, 0
  {
    arms != [] &&
    (|| (arms[0].pattern.Literal? && ExprMentions(arms[0].pattern.pat, x))
     || Mentions(arms[0].body, x) || ArmsMention(arms[1..], x))
  }

  /** The statement mentions `x` where the reference search does not look: in a `for`, or in a
      literal match pattern. */
  predicate StmtHides(s: Stmt, x: string)
    decreases s, 1
  {
    match s
    case If(_, a, b) => Hides(a, x) || Hides(b, x)
    case Match(_, arms) => ArmsHide(arms, x)
    case For(_, _, _, _, _) => StmtMentions(s, x)
    case Loop(b) => Hides(b, x)
    case Block(b) => Hides(b, x)
    case _ => false
  }

  predicate Hides(ss: seq<Stmt>, x: string)
    decreases ss, 0
  {
    ss != [] && (StmtHides(ss[0], x) || Hides(ss[1..], x))
  }

  predicate ArmsHide(arms: seq<Arm>, x: string)
    decreases arms, 0
  {
    arms != [] &&
    (|| (arms[0].pattern.Literal? && ExprMentions(arms[0].pattern.pat, x))
     || Hides(arms[0].body, x) || ArmsHide(arms[1..], x))
  }

  lemma ExprMentionFound(e: Expr, x: string)
    ensures ExprMentions(e, x) ==> ExprReferences(e, x)
  {
    if e.Local? || e.NamedLocal? || e.Param? {
      assert Children(e) == [];
    }
  }

  /** The search misses a mention exactly when it finds none and there is a hidden one. */
  lemma {:induction false} SearchMissesExactlyHidden(ss: seq<Stmt>, x: string)
    ensures Mentions(ss, x) && !References(ss, x) <==> Hides(ss, x) && !References(ss, x)
    decreases ss, 0
  {
    if ss != [] {
      StmtSearchMisses(ss[0], x);
      SearchMissesExactlyHidden(ss[1..], x);
    }
  }

  lemma {:induction false} StmtSearchMisses(s: Stmt, x: string)
    ensures StmtMentions(s, x) && !StmtReferences(s, x) <==> StmtHides(s, x) && !StmtReferences(s, x)
    decreases s, 1
  {
    match s
    case ExprStmt(e) => ExprMentionFound(e, x);
    case Return(Some(e)) => ExprMentionFound(e, x);
    case Let(_, _, e) => ExprMentionFound(e, x);
    case Assign(_, e) => ExprMentionFound(e, x);
    case If(c, a, b) =>
      ExprMentionFound(c, x);
      SearchMissesExactlyHidden(a, x);
      SearchMissesExactlyHidden(b, x);
    case Match(e, arms) =>
      ExprMentionFound(e, x);
      ArmsSearchMisses(arms, x);
    case Loop(b) => SearchMissesExactlyHidden(b, x);
    case Block(b) => SearchMissesExactlyHidden(b, x);
    case _ =>
  }

  lemma {:induction false} ArmsSearchMisses(arms: seq<Arm>, x: string)
    ensures ArmsMention(arms, x) && !ArmsReference(arms, x) <==> ArmsHide(arms, x) && !ArmsReference(arms, x)
    decreases arms, 0
  {
    if arms != [] {
      SearchMissesExactlyHidden(arms[0].body, x);
      ArmsSearchMisses(arms[1..], x);
    }
  }

  /** No binding that the sweep takes off has a hidden mention. */
  predicate NoHiddenUse(ss: seq<Stmt>) {
    ss == [] || ((IsDead(ss[0], ss[1..]) ==> !Hides(ss[1..], ss[0].name)) && NoHiddenUse(ss[1..]))
  }

  /** The stores agree on every name but `x`, scope by scope. */
  ghost predicate AgreeExcept(f: Frames, g: Frames, x: string) {
    |f| == |g| && f != [] && forall k | 0 <= k < |f| :: ScopesAgree(f[k], g[k], x)
  }

  ghost predicate ScopesAgree(a: Frame, b: Frame, x: string) {
    a - {x} == b - {x}
  }

  /** The same outcome up to what the store says about `x`. */
  ghost predicate Near(o: Outcome, o': Outcome, x: string) {
    match o
    case Normal(f, t, v) => o'.Normal? && AgreeExcept(f, o'.frames, x) && t == o'.trace && v == o'.value
    case Broke(f, t) => o'.Broke? && AgreeExcept(f, o'.frames, x) && t == o'.trace
    case Continued(f, t) => o'.Continued? && AgreeExcept(f, o'.frames, x) && t == o'.trace
    case _ => o == o'
  }

  lemma ScopesAgreeOn(a: Frame, b: Frame, x: string, y: string)
    requires ScopesAgree(a, b, x) && x != y
    ensures y in a <==> y in b
    ensures y in a ==> a[y] == b[y]
  {
    assert y in a <==> y in a - {x};
    assert y in b <==> y in b - {x};
    if y in a { assert (a - {x})[y] == (b - {x})[y]; }
  }

  lemma {:induction false} FindAgrees(f: Frames, g: Frames, x: string, y: string)
    requires |f| == |g| && x != y && forall k | 0 <= k < |f| :: ScopesAgree(f[k], g[k], x)
    ensures Find(f, y) == Find(g, y)
  {
    if f != [] {
      var n := |f| - 1;
      assert ScopesAgree(f[n], g[n], x);
      ScopesAgreeOn(f[n], g[n], x, y);
      FindAgrees(f[..n], g[..n], x, y);
    }
  }

  lemma BindAgrees(f: Frames, g: Frames, x: string, y: string, w: Word)
    requires AgreeExcept(f, g, x)
    ensures AgreeExcept(Bind(f, y, w), Bind(g, y, w), x)
  {
    var n := |f| - 1;
    assert ScopesAgree(f[n], g[n], x);
    assert f[n][y := w] - {x} == if x == y then f[n] - {x} else (f[n] - {x})[y := w];
    assert g[n][y := w] - {x} == if x == y then g[n] - {x} else (g[n] - {x})[y := w];
  }

  lemma {:induction false} StoreAgrees(f: Frames, g: Frames, x: string, y: string, w: Word)
    requires AgreeExcept(f, g, x) && x != y
    ensures AgreeExcept(Store(f, y, w), Store(g, y, w), x)
  {
    var n := |f| - 1;
    assert ScopesAgree(f[n], g[n], x);
    ScopesAgreeOn(f[n], g[n], x, y);
    if n == 0 || y in f[n] {
      BindAgrees(f, g, x, y, w);
    } else {
      StoreAgrees(f[..n], g[..n], x, y, w);
      OuterAgrees(f, g, Store(f[..n], y, w), Store(g[..n], y, w), x);
    }
  }

  /** The innermost scopes agree and so do the others. */
  lemma OuterAgrees(f: Frames, g: Frames, f': Frames, g': Frames, x: string)
    requires f != [] && AgreeExcept(f, g, x) && AgreeExcept(f', g', x)
    ensures AgreeExcept(f' + [f[|f| - 1]], g' + [g[|g| - 1]], x)
  {
  }

  lemma LeaveNear(o: Outcome, o': Outcome, x: string, frames: Frames)
    requires Near(o, o', x) && SameDepth(o, frames) && |frames| >= 2
    ensures Near(LeaveScope(o), LeaveScope(o'), x)
  {
  }

  lemma {:induction false} EvalUnmentioned(h: Host, e: Expr, x: string, f: Frames, g: Frames, trace: Trace)
    requires !ExprMentions(e, x) && AgreeExcept(f, g, x)
    ensures Eval(h, e, f, trace) == Eval(h, e, g, trace)
    decreases e, 2
  {
    var kids := Children(e);
    match e
    case Param(y) => FindAgrees(f, g, x, y);
    case NamedLocal(y) => FindAgrees(f, g, x, y);
    case Local(slot) => FindAgrees(f, g, x, SlotName(slot));
    case Unary(_, a) => EvalUnmentioned(h, kids[0], x, f, g, trace);
    case Binary(_, a, b) =>
      EvalUnmentioned(h, kids[0], x, f, g, trace);
      var r := Eval(h, a, f, trace);
      if r.Val? { EvalUnmentioned(h, kids[1], x, f, g, r.trace); }
    case Ternary(_, a, b, c) =>
      EvalUnmentioned(h, kids[0], x, f, g, trace);
      var r := Eval(h, a, f, trace);
      if r.Val? {
        EvalUnmentioned(h, kids[1], x, f, g, r.trace);
        var r' := Eval(h, b, f, r.trace);
        if r'.Val? { EvalUnmentioned(h, kids[2], x, f, g, r'.trace); }
      }
    case StorageGet(k, _, m) =>
      EvalUnmentioned(h, kids[0], x, f, g, trace);
      var r := Eval(h, k, f, trace);
      if r.Val? && m.Some? { EvalGetUnmentioned(h, r.word, e.read, m, x, f, g, r.trace); }
    case Nary(_, _) => EvalListUnmentioned(h, e, x, f, g, trace);
    case RawHostCall(_, _, _) => EvalListUnmentioned(h, e, x, f, g, trace);
    case MethodCall(_, _, _) => EvalCallUnmentioned(h, e, x, f, g, trace);
    case PublishEvent(_, _, _) => EvalEventUnmentioned(h, e, x, f, g, trace);
    case Invoke(_, _, _, _) => EvalInvokeUnmentioned(h, e, x, f, g, trace);
    case _ =>
  }

  lemma {:induction false} EvalGetUnmentioned(h: Host, key: Word, read: StorageRead, m: Option<Expr>, x: string,
                                              f: Frames, g: Frames, trace: Trace)
    requires m.Some? && !ExprMentions(m.value, x) && AgreeExcept(f, g, x)
    ensures EvalGet(h, key, read, m, f, trace) == EvalGet(h, key, read, m, g, trace)
    decreases m, 2
  {
    var answer := h.apply(OpStorageGet(read), [key], trace);
    var r := Settle(if answer.Missing? then Ok(VOID, false) else answer, OpStorageGet(read), [key], trace);
    if r.Val? { EvalUnmentioned(h, m.value, x, f, g, r.trace); }
  }

  lemma {:induction false} EvalListUnmentioned(h: Host, e: Expr, x: string, f: Frames, g: Frames, trace: Trace)
    requires !ExprMentions(e, x) && AgreeExcept(f, g, x) && (e.Nary? || e.RawHostCall?)
    ensures Eval(h, e, f, trace) == Eval(h, e, g, trace)
    decreases e, 0
  {
    var kids := Children(e);
    assert kids[0..|kids|] == if e.Nary? then e.items else e.args;
    EvalAllUnmentioned(h, e, 0, |kids|, x, f, g, trace);
  }

  lemma {:induction false} EvalCallUnmentioned(h: Host, e: Expr, x: string, f: Frames, g: Frames, trace: Trace)
    requires !ExprMentions(e, x) && AgreeExcept(f, g, x) && e.MethodCall?
    ensures Eval(h, e, f, trace) == Eval(h, e, g, trace)
    decreases e, 0
  {
    var kids := Children(e);
    EvalUnmentioned(h, kids[0], x, f, g, trace);
    var r := Eval(h, e.receiver, f, trace);
    assert kids[1..|kids|] == e.args;
    if r.Val? { EvalAllUnmentioned(h, e, 1, |kids|, x, f, g, r.trace); }
  }

  lemma {:induction false} EvalEventUnmentioned(h: Host, e: Expr, x: string, f: Frames, g: Frames, trace: Trace)
    requires !ExprMentions(e, x) && AgreeExcept(f, g, x) && e.PublishEvent?
    ensures Eval(h, e, f, trace) == Eval(h, e, g, trace)
    decreases e, 0
  {
    var kids, n := Children(e), |e.topics|;
    assert kids[0..n] == e.topics && kids[n] == e.data;
    EvalAllUnmentioned(h, e, 0, n, x, f, g, trace);
    var r := EvalAll(h, e.topics, f, trace);
    if r.Vals? { EvalUnmentioned(h, kids[n], x, f, g, r.trace); }
  }

  lemma {:induction false} EvalInvokeUnmentioned(h: Host, e: Expr, x: string, f: Frames, g: Frames, trace: Trace)
    requires !ExprMentions(e, x) && AgreeExcept(f, g, x) && e.Invoke?
    ensures Eval(h, e, f, trace) == Eval(h, e, g, trace)
    decreases e, 0
  {
    var kids := Children(e);
    EvalUnmentioned(h, kids[0], x, f, g, trace);
    var r := Eval(h, e.address, f, trace);
    assert kids[2..|kids|] == e.args;
    if r.Val? {
      EvalUnmentioned(h, kids[1], x, f, g, r.trace);
      var r' := Eval(h, e.callee, f, r.trace);
      if r'.Val? { EvalAllUnmentioned(h, e, 2, |kids|, x, f, g, r'.trace); }
    }
  }

  lemma {:induction false} EvalAllUnmentioned(h: Host, e: Expr, i: nat, n: nat, x: string, f: Frames, g: Frames, trace: Trace)
    requires !ExprMentions(e, x) && AgreeExcept(f, g, x) && i <= n <= |Children(e)|
    ensures EvalAll(h, Children(e)[i..n], f, trace) == EvalAll(h, Children(e)[i..n], g, trace)
    decreases e, 0, n - i
  {
    if i < n {
      var kids := Children(e);
      assert kids[i..n][1..] == kids[i + 1..n];
      EvalUnmentioned(h, kids[i], x, f, g, trace);
      var r := Eval(h, kids[i], f, trace);
      if r.Val? { EvalAllUnmentioned(h, e, i + 1, n, x, f, g, r.trace); }
    }
  }

  lemma {:induction false} ExecUnmentioned(h: Host, fuel: nat, s: Stmt, x: string, f: Frames, g: Frames, trace: Trace)
    requires !StmtMentions(s, x) && AgreeExcept(f, g, x)
    ensures Near(Exec(h, fuel, s, f, trace), Exec(h, fuel, s, g, trace), x)
    decreases fuel, s, 2
  {
    match s
    case ExprStmt(e) => EvalUnmentioned(h, e, x, f, g, trace);
    case Let(_, _, _) => ExecBindUnmentioned(h, fuel, s, x, f, g, trace);
    case Assign(_, _) => ExecBindUnmentioned(h, fuel, s, x, f, g, trace);
    case Return(Some(e)) => EvalUnmentioned(h, e, x, f, g, trace);
    case If(c, a, b) =>
      EvalUnmentioned(h, c, x, f, g, trace);
      var r := Eval(h, c, f, trace);
      if r.Val? {
        ExecBlockUnmentioned(h, fuel, a, map[], x, f, g, r.trace);
        ExecBlockUnmentioned(h, fuel, b, map[], x, f, g, r.trace);
      }
    case Match(e, arms) =>
      EvalUnmentioned(h, e, x, f, g, trace);
      var r := Eval(h, e, f, trace);
      if r.Val? { ExecArmsUnmentioned(h, fuel, arms, r.word, x, f, g, r.trace); }
    case For(y, lo, hi, step, b) =>
      EvalUnmentioned(h, lo, x, f, g, trace);
      var r := Eval(h, lo, f, trace);
      if r.Val? {
        EvalUnmentioned(h, hi, x, f, g, r.trace);
        var r' := Eval(h, hi, f, r.trace);
        if r'.Val? { ExecForUnmentioned(h, fuel, y, r.word, r'.word, step, b, x, f, g, r'.trace); }
      }
    case Loop(b) => ExecLoopUnmentioned(h, fuel, b, x, f, g, trace);
    case Block(b) => ExecBlockUnmentioned(h, fuel, b, map[], x, f, g, trace);
    case _ =>
  }

  lemma ExecBindUnmentioned(h: Host, fuel: nat, s: Stmt, x: string, f: Frames, g: Frames, trace: Trace)
    requires (s.Let? || s.Assign?) && !StmtMentions(s, x) && AgreeExcept(f, g, x)
    ensures Near(Exec(h, fuel, s, f, trace), Exec(h, fuel, s, g, trace), x)
  {
    EvalUnmentioned(h, s.value, x, f, g, trace);
    var r := Eval(h, s.value, f, trace);
    if r.Val? {
      if s.Let? { BindAgrees(f, g, x, s.name, r.word); } else { StoreAgrees(f, g, x, s.target, r.word); }
    }
  }

  /** Two stores that differ in `x` only give runs that differ in `x` only, for every list that
      does not mention it. */
  lemma {:induction false} ExecAllUnmentioned(h: Host, fuel: nat, ss: seq<Stmt>, x: string, f: Frames, g: Frames, trace: Trace)
    requires !Mentions(ss, x) && AgreeExcept(f, g, x)
    ensures Near(ExecAll(h, fuel, ss, f, trace), ExecAll(h, fuel, ss, g, trace), x)
    decreases fuel, ss, 0
  {
    if ss != [] {
      ExecUnmentioned(h, fuel, ss[0], x, f, g, trace);
      var o, o' := Exec(h, fuel, ss[0], f, trace), Exec(h, fuel, ss[0], g, trace);
      if o.Normal? { ExecAllUnmentioned(h, fuel, ss[1..], x, o.frames, o'.frames, o.trace); }
    }
  }

  lemma {:induction false} ExecBlockUnmentioned(h: Host, fuel: nat, ss: seq<Stmt>, scope: Frame, x: string, f: Frames, g: Frames, trace: Trace)
    requires !Mentions(ss, x) && AgreeExcept(f, g, x)
    ensures Near(ExecBlock(h, fuel, ss, scope, f, trace), ExecBlock(h, fuel, ss, scope, g, trace), x)
    decreases fuel, ss, 1
  {
    ExecAllUnmentioned(h, fuel, ss, x, f + [scope], g + [scope], trace);
    LeaveNear(ExecAll(h, fuel, ss, f + [scope], trace), ExecAll(h, fuel, ss, g + [scope], trace), x, f + [scope]);
  }

  lemma {:induction false} ExecArmsUnmentioned(h: Host, fuel: nat, arms: seq<Arm>, w: Word, x: string, f: Frames, g: Frames, trace: Trace)
    requires !ArmsMention(arms, x) && AgreeExcept(f, g, x)
    ensures Near(ExecArms(h, fuel, arms, w, f, trace), ExecArms(h, fuel, arms, w, g, trace), x)
    decreases fuel, arms, 0
  {
    if arms != [] {
      var b := arms[0].body;
      match arms[0].pattern
      case Wildcard => ExecBlockUnmentioned(h, fuel, b, map[], x, f, g, trace);
      case EnumVariant(ty, v, names) =>
        if h.matches(ty, v, w) {
          ExecBlockUnmentioned(h, fuel, b, Payload(h, ty, v, w, names), x, f, g, trace);
        } else {
          ExecArmsUnmentioned(h, fuel, arms[1..], w, x, f, g, trace);
        }
      case Literal(e) =>
        EvalUnmentioned(h, e, x, f, g, trace);
        var r := Eval(h, e, f, trace);
        if r.Val? && r.word == w {
          ExecBlockUnmentioned(h, fuel, b, map[], x, f, g, r.trace);
        } else if r.Val? {
          ExecArmsUnmentioned(h, fuel, arms[1..], w, x, f, g, r.trace);
        }
    }
  }

  lemma {:induction false} ExecLoopUnmentioned(h: Host, fuel: nat, body: seq<Stmt>, x: string, f: Frames, g: Frames, trace: Trace)
    requires !Mentions(body, x) && AgreeExcept(f, g, x)
    ensures Near(ExecLoop(h, fuel, body, f, trace), ExecLoop(h, fuel, body, g, trace), x)
    decreases fuel, body, 3
  {
    if fuel != 0 {
      ExecBlockUnmentioned(h, fuel - 1, body, map[], x, f, g, trace);
      var o, o' := ExecBlock(h, fuel - 1, body, map[], f, trace), ExecBlock(h, fuel - 1, body, map[], g, trace);
      if o.Normal? || o.Continued? {
        ExecLoopUnmentioned(h, fuel - 1, body, x, o.frames, o'.frames, o.trace);
      }
    }
  }

  lemma {:induction false} ExecForUnmentioned(h: Host, fuel: nat, y: string, lo: Word, hi: Word, step: int, body: seq<Stmt>,
                                              x: string, f: Frames, g: Frames, trace: Trace)
    requires !Mentions(body, x) && AgreeExcept(f, g, x)
    ensures Near(ExecFor(h, fuel, y, lo, hi, step, body, f, trace), ExecFor(h, fuel, y, lo, hi, step, body, g, trace), x)
    decreases fuel, body, 3
  {
    if lo < hi && fuel != 0 {
      var scope: Frame := map[y := lo];
      ExecBlockUnmentioned(h, fuel - 1, body, scope, x, f, g, trace);
      var o, o' := ExecBlock(h, fuel - 1, body, scope, f, trace), ExecBlock(h, fuel - 1, body, scope, g, trace);
      if o.Normal? || o.Continued? {
        ExecForUnmentioned(h, fuel - 1, y, lo + step, hi, step, body, x, o.frames, o'.frames, o.trace);
      }
    }
  }

  lemma {:induction false} EvalPure(h: Host, e: Expr, frames: Frames, trace: Trace)
    requires PureHost(h) && IsPureValue(e)
    ensures Eval(h, e, frames, trace).Val? && Eval(h, e, frames, trace).trace == trace
    decreases e, 1
  {
    match e
    case Unary(_, a) => EvalPure(h, a, frames, trace);
    case Nary(_, es) => EvalAllPure(h, es, frames, trace);
    case _ =>
  }

  lemma {:induction false} EvalAllPure(h: Host, es: seq<Expr>, frames: Frames, trace: Trace)
    requires PureHost(h) && ArePureValues(es)
    ensures EvalAll(h, es, frames, trace).Vals? && EvalAll(h, es, frames, trace).trace == trace
    decreases es, 0
  {
    if es != [] {
      EvalPure(h, es[0], frames, trace);
      EvalAllPure(h, es[1..], frames, trace);
    }
  }

  /** What a caller of a function without a result can see: how it ended, and its effects. */
  predicate SameRun(o: Outcome, o': Outcome) {
    match o
    case Normal(_, t, _) => o'.Normal? && t == o'.trace
    case Broke(_, t) => o'.Broke? && t == o'.trace
    case Continued(_, t) => o'.Continued? && t == o'.trace
    case _ => o == o'
  }

  /** The sweep cannot be observed in any run of a body, `for` loops included, unless a binding
      that it takes off has a use the search does not see. */
  lemma {:induction false} DropPreservesRuns(h: Host, fuel: nat, ss: seq<Stmt>, frames: Frames, trace: Trace)
    requires PureHost(h) && NoHiddenUse(ss) && frames != []
    ensures SameRun(ExecAll(h, fuel, ss, frames, trace), ExecAll(h, fuel, Drop(ss), frames, trace))
  {
    if ss != [] {
      var s, rest := ss[0], ss[1..];
      var o := Exec(h, fuel, s, frames, trace);
      assert ss == [s] + rest;
      if !IsDead(s, rest) {
        ExecFirst(h, fuel, s, rest, frames, trace);
        ExecFirst(h, fuel, s, Drop(rest), frames, trace);
        if o.Normal? { DropPreservesRuns(h, fuel, rest, o.frames, o.trace); }
      } else {
        var r := Eval(h, s.value, frames, trace);
        if IsPureValue(s.value) { EvalPure(h, s.value, frames, trace); }
        ExecFirst(h, fuel, s, rest, frames, trace);
        ExecFirst(h, fuel, ExprStmt(s.value), Drop(rest), frames, trace);
        if r.Val? {
          DeadBindingUnseen(h, fuel, rest, s.name, r.word, frames, r.trace);
          DropPreservesRuns(h, fuel, rest, frames, r.trace);
        }
      }
    }
  }

  lemma ExecFirst(h: Host, fuel: nat, s: Stmt, rest: seq<Stmt>, frames: Frames, trace: Trace)
    ensures var o := Exec(h, fuel, s, frames, trace);
            SameRun(ExecAll(h, fuel, [s] + rest, frames, trace), if o.Normal? then ExecAll(h, fuel, rest, o.frames, o.trace) else o)
  {
    assert ([s] + rest)[1..] == rest;
  }

  lemma DeadBindingUnseen(h: Host, fuel: nat, rest: seq<Stmt>, x: string, w: Word, frames: Frames, trace: Trace)
    requires !Hides(rest, x) && !References(rest, x) && frames != []
    ensures SameRun(ExecAll(h, fuel, rest, Bind(frames, x, w), trace), ExecAll(h, fuel, rest, frames, trace))
  {
    var n := |frames| - 1;
    assert frames[n][x := w] - {x} == frames[n] - {x};
    assert AgreeExcept(Bind(frames, x, w), frames, x);
    SearchMissesExactlyHidden(rest, x);
    ExecAllUnmentioned(h, fuel, rest, x, Bind(frames, x, w), frames, trace);
  }

  // ---------------------------------------------------------------------
  // What the conditions are for
  // ---------------------------------------------------------------------

  /** The search does not look into `for` statements, so a binding used only there is
      dropped and the use reads an unbound name. */
  lemma UseInsideForIsMissed(h: Host, fuel: nat, x: string, i: string, w: Word, trace: Trace)
    requires fuel > 0 && x != i
    ensures var ss := [Let(x, false, Lit(I64, w)), For(i, Lit(U32, 0), Lit(U32, 1), 1, [Return(Some(NamedLocal(x)))])];
            && Drop(ss) == [ss[1]]
            && ExecAll(h, fuel, ss, [map[]], trace) == Returned(w, trace)
            && ExecAll(h, fuel, Drop(ss), [map[]], trace) == Returned(h.unbound(x), trace)
  {
    var inner := [Return(Some(NamedLocal(x)))];
    var a, b := Let(x, false, Lit(I64, w)), For(i, Lit(U32, 0), Lit(U32, 1), 1, inner);
    assert [a, b][1..] == [b] && [b][1..] == [];
    assert !StmtReferences(b, x) && !References([], x) && !References([b], x);
    assert Drop([b]) == [b] + Drop([]);
    ExecTwo(h, fuel, a, b, [map[]], trace);
    assert Bind([map[]], x, w) == [map[x := w]];
    assert Find([map[x := w]], x) == Some(w);
    assert Exec(h, fuel, a, [map[]], trace) == Normal([map[x := w]], trace, VOID);
    ReadInFor(h, fuel, x, i, map[x := w], trace);
    var none: Frames := [map[]];
    assert none[..0] == [] && Find(none, x) == None;
    ReadInFor(h, fuel, x, i, map[], trace);
  }

  lemma ReadInFor(h: Host, fuel: nat, x: string, i: string, store: Frame, trace: Trace)
    requires fuel > 0 && x != i
    ensures var s := For(i, Lit(U32, 0), Lit(U32, 1), 1, [Return(Some(NamedLocal(x)))]);
            Exec(h, fuel, s, [store], trace) == Returned(Read(h, [store], x), trace)
  {
    var inner := [Return(Some(NamedLocal(x)))];
    var frames: Frames := [store] + [map[i := 0]];
    assert frames[..1] == [store];
    assert Find(frames, x) == Find([store], x);
    assert ExecAll(h, fuel - 1, inner, frames, trace) == Returned(Read(h, [store], x), trace);
    assert ExecFor(h, fuel, i, 0, 1, 1, inner, [store], trace) == Returned(Read(h, [store], x), trace);
  }

  /** The sweep cannot be observed on this host. */
  ghost predicate DropsSafely(h: Host) {
    forall fuel: nat, ss: seq<Stmt>, frames: Frames, trace: Trace | NoHiddenUse(ss) && frames != [] ::
      SameRun(ExecAll(h, fuel, ss, frames, trace), ExecAll(h, fuel, Drop(ss), frames, trace))
  }

  /** On hosts that build values without effects, the sweep cannot be observed in bodies without
      hidden uses exactly when holes yield values. */
  lemma DropsSafelyExactlyWhen(h: Host)
    requires BuildsPurely(h)
    ensures DropsSafely(h) <==> h.hole.Ok?
  {
    if h.hole.Ok? {
      forall fuel: nat, ss: seq<Stmt>, frames: Frames, trace: Trace | NoHiddenUse(ss) && frames != []
        ensures SameRun(ExecAll(h, fuel, ss, frames, trace), ExecAll(h, fuel, Drop(ss), frames, trace))
      {
        DropPreservesRuns(h, fuel, ss, frames, trace);
      }
    } else {
      var ss: seq<Stmt> := [Let("x", false, UnknownVal)];
      assert ss[1..] == [] && Drop(ss) == [] && NoHiddenUse(ss);
      assert !SameRun(ExecAll(h, 0, ss, [map[]], []), ExecAll(h, 0, Drop(ss), [map[]], []));
    }
  }

  /** A hole counts as pure, so when holes trap, dropping one removes the trap. */
  lemma DroppedHoleNoLongerTraps(h: Host, fuel: nat, x: string, trace: Trace)
    requires h.hole.Trap?
    ensures var ss := [Let(x, false, UnknownVal)];
            && ExecAll(h, fuel, ss, [map[]], trace) == Aborted
            && ExecAll(h, fuel, Drop(ss), [map[]], trace) == Normal([map[]], trace, VOID)
  {
    assert [Let(x, false, UnknownVal)][1..] == [];
  }
}
