/** Recovering `is_none` / `is_some` from comparisons of an index search with the raw
    `Void` word (`fold_option_void_compares`). */
module OptionVoid {
  import opened Ir
  import opened Semantics
  import opened Simulation
  import opened Reach

  // ---------------------------------------------------------------------
  // Tests on expressions
  // ---------------------------------------------------------------------

  predicate IsIndexOf(selector: string) {
    selector == "first_index_of" || selector == "last_index_of"
  }

  predicate IsBareIndexOf(e: Expr) { e.MethodCall? && IsIndexOf(e.selector) }

  predicate IsTwo(e: Expr) {
    e.Lit? && e.value == 2 && (e.kind == I32 || e.kind == U32 || e.kind == I64 || e.kind == U64)
  }

  predicate ContainsUnknown(e: Expr) {
    IsNeverRooted(e) || exists i | 0 <= i < |Children(e)| :: ContainsUnknown(Children(e)[i])
  }

  predicate AnyUnknown(es: seq<Expr>) { exists i | 0 <= i < |es| :: ContainsUnknown(es[i]) }

  // ---------------------------------------------------------------------
  // Use counts
  // ---------------------------------------------------------------------

  type Counts = map<string, nat>

  function Get(counts: Counts, x: string): nat { if x in counts then counts[x] else 0 }

  /** How often the identifier occurs among the visited nodes of an expression. */
  function Uses(e: Expr, x: string): nat
    decreases e, 1
  {
    (if NameOf(e) == Some(x) then 1 else 0) + UsesFrom(e, 0, x)
  }

  function UsesFrom(e: Expr, i: nat, x: string): nat
    requires i <= |Children(e)|
    decreases e, 0, |Children(e)| - i
  {
    if i == |Children(e)| then 0 else Uses(Children(e)[i], x) + UsesFrom(e, i + 1, x)
  }

  function UsesStmt(s: Stmt, x: string): nat
    decreases s, 1
  {
    match s
    case ExprStmt(e) => Uses(e, x)
    case Let(_, _, e) => Uses(e, x)
    case Assign(_, e) => Uses(e, x)
    case Return(Some(e)) => Uses(e, x)
    case If(c, a, b) => Uses(c, x) + UsesAll(a, x) + UsesAll(b, x)
    case Match(e, arms) => Uses(e, x) + UsesArms(arms, x)
    case For(_, lo, hi, _, b) => Uses(lo, x) + Uses(hi, x) + UsesAll(b, x)
    case Loop(b) => UsesAll(b, x)
    case Block(b) => UsesAll(b, x)
    case _ => 0
  }

  function UsesAll(ss: seq<Stmt>, x: string): nat
    decreases ss, 0
  {
    if ss == [] then 0 else UsesStmt(ss[0], x) + UsesAll(ss[1..], x)
  }

  function UsesArms(arms: seq<Arm>, x: string): nat
    decreases arms, 0
  {
    if arms == [] then 0 else UsesAll(arms[0].body, x) + UsesArms(arms[1..], x)
  }

  method CountExpr(e: Expr, counts: Counts) returns (r: Counts)
    ensures forall x :: Get(r, x) == Get(counts, x) + Uses(e, x)
    decreases e
  {
    r := counts;
    var name := NameOf(e);
    if name.Some? { r := r[name.value := Get(r, name.value) + 1]; }
    var kids := Children(e);
    for i := 0 to |kids|
      invariant forall x :: Get(r, x) + UsesFrom(e, i, x) == Get(counts, x) + Uses(e, x)
    {
      r := CountExpr(kids[i], r);
    }
  }

  method CountUses(stmts: seq<Stmt>, counts: Counts) returns (r: Counts)
    ensures forall x :: Get(r, x) == Get(counts, x) + UsesAll(stmts, x)
    decreases stmts, 0
  {
    r := counts;
    for i := 0 to |stmts|
      invariant forall x :: Get(r, x) + UsesAll(stmts[i..], x) == Get(counts, x) + UsesAll(stmts, x)
    {
      assert stmts[i..][1..] == stmts[i + 1..];
      r := CountStmt(stmts[i], r);
    }
  }

  method CountStmt(s: Stmt, counts: Counts) returns (r: Counts)
    ensures forall x :: Get(r, x) == Get(counts, x) + UsesStmt(s, x)
    decreases s, 1
  {
    r := counts;
    match s {
      case ExprStmt(e) => r := CountExpr(e, r);
      case Let(_, _, e) => r := CountExpr(e, r);
      case Assign(_, e) => r := CountExpr(e, r);
      case Return(Some(e)) => r := CountExpr(e, r);
      case If(c, a, b) =>
        r := CountExpr(c, r);
        r := CountUses(a, r);
        r := CountUses(b, r);
      case Match(e, arms) =>
        r := CountExpr(e, r);
        r := CountArms(arms, r);
      case For(_, lo, hi, _, b) =>
        r := CountExpr(lo, r);
        r := CountExpr(hi, r);
        r := CountUses(b, r);
      case Loop(b) => r := CountUses(b, r);
      case Block(b) => r := CountUses(b, r);
      case _ =>
    }
  }

  method CountArms(arms: seq<Arm>, counts: Counts) returns (r: Counts)
    ensures forall x :: Get(r, x) == Get(counts, x) + UsesArms(arms, x)
    decreases arms, 0
  {
    r := counts;
    for k := 0 to |arms|
      invariant forall x :: Get(r, x) + UsesArms(arms[k..], x) == Get(counts, x) + UsesArms(arms, x)
    {
      assert arms[k..][1..] == arms[k + 1..];
      r := CountUses(arms[k].body, r);
    }
  }

  // ---------------------------------------------------------------------
  // The rewrite
  // ---------------------------------------------------------------------

  /** An identifier argument that is used elsewhere too is cloned. */
  function CloneArg(a: Expr, counts: Counts): Expr {
    var name := NameOf(a);
    if name.Some? && Get(counts, name.value) >= 2 then MethodCall(a, "clone", []) else a
  }

  function CloneArgs(args: seq<Expr>, counts: Counts): (r: seq<Expr>)
    ensures |r| == |args|
  {
    seq(|args|, i requires 0 <= i < |args| => CloneArg(args[i], counts))
  }

  /** The step at one node, after its children have been dealt with. */
  function Finish(e: Expr, counts: Counts): Expr {
    match e
    case MethodCall(receiver, selector, args) =>
      if IsIndexOf(selector) then MethodCall(receiver, selector, CloneArgs(args, counts)) else e
    case Binary(op, a, b) =>
      if op != Eq && op != Ne then e
      else if IsBareIndexOf(a) && IsTwo(b) then FoldCall(op, a)
      else if IsBareIndexOf(b) && IsTwo(a) then FoldCall(op, b)
      else e
    case _ => e
  }

  function FoldCall(op: BinaryOp, call: Expr): Expr
    requires call.MethodCall? && (op == Eq || op == Ne)
  {
    if AnyUnknown(call.args) && IsEffectFree(call.receiver) then UnknownVal
    else MethodCall(call, if op == Eq then "is_none" else "is_some", [])
  }

  function FixedKids(e: Expr, counts: Counts): (r: seq<Expr>)
    ensures |r| == |Children(e)|
    ensures forall i :: 0 <= i < |r| ==> r[i] == FixExpr(Children(e)[i], counts)
    decreases e, 0
  {
    seq(|Children(e)|, i requires 0 <= i < |Children(e)| => FixExpr(Children(e)[i], counts))
  }

  function FixExpr(e: Expr, counts: Counts): Expr
    decreases e, 1
  {
    Finish(Rebuild(e, FixedKids(e, counts)), counts)
  }

  function FixStmt(s: Stmt, counts: Counts): Stmt
    decreases s, 1
  {
    match s
    case ExprStmt(e) => ExprStmt(FixExpr(e, counts))
    case Let(x, m, e) => Let(x, m, FixExpr(e, counts))
    case Assign(x, e) => Assign(x, FixExpr(e, counts))
    case Return(Some(e)) => Return(Some(FixExpr(e, counts)))
    case If(c, a, b) => If(FixExpr(c, counts), FixAll(a, counts), FixAll(b, counts))
    case Match(e, arms) => Match(FixExpr(e, counts), FixArms(arms, counts))
    case For(x, lo, hi, step, b) => For(x, FixExpr(lo, counts), FixExpr(hi, counts), step, FixAll(b, counts))
    case Loop(b) => Loop(FixAll(b, counts))
    case Block(b) => Block(FixAll(b, counts))
    case _ => s
  }

  function FixAll(ss: seq<Stmt>, counts: Counts): (r: seq<Stmt>)
    ensures |r| == |ss|
    decreases ss, 0
  {
    if ss == [] then [] else [FixStmt(ss[0], counts)] + FixAll(ss[1..], counts)
  }

  function FixArms(arms: seq<Arm>, counts: Counts): (r: seq<Arm>)
    ensures |r| == |arms|
    decreases arms, 0
  {
    if arms == [] then []
    else [Arm(arms[0].pattern, FixAll(arms[0].body, counts))] + FixArms(arms[1..], counts)
  }

  lemma {:induction false} FixAllAt(ss: seq<Stmt>, counts: Counts, i: nat)
    requires i < |ss|
    ensures FixAll(ss, counts)[i] == FixStmt(ss[i], counts)
  {
    if i > 0 { FixAllAt(ss[1..], counts, i - 1); }
  }

  /** The counts that the pass gathers before it starts. */
  ghost predicate Counted(counts: Counts, ss: seq<Stmt>) {
    forall x :: Get(counts, x) == UsesAll(ss, x)
  }

  /** The pass: rewrites the statement list in place. */
  method FoldOptionVoidCompares(stmts: array<Stmt>)
    modifies stmts
    ensures exists counts :: Counted(counts, old(stmts[..])) && stmts[..] == FixAll(old(stmts[..]), counts)
  {
    var counts := CountUses(stmts[..], map[]);
    ghost var was := stmts[..];
    for i := 0 to stmts.Length
      invariant forall k :: i <= k < stmts.Length ==> stmts[k] == was[k]
      invariant forall k :: 0 <= k < i ==> stmts[k] == FixStmt(was[k], counts)
    {
      stmts[i] := FixStmt(stmts[i], counts);
    }
    forall i | 0 <= i < |was| ensures stmts[..][i] == FixAll(was, counts)[i] { FixAllAt(was, counts, i); }
    assert Counted(counts, was) && stmts[..] == FixAll(was, counts);
  }

  // ---------------------------------------------------------------------
  // Meaning
  // ---------------------------------------------------------------------

  /** How an optional 32-bit index is packed into a word: `None` is the void word, and an
      index carries the tag 4 below its 32 payload bits. */
  function Encode(o: Option<nat>): Word
    requires o.Some? ==> o.value < 0x1_0000_0000
  {
    match o
    case None => VOID
    case Some(i) => i * 0x1_0000_0000 + 4
  }

  ghost predicate EncodesIndex(w: Word) {
    exists o: Option<nat> :: (o.Some? ==> o.value < 0x1_0000_0000) && w == Encode(o)
  }

  function Truth(b: bool): Word { if b then 1 else 0 }

  /** `==` and `!=` compare words. */
  ghost predicate Compares(h: Host) {
    forall a: Word, b: Word, t: Trace ::
      && h.apply(OpBinary(Eq), [a, b], t) == Ok(Truth(a == b), false)
      && h.apply(OpBinary(Ne), [a, b], t) == Ok(Truth(a != b), false)
  }

  /** Cloning a handle gives the same handle. */
  ghost predicate Clones(h: Host) {
    forall w: Word, t: Trace :: h.apply(OpMethod("clone"), [w], t) == Ok(w, false)
  }

  /** `is_none` and `is_some` look at the optional index that a word packs. */
  ghost predicate TestsOptions(h: Host) {
    forall w: Word, t: Trace | EncodesIndex(w) ::
      && h.apply(OpMethod("is_none"), [w], t) == Ok(Truth(IndexIn(w).None?), false)
      && h.apply(OpMethod("is_some"), [w], t) == Ok(Truth(IndexIn(w).Some?), false)
  }

  ghost function IndexIn(w: Word): Option<nat>
    requires EncodesIndex(w)
  {
    var o: Option<nat> :| (o.Some? ==> o.value < 0x1_0000_0000) && w == Encode(o);
    o
  }

  /** An index search that succeeds answers with a packed optional index. */
  ghost predicate SearchesAnswerIndexes(h: Host) {
    forall f, ws, t: Trace | IsIndexOf(f) && h.apply(OpMethod(f), ws, t).Ok? ::
      EncodesIndex(h.apply(OpMethod(f), ws, t).word)
  }

  /** What the host does with the operations that the pass introduces or removes. */
  ghost predicate OptionHost(h: Host) {
    Compares(h) && Clones(h) && TestsOptions(h) && SearchesAnswerIndexes(h) && OnlyTryLeaves(h)
  }

  // The pass does not invent unrecovered values.

  lemma UnknownBelow(e: Expr, k: nat)
    requires k < |Children(e)| && ContainsUnknown(Children(e)[k])
    ensures ContainsUnknown(e)
  {
  }

  lemma CloneHidesNothing(a: Expr, counts: Counts)
    requires ContainsUnknown(CloneArg(a, counts))
    ensures ContainsUnknown(a)
  {
    var c := CloneArg(a, counts);
    if c != a { assert Children(c) == [a] && !IsNeverRooted(c); }
  }

  /** A never-rooted node is a trap itself or has a never-rooted child. */
  lemma NeverRootedStep(e: Expr)
    requires IsNeverRooted(e)
    ensures e == UnknownVal || e == Panic || (e.Unary? && e.uop == PanicWithError) ||
            exists k :: 0 <= k < |Children(e)| && IsNeverRooted(Children(e)[k])
  {
    if e.Binary? {
      assert Children(e)[0] == e.lhs && Children(e)[1] == e.rhs;
    } else if e.Unary? {
      assert Children(e)[0] == e.arg;
    } else if e.MethodCall? {
      assert Children(e)[0] == e.receiver;
    }
  }

  lemma UnknownInRebuilt(e: Expr, kids: seq<Expr>)
    requires |kids| == |Children(e)| && ContainsUnknown(Rebuild(e, kids))
    ensures ContainsUnknown(e) || exists k :: 0 <= k < |kids| && ContainsUnknown(kids[k])
  {
    var g := Rebuild(e, kids);
    RebuiltNode(e, kids);
    if IsNeverRooted(g) { NeverRootedStep(g); }
  }

  lemma UnknownInFinished(g: Expr, counts: Counts)
    requires ContainsUnknown(Finish(g, counts))
    ensures ContainsUnknown(g)
  {
    var f := Finish(g, counts);
    if f != g && g.MethodCall? {
      var kids := [g.receiver] + f.args;
      UnknownInRebuilt(g, kids);
      if k: nat :| k < |kids| && ContainsUnknown(kids[k]) {
        if k > 0 { CloneHidesNothing(g.args[k - 1], counts); }
        UnknownBelow(g, k);
      }
    } else if f != g {
      var k := if IsBareIndexOf(g.lhs) && IsTwo(g.rhs) then 0 else 1;
      FoldedUnknown(g.bop, Children(g)[k]);
      UnknownBelow(g, k);
    }
  }

  lemma {:induction false} UnknownWasThere(e: Expr, counts: Counts)
    requires ContainsUnknown(FixExpr(e, counts))
    ensures ContainsUnknown(e)
  {
    var kids := FixedKids(e, counts);
    UnknownInFinished(Rebuild(e, kids), counts);
    UnknownInRebuilt(e, kids);
    if !ContainsUnknown(e) {
      var k :| 0 <= k < |kids| && ContainsUnknown(kids[k]);
      UnknownWasThere(Children(e)[k], counts);
    }
  }

  lemma FoldedUnknown(op: BinaryOp, call: Expr)
    requires call.MethodCall? && (op == Eq || op == Ne) && ContainsUnknown(FoldCall(op, call))
    ensures ContainsUnknown(call)
  {
    var f := FoldCall(op, call);
    if f == UnknownVal {
      var i :| 0 <= i < |call.args| && ContainsUnknown(call.args[i]);
      assert Children(call)[i + 1] == call.args[i];
    } else {
      assert Children(f) == [call];
    }
  }

  // Cloning and folding keep the value.

  lemma ClonesKeepValues(h: Host, args: seq<Expr>, counts: Counts)
    requires OptionHost(h)
    ensures SameValues(h, args, CloneArgs(args, counts))
  {
    forall i | 0 <= i < |args| ensures SameValue(h, args[i], CloneArgs(args, counts)[i]) {
      var a := args[i];
      forall frames, trace
        ensures Eval(h, a, frames, trace) == Eval(h, CloneArg(a, counts), frames, trace)
      {
        if CloneArg(a, counts) != a { EvalClone(h, a, frames, trace); }
      }
    }
  }

  lemma EvalClone(h: Host, a: Expr, frames: Frames, trace: Trace)
    requires Clones(h) && NameOf(a).Some?
    ensures Eval(h, MethodCall(a, "clone", []), frames, trace) == Eval(h, a, frames, trace)
  {
    EvalUnaryMethod(h, a, "clone", frames, trace);
  }

  lemma EvalUnaryMethod(h: Host, a: Expr, f: string, frames: Frames, trace: Trace)
    ensures var r := Eval(h, a, frames, trace);
            Eval(h, MethodCall(a, f, []), frames, trace) ==
            if r.Val? then Respond(h, OpMethod(f), [r.word], r.trace) else r
  {
    var r := Eval(h, a, frames, trace);
    if r.Val? { NoArguments(h, r.word, frames, r.trace); }
  }

  lemma NoArguments(h: Host, w: Word, frames: Frames, trace: Trace)
    ensures Cons(w, EvalAll(h, [], frames, trace)) == Vals([w], trace)
  {
    assert [w] + [] == [w];
  }

  lemma EvalsToIndex(h: Host, receiver: Expr, f: string, args: seq<Expr>, frames: Frames, trace: Trace)
    requires SearchesAnswerIndexes(h) && IsIndexOf(f) && Eval(h, MethodCall(receiver, f, args), frames, trace).Val?
    ensures EncodesIndex(Eval(h, MethodCall(receiver, f, args), frames, trace).word)
  {
    var r := Eval(h, receiver, frames, trace);
    var all := Cons(r.word, EvalAll(h, args, frames, r.trace));
    assert h.apply(OpMethod(f), all.words, all.trace).Ok?;
  }

  lemma PackedNone(w: Word)
    requires EncodesIndex(w)
    ensures IndexIn(w).None? <==> w == 2
  {
  }

  lemma EvalComparison(h: Host, op: BinaryOp, a: Expr, b: Expr, frames: Frames, trace: Trace)
    requires Compares(h) && (op == Eq || op == Ne) && (IsTwo(a) || IsTwo(b))
    ensures var r := Eval(h, if IsTwo(b) then a else b, frames, trace);
            Eval(h, Binary(op, a, b), frames, trace) ==
            if r.Val? then Val(Truth((r.word == 2) == (op == Eq)), r.trace) else r
  {
  }

  /** Comparing a search with the word 2 is testing its result for `None`. */
  lemma EvalTest(h: Host, op: BinaryOp, a: Expr, b: Expr, frames: Frames, trace: Trace)
    requires OptionHost(h) && (op == Eq || op == Ne)
    requires (IsBareIndexOf(a) && IsTwo(b)) || (IsBareIndexOf(b) && IsTwo(a))
    ensures var call := if IsTwo(b) then a else b;
            Eval(h, Binary(op, a, b), frames, trace) ==
            Eval(h, MethodCall(call, if op == Eq then "is_none" else "is_some", []), frames, trace)
  {
    var call := if IsTwo(b) then a else b;
    EvalComparison(h, op, a, b, frames, trace);
    EvalUnaryMethod(h, call, if op == Eq then "is_none" else "is_some", frames, trace);
    var r := Eval(h, call, frames, trace);
    if r.Val? {
      EvalsToIndex(h, call.receiver, call.selector, call.args, frames, trace);
      PackedNone(r.word);
    }
  }

  /** The comparison and the test it is folded into are the same. */
  lemma FoldKeepsValue(h: Host, op: BinaryOp, a: Expr, b: Expr, counts: Counts)
    requires OptionHost(h) && (op == Eq || op == Ne) && Finish(Binary(op, a, b), counts) != UnknownVal
    requires (IsBareIndexOf(a) && IsTwo(b)) || (IsBareIndexOf(b) && IsTwo(a))
    ensures SameValue(h, Binary(op, a, b), Finish(Binary(op, a, b), counts))
  {
    var call := if IsTwo(b) then a else b;
    forall frames, trace
      ensures Eval(h, Binary(op, a, b), frames, trace) == Eval(h, FoldCall(op, call), frames, trace)
    {
      EvalTest(h, op, a, b, frames, trace);
    }
  }

  lemma ClonedCallKeepsValue(h: Host, g: Expr, counts: Counts)
    requires OptionHost(h) && g.MethodCall?
    ensures SameValue(h, g, MethodCall(g.receiver, g.selector, CloneArgs(g.args, counts)))
  {
    var f := MethodCall(g.receiver, g.selector, CloneArgs(g.args, counts));
    ClonesKeepValues(h, g.args, counts);
    forall i | 0 <= i < |Children(g)| ensures SameValue(h, Children(g)[i], Children(f)[i]) {
      if i > 0 { assert SameValue(h, g.args[i - 1], f.args[i - 1]); }
    }
    Congruence(h, g, f);
  }

  lemma FinishKeepsValue(h: Host, g: Expr, counts: Counts)
    requires OptionHost(h) && (g.Binary? ==> Finish(g, counts) != UnknownVal)
    ensures SameValue(h, g, Finish(g, counts))
  {
    if Finish(g, counts) != g {
      if g.MethodCall? { ClonedCallKeepsValue(h, g, counts); } else { FoldKeepsValue(h, g.bop, g.lhs, g.rhs, counts); }
    }
  }

  /** One node of the induction, with the rewritten children as they come. */
  lemma NodeKeepsValue(h: Host, e: Expr, kids: seq<Expr>, counts: Counts)
    requires OptionHost(h) && |kids| == |Children(e)|
    requires SameValues(h, Children(e), kids) && (e.Binary? ==> Finish(Rebuild(e, kids), counts) != UnknownVal)
    ensures SameValue(h, e, Finish(Rebuild(e, kids), counts))
  {
    var g := Rebuild(e, kids);
    RebuiltNode(e, kids);
    Congruence(h, e, g);
    FinishKeepsValue(h, g, counts);
    forall frames, trace
      ensures Eval(h, e, frames, trace) == Eval(h, Finish(g, counts), frames, trace)
    {
      assert Eval(h, e, frames, trace) == Eval(h, g, frames, trace);
    }
  }

  /** The comparison is folded into a hole. */
  predicate TurnsToHole(e: Expr, counts: Counts) { e.Binary? && FixExpr(e, counts) == UnknownVal }

  /** Every comparison that is folded into a hole would have aborted anyway. */
  ghost predicate HolesDoomed(e: Expr, counts: Counts) {
    (TurnsToHole(e, counts) ==> Doomed(e)) && forall i | 0 <= i < |Children(e)| :: HolesDoomed(Children(e)[i], counts)
  }

  lemma {:induction false} FixKeepsValue(h: Host, e: Expr, counts: Counts)
    requires OptionHost(h) && HolesDoomed(e, counts)
    ensures SameValue(h, e, FixExpr(e, counts))
  {
    if TurnsToHole(e, counts) {
      DoomedHole(h, e);
    } else {
      var kids := FixedKids(e, counts);
      forall i | 0 <= i < |kids| ensures SameValue(h, Children(e)[i], kids[i]) {
        FixKeepsValue(h, Children(e)[i], counts);
      }
      NodeKeepsValue(h, e, kids, counts);
    }
  }

  // ---------------------------------------------------------------------
  // When a hole is right
  // ---------------------------------------------------------------------

  /** The analysis decides: left operands of `&&` and `||` are names or literals, and no panicking
      fallback holds a `?`. */
  predicate IsDecided(e: Expr) {
    && (IsLazy(e) ==> IsPlain(e.lhs))
    && (forall i :: 0 <= i < |Children(e)| ==> IsDecided(Children(e)[i]))
    && (e.StorageGet? && e.onMissing.Some? ==>
          IsDecided(e.onMissing.value) && (IsPanicWithError(e.onMissing.value) ==> HasNoTry(e.onMissing.value)))
  }

  predicate IsPlain(e: Expr) { e.Lit? || e.BoolLit? || e.Void? || NameOf(e).Some? }

  function RushAnswer(op: Op, ws: seq<Word>): Answer {
    if op == OpUnary(Try) then Leave(VOID)
    else if op == OpBinary(Eq) && |ws| == 2 then Ok(Truth(ws[0] == ws[1]), false)
    else if op == OpBinary(Ne) && |ws| == 2 then Ok(Truth(ws[0] != ws[1]), false)
    else if op == OpMethod("clone") && |ws| == 1 then Ok(ws[0], false)
    else if op == OpMethod("is_none") && |ws| == 1 then Ok(Truth(ws[0] == VOID), false)
    else if op == OpMethod("is_some") && |ws| == 1 then Ok(Truth(ws[0] != VOID), false)
    else Ok(VOID, false)
  }

  /** A host that grants everything and leaves at every `?`, with names as the valuation has them. */
  function RushHost(v: Valuation): Host {
    Host((op: Op, ws: seq<Word>, t: Trace) => RushAnswer(op, ws), Trap, (x: string) => Truth(v(x)),
         (a: string, b: string, w: Word) => false, (a: string, b: string, w: Word, n: nat) => 0)
  }

  lemma RushHostFits(v: Valuation)
    ensures OptionHost(RushHost(v))
  {
    var h := RushHost(v);
    forall w: Word, t: Trace | EncodesIndex(w)
      ensures h.apply(OpMethod("is_none"), [w], t) == Ok(Truth(IndexIn(w).None?), false)
      ensures h.apply(OpMethod("is_some"), [w], t) == Ok(Truth(IndexIn(w).Some?), false)
    {
      PackedNone(w);
    }
    RushSearches(v);
  }

  lemma RushSearches(v: Valuation)
    ensures SearchesAnswerIndexes(RushHost(v))
  {
    assert VOID == Encode(None);
    assert EncodesIndex(VOID);
  }

  /** What the analysis allows does happen on that host. */
  ghost predicate Happens(r: Res, e: Expr, v: Valuation) {
    (Yields(e, v) ==> !r.Abort?) && (Leaves(e, v) ==> r.Early?)
  }

  lemma {:induction false} Rushes(v: Valuation, e: Expr, trace: Trace)
    requires IsDecided(e)
    ensures Happens(Eval(RushHost(v), e, [map[]], trace), e, v)
    decreases e, 1
  {
    if IsLazy(e) {
      LazyRushes(v, e, trace);
    } else if e.StorageGet? {
      GetRushes(v, e, trace);
    } else if IsTryOf(e) || IsPanicWithError(e) {
      UnaryRushes(v, e, trace);
    } else if IsEager(e) {
      ListRushes(v, e, 0, trace);
      assert Children(e)[0..] == Children(e);
      EagerNode(RushHost(v), e, [map[]], trace);
      EagerRushes(v, e, trace);
    }
  }

  lemma {:induction false} UnaryRushes(v: Valuation, e: Expr, trace: Trace)
    requires IsDecided(e) && (IsTryOf(e) || IsPanicWithError(e))
    ensures Happens(Eval(RushHost(v), e, [map[]], trace), e, v)
    decreases e, 0
  {
    assert Children(e) == [e.arg] && Children(e)[0] == e.arg;
    Rushes(v, e.arg, trace);
  }

  lemma RushKnown(v: Valuation, e: Expr, trace: Trace)
    requires IsPlain(e)
    ensures Known(e, v).Some?
    ensures var r := Eval(RushHost(v), e, [map[]], trace); r.Val? && r.trace == trace && (r.word != 0) == Known(e, v).value
  {
    var frames: Frames := [map[]];
    assert frames[..0] == [];
    assert forall x :: Find(frames, x) == None;
  }

  lemma {:induction false} LazyRushes(v: Valuation, e: Expr, trace: Trace)
    requires IsDecided(e) && IsLazy(e)
    ensures Happens(Eval(RushHost(v), e, [map[]], trace), e, v)
    decreases e, 0
  {
    assert Children(e)[1] == e.rhs;
    RushKnown(v, e.lhs, trace);
    Rushes(v, e.rhs, trace);
    PlainNeverLeaves(e.lhs, v);
  }

  lemma PlainNeverLeaves(e: Expr, v: Valuation)
    requires IsPlain(e)
    ensures Yields(e, v) && !Leaves(e, v)
  {
  }

  lemma {:induction false} GetRushes(v: Valuation, e: Expr, trace: Trace)
    requires IsDecided(e) && e.StorageGet?
    ensures Happens(Eval(RushHost(v), e, [map[]], trace), e, v)
    decreases e, 0
  {
    var h, frames := RushHost(v), [map[]];
    assert Children(e)[0] == e.key;
    Rushes(v, e.key, trace);
    var r := Eval(h, e.key, frames, trace);
    if r.Val? {
      assert h.apply(OpStorageGet(e.read), [r.word], r.trace) == Ok(VOID, false);
      if e.onMissing.Some? {
        Rushes(v, e.onMissing.value, r.trace);
        if IsPanicWithError(e.onMissing.value) { NoTryNeverLeaves(e.onMissing.value, v); }
      }
    }
  }

  ghost predicate ListHappens(all: ResAll, e: Expr, i: nat, v: Valuation)
    requires i <= |Children(e)|
  {
    && ((forall j :: i <= j < |Children(e)| ==> Yields(Children(e)[j], v)) ==> !(all.Stopped? && all.res.Abort?))
    && ((exists k :: i <= k < |Children(e)| && Leaves(Children(e)[k], v) && forall j :: i <= j < k ==> Yields(Children(e)[j], v))
        ==> all.Stopped? && all.res.Early?)
  }

  lemma {:induction false} ListRushes(v: Valuation, e: Expr, i: nat, trace: Trace)
    requires i <= |Children(e)| && forall j :: 0 <= j < |Children(e)| ==> IsDecided(Children(e)[j])
    ensures ListHappens(EvalAll(RushHost(v), Children(e)[i..], [map[]], trace), e, i, v)
    decreases e, 0, |Children(e)| - i
  {
    var es := Children(e);
    if i < |es| {
      assert es[i..][0] == es[i] && es[i..][1..] == es[i + 1..];
      Rushes(v, es[i], trace);
      var r := Eval(RushHost(v), es[i], [map[]], trace);
      if r.Val? { ListRushes(v, e, i + 1, r.trace); }
    }
  }

  lemma EagerRushes(v: Valuation, e: Expr, trace: Trace)
    requires IsEager(e) && EvalsEagerly(RushHost(v), e, [map[]], trace)
    requires ListHappens(EvalAll(RushHost(v), Children(e), [map[]], trace), e, 0, v)
    ensures Happens(Eval(RushHost(v), e, [map[]], trace), e, v)
  {
    if Leaves(e, v) { EagerLeaves(v, e); }
  }

  lemma EagerLeaves(v: Valuation, e: Expr)
    requires IsEager(e) && Leaves(e, v)
    ensures exists k :: 0 <= k < |Children(e)| && Leaves(Children(e)[k], v) && forall j :: 0 <= j < k ==> Yields(Children(e)[j], v)
  {
    var k :| 0 <= k < |Children(e)| && Leaves(Children(e)[k], v) && YieldsBefore(e, k, v);
  }

  /** A comparison is rightly folded into a hole, on all hosts and stores, if no outcome of its text
      is a value or an early return; and only then, where the analysis decides. */
  lemma HoleIsRightExactlyWhen(e: Expr, counts: Counts)
    requires TurnsToHole(e, counts)
    ensures Doomed(e) ==> forall h | OptionHost(h) :: SameValue(h, e, FixExpr(e, counts))
    ensures IsDecided(e) ==> ((forall h | OptionHost(h) :: SameValue(h, e, FixExpr(e, counts))) <==> Doomed(e))
  {
    if Doomed(e) {
      forall h | OptionHost(h) ensures SameValue(h, e, FixExpr(e, counts)) { DoomedHole(h, e); }
    } else if IsDecided(e) {
      var h := MistakenHole(e);
    }
  }

  lemma DoomedHole(h: Host, e: Expr)
    requires OptionHost(h) && Doomed(e)
    ensures SameValue(h, e, UnknownVal)
  {
    forall frames, trace ensures Eval(h, e, frames, trace) == Eval(h, UnknownVal, frames, trace) {
      DoomedAborts(h, e, frames, trace);
    }
  }

  lemma MistakenHole(e: Expr) returns (h: Host)
    requires IsDecided(e) && !Doomed(e)
    ensures OptionHost(h) && !SameValue(h, e, UnknownVal)
  {
    var v: Valuation :| Yields(e, v) || Leaves(e, v);
    h := RushHost(v);
    RushHostFits(v);
    Rushes(v, e, []);
    NotTheSame(h, e);
  }

  lemma NotTheSame(h: Host, e: Expr)
    requires OnlyTryLeaves(h) && !Eval(h, e, [map[]], []).Abort?
    ensures !SameValue(h, e, UnknownVal)
  {
    assert Eval(h, UnknownVal, [map[]], []).Abort?;
  }

  // ---------------------------------------------------------------------
  // Whole bodies
  // ---------------------------------------------------------------------

  ghost predicate StmtHolesDoomed(s: Stmt, counts: Counts)
    decreases s, 1
  {
    match s
    case ExprStmt(e) => HolesDoomed(e, counts)
    case Let(_, _, e) => HolesDoomed(e, counts)
    case Assign(_, e) => HolesDoomed(e, counts)
    case Return(Some(e)) => HolesDoomed(e, counts)
    case If(c, a, b) => HolesDoomed(c, counts) && AllHolesDoomed(a, counts) && AllHolesDoomed(b, counts)
    case Match(e, arms) => HolesDoomed(e, counts) && ArmsHolesDoomed(arms, counts)
    case For(_, lo, hi, _, b) => HolesDoomed(lo, counts) && HolesDoomed(hi, counts) && AllHolesDoomed(b, counts)
    case Loop(b) => AllHolesDoomed(b, counts)
    case Block(b) => AllHolesDoomed(b, counts)
    case _ => true
  }

  ghost predicate AllHolesDoomed(ss: seq<Stmt>, counts: Counts)
    decreases ss, 0
  {
    ss == [] || (StmtHolesDoomed(ss[0], counts) && AllHolesDoomed(ss[1..], counts))
  }

  ghost predicate ArmsHolesDoomed(arms: seq<Arm>, counts: Counts)
    decreases arms, 0
  {
    arms == [] || (AllHolesDoomed(arms[0].body, counts) && ArmsHolesDoomed(arms[1..], counts))
  }

  lemma FixKeepsTry(e: Expr, counts: Counts)
    ensures IsTry(FixExpr(e, counts)) == IsTry(e)
  {
  }

  lemma {:induction false} FixAlike(h: Host, s: Stmt, counts: Counts)
    requires OptionHost(h) && StmtHolesDoomed(s, counts)
    ensures Alike(h, s, FixStmt(s, counts))
    decreases s, 1
  {
    match s
    case ExprStmt(e) => FixKeepsValue(h, e, counts); FixKeepsTry(e, counts);
    case Let(_, _, e) => FixKeepsValue(h, e, counts);
    case Assign(_, e) => FixKeepsValue(h, e, counts);
    case Return(Some(e)) => FixKeepsValue(h, e, counts);
    case If(_, _, _) => FixAlikeIf(h, s, counts);
    case Match(e, arms) => FixKeepsValue(h, e, counts); FixArmsAlike(h, arms, counts);
    case For(_, _, _, _, _) => FixAlikeFor(h, s, counts);
    case Loop(b) => FixAllAlike(h, b, counts);
    case Block(b) => FixAllAlike(h, b, counts);
    case _ =>
  }

  lemma {:induction false} FixAlikeIf(h: Host, s: Stmt, counts: Counts)
    requires OptionHost(h) && StmtHolesDoomed(s, counts)
    requires s.If?
    ensures Alike(h, s, FixStmt(s, counts))
    decreases s, 0
  {
    FixKeepsValue(h, s.cond, counts);
    FixAllAlike(h, s.thenBody, counts);
    FixAllAlike(h, s.elseBody, counts);
  }

  lemma {:induction false} FixAlikeFor(h: Host, s: Stmt, counts: Counts)
    requires OptionHost(h) && StmtHolesDoomed(s, counts)
    requires s.For?
    ensures Alike(h, s, FixStmt(s, counts))
    decreases s, 0
  {
    FixKeepsValue(h, s.start, counts);
    FixKeepsValue(h, s.end, counts);
    FixAllAlike(h, s.body, counts);
  }

  lemma {:induction false} FixAllAlike(h: Host, ss: seq<Stmt>, counts: Counts)
    requires OptionHost(h) && AllHolesDoomed(ss, counts)
    ensures AlikeAll(h, ss, FixAll(ss, counts))
    decreases ss, 0
  {
    if ss != [] {
      FixAlike(h, ss[0], counts);
      FixAllAlike(h, ss[1..], counts);
    }
  }

  lemma {:induction false} FixArmsAlike(h: Host, arms: seq<Arm>, counts: Counts)
    requires OptionHost(h) && ArmsHolesDoomed(arms, counts)
    ensures AlikeArms(h, arms, FixArms(arms, counts))
    decreases arms, 0
  {
    if arms != [] {
      FixAllAlike(h, arms[0].body, counts);
      FixArmsAlike(h, arms[1..], counts);
    }
  }

  /** The pass cannot be observed in a body in which every comparison that it folds into a hole is
      doomed: every run has the same outcome, store and effects afterwards, with any use counts. */
  lemma FoldPreservesMeaning(h: Host, fuel: nat, ss: seq<Stmt>, counts: Counts, frames: Frames, trace: Trace)
    requires OptionHost(h) && AllHolesDoomed(ss, counts)
    ensures ExecAll(h, fuel, FixAll(ss, counts), frames, trace) == ExecAll(h, fuel, ss, frames, trace)
  {
    FixAllAlike(h, ss, counts);
    ExecAllAlike(h, fuel, ss, FixAll(ss, counts), frames, trace);
  }

  // ---------------------------------------------------------------------
  // Clones and repetition
  // ---------------------------------------------------------------------

  /** The pass has nothing left to do. */
  predicate Stable(e: Expr, counts: Counts) { FixExpr(e, counts) == e }

  predicate AllStable(es: seq<Expr>, counts: Counts) {
    forall i {:trigger Stable(es[i], counts)} | 0 <= i < |es| :: Stable(es[i], counts)
  }

  /** After one pass there is nothing left to do, with these use counts or lower ones. */
  lemma {:induction false} FixOnce(e: Expr, counts: Counts, counts': Counts)
    requires forall x :: Get(counts', x) <= Get(counts, x)
    ensures Stable(FixExpr(e, counts), counts')
  {
    var kids := FixedKids(e, counts);
    forall i | 0 <= i < |kids| ensures Stable(kids[i], counts') {
      FixOnce(Children(e)[i], counts, counts');
    }
    RebuiltNode(e, kids);
    FinishOnce(Rebuild(e, kids), counts, counts');
  }

  lemma Settled(e: Expr, counts: Counts)
    requires AllStable(Children(e), counts)
    ensures FixExpr(e, counts) == Finish(e, counts)
  {
    var kids := FixedKids(e, counts);
    forall i | 0 <= i < |kids| ensures kids[i] == Children(e)[i] { assert Stable(Children(e)[i], counts); }
    assert kids == Children(e);
    RebuiltSame(e);
  }

  lemma FinishOnce(g: Expr, counts: Counts, counts': Counts)
    requires forall x :: Get(counts', x) <= Get(counts, x)
    requires AllStable(Children(g), counts')
    ensures Stable(Finish(g, counts), counts')
  {
    var f := Finish(g, counts);
    if f == g {
      Settled(g, counts');
      if IsBareIndexOf(g) { CloneTwice(g.args, counts, counts'); }
    } else if g.MethodCall? {
      SearchKidsSettled(g, counts, counts');
      Settled(f, counts');
      CloneTwice(g.args, counts, counts');
    } else if f != UnknownVal {
      assert Children(f) == [f.receiver] && Children(g) == [g.lhs, g.rhs];
      assert Stable(Children(g)[0], counts') && Stable(Children(g)[1], counts');
      Settled(f, counts');
    }
  }

  lemma SearchKidsSettled(g: Expr, counts: Counts, counts': Counts)
    requires IsBareIndexOf(g) && AllStable(Children(g), counts')
    ensures AllStable(Children(Finish(g, counts)), counts')
  {
    var stable := (e: Expr) => Stable(e, counts');
    forall a | stable(a) ensures stable(CloneArg(a, counts)) { CloneSettled(a, counts, counts'); }
    forall i | 0 <= i < |Children(g)| ensures stable(Children(g)[i]) { assert Stable(Children(g)[i], counts'); }
    ClonesSatisfy(g.receiver, g.args, counts, stable);
    forall i | 0 <= i < |Children(Finish(g, counts))| ensures Stable(Children(Finish(g, counts))[i], counts') {
      assert stable(Children(Finish(g, counts))[i]);
    }
  }

  lemma ClonesSatisfy(receiver: Expr, args: seq<Expr>, counts: Counts, p: Expr -> bool)
    requires forall i | 0 <= i <= |args| :: p(([receiver] + args)[i])
    requires forall a | p(a) :: p(CloneArg(a, counts))
    ensures forall i | 0 <= i <= |args| :: p(([receiver] + CloneArgs(args, counts))[i])
  {
    forall i | 0 <= i <= |args| ensures p(([receiver] + CloneArgs(args, counts))[i]) {
      assert p(([receiver] + args)[i]);
    }
  }

  lemma CloneSettled(a: Expr, counts: Counts, counts': Counts)
    requires Stable(a, counts')
    ensures Stable(CloneArg(a, counts), counts')
  {
    var c := CloneArg(a, counts);
    if c != a {
      assert Children(c) == [a];
      Settled(c, counts');
    }
  }

  lemma CloneTwice(args: seq<Expr>, counts: Counts, counts': Counts)
    requires forall x :: Get(counts', x) <= Get(counts, x)
    ensures CloneArgs(CloneArgs(args, counts), counts') == CloneArgs(args, counts)
  {
  }

  lemma {:induction false} UsesFromAtMost(e: Expr, f: Expr, i: nat, x: string)
    requires |Children(e)| == |Children(f)| && i <= |Children(e)|
    requires forall k | i <= k < |Children(e)| :: Uses(Children(f)[k], x) <= Uses(Children(e)[k], x)
    ensures UsesFrom(f, i, x) <= UsesFrom(e, i, x)
    decreases |Children(e)| - i
  {
    if i < |Children(e)| { UsesFromAtMost(e, f, i + 1, x); }
  }

  lemma CloneUses(a: Expr, counts: Counts, x: string)
    ensures Uses(CloneArg(a, counts), x) == Uses(a, x)
  {
    var c := CloneArg(a, counts);
    if c != a {
      assert Children(c) == [a];
      assert UsesFrom(c, 1, x) == 0;
      assert UsesFrom(c, 0, x) == Uses(a, x);
    }
  }

  lemma FinishUses(g: Expr, counts: Counts, x: string)
    ensures Uses(Finish(g, counts), x) <= Uses(g, x)
  {
    var f := Finish(g, counts);
    if f != g && g.MethodCall? {
      forall k | 0 <= k < |Children(g)| ensures Uses(Children(f)[k], x) <= Uses(Children(g)[k], x) {
        if k > 0 { CloneUses(g.args[k - 1], counts, x); }
      }
      UsesFromAtMost(g, f, 0, x);
    } else if f != g && f != UnknownVal {
      assert Children(f) == [f.receiver] && Children(g) == [g.lhs, g.rhs];
      assert UsesFrom(f, 1, x) == 0 && UsesFrom(g, 2, x) == 0;
      assert UsesFrom(g, 1, x) == Uses(g.rhs, x);
      assert UsesFrom(g, 0, x) == Uses(g.lhs, x) + Uses(g.rhs, x);
      assert UsesFrom(f, 0, x) == Uses(f.receiver, x);
    }
  }

  /** No identifier is used more often after the pass. */
  lemma {:induction false} FixUses(e: Expr, counts: Counts, x: string)
    ensures Uses(FixExpr(e, counts), x) <= Uses(e, x)
  {
    var kids := FixedKids(e, counts);
    forall k | 0 <= k < |kids| ensures Uses(kids[k], x) <= Uses(Children(e)[k], x) {
      FixUses(Children(e)[k], counts, x);
    }
    RebuiltUses(e, kids, x);
    FinishUses(Rebuild(e, kids), counts, x);
  }

  lemma RebuiltUses(e: Expr, kids: seq<Expr>, x: string)
    requires |kids| == |Children(e)| && forall k | 0 <= k < |kids| :: Uses(kids[k], x) <= Uses(Children(e)[k], x)
    ensures Uses(Rebuild(e, kids), x) <= Uses(e, x)
  {
    RebuiltNode(e, kids);
    UsesFromAtMost(e, Rebuild(e, kids), 0, x);
  }

  lemma {:induction false} FixStmtUses(s: Stmt, counts: Counts, x: string)
    ensures UsesStmt(FixStmt(s, counts), x) <= UsesStmt(s, x)
    decreases s, 1
  {
    match s
    case ExprStmt(e) => FixUses(e, counts, x);
    case Let(_, _, e) => FixUses(e, counts, x);
    case Assign(_, e) => FixUses(e, counts, x);
    case Return(Some(e)) => FixUses(e, counts, x);
    case If(_, _, _) => FixStmtUsesIf(s, counts, x);
    case Match(e, arms) => FixUses(e, counts, x); FixArmsUses(arms, counts, x);
    case For(_, _, _, _, _) => FixStmtUsesFor(s, counts, x);
    case Loop(b) => FixAllUses(b, counts, x);
    case Block(b) => FixAllUses(b, counts, x);
    case _ =>
  }

  lemma {:induction false} FixStmtUsesIf(s: Stmt, counts: Counts, x: string)
    requires s.If?
    ensures UsesStmt(FixStmt(s, counts), x) <= UsesStmt(s, x)
    decreases s, 0
  {
    FixUses(s.cond, counts, x);
    FixAllUses(s.thenBody, counts, x);
    FixAllUses(s.elseBody, counts, x);
  }

  lemma {:induction false} FixStmtUsesFor(s: Stmt, counts: Counts, x: string)
    requires s.For?
    ensures UsesStmt(FixStmt(s, counts), x) <= UsesStmt(s, x)
    decreases s, 0
  {
    FixUses(s.start, counts, x);
    FixUses(s.end, counts, x);
    FixAllUses(s.body, counts, x);
  }

  lemma {:induction false} FixAllUses(ss: seq<Stmt>, counts: Counts, x: string)
    ensures UsesAll(FixAll(ss, counts), x) <= UsesAll(ss, x)
    decreases ss, 0
  {
    if ss != [] {
      FixStmtUses(ss[0], counts, x);
      FixAllUses(ss[1..], counts, x);
    }
  }

  lemma {:induction false} FixArmsUses(arms: seq<Arm>, counts: Counts, x: string)
    ensures UsesArms(FixArms(arms, counts), x) <= UsesArms(arms, x)
    decreases arms, 0
  {
    if arms != [] {
      FixAllUses(arms[0].body, counts, x);
      FixArmsUses(arms[1..], counts, x);
    }
  }

  lemma {:induction false} FixStmtOnce(s: Stmt, counts: Counts, counts': Counts)
    requires forall x :: Get(counts', x) <= Get(counts, x)
    ensures FixStmt(FixStmt(s, counts), counts') == FixStmt(s, counts)
    decreases s, 1
  {
    match s
    case ExprStmt(e) => FixOnce(e, counts, counts');
    case Let(_, _, e) => FixOnce(e, counts, counts');
    case Assign(_, e) => FixOnce(e, counts, counts');
    case Return(Some(e)) => FixOnce(e, counts, counts');
    case If(_, _, _) => FixStmtOnceIf(s, counts, counts');
    case Match(e, arms) => FixOnce(e, counts, counts'); FixArmsOnce(arms, counts, counts');
    case For(_, _, _, _, _) => FixStmtOnceFor(s, counts, counts');
    case Loop(b) => FixAllOnce(b, counts, counts');
    case Block(b) => FixAllOnce(b, counts, counts');
    case _ =>
  }

  lemma {:induction false} FixStmtOnceIf(s: Stmt, counts: Counts, counts': Counts)
    requires forall x :: Get(counts', x) <= Get(counts, x)
    requires s.If?
    ensures FixStmt(FixStmt(s, counts), counts') == FixStmt(s, counts)
    decreases s, 0
  {
    FixOnce(s.cond, counts, counts');
    FixAllOnce(s.thenBody, counts, counts');
    FixAllOnce(s.elseBody, counts, counts');
  }

  lemma {:induction false} FixStmtOnceFor(s: Stmt, counts: Counts, counts': Counts)
    requires forall x :: Get(counts', x) <= Get(counts, x)
    requires s.For?
    ensures FixStmt(FixStmt(s, counts), counts') == FixStmt(s, counts)
    decreases s, 0
  {
    FixOnce(s.start, counts, counts');
    FixOnce(s.end, counts, counts');
    FixAllOnce(s.body, counts, counts');
  }

  lemma {:induction false} FixAllOnce(ss: seq<Stmt>, counts: Counts, counts': Counts)
    requires forall x :: Get(counts', x) <= Get(counts, x)
    ensures FixAll(FixAll(ss, counts), counts') == FixAll(ss, counts)
    decreases ss, 0
  {
    if ss != [] {
      FixStmtOnce(ss[0], counts, counts');
      FixAllOnce(ss[1..], counts, counts');
    }
  }

  lemma {:induction false} FixArmsOnce(arms: seq<Arm>, counts: Counts, counts': Counts)
    requires forall x :: Get(counts', x) <= Get(counts, x)
    ensures FixArms(FixArms(arms, counts), counts') == FixArms(arms, counts)
    decreases arms, 0
  {
    if arms != [] {
      FixAllOnce(arms[0].body, counts, counts');
      FixArmsOnce(arms[1..], counts, counts');
    }
  }

  /** Running the pass again, with use counts gathered afresh, changes nothing. */
  lemma FoldIsIdempotent(ss: seq<Stmt>, counts: Counts, counts': Counts)
    requires Counted(counts, ss) && Counted(counts', FixAll(ss, counts))
    ensures FixAll(FixAll(ss, counts), counts') == FixAll(ss, counts)
  {
    forall x ensures Get(counts', x) <= Get(counts, x) { FixAllUses(ss, counts, x); }
    FixAllOnce(ss, counts, counts');
  }

  // ---------------------------------------------------------------------
  // Which arguments are cloned
  // ---------------------------------------------------------------------

  /** The expressions of a body, in the order in which the pass walks them. */
  function StmtExprs(s: Stmt): seq<Expr>
    decreases s, 1
  {
    match s
    case ExprStmt(e) => [e]
    case Let(_, _, e) => [e]
    case Assign(_, e) => [e]
    case Return(Some(e)) => [e]
    case If(c, a, b) => [c] + Exprs(a) + Exprs(b)
    case Match(e, arms) => [e] + ArmExprs(arms)
    case For(_, lo, hi, _, b) => [lo, hi] + Exprs(b)
    case Loop(b) => Exprs(b)
    case Block(b) => Exprs(b)
    case _ => []
  }

  function Exprs(ss: seq<Stmt>): seq<Expr>
    decreases ss, 0
  {
    if ss == [] then [] else StmtExprs(ss[0]) + Exprs(ss[1..])
  }

  function ArmExprs(arms: seq<Arm>): seq<Expr>
    decreases arms, 0
  {
    if arms == [] then [] else Exprs(arms[0].body) + ArmExprs(arms[1..])
  }

  function Each(es: seq<Expr>, f: Expr -> Expr): (r: seq<Expr>)
    ensures |r| == |es| && forall i :: 0 <= i < |es| ==> r[i] == f(es[i])
  {
    seq(|es|, i requires 0 <= i < |es| => f(es[i]))
  }

  lemma EachAppend(a: seq<Expr>, b: seq<Expr>, f: Expr -> Expr)
    ensures Each(a + b, f) == Each(a, f) + Each(b, f)
  {
  }

  /** `f` folds an expression. */
  ghost predicate Folds(f: Expr -> Expr, counts: Counts) {
    forall e {:trigger FixExpr(e, counts)} :: f(e) == FixExpr(e, counts)
  }

  /** The pass folds the expressions one by one. */
  lemma {:induction false} FixedStmtExprs(s: Stmt, counts: Counts, f: Expr -> Expr)
    requires Folds(f, counts)
    ensures StmtExprs(FixStmt(s, counts)) == Each(StmtExprs(s), f)
    decreases s, 1
  {
    match s
    case If(_, _, _) => FixedIfExprs(s, counts, f);
    case Match(e, arms) =>
      FixedArmExprs(arms, counts, f);
      OneExpr(FixExpr(e, counts), ArmExprs(FixArms(arms, counts)), e, ArmExprs(arms), f);
    case For(_, _, _, _, _) => FixedForExprs(s, counts, f);
    case Loop(b) => FixedExprs(b, counts, f);
    case Block(b) => FixedExprs(b, counts, f);
    case _ =>
  }

  lemma {:induction false} FixedIfExprs(s: Stmt, counts: Counts, f: Expr -> Expr)
    requires s.If? && Folds(f, counts)
    ensures StmtExprs(FixStmt(s, counts)) == Each(StmtExprs(s), f)
    decreases s, 0
  {
    FixedExprs(s.thenBody, counts, f);
    FixedExprs(s.elseBody, counts, f);
    IfExprs(FixExpr(s.cond, counts), Exprs(FixAll(s.thenBody, counts)), Exprs(FixAll(s.elseBody, counts)),
            s.cond, Exprs(s.thenBody), Exprs(s.elseBody), f);
  }

  lemma {:induction false} FixedForExprs(s: Stmt, counts: Counts, f: Expr -> Expr)
    requires s.For? && Folds(f, counts)
    ensures StmtExprs(FixStmt(s, counts)) == Each(StmtExprs(s), f)
    decreases s, 0
  {
    FixedExprs(s.body, counts, f);
    TwoExprs(FixExpr(s.start, counts), FixExpr(s.end, counts), Exprs(FixAll(s.body, counts)), s.start, s.end, Exprs(s.body), f);
  }

  lemma OneExpr(c': Expr, a': seq<Expr>, c: Expr, a: seq<Expr>, f: Expr -> Expr)
    requires c' == f(c) && a' == Each(a, f)
    ensures [c'] + a' == Each([c] + a, f)
  {
  }

  lemma TwoExprs(c': Expr, d': Expr, a': seq<Expr>, c: Expr, d: Expr, a: seq<Expr>, f: Expr -> Expr)
    requires c' == f(c) && d' == f(d) && a' == Each(a, f)
    ensures [c', d'] + a' == Each([c, d] + a, f)
  {
  }

  lemma IfExprs(c': Expr, a': seq<Expr>, b': seq<Expr>, c: Expr, a: seq<Expr>, b: seq<Expr>, f: Expr -> Expr)
    requires c' == f(c) && a' == Each(a, f) && b' == Each(b, f)
    ensures [c'] + a' + b' == Each([c] + a + b, f)
  {
    OneExpr(c', a', c, a, f);
    EachAppend([c] + a, b, f);
  }

  lemma {:induction false} FixedExprs(ss: seq<Stmt>, counts: Counts, f: Expr -> Expr)
    requires Folds(f, counts)
    ensures Exprs(FixAll(ss, counts)) == Each(Exprs(ss), f)
    decreases ss, 0
  {
    if ss != [] {
      FixedStmtExprs(ss[0], counts, f);
      FixedExprs(ss[1..], counts, f);
      EachAppend(StmtExprs(ss[0]), Exprs(ss[1..]), f);
      assert FixAll(ss, counts)[1..] == FixAll(ss[1..], counts);
    }
  }

  lemma {:induction false} FixedArmExprs(arms: seq<Arm>, counts: Counts, f: Expr -> Expr)
    requires Folds(f, counts)
    ensures ArmExprs(FixArms(arms, counts)) == Each(ArmExprs(arms), f)
    decreases arms, 0
  {
    if arms != [] {
      FixedExprs(arms[0].body, counts, f);
      FixedArmExprs(arms[1..], counts, f);
      EachAppend(Exprs(arms[0].body), ArmExprs(arms[1..]), f);
      assert FixArms(arms, counts)[1..] == FixArms(arms[1..], counts);
    }
  }

  predicate IsCloneOf(e: Expr, x: string) { e.MethodCall? && e.selector == "clone" && NameOf(e.receiver) == Some(x) }

  /** The number of clones of an identifier in an expression. */
  function Clonings(e: Expr, x: string): nat
    decreases e, 1
  {
    (if IsCloneOf(e, x) then 1 else 0) + CloningsFrom(e, 0, x)
  }

  function CloningsFrom(e: Expr, i: nat, x: string): nat
    requires i <= |Children(e)|
    decreases e, 0, |Children(e)| - i
  {
    if i == |Children(e)| then 0 else Clonings(Children(e)[i], x) + CloningsFrom(e, i + 1, x)
  }

  /** Some search takes the identifier itself as an argument. */
  predicate HasBareArg(e: Expr, x: string) {
    || (IsBareIndexOf(e) && exists i :: 0 <= i < |e.args| && NameOf(e.args[i]) == Some(x))
    || exists i :: 0 <= i < |Children(e)| && HasBareArg(Children(e)[i], x)
  }

  lemma FixedName(e: Expr, counts: Counts)
    ensures NameOf(FixExpr(e, counts)) == NameOf(e)
  {
    FinishedName(Rebuild(e, FixedKids(e, counts)), counts);
    RebuiltName(e, FixedKids(e, counts));
  }

  lemma FinishedName(g: Expr, counts: Counts)
    ensures NameOf(Finish(g, counts)) == NameOf(g)
  {
  }

  lemma RebuiltName(e: Expr, kids: seq<Expr>)
    requires |kids| == |Children(e)|
    ensures NameOf(Rebuild(e, kids)) == NameOf(e)
  {
  }

  lemma {:induction false} CloningsFromAtMost(e: Expr, f: Expr, i: nat, x: string)
    requires |Children(e)| == |Children(f)| && i <= |Children(e)|
    requires forall k | i <= k < |Children(e)| :: Clonings(Children(f)[k], x) <= Clonings(Children(e)[k], x)
    ensures CloningsFrom(f, i, x) <= CloningsFrom(e, i, x)
    decreases |Children(e)| - i
  {
    if i < |Children(e)| { CloningsFromAtMost(e, f, i + 1, x); }
  }

  /** An identifier used less than twice gets no clone. */
  lemma {:induction false} FixClonings(e: Expr, counts: Counts, x: string)
    requires Get(counts, x) < 2
    ensures Clonings(FixExpr(e, counts), x) <= Clonings(e, x)
  {
    var kids := FixedKids(e, counts);
    forall k | 0 <= k < |kids| ensures Clonings(kids[k], x) <= Clonings(Children(e)[k], x) {
      FixClonings(Children(e)[k], counts, x);
    }
    RebuiltClonings(e, kids, counts, x);
    FinishClonings(Rebuild(e, kids), counts, x);
  }

  lemma RebuiltClonings(e: Expr, kids: seq<Expr>, counts: Counts, x: string)
    requires kids == FixedKids(e, counts) && forall k | 0 <= k < |kids| :: Clonings(kids[k], x) <= Clonings(Children(e)[k], x)
    ensures Clonings(Rebuild(e, kids), x) <= Clonings(e, x)
  {
    RebuiltNode(e, kids);
    CloningsFromAtMost(e, Rebuild(e, kids), 0, x);
    if e.MethodCall? { FixedName(e.receiver, counts); }
  }

  lemma FinishClonings(g: Expr, counts: Counts, x: string)
    requires Get(counts, x) < 2
    ensures Clonings(Finish(g, counts), x) <= Clonings(g, x)
  {
    var f := Finish(g, counts);
    if f != g && g.MethodCall? {
      forall k | 0 <= k < |Children(g)| ensures Clonings(Children(f)[k], x) <= Clonings(Children(g)[k], x) {
        if k > 0 { CloneClonings(g.args[k - 1], counts, x); }
      }
      CloningsFromAtMost(g, f, 0, x);
    } else if f != g && f != UnknownVal {
      TestClonings(g, f, x);
    }
  }

  lemma TestClonings(g: Expr, f: Expr, x: string)
    requires g.Binary? && f.MethodCall? && f.args == [] && f.selector != "clone" && (f.receiver == g.lhs || f.receiver == g.rhs)
    ensures Clonings(f, x) <= Clonings(g, x)
  {
    assert Children(f) == [f.receiver] && Children(g) == [g.lhs, g.rhs];
    assert CloningsFrom(f, 1, x) == 0 && CloningsFrom(g, 2, x) == 0;
    assert CloningsFrom(g, 1, x) == Clonings(g.rhs, x);
    assert CloningsFrom(g, 0, x) == Clonings(g.lhs, x) + Clonings(g.rhs, x);
    assert CloningsFrom(f, 0, x) == Clonings(f.receiver, x);
  }

  lemma CloneClonings(a: Expr, counts: Counts, x: string)
    requires Get(counts, x) < 2
    ensures Clonings(CloneArg(a, counts), x) == Clonings(a, x)
  {
    var c := CloneArg(a, counts);
    if c != a {
      assert Children(c) == [a];
      assert CloningsFrom(c, 1, x) == 0;
      assert CloningsFrom(c, 0, x) == Clonings(a, x);
    }
  }

  /** An identifier used twice or more stands bare in no search. */
  lemma {:induction false} FixLeavesNoBareArg(e: Expr, counts: Counts, x: string)
    requires Get(counts, x) >= 2
    ensures !HasBareArg(FixExpr(e, counts), x)
  {
    var kids := FixedKids(e, counts);
    forall k | 0 <= k < |kids| ensures !HasBareArg(kids[k], x) { FixLeavesNoBareArg(Children(e)[k], counts, x); }
    RebuiltNode(e, kids);
    FinishLeavesNoBareArg(Rebuild(e, kids), counts, x);
  }

  lemma FinishLeavesNoBareArg(g: Expr, counts: Counts, x: string)
    requires Get(counts, x) >= 2 && forall k | 0 <= k < |Children(g)| :: !HasBareArg(Children(g)[k], x)
    ensures !HasBareArg(Finish(g, counts), x)
  {
    var f := Finish(g, counts);
    if g.MethodCall? && f != g {
      forall i | 0 <= i < |f.args| ensures NameOf(f.args[i]) != Some(x) && !HasBareArg(f.args[i], x) {
        assert !HasBareArg(Children(g)[i + 1], x);
        CloneHasNoBareArg(g.args[i], counts, x);
      }
      forall i | 0 <= i < |Children(f)| ensures !HasBareArg(Children(f)[i], x) {
        if i == 0 { assert Children(g)[0] == g.receiver; } else { assert Children(f)[i] == f.args[i - 1]; }
      }
    } else if f != g && f != UnknownVal {
      assert Children(f) == [f.receiver] && Children(g) == [g.lhs, g.rhs];
      assert !HasBareArg(Children(g)[0], x) && !HasBareArg(Children(g)[1], x);
    } else if IsBareIndexOf(g) {
      forall i | 0 <= i < |g.args| ensures NameOf(g.args[i]) != Some(x) { assert f.args[i] == CloneArg(g.args[i], counts); }
    }
  }

  lemma CloneHasNoBareArg(a: Expr, counts: Counts, x: string)
    requires Get(counts, x) >= 2 && !HasBareArg(a, x)
    ensures NameOf(CloneArg(a, counts)) != Some(x) && !HasBareArg(CloneArg(a, counts), x)
  {
    var c := CloneArg(a, counts);
    if c != a { assert Children(c) == [a]; }
  }

  /** Over a whole body: an identifier gets no clone that it did not have if it is used less than
      twice, and stands bare in no search if it is used twice or more. */
  lemma ClonedExactlyWhenShared(ss: seq<Stmt>, counts: Counts, x: string, i: nat)
    requires Counted(counts, ss) && i < |Exprs(ss)|
    ensures |Exprs(FixAll(ss, counts))| == |Exprs(ss)|
    ensures UsesAll(ss, x) < 2 ==> Clonings(Exprs(FixAll(ss, counts))[i], x) <= Clonings(Exprs(ss)[i], x)
    ensures UsesAll(ss, x) >= 2 ==> !HasBareArg(Exprs(FixAll(ss, counts))[i], x)
  {
    var f := (e: Expr) => FixExpr(e, counts);
    FixedExprs(ss, counts, f);
    assert Exprs(FixAll(ss, counts))[i] == f(Exprs(ss)[i]);
    assert Get(counts, x) == UsesAll(ss, x);
    if UsesAll(ss, x) < 2 {
      FixClonings(Exprs(ss)[i], counts, x);
    } else {
      FixLeavesNoBareArg(Exprs(ss)[i], counts, x);
    }
  }

  // ---------------------------------------------------------------------
  // A hole that is never evaluated
  // ---------------------------------------------------------------------

  function LazySearch(x: string): Expr {
    MethodCall(Param(x), "first_index_of", [Binary(And, BoolLit(false), UnknownVal)])
  }

  /** A hole behind a short-circuiting operator is never reached, yet the comparison is
      replaced by a trap. */
  lemma LazyHoleIsMisfolded(h: Host, x: string, op: BinaryOp, counts: Counts, frames: Frames, trace: Trace)
    requires OptionHost(h) && (op == Eq || op == Ne)
    requires h.apply(OpMethod("first_index_of"), [Read(h, frames, x), 0], trace).Ok?
    ensures var test := Binary(op, LazySearch(x), Lit(U32, 2));
            Eval(h, test, frames, trace).Val? && Eval(h, FixExpr(test, counts), frames, trace).Abort?
  {
    LazyTestYields(h, x, op, frames, trace);
    LazySearchFixed(x, op, counts);
  }

  lemma LazyTestYields(h: Host, x: string, op: BinaryOp, frames: Frames, trace: Trace)
    requires OptionHost(h) && (op == Eq || op == Ne)
    requires h.apply(OpMethod("first_index_of"), [Read(h, frames, x), 0], trace).Ok?
    ensures Eval(h, Binary(op, LazySearch(x), Lit(U32, 2)), frames, trace).Val?
    ensures Eval(h, UnknownVal, frames, trace).Abort?
  {
    LazySearchEvaluates(h, x, frames, trace);
    ComparisonYields(h, op, LazySearch(x), frames, trace);
  }

  lemma ComparisonYields(h: Host, op: BinaryOp, call: Expr, frames: Frames, trace: Trace)
    requires OptionHost(h) && (op == Eq || op == Ne) && Eval(h, call, frames, trace).Val?
    ensures Eval(h, Binary(op, call, Lit(U32, 2)), frames, trace).Val?
  {
    EvalComparison(h, op, call, Lit(U32, 2), frames, trace);
  }

  lemma LazySearchEvaluates(h: Host, x: string, frames: Frames, trace: Trace)
    requires h.apply(OpMethod("first_index_of"), [Read(h, frames, x), 0], trace).Ok?
    ensures Eval(h, LazySearch(x), frames, trace).Val?
  {
    var arg := Binary(And, BoolLit(false), UnknownVal);
    LazyArgEvaluates(h, arg, frames, trace);
    EvalFirst(h, arg, [], frames, trace);
    assert [arg] + [] == [arg];
    assert EvalAll(h, [arg], frames, trace) == Vals([0], trace);
    assert [Read(h, frames, x)] + [0] == [Read(h, frames, x), 0];
  }

  lemma LazyArgEvaluates(h: Host, arg: Expr, frames: Frames, trace: Trace)
    requires arg == Binary(And, BoolLit(false), UnknownVal)
    ensures Eval(h, arg, frames, trace) == Val(0, trace)
  {
  }

  lemma LazySearchFixed(x: string, op: BinaryOp, counts: Counts)
    requires op == Eq || op == Ne
    ensures FixExpr(Binary(op, LazySearch(x), Lit(U32, 2)), counts) == UnknownVal
  {
    var two, call := Lit(U32, 2), LazySearch(x);
    assert FixExpr(call, counts) == call by { LazySearchSettled(x, counts); }
    assert FixExpr(two, counts) == two by { FixLeaf(two, counts); }
    LazyArgUnknown(call.args[0]);
    TestOfLostSearch(op, call, two, call, two, counts);
  }

  lemma LazyArgUnknown(arg: Expr)
    requires arg == Binary(And, BoolLit(false), UnknownVal)
    ensures ContainsUnknown(arg)
  {
    assert ContainsUnknown(Children(arg)[1]);
  }

  /** A comparison of a search that lost its argument becomes a hole. */
  lemma TestOfLostSearch(op: BinaryOp, a: Expr, b: Expr, call: Expr, two: Expr, counts: Counts)
    requires (op == Eq || op == Ne) && call == FixExpr(a, counts) && two == FixExpr(b, counts)
    requires IsBareIndexOf(call) && IsTwo(two) && AnyUnknown(call.args) && IsEffectFree(call.receiver)
    ensures FixExpr(Binary(op, a, b), counts) == UnknownVal
  {
    FixedTest(op, a, b, counts);
    LostSearchFinishes(Binary(op, call, two), counts);
  }

  lemma FixedTest(op: BinaryOp, a: Expr, b: Expr, counts: Counts)
    ensures FixExpr(Binary(op, a, b), counts) == Finish(Binary(op, FixExpr(a, counts), FixExpr(b, counts)), counts)
  {
    var test, kids := Binary(op, a, b), FixedKids(Binary(op, a, b), counts);
    BinaryKids(op, a, b, kids);
    assert kids[0] == FixExpr(Children(test)[0], counts) && kids[1] == FixExpr(Children(test)[1], counts);
  }

  lemma BinaryKids(op: BinaryOp, a: Expr, b: Expr, kids: seq<Expr>)
    requires |kids| == 2
    ensures Children(Binary(op, a, b)) == [a, b] && Rebuild(Binary(op, a, b), kids) == Binary(op, kids[0], kids[1])
  {
  }

  lemma LostSearchFinishes(test: Expr, counts: Counts)
    requires test.Binary? && (test.bop == Eq || test.bop == Ne)
    requires IsBareIndexOf(test.lhs) && IsTwo(test.rhs)
    requires AnyUnknown(test.lhs.args) && IsEffectFree(test.lhs.receiver)
    ensures Finish(test, counts) == UnknownVal
  {
  }

  lemma LazySearchSettled(x: string, counts: Counts)
    ensures Stable(LazySearch(x), counts)
  {
    var arg := Binary(And, BoolLit(false), UnknownVal);
    LazyArgSettled(arg, counts);
    FixLeaf(Param(x), counts);
    LazyKids(x, arg, counts);
    Settled(LazySearch(x), counts);
  }

  lemma LazyKids(x: string, arg: Expr, counts: Counts)
    requires arg == Binary(And, BoolLit(false), UnknownVal)
    ensures Children(LazySearch(x)) == [Param(x), arg] && Finish(LazySearch(x), counts) == LazySearch(x)
  {
    assert CloneArgs([arg], counts) == [arg];
  }

  lemma LazyArgSettled(arg: Expr, counts: Counts)
    requires arg == Binary(And, BoolLit(false), UnknownVal)
    ensures Stable(arg, counts)
  {
    FixLeaf(BoolLit(false), counts);
    FixLeaf(UnknownVal, counts);
    assert Children(arg) == [BoolLit(false), UnknownVal];
    Settled(arg, counts);
  }

  lemma FixLeaf(e: Expr, counts: Counts)
    requires Children(e) == []
    ensures FixExpr(e, counts) == Finish(e, counts)
  {
    Settled(e, counts);
  }
}
