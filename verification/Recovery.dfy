/** Grading how much of a function was recovered (`recovery.rs`), against the generic
    expression walker, and the holing of pure host reads (`hole_pure_raw_host_reads`). */
module Recovery {
  import opened Ir
  import opened Spec

  // ---------------------------------------------------------------------
  // The nodes that the generic walker visits
  // ---------------------------------------------------------------------

  /** The expression and everything reached from it through children, in preorder. */
  function Nodes(e: Expr): seq<Expr>
    decreases e, 1
  {
    [e] + NodesFrom(e, 0)
  }

  function NodesFrom(e: Expr, i: nat): seq<Expr>
    requires i <= |Children(e)|
    decreases e, 0, |Children(e)| - i
  {
    if i == |Children(e)| then [] else Nodes(Children(e)[i]) + NodesFrom(e, i + 1)
  }

  /** Which statement positions are walked, in order; with or without the expressions of
      literal match patterns. */
  function StmtNodes(s: Stmt, patterns: bool): seq<Expr>
    decreases s, 1
  {
    match s
    case ExprStmt(e) => Nodes(e)
    case Let(_, _, e) => Nodes(e)
    case Assign(_, e) => Nodes(e)
    case Return(Some(e)) => Nodes(e)
    case If(c, a, b) => Nodes(c) + BodyNodes(a, patterns) + BodyNodes(b, patterns)
    case Match(e, arms) => Nodes(e) + ArmNodes(arms, patterns)
    case For(_, lo, hi, _, b) => Nodes(lo) + Nodes(hi) + BodyNodes(b, patterns)
    case Loop(b) => BodyNodes(b, patterns)
    case Block(b) => BodyNodes(b, patterns)
    case _ => []
  }

  function BodyNodes(ss: seq<Stmt>, patterns: bool): seq<Expr>
    decreases ss, 0
  {
    if ss == [] then [] else StmtNodes(ss[0], patterns) + BodyNodes(ss[1..], patterns)
  }

  function ArmNodes(arms: seq<Arm>, patterns: bool): seq<Expr>
    decreases arms, 0
  {
    if arms == [] then [] else OneArmNodes(arms[0], patterns) + ArmNodes(arms[1..], patterns)
  }

  function OneArmNodes(arm: Arm, patterns: bool): seq<Expr>
    decreases arm, 1
  {
    (if patterns && arm.pattern.Literal? then Nodes(arm.pattern.pat) else []) + BodyNodes(arm.body, patterns)
  }

  predicate IsMarker(e: Expr) { e.UnknownVal? || e.CyclicSlot? || e.RawHostCall? }

  function CallName(e: Expr): string
    requires e.RawHostCall?
  {
    e.hostModule + "::" + e.hostFunction
  }

  function UnknownIn(es: seq<Expr>): (n: nat)
    ensures n <= |es|
  {
    if es == [] then 0 else (if IsMarker(es[0]) then 1 else 0) + UnknownIn(es[1..])
  }

  function CallsIn(es: seq<Expr>): seq<string> {
    if es == [] then [] else (if es[0].RawHostCall? then [CallName(es[0])] else []) + CallsIn(es[1..])
  }

  lemma {:induction false} InAppend(es: seq<Expr>, fs: seq<Expr>)
    ensures UnknownIn(es + fs) == UnknownIn(es) + UnknownIn(fs)
    ensures CallsIn(es + fs) == CallsIn(es) + CallsIn(fs)
  {
    if es == [] {
      assert es + fs == fs;
    } else {
      assert (es + fs)[1..] == es[1..] + fs;
      InAppend(es[1..], fs);
    }
  }

  // ---------------------------------------------------------------------
  // The grading walk
  // ---------------------------------------------------------------------

  lemma AppendAssociates(a: seq<Expr>, b: seq<Expr>, c: seq<Expr>)
    ensures (a + b) + c == a + (b + c)
  {
  }

  lemma NodesOfFew(e: Expr)
    ensures e.Unary? ==> Nodes(e) == [e] + Nodes(e.arg)
    ensures e.StorageGet? ==> Nodes(e) == [e] + Nodes(e.key)
    ensures e.Binary? ==> NodesFrom(e, 0) == Nodes(e.lhs) + Nodes(e.rhs)
  {
    if e.Unary? || e.StorageGet? {
      assert NodesFrom(e, 1) == [];
    } else if e.Binary? {
      assert NodesFrom(e, 2) == [] && NodesFrom(e, 1) == Nodes(e.rhs);
    }
  }

  /** The traversal statistics of one function body. The walk has its own case for every
      kind of node; its contracts say that it sees exactly what the generic walker sees, in
      the same order, plus the literal patterns. */
  class NodeStats {
    var total: nat
    var unknown: nat
    var hostCalls: seq<string>
    /** The nodes visited so far. */
    ghost var seen: seq<Expr>

    ghost predicate Valid()
      reads this
    {
      total == |seen| && unknown == UnknownIn(seen) && hostCalls == CallsIn(seen)
    }

    constructor ()
      ensures Valid() && seen == []
    {
      total, unknown, hostCalls, seen := 0, 0, [], [];
    }

    method Visit(e: Expr)
      requires Valid()
      modifies this
      ensures Valid() && seen == old(seen) + [e]
    {
      InAppend(seen, [e]);
      assert [e][1..] == [];
      total := total + 1;
      if e.UnknownVal? || e.CyclicSlot? {
        unknown := unknown + 1;
      } else if e.RawHostCall? {
        unknown := unknown + 1;
        hostCalls := hostCalls + [e.hostModule + "::" + e.hostFunction];
      }
      seen := seen + [e];
    }

    /** The record of a body whose nodes have all been visited. */
    method Record(name: string) returns (r: FnRecovery)
      requires Valid()
      ensures r.name == name && GradedBy(r, seen)
      ensures r.status == if UnknownIn(seen) == 0 then Clean else Partial
      ensures r.score == 1.0 <==> IsFullyRecovered(r.status)
    {
      var score := Score(total, unknown);
      r := FnRecovery(name, if unknown == 0 then Clean else Partial, score, total, unknown, set c | c in hostCalls);
    }

    method WalkExpr(e: Expr)
      requires Valid()
      modifies this
      ensures Valid() && seen == old(seen) + Nodes(e)
      decreases e, 3
    {
      Visit(e);
      WalkParts(e);
      AppendAssociates(old(seen), [e], NodesFrom(e, 0));
    }

    method WalkParts(e: Expr)
      requires Valid()
      modifies this
      ensures Valid() && seen == old(seen) + NodesFrom(e, 0)
      decreases e, 2
    {
      match e {
        case Unary(_, _) => WalkOne(e, e.arg);
        case StorageGet(_, _, _) => WalkOne(e, e.key);
        case Binary(_, _, _) => WalkTwo(e);
        case Ternary(_, _, _, _) => WalkThree(e);
        case Nary(_, items) => WalkList(e, items, 0);
        case RawHostCall(_, _, args) => WalkList(e, args, 0);
        case MethodCall(_, _, _) => WalkCall(e);
        case PublishEvent(_, _, _) => WalkEvent(e);
        case Invoke(_, _, _, _) => WalkInvoke(e);
        case _ => assert Children(e) == [];
      }
    }

    method WalkOne(e: Expr, child: Expr)
      requires Valid() && Children(e) == [child] && child < e
      modifies this
      ensures Valid() && seen == old(seen) + NodesFrom(e, 0)
      decreases e, 1
    {
      assert NodesFrom(e, 1) == [];
      WalkExpr(child);
    }

    method WalkTwo(e: Expr)
      requires Valid() && e.Binary?
      modifies this
      ensures Valid() && seen == old(seen) + NodesFrom(e, 0)
      decreases e, 1
    {
      NodesOfFew(e);
      WalkExpr(e.lhs);
      WalkExpr(e.rhs);
    }

    method WalkThree(e: Expr)
      requires Valid() && e.Ternary?
      modifies this
      ensures Valid() && seen == old(seen) + NodesFrom(e, 0)
      decreases e, 1
    {
      WalkExpr(e.first);
      WalkExpr(e.second);
      WalkExpr(e.third);
      assert NodesFrom(e, 3) == [] && NodesFrom(e, 2) == Nodes(e.third);
      assert NodesFrom(e, 1) == Nodes(e.second) + Nodes(e.third);
    }

    method WalkCall(e: Expr)
      requires Valid() && e.MethodCall?
      modifies this
      ensures Valid() && seen == old(seen) + NodesFrom(e, 0)
      decreases e, 1, 1
    {
      assert NodesFrom(e, 0) == Nodes(e.receiver) + NodesFrom(e, 1);
      WalkExpr(e.receiver);
      WalkList(e, e.args, 1);
    }

    method WalkEvent(e: Expr)
      requires Valid() && e.PublishEvent?
      modifies this
      ensures Valid() && seen == old(seen) + NodesFrom(e, 0)
      decreases e, 1, 1
    {
      var n := |e.topics|;
      assert NodesFrom(e, n + 1) == [] && NodesFrom(e, n) == Nodes(e.data);
      WalkTopics(e);
      WalkExpr(e.data);
    }

    method WalkInvoke(e: Expr)
      requires Valid() && e.Invoke?
      modifies this
      ensures Valid() && seen == old(seen) + NodesFrom(e, 0)
      decreases e, 1, 1
    {
      ghost var before := seen;
      WalkExpr(e.address);
      WalkExpr(e.callee);
      WalkList(e, e.args, 2);
      ghost var a, b, rest := Nodes(e.address), Nodes(e.callee), NodesFrom(e, 2);
      assert NodesFrom(e, 1) == b + rest && NodesFrom(e, 0) == a + NodesFrom(e, 1);
      AppendAssociates(before + a, b, rest);
      AppendAssociates(before, a, b + rest);
    }

    /** The arguments of a node, which are its children from the `from`-th on. */
    method WalkList(e: Expr, items: seq<Expr>, from: nat)
      requires Valid() && from <= |Children(e)| && items == Children(e)[from..]
      modifies this
      ensures Valid() && seen == old(seen) + NodesFrom(e, from)
      decreases e, 1, 0
    {
      for i := 0 to |items|
        invariant Valid() && seen + NodesFrom(e, from + i) == old(seen) + NodesFrom(e, from)
      {
        ghost var before := seen;
        WalkExpr(items[i]);
        AppendAssociates(before, Nodes(items[i]), NodesFrom(e, from + i + 1));
        assert Children(e)[from + i] == items[i];
      }
    }

    method WalkTopics(e: Expr)
      requires Valid() && e.PublishEvent?
      modifies this
      ensures Valid() && seen + NodesFrom(e, |e.topics|) == old(seen) + NodesFrom(e, 0)
      decreases e, 1, 0
    {
      for i := 0 to |e.topics|
        invariant Valid() && seen + NodesFrom(e, i) == old(seen) + NodesFrom(e, 0)
      {
        assert NodesFrom(e, i) == Nodes(e.topics[i]) + NodesFrom(e, i + 1);
        WalkExpr(e.topics[i]);
      }
    }

    method WalkStmt(s: Stmt)
      requires Valid()
      modifies this
      ensures Valid() && seen == old(seen) + StmtNodes(s, true)
      decreases s, 1
    {
      match s {
        case ExprStmt(e) => WalkExpr(e);
        case Let(_, _, e) => WalkExpr(e);
        case Assign(_, e) => WalkExpr(e);
        case Return(Some(e)) => WalkExpr(e);
        case If(_, _, _) => WalkIf(s);
        case Match(_, _) => WalkMatch(s);
        case For(_, _, _, _, _) => WalkFor(s);
        case Loop(b) => WalkBody(b);
        case Block(b) => WalkBody(b);
        case _ =>
      }
    }

    method WalkIf(s: Stmt)
      requires Valid() && s.If?
      modifies this
      ensures Valid() && seen == old(seen) + StmtNodes(s, true)
      decreases s, 0
    {
      WalkExpr(s.cond);
      WalkBody(s.thenBody);
      WalkBody(s.elseBody);
    }

    method WalkMatch(s: Stmt)
      requires Valid() && s.Match?
      modifies this
      ensures Valid() && seen == old(seen) + StmtNodes(s, true)
      decreases s, 0
    {
      WalkExpr(s.scrutinee);
      WalkArms(s.arms);
    }

    method WalkFor(s: Stmt)
      requires Valid() && s.For?
      modifies this
      ensures Valid() && seen == old(seen) + StmtNodes(s, true)
      decreases s, 0
    {
      WalkExpr(s.start);
      WalkExpr(s.end);
      WalkBody(s.body);
    }

    method WalkBody(ss: seq<Stmt>)
      requires Valid()
      modifies this
      ensures Valid() && seen == old(seen) + BodyNodes(ss, true)
      decreases ss, 0
    {
      for i := 0 to |ss|
        invariant Valid() && seen + BodyNodes(ss[i..], true) == old(seen) + BodyNodes(ss, true)
      {
        assert ss[i..][1..] == ss[i + 1..];
        WalkStmt(ss[i]);
      }
    }

    method WalkArms(arms: seq<Arm>)
      requires Valid()
      modifies this
      ensures Valid() && seen == old(seen) + ArmNodes(arms, true)
      decreases arms, 0
    {
      for i := 0 to |arms|
        invariant Valid() && seen + ArmNodes(arms[i..], true) == old(seen) + ArmNodes(arms, true)
      {
        ghost var before := seen;
        assert arms[i..][1..] == arms[i + 1..];
        WalkArm(arms[i]);
        AppendAssociates(before, OneArmNodes(arms[i], true), ArmNodes(arms[i + 1..], true));
      }
    }

    method WalkArm(arm: Arm)
      requires Valid()
      modifies this
      ensures Valid() && seen == old(seen) + OneArmNodes(arm, true)
      decreases arm, 1
    {
      if arm.pattern.Literal? { WalkExpr(arm.pattern.pat); }
      WalkBody(arm.body);
    }
  }

  /** The nodes of the literal patterns, which the generic walker leaves out. */
  function PatternNodes(s: Stmt): seq<Expr>
    decreases s, 1
  {
    match s
    case If(_, a, b) => PatternNodesAll(a) + PatternNodesAll(b)
    case Match(_, arms) => PatternNodesArms(arms)
    case For(_, _, _, _, b) => PatternNodesAll(b)
    case Loop(b) => PatternNodesAll(b)
    case Block(b) => PatternNodesAll(b)
    case _ => []
  }

  function PatternNodesAll(ss: seq<Stmt>): seq<Expr>
    decreases ss, 0
  {
    if ss == [] then [] else PatternNodes(ss[0]) + PatternNodesAll(ss[1..])
  }

  function PatternNodesArms(arms: seq<Arm>): seq<Expr>
    decreases arms, 0
  {
    if arms == [] then []
    else
      (if arms[0].pattern.Literal? then Nodes(arms[0].pattern.pat) else []) +
      PatternNodesAll(arms[0].body) + PatternNodesArms(arms[1..])
  }

  /** Grading sees the nodes of the generic walker and those of literal patterns, each once. */
  lemma {:induction false} GradedNodes(ss: seq<Stmt>)
    ensures multiset(BodyNodes(ss, true)) == multiset(BodyNodes(ss, false)) + multiset(PatternNodesAll(ss))
    decreases ss, 0
  {
    if ss != [] {
      GradedNodesOf(ss[0]);
      GradedNodes(ss[1..]);
    }
  }

  lemma {:induction false} GradedNodesOf(s: Stmt)
    ensures multiset(StmtNodes(s, true)) == multiset(StmtNodes(s, false)) + multiset(PatternNodes(s))
    decreases s, 1
  {
    match s
    case If(c, a, b) => GradedNodesIf(s);
    case Match(_, _) => GradedNodesMatch(s);
    case For(_, _, _, _, b) => GradedNodesFor(s);
    case Loop(b) => GradedNodes(b);
    case Block(b) => GradedNodes(b);
    case _ =>
  }

  lemma {:induction false} GradedNodesIf(s: Stmt)
    requires s.If?
    ensures multiset(StmtNodes(s, true)) == multiset(StmtNodes(s, false)) + multiset(PatternNodes(s))
    decreases s, 0
  {
    GradedNodes(s.thenBody);
    GradedNodes(s.elseBody);
  }

  lemma {:induction false} GradedNodesMatch(s: Stmt)
    requires s.Match?
    ensures multiset(StmtNodes(s, true)) == multiset(StmtNodes(s, false)) + multiset(PatternNodes(s))
    decreases s, 0
  {
    GradedNodesArms(s.arms);
  }

  lemma {:induction false} GradedNodesFor(s: Stmt)
    requires s.For?
    ensures multiset(StmtNodes(s, true)) == multiset(StmtNodes(s, false)) + multiset(PatternNodes(s))
    decreases s, 0
  {
    GradedNodes(s.body);
  }

  lemma {:induction false} GradedNodesArms(arms: seq<Arm>)
    ensures multiset(ArmNodes(arms, true)) == multiset(ArmNodes(arms, false)) + multiset(PatternNodesArms(arms))
    decreases arms, 0
  {
    if arms != [] {
      GradedNodes(arms[0].body);
      GradedNodesArms(arms[1..]);
    }
  }

  // ---------------------------------------------------------------------
  // Verdicts
  // ---------------------------------------------------------------------

  datatype FnStatus = Clean | Partial | LogicLost | Trivial | Missing

  predicate IsFullyRecovered(s: FnStatus) { s == Clean || s == Trivial }

  predicate IsLost(s: FnStatus) { s == LogicLost || s == Missing }

  datatype FnRecovery = FnRecovery(
    name: string, status: FnStatus, score: real, totalNodes: nat, unknownNodes: nat, missingHostCalls: set<string>)

  /** An empty body of such a function has no value to return. */
  predicate ReturnsAValue(f: ContractFn) {
    match f.wasmResults
    case Some(n) => n != 0
    case None => f.returnType.Some? && f.returnType.value != TVoid
  }

  /** The record of a lifted function: lost or trivial without a body, and otherwise clean exactly
      without an unknown node. */
  predicate IsRecordOf(r: FnRecovery, name: string, f: ContractFn) {
    && r.name == name
    && r.status == (if f.body == [] then if f.hadHostCalls || ReturnsAValue(f) then LogicLost else Trivial
                    else if UnknownIn(BodyNodes(f.body, true)) == 0 then Clean else Partial)
    && GradedBy(r, BodyNodes(f.body, true))
    && (r.score == 1.0 <==> IsFullyRecovered(r.status))
    && (r.status == LogicLost ==> r.score == 0.0)
  }

  method ScoreFn(name: string, f: ContractFn) returns (r: FnRecovery)
    ensures IsRecordOf(r, name, f)
  {
    if f.body == [] {
      var lost := f.hadHostCalls || ReturnsAValue(f);
      return FnRecovery(name, if lost then LogicLost else Trivial, if lost then 0.0 else 1.0, 0, 0, {});
    }
    var s := new NodeStats();
    s.WalkBody(f.body);
    r := s.Record(name);
    assert s.seen == BodyNodes(f.body, true);
  }

  /** The numbers of a record are those of the nodes of the body, and its score is the share
      of nodes that were recovered. */
  predicate GradedBy(r: FnRecovery, nodes: seq<Expr>) {
    && r.totalNodes == |nodes|
    && r.unknownNodes == UnknownIn(nodes) <= r.totalNodes
    && r.missingHostCalls == (set c | c in CallsIn(nodes))
    && 0.0 <= r.score <= 1.0
    && IsShare(r.score, |nodes| - UnknownIn(nodes), |nodes|)
  }

  /** `share` is `part` of `all`. */
  predicate IsShare(share: real, part: int, all: int) { all != 0 ==> share * (all as real) == part as real }

  /** Control flow without any expression counts as recovered. */
  method Score(total: nat, unknown: nat) returns (r: real)
    requires unknown <= total
    ensures 0.0 <= r <= 1.0 && (r == 1.0 <==> unknown == 0)
    ensures IsShare(r, total - unknown, total)
  {
    r := 1.0;
    if total != 0 { r := (total - unknown) as real / total as real; }
  }

  /** The record of a public function that the module has lifted or not; the last of several
      lifted functions with one name counts. */
  function Lifted(functions: seq<ContractFn>, name: string): Option<ContractFn> {
    if functions == [] then None
    else if functions[|functions| - 1].name == name then Some(functions[|functions| - 1])
    else Lifted(functions[..|functions| - 1], name)
  }

  /** What a report says of a public function: the record of the function lifted for it, or that it
      is missing. */
  predicate Reports(r: FnRecovery, functions: seq<ContractFn>, name: string) {
    var f := Lifted(functions, name);
    if f.Some? then IsRecordOf(r, name, f.value) else r == FnRecovery(name, Missing, 0.0, 0, 0, {})
  }

  /** One record per public function, in the order of the spec, or of the module when it has
      no spec. */
  method Report(functions: seq<ContractFn>, specNames: seq<string>) returns (rs: seq<FnRecovery>)
    ensures var names := if specNames != [] then specNames else seq(|functions|, i requires 0 <= i < |functions| => functions[i].name);
            |rs| == |names| && forall i | 0 <= i < |names| :: Reports(rs[i], functions, names[i])
  {
    var names := if specNames != [] then specNames else seq(|functions|, i requires 0 <= i < |functions| => functions[i].name);
    rs := [];
    for i := 0 to |names|
      invariant |rs| == i
      invariant forall k | 0 <= k < i :: Reports(rs[k], functions, names[k])
    {
      var f := Lifted(functions, names[i]);
      var r := FnRecovery(names[i], Missing, 0.0, 0, 0, {});
      if f.Some? { r := ScoreFn(names[i], f.value); }
      rs := rs + [r];
    }
  }

  predicate IsLastNamed(functions: seq<ContractFn>, i: int, name: string) {
    0 <= i < |functions| && functions[i].name == name && forall k :: i < k < |functions| ==> functions[k].name != name
  }

  /** The function lifted for a name is the last one that has it. */
  lemma {:induction false} LiftedIsLast(functions: seq<ContractFn>, name: string)
    ensures Lifted(functions, name).None? <==> forall i :: 0 <= i < |functions| ==> functions[i].name != name
    ensures forall i :: IsLastNamed(functions, i, name) ==> Lifted(functions, name) == Some(functions[i])
    decreases |functions|
  {
    if functions != [] && functions[|functions| - 1].name != name {
      var rest := functions[..|functions| - 1];
      LiftedIsLast(rest, name);
      assert forall i :: 0 <= i < |rest| ==> rest[i] == functions[i];
      forall i | IsLastNamed(functions, i, name) ensures IsLastNamed(rest, i, name) {}
    }
  }

  function CountStatus(rs: seq<FnRecovery>, p: FnStatus -> bool): nat {
    if rs == [] then 0 else (if p(rs[0].status) then 1 else 0) + CountStatus(rs[1..], p)
  }

  /** The three counts of a report partition the public interface. */
  lemma {:induction false} CountsPartition(rs: seq<FnRecovery>)
    ensures CountStatus(rs, IsFullyRecovered) + CountStatus(rs, s => s == Partial) + CountStatus(rs, IsLost) == |rs|
  {
    if rs != [] { CountsPartition(rs[1..]); }
  }

  // ---------------------------------------------------------------------
  // Holing pure host reads
  // ---------------------------------------------------------------------

  predicate IsPureRead(hostModule: string, hostFunction: string) {
    || (hostModule == "Map" && (hostFunction == "map_key_by_pos" || hostFunction == "map_val_by_pos"))
    || (hostModule == "Buf" && (hostFunction == "bytes_front" || hostFunction == "bytes_copy_from_linear_memory"))
  }

  function HoledKids(e: Expr): (r: seq<Expr>)
    ensures |r| == |Children(e)|
    ensures forall i :: 0 <= i < |r| ==> r[i] == HoleExpr(Children(e)[i])
    decreases e, 0
  {
    seq(|Children(e)|, i requires 0 <= i < |Children(e)| => HoleExpr(Children(e)[i]))
  }

  function HoleExpr(e: Expr): Expr
    decreases e, 1
  {
    var g := Rebuild(e, HoledKids(e));
    if g.RawHostCall? && IsPureRead(g.hostModule, g.hostFunction) then UnknownVal else g
  }

  function HoleStmt(s: Stmt): Stmt
    decreases s, 1
  {
    match s
    case ExprStmt(e) => ExprStmt(HoleExpr(e))
    case Let(x, m, e) => Let(x, m, HoleExpr(e))
    case Assign(x, e) => Assign(x, HoleExpr(e))
    case Return(Some(e)) => Return(Some(HoleExpr(e)))
    case If(c, a, b) => If(HoleExpr(c), HoleAll(a), HoleAll(b))
    case Match(e, arms) => Match(HoleExpr(e), HoleArms(arms))
    case For(x, lo, hi, step, b) => For(x, HoleExpr(lo), HoleExpr(hi), step, HoleAll(b))
    case Loop(b) => Loop(HoleAll(b))
    case Block(b) => Block(HoleAll(b))
    case _ => s
  }

  function HoleAll(ss: seq<Stmt>): (r: seq<Stmt>)
    ensures |r| == |ss|
    decreases ss, 0
  {
    if ss == [] then [] else [HoleStmt(ss[0])] + HoleAll(ss[1..])
  }

  function HoleArms(arms: seq<Arm>): (r: seq<Arm>)
    ensures |r| == |arms|
    decreases arms, 0
  {
    if arms == [] then [] else [Arm(arms[0].pattern, HoleAll(arms[0].body))] + HoleArms(arms[1..])
  }

  lemma {:induction false} HoleAllAt(ss: seq<Stmt>, i: nat)
    requires i < |ss|
    ensures HoleAll(ss)[i] == HoleStmt(ss[i])
  {
    if i > 0 { HoleAllAt(ss[1..], i - 1); }
  }

  /** The pass: rewrites the statement list in place. */
  method HolePureRawHostReads(stmts: array<Stmt>)
    modifies stmts
    ensures stmts[..] == HoleAll(old(stmts[..]))
  {
    ghost var was := stmts[..];
    for i := 0 to stmts.Length
      invariant forall k :: i <= k < stmts.Length ==> stmts[k] == was[k]
      invariant forall k :: 0 <= k < i ==> stmts[k] == HoleStmt(was[k])
    {
      stmts[i] := HoleStmt(stmts[i]);
    }
    forall i | 0 <= i < |was| ensures stmts[..][i] == HoleAll(was)[i] { HoleAllAt(was, i); }
  }

  /** What may happen to the graded nodes: there are no more of them, no more unknown ones,
      but still some if there were any, and no new missing host call. */
  predicate Shrunk(was: seq<Expr>, now: seq<Expr>) {
    && |now| <= |was|
    && UnknownIn(now) <= UnknownIn(was)
    && (UnknownIn(now) == 0 ==> UnknownIn(was) == 0)
    && (forall c :: c in CallsIn(now) ==> c in CallsIn(was))
  }

  lemma ShrunkAppend(a: seq<Expr>, a': seq<Expr>, b: seq<Expr>, b': seq<Expr>)
    requires Shrunk(a, a') && Shrunk(b, b')
    ensures Shrunk(a + b, a' + b')
  {
    InAppend(a, b);
    InAppend(a', b');
  }

  lemma {:induction false} HoleShrinks(e: Expr)
    ensures Shrunk(Nodes(e), Nodes(HoleExpr(e)))
    decreases e, 1
  {
    var kids, g := HoledKids(e), Rebuild(e, HoledKids(e));
    RebuiltNode(e, kids);
    forall i | 0 <= i < |kids| ensures Shrunk(Nodes(Children(e)[i]), Nodes(kids[i])) { HoleShrinks(Children(e)[i]); }
    if HoleExpr(e) == g { NodeShrinks(e, g); } else { HoleIsSmall(e); }
  }

  lemma NodeShrinks(e: Expr, g: Expr)
    requires SameHead(e, g) && |Children(e)| == |Children(g)|
    requires forall k | 0 <= k < |Children(e)| :: Shrunk(Nodes(Children(e)[k]), Nodes(Children(g)[k]))
    ensures Shrunk(Nodes(e), Nodes(g))
  {
    KidsShrink(e, g, 0);
    assert [e][1..] == [] && [g][1..] == [];
    ShrunkAppend([e], [g], NodesFrom(e, 0), NodesFrom(g, 0));
  }

  /** A raw host call gives way to a single unknown node. */
  lemma HoleIsSmall(e: Expr)
    requires e.RawHostCall?
    ensures Shrunk(Nodes(e), Nodes(UnknownVal))
  {
    assert Nodes(UnknownVal) == [UnknownVal] && [UnknownVal][1..] == [];
  }

  lemma {:induction false} KidsShrink(e: Expr, g: Expr, i: nat)
    requires |Children(e)| == |Children(g)| && i <= |Children(e)|
    requires forall k | 0 <= k < |Children(e)| :: Shrunk(Nodes(Children(e)[k]), Nodes(Children(g)[k]))
    ensures Shrunk(NodesFrom(e, i), NodesFrom(g, i))
    decreases |Children(e)| - i
  {
    if i < |Children(e)| {
      KidsShrink(e, g, i + 1);
      ShrunkAppend(Nodes(Children(e)[i]), Nodes(Children(g)[i]), NodesFrom(e, i + 1), NodesFrom(g, i + 1));
    }
  }

  lemma {:induction false} HoleStmtShrinks(s: Stmt)
    ensures Shrunk(StmtNodes(s, true), StmtNodes(HoleStmt(s), true))
    decreases s, 1
  {
    match s
    case ExprStmt(e) => HoleShrinks(e);
    case Let(_, _, e) => HoleShrinks(e);
    case Assign(_, e) => HoleShrinks(e);
    case Return(Some(e)) => HoleShrinks(e);
    case If(c, a, b) =>
      HoleShrinks(c); HoleAllShrinks(a); HoleAllShrinks(b);
      ShrunkThree(Nodes(c), Nodes(HoleExpr(c)), BodyNodes(a, true), BodyNodes(HoleAll(a), true), BodyNodes(b, true), BodyNodes(HoleAll(b), true));
    case Match(e, arms) =>
      HoleShrinks(e); HoleArmsShrink(arms);
      ShrunkAppend(Nodes(e), Nodes(HoleExpr(e)), ArmNodes(arms, true), ArmNodes(HoleArms(arms), true));
    case For(_, lo, hi, _, b) =>
      HoleShrinks(lo); HoleShrinks(hi); HoleAllShrinks(b);
      ShrunkThree(Nodes(lo), Nodes(HoleExpr(lo)), Nodes(hi), Nodes(HoleExpr(hi)), BodyNodes(b, true), BodyNodes(HoleAll(b), true));
    case Loop(b) => HoleAllShrinks(b);
    case Block(b) => HoleAllShrinks(b);
    case _ =>
  }

  lemma ShrunkThree(a: seq<Expr>, a': seq<Expr>, b: seq<Expr>, b': seq<Expr>, c: seq<Expr>, c': seq<Expr>)
    requires Shrunk(a, a') && Shrunk(b, b') && Shrunk(c, c')
    ensures Shrunk(a + b + c, a' + b' + c')
  {
    ShrunkAppend(a, a', b, b');
    ShrunkAppend(a + b, a' + b', c, c');
  }

  lemma {:induction false} HoleAllShrinks(ss: seq<Stmt>)
    ensures Shrunk(BodyNodes(ss, true), BodyNodes(HoleAll(ss), true))
    decreases ss, 0
  {
    if ss != [] {
      HoleStmtShrinks(ss[0]);
      HoleAllShrinks(ss[1..]);
      ShrunkAppend(StmtNodes(ss[0], true), StmtNodes(HoleStmt(ss[0]), true), BodyNodes(ss[1..], true), BodyNodes(HoleAll(ss[1..]), true));
    }
  }

  lemma {:induction false} HoleArmsShrink(arms: seq<Arm>)
    ensures Shrunk(ArmNodes(arms, true), ArmNodes(HoleArms(arms), true))
    decreases arms, 0
  {
    if arms != [] {
      var literal := if arms[0].pattern.Literal? then Nodes(arms[0].pattern.pat) else [];
      HoleAllShrinks(arms[0].body);
      HoleArmsShrink(arms[1..]);
      ShrunkThree(literal, literal, BodyNodes(arms[0].body, true), BodyNodes(HoleAll(arms[0].body), true),
                  ArmNodes(arms[1..], true), ArmNodes(HoleArms(arms[1..]), true));
    }
  }

  /** Holing keeps every function's verdict, never raises its count of unknown nodes and
      only shrinks its set of missing host calls. */
  method HolingKeepsVerdict(name: string, f: ContractFn) returns (before: FnRecovery, after: FnRecovery)
    ensures after.status == before.status
    ensures after.unknownNodes <= before.unknownNodes
    ensures after.missingHostCalls <= before.missingHostCalls
  {
    HoleAllShrinks(f.body);
    before := ScoreFn(name, f);
    after := ScoreFn(name, f.(body := HoleAll(f.body)));
  }
}
