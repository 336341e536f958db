/** Holing and grading, said by the positions of a body: which calls become holes, and which nodes
    are counted. */
module Holes {
  import opened Ir
  import opened Spec
  import opened Positions
  import opened Recovery

  // ---------------------------------------------------------------------
  // Holing
  // ---------------------------------------------------------------------

  /** A call of one of the four host functions that read without an effect. */
  predicate IsHostRead(e: Expr) {
    && e.RawHostCall?
    && (|| (e.hostModule == "Map" && e.hostFunction == "map_key_by_pos")
        || (e.hostModule == "Map" && e.hostFunction == "map_val_by_pos")
        || (e.hostModule == "Buf" && e.hostFunction == "bytes_front")
        || (e.hostModule == "Buf" && e.hostFunction == "bytes_copy_from_linear_memory"))
  }

  /** `f` is `e` with a hole for every such call, and nothing else. */
  predicate Holed(e: Expr, f: Expr)
    decreases e
  {
    if IsHostRead(e) then f == UnknownVal
    else
      && SameHead(e, f) && |Children(f)| == |Children(e)|
      && forall i :: 0 <= i < |Children(e)| ==> Holed(Children(e)[i], Children(f)[i])
  }

  lemma {:induction false} HoledIsUnique(e: Expr, f: Expr, g: Expr)
    requires Holed(e, f) && Holed(e, g)
    ensures f == g
    decreases e
  {
    if !IsHostRead(e) {
      forall i | 0 <= i < |Children(e)| ensures Children(f)[i] == Children(g)[i] {
        HoledIsUnique(Children(e)[i], Children(f)[i], Children(g)[i]);
      }
      assert Children(f) == Children(g);
      SameNode(e, f, g);
    }
  }

  /** No such call stands in the expression, at any depth. */
  predicate HasNoHostRead(e: Expr) {
    !IsHostRead(e) && forall i :: 0 <= i < |Children(e)| ==> HasNoHostRead(Children(e)[i])
  }

  lemma {:induction false} HoleIs(e: Expr)
    ensures Holed(e, HoleExpr(e)) && HasNoHostRead(HoleExpr(e))
  {
    var kids := HoledKids(e);
    RebuiltNode(e, kids);
    forall i | 0 <= i < |kids| ensures Holed(Children(e)[i], kids[i]) && HasNoHostRead(kids[i]) { HoleIs(Children(e)[i]); }
    HoledNode(e, Rebuild(e, kids), kids);
  }

  lemma HoledNode(e: Expr, g: Expr, kids: seq<Expr>)
    requires SameHead(e, g) && Children(g) == kids && |kids| == |Children(e)|
    requires forall i :: 0 <= i < |kids| ==> Holed(Children(e)[i], kids[i]) && HasNoHostRead(kids[i])
    ensures IsHostRead(e) <==> g.RawHostCall? && IsPureRead(g.hostModule, g.hostFunction)
    ensures !IsHostRead(e) ==> Holed(e, g) && HasNoHostRead(g)
  {
  }

  ghost predicate HolesSites(f: Edit) {
    forall site: Site {:trigger f(site)} :: f(site) == if site.role == LiteralPattern then site.e else HoleExpr(site.e)
  }

  lemma {:induction false} HoleIsEditStmt(s: Stmt, f: Edit, inFor: bool)
    requires HolesSites(f)
    ensures HoleStmt(s) == EditStmt(s, f, inFor)
    decreases s, 1
  {
    match s
    case If(_, a, b) => HoleIsEdit(a, f, inFor); HoleIsEdit(b, f, inFor);
    case Match(_, arms) => HoleIsEditArms(arms, f, inFor);
    case Loop(b) => HoleIsEdit(b, f, inFor);
    case For(_, _, _, _, b) => HoleIsEdit(b, f, true);
    case Block(b) => HoleIsEdit(b, f, inFor);
    case _ => HoleIsEditLeaf(s, f, inFor);
  }

  lemma HoleIsEditLeaf(s: Stmt, f: Edit, inFor: bool)
    requires HolesSites(f) && !s.If? && !s.Match? && !s.Loop? && !s.For? && !s.Block?
    ensures HoleStmt(s) == EditStmt(s, f, inFor)
  {
    if s.ExprStmt? {
      assert f(Site(s.e, Plain, inFor)) == HoleExpr(s.e);
    } else if s.Let? {
      HoleIsEditLet(s, f, inFor);
    } else if s.Assign? {
      HoleIsEditAssign(s, f, inFor);
    } else if s.Return? && s.result.Some? {
      HoleIsEditReturn(s, f, inFor);
    }
  }

  lemma HoleIsEditLet(s: Stmt, f: Edit, inFor: bool)
    requires HolesSites(f) && s.Let?
    ensures HoleStmt(s) == EditStmt(s, f, inFor)
  {
  }

  lemma HoleIsEditAssign(s: Stmt, f: Edit, inFor: bool)
    requires HolesSites(f) && s.Assign?
    ensures HoleStmt(s) == EditStmt(s, f, inFor)
  {
  }

  lemma HoleIsEditReturn(s: Stmt, f: Edit, inFor: bool)
    requires HolesSites(f) && s.Return? && s.result.Some?
    ensures HoleStmt(s) == EditStmt(s, f, inFor)
  {
  }

  lemma {:induction false} HoleIsEdit(ss: seq<Stmt>, f: Edit, inFor: bool)
    requires HolesSites(f)
    ensures HoleAll(ss) == EditAll(ss, f, inFor)
    decreases ss, 0
  {
    if ss != [] {
      HoleIsEditStmt(ss[0], f, inFor);
      HoleIsEdit(ss[1..], f, inFor);
    }
  }

  lemma {:induction false} HoleIsEditArms(arms: seq<Arm>, f: Edit, inFor: bool)
    requires HolesSites(f)
    ensures HoleArms(arms) == EditArms(arms, f, inFor)
    decreases arms, 0
  {
    if arms != [] {
      HoleIsEdit(arms[0].body, f, inFor);
      HoleIsEditArms(arms[1..], f, inFor);
    }
  }

  predicate SiteHoled(site: Site, after: Site) {
    && after.role == site.role && after.inFor == site.inFor
    && if site.role == LiteralPattern then after.e == site.e else Holed(site.e, after.e) && HasNoHostRead(after.e)
  }

  /** The holed body is the one whose expressions, literal patterns aside, have a hole for every call
      of the four, and that is otherwise the same. */
  lemma HolesExactly(ss: seq<Stmt>)
    ensures var out := HoleAll(ss);
            && Blank(out) == Blank(ss) && |AllSites(out)| == |AllSites(ss)|
            && forall i :: 0 <= i < |AllSites(ss)| ==> SiteHoled(AllSites(ss)[i], AllSites(out)[i])
  {
    var f: Edit := (site: Site) => if site.role == LiteralPattern then site.e else HoleExpr(site.e);
    HoleIsEdit(ss, f, false);
    EditedAll(ss, f, false);
    forall i | 0 <= i < |AllSites(ss)| ensures SiteHoled(AllSites(ss)[i], AllSites(HoleAll(ss))[i]) {
      HoleIs(AllSites(ss)[i].e);
    }
  }

  // ---------------------------------------------------------------------
  // Grading
  // ---------------------------------------------------------------------

  /** The nodes of the expressions of a body, in order; with or without those of literal patterns. */
  function NodesOf(sites: seq<Site>, patterns: bool): seq<Expr> {
    if sites == [] then []
    else (if sites[0].role == LiteralPattern && !patterns then [] else Nodes(sites[0].e)) + NodesOf(sites[1..], patterns)
  }

  lemma {:induction false} NodesOfAppend(a: seq<Site>, b: seq<Site>, patterns: bool)
    ensures NodesOf(a + b, patterns) == NodesOf(a, patterns) + NodesOf(b, patterns)
  {
    if a == [] {
      assert a + b == b;
    } else {
      assert (a + b)[1..] == a[1..] + b;
      NodesOfAppend(a[1..], b, patterns);
      var first := if a[0].role == LiteralPattern && !patterns then [] else Nodes(a[0].e);
      NodesOfFirst(a, first, patterns);
      NodesOfFirst(a + b, first, patterns);
      AppendAssociates(first, NodesOf(a[1..], patterns), NodesOf(b, patterns));
    }
  }

  lemma NodesOfFirst(sites: seq<Site>, first: seq<Expr>, patterns: bool)
    requires sites != [] && first == if sites[0].role == LiteralPattern && !patterns then [] else Nodes(sites[0].e)
    ensures NodesOf(sites, patterns) == first + NodesOf(sites[1..], patterns)
  {
  }

  lemma NodesOfOne(site: Site, patterns: bool)
    ensures NodesOf([site], patterns) == if site.role == LiteralPattern && !patterns then [] else Nodes(site.e)
  {
  }

  lemma {:induction false} StmtNodesAre(s: Stmt, inFor: bool, patterns: bool)
    ensures StmtNodes(s, patterns) == NodesOf(StmtSites(s, inFor), patterns)
    decreases s, 1
  {
    match s
    case ExprStmt(e) => NodesOfOne(Site(e, Plain, inFor), patterns);
    case Let(x, _, e) => NodesOfOne(Site(e, LetValue(x), inFor), patterns);
    case Assign(x, e) => NodesOfOne(Site(e, AssignValue(x), inFor), patterns);
    case Return(Some(e)) => NodesOfOne(Site(e, Plain, inFor), patterns);
    case If(c, a, b) =>
      GradedExactly(a, inFor, patterns);
      GradedExactly(b, inFor, patterns);
      NodesOfOne(Site(c, Plain, inFor), patterns);
      NodesOfAppend([Site(c, Plain, inFor)], Sites(a, inFor), patterns);
      NodesOfAppend([Site(c, Plain, inFor)] + Sites(a, inFor), Sites(b, inFor), patterns);
    case Match(e, arms) =>
      ArmNodesAre(arms, inFor, patterns);
      NodesOfOne(Site(e, Plain, inFor), patterns);
      NodesOfAppend([Site(e, Plain, inFor)], ArmSites(arms, inFor), patterns);
    case Loop(b) => GradedExactly(b, inFor, patterns);
    case For(_, lo, hi, _, b) => ForNodesAre(lo, hi, b, inFor, patterns);
    case Block(b) => GradedExactly(b, inFor, patterns);
    case _ =>
  }

  lemma {:induction false} ForNodesAre(lo: Expr, hi: Expr, b: seq<Stmt>, inFor: bool, patterns: bool)
    ensures NodesOf([Site(lo, LoopBound, inFor), Site(hi, LoopBound, inFor)] + Sites(b, true), patterns)
            == Nodes(lo) + Nodes(hi) + BodyNodes(b, patterns)
    decreases b, 2
  {
    var l, h := Site(lo, LoopBound, inFor), Site(hi, LoopBound, inFor);
    GradedExactly(b, true, patterns);
    NodesOfAppend([l, h], Sites(b, true), patterns);
    NodesOfAppend([l], [h], patterns);
    assert [l] + [h] == [l, h];
    NodesOfOne(l, patterns);
    NodesOfOne(h, patterns);
  }

  /** The graded nodes are the nodes of the expressions of the body, in their order. */
  lemma {:induction false} GradedExactly(ss: seq<Stmt>, inFor: bool, patterns: bool)
    ensures BodyNodes(ss, patterns) == NodesOf(Sites(ss, inFor), patterns)
    decreases ss, 0
  {
    if ss != [] {
      StmtNodesAre(ss[0], inFor, patterns);
      GradedExactly(ss[1..], inFor, patterns);
      NodesOfAppend(StmtSites(ss[0], inFor), Sites(ss[1..], inFor), patterns);
    }
  }

  lemma {:induction false} ArmNodesAre(arms: seq<Arm>, inFor: bool, patterns: bool)
    ensures ArmNodes(arms, patterns) == NodesOf(ArmSites(arms, inFor), patterns)
    decreases arms, 0
  {
    if arms != [] {
      var p, b := PatternSites(arms[0].pattern, inFor), Sites(arms[0].body, inFor);
      GradedExactly(arms[0].body, inFor, patterns);
      ArmNodesAre(arms[1..], inFor, patterns);
      NodesOfAppend(p, b, patterns);
      NodesOfAppend(p + b, ArmSites(arms[1..], inFor), patterns);
      if arms[0].pattern.Literal? { NodesOfOne(Site(arms[0].pattern.pat, LiteralPattern, inFor), patterns); }
    }
  }

  /** Holes, slots that stand for themselves and host calls. */
  predicate IsUnknownNode(e: Expr) { e == UnknownVal || e.CyclicSlot? || e.RawHostCall? }

  /** What is counted as unknown, and which calls are reported. */
  lemma {:induction false} UnknownExactly(es: seq<Expr>)
    ensures UnknownIn(es) == |Places(es, e => IsUnknownNode(e))|
    ensures forall c :: c in CallsIn(es) <==>
              exists i :: 0 <= i < |es| && es[i].RawHostCall? && c == es[i].hostModule + "::" + es[i].hostFunction
  {
    if es != [] {
      UnknownExactly(es[1..]);
      LaterPlaces(es, e => IsUnknownNode(e));
      assert forall i :: 0 < i < |es| ==> es[i] == es[1..][i - 1];
      forall c | c in CallsIn(es)
        ensures exists i :: 0 <= i < |es| && es[i].RawHostCall? && c == es[i].hostModule + "::" + es[i].hostFunction
      {
        if c in CallsIn(es[1..]) {
          var i :| 0 <= i < |es| - 1 && es[1..][i].RawHostCall? && c == es[1..][i].hostModule + "::" + es[1..][i].hostFunction;
          assert es[i + 1].RawHostCall?;
        }
      }
    }
  }

  /** An empty body is lost if host calls went missing or there is a value to return: a wasm result
      where the raw signature counts, and otherwise any type but the unit. */
  predicate LostSomething(f: ContractFn) {
    || f.hadHostCalls
    || (f.wasmResults.Some? && f.wasmResults.value > 0)
    || (f.wasmResults.None? && f.returnType.Some? && f.returnType.value != TVoid)
  }

  /** The numbers of a record, by the nodes of the body's expressions, literal patterns included. */
  lemma CountsExactly(r: FnRecovery, name: string, f: ContractFn, nodes: seq<Expr>)
    requires IsRecordOf(r, name, f) && nodes == NodesOf(AllSites(f.body), true)
    ensures r.name == name && r.totalNodes == |nodes| && r.unknownNodes == |Places(nodes, e => IsUnknownNode(e))|
    ensures forall c :: c in r.missingHostCalls <==>
              exists i :: 0 <= i < |nodes| && nodes[i].RawHostCall? && c == nodes[i].hostModule + "::" + nodes[i].hostFunction
  {
    GradedExactly(f.body, false, true);
    UnknownExactly(nodes);
  }

  /** The status and the score of a record: clean exactly without an unknown node, partial with one,
      and without any body lost or trivial; the score is the share of the known nodes. */
  lemma VerdictExactly(r: FnRecovery, name: string, f: ContractFn)
    requires IsRecordOf(r, name, f)
    ensures r.status == LogicLost <==> f.body == [] && LostSomething(f)
    ensures r.status == Trivial <==> f.body == [] && !LostSomething(f)
    ensures r.status == Clean <==> f.body != [] && r.unknownNodes == 0
    ensures r.status == Partial <==> f.body != [] && r.unknownNodes > 0
    ensures r.totalNodes > 0 ==> r.score * (r.totalNodes as real) == (r.totalNodes - r.unknownNodes) as real
    ensures r.totalNodes == 0 ==> r.score == if r.status == LogicLost then 0.0 else 1.0
  {
    if f.body == [] { NothingUnknown(BodyNodes(f.body, true)); }
  }

  lemma NothingUnknown(nodes: seq<Expr>)
    requires nodes == []
    ensures UnknownIn(nodes) == 0
  {
  }

  /** The places of the nodes that pass the test. */
  function Places(es: seq<Expr>, test: Expr -> bool): set<nat> { set i: nat | i < |es| && test(es[i]) }

  lemma LaterPlaces(es: seq<Expr>, test: Expr -> bool)
    requires es != []
    ensures |Places(es, test)| == (if test(es[0]) then 1 else 0) + |Places(es[1..], test)|
  {
    var was := Places(es[1..], test);
    var later := set i | i in was :: i + 1;
    Shifted(was, later);
    FirstPlace(es, test, was, later);
    if test(es[0]) { assert |{0} + later| == 1 + |later|; } else { assert {} + later == later; }
  }

  lemma FirstPlace(es: seq<Expr>, test: Expr -> bool, was: set<nat>, later: set<nat>)
    requires es != [] && was == Places(es[1..], test) && later == set i | i in was :: i + 1
    ensures Places(es, test) == (if test(es[0]) then {0} else {}) + later && 0 !in later
  {
    forall i: nat | 0 < i < |es| && test(es[i]) ensures i in later { assert es[1..][i - 1] == es[i] && i - 1 in was; }
    forall i | i in later ensures i in Places(es, test) { assert es[1..][i - 1] == es[i]; }
  }

  lemma {:induction false} Shifted(a: set<nat>, b: set<nat>)
    requires b == set i | i in a :: i + 1
    ensures |b| == |a|
  {
    if a != {} {
      var i :| i in a;
      var rest := set j | j in a - {i} :: j + 1;
      forall j | j in b - {i + 1} ensures j in rest { assert j - 1 in a - {i}; }
      forall j | j in rest ensures j in b - {i + 1} {}
      assert b - {i + 1} == rest;
      Shifted(a - {i}, b - {i + 1});
    }
  }
}
