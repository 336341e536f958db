/** Which reads count for a layout of the parameters, said by the positions of a body. */
module BaseReads {
  import opened Ir
  import opened Positions
  import opened Recovery
  import opened BaseInference
  import opened Holes

  /** The nodes of the searched expressions, in order. */
  function SearchedNodes(sites: seq<Site>): seq<Expr> {
    if sites == [] then [] else (if IsSearched(sites[0]) then Nodes(sites[0].e) else []) + SearchedNodes(sites[1..])
  }

  lemma {:induction false} SearchedAppend(a: seq<Site>, b: seq<Site>)
    ensures SearchedNodes(a + b) == SearchedNodes(a) + SearchedNodes(b)
  {
    if a == [] {
      assert a + b == b;
    } else {
      assert (a + b)[1..] == a[1..] + b;
      SearchedAppend(a[1..], b);
    }
  }

  lemma SearchedOne(site: Site)
    ensures SearchedNodes([site]) == if IsSearched(site) then Nodes(site.e) else []
  {
  }

  lemma {:induction false} NothingInFor(sites: seq<Site>)
    requires AllInFor(sites)
    ensures SearchedNodes(sites) == []
  {
    if sites != [] {
      assert sites[0].inFor;
      assert forall i :: 0 <= i < |sites| - 1 ==> sites[1..][i] == sites[i + 1];
      NothingInFor(sites[1..]);
    }
  }

  lemma {:induction false} ScoredStmtIs(s: Stmt)
    ensures ScoredNodes(s) == SearchedNodes(StmtSites(s, false))
    decreases s, 1
  {
    match s
    case ExprStmt(e) => SearchedOne(Site(e, Plain, false));
    case Let(x, _, e) => SearchedOne(Site(e, LetValue(x), false));
    case Assign(x, e) => SearchedOne(Site(e, AssignValue(x), false));
    case Return(Some(e)) => SearchedOne(Site(e, Plain, false));
    case If(c, a, b) =>
      ScoredExactly(a);
      ScoredExactly(b);
      SearchedOne(Site(c, Plain, false));
      SearchedAppend([Site(c, Plain, false)], Sites(a, false));
      SearchedAppend([Site(c, Plain, false)] + Sites(a, false), Sites(b, false));
    case Match(e, arms) =>
      ScoredArmsAre(arms);
      SearchedOne(Site(e, Plain, false));
      SearchedAppend([Site(e, Plain, false)], ArmSites(arms, false));
    case Loop(b) => ScoredExactly(b);
    case For(_, lo, hi, _, b) => ForIsNotScored(lo, hi, b);
    case Block(b) => ScoredExactly(b);
    case _ =>
  }

  lemma ForIsNotScored(lo: Expr, hi: Expr, b: seq<Stmt>)
    ensures SearchedNodes([Site(lo, LoopBound, false), Site(hi, LoopBound, false)] + Sites(b, true)) == []
  {
    var l, h := Site(lo, LoopBound, false), Site(hi, LoopBound, false);
    InsideFor(b);
    NothingInFor(Sites(b, true));
    SearchedAppend([l, h], Sites(b, true));
    SearchedAppend([l], [h]);
    assert [l] + [h] == [l, h];
    SearchedOne(l);
    SearchedOne(h);
  }

  /** The nodes that are scored are those of the expressions outside `for` statements and literal
      patterns. */
  lemma {:induction false} ScoredExactly(ss: seq<Stmt>)
    ensures ScoredNodesAll(ss) == SearchedNodes(AllSites(ss))
    decreases ss, 0
  {
    if ss != [] {
      ScoredStmtIs(ss[0]);
      ScoredExactly(ss[1..]);
      SearchedAppend(StmtSites(ss[0], false), Sites(ss[1..], false));
    }
  }

  lemma {:induction false} ScoredArmsAre(arms: seq<Arm>)
    ensures ScoredNodesArms(arms) == SearchedNodes(ArmSites(arms, false))
    decreases arms, 0
  {
    if arms != [] {
      var p, b := PatternSites(arms[0].pattern, false), Sites(arms[0].body, false);
      ScoredExactly(arms[0].body);
      ScoredArmsAre(arms[1..]);
      SearchedAppend(p, b);
      SearchedAppend(p + b, ArmSites(arms[1..], false));
      if arms[0].pattern.Literal? { SearchedOne(Site(arms[0].pattern.pat, LiteralPattern, false)); }
    }
  }

  /** The hits of a layout are the places of the reads of its slots. */
  lemma {:induction false} HitsExactly(es: seq<Expr>, at: Layout)
    ensures Tally(es, at).totalHits == |Places(es, ReadsOf(at))|
  {
    if es != [] {
      HitsExactly(es[1..], at);
      LaterPlaces(es, ReadsOf(at));
    }
  }

  /** Reads of the parameters' slots that are not rebound. */
  function ReadsOf(at: Layout): Expr -> bool {
    (e: Expr) => e.Local? && at.base <= e.slot < at.base + at.count && e.slot !in at.rebound
  }

  /** A slot is used in a layout exactly if it is one of the parameters', is not rebound, and is read
      by one of the nodes. */
  lemma UsedExactly(es: seq<Expr>, at: Layout, slot: nat)
    ensures slot in Tally(es, at).distinctSlots <==>
            && at.base <= slot < at.base + at.count && slot !in at.rebound
            && exists i :: 0 <= i < |es| && es[i].Local? && es[i].slot == slot
  {
    if slot in Tally(es, at).distinctSlots {
      var e :| e in es && at.Maps(e) && e.slot == slot;
    }
    if at.base <= slot < at.base + at.count && slot !in at.rebound && exists i :: 0 <= i < |es| && es[i].Local? && es[i].slot == slot {
      var i :| 0 <= i < |es| && es[i].Local? && es[i].slot == slot;
      assert es[i] in es && at.Maps(es[i]);
    }
  }
}
