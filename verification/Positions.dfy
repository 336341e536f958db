/** Where the expressions of a body stand, and what a pass that changes expressions in place makes
    of them. Nothing here knows any pass. */
module Positions {
  import opened Ir

  /** What an expression is used for. */
  datatype Role = Plain | LetValue(name: string) | AssignValue(target: string) | LoopBound | LiteralPattern

  datatype Site = Site(e: Expr, role: Role, inFor: bool)

  /** All expressions of a body, in program order; `inFor` says whether a `for` is around. */
  function StmtSites(s: Stmt, inFor: bool): seq<Site>
    decreases s, 1
  {
    match s
    case ExprStmt(e) => [Site(e, Plain, inFor)]
    case Let(x, _, e) => [Site(e, LetValue(x), inFor)]
    case Assign(x, e) => [Site(e, AssignValue(x), inFor)]
    case Return(Some(e)) => [Site(e, Plain, inFor)]
    case If(c, a, b) => [Site(c, Plain, inFor)] + Sites(a, inFor) + Sites(b, inFor)
    case Match(e, arms) => [Site(e, Plain, inFor)] + ArmSites(arms, inFor)
    case Loop(b) => Sites(b, inFor)
    case For(_, lo, hi, _, b) => [Site(lo, LoopBound, inFor), Site(hi, LoopBound, inFor)] + Sites(b, true)
    case Block(b) => Sites(b, inFor)
    case _ => []
  }

  function Sites(ss: seq<Stmt>, inFor: bool): seq<Site>
    decreases ss, 0
  {
    if ss == [] then [] else StmtSites(ss[0], inFor) + Sites(ss[1..], inFor)
  }

  function ArmSites(arms: seq<Arm>, inFor: bool): seq<Site>
    decreases arms, 0
  {
    if arms == [] then []
    else PatternSites(arms[0].pattern, inFor) + Sites(arms[0].body, inFor) + ArmSites(arms[1..], inFor)
  }

  function PatternSites(p: Pattern, inFor: bool): seq<Site> {
    if p.Literal? then [Site(p.pat, LiteralPattern, inFor)] else []
  }

  function AllSites(ss: seq<Stmt>): seq<Site> { Sites(ss, false) }

  /** Neither inside a `for` nor at its bounds, and no literal pattern: where walks look that leave
      `for` statements out. */
  predicate IsSearched(site: Site) { !site.inFor && site.role != LoopBound && site.role != LiteralPattern }

  predicate AllInFor(sites: seq<Site>) { forall i :: 0 <= i < |sites| ==> sites[i].inFor }

  lemma {:induction false} InsideFor(ss: seq<Stmt>)
    ensures AllInFor(Sites(ss, true))
    decreases ss, 0
  {
    if ss != [] {
      InsideForStmt(ss[0]);
      InsideFor(ss[1..]);
    }
  }

  lemma {:induction false} InsideForStmt(s: Stmt)
    ensures AllInFor(StmtSites(s, true))
    decreases s, 1
  {
    match s
    case If(_, a, b) => InsideFor(a); InsideFor(b);
    case Match(_, arms) => InsideForArms(arms);
    case Loop(b) => InsideFor(b);
    case For(_, _, _, _, b) => InsideFor(b);
    case Block(b) => InsideFor(b);
    case _ =>
  }

  lemma {:induction false} InsideForArms(arms: seq<Arm>)
    ensures AllInFor(ArmSites(arms, true))
    decreases arms, 0
  {
    if arms != [] {
      InsideFor(arms[0].body);
      InsideForArms(arms[1..]);
    }
  }

  // ---------------------------------------------------------------------
  // What is left without expressions
  // ---------------------------------------------------------------------

  function BlankStmt(s: Stmt): Stmt
    decreases s, 1
  {
    match s
    case ExprStmt(_) => ExprStmt(Void)
    case Let(x, m, _) => Let(x, m, Void)
    case Assign(x, _) => Assign(x, Void)
    case Return(Some(_)) => Return(Some(Void))
    case If(_, a, b) => If(Void, Blank(a), Blank(b))
    case Match(_, arms) => Match(Void, BlankArms(arms))
    case Loop(b) => Loop(Blank(b))
    case For(x, _, _, step, b) => For(x, Void, Void, step, Blank(b))
    case Block(b) => Block(Blank(b))
    case _ => s
  }

  function Blank(ss: seq<Stmt>): (r: seq<Stmt>)
    ensures |r| == |ss|
    decreases ss, 0
  {
    if ss == [] then [] else [BlankStmt(ss[0])] + Blank(ss[1..])
  }

  function BlankArms(arms: seq<Arm>): (r: seq<Arm>)
    ensures |r| == |arms|
    decreases arms, 0
  {
    if arms == [] then []
    else [Arm(if arms[0].pattern.Literal? then Literal(Void) else arms[0].pattern, Blank(arms[0].body))] + BlankArms(arms[1..])
  }

  // A body is its expressions and what is left without them.

  lemma SplitSame(a: seq<Site>, b: seq<Site>, a': seq<Site>, b': seq<Site>)
    requires a + b == a' + b' && |a| == |a'|
    ensures a == a' && b == b'
  {
    assert a == (a + b)[..|a|] && a' == (a' + b')[..|a|];
    assert b == (a + b)[|a|..] && b' == (a' + b')[|a|..];
  }

  lemma {:induction false} SameCount(s: Stmt, t: Stmt, inFor: bool)
    requires BlankStmt(s) == BlankStmt(t)
    ensures |StmtSites(s, inFor)| == |StmtSites(t, inFor)|
    decreases s, 1
  {
    match s
    case If(_, a, b) => SameCounts(a, t.thenBody, inFor); SameCounts(b, t.elseBody, inFor);
    case Match(_, arms) => SameArmCounts(arms, t.arms, inFor);
    case Loop(b) => SameCounts(b, t.body, inFor);
    case For(_, _, _, _, b) => SameCounts(b, t.body, true);
    case Block(b) => SameCounts(b, t.body, inFor);
    case _ =>
  }

  lemma {:induction false} SameCounts(ss: seq<Stmt>, ts: seq<Stmt>, inFor: bool)
    requires Blank(ss) == Blank(ts)
    ensures |Sites(ss, inFor)| == |Sites(ts, inFor)|
    decreases ss, 0
  {
    if ss != [] {
      BlankFirst(ss, ts);
      SameCount(ss[0], ts[0], inFor);
      SameCounts(ss[1..], ts[1..], inFor);
    }
  }

  lemma {:induction false} SameArmCounts(arms: seq<Arm>, other: seq<Arm>, inFor: bool)
    requires BlankArms(arms) == BlankArms(other)
    ensures |ArmSites(arms, inFor)| == |ArmSites(other, inFor)|
    decreases arms, 0
  {
    if arms != [] {
      BlankFirstArm(arms, other);
      SameCounts(arms[0].body, other[0].body, inFor);
      SameArmCounts(arms[1..], other[1..], inFor);
    }
  }

  lemma BlankFirst(ss: seq<Stmt>, ts: seq<Stmt>)
    requires ss != [] && Blank(ss) == Blank(ts)
    ensures ts != [] && BlankStmt(ss[0]) == BlankStmt(ts[0]) && Blank(ss[1..]) == Blank(ts[1..])
  {
    assert |Blank(ss)| == |Blank(ts)|;
    assert Blank(ss)[0] == Blank(ts)[0] && Blank(ss)[1..] == Blank(ts)[1..];
  }

  lemma BlankFirstArm(arms: seq<Arm>, other: seq<Arm>)
    requires arms != [] && BlankArms(arms) == BlankArms(other)
    ensures other != [] && Blank(arms[0].body) == Blank(other[0].body) && BlankArms(arms[1..]) == BlankArms(other[1..])
    ensures arms[0].pattern.Literal? == other[0].pattern.Literal?
    ensures !arms[0].pattern.Literal? ==> arms[0].pattern == other[0].pattern
  {
    assert |BlankArms(arms)| == |BlankArms(other)|;
    assert BlankArms(arms)[0] == BlankArms(other)[0] && BlankArms(arms)[1..] == BlankArms(other)[1..];
  }

  lemma {:induction false} StmtDetermined(s: Stmt, t: Stmt, inFor: bool)
    requires BlankStmt(s) == BlankStmt(t) && StmtSites(s, inFor) == StmtSites(t, inFor)
    ensures s == t
    decreases s, 1
  {
    match s
    case ExprStmt(e) => assert StmtSites(s, inFor)[0].e == e;
    case Let(_, _, e) => assert StmtSites(s, inFor)[0].e == e;
    case Assign(_, e) => assert StmtSites(s, inFor)[0].e == e;
    case Return(Some(e)) => assert StmtSites(s, inFor)[0].e == e;
    case If(_, _, _) => IfDetermined(s, t, inFor);
    case Match(e, arms) =>
      SplitSame([Site(e, Plain, inFor)], ArmSites(arms, inFor), [Site(t.scrutinee, Plain, inFor)], ArmSites(t.arms, inFor));
      assert Site(e, Plain, inFor) == [Site(e, Plain, inFor)][0];
      ArmsDetermined(arms, t.arms, inFor);
    case Loop(b) => Determined(b, t.body, inFor);
    case For(_, _, _, _, _) => ForDetermined(s, t, inFor);
    case Block(b) => Determined(b, t.body, inFor);
    case _ =>
  }

  lemma {:induction false} IfDetermined(s: Stmt, t: Stmt, inFor: bool)
    requires s.If? && BlankStmt(s) == BlankStmt(t) && StmtSites(s, inFor) == StmtSites(t, inFor)
    ensures s == t
    decreases s, 0
  {
    var c, c' := [Site(s.cond, Plain, inFor)], [Site(t.cond, Plain, inFor)];
    SameCounts(s.thenBody, t.thenBody, inFor);
    SplitSame(c + Sites(s.thenBody, inFor), Sites(s.elseBody, inFor), c' + Sites(t.thenBody, inFor), Sites(t.elseBody, inFor));
    SplitSame(c, Sites(s.thenBody, inFor), c', Sites(t.thenBody, inFor));
    assert c[0] == c'[0];
    Determined(s.thenBody, t.thenBody, inFor);
    Determined(s.elseBody, t.elseBody, inFor);
  }

  lemma {:induction false} ForDetermined(s: Stmt, t: Stmt, inFor: bool)
    requires s.For? && BlankStmt(s) == BlankStmt(t) && StmtSites(s, inFor) == StmtSites(t, inFor)
    ensures s == t
    decreases s, 0
  {
    var r, r' := [Site(s.start, LoopBound, inFor), Site(s.end, LoopBound, inFor)], [Site(t.start, LoopBound, inFor), Site(t.end, LoopBound, inFor)];
    SplitSame(r, Sites(s.body, true), r', Sites(t.body, true));
    assert r[0] == r'[0] && r[1] == r'[1];
    Determined(s.body, t.body, true);
  }

  /** Two bodies that have the same expressions and the same rest are the same. */
  lemma {:induction false} Determined(ss: seq<Stmt>, ts: seq<Stmt>, inFor: bool)
    requires Blank(ss) == Blank(ts) && Sites(ss, inFor) == Sites(ts, inFor)
    ensures ss == ts
    decreases ss, 0
  {
    if ss != [] {
      BlankFirst(ss, ts);
      SameCount(ss[0], ts[0], inFor);
      SplitSame(StmtSites(ss[0], inFor), Sites(ss[1..], inFor), StmtSites(ts[0], inFor), Sites(ts[1..], inFor));
      StmtDetermined(ss[0], ts[0], inFor);
      Determined(ss[1..], ts[1..], inFor);
      assert ss == [ss[0]] + ss[1..] && ts == [ts[0]] + ts[1..];
    } else {
      assert |ts| == |Blank(ts)|;
    }
  }

  lemma {:induction false} ArmsDetermined(arms: seq<Arm>, other: seq<Arm>, inFor: bool)
    requires BlankArms(arms) == BlankArms(other) && ArmSites(arms, inFor) == ArmSites(other, inFor)
    ensures arms == other
    decreases arms, 0
  {
    if arms != [] {
      BlankFirstArm(arms, other);
      var p, p' := PatternSites(arms[0].pattern, inFor), PatternSites(other[0].pattern, inFor);
      var b, b' := Sites(arms[0].body, inFor), Sites(other[0].body, inFor);
      SameCounts(arms[0].body, other[0].body, inFor);
      SplitSame(p + b, ArmSites(arms[1..], inFor), p' + b', ArmSites(other[1..], inFor));
      SplitSame(p, b, p', b');
      assert arms[0].pattern.Literal? ==> p[0] == p'[0];
      Determined(arms[0].body, other[0].body, inFor);
      ArmsDetermined(arms[1..], other[1..], inFor);
      assert arms == [arms[0]] + arms[1..] && other == [other[0]] + other[1..];
    } else {
      assert |other| == |BlankArms(other)|;
    }
  }

  // ---------------------------------------------------------------------
  // Changing expressions in place
  // ---------------------------------------------------------------------

  type Edit = Site -> Expr

  function EditStmt(s: Stmt, f: Edit, inFor: bool): Stmt
    decreases s, 1
  {
    match s
    case ExprStmt(e) => ExprStmt(f(Site(e, Plain, inFor)))
    case Let(x, m, e) => Let(x, m, f(Site(e, LetValue(x), inFor)))
    case Assign(x, e) => Assign(x, f(Site(e, AssignValue(x), inFor)))
    case Return(Some(e)) => Return(Some(f(Site(e, Plain, inFor))))
    case If(c, a, b) => If(f(Site(c, Plain, inFor)), EditAll(a, f, inFor), EditAll(b, f, inFor))
    case Match(e, arms) => Match(f(Site(e, Plain, inFor)), EditArms(arms, f, inFor))
    case Loop(b) => Loop(EditAll(b, f, inFor))
    case For(x, lo, hi, step, b) =>
      For(x, f(Site(lo, LoopBound, inFor)), f(Site(hi, LoopBound, inFor)), step, EditAll(b, f, true))
    case Block(b) => Block(EditAll(b, f, inFor))
    case _ => s
  }

  function EditAll(ss: seq<Stmt>, f: Edit, inFor: bool): (r: seq<Stmt>)
    ensures |r| == |ss|
    decreases ss, 0
  {
    if ss == [] then [] else [EditStmt(ss[0], f, inFor)] + EditAll(ss[1..], f, inFor)
  }

  function EditArms(arms: seq<Arm>, f: Edit, inFor: bool): (r: seq<Arm>)
    ensures |r| == |arms|
    decreases arms, 0
  {
    if arms == [] then [] else [EditArm(arms[0], f, inFor)] + EditArms(arms[1..], f, inFor)
  }

  function EditArm(arm: Arm, f: Edit, inFor: bool): Arm
    decreases arm, 1
  {
    Arm(if arm.pattern.Literal? then Literal(f(Site(arm.pattern.pat, LiteralPattern, inFor))) else arm.pattern,
        EditAll(arm.body, f, inFor))
  }

  function Edited(sites: seq<Site>, f: Edit): (r: seq<Site>)
    ensures |r| == |sites|
    ensures forall i :: 0 <= i < |sites| ==> r[i] == Site(f(sites[i]), sites[i].role, sites[i].inFor)
  {
    seq(|sites|, i requires 0 <= i < |sites| => Site(f(sites[i]), sites[i].role, sites[i].inFor))
  }

  lemma EditedAppend(a: seq<Site>, b: seq<Site>, f: Edit)
    ensures Edited(a + b, f) == Edited(a, f) + Edited(b, f)
  {
  }

  lemma {:induction false} EditedStmt(s: Stmt, f: Edit, inFor: bool)
    ensures StmtSites(EditStmt(s, f, inFor), inFor) == Edited(StmtSites(s, inFor), f)
    ensures BlankStmt(EditStmt(s, f, inFor)) == BlankStmt(s)
    decreases s, 1
  {
    match s
    case If(_, _, _) => EditedIf(s, f, inFor);
    case Match(e, arms) =>
      EditedArms(arms, f, inFor);
      EditedAppend([Site(e, Plain, inFor)], ArmSites(arms, inFor), f);
    case Loop(b) => EditedAll(b, f, inFor);
    case For(_, _, _, _, _) => EditedFor(s, f, inFor);
    case Block(b) => EditedAll(b, f, inFor);
    case _ =>
  }

  lemma {:induction false} EditedIf(s: Stmt, f: Edit, inFor: bool)
    requires s.If?
    ensures StmtSites(EditStmt(s, f, inFor), inFor) == Edited(StmtSites(s, inFor), f)
    ensures BlankStmt(EditStmt(s, f, inFor)) == BlankStmt(s)
    decreases s, 0
  {
    var c, a, b := f(Site(s.cond, Plain, inFor)), EditAll(s.thenBody, f, inFor), EditAll(s.elseBody, f, inFor);
    EditedAll(s.thenBody, f, inFor);
    EditedAll(s.elseBody, f, inFor);
    EditedThree([Site(s.cond, Plain, inFor)], Sites(s.thenBody, inFor), Sites(s.elseBody, inFor), f);
    EditedOne(Site(s.cond, Plain, inFor), f);
    assert EditStmt(s, f, inFor) == If(c, a, b);
    IfSites(c, a, b, inFor);
    IfSites(s.cond, s.thenBody, s.elseBody, inFor);
  }

  lemma IfSites(c: Expr, a: seq<Stmt>, b: seq<Stmt>, inFor: bool)
    ensures StmtSites(If(c, a, b), inFor) == [Site(c, Plain, inFor)] + Sites(a, inFor) + Sites(b, inFor)
    ensures BlankStmt(If(c, a, b)) == If(Void, Blank(a), Blank(b))
  {
  }

  lemma EditedOne(site: Site, f: Edit)
    ensures Edited([site], f) == [Site(f(site), site.role, site.inFor)]
  {
  }

  lemma EditedThree(a: seq<Site>, b: seq<Site>, c: seq<Site>, f: Edit)
    ensures Edited(a + b + c, f) == Edited(a, f) + Edited(b, f) + Edited(c, f)
  {
    EditedAppend(a + b, c, f);
    EditedAppend(a, b, f);
  }

  lemma {:induction false} EditedFor(s: Stmt, f: Edit, inFor: bool)
    requires s.For?
    ensures StmtSites(EditStmt(s, f, inFor), inFor) == Edited(StmtSites(s, inFor), f)
    ensures BlankStmt(EditStmt(s, f, inFor)) == BlankStmt(s)
    decreases s, 0
  {
    EditedAll(s.body, f, true);
    EditedAppend([Site(s.start, LoopBound, inFor), Site(s.end, LoopBound, inFor)], Sites(s.body, true), f);
  }

  /** An edit changes each expression where it stands, and nothing else. */
  lemma {:induction false} EditedAll(ss: seq<Stmt>, f: Edit, inFor: bool)
    ensures Sites(EditAll(ss, f, inFor), inFor) == Edited(Sites(ss, inFor), f)
    ensures Blank(EditAll(ss, f, inFor)) == Blank(ss)
    decreases ss, 0
  {
    if ss != [] {
      EditedStmt(ss[0], f, inFor);
      EditedAll(ss[1..], f, inFor);
      EditedAppend(StmtSites(ss[0], inFor), Sites(ss[1..], inFor), f);
      assert EditAll(ss, f, inFor)[1..] == EditAll(ss[1..], f, inFor);
    }
  }

  lemma {:induction false} EditedArms(arms: seq<Arm>, f: Edit, inFor: bool)
    ensures ArmSites(EditArms(arms, f, inFor), inFor) == Edited(ArmSites(arms, inFor), f)
    ensures BlankArms(EditArms(arms, f, inFor)) == BlankArms(arms)
    decreases arms, 0
  {
    if arms != [] {
      EditedArm(arms[0], f, inFor);
      EditedArms(arms[1..], f, inFor);
      EditedAppend(OneArmSites(arms[0], inFor), ArmSites(arms[1..], inFor), f);
      assert EditArms(arms, f, inFor)[1..] == EditArms(arms[1..], f, inFor);
    }
  }

  function OneArmSites(arm: Arm, inFor: bool): seq<Site>
    decreases arm, 1
  {
    PatternSites(arm.pattern, inFor) + Sites(arm.body, inFor)
  }

  lemma {:induction false} EditedArm(arm: Arm, f: Edit, inFor: bool)
    ensures OneArmSites(EditArm(arm, f, inFor), inFor) == Edited(OneArmSites(arm, inFor), f)
    ensures Blank(EditArm(arm, f, inFor).body) == Blank(arm.body)
    decreases arm, 1
  {
    EditedAll(arm.body, f, inFor);
    EditedAppend(PatternSites(arm.pattern, inFor), Sites(arm.body, inFor), f);
  }
}
