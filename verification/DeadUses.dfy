/** Which bindings `drop_dead_lets` takes for dead, and what is left of them, said by the positions
    of the list and the children of a node instead of by the search. */
module DeadUses {
  import opened Ir
  import opened Positions
  import opened Kinds
  import opened DeadLets

  // ---------------------------------------------------------------------
  // The search
  // ---------------------------------------------------------------------

  /** The variable that an expression reads. */
  function ReadName(e: Expr): string
    requires IsVariable(e)
  {
    if e.Local? then SlotName(e.slot) else e.name
  }

  /** The expression may read `x`, or its value is assigned to `x`. */
  predicate MayUse(site: Site, x: string) {
    (IsVariable(site.e) ==> ReadName(site.e) == x) || site.role == AssignValue(x)
  }

  ghost predicate UsedAt(sites: seq<Site>, x: string) {
    exists i :: 0 <= i < |sites| && IsSearched(sites[i]) && MayUse(sites[i], x)
  }

  lemma UsedAppend(a: seq<Site>, b: seq<Site>, x: string)
    ensures UsedAt(a + b, x) <==> UsedAt(a, x) || UsedAt(b, x)
  {
    if i :| 0 <= i < |a| && IsSearched(a[i]) && MayUse(a[i], x) { assert (a + b)[i] == a[i]; }
    if i :| 0 <= i < |b| && IsSearched(b[i]) && MayUse(b[i], x) { assert (a + b)[|a| + i] == b[i]; }
  }

  lemma UsedOne(site: Site, x: string)
    ensures UsedAt([site], x) <==> IsSearched(site) && MayUse(site, x)
  {
    assert [site][0] == site;
  }

  /** The search reports a name exactly if some searched expression is that variable or no variable
      at all, or some searched assignment writes to it. */
  lemma {:induction false} ReferencesExactlyWhen(ss: seq<Stmt>, x: string)
    ensures References(ss, x) <==> UsedAt(AllSites(ss), x)
    decreases ss, 0
  {
    if ss != [] {
      StmtReferencesWhen(ss[0], x);
      ReferencesExactlyWhen(ss[1..], x);
      UsedAppend(StmtSites(ss[0], false), Sites(ss[1..], false), x);
    }
  }

  lemma {:induction false} StmtReferencesWhen(s: Stmt, x: string)
    ensures StmtReferences(s, x) <==> UsedAt(StmtSites(s, false), x)
    decreases s, 1
  {
    match s
    case ExprStmt(e) => UsedOne(Site(e, Plain, false), x);
    case Let(y, _, e) => UsedOne(Site(e, LetValue(y), false), x);
    case Assign(y, e) => UsedOne(Site(e, AssignValue(y), false), x);
    case Return(Some(e)) => UsedOne(Site(e, Plain, false), x);
    case If(c, a, b) =>
      ReferencesExactlyWhen(a, x);
      ReferencesExactlyWhen(b, x);
      UsedOne(Site(c, Plain, false), x);
      UsedAppend([Site(c, Plain, false)], Sites(a, false), x);
      UsedAppend([Site(c, Plain, false)] + Sites(a, false), Sites(b, false), x);
    case Match(e, arms) =>
      ArmsReferenceWhen(arms, x);
      UsedOne(Site(e, Plain, false), x);
      UsedAppend([Site(e, Plain, false)], ArmSites(arms, false), x);
    case Loop(b) => ReferencesExactlyWhen(b, x);
    case For(_, _, _, _, b) => InsideFor(b);
    case Block(b) => ReferencesExactlyWhen(b, x);
    case _ =>
  }

  lemma {:induction false} ArmsReferenceWhen(arms: seq<Arm>, x: string)
    ensures ArmsReference(arms, x) <==> UsedAt(ArmSites(arms, false), x)
    decreases arms, 0
  {
    if arms != [] {
      var p, b := PatternSites(arms[0].pattern, false), Sites(arms[0].body, false);
      ReferencesExactlyWhen(arms[0].body, x);
      ArmsReferenceWhen(arms[1..], x);
      UsedAppend(p, b, x);
      UsedAppend(p + b, ArmSites(arms[1..], false), x);
    }
  }

  // ---------------------------------------------------------------------
  // Purity
  // ---------------------------------------------------------------------

  predicate IsPureKind(e: Expr) {
    || IsVariable(e) || e.Lit? || e.BoolLit? || e == UnknownVal
    || (e.Unary? && e.uop.ValConvert?)
    || (e.Nary? && (e.nop == TupleConstruct || e.nop == VecConstruct))
  }

  /** All nodes are variables, numbers, booleans, holes, conversions, tuples or vectors. */
  predicate HasPureKinds(e: Expr) {
    IsPureKind(e) && forall i :: 0 <= i < |Children(e)| ==> HasPureKinds(Children(e)[i])
  }

  lemma {:induction false} PureExactlyWhen(e: Expr)
    ensures IsPureValue(e) <==> HasPureKinds(e)
  {
    forall i | 0 <= i < |Children(e)| ensures IsPureValue(Children(e)[i]) <==> HasPureKinds(Children(e)[i]) {
      PureExactlyWhen(Children(e)[i]);
    }
    PureAt(e);
  }

  lemma PureAt(e: Expr)
    ensures IsPureValue(e) <==> IsPureKind(e) && forall i :: 0 <= i < |Children(e)| ==> IsPureValue(Children(e)[i])
  {
    if e.Nary? {
      ArePureWhen(e.items);
      assert Children(e) == e.items;
    } else if e.Unary? {
      assert Children(e) == [e.arg];
      assert IsPureValue(Children(e)[0]) == IsPureValue(e.arg);
    }
  }

  lemma {:induction false} ArePureWhen(es: seq<Expr>)
    ensures ArePureValues(es) <==> forall i :: 0 <= i < |es| ==> IsPureValue(es[i])
  {
    if es != [] {
      ArePureWhen(es[1..]);
      assert es == [es[0]] + es[1..];
    }
  }

  // ---------------------------------------------------------------------
  // The sweep
  // ---------------------------------------------------------------------

  /** What is left of the statement at `i`. */
  ghost function Left(ss: seq<Stmt>, i: nat): seq<Stmt>
    requires i < |ss|
  {
    var s := ss[i];
    if !s.Let? || UsedAt(AllSites(ss[i + 1..]), s.name) then [s]
    else if HasPureKinds(s.value) then []
    else [ExprStmt(s.value)]
  }

  ghost function LeftFrom(ss: seq<Stmt>, i: nat): seq<Stmt>
    requires i <= |ss|
    decreases |ss| - i
  {
    if i == |ss| then [] else Left(ss, i) + LeftFrom(ss, i + 1)
  }

  lemma {:induction false} SweepFrom(ss: seq<Stmt>, i: nat)
    requires i <= |ss|
    ensures Drop(ss[i..]) == LeftFrom(ss, i)
    decreases |ss| - i
  {
    if i < |ss| {
      assert ss[i..][0] == ss[i] && ss[i..][1..] == ss[i + 1..];
      SweepFrom(ss, i + 1);
      if ss[i].Let? {
        ReferencesExactlyWhen(ss[i + 1..], ss[i].name);
        PureExactlyWhen(ss[i].value);
      }
    }
  }

  /** The sweep takes the statements of the original list one after the other: a binding that has no
      use after it goes, or leaves its value if that is not pure, and everything else stays. */
  lemma SweepsExactly(ss: seq<Stmt>)
    ensures Drop(ss) == LeftFrom(ss, 0)
  {
    assert ss[0..] == ss;
    SweepFrom(ss, 0);
  }

  /** Every binding of the swept list stood in the original one and had a use after it, and every
      such binding stays. */
  lemma {:induction false} BindingsLeft(ss: seq<Stmt>, x: string, mutable: bool, e: Expr)
    ensures Let(x, mutable, e) in Drop(ss) <==>
            exists i :: 0 <= i < |ss| && ss[i] == Let(x, mutable, e) && UsedAt(AllSites(ss[i + 1..]), x)
  {
    SweepsExactly(ss);
    BindingsFrom(ss, 0, Let(x, mutable, e));
  }

  lemma {:induction false} BindingsFrom(ss: seq<Stmt>, i: nat, s: Stmt)
    requires i <= |ss| && s.Let?
    ensures s in LeftFrom(ss, i) <==> exists k :: i <= k < |ss| && ss[k] == s && UsedAt(AllSites(ss[k + 1..]), s.name)
    decreases |ss| - i
  {
    if i < |ss| { BindingsFrom(ss, i + 1, s); }
  }
}
