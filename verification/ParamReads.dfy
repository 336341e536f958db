/** Which reads `resolve_param_locals` resolves, said without its walkers: by the positions of a
    body and the children of a node. */
module ParamReads {
  import opened Ir
  import opened Positions
  import opened ParamLocals

  // ---------------------------------------------------------------------
  // Positions of reads
  // ---------------------------------------------------------------------

  /** Nodes into whose children the pass does not go. */
  predicate IsClosed(e: Expr) {
    || (e.Unary? && (e.uop == Try || e.uop == SomeOf || e.uop == SretResult || e.uop == ValTag))
    || (e.Binary? && e.bop == VecTryIterFold)
  }

  /** The slot is read somewhere in the expression, fallbacks included. */
  predicate Reads(e: Expr, slot: Slot) {
    || (e.Local? && e.slot == slot)
    || (exists i :: 0 <= i < |Children(e)| && Reads(Children(e)[i], slot))
    || (e.StorageGet? && e.onMissing.Some? && Reads(e.onMissing.value, slot))
  }

  /** The slot is read where the pass goes. */
  predicate ReadsInReach(e: Expr, slot: Slot) {
    || (e.Local? && e.slot == slot)
    || (!IsClosed(e) && exists i :: 0 <= i < |Children(e)| && ReadsInReach(Children(e)[i], slot))
  }

  /** The slot is read where the pass does not go. */
  predicate ReadsOutOfReach(e: Expr, slot: Slot) {
    || (exists i :: 0 <= i < |Children(e)| &&
          if IsClosed(e) then Reads(Children(e)[i], slot) else ReadsOutOfReach(Children(e)[i], slot))
    || (e.StorageGet? && e.onMissing.Some? && Reads(e.onMissing.value, slot))
  }

  lemma {:induction false} ReadsSplit(e: Expr, slot: Slot)
    ensures Reads(e, slot) <==> ReadsInReach(e, slot) || ReadsOutOfReach(e, slot)
  {
    forall i | 0 <= i < |Children(e)|
      ensures Reads(Children(e)[i], slot) <==> ReadsInReach(Children(e)[i], slot) || ReadsOutOfReach(Children(e)[i], slot)
    {
      ReadsSplit(Children(e)[i], slot);
    }
  }

  // ---------------------------------------------------------------------
  // What an expression becomes
  // ---------------------------------------------------------------------

  /** The parameter that takes a slot's place, if any. */
  type Naming = Slot -> Option<string>

  /** `f` is `e` with the named slots in reach replaced by their parameters, and nothing else. */
  predicate Resolved(e: Expr, f: Expr, naming: Naming) {
    if e.Local? then f == if naming(e.slot).Some? then Param(naming(e.slot).value) else e
    else if IsClosed(e) then f == e
    else
      && SameHead(e, f) && |Children(f)| == |Children(e)|
      && forall i :: 0 <= i < |Children(e)| ==> Resolved(Children(e)[i], Children(f)[i], naming)
  }

  /** There is only one such expression. */
  lemma {:induction false} ResolvedIsUnique(e: Expr, f: Expr, g: Expr, naming: Naming)
    requires Resolved(e, f, naming) && Resolved(e, g, naming)
    ensures f == g
  {
    if !e.Local? && !IsClosed(e) {
      forall i | 0 <= i < |Children(e)| ensures Children(f)[i] == Children(g)[i] {
        ResolvedIsUnique(Children(e)[i], Children(f)[i], Children(g)[i], naming);
      }
      assert Children(f) == Children(g);
      SameNode(e, f, g);
    }
  }

  /** Named slots are no longer read in reach; where the pass does not go, and for all other
      slots, the reads are what they were. */
  lemma {:induction false} ResolvedReads(e: Expr, f: Expr, naming: Naming, slot: Slot)
    requires Resolved(e, f, naming)
    ensures ReadsOutOfReach(f, slot) <==> ReadsOutOfReach(e, slot)
    ensures ReadsInReach(f, slot) <==> naming(slot).None? && ReadsInReach(e, slot)
  {
    if !e.Local? && !IsClosed(e) {
      ClosedHead(e, f);
      forall i | 0 <= i < |Children(e)|
        ensures ReadsOutOfReach(Children(f)[i], slot) <==> ReadsOutOfReach(Children(e)[i], slot)
        ensures ReadsInReach(Children(f)[i], slot) <==> naming(slot).None? && ReadsInReach(Children(e)[i], slot)
      {
        ResolvedReads(Children(e)[i], Children(f)[i], naming, slot);
      }
    }
  }

  lemma ClosedHead(e: Expr, f: Expr)
    requires SameHead(e, f)
    ensures IsClosed(f) == IsClosed(e) && f.Local? == e.Local? && f.StorageGet? == e.StorageGet?
    ensures e.Local? ==> f == e
    ensures e.StorageGet? ==> f.onMissing == e.onMissing
  {
  }

  // ---------------------------------------------------------------------
  // Which slots are resolved
  // ---------------------------------------------------------------------

  /** The expression under conversions. */
  function Core(value: Expr): Expr {
    match value
    case Unary(ValConvert(_), a) => Core(a)
    case Unary(CastAs(_), a) => Core(a)
    case _ => value
  }

  /** Under conversions, the slot itself, by number or by name, or some parameter. */
  predicate IsAliasOf(slot: Slot, value: Expr) {
    Core(value) == Local(slot) || Core(value) == NamedLocal(SlotName(slot)) || Core(value).Param?
  }

  lemma {:induction false} AliasTestIs(slot: Slot, value: Expr)
    ensures IsParamAliasBinding(slot, value) <==> IsAliasOf(slot, value)
  {
    if value.Unary? { AliasTestIs(slot, value.arg); }
  }

  /** The value is given to a name of the slot, and is no alias. */
  predicate BindsAnew(site: Site, slot: Slot) {
    && (site.role.LetValue? || site.role.AssignValue?)
    && SlotOfName(if site.role.LetValue? then site.role.name else site.role.target) == Some(slot)
    && !IsAliasOf(slot, site.e)
  }

  /** Outside `for` bodies, some `let` or assignment binds the slot anew. */
  predicate IsRebound(sites: seq<Site>, slot: Slot) {
    exists i :: 0 <= i < |sites| && !sites[i].inFor && BindsAnew(sites[i], slot)
  }

  lemma ReboundAppend(a: seq<Site>, b: seq<Site>, slot: Slot)
    ensures IsRebound(a + b, slot) <==> IsRebound(a, slot) || IsRebound(b, slot)
  {
    if IsRebound(a, slot) {
      var i :| 0 <= i < |a| && !a[i].inFor && BindsAnew(a[i], slot);
      assert (a + b)[i] == a[i];
    }
    if IsRebound(b, slot) {
      var i :| 0 <= i < |b| && !b[i].inFor && BindsAnew(b[i], slot);
      assert (a + b)[|a| + i] == b[i];
    }
  }

  lemma InForNotRebound(ss: seq<Stmt>, slot: Slot)
    ensures !IsRebound(Sites(ss, true), slot)
  {
    InsideFor(ss);
  }

  lemma {:induction false} StmtScanIs(s: Stmt, slot: Slot)
    ensures slot in ReboundStmt(s) <==> IsRebound(StmtSites(s, false), slot)
    decreases s, 1
  {
    match s
    case ExprStmt(_) => NoneRebound(s, slot);
    case Return(_) => NoneRebound(s, slot);
    case Let(x, _, e) => OneRebound(Site(e, LetValue(x), false), slot); AliasTestIs(slot, e);
    case Assign(x, e) => OneRebound(Site(e, AssignValue(x), false), slot); AliasTestIs(slot, e);
    case If(c, a, b) =>
      ScanIs(a, slot);
      ScanIs(b, slot);
      var site := Site(c, Plain, false);
      OneRebound(site, slot);
      ReboundAppend([site], Sites(a, false), slot);
      ReboundAppend([site] + Sites(a, false), Sites(b, false), slot);
    case Match(e, arms) =>
      ArmScanIs(arms, slot);
      var site := Site(e, Plain, false);
      OneRebound(site, slot);
      ReboundAppend([site], ArmSites(arms, false), slot);
    case Loop(b) => ScanIs(b, slot);
    case Block(b) => ScanIs(b, slot);
    case For(_, lo, hi, _, b) =>
      InForNotRebound(b, slot);
      ReboundAppend([Site(lo, LoopBound, false), Site(hi, LoopBound, false)], Sites(b, true), slot);
    case _ =>
  }

  lemma NoneRebound(s: Stmt, slot: Slot)
    requires s.ExprStmt? || s.Return?
    ensures !IsRebound(StmtSites(s, false), slot)
  {
  }

  lemma OneRebound(site: Site, slot: Slot)
    ensures IsRebound([site], slot) <==> !site.inFor && BindsAnew(site, slot)
  {
    assert [site][0] == site;
  }

  lemma {:induction false} ScanIs(ss: seq<Stmt>, slot: Slot)
    ensures slot in Rebound(ss) <==> IsRebound(Sites(ss, false), slot)
    decreases ss, 0
  {
    if ss != [] {
      StmtScanIs(ss[0], slot);
      ScanIs(ss[1..], slot);
      ReboundAppend(StmtSites(ss[0], false), Sites(ss[1..], false), slot);
    }
  }

  lemma {:induction false} ArmScanIs(arms: seq<Arm>, slot: Slot)
    ensures slot in ReboundArms(arms) <==> IsRebound(ArmSites(arms, false), slot)
    decreases arms, 0
  {
    if arms != [] {
      ScanIs(arms[0].body, slot);
      ArmScanIs(arms[1..], slot);
      var p, b := PatternSites(arms[0].pattern, false), Sites(arms[0].body, false);
      ReboundAppend(p, b, slot);
      ReboundAppend(p + b, ArmSites(arms[1..], false), slot);
      assert !IsRebound(p, slot);
    }
  }

  /** The naming of a body: parameter `i` for slot `base + i`, unless it is bound anew. */
  function NamingOf(body: seq<Stmt>, params: seq<string>, base: nat): Naming {
    (slot: Slot) =>
      if base <= slot < base + |params| && !IsRebound(AllSites(body), slot) then Some(params[slot - base]) else None
  }

  // ---------------------------------------------------------------------
  // The pass
  // ---------------------------------------------------------------------

  /** What one expression of a body becomes. */
  predicate SiteResolved(site: Site, after: Site, naming: Naming) {
    && after.role == site.role && after.inFor == site.inFor
    && if IsSearched(site) then Resolved(site.e, after.e, naming) else after.e == site.e
  }

  /** The naming that a map of slots amounts to. */
  function NamingBy(names: map<Slot, string>): Naming { (slot: Slot) => if slot in names then Some(names[slot]) else None }

  lemma {:induction false} ReplaceResolves(e: Expr, names: map<Slot, string>)
    ensures Resolved(e, ReplaceExpr(e, names), NamingBy(names))
    decreases e
  {
    var f := ReplaceExpr(e, names);
    if !e.Local? && !IsClosed(e) {
      ReplacedOpen(e, names);
      forall i | 0 <= i < |Children(e)| ensures Resolved(Children(e)[i], Children(f)[i], NamingBy(names)) {
        ReplaceResolves(Children(e)[i], names);
      }
    }
  }

  lemma ReplacedOpen(e: Expr, names: map<Slot, string>)
    requires !e.Local? && !IsClosed(e)
    ensures Replaced(e, ReplaceExpr(e, names), names)
  {
    if ReplaceExpr(e, names) != e {
      ReplacedChildren(e, names);
    } else {
      ReplacedSame(e, names);
    }
  }

  lemma ReplacedSame(e: Expr, names: map<Slot, string>)
    requires !e.Local? && !IsClosed(e) && ReplaceExpr(e, names) == e
    ensures Replaced(e, e, names)
  {
    match e
    case Nary(_, es) => ReplaceExprsAt(es, names);
    case RawHostCall(_, _, args) => ReplaceExprsAt(args, names);
    case MethodCall(_, _, _) => ReplacedCall(e, names);
    case PublishEvent(_, _, _) => ReplacedEvent(e, names);
    case Invoke(_, _, _, _) => ReplacedInvoke(e, names);
    case _ =>
  }

  /** The pass as an edit of positions. */
  function Resolver(names: map<Slot, string>): Edit { (site: Site) => if IsSearched(site) then ReplaceExpr(site.e, names) else site.e }

  ghost predicate Leaves(f: Edit) { forall site: Site :: site.inFor ==> f(site) == site.e }

  lemma {:induction false} EditNothing(ss: seq<Stmt>, f: Edit)
    requires Leaves(f)
    ensures EditAll(ss, f, true) == ss
    decreases ss, 0
  {
    if ss != [] {
      EditNothingStmt(ss[0], f);
      EditNothing(ss[1..], f);
    }
  }

  lemma {:induction false} EditNothingStmt(s: Stmt, f: Edit)
    requires Leaves(f)
    ensures EditStmt(s, f, true) == s
    decreases s, 1
  {
    match s
    case If(_, a, b) => EditNothing(a, f); EditNothing(b, f);
    case Match(_, arms) => EditNothingArms(arms, f);
    case Loop(b) => EditNothing(b, f);
    case For(_, _, _, _, b) => EditNothing(b, f);
    case Block(b) => EditNothing(b, f);
    case _ =>
  }

  lemma {:induction false} EditNothingArms(arms: seq<Arm>, f: Edit)
    requires Leaves(f)
    ensures EditArms(arms, f, true) == arms
    decreases arms, 0
  {
    if arms != [] {
      EditNothing(arms[0].body, f);
      EditNothingArms(arms[1..], f);
    }
  }

  /** `f` replaces in reach and leaves the rest. */
  ghost predicate Replaces(f: Edit, names: map<Slot, string>) {
    forall site: Site {:trigger f(site)} :: f(site) == if IsSearched(site) then ReplaceExpr(site.e, names) else site.e
  }

  lemma {:induction false} ReplaceIsEditStmt(s: Stmt, names: map<Slot, string>, f: Edit)
    requires Replaces(f, names)
    ensures ReplaceStmt(s, names) == EditStmt(s, f, false)
    decreases s, 1
  {
    match s
    case If(_, a, b) => ReplaceIsEdit(a, names, f); ReplaceIsEdit(b, names, f);
    case Match(_, arms) => ReplaceIsEditArms(arms, names, f);
    case Loop(b) => ReplaceIsEdit(b, names, f);
    case For(_, _, _, _, b) => EditNothing(b, f);
    case Block(b) => ReplaceIsEdit(b, names, f);
    case _ =>
  }

  lemma {:induction false} ReplaceIsEdit(ss: seq<Stmt>, names: map<Slot, string>, f: Edit)
    requires Replaces(f, names)
    ensures ReplaceStmts(ss, names) == EditAll(ss, f, false)
    decreases ss, 0
  {
    if ss != [] {
      ReplaceIsEditStmt(ss[0], names, f);
      ReplaceIsEdit(ss[1..], names, f);
    }
  }

  lemma {:induction false} ReplaceIsEditArms(arms: seq<Arm>, names: map<Slot, string>, f: Edit)
    requires Replaces(f, names)
    ensures ReplaceArms(arms, names) == EditArms(arms, f, false)
    decreases arms, 0
  {
    if arms != [] {
      ReplaceIsEdit(arms[0].body, names, f);
      ReplaceIsEditArms(arms[1..], names, f);
    }
  }

  /** The resolved body is the one whose expressions in reach have their parameters' slots, as far
      as these are not bound anew, replaced by the parameters, and that is otherwise the same. */
  lemma ResolvesExactly(body: seq<Stmt>, params: seq<string>, base: nat)
    requires base + |params| <= 0x1_0000_0000
    ensures var out := Resolve(body, params, base);
            && Blank(out) == Blank(body) && |AllSites(out)| == |AllSites(body)|
            && forall i :: 0 <= i < |AllSites(body)| ==> SiteResolved(AllSites(body)[i], AllSites(out)[i], NamingOf(body, params, base))
  {
    var names := ResolvedSlots(params, base, Rebound(body));
    var f, naming := Resolver(names), NamingOf(body, params, base);
    ReplaceIsEdit(body, names, f);
    EditedAll(body, f, false);
    forall slot: Slot ensures NamingBy(names)(slot) == naming(slot) { ScanIs(body, slot); }
    var sites, after := AllSites(body), AllSites(Resolve(body, params, base));
    forall i | 0 <= i < |sites| ensures SiteResolved(sites[i], after[i], naming) {
      if IsSearched(sites[i]) {
        ReplaceResolves(sites[i].e, names);
        NamingMatters(sites[i].e, after[i].e, NamingBy(names), naming);
      }
    }
  }

  lemma {:induction false} NamingMatters(e: Expr, f: Expr, naming: Naming, other: Naming)
    requires Resolved(e, f, naming) && forall slot: Slot :: naming(slot) == other(slot)
    ensures Resolved(e, f, other)
  {
    if !e.Local? && !IsClosed(e) {
      forall i | 0 <= i < |Children(e)| ensures Resolved(Children(e)[i], Children(f)[i], other) {
        NamingMatters(Children(e)[i], Children(f)[i], naming, other);
      }
    }
  }

  /** So for each parameter slot that is not bound anew: in no position in reach is it read any more,
      and everywhere else it is read exactly where it was. */
  lemma ParameterReads(body: seq<Stmt>, params: seq<string>, base: nat, i: nat, slot: Slot)
    requires base + |params| <= 0x1_0000_0000 && i < |AllSites(body)|
    requires base <= slot < base + |params| && !IsRebound(AllSites(body), slot)
    ensures var before, out := AllSites(body)[i], AllSites(Resolve(body, params, base));
            && i < |out|
            && (IsSearched(before) ==> !ReadsInReach(out[i].e, slot) && (ReadsOutOfReach(out[i].e, slot) <==> ReadsOutOfReach(before.e, slot)))
            && (!IsSearched(before) ==> (Reads(out[i].e, slot) <==> Reads(before.e, slot)))
  {
    var out, naming := AllSites(Resolve(body, params, base)), NamingOf(body, params, base);
    ResolvesExactly(body, params, base);
    assert SiteResolved(AllSites(body)[i], out[i], naming);
    if IsSearched(AllSites(body)[i]) { ResolvedReads(AllSites(body)[i].e, out[i].e, naming, slot); }
  }
}
