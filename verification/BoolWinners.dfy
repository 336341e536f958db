/** Which values `unify_bool_locals` rewrites, said by the positions of a body: every value is given
    the binding it is for, and a binding is boolean or not by its values alone. */
module BoolWinners {
  import opened Ir
  import opened Kinds
  import opened Positions
  import opened BoolLocals

  // ---------------------------------------------------------------------
  // Bindings of a body
  // ---------------------------------------------------------------------

  /** The names that a statement binds, at any depth and in the order of the text. */
  function BoundBy(s: Stmt): seq<string>
    decreases s, 1
  {
    match s
    case Let(x, _, _) => [x]
    case If(_, a, b) => Bound(a) + Bound(b)
    case Match(_, arms) => BoundInArms(arms)
    case Loop(b) => Bound(b)
    case For(x, _, _, _, b) => [x] + Bound(b)
    case Block(b) => Bound(b)
    case _ => []
  }

  function Bound(ss: seq<Stmt>): seq<string>
    decreases ss, 0
  {
    if ss == [] then [] else BoundBy(ss[0]) + Bound(ss[1..])
  }

  function BoundInArms(arms: seq<Arm>): seq<string>
    decreases arms, 0
  {
    if arms == [] then [] else BoundInArm(arms[0]) + BoundInArms(arms[1..])
  }

  function BoundInArm(arm: Arm): seq<string>
    decreases arm, 1
  {
    ArmNames(arm.pattern) + Bound(arm.body)
  }

  function ArmNames(p: Pattern): seq<string> { if p.EnumVariant? then p.bindings else [] }

  /** What the visible names stand for: bindings, by their ranks in the text. */
  type Env = map<string, nat>

  function WithNames(env: Env, names: seq<string>, first: nat): Env
    decreases |names|
  {
    if names == [] then env else WithNames(env[names[0] := first], names[1..], first + 1)
  }

  /** The binding that each expression of a body gives a value to: its own for a `let`, the visible
      one of that name for an assignment, and none for any other expression. */
  function OwnersOf(s: Stmt, first: nat, env: Env): seq<Option<nat>>
    decreases s, 1
  {
    match s
    case ExprStmt(_) => [None]
    case Let(_, _, _) => [Some(first)]
    case Assign(x, _) => [if x in env then Some(env[x]) else None]
    case Return(Some(_)) => [None]
    case If(_, a, b) => [None] + Owners(a, first, env) + Owners(b, first + |Bound(a)|, env)
    case Match(_, arms) => [None] + ArmOwners(arms, first, env)
    case Loop(b) => Owners(b, first, env)
    case For(x, _, _, _, b) => [None, None] + Owners(b, first + 1, env[x := first])
    case Block(b) => Owners(b, first, env)
    case _ => []
  }

  function Owners(ss: seq<Stmt>, first: nat, env: Env): seq<Option<nat>>
    decreases ss, 0
  {
    if ss == [] then []
    else OwnersOf(ss[0], first, env) +
         Owners(ss[1..], first + |BoundBy(ss[0])|, if ss[0].Let? then env[ss[0].name := first] else env)
  }

  function ArmOwners(arms: seq<Arm>, first: nat, env: Env): seq<Option<nat>>
    decreases arms, 0
  {
    if arms == [] then []
    else OneArmOwners(arms[0], first, env) + ArmOwners(arms[1..], first + |BoundInArm(arms[0])|, env)
  }

  function OneArmOwners(arm: Arm, first: nat, env: Env): seq<Option<nat>>
    decreases arm, 1
  {
    var names := ArmNames(arm.pattern);
    (if arm.pattern.Literal? then [None] else []) + Owners(arm.body, first + |names|, WithNames(env, names, first))
  }

  function AllOwners(ss: seq<Stmt>): seq<Option<nat>> { Owners(ss, 0, map[]) }

  // ---------------------------------------------------------------------
  // Boolean bindings
  // ---------------------------------------------------------------------

  predicate IsBoolCall(selector: string) {
    || selector == "contains_key" || selector == "contains" || selector == "is_empty" || selector == "pairing_check"
    || selector == "g1_is_in_subgroup" || selector == "g2_is_in_subgroup" || selector == "is_none" || selector == "is_some"
  }

  /** Literals, negations, comparisons, conjunctions, disjunctions and calls with boolean results. */
  predicate IsTyped(e: Expr) {
    || e.BoolLit? || (e.Unary? && (e.uop == Not || e.uop.StorageHas?))
    || (e.Binary? && (e.bop == Eq || e.bop == Ne || e.bop == Lt || e.bop == Le || e.bop == Gt || e.bop == Ge))
    || (e.Binary? && (e.bop == And || e.bop == Or))
    || (e.MethodCall? && IsBoolCall(e.selector))
  }

  /** The number 0 or 1 of an integer type of at most 64 bits. */
  predicate IsBit(e: Expr) {
    e.Lit? && (e.kind == I32 || e.kind == U32 || e.kind == I64 || e.kind == U64) && (e.value == 0 || e.value == 1)
  }

  /** One value of the binding is a boolean, another is 0 or 1, and all are one or the other and do
      not trap. */
  ghost predicate IsReallyBool(sites: seq<Site>, owners: seq<Option<nat>>, id: nat)
    requires |owners| == |sites|
  {
    && (forall i :: 0 <= i < |sites| && owners[i] == Some(id) ==>
          !TrapsFirst(sites[i].e) && (IsTyped(sites[i].e) || IsBit(sites[i].e)))
    && (exists i :: 0 <= i < |sites| && owners[i] == Some(id) && IsTyped(sites[i].e))
    && (exists i :: 0 <= i < |sites| && owners[i] == Some(id) && IsBit(sites[i].e))
  }

  // ---------------------------------------------------------------------
  // The walker's bindings are these
  // ---------------------------------------------------------------------

  lemma {:induction false} CountsBound(s: Stmt)
    ensures Binders(s) == |BoundBy(s)|
    decreases s, 1
  {
    match s
    case If(_, a, b) => CountsAllBound(a); CountsAllBound(b);
    case Match(_, arms) => CountsArmsBound(arms);
    case Loop(b) => CountsAllBound(b);
    case For(_, _, _, _, b) => CountsAllBound(b);
    case Block(b) => CountsAllBound(b);
    case _ =>
  }

  lemma {:induction false} CountsAllBound(ss: seq<Stmt>)
    ensures BindersAll(ss) == |Bound(ss)|
    decreases ss, 0
  {
    if ss != [] {
      CountsBound(ss[0]);
      CountsAllBound(ss[1..]);
    }
  }

  lemma {:induction false} CountsArmsBound(arms: seq<Arm>)
    ensures BindersArms(arms) == |BoundInArms(arms)|
    decreases arms, 0
  {
    if arms != [] {
      CountsArmBound(arms[0]);
      CountsArmsBound(arms[1..]);
    }
  }

  lemma {:induction false} CountsArmBound(arm: Arm)
    ensures BindersArm(arm) == |BoundInArm(arm)|
    decreases arm, 1
  {
    CountsAllBound(arm.body);
  }

  /** The scopes make visible what the environment does. */
  ghost predicate Shows(scopes: Scopes, env: Env) {
    forall x: string {:trigger Resolve(scopes, x)} :: Resolve(scopes, x) == if x in env then Some(env[x]) else None
  }

  lemma ShowsLet(scopes: Scopes, env: Env, x: string, id: nat)
    requires scopes != [] && Shows(scopes, env)
    ensures Shows(Declare(scopes, x, id), env[x := id])
  {
    forall y: string ensures Resolve(Declare(scopes, x, id), y) == if x == y then Some(id) else Resolve(scopes, y) {
      ResolveDeclared(scopes, x, id, y);
    }
  }

  lemma ShowsScope(scopes: Scopes, env: Env, scope: Env)
    requires Shows(scopes, env)
    ensures Shows(scopes + [scope], env + scope)
  {
    forall y: string ensures Resolve(scopes + [scope], y) == if y in scope then Some(scope[y]) else Resolve(scopes, y) {
      LexicalOnEntry(scopes, scope, y);
    }
  }

  lemma ShowsSame(scopes: Scopes, env: Env)
    requires Shows(scopes, env)
    ensures Shows(scopes + [map[]], env)
  {
    ShowsScope(scopes, env, map[]);
    assert env + map[] == env;
  }

  lemma {:induction false} WithNamesIs(env: Env, names: seq<string>, first: nat)
    ensures WithNames(env, names, first) == env + ArmScope(names, first)
    decreases |names|
  {
    if names != [] {
      var n := |names| - 1;
      WithNamesIs(env, names[..n], first);
      WithNamesLast(env, names, first);
    }
  }

  lemma {:induction false} WithNamesLast(env: Env, names: seq<string>, first: nat)
    requires names != []
    ensures var n := |names| - 1; WithNames(env, names, first) == WithNames(env, names[..n], first)[names[n] := first + n]
    decreases |names|
  {
    var n := |names| - 1;
    if n > 0 {
      WithNamesLast(env[names[0] := first], names[1..], first + 1);
      assert names[1..][..n - 1] == names[..n][1..];
    } else {
      assert names[1..] == [] && names[..0] == [];
    }
  }

  lemma ShowsArm(scopes: Scopes, env: Env, names: seq<string>, first: nat)
    requires Shows(scopes, env)
    ensures Shows(scopes + [ArmScope(names, first)], WithNames(env, names, first))
  {
    WithNamesIs(env, names, first);
    ShowsScope(scopes, env, ArmScope(names, first));
  }

  // ---------------------------------------------------------------------
  // The walk, value by value
  // ---------------------------------------------------------------------

  /** The values with an owner, as records. */
  function Owned(sites: seq<Site>, owners: seq<Option<nat>>): seq<Record>
    requires |owners| == |sites|
  {
    if sites == [] then []
    else (if owners[0].Some? then [Record(owners[0].value, sites[0].e)] else []) + Owned(sites[1..], owners[1..])
  }

  function ChangeSite(site: Site, owner: Option<nat>, change: Change): Site {
    if owner.Some? then Site(change(owner.value, site.e), site.role, site.inFor) else site
  }

  function ChangeSites(sites: seq<Site>, owners: seq<Option<nat>>, change: Change): (r: seq<Site>)
    requires |owners| == |sites|
    ensures |r| == |sites|
  {
    seq(|sites|, i requires 0 <= i < |sites| => ChangeSite(sites[i], owners[i], change))
  }

  /** A list of sites with owners, the records of a walk over them, and what the walk makes of them. */
  ghost predicate Walks(sites: seq<Site>, owners: seq<Option<nat>>, rs: seq<Record>, out: seq<Site>, change: Change) {
    |owners| == |sites| && rs == Owned(sites, owners) && out == ChangeSites(sites, owners, change)
  }

  lemma {:induction false} OwnedAppend(a: seq<Site>, b: seq<Site>, o: seq<Option<nat>>, p: seq<Option<nat>>)
    requires |o| == |a| && |p| == |b|
    ensures Owned(a + b, o + p) == Owned(a, o) + Owned(b, p)
  {
    if a == [] {
      assert a + b == b && o + p == p;
    } else {
      assert (a + b)[1..] == a[1..] + b && (o + p)[1..] == o[1..] + p;
      OwnedAppend(a[1..], b, o[1..], p);
      var first := if o[0].Some? then [Record(o[0].value, a[0].e)] else [];
      OwnedFirst(a, o, first);
      OwnedFirst(a + b, o + p, first);
      Associates(first, Owned(a[1..], o[1..]), Owned(b, p));
    }
  }

  lemma OwnedFirst(sites: seq<Site>, owners: seq<Option<nat>>, first: seq<Record>)
    requires |owners| == |sites| > 0 && first == if owners[0].Some? then [Record(owners[0].value, sites[0].e)] else []
    ensures Owned(sites, owners) == first + Owned(sites[1..], owners[1..])
  {
  }

  lemma Associates(a: seq<Record>, b: seq<Record>, c: seq<Record>)
    ensures (a + b) + c == a + (b + c)
  {
  }

  lemma WalksOn(a: seq<Site>, o: seq<Option<nat>>, r: seq<Record>, a': seq<Site>,
                b: seq<Site>, p: seq<Option<nat>>, t: seq<Record>, b': seq<Site>, change: Change)
    requires Walks(a, o, r, a', change) && Walks(b, p, t, b', change)
    ensures Walks(a + b, o + p, r + t, a' + b', change)
  {
    OwnedAppend(a, b, o, p);
    assert ChangeSites(a + b, o + p, change) == ChangeSites(a, o, change) + ChangeSites(b, p, change);
  }

  lemma WalksOne(site: Site, owner: Option<nat>, change: Change)
    ensures Walks([site], [owner], if owner.Some? then [Record(owner.value, site.e)] else [], [ChangeSite(site, owner, change)], change)
  {
  }

  lemma RangeIsKept(a: Site, b: Site, change: Change)
    ensures Walks([a, b], [None, None], [], [a, b], change)
  {
    WalksOne(a, None, change);
    WalksOne(b, None, change);
    WalksOn([a], [None], [], [a], [b], [None], [], [b], change);
    var none: seq<Option<nat>> := [None];
    assert [a] + [b] == [a, b] && none + none == [None, None];
  }

  lemma {:induction false} WalkStmtIs(s: Stmt, first: nat, scopes: Scopes, env: Env, change: Change, inFor: bool)
    requires scopes != [] && Shows(scopes, env)
    ensures BlankStmt(Rewrite(s, first, scopes, change)) == BlankStmt(s)
    ensures Walks(StmtSites(s, inFor), OwnersOf(s, first, env), Records(s, first, scopes),
                  StmtSites(Rewrite(s, first, scopes, change), inFor), change)
    decreases s, 1
  {
    match s
    case ExprStmt(e) => WalksOne(Site(e, Plain, inFor), None, change);
    case Let(x, _, e) => WalksOne(Site(e, LetValue(x), inFor), Some(first), change);
    case Assign(x, e) => WalksOne(Site(e, AssignValue(x), inFor), Resolve(scopes, x), change);
    case Return(Some(e)) => WalksOne(Site(e, Plain, inFor), None, change);
    case If(_, _, _) => WalkIfIs(s, first, scopes, env, change, inFor);
    case Match(e, arms) =>
      WalkArmsIs(arms, first, scopes, env, change, inFor);
      WalksOne(Site(e, Plain, inFor), None, change);
      WalksOn([Site(e, Plain, inFor)], [None], [], [Site(e, Plain, inFor)],
              ArmSites(arms, inFor), ArmOwners(arms, first, env), RecordsArms(arms, first, scopes),
              ArmSites(RewriteArms(arms, first, scopes, change), inFor), change);
    case Loop(b) => ShowsSame(scopes, env); WalkIs(b, first, scopes + [map[]], env, change, inFor);
    case For(_, _, _, _, _) => WalkForIs(s, first, scopes, env, change, inFor);
    case Block(b) => ShowsSame(scopes, env); WalkIs(b, first, scopes + [map[]], env, change, inFor);
    case _ =>
  }

  lemma {:induction false} WalkIfIs(s: Stmt, first: nat, scopes: Scopes, env: Env, change: Change, inFor: bool)
    requires s.If? && scopes != [] && Shows(scopes, env)
    ensures BlankStmt(Rewrite(s, first, scopes, change)) == BlankStmt(s)
    ensures Walks(StmtSites(s, inFor), OwnersOf(s, first, env), Records(s, first, scopes),
                  StmtSites(Rewrite(s, first, scopes, change), inFor), change)
    decreases s, 0
  {
    var c, inner, next := Site(s.cond, Plain, inFor), scopes + [map[]], first + |Bound(s.thenBody)|;
    ShowsSame(scopes, env);
    CountsAllBound(s.thenBody);
    WalkIs(s.thenBody, first, inner, env, change, inFor);
    WalkIs(s.elseBody, next, inner, env, change, inFor);
    var a, b := RewriteAll(s.thenBody, first, inner, change), RewriteAll(s.elseBody, next, inner, change);
    WalksAfter(c, Sites(s.thenBody, inFor), Owners(s.thenBody, first, env), RecordsAll(s.thenBody, first, inner), Sites(a, inFor),
               Sites(s.elseBody, inFor), Owners(s.elseBody, next, env), RecordsAll(s.elseBody, next, inner), Sites(b, inFor), change);
  }

  /** A condition, and two branches. */
  lemma WalksAfter(c: Site, a: seq<Site>, o: seq<Option<nat>>, r: seq<Record>, a': seq<Site>,
                   b: seq<Site>, p: seq<Option<nat>>, t: seq<Record>, b': seq<Site>, change: Change)
    requires Walks(a, o, r, a', change) && Walks(b, p, t, b', change)
    ensures Walks([c] + a + b, [None] + o + p, r + t, [c] + a' + b', change)
  {
    WalksOne(c, None, change);
    WalksOn([c], [None], [], [c], a, o, r, a', change);
    assert [] + r == r;
    WalksOn([c] + a, [None] + o, r, [c] + a', b, p, t, b', change);
  }

  lemma {:induction false} WalkForIs(s: Stmt, first: nat, scopes: Scopes, env: Env, change: Change, inFor: bool)
    requires s.For? && scopes != [] && Shows(scopes, env)
    ensures BlankStmt(Rewrite(s, first, scopes, change)) == BlankStmt(s)
    ensures Walks(StmtSites(s, inFor), OwnersOf(s, first, env), Records(s, first, scopes),
                  StmtSites(Rewrite(s, first, scopes, change), inFor), change)
    decreases s, 0
  {
    var scope: Env := map[s.loopVar := first];
    ShowsScope(scopes, env, scope);
    assert env + scope == env[s.loopVar := first];
    WalkIs(s.body, first + 1, scopes + [scope], env[s.loopVar := first], change, true);
    var range := [Site(s.start, LoopBound, inFor), Site(s.end, LoopBound, inFor)];
    RangeIsKept(range[0], range[1], change);
    WalksOn(range, [None, None], [], range, Sites(s.body, true), Owners(s.body, first + 1, env[s.loopVar := first]),
            RecordsAll(s.body, first + 1, scopes + [scope]),
            Sites(RewriteAll(s.body, first + 1, scopes + [scope], change), true), change);
    assert [] + RecordsAll(s.body, first + 1, scopes + [scope]) == RecordsAll(s.body, first + 1, scopes + [scope]);
  }

  /** A list, by its first statement and the rest. */
  lemma ListParts(ss: seq<Stmt>, first: nat, scopes: Scopes, env: Env, change: Change, inFor: bool)
    requires ss != [] && scopes != []
    ensures var s, rest, first', scopes' := ss[0], ss[1..], first + Binders(ss[0]), After(ss[0], first, scopes);
            var env', out := if s.Let? then env[s.name := first] else env, RewriteAll(ss, first, scopes, change);
            && out != [] && out[0] == Rewrite(s, first, scopes, change) && out[1..] == RewriteAll(rest, first', scopes', change)
            && Sites(ss, inFor) == StmtSites(s, inFor) + Sites(rest, inFor)
            && Sites(out, inFor) == StmtSites(out[0], inFor) + Sites(out[1..], inFor)
            && Owners(ss, first, env) == OwnersOf(s, first, env) + Owners(rest, first', env')
            && RecordsAll(ss, first, scopes) == Records(s, first, scopes) + RecordsAll(rest, first', scopes')
  {
    CountsBound(ss[0]);
  }

  lemma {:induction false} WalkIs(ss: seq<Stmt>, first: nat, scopes: Scopes, env: Env, change: Change, inFor: bool)
    requires scopes != [] && Shows(scopes, env)
    ensures Blank(RewriteAll(ss, first, scopes, change)) == Blank(ss)
    ensures Walks(Sites(ss, inFor), Owners(ss, first, env), RecordsAll(ss, first, scopes),
                  Sites(RewriteAll(ss, first, scopes, change), inFor), change)
    decreases ss, 0
  {
    if ss != [] {
      var s, rest := ss[0], ss[1..];
      var first', scopes' := first + Binders(s), After(s, first, scopes);
      var env' := if s.Let? then env[s.name := first] else env;
      if s.Let? { ShowsLet(scopes, env, s.name, first); }
      WalkStmtIs(s, first, scopes, env, change, inFor);
      WalkIs(rest, first', scopes', env', change, inFor);
      ListParts(ss, first, scopes, env, change, inFor);
      var out := RewriteAll(ss, first, scopes, change);
      WalksOn(StmtSites(s, inFor), OwnersOf(s, first, env), Records(s, first, scopes), StmtSites(out[0], inFor),
              Sites(rest, inFor), Owners(rest, first', env'), RecordsAll(rest, first', scopes'), Sites(out[1..], inFor), change);
      BlankParts(ss, out);
    }
  }

  lemma BlankParts(ss: seq<Stmt>, out: seq<Stmt>)
    requires ss != [] && out != [] && BlankStmt(out[0]) == BlankStmt(ss[0]) && Blank(out[1..]) == Blank(ss[1..])
    ensures Blank(out) == Blank(ss)
  {
  }

  lemma ArmsParts(arms: seq<Arm>, first: nat, scopes: Scopes, env: Env, inFor: bool)
    requires arms != [] && scopes != []
    ensures var arm, rest, first' := arms[0], arms[1..], first + BindersArm(arms[0]);
            && ArmSites(arms, inFor) == OneArmSites(arm, inFor) + ArmSites(rest, inFor)
            && ArmOwners(arms, first, env) == OneArmOwners(arm, first, env) + ArmOwners(rest, first', env)
            && RecordsArms(arms, first, scopes) == RecordsArm(arm, first, scopes) + RecordsArms(rest, first', scopes)
  {
    CountsArmBound(arms[0]);
  }

  lemma RewrittenArms(arms: seq<Arm>, first: nat, scopes: Scopes, change: Change, inFor: bool)
    requires arms != [] && scopes != []
    ensures var out := RewriteArms(arms, first, scopes, change);
            && out != [] && out[0] == RewriteArm(arms[0], first, scopes, change)
            && out[1..] == RewriteArms(arms[1..], first + BindersArm(arms[0]), scopes, change)
            && ArmSites(out, inFor) == OneArmSites(out[0], inFor) + ArmSites(out[1..], inFor)
  {
  }

  lemma {:induction false} WalkArmsIs(arms: seq<Arm>, first: nat, scopes: Scopes, env: Env, change: Change, inFor: bool)
    requires scopes != [] && Shows(scopes, env)
    ensures BlankArms(RewriteArms(arms, first, scopes, change)) == BlankArms(arms)
    ensures Walks(ArmSites(arms, inFor), ArmOwners(arms, first, env), RecordsArms(arms, first, scopes),
                  ArmSites(RewriteArms(arms, first, scopes, change), inFor), change)
    decreases arms, 0
  {
    if arms != [] {
      var arm, rest, first' := arms[0], arms[1..], first + BindersArm(arms[0]);
      WalkArmIs(arm, first, scopes, env, change, inFor);
      WalkArmsIs(rest, first', scopes, env, change, inFor);
      ArmsParts(arms, first, scopes, env, inFor);
      RewrittenArms(arms, first, scopes, change, inFor);
      var out := RewriteArms(arms, first, scopes, change);
      WalksOn(OneArmSites(arm, inFor), OneArmOwners(arm, first, env), RecordsArm(arm, first, scopes), OneArmSites(out[0], inFor),
              ArmSites(rest, inFor), ArmOwners(rest, first', env), RecordsArms(rest, first', scopes), ArmSites(out[1..], inFor), change);
      BlankArmsParts(arms, out);
    }
  }

  lemma BlankArmsParts(arms: seq<Arm>, out: seq<Arm>)
    requires arms != [] && out != [] && BlankArms(out[1..]) == BlankArms(arms[1..])
    requires out[0].pattern == arms[0].pattern && Blank(out[0].body) == Blank(arms[0].body)
    ensures BlankArms(out) == BlankArms(arms)
  {
  }

  lemma ArmParts(arm: Arm, first: nat, scopes: Scopes, env: Env, change: Change, inFor: bool)
    requires scopes != []
    ensures var names := ArmNames(arm.pattern);
            var inner, env', first' := scopes + [ArmScope(names, first)], WithNames(env, names, first), first + |names|;
            var out := RewriteArm(arm, first, scopes, change);
            && out == Arm(arm.pattern, RewriteAll(arm.body, first', inner, change))
            && OneArmSites(arm, inFor) == PatternSites(arm.pattern, inFor) + Sites(arm.body, inFor)
            && OneArmSites(out, inFor) == PatternSites(arm.pattern, inFor) + Sites(out.body, inFor)
            && OneArmOwners(arm, first, env) == (if arm.pattern.Literal? then [None] else []) + Owners(arm.body, first', env')
            && RecordsArm(arm, first, scopes) == RecordsAll(arm.body, first', inner)
  {
  }

  lemma {:induction false} WalkArmIs(arm: Arm, first: nat, scopes: Scopes, env: Env, change: Change, inFor: bool)
    requires scopes != [] && Shows(scopes, env)
    ensures var arm' := RewriteArm(arm, first, scopes, change);
            && arm'.pattern == arm.pattern && Blank(arm'.body) == Blank(arm.body)
            && Walks(OneArmSites(arm, inFor), OneArmOwners(arm, first, env), RecordsArm(arm, first, scopes),
                     OneArmSites(arm', inFor), change)
    decreases arm, 1
  {
    var names := ArmNames(arm.pattern);
    var inner, env', first' := scopes + [ArmScope(names, first)], WithNames(env, names, first), first + |names|;
    ShowsArm(scopes, env, names, first);
    WalkIs(arm.body, first', inner, env', change, inFor);
    WalksBehind(arm.pattern, Sites(arm.body, inFor), Owners(arm.body, first', env'), RecordsAll(arm.body, first', inner),
                Sites(RewriteAll(arm.body, first', inner, change), inFor), change, inFor);
    ArmParts(arm, first, scopes, env, change, inFor);
  }

  /** A literal pattern is kept, and gives no record. */
  lemma WalksBehind(p: Pattern, a: seq<Site>, o: seq<Option<nat>>, r: seq<Record>, a': seq<Site>, change: Change, inFor: bool)
    requires Walks(a, o, r, a', change)
    ensures Walks(PatternSites(p, inFor) + a, (if p.Literal? then [None] else []) + o, r, PatternSites(p, inFor) + a', change)
  {
    if p.Literal? {
      WalksOne(Site(p.pat, LiteralPattern, inFor), None, change);
      WalksOn(PatternSites(p, inFor), [None], [], PatternSites(p, inFor), a, o, r, a', change);
      assert [] + r == r;
    } else {
      assert [] + a == a && [] + o == o && [] + a' == a';
    }
  }

  // ---------------------------------------------------------------------
  // Which bindings win
  // ---------------------------------------------------------------------

  lemma {:induction false} OwnedAre(sites: seq<Site>, owners: seq<Option<nat>>, r: Record)
    requires |owners| == |sites|
    ensures r in Owned(sites, owners) <==> exists i :: 0 <= i < |sites| && owners[i] == Some(r.id) && sites[i].e == r.value
  {
    if sites != [] {
      OwnedAre(sites[1..], owners[1..], r);
      if i :| 0 <= i < |sites| && owners[i] == Some(r.id) && sites[i].e == r.value {
        if i > 0 { assert owners[1..][i - 1] == Some(r.id) && sites[1..][i - 1].e == r.value; }
      }
      if i :| 0 <= i < |sites| - 1 && owners[1..][i] == Some(r.id) && sites[1..][i].e == r.value {
        assert owners[i + 1] == Some(r.id) && sites[i + 1].e == r.value;
      }
    }
  }

  lemma {:induction false} CountsSome(rs: seq<Record>, id: nat, kind: Kind)
    ensures Count(rs, id, kind, Classify) >= 1 <==> exists r :: r in rs && r.id == id && Classify(r.value) == kind
  {
    if rs != [] {
      CountsSome(rs[1..], id, kind);
      assert rs[0] in rs;
    }
  }

  lemma KindIs(e: Expr)
    ensures Classify(e) == BoolValue <==> !TrapsFirst(e) && IsTyped(e)
    ensures Classify(e) == ZeroOneValue <==> !TrapsFirst(e) && IsBit(e)
    ensures ZeroOne(e) == if IsBit(e) then Some(e.value == 1) else None
  {
    NeverRootedExactlyWhen(e);
  }

  /** Some value of the binding is of this kind. */
  ghost predicate HasValue(sites: seq<Site>, owners: seq<Option<nat>>, id: nat, kind: Kind)
    requires |owners| == |sites|
  {
    exists i :: 0 <= i < |sites| && owners[i] == Some(id) && Classify(sites[i].e) == kind
  }

  lemma CountsValues(sites: seq<Site>, owners: seq<Option<nat>>, id: nat, kind: Kind)
    requires |owners| == |sites|
    ensures Count(Owned(sites, owners), id, kind, Classify) >= 1 <==> HasValue(sites, owners, id, kind)
  {
    var rs := Owned(sites, owners);
    CountsSome(rs, id, kind);
    if r :| r in rs && r.id == id && Classify(r.value) == kind { OwnedAre(sites, owners, r); }
    if i :| 0 <= i < |sites| && owners[i] == Some(id) && Classify(sites[i].e) == kind {
      OwnedAre(sites, owners, Record(id, sites[i].e));
    }
  }

  /** The bindings that the pass unifies are exactly those. */
  lemma WinsExactlyWhen(sites: seq<Site>, owners: seq<Option<nat>>, id: nat)
    requires |owners| == |sites|
    ensures id in Winners(Owned(sites, owners), Classify) <==> IsReallyBool(sites, owners, id)
  {
    WinsIs(Owned(sites, owners), id);
    CountsValues(sites, owners, id, BoolValue);
    CountsValues(sites, owners, id, ZeroOneValue);
    CountsValues(sites, owners, id, OtherValue);
    ValuesAre(sites, owners, id);
  }

  lemma ValuesAre(sites: seq<Site>, owners: seq<Option<nat>>, id: nat)
    requires |owners| == |sites|
    ensures IsReallyBool(sites, owners, id) <==>
            HasValue(sites, owners, id, BoolValue) && HasValue(sites, owners, id, ZeroOneValue) && !HasValue(sites, owners, id, OtherValue)
  {
    forall i | 0 <= i < |sites|
      ensures Classify(sites[i].e) == BoolValue <==> !TrapsFirst(sites[i].e) && IsTyped(sites[i].e)
      ensures Classify(sites[i].e) == ZeroOneValue <==> !TrapsFirst(sites[i].e) && IsBit(sites[i].e)
    {
      KindIs(sites[i].e);
    }
  }

  lemma WinsIs(rs: seq<Record>, id: nat)
    ensures id in Winners(rs, Classify) <==> Wins(rs, id, Classify)
  {
    if Wins(rs, id, Classify) { CountsSome(rs, id, BoolValue); }
  }

  // ---------------------------------------------------------------------
  // The whole pass
  // ---------------------------------------------------------------------

  /** What a value becomes. */
  ghost function Unified(sites: seq<Site>, owners: seq<Option<nat>>, i: nat): Expr
    requires |owners| == |sites| && i < |sites|
  {
    if owners[i].Some? && IsReallyBool(sites, owners, owners[i].value) && IsBit(sites[i].e)
    then BoolLit(sites[i].e.value == 1) else sites[i].e
  }

  /** The pass writes `false` and `true` for the 0 and 1 of the really boolean bindings, and changes
      nothing else. */
  lemma UnifiesExactly(ss: seq<Stmt>)
    ensures var out, sites, owners := Unify(ss), AllSites(ss), AllOwners(ss);
            && Blank(out) == Blank(ss) && |owners| == |sites| == |AllSites(out)|
            && forall i :: 0 <= i < |sites| ==> AllSites(out)[i] == Site(Unified(sites, owners, i), sites[i].role, sites[i].inFor)
  {
    var sites, owners := AllSites(ss), AllOwners(ss);
    var change := Boolify(WinnersOf(ss));
    forall x: string ensures Resolve(TOP_LEVEL, x) == None { assert TOP_LEVEL[..0] == []; }
    WalkIs(ss, 0, TOP_LEVEL, map[], change, false);
    forall i | 0 <= i < |sites|
      ensures AllSites(Unify(ss))[i] == Site(Unified(sites, owners, i), sites[i].role, sites[i].inFor)
    {
      if owners[i].Some? { WinsExactlyWhen(sites, owners, owners[i].value); }
      KindIs(sites[i].e);
    }
  }
}
