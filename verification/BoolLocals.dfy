/** Unifying locals that are really booleans (`unify_bool_locals`): a binding with one
    boolean value and otherwise only the integers 0 and 1 gets boolean literals. */
module BoolLocals {
  import opened Ir
  import opened Semantics
  import opened Simulation

  predicate IsBoolTyped(e: Expr) {
    match e
    case Unary(op, _) => op.StorageHas? || op == Not
    case BoolLit(_) => true
    case Binary(op, _, _) => IsComparison(op) || op == And || op == Or
    case MethodCall(_, f, _) =>
      f in {"contains_key", "contains", "is_empty", "pairing_check", "g1_is_in_subgroup", "g2_is_in_subgroup", "is_none", "is_some"}
    case _ => false
  }

  /** The integer encoding of a boolean. */
  function ZeroOne(e: Expr): Option<bool> {
    if e.Lit? && e.kind != U128 && e.kind != I128 && (e.value == 0 || e.value == 1)
    then Some(e.value == 1) else None
  }

  // ---------------------------------------------------------------------
  // Bindings
  // ---------------------------------------------------------------------

  /** Visible binding ids, innermost scope last. */
  type Scopes = seq<map<string, nat>>

  function Resolve(scopes: Scopes, x: string): Option<nat> {
    if scopes == [] then None
    else
      var top := scopes[|scopes| - 1];
      if x in top then Some(top[x]) else Resolve(scopes[..|scopes| - 1], x)
  }

  function Declare(scopes: Scopes, x: string, id: nat): (r: Scopes)
    requires scopes != []
    ensures |r| == |scopes|
  {
    var n := |scopes| - 1;
    scopes[..n] + [scopes[n][x := id]]
  }

  /** How many bindings a statement introduces, at any depth. */
  function Binders(s: Stmt): nat
    decreases s, 1
  {
    match s
    case Let(_, _, _) => 1
    case If(_, a, b) => BindersAll(a) + BindersAll(b)
    case Match(_, arms) => BindersArms(arms)
    case For(_, _, _, _, b) => 1 + BindersAll(b)
    case Loop(b) => BindersAll(b)
    case Block(b) => BindersAll(b)
    case _ => 0
  }

  function BindersAll(ss: seq<Stmt>): nat
    decreases ss, 0
  {
    if ss == [] then 0 else Binders(ss[0]) + BindersAll(ss[1..])
  }

  function PatternNames(p: Pattern): seq<string> {
    if p.EnumVariant? then p.bindings else []
  }

  function BindersArms(arms: seq<Arm>): nat
    decreases arms, 0
  {
    if arms == [] then 0 else BindersArm(arms[0]) + BindersArms(arms[1..])
  }

  function BindersArm(arm: Arm): nat
    decreases arm, 1
  {
    |PatternNames(arm.pattern)| + BindersAll(arm.body)
  }

  /** The scope that an arm opens: its names get consecutive ids. */
  function ArmScope(names: seq<string>, next: nat): (m: map<string, nat>)
    decreases |names|
  {
    if names == [] then map[]
    else var n := |names| - 1; ArmScope(names[..n], next)[names[n] := next + n]
  }

  /** The scopes after a statement; only a `let` leaves a trace. */
  function After(s: Stmt, next: nat, scopes: Scopes): (r: Scopes)
    requires scopes != []
    ensures |r| == |scopes|
  {
    if s.Let? then Declare(scopes, s.name, next) else scopes
  }

  function AfterAll(ss: seq<Stmt>, next: nat, scopes: Scopes): (r: Scopes)
    requires scopes != []
    ensures |r| == |scopes|
  {
    if ss == [] then scopes else AfterAll(ss[1..], next + Binders(ss[0]), After(ss[0], next, scopes))
  }

  // ---------------------------------------------------------------------
  // Evidence
  // ---------------------------------------------------------------------

  /** A value given to a binding by its `let` or by an assignment. */
  datatype Record = Record(id: nat, value: Expr)

  function Records(s: Stmt, next: nat, scopes: Scopes): seq<Record>
    requires scopes != []
    decreases s, 1
  {
    match s
    case Let(_, _, e) => [Record(next, e)]
    case Assign(x, e) => (match Resolve(scopes, x) case Some(id) => [Record(id, e)] case None => [])
    case If(_, a, b) =>
      RecordsAll(a, next, scopes + [map[]]) + RecordsAll(b, next + BindersAll(a), scopes + [map[]])
    case Match(_, arms) => RecordsArms(arms, next, scopes)
    case For(x, _, _, _, b) => RecordsAll(b, next + 1, scopes + [map[x := next]])
    case Loop(b) => RecordsAll(b, next, scopes + [map[]])
    case Block(b) => RecordsAll(b, next, scopes + [map[]])
    case _ => []
  }

  function RecordsAll(ss: seq<Stmt>, next: nat, scopes: Scopes): seq<Record>
    requires scopes != []
    decreases ss, 0
  {
    if ss == [] then []
    else Records(ss[0], next, scopes) + RecordsAll(ss[1..], next + Binders(ss[0]), After(ss[0], next, scopes))
  }

  function RecordsArms(arms: seq<Arm>, next: nat, scopes: Scopes): seq<Record>
    requires scopes != []
    decreases arms, 0
  {
    if arms == [] then []
    else RecordsArm(arms[0], next, scopes) + RecordsArms(arms[1..], next + BindersArm(arms[0]), scopes)
  }

  function RecordsArm(arm: Arm, next: nat, scopes: Scopes): seq<Record>
    requires scopes != []
    decreases arm, 1
  {
    var names := PatternNames(arm.pattern);
    RecordsAll(arm.body, next + |names|, scopes + [ArmScope(names, next)])
  }

  datatype Kind = BoolValue | ZeroOneValue | OtherValue

  /** A value that traps says nothing about the type of its binding. */
  function Classify(e: Expr): Kind {
    if IsNeverRooted(e) then OtherValue
    else if IsBoolTyped(e) then BoolValue
    else if ZeroOne(e).Some? then ZeroOneValue
    else OtherValue
  }

  type Classifier = Expr -> Kind

  /** How many of the values recorded for a binding are of a kind. */
  function Count(rs: seq<Record>, id: nat, kind: Kind, classify: Classifier): nat {
    if rs == [] then 0
    else (if rs[0].id == id && classify(rs[0].value) == kind then 1 else 0) + Count(rs[1..], id, kind, classify)
  }

  /** One boolean value, one zero or one, and nothing else. */
  predicate Wins(rs: seq<Record>, id: nat, classify: Classifier) {
    && Count(rs, id, BoolValue, classify) >= 1
    && Count(rs, id, ZeroOneValue, classify) >= 1
    && Count(rs, id, OtherValue, classify) == 0
  }

  function Winners(rs: seq<Record>, classify: Classifier): set<nat> {
    set r | r in rs && Wins(rs, r.id, classify) :: r.id
  }

  // ---------------------------------------------------------------------
  // The rewrite
  // ---------------------------------------------------------------------

  /** A change to the values given to bindings. */
  type Change = (nat, Expr) -> Expr

  function Boolify(winners: set<nat>): Change {
    (id: nat, e: Expr) => if id in winners && ZeroOne(e).Some? then BoolLit(ZeroOne(e).value) else e
  }

  function Rewrite(s: Stmt, next: nat, scopes: Scopes, change: Change): Stmt
    requires scopes != []
    decreases s, 1
  {
    match s
    case Let(x, m, e) => Let(x, m, change(next, e))
    case Assign(x, e) =>
      (match Resolve(scopes, x) case Some(id) => Assign(x, change(id, e)) case None => s)
    case If(c, a, b) =>
      If(c, RewriteAll(a, next, scopes + [map[]], change), RewriteAll(b, next + BindersAll(a), scopes + [map[]], change))
    case Match(e, arms) => Match(e, RewriteArms(arms, next, scopes, change))
    case For(x, lo, hi, step, b) => For(x, lo, hi, step, RewriteAll(b, next + 1, scopes + [map[x := next]], change))
    case Loop(b) => Loop(RewriteAll(b, next, scopes + [map[]], change))
    case Block(b) => Block(RewriteAll(b, next, scopes + [map[]], change))
    case _ => s
  }

  function RewriteAll(ss: seq<Stmt>, next: nat, scopes: Scopes, change: Change): (r: seq<Stmt>)
    requires scopes != []
    ensures |r| == |ss|
    decreases ss, 0
  {
    if ss == [] then []
    else [Rewrite(ss[0], next, scopes, change)] +
         RewriteAll(ss[1..], next + Binders(ss[0]), After(ss[0], next, scopes), change)
  }

  function RewriteArms(arms: seq<Arm>, next: nat, scopes: Scopes, change: Change): (r: seq<Arm>)
    requires scopes != []
    ensures |r| == |arms|
    decreases arms, 0
  {
    if arms == [] then []
    else [RewriteArm(arms[0], next, scopes, change)] + RewriteArms(arms[1..], next + BindersArm(arms[0]), scopes, change)
  }

  function RewriteArm(arm: Arm, next: nat, scopes: Scopes, change: Change): Arm
    requires scopes != []
    decreases arm, 1
  {
    var names := PatternNames(arm.pattern);
    Arm(arm.pattern, RewriteAll(arm.body, next + |names|, scopes + [ArmScope(names, next)], change))
  }

  const TOP_LEVEL: Scopes := [map[]]

  function WinnersOf(ss: seq<Stmt>): set<nat> { Winners(RecordsAll(ss, 0, TOP_LEVEL), Classify) }

  /** The whole pass. */
  function Unify(ss: seq<Stmt>): seq<Stmt> { RewriteAll(ss, 0, TOP_LEVEL, Boolify(WinnersOf(ss))) }

  // ---------------------------------------------------------------------
  // The walker
  // ---------------------------------------------------------------------

  datatype Tally = Tally(bools: nat, zeroOnes: nat, others: nat) {
    function Of(kind: Kind): nat {
      match kind
      case BoolValue => bools
      case ZeroOneValue => zeroOnes
      case OtherValue => others
    }

    function Add(kind: Kind): Tally {
      match kind
      case BoolValue => this.(bools := bools + 1)
      case ZeroOneValue => this.(zeroOnes := zeroOnes + 1)
      case OtherValue => this.(others := others + 1)
    }
  }

  type Findings = map<nat, Tally>

  function Found(evidence: Findings, id: nat, kind: Kind): nat {
    if id in evidence then evidence[id].Of(kind) else 0
  }

  /** `evidence` is `before` with the records `rs` added. */
  ghost predicate Grown(before: Findings, rs: seq<Record>, evidence: Findings, classify: Classifier) {
    && (forall id: nat, kind :: Found(evidence, id, kind) == Found(before, id, kind) + Count(rs, id, kind, classify))
    && (forall id: nat :: id in evidence <==> id in before || Recorded(rs, id))
  }

  ghost predicate Recorded(rs: seq<Record>, id: nat) { exists r :: r in rs && r.id == id }

  lemma {:induction false} CountAppend(rs: seq<Record>, ts: seq<Record>, id: nat, kind: Kind, classify: Classifier)
    ensures Count(rs + ts, id, kind, classify) == Count(rs, id, kind, classify) + Count(ts, id, kind, classify)
  {
    if rs == [] {
      assert rs + ts == ts;
    } else {
      assert (rs + ts)[1..] == rs[1..] + ts;
      CountAppend(rs[1..], ts, id, kind, classify);
    }
  }

  lemma GrownTwice(a: Findings, rs: seq<Record>, b: Findings, ts: seq<Record>, c: Findings, classify: Classifier)
    requires Grown(a, rs, b, classify) && Grown(b, ts, c, classify)
    ensures Grown(a, rs + ts, c, classify)
  {
    forall id: nat, kind ensures Found(c, id, kind) == Found(a, id, kind) + Count(rs + ts, id, kind, classify) {
      CountAppend(rs, ts, id, kind, classify);
    }
    forall id: nat ensures Recorded(rs + ts, id) <==> Recorded(rs, id) || Recorded(ts, id) {}
  }

  /** One class serves both walks: gathering evidence while `winners` is absent, rewriting
      once it is given. */
  class Walker {
    var nextId: nat
    var scopes: Scopes
    var evidence: Findings
    const winners: Option<set<nat>>
    const classify: Classifier

    constructor (winners: Option<set<nat>>, classify: Classifier)
      ensures nextId == 0 && scopes == TOP_LEVEL && evidence == map[]
      ensures this.winners == winners && this.classify == classify
    {
      nextId, scopes, evidence := 0, [map[]], map[];
      this.winners, this.classify := winners, classify;
    }

    /** What a walk does to a list of values: while gathering, the evidence grows by them and
        the tree stays; while rewriting, the tree is changed and the evidence stays. */
    ghost predicate Did(rs: seq<Record>, before: Findings)
      reads this
    {
      if winners.None? then Grown(before, rs, evidence, classify) else evidence == before
    }

    ghost function TheChange(): Change {
      if winners.None? then (id, e) => e else Boolify(winners.value)
    }

    method Visit(id: nat, value: Expr) returns (r: Expr)
      modifies this`evidence
      ensures r == TheChange()(id, value) && Did([Record(id, value)], old(evidence))
    {
      r := value;
      match winners {
        case None =>
          var t := if id in evidence then evidence[id] else Tally(0, 0, 0);
          evidence := evidence[id := t.Add(classify(value))];
          ghost var rs := [Record(id, value)];
          assert rs[1..] == [] && rs[0] in rs;
        case Some(w) => if id in w && ZeroOne(value).Some? { r := BoolLit(ZeroOne(value).value); }
      }
    }

    method WalkStmt(s: Stmt) returns (r: Stmt)
      requires scopes != []
      modifies this
      ensures nextId == old(nextId) + Binders(s) && scopes == After(s, old(nextId), old(scopes))
      ensures r == Rewrite(s, old(nextId), old(scopes), TheChange())
      ensures Did(Records(s, old(nextId), old(scopes)), old(evidence))
      decreases s, 1
    {
      r := s;
      match s {
        case Let(_, _, _) => r := WalkBinding(s);
        case Assign(_, _) => r := WalkBinding(s);
        case If(_, _, _) => r := WalkIf(s);
        case Match(e, arms) =>
          var arms' := WalkArms(arms);
          r := Match(e, arms');
        case For(_, _, _, _, _) => r := WalkFor(s);
        case Loop(b) =>
          var b' := WalkScope(b, map[]);
          r := Loop(b');
        case Block(b) =>
          var b' := WalkScope(b, map[]);
          r := Block(b');
        case _ =>
      }
    }

    method WalkBinding(s: Stmt) returns (r: Stmt)
      requires (s.Let? || s.Assign?) && scopes != []
      modifies this
      ensures nextId == old(nextId) + Binders(s) && scopes == After(s, old(nextId), old(scopes))
      ensures r == Rewrite(s, old(nextId), old(scopes), TheChange())
      ensures Did(Records(s, old(nextId), old(scopes)), old(evidence))
    {
      r := s;
      match s {
        case Let(x, m, e) =>
          var id := nextId;
          nextId := nextId + 1;
          var v := Visit(id, e);
          r := Let(x, m, v);
          scopes := Declare(scopes, x, id);
        case Assign(x, e) =>
          var target := Resolve(scopes, x);
          if target.Some? {
            var v := Visit(target.value, e);
            r := Assign(x, v);
          }
      }
    }

    method WalkFor(s: Stmt) returns (r: Stmt)
      requires s.For? && scopes != []
      modifies this
      ensures nextId == old(nextId) + Binders(s) && scopes == old(scopes)
      ensures r == Rewrite(s, old(nextId), old(scopes), TheChange())
      ensures Did(Records(s, old(nextId), old(scopes)), old(evidence))
      decreases s, 0
    {
      var id := nextId;
      nextId := nextId + 1;
      var body := WalkScope(s.body, map[s.loopVar := id]);
      r := For(s.loopVar, s.start, s.end, s.step, body);
    }

    method WalkIf(s: Stmt) returns (r: Stmt)
      requires s.If? && scopes != []
      modifies this
      ensures nextId == old(nextId) + Binders(s) && scopes == old(scopes)
      ensures r == Rewrite(s, old(nextId), old(scopes), TheChange())
      ensures Did(Records(s, old(nextId), old(scopes)), old(evidence))
      decreases s, 0
    {
      var a := WalkScope(s.thenBody, map[]);
      ghost var middle, next := evidence, nextId;
      var b := WalkScope(s.elseBody, map[]);
      r := If(s.cond, a, b);
      if winners.None? {
        GrownTwice(old(evidence), RecordsAll(s.thenBody, old(nextId), old(scopes) + [map[]]), middle,
                   RecordsAll(s.elseBody, next, old(scopes) + [map[]]), evidence, classify);
      }
    }

    method WalkScope(ss: seq<Stmt>, scope: map<string, nat>) returns (r: seq<Stmt>)
      requires scopes != []
      modifies this
      ensures nextId == old(nextId) + BindersAll(ss) && scopes == old(scopes)
      ensures r == RewriteAll(ss, old(nextId), old(scopes) + [scope], TheChange())
      ensures Did(RecordsAll(ss, old(nextId), old(scopes) + [scope]), old(evidence))
      decreases ss, 2
    {
      ghost var outer := scopes;
      scopes := scopes + [scope];
      r := Walk(ss);
      AfterKeepsOuter(ss, old(nextId), outer + [scope]);
      scopes := scopes[..|scopes| - 1];
      assert scopes == outer;
    }

    method WalkArms(arms: seq<Arm>) returns (r: seq<Arm>)
      requires scopes != []
      modifies this
      ensures nextId == old(nextId) + BindersArms(arms) && scopes == old(scopes)
      ensures r == RewriteArms(arms, old(nextId), old(scopes), TheChange())
      ensures Did(RecordsArms(arms, old(nextId), old(scopes)), old(evidence))
      decreases arms, 0
    {
      r := [];
      if arms == [] { return; }
      var arm := WalkArm(arms[0]);
      ghost var middle, next := evidence, nextId;
      var rest := WalkArms(arms[1..]);
      r := [arm] + rest;
      if winners.None? {
        GrownTwice(old(evidence), RecordsArm(arms[0], old(nextId), old(scopes)), middle,
                   RecordsArms(arms[1..], next, old(scopes)), evidence, classify);
      }
    }

    method WalkArm(arm: Arm) returns (r: Arm)
      requires scopes != []
      modifies this
      ensures nextId == old(nextId) + BindersArm(arm) && scopes == old(scopes)
      ensures r == RewriteArm(arm, old(nextId), old(scopes), TheChange())
      ensures Did(RecordsArm(arm, old(nextId), old(scopes)), old(evidence))
      decreases arm, 3
    {
      var scope := OpenArm(PatternNames(arm.pattern));
      var body := WalkScope(arm.body, scope);
      r := Arm(arm.pattern, body);
    }

    method OpenArm(names: seq<string>) returns (scope: map<string, nat>)
      modifies this`nextId
      ensures nextId == old(nextId) + |names| && scope == ArmScope(names, old(nextId))
    {
      scope := map[];
      for i := 0 to |names|
        invariant nextId == old(nextId) + i
        invariant scope == ArmScope(names[..i], old(nextId))
      {
        assert names[..i + 1][..i] == names[..i];
        scope := scope[names[i] := nextId];
        nextId := nextId + 1;
      }
      assert names[..|names|] == names;
    }

    method Walk(ss: seq<Stmt>) returns (r: seq<Stmt>)
      requires scopes != []
      modifies this
      ensures nextId == old(nextId) + BindersAll(ss) && scopes == AfterAll(ss, old(nextId), old(scopes))
      ensures r == RewriteAll(ss, old(nextId), old(scopes), TheChange())
      ensures Did(RecordsAll(ss, old(nextId), old(scopes)), old(evidence))
      decreases ss, 0
    {
      r := [];
      if ss == [] { return; }
      var s := WalkStmt(ss[0]);
      ghost var middle, next, sc := evidence, nextId, scopes;
      var rest := Walk(ss[1..]);
      r := [s] + rest;
      if winners.None? {
        GrownTwice(old(evidence), Records(ss[0], old(nextId), old(scopes)), middle, RecordsAll(ss[1..], next, sc), evidence, classify);
      }
    }
  }

  /** Statements only add to the innermost scope. */
  lemma {:induction false} AfterKeepsOuter(ss: seq<Stmt>, next: nat, scopes: Scopes)
    requires scopes != []
    ensures AfterAll(ss, next, scopes)[..|scopes| - 1] == scopes[..|scopes| - 1]
  {
    if ss != [] { AfterKeepsOuter(ss[1..], next + Binders(ss[0]), After(ss[0], next, scopes)); }
  }

  predicate TallyWins(t: Tally) { t.bools >= 1 && t.zeroOnes >= 1 && t.others == 0 }

  lemma WinnersFound(rs: seq<Record>, evidence: Findings, classify: Classifier)
    requires Grown(map[], rs, evidence, classify)
    ensures (set id | id in evidence && TallyWins(evidence[id])) == Winners(rs, classify)
  {
    forall id: nat ensures id in evidence && TallyWins(evidence[id]) <==> id in Winners(rs, classify) {
      assert Found(evidence, id, BoolValue) == Count(rs, id, BoolValue, classify);
      assert Found(evidence, id, ZeroOneValue) == Count(rs, id, ZeroOneValue, classify);
      assert Found(evidence, id, OtherValue) == Count(rs, id, OtherValue, classify);
      assert id in evidence <==> Recorded(rs, id);
    }
  }

  /** The pass: two walks over the same tree. */
  method UnifyBoolLocals(stmts: seq<Stmt>) returns (r: seq<Stmt>)
    ensures r == Unify(stmts)
  {
    var analyze := new Walker(None, Classify);
    var same := analyze.Walk(stmts);
    var evidence := analyze.evidence;
    var winners := set id | id in evidence && TallyWins(evidence[id]);
    WinnersFound(RecordsAll(stmts, 0, TOP_LEVEL), evidence, Classify);
    assert winners == WinnersOf(stmts);
    if winners == {} {
      ChangeNothing(stmts, 0, TOP_LEVEL, Boolify({}));
      return stmts;
    }
    var rewrite := new Walker(Some(winners), Classify);
    r := rewrite.Walk(stmts);
  }

  ghost predicate Idle(change: Change) { forall id: nat, e :: change(id, e) == e }

  lemma {:induction false} ChangeNothingStmt(s: Stmt, next: nat, scopes: Scopes, change: Change)
    requires scopes != [] && Idle(change)
    ensures Rewrite(s, next, scopes, change) == s
    decreases s, 1
  {
    match s
    case If(_, a, b) =>
      ChangeNothing(a, next, scopes + [map[]], change);
      ChangeNothing(b, next + BindersAll(a), scopes + [map[]], change);
    case Match(_, arms) => ChangeNothingArms(arms, next, scopes, change);
    case For(x, _, _, _, b) => ChangeNothing(b, next + 1, scopes + [map[x := next]], change);
    case Loop(b) => ChangeNothing(b, next, scopes + [map[]], change);
    case Block(b) => ChangeNothing(b, next, scopes + [map[]], change);
    case _ =>
  }

  lemma {:induction false} ChangeNothing(ss: seq<Stmt>, next: nat, scopes: Scopes, change: Change)
    requires scopes != [] && Idle(change)
    ensures RewriteAll(ss, next, scopes, change) == ss
    decreases ss, 0
  {
    if ss != [] {
      ChangeNothingStmt(ss[0], next, scopes, change);
      ChangeNothing(ss[1..], next + Binders(ss[0]), After(ss[0], next, scopes), change);
    }
  }

  lemma {:induction false} ChangeNothingArms(arms: seq<Arm>, next: nat, scopes: Scopes, change: Change)
    requires scopes != [] && Idle(change)
    ensures RewriteArms(arms, next, scopes, change) == arms
    decreases arms, 0
  {
    if arms != [] {
      var names := PatternNames(arms[0].pattern);
      ChangeNothing(arms[0].body, next + |names|, scopes + [ArmScope(names, next)], change);
      ChangeNothingArms(arms[1..], next + BindersArm(arms[0]), scopes, change);
    }
  }

  // ---------------------------------------------------------------------
  // Ids are lexical bindings
  // ---------------------------------------------------------------------

  /** Statement `j` is the nearest `let` of `x` before statement `k` of the block. */
  predicate NearestLet(ss: seq<Stmt>, k: nat, x: string, j: nat) {
    && j < k <= |ss| && ss[j].Let? && ss[j].name == x
    && forall i | j < i < k :: !(ss[i].Let? && ss[i].name == x)
  }

  lemma ResolveDeclared(scopes: Scopes, x: string, id: nat, y: string)
    requires scopes != []
    ensures Resolve(Declare(scopes, x, id), y) == if x == y then Some(id) else Resolve(scopes, y)
  {
    var n := |scopes| - 1;
    assert Declare(scopes, x, id)[..n] == scopes[..n];
  }

  /** Within a block a name means its nearest preceding `let` there, whose id is its rank
      among all binders in program order; failing that, what it meant outside. */
  lemma {:induction false} LexicalInBlock(ss: seq<Stmt>, k: nat, next: nat, scopes: Scopes, x: string)
    requires scopes != [] && k <= |ss|
    ensures forall j: nat | NearestLet(ss, k, x, j) ::
              Resolve(AfterAll(ss[..k], next, scopes), x) == Some(next + BindersAll(ss[..j]))
    ensures (forall j | 0 <= j < k :: !(ss[j].Let? && ss[j].name == x)) ==>
              Resolve(AfterAll(ss[..k], next, scopes), x) == Resolve(scopes, x)
  {
    if k > 0 {
      LexicalInBlock(ss, k - 1, next, scopes, x);
      ResolveAfter(ss, k, next, scopes, x);
      forall j: nat | NearestLet(ss, k, x, j)
        ensures Resolve(AfterAll(ss[..k], next, scopes), x) == Some(next + BindersAll(ss[..j]))
      {
        if j < k - 1 { assert NearestLet(ss, k - 1, x, j); }
      }
    }
  }

  /** What one more statement of a block does to a name. */
  lemma ResolveAfter(ss: seq<Stmt>, k: nat, next: nat, scopes: Scopes, x: string)
    requires scopes != [] && 0 < k <= |ss|
    ensures var s := ss[k - 1];
            Resolve(AfterAll(ss[..k], next, scopes), x) ==
            if s.Let? && s.name == x then Some(next + BindersAll(ss[..k - 1])) else Resolve(AfterAll(ss[..k - 1], next, scopes), x)
  {
    AfterLast(ss[..k], next, scopes);
    assert ss[..k][..k - 1] == ss[..k - 1];
    var s := ss[k - 1];
    if s.Let? { ResolveDeclared(AfterAll(ss[..k - 1], next, scopes), s.name, next + BindersAll(ss[..k - 1]), x); }
  }

  lemma {:induction false} AfterLast(ss: seq<Stmt>, next: nat, scopes: Scopes)
    requires scopes != [] && ss != []
    ensures var n := |ss| - 1;
            AfterAll(ss, next, scopes) == After(ss[n], next + BindersAll(ss[..n]), AfterAll(ss[..n], next, scopes))
  {
    var n := |ss| - 1;
    if n > 0 {
      AfterLast(ss[1..], next + Binders(ss[0]), After(ss[0], next, scopes));
      assert ss[1..][..n - 1] == ss[..n][1..];
      assert ss[1..][n - 1] == ss[n];
    }
  }

  /** Entering a scope hides exactly the names it binds: the loop variable, and the last of
      the arm's bindings with a given name. */
  lemma LexicalOnEntry(scopes: Scopes, scope: map<string, nat>, x: string)
    ensures Resolve(scopes + [scope], x) == if x in scope then Some(scope[x]) else Resolve(scopes, x)
  {
    assert (scopes + [scope])[..|scopes|] == scopes;
  }

  lemma {:induction false} LexicalInArm(names: seq<string>, next: nat, x: string)
    ensures x in ArmScope(names, next) <==> x in names
    ensures forall i | 0 <= i < |names| && names[i] == x && (forall j | i < j < |names| :: names[j] != x) ::
              ArmScope(names, next)[x] == next + i
    decreases |names|
  {
    if names != [] {
      var n := |names| - 1;
      LexicalInArm(names[..n], next, x);
      assert names == names[..n] + [names[n]];
      forall i | 0 <= i < |names| && names[i] == x && (forall j | i < j < |names| :: names[j] != x)
        ensures ArmScope(names, next)[x] == next + i
      {
        if i < n { assert names[n] != x && names[..n][i] == x; }
      }
    }
  }

  // ---------------------------------------------------------------------
  // What the rewrite does to the records
  // ---------------------------------------------------------------------

  /** The same records with changed values. */
  function Changed(rs: seq<Record>, change: Change): seq<Record> {
    if rs == [] then [] else [Record(rs[0].id, change(rs[0].id, rs[0].value))] + Changed(rs[1..], change)
  }

  lemma {:induction false} ChangedAt(rs: seq<Record>, change: Change)
    ensures |Changed(rs, change)| == |rs|
    ensures forall i :: 0 <= i < |rs| ==> Changed(rs, change)[i] == Record(rs[i].id, change(rs[i].id, rs[i].value))
  {
    if rs != [] { ChangedAt(rs[1..], change); }
  }

  lemma {:induction false} ChangedAppend(rs: seq<Record>, ts: seq<Record>, change: Change)
    ensures Changed(rs + ts, change) == Changed(rs, change) + Changed(ts, change)
  {
    if rs == [] {
      assert rs + ts == ts;
    } else {
      assert (rs + ts)[1..] == rs[1..] + ts;
      ChangedAppend(rs[1..], ts, change);
    }
  }

  /** The second walk sees the bindings of the first: rewriting changes neither the ids nor
      the scopes nor which binding a value belongs to, only the values. */
  lemma {:induction false} RewriteStmtRecords(s: Stmt, next: nat, scopes: Scopes, change: Change)
    requires scopes != []
    ensures var s' := Rewrite(s, next, scopes, change);
            && Binders(s') == Binders(s) && After(s', next, scopes) == After(s, next, scopes)
            && Records(s', next, scopes) == Changed(Records(s, next, scopes), change)
    decreases s, 1
  {
    match s
    case If(_, _, _) => RewriteIfRecords(s, next, scopes, change);
    case Match(_, arms) => RewriteArmsRecords(arms, next, scopes, change);
    case For(x, _, _, _, b) => RewriteRecords(b, next + 1, scopes + [map[x := next]], change);
    case Loop(b) => RewriteRecords(b, next, scopes + [map[]], change);
    case Block(b) => RewriteRecords(b, next, scopes + [map[]], change);
    case _ =>
  }

  lemma {:induction false} RewriteIfRecords(s: Stmt, next: nat, scopes: Scopes, change: Change)
    requires s.If? && scopes != []
    ensures var s' := Rewrite(s, next, scopes, change);
            && Binders(s') == Binders(s)
            && Records(s', next, scopes) == Changed(Records(s, next, scopes), change)
    decreases s, 0
  {
    var inner, next' := scopes + [map[]], next + BindersAll(s.thenBody);
    var a, b := RewriteAll(s.thenBody, next, inner, change), RewriteAll(s.elseBody, next', inner, change);
    assert RecordsAll(a, next, inner) == Changed(RecordsAll(s.thenBody, next, inner), change) && BindersAll(a) == BindersAll(s.thenBody) by {
      RewriteRecords(s.thenBody, next, inner, change);
    }
    assert RecordsAll(b, next', inner) == Changed(RecordsAll(s.elseBody, next', inner), change) && BindersAll(b) == BindersAll(s.elseBody) by {
      RewriteRecords(s.elseBody, next', inner, change);
    }
    ChangedAppend(RecordsAll(s.thenBody, next, inner), RecordsAll(s.elseBody, next', inner), change);
    assert Rewrite(s, next, scopes, change) == If(s.cond, a, b);
  }

  lemma {:induction false} RewriteRecords(ss: seq<Stmt>, next: nat, scopes: Scopes, change: Change)
    requires scopes != []
    ensures var ss' := RewriteAll(ss, next, scopes, change);
            && BindersAll(ss') == BindersAll(ss) && AfterAll(ss', next, scopes) == AfterAll(ss, next, scopes)
            && RecordsAll(ss', next, scopes) == Changed(RecordsAll(ss, next, scopes), change)
    decreases ss, 0
  {
    if ss != [] {
      var next', scopes' := next + Binders(ss[0]), After(ss[0], next, scopes);
      var s', rest' := Rewrite(ss[0], next, scopes, change), RewriteAll(ss[1..], next', scopes', change);
      assert RewriteAll(ss, next, scopes, change) == [s'] + rest';
      RewriteStmtRecords(ss[0], next, scopes, change);
      RewriteRecords(ss[1..], next', scopes', change);
      ConsRecords(s', rest', next, scopes);
      RecordsFirst(ss, next, scopes);
      ChangedParts(Records(ss[0], next, scopes), Records(s', next, scopes),
                   RecordsAll(ss[1..], next', scopes'), RecordsAll(rest', next', scopes'), change);
    }
  }

  lemma ChangedParts(rs: seq<Record>, rs': seq<Record>, ts: seq<Record>, ts': seq<Record>, change: Change)
    requires rs' == Changed(rs, change) && ts' == Changed(ts, change)
    ensures rs' + ts' == Changed(rs + ts, change)
  {
    ChangedAppend(rs, ts, change);
  }

  lemma RecordsFirst(ss: seq<Stmt>, next: nat, scopes: Scopes)
    requires ss != [] && scopes != []
    ensures var next', scopes' := next + Binders(ss[0]), After(ss[0], next, scopes);
            && BindersAll(ss) == Binders(ss[0]) + BindersAll(ss[1..])
            && AfterAll(ss, next, scopes) == AfterAll(ss[1..], next', scopes')
            && RecordsAll(ss, next, scopes) == Records(ss[0], next, scopes) + RecordsAll(ss[1..], next', scopes')
  {
  }

  lemma ConsRecords(s: Stmt, rest: seq<Stmt>, next: nat, scopes: Scopes)
    requires scopes != []
    ensures var next', scopes' := next + Binders(s), After(s, next, scopes);
            && BindersAll([s] + rest) == Binders(s) + BindersAll(rest)
            && AfterAll([s] + rest, next, scopes) == AfterAll(rest, next', scopes')
            && RecordsAll([s] + rest, next, scopes) == Records(s, next, scopes) + RecordsAll(rest, next', scopes')
  {
    assert ([s] + rest)[1..] == rest;
  }

  lemma {:induction false} RewriteArmsRecords(arms: seq<Arm>, next: nat, scopes: Scopes, change: Change)
    requires scopes != []
    ensures var arms' := RewriteArms(arms, next, scopes, change);
            && BindersArms(arms') == BindersArms(arms)
            && RecordsArms(arms', next, scopes) == Changed(RecordsArms(arms, next, scopes), change)
    decreases arms, 0
  {
    if arms != [] {
      var next' := next + BindersArm(arms[0]);
      RewriteArmRecords(arms[0], next, scopes, change);
      RewriteArmsRecords(arms[1..], next', scopes, change);
      ChangedAppend(RecordsArm(arms[0], next, scopes), RecordsArms(arms[1..], next', scopes), change);
    }
  }

  lemma {:induction false} RewriteArmRecords(arm: Arm, next: nat, scopes: Scopes, change: Change)
    requires scopes != []
    ensures var arm' := RewriteArm(arm, next, scopes, change);
            && BindersArm(arm') == BindersArm(arm)
            && RecordsArm(arm', next, scopes) == Changed(RecordsArm(arm, next, scopes), change)
    decreases arm, 1
  {
    var names := PatternNames(arm.pattern);
    RewriteRecords(arm.body, next + |names|, scopes + [ArmScope(names, next)], change);
  }

  lemma {:induction false} Counted(rs: seq<Record>, i: nat, classify: Classifier)
    requires i < |rs|
    ensures Count(rs, rs[i].id, classify(rs[i].value), classify) >= 1
  {
    if i > 0 { Counted(rs[1..], i - 1, classify); }
  }

  lemma ClassifiedBoolean(e: Expr)
    requires Classify(e) != OtherValue
    ensures IsBoolTyped(e) || ZeroOne(e).Some?
    ensures ZeroOne(e).Some? ==> Classify(BoolLit(ZeroOne(e).value)) == BoolValue
    ensures ZeroOne(e).None? ==> Classify(e) == BoolValue
  {
  }

  /** A value of a winning binding is boolean once it has been changed. */
  lemma WinnerValue(rs: seq<Record>, i: nat)
    requires i < |rs| && rs[i].id in Winners(rs, Classify)
    ensures var e := Boolify(Winners(rs, Classify))(rs[i].id, rs[i].value);
            IsBoolTyped(e) && Classify(e) == BoolValue
  {
    Counted(rs, i, Classify);
    ClassifiedBoolean(rs[i].value);
  }

  /** Afterwards every value of a unified binding is boolean, and no other value changed. */
  lemma UnifiedBindingsAreBoolean(ss: seq<Stmt>)
    ensures var rs, rs' := RecordsAll(ss, 0, TOP_LEVEL), RecordsAll(Unify(ss), 0, TOP_LEVEL);
            && |rs'| == |rs|
            && forall i | 0 <= i < |rs| ::
                 && rs'[i].id == rs[i].id
                 && if rs[i].id in WinnersOf(ss) then IsBoolTyped(rs'[i].value) else rs'[i].value == rs[i].value
  {
    var rs, change := RecordsAll(ss, 0, TOP_LEVEL), Boolify(WinnersOf(ss));
    RewriteRecords(ss, 0, TOP_LEVEL, change);
    ChangedAt(rs, change);
    forall i | 0 <= i < |rs| && rs[i].id in WinnersOf(ss)
      ensures IsBoolTyped(change(rs[i].id, rs[i].value))
    {
      WinnerValue(rs, i);
    }
  }

  lemma {:induction false} ChangedCount(rs: seq<Record>, change: Change, id: nat, kind: Kind, classify: Classifier)
    ensures (forall e :: change(id, e) == e) ==> Count(Changed(rs, change), id, kind, classify) == Count(rs, id, kind, classify)
    ensures (forall i | 0 <= i < |rs| && rs[i].id == id :: classify(change(id, rs[i].value)) != kind) ==>
              Count(Changed(rs, change), id, kind, classify) == 0
  {
    if rs != [] {
      ChangedCount(rs[1..], change, id, kind, classify);
      assert Changed(rs, change)[1..] == Changed(rs[1..], change);
    }
  }

  lemma {:induction false} NotRecorded(rs: seq<Record>, id: nat, kind: Kind, classify: Classifier)
    requires !Recorded(rs, id)
    ensures Count(rs, id, kind, classify) == 0
  {
    if rs != [] {
      assert rs[0] in rs && rs[0].id != id;
      assert forall r | r in rs[1..] :: r in rs;
      NotRecorded(rs[1..], id, kind, classify);
    }
  }

  lemma NotAWinner(rs: seq<Record>, id: nat, classify: Classifier)
    requires id !in Winners(rs, classify)
    ensures !Wins(rs, id, classify)
  {
    if !Recorded(rs, id) { NotRecorded(rs, id, BoolValue, classify); }
  }

  lemma NoWinnerAfter(rs: seq<Record>, id: nat)
    ensures !Wins(Changed(rs, Boolify(Winners(rs, Classify))), id, Classify)
  {
    var winners, change := Winners(rs, Classify), Boolify(Winners(rs, Classify));
    if id in winners {
      forall i | 0 <= i < |rs| && rs[i].id == id ensures Classify(change(id, rs[i].value)) != ZeroOneValue {
        WinnerValue(rs, i);
      }
      ChangedCount(rs, change, id, ZeroOneValue, Classify);
    } else {
      NotAWinner(rs, id, Classify);
      ChangedCount(rs, change, id, BoolValue, Classify);
      ChangedCount(rs, change, id, ZeroOneValue, Classify);
      ChangedCount(rs, change, id, OtherValue, Classify);
    }
  }

  /** A second pass finds nothing to unify. */
  lemma UnifyIsIdempotent(ss: seq<Stmt>)
    ensures WinnersOf(Unify(ss)) == {} && Unify(Unify(ss)) == Unify(ss)
  {
    var rs := RecordsAll(ss, 0, TOP_LEVEL);
    RewriteRecords(ss, 0, TOP_LEVEL, Boolify(WinnersOf(ss)));
    forall id: nat ensures !Wins(RecordsAll(Unify(ss), 0, TOP_LEVEL), id, Classify) { NoWinnerAfter(rs, id); }
    ChangeNothing(Unify(ss), 0, TOP_LEVEL, Boolify({}));
  }

  // ---------------------------------------------------------------------
  // Meaning
  // ---------------------------------------------------------------------

  /** A change of values that no evaluation can tell. */
  ghost predicate Neutral(h: Host, change: Change) { forall id: nat, e :: SameValue(h, e, change(id, e)) }

  lemma BoolifyIsNeutral(h: Host, winners: set<nat>)
    ensures Neutral(h, Boolify(winners))
  {
  }

  lemma {:induction false} RewriteStmtAlike(h: Host, s: Stmt, next: nat, scopes: Scopes, change: Change)
    requires scopes != [] && Neutral(h, change)
    ensures Alike(h, s, Rewrite(s, next, scopes, change))
    decreases s, 1
  {
    match s
    case If(_, a, b) =>
      RewriteAllAlike(h, a, next, scopes + [map[]], change);
      RewriteAllAlike(h, b, next + BindersAll(a), scopes + [map[]], change);
    case Match(_, arms) => RewriteArmsAlike(h, arms, next, scopes, change);
    case For(x, _, _, _, b) => RewriteAllAlike(h, b, next + 1, scopes + [map[x := next]], change);
    case Loop(b) => RewriteAllAlike(h, b, next, scopes + [map[]], change);
    case Block(b) => RewriteAllAlike(h, b, next, scopes + [map[]], change);
    case _ =>
  }

  lemma {:induction false} RewriteAllAlike(h: Host, ss: seq<Stmt>, next: nat, scopes: Scopes, change: Change)
    requires scopes != [] && Neutral(h, change)
    ensures AlikeAll(h, ss, RewriteAll(ss, next, scopes, change))
    decreases ss, 0
  {
    if ss != [] {
      RewriteStmtAlike(h, ss[0], next, scopes, change);
      RewriteAllAlike(h, ss[1..], next + Binders(ss[0]), After(ss[0], next, scopes), change);
    }
  }

  lemma {:induction false} RewriteArmsAlike(h: Host, arms: seq<Arm>, next: nat, scopes: Scopes, change: Change)
    requires scopes != [] && Neutral(h, change)
    ensures AlikeArms(h, arms, RewriteArms(arms, next, scopes, change))
    decreases arms, 0
  {
    if arms != [] {
      var names := PatternNames(arms[0].pattern);
      RewriteAllAlike(h, arms[0].body, next + |names|, scopes + [ArmScope(names, next)], change);
      RewriteArmsAlike(h, arms[1..], next + BindersArm(arms[0]), scopes, change);
    }
  }

  /** At the level of wasm words the pass changes nothing, in any run with any host. */
  lemma UnifyPreservesMeaning(h: Host, fuel: nat, ss: seq<Stmt>, frames: Frames, trace: Trace)
    ensures ExecAll(h, fuel, Unify(ss), frames, trace) == ExecAll(h, fuel, ss, frames, trace)
  {
    BoolifyIsNeutral(h, WinnersOf(ss));
    RewriteAllAlike(h, ss, 0, TOP_LEVEL, Boolify(WinnersOf(ss)));
    ExecAllAlike(h, fuel, ss, Unify(ss), frames, trace);
  }
}
