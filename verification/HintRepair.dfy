/** Repairing unrecovered storage keys from observed execution hints
    (`unique_storage_hint_key_for_function`, `repair_unknown_storage_keys_*`). */
module HintRepair {
  import opened Ir
  import opened Recovery

  // ---------------------------------------------------------------------
  // The unique hint
  // ---------------------------------------------------------------------

  datatype HintValue =
    | HintBool(flag: bool)
    | HintInt(kind: LitKind, value: int)
    | HintSymbol(text: string)
    | HintString(text: string)
    | HintBytes(bytes: seq<int>)
    | HintVoid

  function HintExpr(v: HintValue): Expr {
    match v
    case HintBool(b) => BoolLit(b)
    case HintInt(kind, n) => Lit(kind, n)
    case HintSymbol(s) => Leaf(SymbolLiteral(s))
    case HintString(s) => Leaf(StringLiteral(s))
    case HintBytes(b) => Leaf(BytesLiteral(b))
    case HintVoid => Void
  }

  /** The storage keys recorded for one function; several recordings may exist. */
  type Hints = seq<seq<HintValue>>

  ghost predicate Hinted(hints: Hints, key: Expr) {
    exists i, j :: 0 <= i < |hints| && 0 <= j < |hints[i]| && HintExpr(hints[i][j]) == key
  }

  /** The key that all hints agree on. Neither their order nor their number matters. */
  method UniqueStorageHintKey(hints: Hints) returns (r: Option<Expr>)
    ensures r.Some? ==> Hinted(hints, r.value) && forall key :: Hinted(hints, key) ==> key == r.value
    ensures r.None? ==> (forall key :: !Hinted(hints, key)) || exists a, b :: Hinted(hints, a) && Hinted(hints, b) && a != b
  {
    r := None;
    for i := 0 to |hints|
      invariant r.Some? ==> Hinted(hints, r.value)
      invariant forall k, j :: 0 <= k < i && 0 <= j < |hints[k]| ==> r == Some(HintExpr(hints[k][j]))
    {
      for j := 0 to |hints[i]|
        invariant r.Some? ==> Hinted(hints, r.value)
        invariant forall k, l :: 0 <= k < i && 0 <= l < |hints[k]| ==> r == Some(HintExpr(hints[k][l]))
        invariant forall l :: 0 <= l < j ==> r == Some(HintExpr(hints[i][l]))
      {
        var key := HintExpr(hints[i][j]);
        assert Hinted(hints, key);
        match r {
          case None => r := Some(key);
          case Some(existing) => if existing != key { return None; }
        }
      }
    }
  }

  // ---------------------------------------------------------------------
  // The repair
  // ---------------------------------------------------------------------

  predicate IsEnvBuf(e: Expr) {
    e.MethodCall? && e.selector == "buf" && e.args == [] && e.receiver == Leaf(Env)
  }

  predicate IsFromMemory(f: string) {
    f == "symbol_new_from_linear_memory" || f == "string_new_from_linear_memory"
  }

  predicate IsLinearMemoryObjectKey(e: Expr) {
    match e
    case RawHostCall(m, f, _) => m == "Buf" && IsFromMemory(f)
    case MethodCall(receiver, f, _) => IsFromMemory(f) && IsEnvBuf(receiver)
    case _ => false
  }

  predicate IsRepairable(key: Expr) { key == UnknownVal || IsLinearMemoryObjectKey(key) }

  /** The nodes whose first child is a storage key. */
  predicate HasKey(e: Expr) {
    || e.StorageGet?
    || (e.Unary? && (e.uop.StorageHas? || e.uop.StorageRemove?))
    || (e.Binary? && e.bop.StorageSet?)
    || (e.Ternary? && e.top.StorageExtendTtl?)
  }

  function RepairedKids(e: Expr, key: Expr): (r: seq<Expr>)
    ensures |r| == |Children(e)|
    ensures forall i :: 0 <= i < |r| ==> r[i] == if i == 0 && HasKey(e) then RepairKey(Children(e)[i], key) else RepairExpr(Children(e)[i], key)
    decreases e, 0
  {
    seq(|Children(e)|, i requires 0 <= i < |Children(e)| =>
      if i == 0 && HasKey(e) then RepairKey(Children(e)[i], key) else RepairExpr(Children(e)[i], key))
  }

  function RepairExpr(e: Expr, key: Expr): Expr
    decreases e, 1
  {
    Rebuild(e, RepairedKids(e, key))
  }

  function RepairKey(old_: Expr, key: Expr): Expr
    decreases old_, 2
  {
    if IsRepairable(old_) then key else RepairExpr(old_, key)
  }

  /** The bounds of a `for` are left alone. */
  function RepairStmt(s: Stmt, key: Expr): Stmt
    decreases s, 1
  {
    match s
    case ExprStmt(e) => ExprStmt(RepairExpr(e, key))
    case Let(x, m, e) => Let(x, m, RepairExpr(e, key))
    case Assign(x, e) => Assign(x, RepairExpr(e, key))
    case Return(Some(e)) => Return(Some(RepairExpr(e, key)))
    case If(c, a, b) => If(RepairExpr(c, key), RepairAll(a, key), RepairAll(b, key))
    case Match(e, arms) => Match(RepairExpr(e, key), RepairArms(arms, key))
    case For(x, lo, hi, step, b) => For(x, lo, hi, step, RepairAll(b, key))
    case Loop(b) => Loop(RepairAll(b, key))
    case Block(b) => Block(RepairAll(b, key))
    case _ => s
  }

  function RepairAll(ss: seq<Stmt>, key: Expr): (r: seq<Stmt>)
    ensures |r| == |ss|
    decreases ss, 0
  {
    if ss == [] then [] else [RepairStmt(ss[0], key)] + RepairAll(ss[1..], key)
  }

  function RepairArms(arms: seq<Arm>, key: Expr): (r: seq<Arm>)
    ensures |r| == |arms|
    decreases arms, 0
  {
    if arms == [] then [] else [Arm(arms[0].pattern, RepairAll(arms[0].body, key))] + RepairArms(arms[1..], key)
  }

  lemma {:induction false} RepairAllAt(ss: seq<Stmt>, key: Expr, i: nat)
    requires i < |ss|
    ensures RepairAll(ss, key)[i] == RepairStmt(ss[i], key)
  {
    if i > 0 { RepairAllAt(ss[1..], key, i - 1); }
  }

  /** The repair: rewrites the statement list in place. */
  method RepairUnknownStorageKeys(stmts: array<Stmt>, key: Expr)
    modifies stmts
    ensures stmts[..] == RepairAll(old(stmts[..]), key)
  {
    ghost var was := stmts[..];
    for i := 0 to stmts.Length
      invariant forall k :: i <= k < stmts.Length ==> stmts[k] == was[k]
      invariant forall k :: 0 <= k < i ==> stmts[k] == RepairStmt(was[k], key)
    {
      stmts[i] := RepairStmt(stmts[i], key);
    }
    forall i | 0 <= i < |was| ensures stmts[..][i] == RepairAll(was, key)[i] { RepairAllAt(was, key, i); }
  }

  // ---------------------------------------------------------------------
  // What is left, and what is touched
  // ---------------------------------------------------------------------

  /** No storage key at or below the node is repairable. */
  predicate Repaired(e: Expr) {
    && (HasKey(e) ==> !IsRepairable(Children(e)[0]))
    && forall i | 0 <= i < |Children(e)| :: Repaired(Children(e)[i])
  }

  predicate RepairedStmt(s: Stmt)
    decreases s, 1
  {
    match s
    case ExprStmt(e) => Repaired(e)
    case Let(_, _, e) => Repaired(e)
    case Assign(_, e) => Repaired(e)
    case Return(Some(e)) => Repaired(e)
    case If(c, a, b) => Repaired(c) && RepairedAll(a) && RepairedAll(b)
    case Match(e, arms) => Repaired(e) && RepairedArms(arms)
    case For(_, _, _, _, b) => RepairedAll(b)
    case Loop(b) => RepairedAll(b)
    case Block(b) => RepairedAll(b)
    case _ => true
  }

  predicate RepairedAll(ss: seq<Stmt>)
    decreases ss, 0
  {
    ss == [] || (RepairedStmt(ss[0]) && RepairedAll(ss[1..]))
  }

  predicate RepairedArms(arms: seq<Arm>)
    decreases arms, 0
  {
    arms == [] || (RepairedAll(arms[0].body) && RepairedArms(arms[1..]))
  }

  /** Nothing but repairable storage keys differs: the nodes are the same except where one is
      the key of a storage operation, was repairable, and has become `key`. */
  predicate DiffersInKeysOnly(e: Expr, f: Expr, key: Expr)
    decreases e
  {
    && SameHead(e, f) && |Children(e)| == |Children(f)|
    && forall i | 0 <= i < |Children(e)| ::
         || DiffersInKeysOnly(Children(e)[i], Children(f)[i], key)
         || (i == 0 && HasKey(e) && IsRepairable(Children(e)[i]) && Children(f)[i] == key)
  }

  lemma HintKeyIsFinal(v: HintValue)
    ensures Children(HintExpr(v)) == [] && !IsRepairable(HintExpr(v)) && !IsMarker(HintExpr(v))
  {
  }

  predicate IsFinal(key: Expr) { Children(key) == [] && !IsRepairable(key) && !IsMarker(key) }

  /** Repairing below a key does not make it repairable. */
  lemma StaysUnrepairable(e: Expr, key: Expr)
    requires IsFinal(key)
    ensures IsRepairable(RepairExpr(e, key)) ==> IsRepairable(e)
  {
    if e.MethodCall? {
      CallStaysUnrepairable(e, RepairedKids(e, key), key);
    } else {
      RebuiltNode(e, RepairedKids(e, key));
    }
  }

  lemma CallStaysUnrepairable(e: Expr, kids: seq<Expr>, key: Expr)
    requires e.MethodCall? && |kids| == |Children(e)| && kids[0] == RepairExpr(e.receiver, key)
    ensures IsRepairable(Rebuild(e, kids)) ==> IsRepairable(e)
  {
    assert Rebuild(e, kids) == MethodCall(kids[0], e.selector, kids[1..]);
    StaysOtherThanEnvBuf(e.receiver, key);
  }

  lemma StaysOtherThanEnvBuf(e: Expr, key: Expr)
    ensures IsEnvBuf(RepairExpr(e, key)) ==> IsEnvBuf(e)
  {
    if e.MethodCall? {
      assert Children(e)[0] == e.receiver;
      RebuiltNode(e.receiver, RepairedKids(e.receiver, key));
    }
  }

  lemma NodeRepaired(e: Expr, kids: seq<Expr>)
    requires |kids| == |Children(e)| && forall i | 0 <= i < |kids| :: Repaired(kids[i])
    requires HasKey(e) ==> !IsRepairable(kids[0])
    ensures Repaired(Rebuild(e, kids))
  {
    RebuiltNode(e, kids);
  }

  lemma FinalRepaired(key: Expr)
    requires IsFinal(key)
    ensures Repaired(key)
  {
  }

  /** After the repair no storage key is repairable, at any depth. */
  lemma {:induction false} RepairLeavesNothing(e: Expr, key: Expr)
    requires IsFinal(key)
    ensures Repaired(RepairExpr(e, key))
  {
    var kids := RepairedKids(e, key);
    FinalRepaired(key);
    forall i | 0 <= i < |kids| ensures Repaired(kids[i]) { RepairLeavesNothing(Children(e)[i], key); }
    if HasKey(e) { StaysUnrepairable(Children(e)[0], key); }
    NodeRepaired(e, kids);
  }

  lemma NodeDiffers(e: Expr, kids: seq<Expr>, key: Expr)
    requires |kids| == |Children(e)|
    requires forall i | 0 <= i < |kids| ::
               DiffersInKeysOnly(Children(e)[i], kids[i], key) || (i == 0 && HasKey(e) && IsRepairable(Children(e)[i]) && kids[i] == key)
    ensures DiffersInKeysOnly(e, Rebuild(e, kids), key)
  {
    RebuiltNode(e, kids);
  }

  /** The repair touches nothing but repairable keys. */
  lemma {:induction false} RepairTouchesKeysOnly(e: Expr, key: Expr)
    ensures DiffersInKeysOnly(e, RepairExpr(e, key), key)
  {
    var kids := RepairedKids(e, key);
    forall i | 0 <= i < |kids|
      ensures DiffersInKeysOnly(Children(e)[i], kids[i], key) || (i == 0 && HasKey(e) && IsRepairable(Children(e)[i]) && kids[i] == key)
    {
      RepairTouchesKeysOnly(Children(e)[i], key);
    }
    NodeDiffers(e, kids, key);
  }

  /** An expression is left as it is exactly if there is nothing to repair in it (the key
      being final, it cannot equal what it replaces). */
  lemma {:induction false} RepairIdle(e: Expr, key: Expr)
    requires IsFinal(key)
    ensures RepairExpr(e, key) == e <==> Repaired(e)
  {
    if RepairExpr(e, key) == e {
      RepairLeavesNothing(e, key);
    }
    if Repaired(e) {
      var kids := RepairedKids(e, key);
      forall i | 0 <= i < |kids| ensures kids[i] == Children(e)[i] { RepairIdle(Children(e)[i], key); }
      assert kids == Children(e);
      RebuiltSame(e);
    }
  }

  lemma {:induction false} RepairShrinks(e: Expr, key: Expr)
    requires IsFinal(key)
    ensures UnknownIn(Nodes(RepairExpr(e, key))) <= UnknownIn(Nodes(e))
    decreases e, 1
  {
    var kids, g := RepairedKids(e, key), RepairExpr(e, key);
    RebuiltNode(e, kids);
    forall i | 0 <= i < |kids| ensures UnknownIn(Nodes(kids[i])) <= UnknownIn(Nodes(Children(e)[i])) {
      RepairShrinks(Children(e)[i], key);
      FinalNodes(key);
    }
    FewerUnknown(e, g, 0);
    UnknownHere(e);
    UnknownHere(g);
    SameMarker(e, kids);
  }

  lemma UnknownHere(e: Expr)
    ensures UnknownIn(Nodes(e)) == (if IsMarker(e) then 1 else 0) + UnknownIn(NodesFrom(e, 0))
  {
    InAppend([e], NodesFrom(e, 0));
    assert [e][1..] == [];
  }

  lemma SameMarker(e: Expr, kids: seq<Expr>)
    requires |kids| == |Children(e)|
    ensures IsMarker(Rebuild(e, kids)) == IsMarker(e)
  {
  }

  lemma FinalNodes(key: Expr)
    requires IsFinal(key)
    ensures UnknownIn(Nodes(key)) == 0
  {
    assert Nodes(key) == [key] && [key][1..] == [];
  }

  lemma {:induction false} FewerUnknown(e: Expr, g: Expr, i: nat)
    requires |Children(e)| == |Children(g)| && i <= |Children(e)|
    requires forall k | 0 <= k < |Children(e)| :: UnknownIn(Nodes(Children(g)[k])) <= UnknownIn(Nodes(Children(e)[k]))
    ensures UnknownIn(NodesFrom(g, i)) <= UnknownIn(NodesFrom(e, i))
    decreases |Children(e)| - i
  {
    if i < |Children(e)| {
      FewerUnknown(e, g, i + 1);
      UnknownFrom(e, i);
      UnknownFrom(g, i);
    }
  }

  lemma UnknownFrom(e: Expr, i: nat)
    requires i < |Children(e)|
    ensures UnknownIn(NodesFrom(e, i)) == UnknownIn(Nodes(Children(e)[i])) + UnknownIn(NodesFrom(e, i + 1))
  {
    InAppend(Nodes(Children(e)[i]), NodesFrom(e, i + 1));
  }

  // ---------------------------------------------------------------------
  // Whole bodies
  // ---------------------------------------------------------------------

  /** The same statements, up to repairable keys in the positions that are walked. */
  predicate StmtDiffersInKeysOnly(s: Stmt, t: Stmt, key: Expr)
    decreases s, 1
  {
    match s
    case ExprStmt(e) => t.ExprStmt? && DiffersInKeysOnly(e, t.e, key)
    case Let(x, m, e) => t.Let? && t.name == x && t.mutable == m && DiffersInKeysOnly(e, t.value, key)
    case Assign(x, e) => t.Assign? && t.target == x && DiffersInKeysOnly(e, t.value, key)
    case Return(Some(e)) => t.Return? && t.result.Some? && DiffersInKeysOnly(e, t.result.value, key)
    case If(c, a, b) =>
      t.If? && DiffersInKeysOnly(c, t.cond, key) && BodyDiffersInKeysOnly(a, t.thenBody, key) && BodyDiffersInKeysOnly(b, t.elseBody, key)
    case Match(e, arms) => t.Match? && DiffersInKeysOnly(e, t.scrutinee, key) && ArmsDifferInKeysOnly(arms, t.arms, key)
    case For(x, lo, hi, step, b) =>
      t.For? && t.loopVar == x && t.start == lo && t.end == hi && t.step == step && BodyDiffersInKeysOnly(b, t.body, key)
    case Loop(b) => t.Loop? && BodyDiffersInKeysOnly(b, t.body, key)
    case Block(b) => t.Block? && BodyDiffersInKeysOnly(b, t.body, key)
    case _ => t == s
  }

  predicate BodyDiffersInKeysOnly(ss: seq<Stmt>, ts: seq<Stmt>, key: Expr)
    decreases ss, 0
  {
    |ts| == |ss| && (ss == [] || (StmtDiffersInKeysOnly(ss[0], ts[0], key) && BodyDiffersInKeysOnly(ss[1..], ts[1..], key)))
  }

  predicate ArmsDifferInKeysOnly(arms: seq<Arm>, other: seq<Arm>, key: Expr)
    decreases arms, 0
  {
    |other| == |arms| &&
    (arms == [] ||
     (&& other[0].pattern == arms[0].pattern && BodyDiffersInKeysOnly(arms[0].body, other[0].body, key)
      && ArmsDifferInKeysOnly(arms[1..], other[1..], key)))
  }

  /** The repair of a body touches nothing but repairable keys either. */
  lemma {:induction false} RepairTouchesBodyKeysOnly(ss: seq<Stmt>, key: Expr)
    ensures BodyDiffersInKeysOnly(ss, RepairAll(ss, key), key)
    decreases ss, 0
  {
    if ss != [] {
      RepairTouchesStmtKeysOnly(ss[0], key);
      RepairTouchesBodyKeysOnly(ss[1..], key);
    }
  }

  lemma {:induction false} RepairTouchesStmtKeysOnly(s: Stmt, key: Expr)
    ensures StmtDiffersInKeysOnly(s, RepairStmt(s, key), key)
    decreases s, 1
  {
    match s
    case ExprStmt(e) => RepairTouchesKeysOnly(e, key);
    case Let(_, _, e) => RepairTouchesKeysOnly(e, key);
    case Assign(_, e) => RepairTouchesKeysOnly(e, key);
    case Return(Some(e)) => RepairTouchesKeysOnly(e, key);
    case If(c, a, b) =>
      RepairTouchesKeysOnly(c, key);
      RepairTouchesBodyKeysOnly(a, key);
      RepairTouchesBodyKeysOnly(b, key);
    case Match(e, arms) => RepairTouchesKeysOnly(e, key); RepairTouchesArmKeysOnly(arms, key);
    case For(_, _, _, _, b) => RepairTouchesBodyKeysOnly(b, key);
    case Loop(b) => RepairTouchesBodyKeysOnly(b, key);
    case Block(b) => RepairTouchesBodyKeysOnly(b, key);
    case _ =>
  }

  lemma {:induction false} RepairTouchesArmKeysOnly(arms: seq<Arm>, key: Expr)
    ensures ArmsDifferInKeysOnly(arms, RepairArms(arms, key), key)
    decreases arms, 0
  {
    if arms != [] {
      RepairTouchesBodyKeysOnly(arms[0].body, key);
      RepairTouchesArmKeysOnly(arms[1..], key);
    }
  }

  /** After the repair nothing is left to repair in any position that is walked; a second
      repair, with any key, changes nothing; and grading finds no more unknown nodes. */
  lemma {:induction false} RepairBody(ss: seq<Stmt>, key: Expr, other: Expr)
    requires IsFinal(key) && IsFinal(other)
    ensures RepairedAll(RepairAll(ss, key))
    ensures RepairAll(RepairAll(ss, key), other) == RepairAll(ss, key)
    ensures UnknownIn(BodyNodes(RepairAll(ss, key), true)) <= UnknownIn(BodyNodes(ss, true))
    decreases ss, 0
  {
    if ss != [] {
      RepairOneStmt(ss[0], key, other);
      RepairBody(ss[1..], key, other);
      InAppend(StmtNodes(ss[0], true), BodyNodes(ss[1..], true));
      InAppend(StmtNodes(RepairStmt(ss[0], key), true), BodyNodes(RepairAll(ss[1..], key), true));
    }
  }

  lemma {:induction false} RepairOneExpr(e: Expr, key: Expr, other: Expr)
    requires IsFinal(key) && IsFinal(other)
    ensures Repaired(RepairExpr(e, key)) && RepairExpr(RepairExpr(e, key), other) == RepairExpr(e, key)
    ensures UnknownIn(Nodes(RepairExpr(e, key))) <= UnknownIn(Nodes(e))
  {
    RepairLeavesNothing(e, key);
    RepairIdle(RepairExpr(e, key), other);
    RepairShrinks(e, key);
  }

  lemma {:induction false} RepairOneStmt(s: Stmt, key: Expr, other: Expr)
    requires IsFinal(key) && IsFinal(other)
    ensures RepairedStmt(RepairStmt(s, key)) && RepairStmt(RepairStmt(s, key), other) == RepairStmt(s, key)
    ensures UnknownIn(StmtNodes(RepairStmt(s, key), true)) <= UnknownIn(StmtNodes(s, true))
    decreases s, 1
  {
    match s
    case If(_, _, _) => RepairOneIf(s, key, other);
    case Match(_, _) => RepairOneMatch(s, key, other);
    case For(_, _, _, _, _) => RepairOneFor(s, key, other);
    case Loop(b) => RepairBody(b, key, other);
    case Block(b) => RepairBody(b, key, other);
    case _ => RepairOneSimple(s, key, other);
  }

  lemma RepairOneSimple(s: Stmt, key: Expr, other: Expr)
    requires IsFinal(key) && IsFinal(other)
    requires !s.If? && !s.Match? && !s.For? && !s.Loop? && !s.Block?
    ensures RepairedStmt(RepairStmt(s, key)) && RepairStmt(RepairStmt(s, key), other) == RepairStmt(s, key)
    ensures UnknownIn(StmtNodes(RepairStmt(s, key), true)) <= UnknownIn(StmtNodes(s, true))
  {
    if s.ExprStmt? || (s.Return? && s.result.Some?) {
      RepairOneValue(s, key, other);
    } else if s.Let? || s.Assign? {
      RepairOneBinding(s, key, other);
    }
  }

  lemma RepairOneValue(s: Stmt, key: Expr, other: Expr)
    requires IsFinal(key) && IsFinal(other) && (s.ExprStmt? || (s.Return? && s.result.Some?))
    ensures RepairedStmt(RepairStmt(s, key)) && RepairStmt(RepairStmt(s, key), other) == RepairStmt(s, key)
    ensures UnknownIn(StmtNodes(RepairStmt(s, key), true)) <= UnknownIn(StmtNodes(s, true))
  {
    if s.ExprStmt? {
      RepairOneExpr(s.e, key, other);
    } else {
      RepairOneExpr(s.result.value, key, other);
    }
  }

  lemma RepairOneBinding(s: Stmt, key: Expr, other: Expr)
    requires IsFinal(key) && IsFinal(other) && (s.Let? || s.Assign?)
    ensures RepairedStmt(RepairStmt(s, key)) && RepairStmt(RepairStmt(s, key), other) == RepairStmt(s, key)
    ensures UnknownIn(StmtNodes(RepairStmt(s, key), true)) <= UnknownIn(StmtNodes(s, true))
  {
    match s
    case Let(_, _, e) => RepairOneExpr(e, key, other);
    case Assign(_, e) => RepairOneExpr(e, key, other);
  }

  lemma {:induction false} RepairOneIf(s: Stmt, key: Expr, other: Expr)
    requires IsFinal(key) && IsFinal(other) && s.If?
    ensures RepairedStmt(RepairStmt(s, key)) && RepairStmt(RepairStmt(s, key), other) == RepairStmt(s, key)
    ensures UnknownIn(StmtNodes(RepairStmt(s, key), true)) <= UnknownIn(StmtNodes(s, true))
    decreases s, 0
  {
    var If(c, a, b) := s;
    var If(c', a', b') := RepairStmt(s, key);
    RepairOneExpr(c, key, other);
    RepairBody(a, key, other);
    RepairBody(b, key, other);
    UnknownInThree(Nodes(c), BodyNodes(a, true), BodyNodes(b, true));
    UnknownInThree(Nodes(c'), BodyNodes(a', true), BodyNodes(b', true));
  }

  lemma {:induction false} RepairOneMatch(s: Stmt, key: Expr, other: Expr)
    requires IsFinal(key) && IsFinal(other) && s.Match?
    ensures RepairedStmt(RepairStmt(s, key)) && RepairStmt(RepairStmt(s, key), other) == RepairStmt(s, key)
    ensures UnknownIn(StmtNodes(RepairStmt(s, key), true)) <= UnknownIn(StmtNodes(s, true))
    decreases s, 0
  {
    RepairOneExpr(s.scrutinee, key, other);
    RepairAllArms(s.arms, key, other);
    RepairArmsShrinks(s.arms, key);
    InAppend(Nodes(s.scrutinee), ArmNodes(s.arms, true));
    InAppend(Nodes(RepairExpr(s.scrutinee, key)), ArmNodes(RepairArms(s.arms, key), true));
  }

  lemma {:induction false} RepairOneFor(s: Stmt, key: Expr, other: Expr)
    requires IsFinal(key) && IsFinal(other) && s.For?
    ensures RepairedStmt(RepairStmt(s, key)) && RepairStmt(RepairStmt(s, key), other) == RepairStmt(s, key)
    ensures UnknownIn(StmtNodes(RepairStmt(s, key), true)) <= UnknownIn(StmtNodes(s, true))
    decreases s, 0
  {
    RepairBody(s.body, key, other);
    InAppend(Nodes(s.start) + Nodes(s.end), BodyNodes(s.body, true));
    InAppend(Nodes(s.start) + Nodes(s.end), BodyNodes(RepairAll(s.body, key), true));
  }

  lemma {:induction false} RepairAllArms(arms: seq<Arm>, key: Expr, other: Expr)
    requires IsFinal(key) && IsFinal(other)
    ensures RepairedArms(RepairArms(arms, key)) && RepairArms(RepairArms(arms, key), other) == RepairArms(arms, key)
    decreases arms, 0
  {
    if arms != [] {
      RepairBody(arms[0].body, key, other);
      RepairAllArms(arms[1..], key, other);
    }
  }

  lemma {:induction false} RepairArmsShrinks(arms: seq<Arm>, key: Expr)
    requires IsFinal(key)
    ensures UnknownIn(ArmNodes(RepairArms(arms, key), true)) <= UnknownIn(ArmNodes(arms, true))
    decreases arms, 0
  {
    if arms != [] {
      var arms' := RepairArms(arms, key);
      var literal := if arms[0].pattern.Literal? then Nodes(arms[0].pattern.pat) else [];
      RepairBody(arms[0].body, key, key);
      RepairArmsShrinks(arms[1..], key);
      UnknownInThree(literal, BodyNodes(arms[0].body, true), ArmNodes(arms[1..], true));
      UnknownInThree(literal, BodyNodes(arms'[0].body, true), ArmNodes(arms'[1..], true));
    }
  }

  lemma UnknownInThree(a: seq<Expr>, b: seq<Expr>, c: seq<Expr>)
    ensures UnknownIn(a + b + c) == UnknownIn(a) + UnknownIn(b) + UnknownIn(c)
  {
    InAppend(a, b);
    InAppend(a + b, c);
  }
}
