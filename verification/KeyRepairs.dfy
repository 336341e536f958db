/** The repair of storage keys, said by the positions of a body: which keys are replaced, by what,
    and that all of them are. */
module KeyRepairs {
  import opened Ir
  import opened Positions
  import opened HintRepair

  // ---------------------------------------------------------------------
  // Hints
  // ---------------------------------------------------------------------

  /** Each hint stands for the literal of its own kind and value. */
  lemma HintsAre(v: HintValue)
    ensures HintExpr(v).BoolLit? <==> v.HintBool?
    ensures HintExpr(v).Lit? <==> v.HintInt?
    ensures HintExpr(v) == Void <==> v == HintVoid
    ensures v.HintBool? ==> HintExpr(v) == BoolLit(v.flag)
    ensures v.HintInt? ==> HintExpr(v).kind == v.kind && HintExpr(v).value == v.value
    ensures v.HintSymbol? ==> HintExpr(v) == Leaf(SymbolLiteral(v.text))
    ensures v.HintString? ==> HintExpr(v) == Leaf(StringLiteral(v.text))
    ensures v.HintBytes? ==> HintExpr(v) == Leaf(BytesLiteral(v.bytes))
  {
  }

  /** Different hints never give the same key. */
  lemma HintsDiffer(v: HintValue, w: HintValue)
    ensures HintExpr(v) == HintExpr(w) <==> v == w
  {
  }

  // ---------------------------------------------------------------------
  // What an expression becomes
  // ---------------------------------------------------------------------

  /** The two host functions that make a key out of linear memory. */
  predicate IsMemoryRead(f: string) { f == "symbol_new_from_linear_memory" || f == "string_new_from_linear_memory" }

  /** A key that was not recovered: a hole, or a text still read from linear memory, by a raw call of
      the buffer module or through `env.buf()`. */
  predicate IsLostKey(e: Expr) {
    || e == UnknownVal
    || (e.RawHostCall? && e.hostModule == "Buf" && IsMemoryRead(e.hostFunction))
    || (e.MethodCall? && IsMemoryRead(e.selector) && e.receiver == MethodCall(Leaf(Env), "buf", []))
  }

  /** The operations on contract storage; the key is their first child. */
  predicate IsStorageOperation(e: Expr) {
    || e.StorageGet?
    || (e.Unary? && (e.uop.StorageHas? || e.uop.StorageRemove?))
    || (e.Binary? && e.bop.StorageSet?)
    || (e.Ternary? && e.top.StorageExtendTtl?)
  }

  /** `f` is `e` with every lost key of a storage operation replaced by `key`, all the way down. */
  predicate Mended(e: Expr, f: Expr, key: Expr)
    decreases e, 1
  {
    && SameHead(e, f) && |Children(f)| == |Children(e)|
    && forall i :: 0 <= i < |Children(e)| ==> ChildMended(e, i, Children(f)[i], key)
  }

  predicate ChildMended(e: Expr, i: nat, g: Expr, key: Expr)
    requires i < |Children(e)|
    decreases e, 0
  {
    if i == 0 && IsStorageOperation(e) && IsLostKey(Children(e)[0]) then g == key else Mended(Children(e)[i], g, key)
  }

  lemma {:induction false} MendedIsUnique(e: Expr, f: Expr, g: Expr, key: Expr)
    requires Mended(e, f, key) && Mended(e, g, key)
    ensures f == g
    decreases e
  {
    forall i | 0 <= i < |Children(e)| ensures Children(f)[i] == Children(g)[i] {
      assert ChildMended(e, i, Children(f)[i], key) && ChildMended(e, i, Children(g)[i], key);
      if !(i == 0 && IsStorageOperation(e) && IsLostKey(Children(e)[0])) {
        MendedIsUnique(Children(e)[i], Children(f)[i], Children(g)[i], key);
      }
    }
    assert Children(f) == Children(g);
    SameNode(e, f, g);
  }

  lemma LostIs(e: Expr)
    ensures IsRepairable(e) <==> IsLostKey(e)
    ensures HasKey(e) <==> IsStorageOperation(e)
  {
  }

  lemma {:induction false} MendIs(e: Expr, key: Expr)
    ensures Mended(e, RepairExpr(e, key), key)
    decreases e
  {
    var kids := RepairedKids(e, key);
    RebuiltNode(e, kids);
    LostIs(e);
    forall i | 0 <= i < |kids| ensures ChildMended(e, i, kids[i], key) {
      LostIs(Children(e)[i]);
      if i == 0 && HasKey(e) {
        if !IsRepairable(Children(e)[0]) { MendIs(Children(e)[0], key); }
      } else {
        MendIs(Children(e)[i], key);
      }
    }
  }

  // ---------------------------------------------------------------------
  // Whole bodies
  // ---------------------------------------------------------------------

  /** The bounds of a `for` and literal patterns are not looked at. */
  predicate IsEntered(site: Site) { site.role != LiteralPattern && site.role != LoopBound }

  ghost predicate RepairsSites(f: Edit, key: Expr) {
    forall site: Site {:trigger f(site)} :: f(site) == if IsEntered(site) then RepairExpr(site.e, key) else site.e
  }

  lemma {:induction false} RepairIsEditStmt(s: Stmt, key: Expr, f: Edit, inFor: bool)
    requires RepairsSites(f, key)
    ensures RepairStmt(s, key) == EditStmt(s, f, inFor)
    decreases s, 1
  {
    match s
    case If(_, a, b) => RepairIsEdit(a, key, f, inFor); RepairIsEdit(b, key, f, inFor);
    case Match(_, arms) => RepairIsEditArms(arms, key, f, inFor);
    case Loop(b) => RepairIsEdit(b, key, f, inFor);
    case For(_, _, _, _, b) => RepairIsEdit(b, key, f, true);
    case Block(b) => RepairIsEdit(b, key, f, inFor);
    case _ => RepairIsEditLeaf(s, key, f, inFor);
  }

  lemma RepairIsEditLeaf(s: Stmt, key: Expr, f: Edit, inFor: bool)
    requires RepairsSites(f, key) && !s.If? && !s.Match? && !s.Loop? && !s.For? && !s.Block?
    ensures RepairStmt(s, key) == EditStmt(s, f, inFor)
  {
    if s.ExprStmt? {
      assert f(Site(s.e, Plain, inFor)) == RepairExpr(s.e, key);
    } else if s.Let? {
      RepairIsEditLet(s, key, f, inFor);
    } else if s.Assign? {
      RepairIsEditAssign(s, key, f, inFor);
    } else if s.Return? && s.result.Some? {
      RepairIsEditReturn(s, key, f, inFor);
    }
  }

  lemma RepairIsEditLet(s: Stmt, key: Expr, f: Edit, inFor: bool)
    requires RepairsSites(f, key) && s.Let?
    ensures RepairStmt(s, key) == EditStmt(s, f, inFor)
  {
  }

  lemma RepairIsEditAssign(s: Stmt, key: Expr, f: Edit, inFor: bool)
    requires RepairsSites(f, key) && s.Assign?
    ensures RepairStmt(s, key) == EditStmt(s, f, inFor)
  {
  }

  lemma RepairIsEditReturn(s: Stmt, key: Expr, f: Edit, inFor: bool)
    requires RepairsSites(f, key) && s.Return? && s.result.Some?
    ensures RepairStmt(s, key) == EditStmt(s, f, inFor)
  {
  }

  lemma {:induction false} RepairIsEdit(ss: seq<Stmt>, key: Expr, f: Edit, inFor: bool)
    requires RepairsSites(f, key)
    ensures RepairAll(ss, key) == EditAll(ss, f, inFor)
    decreases ss, 0
  {
    if ss != [] {
      RepairIsEditStmt(ss[0], key, f, inFor);
      RepairIsEdit(ss[1..], key, f, inFor);
    }
  }

  lemma {:induction false} RepairIsEditArms(arms: seq<Arm>, key: Expr, f: Edit, inFor: bool)
    requires RepairsSites(f, key)
    ensures RepairArms(arms, key) == EditArms(arms, f, inFor)
    decreases arms, 0
  {
    if arms != [] {
      RepairIsEdit(arms[0].body, key, f, inFor);
      RepairIsEditArms(arms[1..], key, f, inFor);
    }
  }

  predicate SiteMended(site: Site, after: Site, key: Expr) {
    && after.role == site.role && after.inFor == site.inFor
    && if IsEntered(site) then Mended(site.e, after.e, key) else after.e == site.e
  }

  /** The repaired body is the one whose expressions, loop bounds and literal patterns aside, have the
      hinted key for every lost key of a storage operation, and that is otherwise the same. */
  lemma MendsExactly(ss: seq<Stmt>, key: Expr)
    ensures var out := RepairAll(ss, key);
            && Blank(out) == Blank(ss) && |AllSites(out)| == |AllSites(ss)|
            && forall i :: 0 <= i < |AllSites(ss)| ==> SiteMended(AllSites(ss)[i], AllSites(out)[i], key)
  {
    var f: Edit := (site: Site) => if IsEntered(site) then RepairExpr(site.e, key) else site.e;
    RepairIsEdit(ss, key, f, false);
    EditedAll(ss, f, false);
    forall i | 0 <= i < |AllSites(ss)| ensures SiteMended(AllSites(ss)[i], AllSites(RepairAll(ss, key))[i], key) {
      MendIs(AllSites(ss)[i].e, key);
    }
  }
}
