/** What `fold_option_void_compares` makes of a body, said without its rewriting: by the positions
    of the body and the children of a node. */
module SearchTests {
  import opened Ir
  import opened Positions
  import opened Kinds
  import opened OptionVoid

  // ---------------------------------------------------------------------
  // Comparisons of a search with the void word
  // ---------------------------------------------------------------------

  predicate IsSearch(e: Expr) { e.MethodCall? && (e.selector == "first_index_of" || e.selector == "last_index_of") }

  /** The literal 2 of an integer type of at most 64 bits. */
  predicate IsVoidWord(e: Expr) { e.Lit? && e.value == 2 && e.kind != U128 && e.kind != I128 }

  /** An equality or inequality between a search and the void word, on either side. */
  predicate IsSearchTest(e: Expr) {
    && e.Binary? && (e.bop == Eq || e.bop == Ne)
    && ((IsSearch(e.lhs) && IsVoidWord(e.rhs)) || (IsSearch(e.rhs) && IsVoidWord(e.lhs)))
  }

  function SearchOf(e: Expr): Expr
    requires IsSearchTest(e)
  {
    if IsSearch(e.lhs) then e.lhs else e.rhs
  }

  /** A hole or an abort stands in the expression. */
  predicate HoldsHole(e: Expr) {
    || IsTrap(e)
    || exists i :: 0 <= i < |Children(e)| && HoldsHole(Children(e)[i])
  }

  lemma {:induction false} HoleIs(e: Expr)
    ensures ContainsUnknown(e) <==> HoldsHole(e)
  {
    forall i | 0 <= i < |Children(e)| ensures ContainsUnknown(Children(e)[i]) <==> HoldsHole(Children(e)[i]) {
      HoleIs(Children(e)[i]);
    }
    if IsNeverRooted(e) { NeverRootedStep(e); }
    if IsNeverRooted(e) && !IsTrap(e) {
      var k :| 0 <= k < |Children(e)| && IsNeverRooted(Children(e)[k]);
      assert ContainsUnknown(Children(e)[k]);
    }
  }

  /** The comparison holds a hole in an argument of its search, and the search's receiver can be
      dropped. */
  predicate IsLostTest(e: Expr) {
    IsSearchTest(e) && (exists i :: 0 <= i < |SearchOf(e).args| && HoldsHole(SearchOf(e).args[i]))
    && IsDroppable(SearchOf(e).receiver)
  }

  /** No comparison of a search with the void word stands in the expression, at any depth. */
  predicate HasNoSearchTest(e: Expr) {
    !IsSearchTest(e) && forall i :: 0 <= i < |Children(e)| ==> HasNoSearchTest(Children(e)[i])
  }

  // ---------------------------------------------------------------------
  // What an expression becomes
  // ---------------------------------------------------------------------

  /** The names that are used more than once. */
  type Sharing = string -> bool

  /** `f` is `e` with comparisons turned into tests or holes and shared arguments of searches
      cloned, all the way down, and nothing else. */
  predicate Folded(e: Expr, f: Expr, shared: Sharing)
    decreases e, 1
  {
    if IsSearchTest(e) then
      if IsLostTest(e) then f == UnknownVal
      else
        && f.MethodCall? && f.args == [] && f.selector == (if e.bop == Eq then "is_none" else "is_some")
        && Folded(SearchOf(e), f.receiver, shared)
    else
      && SameHead(e, f) && |Children(f)| == |Children(e)|
      && forall i :: 0 <= i < |Children(e)| ==> ChildFolded(e, i, Children(f)[i], shared)
  }

  predicate ChildFolded(e: Expr, i: nat, g: Expr, shared: Sharing)
    requires i < |Children(e)|
    decreases e, 0
  {
    var a := Children(e)[i];
    if IsSearch(e) && i > 0 && NameOf(a).Some? && shared(NameOf(a).value) then g == MethodCall(a, "clone", [])
    else Folded(a, g, shared)
  }

  /** There is only one such expression. */
  lemma {:induction false} FoldedIsUnique(e: Expr, f: Expr, g: Expr, shared: Sharing)
    requires Folded(e, f, shared) && Folded(e, g, shared)
    ensures f == g
    decreases e
  {
    if IsSearchTest(e) {
      if !IsLostTest(e) { FoldedIsUnique(SearchOf(e), f.receiver, g.receiver, shared); }
    } else {
      forall i | 0 <= i < |Children(e)| ensures Children(f)[i] == Children(g)[i] {
        assert ChildFolded(e, i, Children(f)[i], shared) && ChildFolded(e, i, Children(g)[i], shared);
        if !(IsSearch(e) && i > 0 && NameOf(Children(e)[i]).Some? && shared(NameOf(Children(e)[i]).value)) {
          FoldedIsUnique(Children(e)[i], Children(f)[i], Children(g)[i], shared);
        }
      }
      assert Children(f) == Children(g);
      SameNode(e, f, g);
    }
  }

  // ---------------------------------------------------------------------
  // The fold does this
  // ---------------------------------------------------------------------

  /** Folding keeps whether an expression holds a hole, whether it is a search, a literal or an
      identifier, and whether it can be dropped. */
  lemma {:induction false} HolesStay(e: Expr, counts: Counts)
    ensures ContainsUnknown(FixExpr(e, counts)) <==> ContainsUnknown(e)
  {
    if ContainsUnknown(FixExpr(e, counts)) { UnknownWasThere(e, counts); }
    if ContainsUnknown(e) { UnknownStays(e, counts); }
  }

  lemma {:induction false} UnknownStays(e: Expr, counts: Counts)
    requires ContainsUnknown(e)
    ensures ContainsUnknown(FixExpr(e, counts))
  {
    var kids := FixedKids(e, counts);
    var g := Rebuild(e, kids);
    RebuiltNode(e, kids);
    if IsNeverRooted(e) {
      NeverRootedStep(e);
      if e == UnknownVal || e == Panic || (e.Unary? && e.uop == PanicWithError) {
        assert IsNeverRooted(g) && Finish(g, counts) == g;
      } else {
        var k :| 0 <= k < |Children(e)| && IsNeverRooted(Children(e)[k]);
        UnknownStays(Children(e)[k], counts);
        UnknownFinished(g, k, counts);
      }
    } else {
      var k :| 0 <= k < |Children(e)| && ContainsUnknown(Children(e)[k]);
      UnknownStays(Children(e)[k], counts);
      UnknownFinished(g, k, counts);
    }
  }

  lemma UnknownFinished(g: Expr, k: nat, counts: Counts)
    requires k < |Children(g)| && ContainsUnknown(Children(g)[k])
    ensures ContainsUnknown(Finish(g, counts))
  {
    var f := Finish(g, counts);
    if g.MethodCall? && f != g {
      if k > 0 { CloneShowsHole(g.args[k - 1], counts); }
      assert ContainsUnknown(Children(f)[k]);
    } else if f != g && f != UnknownVal {
      assert Children(f) == [f.receiver] && Children(g) == [g.lhs, g.rhs];
      assert ContainsUnknown(g.lhs) || ContainsUnknown(g.rhs);
      assert IsTwo(g.lhs) ==> !ContainsUnknown(g.lhs);
      assert IsTwo(g.rhs) ==> !ContainsUnknown(g.rhs);
      assert ContainsUnknown(Children(f)[0]);
    }
  }

  lemma CloneShowsHole(a: Expr, counts: Counts)
    requires ContainsUnknown(a)
    ensures CloneArg(a, counts) == a
  {
    assert NameOf(a).Some? ==> Children(a) == [];
  }

  lemma FixedSearch(e: Expr, counts: Counts)
    ensures IsSearch(FixExpr(e, counts)) <==> IsSearch(e)
    ensures IsSearch(e) ==> FixExpr(e, counts).selector == e.selector
  {
    var g := Rebuild(e, FixedKids(e, counts));
    RebuiltNode(e, FixedKids(e, counts));
    SameKind(e, g);
    FinishedKind(g, counts);
  }

  lemma FixedVoidWord(e: Expr, counts: Counts)
    ensures IsVoidWord(FixExpr(e, counts)) <==> IsVoidWord(e)
  {
    var g := Rebuild(e, FixedKids(e, counts));
    RebuiltNode(e, FixedKids(e, counts));
    SameKind(e, g);
    FinishedKind(g, counts);
  }

  lemma SameKind(e: Expr, g: Expr)
    requires SameHead(e, g)
    ensures (IsSearch(g) <==> IsSearch(e)) && (IsVoidWord(g) <==> IsVoidWord(e)) && (IsSearch(e) ==> g.selector == e.selector)
  {
  }

  lemma FinishedKind(g: Expr, counts: Counts)
    ensures var f := Finish(g, counts);
            && (IsSearch(f) <==> IsSearch(g)) && (IsVoidWord(f) <==> IsVoidWord(g)) && (IsSearch(g) ==> f.selector == g.selector)
  {
  }

  /** What can be dropped holds no comparison to fold, and folding makes nothing droppable. */
  lemma {:induction false} DroppableStays(e: Expr, counts: Counts)
    ensures IsEffectFree(FixExpr(e, counts)) <==> IsEffectFree(e)
  {
    var kids := FixedKids(e, counts);
    RebuiltNode(e, kids);
    if e.Unary? {
      assert kids[0] == FixExpr(Children(e)[0], counts);
      DroppableStays(e.arg, counts);
    } else if e.Binary? {
      DroppableStays(e.lhs, counts);
      DroppableStays(e.rhs, counts);
      DroppableBinary(e.bop, e.lhs, e.rhs, counts);
    } else {
      NothingDroppable(e, kids, counts);
    }
  }

  lemma NothingDroppable(e: Expr, kids: seq<Expr>, counts: Counts)
    requires |kids| == |Children(e)| && !e.Unary? && !e.Binary?
    ensures IsEffectFree(Finish(Rebuild(e, kids), counts)) <==> IsEffectFree(e)
  {
  }

  lemma DroppableBinary(op: BinaryOp, a: Expr, b: Expr, counts: Counts)
    requires IsEffectFree(FixExpr(a, counts)) <==> IsEffectFree(a)
    requires IsEffectFree(FixExpr(b, counts)) <==> IsEffectFree(b)
    ensures IsEffectFree(FixExpr(Binary(op, a, b), counts)) <==> IsEffectFree(Binary(op, a, b))
  {
    FixedBinary(op, a, b, counts);
    FinishedBinary(op, FixExpr(a, counts), FixExpr(b, counts), counts);
    FixedSearch(a, counts);
    FixedSearch(b, counts);
  }

  lemma FixedBinary(op: BinaryOp, a: Expr, b: Expr, counts: Counts)
    ensures FixExpr(Binary(op, a, b), counts) == Finish(Binary(op, FixExpr(a, counts), FixExpr(b, counts)), counts)
  {
    var e := Binary(op, a, b);
    var kids := FixedKids(e, counts);
    BinaryKids(op, a, b, kids);
    assert kids[0] == FixExpr(Children(e)[0], counts) && kids[1] == FixExpr(Children(e)[1], counts);
  }

  lemma FinishedBinary(op: BinaryOp, a: Expr, b: Expr, counts: Counts)
    ensures Finish(Binary(op, a, b), counts) == Binary(op, a, b)
            || ((IsSearch(a) || IsSearch(b)) && !IsEffectFree(Finish(Binary(op, a, b), counts)))
  {
  }

  /** The names that the pass counts at least twice. */
  function Shared(counts: Counts): Sharing { (x: string) => Get(counts, x) >= 2 }

  lemma {:induction false} FoldIs(e: Expr, counts: Counts)
    ensures Folded(e, FixExpr(e, counts), Shared(counts))
    decreases e
  {
    if IsSearchTest(e) {
      assert SearchOf(e) == e.lhs || SearchOf(e) == e.rhs;
      FoldIs(SearchOf(e), counts);
      TestIs(e, counts);
    } else {
      forall i | 0 <= i < |Children(e)| ensures Folded(Children(e)[i], FixExpr(Children(e)[i], counts), Shared(counts)) {
        FoldIs(Children(e)[i], counts);
      }
      if IsSearch(e) { SearchIs(e, counts); } else { OtherIs(e, counts); }
    }
  }

  /** A comparison is folded by its own rule, its search having been folded before. */
  lemma TestIs(e: Expr, counts: Counts)
    requires IsSearchTest(e)
    ensures FixExpr(e, counts) ==
            if IsLostTest(e) then UnknownVal
            else MethodCall(FixExpr(SearchOf(e), counts), if e.bop == Eq then "is_none" else "is_some", [])
  {
    FixedTest(e.bop, e.lhs, e.rhs, counts);
    FixedSearch(e.lhs, counts);
    FixedSearch(e.rhs, counts);
    FixedVoidWord(e.lhs, counts);
    FixedVoidWord(e.rhs, counts);
    SearchLost(SearchOf(e), counts);
  }

  lemma SearchLost(call: Expr, counts: Counts)
    requires IsSearch(call)
    ensures var f := FixExpr(call, counts);
            f.MethodCall? && (AnyUnknown(f.args) <==> exists i :: 0 <= i < |call.args| && HoldsHole(call.args[i]))
            && (IsEffectFree(f.receiver) <==> IsDroppable(call.receiver))
  {
    var kids := FixedKids(call, counts);
    FixedShape(call, counts);
    SearchChildren(call);
    DroppableFixed(call, counts);
    forall i | 0 <= i < |kids| ensures ContainsUnknown(kids[i]) <==> HoldsHole(Children(call)[i]) {
      HoleFixed(call, i, counts);
    }
    LostIfKids(call, FixExpr(call, counts), kids, counts);
  }

  lemma LostIfKids(call: Expr, f: Expr, kids: seq<Expr>, counts: Counts)
    requires IsSearch(call) && f.MethodCall? && |f.args| == |call.args| && |kids| == |Children(call)| == |call.args| + 1
    requires forall i :: 0 <= i < |call.args| ==> f.args[i] == CloneArg(kids[i + 1], counts)
    requires forall i :: 0 <= i < |kids| ==> (ContainsUnknown(kids[i]) <==> HoldsHole(Children(call)[i]))
    ensures AnyUnknown(f.args) <==> exists i :: 0 <= i < |call.args| && HoldsHole(call.args[i])
  {
    forall i | 0 <= i < |call.args| ensures ContainsUnknown(f.args[i]) <==> HoldsHole(call.args[i]) {
      assert Children(call)[i + 1] == call.args[i];
      CloneKeepsHole(kids[i + 1], counts);
    }
  }

  lemma SearchChildren(call: Expr)
    requires IsSearch(call)
    ensures |Children(call)| == |call.args| + 1 && Children(call)[0] == call.receiver
    ensures forall i :: 0 <= i < |call.args| ==> Children(call)[i + 1] == call.args[i]
  {
  }

  lemma DroppableFixed(call: Expr, counts: Counts)
    requires IsSearch(call) && |Children(call)| > 0
    ensures IsEffectFree(FixedKids(call, counts)[0]) <==> IsDroppable(Children(call)[0])
  {
    DroppableStays(Children(call)[0], counts);
    EffectFreeExactlyWhen(Children(call)[0]);
  }

  lemma HoleFixed(e: Expr, k: nat, counts: Counts)
    requires k < |Children(e)|
    ensures ContainsUnknown(FixedKids(e, counts)[k]) <==> HoldsHole(Children(e)[k])
  {
    HolesStay(Children(e)[k], counts);
    HoleIs(Children(e)[k]);
  }

  lemma CloneKeepsHole(a: Expr, counts: Counts)
    ensures ContainsUnknown(CloneArg(a, counts)) <==> ContainsUnknown(a)
  {
    if ContainsUnknown(a) { CloneShowsHole(a, counts); }
    if ContainsUnknown(CloneArg(a, counts)) { CloneHidesNothing(a, counts); }
  }

  /** The parts of a folded search. */
  lemma FixedShape(call: Expr, counts: Counts)
    requires IsSearch(call)
    ensures var f, kids := FixExpr(call, counts), FixedKids(call, counts);
            && |kids| == |call.args| + 1
            && f.MethodCall? && f.selector == call.selector && |f.args| == |call.args| && f.receiver == kids[0]
            && forall i :: 0 <= i < |call.args| ==> f.args[i] == CloneArg(kids[i + 1], counts)
  {
    SearchFinished(call, FixedKids(call, counts), counts);
  }

  lemma SearchFinished(call: Expr, kids: seq<Expr>, counts: Counts)
    requires IsSearch(call) && |kids| == |Children(call)|
    ensures Children(call) == [call.receiver] + call.args
    ensures var f := Finish(Rebuild(call, kids), counts);
            && f.MethodCall? && f.selector == call.selector && f.receiver == kids[0] && |f.args| == |call.args|
            && forall i :: 0 <= i < |call.args| ==> f.args[i] == CloneArg(kids[i + 1], counts)
  {
  }

  lemma SearchIs(e: Expr, counts: Counts)
    requires IsSearch(e)
    requires forall i :: 0 <= i < |Children(e)| ==> Folded(Children(e)[i], FixExpr(Children(e)[i], counts), Shared(counts))
    ensures Folded(e, FixExpr(e, counts), Shared(counts))
  {
    var kids := FixedKids(e, counts);
    FixedShape(e, counts);
    forall i | 0 <= i < |kids|
      ensures Folded(Children(e)[i], kids[i], Shared(counts))
      ensures CloneArg(kids[i], counts) ==
              if NameOf(Children(e)[i]).Some? && Shared(counts)(NameOf(Children(e)[i]).value)
              then MethodCall(Children(e)[i], "clone", []) else kids[i]
    {
      ArgumentIs(Children(e)[i], counts);
    }
    SearchIfKids(e, FixExpr(e, counts), kids, counts);
  }

  lemma SearchIfKids(e: Expr, f: Expr, kids: seq<Expr>, counts: Counts)
    requires IsSearch(e) && f.MethodCall? && f.selector == e.selector && |f.args| == |e.args|
    requires |kids| == |Children(e)| == |e.args| + 1 && f.receiver == kids[0]
    requires forall i :: 0 <= i < |e.args| ==> f.args[i] == CloneArg(kids[i + 1], counts)
    requires forall i :: 0 <= i < |kids| ==> Folded(Children(e)[i], kids[i], Shared(counts))
    requires forall i :: 0 <= i < |kids| ==>
               CloneArg(kids[i], counts) ==
               if NameOf(Children(e)[i]).Some? && Shared(counts)(NameOf(Children(e)[i]).value)
               then MethodCall(Children(e)[i], "clone", []) else kids[i]
    ensures Folded(e, f, Shared(counts))
  {
    SearchChildren(e);
    SearchChildren(f);
    forall i | 0 <= i < |Children(e)| ensures ChildFolded(e, i, Children(f)[i], Shared(counts)) {
      if i > 0 { assert Children(f)[i] == f.args[i - 1] == CloneArg(kids[i], counts); }
    }
  }

  lemma ArgumentIs(a: Expr, counts: Counts)
    ensures CloneArg(FixExpr(a, counts), counts) ==
            if NameOf(a).Some? && Shared(counts)(NameOf(a).value) then MethodCall(a, "clone", []) else FixExpr(a, counts)
  {
    FixedName(a, counts);
    if NameOf(a).Some? { assert Children(a) == []; }
  }

  lemma OtherIs(e: Expr, counts: Counts)
    requires !IsSearch(e) && !IsSearchTest(e)
    requires forall i :: 0 <= i < |Children(e)| ==> Folded(Children(e)[i], FixExpr(Children(e)[i], counts), Shared(counts))
    ensures Folded(e, FixExpr(e, counts), Shared(counts))
  {
    var kids := FixedKids(e, counts);
    RebuiltNode(e, kids);
    if e.Binary? { NoTestArises(e, counts); }
    NothingToFinish(e, kids, counts);
    var f := FixExpr(e, counts);
    forall i | 0 <= i < |Children(e)| ensures ChildFolded(e, i, Children(f)[i], Shared(counts)) {
      assert Children(f)[i] == kids[i];
    }
  }

  lemma NothingToFinish(e: Expr, kids: seq<Expr>, counts: Counts)
    requires |kids| == |Children(e)| && !IsSearch(e)
    requires e.Binary? ==> !IsSearchTest(Rebuild(e, kids))
    ensures Finish(Rebuild(e, kids), counts) == Rebuild(e, kids)
  {
  }

  lemma NoTestArises(e: Expr, counts: Counts)
    requires e.Binary? && !IsSearchTest(e)
    ensures !IsSearchTest(Rebuild(e, FixedKids(e, counts)))
  {
    var kids := FixedKids(e, counts);
    BinaryKids(e.bop, e.lhs, e.rhs, kids);
    assert kids[0] == FixExpr(Children(e)[0], counts) && kids[1] == FixExpr(Children(e)[1], counts);
    FixedSearch(e.lhs, counts);
    FixedSearch(e.rhs, counts);
    FixedVoidWord(e.lhs, counts);
    FixedVoidWord(e.rhs, counts);
  }

  /** What is folded holds no comparison of a search with the void word. */
  lemma {:induction false} FoldedHasNoTest(e: Expr, f: Expr, shared: Sharing)
    requires Folded(e, f, shared)
    ensures HasNoSearchTest(f) && (IsSearch(f) ==> IsSearch(e)) && (IsVoidWord(f) ==> IsVoidWord(e))
    decreases e
  {
    if IsSearchTest(e) {
      if !IsLostTest(e) {
        FoldedHasNoTest(SearchOf(e), f.receiver, shared);
        assert Children(f) == [f.receiver];
      }
    } else {
      forall i | 0 <= i < |Children(e)|
        ensures HasNoSearchTest(Children(f)[i])
        ensures !IsSearch(e) ==> && (IsSearch(Children(f)[i]) ==> IsSearch(Children(e)[i]))
                                 && (IsVoidWord(Children(f)[i]) ==> IsVoidWord(Children(e)[i]))
      {
        ChildHasNoTest(e, f, i, shared);
        if !(IsSearch(e) && i > 0 && NameOf(Children(e)[i]).Some? && shared(NameOf(Children(e)[i]).value)) {
          FoldedHasNoTest(Children(e)[i], Children(f)[i], shared);
        }
      }
      HeadHasNoTest(e, f);
    }
  }

  lemma ChildHasNoTest(e: Expr, f: Expr, i: nat, shared: Sharing)
    requires i < |Children(e)| == |Children(f)| && ChildFolded(e, i, Children(f)[i], shared)
    ensures IsSearch(e) && i > 0 && NameOf(Children(e)[i]).Some? && shared(NameOf(Children(e)[i]).value) ==>
              HasNoSearchTest(Children(f)[i])
  {
    var a, g := Children(e)[i], Children(f)[i];
    if g == MethodCall(a, "clone", []) && NameOf(a).Some? {
      assert Children(g) == [a] && Children(a) == [];
      assert HasNoSearchTest(a);
    }
  }

  lemma HeadHasNoTest(e: Expr, f: Expr)
    requires !IsSearchTest(e) && SameHead(e, f) && |Children(f)| == |Children(e)|
    requires forall i :: 0 <= i < |Children(e)| ==> HasNoSearchTest(Children(f)[i])
    requires !IsSearch(e) ==> forall i :: 0 <= i < |Children(e)| ==>
               (IsSearch(Children(f)[i]) ==> IsSearch(Children(e)[i])) && (IsVoidWord(Children(f)[i]) ==> IsVoidWord(Children(e)[i]))
    ensures HasNoSearchTest(f) && (IsSearch(f) ==> IsSearch(e)) && (IsVoidWord(f) ==> IsVoidWord(e))
  {
    if e.Binary? {
      assert Children(e)[0] == e.lhs && Children(e)[1] == e.rhs && Children(f)[0] == f.lhs && Children(f)[1] == f.rhs;
    }
  }

  // ---------------------------------------------------------------------
  // Whole bodies
  // ---------------------------------------------------------------------

  /** `f` folds every expression but those of literal patterns. */
  ghost predicate FoldsSites(f: Edit, counts: Counts) {
    forall site: Site {:trigger f(site)} :: f(site) == if site.role == LiteralPattern then site.e else FixExpr(site.e, counts)
  }

  lemma {:induction false} FixIsEditStmt(s: Stmt, counts: Counts, f: Edit, inFor: bool)
    requires FoldsSites(f, counts)
    ensures FixStmt(s, counts) == EditStmt(s, f, inFor)
    decreases s, 1
  {
    match s
    case If(_, a, b) => FixIsEdit(a, counts, f, inFor); FixIsEdit(b, counts, f, inFor);
    case Match(_, arms) => FixIsEditArms(arms, counts, f, inFor);
    case Loop(b) => FixIsEdit(b, counts, f, inFor);
    case For(_, _, _, _, b) => FixIsEdit(b, counts, f, true);
    case Block(b) => FixIsEdit(b, counts, f, inFor);
    case _ => FixIsEditLeaf(s, counts, f, inFor);
  }

  lemma FixIsEditLeaf(s: Stmt, counts: Counts, f: Edit, inFor: bool)
    requires FoldsSites(f, counts) && !s.If? && !s.Match? && !s.Loop? && !s.For? && !s.Block?
    ensures FixStmt(s, counts) == EditStmt(s, f, inFor)
  {
    if s.ExprStmt? {
      assert f(Site(s.e, Plain, inFor)) == FixExpr(s.e, counts);
    } else if s.Let? {
      LetIsEdit(s, counts, f, inFor);
    } else if s.Assign? {
      AssignIsEdit(s, counts, f, inFor);
    } else if s.Return? && s.result.Some? {
      ReturnIsEdit(s, counts, f, inFor);
    }
  }

  lemma LetIsEdit(s: Stmt, counts: Counts, f: Edit, inFor: bool)
    requires FoldsSites(f, counts) && s.Let?
    ensures FixStmt(s, counts) == EditStmt(s, f, inFor)
  {
  }

  lemma AssignIsEdit(s: Stmt, counts: Counts, f: Edit, inFor: bool)
    requires FoldsSites(f, counts) && s.Assign?
    ensures FixStmt(s, counts) == EditStmt(s, f, inFor)
  {
  }

  lemma ReturnIsEdit(s: Stmt, counts: Counts, f: Edit, inFor: bool)
    requires FoldsSites(f, counts) && s.Return? && s.result.Some?
    ensures FixStmt(s, counts) == EditStmt(s, f, inFor)
  {
  }

  lemma {:induction false} FixIsEdit(ss: seq<Stmt>, counts: Counts, f: Edit, inFor: bool)
    requires FoldsSites(f, counts)
    ensures FixAll(ss, counts) == EditAll(ss, f, inFor)
    decreases ss, 0
  {
    if ss != [] {
      FixIsEditStmt(ss[0], counts, f, inFor);
      FixIsEdit(ss[1..], counts, f, inFor);
    }
  }

  lemma {:induction false} FixIsEditArms(arms: seq<Arm>, counts: Counts, f: Edit, inFor: bool)
    requires FoldsSites(f, counts)
    ensures FixArms(arms, counts) == EditArms(arms, f, inFor)
    decreases arms, 0
  {
    if arms != [] {
      FixIsEdit(arms[0].body, counts, f, inFor);
      FixIsEditArms(arms[1..], counts, f, inFor);
    }
  }

  // ---------------------------------------------------------------------
  // Names used more than once
  // ---------------------------------------------------------------------

  /** The identifier `x` stands in `e` at the end of a path through the children. */
  predicate Stands(e: Expr, path: seq<nat>, x: string)
    decreases path
  {
    if path == [] then NameOf(e) == Some(x)
    else path[0] < |Children(e)| && Stands(Children(e)[path[0]], path[1..], x)
  }

  predicate StandsIn(es: seq<Expr>, k: nat, path: seq<nat>, x: string) { k < |es| && Stands(es[k], path, x) }

  ghost predicate Occurs(es: seq<Expr>, x: string) { exists k: nat, p :: StandsIn(es, k, p, x) }

  /** The identifier stands in two different places. */
  ghost predicate OccursTwice(es: seq<Expr>, x: string) {
    exists k: nat, p, l: nat, q :: StandsIn(es, k, p, x) && StandsIn(es, l, q, x) && (k != l || p != q)
  }

  function UsesIn(es: seq<Expr>, x: string): nat {
    if es == [] then 0 else Uses(es[0], x) + UsesIn(es[1..], x)
  }

  lemma {:induction false} UsesInAppend(a: seq<Expr>, b: seq<Expr>, x: string)
    ensures UsesIn(a + b, x) == UsesIn(a, x) + UsesIn(b, x)
  {
    if a == [] { assert a + b == b; } else {
      assert (a + b)[1..] == a[1..] + b;
      UsesInAppend(a[1..], b, x);
    }
  }

  lemma {:induction false} UsesFromIsSum(e: Expr, i: nat, x: string)
    requires i <= |Children(e)|
    ensures UsesFrom(e, i, x) == UsesIn(Children(e)[i..], x)
    decreases |Children(e)| - i
  {
    if i < |Children(e)| {
      assert Children(e)[i..][1..] == Children(e)[i + 1..];
      UsesFromIsSum(e, i + 1, x);
    }
  }

  lemma {:induction false} SumHasTwo(es: seq<Expr>, x: string)
    ensures UsesIn(es, x) >= 1 <==> exists k :: 0 <= k < |es| && Uses(es[k], x) >= 1
    ensures UsesIn(es, x) >= 2 <==> || (exists k :: 0 <= k < |es| && Uses(es[k], x) >= 2)
                                    || (exists k, l :: 0 <= k < l < |es| && Uses(es[k], x) >= 1 && Uses(es[l], x) >= 1)
  {
    if es != [] {
      var rest := es[1..];
      SumHasTwo(rest, x);
      forall k | 1 <= k < |es| ensures es[k] == rest[k - 1] {}
      forall k | 0 <= k < |rest| ensures rest[k] == es[k + 1] {}
      if k :| 0 <= k < |rest| && Uses(rest[k], x) >= 1 { assert Uses(es[k + 1], x) >= 1; }
      if k :| 0 <= k < |rest| && Uses(rest[k], x) >= 2 { assert Uses(es[k + 1], x) >= 2; }
      if k, l :| 0 <= k < l < |rest| && Uses(rest[k], x) >= 1 && Uses(rest[l], x) >= 1 {
        assert Uses(es[k + 1], x) >= 1 && Uses(es[l + 1], x) >= 1;
      }
      if k, l :| 0 <= k < l < |es| && Uses(es[k], x) >= 1 && Uses(es[l], x) >= 1 {
        assert Uses(rest[l - 1], x) >= 1;
        if k > 0 { assert Uses(rest[k - 1], x) >= 1; }
      }
    }
  }

  ghost predicate HasPlace(e: Expr, x: string) { exists p :: Stands(e, p, x) }

  ghost predicate HasTwoPlaces(e: Expr, x: string) { exists p, q :: Stands(e, p, x) && Stands(e, q, x) && p != q }

  /** The use counts of some expressions say how many places there are. */
  ghost predicate CountPlaces(es: seq<Expr>, x: string) {
    forall k | 0 <= k < |es| :: (Uses(es[k], x) >= 1 <==> HasPlace(es[k], x)) && (Uses(es[k], x) >= 2 <==> HasTwoPlaces(es[k], x))
  }

  /** Counting uses is counting places. */
  lemma {:induction false} UsesArePlaces(e: Expr, x: string)
    ensures (Uses(e, x) >= 1 <==> HasPlace(e, x)) && (Uses(e, x) >= 2 <==> HasTwoPlaces(e, x))
  {
    var kids := Children(e);
    UsesFromIsSum(e, 0, x);
    assert kids[0..] == kids;
    forall k | 0 <= k < |kids|
      ensures (Uses(kids[k], x) >= 1 <==> HasPlace(kids[k], x)) && (Uses(kids[k], x) >= 2 <==> HasTwoPlaces(kids[k], x))
    {
      UsesArePlaces(kids[k], x);
    }
    if NameOf(e) == Some(x) {
      NameHasOnePlace(e, x);
    } else {
      PlacesAdd(kids, x);
      DeeperPlace(e, x);
      DeeperPlaces(e, x);
    }
  }

  lemma NameHasOnePlace(e: Expr, x: string)
    requires NameOf(e) == Some(x)
    ensures Children(e) == [] && HasPlace(e, x) && !HasTwoPlaces(e, x)
  {
    assert Stands(e, [], x);
  }

  lemma DeeperPlace(e: Expr, x: string)
    requires NameOf(e) != Some(x)
    ensures HasPlace(e, x) <==> Occurs(Children(e), x)
  {
    if HasPlace(e, x) {
      var p :| Stands(e, p, x);
      StepDown(e, p, x);
    }
    if k: nat, p :| StandsIn(Children(e), k, p, x) { StepUp(e, k, p, x); }
  }

  lemma DeeperPlaces(e: Expr, x: string)
    requires NameOf(e) != Some(x)
    ensures HasTwoPlaces(e, x) <==> OccursTwice(Children(e), x)
  {
    if HasTwoPlaces(e, x) {
      var p, q :| Stands(e, p, x) && Stands(e, q, x) && p != q;
      StepDown(e, p, x);
      StepDown(e, q, x);
    }
    if k: nat, p, l: nat, q :| StandsIn(Children(e), k, p, x) && StandsIn(Children(e), l, q, x) && (k != l || p != q) {
      StepUp(e, k, p, x);
      StepUp(e, l, q, x);
    }
  }

  lemma StepDown(e: Expr, p: seq<nat>, x: string)
    requires NameOf(e) != Some(x) && Stands(e, p, x)
    ensures p != [] && p == [p[0]] + p[1..] && StandsIn(Children(e), p[0], p[1..], x)
  {
  }

  lemma StepUp(e: Expr, k: nat, p: seq<nat>, x: string)
    requires StandsIn(Children(e), k, p, x)
    ensures Stands(e, [k] + p, x) && ([k] + p)[0] == k && ([k] + p)[1..] == p
  {
    assert ([k] + p)[1..] == p;
  }

  lemma PlacesAdd(es: seq<Expr>, x: string)
    requires CountPlaces(es, x)
    ensures UsesIn(es, x) >= 1 <==> Occurs(es, x)
    ensures UsesIn(es, x) >= 2 <==> OccursTwice(es, x)
  {
    SumHasTwo(es, x);
    if k :| 0 <= k < |es| && Uses(es[k], x) >= 1 {
      var p :| Stands(es[k], p, x);
      assert StandsIn(es, k, p, x);
    }
    if k :| 0 <= k < |es| && Uses(es[k], x) >= 2 {
      var p, q :| Stands(es[k], p, x) && Stands(es[k], q, x) && p != q;
      assert StandsIn(es, k, p, x) && StandsIn(es, k, q, x);
    }
    if k, l :| 0 <= k < l < |es| && Uses(es[k], x) >= 1 && Uses(es[l], x) >= 1 {
      var p :| Stands(es[k], p, x);
      var q :| Stands(es[l], q, x);
      assert StandsIn(es, k, p, x) && StandsIn(es, l, q, x);
    }
  }

  /** The expressions of a body that are no literal patterns. */
  function Walked(sites: seq<Site>): seq<Expr> {
    if sites == [] then []
    else (if sites[0].role == LiteralPattern then [] else [sites[0].e]) + Walked(sites[1..])
  }

  lemma {:induction false} WalkedAppend(a: seq<Site>, b: seq<Site>)
    ensures Walked(a + b) == Walked(a) + Walked(b)
  {
    if a == [] { assert a + b == b; } else {
      assert (a + b)[1..] == a[1..] + b;
      WalkedAppend(a[1..], b);
    }
  }

  lemma {:induction false} CountsWalkedStmt(s: Stmt, inFor: bool, x: string)
    ensures UsesStmt(s, x) == UsesIn(Walked(StmtSites(s, inFor)), x)
    decreases s, 1
  {
    match s
    case If(c, a, b) =>
      CountsWalked(a, inFor, x);
      CountsWalked(b, inFor, x);
      WalkedAdds([Site(c, Plain, inFor)] + Sites(a, inFor), Sites(b, inFor), x);
      WalkedAdds([Site(c, Plain, inFor)], Sites(a, inFor), x);
      WalkedOne(Site(c, Plain, inFor), x);
    case Match(e, arms) =>
      CountsWalkedArms(arms, inFor, x);
      WalkedAdds([Site(e, Plain, inFor)], ArmSites(arms, inFor), x);
      WalkedOne(Site(e, Plain, inFor), x);
    case Loop(b) => CountsWalked(b, inFor, x);
    case For(_, lo, hi, _, b) =>
      CountsWalked(b, true, x);
      var l, h := Site(lo, LoopBound, inFor), Site(hi, LoopBound, inFor);
      assert [l, h] == [l] + [h];
      WalkedAdds([l, h], Sites(b, true), x);
      WalkedAdds([l], [h], x);
      WalkedOne(l, x);
      WalkedOne(h, x);
    case Block(b) => CountsWalked(b, inFor, x);
    case ExprStmt(e) => WalkedOne(Site(e, Plain, inFor), x);
    case Let(y, _, e) => WalkedOne(Site(e, LetValue(y), inFor), x);
    case Assign(y, e) => WalkedOne(Site(e, AssignValue(y), inFor), x);
    case Return(Some(e)) => WalkedOne(Site(e, Plain, inFor), x);
    case _ =>
  }

  lemma WalkedAdds(a: seq<Site>, b: seq<Site>, x: string)
    ensures UsesIn(Walked(a + b), x) == UsesIn(Walked(a), x) + UsesIn(Walked(b), x)
  {
    WalkedAppend(a, b);
    UsesInAppend(Walked(a), Walked(b), x);
  }

  lemma WalkedOne(site: Site, x: string)
    ensures UsesIn(Walked([site]), x) == if site.role == LiteralPattern then 0 else Uses(site.e, x)
  {
    assert Walked([site]) == if site.role == LiteralPattern then [] else [site.e];
  }

  lemma {:induction false} CountsWalked(ss: seq<Stmt>, inFor: bool, x: string)
    ensures UsesAll(ss, x) == UsesIn(Walked(Sites(ss, inFor)), x)
    decreases ss, 0
  {
    if ss != [] {
      CountsWalkedStmt(ss[0], inFor, x);
      CountsWalked(ss[1..], inFor, x);
      WalkedAdds(StmtSites(ss[0], inFor), Sites(ss[1..], inFor), x);
    }
  }

  lemma {:induction false} CountsWalkedArms(arms: seq<Arm>, inFor: bool, x: string)
    ensures UsesArms(arms, x) == UsesIn(Walked(ArmSites(arms, inFor)), x)
    decreases arms, 0
  {
    if arms != [] {
      var p, b := PatternSites(arms[0].pattern, inFor), Sites(arms[0].body, inFor);
      CountsWalked(arms[0].body, inFor, x);
      CountsWalkedArms(arms[1..], inFor, x);
      WalkedAdds(p + b, ArmSites(arms[1..], inFor), x);
      WalkedAdds(p, b, x);
      assert Walked(p) == [];
    }
  }

  /** The pass counts a name twice or more exactly if it stands in two places of the body's
      expressions, literal patterns aside. */
  lemma CountedTwiceExactlyWhen(ss: seq<Stmt>, counts: Counts, x: string)
    requires Counted(counts, ss)
    ensures Get(counts, x) >= 2 <==> OccursTwice(Walked(AllSites(ss)), x)
  {
    var es := Walked(AllSites(ss));
    CountsWalked(ss, false, x);
    forall k | 0 <= k < |es|
      ensures (Uses(es[k], x) >= 1 <==> HasPlace(es[k], x)) && (Uses(es[k], x) >= 2 <==> HasTwoPlaces(es[k], x))
    {
      UsesArePlaces(es[k], x);
    }
    PlacesAdd(es, x);
  }

  /** What one expression of a body becomes. */
  predicate SiteFolded(site: Site, after: Site, shared: Sharing) {
    && after.role == site.role && after.inFor == site.inFor
    && if site.role == LiteralPattern then after.e == site.e else Folded(site.e, after.e, shared) && HasNoSearchTest(after.e)
  }

  /** The folded body is the one whose expressions, literal patterns aside, have every comparison of
      a search turned into a test or a hole and every shared search argument cloned, and that is
      otherwise the same; no such comparison is left. */
  lemma FoldsExactly(ss: seq<Stmt>, counts: Counts, shared: Sharing)
    requires Counted(counts, ss) && forall x :: shared(x) <==> OccursTwice(Walked(AllSites(ss)), x)
    ensures var out := FixAll(ss, counts);
            && Blank(out) == Blank(ss) && |AllSites(out)| == |AllSites(ss)|
            && forall i :: 0 <= i < |AllSites(ss)| ==> SiteFolded(AllSites(ss)[i], AllSites(out)[i], shared)
  {
    var f: Edit := (site: Site) => if site.role == LiteralPattern then site.e else FixExpr(site.e, counts);
    forall x ensures shared(x) == Shared(counts)(x) { CountedTwiceExactlyWhen(ss, counts, x); }
    FixIsEdit(ss, counts, f, false);
    EditedAll(ss, f, false);
    var sites, after := AllSites(ss), AllSites(FixAll(ss, counts));
    forall i | 0 <= i < |sites| ensures SiteFolded(sites[i], after[i], shared) {
      if sites[i].role != LiteralPattern {
        FoldIs(sites[i].e, counts);
        SharingMatters(sites[i].e, after[i].e, Shared(counts), shared);
        FoldedHasNoTest(sites[i].e, after[i].e, shared);
      }
    }
  }

  lemma {:induction false} SharingMatters(e: Expr, f: Expr, shared: Sharing, other: Sharing)
    requires Folded(e, f, shared) && forall x :: shared(x) == other(x)
    ensures Folded(e, f, other)
    decreases e
  {
    if IsSearchTest(e) {
      if !IsLostTest(e) { SharingMatters(SearchOf(e), f.receiver, shared, other); }
    } else {
      forall i | 0 <= i < |Children(e)| ensures ChildFolded(e, i, Children(f)[i], other) {
        assert ChildFolded(e, i, Children(f)[i], shared);
        if !(IsSearch(e) && i > 0 && NameOf(Children(e)[i]).Some? && shared(NameOf(Children(e)[i]).value)) {
          SharingMatters(Children(e)[i], Children(f)[i], shared, other);
        }
      }
    }
  }
}
