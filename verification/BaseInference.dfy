/** Guessing which wasm slot the first parameter lives in (`infer_param_local_base`). */
module BaseInference {
  import opened Ir
  import opened Recovery
  import ParamLocals

  // ---------------------------------------------------------------------
  // What is counted
  // ---------------------------------------------------------------------

  /** The expression nodes that the scoring walk reaches: like the generic walker, but it does
      not enter `for` statements. */
  function ScoredNodes(s: Stmt): seq<Expr>
    decreases s, 1
  {
    match s
    case ExprStmt(e) => Nodes(e)
    case Return(Some(e)) => Nodes(e)
    case Let(_, _, e) => Nodes(e)
    case Assign(_, e) => Nodes(e)
    case If(c, a, b) => Nodes(c) + ScoredNodesAll(a) + ScoredNodesAll(b)
    case Match(e, arms) => Nodes(e) + ScoredNodesArms(arms)
    case Loop(b) => ScoredNodesAll(b)
    case Block(b) => ScoredNodesAll(b)
    case _ => []
  }

  function ScoredNodesAll(ss: seq<Stmt>): seq<Expr>
    decreases ss, 0
  {
    if ss == [] then [] else ScoredNodes(ss[0]) + ScoredNodesAll(ss[1..])
  }

  function ScoredNodesArms(arms: seq<Arm>): seq<Expr>
    decreases arms, 0
  {
    if arms == [] then [] else ScoredNodesAll(arms[0].body) + ScoredNodesArms(arms[1..])
  }

  datatype Score = Score(totalHits: nat, distinctSlots: set<nat>) {
    function Merge(other: Score): Score {
      Score(totalHits + other.totalHits, distinctSlots + other.distinctSlots)
    }
  }

  /** A node that reads one of the slots of a candidate layout. */
  datatype Layout = Layout(base: nat, count: nat, rebound: set<Slot>) {
    predicate Maps(e: Expr) {
      e.Local? && base <= e.slot < base + count && e.slot !in rebound
    }
  }

  function Hits(es: seq<Expr>, at: Layout): nat {
    if es == [] then 0 else (if at.Maps(es[0]) then 1 else 0) + Hits(es[1..], at)
  }

  function Slots(es: seq<Expr>, at: Layout): set<nat> {
    set e | e in es && at.Maps(e) :: e.slot
  }

  /** The score of a list of nodes for a layout. */
  function Tally(es: seq<Expr>, at: Layout): Score { Score(Hits(es, at), Slots(es, at)) }

  lemma {:induction false} HitsAppend(es: seq<Expr>, fs: seq<Expr>, at: Layout)
    ensures Hits(es + fs, at) == Hits(es, at) + Hits(fs, at)
  {
    if es == [] {
      assert es + fs == fs;
    } else {
      assert (es + fs)[1..] == es[1..] + fs;
      HitsAppend(es[1..], fs, at);
    }
  }

  lemma TallyAppend(es: seq<Expr>, fs: seq<Expr>, at: Layout)
    ensures Tally(es + fs, at) == Tally(es, at).Merge(Tally(fs, at))
  {
    HitsAppend(es, fs, at);
  }

  /** The score of a layout depends on which nodes there are, not on their order. */
  lemma {:induction false} TallyIgnoresOrder(es: seq<Expr>, fs: seq<Expr>, at: Layout)
    requires multiset(es) == multiset(fs)
    ensures Tally(es, at) == Tally(fs, at)
  {
    forall e ensures e in es <==> e in fs {
      assert e in es <==> e in multiset(es);
      assert e in fs <==> e in multiset(fs);
    }
    HitsIgnoreOrder(es, fs, at);
  }

  lemma {:induction false} HitsIgnoreOrder(es: seq<Expr>, fs: seq<Expr>, at: Layout)
    requires multiset(es) == multiset(fs)
    ensures Hits(es, at) == Hits(fs, at)
    decreases |es|
  {
    if es == [] {
      assert |multiset(fs)| == 0;
    } else {
      assert es == [es[0]] + es[1..];
      assert es[0] in multiset(fs);
      var k :| 0 <= k < |fs| && fs[k] == es[0];
      TakenOut(fs, k);
      HitsIgnoreOrder(es[1..], fs[..k] + fs[k + 1..], at);
      HitsWithout(fs, k, at);
      HitsWithout(es, 0, at);
      assert es[..0] + es[1..] == es[1..];
    }
  }

  lemma TakenOut(fs: seq<Expr>, k: nat)
    requires k < |fs|
    ensures multiset(fs[..k] + fs[k + 1..]) == multiset(fs) - multiset{fs[k]}
  {
    assert fs == fs[..k] + ([fs[k]] + fs[k + 1..]);
  }

  lemma HitsWithout(fs: seq<Expr>, k: nat, at: Layout)
    requires k < |fs|
    ensures Hits(fs, at) == Hits([fs[k]], at) + Hits(fs[..k] + fs[k + 1..], at)
  {
    assert fs == fs[..k] + ([fs[k]] + fs[k + 1..]);
    HitsAppend(fs[..k], [fs[k]] + fs[k + 1..], at);
    HitsAppend([fs[k]], fs[k + 1..], at);
    HitsAppend(fs[..k], fs[k + 1..], at);
  }

  /** The distinct slots are among those of the layout. */
  lemma SlotsInLayout(es: seq<Expr>, at: Layout)
    ensures forall slot :: slot in Slots(es, at) ==> at.base <= slot < at.base + at.count && slot !in at.rebound
  {
  }

  // ---------------------------------------------------------------------
  // Scoring
  // ---------------------------------------------------------------------

  const ZERO := Score(0, {})

  method ScoreExpr(e: Expr, at: Layout) returns (score: Score)
    ensures score == Tally(Nodes(e), at)
    decreases e
  {
    score := ZERO;
    if e.Local? && at.base <= e.slot < at.base + at.count && e.slot !in at.rebound {
      score := Score(1, {e.slot});
    }
    assert [e][1..] == [];
    assert score.distinctSlots == Slots([e], at);
    assert Hits([e], at) == score.totalHits + Hits([], at);
    ghost var done := [e];
    var kids := Children(e);
    for i := 0 to |kids|
      invariant score == Tally(done, at) && done + NodesFrom(e, i) == Nodes(e)
    {
      TallyAppend(done, Nodes(kids[i]), at);
      AppendAssociates(done, Nodes(kids[i]), NodesFrom(e, i + 1));
      var s := ScoreExpr(kids[i], at);
      score := score.Merge(s);
      done := done + Nodes(kids[i]);
    }
    assert NodesFrom(e, |kids|) == [] && done + [] == done;
  }

  method ScoreStmts(ss: seq<Stmt>, at: Layout) returns (score: Score)
    ensures score == Tally(ScoredNodesAll(ss), at)
    decreases ss, 0
  {
    score := ZERO;
    ghost var done: seq<Expr> := [];
    assert Slots(done, at) == {};
    for i := 0 to |ss|
      invariant score == Tally(done, at) && done + ScoredNodesAll(ss[i..]) == ScoredNodesAll(ss)
    {
      assert ss[i..][1..] == ss[i + 1..];
      TallyAppend(done, ScoredNodes(ss[i]), at);
      AppendAssociates(done, ScoredNodes(ss[i]), ScoredNodesAll(ss[i + 1..]));
      var s := ScoreStmt(ss[i], at);
      score := score.Merge(s);
      done := done + ScoredNodes(ss[i]);
    }
    assert done + [] == done;
  }

  method ScoreStmt(s: Stmt, at: Layout) returns (score: Score)
    ensures score == Tally(ScoredNodes(s), at)
    decreases s, 1
  {
    match s {
      case ExprStmt(e) => score := ScoreExpr(e, at);
      case Return(Some(e)) => score := ScoreExpr(e, at);
      case Let(_, _, e) => score := ScoreExpr(e, at);
      case Assign(_, e) => score := ScoreExpr(e, at);
      case If(c, a, b) =>
        score := ScoreExpr(c, at);
        var thenScore := ScoreStmts(a, at);
        var elseScore := ScoreStmts(b, at);
        TallyAppend(Nodes(c), ScoredNodesAll(a), at);
        TallyAppend(Nodes(c) + ScoredNodesAll(a), ScoredNodesAll(b), at);
        score := score.Merge(thenScore).Merge(elseScore);
      case Match(e, arms) =>
        score := ScoreExpr(e, at);
        var armScore := ScoreArms(arms, at);
        TallyAppend(Nodes(e), ScoredNodesArms(arms), at);
        score := score.Merge(armScore);
      case Loop(b) => score := ScoreStmts(b, at);
      case Block(b) => score := ScoreStmts(b, at);
      case _ =>
        score := ZERO;
        assert Slots([], at) == {};
    }
  }

  method ScoreArms(arms: seq<Arm>, at: Layout) returns (score: Score)
    ensures score == Tally(ScoredNodesArms(arms), at)
    decreases arms, 0
  {
    score := ZERO;
    ghost var done: seq<Expr> := [];
    assert Slots(done, at) == {};
    for i := 0 to |arms|
      invariant score == Tally(done, at) && done + ScoredNodesArms(arms[i..]) == ScoredNodesArms(arms)
    {
      assert arms[i..][1..] == arms[i + 1..];
      TallyAppend(done, ScoredNodesAll(arms[i].body), at);
      AppendAssociates(done, ScoredNodesAll(arms[i].body), ScoredNodesArms(arms[i + 1..]));
      var s := ScoreStmts(arms[i].body, at);
      score := score.Merge(s);
      done := done + ScoredNodesAll(arms[i].body);
    }
    assert done + [] == done;
  }

  // ---------------------------------------------------------------------
  // Comparing layouts
  // ---------------------------------------------------------------------

  /** `len` consecutive slots from the base on are used, and the next one is not. */
  predicate IsPrefix(slots: set<nat>, base: nat, len: nat) {
    (forall slot: nat :: base <= slot < base + len ==> slot in slots) && base + len !in slots
  }

  method PrefixLen(slots: set<nat>, base: nat) returns (len: nat)
    ensures IsPrefix(slots, base, len)
  {
    len := 0;
    ghost var left := slots;
    while base + len in slots
      invariant forall slot: nat :: base <= slot < base + len ==> slot in slots
      invariant left <= slots && forall slot :: slot in slots && slot >= base + len ==> slot in left
      decreases |left|
    {
      left := left - {base + len};
      len := len + 1;
    }
  }

  lemma PrefixIsUnique(slots: set<nat>, base: nat, len: nat, other: nat)
    requires IsPrefix(slots, base, len) && IsPrefix(slots, base, other)
    ensures len == other
  {
  }

  /** A prefix is no longer than the parameter list. */
  lemma PrefixFits(es: seq<Expr>, at: Layout, len: nat)
    requires IsPrefix(Slots(es, at), at.base, len)
    ensures len <= at.count
  {
    assert at.base + at.count !in Slots(es, at);
  }

  method IsBetterThan(mine: Score, other: Score, myBase: nat, otherBase: nat, count: nat, preferred: nat, takesEnv: bool)
    returns (better: bool)
    ensures forall p: nat, q: nat | IsPrefix(mine.distinctSlots, myBase, p) && IsPrefix(other.distinctSlots, otherBase, q) ::
              better <==>
                && !(takesEnv && preferred == 0 && myBase != preferred)
                && p >= MinOverride(myBase, otherBase, count, preferred, takesEnv)
                && (p > q || (p == q && mine.totalHits > other.totalHits && p > 0))
  {
    var p := PrefixLen(mine.distinctSlots, myBase);
    var q := PrefixLen(other.distinctSlots, otherBase);
    forall p': nat, q': nat | IsPrefix(mine.distinctSlots, myBase, p') && IsPrefix(other.distinctSlots, otherBase, q')
      ensures p' == p && q' == q
    {
      PrefixIsUnique(mine.distinctSlots, myBase, p, p');
      PrefixIsUnique(other.distinctSlots, otherBase, q, q');
    }
    if takesEnv && preferred == 0 && myBase != preferred { return false; }
    if p < MinOverride(myBase, otherBase, count, preferred, takesEnv) { return false; }
    better := p > q || (p == q && mine.totalHits > other.totalHits && p > 0);
  }

  function MinOverride(myBase: nat, otherBase: nat, count: nat, preferred: nat, takesEnv: bool): nat {
    if takesEnv && preferred == 1 && myBase == 0 && otherBase == preferred then 2
    else if count < 2 then count else 2
  }

  // ---------------------------------------------------------------------
  // The inference
  // ---------------------------------------------------------------------

  /** The longest run of used slots from a base on. */
  ghost function Prefix(es: seq<Expr>, at: Layout): (len: nat)
    ensures IsPrefix(Slots(es, at), at.base, len) && len <= at.count
  {
    PrefixExists(Slots(es, at), at.base);
    var len: nat :| IsPrefix(Slots(es, at), at.base, len);
    PrefixFits(es, at, len);
    len
  }

  lemma PrefixExists(slots: set<nat>, base: nat)
    ensures exists len: nat :: IsPrefix(slots, base, len)
  {
    var len: nat := 0;
    var left := slots;
    while base + len in slots
      invariant forall slot: nat :: base <= slot < base + len ==> slot in slots
      invariant left <= slots && forall slot :: slot in slots && slot >= base + len ==> slot in left
      decreases |left|
    {
      left := left - {base + len};
      len := len + 1;
    }
    assert IsPrefix(slots, base, len);
  }

  /** The only override there is: slot 0 instead of slot 1, when the evidence for it is long
      enough and strictly better. */
  ghost predicate StealsSlotZero(body: seq<Stmt>, count: nat, preferred: nat, takesEnv: bool) {
    var es := ScoredNodesAll(body);
    var zero, one := Layout(0, count, ParamLocals.Rebound(body)), Layout(1, count, ParamLocals.Rebound(body));
    && preferred == 1 && count > 0
    && Prefix(es, zero) >= (if takesEnv || count >= 2 then 2 else 1)
    && (Prefix(es, zero) > Prefix(es, one) || (Prefix(es, zero) == Prefix(es, one) && Hits(es, zero) > Hits(es, one)))
  }

  /** The inferred base is the preferred one unless slot 0 wins by the rule above. */
  method InferParamLocalBase(body: seq<Stmt>, count: nat, preferred: nat, takesEnv: bool) returns (best: nat)
    ensures best == if StealsSlotZero(body, count, preferred, takesEnv) then 0 else preferred
  {
    if count == 0 { return preferred; }
    var rebound := ParamLocals.CollectReboundLocals(body, {});
    assert rebound == ParamLocals.Rebound(body);
    var candidates := Candidates(preferred, takesEnv);
    ghost var es := ScoredNodesAll(body);
    var bestScore := ScoreStmts(body, Layout(preferred, count, rebound));
    best := preferred;
    for i := 0 to |candidates|
      invariant bestScore == Tally(es, Layout(best, count, rebound))
      invariant best == if i > 0 && candidates[0] == 0 && StealsSlotZero(body, count, preferred, takesEnv) then 0 else preferred
    {
      var base := candidates[i];
      var score := ScoreStmts(body, Layout(base, count, rebound));
      var better := IsBetterThan(score, bestScore, base, best, count, preferred, takesEnv);
      Decides(es, rebound, score, bestScore, base, best, count, preferred, takesEnv, better);
      if better {
        best, bestScore := base, score;
      }
    }
  }

  /** What one comparison of the loop comes down to, in terms of prefixes and hits. */
  lemma Decides(es: seq<Expr>, rebound: set<Slot>, score: Score, bestScore: Score, base: nat, best: nat,
                count: nat, preferred: nat, takesEnv: bool, better: bool)
    requires score == Tally(es, Layout(base, count, rebound)) && bestScore == Tally(es, Layout(best, count, rebound))
    requires forall p: nat, q: nat | IsPrefix(score.distinctSlots, base, p) && IsPrefix(bestScore.distinctSlots, best, q) ::
              better <==>
                && !(takesEnv && preferred == 0 && base != preferred)
                && p >= MinOverride(base, best, count, preferred, takesEnv)
                && (p > q || (p == q && score.totalHits > bestScore.totalHits && p > 0))
    ensures var p, q := Prefix(es, Layout(base, count, rebound)), Prefix(es, Layout(best, count, rebound));
            better <==>
                && !(takesEnv && preferred == 0 && base != preferred)
                && p >= MinOverride(base, best, count, preferred, takesEnv)
                && (p > q || (p == q && score.totalHits > bestScore.totalHits && p > 0))
  {
    var p, q := Prefix(es, Layout(base, count, rebound)), Prefix(es, Layout(best, count, rebound));
    assert IsPrefix(score.distinctSlots, base, p) && IsPrefix(bestScore.distinctSlots, best, q);
  }

  /** The sorted list of bases to try, without repetition. */
  method Candidates(preferred: nat, takesEnv: bool) returns (r: seq<nat>)
    ensures r == if preferred == 1 || (preferred == 0 && takesEnv) then [0, 1] else [preferred]
  {
    r := [preferred];
    if preferred <= 1 {
      r := r + [0];
      if takesEnv { r := r + [1]; }
    }
    ghost var all := r;
    r := SortDedup(r);
    assert preferred in all && preferred in r;
    if preferred == 1 || (preferred == 0 && takesEnv) {
      assert 0 in all && 0 in r && 1 in all && 1 in r;
      SortedZeroOne(r);
    } else {
      SortedSingle(r, preferred);
    }
  }

  lemma SortedSingle(r: seq<nat>, x: nat)
    requires (forall i, j | 0 <= i < j < |r| :: r[i] < r[j]) && forall y :: y in r <==> y == x
    ensures r == [x]
  {
    assert x in r;
    var k :| 0 <= k < |r| && r[k] == x;
    forall j | 0 <= j < |r| ensures r[j] == x && j == k { assert r[j] in r; }
    assert r[0] == x && r[|r| - 1] == x;
  }

  lemma SortedZeroOne(r: seq<nat>)
    requires (forall i, j | 0 <= i < j < |r| :: r[i] < r[j]) && forall y :: y in r <==> y == 0 || y == 1
    ensures r == [0, 1]
  {
    assert 0 in r && 1 in r;
    var zero, one :| 0 <= zero < |r| && 0 <= one < |r| && r[zero] == 0 && r[one] == 1;
    forall j | 0 <= j < |r| ensures (r[j] == 0 && j == zero) || (r[j] == 1 && j == one) { assert r[j] in r; }
    assert zero < one && r[0] <= 1 && r[|r| - 1] <= 1 && r[1] <= 1;
  }

  /** Sorts the few candidates and drops repetitions. */
  method SortDedup(s: seq<nat>) returns (r: seq<nat>)
    ensures forall x :: x in r <==> x in s
    ensures forall i, j | 0 <= i < j < |r| :: r[i] < r[j]
  {
    r := [];
    for i := 0 to |s|
      invariant forall x :: x in r <==> x in s[..i]
      invariant forall k, j | 0 <= k < j < |r| :: r[k] < r[j]
    {
      assert s[..i + 1] == s[..i] + [s[i]];
      var k := 0;
      while k < |r| && r[k] < s[i]
        invariant 0 <= k <= |r| && forall j | 0 <= j < k :: r[j] < s[i]
      {
        k := k + 1;
      }
      if k == |r| || r[k] != s[i] { r := r[..k] + [s[i]] + r[k..]; }
    }
    assert s[..|s|] == s;
  }

  /** The preferred base stands whenever hidden slots precede the parameters, or the
      environment is taken in slot 0; an override always beats it on prefix, then hits. */
  lemma OverrideIsJustified(body: seq<Stmt>, count: nat, preferred: nat, takesEnv: bool)
    ensures preferred >= 2 || preferred == 0 || count == 0 ==> !StealsSlotZero(body, count, preferred, takesEnv)
    ensures StealsSlotZero(body, count, preferred, takesEnv) ==>
              var es, rebound := ScoredNodesAll(body), ParamLocals.Rebound(body);
              var p, q := Prefix(es, Layout(0, count, rebound)), Prefix(es, Layout(1, count, rebound));
              && p <= count && p >= (if takesEnv then 2 else if count < 2 then count else 2)
              && (forall slot: nat | slot < p :: slot in Slots(es, Layout(0, count, rebound)))
              && (p > q || (p == q && Hits(es, Layout(0, count, rebound)) > Hits(es, Layout(1, count, rebound))))
  {
    var es, rebound := ScoredNodesAll(body), ParamLocals.Rebound(body);
    assert IsPrefix(Slots(es, Layout(0, count, rebound)), 0, Prefix(es, Layout(0, count, rebound)));
  }
}
