/** The binding ids of `BoolLocals` and the stores of a run.

    Ids are given by walking the text. Here they are followed along a run: at every statement that
    is executed the scopes of ids and the scopes of the store bind the same names, so an assignment
    writes the very entry that the binding with its id made. */
module IdScopes {
  import opened Ir
  import opened Semantics
  import opened BoolLocals

  /** The store binds what the text binds, scope by scope; the outermost scope may hold more. */
  ghost predicate Agrees(frames: Frames, scopes: Scopes) {
    && |frames| == |scopes| > 0 && scopes[0].Keys <= frames[0].Keys
    && forall i | 1 <= i < |scopes| :: frames[i].Keys == scopes[i].Keys
  }

  /** All scopes but the innermost do. */
  ghost predicate AgreesOutside(frames: Frames, scopes: Scopes) {
    |frames| == |scopes| > 0 && (|scopes| == 1 || Agrees(frames[..|frames| - 1], scopes[..|scopes| - 1]))
  }

  // ---------------------------------------------------------------------
  // One step
  // ---------------------------------------------------------------------

  /** A binding makes an entry in the innermost scope, under its own id. */
  lemma BindingMakesEntry(frames: Frames, scopes: Scopes, x: string, id: nat, w: Word)
    requires Agrees(frames, scopes)
    ensures var n := |scopes| - 1;
            && Bind(frames, x, w) == frames[n := frames[n][x := w]]
            && Declare(scopes, x, id)[..n] == scopes[..n] && Declare(scopes, x, id)[n] == scopes[n][x := id]
            && Agrees(Bind(frames, x, w), Declare(scopes, x, id))
  {
  }

  /** An assignment writes the entry of the binding that it resolves to, in the scope that made it,
      and no other. */
  lemma {:induction false} AssignmentWritesItsEntry(frames: Frames, scopes: Scopes, x: string, w: Word) returns (k: nat)
    requires Agrees(frames, scopes) && Resolve(scopes, x).Some?
    ensures k < |scopes| && x in scopes[k] && Resolve(scopes, x) == Some(scopes[k][x])
    ensures x in frames[k] && Store(frames, x, w) == frames[k := frames[k][x := w]]
    ensures Find(frames, x) == Some(frames[k][x])
  {
    var n := |scopes| - 1;
    if x in scopes[n] {
      k := n;
    } else {
      k := AssignmentWritesItsEntry(frames[..n], scopes[..n], x, w);
      assert frames[..n][k] == frames[k] && scopes[..n][k] == scopes[k];
      assert frames == frames[..n] + [frames[n]];
    }
  }

  lemma {:induction false} StoreAgrees(frames: Frames, scopes: Scopes, x: string, w: Word)
    requires Agrees(frames, scopes)
    ensures Agrees(Store(frames, x, w), scopes)
  {
    var n := |frames| - 1;
    if n > 0 && x !in frames[n] {
      StoreAgrees(frames[..n], scopes[..n], x, w);
      var outer := Store(frames[..n], x, w);
      forall i | 1 <= i < |scopes| ensures (outer + [frames[n]])[i].Keys == scopes[i].Keys {
        if i < n { assert scopes[..n][i] == scopes[i]; }
      }
    }
  }

  lemma EntryAgrees(frames: Frames, scopes: Scopes, scope: Frame, ids: map<string, nat>)
    requires Agrees(frames, scopes) && scope.Keys == ids.Keys
    ensures Agrees(frames + [scope], scopes + [ids])
  {
  }

  lemma ExitAgrees(frames: Frames, scopes: Scopes, ids: map<string, nat>)
    requires AgreesOutside(frames, scopes + [ids]) && scopes != []
    ensures Agrees(Pop(frames), scopes)
  {
    assert (scopes + [ids])[..|scopes|] == scopes;
  }

  lemma InsideOutside(frames: Frames, scopes: Scopes)
    requires Agrees(frames, scopes)
    ensures AgreesOutside(frames, scopes)
  {
    var n := |scopes| - 1;
    if n > 0 {
      forall i | 1 <= i < n ensures frames[..n][i].Keys == scopes[..n][i].Keys { assert frames[i].Keys == scopes[i].Keys; }
    }
  }

  lemma ArmIds(h: Host, ty: string, v: string, w: Word, names: seq<string>, next: nat)
    ensures Payload(h, ty, v, w, names).Keys == ArmScope(names, next).Keys
  {
    forall x ensures x in Payload(h, ty, v, w, names) <==> x in ArmScope(names, next) { LexicalInArm(names, next, x); }
  }

  // ---------------------------------------------------------------------
  // Whole runs
  // ---------------------------------------------------------------------

  /** A statement that is executed: the store before it, and the ids that the text gives. */
  datatype Visit = Visit(s: Stmt, frames: Frames, scopes: Scopes, next: nat)

  /** All statements that a run executes, in blocks, arms and every iteration of loops. */
  function VisitAll(h: Host, fuel: nat, ss: seq<Stmt>, next: nat, scopes: Scopes, frames: Frames, trace: Trace): seq<Visit>
    requires scopes != []
    decreases fuel, ss, 0
  {
    if ss == [] then []
    else
      var o := Exec(h, fuel, ss[0], frames, trace);
      [Visit(ss[0], frames, scopes, next)] + VisitStmt(h, fuel, ss[0], next, scopes, frames, trace)
      + if o.Normal? then VisitAll(h, fuel, ss[1..], next + Binders(ss[0]), After(ss[0], next, scopes), o.frames, o.trace) else []
  }

  function VisitBlock(h: Host, fuel: nat, ss: seq<Stmt>, scope: Frame, ids: map<string, nat>, next: nat, scopes: Scopes,
                      frames: Frames, trace: Trace): seq<Visit>
    decreases fuel, ss, 1
  {
    VisitAll(h, fuel, ss, next, scopes + [ids], frames + [scope], trace)
  }

  function VisitStmt(h: Host, fuel: nat, s: Stmt, next: nat, scopes: Scopes, frames: Frames, trace: Trace): seq<Visit>
    decreases fuel, s, 2
  {
    match s
    case If(c, a, b) =>
      var r := Eval(h, c, frames, trace);
      if !r.Val? then []
      else if r.word != 0 then VisitBlock(h, fuel, a, map[], map[], next, scopes, frames, r.trace)
      else VisitBlock(h, fuel, b, map[], map[], next + BindersAll(a), scopes, frames, r.trace)
    case Match(e, arms) =>
      var r := Eval(h, e, frames, trace);
      if !r.Val? then [] else VisitArms(h, fuel, arms, r.word, next, scopes, frames, r.trace)
    case Loop(b) => VisitLoop(h, fuel, b, next, scopes, frames, trace)
    case For(x, lo, hi, step, b) =>
      var r := Eval(h, lo, frames, trace);
      if !r.Val? then []
      else
        var r' := Eval(h, hi, frames, r.trace);
        if !r'.Val? then [] else VisitFor(h, fuel, x, r.word, r'.word, step, b, next, scopes, frames, r'.trace)
    case Block(b) => VisitBlock(h, fuel, b, map[], map[], next, scopes, frames, trace)
    case _ => []
  }

  function VisitArms(h: Host, fuel: nat, arms: seq<Arm>, w: Word, next: nat, scopes: Scopes, frames: Frames, trace: Trace): seq<Visit>
    decreases fuel, arms, 0
  {
    if arms == [] then []
    else
      var arm, rest := arms[0], arms[1..];
      var names := PatternNames(arm.pattern);
      var inside, after := next + |names|, next + BindersArm(arm);
      match arm.pattern
      case Wildcard => VisitBlock(h, fuel, arm.body, map[], map[], inside, scopes, frames, trace)
      case EnumVariant(ty, v, xs) =>
        if h.matches(ty, v, w)
        then VisitBlock(h, fuel, arm.body, Payload(h, ty, v, w, xs), ArmScope(xs, next), inside, scopes, frames, trace)
        else VisitArms(h, fuel, rest, w, after, scopes, frames, trace)
      case Literal(e) =>
        var r := Eval(h, e, frames, trace);
        if !r.Val? then []
        else if r.word == w then VisitBlock(h, fuel, arm.body, map[], map[], inside, scopes, frames, r.trace)
        else VisitArms(h, fuel, rest, w, after, scopes, frames, r.trace)
  }

  function VisitLoop(h: Host, fuel: nat, body: seq<Stmt>, next: nat, scopes: Scopes, frames: Frames, trace: Trace): seq<Visit>
    decreases fuel, body, 3
  {
    if fuel == 0 then []
    else
      var o := ExecBlock(h, fuel - 1, body, map[], frames, trace);
      VisitBlock(h, fuel - 1, body, map[], map[], next, scopes, frames, trace)
      + if o.Normal? || o.Continued? then VisitLoop(h, fuel - 1, body, next, scopes, o.frames, o.trace) else []
  }

  function VisitFor(h: Host, fuel: nat, x: string, lo: Word, hi: Word, step: int, body: seq<Stmt>, next: nat, scopes: Scopes,
                    frames: Frames, trace: Trace): seq<Visit>
    decreases fuel, body, 3
  {
    if lo >= hi || fuel == 0 then []
    else
      var o := ExecBlock(h, fuel - 1, body, map[x := lo], frames, trace);
      VisitBlock(h, fuel - 1, body, map[x := lo], map[x := next], next + 1, scopes, frames, trace)
      + if o.Normal? || o.Continued? then VisitFor(h, fuel - 1, x, lo + step, hi, step, body, next, scopes, o.frames, o.trace)
        else []
  }

  ghost predicate AllAgree(vs: seq<Visit>) { forall i | 0 <= i < |vs| :: Agrees(vs[i].frames, vs[i].scopes) }

  lemma AllAgreeAppend(a: seq<Visit>, b: seq<Visit>)
    requires AllAgree(a) && AllAgree(b)
    ensures AllAgree(a + b)
  {
    forall i | 0 <= i < |a + b| ensures Agrees((a + b)[i].frames, (a + b)[i].scopes) {
      if i >= |a| { assert (a + b)[i] == b[i - |a|]; }
    }
  }

  ghost predicate Stays(o: Outcome, scopes: Scopes) {
    o.Normal? || o.Broke? || o.Continued? ==> Agrees(o.frames, scopes)
  }

  ghost predicate StaysOutside(o: Outcome, scopes: Scopes) {
    o.Normal? || o.Broke? || o.Continued? ==> AgreesOutside(o.frames, scopes)
  }

  /** What a statement leaves behind. */
  ghost predicate StmtStays(o: Outcome, s: Stmt, next: nat, scopes: Scopes)
    requires scopes != []
  {
    && (o.Normal? ==> Agrees(o.frames, After(s, next, scopes)))
    && (o.Broke? || o.Continued? ==> Agrees(o.frames, scopes))
  }

  lemma LeaveAgrees(o: Outcome, scopes: Scopes, ids: map<string, nat>)
    requires StaysOutside(o, scopes + [ids]) && scopes != []
    ensures Stays(LeaveScope(o), scopes)
  {
    if o.Normal? || o.Broke? || o.Continued? { ExitAgrees(o.frames, scopes, ids); }
  }

  lemma {:induction false} StmtAgrees(h: Host, fuel: nat, s: Stmt, next: nat, scopes: Scopes, frames: Frames, trace: Trace)
    requires Agrees(frames, scopes)
    ensures StmtStays(Exec(h, fuel, s, frames, trace), s, next, scopes)
    ensures AllAgree(VisitStmt(h, fuel, s, next, scopes, frames, trace))
    decreases fuel, s, 2
  {
    match s
    case Let(_, _, _) => BindAgrees(h, fuel, s, next, scopes, frames, trace);
    case Assign(_, _) => BindAgrees(h, fuel, s, next, scopes, frames, trace);
    case If(_, _, _) => IfAgrees(h, fuel, s, next, scopes, frames, trace);
    case Match(e, arms) =>
      var r := Eval(h, e, frames, trace);
      if r.Val? { ArmsAgree(h, fuel, arms, r.word, next, scopes, frames, r.trace); }
    case Loop(b) => LoopAgrees(h, fuel, b, next, scopes, frames, trace);
    case For(_, _, _, _, _) => RangeAgrees(h, fuel, s, next, scopes, frames, trace);
    case Block(b) => BlockAgrees(h, fuel, b, map[], map[], next, scopes, frames, trace);
    case _ =>
  }

  lemma BindAgrees(h: Host, fuel: nat, s: Stmt, next: nat, scopes: Scopes, frames: Frames, trace: Trace)
    requires Agrees(frames, scopes) && (s.Let? || s.Assign?)
    ensures StmtStays(Exec(h, fuel, s, frames, trace), s, next, scopes)
  {
    var r := Eval(h, s.value, frames, trace);
    if r.Val? {
      if s.Let? {
        BindingMakesEntry(frames, scopes, s.name, next, r.word);
      } else {
        StoreAgrees(frames, scopes, s.target, r.word);
      }
    }
  }

  lemma {:induction false} IfAgrees(h: Host, fuel: nat, s: Stmt, next: nat, scopes: Scopes, frames: Frames, trace: Trace)
    requires Agrees(frames, scopes) && s.If?
    ensures StmtStays(Exec(h, fuel, s, frames, trace), s, next, scopes)
    ensures AllAgree(VisitStmt(h, fuel, s, next, scopes, frames, trace))
    decreases fuel, s, 1
  {
    var r := Eval(h, s.cond, frames, trace);
    if r.Val? {
      if r.word != 0 {
        BlockAgrees(h, fuel, s.thenBody, map[], map[], next, scopes, frames, r.trace);
      } else {
        BlockAgrees(h, fuel, s.elseBody, map[], map[], next + BindersAll(s.thenBody), scopes, frames, r.trace);
      }
    }
  }

  lemma {:induction false} RangeAgrees(h: Host, fuel: nat, s: Stmt, next: nat, scopes: Scopes, frames: Frames, trace: Trace)
    requires Agrees(frames, scopes) && s.For?
    ensures StmtStays(Exec(h, fuel, s, frames, trace), s, next, scopes)
    ensures AllAgree(VisitStmt(h, fuel, s, next, scopes, frames, trace))
    decreases fuel, s, 1
  {
    var r := Eval(h, s.start, frames, trace);
    if r.Val? {
      var r' := Eval(h, s.end, frames, r.trace);
      if r'.Val? { ForAgrees(h, fuel, s.loopVar, r.word, r'.word, s.step, s.body, next, scopes, frames, r'.trace); }
    }
  }

  lemma {:induction false} ListAgrees(h: Host, fuel: nat, ss: seq<Stmt>, next: nat, scopes: Scopes, frames: Frames, trace: Trace)
    requires Agrees(frames, scopes)
    ensures StaysOutside(ExecAll(h, fuel, ss, frames, trace), scopes)
    ensures AllAgree(VisitAll(h, fuel, ss, next, scopes, frames, trace))
    decreases fuel, ss, 0
  {
    InsideOutside(frames, scopes);
    if ss != [] {
      StmtAgrees(h, fuel, ss[0], next, scopes, frames, trace);
      var o, after := Exec(h, fuel, ss[0], frames, trace), After(ss[0], next, scopes);
      var first := [Visit(ss[0], frames, scopes, next)];
      var inner, rest := VisitStmt(h, fuel, ss[0], next, scopes, frames, trace), [];
      if o.Normal? {
        ListAgrees(h, fuel, ss[1..], next + Binders(ss[0]), after, o.frames, o.trace);
        rest := VisitAll(h, fuel, ss[1..], next + Binders(ss[0]), after, o.frames, o.trace);
        SameOutside(ss[0], next, scopes);
      }
      LastOutside(o, ss[0], next, scopes);
      AllAgreeAppend(first, inner);
      AllAgreeAppend(first + inner, rest);
    }
  }

  /** A statement changes the innermost scope only. */
  lemma SameOutside(s: Stmt, next: nat, scopes: Scopes)
    requires scopes != []
    ensures forall frames: Frames :: AgreesOutside(frames, After(s, next, scopes)) <==> AgreesOutside(frames, scopes)
  {
    assert After(s, next, scopes)[..|scopes| - 1] == scopes[..|scopes| - 1];
  }

  lemma LastOutside(o: Outcome, s: Stmt, next: nat, scopes: Scopes)
    requires scopes != [] && StmtStays(o, s, next, scopes)
    ensures StaysOutside(o, scopes)
  {
    SameOutside(s, next, scopes);
    if o.Normal? {
      InsideOutside(o.frames, After(s, next, scopes));
    } else if o.Broke? || o.Continued? {
      InsideOutside(o.frames, scopes);
    }
  }

  lemma {:induction false} BlockAgrees(h: Host, fuel: nat, ss: seq<Stmt>, scope: Frame, ids: map<string, nat>, next: nat, scopes: Scopes,
                                       frames: Frames, trace: Trace)
    requires Agrees(frames, scopes) && scope.Keys == ids.Keys
    ensures Stays(ExecBlock(h, fuel, ss, scope, frames, trace), scopes)
    ensures AllAgree(VisitBlock(h, fuel, ss, scope, ids, next, scopes, frames, trace))
    decreases fuel, ss, 1
  {
    EntryAgrees(frames, scopes, scope, ids);
    ListAgrees(h, fuel, ss, next, scopes + [ids], frames + [scope], trace);
    LeaveAgrees(ExecAll(h, fuel, ss, frames + [scope], trace), scopes, ids);
  }

  lemma {:induction false} ArmsAgree(h: Host, fuel: nat, arms: seq<Arm>, w: Word, next: nat, scopes: Scopes, frames: Frames, trace: Trace)
    requires Agrees(frames, scopes)
    ensures Stays(ExecArms(h, fuel, arms, w, frames, trace), scopes)
    ensures AllAgree(VisitArms(h, fuel, arms, w, next, scopes, frames, trace))
    decreases fuel, arms, 0
  {
    if arms != [] {
      var body, rest := arms[0].body, arms[1..];
      var inside, after := next + |PatternNames(arms[0].pattern)|, next + BindersArm(arms[0]);
      match arms[0].pattern
      case Wildcard => BlockAgrees(h, fuel, body, map[], map[], inside, scopes, frames, trace);
      case EnumVariant(ty, v, xs) =>
        ArmIds(h, ty, v, w, xs, next);
        if h.matches(ty, v, w) {
          BlockAgrees(h, fuel, body, Payload(h, ty, v, w, xs), ArmScope(xs, next), inside, scopes, frames, trace);
        } else {
          ArmsAgree(h, fuel, rest, w, after, scopes, frames, trace);
        }
      case Literal(e) =>
        var r := Eval(h, e, frames, trace);
        if r.Val? && r.word == w {
          BlockAgrees(h, fuel, body, map[], map[], inside, scopes, frames, r.trace);
        } else if r.Val? {
          ArmsAgree(h, fuel, rest, w, after, scopes, frames, r.trace);
        }
    }
  }

  lemma {:induction false} LoopAgrees(h: Host, fuel: nat, body: seq<Stmt>, next: nat, scopes: Scopes, frames: Frames, trace: Trace)
    requires Agrees(frames, scopes)
    ensures Stays(ExecLoop(h, fuel, body, frames, trace), scopes)
    ensures AllAgree(VisitLoop(h, fuel, body, next, scopes, frames, trace))
    decreases fuel, body, 3
  {
    if fuel != 0 {
      BlockAgrees(h, fuel - 1, body, map[], map[], next, scopes, frames, trace);
      var o := ExecBlock(h, fuel - 1, body, map[], frames, trace);
      var first, rest := VisitBlock(h, fuel - 1, body, map[], map[], next, scopes, frames, trace), [];
      if o.Normal? || o.Continued? {
        LoopAgrees(h, fuel - 1, body, next, scopes, o.frames, o.trace);
        rest := VisitLoop(h, fuel - 1, body, next, scopes, o.frames, o.trace);
      }
      AllAgreeAppend(first, rest);
    }
  }

  lemma {:induction false} ForAgrees(h: Host, fuel: nat, x: string, lo: Word, hi: Word, step: int, body: seq<Stmt>, next: nat,
                                     scopes: Scopes, frames: Frames, trace: Trace)
    requires Agrees(frames, scopes)
    ensures Stays(ExecFor(h, fuel, x, lo, hi, step, body, frames, trace), scopes)
    ensures AllAgree(VisitFor(h, fuel, x, lo, hi, step, body, next, scopes, frames, trace))
    decreases fuel, body, 3
  {
    if lo < hi && fuel != 0 {
      BlockAgrees(h, fuel - 1, body, map[x := lo], map[x := next], next + 1, scopes, frames, trace);
      var o := ExecBlock(h, fuel - 1, body, map[x := lo], frames, trace);
      var first, rest := VisitBlock(h, fuel - 1, body, map[x := lo], map[x := next], next + 1, scopes, frames, trace), [];
      if o.Normal? || o.Continued? {
        ForAgrees(h, fuel - 1, x, lo + step, hi, step, body, next, scopes, o.frames, o.trace);
        rest := VisitFor(h, fuel - 1, x, lo + step, hi, step, body, next, scopes, o.frames, o.trace);
      }
      AllAgreeAppend(first, rest);
    }
  }

  /** In every run of a body, every assignment that is given an id writes the entry that the binding
      with this id made, in the scope that made it, and no other. */
  lemma IdsAgreeWithStore(h: Host, fuel: nat, ss: seq<Stmt>, store: Frame, trace: Trace, i: nat, w: Word) returns (k: nat)
    requires var vs := VisitAll(h, fuel, ss, 0, TOP_LEVEL, [store], trace);
             i < |vs| && vs[i].s.Assign? && Resolve(vs[i].scopes, vs[i].s.target).Some?
    ensures var v := VisitAll(h, fuel, ss, 0, TOP_LEVEL, [store], trace)[i];
            && k < |v.scopes| && v.s.target in v.scopes[k] && Resolve(v.scopes, v.s.target) == Some(v.scopes[k][v.s.target])
            && k < |v.frames| && v.s.target in v.frames[k]
            && Store(v.frames, v.s.target, w) == v.frames[k := v.frames[k][v.s.target := w]]
  {
    var vs := VisitAll(h, fuel, ss, 0, TOP_LEVEL, [store], trace);
    assert Agrees([store], TOP_LEVEL);
    ListAgrees(h, fuel, ss, 0, TOP_LEVEL, [store], trace);
    k := AssignmentWritesItsEntry(vs[i].frames, vs[i].scopes, vs[i].s.target, w);
  }
}
