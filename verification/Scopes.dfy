/** Which scopes are open at a statement, and which stores a run goes through.

    Blocks, match arms and loop bodies open a scope each. What an inner scope binds is settled
    by the text alone: what it starts with, and the `let`s before the statement. */
module Scopes {
  import opened Ir
  import opened Semantics

  // ---------------------------------------------------------------------
  // Scopes of the text
  // ---------------------------------------------------------------------

  /** The names bound in each scope inside the function's outermost one, innermost last. */
  type Scopes = seq<set<string>>

  /** An inner scope binds the name, so a read of it does not reach the outermost scope. */
  predicate Shadowed(scopes: Scopes, x: string) {
    exists i :: 0 <= i < |scopes| && x in scopes[i]
  }

  /** The scopes after a statement. */
  function After(s: Stmt, scopes: Scopes): (r: Scopes)
    ensures |r| == |scopes|
  {
    if s.Let? && scopes != [] then scopes[..|scopes| - 1] + [scopes[|scopes| - 1] + {s.name}] else scopes
  }

  function Bindings(p: Pattern): set<string> {
    if p.EnumVariant? then set x | x in p.bindings else {}
  }

  // ---------------------------------------------------------------------
  // Stores of that shape
  // ---------------------------------------------------------------------

  /** The inner scopes of the store bind these names. */
  ghost predicate Shaped(frames: Frames, scopes: Scopes) {
    |frames| == |scopes| + 1 && forall i | 0 <= i < |scopes| :: frames[i + 1].Keys == scopes[i]
  }

  /** All but the innermost do. */
  ghost predicate ShapedOutside(frames: Frames, scopes: Scopes) {
    |frames| == |scopes| + 1 && forall i | 0 <= i < |scopes| - 1 :: frames[i + 1].Keys == scopes[i]
  }

  /** The outermost scope still has these names and words. */
  ghost predicate Holds(frames: Frames, pins: map<string, Word>) {
    frames != [] && forall x | x in pins :: x in frames[0] && frames[0][x] == pins[x]
  }

  /** A name that no inner scope binds is read from the outermost one. */
  lemma {:induction false} FindUnshadowed(frames: Frames, scopes: Scopes, pins: map<string, Word>, x: string)
    requires Shaped(frames, scopes) && Holds(frames, pins) && x in pins && !Shadowed(scopes, x)
    ensures Find(frames, x) == Some(pins[x])
  {
    var n := |scopes|;
    if n > 0 {
      assert frames[n].Keys == scopes[n - 1];
      assert x !in frames[n];
      FindUnshadowed(frames[..n], scopes[..n - 1], pins, x);
    }
  }

  lemma BindKept(frames: Frames, scopes: Scopes, pins: map<string, Word>, s: Stmt, w: Word)
    requires Shaped(frames, scopes) && Holds(frames, pins) && s.Let?
    requires scopes == [] && s.name in pins ==> w == pins[s.name]
    ensures Shaped(Bind(frames, s.name, w), After(s, scopes)) && Holds(Bind(frames, s.name, w), pins)
  {
  }

  lemma {:induction false} StoreKept(frames: Frames, scopes: Scopes, pins: map<string, Word>, x: string, w: Word)
    requires Shaped(frames, scopes) && Holds(frames, pins)
    requires !Shadowed(scopes, x) && x in pins ==> w == pins[x]
    ensures Shaped(Store(frames, x, w), scopes) && Holds(Store(frames, x, w), pins)
  {
    var n := |scopes|;
    if n > 0 {
      assert frames[n].Keys == scopes[n - 1];
      if x !in frames[n] {
        var outer := scopes[..n - 1];
        assert Shadowed(outer, x) ==> Shadowed(scopes, x);
        forall i | 0 <= i < n && x in scopes[i] ensures Shadowed(outer, x) {
          assert x in outer[i];
        }
        StoreKept(frames[..n], outer, pins, x, w);
      }
    }
  }

  lemma PushKept(frames: Frames, scopes: Scopes, pins: map<string, Word>, scope: Frame)
    requires Shaped(frames, scopes) && Holds(frames, pins)
    ensures Shaped(frames + [scope], scopes + [scope.Keys]) && Holds(frames + [scope], pins)
  {
  }

  lemma PopKept(frames: Frames, scopes: Scopes, names: set<string>, pins: map<string, Word>)
    requires ShapedOutside(frames, scopes + [names]) && Holds(frames, pins)
    ensures Shaped(Pop(frames), scopes) && Holds(Pop(frames), pins)
  {
    forall i | 0 <= i < |scopes| ensures Pop(frames)[i + 1].Keys == scopes[i] {
      assert (scopes + [names])[i] == scopes[i];
    }
  }

  /** What a statement leaves behind. */
  ghost predicate StmtKept(o: Outcome, s: Stmt, scopes: Scopes, pins: map<string, Word>) {
    && (o.Normal? ==> Holds(o.frames, pins) && Shaped(o.frames, After(s, scopes)))
    && (o.Broke? || o.Continued? ==> Holds(o.frames, pins) && ShapedOutside(o.frames, scopes))
  }

  /** What a list of statements leaves behind, its own scope aside. */
  ghost predicate ListKept(o: Outcome, scopes: Scopes, pins: map<string, Word>) {
    o.Normal? || o.Broke? || o.Continued? ==> Holds(o.frames, pins) && ShapedOutside(o.frames, scopes)
  }

  /** What a block leaves behind. */
  ghost predicate BlockKept(o: Outcome, scopes: Scopes, pins: map<string, Word>) {
    o.Normal? || o.Broke? || o.Continued? ==> Holds(o.frames, pins) && Shaped(o.frames, scopes)
  }

  lemma LeaveKept(o: Outcome, scopes: Scopes, names: set<string>, pins: map<string, Word>)
    requires ListKept(o, scopes + [names], pins)
    ensures BlockKept(LeaveScope(o), scopes, pins)
  {
    if o.Normal? || o.Broke? || o.Continued? { PopKept(o.frames, scopes, names, pins); }
  }

  // ---------------------------------------------------------------------
  // The stores of a run
  // ---------------------------------------------------------------------

  /** The store before a statement that is executed, and the scopes open there. */
  datatype Visit = Visit(frames: Frames, scopes: Scopes)

  /** The stores before every statement that a run executes: those of nested blocks and of every
      iteration of a loop as well, in the order of execution. */
  function VisitAll(h: Host, fuel: nat, ss: seq<Stmt>, scopes: Scopes, frames: Frames, trace: Trace): seq<Visit>
    decreases fuel, ss, 0
  {
    if ss == [] then []
    else
      var o := Exec(h, fuel, ss[0], frames, trace);
      [Visit(frames, scopes)] + VisitStmt(h, fuel, ss[0], scopes, frames, trace)
      + if o.Normal? then VisitAll(h, fuel, ss[1..], After(ss[0], scopes), o.frames, o.trace) else []
  }

  function VisitBlock(h: Host, fuel: nat, ss: seq<Stmt>, scope: Frame, scopes: Scopes, frames: Frames, trace: Trace): seq<Visit>
    decreases fuel, ss, 1
  {
    VisitAll(h, fuel, ss, scopes + [scope.Keys], frames + [scope], trace)
  }

  function VisitStmt(h: Host, fuel: nat, s: Stmt, scopes: Scopes, frames: Frames, trace: Trace): seq<Visit>
    decreases fuel, s, 2
  {
    match s
    case If(c, a, b) =>
      var r := Eval(h, c, frames, trace);
      if !r.Val? then [] else VisitBlock(h, fuel, if r.word != 0 then a else b, map[], scopes, frames, r.trace)
    case Match(e, arms) =>
      var r := Eval(h, e, frames, trace);
      if !r.Val? then [] else VisitArms(h, fuel, arms, r.word, scopes, frames, r.trace)
    case Loop(b) => VisitLoop(h, fuel, b, scopes, frames, trace)
    case For(x, lo, hi, step, b) =>
      var r := Eval(h, lo, frames, trace);
      if !r.Val? then []
      else
        var r' := Eval(h, hi, frames, r.trace);
        if !r'.Val? then [] else VisitFor(h, fuel, x, r.word, r'.word, step, b, scopes, frames, r'.trace)
    case Block(b) => VisitBlock(h, fuel, b, map[], scopes, frames, trace)
    case _ => []
  }

  function VisitArms(h: Host, fuel: nat, arms: seq<Arm>, w: Word, scopes: Scopes, frames: Frames, trace: Trace): seq<Visit>
    decreases fuel, arms, 0
  {
    if arms == [] then []
    else
      match arms[0].pattern
      case Wildcard => VisitBlock(h, fuel, arms[0].body, map[], scopes, frames, trace)
      case EnumVariant(ty, v, names) =>
        if h.matches(ty, v, w) then VisitBlock(h, fuel, arms[0].body, Payload(h, ty, v, w, names), scopes, frames, trace)
        else VisitArms(h, fuel, arms[1..], w, scopes, frames, trace)
      case Literal(e) =>
        var r := Eval(h, e, frames, trace);
        if !r.Val? then []
        else if r.word == w then VisitBlock(h, fuel, arms[0].body, map[], scopes, frames, r.trace)
        else VisitArms(h, fuel, arms[1..], w, scopes, frames, r.trace)
  }

  function VisitLoop(h: Host, fuel: nat, body: seq<Stmt>, scopes: Scopes, frames: Frames, trace: Trace): seq<Visit>
    decreases fuel, body, 3
  {
    if fuel == 0 then []
    else
      var o := ExecBlock(h, fuel - 1, body, map[], frames, trace);
      VisitBlock(h, fuel - 1, body, map[], scopes, frames, trace)
      + if o.Normal? || o.Continued? then VisitLoop(h, fuel - 1, body, scopes, o.frames, o.trace) else []
  }

  function VisitFor(h: Host, fuel: nat, x: string, lo: Word, hi: Word, step: int, body: seq<Stmt>,
                    scopes: Scopes, frames: Frames, trace: Trace): seq<Visit>
    decreases fuel, body, 3
  {
    if lo >= hi || fuel == 0 then []
    else
      var o := ExecBlock(h, fuel - 1, body, map[x := lo], frames, trace);
      VisitBlock(h, fuel - 1, body, map[x := lo], scopes, frames, trace)
      + if o.Normal? || o.Continued? then VisitFor(h, fuel - 1, x, lo + step, hi, step, body, scopes, o.frames, o.trace)
        else []
  }

  /** The store has the shape that the text gives it, and the outermost scope is as it was. */
  ghost predicate VisitHolds(v: Visit, pins: map<string, Word>) {
    Shaped(v.frames, v.scopes) && Holds(v.frames, pins)
  }

  ghost predicate AllHold(vs: seq<Visit>, pins: map<string, Word>) {
    forall i | 0 <= i < |vs| :: VisitHolds(vs[i], pins)
  }

  lemma AllHoldAppend(a: seq<Visit>, b: seq<Visit>, pins: map<string, Word>)
    requires AllHold(a, pins) && AllHold(b, pins)
    ensures AllHold(a + b, pins)
  {
    forall i | 0 <= i < |a + b| ensures VisitHolds((a + b)[i], pins) {
      if i < |a| { assert VisitHolds(a[i], pins); } else { assert VisitHolds(b[i - |a|], pins); }
    }
  }

  lemma AllHoldFirst(v: Visit, a: seq<Visit>, b: seq<Visit>, pins: map<string, Word>)
    requires VisitHolds(v, pins) && AllHold(a, pins) && AllHold(b, pins)
    ensures AllHold([v] + a + b, pins)
  {
    AllHoldAppend([v], a, pins);
    AllHoldAppend([v] + a, b, pins);
  }
}
