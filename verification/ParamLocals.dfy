/** Resolving wasm locals that are really parameters (`resolve_param_locals`). */
module ParamLocals {
  import opened Ir
  import opened Semantics
  import opened Simulation
  import opened Scopes

  /** The words that names are held at. */
  type Pins = map<string, Word>

  predicate IsConversion(op: UnaryOp) { op.ValConvert? || op.CastAs? }

  /** A binding of slot `slot` that only re-states the slot or names a parameter. */
  predicate IsParamAliasBinding(slot: Slot, value: Expr) {
    match value
    case Local(s) => s == slot
    case Param(_) => true
    case NamedLocal(x) => x == SlotName(slot)
    case Unary(op, a) => IsConversion(op) && IsParamAliasBinding(slot, a)
    case _ => false
  }

  // ---------------------------------------------------------------------
  // Which slots are re-bound
  // ---------------------------------------------------------------------

  function ReboundBy(target: string, value: Expr): set<Slot> {
    match SlotOfName(target)
    case Some(slot) => if IsParamAliasBinding(slot, value) then {} else {slot}
    case None => {}
  }

  function ReboundStmt(s: Stmt): set<Slot>
    decreases s, 1
  {
    match s
    case Let(x, _, e) => ReboundBy(x, e)
    case Assign(x, e) => ReboundBy(x, e)
    case If(_, a, b) => Rebound(a) + Rebound(b)
    case Match(_, arms) => ReboundArms(arms)
    case Loop(b) => Rebound(b)
    case Block(b) => Rebound(b)
    case _ => {}
  }

  function Rebound(ss: seq<Stmt>): set<Slot>
    decreases ss, 0
  {
    if ss == [] then {} else ReboundStmt(ss[0]) + Rebound(ss[1..])
  }

  function ReboundArms(arms: seq<Arm>): set<Slot>
    decreases arms, 0
  {
    if arms == [] then {} else Rebound(arms[0].body) + ReboundArms(arms[1..])
  }

  method CollectReboundLocals(stmts: seq<Stmt>, rebound: set<Slot>) returns (r: set<Slot>)
    ensures r == rebound + Rebound(stmts)
    decreases stmts
  {
    r := rebound;
    for i := 0 to |stmts|
      invariant r + Rebound(stmts[i..]) == rebound + Rebound(stmts)
    {
      assert stmts[i..][1..] == stmts[i + 1..];
      match stmts[i] {
        case Let(x, _, e) => r := r + ReboundBy(x, e);
        case Assign(x, e) => r := r + ReboundBy(x, e);
        case If(_, a, b) =>
          r := CollectReboundLocals(a, r);
          r := CollectReboundLocals(b, r);
        case Match(_, arms) =>
          ghost var before := r;
          for k := 0 to |arms|
            invariant r + ReboundArms(arms[k..]) == before + ReboundArms(arms)
          {
            assert arms[k..][1..] == arms[k + 1..];
            r := CollectReboundLocals(arms[k].body, r);
          }
        case Loop(b) => r := CollectReboundLocals(b, r);
        case Block(b) => r := CollectReboundLocals(b, r);
        case _ =>
      }
    }
  }

  predicate Names(x: string, slot: Slot) { SlotOfName(x) == Some(slot) }

  predicate ArmNames(arm: Arm, slot: Slot) {
    arm.pattern.EnumVariant? && exists x :: x in arm.pattern.bindings && Names(x, slot)
  }

  /** The slot is bound anew somewhere: by a binding that is no alias, by a match arm or as a loop
      variable, in a `for` body or outside. */
  predicate StmtRebinds(s: Stmt, slot: Slot)
    decreases s, 1
  {
    match s
    case Let(x, _, e) => slot in ReboundBy(x, e)
    case Assign(x, e) => slot in ReboundBy(x, e)
    case If(_, a, b) => Rebinds(a, slot) || Rebinds(b, slot)
    case Match(_, arms) => ArmsRebind(arms, slot)
    case Loop(b) => Rebinds(b, slot)
    case Block(b) => Rebinds(b, slot)
    case For(x, _, _, _, b) => Names(x, slot) || Rebinds(b, slot)
    case _ => false
  }

  predicate Rebinds(ss: seq<Stmt>, slot: Slot)
    decreases ss, 0
  {
    ss != [] && (StmtRebinds(ss[0], slot) || Rebinds(ss[1..], slot))
  }

  predicate ArmsRebind(arms: seq<Arm>, slot: Slot)
    decreases arms, 0
  {
    arms != [] && (ArmNames(arms[0], slot) || Rebinds(arms[0].body, slot) || ArmsRebind(arms[1..], slot))
  }

  /** The slot is bound anew where the scan does not look: by a match arm, as a loop variable or
      in a `for` body. */
  predicate StmtHidesRebinding(s: Stmt, slot: Slot)
    decreases s, 1
  {
    match s
    case If(_, a, b) => HidesRebinding(a, slot) || HidesRebinding(b, slot)
    case Match(_, arms) => ArmsHideRebinding(arms, slot)
    case Loop(b) => HidesRebinding(b, slot)
    case Block(b) => HidesRebinding(b, slot)
    case For(x, _, _, _, b) => Names(x, slot) || Rebinds(b, slot)
    case _ => false
  }

  predicate HidesRebinding(ss: seq<Stmt>, slot: Slot)
    decreases ss, 0
  {
    ss != [] && (StmtHidesRebinding(ss[0], slot) || HidesRebinding(ss[1..], slot))
  }

  predicate ArmsHideRebinding(arms: seq<Arm>, slot: Slot)
    decreases arms, 0
  {
    arms != [] && (ArmNames(arms[0], slot) || HidesRebinding(arms[0].body, slot) || ArmsHideRebinding(arms[1..], slot))
  }

  /** The scan misses a slot that is bound anew exactly if all its bindings are match arms, loop
      variables or stand in `for` bodies. */
  lemma {:induction false} CollectMissesExactly(ss: seq<Stmt>, slot: Slot)
    ensures Rebinds(ss, slot) <==> slot in Rebound(ss) || HidesRebinding(ss, slot)
    decreases ss, 0
  {
    if ss != [] {
      StmtMisses(ss[0], slot);
      CollectMissesExactly(ss[1..], slot);
    }
  }

  lemma {:induction false} StmtMisses(s: Stmt, slot: Slot)
    ensures StmtRebinds(s, slot) <==> slot in ReboundStmt(s) || StmtHidesRebinding(s, slot)
    decreases s, 1
  {
    match s
    case If(_, a, b) => CollectMissesExactly(a, slot); CollectMissesExactly(b, slot);
    case Match(_, arms) => ArmsMiss(arms, slot);
    case Loop(b) => CollectMissesExactly(b, slot);
    case Block(b) => CollectMissesExactly(b, slot);
    case _ =>
  }

  lemma {:induction false} ArmsMiss(arms: seq<Arm>, slot: Slot)
    ensures ArmsRebind(arms, slot) <==> slot in ReboundArms(arms) || ArmsHideRebinding(arms, slot)
    decreases arms, 0
  {
    if arms != [] {
      CollectMissesExactly(arms[0].body, slot);
      ArmsMiss(arms[1..], slot);
    }
  }

  // ---------------------------------------------------------------------
  // The rewrite
  // ---------------------------------------------------------------------

  /** The unary forms that the replacing walker does not enter. */
  predicate Skipped(op: UnaryOp) {
    op == Try || op == SomeOf || op == SretResult || op == ValTag
  }

  function ReplaceExpr(e: Expr, names: map<Slot, string>): Expr
    decreases e, 1
  {
    match e
    case Local(slot) => if slot in names then Param(names[slot]) else e
    case Unary(op, a) => if Skipped(op) then e else Unary(op, ReplaceExpr(a, names))
    case Binary(op, a, b) =>
      if op == VecTryIterFold then e else Binary(op, ReplaceExpr(a, names), ReplaceExpr(b, names))
    case Ternary(op, a, b, c) => Ternary(op, ReplaceExpr(a, names), ReplaceExpr(b, names), ReplaceExpr(c, names))
    case Nary(op, es) => Nary(op, ReplaceExprs(es, names))
    case StorageGet(key, read, onMissing) => StorageGet(ReplaceExpr(key, names), read, onMissing)
    case MethodCall(r, f, args) => MethodCall(ReplaceExpr(r, names), f, ReplaceExprs(args, names))
    case RawHostCall(m, f, args) => RawHostCall(m, f, ReplaceExprs(args, names))
    case PublishEvent(event, topics, data) => PublishEvent(event, ReplaceExprs(topics, names), ReplaceExpr(data, names))
    case Invoke(kind, a, f, args) =>
      Invoke(kind, ReplaceExpr(a, names), ReplaceExpr(f, names), ReplaceExprs(args, names))
    case _ => e
  }

  function ReplaceExprs(es: seq<Expr>, names: map<Slot, string>): (r: seq<Expr>)
    ensures |r| == |es|
    decreases es, 0
  {
    if es == [] then [] else [ReplaceExpr(es[0], names)] + ReplaceExprs(es[1..], names)
  }

  function ReplaceStmt(s: Stmt, names: map<Slot, string>): Stmt
    decreases s, 1
  {
    match s
    case ExprStmt(e) => ExprStmt(ReplaceExpr(e, names))
    case Let(x, mutable, e) => Let(x, mutable, ReplaceExpr(e, names))
    case Assign(x, e) => Assign(x, ReplaceExpr(e, names))
    case Return(Some(e)) => Return(Some(ReplaceExpr(e, names)))
    case If(c, a, b) => If(ReplaceExpr(c, names), ReplaceStmts(a, names), ReplaceStmts(b, names))
    case Match(e, arms) => Match(ReplaceExpr(e, names), ReplaceArms(arms, names))
    case Loop(b) => Loop(ReplaceStmts(b, names))
    case Block(b) => Block(ReplaceStmts(b, names))
    case _ => s
  }

  function ReplaceStmts(ss: seq<Stmt>, names: map<Slot, string>): (r: seq<Stmt>)
    ensures |r| == |ss|
    ensures forall i :: 0 <= i < |ss| ==> r[i] == ReplaceStmt(ss[i], names)
    decreases ss, 0
  {
    if ss == [] then [] else [ReplaceStmt(ss[0], names)] + ReplaceStmts(ss[1..], names)
  }

  function ReplaceArms(arms: seq<Arm>, names: map<Slot, string>): (r: seq<Arm>)
    ensures |r| == |arms|
    decreases arms, 0
  {
    if arms == [] then []
    else [Arm(arms[0].pattern, ReplaceStmts(arms[0].body, names))] + ReplaceArms(arms[1..], names)
  }

  /** The slots that are resolved: parameter `i` lives in slot `base + i`, unless re-bound. */
  function ResolvedSlots(params: seq<string>, base: nat, rebound: set<Slot>): (names: map<Slot, string>)
    requires base + |params| <= 0x1_0000_0000
  {
    map slot: Slot | base <= slot < base + |params| && slot !in rebound :: params[slot - base]
  }

  function Resolve(ss: seq<Stmt>, params: seq<string>, base: nat): seq<Stmt>
    requires base + |params| <= 0x1_0000_0000
  {
    ReplaceStmts(ss, ResolvedSlots(params, base, Rebound(ss)))
  }

  lemma {:induction false} ReplaceNothing(e: Expr)
    ensures ReplaceExpr(e, map[]) == e
    decreases e, 1
  {
    match e
    case Unary(_, a) => ReplaceNothing(a);
    case Binary(_, a, b) => ReplaceNothing(a); ReplaceNothing(b);
    case Ternary(_, a, b, c) => ReplaceNothing(a); ReplaceNothing(b); ReplaceNothing(c);
    case Nary(_, es) => ReplaceNothingAll(es);
    case StorageGet(k, _, _) => ReplaceNothing(k);
    case MethodCall(r, _, args) => ReplaceNothing(r); ReplaceNothingAll(args);
    case RawHostCall(_, _, args) => ReplaceNothingAll(args);
    case PublishEvent(_, ts, d) => ReplaceNothingAll(ts); ReplaceNothing(d);
    case Invoke(_, a, f, args) => ReplaceNothing(a); ReplaceNothing(f); ReplaceNothingAll(args);
    case _ =>
  }

  lemma {:induction false} ReplaceNothingAll(es: seq<Expr>)
    ensures ReplaceExprs(es, map[]) == es
    decreases es, 0
  {
    if es != [] {
      ReplaceNothing(es[0]);
      ReplaceNothingAll(es[1..]);
    }
  }

  lemma {:induction false} ReplaceNothingStmt(s: Stmt)
    ensures ReplaceStmt(s, map[]) == s
    decreases s, 1
  {
    match s
    case ExprStmt(e) => ReplaceNothing(e);
    case Let(_, _, e) => ReplaceNothing(e);
    case Assign(_, e) => ReplaceNothing(e);
    case Return(Some(e)) => ReplaceNothing(e);
    case If(c, a, b) => ReplaceNothing(c); ReplaceNothingStmts(a); ReplaceNothingStmts(b);
    case Match(e, arms) => ReplaceNothing(e); ReplaceNothingArms(arms);
    case Loop(b) => ReplaceNothingStmts(b);
    case Block(b) => ReplaceNothingStmts(b);
    case _ =>
  }

  lemma {:induction false} ReplaceNothingStmts(ss: seq<Stmt>)
    ensures ReplaceStmts(ss, map[]) == ss
    decreases ss, 0
  {
    if ss != [] {
      ReplaceNothingStmt(ss[0]);
      ReplaceNothingStmts(ss[1..]);
    }
  }

  lemma {:induction false} ReplaceNothingArms(arms: seq<Arm>)
    ensures ReplaceArms(arms, map[]) == arms
    decreases arms, 0
  {
    if arms != [] {
      ReplaceNothingStmts(arms[0].body);
      ReplaceNothingArms(arms[1..]);
    }
  }

  /** The pass: rewrites the statement list in place. */
  method ResolveParamLocals(body: array<Stmt>, params: seq<string>, base: nat)
    requires base + |params| <= 0x1_0000_0000
    modifies body
    ensures body[..] == Resolve(old(body[..]), params, base)
  {
    ghost var was := body[..];
    if |params| == 0 {
      assert ResolvedSlots(params, base, Rebound(was)) == map[];
      ReplaceNothingStmts(was);
      return;
    }
    var names: map<Slot, string> := map[];
    for i := 0 to |params|
      invariant forall slot: Slot :: slot in names <==> base <= slot < base + i
      invariant forall slot :: slot in names ==> names[slot] == params[slot - base]
    {
      names := names[base + i := params[i]];
    }
    var rebound := CollectReboundLocals(body[..], {});
    names := map slot | slot in names && slot !in rebound :: names[slot];
    assert names == ResolvedSlots(params, base, Rebound(was));
    if names == map[] {
      ReplaceNothingStmts(was);
      return;
    }
    for i := 0 to body.Length
      invariant forall k :: i <= k < body.Length ==> body[k] == was[k]
      invariant forall k :: 0 <= k < i ==> body[k] == ReplaceStmt(was[k], names)
    {
      body[i] := ReplaceStmt(body[i], names);
    }
  }

  // ---------------------------------------------------------------------
  // What the pass relies on
  // ---------------------------------------------------------------------

  /** The slot and the parameter are read from the same binding, or both from the bindings that the
      function was entered with: no scope opened since binds either name. */
  predicate SameBinding(slot: Slot, param: string, scopes: Scopes) {
    param == SlotName(slot) || (!Shadowed(scopes, SlotName(slot)) && !Shadowed(scopes, param))
  }

  /** Every read that is replaced reads the entry binding, before and after. */
  predicate ReadsKeep(e: Expr, scopes: Scopes, names: map<Slot, string>)
    decreases e, 1
  {
    match e
    case Local(slot) => slot in names ==> SameBinding(slot, names[slot], scopes)
    case Unary(op, a) => Skipped(op) || ReadsKeep(a, scopes, names)
    case Binary(op, a, b) => op == VecTryIterFold || (ReadsKeep(a, scopes, names) && ReadsKeep(b, scopes, names))
    case Ternary(_, a, b, c) => ReadsKeep(a, scopes, names) && ReadsKeep(b, scopes, names) && ReadsKeep(c, scopes, names)
    case Nary(_, es) => AllReadsKeep(es, scopes, names)
    case StorageGet(key, _, _) => ReadsKeep(key, scopes, names)
    case MethodCall(r, _, args) => ReadsKeep(r, scopes, names) && AllReadsKeep(args, scopes, names)
    case RawHostCall(_, _, args) => AllReadsKeep(args, scopes, names)
    case PublishEvent(_, topics, data) => AllReadsKeep(topics, scopes, names) && ReadsKeep(data, scopes, names)
    case Invoke(_, a, f, args) => ReadsKeep(a, scopes, names) && ReadsKeep(f, scopes, names) && AllReadsKeep(args, scopes, names)
    case _ => true
  }

  predicate AllReadsKeep(es: seq<Expr>, scopes: Scopes, names: map<Slot, string>)
    decreases es, 0
  {
    es == [] || (ReadsKeep(es[0], scopes, names) && AllReadsKeep(es[1..], scopes, names))
  }

  /** The name that an expression reads, conversions aside. */
  function Source(value: Expr): Option<string> {
    match value
    case Param(x) => Some(x)
    case NamedLocal(x) => Some(x)
    case Local(slot) => Some(SlotName(slot))
    case Unary(op, a) => if IsConversion(op) then Source(a) else None
    case _ => None
  }

  function Conversions(value: Expr): set<UnaryOp> {
    if value.Unary? then {value.uop} + Conversions(value.arg) else {}
  }

  /** A name of a resolved slot or of its parameter. */
  predicate IsHeld(x: string, held: map<Slot, string>) {
    exists slot :: slot in held && (x == SlotName(slot) || x == held[slot])
  }

  predicate IsOwn(x: string, y: string, slot: Slot, param: string) {
    (x == SlotName(slot) && y == param) || (y == SlotName(slot) && x == param)
  }

  /** The same name, or a resolved slot and its own parameter. */
  predicate IsPair(x: string, y: string, held: map<Slot, string>) {
    x == y || (exists slot :: slot in held && IsOwn(x, y, slot, held[slot]))
  }

  /** The value re-states what `x` holds: it is read from the entry binding of `x` or of its pair,
      under conversions that are among `ops`. */
  predicate Restates(x: string, value: Expr, scopes: Scopes, held: map<Slot, string>, ops: set<UnaryOp>) {
    && Source(value).Some? && !Shadowed(scopes, Source(value).value)
    && IsPair(x, Source(value).value, held) && Conversions(value) <= ops
  }

  /** What the pass relies on, as a caller can read it off the text: the replaced reads read entry
      bindings, and an entry binding is only ever given what it holds. The scan decides which
      slots are `names`, replaced here, and `held`, replaced anywhere. */
  predicate Keeps(s: Stmt, scopes: Scopes, names: map<Slot, string>, held: map<Slot, string>, ops: set<UnaryOp>)
    decreases s, 1
  {
    match s
    case ExprStmt(e) => ReadsKeep(e, scopes, names)
    case Let(x, _, e) => ReadsKeep(e, scopes, names) && (scopes == [] && IsHeld(x, held) ==> Restates(x, e, scopes, held, ops))
    case Assign(x, e) =>
      ReadsKeep(e, scopes, names) && (!Shadowed(scopes, x) && IsHeld(x, held) ==> Restates(x, e, scopes, held, ops))
    case Return(Some(e)) => ReadsKeep(e, scopes, names)
    case If(c, a, b) =>
      ReadsKeep(c, scopes, names) && AllKeep(a, scopes + [{}], names, held, ops) && AllKeep(b, scopes + [{}], names, held, ops)
    case Match(e, arms) => ReadsKeep(e, scopes, names) && ArmsKeep(arms, scopes, names, held, ops)
    case Loop(b) => AllKeep(b, scopes + [{}], names, held, ops)
    case Block(b) => AllKeep(b, scopes + [{}], names, held, ops)
    case For(x, _, _, _, b) => AllKeep(b, scopes + [{x}], map[], held, ops)
    case _ => true
  }

  predicate AllKeep(ss: seq<Stmt>, scopes: Scopes, names: map<Slot, string>, held: map<Slot, string>, ops: set<UnaryOp>)
    decreases ss, 0
  {
    ss == [] || (Keeps(ss[0], scopes, names, held, ops) && AllKeep(ss[1..], After(ss[0], scopes), names, held, ops))
  }

  predicate ArmsKeep(arms: seq<Arm>, scopes: Scopes, names: map<Slot, string>, held: map<Slot, string>, ops: set<UnaryOp>)
    decreases arms, 0
  {
    arms == [] ||
    (AllKeep(arms[0].body, scopes + [Bindings(arms[0].pattern)], names, held, ops) && ArmsKeep(arms[1..], scopes, names, held, ops))
  }

  // ---------------------------------------------------------------------
  // Meaning
  // ---------------------------------------------------------------------

  /** A resolved slot and the parameter it resolves to are pinned to the same argument,
      and nothing else is pinned. */
  ghost predicate ArgumentsPinned(names: map<Slot, string>, pins: Pins) {
    && (forall slot | slot in names :: names[slot] in pins && SlotName(slot) in pins && pins[SlotName(slot)] == pins[names[slot]])
    && (forall x | x in pins :: x in names.Values || exists slot :: slot in names && x == SlotName(slot))
  }

  /** The host's conversions leave the pinned words as they are. */
  ghost predicate ConversionsKeep(h: Host, ops: set<UnaryOp>, pins: Pins) {
    forall op, x, t: Trace | op in ops && x in pins :: h.apply(OpUnary(op), [pins[x]], t) == Ok(pins[x], false)
  }

  /** What holds throughout a run: the slots replaced here are among those held, which are pinned. */
  ghost predicate Settled(h: Host, names: map<Slot, string>, held: map<Slot, string>, pins: Pins, ops: set<UnaryOp>) {
    && (forall slot | slot in names :: slot in held && held[slot] == names[slot])
    && ArgumentsPinned(held, pins) && ConversionsKeep(h, ops, pins)
  }

  /** A read that is replaced is replaced rightly in all stores of the shape that the text gives
      them exactly if both names denote their entry bindings. */
  lemma ReadAgreesExactlyWhen(slot: Slot, param: string, scopes: Scopes)
    ensures (forall h, frames, trace | Shaped(frames, scopes) && EntryAgrees(frames, slot, param) ::
               Eval(h, Local(slot), frames, trace) == Eval(h, Param(param), frames, trace))
            <==> SameBinding(slot, param, scopes)
  {
    if SameBinding(slot, param, scopes) {
      forall h, frames, trace | Shaped(frames, scopes) && EntryAgrees(frames, slot, param)
        ensures Eval(h, Local(slot), frames, trace) == Eval(h, Param(param), frames, trace)
      {
        if param != SlotName(slot) {
          var pins := map[SlotName(slot) := frames[0][SlotName(slot)], param := frames[0][param]];
          FindUnshadowed(frames, scopes, pins, SlotName(slot));
          FindUnshadowed(frames, scopes, pins, param);
        }
      }
    } else {
      var h, frames := EchoHost(), TellingStore(slot, param, scopes);
      TellingStoreTells(slot, param, scopes);
      assert Eval(h, Local(slot), frames, []) != Eval(h, Param(param), frames, []);
    }
  }

  /** The outermost scope holds the same word in the slot and in the parameter. */
  ghost predicate EntryAgrees(frames: Frames, slot: Slot, param: string) {
    frames != [] && SlotName(slot) in frames[0] && param in frames[0] && frames[0][SlotName(slot)] == frames[0][param]
  }

  /** A store of the given shape in which inner bindings of the two names hold words of their own. */
  function TellingStore(slot: Slot, param: string, scopes: Scopes): Frames {
    [map[SlotName(slot) := 0, param := 0]]
    + seq(|scopes|, i requires 0 <= i < |scopes| => map x | x in scopes[i] :: if x == SlotName(slot) then 1 else 2)
  }

  lemma {:induction false} TellingStoreTells(slot: Slot, param: string, scopes: Scopes)
    requires param != SlotName(slot)
    ensures var frames := TellingStore(slot, param, scopes);
            && Shaped(frames, scopes) && EntryAgrees(frames, slot, param)
            && Find(frames, SlotName(slot)) == Some(if Shadowed(scopes, SlotName(slot)) then 1 else 0)
            && Find(frames, param) == Some(if Shadowed(scopes, param) then 2 else 0)
    decreases |scopes|
  {
    var frames, n := TellingStore(slot, param, scopes), |scopes|;
    if n > 0 {
      var outer := scopes[..n - 1];
      TellingStoreTells(slot, param, outer);
      assert frames[..n] == TellingStore(slot, param, outer);
      ShadowedStep(scopes, SlotName(slot));
      ShadowedStep(scopes, param);
    }
  }

  lemma ShadowedStep(scopes: Scopes, x: string)
    requires scopes != []
    ensures Shadowed(scopes, x) <==> x in scopes[|scopes| - 1] || Shadowed(scopes[..|scopes| - 1], x)
  {
    var outer := scopes[..|scopes| - 1];
    forall i | 0 <= i < |scopes| && x in scopes[i] ensures x in scopes[|scopes| - 1] || Shadowed(outer, x) {
      if i < |outer| { assert x in outer[i]; }
    }
  }

  /** While every pinned name keeps its entry binding, a rewritten expression evaluates like the
      original. */
  lemma {:induction false} ReplaceKeepsValue(h: Host, e: Expr, names: map<Slot, string>, held: map<Slot, string>, pins: Pins,
                                             ops: set<UnaryOp>, scopes: Scopes, frames: Frames)
    requires Settled(h, names, held, pins, ops) && Shaped(frames, scopes) && Holds(frames, pins) && ReadsKeep(e, scopes, names)
    ensures SameAt(h, e, ReplaceExpr(e, names), frames)
    decreases e
  {
    var f := ReplaceExpr(e, names);
    if e.Local? && e.slot in names {
      if names[e.slot] != SlotName(e.slot) {
        FindUnshadowed(frames, scopes, pins, SlotName(e.slot));
        FindUnshadowed(frames, scopes, pins, names[e.slot]);
      }
    } else if f != e {
      ReplacedChildren(e, names);
      forall i | 0 <= i < |Children(e)| ensures SameAt(h, Children(e)[i], Children(f)[i], frames) {
        ChildrenKeep(e, scopes, names, i);
        ReplaceKeepsValue(h, Children(e)[i], names, held, pins, ops, scopes, frames);
      }
      CongruenceAt(h, e, f, frames);
    }
  }

  lemma {:induction false} AllReadsKeepAt(es: seq<Expr>, scopes: Scopes, names: map<Slot, string>, i: nat)
    requires AllReadsKeep(es, scopes, names) && i < |es|
    ensures ReadsKeep(es[i], scopes, names)
  {
    if i > 0 { AllReadsKeepAt(es[1..], scopes, names, i - 1); }
  }

  lemma ChildrenKeep(e: Expr, scopes: Scopes, names: map<Slot, string>, i: nat)
    requires ReadsKeep(e, scopes, names) && ReplaceExpr(e, names) != e && i < |Children(e)|
    ensures ReadsKeep(Children(e)[i], scopes, names)
  {
    match e
    case Nary(_, es) => AllReadsKeepAt(es, scopes, names, i);
    case MethodCall(_, _, args) => if i > 0 { AllReadsKeepAt(args, scopes, names, i - 1); }
    case RawHostCall(_, _, args) => AllReadsKeepAt(args, scopes, names, i);
    case PublishEvent(_, topics, _) => if i < |topics| { AllReadsKeepAt(topics, scopes, names, i); }
    case Invoke(_, _, _, args) => if i > 1 { AllReadsKeepAt(args, scopes, names, i - 2); }
    case _ =>
  }

  lemma ReplaceExprsAt(es: seq<Expr>, names: map<Slot, string>)
    ensures forall i :: 0 <= i < |es| ==> ReplaceExprs(es, names)[i] == ReplaceExpr(es[i], names)
  {
  }

  /** `f` has the head of `e`, and the rewritten children of `e`. */
  predicate Replaced(e: Expr, f: Expr, names: map<Slot, string>) {
    && SameHead(e, f) && |Children(e)| == |Children(f)|
    && forall i :: 0 <= i < |Children(e)| ==> Children(f)[i] == ReplaceExpr(Children(e)[i], names)
  }

  lemma ReplacedChildren(e: Expr, names: map<Slot, string>)
    requires ReplaceExpr(e, names) != e && !e.Local?
    ensures Replaced(e, ReplaceExpr(e, names), names)
  {
    match e
    case Nary(_, _) => ReplacedList(e, names);
    case RawHostCall(_, _, _) => ReplacedList(e, names);
    case MethodCall(_, _, _) => ReplacedCall(e, names);
    case PublishEvent(_, _, _) => ReplacedEvent(e, names);
    case Invoke(_, _, _, _) => ReplacedInvoke(e, names);
    case _ => ReplacedFixed(e, names);
  }

  lemma ReplacedFixed(e: Expr, names: map<Slot, string>)
    requires ReplaceExpr(e, names) != e && (e.Unary? || e.Binary? || e.Ternary? || e.StorageGet?)
    ensures Replaced(e, ReplaceExpr(e, names), names)
  {
  }

  lemma ReplacedList(e: Expr, names: map<Slot, string>)
    requires e.Nary? || e.RawHostCall?
    ensures Replaced(e, ReplaceExpr(e, names), names)
  {
    ReplaceExprsAt(if e.Nary? then e.items else e.args, names);
  }

  lemma ReplacedCall(e: Expr, names: map<Slot, string>)
    requires e.MethodCall?
    ensures Replaced(e, ReplaceExpr(e, names), names)
  {
    ReplaceExprsAt(e.args, names);
  }

  lemma ReplacedEvent(e: Expr, names: map<Slot, string>)
    requires e.PublishEvent?
    ensures Replaced(e, ReplaceExpr(e, names), names)
  {
    ReplaceExprsAt(e.topics, names);
  }

  lemma ReplacedInvoke(e: Expr, names: map<Slot, string>)
    requires e.Invoke?
    ensures Replaced(e, ReplaceExpr(e, names), names)
  {
    ReplaceExprsAt(e.args, names);
  }

  /** What re-states a pinned name yields the pinned word. */
  lemma {:induction false} RestatesYields(h: Host, x: string, value: Expr, held: map<Slot, string>, pins: Pins,
                                          ops: set<UnaryOp>, scopes: Scopes, frames: Frames, trace: Trace)
    requires ArgumentsPinned(held, pins) && ConversionsKeep(h, ops, pins) && Shaped(frames, scopes) && Holds(frames, pins)
    requires x in pins && Restates(x, value, scopes, held, ops)
    ensures Eval(h, value, frames, trace) == Val(pins[x], trace)
  {
    var y := Source(value).value;
    assert y in pins && pins[y] == pins[x];
    SourceYields(h, value, pins, ops, scopes, frames, trace);
  }

  lemma {:induction false} SourceYields(h: Host, value: Expr, pins: Pins, ops: set<UnaryOp>, scopes: Scopes, frames: Frames, trace: Trace)
    requires ConversionsKeep(h, ops, pins) && Shaped(frames, scopes) && Holds(frames, pins)
    requires Source(value).Some? && Source(value).value in pins && !Shadowed(scopes, Source(value).value)
    requires Conversions(value) <= ops
    ensures Eval(h, value, frames, trace) == Val(pins[Source(value).value], trace)
  {
    if value.Unary? {
      SourceYields(h, value.arg, pins, ops, scopes, frames, trace);
    } else {
      FindUnshadowed(frames, scopes, pins, Source(value).value);
    }
  }

  /** A binding leaves the entry bindings as they were. */
  lemma BindingKeepsPins(h: Host, fuel: nat, s: Stmt, names: map<Slot, string>, held: map<Slot, string>, pins: Pins,
                         ops: set<UnaryOp>, scopes: Scopes, frames: Frames, trace: Trace)
    requires s.Let? || s.Assign?
    requires Settled(h, names, held, pins, ops) && Shaped(frames, scopes) && Holds(frames, pins) && Keeps(s, scopes, names, held, ops)
    ensures Exec(h, fuel, ReplaceStmt(s, names), frames, trace) == Exec(h, fuel, s, frames, trace)
    ensures StmtKept(Exec(h, fuel, s, frames, trace), s, scopes, pins)
  {
    var x := if s.Let? then s.name else s.target;
    ReplaceKeepsValue(h, s.value, names, held, pins, ops, scopes, frames);
    var r := Eval(h, s.value, frames, trace);
    if r.Val? {
      if x in pins && Restates(x, s.value, scopes, held, ops) {
        RestatesYields(h, x, s.value, held, pins, ops, scopes, frames, trace);
      }
      assert IsHeld(x, held) || x !in pins;
      WordBound(s, x, r.word, scopes, pins, frames);
    }
  }

  lemma WordBound(s: Stmt, x: string, w: Word, scopes: Scopes, pins: Pins, frames: Frames)
    requires (s.Let? && x == s.name) || (s.Assign? && x == s.target)
    requires Shaped(frames, scopes) && Holds(frames, pins)
    requires x in pins && (if s.Let? then scopes == [] else !Shadowed(scopes, x)) ==> w == pins[x]
    ensures var frames' := if s.Let? then Bind(frames, x, w) else Store(frames, x, w);
            Shaped(frames', After(s, scopes)) && Holds(frames', pins)
  {
    if s.Let? { BindKept(frames, scopes, pins, s, w); } else { StoreKept(frames, scopes, pins, x, w); }
  }

  lemma {:induction false} ResolveStmt(h: Host, fuel: nat, s: Stmt, names: map<Slot, string>, held: map<Slot, string>, pins: Pins,
                                       ops: set<UnaryOp>, scopes: Scopes, frames: Frames, trace: Trace)
    requires Settled(h, names, held, pins, ops) && Shaped(frames, scopes) && Holds(frames, pins) && Keeps(s, scopes, names, held, ops)
    ensures Exec(h, fuel, ReplaceStmt(s, names), frames, trace) == Exec(h, fuel, s, frames, trace)
    ensures StmtKept(Exec(h, fuel, s, frames, trace), s, scopes, pins)
    decreases fuel, s, 2
  {
    match s
    case ExprStmt(e) => ResolveValue(h, fuel, s, e, names, held, pins, ops, scopes, frames, trace);
    case Let(_, _, _) => BindingKeepsPins(h, fuel, s, names, held, pins, ops, scopes, frames, trace);
    case Assign(_, _) => BindingKeepsPins(h, fuel, s, names, held, pins, ops, scopes, frames, trace);
    case Return(Some(e)) => ResolveValue(h, fuel, s, e, names, held, pins, ops, scopes, frames, trace);
    case If(_, _, _) => ResolveIf(h, fuel, s, names, held, pins, ops, scopes, frames, trace);
    case Match(_, _) => ResolveMatch(h, fuel, s, names, held, pins, ops, scopes, frames, trace);
    case Loop(b) => ResolveLoop(h, fuel, b, names, held, pins, ops, scopes, frames, trace);
    case Block(b) => ResolveInner(h, fuel, b, names, held, pins, ops, scopes, frames, trace);
    case For(_, _, _, _, _) => ResolveRange(h, fuel, s, names, held, pins, ops, scopes, frames, trace);
    case _ =>
  }

  lemma ResolveValue(h: Host, fuel: nat, s: Stmt, e: Expr, names: map<Slot, string>, held: map<Slot, string>, pins: Pins,
                     ops: set<UnaryOp>, scopes: Scopes, frames: Frames, trace: Trace)
    requires s == ExprStmt(e) || s == Return(Some(e))
    requires Settled(h, names, held, pins, ops) && Shaped(frames, scopes) && Holds(frames, pins) && Keeps(s, scopes, names, held, ops)
    ensures Exec(h, fuel, ReplaceStmt(s, names), frames, trace) == Exec(h, fuel, s, frames, trace)
    ensures StmtKept(Exec(h, fuel, s, frames, trace), s, scopes, pins)
  {
    ReplaceKeepsValue(h, e, names, held, pins, ops, scopes, frames);
    SameHeadReplaced(e, names);
    SameValueRuns(h, fuel, s, e, ReplaceExpr(e, names), scopes, pins, frames, trace);
  }

  lemma SameValueRuns(h: Host, fuel: nat, s: Stmt, e: Expr, f: Expr, scopes: Scopes, pins: Pins, frames: Frames, trace: Trace)
    requires s == ExprStmt(e) || s == Return(Some(e))
    requires SameAt(h, e, f, frames) && IsTry(e) == IsTry(f) && Shaped(frames, scopes) && Holds(frames, pins)
    ensures Exec(h, fuel, if s.ExprStmt? then ExprStmt(f) else Return(Some(f)), frames, trace) == Exec(h, fuel, s, frames, trace)
    ensures StmtKept(Exec(h, fuel, s, frames, trace), s, scopes, pins)
  {
  }

  lemma SameHeadReplaced(e: Expr, names: map<Slot, string>)
    ensures IsTry(ReplaceExpr(e, names)) == IsTry(e)
  {
  }

  lemma {:induction false} ResolveMatch(h: Host, fuel: nat, s: Stmt, names: map<Slot, string>, held: map<Slot, string>, pins: Pins,
                                        ops: set<UnaryOp>, scopes: Scopes, frames: Frames, trace: Trace)
    requires s.Match?
    requires Settled(h, names, held, pins, ops) && Shaped(frames, scopes) && Holds(frames, pins) && Keeps(s, scopes, names, held, ops)
    ensures Exec(h, fuel, ReplaceStmt(s, names), frames, trace) == Exec(h, fuel, s, frames, trace)
    ensures StmtKept(Exec(h, fuel, s, frames, trace), s, scopes, pins)
    decreases fuel, s, 1
  {
    ReplaceKeepsValue(h, s.scrutinee, names, held, pins, ops, scopes, frames);
    var r := Eval(h, s.scrutinee, frames, trace);
    if r.Val? { ResolveArms(h, fuel, s.arms, r.word, names, held, pins, ops, scopes, frames, r.trace); }
  }

  lemma {:induction false} ResolveIf(h: Host, fuel: nat, s: Stmt, names: map<Slot, string>, held: map<Slot, string>, pins: Pins,
                                     ops: set<UnaryOp>, scopes: Scopes, frames: Frames, trace: Trace)
    requires s.If?
    requires Settled(h, names, held, pins, ops) && Shaped(frames, scopes) && Holds(frames, pins) && Keeps(s, scopes, names, held, ops)
    ensures Exec(h, fuel, ReplaceStmt(s, names), frames, trace) == Exec(h, fuel, s, frames, trace)
    ensures StmtKept(Exec(h, fuel, s, frames, trace), s, scopes, pins)
    decreases fuel, s, 1
  {
    ReplaceKeepsValue(h, s.cond, names, held, pins, ops, scopes, frames);
    var r := Eval(h, s.cond, frames, trace);
    if r.Val? {
      ResolveInner(h, fuel, if r.word != 0 then s.thenBody else s.elseBody, names, held, pins, ops, scopes, frames, r.trace);
    }
  }

  lemma SettledNone(h: Host, names: map<Slot, string>, held: map<Slot, string>, pins: Pins, ops: set<UnaryOp>)
    requires Settled(h, names, held, pins, ops)
    ensures Settled(h, map[], held, pins, ops)
  {
  }

  lemma {:induction false} ResolveRange(h: Host, fuel: nat, s: Stmt, names: map<Slot, string>, held: map<Slot, string>, pins: Pins,
                                        ops: set<UnaryOp>, scopes: Scopes, frames: Frames, trace: Trace)
    requires s.For?
    requires Settled(h, names, held, pins, ops) && Shaped(frames, scopes) && Holds(frames, pins) && Keeps(s, scopes, names, held, ops)
    ensures StmtKept(Exec(h, fuel, s, frames, trace), s, scopes, pins)
    decreases fuel, s, 1
  {
    var r := Eval(h, s.start, frames, trace);
    if r.Val? {
      var r' := Eval(h, s.end, frames, r.trace);
      if r'.Val? {
        SettledNone(h, names, held, pins, ops);
        ResolveFor(h, fuel, s.loopVar, r.word, r'.word, s.step, s.body, held, pins, ops, scopes, frames, r'.trace);
      }
    }
  }

  lemma {:induction false} ResolveAll(h: Host, fuel: nat, ss: seq<Stmt>, names: map<Slot, string>, held: map<Slot, string>, pins: Pins,
                                      ops: set<UnaryOp>, scopes: Scopes, frames: Frames, trace: Trace)
    requires Settled(h, names, held, pins, ops) && Shaped(frames, scopes) && Holds(frames, pins) && AllKeep(ss, scopes, names, held, ops)
    ensures ExecAll(h, fuel, ReplaceStmts(ss, names), frames, trace) == ExecAll(h, fuel, ss, frames, trace)
    ensures ListKept(ExecAll(h, fuel, ss, frames, trace), scopes, pins)
    decreases fuel, ss, 0
  {
    if ss != [] {
      ResolveStmt(h, fuel, ss[0], names, held, pins, ops, scopes, frames, trace);
      var o := Exec(h, fuel, ss[0], frames, trace);
      var rest := ReplaceStmts(ss[1..], names);
      assert ReplaceStmts(ss, names)[1..] == rest;
      if o.Normal? { ResolveAll(h, fuel, ss[1..], names, held, pins, ops, After(ss[0], scopes), o.frames, o.trace); }
    }
  }

  lemma {:induction false} ResolveBlock(h: Host, fuel: nat, ss: seq<Stmt>, scope: Frame, names: map<Slot, string>, held: map<Slot, string>,
                                        pins: Pins, ops: set<UnaryOp>, scopes: Scopes, frames: Frames, trace: Trace)
    requires Settled(h, names, held, pins, ops) && Shaped(frames, scopes) && Holds(frames, pins)
    requires AllKeep(ss, scopes + [scope.Keys], names, held, ops)
    ensures ExecBlock(h, fuel, ReplaceStmts(ss, names), scope, frames, trace) == ExecBlock(h, fuel, ss, scope, frames, trace)
    ensures BlockKept(ExecBlock(h, fuel, ss, scope, frames, trace), scopes, pins)
    decreases fuel, ss, 1
  {
    PushKept(frames, scopes, pins, scope);
    ResolveAll(h, fuel, ss, names, held, pins, ops, scopes + [scope.Keys], frames + [scope], trace);
    LeaveKept(ExecAll(h, fuel, ss, frames + [scope], trace), scopes, scope.Keys, pins);
  }

  /** The same for a block that starts without names. */
  lemma {:induction false} ResolveInner(h: Host, fuel: nat, ss: seq<Stmt>, names: map<Slot, string>, held: map<Slot, string>,
                                        pins: Pins, ops: set<UnaryOp>, scopes: Scopes, frames: Frames, trace: Trace)
    requires Settled(h, names, held, pins, ops) && Shaped(frames, scopes) && Holds(frames, pins)
    requires AllKeep(ss, scopes + [{}], names, held, ops)
    ensures ExecBlock(h, fuel, ReplaceStmts(ss, names), map[], frames, trace) == ExecBlock(h, fuel, ss, map[], frames, trace)
    ensures BlockKept(ExecBlock(h, fuel, ss, map[], frames, trace), scopes, pins)
    decreases fuel, ss, 2
  {
    var scope: Frame := map[];
    assert scope.Keys == {};
    ResolveBlock(h, fuel, ss, scope, names, held, pins, ops, scopes, frames, trace);
  }

  /** The body of a `for` is not rewritten, but what it binds counts. */
  lemma {:induction false} KeepBody(h: Host, fuel: nat, x: string, w: Word, body: seq<Stmt>, held: map<Slot, string>,
                                    pins: Pins, ops: set<UnaryOp>, scopes: Scopes, frames: Frames, trace: Trace)
    requires Settled(h, map[], held, pins, ops) && Shaped(frames, scopes) && Holds(frames, pins)
    requires AllKeep(body, scopes + [{x}], map[], held, ops)
    ensures BlockKept(ExecBlock(h, fuel, body, map[x := w], frames, trace), scopes, pins)
    decreases fuel, body, 2
  {
    var scope: Frame := map[x := w];
    assert scope.Keys == {x};
    ResolveBlock(h, fuel, body, scope, map[], held, pins, ops, scopes, frames, trace);
  }

  lemma {:induction false} ResolveArms(h: Host, fuel: nat, arms: seq<Arm>, w: Word, names: map<Slot, string>, held: map<Slot, string>,
                                       pins: Pins, ops: set<UnaryOp>, scopes: Scopes, frames: Frames, trace: Trace)
    requires Settled(h, names, held, pins, ops) && Shaped(frames, scopes) && Holds(frames, pins) && ArmsKeep(arms, scopes, names, held, ops)
    ensures ExecArms(h, fuel, ReplaceArms(arms, names), w, frames, trace) == ExecArms(h, fuel, arms, w, frames, trace)
    ensures BlockKept(ExecArms(h, fuel, arms, w, frames, trace), scopes, pins)
    decreases fuel, arms, 1
  {
    if arms != [] {
      match arms[0].pattern
      case Wildcard => ResolveInner(h, fuel, arms[0].body, names, held, pins, ops, scopes, frames, trace);
      case EnumVariant(_, _, _) => ResolveVariant(h, fuel, arms, w, names, held, pins, ops, scopes, frames, trace);
      case Literal(_) => ResolveLiteral(h, fuel, arms, w, names, held, pins, ops, scopes, frames, trace);
    }
  }

  lemma {:induction false} ResolveVariant(h: Host, fuel: nat, arms: seq<Arm>, w: Word, names: map<Slot, string>, held: map<Slot, string>,
                                          pins: Pins, ops: set<UnaryOp>, scopes: Scopes, frames: Frames, trace: Trace)
    requires arms != [] && arms[0].pattern.EnumVariant?
    requires Settled(h, names, held, pins, ops) && Shaped(frames, scopes) && Holds(frames, pins) && ArmsKeep(arms, scopes, names, held, ops)
    ensures ExecArms(h, fuel, ReplaceArms(arms, names), w, frames, trace) == ExecArms(h, fuel, arms, w, frames, trace)
    ensures BlockKept(ExecArms(h, fuel, arms, w, frames, trace), scopes, pins)
    decreases fuel, arms, 0
  {
    var p, rest := arms[0].pattern, arms[1..];
    assert ReplaceArms(arms, names)[1..] == ReplaceArms(rest, names);
    if h.matches(p.typeName, p.variant, w) {
      var scope := Payload(h, p.typeName, p.variant, w, p.bindings);
      assert scope.Keys == Bindings(p);
      ResolveBlock(h, fuel, arms[0].body, scope, names, held, pins, ops, scopes, frames, trace);
    } else {
      ResolveArms(h, fuel, rest, w, names, held, pins, ops, scopes, frames, trace);
    }
  }

  lemma {:induction false} ResolveLiteral(h: Host, fuel: nat, arms: seq<Arm>, w: Word, names: map<Slot, string>, held: map<Slot, string>,
                                          pins: Pins, ops: set<UnaryOp>, scopes: Scopes, frames: Frames, trace: Trace)
    requires arms != [] && arms[0].pattern.Literal?
    requires Settled(h, names, held, pins, ops) && Shaped(frames, scopes) && Holds(frames, pins) && ArmsKeep(arms, scopes, names, held, ops)
    ensures ExecArms(h, fuel, ReplaceArms(arms, names), w, frames, trace) == ExecArms(h, fuel, arms, w, frames, trace)
    ensures BlockKept(ExecArms(h, fuel, arms, w, frames, trace), scopes, pins)
    decreases fuel, arms, 0
  {
    var rest := arms[1..];
    assert ReplaceArms(arms, names)[1..] == ReplaceArms(rest, names);
    var r := Eval(h, arms[0].pattern.pat, frames, trace);
    if r.Val? && r.word == w {
      ResolveInner(h, fuel, arms[0].body, names, held, pins, ops, scopes, frames, r.trace);
    } else if r.Val? {
      ResolveArms(h, fuel, rest, w, names, held, pins, ops, scopes, frames, r.trace);
    }
  }

  lemma {:induction false} ResolveLoop(h: Host, fuel: nat, body: seq<Stmt>, names: map<Slot, string>, held: map<Slot, string>, pins: Pins,
                                       ops: set<UnaryOp>, scopes: Scopes, frames: Frames, trace: Trace)
    requires Settled(h, names, held, pins, ops) && Shaped(frames, scopes) && Holds(frames, pins)
    requires AllKeep(body, scopes + [{}], names, held, ops)
    ensures ExecLoop(h, fuel, ReplaceStmts(body, names), frames, trace) == ExecLoop(h, fuel, body, frames, trace)
    ensures BlockKept(ExecLoop(h, fuel, body, frames, trace), scopes, pins)
    decreases fuel, body, 3
  {
    var inv := (f: Frames) => Shaped(f, scopes) && Holds(f, pins);
    var body' := ReplaceStmts(body, names);
    forall k: nat, f, t | k < fuel && inv(f) ensures TurnAlike(h, k, body, body', map[], inv, f, t) {
      ResolveInner(h, k, body, names, held, pins, ops, scopes, f, t);
    }
    LoopInvariant(h, fuel, body, body', inv, frames, trace);
  }

  /** A `for` body is left as it is. */
  lemma {:induction false} ResolveFor(h: Host, fuel: nat, x: string, lo: Word, hi: Word, step: int, body: seq<Stmt>, held: map<Slot, string>,
                                      pins: Pins, ops: set<UnaryOp>, scopes: Scopes, frames: Frames, trace: Trace)
    requires Settled(h, map[], held, pins, ops) && Shaped(frames, scopes) && Holds(frames, pins)
    requires AllKeep(body, scopes + [{x}], map[], held, ops)
    ensures BlockKept(ExecFor(h, fuel, x, lo, hi, step, body, frames, trace), scopes, pins)
    decreases fuel, body, 3
  {
    var inv := (f: Frames) => Shaped(f, scopes) && Holds(f, pins);
    forall k: nat, w, f, t | k < fuel && inv(f) ensures TurnAlike(h, k, body, body, map[x := w], inv, f, t) {
      KeepBody(h, k, x, w, body, held, pins, ops, scopes, f, t);
    }
    ForInvariant(h, fuel, x, lo, hi, step, body, inv, frames, trace);
  }

  // The stores that such a run goes through.

  lemma {:induction false} StmtVisits(h: Host, fuel: nat, s: Stmt, names: map<Slot, string>, held: map<Slot, string>, pins: Pins,
                                      ops: set<UnaryOp>, scopes: Scopes, frames: Frames, trace: Trace)
    requires Settled(h, names, held, pins, ops) && Shaped(frames, scopes) && Holds(frames, pins) && Keeps(s, scopes, names, held, ops)
    ensures AllHold(VisitStmt(h, fuel, s, scopes, frames, trace), pins)
    decreases fuel, s, 2
  {
    match s
    case If(c, a, b) =>
      var r := Eval(h, c, frames, trace);
      if r.Val? { InnerVisits(h, fuel, if r.word != 0 then a else b, names, held, pins, ops, scopes, frames, r.trace); }
    case Match(e, arms) =>
      var r := Eval(h, e, frames, trace);
      if r.Val? { ArmsVisits(h, fuel, arms, r.word, names, held, pins, ops, scopes, frames, r.trace); }
    case Loop(b) => LoopVisits(h, fuel, b, names, held, pins, ops, scopes, frames, trace);
    case Block(b) => InnerVisits(h, fuel, b, names, held, pins, ops, scopes, frames, trace);
    case For(_, _, _, _, _) => RangeVisits(h, fuel, s, names, held, pins, ops, scopes, frames, trace);
    case _ =>
  }

  lemma {:induction false} RangeVisits(h: Host, fuel: nat, s: Stmt, names: map<Slot, string>, held: map<Slot, string>, pins: Pins,
                                       ops: set<UnaryOp>, scopes: Scopes, frames: Frames, trace: Trace)
    requires s.For?
    requires Settled(h, names, held, pins, ops) && Shaped(frames, scopes) && Holds(frames, pins) && Keeps(s, scopes, names, held, ops)
    ensures AllHold(VisitStmt(h, fuel, s, scopes, frames, trace), pins)
    decreases fuel, s, 1
  {
    var r := Eval(h, s.start, frames, trace);
    if r.Val? {
      var r' := Eval(h, s.end, frames, r.trace);
      if r'.Val? {
        SettledNone(h, names, held, pins, ops);
        ForVisits(h, fuel, s.loopVar, r.word, r'.word, s.step, s.body, held, pins, ops, scopes, frames, r'.trace);
      }
    }
  }

  lemma {:induction false} ListVisits(h: Host, fuel: nat, ss: seq<Stmt>, names: map<Slot, string>, held: map<Slot, string>, pins: Pins,
                                      ops: set<UnaryOp>, scopes: Scopes, frames: Frames, trace: Trace)
    requires Settled(h, names, held, pins, ops) && Shaped(frames, scopes) && Holds(frames, pins) && AllKeep(ss, scopes, names, held, ops)
    ensures AllHold(VisitAll(h, fuel, ss, scopes, frames, trace), pins)
    decreases fuel, ss, 0
  {
    if ss != [] {
      StmtVisits(h, fuel, ss[0], names, held, pins, ops, scopes, frames, trace);
      ResolveStmt(h, fuel, ss[0], names, held, pins, ops, scopes, frames, trace);
      var o := Exec(h, fuel, ss[0], frames, trace);
      if o.Normal? { ListVisits(h, fuel, ss[1..], names, held, pins, ops, After(ss[0], scopes), o.frames, o.trace); }
      AllHoldFirst(Visit(frames, scopes), VisitStmt(h, fuel, ss[0], scopes, frames, trace),
                   if o.Normal? then VisitAll(h, fuel, ss[1..], After(ss[0], scopes), o.frames, o.trace) else [], pins);
    }
  }

  lemma {:induction false} BlockVisits(h: Host, fuel: nat, ss: seq<Stmt>, scope: Frame, names: map<Slot, string>, held: map<Slot, string>,
                                       pins: Pins, ops: set<UnaryOp>, scopes: Scopes, frames: Frames, trace: Trace)
    requires Settled(h, names, held, pins, ops) && Shaped(frames, scopes) && Holds(frames, pins)
    requires AllKeep(ss, scopes + [scope.Keys], names, held, ops)
    ensures AllHold(VisitBlock(h, fuel, ss, scope, scopes, frames, trace), pins)
    decreases fuel, ss, 1
  {
    PushKept(frames, scopes, pins, scope);
    ListVisits(h, fuel, ss, names, held, pins, ops, scopes + [scope.Keys], frames + [scope], trace);
  }

  lemma {:induction false} InnerVisits(h: Host, fuel: nat, ss: seq<Stmt>, names: map<Slot, string>, held: map<Slot, string>,
                                       pins: Pins, ops: set<UnaryOp>, scopes: Scopes, frames: Frames, trace: Trace)
    requires Settled(h, names, held, pins, ops) && Shaped(frames, scopes) && Holds(frames, pins)
    requires AllKeep(ss, scopes + [{}], names, held, ops)
    ensures AllHold(VisitBlock(h, fuel, ss, map[], scopes, frames, trace), pins)
    decreases fuel, ss, 2
  {
    var scope: Frame := map[];
    assert scope.Keys == {};
    BlockVisits(h, fuel, ss, scope, names, held, pins, ops, scopes, frames, trace);
  }

  lemma {:induction false} ArmsVisits(h: Host, fuel: nat, arms: seq<Arm>, w: Word, names: map<Slot, string>, held: map<Slot, string>,
                                      pins: Pins, ops: set<UnaryOp>, scopes: Scopes, frames: Frames, trace: Trace)
    requires Settled(h, names, held, pins, ops) && Shaped(frames, scopes) && Holds(frames, pins) && ArmsKeep(arms, scopes, names, held, ops)
    ensures AllHold(VisitArms(h, fuel, arms, w, scopes, frames, trace), pins)
    decreases fuel, arms, 0
  {
    if arms != [] {
      var body, rest := arms[0].body, arms[1..];
      match arms[0].pattern
      case Wildcard => InnerVisits(h, fuel, body, names, held, pins, ops, scopes, frames, trace);
      case EnumVariant(ty, v, xs) =>
        var scope := Payload(h, ty, v, w, xs);
        assert scope.Keys == Bindings(arms[0].pattern);
        if h.matches(ty, v, w) {
          BlockVisits(h, fuel, body, scope, names, held, pins, ops, scopes, frames, trace);
        } else {
          ArmsVisits(h, fuel, rest, w, names, held, pins, ops, scopes, frames, trace);
        }
      case Literal(e) =>
        var r := Eval(h, e, frames, trace);
        if r.Val? && r.word == w {
          InnerVisits(h, fuel, body, names, held, pins, ops, scopes, frames, r.trace);
        } else if r.Val? {
          ArmsVisits(h, fuel, rest, w, names, held, pins, ops, scopes, frames, r.trace);
        }
    }
  }

  /** One turn of a loop. */
  lemma {:induction false} TurnVisits(h: Host, fuel: nat, body: seq<Stmt>, names: map<Slot, string>, held: map<Slot, string>, pins: Pins,
                                      ops: set<UnaryOp>, scopes: Scopes, frames: Frames, trace: Trace)
    requires Settled(h, names, held, pins, ops) && Shaped(frames, scopes) && Holds(frames, pins)
    requires AllKeep(body, scopes + [{}], names, held, ops)
    ensures BlockKept(ExecBlock(h, fuel, body, map[], frames, trace), scopes, pins)
    ensures AllHold(VisitBlock(h, fuel, body, map[], scopes, frames, trace), pins)
    decreases fuel, body, 3
  {
    InnerVisits(h, fuel, body, names, held, pins, ops, scopes, frames, trace);
    ResolveInner(h, fuel, body, names, held, pins, ops, scopes, frames, trace);
  }

  lemma {:induction false} LoopVisits(h: Host, fuel: nat, body: seq<Stmt>, names: map<Slot, string>, held: map<Slot, string>, pins: Pins,
                                      ops: set<UnaryOp>, scopes: Scopes, frames: Frames, trace: Trace)
    requires Settled(h, names, held, pins, ops) && Shaped(frames, scopes) && Holds(frames, pins)
    requires AllKeep(body, scopes + [{}], names, held, ops)
    ensures AllHold(VisitLoop(h, fuel, body, scopes, frames, trace), pins)
    decreases fuel, body, 3
  {
    if fuel != 0 {
      TurnVisits(h, fuel - 1, body, names, held, pins, ops, scopes, frames, trace);
      var o := ExecBlock(h, fuel - 1, body, map[], frames, trace);
      var first, rest := VisitBlock(h, fuel - 1, body, map[], scopes, frames, trace), [];
      if o.Normal? || o.Continued? {
        LoopVisits(h, fuel - 1, body, names, held, pins, ops, scopes, o.frames, o.trace);
        rest := VisitLoop(h, fuel - 1, body, scopes, o.frames, o.trace);
      }
      AllHoldAppend(first, rest, pins);
      assert VisitLoop(h, fuel, body, scopes, frames, trace) == first + rest;
    }
  }

  lemma {:induction false} ForVisits(h: Host, fuel: nat, x: string, lo: Word, hi: Word, step: int, body: seq<Stmt>, held: map<Slot, string>,
                                     pins: Pins, ops: set<UnaryOp>, scopes: Scopes, frames: Frames, trace: Trace)
    requires Settled(h, map[], held, pins, ops) && Shaped(frames, scopes) && Holds(frames, pins)
    requires AllKeep(body, scopes + [{x}], map[], held, ops)
    ensures AllHold(VisitFor(h, fuel, x, lo, hi, step, body, scopes, frames, trace), pins)
    decreases fuel, body, 3
  {
    if lo < hi && fuel != 0 {
      var scope: Frame := map[x := lo];
      assert scope.Keys == {x};
      BlockVisits(h, fuel - 1, body, scope, map[], held, pins, ops, scopes, frames, trace);
      KeepBody(h, fuel - 1, x, lo, body, held, pins, ops, scopes, frames, trace);
      var o := ExecBlock(h, fuel - 1, body, map[x := lo], frames, trace);
      var first, rest := VisitBlock(h, fuel - 1, body, map[x := lo], scopes, frames, trace), [];
      if o.Normal? || o.Continued? {
        ForVisits(h, fuel - 1, x, lo + step, hi, step, body, held, pins, ops, scopes, o.frames, o.trace);
        rest := VisitFor(h, fuel - 1, x, lo + step, hi, step, body, scopes, o.frames, o.trace);
      }
      AllHoldAppend(first, rest, pins);
      assert VisitFor(h, fuel, x, lo, hi, step, body, scopes, frames, trace) == first + rest;
    }
  }

  /** The store at function entry: parameter `i` and slot `base + i` hold argument `i`. */
  predicate Entry(store: Frame, params: seq<string>, base: nat, args: seq<Word>) {
    |args| == |params| && forall i | 0 <= i < |params| ::
      && params[i] in store && store[params[i]] == args[i]
      && SlotName(base + i) in store && store[SlotName(base + i)] == args[i]
  }

  /** The words that the resolved slots and their parameters hold at entry. */
  function EntryPins(store: Frame, names: map<Slot, string>): Pins {
    map x | x in store && (x in names.Values || exists slot :: slot in names && x == SlotName(slot)) :: store[x]
  }

  lemma EntryPinned(store: Frame, params: seq<string>, base: nat, args: seq<Word>, names: map<Slot, string>)
    requires base + |params| <= 0x1_0000_0000 && Entry(store, params, base, args)
    requires exists rebound :: names == ResolvedSlots(params, base, rebound)
    ensures Holds([store], EntryPins(store, names)) && ArgumentsPinned(names, EntryPins(store, names))
  {
    var pins := EntryPins(store, names);
    forall slot | slot in names
      ensures names[slot] in pins && SlotName(slot) in pins && pins[SlotName(slot)] == pins[names[slot]]
    {
      var i := slot - base;
      assert names[slot] == params[i] && SlotName(base + i) in store;
      assert names[slot] in names.Values;
    }
  }

  /** Resolution cannot be observed in any body that keeps its entry bindings: from any entry
      store, with any host and any amount of fuel, the resolved body has the outcome, the store and
      the effect trace of the original; and at every statement that the run executes, in blocks,
      arms and all iterations of loops, the resolved slots and their parameters still hold the
      arguments in the scope the function was entered with. */
  lemma ResolvePreservesMeaning(h: Host, fuel: nat, body: seq<Stmt>, params: seq<string>, base: nat, args: seq<Word>, store: Frame,
                                ops: set<UnaryOp>, trace: Trace)
    requires base + |params| <= 0x1_0000_0000 && Entry(store, params, base, args)
    requires var names := ResolvedSlots(params, base, Rebound(body));
             AllKeep(body, [], names, names, ops) && ConversionsKeep(h, ops, EntryPins(store, names))
    ensures ExecAll(h, fuel, Resolve(body, params, base), [store], trace) == ExecAll(h, fuel, body, [store], trace)
    ensures AllHold(VisitAll(h, fuel, body, [], [store], trace), EntryPins(store, ResolvedSlots(params, base, Rebound(body))))
  {
    var names := ResolvedSlots(params, base, Rebound(body));
    EntryPinned(store, params, base, args, names);
    ResolveAll(h, fuel, body, names, names, EntryPins(store, names), ops, [], [store], trace);
    ListVisits(h, fuel, body, names, names, EntryPins(store, names), ops, [], [store], trace);
  }

  /** So wherever no scope opened since binds the slot's name, a read of it gives the argument. */
  lemma SlotHoldsArgument(v: Visit, params: seq<string>, base: nat, args: seq<Word>, store: Frame, names: map<Slot, string>, slot: Slot)
    requires base + |params| <= 0x1_0000_0000 && Entry(store, params, base, args)
    requires slot in names && (forall s | s in names :: base <= s < base + |params| && names[s] == params[s - base])
    requires VisitHolds(v, EntryPins(store, names)) && !Shadowed(v.scopes, SlotName(slot))
    ensures Find(v.frames, SlotName(slot)) == Some(args[slot - base])
  {
    var i := slot - base;
    EntryPin(store, params, base, args, names, slot, i);
    FindUnshadowed(v.frames, v.scopes, EntryPins(store, names), SlotName(slot));
  }

  lemma EntryPin(store: Frame, params: seq<string>, base: nat, args: seq<Word>, names: map<Slot, string>, slot: Slot, i: nat)
    requires Entry(store, params, base, args) && slot in names && i < |params| && slot == base + i
    ensures SlotName(slot) in EntryPins(store, names) && EntryPins(store, names)[SlotName(slot)] == args[i]
  {
    assert params[i] in store && SlotName(base + i) in store;
  }

  // ---------------------------------------------------------------------
  // What the conditions are for
  // ---------------------------------------------------------------------

  lemma ReboundTwo(a: Stmt, b: Stmt)
    ensures Rebound([a, b]) == ReboundStmt(a) + ReboundStmt(b)
  {
    assert [a, b][1..] == [b] && [b][1..] == [];
    assert Rebound([b]) == ReboundStmt(b) + Rebound([]);
  }

  /** A host on which every operation answers its first argument. */
  function EchoHost(): Host {
    Host((op: Op, ws: seq<Word>, t: Trace) => if ws == [] then Trap else Ok(ws[0], false), Trap,
         (x: string) => 0, (a: string, b: string, w: Word) => false,
         (a: string, b: string, w: Word, n: nat) => 0)
  }

  lemma {:induction false} EchoReadsSource(value: Expr, frames: Frames, trace: Trace)
    requires Source(value).Some?
    ensures Eval(EchoHost(), value, frames, trace) == Val(Read(EchoHost(), frames, Source(value).value), trace)
  {
    if value.Unary? { EchoReadsSource(value.arg, frames, trace); }
  }

  lemma {:induction false} AliasHasSource(slot: Slot, value: Expr)
    requires IsParamAliasBinding(slot, value)
    ensures Source(value).Some?
  {
    if value.Unary? { AliasHasSource(slot, value.arg); }
  }

  /** An alias binding keeps the argument in its slot, on all hosts whose conversions keep it and
      in all stores that hold it, exactly when it reads the slot or the slot's own parameter: for
      every other binding that passes the test there are a host and a store on which it does not. */
  lemma AliasKeepsExactlyOwn(slot: Slot, value: Expr, own: string, w: Word) returns (h: Host, frames: Frames, pins: Pins)
    requires IsParamAliasBinding(slot, value)
    ensures Source(value).Some?
    ensures pins == map[own := w, SlotName(slot) := w] && Holds(frames, pins) && ConversionsKeep(h, Conversions(value), pins)
    ensures forall trace :: Eval(h, value, frames, trace) == Val(w, trace) <==> Source(value).value in pins
  {
    AliasHasSource(slot, value);
    var x := Source(value).value;
    h, pins := EchoHost(), map[own := w, SlotName(slot) := w];
    frames := [if x in pins then pins else pins[x := w + 1]];
    forall trace ensures Eval(h, value, frames, trace) == Val(w, trace) <==> x in pins {
      EchoReadsSource(value, frames, trace);
    }
  }

  /** A match arm that binds the parameter's name hides the parameter: the resolved read takes the
      arm's payload, although no slot is bound anew and nothing is an alias. */
  lemma ArmHidesParameter(h: Host, fuel: nat, a: string, ty: string, v: string, x: Word, trace: Trace)
    requires a != SlotName(0) && h.matches(ty, v, 5)
    ensures var body := [ArmReads(ty, v, a, Local(0))];
            var store: Frame := map[a := x, SlotName(0) := x];
            && Entry(store, [a], 0, [x]) && Rebound(body) == {}
            && ExecAll(h, fuel, body, [store], trace) == Returned(x, trace)
            && ExecAll(h, fuel, Resolve(body, [a], 0), [store], trace) == Returned(h.payload(ty, v, 5, 0), trace)
            && !AllKeep(body, [], ResolvedSlots([a], 0, {}), ResolvedSlots([a], 0, {}), {})
  {
    var store: Frame := map[a := x, SlotName(0) := x];
    ArmResolved(ty, v, a);
    ArmNotKept(ty, v, a);
    ArmRuns(h, fuel, ty, v, a, Local(0), [store], trace);
    ArmRuns(h, fuel, ty, v, a, Param(a), [store], trace);
    var scope: Frame := map[a := h.payload(ty, v, 5, 0)];
    assert ([store] + [scope])[..1] == [store] && [store][..0] == [];
    assert Find([store] + [scope], a) == Some(scope[a]);
    assert Find([store], SlotName(0)) == Some(x);
  }

  /** `match 5 { T::V(a) => return read }` */
  function ArmReads(ty: string, v: string, a: string, read: Expr): Stmt {
    Match(Lit(U32, 5), [Arm(EnumVariant(ty, v, [a]), [Return(Some(read))])])
  }

  lemma ArmResolved(ty: string, v: string, a: string)
    ensures Rebound([ArmReads(ty, v, a, Local(0))]) == {}
    ensures Resolve([ArmReads(ty, v, a, Local(0))], [a], 0) == [ArmReads(ty, v, a, Param(a))]
  {
    var slot: Slot := 0;
    var names := ResolvedSlots([a], 0, {});
    var s, ret := ArmReads(ty, v, a, Local(slot)), Return(Some(Local(slot)));
    assert [s][1..] == [] && s.arms[1..] == [] && [ret][1..] == [];
    assert Rebound([ret]) == ReboundStmt(ret) + Rebound([]);
    assert ReboundArms(s.arms) == Rebound([ret]) + ReboundArms([]);
    assert Rebound([s]) == ReboundStmt(s) + Rebound([]) == {};
    assert names[slot] == a;
    assert ReplaceStmts([ret], names) == [Return(Some(Param(a)))];
    assert ReplaceArms(s.arms, names) == ArmReads(ty, v, a, Param(a)).arms;
  }

  lemma ArmNotKept(ty: string, v: string, a: string)
    requires a != SlotName(0)
    ensures !AllKeep([ArmReads(ty, v, a, Local(0))], [], ResolvedSlots([a], 0, {}), ResolvedSlots([a], 0, {}), {})
  {
    var slot: Slot := 0;
    var names := ResolvedSlots([a], 0, {});
    var s := ArmReads(ty, v, a, Local(slot));
    var scopes: Scopes := [] + [Bindings(s.arms[0].pattern)];
    assert a in s.arms[0].pattern.bindings by { assert [a][0] == a; }
    assert a in scopes[0] && Shadowed(scopes, a);
    assert names[slot] == a && !ReadsKeep(Local(slot), scopes, names);
    assert !AllKeep(s.arms[0].body, scopes, names, names, {});
    assert !ArmsKeep(s.arms, [], names, names, {});
  }

  lemma ArmRuns(h: Host, fuel: nat, ty: string, v: string, a: string, read: Expr, frames: Frames, trace: Trace)
    requires h.matches(ty, v, 5)
    ensures var scope: Frame := map[a := h.payload(ty, v, 5, 0)];
            ExecAll(h, fuel, [ArmReads(ty, v, a, read)], frames, trace)
            == LeaveScope(Exec(h, fuel, Return(Some(read)), frames + [scope], trace))
  {
    var scope: Frame := map[a := h.payload(ty, v, 5, 0)];
    var s := ArmReads(ty, v, a, read);
    assert [a][..0] == [];
    assert Payload(h, ty, v, 5, [a]) == scope;
    assert ExecArms(h, fuel, s.arms, 5, frames, trace) == ExecBlock(h, fuel, s.arms[0].body, scope, frames, trace);
    assert Exec(h, fuel, s, frames, trace) == ExecArms(h, fuel, s.arms, 5, frames, trace);
    OneStatement(h, fuel, s, frames, trace);
    OneStatement(h, fuel, Return(Some(read)), frames + [scope], trace);
  }

  lemma OneStatement(h: Host, fuel: nat, s: Stmt, frames: Frames, trace: Trace)
    ensures ExecAll(h, fuel, [s], frames, trace) == Exec(h, fuel, s, frames, trace)
  {
  }

  /** The alias test accepts any parameter, so a slot re-bound to another parameter is
      resolved all the same: the two bodies agree only if the arguments happen to. */
  lemma ForeignAliasIsMisresolved(h: Host, fuel: nat, a: string, b: string, x: Word, y: Word, trace: Trace)
    requires a != SlotName(0) && b != SlotName(0) && a != SlotName(1) && b != SlotName(1) && a != b
    ensures var body := [Let(SlotName(0), false, Param(b)), Return(Some(Local(0)))];
            var store: Frame := map[a := x, b := y, SlotName(0) := x, SlotName(1) := y];
            && Entry(store, [a, b], 0, [x, y])
            && ExecAll(h, fuel, body, [store], trace) == Returned(y, trace)
            && ExecAll(h, fuel, Resolve(body, [a, b], 0), [store], trace) == Returned(x, trace)
  {
    var store: Frame := map[a := x, b := y, SlotName(0) := x, SlotName(1) := y];
    TwoEntries(a, b, x, y);
    ForeignAliasResolved(a, b);
    LetThenReturn(h, fuel, SlotName(0), b, Local(0), store, trace);
    LetThenReturn(h, fuel, SlotName(0), b, Param(a), store, trace);
  }

  lemma TwoEntries(a: string, b: string, x: Word, y: Word)
    requires a != SlotName(0) && b != SlotName(0) && a != SlotName(1) && b != SlotName(1) && a != b
    ensures Entry(map[a := x, b := y, SlotName(0) := x, SlotName(1) := y], [a, b], 0, [x, y])
  {
    SlotOfSlotName(0);
    SlotOfSlotName(1);
  }

  lemma ForeignAliasResolved(a: string, b: string)
    ensures Resolve([Let(SlotName(0), false, Param(b)), Return(Some(Local(0)))], [a, b], 0)
            == [Let(SlotName(0), false, Param(b)), Return(Some(Param(a)))]
  {
    var first, last := Let(SlotName(0), false, Param(b)), Return(Some(Local(0)));
    SlotOfSlotName(0);
    ReboundTwo(first, last);
  }

  /** `let x = y; return read` */
  lemma LetThenReturn(h: Host, fuel: nat, x: string, y: string, read: Expr, store: Frame, trace: Trace)
    requires y in store
    ensures ExecAll(h, fuel, [Let(x, false, Param(y)), Return(Some(read))], [store], trace)
            == Exec(h, fuel, Return(Some(read)), [store[x := store[y]]], trace)
  {
    assert Bind([store], x, store[y]) == [store[x := store[y]]];
    ExecTwo(h, fuel, Let(x, false, Param(y)), Return(Some(read)), [store], trace);
  }

  lemma AssignInFor(h: Host, fuel: nat, i: string, store: Frame, trace: Trace)
    requires i != SlotName(0) && SlotName(0) in store
    ensures ExecBlock(h, fuel, [Assign(SlotName(0), Lit(U32, 1))], map[i := 0], [store], trace) ==
            Normal([store[SlotName(0) := 1]], trace, VOID)
  {
    var scope: Frame := map[i := 0];
    assert ([store] + [scope])[..1] == [store];
    assert Store([store], SlotName(0), 1) == [store[SlotName(0) := 1]];
    assert Store([store] + [scope], SlotName(0), 1) == [store[SlotName(0) := 1]] + [scope];
    assert ExecAll(h, fuel, [Assign(SlotName(0), Lit(U32, 1))], [store] + [scope], trace)
        == Normal([store[SlotName(0) := 1]] + [scope], trace, VOID);
    assert Pop([store[SlotName(0) := 1]] + [scope]) == [store[SlotName(0) := 1]];
  }

  /** The scan for re-bound slots does not look into `for` bodies, so an assignment there
      goes unnoticed and a later use of the slot is resolved to the parameter. */
  lemma AssignmentInsideForIsMissed(h: Host, fuel: nat, a: string, i: string, x: Word, trace: Trace)
    requires fuel > 0 && a != SlotName(0) && i != SlotName(0) && i != a
    ensures var one := Lit(U32, 1);
            var body := [For(i, Lit(U32, 0), one, 1, [Assign(SlotName(0), one)]), Return(Some(Local(0)))];
            var store: Frame := map[a := x, SlotName(0) := x];
            && Entry(store, [a], 0, [x])
            && ExecAll(h, fuel, body, [store], trace) == Returned(1, trace)
            && ExecAll(h, fuel, Resolve(body, [a], 0), [store], trace) == Returned(x, trace)
  {
    var one := Lit(U32, 1);
    var inner := [Assign(SlotName(0), one)];
    var first, last, last' := For(i, Lit(U32, 0), one, 1, inner), Return(Some(Local(0))), Return(Some(Param(a)));
    var store: Frame := map[a := x, SlotName(0) := x];
    MissedForResolved(first, a);
    var after: Frame := store[SlotName(0) := 1];
    AssignInFor(h, fuel - 1, i, store, trace);
    ExecForOnce(h, fuel, i, 0, inner, [store], trace, [after], trace, VOID);
    ExecTwo(h, fuel, first, last, [store], trace);
    ExecTwo(h, fuel, first, last', [store], trace);
  }

  lemma MissedForResolved(first: Stmt, a: string)
    requires first.For?
    ensures Resolve([first, Return(Some(Local(0)))], [a], 0) == [first, Return(Some(Param(a)))]
  {
    ReboundTwo(first, Return(Some(Local(0))));
  }
}
