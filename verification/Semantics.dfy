/** A big-step semantics for the tree, in the terms of the Rust text that it renders to.

    Values are wasm words. Everything the contract's environment decides - host calls,
    arithmetic, method calls, enum matching - is a `Host`, an arbitrary function of the
    operator, its argument words and the effects so far; a theorem that quantifies over
    hosts holds for every interpretation of the operators. Loops run on fuel. */
module Semantics {
  import opened Ir

  type Word = int

  /** The Soroban `Void` value, which is also how `()` and `None` are represented. */
  const VOID: Word := 2

  datatype Op =
    | OpLeaf(atom: Atom)
    | OpUnary(uop: UnaryOp)
    | OpBinary(bop: BinaryOp)
    | OpTernary(top: TernaryOp)
    | OpNary(nop: NaryOp)
    | OpStorageGet(read: StorageRead)
    | OpMethod(selector: string)
    | OpRaw(hostModule: string, hostFunction: string)
    | OpPublish(eventName: Option<string>)
    | OpInvoke(kind: CallKind)

  datatype Event = Event(op: Op, args: seq<Word>)

  type Trace = seq<Event>

  /** What the host does with one operation: a result (recorded in the trace when the
      operation has an effect), a missing storage entry, a trap, or - for `?` - a
      return from the function. */
  datatype Answer = Ok(word: Word, effect: bool) | Missing | Trap | Leave(word: Word)

  datatype Host = Host(
    apply: (Op, seq<Word>, Trace) -> Answer,
    /** What an unrecovered value does when it is evaluated. */
    hole: Answer,
    /** The word read from a name that no binding supplies. */
    unbound: string -> Word,
    /** Does this word match the enum variant, and with which payload words? */
    matches: (string, string, Word) -> bool,
    payload: (string, string, Word, nat) -> Word
  )

  // ---------------------------------------------------------------------
  // Lexically scoped store
  // ---------------------------------------------------------------------

  type Frame = map<string, Word>

  /** Innermost scope last. */
  type Frames = seq<Frame>

  function Find(frames: Frames, x: string): Option<Word> {
    if frames == [] then None
    else
      var top := frames[|frames| - 1];
      if x in top then Some(top[x]) else Find(frames[..|frames| - 1], x)
  }

  function Read(h: Host, frames: Frames, x: string): Word {
    match Find(frames, x)
    case Some(w) => w
    case None => h.unbound(x)
  }

  /** `let x = w` in the innermost scope. */
  function Bind(frames: Frames, x: string, w: Word): (r: Frames)
    ensures frames != [] ==> |r| == |frames|
  {
    if frames == [] then [map[x := w]]
    else frames[..|frames| - 1] + [frames[|frames| - 1][x := w]]
  }

  /** `x = w` in the innermost scope that has `x`, or in the outermost one. */
  function Store(frames: Frames, x: string, w: Word): (r: Frames)
    ensures frames != [] ==> |r| == |frames|
  {
    if frames == [] then [map[x := w]]
    else
      var n := |frames| - 1;
      if n == 0 || x in frames[n] then frames[..n] + [frames[n][x := w]]
      else Store(frames[..n], x, w) + [frames[n]]
  }

  function Pop(frames: Frames): Frames {
    if frames == [] then [] else frames[..|frames| - 1]
  }

  // ---------------------------------------------------------------------
  // Expressions
  // ---------------------------------------------------------------------

  /** An evaluation that aborts has no trace: a trap rolls the whole invocation back. */
  datatype Res = Val(word: Word, trace: Trace) | Abort | Early(word: Word, trace: Trace)

  datatype ResAll = Vals(words: seq<Word>, trace: Trace) | Stopped(res: Res)

  function Settle(answer: Answer, op: Op, args: seq<Word>, trace: Trace): Res {
    match answer
    case Ok(w, effect) => Val(w, if effect then trace + [Event(op, args)] else trace)
    case Missing => Abort
    case Trap => Abort
    case Leave(w) => Early(w, trace)
  }

  function Respond(h: Host, op: Op, args: seq<Word>, trace: Trace): Res {
    Settle(h.apply(op, args, trace), op, args, trace)
  }

  function Hole(h: Host, trace: Trace): Res {
    match h.hole
    case Ok(w, _) => Val(w, trace)
    case Leave(w) => Early(w, trace)
    case _ => Abort
  }

  /** Left to right; the first argument that does not yield a value decides. */
  function EvalAll(h: Host, es: seq<Expr>, frames: Frames, trace: Trace): (r: ResAll)
    ensures r.Stopped? ==> !r.res.Val?
    decreases es, 0
  {
    if es == [] then Vals([], trace)
    else
      match Eval(h, es[0], frames, trace)
      case Val(w, t) =>
        (match EvalAll(h, es[1..], frames, t)
         case Vals(ws, t') => Vals([w] + ws, t')
         case Stopped(r) => Stopped(r))
      case Abort => Stopped(Abort)
      case Early(w, t) => Stopped(Early(w, t))
  }

  function Apply(h: Host, op: Op, args: ResAll): Res {
    match args
    case Vals(ws, t) => Respond(h, op, ws, t)
    case Stopped(r) => r
  }

  /** Put the value of a first operand before those of the others. */
  function Cons(w: Word, rest: ResAll): ResAll {
    match rest
    case Vals(ws, t) => Vals([w] + ws, t)
    case Stopped(r) => rest
  }

  function Eval(h: Host, e: Expr, frames: Frames, trace: Trace): Res
    decreases e, 1
  {
    match e
    case Lit(_, v) => Val(v, trace)
    case BoolLit(b) => Val(if b then 1 else 0, trace)
    case Void => Val(VOID, trace)
    case Leaf(a) => Respond(h, OpLeaf(a), [], trace)
    case Param(x) => Val(Read(h, frames, x), trace)
    case NamedLocal(x) => Val(Read(h, frames, x), trace)
    case Local(slot) => Val(Read(h, frames, SlotName(slot)), trace)
    case UnknownVal => Hole(h, trace)
    case CyclicSlot(_, _) => Hole(h, trace)
    case Panic => Abort
    case Unary(op, a) =>
      (match Eval(h, a, frames, trace)
       case Val(w, t) => if op == PanicWithError then Abort else Respond(h, OpUnary(op), [w], t)
       case r => r)
    case Binary(op, a, b) =>
      (match Eval(h, a, frames, trace)
       case Val(w, t) =>
         if (op == And && w == 0) || (op == Or && w != 0) then Val(w, t)
         else
           (match Eval(h, b, frames, t)
            case Val(w', t') =>
              if op == And || op == Or then Val(w', t') else Respond(h, OpBinary(op), [w, w'], t')
            case r => r)
       case r => r)
    case Ternary(op, a, b, c) =>
      (match Eval(h, a, frames, trace)
       case Val(w, t) =>
         (match Eval(h, b, frames, t)
          case Val(w', t') =>
            (match Eval(h, c, frames, t')
             case Val(w'', t'') => Respond(h, OpTernary(op), [w, w', w''], t'')
             case r => r)
          case r => r)
       case r => r)
    case Nary(op, es) => Apply(h, OpNary(op), EvalAll(h, es, frames, trace))
    case StorageGet(key, read, onMissing) =>
      (match Eval(h, key, frames, trace)
       case Val(k, t) => EvalGet(h, k, read, onMissing, frames, t)
       case r => r)
    case MethodCall(receiver, selector, args) =>
      (match Eval(h, receiver, frames, trace)
       case Val(w, t) => Apply(h, OpMethod(selector), Cons(w, EvalAll(h, args, frames, t)))
       case r => r)
    case RawHostCall(m, f, args) => Apply(h, OpRaw(m, f), EvalAll(h, args, frames, trace))
    case PublishEvent(event, topics, data) =>
      (match EvalAll(h, topics, frames, trace)
       case Vals(ws, t) =>
         (match Eval(h, data, frames, t)
          case Val(w, t') => Respond(h, OpPublish(event), ws + [w], t')
          case r => r)
       case Stopped(r) => r)
    case Invoke(kind, address, callee, args) =>
      (match Eval(h, address, frames, trace)
       case Val(w, t) =>
         (match Eval(h, callee, frames, t)
          case Val(w', t') => Apply(h, OpInvoke(kind), Cons(w, Cons(w', EvalAll(h, args, frames, t'))))
          case r => r)
       case r => r)
  }

  /** A storage read. A panicking fallback renders lazily; any other fallback is an
      ordinary argument and is evaluated whether or not the entry is there. */
  function EvalGet(h: Host, key: Word, read: StorageRead, onMissing: Option<Expr>, frames: Frames, trace: Trace): Res
    decreases onMissing, 2
  {
    var answer := h.apply(OpStorageGet(read), [key], trace);
    if onMissing.None? then
      if answer.Missing? && !read.unwrap then Val(VOID, trace)
      else Settle(answer, OpStorageGet(read), [key], trace)
    else if onMissing.value.Unary? && onMissing.value.uop == PanicWithError && !answer.Missing? then
      Settle(answer, OpStorageGet(read), [key], trace)
    else
      match Settle(if answer.Missing? then Ok(VOID, false) else answer, OpStorageGet(read), [key], trace)
      case Val(w, t) =>
        (match Eval(h, onMissing.value, frames, t)
         case Val(d, t') => Val(if answer.Missing? then d else w, t')
         case r => r)
      case r => r
  }

  // ---------------------------------------------------------------------
  // Statements
  // ---------------------------------------------------------------------

  datatype Outcome =
    | Normal(frames: Frames, trace: Trace, value: Word)
    | Broke(frames: Frames, trace: Trace)
    | Continued(frames: Frames, trace: Trace)
    | Returned(result: Word, trace: Trace)
    | Aborted
    | OutOfFuel(trace: Trace)

  /** Whatever a run leaves behind has as many scopes as it started with. */
  predicate SameDepth(o: Outcome, frames: Frames) {
    frames != [] && (o.Normal? || o.Broke? || o.Continued?) ==> |o.frames| == |frames|
  }

  /** An expression that stops the statement it occurs in. */
  function Stop(r: Res): (o: Outcome)
    requires !r.Val?
  {
    match r
    case Abort => Aborted
    case Early(w, t) => Returned(w, t)
  }

  function LeaveScope(o: Outcome): Outcome {
    match o
    case Normal(f, t, v) => Normal(Pop(f), t, v)
    case Broke(f, t) => Broke(Pop(f), t)
    case Continued(f, t) => Continued(Pop(f), t)
    case _ => o
  }

  /** The value of a block is the value of its last statement, `()` when it has none. */
  function ExecAll(h: Host, fuel: nat, ss: seq<Stmt>, frames: Frames, trace: Trace): (o: Outcome)
    ensures SameDepth(o, frames)
    decreases fuel, ss, 0
  {
    if ss == [] then Normal(frames, trace, VOID)
    else
      match Exec(h, fuel, ss[0], frames, trace)
      case Normal(f, t, v) => if |ss| == 1 then Normal(f, t, v) else ExecAll(h, fuel, ss[1..], f, t)
      case other => other
  }

  function ExecBlock(h: Host, fuel: nat, ss: seq<Stmt>, scope: Frame, frames: Frames, trace: Trace): (o: Outcome)
    ensures SameDepth(o, frames)
    decreases fuel, ss, 1
  {
    LeaveScope(ExecAll(h, fuel, ss, frames + [scope], trace))
  }

  function Exec(h: Host, fuel: nat, s: Stmt, frames: Frames, trace: Trace): (o: Outcome)
    ensures SameDepth(o, frames)
    decreases fuel, s, 2
  {
    match s
    case ExprStmt(e) =>
      (match Eval(h, e, frames, trace)
       // `expr?` in statement position renders as `expr?;`
       case Val(w, t) => Normal(frames, t, if e.Unary? && e.uop == Try then VOID else w)
       case r => Stop(r))
    case Let(x, _, e) =>
      (match Eval(h, e, frames, trace)
       case Val(w, t) => Normal(Bind(frames, x, w), t, VOID)
       case r => Stop(r))
    case Assign(x, e) =>
      (match Eval(h, e, frames, trace)
       case Val(w, t) => Normal(Store(frames, x, w), t, VOID)
       case r => Stop(r))
    case Return(None) => Returned(VOID, trace)
    case Return(Some(e)) =>
      (match Eval(h, e, frames, trace)
       case Val(w, t) => Returned(w, t)
       case r => Stop(r))
    case If(c, thenBody, elseBody) =>
      (match Eval(h, c, frames, trace)
       case Val(w, t) =>
         if elseBody == [] then
           // without an else branch the whole `if` is `()`
           if w != 0 then Discard(ExecBlock(h, fuel, thenBody, map[], frames, t)) else Normal(frames, t, VOID)
         else if w != 0 then ExecBlock(h, fuel, thenBody, map[], frames, t)
         else ExecBlock(h, fuel, elseBody, map[], frames, t)
       case r => Stop(r))
    case Match(e, arms) =>
      (match Eval(h, e, frames, trace)
       case Val(w, t) => ExecArms(h, fuel, arms, w, frames, t)
       case r => Stop(r))
    case Loop(body) => ExecLoop(h, fuel, body, frames, trace)
    case For(x, a, b, step, body) =>
      (match Eval(h, a, frames, trace)
       case Val(lo, t) =>
         (match Eval(h, b, frames, t)
          case Val(hi, t') => ExecFor(h, fuel, x, lo, hi, step, body, frames, t')
          case r => Stop(r))
       case r => Stop(r))
    case Block(body) => ExecBlock(h, fuel, body, map[], frames, trace)
    case Comment(_) => Normal(frames, trace, VOID)
    case Break => Broke(frames, trace)
    case Continue => Continued(frames, trace)
  }

  function Discard(o: Outcome): Outcome {
    if o.Normal? then o.(value := VOID) else o
  }

  /** The scope that an arm's bindings open. */
  function Payload(h: Host, typeName: string, variant: string, w: Word, names: seq<string>): (f: Frame)
    ensures forall x :: x in f.Keys <==> x in names
    decreases |names|
  {
    if names == [] then map[]
    else
      var n := |names| - 1;
      assert names == names[..n] + [names[n]];
      Payload(h, typeName, variant, w, names[..n])[names[n] := h.payload(typeName, variant, w, n)]
  }

  function ExecArms(h: Host, fuel: nat, arms: seq<Arm>, w: Word, frames: Frames, trace: Trace): (o: Outcome)
    ensures SameDepth(o, frames)
    decreases fuel, arms, 0
  {
    if arms == [] then Aborted
    else
      var arm := arms[0];
      match arm.pattern
      case Wildcard => ExecBlock(h, fuel, arm.body, map[], frames, trace)
      case EnumVariant(ty, v, names) =>
        if h.matches(ty, v, w)
        then ExecBlock(h, fuel, arm.body, Payload(h, ty, v, w, names), frames, trace)
        else ExecArms(h, fuel, arms[1..], w, frames, trace)
      case Literal(e) =>
        match Eval(h, e, frames, trace)
        case Val(k, t) =>
          if k == w then ExecBlock(h, fuel, arm.body, map[], frames, t)
          else ExecArms(h, fuel, arms[1..], w, frames, t)
        case r => Stop(r)
  }

  function ExecLoop(h: Host, fuel: nat, body: seq<Stmt>, frames: Frames, trace: Trace): (o: Outcome)
    ensures SameDepth(o, frames)
    decreases fuel, body, 3
  {
    if fuel == 0 then OutOfFuel(trace)
    else
      match ExecBlock(h, fuel - 1, body, map[], frames, trace)
      case Normal(f, t, _) => ExecLoop(h, fuel - 1, body, f, t)
      case Continued(f, t) => ExecLoop(h, fuel - 1, body, f, t)
      case Broke(f, t) => Normal(f, t, VOID)
      case other => other
  }

  function ExecFor(h: Host, fuel: nat, x: string, lo: Word, hi: Word, step: int, body: seq<Stmt>,
                   frames: Frames, trace: Trace): (o: Outcome)
    ensures SameDepth(o, frames)
    decreases fuel, body, 3
  {
    if lo >= hi then Normal(frames, trace, VOID)
    else if fuel == 0 then OutOfFuel(trace)
    else
      match ExecBlock(h, fuel - 1, body, map[x := lo], frames, trace)
      case Normal(f, t, _) => ExecFor(h, fuel - 1, x, lo + step, hi, step, body, f, t)
      case Continued(f, t) => ExecFor(h, fuel - 1, x, lo + step, hi, step, body, f, t)
      case Broke(f, t) => Normal(f, t, VOID)
      case other => other
  }

  lemma ExecTwo(h: Host, fuel: nat, a: Stmt, b: Stmt, frames: Frames, trace: Trace)
    ensures var o := Exec(h, fuel, a, frames, trace);
            ExecAll(h, fuel, [a, b], frames, trace) == if o.Normal? then Exec(h, fuel, b, o.frames, o.trace) else o
  {
    assert [a, b][1..] == [b];
  }

  /** A counted loop over a single value runs its body once. */
  lemma ExecForOnce(h: Host, fuel: nat, x: string, lo: Word, body: seq<Stmt>, frames: Frames, trace: Trace, after: Frames, t: Trace, v: Word)
    requires fuel > 0 && ExecBlock(h, fuel - 1, body, map[x := lo], frames, trace) == Normal(after, t, v)
    ensures ExecFor(h, fuel, x, lo, lo + 1, 1, body, frames, trace) == Normal(after, t, VOID)
  {
    assert ExecFor(h, fuel - 1, x, lo + 1, lo + 1, 1, body, after, t) == Normal(after, t, VOID);
  }
}
