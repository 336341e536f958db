/** The expression and statement tree that every pass of the decompiler rewrites.

    The source enum has some eighty variants; the ones that all the modelled
    walkers treat alike (same number of children, visited in the same order) share
    one constructor here and are told apart by an operator tag. The tag keeps
    everything of the variant that is not a child, so no variant is lost and each pass
    can still single out the ones it treats specially. */
module Ir {

  datatype Option<+T> = None | Some(value: T)

  /** A 32-bit wasm local index. */
  type Slot = n: nat | n < 0x1_0000_0000

  datatype LitKind = U32 | I32 | U64 | I64 | U128 | I128

  /** Leaves whose value is supplied by the host. */
  datatype Atom =
    | SymbolLiteral(text: string) | StringLiteral(text: string) | BytesLiteral(bytes: seq<int>)
    | NoneValue | Env | ContractError(code: int, errorType: Option<string>, variantName: Option<string>)
    | LedgerSequence | LedgerTimestamp | LedgerNetworkId
    | CurrentContractAddress | MaxLiveUntilLedger
    | CollectionNew(kind: string) | ValTagName(kind: string)

  datatype StorageType = Persistent | Temporary | Instance

  datatype UnaryOp =
    | SomeOf | Not | RequireAuth | AuthorizeAsCurrContract | ErrorFromCode | PanicWithError
    | CryptoSha256 | CryptoKeccak256 | PrngReseed | PrngBytesNew | PrngVecShuffle
    | StrkeyToAddress | AddressToStrkey | SretResult | ValTag | Try
    | ValConvert(target: string) | CastAs(target: string)
    | StorageHas(storage: StorageType) | StorageRemove(storage: StorageType) | FieldAccess(field: string)

  datatype BinaryOp =
    | Add | Sub | Mul | Shl | Div | Rem | Eq | Ne | Lt | Le | Gt | Ge | And | Or
    | RequireAuthForArgs | ExtendInstanceAndCodeTtl | VecTryIterFold | PrngU64InRange | StorageSet(storage: StorageType)

  datatype TernaryOp = StorageExtendTtl(storage: StorageType) | CryptoEd25519Verify | CryptoSecp256k1Recover

  /** A map constructor lists its keys and values alternately. */
  datatype NaryOp =
    | StructConstruct(typeName: string, fields: seq<string>)
    | EnumConstruct(typeName: string, variant: string)
    | TupleConstruct | VecConstruct | MapConstruct | Log

  /** Which storage is read, and whether a missing entry traps. */
  datatype StorageRead = StorageRead(storage: StorageType, unwrap: bool)

  /** Whether the caller survives a failing callee, and the type the result is read as. */
  datatype CallKind = CallKind(fallible: bool, returnType: Option<string>)

  datatype Expr =
    | Lit(kind: LitKind, value: int)
    | BoolLit(flag: bool)
    | Void
    | Leaf(atom: Atom)
    | Param(name: string)
    | Local(slot: Slot)
    | NamedLocal(name: string)
    | UnknownVal
    | CyclicSlot(frame: int, offset: int)
    | Panic
    | Unary(uop: UnaryOp, arg: Expr)
    | Binary(bop: BinaryOp, lhs: Expr, rhs: Expr)
    | Ternary(top: TernaryOp, first: Expr, second: Expr, third: Expr)
    | Nary(nop: NaryOp, items: seq<Expr>)
    | StorageGet(key: Expr, read: StorageRead, onMissing: Option<Expr>)
    | MethodCall(receiver: Expr, selector: string, args: seq<Expr>)
    | RawHostCall(hostModule: string, hostFunction: string, args: seq<Expr>)
    | PublishEvent(eventName: Option<string>, topics: seq<Expr>, data: Expr)
    | Invoke(call: CallKind, address: Expr, callee: Expr, args: seq<Expr>)

  datatype Pattern =
    | Literal(pat: Expr)
    | EnumVariant(typeName: string, variant: string, bindings: seq<string>)
    | Wildcard

  datatype Arm = Arm(pattern: Pattern, body: seq<Stmt>)

  datatype Stmt =
    | ExprStmt(e: Expr)
    | Let(name: string, mutable: bool, value: Expr)
    | Assign(target: string, value: Expr)
    | Return(result: Option<Expr>)
    | If(cond: Expr, thenBody: seq<Stmt>, elseBody: seq<Stmt>)
    | Match(scrutinee: Expr, arms: seq<Arm>)
    | Loop(body: seq<Stmt>)
    | For(loopVar: string, start: Expr, end: Expr, step: int, body: seq<Stmt>)
    | Block(body: seq<Stmt>)
    | Comment(text: string)
    | Break
    | Continue

  /** The direct sub-expressions, in evaluation order. The fallback of a storage read is
      not one of them. */
  function Children(e: Expr): (r: seq<Expr>)
    ensures forall i :: 0 <= i < |r| ==> r[i] < e
  {
    match e
    case Unary(_, a) => [a]
    case Binary(_, a, b) => [a, b]
    case Ternary(_, a, b, c) => [a, b, c]
    case Nary(_, es) => es
    case StorageGet(key, _, _) => [key]
    case MethodCall(receiver, _, args) => [receiver] + args
    case RawHostCall(_, _, args) => args
    case PublishEvent(_, topics, data) => topics + [data]
    case Invoke(_, address, callee, args) => [address, callee] + args
    case _ => []
  }

  /** The same node with other children. */
  function Rebuild(e: Expr, kids: seq<Expr>): Expr
    requires |kids| == |Children(e)|
  {
    match e
    case Unary(op, _) => Unary(op, kids[0])
    case Binary(op, _, _) => Binary(op, kids[0], kids[1])
    case Ternary(op, _, _, _) => Ternary(op, kids[0], kids[1], kids[2])
    case Nary(op, _) => Nary(op, kids)
    case StorageGet(_, read, onMissing) => StorageGet(kids[0], read, onMissing)
    case MethodCall(_, selector, _) => MethodCall(kids[0], selector, kids[1..])
    case RawHostCall(m, f, _) => RawHostCall(m, f, kids)
    case PublishEvent(event, _, _) => PublishEvent(event, kids[..|kids| - 1], kids[|kids| - 1])
    case Invoke(kind, _, _, _) => Invoke(kind, kids[0], kids[1], kids[2..])
    case _ => e
  }

  lemma RebuiltNode(e: Expr, kids: seq<Expr>)
    requires |kids| == |Children(e)|
    ensures SameHead(e, Rebuild(e, kids)) && Children(Rebuild(e, kids)) == kids
  {
  }

  lemma RebuiltSame(e: Expr)
    ensures Rebuild(e, Children(e)) == e
  {
  }

  /** The same node up to its children; leaves are the same outright. */
  predicate SameHead(e: Expr, f: Expr) {
    match (e, f)
    case (Unary(op, _), Unary(op', _)) => op == op'
    case (Binary(op, _, _), Binary(op', _, _)) => op == op'
    case (Ternary(op, _, _, _), Ternary(op', _, _, _)) => op == op'
    case (Nary(op, es), Nary(op', es')) => op == op' && |es| == |es'|
    case (StorageGet(_, read, m), StorageGet(_, read', m')) => read == read' && m == m'
    case (MethodCall(_, g, es), MethodCall(_, g', es')) => g == g' && |es| == |es'|
    case (RawHostCall(m, g, es), RawHostCall(m', g', es')) => m == m' && g == g' && |es| == |es'|
    case (PublishEvent(event, es, _), PublishEvent(event', es', _)) => event == event' && |es| == |es'|
    case (Invoke(kind, _, _, es), Invoke(kind', _, _, es')) => kind == kind' && |es| == |es'|
    case _ => e == f
  }

  /** A node is its head and its children. */
  lemma SameNode(e: Expr, f: Expr, g: Expr)
    requires SameHead(e, f) && SameHead(e, g) && Children(f) == Children(g)
    ensures f == g
  {
    RebuiltFrom(e, f);
    RebuiltFrom(e, g);
  }

  lemma RebuiltFrom(e: Expr, f: Expr)
    requires SameHead(e, f)
    ensures |Children(e)| == |Children(f)| && f == Rebuild(e, Children(f))
  {
    if e.MethodCall? {
      assert Children(f)[1..] == f.args;
    } else if e.Invoke? {
      assert Children(f)[2..] == f.args;
    } else if e.PublishEvent? {
      assert Children(f)[..|f.topics|] == f.topics;
    }
  }

  // ---------------------------------------------------------------------
  // Kinds of expressions
  // ---------------------------------------------------------------------

  /** Evaluating the expression reaches a `todo!()` or panic before it yields a value. */
  predicate IsNeverRooted(e: Expr) {
    match e
    case UnknownVal => true
    case Panic => true
    case Unary(PanicWithError, _) => true
    case MethodCall(receiver, _, _) => IsNeverRooted(receiver)
    case Unary(FieldAccess(_), a) => IsNeverRooted(a)
    case Unary(ValConvert(_), a) => IsNeverRooted(a)
    case Unary(Not, a) => IsNeverRooted(a)
    case Binary(op, a, b) =>
      (IsArithmetic(op) || IsComparison(op)) && (IsNeverRooted(a) || (IsNeverRooted(b) && IsEffectFree(a)))
    case _ => false
  }

  predicate IsArithmetic(op: BinaryOp) {
    op == Add || op == Sub || op == Mul || op == Div || op == Rem || op == Shl
  }

  predicate IsComparison(op: BinaryOp) {
    op == Eq || op == Ne || op == Lt || op == Le || op == Gt || op == Ge
  }

  predicate IsEffectFree(e: Expr) {
    match e
    case Lit(_, _) => true
    case BoolLit(_) => true
    case Void => true
    case Param(_) => true
    case Local(_) => true
    case NamedLocal(_) => true
    case Leaf(a) =>
      a.SymbolLiteral? || a.StringLiteral? || a.BytesLiteral? || a == NoneValue || a == Env ||
      a == LedgerSequence || a == LedgerTimestamp || a == CurrentContractAddress
    case Unary(op, a) => (op.FieldAccess? || op.CastAs? || op.ValConvert? || op == Not) && IsEffectFree(a)
    case Binary(op, a, b) =>
      ((IsArithmetic(op) && op != Div && op != Rem) || IsComparison(op)) && IsEffectFree(a) && IsEffectFree(b)
    case _ => false
  }

  // ---------------------------------------------------------------------
  // Names of wasm slots
  // ---------------------------------------------------------------------

  function Digit(d: nat): (c: char)
    requires d < 10
    ensures '0' <= c <= '9' && (c as int) - ('0' as int) == d
  {
    ('0' as int + d) as char
  }

  function Decimal(n: nat): (s: string)
    ensures |s| > 0
    ensures forall i :: 0 <= i < |s| ==> '0' <= s[i] <= '9'
  {
    if n < 10 then [Digit(n)] else Decimal(n / 10) + [Digit(n % 10)]
  }

  /** The name a wasm local renders as. */
  function SlotName(slot: nat): string {
    "var_" + Decimal(slot)
  }

  /** The name that an identifier reads. */
  function NameOf(e: Expr): Option<string> {
    match e
    case Param(x) => Some(x)
    case NamedLocal(x) => Some(x)
    case Local(slot) => Some(SlotName(slot))
    case _ => None
  }

  predicate AllDigits(s: string) {
    forall i :: 0 <= i < |s| ==> '0' <= s[i] <= '9'
  }

  function DecimalValue(s: string): (v: nat)
    requires AllDigits(s)
  {
    if s == "" then 0
    else 10 * DecimalValue(s[..|s| - 1]) + (s[|s| - 1] as int - '0' as int)
  }

  /** Parsing of an unsigned number: an optional plus sign and at least one digit (leading
      zeros allowed). */
  function ParseUnsigned(s: string): Option<nat> {
    var t := if |s| > 0 && s[0] == '+' then s[1..] else s;
    if t != "" && AllDigits(t) then Some(DecimalValue(t)) else None
  }

  /** The same for numbers of 32 bits. */
  function ParseU32(s: string): Option<Slot> {
    var v := ParseUnsigned(s);
    if v.Some? && v.value < 0x1_0000_0000 then Some(v.value) else None
  }

  /** The slot that a rendered local name denotes, if it has the form `var_N`. */
  function SlotOfName(name: string): Option<Slot> {
    if |name| >= 4 && name[..4] == "var_" then ParseU32(name[4..]) else None
  }

  lemma {:induction false} DecimalValueOfDecimal(n: nat)
    ensures DecimalValue(Decimal(n)) == n
  {
    var s := Decimal(n);
    if n < 10 {
      assert s[..0] == "";
    } else {
      assert s[..|s| - 1] == Decimal(n / 10);
      DecimalValueOfDecimal(n / 10);
    }
  }

  /** Parsing undoes rendering, so distinct slots have distinct names. */
  lemma SlotOfSlotName(slot: Slot)
    ensures SlotOfName(SlotName(slot)) == Some(slot)
  {
    DecimalValueOfDecimal(slot);
    var name := SlotName(slot);
    assert name[..4] == "var_";
    assert name[4..] == Decimal(slot);
    assert name[4] != '+';
  }

  lemma SlotNameInjective(a: Slot, b: Slot)
    requires SlotName(a) == SlotName(b)
    ensures a == b
  {
    SlotOfSlotName(a);
    SlotOfSlotName(b);
  }
}
