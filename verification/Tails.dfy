/** How a body ends, said by its tails: the places at which its last statement ends. */
module Tails {
  import opened Ir
  import opened Spec
  import opened TailSynthesis

  /** A tail has no value, or the value of an expression, or is anything else. */
  datatype Tail = NoValue | ValueOf(e: Expr) | Elsewhere

  function TailsOf(s: Stmt): seq<Tail>
    decreases s, 1
  {
    match s
    case If(_, a, b) => if b == [] then [NoValue] else BodyTails(a) + BodyTails(b)
    case Loop(_) => [NoValue]
    case For(_, _, _, _, _) => [NoValue]
    case Block(b) => BodyTails(b)
    case ExprStmt(e) => [ValueOf(e)]
    case _ => [Elsewhere]
  }

  function BodyTails(ss: seq<Stmt>): seq<Tail>
    decreases ss, 0
  {
    if ss == [] then [NoValue] else TailsOf(ss[|ss| - 1])
  }

  /** The operations without a result. */
  predicate IsUnitCall(e: Expr) {
    || (e.Binary? && (e.bop.StorageSet? || e.bop == ExtendInstanceAndCodeTtl || e.bop == RequireAuthForArgs))
    || (e.Unary? && (e.uop.StorageRemove? || e.uop == RequireAuth || e.uop == AuthorizeAsCurrContract))
    || (e.Unary? && (e.uop == PrngReseed || e.uop == Try))
    || (e.Ternary? && e.top.StorageExtendTtl?)
    || (e.Nary? && e.nop == Log)
    || e.PublishEvent?
  }

  predicate IsUnitTail(t: Tail) { t.NoValue? || (t.ValueOf? && IsUnitCall(t.e)) }

  predicate AllUnit(tails: seq<Tail>) { forall i :: 0 <= i < |tails| ==> IsUnitTail(tails[i]) }

  lemma AllUnitAppend(a: seq<Tail>, b: seq<Tail>)
    ensures AllUnit(a + b) <==> AllUnit(a) && AllUnit(b)
  {
    forall i | 0 <= i < |a| ensures (a + b)[i] == a[i] {}
    forall i | 0 <= i < |b| ensures (a + b)[|a| + i] == b[i] {}
  }

  lemma OneTail(t: Tail)
    ensures AllUnit([t]) <==> IsUnitTail(t)
  {
    assert [t][0] == t;
  }

  /** A statement passes as unit exactly if all its tails do. */
  lemma {:induction false} UnitExactlyWhen(s: Stmt)
    ensures TailIsUnit(s) <==> AllUnit(TailsOf(s))
    decreases s, 1
  {
    match s
    case If(_, a, b) =>
      if b != [] {
        BodyUnitExactlyWhen(a);
        BodyUnitExactlyWhen(b);
        AllUnitAppend(BodyTails(a), BodyTails(b));
      }
    case Block(b) => BodyUnitExactlyWhen(b);
    case ExprStmt(e) => OneTail(ValueOf(e));
    case _ => OneTail(Elsewhere);
  }

  lemma {:induction false} BodyUnitExactlyWhen(ss: seq<Stmt>)
    ensures StmtsTailIsUnit(ss) <==> AllUnit(BodyTails(ss))
    decreases ss, 0
  {
    if ss != [] { UnitExactlyWhen(ss[|ss| - 1]); }
  }

  /** `Result<(), E>`, the unit written as void or as the empty tuple. */
  predicate IsUnitResult(t: SpecType) { t.TResult? && (t.ok == TVoid || t.ok == TTuple([])) }

  /** `Ok(())` is appended exactly to a body that is to return `Result<(), E>` and whose last
      statement is no `return`; `todo!()` exactly to a body that is to return another value, is not
      empty, and has unit tails only. */
  lemma EndingsExactly(returnType: Option<SpecType>, body: seq<Stmt>)
    ensures NeedsOkUnitTail(returnType, body) <==>
            returnType.Some? && IsUnitResult(returnType.value) && (body == [] || !body[|body| - 1].Return?)
    ensures NeedsTodoValueTail(returnType, body) <==>
            && returnType.Some? && returnType.value != TVoid && !IsUnitResult(returnType.value)
            && body != [] && AllUnit(BodyTails(body))
  {
    BodyUnitExactlyWhen(body);
  }
}
