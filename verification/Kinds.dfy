/** Tests on expressions, said by the kinds of their nodes. */
module Kinds {
  import opened Ir

  predicate IsVariable(e: Expr) { e.Param? || e.NamedLocal? || e.Local? }

  /** Nodes whose work is nothing but reading literals, names and the ledger's state, converting,
      comparing and computing without division. */
  predicate IsQuiet(e: Expr) {
    || e.Lit? || e.BoolLit? || e == Void || IsVariable(e)
    || (e.Leaf? && (e.atom.SymbolLiteral? || e.atom.StringLiteral? || e.atom.BytesLiteral?))
    || (e.Leaf? && (e.atom == NoneValue || e.atom == Env || e.atom == LedgerSequence || e.atom == LedgerTimestamp))
    || (e.Leaf? && e.atom == CurrentContractAddress)
    || (e.Unary? && (e.uop.FieldAccess? || e.uop.CastAs? || e.uop.ValConvert? || e.uop == Not))
    || (e.Binary? && (e.bop == Add || e.bop == Sub || e.bop == Mul || e.bop == Shl))
    || (e.Binary? && (e.bop == Eq || e.bop == Ne || e.bop == Lt || e.bop == Le || e.bop == Gt || e.bop == Ge))
  }

  /** Nothing is lost if the expression is not evaluated. */
  predicate IsDroppable(e: Expr) { IsQuiet(e) && forall i :: 0 <= i < |Children(e)| ==> IsDroppable(Children(e)[i]) }

  lemma {:induction false} EffectFreeExactlyWhen(e: Expr)
    ensures IsEffectFree(e) <==> IsDroppable(e)
  {
    forall i | 0 <= i < |Children(e)| ensures IsEffectFree(Children(e)[i]) <==> IsDroppable(Children(e)[i]) {
      EffectFreeExactlyWhen(Children(e)[i]);
    }
    EffectFreeAt(e);
  }

  lemma EffectFreeAt(e: Expr)
    ensures IsEffectFree(e) <==> IsQuiet(e) && forall i :: 0 <= i < |Children(e)| ==> IsEffectFree(Children(e)[i])
  {
    if e.Unary? {
      assert Children(e) == [e.arg];
      assert IsEffectFree(Children(e)[0]) == IsEffectFree(e.arg);
    } else if e.Binary? {
      assert Children(e) == [e.lhs, e.rhs];
      assert IsEffectFree(Children(e)[0]) == IsEffectFree(e.lhs) && IsEffectFree(Children(e)[1]) == IsEffectFree(e.rhs);
    }
  }

  /** A value that was not recovered, or an abort. */
  predicate IsTrap(e: Expr) { e == UnknownVal || e == Panic || (e.Unary? && e.uop == PanicWithError) }

  /** The first child is evaluated before the node does anything. */
  predicate NeedsFirst(e: Expr) {
    || e.MethodCall?
    || (e.Unary? && (e.uop.FieldAccess? || e.uop.ValConvert? || e.uop == Not))
    || NeedsBoth(e)
  }

  predicate NeedsBoth(e: Expr) {
    || (e.Binary? && (e.bop == Add || e.bop == Sub || e.bop == Mul || e.bop == Shl || e.bop == Div || e.bop == Rem))
    || (e.Binary? && (e.bop == Eq || e.bop == Ne || e.bop == Lt || e.bop == Le || e.bop == Gt || e.bop == Ge))
  }

  /** A trap is the first thing that the expression does. */
  predicate TrapsFirst(e: Expr) {
    || IsTrap(e)
    || (NeedsFirst(e) && |Children(e)| > 0 && TrapsFirst(Children(e)[0]))
    || (NeedsBoth(e) && |Children(e)| > 1 && TrapsFirst(Children(e)[1]) && IsDroppable(Children(e)[0]))
  }

  lemma {:induction false} NeverRootedExactlyWhen(e: Expr)
    ensures IsNeverRooted(e) <==> TrapsFirst(e)
  {
    if e.MethodCall? {
      assert Children(e)[0] == e.receiver;
      NeverRootedExactlyWhen(e.receiver);
    } else if e.Unary? {
      assert Children(e)[0] == e.arg;
      NeverRootedExactlyWhen(e.arg);
    } else if e.Binary? {
      assert Children(e)[0] == e.lhs && Children(e)[1] == e.rhs;
      NeverRootedExactlyWhen(e.lhs);
      NeverRootedExactlyWhen(e.rhs);
      EffectFreeExactlyWhen(e.lhs);
    }
  }
}
