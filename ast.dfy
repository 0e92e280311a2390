/** The parse trees the graph builder walks: the six handled node kinds, the
    statement wrappers that reach them, and the canonical key of an expression. */
module Ast {

  /** Python's expression context. Only `Load` names are recorded. */
  datatype Ctx = Load | Store

  datatype Expr =
    | Name(id: string, ctx: Ctx)
    | Constant(literal: string)          // the literal as it is written
    | UnaryOp(op: string, operand: Expr)
    | BinOp(left: Expr, op: string, right: Expr)
    | Call(func: Expr, args: seq<Expr>)

  /** A module body is a sequence of these; an `Expr` statement is a bare expression. */
  datatype Stmt =
    | Assign(targets: seq<Expr>, value: Expr)
    | ExprStmt(value: Expr)

  /** The canonical key of an expression: the expression with context erased. */
  type Key = Expr

  /** The key of a name, and the key under which an assignment target is recorded. */
  function NameKey(id: string): Key {
    Name(id, Load)
  }

  /** Every name in `e` carries the `Load` context. */
  ghost predicate Canonical(e: Expr) {
    match e
    case Name(_, ctx) => ctx == Load
    case Constant(_) => true
    case UnaryOp(_, a) => Canonical(a)
    case BinOp(l, _, r) => Canonical(l) && Canonical(r)
    case Call(f, args) => Canonical(f) && forall i | 0 <= i < |args| :: Canonical(args[i])
  }

  /** `ast.unparse`, as far as key equality is concerned: the printed text does
      not depend on a name's context, and distinct trees print differently. */
  function Unparse(e: Expr): (k: Key)
    ensures Canonical(k)
  {
    match e
    case Name(id, _) => NameKey(id)
    case Constant(_) => e
    case UnaryOp(op, a) => UnaryOp(op, Unparse(a))
    case BinOp(l, op, r) => BinOp(Unparse(l), op, Unparse(r))
    case Call(f, args) => Call(Unparse(f), seq(|args|, i requires 0 <= i < |args| => Unparse(args[i])))
  }

  /** A key is its own key; so two expressions share a key exactly when they
      agree once contexts are ignored. */
  lemma {:induction false} UnparseCanonical(e: Expr)
    requires Canonical(e)
    ensures Unparse(e) == e
  {
    match e
    case Name(_, _) =>
    case Constant(_) =>
    case UnaryOp(_, a) => UnparseCanonical(a);
    case BinOp(l, _, r) => UnparseCanonical(l); UnparseCanonical(r);
    case Call(f, args) =>
      UnparseCanonical(f);
      forall i | 0 <= i < |args| ensures Unparse(args[i]) == args[i] {
        UnparseCanonical(args[i]);
      }
      assert Unparse(e).args == args;
  }

  lemma UnparseIdempotent(e: Expr)
    ensures Unparse(Unparse(e)) == Unparse(e)
  {
    UnparseCanonical(Unparse(e));
  }
}
