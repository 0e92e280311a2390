/** `PythonToGraph` as the source writes it: an object whose `symbol_table`
    and `final_results` are updated in place by one `visit_*` method per node
    kind. Each method is proved to leave exactly the state the functional
    builder computes. */
module Visitor {
  import opened Ast
  import opened Sequences
  import opened Builder
  import opened BuilderLemmas

  /** How a visit ended: normally, or with one of the source's failed checks. */
  datatype Outcome = Pass | Fail(error: BuildError)

  /** The result the functional builder gives for a visit that ended in `r`
      and left state `g`. */
  function AsResult(g: Graph, r: Outcome): Result {
    if r.Pass? then Ok(g) else Err(r.error)
  }

  class PythonToGraph {
    /** The keys of `symbol_table` in insertion order. */
    var insertionOrder: seq<Key>
    var symbolTable: map<Key, Computation>
    var finalResults: seq<Key>

    function State(): Graph
      reads this
    {
      Graph(insertionOrder, symbolTable, finalResults)
    }

    constructor ()
      ensures State() == Empty
    {
      insertionOrder := [];
      symbolTable := map[];
      finalResults := [];
    }

    /** `self.symbol_table[key] = c`. */
    method SetItem(key: Key, c: Computation)
      modifies this
      ensures State() == Put(old(State()), key, c)
    {
      if key !in symbolTable {
        insertionOrder := insertionOrder + [key];
      }
      symbolTable := symbolTable[key := c];
    }

    /** `visit_Name`: a read name enters the table with no dependencies unless
        present, and stops being a final result. */
    method VisitName(node: Expr)
      requires node.Name?
      modifies this
      ensures Ok(State()) == Builder.Visit(old(State()), node)
    {
      if node.ctx == Load {
        var key := NameKey(node.id);
        if key !in symbolTable {
          SetItem(key, Computation(key, []));
        }
        if key in finalResults {
          finalResults := RemoveFirst(finalResults, key);
        }
      }
    }

    /** `visit_Call`: the callee must be a bare name and is not visited; the
        arguments are visited left to right. */
    method VisitCall(node: Expr) returns (r: Outcome)
      requires node.Call?
      modifies this
      ensures AsResult(State(), r) == Builder.Visit(old(State()), node)
      decreases node, 0
    {
      if !node.func.Name? {
        return Fail(CalleeNotName);
      }
      var key := Unparse(node);
      var args;
      r, args := VisitArguments(node);
      if r.Fail? {
        return;
      }
      SetItem(key, Computation(key, args));
    }

    /** The loop of `visit_Call` over `node.args`, collecting their keys. */
    method VisitArguments(node: Expr) returns (r: Outcome, args: seq<Key>)
      requires node.Call?
      modifies this
      ensures AsResult(State(), r) == VisitArgs(old(State()), node, |node.args|)
      ensures r.Pass? ==> args == Unparse(node).args
      decreases node, 0, |node.args|
    {
      ghost var g0 := State();
      ghost var keys := Unparse(node).args;
      args := [];
      var i := 0;
      while i < |node.args|
        invariant 0 <= i <= |node.args| == |keys|
        invariant VisitArgs(g0, node, i) == Ok(State())
        invariant args == keys[..i]
      {
        var arg := node.args[i];
        ghost var g1 := State();
        r := Visit(arg);
        VisitArgsNext(g0, node, i, g1);
        if r.Fail? {
          VisitArgsAborts(g0, node, i + 1, |node.args|);
          return;
        }
        assert keys[..i + 1] == args + [Unparse(arg)];
        args := args + [Unparse(arg)];
        i := i + 1;
      }
      assert keys[..i] == keys;
      r := Pass;
    }

    /** `visit_Constant`. */
    method VisitConstant(node: Expr)
      requires node.Constant?
      modifies this
      ensures Ok(State()) == Builder.Visit(old(State()), node)
    {
      var key := Unparse(node);
      SetItem(key, Computation(key, []));
    }

    /** `visit_UnaryOp`: the operand first, then the operation. */
    method VisitUnaryOp(node: Expr) returns (r: Outcome)
      requires node.UnaryOp?
      modifies this
      ensures AsResult(State(), r) == Builder.Visit(old(State()), node)
      decreases node, 0
    {
      r := Visit(node.operand);
      if r.Fail? {
        return;
      }
      var key := Unparse(node);
      SetItem(key, Computation(key, [Unparse(node.operand)]));
    }

    /** `visit_BinOp`: left, then right, then the operation. */
    method VisitBinOp(node: Expr) returns (r: Outcome)
      requires node.BinOp?
      modifies this
      ensures AsResult(State(), r) == Builder.Visit(old(State()), node)
      decreases node, 0
    {
      r := Visit(node.left);
      if r.Fail? {
        return;
      }
      r := Visit(node.right);
      if r.Fail? {
        return;
      }
      var key := Unparse(node);
      SetItem(key, Computation(key, [Unparse(node.left), Unparse(node.right)]));
    }

    /** `NodeVisitor.visit` on an expression: dispatch on the node kind. */
    method Visit(node: Expr) returns (r: Outcome)
      modifies this
      ensures AsResult(State(), r) == Builder.Visit(old(State()), node)
      decreases node, 1
    {
      match node
      case Name(_, _) =>
        VisitName(node);
        r := Pass;
      case Constant(_) =>
        VisitConstant(node);
        r := Pass;
      case UnaryOp(_, _) => r := VisitUnaryOp(node);
      case BinOp(_, _, _) => r := VisitBinOp(node);
      case Call(_, _) => r := VisitCall(node);
    }

    /** `visit_Assign`: the three checks, then the target and the value, then
        the target's entry; the target becomes a final result. */
    method VisitAssign(node: Stmt) returns (r: Outcome)
      requires node.Assign?
      modifies this
      ensures AsResult(State(), r) == Exec(old(State()), node)
    {
      if |node.targets| != 1 {
        return Fail(TargetCount);
      }
      var target := node.targets[0];
      if !target.Name? {
        return Fail(TargetNotName);
      }
      if NameKey(target.id) in symbolTable {
        return Fail(TargetDefined);
      }
      r := Visit(target);
      if r.Fail? {
        return;
      }
      r := Visit(node.value);
      if r.Fail? {
        return;
      }
      var key := NameKey(target.id);
      SetItem(key, Computation(key, [Unparse(node.value)]));
      finalResults := finalResults + [key];
    }

    /** One statement of the module body; an expression statement visits its value. */
    method VisitStmt(node: Stmt) returns (r: Outcome)
      modifies this
      ensures AsResult(State(), r) == Exec(old(State()), node)
    {
      match node
      case Assign(_, _) => r := VisitAssign(node);
      case ExprStmt(value) => r := Visit(value);
    }

    /** `graph.visit(module)`: the statements in order, stopping at the first
        failed check. */
    method VisitModule(body: seq<Stmt>) returns (r: Outcome)
      modifies this
      ensures AsResult(State(), r) == ExecAll(old(State()), body)
    {
      var i := 0;
      while i < |body|
        invariant 0 <= i <= |body|
        invariant ExecAll(old(State()), body[..i]) == Ok(State())
      {
        assert body[..i + 1][..i] == body[..i];
        r := VisitStmt(body[i]);
        if r.Fail? {
          ExecAllAborts(old(State()), body, i + 1);
          return;
        }
        i := i + 1;
      }
      assert body[..i] == body;
      r := Pass;
    }
  }
}
