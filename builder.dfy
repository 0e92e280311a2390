/** The dependency-graph builder (`PythonToGraph` in simulations.py) as
    functions over an explicit state: one post-order, left-to-right pass that
    fills an insertion-ordered symbol table and the list of final results. */
module Builder {
  import opened Ast
  import opened Sequences

  /** A graph node: its key (`label` in the source) and the keys it is computed from, in order. */
  datatype Computation = Computation(key: Key, dependencies: seq<Key>)

  /** The builder's state. `keys` is the symbol table's iteration order and
      `table` its contents; `finals` is `final_results`. */
  datatype Graph = Graph(keys: seq<Key>, table: map<Key, Computation>, finals: seq<Key>)

  /** The source fails every check with the same `AssertionError`; the model
      names which check failed. */
  datatype BuildError =
    | CalleeNotName   // a Call whose func is not a bare Name
    | TargetCount     // an Assign with other than one target
    | TargetNotName   // an Assign whose target is not a Name
    | TargetDefined   // an Assign whose target is already a table key

  datatype Result = Ok(value: Graph) | Err(error: BuildError) {
    predicate IsFailure() { Err? }
    function PropagateFailure(): Result requires Err? { this }
    function Extract(): Graph requires Ok? { value }
  }

  const Empty: Graph := Graph([], map[], [])

  /** `symbol_table[k] = c`: a new key goes last, an existing key keeps its place. */
  function Put(g: Graph, k: Key, c: Computation): Graph {
    Graph(if k in g.table then g.keys else g.keys + [k], g.table[k := c], g.finals)
  }

  /** The `visit_*` methods, dispatched on the node kind. */
  function Visit(g: Graph, e: Expr): (r: Result)
    ensures r.Ok? ==> g.table.Keys <= r.value.table.Keys
    ensures r.Err? ==> r.error == CalleeNotName
    decreases e, 1
  {
    match e
    case Name(id, ctx) =>
      if ctx == Store then Ok(g)
      else
        var k := NameKey(id);
        var g1 := if k in g.table then g else Put(g, k, Computation(k, []));
        Ok(if k in g1.finals then g1.(finals := RemoveFirst(g1.finals, k)) else g1)
    case Constant(_) =>
      var k := Unparse(e);
      Ok(Put(g, k, Computation(k, [])))
    case UnaryOp(_, operand) =>
      var g1 :- Visit(g, operand);
      var k := Unparse(e);
      Ok(Put(g1, k, Computation(k, [Unparse(operand)])))
    case BinOp(left, _, right) =>
      var g1 :- Visit(g, left);
      var g2 :- Visit(g1, right);
      var k := Unparse(e);
      Ok(Put(g2, k, Computation(k, [Unparse(left), Unparse(right)])))
    case Call(func, args) =>
      if !func.Name? then Err(CalleeNotName)
      else
        var g1 :- VisitArgs(g, e, |args|);
        var k := Unparse(e);
        // k.args holds the arguments' keys in order: Unparse(args[i]) for each i
        Ok(Put(g1, k, Computation(k, k.args)))
  }

  /** Visits the first `n` arguments of a call, left to right; the callee is
      never visited. */
  function VisitArgs(g: Graph, call: Expr, n: nat): (r: Result)
    requires call.Call? && n <= |call.args|
    ensures r.Ok? ==> g.table.Keys <= r.value.table.Keys
    ensures r.Err? ==> r.error == CalleeNotName
    decreases call, 0, n
  {
    if n == 0 then Ok(g)
    else
      var g1 :- VisitArgs(g, call, n - 1);
      Visit(g1, call.args[n - 1])
  }

  /** One statement of the module body. An `Assign` runs its three checks before
      anything is visited, then visits its target and its value. */
  function Exec(g: Graph, s: Stmt): Result {
    match s
    case ExprStmt(value) => Visit(g, value)
    case Assign(targets, value) =>
      if |targets| != 1 then Err(TargetCount)
      else if !targets[0].Name? then Err(TargetNotName)
      else if NameKey(targets[0].id) in g.table then Err(TargetDefined)
      else
        var g1 :- Visit(g, targets[0]);
        var g2 :- Visit(g1, value);
        var k := NameKey(targets[0].id);
        var g3 := Put(g2, k, Computation(k, [Unparse(value)]));
        Ok(g3.(finals := g3.finals + [k]))
  }

  /** The statements of `body`, in order; the first failure aborts the pass. */
  function ExecAll(g: Graph, body: seq<Stmt>): Result
    decreases |body|
  {
    if |body| == 0 then Ok(g)
    else
      var g1 :- ExecAll(g, body[..|body| - 1]);
      Exec(g1, body[|body| - 1])
  }

  /** A fresh `PythonToGraph` visiting a whole module. */
  function Build(body: seq<Stmt>): Result {
    ExecAll(Empty, body)
  }

  // ---------------------------------------------------------------------------
  // Reference definitions the builder is proved against.

  /** The dependencies recorded for a key that is not a name. */
  function DepsOf(k: Key): seq<Key> {
    match k
    case Name(_, _) => []
    case Constant(_) => []
    case UnaryOp(_, a) => [a]
    case BinOp(l, _, r) => [l, r]
    case Call(_, args) => args
  }

  /** Every call the pass reaches has a bare-name callee. */
  ghost predicate Supported(e: Expr) {
    match e
    case Name(_, _) => true
    case Constant(_) => true
    case UnaryOp(_, a) => Supported(a)
    case BinOp(l, _, r) => Supported(l) && Supported(r)
    case Call(f, args) => f.Name? && forall i | 0 <= i < |args| :: Supported(args[i])
  }

  /** Every name the pass reaches is read (`Load`), as the parser guarantees
      for an expression in value position. A callee is not reached. */
  ghost predicate InLoadContext(e: Expr) {
    match e
    case Name(_, ctx) => ctx == Load
    case Constant(_) => true
    case UnaryOp(_, a) => InLoadContext(a)
    case BinOp(l, _, r) => InLoadContext(l) && InLoadContext(r)
    case Call(_, args) => forall i | 0 <= i < |args| :: InLoadContext(args[i])
  }

  /** A statement as the parser produces it: values are read, name targets are stored. */
  ghost predicate WellFormed(s: Stmt) {
    && InLoadContext(s.value)
    && (s.Assign? ==> forall i | 0 <= i < |s.targets| :: s.targets[i].Name? ==> s.targets[i].ctx == Store)
  }

  /** The keys the pass writes while visiting `e`, in the order it writes them. */
  function PostOrder(e: Expr): seq<Key>
    decreases e, 1
  {
    match e
    case Name(id, ctx) => if ctx == Load then [NameKey(id)] else []
    case Constant(_) => [e]
    case UnaryOp(_, a) => PostOrder(a) + [Unparse(e)]
    case BinOp(l, _, r) => PostOrder(l) + PostOrder(r) + [Unparse(e)]
    case Call(_, args) => ArgsPostOrder(e, |args|) + [Unparse(e)]
  }

  function ArgsPostOrder(call: Expr, n: nat): seq<Key>
    requires call.Call? && n <= |call.args|
    decreases call, 0, n
  {
    if n == 0 then [] else ArgsPostOrder(call, n - 1) + PostOrder(call.args[n - 1])
  }

  /** The keys a statement reads: those of its value. */
  function Reads(s: Stmt): seq<Key> {
    PostOrder(s.value)
  }

  /** The name a statement defines, if it is a well-formed assignment. */
  function Defined(s: Stmt): seq<Key> {
    if s.Assign? && |s.targets| == 1 && s.targets[0].Name? then [NameKey(s.targets[0].id)] else []
  }

  function StmtPostOrder(s: Stmt): seq<Key> {
    Reads(s) + Defined(s)
  }

  function BodyPostOrder(body: seq<Stmt>): seq<Key>
    decreases |body|
  {
    if |body| == 0 then [] else BodyPostOrder(body[..|body| - 1]) + StmtPostOrder(body[|body| - 1])
  }

  /** The value of an assignment does not read its own target (`x = x + 1` does). */
  ghost predicate NoSelfReference(s: Stmt) {
    s.Assign? && |s.targets| == 1 && s.targets[0].Name? ==> NameKey(s.targets[0].id) !in PostOrder(s.value)
  }

  /** `x` is a final result after `body`: some statement assigns it and no
      later statement reads it. */
  ghost predicate LiveAt(body: seq<Stmt>, x: Key) {
    exists i | 0 <= i < |body| :: x in Defined(body[i]) && forall j | i < j < |body| :: x !in Reads(body[j])
  }

  // ---------------------------------------------------------------------------
  // The invariant of the builder's state.

  /** The entry of `k` is labelled `k`, depends only on table keys, and records
      the dependencies its kind dictates: none or the assigned value for a name,
      `DepsOf(k)` otherwise. */
  ghost predicate Sound(table: map<Key, Computation>, k: Key)
    requires k in table
  {
    var c := table[k];
    && c.key == k
    && (forall d | d in c.dependencies :: d in table)
    && if k.Name? then |c.dependencies| <= 1 else c.dependencies == DepsOf(k) && (k.Call? ==> k.func.Name?)
  }

  /** Keys are unique and ordered; every entry is sound; the final results are
      distinct assigned names. */
  ghost predicate Inv(g: Graph) {
    && Distinct(g.keys)
    && (forall k :: k in g.table <==> k in g.keys)
    && (forall k | k in g.table :: Sound(g.table, k))
    && Distinct(g.finals)
    && (forall f | f in g.finals :: f in g.table && f.Name? && |g.table[f].dependencies| == 1)
  }

  /** What the layout needs: keys unique and in order, every dependency a key. */
  ghost predicate Closed(g: Graph) {
    && Distinct(g.keys)
    && (forall k :: k in g.table <==> k in g.keys)
    && (forall k, d | k in g.table && d in g.table[k].dependencies :: d in g.table)
  }

  /** Every dependency precedes its dependent in the table's order. */
  ghost predicate Forward(g: Graph) {
    forall k, d | k in g.table && d in g.table[k].dependencies ::
      k in g.keys && d in g.keys && IndexOf(g.keys, d) < IndexOf(g.keys, k)
  }

  /** Entries present in `g` are present and unchanged in `g'`. */
  ghost predicate Kept(g: Graph, g': Graph) {
    forall k | k in g.table :: k in g'.table && g'.table[k] == g.table[k]
  }
}
