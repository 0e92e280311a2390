/** What the builder promises: the table is deduplicated and insertion-ordered
    in post-order, every dependency is a key written earlier, final results
    are exactly the assigned names not read since, and the checks fail where
    and only where the source's asserts do. */
module BuilderLemmas {
  import opened Ast
  import opened Sequences
  import opened Builder

  /** Writing one entry keeps the invariant: a new key goes last, an existing
      compound key is rewritten with the very entry it already has. */
  lemma PutFacts(g: Graph, k: Key, c: Computation)
    requires Inv(g)
    requires c.key == k && forall d | d in c.dependencies :: d in g.table
    requires if k.Name? then |c.dependencies| <= 1 && (k in g.finals ==> |c.dependencies| == 1)
             else c.dependencies == DepsOf(k) && (k.Call? ==> k.func.Name?)
    ensures Inv(Put(g, k, c))
    ensures Put(g, k, c).keys == AppendNew(g.keys, [k])
    ensures Put(g, k, c).table[k] == c
    ensures forall j | j in g.table && j != k :: Put(g, k, c).table[j] == g.table[j]
    ensures !k.Name? && k in g.table ==> Put(g, k, c) == g
    ensures Forward(g) && (k !in g.table || Put(g, k, c) == g) ==> Forward(Put(g, k, c))
  {
    assert [k][..0] == [];
    PutSound(g, k, c);
    if !k.Name? && k in g.table {
      assert Sound(g.table, k);
      assert Put(g, k, c).table == g.table;
    }
    if Forward(g) && k !in g.table {
      PutForward(g, k, c);
    }
  }

  lemma PutSound(g: Graph, k: Key, c: Computation)
    requires Inv(g)
    requires c.key == k && forall d | d in c.dependencies :: d in g.table
    requires if k.Name? then |c.dependencies| <= 1 && (k in g.finals ==> |c.dependencies| == 1)
             else c.dependencies == DepsOf(k) && (k.Call? ==> k.func.Name?)
    ensures Inv(Put(g, k, c))
  {
    var p := Put(g, k, c);
    forall j | j in p.table ensures Sound(p.table, j) {
      if j != k {
        assert Sound(g.table, j);
      }
    }
  }

  lemma PutForward(g: Graph, k: Key, c: Computation)
    requires Inv(g) && Forward(g) && k !in g.table
    requires forall d | d in c.dependencies :: d in g.table
    ensures Forward(Put(g, k, c))
  {
    var p := Put(g, k, c);
    forall j, d | j in p.table && d in p.table[j].dependencies
      ensures j in p.keys && d in p.keys && IndexOf(p.keys, d) < IndexOf(p.keys, j)
    {
      assert d in g.table;
      IndexOfPrefix(g.keys, [k], d);
      if j != k {
        IndexOfPrefix(g.keys, [k], j);
      }
    }
  }

  /** `g'` follows from `g` by writing the keys `po` in turn: the invariant
      holds, the new keys are appended in the order of `po`, earlier entries are
      untouched, the names in `po` have left the final results, and the order
      stays forward if it was. */
  ghost predicate Step(g: Graph, g': Graph, po: seq<Key>) {
    && Inv(g')
    && g'.keys == AppendNew(g.keys, po)
    && Kept(g, g')
    && (forall x :: x in g'.finals <==> x in g.finals && x !in po)
    && (Forward(g) ==> Forward(g'))
  }

  lemma StepTrans(g: Graph, g1: Graph, g2: Graph, po1: seq<Key>, po2: seq<Key>)
    requires Step(g, g1, po1) && Step(g1, g2, po2)
    ensures Step(g, g2, po1 + po2)
  {
    AppendNewConcat(g.keys, po1, po2);
  }

  lemma StepRefl(g: Graph)
    requires Inv(g)
    ensures Step(g, g, [])
  {
  }

  /** Writing a compound key, whose dependencies are keys already. */
  lemma PutStep(g: Graph, k: Key, c: Computation)
    requires Inv(g) && !k.Name?
    requires c.key == k && c.dependencies == DepsOf(k) && (k.Call? ==> k.func.Name?)
    requires forall d | d in c.dependencies :: d in g.table
    ensures Step(g, Put(g, k, c), [k])
    ensures k in Put(g, k, c).table
  {
    PutFacts(g, k, c);
  }

  /** For a read (Load) name. */
  lemma NameFacts(g: Graph, e: Expr)
    requires Inv(g) && e.Name? && e.ctx == Load
    ensures Visit(g, e).Ok?
    ensures Step(g, Visit(g, e).value, PostOrder(e))
    ensures Unparse(e) in Visit(g, e).value.table
    ensures NameKey(e.id) !in g.table ==> Visit(g, e).value.table[NameKey(e.id)] == Computation(NameKey(e.id), [])
  {
    var k := NameKey(e.id);
    assert PostOrder(e) == [k];
    if k !in g.table {
      PutFacts(g, k, Computation(k, []));
    } else {
      assert [k][..0] == [];
    }
    var g1 := if k in g.table then g else Put(g, k, Computation(k, []));
    if k in g1.finals {
      RemoveFirstMembers(g1.finals, k);
    }
  }

  /** The main induction over the expression: visiting is a `Step` by the
      post-order keys of the expression, and records the expression's own key. */
  lemma {:induction false} VisitFacts(g: Graph, e: Expr)
    requires Inv(g) && InLoadContext(e) && Visit(g, e).Ok?
    ensures Step(g, Visit(g, e).value, PostOrder(e))
    ensures Unparse(e) in Visit(g, e).value.table
    decreases e, 2
  {
    match e
    case Name(_, _) => NameFacts(g, e);
    case Constant(_) => PutStep(g, e, Computation(e, []));
    case UnaryOp(_, _) => UnaryOpFacts(g, e);
    case BinOp(_, _, _) => BinOpFacts(g, e);
    case Call(_, _) => CallFacts(g, e);
  }

  lemma {:induction false} UnaryOpFacts(g: Graph, e: Expr)
    requires e.UnaryOp? && Inv(g) && InLoadContext(e) && Visit(g, e).Ok?
    ensures Step(g, Visit(g, e).value, PostOrder(e))
    ensures Unparse(e) in Visit(g, e).value.table
    decreases e, 1
  {
    VisitFacts(g, e.operand);
    var g1 := Visit(g, e.operand).value;
    var k := Unparse(e);
    PutStep(g1, k, Computation(k, [Unparse(e.operand)]));
    StepTrans(g, g1, Visit(g, e).value, PostOrder(e.operand), [k]);
  }

  lemma {:induction false} BinOpFacts(g: Graph, e: Expr)
    requires e.BinOp? && Inv(g) && InLoadContext(e) && Visit(g, e).Ok?
    ensures Step(g, Visit(g, e).value, PostOrder(e))
    ensures Unparse(e) in Visit(g, e).value.table
    decreases e, 1
  {
    VisitFacts(g, e.left);
    var g1 := Visit(g, e.left).value;
    VisitFacts(g1, e.right);
    var g2 := Visit(g1, e.right).value;
    var k := Unparse(e);
    PutStep(g2, k, Computation(k, [Unparse(e.left), Unparse(e.right)]));
    StepTrans(g, g1, g2, PostOrder(e.left), PostOrder(e.right));
    StepTrans(g, g2, Visit(g, e).value, PostOrder(e.left) + PostOrder(e.right), [k]);
  }

  lemma {:induction false} CallFacts(g: Graph, e: Expr)
    requires e.Call? && Inv(g) && InLoadContext(e) && Visit(g, e).Ok?
    ensures Step(g, Visit(g, e).value, PostOrder(e))
    ensures Unparse(e) in Visit(g, e).value.table
    decreases e, 1
  {
    assert e.func.Name?;
    VisitArgsFacts(g, e, |e.args|);
    var g1 := VisitArgs(g, e, |e.args|).value;
    var k := Unparse(e);
    assert k.func == Unparse(e.func);
    forall d | d in k.args ensures d in g1.table {
      var i :| 0 <= i < |k.args| && k.args[i] == d;
      assert d == Unparse(e.args[i]);
    }
    PutStep(g1, k, Computation(k, k.args));
    StepTrans(g, g1, Visit(g, e).value, ArgsPostOrder(e, |e.args|), [k]);
  }

  lemma {:induction false} VisitArgsFacts(g: Graph, call: Expr, n: nat)
    requires call.Call? && n <= |call.args| && Inv(g) && InLoadContext(call)
    requires VisitArgs(g, call, n).Ok?
    ensures Step(g, VisitArgs(g, call, n).value, ArgsPostOrder(call, n))
    ensures forall i | 0 <= i < n :: Unparse(call.args[i]) in VisitArgs(g, call, n).value.table
    decreases call, 0, n
  {
    if n == 0 {
      StepRefl(g);
    } else {
      VisitArgsFacts(g, call, n - 1);
      var g1 := VisitArgs(g, call, n - 1).value;
      var last := call.args[n - 1];
      assert InLoadContext(last);
      assert VisitArgs(g, call, n) == Visit(g1, last);
      VisitFacts(g1, last);
      var g2 := Visit(g1, last).value;
      StepTrans(g, g1, g2, ArgsPostOrder(call, n - 1), PostOrder(last));
      assert Kept(g1, g2);
      forall i | 0 <= i < n ensures Unparse(call.args[i]) in g2.table {
        if i < n - 1 {
          assert Unparse(call.args[i]) in g1.table;
        }
      }
    }
  }

  // ---------------------------------------------------------------------------
  // Errors

  /** Visiting an expression fails exactly when some call it reaches has a
      callee that is not a bare name, whatever the state. */
  lemma {:induction false} VisitFails(g: Graph, e: Expr)
    ensures Visit(g, e).Err? <==> !Supported(e)
    decreases e, 1
  {
    match e
    case Name(_, _) =>
    case Constant(_) =>
    case UnaryOp(_, a) => VisitFails(g, a);
    case BinOp(l, _, r) =>
      VisitFails(g, l);
      if Visit(g, l).Ok? {
        VisitFails(Visit(g, l).value, r);
      }
    case Call(f, args) =>
      if f.Name? {
        VisitArgsFails(g, e, |args|);
      }
  }

  lemma {:induction false} VisitArgsFails(g: Graph, call: Expr, n: nat)
    requires call.Call? && n <= |call.args|
    ensures VisitArgs(g, call, n).Err? <==> exists i | 0 <= i < n :: !Supported(call.args[i])
    decreases call, 0, n
  {
    if n > 0 {
      VisitArgsFails(g, call, n - 1);
      if VisitArgs(g, call, n - 1).Ok? {
        VisitFails(VisitArgs(g, call, n - 1).value, call.args[n - 1]);
      }
    }
  }

  /** An assignment's three checks come first, in the source's order, and fire
      regardless of its value; past them, a statement fails exactly when its
      value reaches an unsupported call. */
  lemma ExecErrors(g: Graph, s: Stmt)
    ensures s.Assign? && |s.targets| != 1 ==> Exec(g, s) == Err(TargetCount)
    ensures s.Assign? && |s.targets| == 1 && !s.targets[0].Name? ==> Exec(g, s) == Err(TargetNotName)
    ensures s.Assign? && |s.targets| == 1 && s.targets[0].Name? && NameKey(s.targets[0].id) in g.table ==>
              Exec(g, s) == Err(TargetDefined)
    ensures (s.ExprStmt? || (|s.targets| == 1 && s.targets[0].Name? && NameKey(s.targets[0].id) !in g.table)) ==>
              (Exec(g, s).Err? <==> !Supported(s.value)) && (Exec(g, s).Err? ==> Exec(g, s).error == CalleeNotName)
  {
    match s
    case ExprStmt(v) => VisitFails(g, v);
    case Assign(ts, v) =>
      if |ts| == 1 && ts[0].Name? && NameKey(ts[0].id) !in g.table {
        VisitFails(g, ts[0]);
        VisitFails(Visit(g, ts[0]).value, v);
      }
  }

  /** One more argument. */
  lemma VisitArgsNext(g: Graph, call: Expr, i: nat, g1: Graph)
    requires call.Call? && i < |call.args| && VisitArgs(g, call, i) == Ok(g1)
    ensures VisitArgs(g, call, i + 1) == Visit(g1, call.args[i])
  {
  }

  /** Once the pass has failed, the rest of the arguments cannot undo it. */
  lemma {:induction false} VisitArgsAborts(g: Graph, call: Expr, m: nat, n: nat)
    requires call.Call? && m <= n <= |call.args| && VisitArgs(g, call, m).Err?
    ensures VisitArgs(g, call, n) == VisitArgs(g, call, m)
    decreases n
  {
    if m < n {
      VisitArgsAborts(g, call, m, n - 1);
    }
  }

  /** Once a statement has failed, the later statements cannot undo it. */
  lemma {:induction false} ExecAllAborts(g: Graph, body: seq<Stmt>, m: nat)
    requires m <= |body| && ExecAll(g, body[..m]).Err?
    ensures ExecAll(g, body) == ExecAll(g, body[..m])
    decreases |body|
  {
    if m < |body| {
      var init := body[..|body| - 1];
      assert init[..m] == body[..m];
      ExecAllAborts(g, init, m);
    } else {
      assert body[..m] == body;
    }
  }

  // ---------------------------------------------------------------------------
  // Statements and the whole module

  /** One statement: the value's post-order keys are written, then the target;
      the names the value reads leave the final results and the target joins
      them, last. The order stays forward unless the value reads its target. */
  lemma ExecFacts(g: Graph, s: Stmt)
    requires Inv(g) && WellFormed(s) && Exec(g, s).Ok?
    ensures Inv(Exec(g, s).value)
    ensures Exec(g, s).value.keys == AppendNew(g.keys, StmtPostOrder(s))
    ensures Kept(g, Exec(g, s).value)
    ensures forall x :: x in Exec(g, s).value.finals <==> (x in g.finals && x !in Reads(s)) || x in Defined(s)
    ensures Defined(s) != [] ==> Exec(g, s).value.finals[|Exec(g, s).value.finals| - 1] == Defined(s)[0]
    ensures Forward(g) && NoSelfReference(s) ==> Forward(Exec(g, s).value)
  {
    if s.ExprStmt? {
      VisitFacts(g, s.value);
      assert StmtPostOrder(s) == PostOrder(s.value);
    } else {
      AssignFacts(g, s);
    }
  }

  /** Appending an assigned name to the final results keeps the invariant. */
  lemma AppendFinal(g: Graph, k: Key)
    requires Inv(g) && k in g.table && k.Name? && |g.table[k].dependencies| == 1 && k !in g.finals
    ensures Inv(g.(finals := g.finals + [k]))
    ensures Forward(g) ==> Forward(g.(finals := g.finals + [k]))
  {
  }

  lemma AssignFacts(g: Graph, s: Stmt)
    requires s.Assign? && Inv(g) && WellFormed(s) && Exec(g, s).Ok?
    ensures Inv(Exec(g, s).value)
    ensures Exec(g, s).value.keys == AppendNew(g.keys, StmtPostOrder(s))
    ensures Kept(g, Exec(g, s).value)
    ensures forall x :: x in Exec(g, s).value.finals <==> (x in g.finals && x !in Reads(s)) || x in Defined(s)
    ensures Exec(g, s).value.finals[|Exec(g, s).value.finals| - 1] == Defined(s)[0]
    ensures Forward(g) && NoSelfReference(s) ==> Forward(Exec(g, s).value)
  {
    var v := s.value;
    assert |s.targets| == 1 && s.targets[0].Name?;
    var k := NameKey(s.targets[0].id);
    assert Defined(s) == [k];
    assert k !in g.table && k !in g.finals;
    assert Visit(g, s.targets[0]) == Ok(g);
    VisitFacts(g, v);
    var g2 := Visit(g, v).value;
    assert k !in g2.finals;
    var c := Computation(k, [Unparse(v)]);
    PutFacts(g2, k, c);
    var g3 := Put(g2, k, c);
    AppendFinal(g3, k);
    var g' := g3.(finals := g3.finals + [k]);
    assert Exec(g, s) == Ok(g');
    AppendNewConcat(g.keys, PostOrder(v), [k]);
    assert StmtPostOrder(s) == PostOrder(v) + [k];
    if NoSelfReference(s) {
      AppendNewMembers(g.keys, PostOrder(v));
      assert k !in g2.table;
    }
  }

  /** `x` is read by none of the statements of `body`. */
  ghost predicate Unread(body: seq<Stmt>, x: Key) {
    forall j | 0 <= j < |body| :: x !in Reads(body[j])
  }

  /** Liveness across one more statement. */
  lemma LiveAtSnoc(body: seq<Stmt>, x: Key)
    requires |body| > 0
    ensures LiveAt(body, x) <==>
      (LiveAt(body[..|body| - 1], x) && x !in Reads(body[|body| - 1])) || x in Defined(body[|body| - 1])
  {
    if LiveAt(body, x) && x !in Defined(body[|body| - 1]) {
      LiveAtShrinks(body, x);
    }
    if x in Defined(body[|body| - 1]) {
      assert x in Defined(body[|body| - 1]);
    } else if LiveAt(body[..|body| - 1], x) && x !in Reads(body[|body| - 1]) {
      LiveAtGrows(body, x);
    }
  }

  lemma LiveAtShrinks(body: seq<Stmt>, x: Key)
    requires |body| > 0 && LiveAt(body, x) && x !in Defined(body[|body| - 1])
    ensures LiveAt(body[..|body| - 1], x) && x !in Reads(body[|body| - 1])
  {
    var n := |body|;
    var init := body[..n - 1];
    var i :| 0 <= i < n && x in Defined(body[i]) && forall j | i < j < n :: x !in Reads(body[j]);
    assert i != n - 1;
    assert x in Defined(init[i]);
    forall j | i < j < n - 1 ensures x !in Reads(init[j]) {
      assert init[j] == body[j];
    }
  }

  lemma LiveAtGrows(body: seq<Stmt>, x: Key)
    requires |body| > 0 && LiveAt(body[..|body| - 1], x) && x !in Reads(body[|body| - 1])
    ensures LiveAt(body, x)
  {
    var n := |body|;
    var init := body[..n - 1];
    var i :| 0 <= i < n - 1 && x in Defined(init[i]) && forall j | i < j < n - 1 :: x !in Reads(init[j]);
    assert x in Defined(body[i]);
    forall j | i < j < n ensures x !in Reads(body[j]) {
      if j < n - 1 { assert body[j] == init[j]; }
    }
  }

  lemma UnreadSnoc(body: seq<Stmt>, x: Key)
    requires |body| > 0
    ensures Unread(body, x) <==> Unread(body[..|body| - 1], x) && x !in Reads(body[|body| - 1])
  {
    var n := |body|;
    var init := body[..n - 1];
    if Unread(init, x) && x !in Reads(body[n - 1]) {
      forall j | 0 <= j < n ensures x !in Reads(body[j]) {
        if j < n - 1 { assert body[j] == init[j]; }
      }
    }
    if Unread(body, x) {
      forall j | 0 <= j < n - 1 ensures x !in Reads(init[j]) {
        assert init[j] == body[j];
      }
    }
  }

  /** The whole module, from any sound state. */
  lemma {:induction false} ExecAllFacts(g: Graph, body: seq<Stmt>)
    requires Inv(g) && (forall i | 0 <= i < |body| :: WellFormed(body[i])) && ExecAll(g, body).Ok?
    ensures Inv(ExecAll(g, body).value)
    ensures ExecAll(g, body).value.keys == AppendNew(g.keys, BodyPostOrder(body))
    ensures Kept(g, ExecAll(g, body).value)
    ensures forall x :: x in ExecAll(g, body).value.finals <==> (x in g.finals && Unread(body, x)) || LiveAt(body, x)
    ensures Forward(g) && (forall i | 0 <= i < |body| :: NoSelfReference(body[i])) ==> Forward(ExecAll(g, body).value)
    decreases |body|
  {
    if |body| == 0 {
      assert AppendNew(g.keys, []) == g.keys;
    } else {
      var init, s := body[..|body| - 1], body[|body| - 1];
      assert forall i | 0 <= i < |init| :: init[i] == body[i];
      ExecAllFacts(g, init);
      var g1 := ExecAll(g, init).value;
      ExecFacts(g1, s);
      AppendNewConcat(g.keys, BodyPostOrder(init), StmtPostOrder(s));
      forall x ensures x in ExecAll(g, body).value.finals <==> (x in g.finals && Unread(body, x)) || LiveAt(body, x) {
        LiveAtSnoc(body, x);
        UnreadSnoc(body, x);
      }
    }
  }

  lemma EmptyInv()
    ensures Inv(Empty) && Forward(Empty)
  {
  }

  lemma InvClosed(g: Graph)
    requires Inv(g)
    ensures Closed(g)
  {
    forall k, d | k in g.table && d in g.table[k].dependencies ensures d in g.table {
      assert Sound(g.table, k);
    }
  }

  /** The builder's result: a consistent, closed table with one entry per
      distinct key the pass writes, in the order of first writing; final
      results are the assigned names no later statement reads; and without
      self-referential assignments every dependency precedes its dependent. */
  lemma BuildFacts(body: seq<Stmt>)
    requires (forall i | 0 <= i < |body| :: WellFormed(body[i])) && Build(body).Ok?
    ensures Inv(Build(body).value) && Closed(Build(body).value)
    ensures Build(body).value.keys == Dedup(BodyPostOrder(body))
    ensures |Build(body).value.table| == |Dedup(BodyPostOrder(body))|
    ensures forall x :: x in Build(body).value.finals <==> LiveAt(body, x)
    ensures (forall i | 0 <= i < |body| :: NoSelfReference(body[i])) ==> Forward(Build(body).value)
  {
    EmptyInv();
    ExecAllFacts(Empty, body);
    var g := Build(body).value;
    InvClosed(g);
    assert g.table.Keys == set k | k in g.keys;
    DistinctCardinality(g.keys);
  }

  // ---------------------------------------------------------------------------
  // Deduplication

  /** A key in the table brings the keys of all its reached subexpressions
      with it, and all its calls have bare-name callees. */
  lemma {:induction false} SubtermsKnown(g: Graph, e: Expr)
    requires Inv(g) && InLoadContext(e) && Unparse(e) in g.table
    ensures Supported(e) && forall x | x in PostOrder(e) :: x in g.table
    decreases e, 1
  {
    var k := Unparse(e);
    assert Sound(g.table, k);
    match e
    case Name(_, _) =>
    case Constant(_) =>
    case UnaryOp(_, a) => SubtermsKnown(g, a);
    case BinOp(l, _, r) => SubtermsKnown(g, l); SubtermsKnown(g, r);
    case Call(f, args) =>
      forall i | 0 <= i < |args| ensures Unparse(args[i]) in g.table {
        assert k.args[i] == Unparse(args[i]);
      }
      ArgsKnown(g, e, |args|);
  }

  lemma {:induction false} ArgsKnown(g: Graph, call: Expr, n: nat)
    requires call.Call? && n <= |call.args| && Inv(g) && InLoadContext(call)
    requires forall i | 0 <= i < |call.args| :: Unparse(call.args[i]) in g.table
    ensures forall i | 0 <= i < n :: Supported(call.args[i])
    ensures forall x | x in ArgsPostOrder(call, n) :: x in g.table
    decreases call, 0, n
  {
    if n > 0 {
      ArgsKnown(g, call, n - 1);
      SubtermsKnown(g, call.args[n - 1]);
    }
  }

  /** Revisiting a subexpression whose key is already in the table succeeds and
      rewrites nothing: no key moves, no entry changes. Only the names it reads
      leave the final results. */
  lemma Revisit(g: Graph, e: Expr)
    requires Inv(g) && InLoadContext(e) && Unparse(e) in g.table
    ensures Visit(g, e).Ok?
    ensures Visit(g, e).value.keys == g.keys && Visit(g, e).value.table == g.table
    ensures forall x :: x in Visit(g, e).value.finals <==> x in g.finals && x !in PostOrder(e)
  {
    SubtermsKnown(g, e);
    VisitFails(g, e);
    VisitFacts(g, e);
    AppendNewKnown(g.keys, PostOrder(e));
    SameTable(g, Visit(g, e).value);
  }

  /** Two sound states with the same keys, one keeping the other's entries,
      have the same table. */
  lemma SameTable(g: Graph, g': Graph)
    requires Inv(g) && Inv(g') && g'.keys == g.keys && Kept(g, g')
    ensures g'.table == g.table
  {
    assert g'.table.Keys == g.table.Keys;
  }

  /** The entry a visit leaves for the expression's own key has the
      dependencies its kind dictates: none for a constant, the operand for a
      unary operation, left then right for a binary one (a repeated operand
      repeated), the arguments in order for a call. */
  lemma RecordedDependencies(g: Graph, e: Expr)
    requires Inv(g) && InLoadContext(e) && Visit(g, e).Ok? && !e.Name?
    ensures var c := Visit(g, e).value.table[Unparse(e)];
      && c.key == Unparse(e)
      && (e.Constant? ==> c.dependencies == [])
      && (e.UnaryOp? ==> c.dependencies == [Unparse(e.operand)])
      && (e.BinOp? ==> c.dependencies == [Unparse(e.left), Unparse(e.right)])
      && (e.Call? ==> |c.dependencies| == |e.args| && forall i | 0 <= i < |e.args| :: c.dependencies[i] == Unparse(e.args[i]))
  {
    VisitFacts(g, e);
    assert Sound(Visit(g, e).value.table, Unparse(e));
  }

  /** An assignment records its target with the value as sole dependency. */
  lemma RecordedNameDependencies(g: Graph, s: Stmt)
    requires Inv(g) && WellFormed(s) && Exec(g, s).Ok? && Defined(s) != []
    ensures Exec(g, s).value.table[Defined(s)[0]] == Computation(Defined(s)[0], [Unparse(s.value)])
  {
    ExecFacts(g, s);
    var k := Defined(s)[0];
    var g2 := Visit(Visit(g, s.targets[0]).value, s.value).value;
    assert Exec(g, s).value.table == g2.table[k := Computation(k, [Unparse(s.value)])];
  }

  // ---------------------------------------------------------------------------
  // The entries of names

  /** Every name entry of `g'` is the one `g` has, or a fresh one with no
      dependencies: reading a name never gives it any. */
  ghost predicate NamesKept(g: Graph, g': Graph) {
    forall k | k in g'.table && k.Name? ::
      if k in g.table then g'.table[k] == g.table[k] else g'.table[k] == Computation(k, [])
  }

  lemma NamesKeptTrans(g: Graph, g1: Graph, g2: Graph)
    requires g.table.Keys <= g1.table.Keys && NamesKept(g, g1) && NamesKept(g1, g2)
    ensures NamesKept(g, g2)
  {
  }

  /** Visiting an expression leaves existing name entries alone and enters
      each newly read name with no dependencies. */
  lemma {:induction false} VisitNames(g: Graph, e: Expr)
    requires Visit(g, e).Ok?
    ensures NamesKept(g, Visit(g, e).value)
    decreases e, 1
  {
    match e
    case Name(_, _) =>
    case Constant(_) =>
    case UnaryOp(_, a) =>
      VisitNames(g, a);
    case BinOp(l, _, r) =>
      VisitNames(g, l);
      var g1 := Visit(g, l).value;
      VisitNames(g1, r);
      NamesKeptTrans(g, g1, Visit(g1, r).value);
    case Call(_, args) =>
      VisitArgsNames(g, e, |args|);
  }

  lemma {:induction false} VisitArgsNames(g: Graph, call: Expr, n: nat)
    requires call.Call? && n <= |call.args| && VisitArgs(g, call, n).Ok?
    ensures NamesKept(g, VisitArgs(g, call, n).value)
    decreases call, 0, n
  {
    if n > 0 {
      VisitArgsNames(g, call, n - 1);
      var g1 := VisitArgs(g, call, n - 1).value;
      VisitNames(g1, call.args[n - 1]);
      NamesKeptTrans(g, g1, VisitArgs(g, call, n).value);
    }
  }

  /** One statement: its assigned name gets the value as sole dependency;
      every other name keeps its entry or is new with no dependencies. */
  lemma ExecNames(g: Graph, s: Stmt)
    requires Exec(g, s).Ok?
    ensures g.table.Keys <= Exec(g, s).value.table.Keys
    ensures forall k | k in Defined(s) ::
      k in Exec(g, s).value.table && Exec(g, s).value.table[k] == Computation(k, [Unparse(s.value)])
    ensures forall k | k in Exec(g, s).value.table && k.Name? && k !in Defined(s) ::
      Exec(g, s).value.table[k] == if k in g.table then g.table[k] else Computation(k, [])
  {
    match s
    case ExprStmt(v) =>
      VisitNames(g, v);
    case Assign(ts, v) =>
      var g1 := Visit(g, ts[0]).value;
      VisitNames(g, ts[0]);
      VisitNames(g1, v);
      NamesKeptTrans(g, g1, Visit(g1, v).value);
  }

  /** The entry `body` leaves for the name `k` when run from `g`: the value of
      the last statement assigning `k`; without one, the entry `g` has, or none. */
  function NameEntry(g: Graph, body: seq<Stmt>, k: Key): Computation
    decreases |body|
  {
    if |body| == 0 then (if k in g.table then g.table[k] else Computation(k, []))
    else if k in Defined(body[|body| - 1]) then Computation(k, [Unparse(body[|body| - 1].value)])
    else NameEntry(g, body[..|body| - 1], k)
  }

  /** The entries of names after a sequence of statements. */
  lemma {:induction false} ExecAllNames(g: Graph, body: seq<Stmt>)
    requires ExecAll(g, body).Ok?
    ensures g.table.Keys <= ExecAll(g, body).value.table.Keys
    ensures forall k | k in ExecAll(g, body).value.table && k.Name? ::
      ExecAll(g, body).value.table[k] == NameEntry(g, body, k)
    ensures forall k | k !in ExecAll(g, body).value.table && k.Name? :: NameEntry(g, body, k) == Computation(k, [])
    decreases |body|
  {
    if |body| > 0 {
      var init, s := body[..|body| - 1], body[|body| - 1];
      ExecAllNames(g, init);
      ExecNames(ExecAll(g, init).value, s);
    }
  }

  /** `NameEntry` is the value of the last assignment of `k`. */
  lemma {:induction false} NameEntryLast(g: Graph, body: seq<Stmt>, k: Key, i: nat)
    requires i < |body| && k in Defined(body[i]) && forall j | i < j < |body| :: k !in Defined(body[j])
    ensures NameEntry(g, body, k) == Computation(k, [Unparse(body[i].value)])
    decreases |body|
  {
    if i < |body| - 1 {
      var init := body[..|body| - 1];
      assert init[i] == body[i];
      forall j | i < j < |init| ensures k !in Defined(init[j]) {
        assert init[j] == body[j];
      }
      NameEntryLast(g, init, k, i);
    }
  }

  /** Without an assignment of `k`, `NameEntry` is the starting entry. */
  lemma {:induction false} NameEntryUnassigned(g: Graph, body: seq<Stmt>, k: Key)
    requires forall j | 0 <= j < |body| :: k !in Defined(body[j])
    ensures NameEntry(g, body, k) == if k in g.table then g.table[k] else Computation(k, [])
    decreases |body|
  {
    if |body| > 0 {
      var init := body[..|body| - 1];
      assert k !in Defined(body[|body| - 1]);
      forall j | 0 <= j < |init| ensures k !in Defined(init[j]) {
        assert init[j] == body[j];
      }
      NameEntryUnassigned(g, init, k);
    }
  }

  /** In a built graph a name that no statement assigns has no dependencies;
      an assigned name is in the table with the value of its last assignment
      as sole dependency. */
  lemma BuildNames(body: seq<Stmt>)
    requires Build(body).Ok?
    ensures forall k | k in Build(body).value.table && k.Name? && (forall j | 0 <= j < |body| :: k !in Defined(body[j])) ::
      Build(body).value.table[k] == Computation(k, [])
    ensures forall k, i | 0 <= i < |body| && k in Defined(body[i]) && (forall j | i < j < |body| :: k !in Defined(body[j])) ::
      k in Build(body).value.table && Build(body).value.table[k] == Computation(k, [Unparse(body[i].value)])
  {
    forall k | k in Build(body).value.table && k.Name? && (forall j | 0 <= j < |body| :: k !in Defined(body[j])) {
      BuildUnassigned(body, k);
    }
    forall k, i | 0 <= i < |body| && k in Defined(body[i]) && (forall j | i < j < |body| :: k !in Defined(body[j])) {
      BuildAssigned(body, k, i);
    }
  }

  /** `BuildNames` for one name that no statement assigns. */
  lemma BuildUnassigned(body: seq<Stmt>, k: Key)
    requires Build(body).Ok? && k in Build(body).value.table && k.Name?
    requires forall j | 0 <= j < |body| :: k !in Defined(body[j])
    ensures Build(body).value.table[k] == Computation(k, [])
  {
    ExecAllNames(Empty, body);
    NameEntryUnassigned(Empty, body, k);
  }

  /** `BuildNames` for one name whose last assignment is statement `i`. */
  lemma BuildAssigned(body: seq<Stmt>, k: Key, i: nat)
    requires Build(body).Ok? && i < |body| && k in Defined(body[i])
    requires forall j | i < j < |body| :: k !in Defined(body[j])
    ensures k in Build(body).value.table && Build(body).value.table[k] == Computation(k, [Unparse(body[i].value)])
  {
    ExecAllNames(Empty, body);
    NameEntryLast(Empty, body, k, i);
  }
}
