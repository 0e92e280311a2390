/** Small modules worked through the model in lemmas: the graphs and drawings they give. */
module Examples {
  import opened Ast
  import opened Builder
  import opened Layout

  const X: Key := NameKey("x")
  const XPlusX: Key := BinOp(X, "+", X)
  const Y: Key := NameKey("y")

  /** `y = x + x` */
  const Doubling: seq<Stmt> := [Assign([Name("y", Store)], BinOp(Name("x", Load), "+", Name("x", Load)))]

  /** The operand read twice is one row, listed twice as a dependency, and
      drawn once. */
  lemma DoublingGraph()
    ensures Build(Doubling) == Ok(DoublingG)
  {
  }

  /** The graph of `y = x + x`. */
  const DoublingG: Graph := Graph([X, XPlusX, Y],
    map[X := Computation(X, []), XPlusX := Computation(XPlusX, [X, X]), Y := Computation(Y, [XPlusX])],
    [Y])

  /** The graph of `y = x + x` is closed, and its keys sit at rows 0, 1 and 2. */
  lemma DoublingClosed()
    ensures Closed(DoublingG)
    ensures Sequences.IndexOf(DoublingG.keys, X) == 0
    ensures Sequences.IndexOf(DoublingG.keys, XPlusX) == 1
  {
    var g := DoublingG;
    assert X != XPlusX && X != Y && XPlusX != Y;
    assert Sequences.Distinct(g.keys);
    assert forall k :: k in g.table <==> k in g.keys;
  }

  lemma DoublingRows()
    ensures Closed(DoublingG)
    ensures DepRows(DoublingG) == [[], [0, 0], [1]]
  {
    var g := DoublingG;
    DoublingClosed();
    var idx := DepRows(g);
    assert idx[1] == RowIndices(g.keys, [X, X]);
    assert idx[2] == RowIndices(g.keys, [XPlusX]);
    assert idx[0] == [] && idx[1] == [0, 0] && idx[2] == [1];
  }

  /** Its arcs: one per distinct pair, so `x + x` gets a single arc from `x`
      although it lists `x` twice. */
  lemma DoublingEdges()
    ensures Closed(DoublingG) && Edges(DoublingG) == [(0, 1), (1, 2)]
  {
    DoublingRows();
    var idx: seq<seq<nat>> := [[], [0, 0], [1]];
    assert Scan(idx, 1, 0) == [];
    assert Scan(idx, 1, 1) == [(0, 1)];
    assert Scan(idx, 2, 0) == [(0, 1)];
    assert Scan(idx, 3, 0) == [(0, 1), (1, 2)];
  }

  /** Its rows: `x` has no dependencies, `x + x` has some, `y` is a final result. */
  lemma DoublingRowShapes()
    ensures Closed(DoublingG)
    ensures RowShapes(DoublingG, 3) == [
      Rect(5, 12, 170, 25, GhostWhite), Text(X, 90, 24),
      Rect(5, 62, 170, 25, LightYellow), Text(XPlusX, 90, 74),
      Rect(5, 112, 170, 25, Gold), Text(Y, 90, 124)]
  {
    DoublingRows();
    var g := DoublingG;
    assert X != XPlusX && X != Y && XPlusX != Y;
    assert BoxOf(g, 0) == Rect(5, 12, 170, 25, GhostWhite);
    assert BoxOf(g, 1) == Rect(5, 62, 170, 25, LightYellow);
    assert BoxOf(g, 2) == Rect(5, 112, 170, 25, Gold);
    assert RowShapes(g, 1) == [BoxOf(g, 0), LabelOf(g, 0)];
    assert RowShapes(g, 2) == RowShapes(g, 1) + [BoxOf(g, 1), LabelOf(g, 1)];
  }

  /** Its drawing: three rows, then the two arcs of radius 10. */
  lemma DoublingDrawing()
    ensures Closed(DoublingG)
    ensures Diagram(DoublingG) == Drawing(600, 150, [
      Rect(5, 12, 170, 25, GhostWhite), Text(X, 90, 24),
      Rect(5, 62, 170, 25, LightYellow), Text(XPlusX, 90, 74),
      Rect(5, 112, 170, 25, Gold), Text(Y, 90, 124),
      Path(Arc(175, 30, 10, 10, 0, 0, 1, 175, 70)),
      Path(Arc(175, 80, 10, 10, 0, 0, 1, 175, 120))])
  {
    DoublingRowShapes();
    DoublingArcs();
    DoublingHeight();
  }

  lemma DoublingArcs()
    ensures Closed(DoublingG)
    ensures ArcShapes(Edges(DoublingG)) == [
      Path(Arc(175, 30, 10, 10, 0, 0, 1, 175, 70)),
      Path(Arc(175, 80, 10, 10, 0, 0, 1, 175, 120))]
  {
    DoublingEdges();
    assert ArcShapes([(0, 1), (1, 2)]) == [Path(ArcFor(0, 1)), Path(ArcFor(1, 2))];
  }

  lemma DoublingHeight()
    ensures |DoublingG.table| == 3
  {
    DoublingRows();
    Sequences.DistinctCardinality(DoublingG.keys);
    assert DoublingG.table.Keys == set k | k in DoublingG.keys;
  }

  /** The graph of `name = lit` alone. */
  function Assigned(name: string, lit: string): Graph {
    var k, c := NameKey(name), Constant(lit);
    Graph([c, k], map[c := Computation(c, []), k := Computation(k, [c])], [k])
  }

  /** `name = lit` as the first statement of a module. */
  lemma AssignConstant(name: string, lit: string)
    ensures ExecAll(Empty, [Assign([Name(name, Store)], Constant(lit))]) == Ok(Assigned(name, lit))
  {
    var s := Assign([Name(name, Store)], Constant(lit));
    assert [s][..0] == [];
    assert Visit(Empty, Name(name, Store)) == Ok(Empty);
  }

  /** `(f())()`: the outer callee is a call, which the builder rejects. */
  lemma CalleeCall()
    ensures Build([ExprStmt(Call(Call(Name("f", Load), []), []))]) == Err(CalleeNotName)
  {
  }

  /** `a = 1; a = 2`: a name is assigned once. */
  lemma Reassignment()
    ensures Build([Assign([Name("a", Store)], Constant("1")), Assign([Name("a", Store)], Constant("2"))]) == Err(TargetDefined)
  {
    var s1 := Assign([Name("a", Store)], Constant("1"));
    var body := [s1, Assign([Name("a", Store)], Constant("2"))];
    assert body[..1] == [s1];
    AssignConstant("a", "1");
  }

  /** `a = b = 1`: one target only. */
  lemma ChainedAssignment()
    ensures Build([Assign([Name("a", Store), Name("b", Store)], Constant("1"))]) == Err(TargetCount)
  {
  }

  /** `f = 1; f(2)`: the callee is not visited, so `f` is not read and stays a
      final result; the call's entry lists the argument only. */
  lemma CalleeNotRead()
    ensures var f, two := NameKey("f"), Constant("2");
      var call := Call(f, [two]);
      Build([Assign([Name("f", Store)], Constant("1")), ExprStmt(Call(Name("f", Load), [Constant("2")]))])
        == Ok(Graph([Constant("1"), f, two, call],
                    map[Constant("1") := Computation(Constant("1"), []), f := Computation(f, [Constant("1")]),
                        two := Computation(two, []), call := Computation(call, [two])],
                    [f]))
  {
    var s1 := Assign([Name("f", Store)], Constant("1"));
    var s2 := ExprStmt(Call(Name("f", Load), [Constant("2")]));
    assert [s1, s2][..1] == [s1];
    AssignConstant("f", "1");
    assert ExecAll(Empty, [s1, s2]) == Exec(Assigned("f", "1"), s2);
    CallAfterAssign();
  }

  lemma CallAfterAssign()
    ensures var f, two := NameKey("f"), Constant("2");
      var call := Call(f, [two]);
      Exec(Assigned("f", "1"), ExprStmt(Call(Name("f", Load), [two])))
        == Ok(Graph([Constant("1"), f, two, call],
                    map[Constant("1") := Computation(Constant("1"), []), f := Computation(f, [Constant("1")]),
                        two := Computation(two, []), call := Computation(call, [two])],
                    [f]))
  {
    var g1 := Assigned("f", "1");
    var e := Call(Name("f", Load), [Constant("2")]);
    assert VisitArgs(g1, e, 1) == Visit(g1, Constant("2"));
    assert Unparse(e).args == [Constant("2")];
  }

  /** `a = 1; b = -a`: reading `a` removes it from the final results. */
  lemma ReadNameNotFinal()
    ensures var a, one := NameKey("a"), Constant("1");
      var neg := UnaryOp("-", a);
      Build([Assign([Name("a", Store)], one), Assign([Name("b", Store)], UnaryOp("-", Name("a", Load)))])
        == Ok(Graph([one, a, neg, NameKey("b")],
                    map[one := Computation(one, []), a := Computation(a, [one]),
                        neg := Computation(neg, [a]), NameKey("b") := Computation(NameKey("b"), [neg])],
                    [NameKey("b")]))
  {
    var s1 := Assign([Name("a", Store)], Constant("1"));
    var s2 := Assign([Name("b", Store)], UnaryOp("-", Name("a", Load)));
    AssignConstant("a", "1");
    assert [s1, s2][..1] == [s1];
    assert ExecAll(Empty, [s1, s2]) == Exec(Assigned("a", "1"), s2);
    NegateAfterAssign();
  }

  lemma NegateAfterAssign()
    ensures var a, one := NameKey("a"), Constant("1");
      var neg := UnaryOp("-", a);
      Exec(Assigned("a", "1"), Assign([Name("b", Store)], UnaryOp("-", Name("a", Load))))
        == Ok(Graph([one, a, neg, NameKey("b")],
                    map[one := Computation(one, []), a := Computation(a, [one]),
                        neg := Computation(neg, [a]), NameKey("b") := Computation(NameKey("b"), [neg])],
                    [NameKey("b")]))
  {
    NegateValue();
    AssignStep(Assigned("a", "1"), "b", UnaryOp("-", Name("a", Load)), NegValueG);
  }

  /** `name = value` for a fresh name, once visiting the value is known to give `gv`. */
  lemma AssignStep(g: Graph, name: string, value: Expr, gv: Graph)
    requires NameKey(name) !in g.table && Visit(g, value) == Ok(gv)
    ensures Exec(g, Assign([Name(name, Store)], value))
      == Ok(Put(gv, NameKey(name), Computation(NameKey(name), [Unparse(value)])).(finals := gv.finals + [NameKey(name)]))
  {
  }

  /** The graph after visiting `-a` once `a = 1` is recorded: reading `a`
      empties the final results. */
  const NegValueG: Graph := Graph([Constant("1"), NameKey("a"), UnaryOp("-", NameKey("a"))],
    map[Constant("1") := Computation(Constant("1"), []), NameKey("a") := Computation(NameKey("a"), [Constant("1")]),
        UnaryOp("-", NameKey("a")) := Computation(UnaryOp("-", NameKey("a")), [NameKey("a")])],
    [])

  lemma NegateValue()
    ensures Visit(Assigned("a", "1"), UnaryOp("-", Name("a", Load))) == Ok(NegValueG)
  {
    var g1 := Assigned("a", "1");
    assert Visit(g1, Name("a", Load)) == Ok(g1.(finals := []));
  }

  /** `x = x + 1`: the value reads `x` before the assignment records it, so
      `x` first enters with no dependencies and is then overwritten with the
      sum as its dependency. The table has a cycle, and the arc from the sum's
      row back up to `x`'s has a negative radius. */
  const SelfRef: seq<Stmt> := [Assign([Name("x", Store)], BinOp(Name("x", Load), "+", Constant("1")))]
  const XPlusOne: Key := BinOp(X, "+", Constant("1"))
  const SelfRefG: Graph := Graph([X, Constant("1"), XPlusOne],
    map[X := Computation(X, [XPlusOne]), Constant("1") := Computation(Constant("1"), []),
        XPlusOne := Computation(XPlusOne, [X, Constant("1")])],
    [X])

  lemma SelfReferenceGraph()
    ensures Build(SelfRef) == Ok(SelfRefG)
  {
    var g3 := Graph([X, Constant("1"), XPlusOne],
      map[X := Computation(X, []), Constant("1") := Computation(Constant("1"), []),
          XPlusOne := Computation(XPlusOne, [X, Constant("1")])],
      []);
    assert SelfRef[..0] == [];
    SelfReferenceValue();
    assert Visit(Empty, Name("x", Store)) == Ok(Empty);
    assert Unparse(SelfRef[0].value) == XPlusOne;
    var g4 := Put(g3, X, Computation(X, [XPlusOne]));
    assert Exec(Empty, SelfRef[0]) == Ok(g4.(finals := [X]));
    assert g4.keys == SelfRefG.keys;
    assert g4.table == SelfRefG.table;
  }

  /** Visiting `x + 1` records `x`, then `1`, then the sum. */
  lemma SelfReferenceValue()
    ensures Visit(Empty, SelfRef[0].value)
      == Ok(Graph([X, Constant("1"), XPlusOne],
                  map[X := Computation(X, []), Constant("1") := Computation(Constant("1"), []),
                      XPlusOne := Computation(XPlusOne, [X, Constant("1")])],
                  []))
  {
    var g1 := Put(Empty, X, Computation(X, []));
    var g2 := Put(g1, Constant("1"), Computation(Constant("1"), []));
    assert Visit(Empty, Name("x", Load)) == Ok(g1);
    assert Visit(g1, Constant("1")) == Ok(g2);
  }

  lemma SelfReferenceClosed()
    ensures Closed(SelfRefG)
    ensures Sequences.IndexOf(SelfRefG.keys, X) == 0
    ensures Sequences.IndexOf(SelfRefG.keys, Constant("1")) == 1
    ensures Sequences.IndexOf(SelfRefG.keys, XPlusOne) == 2
  {
    var g := SelfRefG;
    assert X != XPlusOne && X != Constant("1") && XPlusOne != Constant("1");
    assert Sequences.Distinct(g.keys);
    assert forall k :: k in g.table <==> k in g.keys;
    assert Sequences.IndexOf(g.keys, X) == 0;
  }

  lemma SelfReferenceRows()
    ensures Closed(SelfRefG)
    ensures DepRows(SelfRefG) == [[2], [], [0, 1]]
  {
    var g := SelfRefG;
    SelfReferenceClosed();
    var idx := DepRows(g);
    assert idx[0] == RowIndices(g.keys, [XPlusOne]) == [2];
    assert idx[1] == [];
    assert idx[2] == RowIndices(g.keys, [X, Constant("1")]) == [0, 1];
  }

  /** `x` depends on the sum, which comes after it. */
  lemma SelfReferenceBackward()
    ensures !Forward(SelfRefG)
  {
    SelfReferenceClosed();
    assert XPlusOne in SelfRefG.table[X].dependencies;
  }

  lemma SelfReferenceEdges()
    ensures Closed(SelfRefG) && !Forward(SelfRefG)
    ensures Edges(SelfRefG) == [(2, 0), (0, 2), (1, 2)]
    ensures ArcFor(2, 0).rx == -20
  {
    SelfReferenceRows();
    SelfReferenceBackward();
    SelfReferenceScan();
  }

  /** The scan over the rows `[2], [], [0, 1]`, one row at a time. */
  lemma SelfReferenceScan()
    ensures Scan([[2], [], [0, 1]], 3, 0) == [(2, 0), (0, 2), (1, 2)]
  {
    var idx: seq<seq<nat>> := [[2], [], [0, 1]];
    assert Scan(idx, 1, 0) == [(2, 0)];
    assert Scan(idx, 2, 0) == [(2, 0)];
    assert Scan(idx, 2, 1) == [(2, 0), (0, 2)];
  }
}
