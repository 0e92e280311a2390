/** The drawing made by `draw_computation_graph`: one row per symbol-table key,
    a box coloured by the key's role and its label, then one arc per distinct
    (dependency row, dependent row) pair, bulging out to the right of the boxes. */
module Layout {
  import opened Ast
  import opened Sequences
  import opened Builder
  import opened BuilderLemmas
  import Visitor

  datatype Fill = Gold | GhostWhite | LightYellow

  /** An elliptical arc from a start point to an end point: the two segments
      of the path's `d` attribute, `M` then `A`. */
  datatype Arc = Arc(startX: int, startY: int, rx: int, ry: int, rotation: int, largeArc: int, sweep: int,
                     endX: int, endY: int)

  /** The children of the group the drawing returns, in the order they are appended. */
  datatype Shape =
    | Rect(x: int, y: int, width: int, height: int, fill: Fill)
    | Text(content: Key, x: int, y: int)
    | Path(arc: Arc)

  datatype Drawing = Drawing(width: int, height: int, children: seq<Shape>)

  const CanvasWidth := 600
  const RowHeight := 50

  /** Final results are gold, entries without dependencies ghost-white, the rest light yellow. */
  function FillOf(g: Graph, k: Key): Fill
    requires k in g.table
  {
    if k in g.finals then Gold
    else if |g.table[k].dependencies| == 0 then GhostWhite
    else LightYellow
  }

  function BoxOf(g: Graph, i: nat): Shape
    requires i < |g.keys| && g.keys[i] in g.table
  {
    Rect(5, 50 * i + 12, 170, 25, FillOf(g, g.keys[i]))
  }

  function LabelOf(g: Graph, i: nat): Shape
    requires i < |g.keys|
  {
    Text(g.keys[i], 90, 50 * i + 24)
  }

  /** The first `n` rows: each key's box, then its label. */
  function RowShapes(g: Graph, n: nat): (r: seq<Shape>)
    requires n <= |g.keys| && forall k | k in g.keys :: k in g.table
    ensures |r| == 2 * n
    ensures forall i | 0 <= i < n :: r[2 * i] == BoxOf(g, i) && r[2 * i + 1] == LabelOf(g, i)
  {
    if n == 0 then [] else RowShapes(g, n - 1) + [BoxOf(g, n - 1), LabelOf(g, n - 1)]
  }

  /** The arc from row `f` to row `t`: from the right edge of `f`'s box, low,
      to the right edge of `t`'s box, high, with radius ten per row apart. */
  function ArcFor(f: nat, t: nat): Arc {
    var radius := (t - f) * 10;
    Arc(175, 50 * f + 30, radius, radius, 0, 0, 1, 175, 50 * t + 20)
  }

  function ArcShapes(ps: seq<(nat, nat)>): (r: seq<Shape>)
    ensures |r| == |ps| && forall j | 0 <= j < |ps| :: r[j] == Path(ArcFor(ps[j].0, ps[j].1))
  {
    if |ps| == 0 then [] else ArcShapes(ps[..|ps| - 1]) + [Path(ArcFor(ps[|ps| - 1].0, ps[|ps| - 1].1))]
  }

  /** The row of each listed dependency of a row, in the order listed: row
      `r[j]` holds the key `deps[j]`. */
  function RowIndices(keys: seq<Key>, deps: seq<Key>): (r: seq<nat>)
    requires forall d | d in deps :: d in keys
    ensures |r| == |deps| && forall j | 0 <= j < |deps| :: r[j] == IndexOf(keys, deps[j])
    ensures forall j | 0 <= j < |deps| :: r[j] < |keys| && keys[r[j]] == deps[j]
  {
    seq(|deps|, j requires 0 <= j < |deps| => IndexOf(keys, deps[j]))
  }

  /** For every row, in table order, the rows of its dependencies: entry `j`
      of row `t` is the row whose key is `t`'s `j`-th dependency. */
  function DepRows(g: Graph): (idx: seq<seq<nat>>)
    requires Closed(g)
    ensures |idx| == |g.keys|
    ensures forall t | 0 <= t < |g.keys| :: idx[t] == RowIndices(g.keys, g.table[g.keys[t]].dependencies)
    ensures forall t | 0 <= t < |g.keys| :: |idx[t]| == |g.table[g.keys[t]].dependencies|
    ensures forall t, j | 0 <= t < |g.keys| && 0 <= j < |idx[t]| ::
      idx[t][j] < |g.keys| && g.keys[idx[t][j]] == g.table[g.keys[t]].dependencies[j]
  {
    seq(|g.keys|, t requires 0 <= t < |g.keys| => RowIndices(g.keys, g.table[g.keys[t]].dependencies))
  }

  /** Whether `(t, j)` is a position of the scan over `idx`: row `t` may be one
      past the last row, and then only its start. */
  ghost predicate ScanPos(idx: seq<seq<nat>>, t: nat, j: nat) {
    t <= |idx| && (t < |idx| ==> j <= |idx[t]|) && (t == |idx| ==> j == 0)
  }

  /** The `(from, to)` pairs recorded in `drawn` once rows before `t` and the
      first `j` dependencies of row `t` are scanned, each at its first meeting. */
  function Scan(idx: seq<seq<nat>>, t: nat, j: nat): seq<(nat, nat)>
    requires ScanPos(idx, t, j)
    decreases t, j
  {
    if j == 0 then
      if t == 0 then [] else Scan(idx, t - 1, |idx[t - 1]|)
    else
      var s := Scan(idx, t, j - 1);
      var p := (idx[t][j - 1], t);
      if p in s then s else s + [p]
  }

  /** The arcs drawn: every pair met, at its first meeting. */
  function Edges(g: Graph): seq<(nat, nat)>
    requires Closed(g)
  {
    Scan(DepRows(g), |g.keys|, 0)
  }

  /** The group `draw_computation_graph` returns, with the canvas size its builder carries. */
  function Diagram(g: Graph): Drawing
    requires Closed(g)
  {
    Drawing(CanvasWidth, RowHeight * |g.table|, RowShapes(g, |g.keys|) + ArcShapes(Edges(g)))
  }

  /** The two loops of `draw_computation_graph` after the graph is built: the
      rows with the `order` dictionary, then the arcs with the `drawn` set. */
  method DrawLayout(g: Graph) returns (d: Drawing)
    requires Closed(g)
    ensures d == Diagram(g)
  {
    var rows, order := DrawRows(g);
    OrderedDependencies(g, order);
    var children := DrawArcs(g, order, rows, DepRows(g));
    d := Drawing(600, 50 * |g.table|, children);
  }

  /** The first loop: a box and a label per key, and `order[label] = i`. */
  method DrawRows(g: Graph) returns (children: seq<Shape>, order: map<Key, nat>)
    requires Closed(g)
    ensures children == RowShapes(g, |g.keys|)
    ensures forall k | k in g.table :: k in order && order[k] == IndexOf(g.keys, k)
  {
    children := [];
    order := map[];
    var i := 0;
    while i < |g.keys|
      invariant 0 <= i <= |g.keys|
      invariant children == RowShapes(g, i)
      invariant forall j | 0 <= j < i :: g.keys[j] in order && order[g.keys[j]] == j
    {
      var key := g.keys[i];
      var color := if key in g.finals then Gold
        else if |g.table[key].dependencies| == 0 then GhostWhite
        else LightYellow;
      children := children + [Rect(5, 50 * i + 12, 170, 25, color)];
      children := children + [Text(key, 90, 50 * i + 24)];
      order := order[key := i];
      i := i + 1;
    }
    forall k | k in g.table ensures k in order && order[k] == IndexOf(g.keys, k) {
      var j := IndexOf(g.keys, k);
      assert g.keys[j] == k;
    }
  }

  /** Whether `order` gives, for every listed dependency of every row, the row
      that `idx` records for it. */
  ghost predicate OrderFits(g: Graph, order: map<Key, nat>, idx: seq<seq<nat>>) {
    && |idx| == |g.keys|
    && (forall t | 0 <= t < |g.keys| :: g.keys[t] in g.table && |idx[t]| == |g.table[g.keys[t]].dependencies|)
    && (forall t, j | 0 <= t < |g.keys| && 0 <= j < |idx[t]| ::
          var d := g.table[g.keys[t]].dependencies[j]; d in order && order[d] == idx[t][j])
  }

  /** After the first loop, `order` maps each dependency to its row. */
  lemma OrderedDependencies(g: Graph, order: map<Key, nat>)
    requires Closed(g)
    requires forall k | k in g.table :: k in order && order[k] == IndexOf(g.keys, k)
    ensures OrderFits(g, order, DepRows(g))
  {
    var idx := DepRows(g);
    forall t, j | 0 <= t < |g.keys| && 0 <= j < |idx[t]|
      ensures var d := g.table[g.keys[t]].dependencies[j]; d in order && order[d] == idx[t][j]
    {
      var deps := g.table[g.keys[t]].dependencies;
      assert deps[j] in deps;
    }
  }

  /** The second loop: for each row and each of its dependencies, an arc from
      the dependency's row unless that pair is already in `drawn`. */
  method DrawArcs(g: Graph, order: map<Key, nat>, rows: seq<Shape>, ghost idx: seq<seq<nat>>) returns (children: seq<Shape>)
    requires OrderFits(g, order, idx)
    ensures children == rows + ArcShapes(Scan(idx, |idx|, 0))
  {
    children := rows;
    var drawn: set<(nat, nat)> := {};
    var toI: nat := 0;
    while toI < |g.keys|
      invariant 0 <= toI <= |g.keys|
      invariant forall p :: p in drawn <==> p in Scan(idx, toI, 0)
      invariant children == rows + ArcShapes(Scan(idx, toI, 0))
    {
      var deps := g.table[g.keys[toI]].dependencies;
      drawn, children := DrawRowArcs(idx, toI, deps, order, drawn, children, rows);
      toI := toI + 1;
    }
  }

  /** The inner loop over the dependencies of row `toI`. */
  method DrawRowArcs(ghost idx: seq<seq<nat>>, toI: nat, deps: seq<Key>, order: map<Key, nat>,
                     drawn0: set<(nat, nat)>, children0: seq<Shape>, ghost rows: seq<Shape>)
    returns (drawn: set<(nat, nat)>, children: seq<Shape>)
    requires toI < |idx| && |idx[toI]| == |deps|
    requires forall j | 0 <= j < |deps| :: deps[j] in order && order[deps[j]] == idx[toI][j]
    requires forall p :: p in drawn0 <==> p in Scan(idx, toI, 0)
    requires children0 == rows + ArcShapes(Scan(idx, toI, 0))
    ensures forall p :: p in drawn <==> p in Scan(idx, toI + 1, 0)
    ensures children == rows + ArcShapes(Scan(idx, toI + 1, 0))
  {
    drawn, children := drawn0, children0;
    ghost var seen := Scan(idx, toI, 0);
    var j: nat := 0;
    while j < |deps|
      invariant 0 <= j <= |deps|
      invariant seen == Scan(idx, toI, j)
      invariant forall p :: p in drawn <==> p in seen
      invariant children == rows + ArcShapes(seen)
    {
      var dependency := deps[j];
      var fromI := order[dependency];
      var radius := (toI - fromI) * 10;
      ghost var next := if (fromI, toI) in seen then seen else seen + [(fromI, toI)];
      RowArcStep(idx, toI, j, fromI, seen, next, drawn, children, rows);
      if (fromI, toI) !in drawn {
        var arc := Arc(175, 50 * fromI + 30, radius, radius, 0, 0, 1, 175, 50 * toI + 20);
        assert arc == ArcFor(fromI, toI);
        children := children + [Path(arc)];
      }
      drawn := drawn + {(fromI, toI)};
      seen := next;
      j := j + 1;
    }
    ScanNextRow(idx, toI, seen);
  }

  /** One step of the inner loop, on the scan, on `drawn` and on the shapes. */
  lemma RowArcStep(idx: seq<seq<nat>>, t: nat, j: nat, f: nat, seen: seq<(nat, nat)>, next: seq<(nat, nat)>,
                   drawn: set<(nat, nat)>, children: seq<Shape>, rows: seq<Shape>)
    requires t < |idx| && j < |idx[t]| && idx[t][j] == f && seen == Scan(idx, t, j)
    requires next == if (f, t) in seen then seen else seen + [(f, t)]
    requires forall q :: q in drawn <==> q in seen
    requires children == rows + ArcShapes(seen)
    ensures Scan(idx, t, j + 1) == next
    ensures forall q :: q in drawn + {(f, t)} <==> q in next
    ensures (f, t) in drawn ==> children == rows + ArcShapes(next)
    ensures (f, t) !in drawn ==> children + [Path(ArcFor(f, t))] == rows + ArcShapes(next)
  {
    ScanStep(idx, t, j, f, seen, next);
    DrawnStep(drawn, seen, (f, t), next);
    if (f, t) !in seen {
      ArcAppend(rows, seen, children, (f, t));
    }
  }

  lemma ScanStep(idx: seq<seq<nat>>, t: nat, j: nat, f: nat, seen: seq<(nat, nat)>, next: seq<(nat, nat)>)
    requires t < |idx| && j < |idx[t]| && idx[t][j] == f && seen == Scan(idx, t, j)
    requires next == if (f, t) in seen then seen else seen + [(f, t)]
    ensures Scan(idx, t, j + 1) == next
  {
  }

  lemma DrawnStep(drawn: set<(nat, nat)>, seen: seq<(nat, nat)>, p: (nat, nat), next: seq<(nat, nat)>)
    requires forall q :: q in drawn <==> q in seen
    requires next == if p in seen then seen else seen + [p]
    ensures p in drawn <==> p in seen
    ensures forall q :: q in drawn + {p} <==> q in next
  {
  }

  lemma ArcAppend(rows: seq<Shape>, ps: seq<(nat, nat)>, children: seq<Shape>, p: (nat, nat))
    requires children == rows + ArcShapes(ps)
    ensures children + [Path(ArcFor(p.0, p.1))] == rows + ArcShapes(ps + [p])
  {
    assert (ps + [p])[..|ps|] == ps;
  }

  lemma ScanNextRow(idx: seq<seq<nat>>, t: nat, seen: seq<(nat, nat)>)
    requires t < |idx| && seen == Scan(idx, t, |idx[t]|)
    ensures Scan(idx, t + 1, 0) == seen
  {
  }

  /** The scan records each pair once, and records exactly the pairs met so far. */
  lemma {:induction false} ScanFacts(idx: seq<seq<nat>>, t: nat, j: nat)
    requires ScanPos(idx, t, j)
    ensures Distinct(Scan(idx, t, j))
    ensures forall p :: p in Scan(idx, t, j) <==>
      (p.1 < t && p.0 in idx[p.1]) || (p.1 == t < |idx| && p.0 in idx[t][..j])
    decreases t, j
  {
    if j == 0 {
      if t > 0 {
        ScanFacts(idx, t - 1, |idx[t - 1]|);
        assert idx[t - 1][..|idx[t - 1]|] == idx[t - 1];
      }
    } else {
      ScanFacts(idx, t, j - 1);
      assert idx[t][..j] == idx[t][..j - 1] + [idx[t][j - 1]];
    }
  }

  // ---------------------------------------------------------------------------
  // What the drawing shows

  /** One arc from row `f` to row `t` exactly when `f`'s key is a dependency
      of `t`'s: never two for the same pair, however often the dependency is
      repeated, and none for anything else. */
  lemma EdgesExactlyOnce(g: Graph)
    requires Closed(g)
    ensures Distinct(Edges(g))
    ensures forall f: nat, t: nat :: (f, t) in Edges(g) <==>
      f < |g.keys| && t < |g.keys| && g.keys[f] in g.table[g.keys[t]].dependencies
  {
    var idx := DepRows(g);
    ScanFacts(idx, |g.keys|, 0);
    forall f: nat, t: nat | t < |g.keys|
      ensures f in idx[t] <==> f < |g.keys| && g.keys[f] in g.table[g.keys[t]].dependencies
    {
      var deps := g.table[g.keys[t]].dependencies;
      if f in idx[t] {
        var j :| 0 <= j < |deps| && idx[t][j] == f;
        assert deps[j] in deps;
      }
      if f < |g.keys| && g.keys[f] in deps {
        var j :| 0 <= j < |deps| && deps[j] == g.keys[f];
        IndexOfDistinct(g.keys, f);
        assert idx[t][j] == f;
      }
    }
  }

  /** Entries of a closed graph are exactly its keys, so the canvas is one row
      high per key. */
  lemma CanvasHeight(g: Graph)
    requires Closed(g)
    ensures Diagram(g).height == RowHeight * |g.keys|
  {
    assert g.table.Keys == set k | k in g.keys;
    DistinctCardinality(g.keys);
  }

  /** Row `i`: its box lies inside the canvas, above the next row's box, and
      holds its label, which is centred across it. */
  lemma RowGeometry(g: Graph, i: nat)
    requires Closed(g) && i < |g.keys|
    ensures var d := Diagram(g);
      && d.children[2 * i].Rect? && d.children[2 * i + 1] == Text(g.keys[i], 90, 50 * i + 24)
      && var box := d.children[2 * i];
      && 0 <= box.x && box.x + box.width <= d.width
      && 0 <= box.y && box.y + box.height <= d.height
      && box.y + box.height < box.y + RowHeight
      && box.x + box.width / 2 == d.children[2 * i + 1].x
      && box.y <= d.children[2 * i + 1].y <= box.y + box.height
  {
    CanvasHeight(g);
    assert Diagram(g).children[2 * i] == BoxOf(g, i);
    assert Diagram(g).children[2 * i + 1] == LabelOf(g, i);
  }

  /** Each arc leaves the right edge of its dependency's box and ends on the
      right edge of its dependent's box. */
  lemma ArcGeometry(g: Graph, j: nat)
    requires Closed(g) && j < |Edges(g)|
    ensures var (f, t) := Edges(g)[j];
      var d := Diagram(g);
      var n := |g.keys|;
      && f < n && t < n
      && d.children[2 * n + j] == Path(ArcFor(f, t))
      && var a := d.children[2 * n + j].arc;
      && var from, to := d.children[2 * f], d.children[2 * t];
      && from.Rect? && to.Rect?
      && a.startX == from.x + from.width && from.y <= a.startY <= from.y + from.height
      && a.endX == to.x + to.width && to.y <= a.endY <= to.y + to.height
      && a.rx == a.ry == 10 * (t - f)
  {
    var (f, t) := Edges(g)[j];
    EdgesInRange(g);
    assert (f, t) in Edges(g);
    LayoutChildren(g);
  }

  /** Every arc joins two rows of the table. */
  lemma EdgesInRange(g: Graph)
    requires Closed(g)
    ensures forall p | p in Edges(g) :: p.0 < |g.keys| && p.1 < |g.keys|
  {
    var idx := DepRows(g);
    ScanFacts(idx, |g.keys|, 0);
    forall p | p in Edges(g) ensures p.0 < |g.keys| {
      var deps := g.table[g.keys[p.1]].dependencies;
      var j :| 0 <= j < |idx[p.1]| && idx[p.1][j] == p.0;
      assert deps[j] in deps;
    }
  }

  /** The children of the drawing: row `i`'s box and label at `2i` and `2i + 1`,
      then the arcs in the order of `Edges`. */
  lemma LayoutChildren(g: Graph)
    requires Closed(g)
    ensures var c, n, e := Diagram(g).children, |g.keys|, Edges(g);
      && |c| == 2 * n + |e|
      && (forall i | 0 <= i < n :: c[2 * i] == BoxOf(g, i) && c[2 * i + 1] == LabelOf(g, i))
      && (forall j | 0 <= j < |e| :: c[2 * n + j] == Path(ArcFor(e[j].0, e[j].1)))
  {
    var n, e := |g.keys|, Edges(g);
    var rows, arcs := RowShapes(g, n), ArcShapes(e);
    assert Diagram(g).children == rows + arcs;
    forall j | 0 <= j < |e| ensures (rows + arcs)[2 * n + j] == arcs[j] {
    }
  }

  /** When every dependency precedes its dependent, every arc runs downwards
      and has a positive radius. */
  lemma ForwardArcs(g: Graph)
    requires Closed(g) && Forward(g)
    ensures forall j | 0 <= j < |Edges(g)| :: Edges(g)[j].0 < Edges(g)[j].1 && ArcFor(Edges(g)[j].0, Edges(g)[j].1).rx > 0
  {
    EdgesExactlyOnce(g);
    forall j | 0 <= j < |Edges(g)| ensures Edges(g)[j].0 < Edges(g)[j].1 {
      var (f, t) := Edges(g)[j];
      assert (f, t) in Edges(g);
      IndexOfDistinct(g.keys, f);
      IndexOfDistinct(g.keys, t);
    }
  }

  // ---------------------------------------------------------------------------
  // The whole function

  datatype Outcome = Drawn(drawing: Drawing) | Raised(error: BuildError)

  /** `draw_computation_graph` on an already parsed module: build the graph,
      then lay it out; a failed check of the builder propagates. */
  method DrawComputationGraph(body: seq<Stmt>) returns (r: Outcome)
    requires forall i | 0 <= i < |body| :: WellFormed(body[i])
    ensures Build(body).Err? ==> r == Raised(Build(body).error)
    ensures Build(body).Ok? ==> Closed(Build(body).value) && r == Drawn(Diagram(Build(body).value))
  {
    var graph := new Visitor.PythonToGraph();
    var v := graph.VisitModule(body);
    if v.Fail? {
      return Raised(v.error);
    }
    var g := graph.State();
    BuildFacts(body);
    var d := DrawLayout(g);
    return Drawn(d);
  }

  /** In the drawing of a module, a row's box is gold exactly when its key is
      an assigned name that no later statement reads, and light yellow only
      for keys computed from others. */
  lemma BuiltColours(body: seq<Stmt>, i: nat)
    requires (forall j | 0 <= j < |body| :: WellFormed(body[j])) && Build(body).Ok?
    requires i < |Build(body).value.keys|
    ensures var g := Build(body).value;
      && Closed(g)
      && Diagram(g).children[2 * i].Rect?
      && (Diagram(g).children[2 * i].fill == Gold <==> LiveAt(body, g.keys[i]))
      && (Diagram(g).children[2 * i].fill == LightYellow ==> |g.table[g.keys[i]].dependencies| > 0)
  {
    BuildFacts(body);
    var g := Build(body).value;
    assert Diagram(g).children[2 * i] == BoxOf(g, i);
  }
}
