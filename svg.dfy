/** The two pieces of `SVGBuilder` that the drawing relies on: how a keyword
    argument's name becomes an SVG attribute name, and how a list of points
    becomes the text of a path's `d` attribute. */
module Svg {

  // ---------------------------------------------------------------------------
  // Attribute names

  /** `s.rstrip(c)` for a single character `c`. */
  function RStrip(s: string, c: char): (r: string)
    ensures r <= s
    ensures |r| == 0 || r[|r| - 1] != c
    ensures forall i | |r| <= i < |s| :: s[i] == c
  {
    if |s| > 0 && s[|s| - 1] == c then RStrip(s[..|s| - 1], c) else s
  }

  /** The contract of `RStrip` determines its result: the longest prefix not
      ending in `c` after which only `c` follows. */
  lemma RStripUnique(s: string, c: char, p: string)
    requires p <= s && (|p| == 0 || p[|p| - 1] != c)
    requires forall i | |p| <= i < |s| :: s[i] == c
    ensures p == RStrip(s, c)
  {
    var r := RStrip(s, c);
    assert p == s[..|p|] && r == s[..|r|];
  }

  /** `s.replace(a, b)` for single characters. */
  function ReplaceChar(s: string, a: char, b: char): (r: string)
    ensures |r| == |s|
    ensures forall i | 0 <= i < |s| :: r[i] == (if s[i] == a then b else s[i])
  {
    if |s| == 0 then [] else ReplaceChar(s[..|s| - 1], a, b) + [if s[|s| - 1] == a then b else s[|s| - 1]]
  }

  /** The attribute name for a keyword argument: trailing underscores dropped
      (so `id_` can stand for `id`), inner ones turned into hyphens (so
      `marker_end` stands for `marker-end`). */
  function AttributeName(key: string): (n: string)
    ensures '_' !in n
    ensures |n| <= |key|
    ensures forall i | 0 <= i < |n| :: n[i] == (if key[i] == '_' then '-' else key[i])
    ensures forall i | |n| <= i < |key| :: key[i] == '_'
    ensures |n| == 0 || key[|n| - 1] != '_'
  {
    ReplaceChar(RStrip(key, '_'), '_', '-')
  }

  /** A name that is already an attribute name is left alone. */
  lemma AttributeNameIdempotent(key: string)
    ensures AttributeName(AttributeName(key)) == AttributeName(key)
  {
    var n := AttributeName(key);
    assert n == RStrip(n, '_') by {
      RStripUnique(n, '_', n);
    }
    assert ReplaceChar(n, '_', '-') == n;
  }

  /** Names differing only in trailing underscores give the same attribute. */
  lemma AttributeNameTrailing(key: string)
    ensures AttributeName(key + "_") == AttributeName(key)
  {
    var s := key + "_";
    assert s[..|s| - 1] == key;
  }

  lemma AttributeNameExamples()
    ensures AttributeName("id_") == "id"
    ensures AttributeName("marker_end") == "marker-end"
    ensures AttributeName("text_anchor") == "text-anchor"
    ensures AttributeName("viewBox") == "viewBox"
  {
    TrailingId();
    MarkerEnd();
    TextAnchor();
    ViewBox();
  }

  lemma TrailingId()
    ensures AttributeName("id_") == "id"
  {
    AttributeNameTrailing("id");
    PlainName("id");
    ReplaceNothing("id", '_', '-');
  }

  lemma ViewBox()
    ensures AttributeName("viewBox") == "viewBox"
  {
    PlainName("viewBox");
    ReplaceNothing("viewBox", '_', '-');
  }

  lemma MarkerEnd()
    ensures AttributeName("marker_end") == "marker-end"
  {
    PlainName("marker_end");
    assert ReplaceChar("marker_end", '_', '-') == "marker-end";
  }

  lemma TextAnchor()
    ensures AttributeName("text_anchor") == "text-anchor"
  {
    PlainName("text_anchor");
    assert ReplaceChar("text_anchor", '_', '-') == "text-anchor";
  }

  lemma ReplaceNothing(s: string, a: char, b: char)
    requires a !in s
    ensures ReplaceChar(s, a, b) == s
  {
  }

  /** A name without a trailing underscore only has its underscores replaced. */
  lemma PlainName(key: string)
    requires |key| > 0 && key[|key| - 1] != '_'
    ensures AttributeName(key) == ReplaceChar(key, '_', '-')
  {
  }

  // ---------------------------------------------------------------------------
  // Attribute values and point lists

  /** A value written into an attribute or a point list: text, or an integer. */
  datatype Atom = Word(text: string) | Num(value: int)

  /** An entry of the list given to `SVGBuilder.__call__`: a tuple, or anything else. */
  datatype Point = Single(atom: Atom) | Tuple(items: seq<Atom>)

  function Digit(d: nat): (c: char)
    requires d < 10
    ensures '0' <= c <= '9' && (c - '0') as nat == d
  {
    ('0' as int + d) as char
  }

  function DigitValue(c: char): nat {
    if '0' <= c <= '9' then (c - '0') as nat else 0
  }

  /** `str(n)` for a natural number: decimal digits, no leading zero. */
  function NatToString(n: nat): (s: string)
    ensures |s| > 0 && (s[0] == '0' ==> n == 0)
    ensures forall i | 0 <= i < |s| :: '0' <= s[i] <= '9'
  {
    if n < 10 then [Digit(n)] else NatToString(n / 10) + [Digit(n % 10)]
  }

  /** `str(n)` for an integer. */
  function IntToString(n: int): (s: string)
    ensures |s| > 0
    ensures n < 0 <==> s[0] == '-'
  {
    if n < 0 then "-" + NatToString(-n) else NatToString(n)
  }

  /** Reads decimal digits back: the reference `IntToString` is checked against. */
  function ParseNat(s: string): nat {
    if |s| == 0 then 0 else 10 * ParseNat(s[..|s| - 1]) + DigitValue(s[|s| - 1])
  }

  function ParseInt(s: string): int {
    if |s| > 0 && s[0] == '-' then -(ParseNat(s[1..]) as int) else ParseNat(s)
  }

  lemma {:induction false} NatToStringRoundTrip(n: nat)
    ensures ParseNat(NatToString(n)) == n
  {
    if n < 10 {
      assert NatToString(n) == [] + [Digit(n)];
      ParseNatSnoc([], Digit(n));
    } else {
      var q, d := n / 10, n % 10;
      var s := NatToString(q);
      NatToStringRoundTrip(q);
      assert NatToString(n) == s + [Digit(d)];
      ParseNatSnoc(s, Digit(d));
      assert n == 10 * q + d;
    }
  }

  lemma ParseNatSnoc(s: string, c: char)
    requires '0' <= c <= '9'
    ensures ParseNat(s + [c]) == 10 * ParseNat(s) + (c - '0') as nat
  {
    assert (s + [c])[..|s|] == s;
  }

  /** `str` on integers loses nothing. */
  lemma IntToStringRoundTrip(n: int)
    ensures ParseInt(IntToString(n)) == n
  {
    if n < 0 {
      NegativeRoundTrip(n);
    } else {
      NatToStringRoundTrip(n);
    }
  }

  lemma NegativeRoundTrip(n: int)
    requires n < 0
    ensures ParseInt(IntToString(n)) == n
  {
    var digits := NatToString(-n);
    var s := "-" + digits;
    NatToStringRoundTrip(-n);
    assert s[1..] == digits;
    assert ParseInt(s) == -(ParseNat(digits) as int);
  }

  /** `str(value)` of an atom. */
  function AtomText(a: Atom): string {
    match a
    case Word(t) => t
    case Num(v) => IntToString(v)
  }

  /** `sep.join(parts)`. */
  function Join(sep: string, parts: seq<string>): string {
    if |parts| == 0 then ""
    else if |parts| == 1 then parts[0]
    else Join(sep, parts[..|parts| - 1]) + sep + parts[|parts| - 1]
  }

  function AtomTexts(items: seq<Atom>): (r: seq<string>)
    ensures |r| == |items| && forall i | 0 <= i < |items| :: r[i] == AtomText(items[i])
  {
    if |items| == 0 then [] else AtomTexts(items[..|items| - 1]) + [AtomText(items[|items| - 1])]
  }

  /** One entry: a tuple's items joined by spaces, anything else as `str` gives it. */
  function PointText(p: Point): string {
    match p
    case Single(a) => AtomText(a)
    case Tuple(items) => Join(" ", AtomTexts(items))
  }

  function PointTexts(points: seq<Point>): (r: seq<string>)
    ensures |r| == |points| && forall i | 0 <= i < |points| :: r[i] == PointText(points[i])
  {
    if |points| == 0 then [] else PointTexts(points[..|points| - 1]) + [PointText(points[|points| - 1])]
  }

  /** `SVGBuilder.__call__`: the entries' texts joined by spaces. */
  function Format(points: seq<Point>): string {
    Join(" ", PointTexts(points))
  }

  /** All the atoms of a point list, in order: the reference `Format` is checked against. */
  function Atoms(points: seq<Point>): seq<Atom> {
    if |points| == 0 then []
    else
      var p := points[|points| - 1];
      Atoms(points[..|points| - 1]) + (if p.Single? then [p.atom] else p.items)
  }

  /** Joining two non-empty lists is joining their joins. */
  lemma {:induction false} JoinAppend(sep: string, a: seq<string>, b: seq<string>)
    requires |a| > 0 && |b| > 0
    ensures Join(sep, a + b) == Join(sep, a) + sep + Join(sep, b)
  {
    if |b| > 1 {
      var init := b[..|b| - 1];
      JoinAppend(sep, a, init);
      assert (a + b)[..|a + b| - 1] == a + init;
    } else {
      assert (a + b)[..|a + b| - 1] == a;
    }
  }

  lemma {:induction false} AtomTextsAppend(a: seq<Atom>, b: seq<Atom>)
    ensures AtomTexts(a + b) == AtomTexts(a) + AtomTexts(b)
  {
  }

  /** As long as no entry is an empty tuple, a point list prints as the flat
      list of its atoms separated by single spaces. */
  lemma {:induction false} FormatFlattens(points: seq<Point>)
    requires forall i | 0 <= i < |points| :: points[i].Tuple? ==> |points[i].items| > 0
    ensures Format(points) == Join(" ", AtomTexts(Atoms(points)))
  {
    if |points| > 0 {
      var init, p := points[..|points| - 1], points[|points| - 1];
      FormatFlattens(init);
      var tail := if p.Single? then [p.atom] else p.items;
      AtomTextsAppend(Atoms(init), tail);
      assert PointTexts(points) == PointTexts(init) + [PointText(p)];
      if |init| > 0 {
        assert Atoms(init) != [] by {
          AtomsNonEmpty(init);
        }
        JoinAppend(" ", AtomTexts(Atoms(init)), AtomTexts(tail));
        JoinLast(" ", PointTexts(init), PointText(p));
      } else {
        assert Atoms(points) == tail;
      }
    }
  }

  lemma JoinLast(sep: string, a: seq<string>, x: string)
    requires |a| > 0
    ensures Join(sep, a + [x]) == Join(sep, a) + sep + x
  {
    assert (a + [x])[..|a|] == a;
  }

  lemma {:induction false} AtomsNonEmpty(points: seq<Point>)
    requires |points| > 0
    requires forall i | 0 <= i < |points| :: points[i].Tuple? ==> |points[i].items| > 0
    ensures |Atoms(points)| > 0
  {
    var p := points[|points| - 1];
    assert p.Tuple? ==> |p.items| > 0;
  }

  lemma JoinThree(sep: string, a: string, b: string, c: string)
    ensures Join(sep, [a, b, c]) == a + sep + b + sep + c
  {
    assert [a, b, c][..2] == [a, b];
    JoinTwo(sep, a, b);
  }

  lemma JoinTwo(sep: string, a: string, b: string)
    ensures Join(sep, [a, b]) == a + sep + b
  {
    assert [a, b][..1] == [a];
  }

  lemma PointTextThree(x: string, m: int, n: int)
    ensures PointText(Tuple([Word(x), Num(m), Num(n)])) == x + " " + IntToString(m) + " " + IntToString(n)
  {
    var items := [Word(x), Num(m), Num(n)];
    assert AtomTexts(items) == [x, IntToString(m), IntToString(n)];
    JoinThree(" ", x, IntToString(m), IntToString(n));
  }

  lemma SmallNumbers()
    ensures IntToString(0) == "0" && IntToString(15) == "15" && IntToString(30) == "30"
  {
    assert NatToString(1) == "1" && NatToString(3) == "3";
    assert NatToString(15) == NatToString(1) + [Digit(5)];
    assert NatToString(30) == NatToString(3) + [Digit(0)];
  }

  /** The path data of the arrow marker's first two segments. */
  lemma FormatExample()
    ensures Format([Tuple([Word("M"), Num(0), Num(0)]), Tuple([Word("L"), Num(30), Num(15)])]) == "M 0 0 L 30 15"
  {
    var ps := [Tuple([Word("M"), Num(0), Num(0)]), Tuple([Word("L"), Num(30), Num(15)])];
    SmallNumbers();
    PointTextThree("M", 0, 0);
    PointTextThree("L", 30, 15);
    var texts := PointTexts(ps);
    assert texts[0] == "M 0 0" && texts[1] == "L 30 15";
    assert texts == ["M 0 0", "L 30 15"];
    JoinTwo(" ", "M 0 0", "L 30 15");
  }

  /** The point list of the arrow marker's path: three lines and a close, the
      last a one-item tuple. */
  const ArrowPoints: seq<Point> := [
    Tuple([Word("M"), Num(0), Num(0)]), Tuple([Word("L"), Num(30), Num(15)]),
    Tuple([Word("L"), Num(0), Num(30)]), Tuple([Word("L"), Num(5), Num(15)]), Tuple([Word("z")])]

  lemma ArrowTexts()
    ensures PointTexts(ArrowPoints) == ["M 0 0", "L 30 15", "L 0 30", "L 5 15", "z"]
  {
    var p := ArrowPoints;
    PointTextsFive(p[0], p[1], p[2], p[3], p[4]);
    SegmentText("M", 0, 0, "0", "0", "M 0 0");
    SegmentText("L", 30, 15, "30", "15", "L 30 15");
    SegmentText("L", 0, 30, "0", "30", "L 0 30");
    SegmentText("L", 5, 15, "5", "15", "L 5 15");
    assert PointText(p[4]) == "z" by {
      assert AtomTexts([Word("z")]) == ["z"];
    }
  }

  lemma PointTextsFive(a: Point, b: Point, c: Point, d: Point, e: Point)
    ensures PointTexts([a, b, c, d, e]) == [PointText(a), PointText(b), PointText(c), PointText(d), PointText(e)]
  {
  }

  /** A segment `(x, m, n)` whose numbers print as `a` and `b`. */
  lemma SegmentText(x: string, m: int, n: int, a: string, b: string, t: string)
    requires m in {0, 5, 15, 30} && n in {0, 5, 15, 30}
    requires a == (if m == 0 then "0" else if m == 5 then "5" else if m == 15 then "15" else "30")
    requires b == (if n == 0 then "0" else if n == 5 then "5" else if n == 15 then "15" else "30")
    requires t == x + " " + a + " " + b
    ensures PointText(Tuple([Word(x), Num(m), Num(n)])) == t
  {
    SmallNumbers();
    assert IntToString(5) == "5";
    PointTextThree(x, m, n);
  }

  /** The whole path data of the arrow marker: its five segments, each
      followed by a space but the last ("M 0 0 L 30 15 L 0 30 L 5 15 z"). */
  lemma ArrowPath()
    ensures Format(ArrowPoints) == "M 0 0" + " " + "L 30 15" + " " + "L 0 30" + " " + "L 5 15" + " " + "z"
  {
    ArrowTexts();
    JoinFive(" ", "M 0 0", "L 30 15", "L 0 30", "L 5 15", "z");
  }

  lemma JoinFive(sep: string, a: string, b: string, c: string, d: string, e: string)
    ensures Join(sep, [a, b, c, d, e]) == a + sep + b + sep + c + sep + d + sep + e
  {
    JoinTwo(sep, a, b);
    assert [a, b] + [c] == [a, b, c];
    JoinLast(sep, [a, b], c);
    assert [a, b, c] + [d] == [a, b, c, d];
    JoinLast(sep, [a, b, c], d);
    assert [a, b, c, d] + [e] == [a, b, c, d, e];
    JoinLast(sep, [a, b, c, d], e);
  }

  /** An empty tuple still contributes its (empty) entry, so the separator
      doubles: the flattening above needs its precondition. */
  lemma FormatEmptyTuple()
    ensures Format([Single(Word("z")), Tuple([])]) == "z "
  {
    var ps := [Single(Word("z")), Tuple([])];
    assert PointTexts(ps) == ["z", ""];
    assert ["z", ""][..1] == ["z"];
  }

  // ---------------------------------------------------------------------------
  // Attribute dictionaries

  /** The attributes an element gets from its keyword arguments, in call
      order: each value under its argument's attribute name, a later argument
      overwriting an earlier one that names the same attribute. */
  function Attributes(args: seq<(string, Atom)>): map<string, string> {
    if |args| == 0 then map[]
    else
      var (key, value) := args[|args| - 1];
      Attributes(args[..|args| - 1])[AttributeName(key) := AtomText(value)]
  }

  /** Some argument names the attribute `n`. */
  ghost predicate Named(args: seq<(string, Atom)>, n: string) {
    exists i | 0 <= i < |args| :: AttributeName(args[i].0) == n
  }

  /** An attribute is present exactly when some argument names it. */
  lemma {:induction false} AttributesKeys(args: seq<(string, Atom)>)
    ensures forall n :: n in Attributes(args) <==> Named(args, n)
  {
    if |args| > 0 {
      AttributesKeys(args[..|args| - 1]);
      NamedSnoc(args);
    }
  }

  lemma NamedSnoc(args: seq<(string, Atom)>)
    requires |args| > 0
    ensures forall n :: Named(args, n) <==> Named(args[..|args| - 1], n) || AttributeName(args[|args| - 1].0) == n
  {
    var init := args[..|args| - 1];
    forall n | Named(args, n) ensures Named(init, n) || AttributeName(args[|args| - 1].0) == n {
      var i :| 0 <= i < |args| && AttributeName(args[i].0) == n;
      if i < |init| {
        assert init[i] == args[i];
      }
    }
    forall n | Named(init, n) ensures Named(args, n) {
      var i :| 0 <= i < |init| && AttributeName(init[i].0) == n;
      assert args[i] == init[i];
    }
  }

  /** An attribute holds the value of the last argument that names it. */
  lemma {:induction false} AttributesLastWins(args: seq<(string, Atom)>, i: nat)
    requires i < |args|
    requires forall j | i < j < |args| :: AttributeName(args[j].0) != AttributeName(args[i].0)
    ensures AttributeName(args[i].0) in Attributes(args)
    ensures Attributes(args)[AttributeName(args[i].0)] == AtomText(args[i].1)
  {
    var init := args[..|args| - 1];
    if i < |init| {
      assert init[i] == args[i];
      forall j | i < j < |init| ensures AttributeName(init[j].0) != AttributeName(init[i].0) {
        assert init[j] == args[j];
      }
      AttributesLastWins(init, i);
    }
  }
}
