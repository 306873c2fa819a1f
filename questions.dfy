/** Questions and `generateQuestion`, with the values `Math.random()` would
    return passed in as draws. */
module Questions {
  import opened Js
  import opened Levels

  /** A factor of an inverse question: a number, or the blank "_". */
  datatype Factor = Blank | Given(n: int)

  /** The three kinds of question record the generator builds. */
  datatype Question =
    | Multiple(timesTable: int, multiplier: int, answer: int)
    | Square(timesTable: int, answer: int)
    | Inverse(first: Factor, second: Factor, total: int, answer: int)

  /** The `questionType` strings; "fraction" is kept in the source as a
      commented-out option and is never offered. */
  datatype Kind = MultipleKind | SquareKind | InverseKind | FractionKind

  function KindOf(q: Question): Kind
  {
    match q
    case Multiple(_, _, _) => MultipleKind
    case Square(_, _) => SquareKind
    case Inverse(_, _, _, _) => InverseKind
  }

  function FactorValue(f: Factor): Value
  {
    match f
    case Blank => Str("_")
    case Given(n) => Num(n)
  }

  /** The object literal the generator returns, property by property. */
  function ToObject(q: Question): Object
  {
    match q
    case Multiple(t, m, a) =>
      map["questionType" := Str("multiple"), "timesTable" := Num(t), "multiplier" := Num(m), "answer" := Num(a)]
    case Square(t, a) =>
      map["questionType" := Str("square"), "timesTable" := Num(t), "answer" := Num(a)]
    case Inverse(f, s, total, a) =>
      map["questionType" := Str("inverse"), "first" := FactorValue(f), "second" := FactorValue(s),
          "total" := Num(total), "answer" := Num(a)]
  }

  /** `shallowEqual` applied to two generated records. */
  predicate SameQuestion(a: Question, b: Question)
  {
    ShallowEqual(ToObject(a), ToObject(b))
  }

  /** On question records shallowEqual is exactly equality: the kind, every
      shown field and the answer must all agree (so "2 x 5" and "5 x 2" are
      different questions, and "_" never equals a number). */
  lemma SameQuestionIsEquality(a: Question, b: Question)
    ensures SameQuestion(a, b) <==> a == b
  {
    ShallowEqualIsEquality(ToObject(a), ToObject(b));
    if ToObject(a) == ToObject(b) {
      var o := ToObject(a);
      assert o["questionType"] == ToObject(b)["questionType"];
      match a
      case Multiple(t, m, x) =>
        assert o["timesTable"] == Num(t) && o["multiplier"] == Num(m) && o["answer"] == Num(x);
      case Square(t, x) =>
        assert o["timesTable"] == Num(t) && o["answer"] == Num(x);
      case Inverse(f, s, total, x) =>
        assert o["first"] == FactorValue(f) && o["second"] == FactorValue(s);
        assert o["total"] == Num(total) && o["answer"] == Num(x);
        assert b.Inverse?;
        assert f == b.first by { if f.Blank? || b.first.Blank? { assert FactorValue(f) == FactorValue(b.first); } }
        assert s == b.second by { if s.Blank? || b.second.Blank? { assert FactorValue(s) == FactorValue(b.second); } }
    }
  }

  // ---------------------------------------------------------------------
  // Random draws

  /** The values of the successive `Math.random()` calls one question uses:
      the kind, the times table, the multiplier and the coin. */
  datatype Draws = Draws(kind: real, table: real, multiplier: real, coin: real)

  predicate Unit(r: real) { 0.0 <= r < 1.0 }

  predicate ValidDraws(d: Draws)
  {
    Unit(d.kind) && Unit(d.table) && Unit(d.multiplier) && Unit(d.coin)
  }

  /** `Math.floor(r * n)`: an index into a list of `n` things. */
  function Pick(r: real, n: nat): (i: nat)
    requires Unit(r) && n > 0
    ensures i < n
  {
    assert r * n as real < n as real;
    (r * n as real).Floor
  }

  /** Every index can be drawn: `i / n` picks `i`. */
  lemma PickReaches(i: nat, n: nat)
    requires i < n
    ensures Unit(i as real / n as real) && Pick(i as real / n as real, n) == i
  {
    var r := i as real / n as real;
    assert r * n as real == i as real;
  }

  /** `coinFlip()`. */
  predicate Heads(r: real) { r > 0.5 }

  /** `questionTypes`: "multiple", then "square" if the level has squares,
      then "inverse" if it has inverses. */
  function QuestionTypes(l: Level): (r: seq<Kind>)
    ensures |r| > 0 && r[0] == MultipleKind
    ensures SquareKind in r <==> l.squares
    ensures InverseKind in r <==> l.inverses
    ensures FractionKind !in r
    ensures forall i, j :: 0 <= i < j < |r| ==> r[i] != r[j]
  {
    [MultipleKind] + (if l.squares then [SquareKind] else []) + (if l.inverses then [InverseKind] else [])
  }

  /** What every question of a level satisfies: the arithmetic of its kind,
      its factors drawn from the level, and its kind enabled by the level. */
  predicate Admissible(l: Level, q: Question)
  {
    match q
    case Multiple(t, m, a) =>
      a == t * m &&
      ((t in l.tables && 1 <= m <= l.ceiling) || (m in l.tables && 1 <= t <= l.ceiling))
    case Square(t, a) =>
      l.squares && t in l.tables && a == t * t
    case Inverse(f, s, total, a) =>
      l.inverses &&
      ((f == Blank && s.Given? && 1 <= s.n <= l.ceiling && a in l.tables && a * s.n == total) ||
       (s == Blank && f.Given? && f.n in l.tables && 1 <= a <= l.ceiling && f.n * a == total))
  }

  /** `generateQuestion()` for level `l` on draws `d`. */
  function GenerateQuestion(l: Level, d: Draws): (q: Question)
    requires ValidLevel(l) && ValidDraws(d)
    ensures Admissible(l, q)
    ensures KindOf(q) == QuestionTypes(l)[Pick(d.kind, |QuestionTypes(l)|)]
  {
    var kinds := QuestionTypes(l);
    var kind := kinds[Pick(d.kind, |kinds|)];
    var timesTable := l.tables[Pick(d.table, |l.tables|)];
    var multiplier := Pick(d.multiplier, l.ceiling) + 1;
    var total := timesTable * multiplier;
    if kind == InverseKind then
      if Heads(d.coin) then Inverse(Blank, Given(multiplier), total, timesTable)
      else Inverse(Given(timesTable), Blank, total, multiplier)
    else if kind == SquareKind then
      Square(timesTable, timesTable * timesTable)
    else if Heads(d.coin) then
      Multiple(timesTable, multiplier, total)
    else
      Multiple(multiplier, timesTable, total)
  }

  /** Position of `k` in `kinds`. */
  function IndexOf(kinds: seq<Kind>, k: Kind): (i: nat)
    requires k in kinds
    ensures i < |kinds| && kinds[i] == k
  {
    if kinds[0] == k then 0 else 1 + IndexOf(kinds[1..], k)
  }

  /** Draws that make the generator choose kind `k`, table index `t`,
      multiplier `m` and coin `heads`. */
  function DrawsFor(l: Level, k: Kind, t: nat, m: int, heads: bool): Draws
    requires ValidLevel(l) && k in QuestionTypes(l)
  {
    var kinds := QuestionTypes(l);
    var ki := IndexOf(kinds, k);
    Draws(ki as real / |kinds| as real,
          t as real / |l.tables| as real,
          (m - 1) as real / l.ceiling as real,
          if heads then 0.75 else 0.0)
  }

  lemma DrawsForChoose(l: Level, k: Kind, t: nat, m: int, heads: bool)
    requires ValidLevel(l) && k in QuestionTypes(l) && t < |l.tables| && 1 <= m <= l.ceiling
    ensures var d := DrawsFor(l, k, t, m, heads);
      && ValidDraws(d)
      && QuestionTypes(l)[Pick(d.kind, |QuestionTypes(l)|)] == k
      && Pick(d.table, |l.tables|) == t
      && Pick(d.multiplier, l.ceiling) + 1 == m
      && Heads(d.coin) == heads
  {
    var kinds := QuestionTypes(l);
    var ki := IndexOf(kinds, k);
    PickReaches(ki, |kinds|);
    PickReaches(t, |l.tables|);
    PickReaches(m - 1, l.ceiling);
  }

  /** Every admissible question is produced by some draws: both orders of a
      product, and either blank of an inverse, are reachable. With the
      postcondition of GenerateQuestion, the admissible questions are
      exactly the generator's range. */
  lemma GenerateQuestionComplete(l: Level, q: Question)
    requires ValidLevel(l) && Admissible(l, q)
    ensures exists d :: ValidDraws(d) && GenerateQuestion(l, d) == q
  {
    match q
    case Multiple(t, m, a) =>
      if t in l.tables && 1 <= m <= l.ceiling {
        var ti :| 0 <= ti < |l.tables| && l.tables[ti] == t;
        var d := DrawsFor(l, MultipleKind, ti, m, true);
        DrawsForChoose(l, MultipleKind, ti, m, true);
        assert GenerateQuestion(l, d) == q;
      } else {
        var ti :| 0 <= ti < |l.tables| && l.tables[ti] == m;
        var d := DrawsFor(l, MultipleKind, ti, t, false);
        DrawsForChoose(l, MultipleKind, ti, t, false);
        assert GenerateQuestion(l, d) == q;
      }
    case Square(t, a) =>
      var ti :| 0 <= ti < |l.tables| && l.tables[ti] == t;
      var d := DrawsFor(l, SquareKind, ti, 1, false);
      DrawsForChoose(l, SquareKind, ti, 1, false);
      assert GenerateQuestion(l, d) == q;
    case Inverse(f, s, total, a) =>
      if f == Blank && s.Given? && 1 <= s.n <= l.ceiling && a in l.tables && a * s.n == total {
        var ti :| 0 <= ti < |l.tables| && l.tables[ti] == a;
        var d := DrawsFor(l, InverseKind, ti, s.n, true);
        DrawsForChoose(l, InverseKind, ti, s.n, true);
        assert GenerateQuestion(l, d) == q;
      } else {
        var ti :| 0 <= ti < |l.tables| && l.tables[ti] == f.n;
        var d := DrawsFor(l, InverseKind, ti, a, false);
        DrawsForChoose(l, InverseKind, ti, a, false);
        assert GenerateQuestion(l, d) == q;
      }
  }

  /** The pink level offers only products with the two times table: every
      question shows 2 and a number from 1 to 10, in either order. */
  lemma PinkQuestions(d: Draws)
    requires ValidDraws(d)
    ensures var q := GenerateQuestion(Table["pink"], d);
      && q.Multiple?
      && q.answer == q.timesTable * q.multiplier
      && ((q.timesTable == 2 && 1 <= q.multiplier <= 10) || (q.multiplier == 2 && 1 <= q.timesTable <= 10))
  {
    TableValid();
  }
}
