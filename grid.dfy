/** Laying the questions out in the table, and moving between answer cells
    with Enter or Tab. */
module Grid {
  import opened Js

  /** The question shown at cell position `p` in document order, that is
      row `p / columns`, column `p % columns`: question `j + k * rows`, so the
      questions run down the first column, then the second, and so on. */
  function CellQuestion(p: nat, n: nat, columns: nat): nat
    requires columns > 0
  {
    p / columns + (p % columns) * (n / columns)
  }

  /** The cell position that shows question `q`: the inverse of CellQuestion. */
  function CellPosition(q: nat, n: nat, columns: nat): nat
    requires columns > 0 && n % columns == 0 && n > 0
  {
    var rows := n / columns;
    (q % rows) * columns + q / rows
  }

  lemma DivModOf(q: nat, r: nat, d: nat)
    requires r < d
    ensures (q * d + r) / d == q && (q * d + r) % d == r
  {
    var x := q * d + r;
    var q', r' := x / d, x % d;
    assert (q - q') * d == r' - r;
    SmallMultipleIsZero(q - q', d, r' - r);
  }

  /** The only multiple of `d` strictly between `-d` and `d` is 0. */
  lemma SmallMultipleIsZero(a: int, d: int, e: int)
    requires d > 0 && a * d == e && -d < e < d
    ensures a == 0
  {
  }

  lemma Bounded(j: nat, k: nat, rows: nat, columns: nat)
    requires j < rows && k < columns
    ensures j + k * rows < rows * columns
    ensures j * columns + k < rows * columns
  {
    assert k * rows <= (columns - 1) * rows;
    assert j * columns <= (rows - 1) * columns;
  }

  lemma CellRoundTrip(p: nat, n: nat, columns: nat)
    requires columns > 0 && n % columns == 0 && p < n
    ensures CellQuestion(p, n, columns) < n && CellPosition(CellQuestion(p, n, columns), n, columns) == p
  {
    var rows := n / columns;
    assert n == rows * columns;
    var j, k := p / columns, p % columns;
    assert p == j * columns + k;
    assert j < rows;
    Bounded(j, k, rows, columns);
    assert CellQuestion(p, n, columns) == k * rows + j;
    DivModOf(k, j, rows);
  }

  lemma PositionRoundTrip(q: nat, n: nat, columns: nat)
    requires columns > 0 && n % columns == 0 && q < n
    ensures CellPosition(q, n, columns) < n && CellQuestion(CellPosition(q, n, columns), n, columns) == q
  {
    var rows := n / columns;
    assert n == rows * columns;
    var j, k := q % rows, q / rows;
    assert q == k * rows + j;
    assert k < columns;
    Bounded(j, k, rows, columns);
    assert CellPosition(q, n, columns) == j * columns + k;
    DivModOf(j, k, columns);
  }

  /** Cell order and question order are two numberings of the same grid:
      CellQuestion and CellPosition are inverse bijections of [0, n). */
  lemma GridBijection(n: nat, columns: nat)
    requires columns > 0 && n % columns == 0 && n > 0
    ensures forall p :: 0 <= p < n ==>
      CellQuestion(p, n, columns) < n && CellPosition(CellQuestion(p, n, columns), n, columns) == p
    ensures forall q :: 0 <= q < n ==>
      CellPosition(q, n, columns) < n && CellQuestion(CellPosition(q, n, columns), n, columns) == q
  {
    forall p | 0 <= p < n
      ensures CellQuestion(p, n, columns) < n && CellPosition(CellQuestion(p, n, columns), n, columns) == p
    {
      CellRoundTrip(p, n, columns);
    }
    forall q | 0 <= q < n
      ensures CellPosition(q, n, columns) < n && CellQuestion(CellPosition(q, n, columns), n, columns) == q
    {
      PositionRoundTrip(q, n, columns);
    }
  }

  /** Every cell shows a question of the sheet. */
  lemma CellQuestionInRange(n: nat, columns: nat)
    requires columns > 0 && n % columns == 0
    ensures forall p :: 0 <= p < n ==> CellQuestion(p, n, columns) < n
  {
    forall p | 0 <= p < n ensures CellQuestion(p, n, columns) < n {
      CellRoundTrip(p, n, columns);
    }
  }

  /** Reference definition of the layout: the question shown at each cell
      position, in document order. */
  function LayoutOrder(n: nat, columns: nat): (order: seq<nat>)
    requires columns > 0 && n % columns == 0
    ensures |order| == n && forall p :: 0 <= p < n ==> order[p] < n
  {
    CellQuestionInRange(n, columns);
    seq(n, p requires 0 <= p < n => CellQuestion(p, n, columns))
  }

  /** The layout shows every question of the sheet in exactly one cell. */
  lemma LayoutIsPermutation(n: nat, columns: nat)
    requires columns > 0 && n % columns == 0
    ensures forall q :: 0 <= q < n ==> q in LayoutOrder(n, columns)
    ensures forall p, p' :: 0 <= p < p' < n ==> LayoutOrder(n, columns)[p] != LayoutOrder(n, columns)[p']
  {
    var order := LayoutOrder(n, columns);
    forall q | 0 <= q < n ensures q in order {
      PositionRoundTrip(q, n, columns);
      assert order[CellPosition(q, n, columns)] == q;
    }
    forall p, p' | 0 <= p < p' < n ensures order[p] != order[p'] {
      CellRoundTrip(p, n, columns);
      CellRoundTrip(p', n, columns);
    }
  }

  /** The two nested loops that add the cells of each row: the question
      numbers in the order their cells appear. */
  method Layout(n: nat, columns: nat) returns (order: seq<nat>)
    requires columns > 0 && n % columns == 0
    ensures order == LayoutOrder(n, columns)
  {
    order := [];
    var rows := n / columns;
    for j := 0 to rows
      invariant |order| == j * columns
      invariant forall p :: 0 <= p < |order| ==> order[p] == CellQuestion(p, n, columns)
    {
      for k := 0 to columns
        invariant |order| == j * columns + k
        invariant forall p :: 0 <= p < |order| ==> order[p] == CellQuestion(p, n, columns)
      {
        DivModOf(j, k, columns);
        order := order + [j + k * rows];
      }
    }
    assert n == rows * columns;
  }

  // ---------------------------------------------------------------------
  // Enter / Tab

  /** Where focus goes on Enter or Tab in a cell whose `questionNumber` is
      `from` (only answer cells carry one; the others have the id
      "qundefined"). Cell "#q" + (from + 1) exists only for an answer cell
      below the last; every miss, "#qNaN" included, goes to "#q0". */
  function NextFocus(from: Option<nat>, n: nat): (next: nat)
    ensures n > 0 ==> next < n
    ensures from.Some? && from.value + 1 < n ==> next == from.value + 1
    ensures from.None? || from.value + 1 >= n ==> next == 0
  {
    match from
    case Some(i) => if i + 1 < n then i + 1 else 0
    case None => 0
  }

  /** Focus after `k` presses of Enter or Tab, starting in answer cell `i`. */
  function FocusAfter(i: nat, k: nat, n: nat): nat
  {
    if k == 0 then i else NextFocus(Some(FocusAfter(i, k - 1, n)), n)
  }

  /** Navigation is a cycle through all answer cells in question order:
      `k` presses from cell `i` land on cell `(i + k) mod n`, so every
      answer cell is reached and the last wraps round to the first. */
  lemma {:induction false} FocusCycles(i: nat, k: nat, n: nat)
    requires i < n
    ensures FocusAfter(i, k, n) == (i + k) % n
  {
    if k > 0 {
      FocusCycles(i, k - 1, n);
      var prev := (i + k - 1) % n;
      assert prev < n;
      if prev + 1 < n {
        assert (i + k) % n == prev + 1 by { DivModStep(i + k - 1, n); }
      } else {
        assert (i + k) % n == 0 by { DivModStep(i + k - 1, n); }
      }
    }
  }

  lemma DivModStep(x: nat, n: nat)
    requires n > 0
    ensures x % n + 1 < n ==> (x + 1) % n == x % n + 1
    ensures x % n + 1 == n ==> (x + 1) % n == 0
  {
    var q, r := x / n, x % n;
    assert x == q * n + r;
    if r + 1 < n {
      DivModOf(q, r + 1, n);
    } else {
      assert x + 1 == (q + 1) * n;
      DivModOf(q + 1, 0, n);
    }
  }
}
