/**
 * The part of an HTML document the name injector touches: rows of header
 * (`th`) and data (`td`) cells, each with its text already stripped, and the
 * two tree operations it uses on them, `find_all` of one cell kind within a
 * row and `insert_after` of a new cell.
 */
module Markup {

  datatype Kind = Th | Td

  /** A cell of a table row: its tag and its stripped text. */
  datatype Cell = Cell(kind: Kind, text: string)

  /** A `tr` element: its cells in document order. */
  type Row = seq<Cell>

  /** `tr.find_all(k)`: the cells of kind `k`, in document order. */
  function CellsOf(row: Row, k: Kind): (r: seq<Cell>)
    ensures |r| <= |row|
    ensures forall i :: 0 <= i < |r| ==> r[i].kind == k
  {
    if row == [] then []
    else (if row[0].kind == k then [row[0]] else []) + CellsOf(row[1..], k)
  }

  /** Selecting one kind of cell distributes over concatenation of rows. */
  lemma {:induction false} CellsOfConcat(a: Row, b: Row, k: Kind)
    ensures CellsOf(a + b, k) == CellsOf(a, k) + CellsOf(b, k)
  {
    if a == [] {
      assert a + b == b;
    } else {
      assert (a + b)[0] == a[0];
      assert (a + b)[1..] == a[1..] + b;
      CellsOfConcat(a[1..], b, k);
    }
  }

  /** A row of at most one cell. */
  lemma CellsOfSingle(c: Cell, k: Kind)
    ensures CellsOf([c], k) == if c.kind == k then [c] else []
  {
    assert [c][1..] == [];
  }

  /**
   * The position in the row of its cell number `j` among the cells of kind
   * `k`: the cell there is that one, and exactly `j` cells of kind `k` come
   * before it.
   */
  function PositionOfNth(row: Row, k: Kind, j: nat): (p: nat)
    requires j < |CellsOf(row, k)|
    ensures p < |row| && row[p] == CellsOf(row, k)[j]
    ensures |CellsOf(row[..p], k)| == j
  {
    if row[0].kind == k && j == 0 then 0
    else
      var q := PositionOfNth(row[1..], k, if row[0].kind == k then j - 1 else j);
      PrefixAfterFirst(row, q, k);
      CellsOfSingle(row[0], k);
      q + 1
  }

  /** The cells of kind `k` before position `q + 1` are those of `row[0]` and those of `row[1..]` before `q`. */
  lemma PrefixAfterFirst(row: Row, q: nat, k: Kind)
    requires q < |row| - 1
    ensures CellsOf(row[..q + 1], k) == CellsOf([row[0]], k) + CellsOf(row[1..][..q], k)
  {
    assert row[..q + 1] == [row[0]] + row[1..][..q];
    CellsOfConcat([row[0]], row[1..][..q], k);
  }

  /** A cell of kind `k` at position `a` is counted by every prefix longer than `a`. */
  lemma PrefixCountGrows(row: Row, a: nat, b: nat, k: Kind)
    requires a < b <= |row| && row[a].kind == k
    ensures |CellsOf(row[..b], k)| >= |CellsOf(row[..a], k)| + 1
  {
    assert row[..b] == row[..a] + [row[a]] + row[a + 1..b];
    CellsOfConcat(row[..a] + [row[a]], row[a + 1..b], k);
    CellsOfConcat(row[..a], [row[a]], k);
    CellsOfSingle(row[a], k);
  }

  /**
   * The position of cell number `j` of kind `k` is the only position that
   * holds a cell of kind `k` with exactly `j` cells of that kind before it.
   */
  lemma PositionOfNthUnique(row: Row, k: Kind, j: nat, p: nat)
    requires p < |row| && row[p].kind == k && |CellsOf(row[..p], k)| == j
    ensures j < |CellsOf(row, k)| && PositionOfNth(row, k, j) == p
  {
    PrefixCountGrows(row, p, |row|, k);
    assert row[..|row|] == row;
    var p0 := PositionOfNth(row, k, j);
    if p0 < p {
      PrefixCountGrows(row, p0, p, k);
    } else if p < p0 {
      PrefixCountGrows(row, p, p0, k);
    }
  }

  /** `row[p].insert_after(c)`. */
  function InsertAfter(row: Row, p: nat, c: Cell): Row
    requires p < |row|
  {
    row[..p + 1] + [c] + row[p + 1..]
  }

  /** `find_all(k)[j].insert_after(c)`: insert `c` right after cell number `j` of kind `k`. */
  function InsertAfterNth(row: Row, k: Kind, j: nat, c: Cell): Row
    requires j < |CellsOf(row, k)|
  {
    InsertAfter(row, PositionOfNth(row, k, j), c)
  }

  /** Splitting a row just after position `p`. */
  lemma CellsOfSplit(row: Row, p: nat, k: Kind)
    requires p < |row|
    ensures CellsOf(row, k) == CellsOf(row[..p + 1], k) + CellsOf(row[p + 1..], k)
  {
    assert row == row[..p + 1] + row[p + 1..];
    CellsOfConcat(row[..p + 1], row[p + 1..], k);
  }

  /**
   * Inserting a cell after position `p` adds it to the cells of its own kind
   * right after those at or before `p`, and leaves the cells of the other
   * kind as they were.
   */
  lemma InsertAfterCells(row: Row, p: nat, c: Cell, k: Kind)
    requires p < |row|
    ensures CellsOf(InsertAfter(row, p, c), k)
         == CellsOf(row[..p + 1], k) + (if c.kind == k then [c] else []) + CellsOf(row[p + 1..], k)
  {
    CellsOfConcat(row[..p + 1] + [c], row[p + 1..], k);
    CellsOfConcat(row[..p + 1], [c], k);
    CellsOfSingle(c, k);
  }

  /** Splitting a row just after the cell number `j` of kind `k`. */
  lemma CellsOfSplitAtNth(row: Row, k: Kind, j: nat)
    requires j < |CellsOf(row, k)|
    ensures var p := PositionOfNth(row, k, j);
      && CellsOf(row[..p + 1], k) == CellsOf(row, k)[..j + 1]
      && CellsOf(row[p + 1..], k) == CellsOf(row, k)[j + 1..]
  {
    var p := PositionOfNth(row, k, j);
    assert row[..p + 1] == row[..p] + [row[p]];
    CellsOfConcat(row[..p], [row[p]], k);
    CellsOfSingle(row[p], k);
    CellsOfSplit(row, p, k);
  }

  /** Inserting a cell leaves the cells of every other kind as they were. */
  lemma InsertAfterOtherKind(row: Row, p: nat, c: Cell, k: Kind)
    requires p < |row| && c.kind != k
    ensures CellsOf(InsertAfter(row, p, c), k) == CellsOf(row, k)
  {
    InsertAfterCells(row, p, c, k);
    CellsOfSplit(row, p, k);
  }

  /**
   * `insert_after` on cell number `j` of kind `k`: the row gains exactly one
   * cell; among the cells of kind `k` the new one is number `j + 1` and all
   * others keep their order; the cells of the other kind are untouched.
   */
  lemma InsertAfterNthCells(row: Row, k: Kind, j: nat, c: Cell)
    requires j < |CellsOf(row, k)| && c.kind == k
    ensures var r := InsertAfterNth(row, k, j, c);
      && |r| == |row| + 1
      && CellsOf(r, k) == CellsOf(row, k)[..j + 1] + [c] + CellsOf(row, k)[j + 1..]
      && (forall k' :: k' != k ==> CellsOf(r, k') == CellsOf(row, k'))
  {
    var p := PositionOfNth(row, k, j);
    var r := InsertAfter(row, p, c);
    CellsOfSplitAtNth(row, k, j);
    InsertAfterCells(row, p, c, k);
    assert CellsOf(r, k) == CellsOf(row, k)[..j + 1] + [c] + CellsOf(row, k)[j + 1..];
    forall k' | k' != k
      ensures CellsOf(r, k') == CellsOf(row, k')
    {
      InsertAfterOtherKind(row, p, c, k');
    }
  }

  /**
   * Inserting a cell of another kind moves cell number `j` of kind `k` one
   * place to the right exactly when the insertion point lies before it.
   */
  lemma InsertAfterShifts(row: Row, q: nat, c: Cell, k: Kind, j: nat)
    requires q < |row| && c.kind != k && j < |CellsOf(row, k)|
    ensures var p := PositionOfNth(row, k, j);
      && j < |CellsOf(InsertAfter(row, q, c), k)|
      && PositionOfNth(InsertAfter(row, q, c), k, j) == if q < p then p + 1 else p
  {
    if q < PositionOfNth(row, k, j) {
      InsertBeforeShifts(row, q, c, k, j);
    } else {
      InsertBehindKeeps(row, q, c, k, j);
    }
  }

  /** Inserting before the cell moves it one place to the right. */
  lemma InsertBeforeShifts(row: Row, q: nat, c: Cell, k: Kind, j: nat)
    requires q < |row| && c.kind != k && j < |CellsOf(row, k)|
    requires q < PositionOfNth(row, k, j)
    ensures j < |CellsOf(InsertAfter(row, q, c), k)|
    ensures PositionOfNth(InsertAfter(row, q, c), k, j) == PositionOfNth(row, k, j) + 1
  {
    var p := PositionOfNth(row, k, j);
    var r := InsertAfter(row, q, c);
    assert r[p + 1] == row[p];
    assert r[..p + 1] == InsertAfter(row[..p], q, c);
    InsertAfterOtherKind(row[..p], q, c, k);
    PositionOfNthUnique(r, k, j, p + 1);
  }

  /** Inserting at or after the cell leaves it where it was. */
  lemma InsertBehindKeeps(row: Row, q: nat, c: Cell, k: Kind, j: nat)
    requires q < |row| && c.kind != k && j < |CellsOf(row, k)|
    requires PositionOfNth(row, k, j) <= q
    ensures j < |CellsOf(InsertAfter(row, q, c), k)|
    ensures PositionOfNth(InsertAfter(row, q, c), k, j) == PositionOfNth(row, k, j)
  {
    var p := PositionOfNth(row, k, j);
    var r := InsertAfter(row, q, c);
    assert r[p] == row[p];
    assert r[..p] == row[..p];
    PositionOfNthUnique(r, k, j, p);
  }

  /**
   * Inserting a cell of another kind after a cell of another kind keeps two
   * neighbouring cells of kind `k` neighbours.
   */
  lemma InsertAfterKeepsAdjacent(row: Row, q: nat, c: Cell, k: Kind, j: nat)
    requires q < |row| && row[q].kind != k && c.kind != k
    requires j + 1 < |CellsOf(row, k)|
    requires PositionOfNth(row, k, j + 1) == PositionOfNth(row, k, j) + 1
    ensures var r := InsertAfter(row, q, c);
      && j + 1 < |CellsOf(r, k)|
      && PositionOfNth(r, k, j + 1) == PositionOfNth(r, k, j) + 1
  {
    var p := PositionOfNth(row, k, j);
    assert q != p;
    InsertAfterShifts(row, q, c, k, j);
    InsertAfterShifts(row, q, c, k, j + 1);
  }

  /** `row` with `c` right after position `p` and `d` right after position `q`, everything else in its old order. */
  function InsertAfterBoth(row: Row, p: nat, c: Cell, q: nat, d: Cell): Row
    requires p < |row| && q < |row| && p != q
  {
    if q < p then row[..q + 1] + [d] + row[q + 1..p + 1] + [c] + row[p + 1..]
    else row[..p + 1] + [c] + row[p + 1..q + 1] + [d] + row[q + 1..]
  }

  /**
   * Two `insert_after` calls, the second on an anchor that has moved one place
   * right if the first insertion came before it, insert both cells after
   * their anchors' original positions.
   */
  lemma InsertAfterTwice(row: Row, p: nat, q: nat, c: Cell, d: Cell)
    requires p < |row| && q < |row| && p != q
    ensures var q' := if p < q then q + 1 else q;
      && q' < |InsertAfter(row, p, c)|
      && InsertAfter(InsertAfter(row, p, c), q', d) == InsertAfterBoth(row, p, c, q, d)
  {
    var w := InsertAfter(row, p, c);
    if q < p {
      assert w[..q + 1] == row[..q + 1];
      assert w[q + 1..] == row[q + 1..p + 1] + [c] + row[p + 1..];
    } else {
      assert w[..q + 2] == row[..p + 1] + [c] + row[p + 1..q + 1];
      assert w[q + 2..] == row[q + 1..];
    }
  }
}
