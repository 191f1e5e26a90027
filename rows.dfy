/** One horizontal line of the play field, as a value: shifting, edge tests,
    trimming against the row below, and the counting facts the game relies on. */
module Rows {

  /** A cell of the grid: 0 is empty, 1 holds a piece of a bar. */
  type Cell = c: int | c == 0 || c == 1

  /** The number of filled cells in a row. */
  function Count(s: seq<Cell>): (n: nat)
    ensures n <= |s|
  {
    if s == [] then 0 else (if s[0] == 1 then 1 else 0) + Count(s[1..])
  }

  /** An all-empty row of width `w`. */
  function Blank(w: nat): (r: seq<Cell>)
    ensures |r| == w && Count(r) == 0
    ensures forall i :: 0 <= i < w ==> r[i] == 0
  {
    if w == 0 then [] else [0] + Blank(w - 1)
  }

  /** A row of width `w` whose filled cells are exactly the columns `start .. start + n - 1`. */
  function BarAt(start: int, n: int, w: nat): (r: seq<Cell>)
    ensures |r| == w
  {
    seq(w, i => if start <= i < start + n then 1 else 0)
  }

  /** `row.pop(); row.unshift(0)`: drop the last cell and put an empty cell in front.
      On an empty row this yields `[0]`, as the array operations do. */
  function ShiftedRight(s: seq<Cell>): (r: seq<Cell>)
    ensures s != [] ==> |r| == |s| && r[0] == 0 && forall i :: 1 <= i < |s| ==> r[i] == s[i - 1]
  {
    if s == [] then [0] else [0] + s[..|s| - 1]
  }

  /** `row.shift(); row.push(0)`: drop the first cell and put an empty cell at the back.
      On an empty row this yields `[0]`, as the array operations do. */
  function ShiftedLeft(s: seq<Cell>): (r: seq<Cell>)
    ensures s != [] ==> |r| == |s| && r[|s| - 1] == 0 && forall i :: 0 <= i < |s| - 1 ==> r[i] == s[i + 1]
  {
    if s == [] then [0] else s[1..] + [0]
  }

  /** The right-most cell is filled (false on an empty row, whose last element
      is undefined): exactly when one more shift to the right would lose a piece. */
  predicate IsRightEdge(s: seq<Cell>): (b: bool)
    ensures s != [] ==> (b <==> Count(ShiftedRight(s)) < Count(s))
  {
    |s| > 0 && (ShiftRightCount(s); s[|s| - 1] == 1)
  }

  /** The left-most cell is filled (false on an empty row): exactly when one
      more shift to the left would lose a piece. */
  predicate IsLeftEdge(s: seq<Cell>): (b: bool)
    ensures s != [] ==> (b <==> Count(ShiftedLeft(s)) < Count(s))
  {
    |s| > 0 && (ShiftLeftCount(s); s[0] == 1)
  }

  /** Every filled cell of `cur` has a filled cell directly below it in `below`. */
  predicate Supported(cur: seq<Cell>, below: seq<Cell>)
    requires |cur| == |below|
  {
    forall i :: 0 <= i < |cur| && cur[i] == 1 ==> below[i] == 1
  }

  /** `cur` with every overhanging cell (filled, with an empty cell below) cleared. */
  function Trimmed(cur: seq<Cell>, below: seq<Cell>): (r: seq<Cell>)
    requires |cur| == |below|
    ensures |r| == |cur|
    ensures forall i :: 0 <= i < |cur| ==>
      r[i] == (if cur[i] == 1 && below[i] == 0 then 0 else cur[i])
  {
    if cur == [] then []
    else [if cur[0] == 1 && below[0] == 0 then 0 else cur[0]] + Trimmed(cur[1..], below[1..])
  }

  /** The number of overhanging cells of `cur`: filled, with an empty cell below. */
  function Overhang(cur: seq<Cell>, below: seq<Cell>): (k: nat)
    requires |cur| == |below|
    ensures k <= Count(cur)
  {
    if cur == [] then 0
    else (if cur[0] == 1 && below[0] == 0 then 1 else 0) + Overhang(cur[1..], below[1..])
  }

  /** `row[i] = 1` for every column `i < n`, the rest of the row kept. */
  function Seeded(s: seq<Cell>, n: int): (r: seq<Cell>)
    ensures |r| == |s|
    ensures forall i :: 0 <= i < |s| ==> (r[i] == 1 <==> i < n || s[i] == 1)
  {
    seq(|s|, i requires 0 <= i < |s| => if i < n then 1 else s[i])
  }

  // ---------------------------------------------------------------------------
  // Counting facts
  // ---------------------------------------------------------------------------

  lemma {:induction false} CountAppend(a: seq<Cell>, b: seq<Cell>)
    ensures Count(a + b) == Count(a) + Count(b)
  {
    if a == [] {
      assert a + b == b;
    } else {
      assert (a + b)[1..] == a[1..] + b;
      CountAppend(a[1..], b);
    }
  }

  /** A row holds no filled cell exactly when it is blank. */
  lemma {:induction false} CountZeroIffBlank(s: seq<Cell>)
    ensures Count(s) == 0 <==> s == Blank(|s|)
  {
    if s != [] {
      CountZeroIffBlank(s[1..]);
      if Count(s) == 0 {
        assert s == [0] + s[1..];
      }
    }
  }

  /** Shifting right keeps the width and loses exactly the last cell's piece. */
  lemma ShiftRightCount(s: seq<Cell>)
    requires s != []
    ensures |ShiftedRight(s)| == |s|
    ensures Count(ShiftedRight(s)) == Count(s) - s[|s| - 1]
  {
    var n := |s|;
    assert s == s[..n - 1] + [s[n - 1]];
    CountAppend(s[..n - 1], [s[n - 1]]);
    assert ShiftedRight(s)[1..] == s[..n - 1];
  }

  /** Shifting left keeps the width and loses exactly the first cell's piece. */
  lemma ShiftLeftCount(s: seq<Cell>)
    requires s != []
    ensures |ShiftedLeft(s)| == |s|
    ensures Count(ShiftedLeft(s)) == Count(s) - s[0]
  {
    CountAppend(s[1..], [0]);
    assert Count([0]) == 0;
  }

  /** A bar of `n` cells inside the row has exactly `n` filled cells. */
  lemma {:induction false} BarCount(start: int, n: int, w: nat)
    requires 0 <= start && 0 <= n && start + n <= w
    ensures Count(BarAt(start, n, w)) == n
    decreases w
  {
    if w > 0 {
      var r := BarAt(start, n, w);
      if start > 0 {
        assert r[1..] == BarAt(start - 1, n, w - 1);
        BarCount(start - 1, n, w - 1);
      } else if n > 0 {
        assert r[1..] == BarAt(0, n - 1, w - 1);
        BarCount(0, n - 1, w - 1);
      } else {
        assert r[1..] == BarAt(0, 0, w - 1);
        BarCount(0, 0, w - 1);
      }
    }
  }

  /** Trimming removes exactly the overhanging cells. */
  lemma {:induction false} TrimCount(cur: seq<Cell>, below: seq<Cell>)
    requires |cur| == |below|
    ensures Count(Trimmed(cur, below)) == Count(cur) - Overhang(cur, below)
  {
    if cur != [] {
      TrimCount(cur[1..], below[1..]);
      assert Trimmed(cur, below)[1..] == Trimmed(cur[1..], below[1..]);
    }
  }

  /** Overhangs are counted column by column: the count over a row split in two
      is the sum of the counts over the parts. */
  lemma {:induction false} OverhangAppend(a: seq<Cell>, b: seq<Cell>, c: seq<Cell>, d: seq<Cell>)
    requires |a| == |c| && |b| == |d|
    ensures Overhang(a + b, c + d) == Overhang(a, c) + Overhang(b, d)
  {
    if a == [] {
      assert a + b == b && c + d == d;
    } else {
      assert (a + b)[1..] == a[1..] + b && (c + d)[1..] == c[1..] + d;
      OverhangAppend(a[1..], b, c[1..], d);
    }
  }

  /** The overhang count of the first `i + 1` columns adds column `i` to that of the first `i`. */
  lemma OverhangPrefix(cur: seq<Cell>, below: seq<Cell>, i: int)
    requires |cur| == |below| && 0 <= i < |cur|
    ensures Overhang(cur[..i + 1], below[..i + 1]) ==
      Overhang(cur[..i], below[..i]) + (if cur[i] == 1 && below[i] == 0 then 1 else 0)
  {
    assert cur[..i + 1] == cur[..i] + [cur[i]] && below[..i + 1] == below[..i] + [below[i]];
    OverhangAppend(cur[..i], [cur[i]], below[..i], [below[i]]);
  }

  /** No cell overhangs exactly when every filled cell is supported, and
      exactly then trimming leaves the row as it is. */
  lemma {:induction false} OverhangZeroIffSupported(cur: seq<Cell>, below: seq<Cell>)
    requires |cur| == |below|
    ensures Overhang(cur, below) == 0 <==> Supported(cur, below)
    ensures Supported(cur, below) <==> Trimmed(cur, below) == cur
  {
    if cur != [] {
      OverhangZeroIffSupported(cur[1..], below[1..]);
      if Supported(cur, below) {
        assert Supported(cur[1..], below[1..]) by {
          forall i | 0 <= i < |cur| - 1 && cur[1..][i] == 1 ensures below[1..][i] == 1 {
            assert cur[i + 1] == 1;
          }
        }
      }
      if Supported(cur[1..], below[1..]) && !(cur[0] == 1 && below[0] == 0) {
        forall i | 0 <= i < |cur| && cur[i] == 1 ensures below[i] == 1 {
          if i > 0 { assert cur[1..][i - 1] == 1; }
        }
      }
      if Trimmed(cur, below) == cur {
        forall i | 0 <= i < |cur| && cur[i] == 1 ensures below[i] == 1 {
          assert Trimmed(cur, below)[i] == 1;
        }
      }
    }
  }

  /** What trimming leaves is fully supported, so a second trim changes nothing. */
  lemma TrimmedIsSupported(cur: seq<Cell>, below: seq<Cell>)
    requires |cur| == |below|
    ensures Supported(Trimmed(cur, below), below)
    ensures Trimmed(Trimmed(cur, below), below) == Trimmed(cur, below)
    ensures Overhang(Trimmed(cur, below), below) == 0
  {
    OverhangZeroIffSupported(Trimmed(cur, below), below);
  }

  // ---------------------------------------------------------------------------
  // A bar moving inside a row
  // ---------------------------------------------------------------------------

  /** A bar not touching the right edge moves one column to the right. */
  lemma ShiftRightBar(start: int, n: int, w: nat)
    requires 0 <= start && 0 <= n && start + n < w
    ensures ShiftedRight(BarAt(start, n, w)) == BarAt(start + 1, n, w)
  {
    var a, b := ShiftedRight(BarAt(start, n, w)), BarAt(start + 1, n, w);
    forall i | 0 <= i < w ensures a[i] == b[i] {
      if i > 0 { assert a[i] == BarAt(start, n, w)[i - 1]; }
    }
  }

  /** A bar not touching the left edge moves one column to the left. */
  lemma ShiftLeftBar(start: int, n: int, w: nat)
    requires 0 < start && 0 <= n && start + n <= w
    ensures ShiftedLeft(BarAt(start, n, w)) == BarAt(start - 1, n, w)
  {
    var a, b := ShiftedLeft(BarAt(start, n, w)), BarAt(start - 1, n, w);
    forall i | 0 <= i < w ensures a[i] == b[i] {
      if i < w - 1 { assert a[i] == BarAt(start, n, w)[i + 1]; }
    }
  }

  /** A non-empty bar touches the right edge exactly when it ends in the last column,
      and the left edge exactly when it starts in column 0. */
  lemma BarEdges(start: int, n: int, w: nat)
    requires 0 <= start && 0 < n && start + n <= w
    ensures IsRightEdge(BarAt(start, n, w)) <==> start + n == w
    ensures IsLeftEdge(BarAt(start, n, w)) <==> start == 0
  {
  }

  /** Seeding a blank row with `n` cells gives a bar against the left edge. */
  lemma SeededBlank(w: nat, n: int)
    ensures Seeded(Blank(w), n) == BarAt(0, n, w)
  {
  }
}
