/**
 * Grid detection: the dot layout is labelled an R x C grid, "N columns",
 * "N rows" or "Irregular" according to whether the distinct x and the
 * distinct y coordinates are evenly spaced.
 */
module Grid {
  import opened Models
  import Graphs

  predicate Increasing(s: seq<int>)
  {
    forall i, j :: 0 <= i < j < |s| ==> s[i] < s[j]
  }

  /** Inserts x into an increasing sequence unless it is already there. */
  function InsertSorted(x: int, s: seq<int>): (r: seq<int>)
    requires Increasing(s)
    ensures Increasing(r)
    ensures forall v :: v in r <==> v == x || v in s
  {
    if |s| == 0 then [x]
    else if x < s[0] then
      ConsIncreasing(x, s);
      [x] + s
    else if x == s[0] then s
    else
      var tail := InsertSorted(x, s[1..]);
      ConsIncreasing(s[0], tail);
      [s[0]] + tail
  }

  lemma ConsIncreasing(h: int, t: seq<int>)
    requires Increasing(t)
    requires (forall v :: v in t ==> h < v) || (|t| > 0 && h < t[0])
    ensures Increasing([h] + t)
  {
    var r := [h] + t;
    forall i, j | 0 <= i < j < |r|
      ensures r[i] < r[j]
    {
      assert r[j] == t[j - 1] && t[j - 1] in t;
      if i > 0 {
        assert r[i] == t[i - 1];
      } else if |t| > 0 && h < t[0] {
        assert j - 1 == 0 || t[0] < t[j - 1];
      }
    }
  }

  /** `sorted(set(xs))`: the distinct values of xs in increasing order. */
  function SortedDistinct(xs: seq<int>): (r: seq<int>)
    ensures Increasing(r)
    ensures forall v :: v in r <==> v in xs
  {
    if |xs| == 0 then []
    else
      assert xs == xs[..|xs| - 1] + [xs[|xs| - 1]];
      InsertSorted(xs[|xs| - 1], SortedDistinct(xs[..|xs| - 1]))
  }

  /** The differences between neighbouring values. */
  function Gaps(s: seq<int>): (r: seq<int>)
    requires |s| >= 2
    ensures |r| == |s| - 1
    ensures forall i :: 0 <= i < |r| ==> r[i] == s[i + 1] - s[i]
  {
    seq(|s| - 1, i requires 0 <= i < |s| - 1 => s[i + 1] - s[i])
  }

  /** The gaps take exactly one value (`len(set(gaps)) == 1`). */
  predicate Regular(s: seq<int>)
    requires |s| >= 2
  {
    |set d | d in Gaps(s)| == 1
  }

  function Progression(start: int, step: int, count: nat): (r: seq<int>)
    ensures |r| == count
  {
    seq(count, i requires 0 <= i < count => start + i * step)
  }

  /** Evenly spaced values are an arithmetic progression, and conversely. */
  lemma RegularIsProgression(s: seq<int>)
    requires |s| >= 2
    ensures Regular(s) <==> s == Progression(s[0], s[1] - s[0], |s|)
  {
    if Regular(s) {
      RegularThenProgression(s);
    }
    if s == Progression(s[0], s[1] - s[0], |s|) {
      ProgressionThenRegular(s);
    }
  }

  lemma RegularThenProgression(s: seq<int>)
    requires |s| >= 2 && Regular(s)
    ensures s == Progression(s[0], s[1] - s[0], |s|)
  {
    var step := s[1] - s[0];
    RegularGaps(s);
    var p := Progression(s[0], step, |s|);
    forall i | 0 <= i < |s|
      ensures s[i] == p[i]
    {
      ProgressionPrefix(s, step, i);
    }
  }

  /** All gaps of an evenly spaced sequence equal its first gap. */
  lemma RegularGaps(s: seq<int>)
    requires |s| >= 2 && Regular(s)
    ensures forall k :: 0 <= k < |s| - 1 ==> s[k + 1] - s[k] == s[1] - s[0]
  {
    var gaps := Gaps(s);
    var values := set d | d in gaps;
    forall k | 0 <= k < |s| - 1
      ensures s[k + 1] - s[k] == s[1] - s[0]
    {
      assert gaps[k] in gaps && gaps[0] in gaps;
      Graphs.SingletonMembers(values, gaps[k], gaps[0]);
    }
  }

  lemma ProgressionThenRegular(s: seq<int>)
    requires |s| >= 2 && s == Progression(s[0], s[1] - s[0], |s|)
    ensures Regular(s)
  {
    var gaps := Gaps(s);
    var step := s[1] - s[0];
    forall i | 0 <= i < |gaps|
      ensures gaps[i] == step
    {
      ProgressionGap(s[0], step, |s|, i);
    }
    assert gaps[0] in gaps;
    assert (set d | d in gaps) == {step};
  }

  lemma ProgressionGap(start: int, step: int, count: nat, i: nat)
    requires i + 1 < count
    ensures var p := Progression(start, step, count);
      p[i + 1] - p[i] == step
  {
    assert (i + 1) * step == i * step + step;
  }

  lemma {:induction false} ProgressionPrefix(s: seq<int>, step: int, i: nat)
    requires |s| >= 2 && i < |s|
    requires forall k :: 0 <= k < |s| - 1 ==> s[k + 1] - s[k] == step
    ensures s[i] == s[0] + i * step
  {
    if i > 0 {
      ProgressionPrefix(s, step, i - 1);
      assert s[i] == s[i - 1] + step;
    }
  }

  /** The kind of a dot layout. */
  datatype GridLabel = GridOf(columns: nat, rows: nat) | Columns(count: nat) | Rows(count: nat) | Irregular

  function XCoords(dots: seq<Dot>): (r: seq<int>)
    ensures |r| == |dots| && forall i :: 0 <= i < |dots| ==> r[i] == dots[i].x
  {
    seq(|dots|, i requires 0 <= i < |dots| => dots[i].x)
  }

  function YCoords(dots: seq<Dot>): (r: seq<int>)
    ensures |r| == |dots| && forall i :: 0 <= i < |dots| ==> r[i] == dots[i].y
  {
    seq(|dots|, i requires 0 <= i < |dots| => dots[i].y)
  }

  /**
   * The kind decision: both axes, then x only, then y only.  A label other
   * than Irregular needs at least four dots, and every count it carries
   * is at least 2.
   */
  function Classify(dots: seq<Dot>): (kind: GridLabel)
    ensures !kind.Irregular? ==> |dots| >= 4
    ensures kind.GridOf? ==> kind.columns >= 2 && kind.rows >= 2
    ensures kind.Columns? || kind.Rows? ==> kind.count >= 2
  {
    if |dots| < 4 then Irregular
    else
      var xs := SortedDistinct(XCoords(dots));
      var ys := SortedDistinct(YCoords(dots));
      if |xs| > 1 && |ys| > 1 then
        var xRegular := Regular(xs);
        var yRegular := Regular(ys);
        if xRegular && yRegular then GridOf(|xs|, |ys|)
        else if xRegular then Columns(|xs|)
        else if yRegular then Rows(|ys|)
        else Irregular
      else Irregular
  }

  function DigitChar(d: nat): char
    requires d < 10
  {
    "0123456789"[d]
  }

  predicate AllDigits(s: string)
  {
    forall i :: 0 <= i < |s| ==> '0' <= s[i] <= '9'
  }

  /** The decimal text of n, as an f-string renders it: no leading zero. */
  function Digits(n: nat): (s: string)
    ensures |s| >= 1 && AllDigits(s)
    ensures n >= 10 ==> s[0] != '0'
  {
    if n < 10 then [DigitChar(n)] else Digits(n / 10) + [DigitChar(n % 10)]
  }

  /** Reads a decimal text back. */
  function DecimalValue(s: string): nat
    requires AllDigits(s)
  {
    if |s| == 0 then 0
    else
      var last := s[|s| - 1];
      DecimalValue(s[..|s| - 1]) * 10 + (last as int - '0' as int)
  }

  /** The rendered count reads back as the count. */
  lemma {:induction false} DigitsRoundTrip(n: nat)
    ensures DecimalValue(Digits(n)) == n
  {
    if n >= 10 {
      DigitsRoundTrip(n / 10);
      var s := Digits(n);
      assert s[..|s| - 1] == Digits(n / 10);
    }
  }

  function Text(kind: GridLabel): string
  {
    match kind
    case GridOf(c, r) => Digits(c) + "x" + Digits(r) + " grid"
    case Columns(c) => Digits(c) + " columns"
    case Rows(r) => Digits(r) + " rows"
    case Irregular => "Irregular"
  }

  /**
   * `detect_grid_pattern`: the text of the layout's kind.  It always
   * replaces the "N/A" default, and reads "Irregular" exactly when the
   * layout is irregular.
   */
  function DetectGridPattern(dots: seq<Dot>): (r: string)
    ensures r != "N/A"
    ensures r == "Irregular" <==> Classify(dots).Irregular?
  {
    var kind := Classify(dots);
    var r := Text(kind);
    assert |r| > 0 && r[|r| - 1] == (if kind.GridOf? then 'd' else if kind.Irregular? then 'r' else 's');
    r
  }

  // ---------------------------------------------------------------------
  // What the labels mean

  /** An increasing sequence lists each of its values once. */
  lemma {:induction false} IncreasingSize(s: seq<int>)
    requires Increasing(s)
    ensures |set v | v in s| == |s|
  {
    if |s| > 0 {
      var init := s[..|s| - 1];
      IncreasingSize(init);
      assert s == init + [s[|s| - 1]];
      assert s[|s| - 1] !in init;
      assert (set v | v in s) == (set v | v in init) + {s[|s| - 1]};
    }
  }

  /** Two increasing sequences with the same values are equal. */
  lemma {:induction false} IncreasingUnique(a: seq<int>, b: seq<int>)
    requires Increasing(a) && Increasing(b)
    requires forall v :: v in a <==> v in b
    ensures a == b
  {
    assert |a| > 0 ==> a[0] in a;
    assert |b| > 0 ==> b[0] in b;
    if |a| > 0 && |b| > 0 {
      forall v
        ensures v in a[1..] <==> v in b[1..]
      {
        if v in a[1..] {
          assert v in b && v != b[0];
        }
        if v in b[1..] {
          assert v in a && v != a[0];
        }
      }
      IncreasingUnique(a[1..], b[1..]);
      assert a == [a[0]] + a[1..] && b == [b[0]] + b[1..];
    }
  }

  /**
   * The counts in every label are the numbers of distinct x and y
   * coordinates, and a grid has at least two of each.
   */
  lemma GridDimensions(dots: seq<Dot>)
    ensures var kind := Classify(dots);
      && (kind.GridOf? ==>
        && kind.columns == |set d | d in dots :: d.x| >= 2
        && kind.rows == |set d | d in dots :: d.y| >= 2)
      && (kind.Columns? ==> kind.count == |set d | d in dots :: d.x|)
      && (kind.Rows? ==> kind.count == |set d | d in dots :: d.y|)
  {
    DistinctXCount(dots);
    DistinctYCount(dots);
  }

  /** An evenly spaced axis: at least two values, each a fixed step after the previous. */
  predicate Even(s: seq<int>)
  {
    |s| >= 2 && s == Progression(s[0], s[1] - s[0], |s|)
  }

  /** Evenly spaced is the single-gap test of the source, on two or more values. */
  lemma EvenIsRegular(s: seq<int>)
    ensures Even(s) <==> |s| >= 2 && Regular(s)
  {
    if |s| >= 2 {
      RegularIsProgression(s);
    }
  }

  /**
   * The four outcomes of the decision, each stated both ways: a grid when
   * both axes are evenly spaced, columns when only x is, rows when only y
   * is, and Irregular when there are too few dots, too few distinct values
   * on an axis, or neither axis is evenly spaced.
   */
  lemma ClassifyCases(dots: seq<Dot>)
    ensures var xs, ys := SortedDistinct(XCoords(dots)), SortedDistinct(YCoords(dots));
      var ok := |dots| >= 4 && |xs| >= 2 && |ys| >= 2;
      && (Classify(dots) == GridOf(|xs|, |ys|) <==> ok && Even(xs) && Even(ys))
      && (Classify(dots) == Columns(|xs|) <==> ok && Even(xs) && !Even(ys))
      && (Classify(dots) == Rows(|ys|) <==> ok && !Even(xs) && Even(ys))
      && (Classify(dots) == Irregular <==> !ok || (!Even(xs) && !Even(ys)))
  {
    var xs, ys := SortedDistinct(XCoords(dots)), SortedDistinct(YCoords(dots));
    var ex := |xs| >= 2 && Regular(xs);
    var ey := |ys| >= 2 && Regular(ys);
    EvenIsRegular(xs);
    EvenIsRegular(ys);
    if |dots| < 4 || |xs| < 2 || |ys| < 2 {
      assert Classify(dots) == Irregular;
    } else if ex && ey {
      assert Classify(dots) == GridOf(|xs|, |ys|);
    } else if ex {
      assert Classify(dots) == Columns(|xs|);
    } else if ey {
      assert Classify(dots) == Rows(|ys|);
    } else {
      assert Classify(dots) == Irregular;
    }
  }

  /** The sorted distinct x coordinates number the distinct x values of the dots. */
  lemma DistinctXCount(dots: seq<Dot>)
    ensures |SortedDistinct(XCoords(dots))| == |set d | d in dots :: d.x|
  {
    var xs := SortedDistinct(XCoords(dots));
    IncreasingSize(xs);
    forall v | v in XCoords(dots)
      ensures exists d :: d in dots && d.x == v
    {
      var i :| 0 <= i < |dots| && XCoords(dots)[i] == v;
      assert dots[i] in dots;
    }
    forall d | d in dots
      ensures d.x in XCoords(dots)
    {
      var i :| 0 <= i < |dots| && dots[i] == d;
      assert XCoords(dots)[i] == d.x;
    }
    assert (set v | v in xs) == (set d | d in dots :: d.x);
  }

  /** The sorted distinct y coordinates number the distinct y values of the dots. */
  lemma DistinctYCount(dots: seq<Dot>)
    ensures |SortedDistinct(YCoords(dots))| == |set d | d in dots :: d.y|
  {
    var ys := SortedDistinct(YCoords(dots));
    IncreasingSize(ys);
    forall v | v in YCoords(dots)
      ensures exists d :: d in dots && d.y == v
    {
      var i :| 0 <= i < |dots| && YCoords(dots)[i] == v;
      assert dots[i] in dots;
    }
    forall d | d in dots
      ensures d.y in YCoords(dots)
    {
      var i :| 0 <= i < |dots| && dots[i] == d;
      assert YCoords(dots)[i] == d.y;
    }
    assert (set v | v in ys) == (set d | d in dots :: d.y);
  }

  /** i * step grows with i when the step is positive. */
  lemma ProgressionIncreasing(start: int, step: int, count: nat)
    requires step > 0
    ensures Increasing(Progression(start, step, count))
  {
    var p := Progression(start, step, count);
    forall i, j | 0 <= i < j < count
      ensures p[i] < p[j]
    {
      assert j * step == i * step + (j - i) * step;
      assert (j - i) * step > 0;
    }
  }

  /**
   * A rectangular lattice: dots[k] sits in column k % columns and row
   * k / columns, with positive spacings dx and dy.
   */
  function Lattice(columns: nat, rows: nat, x0: int, y0: int, dx: int, dy: int, radius: int): (r: seq<Dot>)
    ensures |r| == columns * rows
  {
    seq(columns * rows, k requires 0 <= k < columns * rows =>
      Dot(x0 + (k % columns) * dx, y0 + (k / columns) * dy, radius))
  }

  /** The x coordinates of a lattice are the columns' progression. */
  lemma LatticeColumns(columns: nat, rows: nat, x0: int, y0: int, dx: int, dy: int, radius: int)
    requires columns >= 2 && rows >= 2
    ensures var dots := Lattice(columns, rows, x0, y0, dx, dy, radius);
      forall v :: v in XCoords(dots) <==> v in Progression(x0, dx, columns)
  {
    var xs := XCoords(Lattice(columns, rows, x0, y0, dx, dy, radius));
    var px := Progression(x0, dx, columns);
    forall v
      ensures v in xs <==> v in px
    {
      if v in xs {
        var k :| 0 <= k < |xs| && xs[k] == v;
        LatticeX(columns, rows, x0, y0, dx, dy, radius, k);
      }
      if v in px {
        var i :| 0 <= i < columns && px[i] == v;
        FirstRow(columns, rows, i);
        assert xs[i] == v;
      }
    }
  }

  lemma LatticeX(columns: nat, rows: nat, x0: int, y0: int, dx: int, dy: int, radius: int, k: nat)
    requires columns > 0 && k < columns * rows
    ensures XCoords(Lattice(columns, rows, x0, y0, dx, dy, radius))[k] in Progression(x0, dx, columns)
  {
    var i := k % columns;
    assert Progression(x0, dx, columns)[i] == x0 + i * dx;
  }

  /** The y coordinates of a lattice are the rows' progression. */
  lemma LatticeRows(columns: nat, rows: nat, x0: int, y0: int, dx: int, dy: int, radius: int)
    requires columns >= 2 && rows >= 2
    ensures var dots := Lattice(columns, rows, x0, y0, dx, dy, radius);
      forall v :: v in YCoords(dots) <==> v in Progression(y0, dy, rows)
  {
    var ys := YCoords(Lattice(columns, rows, x0, y0, dx, dy, radius));
    var py := Progression(y0, dy, rows);
    forall v
      ensures v in ys <==> v in py
    {
      if v in ys {
        var k :| 0 <= k < |ys| && ys[k] == v;
        LatticeY(columns, rows, x0, y0, dx, dy, radius, k);
      }
      if v in py {
        var j :| 0 <= j < rows && py[j] == v;
        LatticeRowStart(columns, rows, x0, y0, dx, dy, radius, j);
      }
    }
  }

  lemma LatticeY(columns: nat, rows: nat, x0: int, y0: int, dx: int, dy: int, radius: int, k: nat)
    requires columns > 0 && k < columns * rows
    ensures YCoords(Lattice(columns, rows, x0, y0, dx, dy, radius))[k] in Progression(y0, dy, rows)
  {
    LatticeRow(columns, rows, k);
    var j := k / columns;
    assert Progression(y0, dy, rows)[j] == y0 + j * dy;
  }

  lemma LatticeRowStart(columns: nat, rows: nat, x0: int, y0: int, dx: int, dy: int, radius: int, j: nat)
    requires columns > 0 && j < rows
    ensures j * columns < columns * rows
    ensures YCoords(Lattice(columns, rows, x0, y0, dx, dy, radius))[j * columns] == Progression(y0, dy, rows)[j]
  {
    RowStart(columns, rows, j);
  }

  lemma LatticeRow(columns: nat, rows: nat, k: nat)
    requires columns > 0 && k < columns * rows
    ensures k / columns < rows
  {
  }

  lemma FirstRow(columns: nat, rows: nat, i: nat)
    requires i < columns && rows >= 2
    ensures i < columns * rows && i % columns == i
  {
    assert columns * rows == columns + columns * (rows - 1);
  }

  lemma RowStart(columns: nat, rows: nat, j: nat)
    requires columns > 0 && j < rows
    ensures j * columns < columns * rows
    ensures (j * columns) / columns == j
  {
    assert columns * rows - j * columns == (rows - j) * columns;
  }

  /**
   * When the distinct x and the distinct y coordinates of at least four
   * dots are each evenly spaced, with at least two of each, the layout is
   * labelled a grid of that many columns and rows.
   */
  lemma EvenlySpacedIsGrid(dots: seq<Dot>, x0: int, dx: int, columns: nat, y0: int, dy: int, rows: nat)
    requires |dots| >= 4 && columns >= 2 && rows >= 2
    requires SortedDistinct(XCoords(dots)) == Progression(x0, dx, columns)
    requires SortedDistinct(YCoords(dots)) == Progression(y0, dy, rows)
    ensures Classify(dots) == GridOf(columns, rows)
  {
    ProgressionRegular(x0, dx, columns);
    ProgressionRegular(y0, dy, rows);
  }

  /** An arithmetic progression of two or more values is evenly spaced. */
  lemma ProgressionRegular(start: int, step: int, count: nat)
    requires count >= 2
    ensures Regular(Progression(start, step, count))
  {
    var p := Progression(start, step, count);
    assert p[1] - p[0] == step by {
      assert p[1] == start + step && p[0] == start;
    }
    RegularIsProgression(p);
  }

  lemma ProductAtLeastFour(columns: nat, rows: nat)
    requires columns >= 2 && rows >= 2
    ensures columns * rows >= 4
  {
    assert columns * rows >= 2 * rows;
  }

  /**
   * Dots on a C x R lattice with positive spacings are labelled a C x R grid,
   * whatever the origin.
   */
  lemma LatticeIsGrid(columns: nat, rows: nat, x0: int, y0: int, dx: int, dy: int, radius: int)
    requires columns >= 2 && rows >= 2 && dx > 0 && dy > 0
    ensures Classify(Lattice(columns, rows, x0, y0, dx, dy, radius)) == GridOf(columns, rows)
  {
    var dots := Lattice(columns, rows, x0, y0, dx, dy, radius);
    ProductAtLeastFour(columns, rows);
    LatticeColumns(columns, rows, x0, y0, dx, dy, radius);
    LatticeRows(columns, rows, x0, y0, dx, dy, radius);
    ProgressionIncreasing(x0, dx, columns);
    ProgressionIncreasing(y0, dy, rows);
    IncreasingUnique(SortedDistinct(XCoords(dots)), Progression(x0, dx, columns));
    IncreasingUnique(SortedDistinct(YCoords(dots)), Progression(y0, dy, rows));
    EvenlySpacedIsGrid(dots, x0, dx, columns, y0, dy, rows);
  }

  /** Twelve dots 20 pixels apart in three columns and four rows read "3x4 grid". */
  lemma ThreeByFourGrid()
    ensures DetectGridPattern(Lattice(3, 4, 0, 0, 20, 20, 5)) == "3x4 grid"
  {
    LatticeIsGrid(3, 4, 0, 0, 20, 20, 5);
  }

  /** Fewer than four dots are always irregular. */
  lemma FewDotsIrregular(dots: seq<Dot>)
    requires |dots| < 4
    ensures DetectGridPattern(dots) == "Irregular"
  {
  }

  function Jittered(): seq<Dot>
  {
    [Dot(0, 0, 5), Dot(20, 7, 5), Dot(47, 19, 5), Dot(55, 40, 5)]
  }

  lemma JitteredColumns()
    ensures SortedDistinct(XCoords(Jittered())) == [0, 20, 47, 55]
  {
    assert XCoords(Jittered()) == [0, 20, 47, 55];
    IncreasingUnique(SortedDistinct(XCoords(Jittered())), [0, 20, 47, 55]);
  }

  lemma JitteredRows()
    ensures SortedDistinct(YCoords(Jittered())) == [0, 7, 19, 40]
  {
    assert YCoords(Jittered()) == [0, 7, 19, 40];
    IncreasingUnique(SortedDistinct(YCoords(Jittered())), [0, 7, 19, 40]);
  }

  /** Four dots off any lattice, unevenly spaced on both axes, read "Irregular". */
  lemma JitteredIrregular()
    ensures DetectGridPattern(Jittered()) == "Irregular"
  {
    JitteredColumns();
    JitteredRows();
    RegularIsProgression([0, 20, 47, 55]);
    RegularIsProgression([0, 7, 19, 40]);
    assert Progression(0, 20, 4)[2] == 40;
    assert Progression(0, 7, 4)[2] == 14;
  }
}
