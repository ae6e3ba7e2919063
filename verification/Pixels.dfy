/** Finite sets of pixels and their sizes. */
module Pixels {

  type Pixel = (int, int)

  datatype Bounds = Bounds(x: int, y: int, w: int, h: int)

  ghost function Interval(a: int, b: int): (r: set<int>)
    ensures forall i :: i in r <==> a <= i < b
    decreases b - a
  {
    if b <= a then {} else Interval(a, b - 1) + {b - 1}
  }

  lemma {:induction false} IntervalSize(a: int, b: int)
    requires a <= b
    ensures |Interval(a, b)| == b - a
    decreases b - a
  {
    if a == b {
      assert Interval(a, b) == {};
    } else {
      IntervalSize(a, b - 1);
    }
  }

  ghost function Product(xs: set<int>, ys: set<int>): set<Pixel> {
    set x, y | x in xs && y in ys :: (x, y)
  }

  lemma {:induction false} ColumnSize(x: int, ys: set<int>)
    ensures |Product({x}, ys)| == |ys|
    decreases ys
  {
    if ys == {} {
      assert Product({x}, ys) == {};
    } else {
      var y := Pick(ys);
      ColumnSize(x, ys - {y});
      assert Product({x}, ys) == Product({x}, ys - {y}) + {(x, y)};
    }
  }

  lemma SplitColumn(xs: set<int>, x: int, ys: set<int>)
    requires x in xs
    ensures |Product(xs, ys)| == |Product(xs - {x}, ys)| + |Product({x}, ys)|
  {
    assert Product(xs, ys) == Product(xs - {x}, ys) + Product({x}, ys);
  }

  lemma Multiply(n: int, m: int)
    ensures (n + 1) * m == n * m + m && n * m == m * n
  {
  }

  lemma {:induction false} ProductSize(xs: set<int>, ys: set<int>)
    ensures |Product(xs, ys)| == |xs| * |ys|
    decreases xs
  {
    if xs == {} {
      assert Product(xs, ys) == {};
    } else {
      var x := Pick(xs);
      ProductSize(xs - {x}, ys);
      ColumnSize(x, ys);
      SplitColumn(xs, x, ys);
      var n, m := |xs - {x}|, |ys|;
      Multiply(n, m);
      assert |xs| == n + 1;
    }
  }

  lemma {:induction false} StripSize(a: int, b: int, rows: set<int>)
    requires a <= b
    ensures |Product(Interval(a, b), rows)| == |rows| * (b - a)
  {
    ProductSize(Interval(a, b), rows);
    IntervalSize(a, b);
    Multiply(b - a, |rows|);
  }

  lemma Pick<T>(s: set<T>) returns (x: T)
    requires s != {}
    ensures x in s
  {
    x :| x in s;
  }

  lemma {:induction false} SubsetSize<T>(a: set<T>, b: set<T>)
    requires a <= b
    ensures |a| <= |b|
  {
    assert b == a + (b - a);
  }
}
