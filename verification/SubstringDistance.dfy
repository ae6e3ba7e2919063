/** The bit-parallel approximate matcher, against edit distance to every substring. */
module SubstringDistance {
  import opened Arithmetic
  import opened Bits
  import opened EditDistance

  // --- the column recurrence, and what it measures --------------------------------

  /** The search table's cell: a match may start anywhere in the text, so the row of
      the empty pattern is zero. */
  function Cell(p: string, t: string): nat
    decreases |p| + |t|
  {
    if |p| == 0 then 0
    else if |t| == 0 then |p|
    else
      var kept := Cell(Front(p), Front(t)) + (if Last(p) == Last(t) then 0 else 1);
      Min(kept, Min(Cell(Front(p), t), Cell(p, Front(t))) + 1)
  }

  /** A cell is at most the distance to every substring ending where its text ends. */
  lemma {:induction false} CellIsLowerBound(p: string, t: string, k: nat)
    requires k <= |t|
    ensures Cell(p, t) <= Lev(p, t[k..])
    decreases |p| + |t|
  {
    if |p| > 0 && |t| > 0 {
      CellIsLowerBound(Front(p), t, k);
      if k == |t| {
        CellIsLowerBound(Front(p), t, k);
      } else {
        var s := t[k..];
        assert Front(s) == Front(t)[k..];
        CellIsLowerBound(Front(p), Front(t), k);
        CellIsLowerBound(p, Front(t), k);
      }
    }
  }

  lemma FrontOfTail(t: string, k: nat)
    requires k < |t|
    ensures Front(t[k..]) == Front(t)[k..] && Last(t[k..]) == Last(t)
  {
  }

  /** Some substring ending there is exactly that far. */
  lemma {:induction false} CellIsAttained(p: string, t: string) returns (k: nat)
    ensures k <= |t| && Cell(p, t) == Lev(p, t[k..])
    decreases |p| + |t|
  {
    if |p| == 0 || |t| == 0 {
      k := |t|;
    } else {
      var a := CellIsAttained(Front(p), Front(t));
      var b := CellIsAttained(Front(p), t);
      var c := CellIsAttained(p, Front(t));
      var kept := Cell(Front(p), Front(t)) + (if Last(p) == Last(t) then 0 else 1);
      if Cell(p, t) == kept {
        k := a;
        FrontOfTail(t, k);
      } else if Cell(p, t) == Cell(Front(p), t) + 1 {
        k := b;
        if k < |t| { FrontOfTail(t, k); }
      } else {
        k := c;
        FrontOfTail(t, k);
      }
      CellIsLowerBound(p, t, k);
    }
  }

  // --- differences between neighbouring cells --------------------------------------

  /** Row `i` of the column over the text `t`. */
  function Row(p: string, t: string, i: nat): nat
    requires i <= |p|
  {
    Cell(p[..i], t)
  }

  /** Row `i` minus the row above it. */
  function Down(p: string, t: string, i: nat): int
    requires i < |p|
  {
    Row(p, t, i + 1) - Row(p, t, i)
  }

  /** Row `i` minus the same row one text character earlier. */
  function Across(p: string, t: string, i: nat): int
    requires i <= |p| && |t| > 0
  {
    Row(p, t, i) - Row(p, Front(t), i)
  }

  lemma {:induction false} RowStep(p: string, t: string, i: nat)
    requires i < |p| && |t| > 0
    ensures var kept := Row(p, Front(t), i) + (if p[i] == Last(t) then 0 else 1);
            Row(p, t, i + 1) == Min(kept, Min(Row(p, t, i), Row(p, Front(t), i + 1)) + 1)
  {
    assert Front(p[..i + 1]) == p[..i] && Last(p[..i + 1]) == p[i];
  }

  /** Neighbouring cells differ by at most one, in both directions. */
  lemma {:induction false} SmallSteps(p: string, t: string, i: nat)
    requires i < |p|
    ensures -1 <= Down(p, t, i) <= 1
    ensures |t| > 0 ==> -1 <= Across(p, t, i) <= 1 && -1 <= Across(p, t, i + 1) <= 1
    decreases |t|, i
  {
    if |t| > 0 {
      SmallSteps(p, Front(t), i);
      if i > 0 { SmallSteps(p, t, i - 1); }
      RowStep(p, t, i);
    }
  }

  /** The differences below a cell from those above and left of it. */
  lemma {:induction false} Differences(p: string, t: string, i: nat)
    requires i < |p| && |t| > 0
    ensures var d := if p[i] == Last(t) || Down(p, Front(t), i) == -1 || Across(p, t, i) == -1 then 0 else 1;
            Across(p, t, i + 1) == d - Down(p, Front(t), i) && Down(p, t, i) == d - Across(p, t, i)
  {
    SmallSteps(p, Front(t), i);
    SmallSteps(p, t, i);
    RowStep(p, t, i);
  }

  // --- the words the loop keeps ----------------------------------------------------

  /** `plus` and `minus` encode the column of `p` over `t`. */
  ghost predicate Encodes(plus: nat, minus: nat, p: string, t: string) {
    && (forall i: nat :: Bit(plus, i) <==> i < |p| && Down(p, t, i) == 1)
    && (forall i: nat :: Bit(minus, i) <==> i < |p| && Down(p, t, i) == -1)
  }

  /** Bit `i` of `word` says whether pattern character `i` is `c`. */
  ghost predicate MatchesOf(word: nat, p: string, c: char) {
    forall i: nat :: Bit(word, i) <==> i < |p| && p[i] == c
  }

  ghost predicate IsTable(equal: map<char, nat>, p: string) {
    forall c: char :: MatchesOf(Lookup(equal, c), p, c)
  }

  function Lookup(equal: map<char, nat>, c: char): nat {
    if c in equal then equal[c] else 0
  }

  /** The masked sum marks exactly the rows whose upper neighbour fell, or that match. */
  lemma {:induction false} SumBits(eq: nat, plus: nat, m: nat, i: nat)
    requires forall j: nat :: Bit(plus, j) ==> j < m
    requires forall j: nat :: Bit(eq, j) ==> j < m
    ensures Bit(Or(Xor(Mask(And(eq, plus) + plus, m), plus), eq), i)
       <==> i < m && (Bit(eq, i) || Carry(And(eq, plus), plus, false, i))
    ensures Carry(And(eq, plus), plus, false, i + 1)
       <==> Bit(plus, i) && (Bit(eq, i) || Carry(And(eq, plus), plus, false, i))
  {
    var a := And(eq, plus);
    var sum := Mask(a + plus, m);
    OrBit(Xor(sum, plus), eq, i);
    XorBit(sum, plus, i);
    MaskBit(a + plus, m, i);
    AddBit(a, plus, false, i);
    AndBit(eq, plus, i);
  }

  /** The carry into row `i` says that the row above fell: the ripple of the addition
      is the recurrence's own descent down the column. */
  lemma {:induction false} CarryIsFall(eq: nat, plus: nat, minus: nat, p: string, t: string, i: nat)
    requires |t| > 0 && i <= |p|
    requires Encodes(plus, minus, p, Front(t))
    requires MatchesOf(eq, p, Last(t))
    ensures Carry(And(eq, plus), plus, false, i) <==> Across(p, t, i) == -1
    decreases i
  {
    if i > 0 {
      CarryIsFall(eq, plus, minus, p, t, i - 1);
      SumBits(eq, plus, |p|, i - 1);
      Differences(p, t, i - 1);
      SmallSteps(p, Front(t), i - 1);
    }
  }

  /** What one pass of the loop body leaves in its words. */
  datatype Words = Words(horizontalPlus: nat, horizontalMinus: nat, plus: nat, minus: nat)

  function Advance(eq: nat, plus: nat, minus: nat, m: nat): Words {
    var xv := Or(eq, minus);
    var xh := Or(Xor(Mask(And(eq, plus) + plus, m), plus), eq);
    var horizontalPlus := Or(minus, Not(Or(xh, plus), m));
    var horizontalMinus := And(plus, xh);
    var shiftedPlus := Mask(2 * horizontalPlus, m);
    var shiftedMinus := Mask(2 * horizontalMinus, m);
    Words(horizontalPlus, horizontalMinus, Or(shiftedMinus, Not(Or(xv, shiftedPlus), m)), And(shiftedPlus, xv))
  }

  /** The horizontal words hold the differences from the previous column. */
  lemma {:induction false} HorizontalBits(eq: nat, plus: nat, minus: nat, p: string, t: string, i: nat)
    requires |t| > 0 && i < |p|
    requires Encodes(plus, minus, p, Front(t))
    requires MatchesOf(eq, p, Last(t))
    ensures var w := Advance(eq, plus, minus, |p|);
            && (Bit(w.horizontalPlus, i) <==> Across(p, t, i + 1) == 1)
            && (Bit(w.horizontalMinus, i) <==> Across(p, t, i + 1) == -1)
  {
    var m := |p|;
    var xh := Or(Xor(Mask(And(eq, plus) + plus, m), plus), eq);
    SumBits(eq, plus, m, i);
    CarryIsFall(eq, plus, minus, p, t, i);
    Differences(p, t, i);
    SmallSteps(p, Front(t), i);
    OrBit(minus, Not(Or(xh, plus), m), i);
    NotBit(Or(xh, plus), m, i);
    OrBit(xh, plus, i);
    AndBit(plus, xh, i);
  }

  /** One pass turns the previous column's words into this column's. */
  lemma {:induction false} AdvanceEncodes(eq: nat, plus: nat, minus: nat, p: string, t: string)
    requires |t| > 0
    requires Encodes(plus, minus, p, Front(t))
    requires MatchesOf(eq, p, Last(t))
    ensures var w := Advance(eq, plus, minus, |p|); Encodes(w.plus, w.minus, p, t)
  {
    var m, w := |p|, Advance(eq, plus, minus, |p|);
    var xv := Or(eq, minus);
    var hp, hm := Mask(2 * w.horizontalPlus, m), Mask(2 * w.horizontalMinus, m);
    forall i: nat
      ensures Bit(w.plus, i) <==> i < m && Down(p, t, i) == 1
      ensures Bit(w.minus, i) <==> i < m && Down(p, t, i) == -1
    {
      OrBit(hm, Not(Or(xv, hp), m), i);
      NotBit(Or(xv, hp), m, i);
      OrBit(xv, hp, i);
      AndBit(hp, xv, i);
      OrBit(eq, minus, i);
      MaskBit(2 * w.horizontalPlus, m, i);
      MaskBit(2 * w.horizontalMinus, m, i);
      ShiftBit(w.horizontalPlus, i);
      ShiftBit(w.horizontalMinus, i);
      if 0 < i < m { HorizontalBits(eq, plus, minus, p, t, i - 1); }
      if i < m {
        Differences(p, t, i);
        SmallSteps(p, Front(t), i);
        SmallSteps(p, t, i);
      }
    }
  }

  lemma {:induction false} FirstColumn(p: string)
    ensures Encodes(Pow2(|p|) - 1, 0, p, "")
    ensures Cell(p, "") == |p| && IsLeastColumn(|p|, p, "")
  {
    forall i: nat
      ensures Bit(Pow2(|p|) - 1, i) <==> i < |p| && Down(p, "", i) == 1
      ensures Bit(0, i) <==> i < |p| && Down(p, "", i) == -1
    {
      FullBit(|p|, i);
      ZeroBits(i);
    }
    assert ""[..0] == "";
  }

  lemma {:induction false} ExtendTable(equal: map<char, nat>, p: string, n: nat)
    requires n < |p| && IsTable(equal, p[..n])
    ensures IsTable(equal[p[n] := Or(Lookup(equal, p[n]), Pow2(n))], p[..n + 1])
  {
    var next := equal[p[n] := Or(Lookup(equal, p[n]), Pow2(n))];
    forall c: char
      ensures MatchesOf(Lookup(next, c), p[..n + 1], c)
    {
      assert MatchesOf(Lookup(equal, c), p[..n], c);
      forall i: nat
        ensures Bit(Lookup(next, c), i) <==> i < n + 1 && p[..n + 1][i] == c
      {
        if c == p[n] {
          OrBit(Lookup(equal, c), Pow2(n), i);
          PowerBit(n, i);
        }
      }
    }
  }

  method EqualityTable(p: string) returns (equal: map<char, nat>)
    ensures IsTable(equal, p)
  {
    equal := map[];
    forall i: nat ensures !Bit(0, i) { ZeroBits(i); }
    for n := 0 to |p|
      invariant IsTable(equal, p[..n])
    {
      ExtendTable(equal, p, n);
      equal := equal[p[n] := Or(Lookup(equal, p[n]), Pow2(n))];
    }
    assert p[..|p|] == p;
  }

  /** `best` is the least distance from `p` to a substring of `t`. */
  ghost predicate IsLeastDistance(best: int, p: string, t: string) {
    && (forall i, j :: 0 <= i <= j <= |t| ==> best <= Lev(p, t[i..j]))
    && (exists i, j :: 0 <= i <= j <= |t| && best == Lev(p, t[i..j]))
  }

  /** `best` is the least last row of the columns up to the whole of `t`. */
  ghost predicate IsLeastColumn(best: int, p: string, t: string) {
    && (forall j :: 0 <= j <= |t| ==> best <= Cell(p, t[..j]))
    && (exists j :: 0 <= j <= |t| && best == Cell(p, t[..j]))
  }

  /** The least last row of the columns so far is the least distance so far. */
  lemma {:induction false} ColumnsGiveLeast(best: int, p: string, t: string)
    requires IsLeastColumn(best, p, t)
    ensures IsLeastDistance(best, p, t)
  {
    forall i, j | 0 <= i <= j <= |t|
      ensures best <= Lev(p, t[i..j])
    {
      CellIsLowerBound(p, t[..j], i);
      assert t[..j][i..] == t[i..j];
    }
    var j :| 0 <= j <= |t| && best == Cell(p, t[..j]);
    var k := CellIsAttained(p, t[..j]);
    assert t[..j][k..] == t[k..j];
  }

  lemma {:induction false} LeastColumnStep(best: int, p: string, t: string)
    requires |t| > 0 && IsLeastColumn(best, p, Front(t))
    ensures IsLeastColumn(Min(best, Cell(p, t)), p, t)
  {
    assert forall j :: 0 <= j < |t| ==> t[..j] == Front(t)[..j];
    assert t[..|t|] == t;
    var j :| 0 <= j <= |Front(t)| && best == Cell(p, Front(t)[..j]);
    assert best == Cell(p, t[..j]);
  }

  /** The score follows the last row. */
  lemma {:induction false} ScoreStep(eq: nat, plus: nat, minus: nat, p: string, t: string)
    requires |t| > 0 && |p| > 0
    requires Encodes(plus, minus, p, Front(t))
    requires MatchesOf(eq, p, Last(t))
    ensures var w := Advance(eq, plus, minus, |p|);
            Cell(p, t) - Cell(p, Front(t)) == if Bit(w.horizontalPlus, |p| - 1) then 1
              else if Bit(w.horizontalMinus, |p| - 1) then -1 else 0
  {
    HorizontalBits(eq, plus, minus, p, t, |p| - 1);
    SmallSteps(p, t, |p| - 1);
    assert p[..|p|] == p;
  }

  /** The least distance from the pattern to any stretch of the text. */
  method BestSubstringDistance(pattern: string, text: string) returns (best: int)
    ensures IsLeastDistance(best, pattern, text)
  {
    var m := |pattern|;
    if m == 0 {
      assert text[0..0] == "";
      return 0;
    }
    var equal := EqualityTable(pattern);
    var plus: nat, minus: nat, score := Pow2(m) - 1, 0, m;
    best := m;
    FirstColumn(pattern);
    assert pattern[..m] == pattern && text[..0] == "";
    for n := 0 to |text|
      invariant Encodes(plus, minus, pattern, text[..n])
      invariant score == Cell(pattern, text[..n])
      invariant IsLeastColumn(best, pattern, text[..n])
    {
      var eq := Lookup(equal, text[n]);
      ghost var t := text[..n + 1];
      assert Front(t) == text[..n] && Last(t) == text[n];
      assert MatchesOf(eq, pattern, Last(t));
      ScoreStep(eq, plus, minus, pattern, t);
      AdvanceEncodes(eq, plus, minus, pattern, t);
      LeastColumnStep(best, pattern, t);
      var w := Advance(eq, plus, minus, m);
      if Bit(w.horizontalPlus, m - 1) {
        score := score + 1;
      } else if Bit(w.horizontalMinus, m - 1) {
        score := score - 1;
      }
      plus, minus := w.plus, w.minus;
      best := Min(best, score);
    }
    assert text[..|text|] == text;
    ColumnsGiveLeast(best, pattern, text);
  }

  /** `path` edits `p` into the substring of `t` from `i` to `j`. */
  ghost predicate EditsInto(path: seq<string>, p: string, t: string, i: int, j: int) {
    && IsEditPath(path) && path[0] == p
    && 0 <= i <= j <= |t| && path[|path| - 1] == t[i..j]
  }

  /** The least distance is the fewest single edits on a path to some substring, so the
      matcher's answer does not depend on how distance was computed. */
  lemma {:induction false} LeastDistanceIsFewestEdits(best: int, p: string, t: string)
    requires IsLeastDistance(best, p, t)
    ensures forall path, i, j :: EditsInto(path, p, t, i, j) ==> best <= |path| - 1
    ensures exists path, i, j :: EditsInto(path, p, t, i, j) && best == |path| - 1
  {
    forall path, i, j | EditsInto(path, p, t, i, j)
      ensures best <= |path| - 1
    {
      LevIsLowerBound(path);
    }
    var i, j :| 0 <= i <= j <= |t| && best == Lev(p, t[i..j]);
    var path := LevIsAttained(p, t[i..j]);
    assert EditsInto(path, p, t, i, j);
  }
}
