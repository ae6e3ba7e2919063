/** Union-find over the indices of one table, with path halving. */
module DisjointSets {

  /** `i` and `j` have one representative. */
  predicate Tied(rep: seq<nat>, i: int, j: int) {
    0 <= i < |rep| && 0 <= j < |rep| && rep[i] == rep[j]
  }

  /** `after` keeps together whatever `before` held together. */
  ghost predicate Coarser(before: seq<nat>, after: seq<nat>) {
    |before| == |after| && forall i, j :: Tied(before, i, j) ==> Tied(after, i, j)
  }

  /** The representatives after the class of `right` is put under that of `left`. */
  ghost function Merged(rep: seq<nat>, left: nat, right: nat): (r: seq<nat>)
    requires left < |rep| && right < |rep|
    ensures |r| == |rep|
  {
    seq(|rep|, k requires 0 <= k < |rep| => if rep[k] == rep[right] then rep[left] else rep[k])
  }

  lemma MergedIsCoarser(rep: seq<nat>, left: nat, right: nat)
    requires left < |rep| && right < |rep|
    ensures Coarser(rep, Merged(rep, left, right))
    ensures Tied(Merged(rep, left, right), left, right)
  {
  }

  /** Index `i` leads to its `rep`, and `rank` grows along its link. */
  ghost predicate IsNode(parent: seq<nat>, rep: seq<nat>, rank: seq<nat>, top: nat, i: nat)
    requires |rep| == |rank| == |parent| && i < |parent|
  {
    && parent[i] < |parent| && rep[i] < |parent|
    && rep[parent[i]] == rep[i] && parent[rep[i]] == rep[i]
    && (parent[i] == i ==> rep[i] == i)
    && (parent[i] != i ==> rank[i] < rank[parent[i]])
    && rank[i] <= top
  }

  ghost predicate IsForest(parent: seq<nat>, rep: seq<nat>, rank: seq<nat>, top: nat) {
    && |rep| == |rank| == |parent|
    && forall i :: 0 <= i < |parent| ==> IsNode(parent, rep, rank, top, i)
  }

  lemma {:induction false} HalvingKeeps(parent: seq<nat>, rep: seq<nat>, rank: seq<nat>, top: nat, index: nat)
    requires IsForest(parent, rep, rank, top) && index < |parent| && parent[index] != index
    ensures parent[index] < |parent| && parent[parent[index]] < |parent|
    ensures IsForest(parent[index := parent[parent[index]]], rep, rank, top)
    ensures rank[index] < rank[parent[parent[index]]] <= top && rep[parent[parent[index]]] == rep[index]
  {
    assert IsNode(parent, rep, rank, top, index);
    var j := parent[index];
    assert IsNode(parent, rep, rank, top, j);
    assert IsNode(parent, rep, rank, top, parent[j]);
    var halved := parent[index := parent[j]];
    forall i | 0 <= i < |parent|
      ensures IsNode(halved, rep, rank, top, i)
    {
      assert IsNode(parent, rep, rank, top, i);
    }
  }

  lemma {:induction false} LinkingKeeps(
      parent: seq<nat>, rep: seq<nat>, rank: seq<nat>, top: nat, left: nat, right: nat)
    requires IsForest(parent, rep, rank, top) && left < |parent| && right < |parent|
    requires rep[left] != rep[right]
    ensures rep[left] < |parent| && rep[right] < |parent|
    ensures var l, r := rep[left], rep[right];
            IsForest(parent[r := l], Merged(rep, left, right), rank[l := rank[l] + rank[r] + 1], top + top + 1)
  {
    assert IsNode(parent, rep, rank, top, left) && IsNode(parent, rep, rank, top, right);
    var l, r := rep[left], rep[right];
    assert IsNode(parent, rep, rank, top, l) && IsNode(parent, rep, rank, top, r);
    var parent', rep', rank' := parent[r := l], Merged(rep, left, right), rank[l := rank[l] + rank[r] + 1];
    var top' := top + top + 1;
    forall i | 0 <= i < |parent|
      ensures IsNode(parent', rep', rank', top', i)
    {
      assert IsNode(parent, rep, rank, top, i);
      assert IsNode(parent, rep, rank, top, parent[i]);
    }
  }

  class Forest {
    const parent: array<nat>
    /** The root each index leads to. */
    ghost var rep: seq<nat>
    /** Grows along every parent link, and never past `top`. */
    ghost var rank: seq<nat>
    ghost var top: nat

    ghost predicate Valid()
      reads this, parent
    {
      |rep| == |rank| == parent.Length && IsForest(parent[..], rep, rank, top)
    }

    constructor (n: nat)
      ensures Valid() && fresh(parent) && parent.Length == n
      ensures forall i :: 0 <= i < n ==> rep[i] == i
    {
      parent := new nat[n](i => i);
      rep := seq(n, i => i);
      rank := seq(n, i => 0);
      top := 0;
    }

    method Find(start: nat) returns (root: nat)
      requires Valid() && start < parent.Length
      modifies parent
      ensures Valid() && root == rep[start]
    {
      var index: nat := start;
      assert IsNode(parent[..], rep, rank, top, start);
      while parent[index] != index
        invariant Valid() && index < parent.Length
        invariant start < |rep| && rep[index] == rep[start]
        decreases top - rank[index]
      {
        assert IsNode(parent[..], rep, rank, top, index);
        HalvingKeeps(parent[..], rep, rank, top, index);
        ghost var halved := parent[..][index := parent[parent[index]]];
        parent[index] := parent[parent[index]];
        assert parent[..] == halved;
        index := parent[index];
      }
      assert IsNode(parent[..], rep, rank, top, index);
      root := index;
    }

    method Union(left: nat, right: nat)
      requires Valid() && left < parent.Length && right < parent.Length
      modifies this`rep, this`rank, this`top, parent
      ensures Valid() && rep == Merged(old(rep), left, right)
    {
      var leftRoot := Find(left);
      var rightRoot := Find(right);
      ghost var merged := Merged(rep, left, right);
      if leftRoot != rightRoot {
        LinkingKeeps(parent[..], rep, rank, top, left, right);
        ghost var linked := parent[..][rightRoot := leftRoot];
        parent[rightRoot] := leftRoot;
        assert parent[..] == linked;
        rank := rank[leftRoot := rank[leftRoot] + rank[rightRoot] + 1];
        top := top + top + 1;
      } else {
        assert rep[left] == rep[right];
        assert merged == rep;
      }
      rep := merged;
    }
  }
}
