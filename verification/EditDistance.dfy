/** Edit distance, defined twice: by the usual recurrence and by single edits.

The two definitions are proved to agree, so a result stated with `Lev` speaks about
the fewest insertions, deletions and substitutions and not about one recurrence.
*/
module EditDistance {
  import opened Arithmetic

  function Last(s: string): char
    requires |s| > 0
  {
    s[|s| - 1]
  }

  function Front(s: string): string
    requires |s| > 0
  {
    s[..|s| - 1]
  }

  /** Levenshtein distance by its recurrence on last characters. */
  function Lev(p: string, s: string): nat
    decreases |p| + |s|
  {
    if |p| == 0 then |s|
    else if |s| == 0 then |p|
    else
      var kept := Lev(Front(p), Front(s)) + (if Last(p) == Last(s) then 0 else 1);
      Min(kept, Min(Lev(Front(p), s), Lev(p, Front(s))) + 1)
  }

  /** `t` is `s` with one character removed at `i`. */
  function Without(s: string, i: nat): string
    requires i < |s|
  {
    s[..i] + s[i + 1..]
  }

  ghost predicate Deletes(s: string, t: string) {
    exists i :: 0 <= i < |s| && t == Without(s, i)
  }

  ghost predicate Substitutes(s: string, t: string) {
    |s| == |t| && exists i :: 0 <= i < |s| && t == s[i := t[i]]
  }

  /** One insertion, deletion or substitution turns `s` into `t`. */
  ghost predicate OneEdit(s: string, t: string) {
    Deletes(s, t) || Deletes(t, s) || Substitutes(s, t)
  }

  /** `path` leads from its first string to its last by single edits. */
  ghost predicate IsEditPath(path: seq<string>) {
    && |path| > 0
    && forall k :: 0 <= k < |path| - 1 ==> OneEdit(path[k], path[k + 1])
  }

  // --- one edit moves the distance by at most one ---------------------------------

  lemma {:induction false} LevStep(p: string, u: string, x: char)
    ensures Lev(p, u + [x]) <= Lev(p, u) + 1
    ensures Lev(p, u) <= Lev(p, u + [x]) + 1
    ensures forall z :: Lev(p, u + [x]) <= Lev(p, u + [z]) + 1
    decreases |p|
  {
    assert forall z :: Front(u + [z]) == u;
    if |p| > 0 {
      LevStep(Front(p), u, x);
      LevFrontPattern(p, u);
      forall z
        ensures Lev(p, u + [x]) <= Lev(p, u + [z]) + 1
      {
        LevStep(Front(p), u, x);
      }
    }
  }

  lemma {:induction false} LevFrontPattern(p: string, s: string)
    requires |p| > 0
    ensures Lev(p, s) <= Lev(Front(p), s) + 1
  {
  }

  /** Replacing at most one character by at most one character inside a string
      changes its distance to any pattern by at most one. */
  lemma {:induction false} LevLipschitz(p: string, u: string, w: string, w': string, v: string)
    requires |w| <= 1 && |w'| <= 1
    ensures Lev(p, u + w + v) <= Lev(p, u + w' + v) + 1
    decreases |p| + |v|
  {
    var s, s' := u + w + v, u + w' + v;
    if |v| == 0 {
      assert s == u + w && s' == u + w';
      if |w| == 1 { assert w == [w[0]]; LevStep(p, u, w[0]); }
      if |w'| == 1 { assert w' == [w'[0]]; LevStep(p, u, w'[0]); }
      if |w| == 0 { assert s == u; }
      if |w'| == 0 { assert s' == u; }
    } else if |p| > 0 {
      assert Front(s) == u + w + Front(v) && Front(s') == u + w' + Front(v);
      assert Last(s) == Last(v) == Last(s');
      LevLipschitz(Front(p), u, w, w', Front(v));
      LevLipschitz(Front(p), u, w, w', v);
      LevLipschitz(p, u, w, w', Front(v));
      LevCell(p, s, s');
    }
  }

  /** The recurrence's step: three neighbours one apart make cells one apart. */
  lemma {:induction false} LevCell(p: string, s: string, s': string)
    requires |p| > 0 && |s| > 0 && |s'| > 0 && Last(s) == Last(s')
    requires Lev(Front(p), Front(s)) <= Lev(Front(p), Front(s')) + 1
    requires Lev(Front(p), s) <= Lev(Front(p), s') + 1
    requires Lev(p, Front(s)) <= Lev(p, Front(s')) + 1
    ensures Lev(p, s) <= Lev(p, s') + 1
  {
  }

  lemma AroundOne(s: string, i: nat)
    requires i < |s|
    ensures s == s[..i] + [s[i]] + s[i + 1..] && Without(s, i) == s[..i] + [] + s[i + 1..]
  {
  }

  lemma OneChanged(s: string, t: string, i: nat)
    requires i < |s| == |t| && t == s[i := t[i]]
    ensures t == s[..i] + [t[i]] + s[i + 1..]
  {
  }

  lemma {:induction false} LevOneEdit(p: string, s: string, t: string)
    requires OneEdit(s, t)
    ensures Lev(p, t) <= Lev(p, s) + 1
  {
    if Deletes(s, t) {
      var i :| 0 <= i < |s| && t == Without(s, i);
      AroundOne(s, i);
      LevLipschitz(p, s[..i], [], [s[i]], s[i + 1..]);
    } else if Deletes(t, s) {
      var i :| 0 <= i < |t| && s == Without(t, i);
      AroundOne(t, i);
      LevLipschitz(p, t[..i], [t[i]], [], t[i + 1..]);
    } else {
      var i :| 0 <= i < |s| && t == s[i := t[i]];
      AroundOne(s, i);
      OneChanged(s, t, i);
      LevLipschitz(p, s[..i], [t[i]], [s[i]], s[i + 1..]);
    }
  }

  lemma {:induction false} LevSelf(p: string)
    ensures Lev(p, p) == 0
  {
    if |p| > 0 {
      LevSelf(Front(p));
    }
  }

  /** No path of single edits is shorter than the recurrence says. */
  lemma {:induction false} LevIsLowerBound(path: seq<string>)
    requires IsEditPath(path)
    ensures Lev(path[0], path[|path| - 1]) <= |path| - 1
  {
    if |path| == 1 {
      LevSelf(path[0]);
    } else {
      var init := path[..|path| - 1];
      forall k | 0 <= k < |init| - 1
        ensures OneEdit(init[k], init[k + 1])
      {
        assert OneEdit(path[k], path[k + 1]);
      }
      LevIsLowerBound(init);
      var k := |path| - 2;
      assert OneEdit(path[k], path[k + 1]);
      LevOneEdit(path[0], path[k], path[k + 1]);
    }
  }

  // --- a path as short as the recurrence says ------------------------------------

  lemma {:induction false} OneEditAppend(s: string, t: string, c: char)
    requires OneEdit(s, t)
    ensures OneEdit(s + [c], t + [c])
  {
    if Deletes(s, t) {
      var i :| 0 <= i < |s| && t == Without(s, i);
      assert t + [c] == Without(s + [c], i);
    } else if Deletes(t, s) {
      var i :| 0 <= i < |t| && s == Without(t, i);
      assert s + [c] == Without(t + [c], i);
    } else {
      var i :| 0 <= i < |s| && t == s[i := t[i]];
      assert t + [c] == (s + [c])[i := (t + [c])[i]];
    }
  }

  lemma {:induction false} AppendToPath(path: seq<string>, c: char) returns (longer: seq<string>)
    requires IsEditPath(path)
    ensures IsEditPath(longer) && |longer| == |path|
    ensures longer[0] == path[0] + [c]
    ensures longer[|longer| - 1] == path[|path| - 1] + [c]
  {
    longer := seq(|path|, k requires 0 <= k < |path| => path[k] + [c]);
    forall k | 0 <= k < |longer| - 1
      ensures OneEdit(longer[k], longer[k + 1])
    {
      OneEditAppend(path[k], path[k + 1], c);
    }
  }

  lemma {:induction false} DeleteLast(s: string)
    requires |s| > 0
    ensures OneEdit(s, Front(s)) && OneEdit(Front(s), s)
  {
    assert Front(s) == Without(s, |s| - 1);
  }

  lemma {:induction false} SubstituteLast(s: string, t: string)
    requires |s| > 0 && |t| > 0
    ensures OneEdit(Front(t) + [Last(s)], t)
  {
    var r := Front(t) + [Last(s)];
    assert t == r[|r| - 1 := Last(t)];
  }

  lemma {:induction false} ExtendPath(path: seq<string>, t: string)
    requires IsEditPath(path) && OneEdit(path[|path| - 1], t)
    ensures IsEditPath(path + [t])
  {
  }

  lemma {:induction false} PrependPath(s: string, path: seq<string>)
    requires IsEditPath(path) && OneEdit(s, path[0])
    ensures IsEditPath([s] + path)
  {
    var q := [s] + path;
    forall k | 0 <= k < |q| - 1
      ensures OneEdit(q[k], q[k + 1])
    {
      if k > 0 { assert OneEdit(path[k - 1], path[k]); }
    }
  }

  /** Some path of single edits has exactly the recurrence's length. */
  lemma {:induction false} LevIsAttained(p: string, s: string) returns (path: seq<string>)
    ensures IsEditPath(path) && path[0] == p && path[|path| - 1] == s
    ensures |path| == Lev(p, s) + 1
    decreases |p| + |s|
  {
    if |p| == 0 && |s| == 0 {
      path := [p];
    } else if |p| > 0 && (|s| == 0 || Lev(p, s) == Lev(Front(p), s) + 1) {
      var rest := LevIsAttained(Front(p), s);
      DeleteLast(p);
      PrependPath(p, rest);
      path := [p] + rest;
    } else if |p| == 0 || Lev(p, s) == Lev(p, Front(s)) + 1 {
      var init := LevIsAttained(p, Front(s));
      DeleteLast(s);
      ExtendPath(init, s);
      path := init + [s];
    } else {
      var shorter := LevIsAttained(Front(p), Front(s));
      var init := AppendToPath(shorter, Last(p));
      assert p == Front(p) + [Last(p)] && s == Front(s) + [Last(s)];
      if Last(p) == Last(s) {
        path := init;
      } else {
        SubstituteLast(p, s);
        ExtendPath(init, s);
        path := init + [s];
      }
    }
  }

  /** Distance at most one means equal or one single edit apart. */
  lemma {:induction false} AtMostOneEdit(p: string, s: string)
    ensures Lev(p, s) <= 1 <==> p == s || OneEdit(p, s)
  {
    if Lev(p, s) <= 1 {
      var path := LevIsAttained(p, s);
      if |path| == 2 { assert OneEdit(path[0], path[1]); }
    }
    if p == s { LevSelf(p); }
    if OneEdit(p, s) { LevIsLowerBound([p, s]); }
  }
}
