/**
  The model-reference chain behind `SEDMLCodeFactory._loadModel`
  (tellurium/oven/sedml/tesedml2.py).

  The `model_sources` dictionary maps a model id to a Python value that is a
  string (a model's `source` attribute, or what the rewrite loop stored) or
  None.  Following the chain means: while the current value is a string that
  is a key of the dictionary, look it up.  This module gives that walk a
  meaning independent of any recursive function, defines acyclicity, and
  proves the facts both `findSource` and its corrected form rely on.
 */
module SourceChain {
  import opened Wrappers

  /** The `model_sources` dictionary: model id to a string or None. */
  type Table = map<string, Option<string>>

  /** The walk takes another step from x: x is a string and a key of t (None never is). */
  predicate IsKey(t: Table, x: Option<string>)
  {
    x.Some? && x.value in t
  }

  /** The value reached from x after at most n lookups; the walk stays put once it reaches a non-key. */
  function Walk(t: Table, x: Option<string>, n: nat): Option<string>
    decreases n
  {
    if n == 0 || !IsKey(t, x) then x else Walk(t, t[x.value], n - 1)
  }

  /** The walk from x has stopped within n lookups. */
  ghost predicate Ends(t: Table, x: Option<string>, n: nat)
  {
    !IsKey(t, Walk(t, x, n))
  }

  /** No model id leads back to itself: no self-reference and no mutual reference. */
  ghost predicate Acyclic(t: Table)
  {
    forall k, n: nat :: k in t && 1 <= n ==> Walk(t, Some(k), n) != Some(k)
  }

  /** The number of lookups the walk from x makes, counting at most fuel of them. */
  ghost function Steps(t: Table, x: Option<string>, fuel: nat): nat
    decreases fuel
  {
    if fuel == 0 || !IsKey(t, x) then 0 else 1 + Steps(t, t[x.value], fuel - 1)
  }

  /** Walking i lookups and then j more is walking i + j lookups. */
  lemma {:induction false} WalkAdd(t: Table, x: Option<string>, i: nat, j: nat)
    ensures Walk(t, x, i + j) == Walk(t, Walk(t, x, i), j)
    decreases i
  {
    if i != 0 && IsKey(t, x) {
      WalkAdd(t, t[x.value], i - 1, j);
    }
  }

  /** Once the walk reaches a non-key it never moves again. */
  lemma WalkStays(t: Table, x: Option<string>, i: nat, j: nat)
    requires i <= j && !IsKey(t, Walk(t, x, i))
    ensures Walk(t, x, j) == Walk(t, x, i)
  {
    WalkAdd(t, x, i, j - i);
  }

  /** The model ids the walk from x passes through in its first m positions. */
  ghost function Visited(t: Table, x: Option<string>, m: nat): set<string>
  {
    if m == 0 then {}
    else
      var w := Walk(t, x, m - 1);
      Visited(t, x, m - 1) + (if w.Some? then {w.value} else {})
  }

  lemma {:induction false} VisitedFrom(t: Table, x: Option<string>, m: nat, y: string)
    requires y in Visited(t, x, m)
    ensures exists i :: 0 <= i < m && Walk(t, x, i) == Some(y)
  {
    var w := Walk(t, x, m - 1);
    if y in Visited(t, x, m - 1) {
      VisitedFrom(t, x, m - 1, y);
    } else {
      assert Walk(t, x, m - 1) == Some(y);
    }
  }

  /** A walk through m distinct keys visits m distinct model ids, all keys of t. */
  lemma {:induction false} VisitedDistinct(t: Table, x: Option<string>, m: nat)
    requires forall i :: 0 <= i < m ==> IsKey(t, Walk(t, x, i))
    requires forall i, j :: 0 <= i < j < m ==> Walk(t, x, i) != Walk(t, x, j)
    ensures |Visited(t, x, m)| == m
    ensures Visited(t, x, m) <= t.Keys
  {
    if m != 0 {
      VisitedDistinct(t, x, m - 1);
      var w := Walk(t, x, m - 1);
      assert IsKey(t, w);
      assert Visited(t, x, m) == Visited(t, x, m - 1) + {w.value};
      if w.value in Visited(t, x, m - 1) {
        VisitedFrom(t, x, m - 1, w.value);
      }
    }
  }

  lemma {:induction false} SubsetCard<T>(a: set<T>, b: set<T>)
    requires a <= b
    ensures |a| <= |b|
    decreases |a|
  {
    if a != {} {
      var e :| e in a;
      SubsetCard(a - {e}, b - {e});
    }
  }

  /** Pigeonhole: a walk that stays on keys for more than |t| positions repeats a key. */
  lemma Pigeonhole(t: Table, x: Option<string>)
    requires forall i :: 0 <= i <= |t| ==> IsKey(t, Walk(t, x, i))
    ensures exists i, j :: 0 <= i < j <= |t| && Walk(t, x, i) == Walk(t, x, j)
  {
    if forall i, j :: 0 <= i < j <= |t| ==> Walk(t, x, i) != Walk(t, x, j) {
      VisitedDistinct(t, x, |t| + 1);
      SubsetCard(Visited(t, x, |t| + 1), t.Keys);
      assert false;
    }
  }

  /** A walk that returns to a key it passed recurses without bound: it never reaches a non-key. */
  lemma {:induction false} CycleNeverEnds(t: Table, x: Option<string>, i: nat, j: nat, q: nat)
    requires i < j && IsKey(t, Walk(t, x, i)) && Walk(t, x, i) == Walk(t, x, j)
    ensures IsKey(t, Walk(t, x, q))
    decreases q
  {
    if q <= j {
      if !IsKey(t, Walk(t, x, q)) {
        WalkStays(t, x, q, j);
      }
    } else {
      WalkAdd(t, x, j, q - j);
      WalkAdd(t, x, i, q - j);
      CycleNeverEnds(t, x, i, j, q - (j - i));
    }
  }

  /** On an acyclic table every walk ends within as many lookups as there are entries. */
  lemma AcyclicEnds(t: Table, x: Option<string>)
    requires Acyclic(t)
    ensures Ends(t, x, |t|)
  {
    if !Ends(t, x, |t|) {
      forall i | 0 <= i <= |t|
        ensures IsKey(t, Walk(t, x, i))
      {
        if !IsKey(t, Walk(t, x, i)) {
          WalkStays(t, x, i, |t|);
        }
      }
      Pigeonhole(t, x);
      var i, j :| 0 <= i < j <= |t| && Walk(t, x, i) == Walk(t, x, j);
      var y := Walk(t, x, i).value;
      WalkAdd(t, x, i, j - i);
    }
  }

  /** Acyclicity is exactly "every walk from a model id ends within |t| lookups". */
  lemma AcyclicIffBounded(t: Table)
    ensures Acyclic(t) <==> forall k :: k in t ==> Ends(t, Some(k), |t|)
  {
    if Acyclic(t) {
      forall k | k in t
        ensures Ends(t, Some(k), |t|)
      {
        AcyclicEnds(t, Some(k));
      }
    }
    if forall k :: k in t ==> Ends(t, Some(k), |t|) {
      forall k, n: nat | k in t && 1 <= n
        ensures Walk(t, Some(k), n) != Some(k)
      {
        if Walk(t, Some(k), n) == Some(k) {
          CycleNeverEnds(t, Some(k), 0, n, |t|);
        }
      }
    }
  }

  /** A model whose source is its own id never leaves the chain. */
  lemma {:induction false} SelfReferenceLoops(t: Table, s: string, n: nat)
    requires s in t && t[s] == Some(s)
    ensures Walk(t, Some(s), n) == Some(s)
    ensures !Acyclic(t)
  {
    if n != 0 {
      SelfReferenceLoops(t, s, n - 1);
    }
    assert Walk(t, Some(s), 1) == Some(s);
  }

  /** Two models naming each other as their source form a cycle. */
  lemma MutualReferenceLoops(t: Table, a: string, b: string)
    requires a in t && b in t && t[a] == Some(b) && t[b] == Some(a)
    ensures !Acyclic(t)
  {
    assert Walk(t, Some(b), 1) == Some(a);
    assert Walk(t, Some(a), 2) == Some(a);
  }

  /** The walk from x stops after exactly Steps lookups, if it stops within the fuel. */
  lemma {:induction false} StepsStable(t: Table, x: Option<string>, n: nat, m: nat)
    requires Ends(t, x, n) && n <= m
    ensures Steps(t, x, m) == Steps(t, x, n)
    ensures !IsKey(t, Walk(t, x, Steps(t, x, n)))
    ensures forall i :: 0 <= i < Steps(t, x, n) ==> IsKey(t, Walk(t, x, i))
    decreases n
  {
    if IsKey(t, x) {
      var y := t[x.value];
      StepsStable(t, y, n - 1, m - 1);
      forall i | 0 < i < Steps(t, x, n)
        ensures IsKey(t, Walk(t, x, i))
      {
        assert Walk(t, x, i) == Walk(t, y, i - 1);
      }
    }
  }

  /** One lookup from a model id brings the acyclic walk one step closer to its end. */
  lemma StepDecreases(t: Table, s: string)
    requires Acyclic(t) && s in t
    ensures Steps(t, t[s], |t|) < Steps(t, Some(s), |t|)
  {
    AcyclicEnds(t, Some(s));
    StepsStable(t, t[s], |t| - 1, |t|);
  }

  /** Storing a non-key under a model id changes a walk at most by stopping it early at that value. */
  lemma {:induction false} UpdateWalk(t: Table, k: string, v: Option<string>, x: Option<string>, n: nat)
    requires k in t && !IsKey(t, v)
    ensures Walk(t[k := v], x, n) == Walk(t, x, n) || Walk(t[k := v], x, n) == v
    decreases n
  {
    var t' := t[k := v];
    assert t'.Keys == t.Keys;
    if n != 0 && IsKey(t, x) {
      if x.value == k {
        assert Walk(t', v, n - 1) == v;
      } else {
        UpdateWalk(t, k, v, t[x.value], n - 1);
      }
    }
  }

  /** Storing a non-key (None included) under a model id keeps the table acyclic. */
  lemma UpdateAcyclic(t: Table, k: string, v: Option<string>)
    requires Acyclic(t) && k in t && !IsKey(t, v)
    ensures Acyclic(t[k := v])
  {
    var t' := t[k := v];
    assert t'.Keys == t.Keys;
    forall j, n: nat | j in t' && 1 <= n
      ensures Walk(t', Some(j), n) != Some(j)
    {
      UpdateWalk(t, k, v, Some(j), n);
    }
  }
}
