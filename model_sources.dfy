/**
  Model-source resolution in `SEDMLCodeFactory._loadModel`
  (tellurium/oven/sedml/tesedml2.py:217-233).

  The method fills `model_sources` from the document's models, then
  overwrites each entry with `findSource(id)`.  `FindSource` and `LoadModel`
  model the code as written, whose base case returns nothing; `ResolveOrigin`
  and `LoadModelResolved` model what the comment "recursive search for
  original model" describes.
 */
module ModelSources {
  import opened Wrappers
  import opened SourceChain

  /** A SED-ML Model as `_loadModel` reads it: `getId()` and `getSource()`. */
  datatype SedModel = SedModel(id: string, source: string)

  /** The ids declared by a list of models. */
  function ModelIds(models: seq<SedModel>): set<string>
  {
    set m | m in models :: m.id
  }

  /** The dictionary the first loop builds: one entry per distinct id, each a string. */
  function SourceTable(models: seq<SedModel>): (t: Table)
    ensures t.Keys == ModelIds(models)
    ensures forall k :: k in t ==> t[k].Some?
  {
    if models == [] then map[]
    else
      var init := models[..|models| - 1];
      var last := models[|models| - 1];
      assert models == init + [last];
      SourceTable(init)[last.id := Some(last.source)]
  }

  /** A model's source is what the table holds for its id unless a later model reuses that id. */
  lemma {:induction false} SourceTableLastWins(models: seq<SedModel>, i: nat)
    requires i < |models|
    requires forall j :: i < j < |models| ==> models[j].id != models[i].id
    ensures SourceTable(models)[models[i].id] == Some(models[i].source)
  {
    if i < |models| - 1 {
      var init := models[..|models| - 1];
      SourceTableLastWins(init, i);
    }
  }

  /**
    `findSource` as written: it recurses while its argument is a model id and
    has no `return` in its base case, so Python hands back None, on every
    argument of an acyclic table.
   */
  function FindSource(t: Table, mid: Option<string>): (r: Option<string>)
    requires Acyclic(t)
    ensures r == None
    decreases Steps(t, mid, |t|)
  {
    if IsKey(t, mid) then
      StepDecreases(t, mid.value);
      FindSource(t, t[mid.value])
    else
      None
  }

  /**
    `findSource` with the base case returning its argument: the first value on
    the chain that is not a model id.
   */
  function ResolveOrigin(t: Table, mid: Option<string>): (r: Option<string>)
    requires Acyclic(t)
    ensures !IsKey(t, r)
    decreases Steps(t, mid, |t|)
  {
    if IsKey(t, mid) then
      StepDecreases(t, mid.value);
      ResolveOrigin(t, t[mid.value])
    else
      mid
  }

  /**
    The origin is the first non-key on the chain: if the first n values of the
    walk are model ids and the next is not, the origin is that value, and such
    an n exists no larger than the number of entries.
   */
  lemma {:induction false} ResolveOriginIsFirstNonKey(t: Table, mid: Option<string>, n: nat)
    requires Acyclic(t)
    requires forall i :: 0 <= i < n ==> IsKey(t, Walk(t, mid, i))
    requires !IsKey(t, Walk(t, mid, n))
    ensures ResolveOrigin(t, mid) == Walk(t, mid, n)
    ensures n <= |t|
    decreases n
  {
    if n > |t| {
      AcyclicEnds(t, mid);
      assert false;
    }
    if n != 0 {
      assert Walk(t, mid, 0) == mid;
      var s := mid.value;
      forall i | 0 <= i < n - 1
        ensures IsKey(t, Walk(t, t[s], i))
      {
        assert Walk(t, mid, i + 1) == Walk(t, t[s], i);
      }
      StepDecreases(t, s);
      ResolveOriginIsFirstNonKey(t, t[s], n - 1);
    }
  }

  /** The origin of every chain is reached within |t| lookups. */
  lemma ResolveOriginWithinSize(t: Table, mid: Option<string>)
    requires Acyclic(t)
    ensures ResolveOrigin(t, mid) == Walk(t, mid, |t|)
  {
    AcyclicEnds(t, mid);
    StepsStable(t, mid, |t|, |t|);
    var n := Steps(t, mid, |t|);
    ResolveOriginIsFirstNonKey(t, mid, n);
    WalkStays(t, mid, n, |t|);
  }

  /** A table whose every entry is a string resolves every model id to a string. */
  lemma {:induction false} ResolveOriginIsString(t: Table, mid: Option<string>)
    requires Acyclic(t)
    requires mid.Some? && forall k :: k in t ==> t[k].Some?
    ensures ResolveOrigin(t, mid).Some?
    decreases Steps(t, mid, |t|)
  {
    if IsKey(t, mid) {
      StepDecreases(t, mid.value);
      ResolveOriginIsString(t, t[mid.value]);
    }
  }

  /** The table the corrected rewrite loop leaves: every id mapped to its origin. */
  function Resolved(t: Table): (r: Table)
    requires Acyclic(t)
    ensures r.Keys == t.Keys
    ensures forall k :: k in r ==> !IsKey(t, r[k])
  {
    map k | k in t :: ResolveOrigin(t, Some(k))
  }

  /**
    Overwriting one entry with its own origin changes no origin.  This is why
    the corrected loop may rewrite `model_sources` in place.
   */
  lemma {:induction false} RewriteKeepsOrigins(t: Table, k: string, x: Option<string>)
    requires Acyclic(t) && k in t
    ensures Acyclic(t[k := ResolveOrigin(t, Some(k))])
    ensures ResolveOrigin(t[k := ResolveOrigin(t, Some(k))], x) == ResolveOrigin(t, x)
    decreases Steps(t, x, |t|)
  {
    var v := ResolveOrigin(t, Some(k));
    var t' := t[k := v];
    UpdateAcyclic(t, k, v);
    assert t'.Keys == t.Keys;
    if IsKey(t, x) {
      var s := x.value;
      if s == k {
        StepDecreases(t, s);
      } else {
        StepDecreases(t, s);
        RewriteKeepsOrigins(t, k, t[s]);
      }
    }
  }

  /** Every model id has the same origin in u as in t. */
  ghost predicate SameOrigins(t: Table, u: Table)
    requires Acyclic(t) && Acyclic(u)
  {
    forall k :: k in t ==> ResolveOrigin(u, Some(k)) == ResolveOrigin(t, Some(k))
  }

  /** One step of the corrected rewrite loop keeps every origin and stores the rewritten id's own. */
  lemma RewriteStep(built: Table, sources: Table, mid: string)
    requires Acyclic(built) && Acyclic(sources) && sources.Keys == built.Keys
    requires SameOrigins(built, sources) && mid in sources
    ensures Acyclic(sources[mid := ResolveOrigin(sources, Some(mid))])
    ensures SameOrigins(built, sources[mid := ResolveOrigin(sources, Some(mid))])
    ensures ResolveOrigin(sources, Some(mid)) == ResolveOrigin(built, Some(mid))
  {
    var u := sources[mid := ResolveOrigin(sources, Some(mid))];
    RewriteKeepsOrigins(sources, mid, None);
    forall k | k in built
      ensures ResolveOrigin(u, Some(k)) == ResolveOrigin(built, Some(k))
    {
      RewriteKeepsOrigins(sources, mid, Some(k));
    }
  }

  /** Resolving an already resolved table changes nothing: resolution is idempotent. */
  lemma ResolvedIdempotent(t: Table)
    requires Acyclic(t)
    ensures Acyclic(Resolved(t))
    ensures Resolved(Resolved(t)) == Resolved(t)
  {
    var r := Resolved(t);
    forall k, n: nat | k in r && 1 <= n
      ensures Walk(r, Some(k), n) != Some(k)
    {
      assert Walk(r, Some(k), n) == Walk(r, r[k], n - 1);
    }
    forall k | k in r
      ensures ResolveOrigin(r, Some(k)) == r[k]
    {
    }
  }

  /** The first loop of `_loadModel`: one assignment per model, in document order. */
  method BuildTable(models: seq<SedModel>) returns (sources: Table)
    ensures sources == SourceTable(models)
    ensures forall j :: 0 <= j < |models| ==> models[j].id in sources
  {
    sources := map[];
    for i := 0 to |models|
      invariant sources == SourceTable(models[..i])
    {
      assert models[..i + 1][..i] == models[..i];
      sources := sources[models[i].id := Some(models[i].source)];
    }
    assert models[..|models|] == models;
  }

  /**
    `_loadModel` as written.  It returns the two tables it prints: `built`
    after the first loop and `rewritten` after the second, in which every
    model's entry has become None.
   */
  method LoadModel(models: seq<SedModel>) returns (built: Table, rewritten: Table)
    requires Acyclic(SourceTable(models))
    ensures built == SourceTable(models)
    ensures rewritten.Keys == ModelIds(models)
    ensures forall k :: k in rewritten ==> rewritten[k] == None
  {
    built := BuildTable(models);
    var sources := built;
    for i := 0 to |models|
      invariant sources.Keys == built.Keys
      invariant forall j :: 0 <= j < |models| ==> models[j].id in sources
      invariant Acyclic(sources)
      invariant forall j :: 0 <= j < i ==> sources[models[j].id] == None
    {
      var mid := models[i].id;
      var found := FindSource(sources, Some(mid));
      UpdateAcyclic(sources, mid, found);
      sources := sources[mid := found];
    }
    rewritten := sources;
    EveryIdCleared(models, built, rewritten);
  }

  /** A rewrite that stored None for every model of the list has cleared the whole table. */
  lemma EveryIdCleared(models: seq<SedModel>, built: Table, sources: Table)
    requires built == SourceTable(models) && sources.Keys == built.Keys
    requires forall j :: 0 <= j < |models| ==> models[j].id in sources && sources[models[j].id] == None
    ensures sources.Keys == ModelIds(models)
    ensures forall k :: k in sources ==> sources[k] == None
  {
    forall k | k in sources
      ensures sources[k] == None
    {
      var m :| m in models && m.id == k;
    }
  }

  /** A rewrite that reached every model of the list has resolved the whole table. */
  lemma EveryIdRewritten(models: seq<SedModel>, built: Table, sources: Table)
    requires Acyclic(built) && built.Keys == ModelIds(models) && sources.Keys == built.Keys
    requires forall j :: 0 <= j < |models| ==>
      models[j].id in sources && sources[models[j].id] == ResolveOrigin(built, Some(models[j].id))
    ensures sources == Resolved(built)
  {
    forall k | k in built
      ensures sources[k] == ResolveOrigin(built, Some(k))
    {
      var m :| m in models && m.id == k;
    }
  }

  /**
    `_loadModel` with the corrected `findSource`: the rewrite loop, run in
    document order and in place, leaves each model's origin.
   */
  method LoadModelResolved(models: seq<SedModel>) returns (built: Table, rewritten: Table)
    requires Acyclic(SourceTable(models))
    ensures built == SourceTable(models)
    ensures rewritten == Resolved(built)
  {
    built := BuildTable(models);
    var sources := built;
    for i := 0 to |models|
      invariant sources.Keys == built.Keys
      invariant forall j :: 0 <= j < |models| ==> models[j].id in sources
      invariant Acyclic(sources)
      invariant SameOrigins(built, sources)
      invariant forall j :: 0 <= j < i ==> sources[models[j].id] == ResolveOrigin(built, Some(models[j].id))
    {
      var mid := models[i].id;
      RewriteStep(built, sources, mid);
      sources := sources[mid := ResolveOrigin(sources, Some(mid))];
    }
    rewritten := sources;
    EveryIdRewritten(models, built, rewritten);
  }

  /**
    Model m2 derives from m1, whose source is a file.  As written, both
    entries end as None; resolved, both name the file.
   */
  lemma DerivedModelScenario()
    ensures var t := SourceTable([SedModel("m1", "a.xml"), SedModel("m2", "m1")]);
      && t == map["m1" := Some("a.xml"), "m2" := Some("m1")]
      && Acyclic(t)
      && FindSource(t, Some("m2")) == None
      && Resolved(t) == map["m1" := Some("a.xml"), "m2" := Some("a.xml")]
  {
    var models := [SedModel("m1", "a.xml"), SedModel("m2", "m1")];
    assert models[..1] == [SedModel("m1", "a.xml")];
    var t := SourceTable(models);
    assert t == map["m1" := Some("a.xml"), "m2" := Some("m1")];
    assert Walk(t, Some("m1"), 2) == Some("a.xml");
    assert Walk(t, Some("m2"), 2) == Some("a.xml");
    AcyclicIffBounded(t);
    assert ResolveOrigin(t, Some("m1")) == Some("a.xml");
    assert ResolveOrigin(t, Some("m2")) == Some("a.xml");
  }
}
