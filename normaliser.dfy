/**
  How a model's source string becomes the path handed to `load`, as the
  string-literal block of `_loadModel` describes it
  (tellurium/oven/sedml/tesedml2.py:237-276).  `prefix` is the `path`
  variable of that block: the directory relative sources are loaded from.

  `NormaliseAsWritten` follows the block's `if`/`elif` chain literally; its
  second condition is always true, so `NormaliseSource` gives the
  classification the branches evidently intend.
 */
module SourceNormaliser {
  import opened Wrappers
  import opened ModelSources

  /** What the block prints a `load` for; a BioModels id is downloaded first when its file is absent. */
  datatype LoadPlan =
    | LoadFile(path: string)
    | FetchIfAbsent(biomodelsId: string, path: string)

  /** Python's `str.startswith`. */
  predicate StartsWith(s: string, p: string)
  {
    |p| <= |s| && s[..|p|] == p
  }

  /** Python's `sub in s` on strings. */
  predicate Contains(s: string, sub: string)
  {
    StartsWith(s, sub) || (s != [] && Contains(s[1..], sub))
  }

  /** Python's truth value of a string: it is non-empty. */
  predicate Truthy(s: string)
  {
    |s| > 0
  }

  /** `s.replace("\\", "/")`: every backslash becomes a slash, every other character stays. */
  function ReplaceBackslashes(s: string): (r: string)
    ensures |r| == |s|
    ensures forall i :: 0 <= i < |s| ==> r[i] == (if s[i] == '\\' then '/' else s[i])
    ensures '\\' !in r
  {
    if s == [] then []
    else [if s[0] == '\\' then '/' else s[0]] + ReplaceBackslashes(s[1..])
  }

  /** Replacing backslashes twice is replacing them once. */
  lemma ReplaceBackslashesIdempotent(s: string)
    ensures ReplaceBackslashes(ReplaceBackslashes(s)) == ReplaceBackslashes(s)
  {
  }

  /** `sedmlDoc.getModel(id)`: the first model declared with that id, if any. */
  function GetModel(models: seq<SedModel>, id: string): (r: Option<SedModel>)
    ensures r.Some? <==> id in ModelIds(models)
    ensures r.Some? ==> exists i :: 0 <= i < |models| && models[i] == r.value && FirstWithId(models, id, i)
  {
    if models == [] then None
    else if models[0].id == id then Some(models[0])
    else
      assert forall m :: m in models[1..] ==> m in models;
      assert forall m :: m in models && m.id == id ==> m in models[1..];
      var r := GetModel(models[1..], id);
      if r.Some? then
        var i :| 0 <= i < |models[1..]| && models[1..][i] == r.value && FirstWithId(models[1..], id, i);
        assert models[i + 1] == r.value && FirstWithId(models, id, i + 1);
        r
      else r
  }

  /** models[i] declares id, and no earlier model does. */
  predicate FirstWithId(models: seq<SedModel>, id: string, i: nat)
    requires i < |models|
  {
    models[i].id == id && forall j :: 0 <= j < i ==> models[j].id != id
  }

  /**
    Lines 239-244: a source that is a model id is replaced by that model's own
    source, one level only and without normalising it again.
   */
  function Dereference(models: seq<SedModel>, s: string): (r: string)
    ensures s !in ModelIds(models) ==> r == s
    ensures s in ModelIds(models) ==>
      exists i :: 0 <= i < |models| && FirstWithId(models, s, i) && r == models[i].source
  {
    match GetModel(models, s)
    case Some(original) => original.source
    case None => s
  }

  /**
    With unique ids, dereferencing is exactly one lookup of the table the
    first loop of `_loadModel` builds: one step of the chain, never more.
   */
  lemma DereferenceIsOneStep(models: seq<SedModel>, s: string)
    requires forall i, j :: 0 <= i < j < |models| ==> models[i].id != models[j].id
    ensures Some(Dereference(models, s)) == SourceChain.Walk(SourceTable(models), Some(s), 1)
  {
    var t := SourceTable(models);
    match GetModel(models, s)
    case Some(original) =>
      var i :| 0 <= i < |models| && models[i] == original;
      SourceTableLastWins(models, i);
    case None =>
  }

  /** Lines 245-249: a leading `../` loses 3 characters, otherwise a leading `./` loses 2. */
  function StripDotPrefix(s: string): (r: string)
    ensures |r| <= |s| && r == s[|s| - |r|..]
    ensures |s| - |r| <= 3
    ensures !StartsWith(s, "../") && !StartsWith(s, "./") ==> r == s
    ensures StartsWith(s, "../") ==> r == s[3..]
    ensures !StartsWith(s, "../") && StartsWith(s, "./") ==> r == s[2..]
  {
    if StartsWith(s, "../") then s[3..]
    else if StartsWith(s, "./") then s[2..]
    else s
  }

  /** Exactly one leading `./` or `../` is removed, whatever follows it. */
  lemma StripDotPrefixOneLevel(segment: string, rest: string)
    requires segment == "./" || segment == "../"
    ensures StripDotPrefix(segment + rest) == rest
  {
    var s := segment + rest;
    assert s[..|segment|] == segment;
    if segment == "./" {
      assert s[1] == '/';
      assert !StartsWith(s, "../");
    }
    assert s[|segment|..] == rest;
  }

  /**
    `s.rsplit(c, 1)[1]`: the text after the last occurrence of c.  Python
    raises `IndexError` when c does not occur; this total extension gives all
    of s then, a case line 258 never meets, since it only sees `urn:miriam`
    strings, which contain a colon.
   */
  function AfterLast(s: string, c: char): (r: string)
    ensures |r| <= |s| && r == s[|s| - |r|..]
    ensures c !in r
    ensures |r| < |s| ==> s[|s| - |r| - 1] == c
  {
    if s == [] then []
    else if s[|s| - 1] == c then []
    else
      var r := AfterLast(s[..|s| - 1], c) + [s[|s| - 1]];
      assert s[..|s| - 1][|s| - |r|..] + [s[|s| - 1]] == s[|s| - |r|..];
      r
  }

  /** A MIRIAM URN has a colon, so the id after its last colon is a proper suffix. */
  lemma MiriamIdSplit(s: string)
    requires StartsWith(s, "urn:miriam")
    ensures var id := AfterLast(s, ':');
      && ':' !in id
      && |id| < |s|
      && s == s[..|s| - |id| - 1] + [':'] + id
  {
    ColonSuffixSplit(s, AfterLast(s, ':'));
  }

  /** The splitting argument of MiriamIdSplit, on any colon-free suffix that follows a colon. */
  lemma ColonSuffixSplit(s: string, id: string)
    requires StartsWith(s, "urn:miriam")
    requires ':' !in id && |id| <= |s| && id == s[|s| - |id|..]
    requires |id| < |s| ==> s[|s| - |id| - 1] == ':'
    ensures |id| < |s| && s == s[..|s| - |id| - 1] + [':'] + id
  {
    assert s[..10][3] == ':';
    forall i | |s| - |id| <= i < |s|
      ensures s[i] != ':'
    {
      assert s[i] == id[i - (|s| - |id|)];
    }
    var k := |s| - |id| - 1;
    assert s == s[..k] + [s[k]] + s[k + 1..];
  }

  /** The source after line 238 (backslashes) and lines 239-244 (one dereference). */
  function Prepared(models: seq<SedModel>, source: string): (r: string)
    ensures ReplaceBackslashes(source) !in ModelIds(models) ==> r == ReplaceBackslashes(source) && '\\' !in r
    ensures ReplaceBackslashes(source) in ModelIds(models) ==> exists m :: m in models && r == m.source
  {
    Dereference(models, ReplaceBackslashes(source))
  }

  /**
    Line 254's condition `"\\" or "/" or "urn:miriam" not in string`, with
    Python's `or`.  It holds of every string, because its first operand is a
    non-empty literal.
   */
  predicate OrChain(s: string)
    ensures OrChain(s)
  {
    Truthy("\\") || Truthy("/") || !Contains(s, "urn:miriam")
  }

  /** The four branches of the block, lines 245, 254, 256 and 274. */
  datatype SourceKind = DotRelative | BareName | MiriamUrn | AbsolutePath

  /**
    Which branch the block takes, with its conditions exactly as written.
    Only the first two branches are ever taken.
   */
  function ClassifyAsWritten(s: string): (k: SourceKind)
    ensures k == DotRelative || k == BareName
    ensures k == DotRelative <==> StartsWith(s, ".")
  {
    if StartsWith(s, ".") then DotRelative
    else if OrChain(s) then BareName
    else if StartsWith(s, "urn:miriam") then MiriamUrn
    else AbsolutePath
  }

  /** A plain file name: no separator and no MIRIAM scheme anywhere in it. */
  predicate IsBareName(s: string)
  {
    !Contains(s, "\\") && !Contains(s, "/") && !Contains(s, "urn:miriam")
  }

  /** Which branch the block takes with line 254 read as intended: none of `\`, `/`, `urn:miriam` occurs. */
  function Classify(s: string): (k: SourceKind)
    ensures k == DotRelative <==> StartsWith(s, ".")
    ensures k == BareName <==> !StartsWith(s, ".") && IsBareName(s)
    ensures k == MiriamUrn <==> StartsWith(s, "urn:miriam")
  {
    if StartsWith(s, ".") then
      assert s[..1][0] == '.';
      DotRelative
    else if IsBareName(s) then
      assert !StartsWith(s, "urn:miriam");
      BareName
    else if StartsWith(s, "urn:miriam") then MiriamUrn
    else AbsolutePath
  }

  /** The `load` each branch issues for the prepared source s (lines 245-276). */
  function LoadFor(prefix: string, s: string, kind: SourceKind): (r: LoadPlan)
    ensures kind == DotRelative || kind == BareName ==>
      r.LoadFile? && StartsWith(r.path, ReplaceBackslashes(prefix))
    ensures kind == DotRelative ==> r.path == ReplaceBackslashes(prefix) + StripDotPrefix(s)
    ensures kind == BareName ==> r.path == ReplaceBackslashes(prefix) + s
    ensures kind == MiriamUrn ==>
      && r.FetchIfAbsent?
      && r.biomodelsId == AfterLast(s, ':')
      && r.path == prefix + r.biomodelsId + ".xml"
    ensures kind == AbsolutePath ==>
      && r.LoadFile?
      && |r.path| == |s|
      && forall i :: 0 <= i < |s| ==> r.path[i] == (if s[i] == '\\' then '/' else s[i])
  {
    var p := ReplaceBackslashes(prefix);
    match kind
    case DotRelative =>
      assert (p + StripDotPrefix(s))[..|p|] == p;
      LoadFile(p + StripDotPrefix(s))
    case BareName =>
      assert (p + s)[..|p|] == p;
      LoadFile(p + s)
    case MiriamUrn =>
      var id := AfterLast(s, ':');
      FetchIfAbsent(id, prefix + id + ".xml")
    case AbsolutePath =>
      LoadFile(ReplaceBackslashes(s))
  }

  /** The `load` the block issues, following its branches exactly as written. */
  function NormaliseAsWritten(prefix: string, models: seq<SedModel>, source: string): (r: LoadPlan)
    ensures r.LoadFile? && StartsWith(r.path, ReplaceBackslashes(prefix))
  {
    var s := Prepared(models, source);
    LoadFor(prefix, s, ClassifyAsWritten(s))
  }

  /**
    As written, every source not starting with `.` is glued as it is onto the
    prefix, a `urn:miriam` source and an absolute path included.
   */
  lemma AsWrittenAlwaysUnderPrefix(prefix: string, models: seq<SedModel>, source: string)
    requires !StartsWith(Prepared(models, source), ".")
    ensures NormaliseAsWritten(prefix, models, source)
      == LoadFile(ReplaceBackslashes(prefix) + Prepared(models, source))
  {
  }

  /** The block with its branches classified as intended. */
  function NormaliseSource(prefix: string, models: seq<SedModel>, source: string): (r: LoadPlan)
    ensures r.FetchIfAbsent? <==> StartsWith(Prepared(models, source), "urn:miriam")
    ensures StartsWith(Prepared(models, source), ".") || IsBareName(Prepared(models, source)) ==>
      r.LoadFile? && StartsWith(r.path, ReplaceBackslashes(prefix))
  {
    var s := Prepared(models, source);
    LoadFor(prefix, s, Classify(s))
  }

  /** Where a source starts with `.` or is a bare name, the code as written already does what is intended. */
  lemma AgreeOnRelativeSources(prefix: string, models: seq<SedModel>, source: string)
    requires var s := Prepared(models, source); StartsWith(s, ".") || IsBareName(s)
    ensures NormaliseAsWritten(prefix, models, source) == NormaliseSource(prefix, models, source)
  {
  }

  /** A suffix free of c that starts right after a c (or is everything) is the suffix after any split around a c. */
  lemma SuffixAfterSplit(a: string, b: string, c: char, r: string)
    requires c !in b && c !in r
    requires |r| <= |a| + 1 + |b| && r == (a + [c] + b)[|a| + 1 + |b| - |r|..]
    requires |r| < |a| + 1 + |b| ==> (a + [c] + b)[|a| + |b| - |r|] == c
    ensures r == b
  {
    var s := a + [c] + b;
    forall i | |a| < i < |s|
      ensures s[i] != c
    {
      assert s[i] == b[i - |a| - 1];
    }
    forall i | |s| - |r| <= i < |s|
      ensures s[i] != c
    {
      assert s[i] == r[i - (|s| - |r|)];
    }
    assert s[|a|] == c;
    assert |r| == |b|;
    assert s[|s| - |b|..] == b;
  }

  /** The text after the last c is determined by any split around a c: it is what follows that c. */
  lemma AfterLastOfSplit(a: string, b: string, c: char)
    requires c !in b
    ensures AfterLast(a + [c] + b, c) == b
  {
    SuffixAfterSplit(a, b, c, AfterLast(a + [c] + b, c));
  }

  /** Without a backslash, replacing backslashes changes nothing. */
  lemma ReplaceBackslashesNoop(s: string)
    requires '\\' !in s
    ensures ReplaceBackslashes(s) == s
  {
  }

  /**
    Every source that is a MIRIAM URN is, as written, loaded as a file named
    after the whole URN under the prefix; as intended it is fetched by the id
    after its last colon.
   */
  lemma MiriamSourceMisrouted(prefix: string, models: seq<SedModel>, source: string)
    requires StartsWith(Prepared(models, source), "urn:miriam")
    ensures NormaliseAsWritten(prefix, models, source)
      == LoadFile(ReplaceBackslashes(prefix) + Prepared(models, source))
    ensures var id := AfterLast(Prepared(models, source), ':');
      NormaliseSource(prefix, models, source) == FetchIfAbsent(id, prefix + id + ".xml")
  {
    var s := Prepared(models, source);
    assert !StartsWith(s, ".") by {
      assert s[..10][0] == 'u';
    }
    assert ClassifyAsWritten(s) == BareName;
    assert Classify(s) == MiriamUrn;
  }

  /**
    Every source the intended classification treats as an absolute path is,
    as written, glued onto the prefix instead of being loaded as it stands.
   */
  lemma AbsolutePathMisrouted(prefix: string, models: seq<SedModel>, source: string)
    requires var s := Prepared(models, source);
      !StartsWith(s, ".") && !IsBareName(s) && !StartsWith(s, "urn:miriam")
    ensures NormaliseAsWritten(prefix, models, source)
      == LoadFile(ReplaceBackslashes(prefix) + Prepared(models, source))
    ensures NormaliseSource(prefix, models, source)
      == LoadFile(ReplaceBackslashes(Prepared(models, source)))
  {
  }

  /** A source `../rest` or `./rest` (after preparation) loads as the prefix followed by rest, in both readings. */
  lemma DotRelativeLoadsUnderPrefix(prefix: string, models: seq<SedModel>, source: string, segment: string, rest: string)
    requires segment == "./" || segment == "../"
    requires Prepared(models, source) == segment + rest
    ensures NormaliseSource(prefix, models, source) == LoadFile(ReplaceBackslashes(prefix) + rest)
    ensures NormaliseAsWritten(prefix, models, source) == LoadFile(ReplaceBackslashes(prefix) + rest)
  {
    var s := segment + rest;
    assert s[..1] == ".";
    StripDotPrefixOneLevel(segment, rest);
  }

  /**
    A model derived from a derived model is dereferenced once only: m3's
    source m2 becomes m2's source m1, not the file m1 names.
   */
  lemma DereferenceOneLevelOnly()
    ensures Prepared([SedModel("m1", "a.xml"), SedModel("m2", "m1"), SedModel("m3", "m2")], "m2") == "m1"
  {
    ReplaceBackslashesNoop("m2");
  }
}
