# Model-source resolution in tellurium's SED-ML code factory

This project models `SEDMLCodeFactory._loadModel` of tellurium's second
SED-ML translator. A SED-ML document declares models. Each model has an id
and a `source`. The source is either a file or URN, or the id of another
model it derives from. `_loadModel` does three things:

1. It builds a dictionary `model_sources` from each model's id to its source
   (later models overwrite earlier ones with the same id).
2. It defines a recursive `findSource` that follows the chain of ids.
3. It overwrites every entry with `findSource(id)`.

After that, the method holds a block inside a string literal, so the block
never runs. That block describes how a source becomes a `load` call. It
replaces backslashes and dereferences a model id one level. It then trims
`../` or `./`, and chooses between a bare file name, a MIRIAM URN that is
downloaded from BioModels, and an absolute path. The block is modelled as
the function it describes.

Files:

- `option.dfy`: module `Wrappers`, with `Option`, which stands for Python's
  `None`.
- `chain.dfy`: module `SourceChain`. A table is `map<string, Option<string>>`.
  `Walk` follows the chain of ids for a bounded number of lookups.
  `Acyclic` says no id leads back to itself. A pigeonhole proof shows that
  on an acyclic table every walk ends within `|t|` lookups, and the converse
  holds too.
- `model_sources.dfy`: module `ModelSources`. It has the table, `findSource`
  as written (`FindSource`) and as intended (`ResolveOrigin`), and
  `_loadModel` as a method in both forms (`LoadModel` and
  `LoadModelResolved`).
- `normaliser.dfy`: module `SourceNormaliser`. It has the source
  normalisation block as written (`NormaliseAsWritten`) and as intended
  (`NormaliseSource`).

The SED-ML Level 1 specification asks two things of a model that references
another model. The changes of the referenced models are applied
cumulatively, and circular references are not allowed. The code does
neither: it never accumulates the changes along a chain, and it never
reports a cycle. The model follows the code.

Two defects in the code are logged under "## Findings". Both are modelled
as written and as corrected.

## Model

| member | source | states |
|---|---|---|
| ModelSources.SourceTable | tellurium/oven/sedml/tesedml2.py:219-221 | the dictionary has exactly one key per declared model id, and every value is a string source |
| ModelSources.SourceTableLastWins | tellurium/oven/sedml/tesedml2.py:220-221 | a model's entry is its own source unless a later model in document order reuses its id (the last assignment wins) |
| ModelSources.BuildTable | tellurium/oven/sedml/tesedml2.py:219-221 | the first loop, run in document order, builds exactly that dictionary and gives every model's id an entry |
| SourceChain.AcyclicEnds | tellurium/oven/sedml/tesedml2.py:226-228 | when no id leads back to itself, the recursion of `findSource` stops within as many lookups as there are entries |
| SourceChain.AcyclicIffBounded | tellurium/oven/sedml/tesedml2.py:226-228 | the recursion stops for every id if and only if no id leads back to itself |
| SourceChain.CycleNeverEnds | tellurium/oven/sedml/tesedml2.py:226-228 | once a walk revisits an id it stays on ids forever, so the recursion never reaches its base case |
| SourceChain.SelfReferenceLoops | tellurium/oven/sedml/tesedml2.py:226-228 | a model whose source is its own id makes `findSource` call itself on the same id at every step |
| SourceChain.MutualReferenceLoops | tellurium/oven/sedml/tesedml2.py:226-228 | two models that name each other as sources form a cycle |
| SourceChain.StepDecreases | tellurium/oven/sedml/tesedml2.py:226-228 | on an acyclic table each recursive call is strictly closer to the end of the chain, so the recursion terminates |
| SourceChain.UpdateAcyclic | tellurium/oven/sedml/tesedml2.py:230-232 | storing a value that is not an id under an id keeps the table acyclic |
| ModelSources.FindSource | tellurium/oven/sedml/tesedml2.py:226-228 | as written, `findSource` returns None for every argument of an acyclic table, because its base case has no `return` |
| ModelSources.ResolveOrigin | tellurium/oven/sedml/tesedml2.py:226-228 | corrected `findSource`: the result is never a model id, so it is an origin |
| ModelSources.ResolveOriginIsFirstNonKey | tellurium/oven/sedml/tesedml2.py:226-228 | the origin is the first value on the chain that is not an id, and it is reached within `\|t\|` lookups |
| ModelSources.ResolveOriginWithinSize | tellurium/oven/sedml/tesedml2.py:226-228 | the origin equals the value reached after `\|t\|` lookups |
| ModelSources.ResolveOriginIsString | tellurium/oven/sedml/tesedml2.py:226-228 | on the table the first loop builds, every id resolves to a string, never to None |
| ModelSources.Resolved | tellurium/oven/sedml/tesedml2.py:230-232 | the fully rewritten table keeps the keys and maps each to a value that is not an id |
| ModelSources.RewriteKeepsOrigins | tellurium/oven/sedml/tesedml2.py:230-232 | overwriting one entry with its origin keeps the table acyclic and changes no id's origin |
| ModelSources.RewriteStep | tellurium/oven/sedml/tesedml2.py:230-232 | one iteration of the corrected rewrite loop keeps every origin and stores the rewritten id's origin |
| ModelSources.ResolvedIdempotent | tellurium/oven/sedml/tesedml2.py:230-232 | resolving an already resolved table changes nothing |
| ModelSources.LoadModel | tellurium/oven/sedml/tesedml2.py:217-233 | as written, the first loop builds the dictionary, and after the rewrite loop every model's entry is None |
| ModelSources.EveryIdCleared | tellurium/oven/sedml/tesedml2.py:230-232 | a loop that stored None under every model's id has cleared every entry of the table |
| ModelSources.EveryIdRewritten | tellurium/oven/sedml/tesedml2.py:230-232 | a loop that stored its origin under every model's id has produced the fully resolved table |
| ModelSources.LoadModelResolved | tellurium/oven/sedml/tesedml2.py:217-233 | with `findSource` corrected, the in-place rewrite loop in document order leaves each id mapped to its origin |
| ModelSources.DerivedModelScenario | tellurium/oven/sedml/tesedml2.py:217-233 | m2 derived from m1 (file `a.xml`): as written both entries end as None; resolved, both name `a.xml` |
| SourceNormaliser.ReplaceBackslashes | tellurium/oven/sedml/tesedml2.py:238 | every backslash becomes a slash, every other character stays, the length is kept, and no backslash is left |
| SourceNormaliser.ReplaceBackslashesIdempotent | tellurium/oven/sedml/tesedml2.py:238 | replacing backslashes twice is replacing them once |
| SourceNormaliser.ReplaceBackslashesNoop | tellurium/oven/sedml/tesedml2.py:274-275 | on a string without backslashes the replacement changes nothing, so the second replacement in the absolute-path branch has no effect unless the source was dereferenced at lines 239-242 |
| SourceNormaliser.GetModel | tellurium/oven/sedml/tesedml2.py:239-240 | a model is found if and only if some model has that id, and the found model is the first model declared with that id |
| SourceNormaliser.Dereference | tellurium/oven/sedml/tesedml2.py:239-244 | a source that is no model id stays as it is; a model id becomes the source of the first model declared with it |
| SourceNormaliser.Prepared | tellurium/oven/sedml/tesedml2.py:237-244 | a source that, once its backslashes are replaced, is no model id comes out with backslashes replaced and none left; otherwise it comes out as some declared model's raw source, not normalised again |
| SourceNormaliser.DereferenceIsOneStep | tellurium/oven/sedml/tesedml2.py:239-244 | with unique ids, dereferencing is exactly one lookup in the `_loadModel` table, one step of the chain |
| SourceNormaliser.DereferenceOneLevelOnly | tellurium/oven/sedml/tesedml2.py:239-244 | a model derived from a derived model is dereferenced once only, not to the file at the end of the chain |
| SourceNormaliser.StripDotPrefix | tellurium/oven/sedml/tesedml2.py:245-249 | the trimmed source is a suffix of the source: a leading `../` loses 3 characters, otherwise a leading `./` loses 2, and any other source, `.hidden.xml` or `..` included, is unchanged |
| SourceNormaliser.StripDotPrefixOneLevel | tellurium/oven/sedml/tesedml2.py:245-249 | a leading `../` or `./` is removed and the rest is kept exactly |
| SourceNormaliser.DotRelativeLoadsUnderPrefix | tellurium/oven/sedml/tesedml2.py:245-250 | a source `../rest` or `./rest` loads `rest` under the slash-normalised prefix, both as written and as intended |
| SourceNormaliser.OrChain | tellurium/oven/sedml/tesedml2.py:254 | the condition at line 254, with Python's `or` and string truth values, holds for every string |
| SourceNormaliser.ClassifyAsWritten | tellurium/oven/sedml/tesedml2.py:245-276 | as written, only the dot branch and the bare-name branch are ever taken, and the dot branch exactly for sources starting with `.` |
| SourceNormaliser.NormaliseAsWritten | tellurium/oven/sedml/tesedml2.py:237-276 | as written, every source is loaded as a file under the slash-normalised prefix, and nothing is ever downloaded |
| SourceNormaliser.AsWrittenAlwaysUnderPrefix | tellurium/oven/sedml/tesedml2.py:254-255 | as written, every source not starting with `.` is loaded as the slash-normalised prefix followed by the prepared source, not trimmed |
| SourceNormaliser.NormaliseSource | tellurium/oven/sedml/tesedml2.py:237-276 | as intended, a source is fetched if and only if it starts with `urn:miriam`, and a dot-relative source or bare name is loaded as a file under the slash-normalised prefix |
| SourceNormaliser.Classify | tellurium/oven/sedml/tesedml2.py:245-276 | corrected branch choice: dot branch if and only if the source starts with `.`; bare-name branch if and only if it contains no `\`, `/` or `urn:miriam`; MIRIAM branch if and only if it starts with `urn:miriam` |
| SourceNormaliser.LoadFor | tellurium/oven/sedml/tesedml2.py:245-276 | each branch's `load`: a dot-relative source trimmed and a bare name as it is, each after the slash-normalised prefix, a MIRIAM URN fetched by the id after its last colon into `prefix + id + ".xml"`, and an absolute path character for character with each backslash turned into a slash |
| SourceNormaliser.AfterLast | tellurium/oven/sedml/tesedml2.py:258-259 | `rsplit(':', 1)[1]` is a suffix with no colon, and it is preceded by a colon whenever it is not the whole string |
| SourceNormaliser.MiriamIdSplit | tellurium/oven/sedml/tesedml2.py:256-259 | a MIRIAM URN splits as `head + ":" + id`, where id has no colon |
| SourceNormaliser.ColonSuffixSplit | tellurium/oven/sedml/tesedml2.py:256-259 | any colon-free suffix that follows a colon of a MIRIAM URN is a proper suffix, and the URN splits around that colon |
| SourceNormaliser.AfterLastOfSplit | tellurium/oven/sedml/tesedml2.py:258-259 | splitting `a + c + b`, where b has no c, yields exactly b |
| SourceNormaliser.SuffixAfterSplit | tellurium/oven/sedml/tesedml2.py:258-259 | the text after the last separator is the only suffix that has no separator and starts right after one |
| SourceNormaliser.AgreeOnRelativeSources | tellurium/oven/sedml/tesedml2.py:245-255 | for sources starting with `.` or bare names, the code as written already does what is intended |
| SourceNormaliser.MiriamSourceMisrouted | tellurium/oven/sedml/tesedml2.py:254-273 | as written, a `urn:miriam` source is loaded as a file named after the whole URN under the prefix; as intended, it is fetched by the id after its last colon |
| SourceNormaliser.AbsolutePathMisrouted | tellurium/oven/sedml/tesedml2.py:254-276 | as written, an absolute path is glued onto the prefix; as intended, it is loaded as it stands |

## Left out

- Building the SED-ML document is not part of this model. That covers `_readSEDMLDocument`, archive extraction and `libsedml` parsing. Models enter as a sequence of (id, source) pairs in document order.
- The two `print(model_sources)` calls are not modelled as output. Instead, `LoadModel` returns the two printed tables (`built` and `rewritten`).
- The rest of `SEDMLCodeFactory` is not part of this model. That covers the Jinja template rendering (`toPython`), `executePython`, and the stub methods.
- The HTTP download from BioModels and the file-existence test are not modelled. The MIRIAM branch becomes the plan `FetchIfAbsent(id, path)`, because file system and network state are outside a pure model.
- The `load` calls are modelled as `LoadPlan` values rather than as printed text, and the road-runner variable name `rrName` is left out.
- ModelSources.FindSource, ModelSources.ResolveOrigin, ModelSources.LoadModel and ModelSources.LoadModelResolved require the whole table to be acyclic. That is what `_loadModel` needs, because its rewrite loop calls `findSource` on every id, and any id on a cycle makes Python recurse until it raises `RecursionError`. A single `findSource` call would only need the chain from its own argument to end; a total function cannot model the error. The lemmas SourceChain.CycleNeverEnds, SourceChain.SelfReferenceLoops, SourceChain.MutualReferenceLoops and SourceChain.AcyclicIffBounded characterise the failing inputs.
- SourceChain.AcyclicEnds and ModelSources.ResolveOrigin: they prove that the recursion ends on every acyclic table. Python's default recursion limit (about 1000 frames) makes `findSource` raise `RecursionError` on a longer acyclic chain; that limit is not modelled.
- SourceNormaliser.Dereference: `isId` is not defined anywhere in the source. It is modelled as "the string is the id of a declared model", so the `isId` test and the `getModel` test at lines 239-241 merge into one lookup.
- SourceNormaliser.GetModel: it returns the first model declared with the id. The lookup in `libsedml` is not part of this model. With duplicate ids this differs from the `_loadModel` table, where the last model declaring an id wins, so ModelSources.SourceTable and SourceNormaliser.Dereference can disagree; SourceNormaliser.DereferenceIsOneStep assumes unique ids.
- SourceNormaliser.LoadFor: the `load` call printed by the MIRIAM branch at line 273 has an extra `)` after the quoted path, so the emitted text would not parse; the `LoadPlan` value does not carry that text and hides this defect.
- SourceNormaliser.LoadFor: the block's `path` is not defined in `_loadModel`. It becomes the parameter `prefix`.
- The SED-ML Level 1 requirements the code does not implement are not modelled: changes of referenced models applied cumulatively, and circular references rejected.
- Emitting the loading code is the role of the template `toPython` renders; it is not part of this model, and the block's `print` of a `load` call is modelled as a `LoadPlan` value.

## Findings

| source | as written | input that shows it | evidently intended | confidence | as-written member | corrected member |
|---|---|---|---|---|---|---|
| tellurium/oven/sedml/tesedml2.py:226-228 | `findSource` returns `findSource(...)` only while its argument is a key, and has no `return` otherwise, so it yields None | models m1 with source `a.xml` and m2 with source `m1`: both entries become None (ModelSources.DerivedModelScenario) | return the argument once it is not a model id, the origin of the chain | not executed | ModelSources.FindSource | ModelSources.ResolveOrigin |
| tellurium/oven/sedml/tesedml2.py:254 | `"\\" or "/" or "urn:miriam" not in string` is always true, because a non-empty string literal is truthy | source `urn:miriam:biomodels.db:BIOMD0000000012` is loaded as a file under the prefix instead of being fetched; source `/home/user/model.xml` is glued onto the prefix | take the bare-name branch only when none of `\`, `/`, `urn:miriam` occurs in the source | not executed | SourceNormaliser.NormaliseAsWritten | SourceNormaliser.NormaliseSource |
