# Dialect pack tooling, modelled in Dafny

This project models the two tools that maintain the dialect packs of the
Vlaamse Codex repository:

- the **pack validator** (`tools/validate_dialect_packs.py`) checks three things:
  - each parsed pack file against the pack schema, including the rules of the
    three kinds;
  - the pack index: at least 80 entries, unique ids, ids that match their pack
    files, and a base pack `vlaams/basis` with protected terms;
  - the inheritance graph, with the depth-first walk over `visiting` and
    `resolved` sets that reports dangling parents and cycles.
- the **pack generator** (`tools/generate_dialect_packs.py`) does four things:
  - it maps pack ids to file names;
  - it builds the built-in pack list: the identity pack, the Flemish base pack,
    seventeen dialect skins, 65 placeholders, and padding up to 80 packs;
  - it refuses a list with duplicate ids;
  - it writes each pack's record when forced or when its file is missing, and
    writes the index sorted by id.

Parsed JSON is the datatype `Json.JValue`. `dict.get` is `Json.Get`, which
returns `None` for an absent key; a key that is present and holds null reads
as `JNull`. The pack directory and the index file are maps from file name to
parsed JSON. File existence is membership in that map.

The modules are:

- `Wrappers` holds the result and outcome types.
- `Json` holds parsed JSON and the type tests the tools apply.
- `Collections` and `StringOrder` hold the Python set, string order and stable
  sort.
- `InheritanceGraph` holds graph closure, cycles and parents-first orders.
- `PackSchema` is `_validate_pack_schema`.
- `PackValidator` is the validator's `main`. The nested `dfs` is the class
  `InheritanceWalk`, whose `visiting` and `resolved` sets are updated in place.
- `PackCatalogue` is `PackDef` and `_pack_defs`.
- `PackGenerator` is `_pack_filename` and the generator's `main`.
- `PackPipeline` connects the two tools. With `--force`, the generator's
  output is accepted by the validator.

## Model

| member | source | states |
|---|---|---|
| Json.StrListOrEmpty | tools/validate_dialect_packs.py:45-49 | a missing or null `inherits` reads as the empty list; a list is accepted exactly when all its items are strings, and then gives back those strings; anything else is refused |
| Json.StrArray | tools/generate_dialect_packs.py:404 | a list of strings written as JSON is a list of string items that reads back to the same strings |
| Json.ObjArray | tools/generate_dialect_packs.py:407 | a list of rule objects written as JSON is a list of objects that reads back to the same objects |
| PackSchema.StripEmptyIffAllSpace | tools/validate_dialect_packs.py:92 | `particle.strip()` is empty exactly when every character of the particle is whitespace |
| PackSchema.Strip | tools/validate_dialect_packs.py:92 | `strip()` never lengthens a string, and a non-empty result begins and ends with a non-whitespace character |
| PackSchema.StripSlice | tools/validate_dialect_packs.py:92 | `strip()` gives a slice `s[i..j]` of the string such that every character before `i` and from `j` on is whitespace; with the ends fixed by `Strip`, that is exactly the string with its leading and trailing whitespace cut |
| PackSchema.SearchTooBroad | tools/validate_dialect_packs.py:86 | the `\\.[*+]` search succeeds exactly when some position holds a backslash, then a character other than a newline, then `*` or `+` |
| PackSchema.Contains | tools/validate_dialect_packs.py:88 | `t in s` holds exactly when `t` occurs at some position of `s` |
| PackSchema.CheckReplaceWord | tools/validate_dialect_packs.py:64-70 | a `replace_word` rule passes exactly when `from` is a non-empty string, `to` is a string, and `only_in_questions`, when present, is a boolean |
| PackSchema.CheckReplaceRegex | tools/validate_dialect_packs.py:72-89 | a `replace_regex` rule passes exactly when all of these hold: the pattern is a non-empty string; `to` is a string; the flags, with missing or null read as empty, are strings from {IGNORECASE, MULTILINE}; the pattern has no too-broad window; and it contains neither `(?s` nor `(?S`. "Too broad" is reported only when the window search succeeds |
| PackSchema.CheckAppendParticle | tools/validate_dialect_packs.py:91-101 | an `append_particle` rule passes exactly when all of these hold: the particle is a string with a non-whitespace character; the probability is a number, or a boolean read as 0 or 1, within [0, 1]; and `positions` is exactly `["end_of_sentence"]` |
| PackSchema.CheckRule | tools/validate_dialect_packs.py:59-62 | a passing rule has one of the three supported types, and "unsupported type" is reported exactly when the type is none of them; the guards of each kind never report it |
| PackSchema.CheckRuleDispatch | tools/validate_dialect_packs.py:59-101 | a rule of each supported type gets exactly the outcome of that kind's guards |
| PackSchema.TooBroadGuardAsWritten | tools/validate_dialect_packs.py:86-87 | as the guard is written, a bare `.*` pattern passes and `\w+` is refused as too broad |
| PackSchema.CheckRules | tools/validate_dialect_packs.py:59-101 | the rules pass exactly when each one passes; on failure, the reported index is the first failing rule, with its own error, and every earlier rule passes |
| PackSchema.ValidatePackSchema | tools/validate_dialect_packs.py:33-109 | a pack object is accepted exactly when it is well-formed field by field. The accepted `Pack` carries the input's id, label, inherits, protected terms and rules, unchanged and in order, with id and label non-empty. A rule failure names the first failing rule, with its own error, every earlier rule passing |
| PackSchema.ValidatePackSchemaFailures | tools/validate_dialect_packs.py:33-62 | the failure reported is the first guard that fails, in the source's order: not an object, then `id`, `label`, `inherits`, `protected_terms`, `rules`; once every field is valid, a pack that is not well-formed fails with a bad rule |
| PackValidator.LoadEntry | tools/validate_dialect_packs.py:136-153 | an entry loads exactly when its label is a non-empty string, its inherits a string list, and its file a non-empty name present on disk whose content passes the schema with the entry's id; the loaded pack is the one the schema check returns |
| PackValidator.LoadEntryFailures | tools/validate_dialect_packs.py:136-152 | the failure reported is the first check that fails, in order: invalid label, invalid inherits, invalid file, file not found (naming the file), the schema's own error (naming the file), and an id mismatch naming both ids |
| PackValidator.LoadEntriesSucceedsIff | tools/validate_dialect_packs.py:125-153 | the loading loop succeeds exactly when every entry is an object with a non-empty id and loads, and no id repeats one seen before it |
| PackValidator.LoadEntriesFailure | tools/validate_dialect_packs.py:125-153 | a failed loading loop stops at the first bad entry, every earlier entry loading under a new id: "not an object" when it is not an object, "missing id" when its id is not a non-empty string, "duplicate id" exactly when an earlier entry (or a pack loaded before) has the same id, and otherwise the entry's own failure |
| PackValidator.LoadEntriesPacks | tools/validate_dialect_packs.py:153 | after a successful loop, each entry's id maps to the pack its file holds, and earlier packs are kept |
| PackValidator.LoadEntriesOrder | tools/validate_dialect_packs.py:145 | after a successful loop, the ids were added in index order |
| PackValidator.LoadEntriesKeys | tools/validate_dialect_packs.py:145-153 | after a successful loop, the packs are keyed by exactly the ids seen before plus the entries' ids |
| PackValidator.LoadedIndex | tools/validate_dialect_packs.py:125-159 | after a successful loop over the whole index, the ids are the entries' ids in index order, each keys its entry's pack, and the base pack is present with protected terms exactly when some entry loads it with protected terms |
| PackValidator.CheckIndex | tools/validate_dialect_packs.py:113-159 | the checks before the walk pass exactly when the index exists and is a list of at least 80 entries that all load, with pairwise different ids, one of which loads `vlaams/basis` with non-empty protected terms. On success the packs are keyed by exactly the entries' ids, in index order, each holding the pack its file gives |
| PackValidator.CheckIndexFailures | tools/validate_dialect_packs.py:113-159 | the failure reported is the first check that fails, in order: missing index, not a list, fewer than 80 entries (with the count), the loading loop's failure, no `vlaams/basis` entry, and a base pack with empty protected terms |
| PackValidator.InheritanceWalk.constructor | tools/validate_dialect_packs.py:162-163 | the walk starts with empty `visiting` and `resolved` sets over the given graph |
| PackValidator.InheritanceWalk.Dfs | tools/validate_dialect_packs.py:165-177 | on success `pid` is resolved, `visiting` is restored, earlier resolved packs stay resolved, and resolved packs stay parents-first. A resolved `pid` changes nothing. A failure is a parent that is not a pack, or a cycle |
| PackValidator.InheritanceWalk.ResolveAll | tools/validate_dialect_packs.py:179-180 | the walk over all ids passes exactly when every parent is a pack and the graph has no cycle; it then leaves every pack resolved and none being visited |
| PackValidator.Validate | tools/validate_dialect_packs.py:112-183 | the validator passes exactly when the pre-walk checks pass and the inheritance graph is closed and acyclic. A pre-walk failure is exactly `CheckIndex`'s failure (the first failing check, by CheckIndexFailures), and a walk failure is a dangling parent or a cycle |
| InheritanceGraph.ParentsFirstExtend | tools/validate_dialect_packs.py:177 | resolving a pack whose parents are all resolved keeps the resolved order parents-first |
| InheritanceGraph.ParentsFirstClosedAcyclic | tools/validate_dialect_packs.py:179-180 | a graph whose nodes are all listed parents-first has no dangling parent and no cycle |
| InheritanceGraph.ReturnToPathIsCycle | tools/validate_dialect_packs.py:168-170 | meeting a pack that is still being visited closes a cycle through the visiting path |
| Collections.ElemsCardinality | tools/generate_dialect_packs.py:391 | `len(set(ids)) <= len(ids)`, with equality exactly when no id repeats |
| Collections.PermutationKeepsDistinctBy | tools/generate_dialect_packs.py:421 | reordering a list keeps its keys pairwise different |
| StringOrder.LeTotal | tools/validate_dialect_packs.py:179 | any two strings are ordered one way or the other |
| StringOrder.LeAntisymmetric | tools/validate_dialect_packs.py:179 | strings ordered both ways are equal |
| StringOrder.LeTransitive | tools/validate_dialect_packs.py:179 | the string order is transitive |
| StringOrder.SortBy | tools/generate_dialect_packs.py:421 | sorting rearranges the list: every element keeps its multiplicity |
| StringOrder.SortByCorrect | tools/generate_dialect_packs.py:421 | sorting by key keeps the same elements with the same multiplicities and orders them by key |
| PackCatalogue.Decimal | tools/generate_dialect_packs.py:361 | a number in decimal is a non-empty string of digits with no leading zero; it has one digit exactly below 10 and two exactly from 10 to 99 |
| PackCatalogue.DecimalValue | tools/generate_dialect_packs.py:361 | reading a number's decimal digits back gives the number |
| PackCatalogue.Pad2 | tools/generate_dialect_packs.py:361 | `{n:02d}` is a string of digits, exactly two long below 100, and longer only without a leading zero |
| PackCatalogue.Pad2Value | tools/generate_dialect_packs.py:361 | reading `{n:02d}` back gives `n`, so distinct counters give distinct texts |
| PackCatalogue.TodoPackIdsDiffer | tools/generate_dialect_packs.py:361 | padding packs with different counters have different `vlaams/todo-NN` ids |
| PackCatalogue.PlaceholdersShape | tools/generate_dialect_packs.py:343-351 | every placeholder inherits only `vlaams/basis` and has no rules |
| PackCatalogue.Padded | tools/generate_dialect_packs.py:353-369 | padding gives exactly 80 packs to a shorter list and changes nothing for 80 or more; it keeps the given packs in front and adds only the numbered packs `vlaams/todo-01` onwards |
| PackCatalogue.PadPacks | tools/generate_dialect_packs.py:357-367 | the padding loop yields the padded list: the given packs followed by the numbered padding packs up to 80 |
| PackCatalogue.PackDefs | tools/generate_dialect_packs.py:47-369 | the placeholder loop and the padding give the built-in pack list |
| PackCatalogue.PackListLength | tools/generate_dialect_packs.py:353-357 | the built-in list has 2 + 17 + 65 = 84 packs, so no padding is added |
| PackCatalogue.PackListShape | tools/generate_dialect_packs.py:48-351 | `nl/standard` comes first with no parents and `vlaams/basis` second; after them come the seventeen skins, each inheriting only `vlaams/basis` and carrying rules, then the placeholders, each inheriting only `vlaams/basis` |
| PackCatalogue.SkinsShape | tools/generate_dialect_packs.py:95-272 | every dialect skin inherits only `vlaams/basis` and has a non-empty rule list |
| PackCatalogue.PackListParentsEarlier | tools/generate_dialect_packs.py:353 | in the built-in list, every parent a pack names is defined earlier in the list |
| PackGenerator.Mangle | tools/generate_dialect_packs.py:35 | `replace('/', '__')` leaves no `/`; for ids without `_`, the result contains `_` exactly when the id contains `/` |
| PackGenerator.MangleAppend | tools/generate_dialect_packs.py:35 | the replacement works piece by piece: mangling a concatenation concatenates the mangled parts |
| PackGenerator.MangleChar | tools/generate_dialect_packs.py:35 | on a single character, `/` becomes `__` and any other character is kept |
| PackGenerator.UnmangleMangle | tools/generate_dialect_packs.py:35 | for ids without `_`, turning each `__` back into `/` recovers the id |
| PackGenerator.PackFilename | tools/generate_dialect_packs.py:34-35 | a pack's file name is its id with every `/` replaced by `__`, followed by `.json`; so it ends in `.json` and contains no `/` |
| PackGenerator.PackFilenameInjective | tools/generate_dialect_packs.py:34-35 | ids without `_` share a file name exactly when they are equal |
| PackGenerator.PackFilenameCollision | tools/generate_dialect_packs.py:34-35 | without that restriction, `a/b` and `a__b` map to the same file |
| PackGenerator.RecordRoundTrip | tools/generate_dialect_packs.py:401-408 | the validator accepts a written record exactly when the id and label are non-empty and every rule passes. It then reads back the pack's id, label, inherits and rules, with `None` rules read as empty and the base protected terms |
| PackGenerator.PackRecord | tools/generate_dialect_packs.py:401-408 | the record has exactly the six fields; id and label are the pack's, `notes` is the pack's notes or `""` when unset, `inherits` is always a JSON list of the pack's parents in order (never null), `protected_terms` as the base terms and `rules` as the pack's rules |
| PackGenerator.WriteLoop | tools/generate_dialect_packs.py:398-410 | `wrote` counts at most one write per pack, and exactly one per pack with `--force` |
| PackGenerator.WriteLoopSize | tools/generate_dialect_packs.py:398-410 | without `--force`, the directory gains exactly one file per write |
| PackGenerator.WriteLoopCount | tools/generate_dialect_packs.py:398-410 | without `--force`, no file disappears and `wrote` equals the number of files the loop adds |
| PackGenerator.WriteFrom | tools/generate_dialect_packs.py:398-410 | after the write loop every pack's file exists, and without `--force` every file already present keeps its content |
| PackGenerator.NamesFrom | tools/generate_dialect_packs.py:399 | the file names of the remaining packs include each pack's file |
| PackGenerator.WriteLoopFiles | tools/generate_dialect_packs.py:398-410 | after the loop, the directory holds the old files plus one per pack. Files no pack names are untouched, and without `--force` no existing file changes |
| PackGenerator.WriteLoopContents | tools/generate_dialect_packs.py:400-409 | with distinct file names, each pack's file holds the pack's record when forced or new, and keeps its old content otherwise |
| PackGenerator.DuplicatedEmptyIff | tools/generate_dialect_packs.py:391-392 | the set of ids occurring more than once is empty exactly when the ids are pairwise different |
| PackGenerator.Duplicated | tools/generate_dialect_packs.py:391-392 | an id is reported exactly when it occurs at two different positions |
| PackGenerator.WritePacks | tools/generate_dialect_packs.py:389-422 | fails exactly on duplicate ids, reporting the duplicated ids. Otherwise the directory and `wrote` are those of the write loop, and the index is the entries sorted by id |
| PackGenerator.IndexOrder | tools/generate_dialect_packs.py:421 | the index holds every pack's entry exactly once and is sorted by id |
| PackGenerator.IndexIdsDistinct | tools/generate_dialect_packs.py:421 | when the pack ids differ, so do the ids of the sorted index |
| PackGenerator.Generate | tools/generate_dialect_packs.py:377-425 | the generator stops exactly when the built-in list has a duplicate id; otherwise it writes the built-in list and its sorted index |
| PackPipeline.FilenamesDiffer | tools/generate_dialect_packs.py:399 | packs with different ids without `_` get different files |
| PackPipeline.ForcedFiles | tools/generate_dialect_packs.py:398-410 | a forced run leaves each pack's record in its own file |
| PackPipeline.EntryOfLoads | tools/validate_dialect_packs.py:125-153 | the validator loads a good pack's generated index entry under the pack's id, and reads back the pack |
| PackPipeline.IndexLoadSucceeds | tools/validate_dialect_packs.py:125-153 | the validator's loading loop succeeds on the generated index of good packs with different ids |
| PackPipeline.IndexEntriesLoad | tools/validate_dialect_packs.py:125-153 | every entry of the generated index of good packs with different ids loads, and no two entries share an id |
| PackPipeline.IndexIds | tools/generate_dialect_packs.py:412-421 | the generated index names exactly the packs' ids |
| PackPipeline.IndexLoadedKeys | tools/validate_dialect_packs.py:145-153 | the validator loads the generated index under exactly the packs' ids |
| PackPipeline.IndexLoadedPacks | tools/validate_dialect_packs.py:150-153 | under each pack's id the validator stores the pack read back from its record |
| PackPipeline.IndexChecked | tools/validate_dialect_packs.py:113-159 | all pre-walk checks pass on the generated output of a publishable list, and the loaded packs are exactly the packs read back |
| PackPipeline.IndexAccepted | tools/validate_dialect_packs.py:113-159 | the pre-walk checks accept the generated index of a publishable list whose files hold their records |
| PackPipeline.LoadedGraphSound | tools/validate_dialect_packs.py:162-180 | packs whose parents come earlier in the list form a closed, acyclic inheritance graph once loaded |
| PackPipeline.RecordsGraphSound | tools/validate_dialect_packs.py:162-180 | the inheritance graph of the generated output is closed and acyclic |
| PackPipeline.RecordsAccepted | tools/validate_dialect_packs.py:112-183 | the validator accepts the generated index when each pack's file holds its record |
| PackPipeline.ForcedOutputAccepted | tools/generate_dialect_packs.py:398-422 | with `--force`, the validator accepts the generator's output for any publishable list |
| PackPipeline.ReplaceWordPasses | tools/generate_dialect_packs.py:99-103 | the generator's `replace_word` rules pass the validator when the word is not empty |
| PackPipeline.ReplaceWordInQuestionsPasses | tools/generate_dialect_packs.py:56-92 | a question-only `replace_word` rule passes when the word is not empty |
| PackPipeline.AppendParticlePasses | tools/generate_dialect_packs.py:56-92 | an `append_particle` rule passes when the particle is not blank and the probability is in [0, 1] |
| PackPipeline.ReplaceRegexPasses | tools/generate_dialect_packs.py:56-92 | a `replace_regex` rule passes when its pattern is non-empty, has no `*`, `+` or `(`, and its flags are supported |
| PackPipeline.BasisRulesPass | tools/generate_dialect_packs.py:56-92 | every rule of `vlaams/basis` passes the validator, including its `dat is` regex and its particles |
| PackPipeline.BrusselsRulesPass | tools/generate_dialect_packs.py:157-170 | the Brussels skin's rules pass, including its `allez` particle |
| PackPipeline.SkinRulesPass | tools/generate_dialect_packs.py:95-272 | every rule of every dialect skin passes the validator |
| PackPipeline.BuiltInRulesPass | tools/generate_dialect_packs.py:47-369 | every rule of every built-in pack passes the validator |
| PackPipeline.BuiltInPublishable | tools/generate_dialect_packs.py:47-369 | given that the built-in ids differ, are non-empty and have no `_`, and the labels are non-empty, the built-in list is publishable. That means at least 80 packs, all rules passing, parents defined earlier, and the base pack present |
| PackPipeline.BuiltInOutputAccepted | tools/generate_dialect_packs.py:377-425 | under the same assumptions, with `--force`, the validator accepts what the generator writes for the built-in list |

## Left out

- File-system I/O is left out: reading and writing files, `mkdir`, and path
  resolution. The pack directory and the index file are maps, and existence is
  map membership.
- JSON text is left out: `json.loads`, and `json.dumps` with its indentation
  and `ensure_ascii`. Values are parsed JSON.
- `argparse` and `print` are left out. `--force` is a boolean parameter, and
  the OK and "Wrote N" messages are not produced.
- The `re` engine is left out except for the two fixed scans the validator
  makes: the three-character window at tools/validate_dialect_packs.py:86 and
  the substring tests at line 88. Whether a pattern compiles is not checked,
  by the validator or by the model.
- PackSchema.SearchTooBroad: the "too broad" guard is modelled as written. It
  refuses a backslash, any character except a newline, then `*` or `+`, and it
  lets a bare `.*` through, although its message names `.*`.
- Floating point is left out. A probability is a `real` that is only compared
  against 0 and 1, so NaN and infinities (non-standard JSON) are not modelled.
- PackSchema.CheckRule: a `type` holding a list or an object makes Python's
  set-membership test raise `TypeError`. The model reports "unsupported type"
  instead. Both stop the validator.
- Error message texts are left out. Failures are error variants.
- The order of ids in the cycle message is left out: the source joins a `set`,
  so that order is unspecified.
- PackGenerator.WritePacks: the duplicate ids are reported as a set, not as a
  sorted list.
- PackGenerator.WritePacks: the in-place `list.sort` is a stable sort whose
  result is assigned back to the entries sequence.
- The `label` field of the generator's `PackDef` and of the validator's `Pack`
  is named `title` in the model.
- PackValidator.InheritanceWalk.Dfs: the walk recurses without a depth bound.
  The source's nested `dfs` is a recursive Python function, so a chain of
  parents deeper than the interpreter's recursion limit (1000 frames by
  default) raises `RecursionError` there; the model does not reproduce that
  crash.
- PackValidator.Validate: for the same reason, the model accepts closed,
  acyclic graphs of any depth, where the source stops with `RecursionError`
  on a parent chain of about a thousand packs or more.
- PackValidator.LoadEntries: the loading loop carries no contract of its own.
  What it computes is stated about it by LoadEntriesSucceedsIff,
  LoadEntriesPacks, LoadEntriesOrder, LoadEntriesKeys and LoadedIndex, so
  that its callers are not burdened with those facts on every use.
- PackCatalogue.PackList: the built-in list carries no contract of its own;
  PackListLength states that it is the 84 listed packs unchanged, and the
  PackList lemmas state its shape.
- PackSchema.Strip: its own contract gives the length bound and the
  non-whitespace ends; the slice it returns is stated by the lemma StripSlice.
  As ensures on Strip, the slice's quantifiers are instantiated wherever Strip
  appears, and that pushed the rule checks over the solver budget.
- PackSchema.ValidatePackSchema: which guard's failure is reported is stated
  by the lemma ValidatePackSchemaFailures, not on the function. The function
  is called for every index entry, and its contract is instantiated at each
  call; with the variants on it, CheckIndex went over the solver budget.
- PackValidator.LoadEntry: which failure is reported is stated by the lemma
  LoadEntryFailures, for the same reason.
- PackValidator.CheckIndex: which failure is reported is stated by the lemma
  CheckIndexFailures, for the same reason. The loading loop's failure is
  described entry by entry by LoadEntriesFailure.
- PackGenerator.WriteLoop: its own contract bounds `wrote` and fixes it under
  `--force`. The exact count without `--force` (one per added file) is stated
  by WriteLoopSize and WriteLoopCount. As ensures on WriteLoop, that count put
  WriteLoopFiles and WriteLoopContents over the solver budget.
- The ghost `stack` and `order` of `InheritanceWalk` carry the proof only. The
  source keeps just the two sets.
- PackPipeline.BuiltInOutputAccepted: the facts about the 84 literal ids are
  hypotheses, not proved. Those facts are that the ids are pairwise different,
  non-empty and free of `_`, and that the labels are non-empty. Proving them
  means comparing every pair of 84 string literals, which is beyond the
  solver budget. The generator itself checks distinctness before writing
  (`Generate` fails exactly when they repeat).
- PackPipeline.BuiltInPublishable: the same hypotheses as
  `BuiltInOutputAccepted`, for the same reason.
- PackGenerator.PackRecord: the validator never reads `notes`, so no round
  trip is stated for it. The record's `notes` is the pack's notes, or `""`
  when they are unset, and the notes texts themselves are data only.
