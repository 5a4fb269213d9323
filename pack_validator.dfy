/**
 * The pack validator's driver (`main` in tools/validate_dialect_packs.py):
 * load and check every entry of the pack index, check the base pack, then
 * walk the inheritance graph depth-first to find dangling parents and cycles.
 * The index file is `index` (absent when the file does not exist) and the pack
 * directory is `disk`, a map from file name to parsed JSON.
 */
module PackValidator {
  import opened Wrappers
  import opened Json
  import opened Collections
  import opened StringOrder
  import opened InheritanceGraph
  import opened PackSchema

  /** The smallest number of index entries the validator accepts. */
  const MinIndexEntries: nat := 80

  /** The pack every dialect builds on; it must exist and protect at least one term. */
  const BasePackId: string := "vlaams/basis"

  /** The pack directory: file name to parsed file content. */
  type Disk = map<string, JValue>

  /** Each way the validator stops with an error. */
  datatype Failure =
    | MissingIndex
    | IndexNotList
    | TooFewPacks(count: nat)
    | EntryNotObject
    | EntryMissingId
    | DuplicateId(id: string)
    | EntryInvalidLabel(id: string)
    | EntryInvalidInherits(id: string)
    | EntryInvalidFile(id: string)
    | PackFileNotFound(id: string, file: string)
    | InvalidPack(file: string, error: SchemaError)
    | IdMismatch(expected: string, got: string)
    | MissingBasePack
    | EmptyBaseProtectedTerms
    | UnknownParent(child: string, parent: string)
    | InheritanceCycle(id: string)

  /** The `packs` dict after loading, and its keys in insertion (index) order. */
  datatype Loaded = Loaded(packs: map<string, Pack>, order: seq<string>)

  /** The id an index entry names, or "" when it names none. */
  function IdOf(entry: JValue): string {
    if entry.JObj? && "id" in entry.fields && entry.fields["id"].JStr? then entry.fields["id"].s else ""
  }

  /** An index entry's `label`, `inherits` and `file` are well-typed, `file` naming a file. */
  predicate EntryFieldsValid(entry: map<string, JValue>) {
    IsNonEmptyStr(Get(entry, "label")) && StrListOrEmpty(Get(entry, "inherits")).Some? && IsNonEmptyStr(Get(entry, "file"))
  }

  /**
   * The checks on one index entry that follow the id and duplicate checks:
   * label, inherits, file, the file's presence, the pack's schema, and the
   * pack's own id against the entry's.
   */
  function LoadEntry(pid: string, entry: map<string, JValue>, disk: Disk): (r: Result<Pack, Failure>)
    ensures r.Success? <==>
      && IsNonEmptyStr(Get(entry, "label"))
      && StrListOrEmpty(Get(entry, "inherits")).Some?
      && IsNonEmptyStr(Get(entry, "file"))
      && entry["file"].s in disk
      && ValidatePackSchema(disk[entry["file"].s]).Success?
      && ValidatePackSchema(disk[entry["file"].s]).value.id == pid
    ensures r.Success? ==> r.value.id == pid && ValidatePackSchema(disk[entry["file"].s]) == Success(r.value)
  {
    if !IsNonEmptyStr(Get(entry, "label")) then Failure(EntryInvalidLabel(pid))
    else if StrListOrEmpty(Get(entry, "inherits")).None? then Failure(EntryInvalidInherits(pid))
    else if !IsNonEmptyStr(Get(entry, "file")) then Failure(EntryInvalidFile(pid))
    else
      var file := entry["file"].s;
      if file !in disk then Failure(PackFileNotFound(pid, file))
      else match ValidatePackSchema(disk[file])
        case Failure(e) => Failure(InvalidPack(file, e))
        case Success(pack) =>
          if pack.id != pid then Failure(IdMismatch(pid, pack.id)) else Success(pack)
  }

  /** Which failure `LoadEntry` reports: the first of its checks that fails, in order. */
  lemma LoadEntryFailures(pid: string, entry: map<string, JValue>, disk: Disk)
    ensures !IsNonEmptyStr(Get(entry, "label")) ==> LoadEntry(pid, entry, disk) == Failure(EntryInvalidLabel(pid))
    ensures IsNonEmptyStr(Get(entry, "label")) && StrListOrEmpty(Get(entry, "inherits")).None? ==>
      LoadEntry(pid, entry, disk) == Failure(EntryInvalidInherits(pid))
    ensures (IsNonEmptyStr(Get(entry, "label")) && StrListOrEmpty(Get(entry, "inherits")).Some?
      && !IsNonEmptyStr(Get(entry, "file"))) ==> LoadEntry(pid, entry, disk) == Failure(EntryInvalidFile(pid))
    ensures EntryFieldsValid(entry) && entry["file"].s !in disk ==>
      LoadEntry(pid, entry, disk) == Failure(PackFileNotFound(pid, entry["file"].s))
    ensures EntryFieldsValid(entry) && entry["file"].s in disk && ValidatePackSchema(disk[entry["file"].s]).Failure? ==>
      LoadEntry(pid, entry, disk) == Failure(InvalidPack(entry["file"].s, ValidatePackSchema(disk[entry["file"].s]).error))
    ensures (EntryFieldsValid(entry) && entry["file"].s in disk && ValidatePackSchema(disk[entry["file"].s]).Success?
      && ValidatePackSchema(disk[entry["file"].s]).value.id != pid) ==>
      LoadEntry(pid, entry, disk) == Failure(IdMismatch(pid, ValidatePackSchema(disk[entry["file"].s]).value.id))
  {
  }

  /** The remaining checks on an entry, given its id and fields: `LoadEntry` on some set of files. */
  type Loader = (string, map<string, JValue>) -> Result<Pack, Failure>

  /** `LoadEntry` on the files of `disk`. */
  function LoadFrom(disk: Disk): Loader {
    (pid: string, entry: map<string, JValue>) => LoadEntry(pid, entry, disk)
  }

  /** One index entry is an object with an id whose remaining checks all pass. */
  predicate EntryLoads(entry: JValue, load: Loader) {
    entry.JObj? && IsNonEmptyStr(Get(entry.fields, "id")) && load(IdOf(entry), entry.fields).Success?
  }

  /** The pack loaded for an entry that loads. */
  function PackOf(entry: JValue, load: Loader): Pack
    requires EntryLoads(entry, load)
  {
    load(IdOf(entry), entry.fields).value
  }

  /** The loading loop from entry `i` on, given the packs loaded so far; `load` does each entry's remaining checks. */
  function LoadEntries(entries: seq<JValue>, load: Loader, i: nat, packs: map<string, Pack>, order: seq<string>)
    : Result<Loaded, Failure>
    requires i <= |entries|
    decreases |entries| - i
  {
    if i == |entries| then Success(Loaded(packs, order))
    else
      var entry := entries[i];
      if !entry.JObj? then Failure(EntryNotObject)
      else if !IsNonEmptyStr(Get(entry.fields, "id")) then Failure(EntryMissingId)
      else
        var pid := entry.fields["id"].s;
        if pid in packs then Failure(DuplicateId(pid))
        else match load(pid, entry.fields)
          case Failure(f) => Failure(f)
          case Success(pack) => LoadEntries(entries, load, i + 1, packs[pid := pack], order + [pid])
  }

  /** The ids of entries `i` onwards. */
  function IdsFrom(entries: seq<JValue>, i: nat): (ids: seq<string>)
    requires i <= |entries|
    ensures |ids| == |entries| - i
    ensures forall k :: 0 <= k < |ids| ==> ids[k] == IdOf(entries[i + k])
  {
    seq(|entries| - i, k requires 0 <= k < |entries| - i => IdOf(entries[i + k]))
  }

  lemma IdsFromStep(entries: seq<JValue>, i: nat)
    requires i < |entries|
    ensures IdsFrom(entries, i) == [IdOf(entries[i])] + IdsFrom(entries, i + 1)
    ensures Elems(IdsFrom(entries, i)) == {IdOf(entries[i])} + Elems(IdsFrom(entries, i + 1))
  {
    var a, b := IdsFrom(entries, i), IdsFrom(entries, i + 1);
    forall k | 0 <= k < |b| ensures a[k + 1] == b[k] { }
    assert a == [a[0]] + b;
    ElemsCons(a[0], b);
  }

  /**
   * Loading from entry `i` on succeeds exactly when every remaining entry
   * loads and their ids are new and pairwise different.
   */
  lemma {:induction false} LoadEntriesSucceedsIff(
    entries: seq<JValue>, load: Loader, i: nat, packs: map<string, Pack>, order: seq<string>)
    requires i <= |entries|
    ensures LoadEntries(entries, load, i, packs, order).Success? <==>
      && (forall k :: i <= k < |entries| ==> EntryLoads(entries[k], load) && IdOf(entries[k]) !in packs)
      && (forall k, l :: i <= k < l < |entries| ==> IdOf(entries[k]) != IdOf(entries[l]))
    decreases |entries| - i
  {
    if i < |entries| {
      var entry := entries[i];
      if EntryLoads(entry, load) && IdOf(entry) !in packs {
        var pid := IdOf(entry);
        var pack := PackOf(entry, load);
        LoadEntriesSucceedsIff(entries, load, i + 1, packs[pid := pack], order + [pid]);
      }
    }
  }

  /**
   * A failed load from entry `i` on stops at the first entry `j` that fails:
   * the entries before it load under new, pairwise different ids, and the
   * failure says what is wrong with entry `j`: it is not an object, it has
   * no id, its id is taken (by a pack loaded before or by an earlier entry),
   * or its remaining checks fail.
   */
  lemma {:induction false} LoadEntriesFailure(
    entries: seq<JValue>, load: Loader, i: nat, packs: map<string, Pack>, order: seq<string>) returns (j: nat)
    requires i <= |entries|
    requires LoadEntries(entries, load, i, packs, order).Failure?
    ensures i <= j < |entries|
    ensures forall k :: i <= k < j ==> EntryLoads(entries[k], load) && IdOf(entries[k]) !in packs
    ensures forall k, l :: i <= k < l < j ==> IdOf(entries[k]) != IdOf(entries[l])
    ensures var e, err := entries[j], LoadEntries(entries, load, i, packs, order).error;
      && (!e.JObj? ==> err == EntryNotObject)
      && (e.JObj? && !IsNonEmptyStr(Get(e.fields, "id")) ==> err == EntryMissingId)
      && (e.JObj? && IsNonEmptyStr(Get(e.fields, "id")) ==>
            if IdOf(e) in packs || exists k :: i <= k < j && IdOf(entries[k]) == IdOf(e)
            then err == DuplicateId(IdOf(e))
            else load(IdOf(e), e.fields).Failure? && err == load(IdOf(e), e.fields).error)
    decreases |entries| - i
  {
    var e := entries[i];
    if !e.JObj? || !IsNonEmptyStr(Get(e.fields, "id")) || IdOf(e) in packs || load(IdOf(e), e.fields).Failure? {
      j := i;
    } else {
      var pid := IdOf(e);
      var pack := load(pid, e.fields).value;
      var packs' := packs[pid := pack];
      assert LoadEntries(entries, load, i, packs, order) == LoadEntries(entries, load, i + 1, packs', order + [pid]);
      j := LoadEntriesFailure(entries, load, i + 1, packs', order + [pid]);
      assert EntryLoads(e, load);
      var f := entries[j];
      if f.JObj? && IsNonEmptyStr(Get(f.fields, "id")) {
        var taken := exists k :: i <= k < j && IdOf(entries[k]) == IdOf(f);
        var takenLater := exists k :: i + 1 <= k < j && IdOf(entries[k]) == IdOf(f);
        assert taken <==> IdOf(f) == pid || takenLater by {
          if IdOf(f) == pid {
            assert IdOf(entries[i]) == IdOf(f);
          }
        }
      }
    }
  }

  /**
   * A successful load from entry `i` on stores, under each remaining entry's
   * id, the pack its file holds, and keeps the packs loaded before.
   */
  lemma {:induction false} LoadEntriesPacks(
    entries: seq<JValue>, load: Loader, i: nat, packs: map<string, Pack>, order: seq<string>)
    requires i <= |entries|
    requires LoadEntries(entries, load, i, packs, order).Success?
    ensures var loaded := LoadEntries(entries, load, i, packs, order).value;
      && (forall k :: i <= k < |entries| ==>
            && EntryLoads(entries[k], load) && IdOf(entries[k]) in loaded.packs
            && loaded.packs[IdOf(entries[k])] == PackOf(entries[k], load))
      && (forall id :: id in packs ==> id in loaded.packs && loaded.packs[id] == packs[id])
    decreases |entries| - i
  {
    if i < |entries| {
      var entry := entries[i];
      assert entry.JObj? && IsNonEmptyStr(Get(entry.fields, "id"));
      var pid := entry.fields["id"].s;
      assert pid == IdOf(entry) && pid !in packs;
      var next := load(pid, entry.fields);
      assert next.Success?;
      var pack := next.value;
      assert LoadEntries(entries, load, i, packs, order)
        == LoadEntries(entries, load, i + 1, packs[pid := pack], order + [pid]);
      LoadEntriesPacks(entries, load, i + 1, packs[pid := pack], order + [pid]);
      var loaded := LoadEntries(entries, load, i, packs, order).value;
      forall k | i <= k < |entries|
        ensures EntryLoads(entries[k], load) && IdOf(entries[k]) in loaded.packs
        ensures loaded.packs[IdOf(entries[k])] == PackOf(entries[k], load)
      {
        if k == i {
          assert EntryLoads(entry, load) && PackOf(entry, load) == pack;
        }
      }
    }
  }

  /**
   * A successful load from entry `i` on appends the remaining entries' ids
   * to the order, in index order.
   */
  lemma {:induction false} LoadEntriesOrder(
    entries: seq<JValue>, load: Loader, i: nat, packs: map<string, Pack>, order: seq<string>)
    requires i <= |entries|
    requires LoadEntries(entries, load, i, packs, order).Success?
    ensures LoadEntries(entries, load, i, packs, order).value.order == order + IdsFrom(entries, i)
    decreases |entries| - i
  {
    if i < |entries| {
      var entry := entries[i];
      var pid := entry.fields["id"].s;
      var pack := load(pid, entry.fields).value;
      LoadEntriesOrder(entries, load, i + 1, packs[pid := pack], order + [pid]);
      IdsFromStep(entries, i);
      assert IdOf(entry) == pid;
    }
  }

  /** A successful load from entry `i` on adds exactly the remaining entries' ids as keys. */
  lemma {:induction false} LoadEntriesKeys(
    entries: seq<JValue>, load: Loader, i: nat, packs: map<string, Pack>, order: seq<string>)
    requires i <= |entries|
    requires LoadEntries(entries, load, i, packs, order).Success?
    ensures LoadEntries(entries, load, i, packs, order).value.packs.Keys == packs.Keys + Elems(IdsFrom(entries, i))
    decreases |entries| - i
  {
    if i < |entries| {
      var entry := entries[i];
      var pid := entry.fields["id"].s;
      var pack := load(pid, entry.fields).value;
      LoadEntriesKeys(entries, load, i + 1, packs[pid := pack], order + [pid]);
      IdsFromStep(entries, i);
      assert IdOf(entry) == pid;
    }
  }

  /** Every entry loads, and no two entries name the same id. */
  predicate EntriesLoad(entries: seq<JValue>, load: Loader) {
    && (forall k :: 0 <= k < |entries| ==> EntryLoads(entries[k], load))
    && (forall k, l :: 0 <= k < l < |entries| ==> IdOf(entries[k]) != IdOf(entries[l]))
  }

  /** Some entry loads the base pack, and that pack protects at least one term. */
  predicate HasBasePack(entries: seq<JValue>, load: Loader) {
    exists k :: 0 <= k < |entries| && EntryLoads(entries[k], load) && IdOf(entries[k]) == BasePackId
      && PackOf(entries[k], load).protectedTerms != []
  }

  /**
   * A successful loading loop over the whole index keys every entry's pack by
   * the entry's id, in index order, and has the base pack with protected terms
   * exactly when some entry loads it with protected terms.
   */
  lemma LoadedIndex(entries: seq<JValue>, load: Loader)
    requires LoadEntries(entries, load, 0, map[], []).Success?
    ensures var loaded := LoadEntries(entries, load, 0, map[], []).value;
      && loaded.order == IdsFrom(entries, 0)
      && loaded.packs.Keys == Elems(loaded.order)
      && (forall k :: 0 <= k < |entries| ==>
            EntryLoads(entries[k], load) && IdOf(entries[k]) in loaded.packs
            && loaded.packs[IdOf(entries[k])] == PackOf(entries[k], load))
      && (BasePackId in loaded.packs && loaded.packs[BasePackId].protectedTerms != [] <==> HasBasePack(entries, load))
  {
    var loaded := LoadEntries(entries, load, 0, map[], []).value;
    LoadEntriesPacks(entries, load, 0, map[], []);
    LoadEntriesOrder(entries, load, 0, map[], []);
    LoadEntriesKeys(entries, load, 0, map[], []);
    BaseAmongLoaded(entries, load, loaded);
  }

  /** Packs keyed by the entries' ids hold the base pack exactly when some entry loads it. */
  lemma BaseAmongLoaded(entries: seq<JValue>, load: Loader, loaded: Loaded)
    requires loaded.packs.Keys == Elems(IdsFrom(entries, 0))
    requires forall k :: 0 <= k < |entries| ==>
      EntryLoads(entries[k], load) && IdOf(entries[k]) in loaded.packs
      && loaded.packs[IdOf(entries[k])] == PackOf(entries[k], load)
    ensures BasePackId in loaded.packs && loaded.packs[BasePackId].protectedTerms != [] <==> HasBasePack(entries, load)
  {
    if BasePackId in loaded.packs {
      var ids := IdsFrom(entries, 0);
      assert BasePackId in ids;
      var k :| 0 <= k < |ids| && ids[k] == BasePackId;
      assert IdOf(entries[k]) == BasePackId;
    }
  }

  /** The index exists and is a list of at least 80 entries. */
  predicate LongIndex(index: Option<JValue>) {
    index.Some? && index.value.JArr? && |index.value.items| >= MinIndexEntries
  }

  /**
   * Everything the validator checks before the inheritance walk: the index
   * exists, is a list of at least 80 entries, every entry loads under its own
   * id, and the base pack is present with protected terms. The first failing
   * check is reported; on success the packs are keyed by the entries' ids, in
   * index order, each holding the pack its entry loads.
   */
  function CheckIndex(index: Option<JValue>, disk: Disk): (r: Result<Loaded, Failure>)
    ensures r.Success? <==>
      && index.Some? && index.value.JArr? && |index.value.items| >= MinIndexEntries
      && EntriesLoad(index.value.items, LoadFrom(disk))
      && HasBasePack(index.value.items, LoadFrom(disk))
    ensures r.Success? ==>
      && r.value.order == IdsFrom(index.value.items, 0)
      && r.value.packs.Keys == Elems(r.value.order)
      && (forall k :: 0 <= k < |index.value.items| ==>
            IdOf(index.value.items[k]) in r.value.packs
            && r.value.packs[IdOf(index.value.items[k])] == PackOf(index.value.items[k], LoadFrom(disk)))
      && BasePackId in r.value.packs && r.value.packs[BasePackId].protectedTerms != []
  {
    if index.None? then Failure(MissingIndex)
    else if !index.value.JArr? then Failure(IndexNotList)
    else if |index.value.items| < MinIndexEntries then Failure(TooFewPacks(|index.value.items|))
    else
      var entries := index.value.items;
      LoadEntriesSucceedsIff(entries, LoadFrom(disk), 0, map[], []);
      match LoadEntries(entries, LoadFrom(disk), 0, map[], [])
      case Failure(f) => Failure(f)
      case Success(loaded) =>
        LoadedIndex(entries, LoadFrom(disk));
        if BasePackId !in loaded.packs then Failure(MissingBasePack)
        else if loaded.packs[BasePackId].protectedTerms == [] then Failure(EmptyBaseProtectedTerms)
        else Success(loaded)
  }

  /**
   * Which failure `CheckIndex` reports: the first check that fails, in the
   * order the validator makes them; a failing entry's failure is the loading
   * loop's (see `LoadEntriesFailure`).
   */
  lemma CheckIndexFailures(index: Option<JValue>, disk: Disk)
    ensures index.None? ==> CheckIndex(index, disk) == Failure(MissingIndex)
    ensures index.Some? && !index.value.JArr? ==> CheckIndex(index, disk) == Failure(IndexNotList)
    ensures index.Some? && index.value.JArr? && |index.value.items| < MinIndexEntries ==>
      CheckIndex(index, disk) == Failure(TooFewPacks(|index.value.items|))
    ensures LongIndex(index) && !EntriesLoad(index.value.items, LoadFrom(disk)) ==>
      && LoadEntries(index.value.items, LoadFrom(disk), 0, map[], []).Failure?
      && CheckIndex(index, disk) == Failure(LoadEntries(index.value.items, LoadFrom(disk), 0, map[], []).error)
    ensures LongIndex(index) && EntriesLoad(index.value.items, LoadFrom(disk)) ==>
      && (BasePackId !in IdsFrom(index.value.items, 0) ==> CheckIndex(index, disk) == Failure(MissingBasePack))
      && (BasePackId in IdsFrom(index.value.items, 0) && !HasBasePack(index.value.items, LoadFrom(disk)) ==>
            CheckIndex(index, disk) == Failure(EmptyBaseProtectedTerms))
  {
    if LongIndex(index) {
      var entries := index.value.items;
      LoadEntriesSucceedsIff(entries, LoadFrom(disk), 0, map[], []);
      if EntriesLoad(entries, LoadFrom(disk)) {
        LoadedIndex(entries, LoadFrom(disk));
      }
    }
  }

  /** The inheritance graph of the loaded packs. */
  function InheritsGraph(packs: map<string, Pack>): (g: Graph)
    ensures g.Keys == packs.Keys
    ensures forall id :: id in g ==> g[id] == packs[id].inherits
  {
    map id | id in packs :: packs[id].inherits
  }

  /** The validator prints OK: every pre-walk check passes and the graph is closed and acyclic. */
  ghost predicate Accepts(index: Option<JValue>, disk: Disk) {
    && CheckIndex(index, disk).Success?
    && var g := InheritsGraph(CheckIndex(index, disk).value.packs);
    && Closed(g) && Acyclic(g)
  }

  /** What a failure of the walk tells about the graph. */
  ghost predicate WalkFailure(g: Graph, e: Failure) {
    match e
    case UnknownParent(child, parent) => child in g && parent in g[child] && parent !in g
    case InheritanceCycle(id) => id in g && !Acyclic(g)
    case _ => false
  }

  /**
   * The state of the nested `dfs` function: `visiting` holds the packs whose
   * parents are being walked, `resolved` the packs whose whole ancestry has
   * been walked. The ghost `stack` lists `visiting` in call order and the ghost
   * `order` lists `resolved` in the order the packs were added.
   */
  class InheritanceWalk {
    const graph: Graph
    var visiting: set<string>
    var resolved: set<string>
    ghost var stack: seq<string>
    ghost var order: seq<string>

    ghost predicate Valid()
      reads this
    {
      && (forall k :: 0 <= k < |stack| ==> stack[k] in graph)
      && IsPath(graph, stack)
      && visiting == Elems(stack)
      && resolved == Elems(order)
      && visiting !! resolved
      && ParentsFirst(graph, order)
    }

    constructor (g: Graph)
      ensures graph == g && Valid()
      ensures visiting == {} && resolved == {} && stack == [] && order == []
    {
      graph := g;
      visiting, resolved := {}, {};
      stack, order := [], [];
    }

    /**
     * `dfs(pid)`: returns at once for a resolved pack; reports a cycle when
     * `pid` is already being visited; otherwise walks the parents in declared
     * order, reporting the first parent that is not a pack, and then moves
     * `pid` from `visiting` to `resolved`, after all its parents.
     */
    method Dfs(pid: string) returns (r: Outcome<Failure>)
      requires Valid() && pid in graph
      requires stack != [] ==> pid in graph[stack[|stack| - 1]]
      modifies this
      decreases graph.Keys - visiting
      ensures r.Pass? ==> Valid() && visiting == old(visiting) && stack == old(stack)
      ensures r.Pass? ==> old(resolved) <= resolved && pid in resolved
      ensures old(pid in resolved) ==> r.Pass? && resolved == old(resolved) && order == old(order)
      ensures r.Fail? ==> WalkFailure(graph, r.error)
    {
      if pid in resolved {
        return Pass;
      }
      if pid in visiting {
        ghost var j :| 0 <= j < |stack| && stack[j] == pid;
        ReturnToPathIsCycle(graph, stack, pid, j);
        return Fail(InheritanceCycle(pid));
      }
      visiting := visiting + {pid};
      stack := stack + [pid];
      var parents := graph[pid];
      var i := 0;
      while i < |parents|
        invariant 0 <= i <= |parents|
        invariant Valid() && visiting == old(visiting) + {pid} && stack == old(stack) + [pid]
        invariant old(resolved) <= resolved
        invariant forall k :: 0 <= k < i ==> parents[k] in resolved
      {
        var parent := parents[i];
        if parent !in graph {
          return Fail(UnknownParent(pid, parent));
        }
        r := Dfs(parent);
        if r.Fail? {
          return;
        }
        i := i + 1;
      }
      assert forall q :: q in parents ==> q in order;
      ParentsFirstExtend(graph, order, pid);
      visiting := visiting - {pid};
      stack := old(stack);
      resolved := resolved + {pid};
      order := order + [pid];
      r := Pass;
    }

    /**
     * `for pid in sorted(packs): dfs(pid)`: succeeds exactly when every parent
     * is a pack and the graph has no cycle, and then every pack is resolved and
     * none is left being visited.
     */
    method ResolveAll(ids: seq<string>) returns (r: Outcome<Failure>)
      requires Valid() && stack == []
      requires Elems(ids) == graph.Keys
      modifies this
      ensures r.Pass? <==> Closed(graph) && Acyclic(graph)
      ensures r.Pass? ==> resolved == graph.Keys && visiting == {}
      ensures r.Fail? ==> WalkFailure(graph, r.error)
    {
      for i := 0 to |ids|
        invariant Valid() && stack == [] && visiting == {}
        invariant Elems(ids[..i]) <= resolved
      {
        assert ids[i] in Elems(ids);
        r := Dfs(ids[i]);
        if r.Fail? {
          return;
        }
        assert Elems(ids[..i + 1]) == Elems(ids[..i]) + {ids[i]};
      }
      assert ids[..|ids|] == ids;
      ParentsFirstClosedAcyclic(graph, order);
      r := Pass;
    }
  }

  /**
   * `main`: the loading loop fills `ids` and `packs`, the base pack is
   * checked, and the walk runs over the ids in sorted order. It passes exactly
   * when the index is accepted; a failure before the walk is the first failing
   * check, and a failure of the walk is a dangling parent or a cycle.
   */
  method Validate(index: Option<JValue>, disk: Disk) returns (r: Outcome<Failure>)
    ensures r.Pass? <==> Accepts(index, disk)
    ensures CheckIndex(index, disk).Failure? ==> r == Fail(CheckIndex(index, disk).error)
    ensures CheckIndex(index, disk).Success? && r.Fail? ==>
      WalkFailure(InheritsGraph(CheckIndex(index, disk).value.packs), r.error)
  {
    if index.None? {
      return Fail(MissingIndex);
    }
    if !index.value.JArr? {
      return Fail(IndexNotList);
    }
    var entries := index.value.items;
    if |entries| < MinIndexEntries {
      return Fail(TooFewPacks(|entries|));
    }
    var ids: set<string> := {};
    var packs: map<string, Pack> := map[];
    var order: seq<string> := [];
    for i := 0 to |entries|
      invariant ids == packs.Keys == Elems(order)
      invariant LoadEntries(entries, LoadFrom(disk), 0, map[], []) == LoadEntries(entries, LoadFrom(disk), i, packs, order)
    {
      var entry := entries[i];
      if !entry.JObj? {
        return Fail(EntryNotObject);
      }
      var pid := Get(entry.fields, "id");
      if !IsNonEmptyStr(pid) {
        return Fail(EntryMissingId);
      }
      var id := pid.value.s;
      if id in ids {
        return Fail(DuplicateId(id));
      }
      var loaded := LoadEntry(id, entry.fields, disk);
      if loaded.Failure? {
        return Fail(loaded.error);
      }
      ids := ids + {id};
      packs := packs[id := loaded.value];
      order := order + [id];
    }
    if BasePackId !in packs {
      return Fail(MissingBasePack);
    }
    if packs[BasePackId].protectedTerms == [] {
      return Fail(EmptyBaseProtectedTerms);
    }
    var identity := (s: string) => s;
    var sortedIds := SortBy(order, identity);
    SortByCorrect(order, identity);
    var walk := new InheritanceWalk(InheritsGraph(packs));
    r := walk.ResolveAll(sortedIds);
  }
}
