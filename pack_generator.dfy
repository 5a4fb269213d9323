/**
 * The pack generator (tools/generate_dialect_packs.py): file names for pack
 * ids, the JSON record written for each pack, the write loop that keeps
 * existing files unless forced, and the index sorted by id. The pack
 * directory is `Dir`, a map from file name to JSON content.
 */
module PackGenerator {
  import opened Wrappers
  import opened Json
  import opened Collections
  import opened StringOrder
  import opened PackSchema
  import opened PackCatalogue

  /** The pack directory: file name to file content. */
  type Dir = map<string, JValue>

  /** `dialect_id.replace('/', '__')`. */
  function Mangle(id: string): (m: string)
    ensures '/' !in m
    ensures '_' !in id ==> ('_' in m <==> '/' in id)
  {
    if id == [] then []
    else (if id[0] == '/' then "__" else [id[0]]) + Mangle(id[1..])
  }

  /**
   * The replacement works character by character on every id: `/` becomes
   * `__`, every other character is kept, in order.
   */
  lemma {:induction false} MangleAppend(a: string, b: string)
    ensures Mangle(a + b) == Mangle(a) + Mangle(b)
  {
    if a == [] {
      assert a + b == b;
    } else {
      assert (a + b)[1..] == a[1..] + b;
      MangleAppend(a[1..], b);
    }
  }

  /** A one-character id: `/` becomes `__`, any other character stays. */
  lemma MangleChar(c: char)
    ensures Mangle([c]) == if c == '/' then "__" else [c]
  {
    assert [c][1..] == [];
  }

  /** Turns each `__` back into `/`. */
  function Unmangle(m: string): string {
    if |m| >= 2 && m[0] == '_' && m[1] == '_' then "/" + Unmangle(m[2..])
    else if m == [] then []
    else [m[0]] + Unmangle(m[1..])
  }

  lemma {:induction false} UnmangleMangle(id: string)
    requires '_' !in id
    ensures Unmangle(Mangle(id)) == id
  {
    if id != [] {
      UnmangleMangle(id[1..]);
      if id[0] == '/' {
        assert Mangle(id) == "__" + Mangle(id[1..]);
        assert Mangle(id)[2..] == Mangle(id[1..]);
      } else {
        assert Mangle(id) == [id[0]] + Mangle(id[1..]);
        assert Mangle(id)[1..] == Mangle(id[1..]);
      }
    }
  }

  /** `_pack_filename`: the mangled id with a `.json` suffix; it contains no `/`. */
  function PackFilename(id: string): (f: string)
    ensures f == Mangle(id) + ".json"
    ensures |f| >= 5 && f[|f| - 5..] == ".json"
    ensures '/' !in f
  {
    var m := Mangle(id);
    var suffix := ".json";
    assert '/' !in suffix;
    assert (m + suffix)[|m|..] == suffix;
    m + suffix
  }

  /** Ids without `_` get the same file name only when they are equal. */
  lemma PackFilenameInjective(a: string, b: string)
    requires '_' !in a && '_' !in b
    ensures PackFilename(a) == PackFilename(b) <==> a == b
  {
    var fa, fb := PackFilename(a), PackFilename(b);
    assert Mangle(a) == fa[..|fa| - 5] && Mangle(b) == fb[..|fb| - 5];
    UnmangleMangle(a);
    UnmangleMangle(b);
  }

  /** Without that restriction two ids can share a file: `a/b` and `a__b` both map to `a____b.json`. */
  lemma PackFilenameCollision()
    ensures "a/b" != "a__b" && PackFilename("a/b") == PackFilename("a__b")
  {
    assert Mangle("a/b") == "a__b";
    assert Mangle("a__b") == "a__b";
  }

  /** `p.notes or ""`. */
  function NotesOf(p: PackDef): string {
    if p.notes.Some? then p.notes.value else ""
  }

  /** `p.rules or []`. */
  function RulesOf(p: PackDef): seq<map<string, JValue>> {
    if p.rules.Some? then p.rules.value else []
  }

  /**
   * The object written to a pack's file: the six fields the validator reads,
   * with the inherits, protected terms and rules as lists that read back to
   * the pack's own values; every pack protects the base terms.
   */
  function PackRecord(p: PackDef): (rec: map<string, JValue>)
    ensures rec.Keys == {"id", "label", "inherits", "notes", "protected_terms", "rules"}
    ensures rec["id"] == JStr(p.id) && rec["label"] == JStr(p.title)
    ensures rec["notes"] == JStr(if p.notes.Some? then p.notes.value else "")
    ensures rec["inherits"] == StrArray(p.inherits)
    ensures StrListOrEmpty(Get(rec, "inherits")) == Some(p.inherits)
    ensures rec["protected_terms"].JArr? && AllStrings(rec["protected_terms"].items)
      && Strings(rec["protected_terms"].items) == BaseProtectedTerms
    ensures rec["rules"].JArr? && AllObjects(rec["rules"].items) && Objects(rec["rules"].items) == RulesOf(p)
  {
    map[
      "id" := JStr(p.id),
      "label" := JStr(p.title),
      "inherits" := StrArray(p.inherits),
      "notes" := JStr(NotesOf(p)),
      "protected_terms" := StrArray(BaseProtectedTerms),
      "rules" := ObjArray(RulesOf(p))
    ]
  }

  /** The pack the validator should read back from a pack's record. */
  function ReadBack(p: PackDef): Pack {
    Pack(p.id, p.title, p.inherits, BaseProtectedTerms, RulesOf(p))
  }

  /**
   * The validator accepts a written record exactly when the id and label are
   * non-empty and every rule passes its checks, and then reads back the
   * pack's own fields with the base protected terms.
   */
  lemma RecordRoundTrip(p: PackDef)
    ensures ValidatePackSchema(JObj(PackRecord(p))).Success? <==>
      p.id != "" && p.title != "" && forall k :: 0 <= k < |RulesOf(p)| ==> CheckRule(RulesOf(p)[k]).Pass?
    ensures ValidatePackSchema(JObj(PackRecord(p))).Success? ==>
      ValidatePackSchema(JObj(PackRecord(p))).value == ReadBack(p)
  {
    var data := JObj(PackRecord(p));
    var rules := ObjArray(RulesOf(p)).items;
    assert forall k :: 0 <= k < |rules| ==> rules[k].fields == RulesOf(p)[k];
    var r := ValidatePackSchema(data);
    if r.Success? {
      var q := r.value;
      assert StrArray(q.protectedTerms) == StrArray(BaseProtectedTerms);
      assert q.protectedTerms == Strings(StrArray(q.protectedTerms).items);
      assert ObjArray(q.rules) == ObjArray(RulesOf(p));
      assert q.rules == Objects(ObjArray(q.rules).items);
    }
  }

  /** One entry of the index file. */
  datatype IndexEntry = IndexEntry(id: string, title: string, inherits: seq<string>, file: string)

  /** The index entry for a pack; it names the file the pack is written to. */
  function EntryOf(p: PackDef): IndexEntry {
    IndexEntry(p.id, p.title, p.inherits, PackFilename(p.id))
  }

  /** The index entries of `packs`, in list order. */
  function Entries(packs: seq<PackDef>): (es: seq<IndexEntry>)
    ensures |es| == |packs|
    ensures forall k :: 0 <= k < |packs| ==> es[k] == EntryOf(packs[k])
  {
    seq(|packs|, k requires 0 <= k < |packs| => EntryOf(packs[k]))
  }

  /** The sort key of the index: `e["id"]`. */
  function EntryKey(e: IndexEntry): string {
    e.id
  }

  /** An index entry as a JSON object. */
  function EntryJson(e: IndexEntry): JValue {
    JObj(map["id" := JStr(e.id), "label" := JStr(e.title), "inherits" := StrArray(e.inherits), "file" := JStr(e.file)])
  }

  /** The index file: a list of entry objects. */
  function IndexJson(es: seq<IndexEntry>): (v: JValue)
    ensures v.JArr? && |v.items| == |es|
    ensures forall k :: 0 <= k < |es| ==> v.items[k] == EntryJson(es[k])
  {
    JArr(seq(|es|, k requires 0 <= k < |es| => EntryJson(es[k])))
  }

  /** The file a pack is written to. */
  function FileOf(p: PackDef): string {
    PackFilename(p.id)
  }

  /** What a pack's file holds. */
  function RecordOf(p: PackDef): JValue {
    JObj(PackRecord(p))
  }

  /**
   * The write loop from item `i` on, for a given naming and content of the
   * items' files: an item's file is written when forcing or when it does not
   * exist yet, and `wrote` counts the files written.
   */
  function WriteLoop<T>(items: seq<T>, name: T -> string, content: T -> JValue, force: bool, i: nat, dir: Dir, wrote: nat)
    : (out: (Dir, nat))
    requires i <= |items|
    ensures wrote <= out.1 <= wrote + |items| - i
    ensures force ==> out.1 == wrote + |items| - i
    decreases |items| - i
  {
    if i == |items| then (dir, wrote)
    else
      var file := name(items[i]);
      if force || file !in dir then
        WriteLoop(items, name, content, force, i + 1, dir[file := content(items[i])], wrote + 1)
      else WriteLoop(items, name, content, force, i + 1, dir, wrote)
  }

  /**
   * `main`'s write loop from pack `i` on: each pack's record goes to its file.
   * Afterwards every pack has a file, and without forcing no file that
   * existed before changes.
   */
  function WriteFrom(packs: seq<PackDef>, force: bool, i: nat, dir: Dir, wrote: nat): (out: (Dir, nat))
    requires i <= |packs|
    ensures forall k :: i <= k < |packs| ==> FileOf(packs[k]) in out.0
    ensures !force ==> forall f :: f in dir ==> f in out.0 && out.0[f] == dir[f]
  {
    WriteLoopFiles(packs, FileOf, RecordOf, force, i, dir, wrote);
    WriteLoop(packs, FileOf, RecordOf, force, i, dir, wrote)
  }

  /**
   * Without forcing, the directory grows by one file for each file written:
   * a file is written only when it is missing.
   */
  lemma {:induction false} WriteLoopSize<T>(items: seq<T>, name: T -> string, content: T -> JValue, i: nat, dir: Dir, wrote: nat)
    requires i <= |items|
    ensures var out := WriteLoop(items, name, content, false, i, dir, wrote);
      |out.0| == |dir| + (out.1 - wrote)
    decreases |items| - i
  {
    if i < |items| {
      var file := name(items[i]);
      if file !in dir {
        WriteLoopSize(items, name, content, i + 1, dir[file := content(items[i])], wrote + 1);
      } else {
        WriteLoopSize(items, name, content, i + 1, dir, wrote);
      }
    }
  }

  /**
   * Without forcing, `wrote` counts exactly the files the loop adds: every
   * file there before stays, and each write adds a new one.
   */
  lemma WriteLoopCount<T>(items: seq<T>, name: T -> string, content: T -> JValue, i: nat, dir: Dir, wrote: nat)
    requires i <= |items|
    ensures var out := WriteLoop(items, name, content, false, i, dir, wrote);
      dir.Keys <= out.0.Keys && out.1 == wrote + |out.0.Keys - dir.Keys|
  {
    var out := WriteLoop(items, name, content, false, i, dir, wrote);
    WriteLoopFiles(items, name, content, false, i, dir, wrote);
    WriteLoopSize(items, name, content, i, dir, wrote);
    NewKeysCount(out.0.Keys, dir.Keys);
  }

  /** The keys one set adds to a subset of it number the difference of their sizes. */
  lemma NewKeysCount(after: set<string>, before: set<string>)
    requires before <= after
    ensures |after - before| == |after| - |before|
  {
    assert after == (after - before) + before;
  }

  /** The file names of the items from `i` on. */
  function NamesFrom<T>(items: seq<T>, name: T -> string, i: nat): (names: set<string>)
    requires i <= |items|
    ensures forall k :: i <= k < |items| ==> name(items[k]) in names
    decreases |items| - i
  {
    if i == |items| then {} else {name(items[i])} + NamesFrom(items, name, i + 1)
  }

  /** A name no item from `i` on has is not among their file names. */
  lemma {:induction false} NotNamedFrom<T>(items: seq<T>, name: T -> string, i: nat, file: string)
    requires i <= |items|
    requires forall k :: i <= k < |items| ==> name(items[k]) != file
    ensures file !in NamesFrom(items, name, i)
    decreases |items| - i
  {
    if i < |items| {
      NotNamedFrom(items, name, i + 1, file);
    }
  }

  /**
   * After the loop every item has a file, no other file appears, files no
   * item names are untouched, and without forcing no existing file changes.
   */
  lemma {:induction false} WriteLoopFiles<T>(items: seq<T>, name: T -> string, content: T -> JValue, force: bool, i: nat, dir: Dir, wrote: nat)
    requires i <= |items|
    ensures var out := WriteLoop(items, name, content, force, i, dir, wrote).0;
      && out.Keys == dir.Keys + NamesFrom(items, name, i)
      && (forall f :: f in dir && f !in NamesFrom(items, name, i) ==> out[f] == dir[f])
      && (!force ==> forall f :: f in dir ==> out[f] == dir[f])
    decreases |items| - i
  {
    if i < |items| {
      var file := name(items[i]);
      if force || file !in dir {
        WriteLoopFiles(items, name, content, force, i + 1, dir[file := content(items[i])], wrote + 1);
      } else {
        WriteLoopFiles(items, name, content, force, i + 1, dir, wrote);
      }
    }
  }

  /**
   * When the items from `i` on have different file names, each item's file
   * holds its content if it was forced or missing, and its old content otherwise.
   */
  lemma {:induction false} WriteLoopContents<T>(items: seq<T>, name: T -> string, content: T -> JValue, force: bool, i: nat, dir: Dir, wrote: nat)
    requires i <= |items|
    requires forall k, l :: i <= k < l < |items| ==> name(items[k]) != name(items[l])
    ensures var out := WriteLoop(items, name, content, force, i, dir, wrote).0;
      forall k :: i <= k < |items| ==>
        name(items[k]) in out
        && out[name(items[k])] == if force || name(items[k]) !in dir then content(items[k]) else dir[name(items[k])]
    decreases |items| - i
  {
    if i < |items| {
      var file := name(items[i]);
      NotNamedFrom(items, name, i + 1, file);
      if force || file !in dir {
        var next := dir[file := content(items[i])];
        WriteLoopContents(items, name, content, force, i + 1, next, wrote + 1);
        WriteLoopFiles(items, name, content, force, i + 1, next, wrote + 1);
      } else {
        WriteLoopContents(items, name, content, force, i + 1, dir, wrote);
        WriteLoopFiles(items, name, content, force, i + 1, dir, wrote);
      }
    }
  }

  /** The ids appearing more than once: exactly those held at two different positions. */
  function Duplicated(ids: seq<string>): (d: set<string>)
    ensures forall x :: x in d <==> exists i, j :: 0 <= i < j < |ids| && ids[i] == x && ids[j] == x
  {
    RepeatedIff(ids);
    set x | x in ids && multiset(ids)[x] > 1
  }

  /** Some id is duplicated exactly when the ids are not pairwise different. */
  lemma DuplicatedEmptyIff(ids: seq<string>)
    ensures Duplicated(ids) == {} <==> Distinct(ids)
  {
    if !Distinct(ids) {
      var i, j :| 0 <= i < j < |ids| && ids[i] == ids[j];
      RepeatedMultiplicity(ids, i, j);
      assert ids[i] in Duplicated(ids);
    }
    if Duplicated(ids) != {} {
      var x :| x in Duplicated(ids);
      MultiplicityRepeated(ids, x);
    }
  }

  /** The ids of `packs`, in list order. */
  function Ids(packs: seq<PackDef>): (ids: seq<string>)
    ensures |ids| == |packs|
    ensures forall k :: 0 <= k < |packs| ==> ids[k] == packs[k].id
  {
    seq(|packs|, k requires 0 <= k < |packs| => packs[k].id)
  }

  /** Why the generator stops before writing anything: the ids that occur more than once. */
  datatype GenerateError = DuplicateIds(dupes: set<string>)

  /** What the generator leaves behind: the pack directory, the index, and how many pack files it wrote. */
  datatype Output = Output(dir: Dir, index: JValue, wrote: nat)

  /**
   * The body of `main` after the pack list is built: stop on duplicate ids;
   * otherwise write each pack's file if forced or missing, collect one index
   * entry per pack, and sort the entries by id.
   */
  method WritePacks(packs: seq<PackDef>, force: bool, dir: Dir) returns (r: Result<Output, GenerateError>)
    ensures r.Failure? <==> !Distinct(Ids(packs))
    ensures r.Failure? ==> r.error == DuplicateIds(Duplicated(Ids(packs)))
    ensures r.Success? ==>
      && (r.value.dir, r.value.wrote) == WriteFrom(packs, force, 0, dir, 0)
      && r.value.index == IndexJson(SortBy(Entries(packs), EntryKey))
  {
    var ids := Ids(packs);
    ElemsCardinality(ids);
    if |Elems(ids)| != |ids| {
      DuplicatedEmptyIff(ids);
      return Failure(DuplicateIds(Duplicated(ids)));
    }
    var out := dir;
    var wrote := 0;
    var entries: seq<IndexEntry> := [];
    for i := 0 to |packs|
      invariant WriteLoop(packs, FileOf, RecordOf, force, 0, dir, 0) == WriteLoop(packs, FileOf, RecordOf, force, i, out, wrote)
      invariant entries == Entries(packs[..i])
    {
      var p := packs[i];
      var file := FileOf(p);
      if force || file !in out {
        out := out[file := RecordOf(p)];
        wrote := wrote + 1;
      }
      EntriesSnoc(packs, i);
      entries := entries + [EntryOf(p)];
    }
    assert packs[..|packs|] == packs;
    entries := SortBy(entries, EntryKey);
    r := Success(Output(out, IndexJson(entries), wrote));
  }

  /** Extending the packs by one extends their entries by that pack's entry. */
  lemma EntriesSnoc(packs: seq<PackDef>, i: nat)
    requires i < |packs|
    ensures Entries(packs[..i + 1]) == Entries(packs[..i]) + [EntryOf(packs[i])]
  {
    var longer, shorter := Entries(packs[..i + 1]), Entries(packs[..i]);
    forall k | 0 <= k < i + 1
      ensures longer[k] == (shorter + [EntryOf(packs[i])])[k]
    {
      assert packs[..i + 1][k] == packs[k];
    }
  }

  /** The index lists every pack's entry exactly once, sorted by id. */
  lemma IndexOrder(packs: seq<PackDef>)
    ensures var sorted := SortBy(Entries(packs), EntryKey);
      multiset(sorted) == multiset(Entries(packs)) && SortedBy(sorted, EntryKey)
  {
    SortByCorrect(Entries(packs), EntryKey);
  }

  /** When the packs' ids are pairwise different, so are the ids of the index's entries. */
  lemma IndexIdsDistinct(packs: seq<PackDef>)
    requires Distinct(Ids(packs))
    ensures DistinctBy(SortBy(Entries(packs), EntryKey), EntryKey)
  {
    var es := Entries(packs);
    forall i, j | 0 <= i < j < |es| ensures EntryKey(es[i]) != EntryKey(es[j]) {
      assert EntryKey(es[i]) == Ids(packs)[i] && EntryKey(es[j]) == Ids(packs)[j];
    }
    SortByCorrect(es, EntryKey);
    PermutationKeepsDistinctBy(es, SortBy(es, EntryKey), EntryKey);
  }

  /** `main`: build the pack list, then write the packs and the index. */
  method Generate(force: bool, dir: Dir) returns (r: Result<Output, GenerateError>)
    ensures r.Failure? <==> !Distinct(Ids(PackList()))
    ensures r.Success? ==>
      && (r.value.dir, r.value.wrote) == WriteFrom(PackList(), force, 0, dir, 0)
      && r.value.index == IndexJson(SortBy(Entries(PackList()), EntryKey))
  {
    var packs := PackDefs();
    r := WritePacks(packs, force, dir);
  }
}
