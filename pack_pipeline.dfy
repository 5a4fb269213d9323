/**
 * The generator and the validator together: what the generator writes with
 * `--force` is accepted by the validator, whenever the pack list it starts
 * from has the properties the validator checks.
 */
module PackPipeline {
  import opened Wrappers
  import opened Json
  import opened Collections
  import opened StringOrder
  import opened InheritanceGraph
  import opened PackSchema
  import opened PackValidator
  import opened PackCatalogue
  import opened PackGenerator

  /** A pack definition the validator's per-pack checks accept once it is written. */
  predicate GoodDef(p: PackDef) {
    && p.id != "" && '_' !in p.id && p.title != ""
    && RulesPass(p)
  }

  /** Every rule of `p` passes the validator's rule checks. */
  predicate RulesPass(p: PackDef) {
    forall m :: 0 <= m < |RulesOf(p)| ==> CheckRule(RulesOf(p)[m]).Pass?
  }

  /**
   * A pack list whose generated output the validator accepts: enough packs,
   * no duplicate ids, every definition good, every parent defined earlier in
   * the list, and the base pack present.
   */
  predicate Publishable(packs: seq<PackDef>) {
    && |packs| >= MinIndexEntries
    && Distinct(Ids(packs))
    && (forall k :: 0 <= k < |packs| ==> GoodDef(packs[k]))
    && (forall k, q :: 0 <= k < |packs| && q in packs[k].inherits ==> exists j :: 0 <= j < k && packs[j].id == q)
    && (exists k :: 0 <= k < |packs| && packs[k].id == BasePackId)
  }

  /** With different ids and no `_` in them, the packs' file names differ. */
  lemma FilenamesDiffer(packs: seq<PackDef>)
    requires Distinct(Ids(packs))
    requires forall k :: 0 <= k < |packs| ==> '_' !in packs[k].id
    ensures forall k, l :: 0 <= k < l < |packs| ==> FileOf(packs[k]) != FileOf(packs[l])
  {
    forall k, l | 0 <= k < l < |packs| ensures FileOf(packs[k]) != FileOf(packs[l]) {
      PackFilenameInjective(packs[k].id, packs[l].id);
      assert Ids(packs)[k] != Ids(packs)[l];
    }
  }

  /** Each pack's file holds the pack's record. */
  predicate HoldsRecords(packs: seq<PackDef>, disk: Disk) {
    forall k :: 0 <= k < |packs| ==>
      PackFilename(packs[k].id) in disk && disk[PackFilename(packs[k].id)] == JObj(PackRecord(packs[k]))
  }

  /** A forced run leaves every pack's record in its own file. */
  lemma ForcedFiles(packs: seq<PackDef>, dir: Dir)
    requires Distinct(Ids(packs))
    requires forall k :: 0 <= k < |packs| ==> '_' !in packs[k].id
    ensures HoldsRecords(packs, WriteFrom(packs, true, 0, dir, 0).0)
  {
    FilenamesDiffer(packs);
    WriteLoopContents(packs, FileOf, RecordOf, true, 0, dir, 0);
  }

  /** The index entry of a good pack whose file holds its record loads, and yields the pack read back. */
  lemma EntryOfLoads(p: PackDef, disk: Disk)
    requires GoodDef(p)
    requires PackFilename(p.id) in disk && disk[PackFilename(p.id)] == JObj(PackRecord(p))
    ensures EntryLoads(EntryJson(EntryOf(p)), LoadFrom(disk))
    ensures IdOf(EntryJson(EntryOf(p))) == p.id
    ensures PackOf(EntryJson(EntryOf(p)), LoadFrom(disk)) == ReadBack(p)
  {
    RecordRoundTrip(p);
    var fields := EntryJson(EntryOf(p)).fields;
    assert Get(fields, "file") == Some(JStr(PackFilename(p.id)));
    assert StrListOrEmpty(Get(fields, "inherits")).Some?;
  }

  /** Each entry of the sorted index is the entry of some pack. */
  lemma SortedEntryOrigin(packs: seq<PackDef>, k: nat) returns (m: nat)
    requires k < |packs|
    ensures |SortBy(Entries(packs), EntryKey)| == |packs|
    ensures m < |packs| && SortBy(Entries(packs), EntryKey)[k] == EntryOf(packs[m])
  {
    var es := Entries(packs);
    SortByCorrect(es, EntryKey);
    assert SortBy(es, EntryKey)[k] in es;
    m :| 0 <= m < |es| && es[m] == SortBy(es, EntryKey)[k];
  }

  /** Each pack's entry appears in the sorted index. */
  lemma SortedEntryPosition(packs: seq<PackDef>, m: nat) returns (k: nat)
    requires m < |packs|
    ensures |SortBy(Entries(packs), EntryKey)| == |packs|
    ensures k < |packs| && SortBy(Entries(packs), EntryKey)[k] == EntryOf(packs[m])
  {
    var es := Entries(packs);
    SortByCorrect(es, EntryKey);
    assert es[m] in SortBy(es, EntryKey);
    k :| 0 <= k < |es| && SortBy(es, EntryKey)[k] == es[m];
  }

  /** Each item of the index loads, under the id of its entry. */
  lemma IndexItemsLoad(packs: seq<PackDef>, disk: Disk)
    requires forall k :: 0 <= k < |packs| ==> GoodDef(packs[k])
    requires HoldsRecords(packs, disk)
    ensures var sorted := SortBy(Entries(packs), EntryKey);
      var items := IndexJson(sorted).items;
      forall k :: 0 <= k < |items| ==> EntryLoads(items[k], LoadFrom(disk)) && IdOf(items[k]) == sorted[k].id
  {
    var sorted := SortBy(Entries(packs), EntryKey);
    var items := IndexJson(sorted).items;
    SortByCorrect(Entries(packs), EntryKey);
    forall k | 0 <= k < |items| ensures EntryLoads(items[k], LoadFrom(disk)) && IdOf(items[k]) == sorted[k].id {
      var m := SortedEntryOrigin(packs, k);
      EntryOfLoads(packs[m], disk);
    }
  }

  /** The loading loop succeeds on the index when the packs are good, have different ids and their files hold their records. */
  lemma IndexLoadSucceeds(packs: seq<PackDef>, disk: Disk)
    requires Distinct(Ids(packs)) && forall k :: 0 <= k < |packs| ==> GoodDef(packs[k])
    requires HoldsRecords(packs, disk)
    ensures LoadEntries(IndexJson(SortBy(Entries(packs), EntryKey)).items, LoadFrom(disk), 0, map[], []).Success?
  {
    var items := IndexJson(SortBy(Entries(packs), EntryKey)).items;
    IndexEntriesLoad(packs, disk);
    LoadEntriesSucceedsIff(items, LoadFrom(disk), 0, map[], []);
  }

  /** Every entry of the index loads, and no two of them name the same id. */
  lemma IndexEntriesLoad(packs: seq<PackDef>, disk: Disk)
    requires Distinct(Ids(packs)) && forall k :: 0 <= k < |packs| ==> GoodDef(packs[k])
    requires HoldsRecords(packs, disk)
    ensures EntriesLoad(IndexJson(SortBy(Entries(packs), EntryKey)).items, LoadFrom(disk))
  {
    IndexItemsLoad(packs, disk);
    IndexIdsDifferent(packs);
  }

  /** When the packs' ids are pairwise different, no two entries of the index name the same id. */
  lemma IndexIdsDifferent(packs: seq<PackDef>)
    requires Distinct(Ids(packs))
    ensures var items := IndexJson(SortBy(Entries(packs), EntryKey)).items;
      forall k, l :: 0 <= k < l < |items| ==> IdOf(items[k]) != IdOf(items[l])
  {
    var sorted := SortBy(Entries(packs), EntryKey);
    var items := IndexJson(sorted).items;
    IndexIdsDistinct(packs);
    forall k, l | 0 <= k < l < |items|
      ensures IdOf(items[k]) != IdOf(items[l])
    {
      assert EntryKey(sorted[k]) != EntryKey(sorted[l]);
      EntryJsonId(sorted[k]);
      EntryJsonId(sorted[l]);
    }
  }

  /** The id the validator reads from an entry object is the entry's id. */
  lemma EntryJsonId(e: IndexEntry)
    ensures IdOf(EntryJson(e)) == EntryKey(e)
  {
    assert EntryJson(e).fields["id"] == JStr(e.id);
  }

  /** Every id the index names is a pack's id. */
  lemma IndexIdsFromPacks(packs: seq<PackDef>, k: nat)
    requires k < |packs|
    ensures |IdsFrom(IndexJson(SortBy(Entries(packs), EntryKey)).items, 0)| == |packs|
    ensures IdsFrom(IndexJson(SortBy(Entries(packs), EntryKey)).items, 0)[k] in Ids(packs)
  {
    var m := SortedEntryOrigin(packs, k);
    assert Ids(packs)[m] == packs[m].id;
  }

  /** Every pack's id is named by the index. */
  lemma PackIdsInIndex(packs: seq<PackDef>, m: nat)
    requires m < |packs|
    ensures packs[m].id in IdsFrom(IndexJson(SortBy(Entries(packs), EntryKey)).items, 0)
  {
    var k := SortedEntryPosition(packs, m);
    assert IdsFrom(IndexJson(SortBy(Entries(packs), EntryKey)).items, 0)[k] == packs[m].id;
  }

  /** The index names exactly the packs' ids. */
  lemma IndexIds(packs: seq<PackDef>)
    ensures Elems(IdsFrom(IndexJson(SortBy(Entries(packs), EntryKey)).items, 0)) == Elems(Ids(packs))
  {
    var ids := IdsFrom(IndexJson(SortBy(Entries(packs), EntryKey)).items, 0);
    SortByCorrect(Entries(packs), EntryKey);
    forall id | id in Elems(ids) ensures id in Elems(Ids(packs)) {
      var k :| 0 <= k < |ids| && ids[k] == id;
      IndexIdsFromPacks(packs, k);
    }
    forall id | id in Elems(Ids(packs)) ensures id in Elems(ids) {
      var m :| 0 <= m < |packs| && Ids(packs)[m] == id;
      PackIdsInIndex(packs, m);
    }
  }

  /** The loaded packs are keyed by exactly the packs' ids. */
  lemma IndexLoadedKeys(packs: seq<PackDef>, disk: Disk)
    requires Distinct(Ids(packs)) && forall k :: 0 <= k < |packs| ==> GoodDef(packs[k])
    requires HoldsRecords(packs, disk)
    ensures var items := IndexJson(SortBy(Entries(packs), EntryKey)).items;
      && LoadEntries(items, LoadFrom(disk), 0, map[], []).Success?
      && LoadEntries(items, LoadFrom(disk), 0, map[], []).value.packs.Keys == Elems(Ids(packs))
  {
    var items := IndexJson(SortBy(Entries(packs), EntryKey)).items;
    IndexLoadSucceeds(packs, disk);
    LoadEntriesKeys(items, LoadFrom(disk), 0, map[], []);
    IndexIds(packs);
  }

  /** Under each pack's id the loop stores the pack read back from its record. */
  lemma IndexLoadedPacks(packs: seq<PackDef>, disk: Disk)
    requires Distinct(Ids(packs)) && forall k :: 0 <= k < |packs| ==> GoodDef(packs[k])
    requires HoldsRecords(packs, disk)
    ensures var items := IndexJson(SortBy(Entries(packs), EntryKey)).items;
      && LoadEntries(items, LoadFrom(disk), 0, map[], []).Success?
      && var loaded := LoadEntries(items, LoadFrom(disk), 0, map[], []).value;
      && forall m :: 0 <= m < |packs| ==> packs[m].id in loaded.packs && loaded.packs[packs[m].id] == ReadBack(packs[m])
  {
    var sorted := SortBy(Entries(packs), EntryKey);
    var items := IndexJson(sorted).items;
    IndexLoadSucceeds(packs, disk);
    LoadEntriesPacks(items, LoadFrom(disk), 0, map[], []);
    var loaded := LoadEntries(items, LoadFrom(disk), 0, map[], []).value;
    forall m | 0 <= m < |packs| ensures packs[m].id in loaded.packs && loaded.packs[packs[m].id] == ReadBack(packs[m]) {
      var k := SortedEntryPosition(packs, m);
      EntryOfLoads(packs[m], disk);
      assert items[k] == EntryJson(EntryOf(packs[m]));
    }
  }

  /**
   * Everything the validator checks before the walk passes on the index of
   * packs whose files hold their records, and the loaded packs are exactly
   * the packs read back.
   */
  lemma IndexChecked(packs: seq<PackDef>, disk: Disk)
    requires Publishable(packs)
    requires HoldsRecords(packs, disk)
    ensures var r := CheckIndex(Some(IndexJson(SortBy(Entries(packs), EntryKey))), disk);
      && r.Success?
      && r.value.packs.Keys == Elems(Ids(packs))
      && forall m :: 0 <= m < |packs| ==> r.value.packs[packs[m].id] == ReadBack(packs[m])
  {
    var index := IndexJson(SortBy(Entries(packs), EntryKey));
    IndexAccepted(packs, disk);
    var r := CheckIndex(Some(index), disk);
    IndexIds(packs);
    forall m | 0 <= m < |packs|
      ensures packs[m].id in r.value.packs && r.value.packs[packs[m].id] == ReadBack(packs[m])
    {
      var k := IndexedPackLoads(packs, disk, m);
    }
  }

  /** The validator accepts the generated index of a publishable pack list whose files hold their records. */
  lemma IndexAccepted(packs: seq<PackDef>, disk: Disk)
    requires Publishable(packs)
    requires HoldsRecords(packs, disk)
    ensures CheckIndex(Some(IndexJson(SortBy(Entries(packs), EntryKey))), disk).Success?
  {
    var index := IndexJson(SortBy(Entries(packs), EntryKey));
    IndexEntriesLoad(packs, disk);
    var b :| 0 <= b < |packs| && packs[b].id == BasePackId;
    var kb := IndexedPackLoads(packs, disk, b);
    assert BaseProtectedTerms != [];
    assert PackOf(index.items[kb], LoadFrom(disk)).protectedTerms != [];
    assert HasBasePack(index.items, LoadFrom(disk));
    assert |index.items| >= MinIndexEntries;
  }

  /** The index entry of each good pack whose file holds its record loads, under the pack's id, as the pack read back. */
  lemma IndexedPackLoads(packs: seq<PackDef>, disk: Disk, m: nat) returns (k: nat)
    requires m < |packs| && GoodDef(packs[m])
    requires HoldsRecords(packs, disk)
    ensures var items := IndexJson(SortBy(Entries(packs), EntryKey)).items;
      && |items| == |packs| && k < |items| && EntryLoads(items[k], LoadFrom(disk))
      && IdOf(items[k]) == packs[m].id && PackOf(items[k], LoadFrom(disk)) == ReadBack(packs[m])
  {
    k := SortedEntryPosition(packs, m);
    EntryOfLoads(packs[m], disk);
  }

  /**
   * Packs whose parents come earlier in the list, read back under their ids
   * and nothing else, form a closed and acyclic inheritance graph.
   */
  lemma LoadedGraphSound(packs: seq<PackDef>, loaded: map<string, Pack>)
    requires forall k, q :: 0 <= k < |packs| && q in packs[k].inherits ==> exists j :: 0 <= j < k && packs[j].id == q
    requires loaded.Keys == Elems(Ids(packs))
    requires forall m :: 0 <= m < |packs| ==> loaded[packs[m].id] == ReadBack(packs[m])
    ensures Closed(InheritsGraph(loaded)) && Acyclic(InheritsGraph(loaded))
  {
    var g := InheritsGraph(loaded);
    var ids := Ids(packs);
    forall k | 0 <= k < |ids| ensures ids[k] in g && forall q :: q in g[ids[k]] ==> q in ids[..k] {
      assert ids[k] in Elems(ids);
      forall q | q in g[ids[k]] ensures q in ids[..k] {
        var j :| 0 <= j < k && packs[j].id == q;
        assert ids[..k][j] == q;
      }
    }
    ParentsFirstClosedAcyclic(g, ids);
  }

  /** The inheritance graph of what the index loads is closed and acyclic. */
  lemma RecordsGraphSound(packs: seq<PackDef>, disk: Disk)
    requires Publishable(packs)
    requires HoldsRecords(packs, disk)
    ensures var r := CheckIndex(Some(IndexJson(SortBy(Entries(packs), EntryKey))), disk);
      r.Success? && Closed(InheritsGraph(r.value.packs)) && Acyclic(InheritsGraph(r.value.packs))
  {
    IndexChecked(packs, disk);
    var loaded := CheckIndex(Some(IndexJson(SortBy(Entries(packs), EntryKey))), disk).value.packs;
    LoadedGraphSound(packs, loaded);
  }

  /** The index of packs whose files hold their records is accepted. */
  lemma RecordsAccepted(packs: seq<PackDef>, disk: Disk)
    requires Publishable(packs)
    requires HoldsRecords(packs, disk)
    ensures Accepts(Some(IndexJson(SortBy(Entries(packs), EntryKey))), disk)
  {
    RecordsGraphSound(packs, disk);
  }

  /**
   * With `--force`, the generator's output passes every check of the
   * validator: the index and pack files load, the base pack protects its
   * terms, and the inheritance graph is closed and acyclic.
   */
  lemma ForcedOutputAccepted(packs: seq<PackDef>, dir: Dir)
    requires Publishable(packs)
    ensures Accepts(Some(IndexJson(SortBy(Entries(packs), EntryKey))), WriteFrom(packs, true, 0, dir, 0).0)
  {
    ForcedFiles(packs, dir);
    RecordsAccepted(packs, WriteFrom(packs, true, 0, dir, 0).0);
  }

  /** A `replace_word` rule with a non-empty word passes. */
  lemma ReplaceWordPasses(from: string, to: string)
    requires from != ""
    ensures CheckRule(ReplaceWord(from, to)).Pass?
  {
    assert Get(ReplaceWord(from, to), "type") == Some(JStr("replace_word"));
  }

  /** An `append_particle` rule passes when its particle is not blank and its probability is in range. */
  lemma AppendParticlePasses(particle: string, probability: real)
    requires HasText(particle)
    requires 0.0 <= probability <= 1.0
    ensures CheckRule(AppendParticle(particle, probability)).Pass?
  {
    var r := AppendParticle(particle, probability);
    assert Get(r, "type") == Some(JStr("append_particle"));
    assert Get(r, "particle") == Some(JStr(particle));
    assert Get(r, "probability") == Some(JNum(probability));
    assert Get(r, "positions") == Some(JArr([JStr("end_of_sentence")]));
    assert r["particle"].s == particle && r["probability"] == JNum(probability);
    assert CheckAppendParticle(r).Pass?;
    CheckRuleDispatch(r);
  }

  /** A `replace_word` rule restricted to questions passes when its word is not empty. */
  lemma ReplaceWordInQuestionsPasses(from: string, to: string)
    requires from != ""
    ensures CheckRule(ReplaceWordInQuestions(from, to)).Pass?
  {
    assert Get(ReplaceWordInQuestions(from, to), "type") == Some(JStr("replace_word"));
  }

  /** A string without `t`'s first character does not contain `t`. */
  lemma NotContainsWithoutFirst(s: string, t: string)
    requires |t| >= 1 && forall k :: 0 <= k < |s| ==> s[k] != t[0]
    ensures !Contains(s, t)
  {
    forall i | 0 <= i && i + |t| <= |s| ensures !OccursAt(s, t, i) {
      assert s[i..i + |t|][0] == s[i];
    }
  }

  /** A pattern without `*` and `+` is never too broad. */
  lemma NotTooBroadWithoutRepeat(p: string)
    requires forall k :: 0 <= k < |p| ==> p[k] != '*' && p[k] != '+'
    ensures !SearchTooBroad(p)
  {
  }

  /**
   * A `replace_regex` rule passes when its pattern is not empty, has no `*`,
   * `+` or `(`, and its flags are supported.
   */
  lemma ReplaceRegexPasses(pattern: string, to: string, flags: seq<string>)
    requires pattern != ""
    requires forall k :: 0 <= k < |pattern| ==> pattern[k] != '*' && pattern[k] != '+' && pattern[k] != '('
    requires forall k :: 0 <= k < |flags| ==> flags[k] in SupportedRegexFlags
    ensures CheckRule(ReplaceRegexPreservingCase(pattern, to, flags)).Pass?
  {
    var r := ReplaceRegexPreservingCase(pattern, to, flags);
    assert Get(r, "type") == Some(JStr("replace_regex"));
    assert Get(r, "flags") == Some(StrArray(flags));
    NotTooBroadWithoutRepeat(pattern);
    NotContainsWithoutFirst(pattern, "(?s");
    NotContainsWithoutFirst(pattern, "(?S");
  }

  /** Every rule of the base pack passes, including its `dat is` regex. */
  lemma BasisRulesPass()
    ensures RulesPass(VlaamsBasis())
  {
    var rules := RulesOf(VlaamsBasis());
    forall m | 0 <= m < |rules| ensures CheckRule(rules[m]).Pass? {
      BasisRulePasses(m);
    }
  }

  /** The base pack's rule at position `m` passes. */
  lemma BasisRulePasses(m: nat)
    requires m < |RulesOf(VlaamsBasis())|
    ensures CheckRule(RulesOf(VlaamsBasis())[m]).Pass?
  {
    var rules := RulesOf(VlaamsBasis());
    if m < 3 {
      BasisPronounRulePasses(m);
    } else if m == 3 {
      assert rules[3] == ReplaceRegexPreservingCase("\\bdat is\\b", "da\U{E2}\U{20AC}\U{2122}s", ["IGNORECASE"]);
      BasisRegexRulePasses();
    } else if m == 4 {
      assert rules[4] == ReplaceWordInQuestions("wat", "wa");
      ReplaceWordInQuestionsPasses("wat", "wa");
    } else if m == 5 {
      assert rules[5] == AppendParticle("zeg", 0.06);
      assert !IsPySpace("zeg"[0]);
      AppendParticlePasses("zeg", 0.06);
    } else {
      assert rules[6] == AppendParticle("allee", 0.04);
      assert !IsPySpace("allee"[0]);
      AppendParticlePasses("allee", 0.04);
    }
  }

  /** The base pack's three pronoun rules pass. */
  lemma BasisPronounRulePasses(m: nat)
    requires m < 3
    ensures CheckRule(RulesOf(VlaamsBasis())[m]).Pass?
  {
    WordRules();
    WordRulePasses(RulesOf(VlaamsBasis())[m]);
  }

  /** The base pack's `dat is` regex passes: it has no `*`, `+` or `(`. */
  lemma BasisRegexRulePasses()
    ensures CheckRule(ReplaceRegexPreservingCase("\\bdat is\\b", "da\U{E2}\U{20AC}\U{2122}s", ["IGNORECASE"])).Pass?
  {
    ReplaceRegexPasses("\\bdat is\\b", "da\U{E2}\U{20AC}\U{2122}s", ["IGNORECASE"]);
  }

  /** Every rule of the seventeen dialect skins passes. */
  lemma SkinRulesPass()
    ensures forall k :: 0 <= k < |RequiredSkins()| ==> RulesPass(RequiredSkins()[k])
  {
    EarlySkinRulesPass();
    BrusselsRulesPass();
    LaterSkinRulesPass();
  }

  /** The word-only skins among the first eight pass. */
  lemma EarlySkinRulesPass()
    ensures RulesPass(WestVlaamsSkin())
    ensures RulesPass(OostVlaamsSkin())
    ensures RulesPass(AntwerpsSkin())
    ensures RulesPass(BrabantsSkin())
    ensures RulesPass(KempenSkin())
    ensures RulesPass(LimburgsSkin())
    ensures RulesPass(WaaslandSkin())
  {
    WordRules();
    WordSkinPasses(WestVlaamsSkin());
    WordSkinPasses(OostVlaamsSkin());
    WordSkinPasses(AntwerpsSkin());
    WordSkinPasses(BrabantsSkin());
    WordSkinPasses(KempenSkin());
    WordSkinPasses(LimburgsSkin());
    WordSkinPasses(WaaslandSkin());
  }

  /** The last nine skins, all word-only, pass. */
  lemma LaterSkinRulesPass()
    ensures RulesPass(MeetjeslandSkin())
    ensures RulesPass(PajottenlandSkin())
    ensures RulesPass(DenderstreekSkin())
    ensures RulesPass(LeuvenSkin())
    ensures RulesPass(GentSkin())
    ensures RulesPass(KortrijkSkin())
    ensures RulesPass(BruggeSkin())
    ensures RulesPass(HasseltSkin())
    ensures RulesPass(GenkSkin())
  {
    WordRules();
    WordSkinPasses(MeetjeslandSkin());
    WordSkinPasses(PajottenlandSkin());
    WordSkinPasses(DenderstreekSkin());
    WordSkinPasses(LeuvenSkin());
    WordSkinPasses(GentSkin());
    WordSkinPasses(KortrijkSkin());
    WordSkinPasses(BruggeSkin());
    WordSkinPasses(HasseltSkin());
    WordSkinPasses(GenkSkin());
  }

  /** A `replace_word` rule with a non-empty word and no `only_in_questions` key. */
  predicate WordRule(r: map<string, JValue>) {
    && Get(r, "type") == Some(JStr("replace_word"))
    && IsNonEmptyStr(Get(r, "from")) && IsStr(Get(r, "to"))
    && "only_in_questions" !in r
  }

  /** Every `replace_word` rule the generator builds from a non-empty word is a word rule. */
  lemma WordRules()
    ensures forall from, to {:trigger ReplaceWord(from, to)} :: from != "" ==> WordRule(ReplaceWord(from, to))
  {
  }

  /** A word rule passes the validator's `replace_word` guards. */
  lemma WordRulePasses(r: map<string, JValue>)
    requires WordRule(r)
    ensures CheckRule(r).Pass?
  {
  }

  /** A pack whose rules are all word rules passes. */
  lemma WordSkinPasses(p: PackDef)
    requires forall r :: r in RulesOf(p) ==> WordRule(r)
    ensures RulesPass(p)
  {
    forall m | 0 <= m < |RulesOf(p)| ensures CheckRule(RulesOf(p)[m]).Pass? {
      WordRulePasses(RulesOf(p)[m]);
    }
  }

  /** The Brussels skin's rules pass, including its `allez` particle. */
  lemma BrusselsRulesPass()
    ensures RulesPass(BrusselsSkin())
  {
    var rules := RulesOf(BrusselsSkin());
    forall m | 0 <= m < |rules| ensures CheckRule(rules[m]).Pass? {
      if m == 0 {
        assert rules[0] == ReplaceWord("even", "efkes");
        ReplaceWordPasses("even", "efkes");
      } else {
        assert rules[1] == AppendParticle("allez", 0.05);
        assert !IsPySpace("allez"[0]);
        AppendParticlePasses("allez", 0.05);
      }
    }
  }

  /** Every rule of every built-in pack passes the validator's rule checks. */
  lemma BuiltInRulesPass()
    ensures forall k :: 0 <= k < |PackList()| ==> RulesPass(PackList()[k])
  {
    PackListShape();
    BasisRulesPass();
    SkinRulesPass();
    forall k | 0 <= k < |PackList()| ensures RulesPass(PackList()[k]) {
      if k >= 2 && k < 19 {
        assert PackList()[k] == RequiredSkins()[k - 2];
      }
    }
  }

  /**
   * The built-in list can be published, given that its ids are pairwise
   * different (which the generator itself checks before writing), and that
   * its ids and labels are not empty and its ids contain no `_`.
   */
  lemma BuiltInPublishable()
    requires Distinct(Ids(PackList()))
    requires forall k :: 0 <= k < |PackList()| ==>
      PackList()[k].id != "" && '_' !in PackList()[k].id && PackList()[k].title != ""
    ensures Publishable(PackList())
  {
    var packs := PackList();
    PackListShape();
    PackListParentsEarlier();
    BuiltInRulesPass();
    assert packs[1].id == BasePackId;
    forall k | 0 <= k < |packs| ensures GoodDef(packs[k]) {
      assert RulesPass(packs[k]);
    }
  }

  /** With `--force`, the built-in list's output is accepted, under the same assumptions. */
  lemma BuiltInOutputAccepted(dir: Dir)
    requires Distinct(Ids(PackList()))
    requires forall k :: 0 <= k < |PackList()| ==>
      PackList()[k].id != "" && '_' !in PackList()[k].id && PackList()[k].title != ""
    ensures Accepts(Some(IndexJson(SortBy(Entries(PackList()), EntryKey))), WriteFrom(PackList(), true, 0, dir, 0).0)
  {
    BuiltInPublishable();
    ForcedOutputAccepted(PackList(), dir);
  }
}
