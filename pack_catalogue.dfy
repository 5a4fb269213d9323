/**
 * The generator's built-in pack list (`_pack_defs` in
 * tools/generate_dialect_packs.py): the identity pack, the Flemish base pack,
 * the dialect skins that carry rules, the rule-less placeholders, and the
 * numbered padding packs that would be added if the list ever fell below 80.
 */
module PackCatalogue {
  import opened Wrappers
  import opened Json

  /** One pack definition; `notes` and `rules` may be left unset (`None`), and `title` is the pack's `label`. */
  datatype PackDef = PackDef(
    id: string,
    title: string,
    inherits: seq<string>,
    notes: Option<string>,
    rules: Option<seq<map<string, JValue>>>)

  /** The list length the generator pads up to. */
  const MinPacks: nat := 80

  /** The terms every generated pack protects. */
  const BaseProtectedTerms: seq<string> := [
    "verplicht", "verboden", "mag", "moet", "kan", "niet", "geen",
    "tenzij", "enkel", "alleen", "behalve", "uitzondering", "boete", "straf"
  ]

  /** The notes every listed placeholder carries. */
  const PlaceholderNotes: string := "TODO: placeholder pack (conservative; add rules carefully)."

  /** The notes every padding pack carries. */
  const PaddingNotes: string := "TODO: placeholder pack."

  /** A `replace_word` rule. */
  function ReplaceWord(from: string, to: string): map<string, JValue> {
    map["type" := JStr("replace_word"), "from" := JStr(from), "to" := JStr(to)]
  }

  /** A `replace_word` rule that applies only in questions. */
  function ReplaceWordInQuestions(from: string, to: string): map<string, JValue> {
    map["type" := JStr("replace_word"), "from" := JStr(from), "to" := JStr(to), "only_in_questions" := JBool(true)]
  }

  /** A `replace_regex` rule with the given flags that keeps the matched text's case. */
  function ReplaceRegexPreservingCase(pattern: string, to: string, flags: seq<string>): map<string, JValue> {
    map["type" := JStr("replace_regex"), "pattern" := JStr(pattern), "to" := JStr(to),
        "flags" := JArr(seq(|flags|, k requires 0 <= k < |flags| => JStr(flags[k]))), "preserve_case" := JBool(true)]
  }

  /** An `append_particle` rule at the end of a sentence. */
  function AppendParticle(particle: string, probability: real): map<string, JValue> {
    map["type" := JStr("append_particle"), "particle" := JStr(particle),
        "probability" := JNum(probability), "positions" := JArr([JStr("end_of_sentence")])]
  }

  /** A dialect skin: inherits from the Flemish base pack. */
  function Skin(id: string, title: string, notes: string, rules: seq<map<string, JValue>>): PackDef {
    PackDef(id, title, ["vlaams/basis"], Some(notes), Some(rules))
  }

  /** The identity pack: no parents and no rules. */
  function NlStandard(): PackDef {
    PackDef("nl/standard", "Standaard Nederlands (identiteit)", [], Some("Identity pack; no rules."), Some([]))
  }

  /** The Flemish base pack, built on the identity pack. */
  function VlaamsBasis(): PackDef {
    PackDef("vlaams/basis", "Vlaams basis (NL-BE informeel)", ["nl/standard"],
      Some("Belgian informal baseline; conservative and readable."),
      Some([
        ReplaceWord("jij", "{pronoun_subject}"),
        ReplaceWord("jou", "{pronoun_object}"),
        ReplaceWord("jouw", "{pronoun_possessive}"),
        ReplaceRegexPreservingCase("\\bdat is\\b", "da\U{E2}\U{20AC}\U{2122}s", ["IGNORECASE"]),
        ReplaceWordInQuestions("wat", "wa"),
        AppendParticle("zeg", 0.06),
        AppendParticle("allee", 0.04)
      ]))
  }

  /** The seventeen dialect skins that must carry rules, in the generator's order. */
  function RequiredSkins(): seq<PackDef> {
    [
      WestVlaamsSkin(),
      OostVlaamsSkin(),
      AntwerpsSkin(),
      BrabantsSkin(),
      KempenSkin(),
      LimburgsSkin(),
      BrusselsSkin(),
      WaaslandSkin(),
      MeetjeslandSkin(),
      PajottenlandSkin(),
      DenderstreekSkin(),
      LeuvenSkin(),
      GentSkin(),
      KortrijkSkin(),
      BruggeSkin(),
      HasseltSkin(),
      GenkSkin()
    ]
  }

  /** The vlaams/west-vlaams skin. */
  function WestVlaamsSkin(): PackDef {
    Skin("vlaams/west-vlaams", "West-Vlaams", "Conservative West-Vlaams skin (spelling + common colloquialisms).",
      [ReplaceWord("even", "effen"), ReplaceWord("goed", "goe"), ReplaceWord("snel", "rap")])
  }

  /** The vlaams/oost-vlaams skin. */
  function OostVlaamsSkin(): PackDef {
    Skin("vlaams/oost-vlaams", "Oost-Vlaams", "Conservative Oost-Vlaams skin.",
      [ReplaceWord("even", "efkes"), ReplaceWord("snel", "rap")])
  }

  /** The vlaams/antwerps skin. */
  function AntwerpsSkin(): PackDef {
    Skin("vlaams/antwerps", "Antwerps", "Conservative Antwerps skin.",
      [ReplaceWord("even", "efkes"), ReplaceWord("kijken", "kieke")])
  }

  /** The vlaams/brabants skin. */
  function BrabantsSkin(): PackDef {
    Skin("vlaams/brabants", "Vlaams-Brabants", "Conservative Vlaams-Brabants skin.",
      [ReplaceWord("even", "effe"), ReplaceWord("kijken", "kieke")])
  }

  /** The vlaams/kempen skin. */
  function KempenSkin(): PackDef {
    Skin("vlaams/kempen", "Kempen", "Conservative Kempen skin.",
      [ReplaceWord("even", "effe"), ReplaceWord("kijken", "kieke")])
  }

  /** The vlaams/limburgs skin. */
  function LimburgsSkin(): PackDef {
    Skin("vlaams/limburgs", "Limburgs", "Conservative Limburgs skin.",
      [ReplaceWord("even", "efkes"), ReplaceWord("kijken", "kieke")])
  }

  /** The vlaams/brussels skin. */
  function BrusselsSkin(): PackDef {
    Skin("vlaams/brussels", "Brussels", "Conservative Brussels skin (particles are optional).",
      [ReplaceWord("even", "efkes"), AppendParticle("allez", 0.05)])
  }

  /** The vlaams/waasland skin. */
  function WaaslandSkin(): PackDef {
    Skin("vlaams/waasland", "Waasland", "Conservative Waasland skin.",
      [ReplaceWord("even", "efkes"), ReplaceWord("snel", "rap")])
  }

  /** The vlaams/meetjesland skin. */
  function MeetjeslandSkin(): PackDef {
    Skin("vlaams/meetjesland", "Meetjesland", "Conservative Meetjesland skin.",
      [ReplaceWord("even", "efkes"), ReplaceWord("goed", "goe")])
  }

  /** The vlaams/pajottenland skin. */
  function PajottenlandSkin(): PackDef {
    Skin("vlaams/pajottenland", "Pajottenland", "Conservative Pajottenland skin.",
      [ReplaceWord("even", "effe"), ReplaceWord("goed", "goe")])
  }

  /** The vlaams/denderstreek skin. */
  function DenderstreekSkin(): PackDef {
    Skin("vlaams/denderstreek", "Denderstreek", "Conservative Denderstreek skin.",
      [ReplaceWord("even", "efkes"), ReplaceWord("snel", "rap")])
  }

  /** The vlaams/leuven skin. */
  function LeuvenSkin(): PackDef {
    Skin("vlaams/leuven", "Leuven", "Conservative Leuven skin.",
      [ReplaceWord("even", "effe"), ReplaceWord("snel", "rap")])
  }

  /** The vlaams/gent skin. */
  function GentSkin(): PackDef {
    Skin("vlaams/gent", "Gents", "Conservative Gents skin.",
      [ReplaceWord("even", "efkes"), ReplaceWord("snel", "rap")])
  }

  /** The vlaams/kortrijk skin. */
  function KortrijkSkin(): PackDef {
    Skin("vlaams/kortrijk", "Kortrijks", "Conservative Kortrijk skin.",
      [ReplaceWord("even", "effen"), ReplaceWord("goed", "goe")])
  }

  /** The vlaams/brugge skin. */
  function BruggeSkin(): PackDef {
    Skin("vlaams/brugge", "Brugs", "Conservative Brugge skin.",
      [ReplaceWord("even", "effen"), ReplaceWord("goed", "goe")])
  }

  /** The vlaams/hasselt skin. */
  function HasseltSkin(): PackDef {
    Skin("vlaams/hasselt", "Hasselts", "Conservative Hasselt skin.",
      [ReplaceWord("even", "efkes"), ReplaceWord("kijken", "kieke")])
  }

  /** The vlaams/genk skin. */
  function GenkSkin(): PackDef {
    Skin("vlaams/genk", "Genks", "Conservative Genk skin.",
      [ReplaceWord("even", "efkes"), ReplaceWord("kijken", "kieke")])
  }

  /** The placeholder packs' ids and labels, in the generator's order. */
  const PlaceholderNames: seq<(string, string)> := [
    ("vlaams/aalst", "Aalst"),
    ("vlaams/ninove", "Ninove"),
    ("vlaams/dendermonde", "Dendermonde"),
    ("vlaams/sint-niklaas", "Sint-Niklaas"),
    ("vlaams/lokeren", "Lokeren"),
    ("vlaams/temse", "Temse"),
    ("vlaams/beveren", "Beveren"),
    ("vlaams/turnhout", "Turnhout"),
    ("vlaams/mechelen", "Mechelen"),
    ("vlaams/lier", "Lier"),
    ("vlaams/herentals", "Herentals"),
    ("vlaams/geel", "Geel"),
    ("vlaams/mol", "Mol"),
    ("vlaams/oudenaarde", "Oudenaarde"),
    ("vlaams/ronse", "Ronse"),
    ("vlaams/tienen", "Tienen"),
    ("vlaams/diest", "Diest"),
    ("vlaams/aarschot", "Aarschot"),
    ("vlaams/vilvoorde", "Vilvoorde"),
    ("vlaams/halle", "Halle"),
    ("vlaams/tessenderlo", "Tessenderlo"),
    ("vlaams/bree", "Bree"),
    ("vlaams/bilzen", "Bilzen"),
    ("vlaams/tongeren", "Tongeren"),
    ("vlaams/sint-truiden", "Sint-Truiden"),
    ("vlaams/maaseik", "Maaseik"),
    ("vlaams/maasmechelen", "Maasmechelen"),
    ("vlaams/waregem", "Waregem"),
    ("vlaams/roeselare", "Roeselare"),
    ("vlaams/ieper", "Ieper"),
    ("vlaams/ostende", "Oostende"),
    ("vlaams/blankenberge", "Blankenberge"),
    ("vlaams/knokke-heist", "Knokke-Heist"),
    ("vlaams/diksmuide", "Diksmuide"),
    ("vlaams/torhout", "Torhout"),
    ("vlaams/tielt", "Tielt"),
    ("vlaams/menen", "Menen"),
    ("vlaams/wevelgem", "Wevelgem"),
    ("vlaams/zeraingem", "Zelzate"),
    ("vlaams/eeklo", "Eeklo"),
    ("vlaams/maldegem", "Maldegem"),
    ("vlaams/asse", "Asse"),
    ("vlaams/ninove-centrum", "Ninove (centrum)"),
    ("vlaams/pajottenland-oost", "Pajottenland (oost)"),
    ("vlaams/pajottenland-west", "Pajottenland (west)"),
    ("vlaams/leiestreek", "Leiestreek"),
    ("vlaams/westrand", "Westrand"),
    ("vlaams/noorderkempen", "Noorderkempen"),
    ("vlaams/zuiderkempen", "Zuiderkempen"),
    ("vlaams/heuvelland", "Heuvelland"),
    ("vlaams/hageland", "Hageland"),
    ("vlaams/zeshoek", "Zeshoek"),
    ("vlaams/scheldeland", "Scheldeland"),
    ("vlaams/polder", "Polder"),
    ("vlaams/leuvense-ommeland", "Leuvense ommeland"),
    ("vlaams/gentse-ommeland", "Gentse ommeland"),
    ("vlaams/antwerpse-ommeland", "Antwerpse ommeland"),
    ("vlaams/brusselse-ommeland", "Brusselse ommeland"),
    ("vlaams/waasland-noord", "Waasland (noord)"),
    ("vlaams/waasland-zuid", "Waasland (zuid)"),
    ("vlaams/meetjesland-noord", "Meetjesland (noord)"),
    ("vlaams/meetjesland-zuid", "Meetjesland (zuid)"),
    ("vlaams/denderstreek-noord", "Denderstreek (noord)"),
    ("vlaams/denderstreek-zuid", "Denderstreek (zuid)"),
    ("vlaams/maasland", "Maasland")
  ]

  /** A listed placeholder: inherits from the Flemish base pack and has no rules. */
  function Placeholder(name: (string, string)): PackDef {
    PackDef(name.0, name.1, ["vlaams/basis"], Some(PlaceholderNotes), Some([]))
  }

  /** The placeholders built from `names`, one per name and in order. */
  function Placeholders(names: seq<(string, string)>): (ps: seq<PackDef>)
    ensures |ps| == |names|
    ensures forall k :: 0 <= k < |names| ==> ps[k] == Placeholder(names[k])
  {
    seq(|names|, k requires 0 <= k < |names| => Placeholder(names[k]))
  }

  /** The listed packs: identity, base, skins, placeholders. */
  function Listed(): seq<PackDef> {
    [NlStandard(), VlaamsBasis()] + RequiredSkins() + Placeholders(PlaceholderNames)
  }

  /** The character of a decimal digit. */
  function DigitChar(d: nat): char
    requires d < 10
  {
    "0123456789"[d]
  }

  /** The value of a decimal digit character. */
  function DigitValue(c: char): nat {
    if '0' <= c <= '9' then (c as int - '0' as int) as nat else 0
  }

  /** `str(n)`: the decimal digits of `n`, without leading zeros. */
  function Decimal(n: nat): (s: string)
    ensures 1 <= |s|
    ensures forall k :: 0 <= k < |s| ==> '0' <= s[k] <= '9'
    ensures |s| > 1 ==> s[0] != '0'
    ensures n < 10 <==> |s| == 1
    ensures 10 <= n < 100 <==> |s| == 2
  {
    if n < 10 then [DigitChar(n)] else Decimal(n / 10) + [DigitChar(n % 10)]
  }

  /** The number a string of decimal digits denotes. */
  function DigitsValue(s: string): nat {
    if s == [] then 0 else DigitsValue(s[..|s| - 1]) * 10 + DigitValue(s[|s| - 1])
  }

  /** `f"{n:02d}"`: `n` in decimal, with a leading zero when it has one digit. */
  function Pad2(n: nat): (s: string)
    ensures 2 <= |s|
    ensures n < 100 ==> |s| == 2
    ensures forall k :: 0 <= k < |s| ==> '0' <= s[k] <= '9'
    ensures |s| > 2 ==> s[0] != '0'
  {
    if n < 10 then "0" + Decimal(n) else Decimal(n)
  }

  lemma {:induction false} DecimalValue(n: nat)
    ensures DigitsValue(Decimal(n)) == n
  {
    if n >= 10 {
      var s := Decimal(n);
      assert s[..|s| - 1] == Decimal(n / 10);
      DecimalValue(n / 10);
    }
  }

  /** Reading the padded number back gives the number: no two numbers share a padded form. */
  lemma Pad2Value(n: nat)
    ensures DigitsValue(Pad2(n)) == n
  {
    DecimalValue(n);
    if n < 10 {
      var s := Pad2(n);
      assert s[..|s| - 1] == "0";
    }
  }

  /** The `n`-th padding pack (counting from 1). */
  function TodoPack(n: nat): PackDef {
    PackDef("vlaams/todo-" + Pad2(n), "TODO pack " + Pad2(n), ["vlaams/basis"], Some(PaddingNotes), Some([]))
  }

  /** The first `count` padding packs. */
  function TodoPacks(count: nat): (ps: seq<PackDef>)
    ensures |ps| == count
    ensures forall k :: 0 <= k < count ==> ps[k] == TodoPack(k + 1)
  {
    seq(count, k requires 0 <= k < count => TodoPack(k + 1))
  }

  /**
   * The list padded with numbered packs up to 80 entries: the given packs stay
   * in front, a list of 80 or more is unchanged, and only numbered packs are
   * added.
   */
  function Padded(packs: seq<PackDef>): (r: seq<PackDef>)
    ensures |r| >= MinPacks && |r| >= |packs|
    ensures |packs| < MinPacks ==> |r| == MinPacks
    ensures r[..|packs|] == packs
    ensures |packs| >= MinPacks ==> r == packs
    ensures forall k :: |packs| <= k < |r| ==> r[k] == TodoPack(k - |packs| + 1)
  {
    if |packs| < MinPacks then packs + TodoPacks(MinPacks - |packs|) else packs
  }

  /** What `_pack_defs` returns: the listed packs, padded to at least 80. */
  function PackList(): seq<PackDef> {
    Padded(Listed())
  }

  /**
   * `_pack_defs`: the placeholders are built in a loop over their names, then
   * the listed packs are padded.
   */
  method PackDefs() returns (packs: seq<PackDef>)
    ensures packs == PackList()
  {
    var base := NlStandard();
    var vlaamsBasis := VlaamsBasis();
    var required := RequiredSkins();
    var placeholders: seq<PackDef> := [];
    for i := 0 to |PlaceholderNames|
      invariant |placeholders| == i
      invariant forall k :: 0 <= k < i ==> placeholders[k] == Placeholder(PlaceholderNames[k])
    {
      placeholders := placeholders + [Placeholder(PlaceholderNames[i])];
    }
    assert placeholders == Placeholders(PlaceholderNames);
    packs := PadPacks([base, vlaamsBasis] + required + placeholders);
  }

  /** The padding step of `_pack_defs`: while the list is short, append numbered packs up to 80. */
  method PadPacks(listed: seq<PackDef>) returns (packs: seq<PackDef>)
    ensures packs == Padded(listed)
  {
    packs := listed;
    if |packs| < MinPacks {
      for i := 0 to MinPacks - |listed|
        invariant packs == listed + TodoPacks(i)
      {
        packs := packs + [TodoPack(i + 1)];
        assert TodoPacks(i + 1) == TodoPacks(i) + [TodoPack(i + 1)];
      }
    }
  }

  /** Padding packs with different numbers have different ids. */
  lemma TodoPackIdsDiffer(m: nat, n: nat)
    requires m != n
    ensures TodoPack(m).id != TodoPack(n).id
  {
    var prefix := "vlaams/todo-";
    if TodoPack(m).id == TodoPack(n).id {
      assert Pad2(m) == TodoPack(m).id[|prefix|..];
      assert Pad2(n) == TodoPack(n).id[|prefix|..];
      Pad2Value(m);
      Pad2Value(n);
    }
  }

  /** The built-in list has 84 packs, so no padding is added. */
  lemma PackListLength()
    ensures |RequiredSkins()| == 17 && |PlaceholderNames| == 65
    ensures |Listed()| == 84 && PackList() == Listed()
  {
    assert |RequiredSkins()| == 17 && |PlaceholderNames| == 65;
  }

  /** The positions in a list built like the listed packs: two packs, the skins, then the placeholders. */
  lemma ListedPositions(a: PackDef, b: PackDef, skins: seq<PackDef>, names: seq<(string, string)>)
    ensures var l := [a, b] + skins + Placeholders(names);
      && |l| == 2 + |skins| + |names| && l[0] == a && l[1] == b
      && (forall k :: 2 <= k < 2 + |skins| ==> l[k] == skins[k - 2])
      && (forall k :: 2 + |skins| <= k < |l| ==> l[k] == Placeholder(names[k - 2 - |skins|]))
  {
  }

  /** The built-in list: identity first, then base, the seventeen skins and the placeholders. */
  lemma PackListShape()
    ensures |PackList()| == 84
    ensures PackList()[0] == NlStandard() && PackList()[1] == VlaamsBasis()
    ensures forall k :: 2 <= k < 19 ==> PackList()[k] == RequiredSkins()[k - 2]
    ensures forall k :: 19 <= k < 84 ==> PackList()[k] == Placeholder(PlaceholderNames[k - 19])
    ensures forall k :: 2 <= k < |PackList()| ==> PackList()[k].inherits == ["vlaams/basis"]
    ensures forall k :: 2 <= k < 19 ==> PackList()[k].rules.Some? && PackList()[k].rules.value != []
  {
    PackListParts();
    SkinsShape();
    PlaceholdersShape();
  }

  /** The built-in list's parts, in order. */
  lemma PackListParts()
    ensures |PackList()| == 84
    ensures PackList()[0] == NlStandard() && PackList()[1] == VlaamsBasis()
    ensures forall k :: 2 <= k < 19 ==> PackList()[k] == RequiredSkins()[k - 2]
    ensures forall k :: 19 <= k < 84 ==> PackList()[k] == Placeholder(PlaceholderNames[k - 19])
  {
    PackListFront();
    PackListSkins();
    PackListPlaceholders();
  }

  /** The identity pack and the base pack open the built-in list. */
  lemma PackListFront()
    ensures |PackList()| == 84
    ensures PackList()[0] == NlStandard() && PackList()[1] == VlaamsBasis()
  {
    PackListLength();
    ListedPositions(NlStandard(), VlaamsBasis(), RequiredSkins(), PlaceholderNames);
  }

  /** The seventeen skins follow, in order. */
  lemma PackListSkins()
    ensures |PackList()| == 84
    ensures forall k :: 2 <= k < 19 ==> PackList()[k] == RequiredSkins()[k - 2]
  {
    PackListLength();
    ListedPositions(NlStandard(), VlaamsBasis(), RequiredSkins(), PlaceholderNames);
  }

  /** The placeholders close the list, in order. */
  lemma PackListPlaceholders()
    ensures |PackList()| == 84
    ensures forall k :: 19 <= k < 84 ==> PackList()[k] == Placeholder(PlaceholderNames[k - 19])
  {
    PackListLength();
    ListedPositions(NlStandard(), VlaamsBasis(), RequiredSkins(), PlaceholderNames);
  }

  /** Every placeholder inherits only from the base pack and has no rules. */
  lemma PlaceholdersShape()
    ensures forall k :: 0 <= k < |PlaceholderNames| ==>
      Placeholder(PlaceholderNames[k]).inherits == ["vlaams/basis"] && Placeholder(PlaceholderNames[k]).rules == Some([])
  {
  }

  /** Each skin inherits only from the base pack and carries rules. */
  lemma SkinsShape()
    ensures forall k :: 0 <= k < |RequiredSkins()| ==>
      RequiredSkins()[k].inherits == ["vlaams/basis"] && RequiredSkins()[k].rules.Some? && RequiredSkins()[k].rules.value != []
  {
  }

  /** In the built-in list every parent is defined earlier than the packs that name it. */
  lemma PackListParentsEarlier()
    ensures forall k, q :: 0 <= k < |PackList()| && q in PackList()[k].inherits ==>
      exists j :: 0 <= j < k && PackList()[j].id == q
  {
    PackListShape();
    forall k, q | 0 <= k < |PackList()| && q in PackList()[k].inherits
      ensures exists j :: 0 <= j < k && PackList()[j].id == q
    {
      if k == 1 {
        assert PackList()[0].id == q;
      } else {
        assert PackList()[1].id == q;
      }
    }
  }
}
