/**
 * The schema check that the pack validator applies to one parsed pack file
 * (`_validate_pack_schema` in tools/validate_dialect_packs.py): a chain of
 * guards over the pack object, then a pass over its rules that stops at the
 * first rule that fails.
 */
module PackSchema {
  import opened Wrappers
  import opened Json

  /** A pack as the validator returns it: the input's fields, unchanged and in order (`title` is the pack's `label`). */
  datatype Pack = Pack(
    id: string,
    title: string,
    inherits: seq<string>,
    protectedTerms: seq<string>,
    rules: seq<map<string, JValue>>)

  /** Why one rule was refused. */
  datatype RuleError =
    | UnsupportedType
    | MissingFrom
    | WordTargetNotString
    | OnlyInQuestionsNotBool
    | MissingPattern
    | RegexTargetNotString
    | FlagsNotStrings
    | UnsupportedFlags(unknown: set<string>)
    | PatternTooBroad
    | DotAllNotAllowed
    | MissingParticle
    | ProbabilityOutOfRange
    | PositionsNotStrings
    | UnsupportedPositions

  /** Why a pack file was refused; `BadRule` names the first rule that failed. */
  datatype SchemaError =
    | NotAnObject
    | InvalidId
    | InvalidLabel
    | InvalidInherits
    | InvalidProtectedTerms
    | InvalidRules
    | BadRule(index: nat, reason: RuleError)

  const SupportedRegexFlags: set<string> := {"IGNORECASE", "MULTILINE"}

  /** The characters Python's `str.strip()` removes (`str.isspace()`). */
  predicate IsPySpace(c: char) {
    || ('\t' <= c <= '\r')
    || ('\U{1C}' <= c <= '\U{1F}')
    || c == ' ' || c == '\U{85}' || c == '\U{A0}' || c == '\U{1680}'
    || ('\U{2000}' <= c <= '\U{200A}')
    || c == '\U{2028}' || c == '\U{2029}' || c == '\U{202F}' || c == '\U{205F}' || c == '\U{3000}'
  }

  /** Some character of `s` is not whitespace. */
  predicate HasText(s: string) {
    exists k :: 0 <= k < |s| && !IsPySpace(s[k])
  }

  function StripLeading(s: string): (r: string)
    ensures |r| <= |s| && r == s[|s| - |r|..]
    ensures r != [] ==> !IsPySpace(r[0])
    ensures forall k :: 0 <= k < |s| - |r| ==> IsPySpace(s[k])
  {
    if s != [] && IsPySpace(s[0]) then
      var r := StripLeading(s[1..]);
      assert s[1..][|s| - 1 - |r|..] == s[|s| - |r|..];
      assert forall k :: 1 <= k < |s| - |r| ==> s[k] == s[1..][k - 1];
      r
    else s
  }

  function StripTrailing(s: string): (r: string)
    ensures |r| <= |s| && r == s[..|r|]
    ensures r != [] ==> !IsPySpace(r[|r| - 1])
    ensures forall k :: |r| <= k < |s| ==> IsPySpace(s[k])
  {
    if s != [] && IsPySpace(s[|s| - 1]) then
      var r := StripTrailing(s[..|s| - 1]);
      assert s[..|s| - 1][..|r|] == s[..|r|];
      r
    else s
  }

  /** `s.strip()`: `s` without its leading and trailing whitespace, so no whitespace is left at either end. */
  function Strip(s: string): (r: string)
    ensures |r| <= |s|
    ensures r != [] ==> !IsPySpace(r[0]) && !IsPySpace(r[|r| - 1])
  {
    var l := StripLeading(s);
    var r := StripTrailing(l);
    assert r != [] ==> r[0] == l[0];
    r
  }

  /** `s.strip()` is empty exactly when every character of `s` is whitespace. */
  lemma StripEmptyIffAllSpace(s: string)
    ensures Strip(s) == [] <==> !HasText(s)
  {
    var l := StripLeading(s);
    if l != [] {
      // the first character left after the leading whitespace is not whitespace
      assert l[0] == s[|s| - |l|];
    }
  }

  /**
   * `s.strip()` is the slice `s[i..j]` left once the whitespace before `i`
   * and from `j` on is cut off.
   */
  lemma StripSlice(s: string) returns (i: nat, j: nat)
    ensures i <= j <= |s| && Strip(s) == s[i..j]
    ensures forall k :: 0 <= k < i ==> IsPySpace(s[k])
    ensures forall k :: j <= k < |s| ==> IsPySpace(s[k])
  {
    var l := StripLeading(s);
    i := |s| - |l|;
    j := i + |Strip(s)|;
    assert Strip(s) == l[..|Strip(s)|];
    assert l == s[i..];
    forall k | j <= k < |s|
      ensures IsPySpace(s[k])
    {
      assert s[k] == l[k - i];
    }
  }

  /** A backslash, then any character but a newline, then `*` or `+`, starting at `i`. */
  predicate BroadAt(p: string, i: int)
    requires 0 <= i && i + 2 < |p|
  {
    p[i] == '\\' && p[i + 1] != '\n' && (p[i + 2] == '*' || p[i + 2] == '+')
  }

  /**
   * `re.search(r"\\.[*+]", p)` succeeds: the three-character window the
   * validator's "too broad" guard looks for occurs somewhere in `p`.
   */
  function SearchTooBroad(p: string): (found: bool)
    ensures found <==> exists i :: 0 <= i && i + 2 < |p| && BroadAt(p, i)
  {
    if |p| < 3 then false
    else
      BroadAtShift(p);
      BroadAt(p, 0) || SearchTooBroad(p[1..])
  }

  lemma BroadAtShift(p: string)
    requires |p| >= 3
    ensures (exists i :: 0 <= i && i + 2 < |p| && BroadAt(p, i)) <==>
      BroadAt(p, 0) || exists i :: 0 <= i && i + 2 < |p| - 1 && BroadAt(p[1..], i)
  {
    if exists i :: 0 <= i && i + 2 < |p| && BroadAt(p, i) {
      var i :| 0 <= i && i + 2 < |p| && BroadAt(p, i);
      if i > 0 { assert BroadAt(p[1..], i - 1); }
    }
    if exists i :: 0 <= i && i + 2 < |p| - 1 && BroadAt(p[1..], i) {
      var i :| 0 <= i && i + 2 < |p| - 1 && BroadAt(p[1..], i);
      assert BroadAt(p, i + 1);
    }
  }

  predicate OccursAt(s: string, t: string, i: int)
    requires 0 <= i && i + |t| <= |s|
  {
    s[i..i + |t|] == t
  }

  /** `t in s` on Python strings (the empty string occurs in every string). */
  function Contains(s: string, t: string): (found: bool)
    ensures found <==> exists i :: 0 <= i && i + |t| <= |s| && OccursAt(s, t, i)
  {
    if |s| < |t| then false
    else if t == [] then assert OccursAt(s, t, 0); true
    else
      OccursAtShift(s, t);
      s[..|t|] == t || Contains(s[1..], t)
  }

  lemma OccursAtShift(s: string, t: string)
    requires 1 <= |t| <= |s|
    ensures (exists i :: 0 <= i && i + |t| <= |s| && OccursAt(s, t, i)) <==>
      OccursAt(s, t, 0) || exists i :: 0 <= i && i + |t| <= |s| - 1 && OccursAt(s[1..], t, i)
  {
    if exists i :: 0 <= i && i + |t| <= |s| && OccursAt(s, t, i) {
      var i :| 0 <= i && i + |t| <= |s| && OccursAt(s, t, i);
      if i > 0 { assert s[1..][i - 1..i - 1 + |t|] == s[i..i + |t|]; assert OccursAt(s[1..], t, i - 1); }
    }
    if exists i :: 0 <= i && i + |t| <= |s| - 1 && OccursAt(s[1..], t, i) {
      var i :| 0 <= i && i + |t| <= |s| - 1 && OccursAt(s[1..], t, i);
      assert s[1..][i..i + |t|] == s[i + 1..i + 1 + |t|] == t;
      assert OccursAt(s, t, i + 1);
    }
  }

  /** The guards for a `replace_word` rule, in the order the validator applies them. */
  function CheckReplaceWord(r: map<string, JValue>): (o: Outcome<RuleError>)
    ensures o != Fail(UnsupportedType)
    ensures o.Pass? <==>
      && IsNonEmptyStr(Get(r, "from"))
      && IsStr(Get(r, "to"))
      && ("only_in_questions" in r ==> r["only_in_questions"].JBool?)
  {
    if !IsNonEmptyStr(Get(r, "from")) then Fail(MissingFrom)
    else if !IsStr(Get(r, "to")) then Fail(WordTargetNotString)
    else if "only_in_questions" in r && !r["only_in_questions"].JBool? then Fail(OnlyInQuestionsNotBool)
    else Pass
  }

  /** The guards for a `replace_regex` rule, in the order the validator applies them. */
  function CheckReplaceRegex(r: map<string, JValue>): (o: Outcome<RuleError>)
    ensures o != Fail(UnsupportedType)
    ensures o.Pass? <==>
      && IsNonEmptyStr(Get(r, "pattern"))
      && IsStr(Get(r, "to"))
      && StrListOrEmpty(Get(r, "flags")).Some?
      && (forall f :: f in StrListOrEmpty(Get(r, "flags")).value ==> f in SupportedRegexFlags)
      && !(exists i :: 0 <= i && i + 2 < |r["pattern"].s| && BroadAt(r["pattern"].s, i))
      && !(exists i :: 0 <= i && i + 3 <= |r["pattern"].s| && OccursAt(r["pattern"].s, "(?s", i))
      && !(exists i :: 0 <= i && i + 3 <= |r["pattern"].s| && OccursAt(r["pattern"].s, "(?S", i))
    ensures o == Fail(PatternTooBroad) ==> "pattern" in r && r["pattern"].JStr? && SearchTooBroad(r["pattern"].s)
  {
    if !IsNonEmptyStr(Get(r, "pattern")) then Fail(MissingPattern)
    else if !IsStr(Get(r, "to")) then Fail(RegexTargetNotString)
    else
      var flags := StrListOrEmpty(Get(r, "flags"));
      if flags.None? then Fail(FlagsNotStrings)
      else
        var unknown := (set f | f in flags.value) - SupportedRegexFlags;
        if unknown != {} then Fail(UnsupportedFlags(unknown))
        else
          var pattern := r["pattern"].s;
          if SearchTooBroad(pattern) then Fail(PatternTooBroad)
          else if Contains(pattern, "(?s") || Contains(pattern, "(?S") then Fail(DotAllNotAllowed)
          else Pass
  }

  /** `isinstance(v, (int, float))`: a JSON number, or a boolean, since Python's `bool` is an `int`. */
  predicate IsNumeric(v: Option<JValue>) {
    v.Some? && (v.value.JNum? || v.value.JBool?)
  }

  /** `float(v)` for a numeric value: `True` is 1 and `False` is 0. */
  function NumericValue(v: JValue): real
    requires v.JNum? || v.JBool?
  {
    if v.JNum? then v.n else if v.b then 1.0 else 0.0
  }

  /** The guards for an `append_particle` rule, in the order the validator applies them. */
  function CheckAppendParticle(r: map<string, JValue>): (o: Outcome<RuleError>)
    ensures o != Fail(UnsupportedType)
    ensures o.Pass? <==>
      && IsStr(Get(r, "particle"))
      && HasText(r["particle"].s)
      && IsNumeric(Get(r, "probability"))
      && 0.0 <= NumericValue(r["probability"]) <= 1.0
      && Get(r, "positions") == Some(JArr([JStr("end_of_sentence")]))
  {
    var particle := Get(r, "particle");
    if !IsStr(particle) then Fail(MissingParticle)
    else
      StripEmptyIffAllSpace(particle.value.s);
      if Strip(particle.value.s) == [] then Fail(MissingParticle)
      else
        var prob := Get(r, "probability");
        if !IsNumeric(prob) || !(0.0 <= NumericValue(prob.value) <= 1.0) then Fail(ProbabilityOutOfRange)
        else
          var positions := Get(r, "positions");
          if !(positions.Some? && positions.value.JArr? && AllStrings(positions.value.items)) then
            Fail(PositionsNotStrings)
          else if positions.value.items != [JStr("end_of_sentence")] then Fail(UnsupportedPositions)
          else Pass
  }

  /** A `type` naming one of the three supported rule kinds. */
  predicate SupportedType(t: Option<JValue>) {
    t == Some(JStr("replace_word")) || t == Some(JStr("replace_regex")) || t == Some(JStr("append_particle"))
  }

  /**
   * One rule: its `type` must name one of the three supported kinds, and the
   * kind's own guards must pass.
   */
  function CheckRule(r: map<string, JValue>): (o: Outcome<RuleError>)
    ensures o.Pass? ==> SupportedType(Get(r, "type"))
    ensures o == Fail(UnsupportedType) <==> !SupportedType(Get(r, "type"))
  {
    var rtype := Get(r, "type");
    if rtype == Some(JStr("replace_word")) then CheckReplaceWord(r)
    else if rtype == Some(JStr("replace_regex")) then CheckReplaceRegex(r)
    else if rtype == Some(JStr("append_particle")) then CheckAppendParticle(r)
    else Fail(UnsupportedType)
  }

  /** A rule of a supported type gets exactly the outcome of its own kind's guards. */
  lemma CheckRuleDispatch(r: map<string, JValue>)
    ensures Get(r, "type") == Some(JStr("replace_word")) ==> CheckRule(r) == CheckReplaceWord(r)
    ensures Get(r, "type") == Some(JStr("replace_regex")) ==> CheckRule(r) == CheckReplaceRegex(r)
    ensures Get(r, "type") == Some(JStr("append_particle")) ==> CheckRule(r) == CheckAppendParticle(r)
  {
  }

  /**
   * The "too broad" guard looks for a backslash, any character and then `*`
   * or `+`: it lets the bare `.*` its message names through, and refuses
   * `\w+`.
   */
  lemma TooBroadGuardAsWritten()
    ensures CheckRule(map["type" := JStr("replace_regex"), "pattern" := JStr(".*"), "to" := JStr("")]).Pass?
    ensures CheckRule(map["type" := JStr("replace_regex"), "pattern" := JStr("\\w+"), "to" := JStr("")])
      == Fail(PatternTooBroad)
  {
    var broad := map["type" := JStr("replace_regex"), "pattern" := JStr("\\w+"), "to" := JStr("")];
    assert BroadAt("\\w+", 0);
    assert Get(broad, "flags") == None;
  }

  /**
   * The rules from position `i` on, checked in order: the outcome names the
   * first rule that fails, with every earlier rule passing.
   */
  function CheckRules(rules: seq<map<string, JValue>>, i: nat): (o: Outcome<SchemaError>)
    requires i <= |rules|
    ensures o.Pass? <==> forall k :: i <= k < |rules| ==> CheckRule(rules[k]).Pass?
    ensures o.Fail? ==>
      && o.error.BadRule?
      && i <= o.error.index < |rules|
      && CheckRule(rules[o.error.index]) == Fail(o.error.reason)
      && forall k :: i <= k < o.error.index ==> CheckRule(rules[k]).Pass?
    decreases |rules| - i
  {
    if i == |rules| then Pass
    else
      var o := CheckRule(rules[i]);
      if o.Fail? then Fail(BadRule(i, o.error)) else CheckRules(rules, i + 1)
  }

  /** The pack object's `id` is a non-empty string. */
  predicate HasId(data: JValue) {
    data.JObj? && IsNonEmptyStr(Get(data.fields, "id"))
  }

  /** The pack object's `label` is a non-empty string. */
  predicate HasLabel(data: JValue) {
    data.JObj? && IsNonEmptyStr(Get(data.fields, "label"))
  }

  /** The pack object's `inherits` is absent or a list of strings. */
  predicate HasInherits(data: JValue) {
    data.JObj? && StrListOrEmpty(Get(data.fields, "inherits")).Some?
  }

  /** The pack object's `protected_terms` is a list of strings. */
  predicate HasProtectedTerms(data: JValue) {
    && data.JObj? && "protected_terms" in data.fields && data.fields["protected_terms"].JArr?
    && AllStrings(data.fields["protected_terms"].items)
  }

  /** The pack object's `rules` is a list of objects. */
  predicate HasRules(data: JValue) {
    data.JObj? && "rules" in data.fields && data.fields["rules"].JArr? && AllObjects(data.fields["rules"].items)
  }

  /** Every field guard of `_validate_pack_schema` holds; only the rules themselves are left. */
  predicate FieldsValid(data: JValue) {
    HasId(data) && HasLabel(data) && HasInherits(data) && HasProtectedTerms(data) && HasRules(data)
  }

  /** What `_validate_pack_schema` accepts, stated field by field. */
  predicate WellFormedPack(data: JValue) {
    && data.JObj?
    && IsNonEmptyStr(Get(data.fields, "id"))
    && IsNonEmptyStr(Get(data.fields, "label"))
    && StrListOrEmpty(Get(data.fields, "inherits")).Some?
    && "protected_terms" in data.fields && data.fields["protected_terms"].JArr?
    && AllStrings(data.fields["protected_terms"].items)
    && "rules" in data.fields && data.fields["rules"].JArr?
    && AllObjects(data.fields["rules"].items)
    && forall k :: 0 <= k < |data.fields["rules"].items| ==>
         CheckRule(data.fields["rules"].items[k].fields).Pass?
  }

  /** `p` carries exactly the pack object's id, label, inherits, protected terms and rules. */
  predicate Carries(data: JValue, p: Pack) {
    && data.JObj?
    && Get(data.fields, "id") == Some(JStr(p.id))
    && Get(data.fields, "label") == Some(JStr(p.title))
    && StrListOrEmpty(Get(data.fields, "inherits")) == Some(p.inherits)
    && Get(data.fields, "protected_terms") == Some(StrArray(p.protectedTerms))
    && Get(data.fields, "rules") == Some(ObjArray(p.rules))
  }

  /**
   * `_validate_pack_schema`: accepts exactly the well-formed packs and then
   * returns their fields unchanged; otherwise reports the first guard that
   * failed (and, for rules, the first failing rule's index).
   */
  function ValidatePackSchema(data: JValue): (r: Result<Pack, SchemaError>)
    ensures r.Success? <==> WellFormedPack(data)
    ensures r.Success? ==> Carries(data, r.value) && r.value.id != "" && r.value.title != ""
    ensures r.Failure? && r.error.BadRule? ==>
      && data.JObj? && "rules" in data.fields && data.fields["rules"].JArr?
      && AllObjects(data.fields["rules"].items)
      && var rules := data.fields["rules"].items;
      && r.error.index < |rules|
      && CheckRule(rules[r.error.index].fields) == Fail(r.error.reason)
      && forall k :: 0 <= k < r.error.index ==> CheckRule(rules[k].fields).Pass?
  {
    if !data.JObj? then Failure(NotAnObject)
    else
      var fields := data.fields;
      var pid := Get(fields, "id");
      if !IsNonEmptyStr(pid) then Failure(InvalidId)
      else
        var title := Get(fields, "label");
        if !IsNonEmptyStr(title) then Failure(InvalidLabel)
        else
          var inherits := StrListOrEmpty(Get(fields, "inherits"));
          if inherits.None? then Failure(InvalidInherits)
          else
            var protected := Get(fields, "protected_terms");
            if !(protected.Some? && protected.value.JArr? && AllStrings(protected.value.items)) then
              Failure(InvalidProtectedTerms)
            else
              var rules := Get(fields, "rules");
              if !(rules.Some? && rules.value.JArr? && AllObjects(rules.value.items)) then
                Failure(InvalidRules)
              else
                var rs := Objects(rules.value.items);
                StrArrayOfStrings(protected.value.items);
                ObjArrayOfObjects(rules.value.items);
                match CheckRules(rs, 0)
                case Fail(e) => Failure(e)
                case Pass =>
                  Success(Pack(pid.value.s, title.value.s, inherits.value, Strings(protected.value.items), rs))
  }

  /**
   * Which failure `_validate_pack_schema` reports: the first field guard
   * that fails, in order, and a bad rule only once every field is valid.
   */
  lemma ValidatePackSchemaFailures(data: JValue)
    ensures !data.JObj? ==> ValidatePackSchema(data) == Failure(NotAnObject)
    ensures data.JObj? && !HasId(data) ==> ValidatePackSchema(data) == Failure(InvalidId)
    ensures HasId(data) && !HasLabel(data) ==> ValidatePackSchema(data) == Failure(InvalidLabel)
    ensures HasId(data) && HasLabel(data) && !HasInherits(data) ==> ValidatePackSchema(data) == Failure(InvalidInherits)
    ensures HasId(data) && HasLabel(data) && HasInherits(data) && !HasProtectedTerms(data) ==>
      ValidatePackSchema(data) == Failure(InvalidProtectedTerms)
    ensures HasId(data) && HasLabel(data) && HasInherits(data) && HasProtectedTerms(data) && !HasRules(data) ==>
      ValidatePackSchema(data) == Failure(InvalidRules)
    ensures FieldsValid(data) && !WellFormedPack(data) ==>
      ValidatePackSchema(data).Failure? && ValidatePackSchema(data).error.BadRule?
  {
  }
}
