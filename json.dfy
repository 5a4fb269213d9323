/**
 * Parsed JSON values, as the pack tools see them after `json.loads`.
 * A Python `dict` is a map from key to value; `dict.get(key)` gives `None`
 * both for a missing key and for a key that holds `null`, so the model keeps
 * the two apart with `Option<JValue>` (absent) and `JNull` (present, null).
 */
module Json {
  import opened Wrappers

  datatype JValue =
    | JNull
    | JBool(b: bool)
    | JNum(n: real)
    | JStr(s: string)
    | JArr(items: seq<JValue>)
    | JObj(fields: map<string, JValue>)

  /** `obj.get(key)`: the value stored under `key`, or `None` when the key is absent. */
  function Get(obj: map<string, JValue>, key: string): (r: Option<JValue>)
    ensures r.Some? <==> key in obj
    ensures r.Some? ==> r.value == obj[key]
  {
    if key in obj then Some(obj[key]) else None
  }

  /** `isinstance(v, str) and v`: a present string value that is not empty. */
  predicate IsNonEmptyStr(v: Option<JValue>) {
    v.Some? && v.value.JStr? && v.value.s != ""
  }

  /** `isinstance(v, str)`. */
  predicate IsStr(v: Option<JValue>) {
    v.Some? && v.value.JStr?
  }

  /** `all(isinstance(x, str) for x in items)`. */
  predicate AllStrings(items: seq<JValue>) {
    forall k :: 0 <= k < |items| ==> items[k].JStr?
  }

  /** `all(isinstance(x, dict) for x in items)`. */
  predicate AllObjects(items: seq<JValue>) {
    forall k :: 0 <= k < |items| ==> items[k].JObj?
  }

  /** The Python strings held by a list whose every item is a string. */
  function Strings(items: seq<JValue>): (ss: seq<string>)
    requires AllStrings(items)
    ensures |ss| == |items|
    ensures forall k :: 0 <= k < |items| ==> items[k] == JStr(ss[k])
  {
    seq(|items|, k requires 0 <= k < |items| => items[k].s)
  }

  /** The objects held by a list whose every item is an object. */
  function Objects(items: seq<JValue>): (os: seq<map<string, JValue>>)
    requires AllObjects(items)
    ensures |os| == |items|
    ensures forall k :: 0 <= k < |items| ==> items[k] == JObj(os[k])
  {
    seq(|items|, k requires 0 <= k < |items| => items[k].fields)
  }

  /** A list of strings as a JSON array (`json.dumps` of a `list[str]`). */
  function StrArray(ss: seq<string>): (v: JValue)
    ensures v.JArr? && AllStrings(v.items) && Strings(v.items) == ss
  {
    JArr(seq(|ss|, k requires 0 <= k < |ss| => JStr(ss[k])))
  }

  /** A list of objects as a JSON array. */
  function ObjArray(os: seq<map<string, JValue>>): (v: JValue)
    ensures v.JArr? && AllObjects(v.items) && Objects(v.items) == os
  {
    JArr(seq(|os|, k requires 0 <= k < |os| => JObj(os[k])))
  }

  /**
   * `v = obj.get(key, []); if v is None: v = []` followed by the check that
   * `v` is a list of strings: the strings, or `None` when the value is not
   * acceptable. A missing key and an explicit `null` both read as `[]`.
   */
  function StrListOrEmpty(v: Option<JValue>): (r: Option<seq<string>>)
    ensures v.None? || v == Some(JNull) ==> r == Some([])
    ensures v.Some? && v.value.JArr? ==> (r.Some? <==> AllStrings(v.value.items))
    ensures v.Some? && v.value.JArr? && r.Some? ==> StrArray(r.value) == v.value
    ensures v.Some? && !v.value.JArr? && !v.value.JNull? ==> r.None?
  {
    match v
    case None => Some([])
    case Some(JNull) => Some([])
    case Some(JArr(items)) =>
      if AllStrings(items) then
        assert StrArray(Strings(items)).items == items;
        Some(Strings(items))
      else None
    case Some(_) => None
  }

  lemma StrArrayOfStrings(items: seq<JValue>)
    requires AllStrings(items)
    ensures StrArray(Strings(items)) == JArr(items)
  {
    assert StrArray(Strings(items)).items == items;
  }

  lemma ObjArrayOfObjects(items: seq<JValue>)
    requires AllObjects(items)
    ensures ObjArray(Objects(items)) == JArr(items)
  {
    assert ObjArray(Objects(items)).items == items;
  }
}
