/** Arknights: `get_filters` of `arknights/get_resources.py` — a single
    "type" category whose groups are the type tags `get_chars` gives
    operators, enemies and tokens, with only operators selected. */
module ArknightsFilters {
  import opened Wrappers
  import opened Text
  import opened Models
  import opened ArknightsChars

  /** The translation file maps each key to its names by language. */
  type Translations = map<string, map<string, string>>

  /** The Python `KeyError` of a translation the file does not have. */
  datatype FilterError = MissingTranslation(key: string)

  const TypeKey: string := "type"
  const TypeIds: seq<string> := [":#type-char", ":#type-enemy", ":#type-token"]
  const TypeNameKeys: seq<string> := ["operator", "enemy", "token"]
  const TypeSelected: seq<bool> := [true, false, false]

  /** `[translations[k] for k in keys]`: the first missing key fails. */
  function Lookup(t: Translations, keys: seq<string>): (r: Result<seq<map<string, string>>, FilterError>)
    ensures r.Ok? <==> forall i :: 0 <= i < |keys| ==> keys[i] in t
    ensures r.Ok? ==> |r.value| == |keys| && forall i :: 0 <= i < |keys| ==> keys[i] in t && r.value[i] == t[keys[i]]
    ensures r.Err? ==> exists i :: (0 <= i < |keys| && keys[i] !in t && r.error == MissingTranslation(keys[i])
      && forall j :: 0 <= j < i ==> keys[j] in t)
  {
    if keys == [] then Ok([])
    else if keys[0] !in t then Err(MissingTranslation(keys[0]))
    else match Lookup(t, keys[1..])
      case Err(e) =>
        assert forall j :: 0 <= j < |keys[1..]| ==> keys[1..][j] == keys[j + 1];
        Err(e)
      case Ok(rest) => Ok([t[keys[0]]] + rest)
  }

  /** The category: the title is read first, then the group names in order. */
  function GetFiltersSpec(t: Translations): Result<seq<FilterGroup>, FilterError> {
    if TypeKey !in t then Err(MissingTranslation(TypeKey))
    else match Lookup(t, TypeNameKeys)
      case Err(e) => Err(e)
      case Ok(names) => Ok([FilterGroup(TypeKey, t[TypeKey], TypeIds, names, TypeSelected)])
  }

  /** `get_filters` fails exactly when the file lacks "type" or a group
      name, naming the first missing key in the order the script reads
      them; otherwise it returns one category "type" titled by the file,
      with a name and a flag per type id, only the first selected. */
  lemma GetFiltersMeaning(t: Translations)
    ensures GetFiltersSpec(t).Ok? <==> TypeKey in t && "operator" in t && "enemy" in t && "token" in t
    ensures TypeKey !in t ==> GetFiltersSpec(t) == Err(MissingTranslation(TypeKey))
    ensures TypeKey in t && "operator" !in t ==> GetFiltersSpec(t) == Err(MissingTranslation("operator"))
    ensures TypeKey in t && "operator" in t && "enemy" !in t ==> GetFiltersSpec(t) == Err(MissingTranslation("enemy"))
    ensures TypeKey in t && "operator" in t && "enemy" in t && "token" !in t ==> GetFiltersSpec(t) == Err(MissingTranslation("token"))
    ensures GetFiltersSpec(t).Ok? ==>
      var gs := GetFiltersSpec(t).value;
      && |gs| == 1 && gs[0].key == TypeKey && gs[0].title == t[TypeKey]
      && gs[0].ids == TypeIds
      && gs[0].names == [t["operator"], t["enemy"], t["token"]]
      && |gs[0].selected| == |gs[0].ids|
      && forall i :: 0 <= i < |gs[0].selected| ==> (gs[0].selected[i] <==> i == 0)
  {
    var r := Lookup(t, TypeNameKeys);
    assert TypeNameKeys[0] == "operator" && TypeNameKeys[1] == "enemy" && TypeNameKeys[2] == "token";
    if r.Err? {
      var i :| 0 <= i < |TypeNameKeys| && TypeNameKeys[i] !in t && r.error == MissingTranslation(TypeNameKeys[i])
        && forall j :: 0 <= j < i ==> TypeNameKeys[j] in t;
    }
  }

  /** The type of an id is its part before the first '_'. */
  lemma TypeTagOfPrefix(prefix: string, rest: string)
    requires '_' !in prefix
    ensures TypeTag(prefix + "_" + rest) == ":#type-" + prefix
  {
    SplitPrefix(prefix, rest, '_');
  }

  /** The filter's ids are the tags `get_chars` gives: operators whose id
      starts with "char_", every enemy, and ids starting with "token_". */
  lemma TypeIdsAreCharacterTags(rest: string)
    ensures TypeIds[0] == TypeTag("char_" + rest)
    ensures TypeIds[1] == EnemyTag
    ensures TypeIds[2] == TypeTag("token_" + rest)
  {
    TypeTagOfPrefix("char", rest);
    TypeTagOfPrefix("token", rest);
    assert "char" + "_" + rest == "char_" + rest;
    assert "token" + "_" + rest == "token_" + rest;
    assert ":#type-" + "char" == TypeIds[0] && ":#type-" + "token" == TypeIds[2];
  }

  /** `get_filters`, building the group names one key at a time. */
  method GetFilters(t: Translations) returns (r: Result<seq<FilterGroup>, FilterError>)
    ensures r == GetFiltersSpec(t)
  {
    if TypeKey !in t {
      return Err(MissingTranslation(TypeKey));
    }
    var title := t[TypeKey];
    var names: seq<map<string, string>> := [];
    for i := 0 to |TypeNameKeys|
      invariant |names| == i
      invariant forall j :: 0 <= j < i ==> TypeNameKeys[j] in t && names[j] == t[TypeNameKeys[j]]
    {
      var k := TypeNameKeys[i];
      if k !in t {
        var e := Lookup(t, TypeNameKeys);
        var i' :| 0 <= i' < |TypeNameKeys| && TypeNameKeys[i'] !in t && e.error == MissingTranslation(TypeNameKeys[i'])
          && forall j :: 0 <= j < i' ==> TypeNameKeys[j] in t;
        assert i' == i;
        return Err(MissingTranslation(k));
      }
      names := names + [t[k]];
    }
    assert names == Lookup(t, TypeNameKeys).value;
    r := Ok([FilterGroup(TypeKey, title, TypeIds, names, TypeSelected)]);
  }
}
