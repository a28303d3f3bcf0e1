/** Blue Archive: the name side of `blue_archive/get_resources_v2.py` —
    the legacy image-name table, the default translation derived from a
    character record, the merge of that default into the translation store,
    and short names. */
module BlueArchiveNames {
  import opened Wrappers
  import opened Text

  /** A character record of the game data (`CharData`). */
  datatype CharData = CharData(
    id: string,
    familyName: string,
    personalName: string,
    familyNameRuby: string,
    personalNameRuby: string,
    familyNameKr: string,
    personalNameKr: string,
    imageFiles: seq<string>)

  /** A translation-store record (`CharLangData`): a name per language and
      an optional short name per language. */
  datatype LangData = LangData(
    id: string,
    name: map<string, string>,
    shortName: Option<map<string, string>>)

  /** The ways a Blue Archive run aborts; each is an exception or a failed
      `assert` in the script. */
  datatype Error =
    | EmptyIdSegment(id: string)              // `s[0]` on an empty piece of the id
    | MissingJapaneseName(id: string)         // `trans.name["ja"]` on a stored entry without it
    | NoPortraitMarker(image: string)         // `name.index("Portrait_")`
    | EmptyImageName(image: string)           // `assert len(name) > 0`
    | DuplicateImageName(name: string)        // `assert name not in avatar_files`
    | MissingImageFile(path: string)          // `assert img_file.exists()`
    | ReportWithoutImage(id: string)          // `char.images[0]` in a report
    | BadStampName(path: string)              // `split("_")[2]` or `int(...)` in the stamp key
    | MissingGroupTypeTitle(key: string)      // `type_names[key]`
    | MissingGroupName(group: string, lang: string) // `gp.name[k]`

  /** The language codes of the translation store. */
  const AllLangs: seq<string> := ["ja", "en", "ko", "zh-cn", "zh-tw"]

  /** The one stored Japanese name that is never refreshed from the game data. */
  const ProtectedJaName: string := "初音ミク"

  predicate HasAllLangs(name: map<string, string>) {
    forall l :: l in AllLangs ==> l in name
  }

  // ---------------------------------------------------------------- legacy image names

  /** `get_legacy_image_mappings`: for every entry `k: v` of the legacy table
      with a non-empty `v`, the last path segment of `v` maps back to `k`;
      a later entry wins over an earlier one with the same segment. */
  function LegacyImageMappings(entries: seq<(string, string)>): (m: map<string, string>)
    ensures forall b :: b in m <==>
      exists i :: 0 <= i < |entries| && |entries[i].1| > 0 && LastSegment(entries[i].1, '/') == b
  {
    if entries == [] then map[]
    else
      var prefix := entries[..|entries| - 1];
      var (k, v) := entries[|entries| - 1];
      var m := LegacyImageMappings(prefix);
      assert forall i :: 0 <= i < |prefix| ==> prefix[i] == entries[i];
      if |v| > 0 then m[LastSegment(v, '/') := k] else m
  }

  /** An entry is the one a lookup finds unless a later non-empty entry has the same last segment. */
  lemma {:induction false} LegacyImageMappingsLastWins(entries: seq<(string, string)>, i: nat)
    requires i < |entries| && |entries[i].1| > 0
    requires forall j :: i < j < |entries| && |entries[j].1| > 0 ==>
      LastSegment(entries[j].1, '/') != LastSegment(entries[i].1, '/')
    ensures var b := LastSegment(entries[i].1, '/');
      b in LegacyImageMappings(entries) && LegacyImageMappings(entries)[b] == entries[i].0
  {
    var prefix := entries[..|entries| - 1];
    if i < |entries| - 1 {
      assert prefix[i] == entries[i];
      LegacyImageMappingsLastWins(prefix, i);
    }
  }

  // ---------------------------------------------------------------- default translation

  /** The pieces of a split id other than the literal "npc", in order. */
  function WithoutNpc(parts: seq<string>): (kept: seq<string>)
    ensures forall s :: s in kept <==> s in parts && s != "npc"
    ensures |kept| <= |parts|
  {
    if parts == [] then []
    else if parts[0] == "npc" then WithoutNpc(parts[1..])
    else [parts[0]] + WithoutNpc(parts[1..])
  }

  /** `[s[0].upper() + s[1:] for s in parts]`, None where some `s` is empty. */
  function CapitalizeAll(parts: seq<string>): (r: Option<seq<string>>)
    ensures r.Some? <==> forall i :: 0 <= i < |parts| ==> |parts[i]| > 0
    ensures r.Some? ==> |r.value| == |parts|
    ensures r.Some? ==> forall i :: 0 <= i < |parts| ==> |parts[i]| > 0 && r.value[i] == Capitalize(parts[i])
  {
    if parts == [] then Some([])
    else if |parts[0]| == 0 then None
    else match CapitalizeAll(parts[1..])
      case None => None
      case Some(rest) => Some([Capitalize(parts[0])] + rest)
  }

  /** The id's underscore-separated pieces that the English name is made of. */
  function KeptSegments(id: string): seq<string> {
    WithoutNpc(Split(id, '_'))
  }

  /** The English name of a character without a family name: the id's pieces
      except "npc", each with its first letter upper-cased, joined by spaces. */
  function EnglishFromId(id: string): (r: Result<string, Error>)
    ensures r.Ok? <==> forall i :: 0 <= i < |KeptSegments(id)| ==> |KeptSegments(id)[i]| > 0
  {
    match CapitalizeAll(KeptSegments(id))
    case None => Err(EmptyIdSegment(id))
    case Some(words) => Ok(Join(words, ' '))
  }

  /** The English name splits back into one capitalised word per kept piece of the id. */
  lemma EnglishFromIdWords(id: string)
    requires EnglishFromId(id).Ok? && ' ' !in id && |KeptSegments(id)| > 0
    ensures var words, kept := Split(EnglishFromId(id).value, ' '), KeptSegments(id);
      && |words| == |kept|
      && forall i :: 0 <= i < |words| ==>
           && words[i] == Capitalize(kept[i])
           && words[i][1..] == kept[i][1..]
  {
    var kept := KeptSegments(id);
    var words := CapitalizeAll(kept).value;
    forall i | 0 <= i < |words| ensures ' ' !in words[i] {
      assert kept[i] in Split(id, '_');
      var k :| 0 <= k < |Split(id, '_')| && Split(id, '_')[k] == kept[i];
      JoinSplit(id, '_');
      SegmentIn(Split(id, '_'), k, '_');
      assert ' ' !in kept[i];
      assert words[i] == [Upper(kept[i][0])] + kept[i][1..];
    }
    SplitJoin(words, ' ');
  }

  /** An example of `WithoutNpc`: the comparison is case-sensitive, so the
      "NPC" and "Npc" pieces stay and only the lower-case piece is dropped. */
  lemma NpcFilterIsCaseSensitive()
    ensures WithoutNpc(["npc", "NPC", "Npc", "shop"]) == ["NPC", "Npc", "shop"]
  {
    assert "NPC" != "npc" && "Npc" != "npc" && "shop" != "npc";
  }

  /** Every character of a piece is a character of the joined string. */
  lemma {:induction false} SegmentIn(parts: seq<string>, k: nat, sep: char)
    requires k < |parts|
    ensures forall c :: c in parts[k] ==> c in Join(parts, sep)
  {
    if k > 0 {
      SegmentIn(parts[1..], k - 1, sep);
    }
  }

  /** The default translation record, with an empty short-name table. */
  function DefaultRecord(id: string, ja: string, en: string, ko: string): LangData {
    LangData(id, map["ja" := ja, "en" := en, "ko" := ko, "zh-cn" := "", "zh-tw" := ""], None)
  }

  /** `get_default_lang_data`; `romanize` stands for `name_to_id`. */
  function DefaultLangData(d: CharData, romanize: string -> string): (r: Result<LangData, Error>)
    ensures r.Ok? <==> |d.familyName| > 0 || EnglishFromId(d.id).Ok?
    ensures r.Ok? ==> r.value.id == d.id && r.value.shortName.None?
    ensures r.Ok? ==> r.value.name.Keys == set l | l in AllLangs
    ensures r.Ok? ==> r.value.name["zh-cn"] == "" && r.value.name["zh-tw"] == ""
  {
    if |d.familyName| > 0 then
      var ja := d.familyName + " " + d.personalName;
      var en := if |d.personalNameRuby| > 0
        then romanize(d.familyNameRuby) + " " + romanize(d.personalNameRuby)
        else romanize(d.familyNameRuby) + " " + d.id;
      var ko := Strip(d.familyNameKr + " " + d.personalNameKr);
      Ok(DefaultRecord(d.id, ja, en, ko))
    else
      match EnglishFromId(d.id)
      case Err(e) => Err(e)
      case Ok(en) => Ok(DefaultRecord(d.id, d.personalName, en, ""))
  }

  /** Which names the default takes. With a family name: "family personal"
      in Japanese, the romanised family name followed by the romanised
      personal name (or by the id when the personal reading is empty) in
      English, and the Korean parts joined and stripped of outer whitespace.
      Without one: the personal name in Japanese, the name made from the id
      in English, and no Korean name. */
  lemma DefaultNameRules(d: CharData, romanize: string -> string)
    requires DefaultLangData(d, romanize).Ok?
    ensures var n := DefaultLangData(d, romanize).value.name;
      && (|d.familyName| > 0 ==>
            && n["ja"] == d.familyName + " " + d.personalName
            && n["en"] == romanize(d.familyNameRuby) + " "
                          + (if |d.personalNameRuby| > 0 then romanize(d.personalNameRuby) else d.id)
            && n["ko"] == Strip(d.familyNameKr + " " + d.personalNameKr)
            && (n["ko"] == [] || (!IsSpace(n["ko"][0]) && !IsSpace(n["ko"][|n["ko"]| - 1]))))
      && (|d.familyName| == 0 ==>
            && n["ja"] == d.personalName
            && n["en"] == EnglishFromId(d.id).value
            && n["ko"] == "")
  {
    if |d.familyName| > 0 {
      DefaultNameWithFamily(d, romanize);
    } else {
      assert DefaultLangData(d, romanize).value.name
        == DefaultRecord(d.id, d.personalName, EnglishFromId(d.id).value, "").name;
    }
  }

  lemma DefaultNameWithFamily(d: CharData, romanize: string -> string)
    requires |d.familyName| > 0
    ensures var n, ko := DefaultLangData(d, romanize).value.name, Strip(d.familyNameKr + " " + d.personalNameKr);
      && n["ja"] == d.familyName + " " + d.personalName
      && n["en"] == romanize(d.familyNameRuby) + " "
                    + (if |d.personalNameRuby| > 0 then romanize(d.personalNameRuby) else d.id)
      && n["ko"] == ko
      && (ko == [] || (!IsSpace(ko[0]) && !IsSpace(ko[|ko| - 1])))
  {
    var ja := d.familyName + " " + d.personalName;
    var en := if |d.personalNameRuby| > 0
      then romanize(d.familyNameRuby) + " " + romanize(d.personalNameRuby)
      else romanize(d.familyNameRuby) + " " + d.id;
    var ko := Strip(d.familyNameKr + " " + d.personalNameKr);
    StripEnds(d.familyNameKr + " " + d.personalNameKr);
    assert DefaultLangData(d, romanize) == Ok(DefaultRecord(d.id, ja, en, ko));
  }

  // ---------------------------------------------------------------- merge into the store

  /** A stored Japanese name the game data has moved away from (and that is not protected). */
  predicate IsStale(t: LangData, def: LangData)
    requires "ja" in t.name && "ja" in def.name
  {
    t.name["ja"] != def.name["ja"] && t.name["ja"] != ProtectedJaName
  }

  /** The store's name table after `for lang in langs: if lang not in name: name[lang] = def[lang]`. */
  function Backfill(name: map<string, string>, def: map<string, string>, langs: seq<string>): (r: map<string, string>)
    requires forall l :: l in langs ==> l in def
    decreases |langs|
  {
    if langs == [] then name
    else
      var l := langs[0];
      Backfill(if l in name then name else name[l := def[l]], def, langs[1..])
  }

  lemma {:induction false} BackfillKeeps(name: map<string, string>, def: map<string, string>, langs: seq<string>)
    requires forall l :: l in langs ==> l in def
    ensures var r := Backfill(name, def, langs);
      && r.Keys == name.Keys + (set l | l in langs)
      && (forall l :: l in name ==> r[l] == name[l])
      && (forall l :: l in langs && l !in name ==> r[l] == def[l])
    decreases |langs|
  {
    if langs != [] {
      var l := langs[0];
      var next := if l in name then name else name[l := def[l]];
      BackfillKeeps(next, def, langs[1..]);
    }
  }

  /** Lines 81-100 for one character: the store entry after the merge, and
      whether the merge changed the store. */
  function MergeEntry(existing: Option<LangData>, def: LangData): Result<(LangData, bool), Error>
    requires HasAllLangs(def.name)
  {
    match existing
    case None => Ok((def, true))
    case Some(t) =>
      if "ja" !in t.name then Err(MissingJapaneseName(def.id))
      else
        var stale := IsStale(t, def);
        var refreshed := if stale then t.name["ja" := def.name["ja"]]["en" := def.name["en"]] else t.name;
        Ok((t.(name := Backfill(refreshed, def.name, AllLangs)), stale || !HasAllLangs(refreshed)))
  }

  /** The merge rules: a new id adopts the default; a stale Japanese name
      brings the default's Japanese and English names; a missing language is
      taken from the default; nothing else is touched; and the store is
      marked changed exactly when the entry changed. */
  lemma MergeEntryRules(existing: Option<LangData>, def: LangData)
    requires HasAllLangs(def.name)
    ensures existing.None? ==> MergeEntry(existing, def) == Ok((def, true))
    ensures existing.Some? ==> (MergeEntry(existing, def).Err? <==> "ja" !in existing.value.name)
    ensures existing.Some? && MergeEntry(existing, def).Ok? ==>
      var t, e, changed := existing.value, MergeEntry(existing, def).value.0, MergeEntry(existing, def).value.1;
      var stale := IsStale(t, def);
      && e.id == t.id && e.shortName == t.shortName
      && HasAllLangs(e.name)
      && e.name.Keys == t.name.Keys + (set l | l in AllLangs)
      && (stale ==> e.name["ja"] == def.name["ja"] && e.name["en"] == def.name["en"])
      && (forall l :: l in t.name && !(stale && (l == "ja" || l == "en")) ==> e.name[l] == t.name[l])
      && (forall l :: l in AllLangs && l !in t.name ==> e.name[l] == def.name[l])
      && (e.name["ja"] == def.name["ja"] || e.name["ja"] == ProtectedJaName)
      && (changed <==> stale || !HasAllLangs(t.name))
      && (changed <==> e != t)
  {
    if existing.Some? && "ja" in existing.value.name {
      MergedName(existing.value, def);
      MergedChange(existing.value, def);
    }
  }

  /** The merged name table of a stored entry. */
  lemma MergedName(t: LangData, def: LangData)
    requires HasAllLangs(def.name) && "ja" in t.name
    ensures MergeEntry(Some(t), def).Ok?
    ensures var e, stale := MergeEntry(Some(t), def).value.0, IsStale(t, def);
      && e.id == t.id && e.shortName == t.shortName
      && e.name.Keys == t.name.Keys + (set l | l in AllLangs)
      && (stale ==> e.name["ja"] == def.name["ja"] && e.name["en"] == def.name["en"])
      && (forall l :: l in t.name && !(stale && (l == "ja" || l == "en")) ==> e.name[l] == t.name[l])
      && (forall l :: l in AllLangs && l !in t.name ==> e.name[l] == def.name[l])
  {
    var stale := IsStale(t, def);
    var refreshed := if stale then t.name["ja" := def.name["ja"]]["en" := def.name["en"]] else t.name;
    BackfillKeeps(refreshed, def.name, AllLangs);
  }

  /** The merge reports a change exactly when the entry changed. */
  lemma MergedChange(t: LangData, def: LangData)
    requires HasAllLangs(def.name) && "ja" in t.name
    ensures MergeEntry(Some(t), def).Ok?
    ensures var e, changed := MergeEntry(Some(t), def).value.0, MergeEntry(Some(t), def).value.1;
      && HasAllLangs(e.name)
      && (e.name["ja"] == def.name["ja"] || e.name["ja"] == ProtectedJaName)
      && (changed <==> IsStale(t, def) || !HasAllLangs(t.name))
      && (changed <==> e != t)
  {
    var stale := IsStale(t, def);
    var refreshed := if stale then t.name["ja" := def.name["ja"]]["en" := def.name["en"]] else t.name;
    BackfillKeeps(refreshed, def.name, AllLangs);
    var e := MergeEntry(Some(t), def).value.0;
    if stale {
      assert e.name["ja"] != t.name["ja"];
    } else if !HasAllLangs(t.name) {
      var l :| l in AllLangs && l !in t.name;
      assert l in e.name.Keys;
      assert e.name.Keys != t.name.Keys;
    } else {
      assert e.name == t.name;
    }
  }

  /** A stored entry that already agrees with the default is left as it is. */
  lemma MergeEntryFixpoint(t: LangData, def: LangData)
    requires HasAllLangs(def.name) && HasAllLangs(t.name)
    requires t.name["ja"] == def.name["ja"] || t.name["ja"] == ProtectedJaName
    ensures MergeEntry(Some(t), def) == Ok((t, false))
  {
    BackfillKeeps(t.name, def.name, AllLangs);
    assert Backfill(t.name, def.name, AllLangs) == t.name;
  }

  /** Lines 81-100 as the script runs them. */
  method MergeTranslation(existing: Option<LangData>, def: LangData) returns (r: Result<(LangData, bool), Error>)
    requires HasAllLangs(def.name)
    ensures r == MergeEntry(existing, def)
  {
    if existing.None? {
      return Ok((def, true));
    }
    var trans := existing.value;
    if "ja" !in trans.name {
      return Err(MissingJapaneseName(def.id));
    }
    var updated := false;
    if trans.name["ja"] != def.name["ja"] && trans.name["ja"] != ProtectedJaName {
      trans := trans.(name := trans.name["ja" := def.name["ja"]]["en" := def.name["en"]]);
      updated := true;
    }
    var name, added := BackfillLanguages(trans.name, def.name);
    return Ok((trans.(name := name), updated || added));
  }

  /** The loop of lines 94-97: each missing language, in order, is copied
      from the default; `added` says whether any was. */
  method BackfillLanguages(start: map<string, string>, def: map<string, string>) returns (name: map<string, string>, added: bool)
    requires HasAllLangs(def)
    ensures name == Backfill(start, def, AllLangs)
    ensures added <==> !HasAllLangs(start)
  {
    name := start;
    added := false;
    var i := 0;
    while i < |AllLangs|
      invariant 0 <= i <= |AllLangs|
      invariant Backfill(start, def, AllLangs) == Backfill(name, def, AllLangs[i..])
      invariant start.Keys <= name.Keys
      invariant added <==> name.Keys != start.Keys
    {
      var lang := AllLangs[i];
      BackfillAt(name, def, i);
      if lang !in name {
        name := name[lang := def[lang]];
        added := true;
      }
      i := i + 1;
    }
    assert AllLangs[i..] == [];
    BackfillKeeps(start, def, AllLangs);
  }

  /** One turn of that loop, as `Backfill` sees it. */
  lemma BackfillAt(name: map<string, string>, def: map<string, string>, i: nat)
    requires HasAllLangs(def) && i < |AllLangs|
    ensures Backfill(name, def, AllLangs[i..])
      == Backfill(if AllLangs[i] in name then name else name[AllLangs[i] := def[AllLangs[i]]], def, AllLangs[i + 1..])
  {
    assert AllLangs[i..][0] == AllLangs[i] && AllLangs[i..][1..] == AllLangs[i + 1..];
  }

  // ---------------------------------------------------------------- short names

  /** `short_name[lang]` kept when present and non-empty, else the last space-separated word of the name. */
  function FillShortNames(short: map<string, string>, name: map<string, string>, langs: seq<string>): (r: map<string, string>)
    requires forall l :: l in langs ==> l in name
    decreases |langs|
  {
    if langs == [] then short
    else
      var l := langs[0];
      var next := if l !in short || |short[l]| == 0 then short[l := LastSegment(name[l], ' ')] else short;
      FillShortNames(next, name, langs[1..])
  }

  /** The short-name table a character gets (lines 102-105). */
  function ShortNames(t: LangData): map<string, string>
    requires HasAllLangs(t.name)
  {
    var start := if t.shortName.Some? then t.shortName.value else map[];
    FillShortNames(start, t.name, AllLangs)
  }

  lemma {:induction false} FillShortNamesRule(short: map<string, string>, name: map<string, string>, langs: seq<string>)
    requires forall l :: l in langs ==> l in name
    ensures var r := FillShortNames(short, name, langs);
      && r.Keys == short.Keys + (set l | l in langs)
      && (forall l :: l in short && l !in langs ==> r[l] == short[l])
      && (forall l :: l in langs ==>
            r[l] == if l in short && |short[l]| > 0 then short[l] else LastSegment(name[l], ' '))
    decreases |langs|
  {
    if langs != [] {
      var l := langs[0];
      var next := if l !in short || |short[l]| == 0 then short[l := LastSegment(name[l], ' ')] else short;
      FillShortNamesRule(next, name, langs[1..]);
    }
  }

  /** Every language gets a short name: the stored one if non-empty, else the
      name's last space-separated word, which is a suffix of the name without spaces. */
  lemma ShortNamesRule(t: LangData)
    requires HasAllLangs(t.name)
    ensures var r, start := ShortNames(t), if t.shortName.Some? then t.shortName.value else map[];
      && r.Keys == start.Keys + (set l | l in AllLangs)
      && (forall l :: l in start && l !in AllLangs ==> r[l] == start[l])
      && (forall l :: l in AllLangs && l in start && |start[l]| > 0 ==> r[l] == start[l])
      && (forall l :: l in AllLangs && !(l in start && |start[l]| > 0) ==>
            && r[l] == LastSegment(t.name[l], ' ')
            && ' ' !in r[l] && EndsWith(t.name[l], r[l]))
  {
    var start := if t.shortName.Some? then t.shortName.value else map[];
    FillShortNamesRule(start, t.name, AllLangs);
    forall l | l in AllLangs ensures ' ' !in LastSegment(t.name[l], ' ') && EndsWith(t.name[l], LastSegment(t.name[l], ' ')) {
      LastSegmentIsSuffix(t.name[l], ' ');
    }
  }

  /** Lines 102-105 as the script runs them: a loop over the languages. */
  method ComputeShortNames(t: LangData) returns (short: map<string, string>)
    requires HasAllLangs(t.name)
    ensures short == ShortNames(t)
  {
    short := if t.shortName.Some? then t.shortName.value else map[];
    var i := 0;
    while i < |AllLangs|
      invariant 0 <= i <= |AllLangs|
      invariant ShortNames(t) == FillShortNames(short, t.name, AllLangs[i..])
    {
      var lang := AllLangs[i];
      if lang !in short || |short[lang]| == 0 {
        short := short[lang := LastSegment(t.name[lang], ' ')];
      }
      i := i + 1;
    }
  }
}
