/** Arknights: `get_chars` of `arknights/get_resources.py` — operators that
    have a sprite (with their skins, and Amiya's alternate forms), then
    enemies that have one, then every other language's names, then Closure
    if no sprite gave her. */
module ArknightsChars {
  import opened Wrappers
  import opened Text
  import opened Sorting
  import opened Models
  import opened ArknightsSprites

  /** The languages of the game data; names are filled in for all but the first. */
  const Langs: seq<string> := ["zh-cn", "ja", "en", "ko", "zh-tw"]

  const AmiyaId: string := "char_002_amiya"
  const AmiyaAlts: seq<string> := ["char_1001_amiya2", "char_1037_amiya3", "npc_1295_amiya"]
  const EnemyTag: string := ":#type-enemy"
  const ClosureId: string := "char_007_closre"

  /** Closure's names in every language. */
  const ClosureNames: map<string, string> := map[
    "zh-cn" := "可露希尔",
    "zh-tw" := "可露希爾",
    "ja" := "クロージャ",
    "en" := "Closure",
    "ko" := "클로저"]

  /** The fields of a row of `character_table.json` that the catalog reads. */
  datatype CharRow = CharRow(name: string, appellation: string)

  /** The loaded inputs: the items of the Chinese character and enemy
      tables, the name of every row of each language's two tables, the
      character and enemy sprite files (in glob order), and the resource root. */
  datatype AkInputs = AkInputs(
    chars: seq<(string, CharRow)>,
    enemies: seq<(string, string)>,
    charNames: map<string, map<string, string>>,
    enemyNames: map<string, map<string, string>>,
    charSprites: seq<Sprite>,
    enemySprites: seq<Sprite>,
    resRoot: string)

  /** What the loops build: the characters, the avatar files by image name,
      and each operator's appellation. */
  datatype Catalog = Catalog(characters: seq<Character>, avatars: map<string, string>, appellations: map<string, string>)

  /** `sorted(table.items(), key=lambda pair: pair[0])`. */
  function KeyLe<T>(a: (string, T), b: (string, T)): bool {
    LexLe(a.0, b.0)
  }

  lemma KeyLeIsTotalPreorder<T(!new)>()
    ensures IsTotalPreorder(KeyLe<T>)
  {
    forall a: (string, T), b: (string, T) ensures KeyLe(a, b) || KeyLe(b, a) {
      LexLeTotal(a.0, b.0);
    }
    forall a: (string, T), b: (string, T), c: (string, T) | KeyLe(a, b) && KeyLe(b, c) ensures KeyLe(a, c) {
      LexLeTransitive(a.0, b.0, c.0);
    }
  }

  function ZhName(name: string): map<string, string> {
    map["zh-cn" := name]
  }

  /** `f":#type-{k.split('_')[0]}"`. */
  function TypeTag(id: string): string {
    ":#type-" + Split(id, '_')[0]
  }

  /** A skin of `k`: a stem that starts with `k` and is not `k`. */
  function IsSkinOf(k: string): string -> bool {
    s => StartsWith(s, k) && s != k
  }

  /** A stem of one of Amiya's alternate forms, the form itself excluded. */
  predicate IsAmiyaAlt(s: string) {
    exists alt :: alt in AmiyaAlts && StartsWith(s, alt) && s != alt
  }

  // ---------------------------------------------------------------- operators

  /** The image list of operator `k` and the avatar files after it: `[k]`,
      its skins, then for Amiya the alternate forms, through `add_sprite_file`. */
  function OperatorImages(k: string, avatars: map<string, string>, sprites: seq<Sprite>): Skins {
    var skins := AddMatching(Skins({}, [k], avatars), sprites, IsSkinOf(k));
    if k == AmiyaId then AddMatching(skins, sprites, IsAmiyaAlt) else skins
  }

  /** One turn of the loop of lines 119-151. */
  function Operator(cat: Catalog, item: (string, CharRow), sprites: seq<Sprite>): Catalog {
    var (k, row) := item;
    match FirstWithStem(sprites, k)
    case None => cat
    case Some(i) =>
      var skins := OperatorImages(k, cat.avatars[k := sprites[i].path], sprites);
      Catalog(
        cat.characters + [Character(k, ZhName(row.name), ZhName(row.name), skins.images, [row.appellation, TypeTag(k)])],
        skins.avatars,
        cat.appellations[k := row.appellation])
  }

  function Operators(cat: Catalog, items: seq<(string, CharRow)>, sprites: seq<Sprite>): Catalog
    decreases |items|
  {
    if items == [] then cat
    else Operator(Operators(cat, items[..|items| - 1], sprites), items[|items| - 1], sprites)
  }

  // ---------------------------------------------------------------- enemies

  /** One turn of the loop of lines 161-172. */
  function Enemy(cat: Catalog, item: (string, string), sprites: seq<Sprite>): Catalog {
    var (k, name) := item;
    if name == "-" then cat
    else match FirstWithStem(sprites, k)
      case None => cat
      case Some(i) =>
        Catalog(
          cat.characters + [Character(k, ZhName(name), ZhName(name), [k], [EnemyTag])],
          cat.avatars[k := sprites[i].path],
          cat.appellations)
  }

  function Enemies(cat: Catalog, items: seq<(string, string)>, sprites: seq<Sprite>): Catalog
    decreases |items|
  {
    if items == [] then cat
    else Enemy(Enemies(cat, items[..|items| - 1], sprites), items[|items| - 1], sprites)
  }

  // ---------------------------------------------------------------- other languages

  /** A language's table, by id; the traditional Chinese tables are not
      read and count as empty. */
  function Table(tables: map<string, map<string, string>>, lang: string): map<string, string> {
    if lang == "zh-tw" || lang !in tables then map[] else tables[lang]
  }

  /** `all_tables[lang]`: the character table updated with the enemy table. */
  function NameTable(inp: AkInputs, lang: string): map<string, string> {
    Table(inp.charNames, lang) + Table(inp.enemyNames, lang)
  }

  /** `appellations[id]` on a `defaultdict(str)`. */
  function Appellation(apps: map<string, string>, id: string): string {
    if id in apps then apps[id] else ""
  }

  /** The name of `id` in `lang`: the table's name when it is there and not
      empty, otherwise the appellation for English and Japanese and ""
      for the other languages. */
  function LangName(id: string, lang: string, tbl: map<string, string>, apps: map<string, string>): (r: string)
    ensures id in tbl && tbl[id] != "" ==> r == tbl[id]
    ensures (id !in tbl || tbl[id] == "") && (lang == "en" || lang == "ja") ==> r == Appellation(apps, id)
    ensures (id !in tbl || tbl[id] == "") && lang != "en" && lang != "ja" ==> r == ""
  {
    var name := if id in tbl then tbl[id] else "";
    if name == "" && (lang == "en" || lang == "ja") then Appellation(apps, id) else name
  }

  /** `ch.names[lang] = ch.short_names[lang] = name`. */
  function FillOne(c: Character, lang: string, tbl: map<string, string>, apps: map<string, string>): Character {
    var name := LangName(c.id, lang, tbl, apps);
    c.(names := c.names[lang := name], shortNames := c.shortNames[lang := name])
  }

  /** The inner loop of lines 182-186, over every character. */
  function FillLang(cs: seq<Character>, lang: string, tbl: map<string, string>, apps: map<string, string>): (r: seq<Character>)
    ensures |r| == |cs| && forall i :: 0 <= i < |cs| ==> r[i] == FillOne(cs[i], lang, tbl, apps)
  {
    seq(|cs|, i requires 0 <= i < |cs| => FillOne(cs[i], lang, tbl, apps))
  }

  /** The outer loop of lines 180-186, over the languages. */
  function FillLangs(cs: seq<Character>, langs: seq<string>, inp: AkInputs, apps: map<string, string>): seq<Character>
    decreases |langs|
  {
    if langs == [] then cs
    else FillLangs(FillLang(cs, langs[0], NameTable(inp, langs[0]), apps), langs[1..], inp, apps)
  }

  // ---------------------------------------------------------------- Closure

  function ClosureCharacter(): Character {
    Character(ClosureId, ClosureNames, ClosureNames, [ClosureId], [])
  }

  function ClosurePath(resRoot: string): string {
    resRoot + "/cn/assets/spritepack/ui_char_avatar_h1_0/" + ClosureId + "_1.png"
  }

  /** Lines 189-205: without a sprite for Closure, she is put first with a fixed file. */
  function WithClosure(cs: seq<Character>, avatars: map<string, string>, resRoot: string): (seq<Character>, map<string, string>) {
    if ClosureId in avatars then (cs, avatars)
    else ([ClosureCharacter()] + cs, avatars[ClosureId := ClosurePath(resRoot)])
  }

  /** `get_chars`: the characters and the avatar files (its third result, the image configuration, is always empty). */
  function GetCharsSpec(inp: AkInputs): (seq<Character>, map<string, string>) {
    var all := Collected(inp);
    WithClosure(FillLangs(all.characters, Langs[1..], inp, all.appellations), all.avatars, inp.resRoot)
  }

  /** The operators in id order, then the enemies in id order. */
  function Collected(inp: AkInputs): Catalog {
    var ops := Operators(Catalog([], map[], map[]), SortBy(inp.chars, KeyLe), inp.charSprites);
    Enemies(ops, SortBy(inp.enemies, KeyLe), inp.enemySprites)
  }

  // ---------------------------------------------------------------- what an operator gets

  lemma AmiyaIsNoAlt()
    ensures !IsAmiyaAlt(AmiyaId)
  {
    assert AmiyaId[0] == 'c' && "npc_1295_amiya"[0] == 'n';
    assert |AmiyaId| < |"char_1001_amiya2"| && |AmiyaId| < |"char_1037_amiya3"|;
  }

  /** The stems a sprite loop adds to operator `k`'s images, on top of `[k]`:
      its skins, then for Amiya the alternate forms not already taken. */
  function AddedStems(k: string, sprites: seq<Sprite>): seq<string> {
    var skins := FirstOccurrences(sprites, IsSkinOf(k), {});
    skins + if k == AmiyaId then FirstOccurrences(sprites, IsAmiyaAlt, set s | s in skins) else []
  }

  /** The path of the first sprite whose stem is `s`. */
  function SpritePath(sprites: seq<Sprite>, s: string): (r: Option<string>)
    ensures r.Some? <==> exists i :: 0 <= i < |sprites| && sprites[i].stem == s
  {
    match FirstWithStem(sprites, s)
    case None => None
    case Some(i) => Some(sprites[i].path)
  }

  /** `after` is `before` with each stem of `x` mapped to its first sprite. */
  ghost predicate Extends(after: map<string, string>, before: map<string, string>, x: seq<string>, sprites: seq<Sprite>) {
    && (forall s :: s in after <==> s in before || s in x)
    && (forall s :: s in x ==> s in after && Some(after[s]) == SpritePath(sprites, s))
    && (forall s :: s in before && s !in x ==> after[s] == before[s])
  }

  lemma AddMatchingExtends(acc: Skins, sprites: seq<Sprite>, p: string -> bool)
    ensures Extends(AddMatching(acc, sprites, p).avatars, acc.avatars, FirstOccurrences(sprites, p, acc.used), sprites)
  {
    AddMatchingAvatars(acc, sprites, p);
  }

  lemma ExtendsTwice(m0: map<string, string>, m1: map<string, string>, m2: map<string, string>, x1: seq<string>, x2: seq<string>, sprites: seq<Sprite>)
    requires Extends(m1, m0, x1, sprites) && Extends(m2, m1, x2, sprites)
    ensures Extends(m2, m0, x1 + x2, sprites)
  {
    forall s | s in x1 + x2 ensures s in m2 && Some(m2[s]) == SpritePath(sprites, s) {
      if s !in x2 { assert s in x1; }
    }
  }

  /** The image list and avatar files of an operator: `[k]` and then the
      added stems, each mapped to its first sprite; `k` is not among them,
      so it keeps its base sprite. */
  lemma OperatorImagesMeaning(k: string, avatars: map<string, string>, sprites: seq<Sprite>)
    ensures var r, x := OperatorImages(k, avatars, sprites), AddedStems(k, sprites);
      && r.images == [k] + x
      && k !in x
      && Extends(r.avatars, avatars, x, sprites)
  {
    var acc := Skins({}, [k], avatars);
    var s1 := AddMatching(acc, sprites, IsSkinOf(k));
    var skins := FirstOccurrences(sprites, IsSkinOf(k), {});
    AddMatchingImages(acc, sprites, IsSkinOf(k));
    AddMatchingExtends(acc, sprites, IsSkinOf(k));
    FirstOccurrencesMembers(sprites, IsSkinOf(k), {});
    assert k !in skins;
    if k == AmiyaId {
      AmiyaAltsStep(s1, sprites);
      assert s1.used == set s | s in skins;
      ExtendsTwice(avatars, s1.avatars, OperatorImages(k, avatars, sprites).avatars, skins,
        FirstOccurrences(sprites, IsAmiyaAlt, s1.used), sprites);
    } else {
      assert skins + [] == skins;
    }
  }

  lemma AmiyaAltsStep(s1: Skins, sprites: seq<Sprite>)
    ensures var r, alts := AddMatching(s1, sprites, IsAmiyaAlt), FirstOccurrences(sprites, IsAmiyaAlt, s1.used);
      && r.images == s1.images + alts
      && AmiyaId !in alts
      && Extends(r.avatars, s1.avatars, alts, sprites)
  {
    AddMatchingImages(s1, sprites, IsAmiyaAlt);
    AddMatchingExtends(s1, sprites, IsAmiyaAlt);
    FirstOccurrencesMembers(sprites, IsAmiyaAlt, s1.used);
    AmiyaIsNoAlt();
  }

  /** An operator is added exactly when a sprite's stem is its id. It is
      added last, named in Chinese only (the same short name), tagged with
      its appellation and its type, the first part of its id; its images
      are its id and then the added stems; its id maps to its base sprite
      and each added stem to its first sprite. */
  lemma OperatorMeaning(cat: Catalog, item: (string, CharRow), sprites: seq<Sprite>)
    ensures SpritePath(sprites, item.0).None? ==> Operator(cat, item, sprites) == cat
    ensures var r, k, row := Operator(cat, item, sprites), item.0, item.1;
      SpritePath(sprites, k).Some? ==>
        && r.characters == cat.characters + [Character(k, ZhName(row.name), ZhName(row.name), [k] + AddedStems(k, sprites), [row.appellation, TypeTag(k)])]
        && r.appellations == cat.appellations[k := row.appellation]
        && Extends(r.avatars, cat.avatars, [k] + AddedStems(k, sprites), sprites)
  {
    var k := item.0;
    if FirstWithStem(sprites, k).Some? {
      var base := sprites[FirstWithStem(sprites, k).value].path;
      var before := cat.avatars[k := base];
      var r := OperatorImages(k, before, sprites);
      var x := AddedStems(k, sprites);
      OperatorImagesMeaning(k, before, sprites);
      assert Extends(before, cat.avatars, [k], sprites);
      ExtendsTwice(cat.avatars, before, r.avatars, [k], x, sprites);
    }
  }

  /** Skins are the stems that start with the id and differ from it, each
      once, in sprite order; Amiya's alternate forms come after them. */
  lemma AddedStemsMeaning(k: string, sprites: seq<Sprite>)
    ensures var skins := FirstOccurrences(sprites, IsSkinOf(k), {});
      && NoRepeats(skins) && InSpriteOrder(skins, sprites)
      && (forall s :: s in skins <==> StartsWith(s, k) && s != k && FirstWithStem(sprites, s).Some?)
    ensures k != AmiyaId ==> AddedStems(k, sprites) == FirstOccurrences(sprites, IsSkinOf(k), {})
    ensures k == AmiyaId ==> NoRepeats(AddedStems(k, sprites))
    ensures k == AmiyaId ==> forall s :: s in AddedStems(k, sprites) <==>
      FirstWithStem(sprites, s).Some? && ((StartsWith(s, k) && s != k) || IsAmiyaAlt(s))
  {
    var skins := FirstOccurrences(sprites, IsSkinOf(k), {});
    FirstOccurrencesMembers(sprites, IsSkinOf(k), {});
    FirstOccurrencesDistinct(sprites, IsSkinOf(k), {});
    FirstOccurrencesOrdered(sprites, IsSkinOf(k), {});
    if k == AmiyaId {
      var used := set s | s in skins;
      var alts := FirstOccurrences(sprites, IsAmiyaAlt, used);
      FirstOccurrencesMembers(sprites, IsAmiyaAlt, used);
      FirstOccurrencesDistinct(sprites, IsAmiyaAlt, used);
      var x := AddedStems(k, sprites);
      assert x == skins + alts;
      forall a, b | 0 <= a < b < |x| ensures x[a] != x[b] {
        if b < |skins| {
          assert x[a] == skins[a] && x[b] == skins[b];
        } else if a >= |skins| {
          assert x[a] == alts[a - |skins|] && x[b] == alts[b - |skins|];
        } else {
          assert x[a] == skins[a] && x[b] == alts[b - |skins|];
          assert x[b] in alts && x[a] in used;
        }
      }
    }
  }

  // ---------------------------------------------------------------- what an enemy gets

  /** An enemy is added exactly when its name is not "-" and a sprite's stem
      is its id: last, named in Chinese only, with its id as its one image,
      the enemy type tag, and its base sprite as avatar. */
  lemma EnemyMeaning(cat: Catalog, item: (string, string), sprites: seq<Sprite>)
    ensures item.1 == "-" || SpritePath(sprites, item.0).None? ==> Enemy(cat, item, sprites) == cat
    ensures var r, k, name := Enemy(cat, item, sprites), item.0, item.1;
      name != "-" && SpritePath(sprites, k).Some? ==>
        && r.characters == cat.characters + [Character(k, ZhName(name), ZhName(name), [k], [EnemyTag])]
        && r.appellations == cat.appellations
        && Extends(r.avatars, cat.avatars, [k], sprites)
  {
  }

  // ---------------------------------------------------------------- the catalog invariant

  /** Every image of every character has an avatar file. */
  ghost predicate ImagesHaveFiles(cs: seq<Character>, avatars: map<string, string>) {
    forall i, j :: 0 <= i < |cs| && 0 <= j < |cs[i].images| ==> cs[i].images[j] in avatars
  }

  /** Every avatar file is a sprite whose stem is the image name. */
  ghost predicate FilesAreSprites(avatars: map<string, string>, sprites: seq<Sprite>) {
    forall s :: s in avatars ==> Sprite(avatars[s], s) in sprites
  }

  /** Before the other languages: named in Chinese only, short name = name. */
  ghost predicate ChineseOnly(cs: seq<Character>) {
    forall i :: 0 <= i < |cs| ==> cs[i].names.Keys == {"zh-cn"} && cs[i].shortNames == cs[i].names
  }

  ghost predicate CatalogInvariant(cat: Catalog, sprites: seq<Sprite>) {
    ImagesHaveFiles(cat.characters, cat.avatars) && FilesAreSprites(cat.avatars, sprites) && ChineseOnly(cat.characters)
  }

  lemma SpritePathIn(sprites: seq<Sprite>, s: string)
    requires SpritePath(sprites, s).Some?
    ensures Sprite(SpritePath(sprites, s).value, s) in sprites
  {
    var i := FirstWithStem(sprites, s).value;
    assert sprites[i] == Sprite(sprites[i].path, s);
  }

  /** Adding stems from `sprites` keeps every avatar file a sprite of `all`. */
  lemma ExtendsKeepsFiles(after: map<string, string>, before: map<string, string>, x: seq<string>, sprites: seq<Sprite>, all: seq<Sprite>)
    requires Extends(after, before, x, sprites) && FilesAreSprites(before, all)
    requires forall f :: f in sprites ==> f in all
    ensures FilesAreSprites(after, all)
  {
    forall s | s in after ensures Sprite(after[s], s) in all {
      if s in x {
        SpritePathIn(sprites, s);
      }
    }
  }

  lemma ImagesKept(cs: seq<Character>, c: Character, before: map<string, string>, after: map<string, string>)
    requires ImagesHaveFiles(cs, before)
    requires forall s :: s in before ==> s in after
    requires forall j :: 0 <= j < |c.images| ==> c.images[j] in after
    ensures ImagesHaveFiles(cs + [c], after)
  {
    var r := cs + [c];
    forall i, j | 0 <= i < |r| && 0 <= j < |r[i].images| ensures r[i].images[j] in after {
      if i < |cs| { assert r[i] == cs[i]; assert cs[i].images[j] in before; }
    }
  }

  lemma OperatorKeeps(cat: Catalog, item: (string, CharRow), sprites: seq<Sprite>, all: seq<Sprite>)
    requires CatalogInvariant(cat, all) && forall f :: f in sprites ==> f in all
    ensures CatalogInvariant(Operator(cat, item, sprites), all)
  {
    OperatorMeaning(cat, item, sprites);
    var r := Operator(cat, item, sprites);
    if SpritePath(sprites, item.0).Some? {
      var x := [item.0] + AddedStems(item.0, sprites);
      var c := r.characters[|cat.characters|];
      assert c.images == x;
      ExtendsKeepsFiles(r.avatars, cat.avatars, x, sprites, all);
      ImagesKept(cat.characters, c, cat.avatars, r.avatars);
      assert r.characters == cat.characters + [c];
    }
  }

  lemma EnemyKeeps(cat: Catalog, item: (string, string), sprites: seq<Sprite>, all: seq<Sprite>)
    requires CatalogInvariant(cat, all) && forall f :: f in sprites ==> f in all
    ensures CatalogInvariant(Enemy(cat, item, sprites), all)
  {
    EnemyMeaning(cat, item, sprites);
    var r := Enemy(cat, item, sprites);
    if item.1 != "-" && SpritePath(sprites, item.0).Some? {
      var c := r.characters[|cat.characters|];
      ExtendsKeepsFiles(r.avatars, cat.avatars, [item.0], sprites, all);
      ImagesKept(cat.characters, c, cat.avatars, r.avatars);
      assert r.characters == cat.characters + [c];
    }
  }

  lemma {:induction false} OperatorsKeep(cat: Catalog, items: seq<(string, CharRow)>, sprites: seq<Sprite>, all: seq<Sprite>)
    requires CatalogInvariant(cat, all) && forall f :: f in sprites ==> f in all
    ensures CatalogInvariant(Operators(cat, items, sprites), all)
    decreases |items|
  {
    if items != [] {
      OperatorsKeep(cat, items[..|items| - 1], sprites, all);
      OperatorKeeps(Operators(cat, items[..|items| - 1], sprites), items[|items| - 1], sprites, all);
    }
  }

  lemma {:induction false} EnemiesKeep(cat: Catalog, items: seq<(string, string)>, sprites: seq<Sprite>, all: seq<Sprite>)
    requires CatalogInvariant(cat, all) && forall f :: f in sprites ==> f in all
    ensures CatalogInvariant(Enemies(cat, items, sprites), all)
    decreases |items|
  {
    if items != [] {
      EnemiesKeep(cat, items[..|items| - 1], sprites, all);
      EnemyKeeps(Enemies(cat, items[..|items| - 1], sprites), items[|items| - 1], sprites, all);
    }
  }

  // ---------------------------------------------------------------- what the other languages get

  /** One character through the languages `langs`, one after the other. */
  function FillChar(c: Character, langs: seq<string>, inp: AkInputs, apps: map<string, string>): Character
    decreases |langs|
  {
    if langs == [] then c
    else FillChar(FillOne(c, langs[0], NameTable(inp, langs[0]), apps), langs[1..], inp, apps)
  }

  /** The languages loop treats each character on its own. */
  lemma {:induction false} FillLangsPointwise(cs: seq<Character>, langs: seq<string>, inp: AkInputs, apps: map<string, string>)
    ensures var r := FillLangs(cs, langs, inp, apps);
      |r| == |cs| && forall i :: 0 <= i < |cs| ==> r[i] == FillChar(cs[i], langs, inp, apps)
    decreases |langs|
  {
    if langs != [] {
      FillLangsPointwise(FillLang(cs, langs[0], NameTable(inp, langs[0]), apps), langs[1..], inp, apps);
    }
  }

  /** `r` is `c` with the name and the short name in each language of
      `langs` set to that language's name for it, and nothing else changed. */
  ghost predicate Filled(r: Character, c: Character, langs: seq<string>, inp: AkInputs, apps: map<string, string>) {
    && r.id == c.id && r.images == c.images && r.groups == c.groups
    && (forall l :: l in r.names <==> l in c.names || l in langs)
    && (forall l :: l in r.shortNames <==> l in c.shortNames || l in langs)
    && (forall l :: l in langs ==>
          l in r.names && l in r.shortNames && r.names[l] == LangName(c.id, l, NameTable(inp, l), apps) && r.shortNames[l] == r.names[l])
    && (forall l :: l in c.names && l !in langs ==> r.names[l] == c.names[l])
    && (forall l :: l in c.shortNames && l !in langs ==> r.shortNames[l] == c.shortNames[l])
  }

  lemma {:induction false} FillCharMeaning(c: Character, langs: seq<string>, inp: AkInputs, apps: map<string, string>)
    ensures Filled(FillChar(c, langs, inp, apps), c, langs, inp, apps)
    ensures c.shortNames == c.names ==> FillChar(c, langs, inp, apps).shortNames == FillChar(c, langs, inp, apps).names
    decreases |langs|
  {
    if langs != [] {
      var l0 := langs[0];
      var c1 := FillOne(c, l0, NameTable(inp, l0), apps);
      FillCharMeaning(c1, langs[1..], inp, apps);
      var r := FillChar(c, langs, inp, apps);
      assert forall l :: l in langs <==> l == l0 || l in langs[1..];
      forall l | l in langs
        ensures l in r.names && l in r.shortNames
          && r.names[l] == LangName(c.id, l, NameTable(inp, l), apps) && r.shortNames[l] == r.names[l]
      {
        if l !in langs[1..] { assert l == l0; }
      }
    }
  }

  /** The languages loop: each character keeps its id, images and groups,
      and gets in every language of `langs` the name of that language, the
      same as its short name; its other names are kept. */
  lemma FillLangsMeaning(cs: seq<Character>, langs: seq<string>, inp: AkInputs, apps: map<string, string>)
    ensures var r := FillLangs(cs, langs, inp, apps);
      |r| == |cs| && forall i :: 0 <= i < |cs| ==> Filled(r[i], cs[i], langs, inp, apps)
  {
    FillLangsPointwise(cs, langs, inp, apps);
    forall i | 0 <= i < |cs| ensures Filled(FillLangs(cs, langs, inp, apps)[i], cs[i], langs, inp, apps) {
      FillCharMeaning(cs[i], langs, inp, apps);
    }
  }

  // ---------------------------------------------------------------- what get_chars promises

  lemma CollectedInvariant(inp: AkInputs)
    ensures CatalogInvariant(Collected(inp), inp.charSprites + inp.enemySprites)
  {
    var all := inp.charSprites + inp.enemySprites;
    var init := Catalog([], map[], map[]);
    assert CatalogInvariant(init, all);
    var ops := Operators(init, SortBy(inp.chars, KeyLe), inp.charSprites);
    OperatorsKeep(init, SortBy(inp.chars, KeyLe), inp.charSprites, all);
    EnemiesKeep(ops, SortBy(inp.enemies, KeyLe), inp.enemySprites, all);
  }

  lemma ClosureNamesAllLangs()
    ensures forall l :: l in ClosureNames <==> l in Langs
  {
  }

  lemma ChineseThenOthers(l: string)
    ensures l in Langs <==> l == "zh-cn" || l in Langs[1..]
    ensures "zh-cn" !in Langs[1..]
  {
    assert Langs[1..] == ["ja", "en", "ko", "zh-tw"];
  }

  /** `get_chars`: Closure always has an avatar file; she comes first
      exactly when no sprite gave her one; every image of every character
      has an avatar file, which is a sprite with that stem (or Closure's
      fixed file); every character is named in every language, with short
      names equal to names; the other characters keep the order in which
      they were collected, and their names outside Chinese are the names of
      the language tables, falling back to the appellation in English and
      Japanese. */
  lemma GetCharsMeaning(inp: AkInputs)
    ensures var (cs, av) := GetCharsSpec(inp);
      && ClosureId in av
      && ImagesHaveFiles(cs, av)
      && FilesFrom(av, inp)
      && FullyNamed(cs)
    ensures var all := Collected(inp);
      var filled := FillLangs(all.characters, Langs[1..], inp, all.appellations);
      && GetCharsSpec(inp).0 == (if ClosureId in all.avatars then [] else [ClosureCharacter()]) + filled
      && |filled| == |all.characters|
      && forall i :: 0 <= i < |all.characters| ==> Filled(filled[i], all.characters[i], Langs[1..], inp, all.appellations)
  {
    GetCharsFiles(inp);
    GetCharsOrder(inp);
  }

  /** Every avatar file is a sprite with the image's stem, or Closure's fixed file. */
  ghost predicate FilesFrom(av: map<string, string>, inp: AkInputs) {
    forall s :: s in av ==>
      Sprite(av[s], s) in inp.charSprites + inp.enemySprites || (s == ClosureId && av[s] == ClosurePath(inp.resRoot))
  }

  lemma GetCharsFiles(inp: AkInputs)
    ensures var (cs, av) := GetCharsSpec(inp);
      ClosureId in av && ImagesHaveFiles(cs, av) && FilesFrom(av, inp) && FullyNamed(cs)
  {
    var all := Collected(inp);
    CollectedInvariant(inp);
    FilledCatalog(inp);
    var filled := FillLangs(all.characters, Langs[1..], inp, all.appellations);
    WithClosureKeeps(filled, all.avatars, inp.resRoot);
    var av := WithClosure(filled, all.avatars, inp.resRoot).1;
    assert FilesAreSprites(all.avatars, inp.charSprites + inp.enemySprites);
    assert FilesFrom(av, inp);
  }

  lemma GetCharsOrder(inp: AkInputs)
    ensures var all := Collected(inp);
      var filled := FillLangs(all.characters, Langs[1..], inp, all.appellations);
      && GetCharsSpec(inp).0 == (if ClosureId in all.avatars then [] else [ClosureCharacter()]) + filled
      && |filled| == |all.characters|
      && forall i :: 0 <= i < |all.characters| ==> Filled(filled[i], all.characters[i], Langs[1..], inp, all.appellations)
  {
    var all := Collected(inp);
    FillLangsMeaning(all.characters, Langs[1..], inp, all.appellations);
  }

  /** Every character named in every language, with short names equal to names. */
  ghost predicate FullyNamed(cs: seq<Character>) {
    && (forall i, l :: 0 <= i < |cs| ==> (l in cs[i].names <==> l in Langs))
    && (forall i :: 0 <= i < |cs| ==> cs[i].shortNames == cs[i].names)
  }

  /** The collected characters after the language loop. */
  lemma FilledCatalog(inp: AkInputs)
    requires CatalogInvariant(Collected(inp), inp.charSprites + inp.enemySprites)
    ensures var all := Collected(inp);
      var filled := FillLangs(all.characters, Langs[1..], inp, all.appellations);
      && |filled| == |all.characters|
      && (forall i :: 0 <= i < |all.characters| ==> Filled(filled[i], all.characters[i], Langs[1..], inp, all.appellations))
      && FullyNamed(filled)
      && ImagesHaveFiles(filled, all.avatars)
  {
    var all := Collected(inp);
    var filled := FillLangs(all.characters, Langs[1..], inp, all.appellations);
    FillLangsMeaning(all.characters, Langs[1..], inp, all.appellations);
    ChineseThenOthers("zh-cn");
    forall i, l | 0 <= i < |filled| ensures (l in filled[i].names <==> l in Langs) && filled[i].shortNames == filled[i].names {
      ChineseThenOthers(l);
      FillCharMeaning(all.characters[i], Langs[1..], inp, all.appellations);
      FillLangsPointwise(all.characters, Langs[1..], inp, all.appellations);
    }
    forall i, j | 0 <= i < |filled| && 0 <= j < |filled[i].images| ensures filled[i].images[j] in all.avatars {
      assert filled[i].images == all.characters[i].images;
    }
  }

  /** Adding Closure keeps every character fully named and every image backed by a file. */
  lemma WithClosureKeeps(cs: seq<Character>, av: map<string, string>, resRoot: string)
    requires FullyNamed(cs) && ImagesHaveFiles(cs, av)
    ensures var (r, av2) := WithClosure(cs, av, resRoot);
      && ClosureId in av2 && FullyNamed(r) && ImagesHaveFiles(r, av2)
      && (ClosureId in av ==> r == cs && av2 == av)
      && (ClosureId !in av ==> r == [ClosureCharacter()] + cs && av2 == av[ClosureId := ClosurePath(resRoot)])
  {
    if ClosureId !in av {
      var r := [ClosureCharacter()] + cs;
      ClosureNamesAllLangs();
      forall i, l | 0 <= i < |r| ensures (l in r[i].names <==> l in Langs) && r[i].shortNames == r[i].names {
        if i > 0 { assert r[i] == cs[i - 1]; }
      }
      forall i, j | 0 <= i < |r| && 0 <= j < |r[i].images| ensures r[i].images[j] in av[ClosureId := ClosurePath(resRoot)] {
        if i > 0 { assert r[i] == cs[i - 1]; }
      }
    }
  }

  // ---------------------------------------------------------------- the script's loops

  /** `next(iter(f for f in sprites if f.stem == k), None)`. */
  method BaseSprite(sprites: seq<Sprite>, k: string) returns (r: Option<Sprite>)
    ensures r == (match FirstWithStem(sprites, k) case None => None case Some(i) => Some(sprites[i]))
  {
    var i := 0;
    while i < |sprites|
      invariant 0 <= i <= |sprites|
      invariant forall j :: 0 <= j < i ==> sprites[j].stem != k
    {
      if sprites[i].stem == k {
        return Some(sprites[i]);
      }
      i := i + 1;
    }
    return None;
  }

  /** Lines 120-151: one operator and its images. */
  method AddOperator(cat: Catalog, k: string, row: CharRow, sprites: seq<Sprite>) returns (r: Catalog)
    ensures r == Operator(cat, (k, row), sprites)
  {
    var basic := BaseSprite(sprites, k);
    if basic.None? {
      return cat;
    }
    var avatars := cat.avatars[k := basic.value.path];
    var ch := Character(k, ZhName(row.name), ZhName(row.name), [k], [row.appellation, TypeTag(k)]);
    var appellations := cat.appellations[k := row.appellation];
    var skins := AddSprites(Skins({}, ch.images, avatars), sprites, IsSkinOf(k));
    if k == AmiyaId {
      skins := AddSprites(skins, sprites, IsAmiyaAlt);
    }
    ch := ch.(images := skins.images);
    r := Catalog(cat.characters + [ch], skins.avatars, appellations);
  }

  /** Lines 162-172: one enemy. */
  method AddEnemy(cat: Catalog, k: string, name: string, sprites: seq<Sprite>) returns (r: Catalog)
    ensures r == Enemy(cat, (k, name), sprites)
  {
    if name == "-" {
      return cat;
    }
    var basic := BaseSprite(sprites, k);
    if basic.None? {
      return cat;
    }
    r := cat.(avatars := cat.avatars[k := basic.value.path],
              characters := cat.characters + [Character(k, ZhName(name), ZhName(name), [k], [EnemyTag])]);
  }

  /** Lines 183-186: every character gets its name in `lang`. */
  method FillLanguage(cs: seq<Character>, lang: string, tbl: map<string, string>, apps: map<string, string>) returns (r: seq<Character>)
    ensures r == FillLang(cs, lang, tbl, apps)
  {
    r := cs;
    for i := 0 to |cs|
      invariant |r| == |cs|
      invariant forall m :: 0 <= m < i ==> r[m] == FillOne(cs[m], lang, tbl, apps)
      invariant forall m :: i <= m < |cs| ==> r[m] == cs[m]
    {
      var ch := r[i];
      var name := if ch.id in tbl then tbl[ch.id] else "";
      if name == "" && (lang == "en" || lang == "ja") {
        name := Appellation(apps, ch.id);
      }
      r := r[i := ch.(names := ch.names[lang := name], shortNames := ch.shortNames[lang := name])];
    }
  }

  /** `get_chars` over its loaded inputs: the characters and the avatar files. */
  method GetChars(inp: AkInputs) returns (characters: seq<Character>, avatarFiles: map<string, string>)
    ensures (characters, avatarFiles) == GetCharsSpec(inp)
  {
    var ops := CollectOperators(inp);
    var cat := CollectEnemies(ops, inp);
    characters := FillLanguages(cat.characters, inp, cat.appellations);
    avatarFiles := cat.avatars;
    if ClosureId !in avatarFiles {
      characters := [ClosureCharacter()] + characters;
      avatarFiles := avatarFiles[ClosureId := ClosurePath(inp.resRoot)];
    }
  }

  /** The loop of lines 119-151 over the operators, in id order. */
  method CollectOperators(inp: AkInputs) returns (cat: Catalog)
    ensures cat == Operators(Catalog([], map[], map[]), SortBy(inp.chars, KeyLe), inp.charSprites)
  {
    var init := Catalog([], map[], map[]);
    cat := init;
    var chars := SortBy(inp.chars, KeyLe);
    for i := 0 to |chars|
      invariant cat == Operators(init, chars[..i], inp.charSprites)
    {
      assert chars[..i + 1][..i] == chars[..i];
      cat := AddOperator(cat, chars[i].0, chars[i].1, inp.charSprites);
    }
    assert chars[..|chars|] == chars;
  }

  /** The loop of lines 161-172 over the enemies, in id order. */
  method CollectEnemies(ops: Catalog, inp: AkInputs) returns (cat: Catalog)
    ensures cat == Enemies(ops, SortBy(inp.enemies, KeyLe), inp.enemySprites)
  {
    cat := ops;
    var enemies := SortBy(inp.enemies, KeyLe);
    for i := 0 to |enemies|
      invariant cat == Enemies(ops, enemies[..i], inp.enemySprites)
    {
      assert enemies[..i + 1][..i] == enemies[..i];
      cat := AddEnemy(cat, enemies[i].0, enemies[i].1, inp.enemySprites);
    }
    assert enemies[..|enemies|] == enemies;
  }

  /** The loop of lines 180-186 over the languages after Chinese. */
  method FillLanguages(cs: seq<Character>, inp: AkInputs, apps: map<string, string>) returns (characters: seq<Character>)
    ensures characters == FillLangs(cs, Langs[1..], inp, apps)
  {
    characters := cs;
    var langs := Langs[1..];
    for j := 0 to |langs|
      invariant FillLangs(characters, langs[j..], inp, apps) == FillLangs(cs, langs, inp, apps)
    {
      assert langs[j..][1..] == langs[j + 1..];
      characters := FillLanguage(characters, langs[j], NameTable(inp, langs[j]), apps);
    }
  }
}
