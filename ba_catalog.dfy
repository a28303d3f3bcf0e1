/** Blue Archive: `get_chars` of `blue_archive/get_resources_v2.py` — one
    pass over the character records that merges translations, builds each
    output character, claims its images, and lists the characters without a
    school or a club. */
module BlueArchiveCatalog {
  import opened Wrappers
  import opened Text
  import opened Sorting
  import opened Models
  import opened BlueArchiveNames
  import opened BlueArchiveImages
  import opened BlueArchiveStore

  /** A club or school (`GroupData`): its id and the ids of its members. */
  datatype GroupData = GroupData(id: string, members: seq<string>)

  /** What `get_chars` reads, loaded in advance. `romanize` stands for `name_to_id`. */
  datatype Inputs = Inputs(
    chars: seq<CharData>,
    clubs: seq<GroupData>,
    schools: seq<GroupData>,
    romanize: string -> string,
    images: ImageEnv)

  /** The variables the loop of `get_chars` updates. */
  datatype State = State(
    translations: map<string, LangData>,
    dirty: bool,
    characters: seq<Character>,
    assets: Assets,
    noSchool: seq<Character>,
    noClub: seq<Character>)

  /** One entry of a diagnostics report: id, Japanese name, first image. */
  datatype ReportEntry = ReportEntry(id: string, jaName: string, firstImage: string)

  /** What `get_chars` hands back and writes: the characters, the two asset
      tables, the translation store with its dirty flag (the store is
      rewritten when the flag is set), and the two reports. */
  datatype Catalog = Catalog(
    characters: seq<Character>,
    avatarFiles: map<string, string>,
    imageConfig: map<string, CropHint>,
    translations: map<string, LangData>,
    dirty: bool,
    noSchoolReport: seq<ReportEntry>,
    noClubReport: seq<ReportEntry>)

  // ---------------------------------------------------------------- groups

  /** `[gp.id for gp in groups if cid in gp.members]`. */
  function MemberGroupIds(cid: string, groups: seq<GroupData>): (ids: seq<string>)
    ensures |ids| <= |groups|
    ensures forall g :: g in ids <==> exists i :: 0 <= i < |groups| && groups[i].id == g && cid in groups[i].members
  {
    if groups == [] then []
    else
      var rest := MemberGroupIds(cid, groups[1..]);
      assert forall i :: 1 <= i < |groups| ==> groups[i] == groups[1..][i - 1];
      (if cid in groups[0].members then [groups[0].id] else []) + rest
  }

  /** The group list of a character (line 112): clubs, then schools, sorted. */
  function GroupsOf(cid: string, inp: Inputs): seq<string> {
    SortStrings(MemberGroupIds(cid, inp.clubs + inp.schools))
  }

  /** `len([gp for gp in pool if cid in gp.members]) == 0`. */
  predicate NoGroup(cid: string, pool: seq<GroupData>) {
    |MemberGroupIds(cid, pool)| == 0
  }

  /** `g` is the id of a group of `groups` that lists `cid`. */
  ghost predicate ListedIn(cid: string, g: string, groups: seq<GroupData>) {
    exists i :: 0 <= i < |groups| && groups[i].id == g && cid in groups[i].members
  }

  lemma ListedInConcat(cid: string, g: string, a: seq<GroupData>, b: seq<GroupData>)
    ensures ListedIn(cid, g, a + b) <==> ListedIn(cid, g, a) || ListedIn(cid, g, b)
  {
    var all := a + b;
    if ListedIn(cid, g, all) {
      var i :| 0 <= i < |all| && all[i].id == g && cid in all[i].members;
      if i >= |a| { assert all[i] == b[i - |a|]; }
    }
    if ListedIn(cid, g, b) {
      var i :| 0 <= i < |b| && b[i].id == g && cid in b[i].members;
      assert all[|a| + i] == b[i];
    }
    if ListedIn(cid, g, a) {
      var i :| 0 <= i < |a| && a[i].id == g && cid in a[i].members;
      assert all[i] == a[i];
    }
  }

  /** A character's groups are sorted and are the clubs and schools that list it. */
  lemma GroupsOfMeaning(cid: string, inp: Inputs)
    ensures Sorted(GroupsOf(cid, inp), LexLe)
    ensures forall g :: g in GroupsOf(cid, inp) <==> ListedIn(cid, g, inp.clubs) || ListedIn(cid, g, inp.schools)
  {
    var ids := MemberGroupIds(cid, inp.clubs + inp.schools);
    forall g ensures g in GroupsOf(cid, inp) <==> ListedIn(cid, g, inp.clubs) || ListedIn(cid, g, inp.schools) {
      assert g in GroupsOf(cid, inp) <==> g in multiset(GroupsOf(cid, inp));
      assert g in ids <==> g in multiset(ids);
      assert g in ids <==> ListedIn(cid, g, inp.clubs + inp.schools);
      ListedInConcat(cid, g, inp.clubs, inp.schools);
    }
  }

  // ---------------------------------------------------------------- the loop

  /** One iteration of the loop of `get_chars` (lines 78-143). */
  function Step(st: State, d: CharData, inp: Inputs): Result<State, Error> {
    match DefaultLangData(d, inp.romanize)
    case Err(e) => Err(e)
    case Ok(def) =>
      var existing := Lookup(st.translations, d.id);
      MergeEntryComplete(existing, def);
      match MergeEntry(existing, def)
      case Err(e) => Err(e)
      case Ok((entry, changed)) =>
        match CharImages(d.imageFiles, inp.images, st.assets)
        case Err(e) => Err(e)
        case Ok((images, assets)) => Ok(Append(st, d, inp, entry, changed, images, assets))
  }

  /** The end of an iteration: the store entry written back, the flag
      updated, the character appended, and listed where no group lists it. */
  function Append(st: State, d: CharData, inp: Inputs, entry: LangData, changed: bool,
                  images: seq<string>, assets: Assets): State
    requires HasAllLangs(entry.name)
  {
    var ch := Character(d.id, entry.name, ShortNames(entry), images, GroupsOf(d.id, inp));
    State(
      st.translations[d.id := entry],
      st.dirty || changed,
      st.characters + [ch],
      assets,
      st.noSchool + (if NoGroup(d.id, inp.schools) then [ch] else []),
      st.noClub + (if NoGroup(d.id, inp.clubs) then [ch] else []))
  }

  /** A merged entry has a name in every language. */
  lemma MergeEntryComplete(existing: Option<LangData>, def: LangData)
    requires HasAllLangs(def.name)
    ensures MergeEntry(existing, def).Ok? ==> HasAllLangs(MergeEntry(existing, def).value.0.name)
  {
    MergeEntryRules(existing, def);
  }

  /** The loop over the remaining records. */
  function Process(st: State, ds: seq<CharData>, inp: Inputs): Result<State, Error>
    decreases |ds|
  {
    if ds == [] then Ok(st)
    else match Step(st, ds[0], inp)
      case Err(e) => Err(e)
      case Ok(next) => Process(next, ds[1..], inp)
  }

  function Initial(store: map<string, LangData>): State {
    State(store, false, [], Assets(map[], map[]), [], [])
  }

  /** A report (lines 150-155): one entry per listed character. */
  function Report(cs: seq<Character>): Result<seq<ReportEntry>, Error>
    requires forall i :: 0 <= i < |cs| ==> "ja" in cs[i].names
  {
    if cs == [] then Ok([])
    else if |cs[0].images| == 0 then Err(ReportWithoutImage(cs[0].id))
    else match Report(cs[1..])
      case Err(e) => Err(e)
      case Ok(rest) => Ok([ReportEntry(cs[0].id, cs[0].names["ja"], cs[0].images[0])] + rest)
  }

  /** Every character the reports list has a Japanese name. */
  ghost predicate ReportsNamed(st: State) {
    && (forall i :: 0 <= i < |st.noSchool| ==> "ja" in st.noSchool[i].names)
    && (forall i :: 0 <= i < |st.noClub| ==> "ja" in st.noClub[i].names)
  }

  /** The end of `get_chars`: the two reports, then the result. */
  function Finish(st: State): Result<Catalog, Error>
    requires ReportsNamed(st)
  {
    var noSchool := Report(st.noSchool);
    if noSchool.Err? then Err(noSchool.error)
    else
      var noClub := Report(st.noClub);
      if noClub.Err? then Err(noClub.error)
      else Ok(Catalog(st.characters, st.assets.avatarFiles, st.assets.imageConfig,
                      st.translations, st.dirty, noSchool.value, noClub.value))
  }

  /** `get_chars` from the store `store`. */
  function GetCharsSpec(inp: Inputs, store: map<string, LangData>): Result<Catalog, Error> {
    var r := Process(Initial(store), inp.chars, inp);
    if r.Err? then Err(r.error)
    else
      ProcessNamed(store, inp);
      Finish(r.value)
  }

  // ---------------------------------------------------------------- the loop's invariant

  /** All image names of the catalog, character by character. */
  function AllImages(cs: seq<Character>): seq<string> {
    if cs == [] then [] else AllImages(cs[..|cs| - 1]) + cs[|cs| - 1].images
  }

  /** The characters that no group of `pool` lists, in order. */
  function Unlisted(cs: seq<Character>, pool: seq<GroupData>): seq<Character> {
    if cs == [] then []
    else Unlisted(cs[..|cs| - 1], pool) + (if NoGroup(cs[|cs| - 1].id, pool) then [cs[|cs| - 1]] else [])
  }

  /** What holds of the image tables after every iteration: image names
      are unique across the catalog and are exactly the keys of the asset
      table, whose files all exist, and every image list is sorted. */
  ghost predicate ImagesGood(st: State, inp: Inputs) {
    && Distinct(AllImages(st.characters))
    && st.assets.avatarFiles.Keys == (set n | n in AllImages(st.characters))
    && (forall n :: n in st.assets.avatarFiles ==> st.assets.avatarFiles[n] in inp.images.existing)
    && (forall i :: 0 <= i < |st.characters| ==> Sorted(st.characters[i].images, LexLe))
  }

  /** What holds of the names and the diagnostics lists after every
      iteration: every character has a name in every language and the
      groups that list it, and the two
      lists are the characters no school, resp. no club, lists. */
  ghost predicate ListsGood(st: State, inp: Inputs) {
    && (forall i :: 0 <= i < |st.characters| ==> HasAllLangs(st.characters[i].names))
    && (forall i :: 0 <= i < |st.characters| ==> st.characters[i].groups == GroupsOf(st.characters[i].id, inp))
    && st.noSchool == Unlisted(st.characters, inp.schools)
    && st.noClub == Unlisted(st.characters, inp.clubs)
  }

  lemma DistinctAppend(a: seq<string>, b: seq<string>)
    requires Distinct(a) && Distinct(b)
    requires forall x :: x in a ==> x !in b
    ensures Distinct(a + b)
  {
    var c := a + b;
    forall i, j | 0 <= i < j < |c| ensures c[i] != c[j] {
      if j < |a| {
      } else if i >= |a| {
        assert c[i] == b[i - |a|] && c[j] == b[j - |a|];
      } else {
        assert c[i] in a && c[j] == b[j - |a|];
      }
    }
  }

  /** Valid claims have pairwise different names, none of them taken. */
  lemma ClaimsFresh(cs: seq<(string, string)>, taken: set<string>, env: ImageEnv)
    requires ClaimsValid(cs, taken, env)
    ensures Distinct(ClaimedNames(cs))
    ensures forall x :: x in ClaimedNames(cs) ==> x !in taken
  {
    var names := ClaimedNames(cs);
    forall i, j | 0 <= i < j < |names| ensures names[i] != names[j] {
      assert names[i] == cs[i].0 && names[j] == cs[j].0;
    }
    forall x | x in names ensures x !in taken {
      var i :| 0 <= i < |names| && names[i] == x;
      assert cs[i].0 == x;
    }
  }

  /** The claimed names of one character are pairwise different and new to
      the catalog, and every entry they add maps to an existing file. */
  lemma ResolveImagesFresh(imgs: seq<string>, env: ImageEnv, assets: Assets)
    requires ResolveImages(imgs, env, assets).Ok?
    ensures var names, after := ResolveImages(imgs, env, assets).value.0, ResolveImages(imgs, env, assets).value.1;
      && Distinct(names)
      && (forall x :: x in names ==> x !in assets.avatarFiles)
      && (forall n :: n in after.avatarFiles && n !in assets.avatarFiles ==> after.avatarFiles[n] in env.existing)
  {
    var names := ResolveImages(imgs, env, assets).value.0;
    var after := ResolveImages(imgs, env, assets).value.1;
    ResolveImagesSucceeds(imgs, env, assets);
    ResolveImagesList(imgs, env, assets);
    ResolveImagesFiles(imgs, env, assets);
    var cs := Claims(imgs, env).value;
    ClaimsFresh(cs, assets.avatarFiles.Keys, env);
    forall n | n in after.avatarFiles && n !in assets.avatarFiles ensures after.avatarFiles[n] in env.existing {
      assert n in names;
      var i :| 0 <= i < |names| && names[i] == n;
      assert cs[i].0 == n && ImagePath(env, cs[i].1) in env.existing;
    }
  }

  /** Sorting keeps the set of names and their distinctness. */
  lemma SortStringsKeeps(names: seq<string>)
    ensures (set n | n in names) == (set n | n in SortStrings(names))
    ensures Distinct(names) ==> Distinct(SortStrings(names))
  {
    var images := SortStrings(names);
    if Distinct(names) {
      DistinctPermutation(names, images);
    }
    forall n ensures n in names <==> n in images {
      assert n in names <==> n in multiset(names);
      assert n in images <==> n in multiset(images);
    }
  }

  /** One character's images: sorted, pairwise different, new to the
      catalog; the asset table gains exactly them, each mapped to an
      existing file, and keeps its earlier entries. */
  lemma CharImagesFresh(imgs: seq<string>, env: ImageEnv, assets: Assets)
    requires CharImages(imgs, env, assets).Ok?
    ensures var images, after := CharImages(imgs, env, assets).value.0, CharImages(imgs, env, assets).value.1;
      && Sorted(images, LexLe)
      && Distinct(images)
      && (forall x :: x in images ==> x !in assets.avatarFiles)
      && after.avatarFiles.Keys == assets.avatarFiles.Keys + (set n | n in images)
      && (forall n :: n in assets.avatarFiles ==> after.avatarFiles[n] == assets.avatarFiles[n])
      && (forall n :: n in after.avatarFiles && n !in assets.avatarFiles ==> after.avatarFiles[n] in env.existing)
  {
    var names := ResolveImages(imgs, env, assets).value.0;
    ResolveImagesList(imgs, env, assets);
    ResolveImagesFiles(imgs, env, assets);
    ResolveImagesFresh(imgs, env, assets);
    SortStringsKeeps(names);
    assert CharImages(imgs, env, assets).value == (SortStrings(names), ResolveImages(imgs, env, assets).value.1);
  }

  /** The pieces of a successful step. */
  lemma StepParts(st: State, d: CharData, inp: Inputs)
    requires Step(st, d, inp).Ok?
    ensures DefaultLangData(d, inp.romanize).Ok?
    ensures var def := DefaultLangData(d, inp.romanize).value;
      var existing := Lookup(st.translations, d.id);
      && MergeEntry(existing, def).Ok?
      && HasAllLangs(MergeEntry(existing, def).value.0.name)
      && CharImages(d.imageFiles, inp.images, st.assets).Ok?
      && var next, ch := Step(st, d, inp).value, Step(st, d, inp).value.characters[|st.characters|];
      && next.characters == st.characters + [ch]
      && ch.id == d.id
      && ch.names == MergeEntry(existing, def).value.0.name
      && ch.images == CharImages(d.imageFiles, inp.images, st.assets).value.0
      && ch.groups == GroupsOf(d.id, inp)
      && next.assets == CharImages(d.imageFiles, inp.images, st.assets).value.1
      && next.noSchool == st.noSchool + (if NoGroup(d.id, inp.schools) then [ch] else [])
      && next.noClub == st.noClub + (if NoGroup(d.id, inp.clubs) then [ch] else [])
  {
    var def := DefaultLangData(d, inp.romanize).value;
    var existing := Lookup(st.translations, d.id);
    MergeEntryRules(existing, def);
  }

  lemma StepKeepsImages(st: State, d: CharData, inp: Inputs)
    requires ImagesGood(st, inp) && Step(st, d, inp).Ok?
    ensures ImagesGood(Step(st, d, inp).value, inp)
  {
    StepParts(st, d, inp);
    var next := Step(st, d, inp).value;
    var images := CharImages(d.imageFiles, inp.images, st.assets).value.0;
    CharImagesFresh(d.imageFiles, inp.images, st.assets);
    assert next.characters[..|next.characters| - 1] == st.characters;
    assert AllImages(next.characters) == AllImages(st.characters) + images;
    DistinctAppend(AllImages(st.characters), images);
    forall i | 0 <= i < |next.characters| ensures Sorted(next.characters[i].images, LexLe) {
      if i < |st.characters| { assert next.characters[i] == st.characters[i]; }
    }
  }

  lemma StepKeepsLists(st: State, d: CharData, inp: Inputs)
    requires ListsGood(st, inp) && Step(st, d, inp).Ok?
    ensures ListsGood(Step(st, d, inp).value, inp)
  {
    StepParts(st, d, inp);
    var next := Step(st, d, inp).value;
    assert next.characters[..|next.characters| - 1] == st.characters;
    forall i | 0 <= i < |next.characters|
      ensures HasAllLangs(next.characters[i].names)
      ensures next.characters[i].groups == GroupsOf(next.characters[i].id, inp)
    {
      if i < |st.characters| { assert next.characters[i] == st.characters[i]; }
    }
  }

  lemma {:induction false} ProcessKeepsImages(st: State, ds: seq<CharData>, inp: Inputs)
    requires ImagesGood(st, inp)
    ensures Process(st, ds, inp).Ok? ==> ImagesGood(Process(st, ds, inp).value, inp)
    decreases |ds|
  {
    if ds != [] && Step(st, ds[0], inp).Ok? {
      StepKeepsImages(st, ds[0], inp);
      ProcessKeepsImages(Step(st, ds[0], inp).value, ds[1..], inp);
    }
  }

  lemma {:induction false} ProcessKeepsLists(st: State, ds: seq<CharData>, inp: Inputs)
    requires ListsGood(st, inp)
    ensures Process(st, ds, inp).Ok? ==> ListsGood(Process(st, ds, inp).value, inp)
    decreases |ds|
  {
    if ds != [] && Step(st, ds[0], inp).Ok? {
      StepKeepsLists(st, ds[0], inp);
      ProcessKeepsLists(Step(st, ds[0], inp).value, ds[1..], inp);
    }
  }

  /** Every listed character comes from the list it is drawn from. */
  lemma {:induction false} UnlistedFrom(cs: seq<Character>, pool: seq<GroupData>)
    ensures forall c :: c in Unlisted(cs, pool) ==> c in cs && NoGroup(c.id, pool)
  {
    if cs != [] {
      UnlistedFrom(cs[..|cs| - 1], pool);
    }
  }

  /** The characters the reports list have a Japanese name. */
  lemma ProcessNamed(store: map<string, LangData>, inp: Inputs)
    ensures var r := Process(Initial(store), inp.chars, inp);
      r.Ok? ==> ReportsNamed(r.value)
  {
    var r := Process(Initial(store), inp.chars, inp);
    ProcessKeepsLists(Initial(store), inp.chars, inp);
    if r.Ok? {
      var st := r.value;
      UnlistedFrom(st.characters, inp.schools);
      UnlistedFrom(st.characters, inp.clubs);
      forall c | c in st.characters ensures "ja" in c.names {
        var i :| 0 <= i < |st.characters| && st.characters[i] == c;
        assert HasAllLangs(st.characters[i].names);
      }
    }
  }

  // ---------------------------------------------------------------- what the catalog promises

  /** One report line's content. */
  function Entry(c: Character): ReportEntry
    requires "ja" in c.names && |c.images| > 0
  {
    ReportEntry(c.id, c.names["ja"], c.images[0])
  }

  /** A report over characters that all have images has one entry per
      character, in order. */
  lemma {:induction false} ReportSucceeds(cs: seq<Character>)
    requires forall i :: 0 <= i < |cs| ==> "ja" in cs[i].names && |cs[i].images| > 0
    ensures Report(cs).Ok?
    ensures |Report(cs).value| == |cs|
    ensures forall i :: 0 <= i < |cs| ==> Report(cs).value[i] == Entry(cs[i])
  {
    if cs != [] {
      ReportSucceeds(cs[1..]);
      assert forall i :: 1 <= i < |cs| ==> cs[i] == cs[1..][i - 1];
    }
  }

  /** A report fails at the first listed character without images. */
  lemma {:induction false} ReportFails(cs: seq<Character>, k: nat)
    requires forall i :: 0 <= i < |cs| ==> "ja" in cs[i].names
    requires k < |cs| && |cs[k].images| == 0
    requires forall i :: 0 <= i < k ==> |cs[i].images| > 0
    ensures Report(cs) == Err(ReportWithoutImage(cs[k].id))
  {
    if k > 0 {
      ReportFails(cs[1..], k - 1);
    }
  }

  /** A step appends the record's character, with its id and groups. */
  lemma StepChar(st: State, d: CharData, inp: Inputs)
    requires Step(st, d, inp).Ok?
    ensures var next := Step(st, d, inp).value;
      && |next.characters| == |st.characters| + 1
      && next.characters[..|st.characters|] == st.characters
      && next.characters[|st.characters|].id == d.id
      && next.characters[|st.characters|].groups == GroupsOf(d.id, inp)
  {
    StepParts(st, d, inp);
  }

  function CharIds(cs: seq<Character>): (ids: seq<string>)
    ensures |ids| == |cs|
  {
    if cs == [] then [] else [cs[0].id] + CharIds(cs[1..])
  }

  function RecordIds(ds: seq<CharData>): (ids: seq<string>)
    ensures |ids| == |ds|
  {
    if ds == [] then [] else [ds[0].id] + RecordIds(ds[1..])
  }

  lemma {:induction false} CharIdsAppend(a: seq<Character>, b: seq<Character>)
    ensures CharIds(a + b) == CharIds(a) + CharIds(b)
  {
    if a == [] {
      assert a + b == b;
    } else {
      assert (a + b)[0] == a[0];
      assert (a + b)[1..] == a[1..] + b;
      CharIdsAppend(a[1..], b);
    }
  }

  lemma AppendAssoc(a: seq<string>, b: seq<string>, c: seq<string>)
    ensures (a + b) + c == a + (b + c)
  {
  }

  /** The characters come one per record, with the records' ids, in order. */
  lemma {:induction false} ProcessIds(st: State, ds: seq<CharData>, inp: Inputs)
    requires Process(st, ds, inp).Ok?
    ensures CharIds(Process(st, ds, inp).value.characters) == CharIds(st.characters) + RecordIds(ds)
    decreases |ds|
  {
    if ds == [] {
      assert CharIds(st.characters) + RecordIds(ds) == CharIds(st.characters);
    } else {
      StepChar(st, ds[0], inp);
      var next := Step(st, ds[0], inp).value;
      ProcessIds(next, ds[1..], inp);
      var ch := next.characters[|st.characters|];
      assert next.characters == st.characters + [ch];
      CharIdsAppend(st.characters, [ch]);
      assert CharIds([ch]) == [ds[0].id] by {
        assert [ch][1..] == [];
      }
      assert Process(st, ds, inp) == Process(next, ds[1..], inp);
      var a, b := CharIds(st.characters), RecordIds(ds[1..]);
      calc {
        CharIds(Process(st, ds, inp).value.characters);
        CharIds(next.characters) + b;
        (a + [ds[0].id]) + b;
        { AppendAssoc(a, [ds[0].id], b); }
        a + ([ds[0].id] + b);
        a + RecordIds(ds);
      }
    }
  }

  /** The characters `get_chars` returns: one per record, with the
      record's id, in order; each with a name in every language and the
      clubs and schools that list it. */
  lemma GetCharsRecords(inp: Inputs, store: map<string, LangData>)
    requires GetCharsSpec(inp, store).Ok?
    ensures var c := GetCharsSpec(inp, store).value;
      && CharIds(c.characters) == RecordIds(inp.chars)
      && (forall i :: 0 <= i < |c.characters| ==>
            && HasAllLangs(c.characters[i].names)
            && c.characters[i].groups == GroupsOf(c.characters[i].id, inp))
  {
    ProcessKeepsLists(Initial(store), inp.chars, inp);
    ProcessIds(Initial(store), inp.chars, inp);
  }

  /** The images of the catalog: unique across all characters, sorted per
      character, and exactly the keys of the avatar table, whose files all
      exist. */
  lemma GetCharsImages(inp: Inputs, store: map<string, LangData>)
    requires GetCharsSpec(inp, store).Ok?
    ensures var c := GetCharsSpec(inp, store).value;
      && Distinct(AllImages(c.characters))
      && c.avatarFiles.Keys == (set n | n in AllImages(c.characters))
      && (forall n :: n in c.avatarFiles ==> c.avatarFiles[n] in inp.images.existing)
      && (forall i :: 0 <= i < |c.characters| ==> Sorted(c.characters[i].images, LexLe))
  {
    ProcessKeepsImages(Initial(store), inp.chars, inp);
  }

  /** Each report lists, in order, the characters no school (resp. club)
      lists, each with its id, its Japanese name and its least image name. */
  lemma GetCharsReports(inp: Inputs, store: map<string, LangData>)
    requires GetCharsSpec(inp, store).Ok?
    ensures var c := GetCharsSpec(inp, store).value;
      && ReportLists(c.noSchoolReport, Unlisted(c.characters, inp.schools))
      && ReportLists(c.noClubReport, Unlisted(c.characters, inp.clubs))
  {
    var st := Process(Initial(store), inp.chars, inp).value;
    ProcessKeepsLists(Initial(store), inp.chars, inp);
    ProcessNamed(store, inp);
    ProcessedListsSorted(store, inp);
    assert GetCharsSpec(inp, store) == Finish(st);
    FinishReports(st);
  }

  /** The characters the reports list have sorted image lists. */
  lemma ProcessedListsSorted(store: map<string, LangData>, inp: Inputs)
    requires Process(Initial(store), inp.chars, inp).Ok?
    ensures var st := Process(Initial(store), inp.chars, inp).value;
      && (forall c :: c in st.noSchool ==> Sorted(c.images, LexLe))
      && (forall c :: c in st.noClub ==> Sorted(c.images, LexLe))
  {
    var st := Process(Initial(store), inp.chars, inp).value;
    ProcessKeepsLists(Initial(store), inp.chars, inp);
    ProcessKeepsImages(Initial(store), inp.chars, inp);
    UnlistedFrom(st.characters, inp.schools);
    UnlistedFrom(st.characters, inp.clubs);
    forall c | c in st.characters ensures Sorted(c.images, LexLe) {
      var i :| 0 <= i < |st.characters| && st.characters[i] == c;
    }
  }

  lemma FinishReports(st: State)
    requires ReportsNamed(st)
    requires forall c :: c in st.noSchool ==> Sorted(c.images, LexLe)
    requires forall c :: c in st.noClub ==> Sorted(c.images, LexLe)
    requires Finish(st).Ok?
    ensures ReportLists(Finish(st).value.noSchoolReport, st.noSchool)
    ensures ReportLists(Finish(st).value.noClubReport, st.noClub)
  {
    ReportListsHold(st.noSchool);
    ReportListsHold(st.noClub);
  }

  /** `report` has one entry per character of `cs`, in order, carrying its
      id, its Japanese name and its least image name. */
  ghost predicate ReportLists(report: seq<ReportEntry>, cs: seq<Character>) {
    && |report| == |cs|
    && forall i :: 0 <= i < |cs| ==>
         && report[i].id == cs[i].id
         && "ja" in cs[i].names && report[i].jaName == cs[i].names["ja"]
         && report[i].firstImage in cs[i].images
         && (forall j :: 0 <= j < |cs[i].images| ==> LexLe(report[i].firstImage, cs[i].images[j]))
  }

  lemma ReportListsHold(cs: seq<Character>)
    requires forall i :: 0 <= i < |cs| ==> "ja" in cs[i].names && Sorted(cs[i].images, LexLe)
    requires Report(cs).Ok?
    ensures ReportLists(Report(cs).value, cs)
  {
    forall k | 0 <= k < |cs| ensures |cs[k].images| > 0 {
      if |cs[k].images| == 0 {
        var j := FirstWithoutImage(cs, k);
        ReportFails(cs, j);
      }
    }
    ReportSucceeds(cs);
    forall x ensures LexLe(x, x) {
      LexLeTotal(x, x);
    }
  }

  /** The first character, at or before `k`, without images. */
  lemma FirstWithoutImage(cs: seq<Character>, k: nat) returns (j: nat)
    requires k < |cs| && |cs[k].images| == 0
    ensures j <= k && |cs[j].images| == 0 && forall i :: 0 <= i < j ==> |cs[i].images| > 0
  {
    j := k;
    while exists i :: 0 <= i < j && |cs[i].images| == 0
      invariant j <= k && |cs[j].images| == 0
      decreases j
    {
      var i :| 0 <= i < j && |cs[i].images| == 0;
      j := i;
    }
  }

  // ---------------------------------------------------------------- the translation store

  /** The store part of a step is one step of `MergeAll`. */
  lemma StepMerge(st: State, d: CharData, inp: Inputs)
    requires Step(st, d, inp).Ok?
    ensures DefaultLangData(d, inp.romanize).Ok?
    ensures var def := DefaultLangData(d, inp.romanize).value;
      && HasAllLangs(def.name)
      && MergeEntry(Lookup(st.translations, d.id), def).Ok?
      && var r := MergeEntry(Lookup(st.translations, d.id), def).value;
      && Step(st, d, inp).value.translations == st.translations[d.id := r.0]
      && Step(st, d, inp).value.dirty == (st.dirty || r.1)
  {
  }

  /** The loop's store and flag are those of `MergeAll` over the same records. */
  lemma {:induction false} ProcessMerges(st: State, ds: seq<CharData>, inp: Inputs)
    requires Process(st, ds, inp).Ok?
    ensures MergeAll(st.translations, st.dirty, ds, inp.romanize)
         == Ok((Process(st, ds, inp).value.translations, Process(st, ds, inp).value.dirty))
    decreases |ds|
  {
    if ds != [] {
      StepMerge(st, ds[0], inp);
      var next := Step(st, ds[0], inp).value;
      ProcessMerges(next, ds[1..], inp);
      assert Process(st, ds, inp) == Process(next, ds[1..], inp);
    }
  }

  /** Re-running a step on a store whose entry for the record is settled and
      equal to the entry the first run ended with gives the same step,
      except for the store and the flag, which are left as they are. */
  lemma StepRerun(stA: State, d: CharData, inp: Inputs, t: map<string, LangData>, dirty: bool)
    requires Step(stA, d, inp).Ok?
    requires Settled(t, d, inp.romanize)
    requires d.id in Step(stA, d, inp).value.translations
    requires t[d.id] == Step(stA, d, inp).value.translations[d.id]
    ensures Step(stA.(translations := t, dirty := dirty), d, inp)
         == Ok(Step(stA, d, inp).value.(translations := t, dirty := dirty))
  {
    StepMerge(stA, d, inp);
    var def := DefaultLangData(d, inp.romanize).value;
    MergeEntryFixpoint(t[d.id], def);
    assert Lookup(t, d.id) == Some(t[d.id]);
    assert t[d.id := t[d.id]] == t;
  }

  lemma {:induction false} ProcessRerun(stA: State, ds: seq<CharData>, inp: Inputs, t: map<string, LangData>, dirty: bool)
    requires DistinctIds(ds)
    requires Process(stA, ds, inp).Ok?
    requires forall i :: 0 <= i < |ds| ==> Settled(t, ds[i], inp.romanize)
    requires forall i :: 0 <= i < |ds| ==>
      ds[i].id in Process(stA, ds, inp).value.translations && ds[i].id in t &&
      t[ds[i].id] == Process(stA, ds, inp).value.translations[ds[i].id]
    ensures Process(stA.(translations := t, dirty := dirty), ds, inp)
         == Ok(Process(stA, ds, inp).value.(translations := t, dirty := dirty))
    decreases |ds|
  {
    if ds != [] {
      var d := ds[0];
      IdsCons(ds);
      var next := Step(stA, d, inp).value;
      assert Process(stA, ds, inp) == Process(next, ds[1..], inp);
      var rA := Process(next, ds[1..], inp).value;
      StepMerge(stA, d, inp);
      assert d.id in next.translations;
      ProcessMerges(next, ds[1..], inp);
      MergeAllFrame(next.translations, next.dirty, ds[1..], inp.romanize);
      assert rA.translations[d.id] == next.translations[d.id];
      assert Settled(t, ds[0], inp.romanize);
      StepRerun(stA, d, inp, t, dirty);
      forall i | 0 <= i < |ds[1..]|
        ensures Settled(t, ds[1..][i], inp.romanize)
        ensures ds[1..][i].id in rA.translations && ds[1..][i].id in t && t[ds[1..][i].id] == rA.translations[ds[1..][i].id]
      {
        assert ds[1..][i] == ds[i + 1];
      }
      ProcessRerun(next, ds[1..], inp, t, dirty);
    }
  }

  /** The store `get_chars` writes is the merge of every record's default
      entry into the store it read, and the flag is that merge's. */
  lemma GetCharsTranslations(inp: Inputs, store: map<string, LangData>)
    requires GetCharsSpec(inp, store).Ok?
    ensures MergeAll(store, false, inp.chars, inp.romanize)
         == Ok((GetCharsSpec(inp, store).value.translations, GetCharsSpec(inp, store).value.dirty))
  {
    ProcessMerges(Initial(store), inp.chars, inp);
  }

  /** With one record per id, the store is rewritten exactly when its contents changed. */
  lemma GetCharsDirty(inp: Inputs, store: map<string, LangData>)
    requires DistinctIds(inp.chars)
    requires GetCharsSpec(inp, store).Ok?
    ensures GetCharsSpec(inp, store).value.dirty <==> GetCharsSpec(inp, store).value.translations != store
  {
    ProcessMerges(Initial(store), inp.chars, inp);
    MergeAllDirty(store, false, inp.chars, inp.romanize);
  }

  /** With one record per id, running `get_chars` again on the store it
      wrote returns the same catalog and leaves the store clean. */
  lemma GetCharsRerun(inp: Inputs, store: map<string, LangData>)
    requires DistinctIds(inp.chars)
    requires GetCharsSpec(inp, store).Ok?
    ensures var c := GetCharsSpec(inp, store).value;
      GetCharsSpec(inp, c.translations) == Ok(c.(dirty := false))
  {
    var st := Process(Initial(store), inp.chars, inp).value;
    var t := st.translations;
    ProcessMerges(Initial(store), inp.chars, inp);
    MergeAllSettles(store, false, inp.chars, inp.romanize);
    ProcessRerun(Initial(store), inp.chars, inp, t, false);
    assert Initial(store).(translations := t, dirty := false) == Initial(t);
    ProcessNamed(store, inp);
    assert GetCharsSpec(inp, store) == Finish(st);
    assert GetCharsSpec(inp, t) == Finish(st.(dirty := false));
  }

  // ---------------------------------------------------------------- the script's loop

  /** One report file (lines 150-155), written entry by entry; a listed
      character without images stops it. */
  method WriteReport(cs: seq<Character>) returns (r: Result<seq<ReportEntry>, Error>)
    requires forall i :: 0 <= i < |cs| ==> "ja" in cs[i].names
    ensures r == Report(cs)
  {
    var lines: seq<ReportEntry> := [];
    for i := 0 to |cs|
      invariant |lines| == i
      invariant forall j :: 0 <= j < i ==> |cs[j].images| > 0 && lines[j] == Entry(cs[j])
    {
      if |cs[i].images| == 0 {
        ReportFails(cs, i);
        return Err(ReportWithoutImage(cs[i].id));
      }
      lines := lines + [Entry(cs[i])];
    }
    ReportSucceeds(cs);
    assert lines == Report(cs).value;
    return Ok(lines);
  }

  /** The end of a step whose translation parts succeed: the images, then the append. */
  function Completed(st: State, d: CharData, inp: Inputs, entry: LangData, changed: bool): Result<State, Error>
    requires HasAllLangs(entry.name)
  {
    match CharImages(d.imageFiles, inp.images, st.assets)
    case Err(e) => Err(e)
    case Ok((images, assets)) => Ok(Append(st, d, inp, entry, changed, images, assets))
  }

  /** A step whose translation parts succeed goes on to its images. */
  lemma StepThrough(st: State, d: CharData, inp: Inputs, def: LangData, entry: LangData, changed: bool)
    requires DefaultLangData(d, inp.romanize) == Ok(def)
    requires MergeEntry(Lookup(st.translations, d.id), def) == Ok((entry, changed))
    ensures HasAllLangs(entry.name)
    ensures Step(st, d, inp) == Completed(st, d, inp, entry, changed)
  {
    MergeEntryComplete(Lookup(st.translations, d.id), def);
  }

  /** Lines 80-100 of one iteration: the default translation and the merge
      with the stored one; the rest is `AppendCharacter`. */
  method AddCharacter(st: State, data: CharData, inp: Inputs) returns (r: Result<State, Error>)
    ensures r == Step(st, data, inp)
  {
    var defaultTrans := DefaultLangData(data, inp.romanize);
    if defaultTrans.Err? {
      return Err(defaultTrans.error);
    }
    var existing := Lookup(st.translations, data.id);
    MergeEntryComplete(existing, defaultTrans.value);
    var merged := MergeTranslation(existing, defaultTrans.value);
    if merged.Err? {
      return Err(merged.error);
    }
    StepThrough(st, data, inp, defaultTrans.value, merged.value.0, merged.value.1);
    r := AppendCharacter(st, data, inp, merged.value.0, merged.value.1);
  }

  /** Lines 101-143 of one iteration: the store entry written back, the
      short names, the images, the character appended and listed. */
  method AppendCharacter(st: State, data: CharData, inp: Inputs, trans: LangData, changed: bool) returns (r: Result<State, Error>)
    requires HasAllLangs(trans.name)
    ensures r == Completed(st, data, inp, trans, changed)
  {
    var translations, updated, result := st.translations, st.dirty, st.characters;
    var avatarFiles, imageConfig := st.assets.avatarFiles, st.assets.imageConfig;
    var noSchool, noClub := st.noSchool, st.noClub;
    var cid := data.id;
    translations := translations[cid := trans];
    updated := updated || changed;
    var shortName := ComputeShortNames(trans);
    var found := ResolveCharImages(data.imageFiles, inp.images, Assets(avatarFiles, imageConfig));
    if found.Err? {
      return Err(found.error);
    }
    var ch := Character(cid, trans.name, shortName, found.value.0, GroupsOf(cid, inp));
    avatarFiles, imageConfig := found.value.1.avatarFiles, found.value.1.imageConfig;
    result := result + [ch];
    if NoGroup(cid, inp.schools) {
      noSchool := noSchool + [ch];
    }
    if NoGroup(cid, inp.clubs) {
      noClub := noClub + [ch];
    }
    ghost var next := Append(st, data, inp, trans, changed, found.value.0, found.value.1);
    assert next.characters == result && next.noSchool == noSchool && next.noClub == noClub;
    return Ok(State(translations, updated, result, Assets(avatarFiles, imageConfig), noSchool, noClub));
  }

  /** One iteration of the record loop, as `Process` sees it. */
  lemma ProcessAt(st: State, ds: seq<CharData>, i: nat, inp: Inputs)
    requires i < |ds|
    ensures Process(st, ds[i..], inp) == match Step(st, ds[i], inp)
      case Err(e) => Err(e)
      case Ok(next) => Process(next, ds[i + 1..], inp)
  {
    assert ds[i..][0] == ds[i] && ds[i..][1..] == ds[i + 1..];
  }

  /** Lines 77-143: the loop over the records, updating the state in place. */
  method ProcessRecords(st0: State, ds: seq<CharData>, inp: Inputs) returns (r: Result<State, Error>)
    ensures r == Process(st0, ds, inp)
  {
    var st := st0;
    var i := 0;
    assert ds[i..] == ds;
    while i < |ds|
      invariant 0 <= i <= |ds|
      invariant Process(st0, ds, inp) == Process(st, ds[i..], inp)
    {
      ProcessAt(st, ds, i, inp);
      var next := AddCharacter(st, ds[i], inp);
      if next.Err? {
        return Err(next.error);
      }
      st := next.value;
      i := i + 1;
    }
    assert ds[i..] == [];
    return Ok(st);
  }

  /** `get_chars` as the script runs it: one pass over the records that
      updates the store, the asset tables and the diagnostics lists in
      place, then the two reports. */
  method GetChars(inp: Inputs, store: map<string, LangData>) returns (r: Result<Catalog, Error>)
    ensures r == GetCharsSpec(inp, store)
  {
    var processed := ProcessRecords(Initial(store), inp.chars, inp);
    if processed.Err? {
      return Err(processed.error);
    }
    ProcessNamed(store, inp);
    r := WriteReports(processed.value);
  }

  /** The end of `get_chars`: the two report files, then the result. */
  method WriteReports(st: State) returns (r: Result<Catalog, Error>)
    requires ReportsNamed(st)
    ensures r == Finish(st)
  {
    var schoolReport := WriteReport(st.noSchool);
    if schoolReport.Err? {
      return Err(schoolReport.error);
    }
    var clubReport := WriteReport(st.noClub);
    if clubReport.Err? {
      return Err(clubReport.error);
    }
    return Ok(Catalog(st.characters, st.assets.avatarFiles, st.assets.imageConfig,
                      st.translations, st.dirty, schoolReport.value, clubReport.value));
  }
}
