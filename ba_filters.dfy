/** Blue Archive: `get_filters` of `blue_archive/get_resources_v2.py` — one
    filter category per group type, schools first, then clubs, each listing
    its groups by id with their names in every language. */
module BlueArchiveFilters {
  import opened Wrappers
  import opened Text
  import opened Sorting
  import opened Models
  import opened BlueArchiveNames

  /** A group record of `lang/schools.yaml` or `lang/clubs.yaml`
      (`GroupLangData`): an id and a name per language, which may be null. */
  datatype GroupLang = GroupLang(id: string, name: map<string, Option<string>>)

  /** The loaded inputs: the titles of `lang/group_types.yaml` by group-type
      key, and the group records of the two group files. */
  datatype FilterInputs = FilterInputs(
    typeNames: map<string, map<string, string>>,
    schools: seq<GroupLang>,
    clubs: seq<GroupLang>)

  /** The group types, in the order the categories are emitted. */
  const GroupTypeKeys: seq<string> := ["schools", "clubs"]

  /** The records of `lang/<key>.yaml`. */
  function GroupFile(inp: FilterInputs, key: string): seq<GroupLang> {
    if key == "schools" then inp.schools else inp.clubs
  }

  // ---------------------------------------------------------------- names

  /** `x or ""` on a name that may be null. */
  function OrEmpty(x: Option<string>): string {
    if x.Some? then x.value else ""
  }

  /** `{k: name[k] or "" for k in langs}`: fails on the first language of
      `langs` the record has no entry for. */
  function NormaliseName(id: string, name: map<string, Option<string>>, langs: seq<string>): (r: Result<map<string, string>, Error>)
    ensures r.Ok? <==> forall l :: l in langs ==> l in name
    ensures r.Ok? ==> r.value.Keys == set l | l in langs
    ensures r.Ok? ==> forall l :: l in langs ==> r.value[l] == OrEmpty(name[l])
    ensures r.Err? ==> exists i :: (
      && 0 <= i < |langs| && langs[i] !in name
      && r.error == MissingGroupName(id, langs[i])
      && forall j :: 0 <= j < i ==> langs[j] in name)
  {
    if langs == [] then Ok(map[])
    else if langs[0] !in name then Err(MissingGroupName(id, langs[0]))
    else match NormaliseName(id, name, langs[1..])
      case Err(e) =>
        assert forall j :: 1 <= j < |langs| ==> langs[j] == langs[1..][j - 1];
        Err(e)
      case Ok(rest) =>
        assert forall l :: l in langs <==> l == langs[0] || l in langs[1..];
        Ok(rest[langs[0] := OrEmpty(name[langs[0]])])
  }

  /** The record names every language of the store. */
  predicate HasAllNames(g: GroupLang) {
    forall l :: l in AllLangs ==> l in g.name
  }

  /** Line 173 for one record: its names in every language of the store. */
  function NormaliseRecord(g: GroupLang): (r: Result<map<string, string>, Error>)
    ensures r.Ok? <==> HasAllNames(g)
    ensures r.Ok? ==> r.value.Keys == set l | l in AllLangs
  {
    NormaliseName(g.id, g.name, AllLangs)
  }

  /** Every record names every language of the store. */
  ghost predicate Named(gs: seq<GroupLang>) {
    forall i :: 0 <= i < |gs| ==> HasAllNames(gs[i])
  }

  /** The normalised names of `gs`, in order; the first record missing a
      language stops the run. */
  function NormaliseAll(gs: seq<GroupLang>): Result<seq<map<string, string>>, Error> {
    if gs == [] then Ok([])
    else match NormaliseRecord(gs[0])
      case Err(e) => Err(e)
      case Ok(n) =>
        match NormaliseAll(gs[1..])
        case Err(e) => Err(e)
        case Ok(rest) => Ok([n] + rest)
  }

  /** The run succeeds exactly when every record names every language; it
      then holds each record's normalised names, and otherwise fails with
      the error of one of the records. */
  lemma NormaliseAllSpec(gs: seq<GroupLang>)
    ensures NormaliseAll(gs).Ok? <==> Named(gs)
    ensures NormaliseAll(gs).Ok? ==> |NormaliseAll(gs).value| == |gs|
    ensures NormaliseAll(gs).Ok? ==> forall i :: 0 <= i < |gs| ==>
      NormaliseRecord(gs[i]) == Ok(NormaliseAll(gs).value[i])
    ensures NormaliseAll(gs).Err? ==> exists i :: (0 <= i < |gs| &&
      NormaliseRecord(gs[i]) == Err(NormaliseAll(gs).error))
  {
    NormaliseAllOk(gs);
    NormaliseAllErr(gs);
  }

  lemma NormaliseAllOk(gs: seq<GroupLang>)
    ensures NormaliseAll(gs).Ok? <==> Named(gs)
    ensures NormaliseAll(gs).Ok? ==> |NormaliseAll(gs).value| == |gs|
    ensures NormaliseAll(gs).Ok? ==> forall i :: 0 <= i < |gs| ==>
      NormaliseRecord(gs[i]) == Ok(NormaliseAll(gs).value[i])
  {
    NormaliseAllNamed(gs);
    NormaliseAllValues(gs);
  }

  lemma {:induction false} NormaliseAllNamed(gs: seq<GroupLang>)
    ensures NormaliseAll(gs).Ok? <==> Named(gs)
  {
    if gs != [] {
      var tail := gs[1..];
      NormaliseAllNamed(tail);
      assert forall i :: 1 <= i < |gs| ==> gs[i] == tail[i - 1];
    }
  }

  lemma {:induction false} NormaliseAllValues(gs: seq<GroupLang>)
    ensures NormaliseAll(gs).Ok? ==> |NormaliseAll(gs).value| == |gs|
    ensures NormaliseAll(gs).Ok? ==> forall i :: 0 <= i < |gs| ==>
      NormaliseRecord(gs[i]) == Ok(NormaliseAll(gs).value[i])
  {
    if gs != [] && NormaliseAll(gs).Ok? {
      var tail := gs[1..];
      NormaliseAllValues(tail);
      var head := NormaliseRecord(gs[0]);
      var v := NormaliseAll(gs).value;
      assert v == [head.value] + NormaliseAll(tail).value;
      forall i | 0 <= i < |gs|
        ensures NormaliseRecord(gs[i]) == Ok(v[i])
      {
        if i > 0 {
          assert gs[i] == tail[i - 1] && v[i] == NormaliseAll(tail).value[i - 1];
        }
      }
    }
  }

  lemma {:induction false} NormaliseAllErr(gs: seq<GroupLang>)
    ensures NormaliseAll(gs).Err? ==> exists i :: (0 <= i < |gs| &&
      NormaliseRecord(gs[i]) == Err(NormaliseAll(gs).error))
  {
    if gs != [] {
      var tail := gs[1..];
      var head := NormaliseRecord(gs[0]);
      if head.Ok? && NormaliseAll(tail).Err? {
        NormaliseAllErr(tail);
        var i :| 0 <= i < |tail| && NormaliseRecord(tail[i]) == Err(NormaliseAll(tail).error);
        assert gs[i + 1] == tail[i];
      }
    }
  }

  // ---------------------------------------------------------------- one category

  /** `sorted(groups, key=lambda gp: gp.id)`. */
  function IdLe(a: GroupLang, b: GroupLang): bool {
    LexLe(a.id, b.id)
  }

  lemma IdLeIsTotalPreorder()
    ensures IsTotalPreorder(IdLe)
  {
    forall a, b ensures IdLe(a, b) || IdLe(b, a) {
      LexLeTotal(a.id, b.id);
    }
    forall a, b, c | IdLe(a, b) && IdLe(b, c) ensures IdLe(a, c) {
      LexLeTransitive(a.id, b.id, c.id);
    }
  }

  function GroupIds(gs: seq<GroupLang>): (r: seq<string>)
    ensures |r| == |gs| && forall i :: 0 <= i < |gs| ==> r[i] == gs[i].id
  {
    if gs == [] then [] else [gs[0].id] + GroupIds(gs[1..])
  }

  /** `[False] * n`. */
  function Unselected(n: nat): (r: seq<bool>)
    ensures |r| == n && forall i :: 0 <= i < n ==> !r[i]
  {
    if n == 0 then [] else [false] + Unselected(n - 1)
  }

  /** The category of group type `key`: the groups sorted by id, their names
      normalised, then the title looked up. */
  function Category(key: string, groups: seq<GroupLang>, typeNames: map<string, map<string, string>>): Result<FilterGroup, Error> {
    var sorted := SortBy(groups, IdLe);
    match NormaliseAll(sorted)
    case Err(e) => Err(e)
    case Ok(names) =>
      if key !in typeNames then Err(MissingGroupTypeTitle(key))
      else Ok(FilterGroup(key, typeNames[key], GroupIds(sorted), names, Unselected(|sorted|)))
  }

  /** `get_filters`: the categories of every group type, in order. */
  function Categories(inp: FilterInputs, keys: seq<string>): Result<seq<FilterGroup>, Error> {
    if keys == [] then Ok([])
    else match Category(keys[0], GroupFile(inp, keys[0]), inp.typeNames)
      case Err(e) => Err(e)
      case Ok(c) =>
        match Categories(inp, keys[1..])
        case Err(e) => Err(e)
        case Ok(rest) => Ok([c] + rest)
  }

  function GetFiltersSpec(inp: FilterInputs): Result<seq<FilterGroup>, Error> {
    Categories(inp, GroupTypeKeys)
  }

  // ---------------------------------------------------------------- what a category holds

  /** A category lists every group of its file once, ordered by id (groups
      with the same id in file order), with the names of each group in every
      language and nothing selected; it fails exactly when a group misses a
      language (that error comes first) or the type has no title. */
  lemma CategoryMeaning(key: string, groups: seq<GroupLang>, typeNames: map<string, map<string, string>>)
    ensures var r := Category(key, groups, typeNames);
      r.Ok? <==> Named(groups) && key in typeNames
    ensures var r := Category(key, groups, typeNames);
      !Named(groups) ==> r.Err? && r.error.MissingGroupName?
    ensures var r := Category(key, groups, typeNames);
      Named(groups) && key !in typeNames ==> r == Err(MissingGroupTypeTitle(key))
    ensures var r := Category(key, groups, typeNames);
      r.Ok? ==>
        var sorted := SortBy(groups, IdLe);
        && r.value.key == key && r.value.title == typeNames[key]
        && multiset(sorted) == multiset(groups)
        && Stable(sorted, groups, IdLe)
        && Sorted(r.value.ids, LexLe)
        && |r.value.ids| == |r.value.names| == |r.value.selected| == |groups|
        && (forall i :: 0 <= i < |groups| ==> r.value.ids[i] == sorted[i].id && !r.value.selected[i])
        && NamesOf(r.value.names, sorted)
  {
    CategoryOutcome(key, groups, typeNames);
    var r := Category(key, groups, typeNames);
    if r.Ok? {
      CategoryContent(key, groups, typeNames);
    }
  }

  lemma CategoryOutcome(key: string, groups: seq<GroupLang>, typeNames: map<string, map<string, string>>)
    ensures var r := Category(key, groups, typeNames);
      && (r.Ok? <==> Named(groups) && key in typeNames)
      && (!Named(groups) ==> r.Err? && r.error.MissingGroupName?)
      && (Named(groups) && key !in typeNames ==> r == Err(MissingGroupTypeTitle(key)))
  {
    var sorted := SortBy(groups, IdLe);
    IdLeIsTotalPreorder();
    SortByCorrect(groups, IdLe);
    NamedPermutation(groups, sorted);
    NormaliseAllMeaning(sorted);
  }

  lemma CategoryContent(key: string, groups: seq<GroupLang>, typeNames: map<string, map<string, string>>)
    requires Category(key, groups, typeNames).Ok?
    ensures var r, sorted := Category(key, groups, typeNames).value, SortBy(groups, IdLe);
      && r.key == key && r.title == typeNames[key]
      && multiset(sorted) == multiset(groups)
      && Stable(sorted, groups, IdLe)
      && Sorted(r.ids, LexLe)
      && |r.ids| == |r.names| == |r.selected| == |groups|
      && (forall i :: 0 <= i < |groups| ==> r.ids[i] == sorted[i].id && !r.selected[i])
      && NamesOf(r.names, sorted)
  {
    var sorted := SortBy(groups, IdLe);
    IdLeIsTotalPreorder();
    SortByCorrect(groups, IdLe);
    NormaliseAllMeaning(sorted);
    var r := Category(key, groups, typeNames).value;
    assert r.names == NormaliseAll(sorted).value;
    var ids := r.ids;
    forall i, j | 0 <= i < j < |ids| ensures LexLe(ids[i], ids[j]) {
      assert IdLe(sorted[i], sorted[j]);
    }
  }

  /** Two orders of the same records are named alike. */
  lemma NamedPermutation(a: seq<GroupLang>, b: seq<GroupLang>)
    requires multiset(a) == multiset(b)
    ensures Named(a) <==> Named(b)
  {
    forall i | 0 <= i < |b| && Named(a) ensures HasAllNames(b[i]) {
      assert b[i] in multiset(a);
    }
    forall i | 0 <= i < |a| && Named(b) ensures HasAllNames(a[i]) {
      assert a[i] in multiset(b);
    }
  }

  /** `names` holds, for each record of `gs`, its name in every language with null read as "". */
  ghost predicate NamesOf(names: seq<map<string, string>>, gs: seq<GroupLang>) {
    && |names| == |gs|
    && forall i :: 0 <= i < |gs| ==>
         && names[i].Keys == (set l | l in AllLangs)
         && forall l :: l in AllLangs ==> l in gs[i].name && names[i][l] == OrEmpty(gs[i].name[l])
  }

  /** The normalised names hold every language, with null read as "". */
  lemma NormaliseAllMeaning(gs: seq<GroupLang>)
    ensures NormaliseAll(gs).Ok? <==> Named(gs)
    ensures NormaliseAll(gs).Ok? ==> NamesOf(NormaliseAll(gs).value, gs)
    ensures NormaliseAll(gs).Err? ==> NormaliseAll(gs).error.MissingGroupName?
  {
    NormaliseAllSpec(gs);
    if NormaliseAll(gs).Ok? {
      var names := NormaliseAll(gs).value;
      forall i | 0 <= i < |gs|
        ensures names[i].Keys == (set l | l in AllLangs)
        ensures forall l :: l in AllLangs ==> l in gs[i].name && names[i][l] == OrEmpty(gs[i].name[l])
      {
        assert NormaliseRecord(gs[i]) == Ok(names[i]);
      }
    } else {
      var i :| 0 <= i < |gs| && NormaliseRecord(gs[i]) == Err(NormaliseAll(gs).error);
    }
  }

  /** `get_filters` yields the schools category, then the clubs category. */
  lemma GetFiltersMeaning(inp: FilterInputs)
    ensures var r := GetFiltersSpec(inp);
      r.Ok? <==> Category("schools", inp.schools, inp.typeNames).Ok? && Category("clubs", inp.clubs, inp.typeNames).Ok?
    ensures var r := GetFiltersSpec(inp);
      r.Ok? ==> r.value == [Category("schools", inp.schools, inp.typeNames).value, Category("clubs", inp.clubs, inp.typeNames).value]
    ensures var r := GetFiltersSpec(inp);
      Category("schools", inp.schools, inp.typeNames).Err? ==> r == Category("schools", inp.schools, inp.typeNames).PropagateFailure()
  {
    CategoriesOfTwo(inp, "schools", "clubs");
  }

  lemma CategoriesOfTwo(inp: FilterInputs, a: string, b: string)
    ensures var ca, cb := Category(a, GroupFile(inp, a), inp.typeNames), Category(b, GroupFile(inp, b), inp.typeNames);
      Categories(inp, [a, b]) == if ca.Err? then Err(ca.error) else if cb.Err? then Err(cb.error) else Ok([ca.value, cb.value])
  {
    var ca, cb := Category(a, GroupFile(inp, a), inp.typeNames), Category(b, GroupFile(inp, b), inp.typeNames);
    assert [a, b][1..] == [b] && [b][1..] == [];
    if ca.Ok? && cb.Ok? {
      assert Categories(inp, [b]) == Ok([cb.value] + []);
      assert [ca.value] + ([cb.value] + []) == [ca.value, cb.value];
    }
  }

  // ---------------------------------------------------------------- the script's loops

  /** `done` followed by what the rest of a loop produces. */
  function Prefixed<T>(done: seq<T>, rest: Result<seq<T>, Error>): Result<seq<T>, Error> {
    match rest
    case Err(e) => Err(e)
    case Ok(more) => Ok(done + more)
  }

  lemma PrefixedNothing<T>(rest: Result<seq<T>, Error>)
    ensures Prefixed([], rest) == rest
  {
    if rest.Ok? {
      assert [] + rest.value == rest.value;
    }
  }

  lemma PrefixedTwice<T>(done: seq<T>, x: T, rest: Result<seq<T>, Error>)
    ensures Prefixed(done, Prefixed([x], rest)) == Prefixed(done + [x], rest)
  {
    if rest.Ok? {
      assert done + ([x] + rest.value) == done + [x] + rest.value;
    }
  }

  /** The loop of lines 171-173: each group's name, in turn, rewritten to
      hold every language. */
  method NormaliseGroups(sorted: seq<GroupLang>) returns (r: Result<seq<map<string, string>>, Error>)
    ensures r == NormaliseAll(sorted)
  {
    var names: seq<map<string, string>> := [];
    var i := 0;
    PrefixedNothing(NormaliseAll(sorted));
    assert sorted[i..] == sorted;
    while i < |sorted|
      invariant 0 <= i <= |sorted|
      invariant NormaliseAll(sorted) == Prefixed(names, NormaliseAll(sorted[i..]))
    {
      NormaliseAllAt(sorted, i);
      var n := NormaliseRecord(sorted[i]);
      if n.Err? {
        return Err(n.error);
      }
      PrefixedTwice(names, n.value, NormaliseAll(sorted[i + 1..]));
      names := names + [n.value];
      i := i + 1;
    }
    assert sorted[i..] == [] && names + [] == names;
    r := Ok(names);
  }

  /** One turn of that loop, as `NormaliseAll` sees it. */
  lemma NormaliseAllAt(gs: seq<GroupLang>, i: nat)
    requires i < |gs|
    ensures NormaliseAll(gs[i..]) == match NormaliseRecord(gs[i])
      case Err(e) => Err(e)
      case Ok(n) => Prefixed([n], NormaliseAll(gs[i + 1..]))
  {
    assert gs[i..][0] == gs[i] && gs[i..][1..] == gs[i + 1..];
  }

  /** One turn of the outer loop (lines 169-180): sort the file, rewrite the
      names, then build the category. */
  method BuildCategory(key: string, groups: seq<GroupLang>, typeNames: map<string, map<string, string>>)
    returns (r: Result<FilterGroup, Error>)
    ensures r == Category(key, groups, typeNames)
  {
    var sorted := SortBy(groups, IdLe);
    var names := NormaliseGroups(sorted);
    if names.Err? {
      return Err(names.error);
    }
    if key !in typeNames {
      return Err(MissingGroupTypeTitle(key));
    }
    r := Ok(FilterGroup(key, typeNames[key], GroupIds(sorted), names.value, Unselected(|sorted|)));
  }

  /** `get_filters`: one category per group type, in order; the first failure stops the run. */
  method GetFilters(inp: FilterInputs) returns (r: Result<seq<FilterGroup>, Error>)
    ensures r == GetFiltersSpec(inp)
  {
    var result: seq<FilterGroup> := [];
    var k := 0;
    PrefixedNothing(GetFiltersSpec(inp));
    while k < |GroupTypeKeys|
      invariant 0 <= k <= |GroupTypeKeys|
      invariant GetFiltersSpec(inp) == Prefixed(result, Categories(inp, GroupTypeKeys[k..]))
    {
      var key := GroupTypeKeys[k];
      CategoriesAt(inp, GroupTypeKeys, k);
      var c := BuildCategory(key, GroupFile(inp, key), inp.typeNames);
      if c.Err? {
        return Err(c.error);
      }
      PrefixedTwice(result, c.value, Categories(inp, GroupTypeKeys[k + 1..]));
      result := result + [c.value];
      k := k + 1;
    }
    assert GroupTypeKeys[k..] == [] && result + [] == result;
    r := Ok(result);
  }

  /** One turn of that loop, as `Categories` sees it. */
  lemma CategoriesAt(inp: FilterInputs, keys: seq<string>, k: nat)
    requires k < |keys|
    ensures Categories(inp, keys[k..]) == match Category(keys[k], GroupFile(inp, keys[k]), inp.typeNames)
      case Err(e) => Err(e)
      case Ok(c) => Prefixed([c], Categories(inp, keys[k + 1..]))
  {
    assert keys[k..][0] == keys[k] && keys[k..][1..] == keys[k + 1..];
  }
}
