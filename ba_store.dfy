/** Blue Archive: the translation store as the loop of `get_chars` leaves it
    (lines 78-100 of `blue_archive/get_resources_v2.py`, character after
    character), with the meaning of its dirty flag and the fact that a
    second run over the same records leaves it alone. */
module BlueArchiveStore {
  import opened Wrappers
  import opened BlueArchiveNames

  function Lookup(store: map<string, LangData>, id: string): Option<LangData> {
    if id in store then Some(store[id]) else None
  }

  /** The store and the dirty flag after merging the default entry of every record of `ds`. */
  function MergeAll(store: map<string, LangData>, dirty: bool, ds: seq<CharData>, romanize: string -> string)
    : Result<(map<string, LangData>, bool), Error>
    decreases |ds|
  {
    if ds == [] then Ok((store, dirty))
    else match DefaultLangData(ds[0], romanize)
      case Err(e) => Err(e)
      case Ok(def) =>
        match MergeEntry(Lookup(store, ds[0].id), def)
        case Err(e) => Err(e)
        case Ok((entry, changed)) => MergeAll(store[ds[0].id := entry], dirty || changed, ds[1..], romanize)
  }

  function Ids(ds: seq<CharData>): set<string> {
    set i | 0 <= i < |ds| :: ds[i].id
  }

  ghost predicate DistinctIds(ds: seq<CharData>) {
    forall i, j :: 0 <= i < j < |ds| ==> ds[i].id != ds[j].id
  }

  lemma IdsCons(ds: seq<CharData>)
    requires ds != []
    ensures Ids(ds) == {ds[0].id} + Ids(ds[1..])
    ensures DistinctIds(ds) ==> ds[0].id !in Ids(ds[1..]) && DistinctIds(ds[1..])
  {
    forall k | k in Ids(ds) ensures k in {ds[0].id} + Ids(ds[1..]) {
      var i :| 0 <= i < |ds| && ds[i].id == k;
      if i > 0 { assert ds[1..][i - 1] == ds[i]; }
    }
    forall k | k in Ids(ds[1..]) ensures k in Ids(ds) {
      var i :| 0 <= i < |ds[1..]| && ds[1..][i].id == k;
      assert ds[i + 1] == ds[1..][i];
    }
    if DistinctIds(ds) {
      forall i | 0 <= i < |ds[1..]| ensures ds[1..][i].id != ds[0].id {
        assert ds[1..][i] == ds[i + 1];
      }
      forall i, j | 0 <= i < j < |ds[1..]| ensures ds[1..][i].id != ds[1..][j].id {
        assert ds[1..][i] == ds[i + 1] && ds[1..][j] == ds[j + 1];
      }
    }
  }

  /** The store gains an entry for every record and leaves every other entry alone. */
  lemma MergeAllFrame(store: map<string, LangData>, dirty: bool, ds: seq<CharData>, romanize: string -> string)
    requires MergeAll(store, dirty, ds, romanize).Ok?
    ensures var s1 := MergeAll(store, dirty, ds, romanize).value.0;
      && s1.Keys == store.Keys + Ids(ds)
      && (forall k :: k in store && k !in Ids(ds) ==> s1[k] == store[k])
  {
    MergeAllKeys(store, dirty, ds, romanize);
    MergeAllKeeps(store, dirty, ds, romanize);
  }

  lemma {:induction false} MergeAllKeys(store: map<string, LangData>, dirty: bool, ds: seq<CharData>, romanize: string -> string)
    requires MergeAll(store, dirty, ds, romanize).Ok?
    ensures MergeAll(store, dirty, ds, romanize).value.0.Keys == store.Keys + Ids(ds)
    decreases |ds|
  {
    if ds != [] {
      IdsCons(ds);
      var entry, changed := MergeAllCons(store, dirty, ds, romanize);
      MergeAllKeys(store[ds[0].id := entry], dirty || changed, ds[1..], romanize);
    }
  }

  lemma {:induction false} MergeAllKeeps(store: map<string, LangData>, dirty: bool, ds: seq<CharData>, romanize: string -> string)
    requires MergeAll(store, dirty, ds, romanize).Ok?
    ensures var s1 := MergeAll(store, dirty, ds, romanize).value.0;
      forall k :: k in store && k !in Ids(ds) ==> k in s1 && s1[k] == store[k]
    decreases |ds|
  {
    if ds != [] {
      IdsCons(ds);
      var entry, changed := MergeAllCons(store, dirty, ds, romanize);
      MergeAllKeeps(store[ds[0].id := entry], dirty || changed, ds[1..], romanize);
    }
  }

  /** The first record of a successful merge, and the merge of the rest. */
  lemma MergeAllCons(store: map<string, LangData>, dirty: bool, ds: seq<CharData>, romanize: string -> string)
    returns (entry: LangData, changed: bool)
    requires ds != [] && MergeAll(store, dirty, ds, romanize).Ok?
    ensures DefaultLangData(ds[0], romanize).Ok?
    ensures MergeEntry(Lookup(store, ds[0].id), DefaultLangData(ds[0], romanize).value) == Ok((entry, changed))
    ensures MergeAll(store, dirty, ds, romanize) == MergeAll(store[ds[0].id := entry], dirty || changed, ds[1..], romanize)
  {
    var def := DefaultLangData(ds[0], romanize).value;
    entry := MergeEntry(Lookup(store, ds[0].id), def).value.0;
    changed := MergeEntry(Lookup(store, ds[0].id), def).value.1;
  }

  /** With one record per id, the flag ends up set exactly when it was set
      before or the store's contents changed: the store is rewritten only
      when there is something new to write. */
  lemma {:induction false} MergeAllDirty(store: map<string, LangData>, dirty: bool, ds: seq<CharData>, romanize: string -> string)
    requires DistinctIds(ds)
    requires MergeAll(store, dirty, ds, romanize).Ok?
    ensures var r := MergeAll(store, dirty, ds, romanize).value;
      r.1 <==> dirty || r.0 != store
    decreases |ds|
  {
    if ds != [] {
      var id := ds[0].id;
      IdsCons(ds);
      var def := DefaultLangData(ds[0], romanize).value;
      StoreChanged(store, id, def);
      var entry := MergeEntry(Lookup(store, id), def).value.0;
      var changed := MergeEntry(Lookup(store, id), def).value.1;
      var next := store[id := entry];
      MergeAllDirty(next, dirty || changed, ds[1..], romanize);
      MergeAllFrame(next, dirty || changed, ds[1..], romanize);
      var s1 := MergeAll(store, dirty, ds, romanize).value.0;
      assert s1 == MergeAll(next, dirty || changed, ds[1..], romanize).value.0;
      assert id in s1 && s1[id] == entry;
      if changed {
        if id in store {
          assert s1[id] != store[id];
        }
      }
    }
  }

  /** One merge marks the store changed exactly when writing its entry back changes the store. */
  lemma StoreChanged(store: map<string, LangData>, id: string, def: LangData)
    requires HasAllLangs(def.name)
    requires MergeEntry(Lookup(store, id), def).Ok?
    ensures var r := MergeEntry(Lookup(store, id), def).value;
      r.1 <==> store[id := r.0] != store
  {
    MergeEntryRules(Lookup(store, id), def);
    var r := MergeEntry(Lookup(store, id), def).value;
    if id in store && r.0 != store[id] {
      assert store[id := r.0][id] != store[id];
    }
  }

  /** The entry of record `d` already agrees with its default: it has every
      language and its Japanese name is the default's or the protected one. */
  ghost predicate Settled(store: map<string, LangData>, d: CharData, romanize: string -> string) {
    && DefaultLangData(d, romanize).Ok?
    && d.id in store
    && HasAllLangs(store[d.id].name)
    && (store[d.id].name["ja"] == DefaultLangData(d, romanize).value.name["ja"]
        || store[d.id].name["ja"] == ProtectedJaName)
  }

  /** After the merge, every record's entry is settled. */
  lemma {:induction false} MergeAllSettles(store: map<string, LangData>, dirty: bool, ds: seq<CharData>, romanize: string -> string)
    requires DistinctIds(ds)
    requires MergeAll(store, dirty, ds, romanize).Ok?
    ensures forall i :: 0 <= i < |ds| ==> Settled(MergeAll(store, dirty, ds, romanize).value.0, ds[i], romanize)
    decreases |ds|
  {
    if ds != [] {
      var id := ds[0].id;
      IdsCons(ds);
      var def := DefaultLangData(ds[0], romanize).value;
      MergeEntryRules(Lookup(store, id), def);
      var entry := MergeEntry(Lookup(store, id), def).value.0;
      var changed := MergeEntry(Lookup(store, id), def).value.1;
      var next := store[id := entry];
      MergeAllSettles(next, dirty || changed, ds[1..], romanize);
      MergeAllFrame(next, dirty || changed, ds[1..], romanize);
      var s1 := MergeAll(store, dirty, ds, romanize).value.0;
      assert s1 == MergeAll(next, dirty || changed, ds[1..], romanize).value.0;
      assert Settled(s1, ds[0], romanize);
      forall i | 1 <= i < |ds| ensures Settled(s1, ds[i], romanize) {
        assert ds[i] == ds[1..][i - 1];
      }
    }
  }

  /** A store in which every record is settled is a fixpoint of the merge. */
  lemma {:induction false} MergeAllFixed(store: map<string, LangData>, dirty: bool, ds: seq<CharData>, romanize: string -> string)
    requires forall i :: 0 <= i < |ds| ==> Settled(store, ds[i], romanize)
    ensures MergeAll(store, dirty, ds, romanize) == Ok((store, dirty))
    decreases |ds|
  {
    if ds != [] {
      var id := ds[0].id;
      assert Settled(store, ds[0], romanize);
      var def := DefaultLangData(ds[0], romanize).value;
      MergeEntryFixpoint(store[id], def);
      assert store[id := store[id]] == store;
      forall i | 0 <= i < |ds[1..]| ensures Settled(store, ds[1..][i], romanize) {
        assert ds[1..][i] == ds[i + 1];
      }
      MergeAllFixed(store, dirty, ds[1..], romanize);
    }
  }

  /** Merging twice is merging once: a second run over the same records
      (one per id) finds nothing to change and does not mark the store dirty. */
  lemma MergeAllIdempotent(store: map<string, LangData>, ds: seq<CharData>, romanize: string -> string)
    requires DistinctIds(ds)
    requires MergeAll(store, false, ds, romanize).Ok?
    ensures var s1 := MergeAll(store, false, ds, romanize).value.0;
      MergeAll(s1, false, ds, romanize) == Ok((s1, false))
  {
    MergeAllSettles(store, false, ds, romanize);
    MergeAllFixed(MergeAll(store, false, ds, romanize).value.0, false, ds, romanize);
  }
}
