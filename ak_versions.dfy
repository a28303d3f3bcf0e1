/** Arknights: the commit scan of `get_github_versions` in
    `arknights/get_resources.py` — the game-data version of each region,
    read off the newest commit message announcing an update for it. */
module ArknightsVersions {
  import opened Wrappers
  import opened Text

  /** A region of the game: the tag its update commits carry and the
      resource key its version is stored under. */
  datatype Region = Region(key: string, lang: string)

  /** The regions, in the order the inner loop visits them. */
  const UpdateResKeys: seq<Region> := [Region("CN", "cn"), Region("JP", "jp"), Region("KR", "ko"), Region("EN", "us")]

  /** The resource keys of the regions. */
  const RegionLangs: set<string> := {"cn", "jp", "ko", "us"}

  const DataMarker: string := "Data:"

  /** `msg.index("Data:")` raises on a tagged message without the marker. */
  datatype VersionError = NoDataMarker(message: string)

  /** `f"[{key} UPDATE]"`. */
  function UpdateTag(key: string): string {
    "[" + key + " UPDATE]"
  }

  predicate Tagged(msg: string, g: Region) {
    StartsWith(msg, UpdateTag(g.key))
  }

  /** The inner loop for one message: each region not yet found whose tag
      starts the message takes the text after the first "Data:". */
  function ScanMessage(result: map<string, string>, msg: string, regions: seq<Region>): Result<map<string, string>, VersionError>
    decreases |regions|
  {
    if regions == [] then Ok(result)
    else
      var g := regions[0];
      if g.lang in result || !Tagged(msg, g) then ScanMessage(result, msg, regions[1..])
      else match After(msg, DataMarker)
        case None => Err(NoDataMarker(msg))
        case Some(v) => ScanMessage(result[g.lang := v], msg, regions[1..])
  }

  /** The outer loop: messages in list order, stopping once every region is found. */
  function Scan(result: map<string, string>, commits: seq<string>): Result<map<string, string>, VersionError>
    decreases |commits|
  {
    if commits == [] then Ok(result)
    else match ScanMessage(result, commits[0], UpdateResKeys)
      case Err(e) => Err(e)
      case Ok(r) => if |r| == |UpdateResKeys| then Ok(r) else Scan(r, commits[1..])
  }

  /** `{f"ak-{k}": v for k, v in result.items()}`. */
  function WithAkPrefix(result: map<string, string>): (r: map<string, string>)
    ensures forall k :: k in result <==> "ak-" + k in r
    ensures forall k :: k in result ==> r["ak-" + k] == result[k]
    ensures forall k :: k in r ==> exists l :: l in result && k == "ak-" + l
  {
    var keys := set l | l in result :: "ak-" + l;
    assert forall l :: ("ak-" + l)[3..] == l;
    map k | k in keys :: result[k[3..]]
  }

  /** `get_github_versions`: the international repository's commits, then the Chinese one's. */
  function GetGithubVersionsSpec(intl: seq<string>, cn: seq<string>): Result<map<string, string>, VersionError> {
    match Scan(map[], intl + cn)
    case Err(e) => Err(e)
    case Ok(r) => Ok(WithAkPrefix(r))
  }

  // ---------------------------------------------------------------- the reference

  /** The index of the first message tagged for region `g`. */
  function FirstTagged(commits: seq<string>, g: Region): (r: Option<nat>)
    ensures r.Some? ==> r.value < |commits| && Tagged(commits[r.value], g)
    ensures r.Some? ==> forall j :: 0 <= j < r.value ==> !Tagged(commits[j], g)
    ensures r.None? ==> forall j :: 0 <= j < |commits| ==> !Tagged(commits[j], g)
  {
    if commits == [] then None
    else if Tagged(commits[0], g) then Some(0)
    else match FirstTagged(commits[1..], g)
      case None =>
        assert forall j :: 0 < j < |commits| ==> commits[j] == commits[1..][j - 1];
        None
      case Some(i) =>
        assert forall j :: 0 < j < |commits| ==> commits[j] == commits[1..][j - 1];
        Some(i + 1)
  }

  /** The first message tagged for `g` has no "Data:" in it. */
  ghost predicate BadFirst(commits: seq<string>, g: Region) {
    FirstTagged(commits, g).Some? && After(commits[FirstTagged(commits, g).value], DataMarker).None?
  }

  ghost predicate DistinctLangs(regions: seq<Region>) {
    forall i, j :: 0 <= i < j < |regions| ==> regions[i].lang != regions[j].lang
  }

  lemma UpdateResKeysShape()
    ensures DistinctLangs(UpdateResKeys)
    ensures forall j :: 0 <= j < |UpdateResKeys| ==> UpdateResKeys[j].lang in RegionLangs
    ensures forall l :: l in RegionLangs ==> exists j :: 0 <= j < |UpdateResKeys| && UpdateResKeys[j].lang == l
    ensures |RegionLangs| == |UpdateResKeys|
  {
    assert UpdateResKeys[0].lang == "cn" && UpdateResKeys[1].lang == "jp";
    assert UpdateResKeys[2].lang == "ko" && UpdateResKeys[3].lang == "us";
    assert "cn" != "jp" && "cn" != "ko" && "cn" != "us" && "jp" != "ko" && "jp" != "us" && "ko" != "us" by {
      assert "cn"[0] == 'c' && "jp"[0] == 'j' && "ko"[0] == 'k' && "us"[0] == 'u';
    }
  }

  /** One message adds exactly the regions it is tagged for that were not
      yet found, each with the text after the message's first "Data:"; it
      fails exactly when it is tagged for such a region and has no "Data:". */
  lemma {:induction false} ScanMessageMeaning(result: map<string, string>, msg: string, regions: seq<Region>)
    requires DistinctLangs(regions)
    ensures var r := ScanMessage(result, msg, regions);
      r.Err? <==> (exists j :: 0 <= j < |regions| && regions[j].lang !in result && Tagged(msg, regions[j]))
                  && After(msg, DataMarker).None?
    ensures var r := ScanMessage(result, msg, regions);
      r.Ok? ==> forall l :: l in r.value <==> l in result || exists j :: 0 <= j < |regions| && regions[j].lang == l && Tagged(msg, regions[j])
    ensures var r := ScanMessage(result, msg, regions);
      r.Ok? ==> forall l :: l in result ==> r.value[l] == result[l]
    ensures var r := ScanMessage(result, msg, regions);
      r.Ok? ==> forall j :: 0 <= j < |regions| && regions[j].lang !in result && Tagged(msg, regions[j]) ==>
        After(msg, DataMarker).Some? && r.value[regions[j].lang] == After(msg, DataMarker).value
    decreases |regions|
  {
    if regions != [] {
      var g := regions[0];
      var tail := regions[1..];
      assert DistinctLangs(tail) by {
        forall i, j | 0 <= i < j < |tail| ensures tail[i].lang != tail[j].lang {
          assert tail[i] == regions[i + 1] && tail[j] == regions[j + 1];
        }
      }
      assert forall j :: 0 < j < |regions| ==> regions[j] == tail[j - 1];
      assert forall j :: 0 <= j < |tail| ==> tail[j].lang != g.lang by {
        forall j | 0 <= j < |tail| ensures tail[j].lang != g.lang {
          assert tail[j] == regions[j + 1];
        }
      }
      if g.lang in result || !Tagged(msg, g) {
        ScanMessageMeaning(result, msg, tail);
      } else if After(msg, DataMarker).Some? {
        ScanMessageMeaning(result[g.lang := After(msg, DataMarker).value], msg, tail);
      }
    }
  }

  /** One message, region by region. */
  lemma ScanMessageRegion(result: map<string, string>, msg: string, r: map<string, string>, j: nat)
    requires ScanMessage(result, msg, UpdateResKeys) == Ok(r)
    requires j < |UpdateResKeys|
    ensures var l := UpdateResKeys[j].lang;
      && (l in r <==> l in result || Tagged(msg, UpdateResKeys[j]))
      && (l in result ==> r[l] == result[l])
      && (l !in result && Tagged(msg, UpdateResKeys[j]) ==>
            After(msg, DataMarker).Some? && r[l] == After(msg, DataMarker).value)
  {
    UpdateResKeysShape();
    ScanMessageMeaning(result, msg, UpdateResKeys);
  }

  /** The regions found are region keys. */
  lemma ScanMessageKeys(result: map<string, string>, msg: string, r: map<string, string>)
    requires result.Keys <= RegionLangs
    requires ScanMessage(result, msg, UpdateResKeys) == Ok(r)
    ensures r.Keys <= RegionLangs
  {
    UpdateResKeysShape();
    ScanMessageMeaning(result, msg, UpdateResKeys);
  }

  lemma RegionLangsCount()
    ensures |RegionLangs| == |UpdateResKeys|
  {
    assert "cn" != "jp" && "cn" != "ko" && "cn" != "us" && "jp" != "ko" && "jp" != "us" && "ko" != "us" by {
      assert "cn"[0] == 'c' && "jp"[0] == 'j' && "ko"[0] == 'k' && "us"[0] == 'u';
    }
  }

  lemma {:induction false} SubsetSize(a: set<string>, b: set<string>)
    requires a <= b
    ensures |a| <= |b|
    decreases |a|
  {
    if a != {} {
      var x :| x in a;
      SubsetSize(a - {x}, b - {x});
    }
  }

  /** Once as many regions are found as there are, every region is found. */
  lemma AllFound(keys: set<string>)
    requires keys <= RegionLangs && |keys| == |UpdateResKeys|
    ensures keys == RegionLangs
  {
    RegionLangsCount();
    if keys != RegionLangs {
      var x :| x in RegionLangs && x !in keys;
      SubsetSize(keys, RegionLangs - {x});
    }
  }

  /** Region `j` got what the reference says, if it was not found before. */
  ghost predicate RegionAsReference(result: map<string, string>, commits: seq<string>, r: map<string, string>, j: nat)
    requires j < |UpdateResKeys|
  {
    var g := UpdateResKeys[j];
    g.lang !in result ==>
      && (g.lang in r <==> FirstTagged(commits, g).Some?)
      && (g.lang in r ==> After(commits[FirstTagged(commits, g).value], DataMarker) == Some(r[g.lang]))
  }

  /** A region the first message is tagged for is settled by it; any other
      is settled by the rest of the messages as it would be by all of them. */
  lemma RegionStep(result: map<string, string>, commits: seq<string>, r1: map<string, string>, r: map<string, string>, j: nat)
    requires commits != [] && ScanMessage(result, commits[0], UpdateResKeys) == Ok(r1)
    requires j < |UpdateResKeys|
    requires RegionAsReference(r1, commits[1..], r, j)
    requires forall l :: l in r1 ==> l in r && r[l] == r1[l]
    ensures RegionAsReference(result, commits, r, j)
  {
    ScanMessageRegion(result, commits[0], r1, j);
    assert forall i :: 0 < i < |commits| ==> commits[i] == commits[1..][i - 1];
  }

  /** A region whose first tagged message lacks "Data:" is the same one
      before and after the first message, unless that message is it. */
  lemma BadStep(result: map<string, string>, commits: seq<string>, r1: map<string, string>, j: nat)
    requires commits != [] && ScanMessage(result, commits[0], UpdateResKeys) == Ok(r1)
    requires j < |UpdateResKeys|
    ensures var g := UpdateResKeys[j];
      (g.lang !in result && BadFirst(commits, g)) <==> (g.lang !in r1 && BadFirst(commits[1..], g))
  {
    ScanMessageRegion(result, commits[0], r1, j);
    assert forall i :: 0 < i < |commits| ==> commits[i] == commits[1..][i - 1];
  }

  /** When the first message completes the result, every region missing
      before was tagged by it. */
  lemma StopRegion(result: map<string, string>, commits: seq<string>, r1: map<string, string>, j: nat)
    requires commits != [] && ScanMessage(result, commits[0], UpdateResKeys) == Ok(r1)
    requires r1.Keys == RegionLangs
    requires j < |UpdateResKeys|
    ensures RegionAsReference(result, commits, r1, j)
    ensures !(UpdateResKeys[j].lang !in result && BadFirst(commits, UpdateResKeys[j]))
  {
    ScanMessageRegion(result, commits[0], r1, j);
    assert UpdateResKeys[j].lang in RegionLangs by {
      UpdateResKeysShape();
    }
  }

  /** The scan from a partial result: each region found before keeps its
      version; each other region gets the text after "Data:" in its first
      tagged message, or stays absent if no message is tagged for it; the
      scan fails exactly when such a first tagged message lacks "Data:".
      Stopping early changes nothing: once every region is found, later
      messages would be skipped anyway. */
  lemma {:induction false} ScanMeaning(result: map<string, string>, commits: seq<string>)
    requires result.Keys <= RegionLangs
    ensures var r := Scan(result, commits);
      r.Err? <==> exists j :: 0 <= j < |UpdateResKeys| && UpdateResKeys[j].lang !in result && BadFirst(commits, UpdateResKeys[j])
    ensures var r := Scan(result, commits);
      r.Ok? ==> r.value.Keys <= RegionLangs && forall l :: l in result ==> l in r.value && r.value[l] == result[l]
    ensures var r := Scan(result, commits);
      r.Ok? ==> forall j :: 0 <= j < |UpdateResKeys| ==> RegionAsReference(result, commits, r.value, j)
    decreases |commits|
  {
    if commits != [] {
      var c := commits[0];
      var m := ScanMessage(result, c, UpdateResKeys);
      UpdateResKeysShape();
      ScanMessageMeaning(result, c, UpdateResKeys);
      if m.Err? {
        var j :| 0 <= j < |UpdateResKeys| && UpdateResKeys[j].lang !in result && Tagged(c, UpdateResKeys[j]);
        assert FirstTagged(commits, UpdateResKeys[j]) == Some(0);
      } else {
        var r1 := m.value;
        ScanMessageKeys(result, c, r1);
        if |r1| == |UpdateResKeys| {
          AllFound(r1.Keys);
          forall j | 0 <= j < |UpdateResKeys|
            ensures RegionAsReference(result, commits, r1, j)
            ensures !(UpdateResKeys[j].lang !in result && BadFirst(commits, UpdateResKeys[j]))
          {
            StopRegion(result, commits, r1, j);
          }
        } else {
          ScanMeaning(r1, commits[1..]);
          forall j | 0 <= j < |UpdateResKeys|
            ensures var g := UpdateResKeys[j];
              (g.lang !in result && BadFirst(commits, g)) <==> (g.lang !in r1 && BadFirst(commits[1..], g))
          {
            BadStep(result, commits, r1, j);
          }
          var r := Scan(r1, commits[1..]);
          if r.Ok? {
            forall j | 0 <= j < |UpdateResKeys| ensures RegionAsReference(result, commits, r.value, j) {
              RegionStep(result, commits, r1, r.value, j);
            }
          }
        }
      }
    }
  }

  /** `get_github_versions`: each region's key with an "ak-" prefix maps to
      the text after "Data:" in the first commit message tagged for it
      (international commits first), regions without such a message are
      absent, and the scan fails exactly when such a first message has no
      "Data:". */
  lemma GetGithubVersionsMeaning(intl: seq<string>, cn: seq<string>)
    ensures var r, commits := GetGithubVersionsSpec(intl, cn), intl + cn;
      r.Err? <==> exists j :: 0 <= j < |UpdateResKeys| && BadFirst(commits, UpdateResKeys[j])
    ensures var r := GetGithubVersionsSpec(intl, cn);
      r.Ok? ==> r.value.Keys <= {"ak-cn", "ak-jp", "ak-ko", "ak-us"}
    ensures var r, commits := GetGithubVersionsSpec(intl, cn), intl + cn;
      r.Ok? ==> forall j :: 0 <= j < |UpdateResKeys| ==>
        var k := "ak-" + UpdateResKeys[j].lang;
        && (k in r.value <==> FirstTagged(commits, UpdateResKeys[j]).Some?)
        && (k in r.value ==> After(commits[FirstTagged(commits, UpdateResKeys[j]).value], DataMarker) == Some(r.value[k]))
  {
    var commits := intl + cn;
    ScanMeaning(map[], commits);
    var s := Scan(map[], commits);
    if s.Ok? {
      var r := WithAkPrefix(s.value);
      PrefixedKeys(s.value);
      forall j | 0 <= j < |UpdateResKeys|
        ensures var k := "ak-" + UpdateResKeys[j].lang;
          && (k in r <==> FirstTagged(commits, UpdateResKeys[j]).Some?)
          && (k in r ==> After(commits[FirstTagged(commits, UpdateResKeys[j]).value], DataMarker) == Some(r[k]))
      {
        assert RegionAsReference(map[], commits, s.value, j);
      }
    }
  }

  lemma PrefixedKeys(m: map<string, string>)
    requires m.Keys <= RegionLangs
    ensures WithAkPrefix(m).Keys <= {"ak-cn", "ak-jp", "ak-ko", "ak-us"}
  {
    forall k | k in WithAkPrefix(m) ensures k in {"ak-cn", "ak-jp", "ak-ko", "ak-us"} {
      var l :| l in m && k == "ak-" + l;
      assert l == "cn" || l == "jp" || l == "ko" || l == "us";
      assert "ak-" + "cn" == "ak-cn" && "ak-" + "jp" == "ak-jp" && "ak-" + "ko" == "ak-ko" && "ak-" + "us" == "ak-us";
    }
  }

  // ---------------------------------------------------------------- the script's loops

  /** The inner loop over the regions for one message (lines 52-58). */
  method ScanRegions(result: map<string, string>, msg: string) returns (r: Result<map<string, string>, VersionError>)
    ensures r == ScanMessage(result, msg, UpdateResKeys)
  {
    var found := result;
    for j := 0 to |UpdateResKeys|
      invariant ScanMessage(result, msg, UpdateResKeys) == ScanMessage(found, msg, UpdateResKeys[j..])
    {
      var g := UpdateResKeys[j];
      assert UpdateResKeys[j..][0] == g && UpdateResKeys[j..][1..] == UpdateResKeys[j + 1..];
      if g.lang in found {
        continue;
      }
      if !StartsWith(msg, UpdateTag(g.key)) {
        continue;
      }
      var v := After(msg, DataMarker);
      if v.None? {
        return Err(NoDataMarker(msg));
      }
      found := found[g.lang := v.value];
    }
    r := Ok(found);
  }

  /** `get_github_versions` on the two repositories' commit messages. */
  method GetGithubVersions(intl: seq<string>, cn: seq<string>) returns (r: Result<map<string, string>, VersionError>)
    ensures r == GetGithubVersionsSpec(intl, cn)
  {
    var found := ScanCommits(intl + cn);
    if found.Err? {
      return Err(found.error);
    }
    r := Ok(WithAkPrefix(found.value));
  }

  /** The outer loop of lines 50-58 over the commit messages. */
  method ScanCommits(commits: seq<string>) returns (r: Result<map<string, string>, VersionError>)
    ensures r == Scan(map[], commits)
  {
    var result: map<string, string> := map[];
    var i := 0;
    assert commits[i..] == commits;
    while i < |commits|
      invariant 0 <= i <= |commits|
      invariant Scan(map[], commits) == Scan(result, commits[i..])
    {
      ScanAt(result, commits, i);
      var next := ScanRegions(result, commits[i]);
      if next.Err? {
        return Err(next.error);
      }
      result := next.value;
      if |result| == |UpdateResKeys| {
        return Ok(result);
      }
      i := i + 1;
    }
    r := Ok(result);
  }

  /** One turn of that loop, as `Scan` sees it. */
  lemma ScanAt(result: map<string, string>, commits: seq<string>, i: nat)
    requires i < |commits|
    ensures Scan(result, commits[i..]) == match ScanMessage(result, commits[i], UpdateResKeys)
      case Err(e) => Err(e)
      case Ok(next) => if |next| == |UpdateResKeys| then Ok(next) else Scan(next, commits[i + 1..])
  {
    assert commits[i..][0] == commits[i] && commits[i..][1..] == commits[i + 1..];
  }
}
