/** Blue Archive: resolving a character's image references to canonical
    image names and asset files (`get_chars`, lines 115-138 of
    `blue_archive/get_resources_v2.py`). A canonical name may be claimed
    once in the whole catalog. */
module BlueArchiveImages {
  import opened Wrappers
  import opened Text
  import opened Sorting
  import opened Models
  import opened BlueArchiveNames

  const PortraitMarker: string := "Portrait_"
  const CollectionSuffix: string := "_Collection"

  /** The render hint `{"h_crop": "top"}`. */
  datatype CropHint = TopCrop

  /** What the image loop reads: the excluded basenames, the legacy name
      table, the asset root, and the set of files present on disk. */
  datatype ImageEnv = ImageEnv(
    excluded: set<string>,
    legacy: map<string, string>,
    resRoot: string,
    existing: set<string>)

  /** The catalog-wide tables the loop fills: canonical name to file, and file to hint. */
  datatype Assets = Assets(avatarFiles: map<string, string>, imageConfig: map<string, CropHint>)

  /** `res_root / f"{img}.png"`. */
  function ImagePath(env: ImageEnv, img: string): string {
    env.resRoot + "/" + img + ".png"
  }

  /** The stem of that file ends in "_Collection". */
  predicate IsCollection(img: string) {
    EndsWith(LastSegment(img, '/'), CollectionSuffix)
  }

  /** The canonical name of one reference: None when its basename is
      excluded, the legacy name when there is one, else the text after
      "Portrait_" (an error when the basename has no such marker). */
  function CanonicalName(img: string, env: ImageEnv): Result<Option<string>, Error> {
    var base := LastSegment(img, '/');
    if base in env.excluded then Ok(None)
    else if base in env.legacy then Ok(Some(env.legacy[base]))
    else match After(base, PortraitMarker)
      case None => Err(NoPortraitMarker(img))
      case Some(rest) => Ok(Some(rest))
  }

  /** Lines 125-136: claim `name` for the file of `img`. */
  function Claim(assets: Assets, img: string, name: string, env: ImageEnv): Result<Assets, Error> {
    var path := ImagePath(env, img);
    if |name| == 0 then Err(EmptyImageName(img))
    else if name in assets.avatarFiles then Err(DuplicateImageName(name))
    else if path !in env.existing then Err(MissingImageFile(path))
    else Ok(Assets(
      assets.avatarFiles[name := path],
      if IsCollection(img) then assets.imageConfig[path := TopCrop] else assets.imageConfig))
  }

  /** Lines 116-136 over the remaining references: the names claimed, in
      order, and the tables afterwards. */
  function ResolveImages(imgs: seq<string>, env: ImageEnv, assets: Assets): Result<(seq<string>, Assets), Error>
    decreases |imgs|
  {
    if imgs == [] then Ok(([], assets))
    else match CanonicalName(imgs[0], env)
      case Err(e) => Err(e)
      case Ok(None) => ResolveImages(imgs[1..], env, assets)
      case Ok(Some(name)) =>
        match Claim(assets, imgs[0], name, env)
        case Err(e) => Err(e)
        case Ok(next) =>
          match ResolveImages(imgs[1..], env, next)
          case Err(e) => Err(e)
          case Ok((names, last)) => Ok(([name] + names, last))
  }

  /** The names claimed before the remaining references, put in front. */
  function Prepend(names: seq<string>, r: Result<(seq<string>, Assets), Error>): Result<(seq<string>, Assets), Error> {
    match r
    case Err(e) => Err(e)
    case Ok((more, last)) => Ok((names + more, last))
  }

  /** A character's image list and the tables after it: the claimed names, sorted (line 138). */
  function CharImages(imgs: seq<string>, env: ImageEnv, assets: Assets): Result<(seq<string>, Assets), Error> {
    match ResolveImages(imgs, env, assets)
    case Err(e) => Err(e)
    case Ok((names, next)) => Ok((SortStrings(names), next))
  }

  // ---------------------------------------------------------------- declarative reading

  /** The (canonical name, reference) pairs of the references that are not excluded. */
  function Claims(imgs: seq<string>, env: ImageEnv): Result<seq<(string, string)>, Error>
    decreases |imgs|
  {
    if imgs == [] then Ok([])
    else match CanonicalName(imgs[0], env)
      case Err(e) => Err(e)
      case Ok(None) => Claims(imgs[1..], env)
      case Ok(Some(name)) =>
        match Claims(imgs[1..], env)
        case Err(e) => Err(e)
        case Ok(rest) => Ok([(name, imgs[0])] + rest)
  }

  /** Every claimed name is non-empty, new to the catalog and unique, and
      every claimed file exists. */
  ghost predicate ClaimsValid(cs: seq<(string, string)>, taken: set<string>, env: ImageEnv) {
    && (forall i :: 0 <= i < |cs| ==>
          |cs[i].0| > 0 && cs[i].0 !in taken && ImagePath(env, cs[i].1) in env.existing)
    && (forall i, j :: 0 <= i < j < |cs| ==> cs[i].0 != cs[j].0)
  }

  function ClaimedNames(cs: seq<(string, string)>): (r: seq<string>)
    ensures |r| == |cs| && forall i :: 0 <= i < |cs| ==> r[i] == cs[i].0
  {
    if cs == [] then [] else [cs[0].0] + ClaimedNames(cs[1..])
  }

  function CollectionPaths(cs: seq<(string, string)>, env: ImageEnv): set<string> {
    set i | 0 <= i < |cs| && IsCollection(cs[i].1) :: ImagePath(env, cs[i].1)
  }

  /** The declarative conditions, one claim at a time. */
  lemma ClaimsValidCons(name: string, img: string, rest: seq<(string, string)>, taken: set<string>, env: ImageEnv)
    ensures ClaimsValid([(name, img)] + rest, taken, env) <==>
      && |name| > 0 && name !in taken && ImagePath(env, img) in env.existing
      && ClaimsValid(rest, taken + {name}, env)
  {
    var cs := [(name, img)] + rest;
    if ClaimsValid(rest, taken + {name}, env) && |name| > 0 && name !in taken && ImagePath(env, img) in env.existing {
      forall i, j | 0 <= i < j < |cs| ensures cs[i].0 != cs[j].0 {
        if i == 0 { assert cs[j] == rest[j - 1]; }
        else { assert cs[i] == rest[i - 1] && cs[j] == rest[j - 1]; }
      }
      forall i | 0 <= i < |cs|
        ensures |cs[i].0| > 0 && cs[i].0 !in taken && ImagePath(env, cs[i].1) in env.existing
      {
        if i > 0 { assert cs[i] == rest[i - 1]; }
      }
    }
    if ClaimsValid(cs, taken, env) {
      assert cs[0] == (name, img);
      forall i | 0 <= i < |rest|
        ensures |rest[i].0| > 0 && rest[i].0 !in taken + {name} && ImagePath(env, rest[i].1) in env.existing
      {
        assert rest[i] == cs[i + 1];
        assert cs[0].0 != cs[i + 1].0;
      }
      forall i, j | 0 <= i < j < |rest| ensures rest[i].0 != rest[j].0 {
        assert rest[i] == cs[i + 1] && rest[j] == cs[j + 1];
      }
    }
  }

  lemma CollectionPathsCons(name: string, img: string, rest: seq<(string, string)>, env: ImageEnv)
    ensures CollectionPaths([(name, img)] + rest, env)
         == (if IsCollection(img) then {ImagePath(env, img)} else {}) + CollectionPaths(rest, env)
  {
    var cs := [(name, img)] + rest;
    forall p | p in CollectionPaths(cs, env)
      ensures p in (if IsCollection(img) then {ImagePath(env, img)} else {}) + CollectionPaths(rest, env)
    {
      var i :| 0 <= i < |cs| && IsCollection(cs[i].1) && ImagePath(env, cs[i].1) == p;
      if i > 0 { assert cs[i] == rest[i - 1]; }
    }
    forall p | p in CollectionPaths(rest, env) ensures p in CollectionPaths(cs, env) {
      var i :| 0 <= i < |rest| && IsCollection(rest[i].1) && ImagePath(env, rest[i].1) == p;
      assert cs[i + 1] == rest[i];
    }
    if IsCollection(img) {
      assert cs[0] == (name, img);
    }
  }

  /** The image loop succeeds exactly when every reference that is not
      excluded has a canonical name, and those names are non-empty, unused
      anywhere else in the catalog, pairwise different, and backed by an
      existing file. */
  lemma {:induction false} ResolveImagesSucceeds(imgs: seq<string>, env: ImageEnv, assets: Assets)
    ensures var c := Claims(imgs, env);
      ResolveImages(imgs, env, assets).Ok? <==> c.Ok? && ClaimsValid(c.value, assets.avatarFiles.Keys, env)
    decreases |imgs|
  {
    if imgs != [] {
      var img := imgs[0];
      match CanonicalName(img, env) {
        case Err(_) =>
        case Ok(None) =>
          ResolveImagesSucceeds(imgs[1..], env, assets);
        case Ok(Some(name)) =>
          var c := Claims(imgs, env);
          if c.Ok? {
            ClaimsValidCons(name, img, Claims(imgs[1..], env).value, assets.avatarFiles.Keys, env);
          }
          match Claim(assets, img, name, env) {
            case Err(_) =>
            case Ok(next) =>
              assert next.avatarFiles.Keys == assets.avatarFiles.Keys + {name};
              ResolveImagesSucceeds(imgs[1..], env, next);
          }
      }
    }
  }

  /** On success the loop yields the claimed names in order, maps each to
      its file, and leaves earlier entries alone. */
  lemma ResolveImagesNames(imgs: seq<string>, env: ImageEnv, assets: Assets)
    requires ResolveImages(imgs, env, assets).Ok?
    ensures Claims(imgs, env).Ok?
    ensures var names, after, cs := ResolveImages(imgs, env, assets).value.0,
                                    ResolveImages(imgs, env, assets).value.1, Claims(imgs, env).value;
      && names == ClaimedNames(cs)
      && after.avatarFiles.Keys == assets.avatarFiles.Keys + (set n | n in names)
      && (forall k :: k in assets.avatarFiles ==> after.avatarFiles[k] == assets.avatarFiles[k])
      && (forall i :: 0 <= i < |cs| ==> after.avatarFiles[cs[i].0] == ImagePath(env, cs[i].1))
  {
    ResolveImagesList(imgs, env, assets);
    ResolveImagesFiles(imgs, env, assets);
  }

  lemma {:induction false} ResolveImagesList(imgs: seq<string>, env: ImageEnv, assets: Assets)
    requires ResolveImages(imgs, env, assets).Ok?
    ensures Claims(imgs, env).Ok?
    ensures var names, after := ResolveImages(imgs, env, assets).value.0, ResolveImages(imgs, env, assets).value.1;
      && names == ClaimedNames(Claims(imgs, env).value)
      && after.avatarFiles.Keys == assets.avatarFiles.Keys + (set n | n in names)
    decreases |imgs|
  {
    if imgs != [] {
      var img := imgs[0];
      match CanonicalName(img, env) {
        case Ok(None) =>
          ResolveImagesList(imgs[1..], env, assets);
        case Ok(Some(name)) =>
          var next := Claim(assets, img, name, env).value;
          ResolveImagesList(imgs[1..], env, next);
          var more := ResolveImages(imgs[1..], env, next).value.0;
          assert ResolveImages(imgs, env, assets).value == ([name] + more, ResolveImages(imgs[1..], env, next).value.1);
          assert Claims(imgs, env).value == [(name, img)] + Claims(imgs[1..], env).value;
          assert (set n | n in [name] + more) == {name} + (set n | n in more);
      }
    }
  }

  lemma {:induction false} ResolveImagesFiles(imgs: seq<string>, env: ImageEnv, assets: Assets)
    requires ResolveImages(imgs, env, assets).Ok?
    ensures Claims(imgs, env).Ok?
    ensures var after, cs := ResolveImages(imgs, env, assets).value.1, Claims(imgs, env).value;
      && (forall k :: k in assets.avatarFiles ==> k in after.avatarFiles && after.avatarFiles[k] == assets.avatarFiles[k])
      && (forall i :: 0 <= i < |cs| ==> cs[i].0 in after.avatarFiles && after.avatarFiles[cs[i].0] == ImagePath(env, cs[i].1))
    decreases |imgs|
  {
    if imgs != [] {
      var img := imgs[0];
      match CanonicalName(img, env) {
        case Ok(None) =>
          ResolveImagesFiles(imgs[1..], env, assets);
        case Ok(Some(name)) =>
          var next := Claim(assets, img, name, env).value;
          ResolveImagesFiles(imgs[1..], env, next);
          var rest := Claims(imgs[1..], env).value;
          var cs := Claims(imgs, env).value;
          assert cs == [(name, img)] + rest;
          var after := ResolveImages(imgs, env, assets).value.1;
          assert after == ResolveImages(imgs[1..], env, next).value.1;
          forall i | 0 <= i < |cs| ensures cs[i].0 in after.avatarFiles && after.avatarFiles[cs[i].0] == ImagePath(env, cs[i].1) {
            if i > 0 { assert cs[i] == rest[i - 1]; }
          }
      }
    }
  }

  /** On success exactly the files of "_Collection" references gain a render hint. */
  lemma {:induction false} ResolveImagesHints(imgs: seq<string>, env: ImageEnv, assets: Assets)
    requires ResolveImages(imgs, env, assets).Ok?
    ensures Claims(imgs, env).Ok?
    ensures ResolveImages(imgs, env, assets).value.1.imageConfig.Keys
         == assets.imageConfig.Keys + CollectionPaths(Claims(imgs, env).value, env)
    decreases |imgs|
  {
    if imgs != [] {
      var img := imgs[0];
      match CanonicalName(img, env) {
        case Ok(None) =>
          ResolveImagesHints(imgs[1..], env, assets);
        case Ok(Some(name)) =>
          var next := Claim(assets, img, name, env).value;
          ResolveImagesHints(imgs[1..], env, next);
          CollectionPathsCons(name, img, Claims(imgs[1..], env).value, env);
      }
    }
  }

  /** When claiming the head fails, the declarative conditions fail too. */
  lemma ClaimsInvalidHead(imgs: seq<string>, env: ImageEnv, assets: Assets, name: string)
    requires imgs != [] && CanonicalName(imgs[0], env) == Ok(Some(name))
    requires Claim(assets, imgs[0], name, env).Err?
    ensures var c := Claims(imgs, env);
      !(c.Ok? && ClaimsValid(c.value, assets.avatarFiles.Keys, env))
  {
    var c := Claims(imgs, env);
    if c.Ok? {
      assert c.value[0] == (name, imgs[0]);
    }
  }

  lemma PrependNothing(r: Result<(seq<string>, Assets), Error>)
    ensures Prepend([], r) == r
  {
    if r.Ok? {
      assert [] + r.value.0 == r.value.0;
    }
  }

  lemma PrependTwice(names: seq<string>, name: string, r: Result<(seq<string>, Assets), Error>)
    ensures Prepend(names, Prepend([name], r)) == Prepend(names + [name], r)
  {
    if r.Ok? {
      assert names + ([name] + r.value.0) == names + [name] + r.value.0;
    }
  }

  /** Lines 116-138 as the script runs them: a loop over the references
      that skips excluded ones and fails on the first bad one. */
  method ResolveCharImages(imgs: seq<string>, env: ImageEnv, assets: Assets) returns (r: Result<(seq<string>, Assets), Error>)
    ensures r == CharImages(imgs, env, assets)
  {
    var images: seq<string> := [];
    var avatarFiles, imageConfig := assets.avatarFiles, assets.imageConfig;
    var i := 0;
    assert imgs[i..] == imgs && Assets(avatarFiles, imageConfig) == assets;
    PrependNothing(ResolveImages(imgs, env, assets));
    while i < |imgs|
      invariant 0 <= i <= |imgs|
      invariant ResolveImages(imgs, env, assets)
             == Prepend(images, ResolveImages(imgs[i..], env, Assets(avatarFiles, imageConfig)))
    {
      var img := imgs[i];
      assert imgs[i..][0] == img && imgs[i..][1..] == imgs[i + 1..];
      var name := LastSegment(img, '/');
      if name in env.excluded {
        i := i + 1;
        continue;
      }
      if name in env.legacy {
        name := env.legacy[name];
      } else {
        var at := Find(name, PortraitMarker);
        if at.None? {
          return Err(NoPortraitMarker(img));
        }
        name := name[at.value + |PortraitMarker|..];
      }
      if |name| == 0 {
        return Err(EmptyImageName(img));
      }
      if name in avatarFiles {
        return Err(DuplicateImageName(name));
      }
      var path := ImagePath(env, img);
      if path !in env.existing {
        return Err(MissingImageFile(path));
      }
      PrependTwice(images, name, ResolveImages(imgs[i + 1..], env, Claim(Assets(avatarFiles, imageConfig), img, name, env).value));
      images := images + [name];
      avatarFiles := avatarFiles[name := path];
      if EndsWith(LastSegment(img, '/'), CollectionSuffix) {
        imageConfig := imageConfig[path := TopCrop];
      }
      i := i + 1;
    }
    assert imgs[i..] == [] && images + [] == images;
    return Ok((SortStrings(images), Assets(avatarFiles, imageConfig)));
  }
}
