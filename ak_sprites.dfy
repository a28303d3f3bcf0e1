/** Arknights: how `get_chars` in `arknights/get_resources.py` picks sprite
    files — the base sprite of an id (the first file whose stem is the id)
    and `add_sprite_file`, which gives a character each further stem once,
    in sprite order, recording the file it came from. */
module ArknightsSprites {
  import opened Wrappers
  import opened Text

  /** A sprite file: its path and its stem, the file name without directory
      and extension (`f.stem`, and equally `splitext(split(f)[1])[0]`). */
  datatype Sprite = Sprite(path: string, stem: string)

  /** The index of the first sprite whose stem is `x`:
      `next(iter(f for f in sprites if f.stem == x), None)`. */
  function FirstWithStem(sprites: seq<Sprite>, x: string): (r: Option<nat>)
    ensures r.Some? ==> r.value < |sprites| && sprites[r.value].stem == x
    ensures r.Some? ==> forall j :: 0 <= j < r.value ==> sprites[j].stem != x
    ensures r.None? ==> forall j :: 0 <= j < |sprites| ==> sprites[j].stem != x
  {
    if sprites == [] then None
    else match FirstWithStem(sprites[..|sprites| - 1], x)
      case Some(i) => Some(i)
      case None => if sprites[|sprites| - 1].stem == x then Some(|sprites| - 1) else None
  }

  /** What `add_sprite_file` reads and writes: the stems used so far for the
      current character, its image list and the catalog's avatar files. */
  datatype Skins = Skins(used: set<string>, images: seq<string>, avatars: map<string, string>)

  /** `add_sprite_file(f)`: a stem already used is ignored; otherwise it is
      marked used, appended to the images and mapped to the file. */
  function AddSprite(acc: Skins, f: Sprite): Skins {
    if f.stem in acc.used then acc
    else Skins(acc.used + {f.stem}, acc.images + [f.stem], acc.avatars[f.stem := f.path])
  }

  /** `for f in (f for f in sprites if p(f.stem)): add_sprite_file(f)`. */
  function AddMatching(acc: Skins, sprites: seq<Sprite>, p: string -> bool): Skins
    decreases |sprites|
  {
    if sprites == [] then acc
    else
      var prev := AddMatching(acc, sprites[..|sprites| - 1], p);
      var f := sprites[|sprites| - 1];
      if p(f.stem) then AddSprite(prev, f) else prev
  }

  /** The reference: the stems of the sprites that satisfy `p`, are not in
      `used`, and sit where their stem first occurs, in sprite order. */
  function FirstOccurrences(sprites: seq<Sprite>, p: string -> bool, used: set<string>): seq<string>
    decreases |sprites|
  {
    if sprites == [] then []
    else
      var n := |sprites| - 1;
      var f := sprites[n];
      FirstOccurrences(sprites[..n], p, used)
        + (if p(f.stem) && f.stem !in used && FirstWithStem(sprites[..n], f.stem).None? then [f.stem] else [])
  }

  /** A stem is listed exactly when it satisfies `p`, is not in `used` and
      some sprite has it. */
  lemma {:induction false} FirstOccurrencesMembers(sprites: seq<Sprite>, p: string -> bool, used: set<string>)
    ensures forall s :: s in FirstOccurrences(sprites, p, used) <==> p(s) && s !in used && FirstWithStem(sprites, s).Some?
    decreases |sprites|
  {
    if sprites != [] {
      var n := |sprites| - 1;
      FirstOccurrencesMembers(sprites[..n], p, used);
    }
  }

  ghost predicate NoRepeats(x: seq<string>) {
    forall a, b :: 0 <= a < b < |x| ==> x[a] != x[b]
  }

  /** Every stem of `x` has a sprite, and they come in the order of their first sprites. */
  ghost predicate InSpriteOrder(x: seq<string>, sprites: seq<Sprite>) {
    && (forall a :: 0 <= a < |x| ==> FirstWithStem(sprites, x[a]).Some?)
    && (forall a, b :: 0 <= a < b < |x| ==> FirstWithStem(sprites, x[a]).value < FirstWithStem(sprites, x[b]).value)
  }

  /** No stem is listed twice. */
  lemma {:induction false} FirstOccurrencesDistinct(sprites: seq<Sprite>, p: string -> bool, used: set<string>)
    ensures NoRepeats(FirstOccurrences(sprites, p, used))
    decreases |sprites|
  {
    if sprites != [] {
      var n := |sprites| - 1;
      var f := sprites[n];
      var xp := FirstOccurrences(sprites[..n], p, used);
      FirstOccurrencesDistinct(sprites[..n], p, used);
      FirstOccurrencesMembers(sprites[..n], p, used);
      var x := FirstOccurrences(sprites, p, used);
      forall a, b | 0 <= a < b < |x| ensures x[a] != x[b] {
        if b >= |xp| {
          assert x[b] == f.stem && x[a] == xp[a];
          assert FirstWithStem(sprites[..n], f.stem).None?;
          assert xp[a] in xp;
          assert FirstWithStem(sprites[..n], xp[a]).Some?;
          assert xp[a] != f.stem;
        } else {
          assert x[a] == xp[a] && x[b] == xp[b];
          assert xp[a] != xp[b];
        }
      }
    }
  }

  /** The stems come in the order of their first sprite. */
  lemma {:induction false} FirstOccurrencesOrdered(sprites: seq<Sprite>, p: string -> bool, used: set<string>)
    ensures InSpriteOrder(FirstOccurrences(sprites, p, used), sprites)
    decreases |sprites|
  {
    FirstOccurrencesMembers(sprites, p, used);
    if sprites != [] {
      var n := |sprites| - 1;
      var xp := FirstOccurrences(sprites[..n], p, used);
      FirstOccurrencesOrdered(sprites[..n], p, used);
      FirstOccurrencesMembers(sprites[..n], p, used);
      var x := FirstOccurrences(sprites, p, used);
      forall a | 0 <= a < |xp| ensures FirstWithStem(sprites, x[a]) == FirstWithStem(sprites[..n], xp[a]) {
        assert x[a] == xp[a] && xp[a] in xp;
      }
      if |x| > |xp| {
        assert x[|xp|] == sprites[n].stem;
        assert FirstWithStem(sprites, x[|xp|]) == Some(n);
        forall a, b | 0 <= a < b < |x|
          ensures FirstWithStem(sprites, x[a]).value < FirstWithStem(sprites, x[b]).value
        {
          if b == |xp| {
            assert FirstWithStem(sprites[..n], xp[a]).value < n;
          }
        }
      }
    }
  }

  /** The loop over the matching sprites appends exactly the reference
      stems to the images and marks them used. */
  lemma {:induction false} AddMatchingImages(acc: Skins, sprites: seq<Sprite>, p: string -> bool)
    ensures var r, x := AddMatching(acc, sprites, p), FirstOccurrences(sprites, p, acc.used);
      r.images == acc.images + x && r.used == acc.used + (set s | s in x)
    decreases |sprites|
  {
    if sprites != [] {
      var n := |sprites| - 1;
      AddMatchingImages(acc, sprites[..n], p);
      FirstOccurrencesMembers(sprites[..n], p, acc.used);
    }
  }

  /** Each appended stem maps to the first sprite with that stem; every
      other avatar entry is kept. */
  lemma {:induction false} AddMatchingAvatars(acc: Skins, sprites: seq<Sprite>, p: string -> bool)
    ensures var r, x := AddMatching(acc, sprites, p), FirstOccurrences(sprites, p, acc.used);
      && (forall k :: k in r.avatars <==> k in acc.avatars || k in x)
      && (forall k :: k in acc.avatars && k !in x ==> r.avatars[k] == acc.avatars[k])
      && (forall k :: k in x ==> FirstWithStem(sprites, k).Some? && r.avatars[k] == sprites[FirstWithStem(sprites, k).value].path)
    decreases |sprites|
  {
    FirstOccurrencesMembers(sprites, p, acc.used);
    if sprites != [] {
      var n := |sprites| - 1;
      AddMatchingAvatars(acc, sprites[..n], p);
      AddMatchingImages(acc, sprites[..n], p);
      FirstOccurrencesMembers(sprites[..n], p, acc.used);
    }
  }

  // ---------------------------------------------------------------- the script's loop

  /** `add_sprite_file`. */
  method AddSpriteFile(acc: Skins, f: Sprite) returns (r: Skins)
    ensures r == AddSprite(acc, f)
  {
    if f.stem in acc.used {
      return acc;
    }
    var used := acc.used + {f.stem};
    var imgName := f.stem;
    var avatars := acc.avatars[imgName := f.path];
    var images := acc.images + [imgName];
    r := Skins(used, images, avatars);
  }

  /** The loops of lines 142-143 and 148-149: every sprite whose stem
      satisfies `p`, in order, through `add_sprite_file`. */
  method AddSprites(acc: Skins, sprites: seq<Sprite>, p: string -> bool) returns (r: Skins)
    ensures r == AddMatching(acc, sprites, p)
  {
    r := acc;
    for i := 0 to |sprites|
      invariant r == AddMatching(acc, sprites[..i], p)
    {
      assert sprites[..i + 1][..i] == sprites[..i];
      if p(sprites[i].stem) {
        r := AddSpriteFile(r, sprites[i]);
      }
    }
    assert sprites[..|sprites|] == sprites;
  }
}
