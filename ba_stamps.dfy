/** Blue Archive: `get_stamps` of `blue_archive/get_resources_v2.py` — the
    clan-chat stamp images, ordered by the number in their file name. */
module BlueArchiveStamps {
  import opened Wrappers
  import opened Text
  import opened Sorting
  import opened BlueArchiveNames

  const StampSuffix := "_Jp.png"

  /** A directory entry `*_Jp.png` matches: it ends with the suffix and, as
      `glob` skips hidden files, does not start with a dot. */
  predicate IsStampName(n: string) {
    EndsWith(n, StampSuffix) && !StartsWith(n, ".")
  }

  /** The glob of line 160: the matching entries of the directory listing, as paths under `root`. */
  function StampFiles(root: string, listing: seq<string>): (files: seq<string>)
    ensures forall f :: f in files <==> exists n :: n in listing && IsStampName(n) && f == root + "/" + n
  {
    if listing == [] then []
    else
      assert forall n :: n in listing <==> n == listing[0] || n in listing[1..];
      (if IsStampName(listing[0]) then [root + "/" + listing[0]] else []) + StampFiles(root, listing[1..])
  }

  // ---------------------------------------------------------------- int()

  predicate IsDigit(c: char) {
    '0' <= c <= '9'
  }

  predicate AllDigits(s: string) {
    forall i :: 0 <= i < |s| ==> IsDigit(s[i])
  }

  /** The value of a string of decimal digits. */
  function DigitsValue(s: string): nat
    requires AllDigits(s)
  {
    if s == [] then 0 else DigitsValue(s[..|s| - 1]) * 10 + (s[|s| - 1] as int - '0' as int)
  }

  /** `int(s)` on ASCII text: surrounding whitespace, an optional sign, then
      at least one decimal digit. (Underscores between digits, which `int`
      also accepts, cannot occur in a piece of a split on "_".) */
  function ParseInt(s: string): (r: Option<int>)
    ensures r.Some? <==>
      var t := Strip(s);
      var body := if |t| > 0 && (t[0] == '+' || t[0] == '-') then t[1..] else t;
      |body| > 0 && AllDigits(body)
  {
    var t := Strip(s);
    var negative := |t| > 0 && t[0] == '-';
    var body := if |t| > 0 && (t[0] == '+' || t[0] == '-') then t[1..] else t;
    if |body| > 0 && AllDigits(body) then
      Some(if negative then -(DigitsValue(body) as int) else DigitsValue(body))
    else None
  }

  /** `str(n)` for a natural number. */
  function ShowNat(n: nat): (s: string)
    ensures |s| > 0 && AllDigits(s)
  {
    var d := ['0' + (n % 10) as char];
    if n < 10 then d else ShowNat(n / 10) + d
  }

  /** `str(n)`. */
  function ShowInt(n: int): (s: string)
    ensures |s| > 0 && forall i :: 0 <= i < |s| ==> IsDigit(s[i]) || s[i] == '-'
  {
    if n < 0 then "-" + ShowNat(-n) else ShowNat(n)
  }

  lemma {:induction false} ShowNatValue(n: nat)
    ensures DigitsValue(ShowNat(n)) == n
  {
    if n >= 10 {
      ShowNatValue(n / 10);
      var s := ShowNat(n);
      assert s[..|s| - 1] == ShowNat(n / 10);
    }
  }

  lemma StripUnpadded(s: string)
    requires |s| > 0 && !IsSpace(s[0]) && !IsSpace(s[|s| - 1])
    ensures Strip(s) == s
  {
    assert TrimStart(s) == s;
    assert TrimEnd(s) == s;
  }

  lemma SignOrDigitNotSpace(c: char)
    requires IsDigit(c) || c == '-'
    ensures !IsSpace(c)
  {
  }

  /** `int(str(n)) == n`. */
  lemma ParseShow(n: int)
    ensures ParseInt(ShowInt(n)) == Some(n)
  {
    var s := ShowInt(n);
    SignOrDigitNotSpace(s[0]);
    SignOrDigitNotSpace(s[|s| - 1]);
    StripUnpadded(s);
    if n < 0 {
      ParseShowNegative(n);
    } else {
      ShowNatValue(n);
      var d := ShowNat(n);
      assert d[0] != '+' && d[0] != '-';
    }
  }

  lemma ParseShowNegative(n: int)
    requires n < 0 && Strip(ShowInt(n)) == ShowInt(n)
    ensures ParseInt(ShowInt(n)) == Some(n)
  {
    var s := ShowInt(n);
    ShowNatValue(-n);
    assert s[0] == '-' && s[1..] == ShowNat(-n);
  }

  // ---------------------------------------------------------------- the sort key

  /** `int(s.split("/")[-1].split("_")[2])`. */
  function StampKey(path: string): Result<int, Error> {
    var parts := Split(LastSegment(path, '/'), '_');
    if |parts| < 3 then Err(BadStampName(path))
    else match ParseInt(parts[2])
      case None => Err(BadStampName(path))
      case Some(k) => Ok(k)
  }

  /** The file name the script's comment shows, with number `n`. */
  function StampName(n: int): string {
    "ClanChat_Emoji_" + ShowInt(n) + StampSuffix
  }

  lemma LastSegmentAfterSlash(root: string, name: string)
    requires '/' !in name
    ensures LastSegment(root + "/" + name, '/') == name
  {
    SplitAround(root, name, '/');
    SplitNoSep(name, '/');
  }

  /** The key of a stamp named as the script expects is its number. */
  lemma StampKeyOfName(root: string, n: int)
    ensures StampKey(root + "/" + StampName(n)) == Ok(n)
  {
    var num := ShowInt(n);
    var parts := ["ClanChat", "Emoji", num, "Jp.png"];
    StampNameShape(n);
    LastSegmentAfterSlash(root, StampName(n));
    SplitJoin(parts, '_');
    assert Split(StampName(n), '_')[2] == num;
    ParseShow(n);
  }

  /** A stamp name has no '/', and its pieces around '_' are the prefix
      words, the number and the suffix. */
  lemma StampNameShape(n: int)
    ensures '/' !in StampName(n)
    ensures '_' !in ShowInt(n)
    ensures Join(["ClanChat", "Emoji", ShowInt(n), "Jp.png"], '_') == StampName(n)
  {
    StampNameNoSlash(n);
    var num := ShowInt(n);
    var parts := ["ClanChat", "Emoji", num, "Jp.png"];
    assert Join(parts[2..], '_') == num + "_Jp.png";
    assert Join(parts[1..], '_') == "Emoji_" + num + "_Jp.png";
  }

  lemma StampNameNoSlash(n: int)
    ensures '/' !in StampName(n)
    ensures '_' !in ShowInt(n)
  {
    var num := ShowInt(n);
    var name := StampName(n);
    assert name == "ClanChat_Emoji_" + num + "_Jp.png";
    forall i | 0 <= i < |name| ensures name[i] != '/' {
      if 15 <= i < 15 + |num| { assert name[i] == num[i - 15]; }
    }
  }

  // ---------------------------------------------------------------- the sort

  /** Every file with its key; the first file without one stops the sort. */
  function Keyed(files: seq<string>, key: string -> Result<int, Error>): (r: Result<seq<(int, string)>, Error>)
    ensures r.Ok? ==> |r.value| == |files|
    ensures r.Ok? ==> forall i :: 0 <= i < |files| ==> key(files[i]).Ok? && r.value[i] == (key(files[i]).value, files[i])
  {
    if files == [] then Ok([])
    else match key(files[0])
      case Err(e) => Err(e)
      case Ok(k) =>
        match Keyed(files[1..], key)
        case Err(e) => Err(e)
        case Ok(rest) => Ok([(k, files[0])] + rest)
  }

  /** Computing the keys fails exactly when some file has none. */
  lemma {:induction false} KeyedFails(files: seq<string>, key: string -> Result<int, Error>)
    ensures Keyed(files, key).Err? <==> exists i :: 0 <= i < |files| && key(files[i]).Err?
  {
    if files != [] {
      KeyedFails(files[1..], key);
      if exists i :: 0 <= i < |files[1..]| && key(files[1..][i]).Err? {
        var i :| 0 <= i < |files[1..]| && key(files[1..][i]).Err?;
        assert files[i + 1] == files[1..][i];
      }
      if exists i :: 0 <= i < |files| && key(files[i]).Err? {
        var i :| 0 <= i < |files| && key(files[i]).Err?;
        if i > 0 { assert files[1..][i - 1] == files[i]; }
      }
    }
  }

  function KeyLe(a: (int, string), b: (int, string)): bool {
    a.0 <= b.0
  }

  lemma KeyLeIsTotalPreorder()
    ensures IsTotalPreorder(KeyLe)
  {
  }

  function Paths(ps: seq<(int, string)>): (r: seq<string>)
    ensures |r| == |ps| && forall i :: 0 <= i < |ps| ==> r[i] == ps[i].1
  {
    if ps == [] then [] else [ps[0].1] + Paths(ps[1..])
  }

  /** `sorted(files, key=key)`. */
  function SortByKey(files: seq<string>, key: string -> Result<int, Error>): Result<seq<string>, Error> {
    match Keyed(files, key)
    case Err(e) => Err(e)
    case Ok(ps) => Ok(Paths(SortBy(ps, KeyLe)))
  }

  /** `get_stamps`: the stamp files of the directory, sorted by their number. */
  function GetStamps(root: string, listing: seq<string>): Result<seq<string>, Error> {
    SortByKey(StampFiles(root, listing), StampKey)
  }

  // ---------------------------------------------------------------- what the sort promises

  /** The files whose key is `k`, in order. */
  function WithKey(files: seq<string>, k: int, key: string -> Result<int, Error>): seq<string> {
    if files == [] then []
    else (if key(files[0]) == Ok(k) then [files[0]] else []) + WithKey(files[1..], k, key)
  }

  lemma {:induction false} PathsInsert(x: (int, string), s: seq<(int, string)>)
    ensures multiset(Paths(Insert(x, s, KeyLe))) == multiset(Paths(s)) + multiset{x.1}
  {
    if s != [] && !KeyLe(x, s[0]) {
      PathsInsert(x, s[1..]);
      assert Paths(Insert(x, s, KeyLe)) == [s[0].1] + Paths(Insert(x, s[1..], KeyLe));
      assert Paths(s) == [s[0].1] + Paths(s[1..]);
    } else {
      assert Paths(Insert(x, s, KeyLe)) == [x.1] + Paths(s);
    }
  }

  lemma {:induction false} PathsSortBy(s: seq<(int, string)>)
    ensures multiset(Paths(SortBy(s, KeyLe))) == multiset(Paths(s))
  {
    if s != [] {
      PathsSortBy(s[1..]);
      PathsInsert(s[0], SortBy(s[1..], KeyLe));
      assert Paths(s) == [s[0].1] + Paths(s[1..]);
    }
  }

  /** Each pair is a file with its key. */
  ghost predicate KeyedPairs(ps: seq<(int, string)>, key: string -> Result<int, Error>) {
    forall i :: 0 <= i < |ps| ==> key(ps[i].1) == Ok(ps[i].0)
  }

  /** Among keyed pairs, the equals of key `k` are the files with key `k`. */
  lemma {:induction false} EqualsOfKey(ps: seq<(int, string)>, k: int, key: string -> Result<int, Error>)
    requires KeyedPairs(ps, key)
    ensures Paths(EqualsOf(ps, (k, ""), KeyLe)) == WithKey(Paths(ps), k, key)
  {
    if ps != [] {
      assert KeyedPairs(ps[1..], key) by {
        forall i | 0 <= i < |ps[1..]| ensures key(ps[1..][i].1) == Ok(ps[1..][i].0) {
          assert ps[1..][i] == ps[i + 1];
        }
      }
      EqualsOfKey(ps[1..], k, key);
      assert Paths(ps)[1..] == Paths(ps[1..]);
      assert key(ps[0].1) == Ok(ps[0].0);
    }
  }

  /** A keyed sort returns the files ordered by key, as a permutation, with
      files of equal key in their input order; it fails exactly when some
      file has no key. */
  lemma SortByKeyCorrect(files: seq<string>, key: string -> Result<int, Error>)
    ensures SortByKey(files, key).Err? <==> exists i :: 0 <= i < |files| && key(files[i]).Err?
    ensures SortByKey(files, key).Ok? ==>
      var r := SortByKey(files, key).value;
      && multiset(r) == multiset(files)
      && (forall i :: 0 <= i < |r| ==> key(r[i]).Ok?)
      && (forall i, j :: 0 <= i < j < |r| ==> key(r[i]).value <= key(r[j]).value)
      && (forall k :: WithKey(r, k, key) == WithKey(files, k, key))
  {
    KeyedFails(files, key);
    if Keyed(files, key).Ok? {
      var ps := Keyed(files, key).value;
      assert SortByKey(files, key).value == Paths(SortBy(ps, KeyLe));
      SortedPairsKeyed(files, key);
      SortedPathsPermute(files, key);
      SortedPathsOrdered(files, key);
      SortedPathsStable(files, key);
    }
  }

  /** `get_stamps` fails exactly when one of the listed `*_Jp.png` files has
      no integer as the third `_`-piece of its name; otherwise it returns
      every stamp file once, ordered by that number, with files of equal
      number in listing order. */
  lemma GetStampsMeaning(root: string, listing: seq<string>)
    ensures var files := StampFiles(root, listing);
      GetStamps(root, listing).Err? <==> exists f :: f in files && StampKey(f).Err?
    ensures var files, r := StampFiles(root, listing), GetStamps(root, listing);
      r.Ok? ==>
        && multiset(r.value) == multiset(files)
        && (forall f :: f in r.value <==> exists n :: n in listing && IsStampName(n) && f == root + "/" + n)
        && (forall i :: 0 <= i < |r.value| ==> StampKey(r.value[i]).Ok?)
        && (forall i, j :: 0 <= i < j < |r.value| ==> StampKey(r.value[i]).value <= StampKey(r.value[j]).value)
        && (forall k :: WithKey(r.value, k, StampKey) == WithKey(files, k, StampKey))
  {
    var files := StampFiles(root, listing);
    SortByKeyCorrect(files, StampKey);
    if GetStamps(root, listing).Ok? {
      var r := GetStamps(root, listing).value;
      forall f ensures f in r <==> f in files {
        assert f in r <==> f in multiset(r);
      }
    }
  }

  /** The pairs the sort orders, when every file has a key. */
  function SortedPairs(files: seq<string>, key: string -> Result<int, Error>): seq<(int, string)>
    requires Keyed(files, key).Ok?
  {
    SortBy(Keyed(files, key).value, KeyLe)
  }

  lemma KeyedPaths(files: seq<string>, key: string -> Result<int, Error>)
    requires Keyed(files, key).Ok?
    ensures Paths(Keyed(files, key).value) == files
    ensures KeyedPairs(Keyed(files, key).value, key)
  {
  }

  lemma SortedPairsKeyed(files: seq<string>, key: string -> Result<int, Error>)
    requires Keyed(files, key).Ok?
    ensures KeyedPairs(SortedPairs(files, key), key)
  {
    var ps := Keyed(files, key).value;
    var sorted := SortedPairs(files, key);
    KeyedPaths(files, key);
    forall i | 0 <= i < |sorted| ensures key(sorted[i].1) == Ok(sorted[i].0) {
      assert sorted[i] in multiset(ps);
    }
  }

  lemma SortedPathsPermute(files: seq<string>, key: string -> Result<int, Error>)
    requires Keyed(files, key).Ok?
    ensures multiset(Paths(SortedPairs(files, key))) == multiset(files)
  {
    KeyedPaths(files, key);
    PathsSortBy(Keyed(files, key).value);
  }

  lemma SortedPathsOrdered(files: seq<string>, key: string -> Result<int, Error>)
    requires Keyed(files, key).Ok?
    ensures var r := Paths(SortedPairs(files, key));
      && (forall i :: 0 <= i < |r| ==> key(r[i]).Ok?)
      && (forall i, j :: 0 <= i < j < |r| ==> key(r[i]).value <= key(r[j]).value)
  {
    var sorted := SortedPairs(files, key);
    KeyLeIsTotalPreorder();
    SortByCorrect(Keyed(files, key).value, KeyLe);
    SortedPairsKeyed(files, key);
    assert Sorted(sorted, KeyLe);
  }

  lemma SortedPathsStable(files: seq<string>, key: string -> Result<int, Error>)
    requires Keyed(files, key).Ok?
    ensures forall k :: WithKey(Paths(SortedPairs(files, key)), k, key) == WithKey(files, k, key)
  {
    var ps := Keyed(files, key).value;
    var sorted := SortedPairs(files, key);
    KeyLeIsTotalPreorder();
    SortByCorrect(ps, KeyLe);
    KeyedPaths(files, key);
    SortedPairsKeyed(files, key);
    forall k ensures WithKey(Paths(sorted), k, key) == WithKey(files, k, key) {
      EqualsOfKey(ps, k, key);
      EqualsOfKey(sorted, k, key);
    }
  }
}
