/** The records both resource processors emit (`Character`, `FilterGroup`),
    and the string ordering their `sorted` calls use. */
module Models {
  import opened Text
  import opened Sorting

  /** An output character: names and short names per language, the image
      names it may be drawn with, and the filter group ids it belongs to. */
  datatype Character = Character(
    id: string,
    names: map<string, string>,
    shortNames: map<string, string>,
    images: seq<string>,
    groups: seq<string>)

  /** One filter category: its key, a localised title, and parallel lists of
      group ids, localised group names and initial selection flags. */
  datatype FilterGroup = FilterGroup(
    key: string,
    title: map<string, string>,
    ids: seq<string>,
    names: seq<map<string, string>>,
    selected: seq<bool>)

  ghost predicate Distinct<T>(s: seq<T>) {
    forall i, j :: 0 <= i < j < |s| ==> s[i] != s[j]
  }

  lemma {:induction false} DistinctPermutation<T>(s: seq<T>, t: seq<T>)
    requires Distinct(s) && multiset(s) == multiset(t)
    ensures Distinct(t)
  {
    forall i, j | 0 <= i < j < |t| ensures t[i] != t[j] {
      if t[i] == t[j] {
        var m := multiset(t);
        assert t == t[..i] + [t[i]] + t[i + 1..j] + [t[j]] + t[j + 1..];
        assert m[t[i]] >= 2;
        DistinctCount(s, t[i]);
      }
    }
  }

  /** In a sequence without repeats every element occurs at most once. */
  lemma {:induction false} DistinctCount<T>(s: seq<T>, x: T)
    requires Distinct(s)
    ensures multiset(s)[x] <= 1
  {
    if s != [] {
      assert s == [s[0]] + s[1..];
      DistinctCount(s[1..], x);
      if s[0] == x {
        assert x !in s[1..];
      }
    }
  }

  lemma LexOrderIsTotalPreorder()
    ensures IsTotalPreorder(LexLe)
  {
    forall a, b ensures LexLe(a, b) || LexLe(b, a) {
      LexLeTotal(a, b);
    }
    forall a, b, c | LexLe(a, b) && LexLe(b, c) ensures LexLe(a, c) {
      LexLeTransitive(a, b, c);
    }
  }

  /** `sorted(xs)` on strings: ordered by code points, with the same elements. */
  function SortStrings(s: seq<string>): (r: seq<string>)
    ensures Sorted(r, LexLe)
    ensures multiset(r) == multiset(s)
  {
    LexOrderIsTotalPreorder();
    SortByCorrect(s, LexLe);
    SortBy(s, LexLe)
  }
}
