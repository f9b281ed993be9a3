/**
 * Directory listings as the timelapse tools see them: entries with a name
 * and a size, `glob("*.jpg")` with the `st_size > 0` filter, and Python's
 * ordering of file names (paths in one directory compare by name, names
 * compare code point by code point).
 */
module Listing {

  datatype Entry = Entry(name: string, size: nat)

  predicate EndsWith(s: string, suffix: string) {
    |suffix| <= |s| && s[|s| - |suffix|..] == suffix
  }

  /** A text ends with `suffix` exactly when it is some (possibly empty) text followed by it. */
  lemma {:induction false} EndsWithIffSuffix(s: string, suffix: string)
    ensures EndsWith(s, suffix) <==> exists p :: s == p + suffix
  {
    if EndsWith(s, suffix) {
      var p := s[..|s| - |suffix|];
      assert s == p + suffix;
    }
    if exists p :: s == p + suffix {
      var p :| s == p + suffix;
      assert s[|s| - |suffix|..] == suffix;
    }
  }

  /** `glob("*.jpg")`: `*` matches any name, a leading dot included; case matters. */
  predicate IsJpg(name: string) {
    EndsWith(name, ".jpg")
  }

  /** The entries both tools keep: `*.jpg` with `stat().st_size > 0`. */
  predicate Counted(e: Entry) {
    IsJpg(e.name) && e.size > 0
  }

  /** The list comprehension over the listing. */
  function CountedImages(listing: seq<Entry>): (r: seq<Entry>)
    ensures forall e :: e in r <==> e in listing && Counted(e)
    ensures |r| <= |listing|
    ensures multiset(r) <= multiset(listing)
    decreases |listing|
  {
    if listing == [] then []
    else
      var rest := CountedImages(listing[1..]);
      assert listing == [listing[0]] + listing[1..];
      if Counted(listing[0]) then [listing[0]] + rest else rest
  }

  /**
   * The comprehension keeps every counted entry as often as the listing holds
   * it, nothing else, and in listing order: it is the listing with the other
   * entries taken out.
   */
  lemma {:induction false} CountedImagesExact(listing: seq<Entry>)
    ensures forall e :: multiset(CountedImages(listing))[e] == if Counted(e) then multiset(listing)[e] else 0
    ensures IsSubsequence(CountedImages(listing), listing)
    decreases |listing|
  {
    if listing != [] {
      CountedImagesExact(listing[1..]);
      assert listing == [listing[0]] + listing[1..];
    }
  }

  /** `xs` is `ys` with some elements taken out, the rest kept in order. */
  predicate IsSubsequence<T(==)>(xs: seq<T>, ys: seq<T>)
    decreases |ys|
  {
    if xs == [] then true
    else if ys == [] then false
    else if xs[0] == ys[0] then IsSubsequence(xs[1..], ys[1..])
    else IsSubsequence(xs, ys[1..])
  }

  // ---------------------------------------------------------------------
  // Python's `<=` on str.

  predicate NameLe(a: string, b: string)
    decreases |a|
  {
    |a| == 0 || (|b| > 0 && (a[0] < b[0] || (a[0] == b[0] && NameLe(a[1..], b[1..]))))
  }

  lemma {:induction false} NameLeReflexive(a: string)
    ensures NameLe(a, a)
    decreases |a|
  {
    if |a| > 0 { NameLeReflexive(a[1..]); }
  }

  lemma {:induction false} NameLeTotal(a: string, b: string)
    ensures NameLe(a, b) || NameLe(b, a)
    decreases |a|
  {
    if |a| > 0 && |b| > 0 && a[0] == b[0] { NameLeTotal(a[1..], b[1..]); }
  }

  lemma {:induction false} NameLeAntisymmetric(a: string, b: string)
    requires NameLe(a, b) && NameLe(b, a)
    ensures a == b
    decreases |a|
  {
    if |a| > 0 {
      NameLeAntisymmetric(a[1..], b[1..]);
      assert a == [a[0]] + a[1..] && b == [b[0]] + b[1..];
    }
  }

  lemma {:induction false} NameLeTransitive(a: string, b: string, c: string)
    requires NameLe(a, b) && NameLe(b, c)
    ensures NameLe(a, c)
    decreases |a|
  {
    if |a| > 0 && a[0] == b[0] && b[0] == c[0] {
      NameLeTransitive(a[1..], b[1..], c[1..]);
    }
  }

  // ---------------------------------------------------------------------
  // `sorted(...)` and `max(...)` by name.

  predicate SortedByName(es: seq<Entry>) {
    forall i, j | 0 <= i < j < |es| :: NameLe(es[i].name, es[j].name)
  }

  /** Places `e` before the first entry whose name is not below its own. */
  function Insert(e: Entry, es: seq<Entry>): seq<Entry>
    decreases |es|
  {
    if es == [] || NameLe(e.name, es[0].name) then [e] + es
    else [es[0]] + Insert(e, es[1..])
  }

  /** `sorted(entries)`, as an insertion sort. */
  function SortByName(es: seq<Entry>): seq<Entry>
    decreases |es|
  {
    if es == [] then [] else Insert(es[0], SortByName(es[1..]))
  }

  lemma {:induction false} InsertElements(e: Entry, es: seq<Entry>)
    ensures multiset(Insert(e, es)) == multiset(es) + multiset{e}
    decreases |es|
  {
    if es != [] && !NameLe(e.name, es[0].name) {
      InsertElements(e, es[1..]);
      assert es == [es[0]] + es[1..];
    }
  }

  lemma {:induction false} ConsSorted(x: Entry, es: seq<Entry>)
    requires SortedByName(es)
    requires forall j | 0 <= j < |es| :: NameLe(x.name, es[j].name)
    ensures SortedByName([x] + es)
  {
  }

  /** Inserting keeps the order, and every inserted-into entry is `e` or was there. */
  lemma {:induction false} InsertSorted(e: Entry, es: seq<Entry>)
    requires SortedByName(es)
    ensures SortedByName(Insert(e, es))
    ensures forall j | 0 <= j < |Insert(e, es)| :: Insert(e, es)[j] == e || Insert(e, es)[j] in es
    decreases |es|
  {
    if es == [] {
    } else if NameLe(e.name, es[0].name) {
      forall j | 0 <= j < |es| ensures NameLe(e.name, es[j].name) {
        if j > 0 { NameLeTransitive(e.name, es[0].name, es[j].name); }
      }
      ConsSorted(e, es);
    } else {
      NameLeTotal(e.name, es[0].name);
      var tail := es[1..];
      InsertSorted(e, tail);
      var rest := Insert(e, tail);
      forall j | 0 <= j < |rest| ensures NameLe(es[0].name, rest[j].name) {
        if rest[j] != e {
          var k :| 0 <= k < |tail| && tail[k] == rest[j];
          assert es[k + 1] == rest[j];
        }
      }
      ConsSorted(es[0], rest);
    }
  }

  /** The sorted list is ascending by name and holds the same entries. */
  lemma {:induction false} SortByNameSorts(es: seq<Entry>)
    ensures SortedByName(SortByName(es))
    ensures multiset(SortByName(es)) == multiset(es)
    decreases |es|
  {
    if es != [] {
      SortByNameSorts(es[1..]);
      InsertSorted(es[0], SortByName(es[1..]));
      InsertElements(es[0], SortByName(es[1..]));
      assert es == [es[0]] + es[1..];
    }
  }

  /** In a list sorted by name, an entry no name exceeds has the last entry's name. */
  lemma {:induction false} SortedMaximumIsLast(images: seq<Entry>, latest: Entry)
    requires SortedByName(images) && latest in images
    requires forall e | e in images :: NameLe(e.name, latest.name)
    ensures images[|images| - 1].name == latest.name
  {
    var n := |images|;
    var j :| 0 <= j < n && images[j] == latest;
    assert NameLe(images[n - 1].name, latest.name);
    if j < n - 1 {
      assert NameLe(images[j].name, images[n - 1].name);
      NameLeAntisymmetric(latest.name, images[n - 1].name);
    }
  }

  function Names(es: seq<Entry>): (r: seq<string>)
    ensures |r| == |es|
    ensures forall i | 0 <= i < |es| :: r[i] == es[i].name
  {
    seq(|es|, i requires 0 <= i < |es| => es[i].name)
  }

  /** `max(entries)` for entries of one directory: an entry no other name exceeds. */
  function Greatest(es: seq<Entry>): (g: Entry)
    requires es != []
    ensures g in es
    ensures forall e | e in es :: NameLe(e.name, g.name)
  {
    var k := MaxIndex(Names(es));
    assert forall e | e in es :: NameLe(e.name, es[k].name) by {
      forall e | e in es ensures NameLe(e.name, es[k].name) {
        var j :| 0 <= j < |es| && es[j] == e;
        assert Names(es)[j] == e.name;
      }
    }
    es[k]
  }

  /**
   * `max(xs)` over names: Python keeps the first of equal maxima, so this is
   * the first index whose name no other name exceeds.
   */
  function MaxIndex(names: seq<string>): (k: nat)
    requires names != []
    ensures k < |names|
    ensures forall i | 0 <= i < |names| :: NameLe(names[i], names[k])
    ensures forall i | 0 <= i < k :: names[i] != names[k]
    decreases |names|
  {
    if |names| == 1 then
      NameLeReflexive(names[0]);
      0
    else
      var init := names[..|names| - 1];
      var best := MaxIndex(init);
      var last := names[|names| - 1];
      if NameLe(last, init[best]) then
        best
      else
        NameLeTotal(last, init[best]);
        assert NameLe(init[best], last);
        assert forall i | 0 <= i < |init| :: NameLe(init[i], last) by {
          forall i | 0 <= i < |init| ensures NameLe(init[i], last) {
            NameLeTransitive(init[i], init[best], last);
          }
        }
        assert forall i | 0 <= i < |init| :: init[i] != last;
        NameLeReflexive(last);
        |names| - 1
  }
}
