/**
 * The list operations the script applies to the directory listing: keeping the
 * `.html` entries (via `os.path.basename`), `list.remove` and `list.sort` on paths.
 */
module Paths {

  import opened Wrappers

  type Path = string

  const HtmlSuffix: string := ".html"

  predicate EndsWith(s: string, suffix: string)
  {
    |suffix| <= |s| && s[|s| - |suffix|..] == suffix
  }

  /**
   * `os.path.basename(p)` on POSIX: the text after the last `/` (all of `p` when it has
   * none, the empty string when `p` ends with `/`).
   */
  function Basename(p: Path): (b: string)
    ensures |b| <= |p| && b == p[|p| - |b|..]
    ensures forall k :: 0 <= k < |b| ==> b[k] != '/'
    ensures |b| < |p| ==> p[|p| - |b| - 1] == '/'
    decreases |p|
  {
    if p == [] || p[|p| - 1] == '/' then [] else Basename(p[..|p| - 1]) + [p[|p| - 1]]
  }

  /** The path names an `.html` page. */
  predicate IsHtml(p: Path)
  {
    EndsWith(p, HtmlSuffix)
  }

  /**
   * The script tests `os.path.basename(p).endswith('.html')`; since `.html` holds no `/`,
   * that is the same as testing the whole path.
   */
  lemma BasenameTestIsHtml(p: Path)
    ensures EndsWith(Basename(p), HtmlSuffix) <==> IsHtml(p)
  {
    var b := Basename(p);
    var n := |HtmlSuffix|;
    if EndsWith(p, HtmlSuffix) {
      assert b[|b| - n..] == p[|p| - n..];
    }
    if EndsWith(b, HtmlSuffix) {
      assert p[|p| - n..] == b[|b| - n..];
    }
  }

  /** The `.html` entries of a listing, in listing order (the loop's `append`s). */
  function FilterHtml(listing: seq<Path>): (html: seq<Path>)
    ensures |html| <= |listing|
    ensures forall k :: 0 <= k < |html| ==> IsHtml(html[k])
    decreases |listing|
  {
    if listing == [] then []
    else
      var init, last := listing[..|listing| - 1], listing[|listing| - 1];
      FilterHtml(init) + if IsHtml(last) then [last] else []
  }

  /** Each `.html` path is kept as often as it is listed; every other path is dropped. */
  lemma {:induction false} FilterHtmlCount(listing: seq<Path>, p: Path)
    ensures multiset(FilterHtml(listing))[p] == if IsHtml(p) then multiset(listing)[p] else 0
    decreases |listing|
  {
    if listing != [] {
      var init, last := listing[..|listing| - 1], listing[|listing| - 1];
      FilterHtmlCount(init, p);
      assert listing == init + [last];
      var tail := if IsHtml(last) then [last] else [];
      assert multiset(FilterHtml(listing)) == multiset(FilterHtml(init)) + multiset(tail);
    }
  }

  /** The kept entries are exactly the listed `.html` paths. */
  lemma FilterHtmlMembers(listing: seq<Path>)
    ensures forall p :: p in FilterHtml(listing) <==> p in listing && IsHtml(p)
    ensures multiset(FilterHtml(listing)) <= multiset(listing)
  {
    forall p ensures multiset(FilterHtml(listing))[p] <= multiset(listing)[p]
      && (p in FilterHtml(listing) <==> p in listing && IsHtml(p))
    {
      FilterHtmlCount(listing, p);
    }
  }

  /** The position of the first `x` in `s`. */
  function IndexOf<T(==)>(s: seq<T>, x: T): (i: nat)
    requires x in s
    ensures i < |s| && s[i] == x && x !in s[..i]
  {
    if s[0] == x then 0
    else
      var i := IndexOf(s[1..], x) + 1;
      assert s[..i] == [s[0]] + s[1..][..i - 1];
      i
  }

  /**
   * `s.remove(x)`: drops the first occurrence of `x`; None stands for the `ValueError`
   * raised when `x` is not in the list.
   */
  function RemoveFirst<T(==)>(s: seq<T>, x: T): (r: Option<seq<T>>)
    ensures r.None? <==> x !in s
    ensures r.Some? ==> multiset(r.value) == multiset(s) - multiset{x}
    ensures r.Some? ==> exists i :: 0 <= i < |s| && x !in s[..i] && r.value == s[..i] + s[i + 1..]
  {
    if x !in s then None
    else
      var i := IndexOf(s, x);
      assert s == s[..i] + [x] + s[i + 1..];
      Some(s[..i] + s[i + 1..])
  }

  /** Python's `<=` on `str`: code point by code point, a proper prefix first. */
  predicate LexLe(a: string, b: string)
    decreases |a|
  {
    a == [] || (b != [] && (a[0] < b[0] || (a[0] == b[0] && LexLe(a[1..], b[1..]))))
  }

  lemma {:induction false} LexLeTotal(a: string, b: string)
    ensures LexLe(a, b) || LexLe(b, a)
    decreases |a|
  {
    if a != [] && b != [] && a[0] == b[0] {
      LexLeTotal(a[1..], b[1..]);
    }
  }

  lemma {:induction false} LexLeReflexive(a: string)
    ensures LexLe(a, a)
    decreases |a|
  {
    if a != [] {
      LexLeReflexive(a[1..]);
    }
  }

  lemma {:induction false} LexLeAntisymmetric(a: string, b: string)
    requires LexLe(a, b) && LexLe(b, a)
    ensures a == b
    decreases |a|
  {
    if a != [] {
      LexLeAntisymmetric(a[1..], b[1..]);
      assert a == [a[0]] + a[1..] && b == [b[0]] + b[1..];
    }
  }

  lemma {:induction false} LexLeTransitive(a: string, b: string, c: string)
    requires LexLe(a, b) && LexLe(b, c)
    ensures LexLe(a, c)
    decreases |a|
  {
    if a != [] && a[0] == b[0] && b[0] == c[0] {
      LexLeTransitive(a[1..], b[1..], c[1..]);
    }
  }

  /** Ascending order, as `list.sort()` leaves a list of strings. */
  predicate Sorted(s: seq<Path>)
  {
    forall i, j :: 0 <= i < j < |s| ==> LexLe(s[i], s[j])
  }

  /** Putting in front of an ascending list a path at or below all its elements keeps it ascending. */
  lemma PrependSorted(h: Path, t: seq<Path>)
    requires Sorted(t)
    requires forall y :: y in t ==> LexLe(h, y)
    ensures Sorted([h] + t)
  {
    var r := [h] + t;
    forall i, j | 0 <= i < j < |r| ensures LexLe(r[i], r[j]) {
      assert r[j] == t[j - 1];
      if i > 0 { assert r[i] == t[i - 1]; }
    }
  }

  /** A path at or below the head of an ascending list is at or below all of it. */
  lemma BelowHead(x: Path, s: seq<Path>)
    requires Sorted(s) && s != [] && LexLe(x, s[0])
    ensures forall y :: y in s ==> LexLe(x, y)
  {
    forall y | y in s ensures LexLe(x, y) {
      SortedHeadIsLeast(s, y);
      LexLeTransitive(x, s[0], y);
    }
  }

  /** Insert `x` into an ascending list in front of the first element not below it. */
  function Insert(s: seq<Path>, x: Path): (r: seq<Path>)
    requires Sorted(s)
    ensures Sorted(r)
    ensures multiset(r) == multiset(s) + multiset{x}
  {
    if s == [] then [x]
    else if LexLe(x, s[0]) then
      BelowHead(x, s);
      PrependSorted(x, s);
      [x] + s
    else
      var t := Insert(s[1..], x);
      InsertBelowHead(s, x, t);
      PrependSorted(s[0], t);
      assert s == [s[0]] + s[1..];
      [s[0]] + t
  }

  /** The head of an ascending list stays at or below everything once a larger path joins its tail. */
  lemma InsertBelowHead(s: seq<Path>, x: Path, t: seq<Path>)
    requires Sorted(s) && s != [] && !LexLe(x, s[0])
    requires multiset(t) == multiset(s[1..]) + multiset{x}
    ensures forall y :: y in t ==> LexLe(s[0], y)
  {
    LexLeTotal(x, s[0]);
    forall y | y in t ensures LexLe(s[0], y) {
      assert y in multiset(t);
      if y != x {
        assert y in s[1..];
      }
    }
  }

  /** `list.sort()`: an ascending permutation of the list. */
  function Sort(s: seq<Path>): (r: seq<Path>)
    ensures Sorted(r)
    ensures multiset(r) == multiset(s)
    decreases |s|
  {
    if s == [] then []
    else
      assert s == s[..|s| - 1] + [s[|s| - 1]];
      Insert(Sort(s[..|s| - 1]), s[|s| - 1])
  }

  /** The first element of an ascending list is at or below every element. */
  lemma SortedHeadIsLeast(a: seq<Path>, x: Path)
    requires Sorted(a) && x in a
    ensures LexLe(a[0], x)
  {
    var j :| 0 <= j < |a| && a[j] == x;
    if j == 0 {
      LexLeReflexive(x);
    }
  }

  /** Two lists with the same elements and the same head have tails with the same elements. */
  lemma SameTails(a: seq<Path>, b: seq<Path>)
    requires a != [] && b != [] && a[0] == b[0]
    requires multiset(a) == multiset(b)
    ensures multiset(a[1..]) == multiset(b[1..])
  {
    assert a == [a[0]] + a[1..] && b == [b[0]] + b[1..];
    assert multiset(a[1..]) == multiset(a) - multiset{a[0]};
    assert multiset(b[1..]) == multiset(b) - multiset{b[0]};
  }

  /**
   * There is only one ascending arrangement of a list of paths, so the order in which
   * the directory listing arrives does not matter once the list is sorted.
   */
  lemma {:induction false} SortedUnique(a: seq<Path>, b: seq<Path>)
    requires Sorted(a) && Sorted(b)
    requires multiset(a) == multiset(b)
    ensures a == b
    decreases |a|
  {
    if a != [] {
      assert a[0] in b by {
        assert a[0] in multiset(a);
      }
      assert b[0] in a by {
        assert b[0] in multiset(b);
      }
      assert a[0] == b[0] by {
        SortedHeadIsLeast(b, a[0]);
        SortedHeadIsLeast(a, b[0]);
        LexLeAntisymmetric(a[0], b[0]);
      }
      SameTails(a, b);
      SortedUnique(a[1..], b[1..]);
      assert a == [a[0]] + a[1..] && b == [b[0]] + b[1..];
    }
  }

  /** Sorting depends only on which paths there are and how often each occurs. */
  lemma SortIgnoresOrder(s: seq<Path>, t: seq<Path>)
    requires multiset(s) == multiset(t)
    ensures Sort(s) == Sort(t)
  {
    SortedUnique(Sort(s), Sort(t));
  }
}
