/**
 * Literal substring replacement with the semantics of Python's `str.replace(old, new)`
 * (no count argument): the text is scanned left to right, every occurrence of the
 * pattern that does not overlap an earlier, already replaced one is replaced, and the
 * inserted text is never scanned again.
 */
module Text {

  import opened Wrappers

  /** `pat` occurs in `s` starting at index `i`. */
  predicate OccursAt(s: string, pat: string, i: nat)
  {
    i + |pat| <= |s| && s[i..i + |pat|] == pat
  }

  /** `pat` occurs somewhere in `s`. */
  ghost predicate Contains(s: string, pat: string)
  {
    exists i: nat :: OccursAt(s, pat, i)
  }

  /**
   * `pat` cannot occur in `s` when its `k`-th character is absent from every position
   * of `s` where that character of an occurrence would have to stand.
   */
  lemma NoMatchByChar(s: string, pat: string, k: nat)
    requires k < |pat|
    requires forall j :: k <= j <= |s| - |pat| + k ==> s[j] != pat[k]
    ensures !Contains(s, pat)
  {
    forall i: nat ensures !OccursAt(s, pat, i) {
      if i + |pat| <= |s| {
        assert s[i..i + |pat|][k] == s[i + k];
      }
    }
  }

  /** A character that cannot start the pattern does not create an occurrence in front of `s`. */
  lemma NoMatchAfterChar(c: char, s: string, pat: string)
    requires |pat| > 0 && c != pat[0]
    requires !Contains(s, pat)
    ensures !Contains([c] + s, pat)
  {
    var t := [c] + s;
    assert t[1..] == s;
    forall i: nat ensures !OccursAt(t, pat, i) {
      if i > 0 {
        OccursAtTail(t, pat, i - 1);
      } else if i + |pat| <= |t| {
        assert t[..|pat|][0] == c;
      }
    }
  }

  /** A text that is exactly the pattern becomes exactly the replacement. */
  lemma ReplaceAllWhole(pat: string, rep: string)
    requires |pat| > 0
    ensures ReplaceAll(pat, pat, rep) == rep
  {
    assert pat[|pat|..] == [];
  }

  /** An occurrence in `s[1..]` is an occurrence in `s`, one position further on. */
  lemma OccursAtTail(s: string, pat: string, i: nat)
    requires |s| > 0
    ensures OccursAt(s[1..], pat, i) <==> OccursAt(s, pat, i + 1)
  {
    if i + |pat| <= |s[1..]| {
      assert s[1..][i..i + |pat|] == s[i + 1..i + 1 + |pat|];
    }
  }

  /** `s.replace(pat, rep)`: non-overlapping, leftmost first, replacement not re-scanned. */
  function ReplaceAll(s: string, pat: string, rep: string): string
    requires |pat| > 0
    decreases |s|
  {
    if s == [] then []
    else if pat <= s then rep + ReplaceAll(s[|pat|..], pat, rep)
    else [s[0]] + ReplaceAll(s[1..], pat, rep)
  }

  /** `s.find(pat)`: the index of the first occurrence of `pat`, or None. */
  function Find(s: string, pat: string): (r: Option<nat>)
    requires |pat| > 0
    ensures r.Some? ==> r.value + |pat| <= |s|
    decreases |s|
  {
    if s == [] then None
    else if pat <= s then Some(0)
    else
      var rest := Find(s[1..], pat);
      if rest.None? then None else Some(rest.value + 1)
  }

  /**
   * Find answers None exactly when the pattern does not occur; otherwise it gives an
   * occurrence with none before it.
   */
  lemma {:induction false} FindSpec(s: string, pat: string)
    requires |pat| > 0
    ensures Find(s, pat).None? <==> !Contains(s, pat)
    ensures Find(s, pat).Some? ==> OccursAt(s, pat, Find(s, pat).value)
    ensures Find(s, pat).Some? ==> forall j: nat :: j < Find(s, pat).value ==> !OccursAt(s, pat, j)
    decreases |s|
  {
    if s == [] {
      assert forall j: nat :: !OccursAt(s, pat, j);
    } else if pat <= s {
      assert OccursAt(s, pat, 0);
    } else {
      assert !OccursAt(s, pat, 0);
      FindSpec(s[1..], pat);
      var rest := Find(s[1..], pat);
      forall j: nat ensures OccursAt(s[1..], pat, j) <==> OccursAt(s, pat, j + 1) {
        OccursAtTail(s, pat, j);
      }
      if rest.None? {
        forall j: nat ensures !OccursAt(s, pat, j) {
          if j > 0 { assert !OccursAt(s[1..], pat, j - 1); }
        }
      } else {
        forall j: nat | j < rest.value + 1 ensures !OccursAt(s, pat, j) {
          if j > 0 { assert !OccursAt(s[1..], pat, j - 1); }
        }
      }
    }
  }

  /** `s.split(pat)`: the pieces of `s` between consecutive leftmost occurrences of `pat`. */
  function Split(s: string, pat: string): (pieces: seq<string>)
    requires |pat| > 0
    ensures |pieces| > 0
    decreases |s|
  {
    match Find(s, pat)
    case None => [s]
    case Some(i) => [s[..i]] + Split(s[i + |pat|..], pat)
  }

  /** `sep.join(pieces)`. */
  function Join(pieces: seq<string>, sep: string): string
    requires |pieces| > 0
  {
    if |pieces| == 1 then pieces[0] else pieces[0] + sep + Join(pieces[1..], sep)
  }

  /** The number of occurrences `s.replace(pat, rep)` replaces, as `s.count(pat)` reports it. */
  function Count(s: string, pat: string): nat
    requires |pat| > 0
  {
    |Split(s, pat)| - 1
  }

  /** Text that does not contain the pattern comes back unchanged. */
  lemma {:induction false} ReplaceAllNoMatch(s: string, pat: string, rep: string)
    requires |pat| > 0
    requires !Contains(s, pat)
    ensures ReplaceAll(s, pat, rep) == s
    decreases |s|
  {
    if s != [] {
      assert !OccursAt(s, pat, 0);
      assert !Contains(s[1..], pat) by {
        forall j: nat ensures !OccursAt(s[1..], pat, j) {
          OccursAtTail(s, pat, j);
          assert !OccursAt(s, pat, j + 1);
        }
      }
      ReplaceAllNoMatch(s[1..], pat, rep);
      assert s == [s[0]] + s[1..];
    }
  }

  /** Text before the first occurrence is copied through unchanged. */
  lemma {:induction false} ReplaceAllSkip(s: string, pat: string, rep: string, i: nat)
    requires |pat| > 0
    requires i <= |s|
    requires forall j: nat :: j < i ==> !OccursAt(s, pat, j)
    ensures ReplaceAll(s, pat, rep) == s[..i] + ReplaceAll(s[i..], pat, rep)
    decreases i
  {
    if i > 0 {
      assert !OccursAt(s, pat, 0);
      assert !(pat <= s);
      forall j: nat | j < i - 1 ensures !OccursAt(s[1..], pat, j) {
        OccursAtTail(s, pat, j);
      }
      ReplaceAllSkip(s[1..], pat, rep, i - 1);
      assert s[1..][..i - 1] == s[1..i];
      assert s[1..][i - 1..] == s[i..];
      assert s[..i] == [s[0]] + s[1..i];
    }
  }

  /** At the first occurrence, the replacement is inserted and the scan resumes after it. */
  lemma ReplaceAllAtFirst(s: string, pat: string, rep: string, i: nat)
    requires |pat| > 0
    requires OccursAt(s, pat, i)
    requires forall j: nat :: j < i ==> !OccursAt(s, pat, j)
    ensures ReplaceAll(s, pat, rep) == s[..i] + rep + ReplaceAll(s[i + |pat|..], pat, rep)
  {
    ReplaceAllSkip(s, pat, rep, i);
    DropOccurrence(s, pat, i);
    ReplaceAllAtStart(s[i..], pat, rep);
    AppendAssociative(s[..i], rep, ReplaceAll(s[i + |pat|..], pat, rep));
  }

  /** An occurrence with no earlier one: the text around it is kept, and the scan goes on after it. */
  lemma ReplaceAllAround(before: string, pat: string, rep: string, after: string)
    requires |pat| > 0
    requires forall j: nat :: j < |before| ==> !OccursAt(before + pat + after, pat, j)
    ensures ReplaceAll(before + pat + after, pat, rep) == before + rep + ReplaceAll(after, pat, rep)
  {
    var s := before + pat + after;
    assert s[..|before|] == before;
    assert s[|before|..|before| + |pat|] == pat;
    assert s[|before| + |pat|..] == after;
    ReplaceAllAtFirst(s, pat, rep, |before|);
  }

  /** A text that starts with the pattern has it replaced, and the scan goes on after it. */
  lemma ReplaceAllAtStart(t: string, pat: string, rep: string)
    requires |pat| > 0 && pat <= t
    ensures ReplaceAll(t, pat, rep) == rep + ReplaceAll(t[|pat|..], pat, rep)
  {
  }

  /** From an occurrence at `i` on, the text starts with the pattern. */
  lemma DropOccurrence(s: string, pat: string, i: nat)
    requires OccursAt(s, pat, i)
    ensures pat <= s[i..] && s[i..][|pat|..] == s[i + |pat|..]
  {
    assert s[i..][..|pat|] == s[i..i + |pat|];
  }

  /** Regrouping around two marked pieces `p` and `q`, and around `q` once `p` became `r`. */
  lemma Regroup(a: string, p: string, b: string, q: string, c: string, r: string)
    ensures a + p + b + q + c == a + p + (b + q + c)
    ensures a + r + (b + q + c) == (a + r + b) + q + c
  {
  }

  lemma AppendAssociative(a: string, b: string, c: string)
    ensures a + (b + c) == a + b + c
  {
  }

  /** Joining the split pieces: the first piece, the separator, then the rest joined. */
  lemma JoinSplitAtFirst(s: string, pat: string, sep: string, i: nat)
    requires |pat| > 0
    requires Find(s, pat) == Some(i)
    ensures Join(Split(s, pat), sep) == s[..i] + sep + Join(Split(s[i + |pat|..], pat), sep)
  {
    SplitAtFirst(s, pat, i);
    JoinCons(s[..i], Split(s[i + |pat|..], pat), sep);
  }

  lemma SplitAtFirst(s: string, pat: string, i: nat)
    requires |pat| > 0
    requires Find(s, pat) == Some(i)
    ensures Split(s, pat) == [s[..i]] + Split(s[i + |pat|..], pat)
  {
  }

  lemma JoinCons(first: string, rest: seq<string>, sep: string)
    requires |rest| > 0
    ensures Join([first] + rest, sep) == first + sep + Join(rest, sep)
  {
    assert ([first] + rest)[1..] == rest;
  }

  /**
   * `s.replace(pat, rep) == rep.join(s.split(pat))`: the scanning definition agrees with
   * the find-and-split reference definition.
   */
  lemma {:induction false} ReplaceAllIsJoinOfSplit(s: string, pat: string, rep: string)
    requires |pat| > 0
    ensures ReplaceAll(s, pat, rep) == Join(Split(s, pat), rep)
    decreases |s|
  {
    FindSpec(s, pat);
    match Find(s, pat)
    case None =>
      ReplaceAllNoMatch(s, pat, rep);
    case Some(i) =>
      ReplaceAllAtFirst(s, pat, rep, i);
      JoinSplitAtFirst(s, pat, rep, i);
      ReplaceAllIsJoinOfSplit(s[i + |pat|..], pat, rep);
  }

  /** No piece produced by Split contains the pattern. */
  lemma {:induction false} SplitPiecesFree(s: string, pat: string)
    requires |pat| > 0
    ensures forall k :: 0 <= k < |Split(s, pat)| ==> !Contains(Split(s, pat)[k], pat)
    decreases |s|
  {
    FindSpec(s, pat);
    match Find(s, pat)
    case None =>
    case Some(i) =>
      SplitPiecesFree(s[i + |pat|..], pat);
      assert !Contains(s[..i], pat) by {
        forall j: nat ensures !OccursAt(s[..i], pat, j) {
          if OccursAt(s[..i], pat, j) {
            assert s[..i][j..j + |pat|] == s[j..j + |pat|];
            assert OccursAt(s, pat, j);
            assert false;
          }
        }
      }
      var pieces := Split(s, pat);
      assert pieces == [s[..i]] + Split(s[i + |pat|..], pat);
      forall k | 0 <= k < |pieces| ensures !Contains(pieces[k], pat) {
        if k > 0 { assert pieces[k] == Split(s[i + |pat|..], pat)[k - 1]; }
      }
  }

  /** Joining the pieces back with the pattern itself gives the original text. */
  lemma {:induction false} JoinSplitRoundTrip(s: string, pat: string)
    requires |pat| > 0
    ensures Join(Split(s, pat), pat) == s
    decreases |s|
  {
    FindSpec(s, pat);
    match Find(s, pat)
    case None =>
    case Some(i) =>
      JoinSplitRoundTrip(s[i + |pat|..], pat);
      assert s[i..i + |pat|] == pat;
      assert s == s[..i] + s[i..i + |pat|] + s[i + |pat|..];
  }

  /** Replacing the pattern by itself changes nothing. */
  lemma ReplaceAllByItself(s: string, pat: string)
    requires |pat| > 0
    ensures ReplaceAll(s, pat, pat) == s
  {
    ReplaceAllIsJoinOfSplit(s, pat, pat);
    JoinSplitRoundTrip(s, pat);
  }

  /** Total length of the pieces. */
  function PiecesLength(pieces: seq<string>): nat
  {
    if pieces == [] then 0 else |pieces[0]| + PiecesLength(pieces[1..])
  }

  lemma {:induction false} JoinLength(pieces: seq<string>, sep: string)
    requires |pieces| > 0
    ensures |Join(pieces, sep)| == PiecesLength(pieces) + (|pieces| - 1) * |sep|
    decreases |pieces|
  {
    if |pieces| > 1 {
      JoinLength(pieces[1..], sep);
    } else {
      assert pieces[1..] == [];
    }
  }

  /** Each replaced occurrence changes the length by `|rep| - |pat|`, and nothing else does. */
  lemma ReplaceAllLength(s: string, pat: string, rep: string)
    requires |pat| > 0
    ensures |ReplaceAll(s, pat, rep)| == |s| + Count(s, pat) * (|rep| - |pat|)
  {
    var pieces := Split(s, pat);
    ReplaceAllIsJoinOfSplit(s, pat, rep);
    JoinLength(pieces, rep);
    JoinSplitRoundTrip(s, pat);
    JoinLength(pieces, pat);
    ShiftByDifference(|ReplaceAll(s, pat, rep)|, |s|, PiecesLength(pieces), |pieces| - 1, |rep|, |pat|);
  }

  /** `n` separators of length `a` instead of `b` change a length by `n * (a - b)`. */
  lemma ShiftByDifference(x: int, y: int, total: int, n: int, a: int, b: int)
    requires x == total + n * a && y == total + n * b
    ensures x == y + n * (a - b)
  {
    assert n * a == n * b + n * (a - b);
  }
}
