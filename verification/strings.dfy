/** Searching in sequences, and the replace-all operation of Rust's `str::replace`. */
module Strings {
  import opened Wrappers

  /** `pat` occurs in `s` starting at index `i`. */
  predicate OccursAt<T(==)>(s: seq<T>, pat: seq<T>, i: nat) {
    i + |pat| <= |s| && s[i..i + |pat|] == pat
  }

  /** `pat` occurs somewhere in `s`. */
  predicate Contains<T(==)>(s: seq<T>, pat: seq<T>) {
    exists i: nat | i <= |s| :: OccursAt(s, pat, i)
  }

  /** An element that differs from the first of `pat` starts no occurrence. */
  lemma MismatchAt<T>(s: seq<T>, pat: seq<T>, i: nat)
    requires |pat| > 0 && i < |s| && s[i] != pat[0]
    ensures !OccursAt(s, pat, i)
  {
    MismatchAtOffset(s, pat, i, 0);
  }

  /** An element that differs from element `k` of `pat` rules out an occurrence `k` places earlier. */
  lemma MismatchAtOffset<T>(s: seq<T>, pat: seq<T>, i: nat, k: nat)
    requires k < |pat| && i + k < |s| && s[i + k] != pat[k]
    ensures !OccursAt(s, pat, i)
  {
    if i + |pat| <= |s| {
      assert s[i..i + |pat|][k] == s[i + k];
    }
  }

  /** A sequence is what comes before an occurrence, the occurrence, and what follows it. */
  lemma SplitAt<T>(s: seq<T>, pat: seq<T>, i: nat)
    requires OccursAt(s, pat, i)
    ensures s == s[..i] + pat + s[i + |pat|..]
  {
    assert s == s[..i] + s[i..i + |pat|] + s[i + |pat|..];
  }

  /** The first index at or after `from` where `pat` occurs in `s`. */
  function FindFrom<T(==)>(s: seq<T>, pat: seq<T>, from: nat): (r: Option<nat>)
    requires from <= |s|
    ensures r.Some? ==> from <= r.value && OccursAt(s, pat, r.value)
    decreases |s| - from
  {
    if OccursAt(s, pat, from) then Some(from)
    else if from == |s| then None
    else FindFrom(s, pat, from + 1)
  }

  /** No occurrence at or after `from` is passed over by `FindFrom`. */
  lemma {:induction false} FindFromIsLeftmost<T>(s: seq<T>, pat: seq<T>, from: nat, j: nat)
    requires from <= j && OccursAt(s, pat, j)
    ensures FindFrom(s, pat, from).Some? && FindFrom(s, pat, from).value <= j
    decreases j - from
  {
    if !OccursAt(s, pat, from) {
      FindFromIsLeftmost(s, pat, from + 1, j);
    }
  }

  /** A search that starts where `pat` does not occur finds what the search one further finds. */
  lemma FindFromSkip<T>(s: seq<T>, pat: seq<T>, from: nat)
    requires from < |s| && !OccursAt(s, pat, from)
    ensures FindFrom(s, pat, from) == FindFrom(s, pat, from + 1)
  {
  }

  /**
   * The leftmost occurrence of `pat` in `s`: the search `match_indices`
   * performs, here from the start. The reader of replies uses it to find
   * the end of the head and of the status line.
   */
  function Find<T(==)>(s: seq<T>, pat: seq<T>): (r: Option<nat>)
    ensures r.Some? <==> Contains(s, pat)
    ensures r.Some? ==> OccursAt(s, pat, r.value)
    ensures r.Some? ==> forall j: nat :: j < r.value ==> !OccursAt(s, pat, j)
  {
    var r := FindFrom(s, pat, 0);
    assert Contains(s, pat) ==> r.Some? by {
      if Contains(s, pat) {
        var i: nat :| i <= |s| && OccursAt(s, pat, i);
        FindFromIsLeftmost(s, pat, 0, i);
      }
    }
    assert r.Some? ==> forall j: nat :: j < r.value ==> !OccursAt(s, pat, j) by {
      if r.Some? {
        forall j: nat | j < r.value
          ensures !OccursAt(s, pat, j)
        {
          if OccursAt(s, pat, j) {
            FindFromIsLeftmost(s, pat, 0, j);
          }
        }
      }
    }
    r
  }

  /** An occurrence with none before it is the one `Find` reports. */
  lemma FindIsFirst<T>(s: seq<T>, pat: seq<T>, k: nat)
    requires OccursAt(s, pat, k)
    requires forall j: nat :: j < k ==> !OccursAt(s, pat, j)
    ensures Find(s, pat) == Some(k)
  {
    FindFromIsLeftmost(s, pat, 0, k);
  }

  /**
   * The loop of Rust's `str::replace` from `lastEnd` on: copy the text up to
   * the next occurrence of `pat`, emit `rep`, continue after the occurrence;
   * once there is none, copy the rest.
   */
  function ReplaceFrom<T(==)>(s: seq<T>, pat: seq<T>, rep: seq<T>, lastEnd: nat): seq<T>
    requires |pat| > 0 && lastEnd <= |s|
    decreases |s| - lastEnd
  {
    var found := FindFrom(s, pat, lastEnd);
    if found.None? then s[lastEnd..]
    else s[lastEnd..found.value] + rep + ReplaceFrom(s, pat, rep, found.value + |pat|)
  }

  /**
   * Reference reading of replace-all: walk `s` from index `i`; where `pat`
   * starts, emit `rep` and skip past it, otherwise keep one element.
   */
  function ScanFrom<T(==)>(s: seq<T>, pat: seq<T>, rep: seq<T>, i: nat): seq<T>
    requires |pat| > 0 && i <= |s|
    decreases |s| - i
  {
    if i == |s| then []
    else if OccursAt(s, pat, i) then rep + ScanFrom(s, pat, rep, i + |pat|)
    else [s[i]] + ScanFrom(s, pat, rep, i + 1)
  }

  /** Rust's `str::replace`: every leftmost non-overlapping occurrence of `pat` becomes `rep`. */
  function ReplaceAll<T(==)>(s: seq<T>, pat: seq<T>, rep: seq<T>): (r: seq<T>)
    requires |pat| > 0
    ensures r == ScanFrom(s, pat, rep, 0)
    ensures !Contains(s, pat) ==> r == s
    ensures |rep| <= |pat| ==> |r| <= |s|
    ensures |rep| < |pat| && Contains(s, pat) ==> |r| < |s|
  {
    ReplaceFromIsScan(s, pat, rep, 0);
    ScanFromLength(s, pat, rep, 0);
    assert |rep| < |pat| && Contains(s, pat) ==> |ScanFrom(s, pat, rep, 0)| < |s| by {
      if |rep| < |pat| && Contains(s, pat) {
        var j: nat :| j <= |s| && OccursAt(s, pat, j);
        ScanFromShrinks(s, pat, rep, 0, j);
      }
    }
    assert !Contains(s, pat) ==> ScanFrom(s, pat, rep, 0) == s by {
      if !Contains(s, pat) {
        ScanFromCopies(s, pat, rep, 0);
      }
    }
    ReplaceFrom(s, pat, rep, 0)
  }

  /** Helper: splitting off the first element of a slice. */
  lemma ConsSlice<T>(s: seq<T>, from: nat, to: nat, y: seq<T>)
    requires from < to <= |s|
    ensures s[from..to] + y == [s[from]] + (s[from + 1..to] + y)
  {
    assert s[from..to] == [s[from]] + s[from + 1..to];
  }

  lemma ReplaceFromFound<T>(s: seq<T>, pat: seq<T>, rep: seq<T>, from: nat)
    requires |pat| > 0 && from <= |s| && FindFrom(s, pat, from).Some?
    ensures ReplaceFrom(s, pat, rep, from)
         == s[from..FindFrom(s, pat, from).value] + (rep + ReplaceFrom(s, pat, rep, FindFrom(s, pat, from).value + |pat|))
  {
  }

  lemma ReplaceFromNotFound<T>(s: seq<T>, pat: seq<T>, rep: seq<T>, from: nat)
    requires |pat| > 0 && from <= |s| && FindFrom(s, pat, from).None?
    ensures ReplaceFrom(s, pat, rep, from) == s[from..]
  {
  }

  lemma ReplaceFromKeepsHead<T>(s: seq<T>, pat: seq<T>, rep: seq<T>, from: nat)
    requires |pat| > 0 && from < |s| && !OccursAt(s, pat, from)
    ensures ReplaceFrom(s, pat, rep, from) == [s[from]] + ReplaceFrom(s, pat, rep, from + 1)
  {
    FindFromSkip(s, pat, from);
    if FindFrom(s, pat, from).None? {
      ReplaceFromNotFound(s, pat, rep, from);
      ReplaceFromNotFound(s, pat, rep, from + 1);
      assert s[from..] == [s[from]] + s[from + 1..];
    } else {
      ReplaceFromKeepsHeadFound(s, pat, rep, from);
    }
  }

  lemma ReplaceFromKeepsHeadFound<T>(s: seq<T>, pat: seq<T>, rep: seq<T>, from: nat)
    requires |pat| > 0 && from < |s| && FindFrom(s, pat, from).Some?
    requires FindFrom(s, pat, from) == FindFrom(s, pat, from + 1)
    ensures ReplaceFrom(s, pat, rep, from) == [s[from]] + ReplaceFrom(s, pat, rep, from + 1)
  {
    var v := FindFrom(s, pat, from).value;
    ReplaceFromFound(s, pat, rep, from);
    ReplaceFromFound(s, pat, rep, from + 1);
    ConsSlice(s, from, v, rep + ReplaceFrom(s, pat, rep, v + |pat|));
  }

  lemma ReplaceFromSkipsMatch<T>(s: seq<T>, pat: seq<T>, rep: seq<T>, from: nat)
    requires |pat| > 0 && from <= |s| && OccursAt(s, pat, from)
    ensures ReplaceFrom(s, pat, rep, from) == rep + ReplaceFrom(s, pat, rep, from + |pat|)
  {
    assert FindFrom(s, pat, from) == Some(from);
    assert s[from..from] == [];
  }

  lemma ReplaceFromAtEnd<T>(s: seq<T>, pat: seq<T>, rep: seq<T>)
    requires |pat| > 0
    ensures ReplaceFrom(s, pat, rep, |s|) == []
  {
    assert !OccursAt(s, pat, |s|);
  }

  /** The find-and-copy loop of `str::replace` computes the left-to-right scan. */
  lemma {:induction false} ReplaceFromIsScan<T>(s: seq<T>, pat: seq<T>, rep: seq<T>, from: nat)
    requires |pat| > 0 && from <= |s|
    ensures ReplaceFrom(s, pat, rep, from) == ScanFrom(s, pat, rep, from)
    decreases |s| - from
  {
    if from == |s| {
      ReplaceFromAtEnd(s, pat, rep);
    } else if OccursAt(s, pat, from) {
      ReplaceFromSkipsMatch(s, pat, rep, from);
      ReplaceFromIsScan(s, pat, rep, from + |pat|);
    } else {
      ReplaceFromKeepsHead(s, pat, rep, from);
      ReplaceFromIsScan(s, pat, rep, from + 1);
    }
  }

  /** A scan whose replacement is no longer than the pattern never grows the text. */
  lemma {:induction false} ScanFromLength<T>(s: seq<T>, pat: seq<T>, rep: seq<T>, i: nat)
    requires |pat| > 0 && i <= |s|
    ensures |rep| <= |pat| ==> |ScanFrom(s, pat, rep, i)| <= |s| - i
    decreases |s| - i
  {
    if i < |s| {
      if OccursAt(s, pat, i) {
        ScanFromLength(s, pat, rep, i + |pat|);
      } else {
        ScanFromLength(s, pat, rep, i + 1);
      }
    }
  }

  /** With a strictly shorter replacement, an occurrence at `j >= i` makes the scan strictly shorter. */
  lemma {:induction false} ScanFromShrinks<T>(s: seq<T>, pat: seq<T>, rep: seq<T>, i: nat, j: nat)
    requires |pat| > 0 && |rep| < |pat| && i <= j && OccursAt(s, pat, j)
    ensures |ScanFrom(s, pat, rep, i)| < |s| - i
    decreases |s| - i
  {
    if OccursAt(s, pat, i) {
      ScanFromLength(s, pat, rep, i + |pat|);
    } else {
      ScanFromShrinks(s, pat, rep, i + 1, j);
    }
  }

  /** Where `pat` never occurs from `i` on, the scan copies the rest of the text. */
  lemma {:induction false} ScanFromCopies<T>(s: seq<T>, pat: seq<T>, rep: seq<T>, i: nat)
    requires |pat| > 0 && i <= |s|
    requires forall j: nat :: i <= j ==> !OccursAt(s, pat, j)
    ensures ScanFrom(s, pat, rep, i) == s[i..]
    decreases |s| - i
  {
    if i < |s| {
      ScanFromCopies(s, pat, rep, i + 1);
      assert s[i..] == [s[i]] + s[i + 1..];
    }
  }
}
