// Substring search used by the client harness: the JavaScript primitive
// `String.prototype.indexOf(searchString, position)` and the helper
// `getIndicesOf`, which collects the non-overlapping occurrences of a
// marker, scanning left to right.

module StringSearch {

  /** `pat` occurs in `s` starting at position `k`. */
  predicate Occurs(s: string, pat: string, k: int)
  {
    0 <= k && k + |pat| <= |s| && forall i :: 0 <= i < |pat| ==> s[k + i] == pat[i]
  }

  /** `indexOf` clamps its start position to the length of the string. */
  function Clamp(position: nat, len: nat): (r: nat)
  {
    if position <= len then position else len
  }

  /** `r` is the first occurrence of `pat` in `s` at or after `k`, or -1 when there is none. */
  ghost predicate IsFirstFrom(s: string, pat: string, k: int, r: int)
  {
    (r == -1 || (k <= r && Occurs(s, pat, r))) &&
    (forall j :: k <= j && (r == -1 || j < r) ==> !Occurs(s, pat, j))
  }

  /** First occurrence of `pat` at or after `k`, scanning forwards; -1 when there is none. */
  function FindFrom(s: string, pat: string, k: nat): (r: int)
    decreases |s| - k
  {
    if k + |pat| > |s| then -1
    else if Occurs(s, pat, k) then k
    else FindFrom(s, pat, k + 1)
  }

  /** `FindFrom` returns the first occurrence at or after `k`, or -1 if there is none. */
  lemma {:induction false} FindFromFirst(s: string, pat: string, k: nat)
    ensures IsFirstFrom(s, pat, k, FindFrom(s, pat, k))
    decreases |s| - k
  {
    if k + |pat| <= |s| && !Occurs(s, pat, k) {
      FindFromFirst(s, pat, k + 1);
    }
  }

  /** `s.indexOf(pat, position)`, which starts at the position clamped to the length of `s`. */
  function IndexOf(s: string, pat: string, position: nat): (r: int)
  {
    FindFrom(s, pat, Clamp(position, |s|))
  }

  /**
   * `indexOf` returns the least index at or after the clamped start
   * position where `pat` occurs, and -1 exactly when there is none.
   */
  lemma IndexOfFirst(s: string, pat: string, position: nat)
    ensures IsFirstFrom(s, pat, Clamp(position, |s|), IndexOf(s, pat, position))
  {
    FindFromFirst(s, pat, Clamp(position, |s|));
  }

  /** A found index lies at or after the start position, with the whole match inside `s`. */
  lemma IndexOfBounds(s: string, pat: string, position: nat)
    ensures IndexOf(s, pat, position) == -1 ||
            (Clamp(position, |s|) <= IndexOf(s, pat, position) &&
             IndexOf(s, pat, position) + |pat| <= |s|)
  {
    IndexOfFirst(s, pat, position);
  }

  /**
   * The indices `getIndicesOf` collects once its scan has resumed at
   * `from`: the next occurrence, then the scan resumes after its end.
   */
  function IndicesFrom(pat: string, s: string, from: nat): (r: seq<int>)
    requires pat != []
    decreases |s| - from
  {
    var i := IndexOf(s, pat, from);
    if i < 0 then []
    else
      IndexOfBounds(s, pat, from);
      [i] + IndicesFrom(pat, s, i + |pat|)
  }

  /** Every element of `r` is an occurrence of `pat` in `s` at or after `from`. */
  predicate AllOccurrences(s: string, pat: string, r: seq<int>, from: int)
  {
    forall j :: 0 <= j < |r| ==> from <= r[j] && Occurs(s, pat, r[j])
  }

  /** Each element of `r` lies at least `len` past every earlier one. */
  predicate Separated(r: seq<int>, len: nat)
  {
    forall i, j :: 0 <= i < j < |r| ==> r[i] + len <= r[j]
  }

  /**
   * Every collected index is a true occurrence at or after `from`, and each
   * lies at or after the end of the one before it, so matches never overlap.
   */
  lemma {:induction false} IndicesFromSound(pat: string, s: string, from: nat)
    requires pat != []
    ensures AllOccurrences(s, pat, IndicesFrom(pat, s, from), from)
    ensures Separated(IndicesFrom(pat, s, from), |pat|)
    decreases |s| - from
  {
    var r := IndicesFrom(pat, s, from);
    var i := IndexOf(s, pat, from);
    if i >= 0 {
      IndexOfFirst(s, pat, from);
      IndicesFromSound(pat, s, i + |pat|);
      var rest := IndicesFrom(pat, s, i + |pat|);
      assert r == [i] + rest;
      forall j | 0 <= j < |r| ensures from <= r[j] && Occurs(s, pat, r[j]) {
        if j > 0 {
          assert r[j] == rest[j - 1];
        }
      }
      forall a, b | 0 <= a < b < |r| ensures r[a] + |pat| <= r[b] {
        assert r[b] == rest[b - 1];
        if a > 0 {
          assert r[a] == rest[a - 1];
        }
      }
    }
  }

  /** What `getIndicesOf(searchStr, str)` returns. */
  function IndicesOf(searchStr: string, str: string): (r: seq<int>)
  {
    if searchStr == [] then [] else IndicesFrom(searchStr, str, 0)
  }

  /**
   * Every index `getIndicesOf` returns is a true occurrence of the search
   * string, and the indices increase with gaps of at least its length.
   */
  lemma IndicesOfSound(searchStr: string, str: string)
    ensures AllOccurrences(str, searchStr, IndicesOf(searchStr, str), 0)
    ensures Separated(IndicesOf(searchStr, str), |searchStr|)
    ensures searchStr != [] ==> Separated(IndicesOf(searchStr, str), 1)
  {
    if searchStr != [] {
      IndicesFromSound(searchStr, str, 0);
    }
  }

  /**
   * The helper as the harness writes it: an empty search string yields no
   * indices; otherwise `indexOf` is called repeatedly, each search resuming
   * at the end of the previous match.
   */
  method GetIndicesOf(searchStr: string, str: string) returns (indices: seq<int>)
    ensures indices == IndicesOf(searchStr, str)
  {
    var searchStrLen := |searchStr|;
    if searchStrLen == 0 {
      return [];
    }
    var startIndex: nat := 0;
    indices := [];
    var index := IndexOf(str, searchStr, startIndex);
    while index > -1
      invariant index == IndexOf(str, searchStr, startIndex)
      invariant indices + IndicesFrom(searchStr, str, startIndex) == IndicesOf(searchStr, str)
      decreases |str| - startIndex
    {
      IndexOfBounds(str, searchStr, startIndex);
      ghost var rest := IndicesFrom(searchStr, str, index + searchStrLen);
      assert IndicesFrom(searchStr, str, startIndex) == [index] + rest;
      AppendAssoc(indices, [index], rest);
      indices := indices + [index];
      startIndex := index + searchStrLen;
      index := IndexOf(str, searchStr, startIndex);
    }
    assert IndicesFrom(searchStr, str, startIndex) == [];
  }

  /** Concatenation regroups freely (kept apart so the loop proof stays small). */
  lemma AppendAssoc(a: seq<int>, b: seq<int>, c: seq<int>)
    ensures a + (b + c) == (a + b) + c
  {
  }

  /** An empty result means an empty search string or no occurrence at all. */
  lemma IndicesOfEmpty(searchStr: string, str: string)
    ensures IndicesOf(searchStr, str) == [] <==>
              searchStr == [] || forall k :: !Occurs(str, searchStr, k)
  {
    if searchStr != [] {
      IndexOfFirst(str, searchStr, 0);
    }
    if searchStr != [] && IndicesOf(searchStr, str) == [] {
      assert IndexOf(str, searchStr, 0) == -1;
      forall k ensures !Occurs(str, searchStr, k) {
        if 0 <= k {
          assert Clamp(0, |str|) <= k;
        }
      }
    }
  }

  /** The position where the scan resumes before the `j`-th reported match. */
  function ResumeAt(r: seq<int>, j: nat, from: nat, len: nat): (pos: int)
    requires j <= |r|
  {
    if j == 0 then from else r[j - 1] + len
  }

  /**
   * No occurrence lies between a resume position and the next index of
   * `r`, nor anywhere after the last resume position.
   */
  ghost predicate NoneSkipped(s: string, pat: string, r: seq<int>, from: nat)
  {
    forall j, k :: 0 <= j <= |r| && ResumeAt(r, j, from, |pat|) <= k && (j == |r| || k < r[j]) ==>
      !Occurs(s, pat, k)
  }

  /**
   * The scan skips nothing: between each resume position and the next
   * reported index there is no occurrence, and after the end of the last
   * match (or after `from` when nothing is reported) there is none either.
   */
  lemma {:induction false} IndicesFromSkipsNothing(pat: string, s: string, from: nat)
    requires pat != []
    ensures NoneSkipped(s, pat, IndicesFrom(pat, s, from), from)
    decreases |s| - from
  {
    var r := IndicesFrom(pat, s, from);
    var i := IndexOf(s, pat, from);
    IndexOfFirst(s, pat, from);
    if i < 0 {
      assert r == [];
      forall k | from <= k ensures !Occurs(s, pat, k) {
        assert Clamp(from, |s|) <= k;
      }
    } else {
      var rest := IndicesFrom(pat, s, i + |pat|);
      assert r == [i] + rest;
      IndicesFromSkipsNothing(pat, s, i + |pat|);
      forall j, k | 0 <= j <= |r| && ResumeAt(r, j, from, |pat|) <= k && (j == |r| || k < r[j])
        ensures !Occurs(s, pat, k)
      {
        if j == 0 {
          assert from <= k < i;
          assert Clamp(from, |s|) <= k;
        } else {
          assert ResumeAt(rest, j - 1, i + |pat|, |pat|) == ResumeAt(r, j, from, |pat|);
          assert j - 1 < |rest| ==> rest[j - 1] == r[j];
        }
      }
    }
  }

  /**
   * Every occurrence at or after `from` is either reported or lies
   * strictly inside a reported match (the matches never overlap).
   */
  lemma {:induction false} IndicesFromCovers(pat: string, s: string, from: nat, k: int)
    requires pat != [] && from <= k && Occurs(s, pat, k)
    ensures var r := IndicesFrom(pat, s, from);
      k in r || exists j :: 0 <= j < |r| && r[j] < k < r[j] + |pat|
    decreases |s| - from
  {
    var r := IndicesFrom(pat, s, from);
    var i := IndexOf(s, pat, from);
    IndexOfFirst(s, pat, from);
    assert Clamp(from, |s|) <= k;
    assert i != -1 && i <= k;
    var rest := IndicesFrom(pat, s, i + |pat|);
    assert r == [i] + rest;
    if k == i {
      assert r[0] == k;
    } else if k < i + |pat| {
      assert r[0] < k < r[0] + |pat|;
    } else {
      IndicesFromCovers(pat, s, i + |pat|, k);
      if k in rest {
        assert k in r;
      } else {
        var j :| 0 <= j < |rest| && rest[j] < k < rest[j] + |pat|;
        assert r[j + 1] == rest[j];
      }
    }
  }

  /** `getIndicesOf` misses no occurrence except those overlapping a reported one. */
  lemma IndicesOfCovers(searchStr: string, str: string, k: int)
    requires searchStr != [] && Occurs(str, searchStr, k)
    ensures var r := IndicesOf(searchStr, str);
      k in r || exists j :: 0 <= j < |r| && r[j] < k < r[j] + |searchStr|
  {
    IndicesFromCovers(searchStr, str, 0, k);
  }

  /** Prefixing a string shifts every occurrence by the prefix length. */
  lemma OccursShift(p: string, s: string, pat: string, k: int)
    requires 0 <= k
    ensures Occurs(p + s, pat, |p| + k) <==> Occurs(s, pat, k)
  {
  }

  /** A string occurs at the start of anything it prefixes. */
  lemma OccursAtStart(pat: string, rest: string)
    ensures Occurs(pat + rest, pat, 0)
  {
  }

  /** Adds `d` to every element. */
  function Shift(xs: seq<int>, d: int): (r: seq<int>)
    ensures |r| == |xs|
    ensures forall j :: 0 <= j < |xs| ==> r[j] == xs[j] + d
  {
    if xs == [] then [] else [xs[0] + d] + Shift(xs[1..], d)
  }

  /** Shifting a sequence shifts its head and then its tail. */
  lemma ShiftCons(x: int, xs: seq<int>, d: int)
    ensures Shift([x] + xs, d) == [x + d] + Shift(xs, d)
  {
    assert ([x] + xs)[1..] == xs;
  }

  /** `indexOf` on a prefixed string finds the same occurrence, shifted. */
  lemma IndexOfShift(p: string, s: string, pat: string, from: nat)
    requires from <= |s|
    ensures var r := IndexOf(s, pat, from);
      IndexOf(p + s, pat, |p| + from) == if r == -1 then -1 else r + |p|
  {
    var r := IndexOf(s, pat, from);
    var r' := IndexOf(p + s, pat, |p| + from);
    IndexOfFirst(s, pat, from);
    IndexOfFirst(p + s, pat, |p| + from);
    assert Clamp(from, |s|) == from && Clamp(|p| + from, |p + s|) == |p| + from;
    if r' != -1 {
      OccursShift(p, s, pat, r' - |p|);
    }
    if r != -1 {
      OccursShift(p, s, pat, r);
    }
  }

  /** Collecting indices on a prefixed string shifts every index. */
  lemma {:induction false} IndicesFromShift(pat: string, p: string, s: string, from: nat)
    requires pat != [] && from <= |s|
    ensures IndicesFrom(pat, p + s, |p| + from) == Shift(IndicesFrom(pat, s, from), |p|)
    decreases |s| - from
  {
    var i := IndexOf(s, pat, from);
    IndexOfShift(p, s, pat, from);
    IndexOfBounds(s, pat, from);
    if i != -1 {
      IndicesFromShift(pat, p, s, i + |pat|);
      var rest := IndicesFrom(pat, s, i + |pat|);
      var whole := IndicesFrom(pat, s, from);
      assert whole == [i] + rest;
      calc {
        IndicesFrom(pat, p + s, |p| + from);
        [i + |p|] + IndicesFrom(pat, p + s, |p| + (i + |pat|));
        [i + |p|] + Shift(rest, |p|);
        { ShiftCons(i, rest, |p|); }
        Shift([i] + rest, |p|);
        Shift(whole, |p|);
      }
    }
  }
}
