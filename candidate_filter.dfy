/** The containment filter of the per-frame callback: a detector candidate is
    kept only when no candidate at another index contains it, where containment
    is OpenCV's `(r & found[j]) == r`. */
module CandidateFilter {
  import opened Geometry

  /** Candidate i is contained in the candidate at some other index. */
  predicate Dominated(found: seq<Rect>, i: int)
    requires 0 <= i < |found|
  {
    exists j {:trigger ContainedIn(found[i], found[j])} ::
      0 <= j < |found| && j != i && ContainedIn(found[i], found[j])
  }

  /** The indices below n whose candidate survives, in increasing order. */
  function KeptIndices(found: seq<Rect>, n: nat): seq<int>
    requires n <= |found|
  {
    if n == 0 then []
    else KeptIndices(found, n - 1) + (if Dominated(found, n - 1) then [] else [n - 1])
  }

  /** The candidates among the first n that survive, in detector order. */
  function FilteredPrefix(found: seq<Rect>, n: nat): seq<Rect>
    requires n <= |found|
  {
    if n == 0 then []
    else FilteredPrefix(found, n - 1) + (if Dominated(found, n - 1) then [] else [found[n - 1]])
  }

  /** What `found_filtered` holds after the loop. */
  function Filtered(found: seq<Rect>): seq<Rect> {
    FilteredPrefix(found, |found|)
  }

  /** The nested loop: for each candidate, scan for another index whose
      rectangle contains it, stop at the first, and append the candidate when
      the scan ran to the end. */
  method Filter(found: seq<Rect>) returns (kept: seq<Rect>)
    ensures kept == Filtered(found)
  {
    kept := [];
    var i := 0;
    while i < |found|
      invariant 0 <= i <= |found|
      invariant kept == FilteredPrefix(found, i)
    {
      var r := found[i];
      var j := 0;
      while j < |found|
        invariant 0 <= j <= |found|
        invariant forall k :: 0 <= k < j && k != i ==> !ContainedIn(r, found[k])
      {
        if j != i && Intersect(r, found[j]) == r {
          break;
        }
        j := j + 1;
      }
      if j == |found| {
        kept := kept + [r];
      } else {
        assert j != i && ContainedIn(found[i], found[j]);
      }
      i := i + 1;
    }
  }

  /** The kept indices are strictly increasing, each is a survivor, and every
      survivor below n is among them. */
  lemma {:induction false} KeptIndicesSpec(found: seq<Rect>, n: nat)
    requires n <= |found|
    ensures forall k :: 0 <= k < |KeptIndices(found, n)| ==>
      0 <= KeptIndices(found, n)[k] < n && !Dominated(found, KeptIndices(found, n)[k])
    ensures forall a, b :: 0 <= a < b < |KeptIndices(found, n)| ==>
      KeptIndices(found, n)[a] < KeptIndices(found, n)[b]
    ensures forall i :: 0 <= i < n ==> (i in KeptIndices(found, n) <==> !Dominated(found, i))
  {
    if n > 0 {
      KeptIndicesSpec(found, n - 1);
      var prev := KeptIndices(found, n - 1);
      if Dominated(found, n - 1) {
        assert KeptIndices(found, n) == prev;
      } else {
        assert KeptIndices(found, n) == prev + [n - 1];
        forall i | 0 <= i < n
          ensures i in prev + [n - 1] <==> (i in prev || i == n - 1)
        {
        }
      }
    }
  }

  /** The filtered prefix is the detector list read at the kept indices. */
  lemma {:induction false} FilteredPrefixSelects(found: seq<Rect>, n: nat)
    requires n <= |found|
    ensures |FilteredPrefix(found, n)| == |KeptIndices(found, n)|
    ensures forall k :: 0 <= k < |KeptIndices(found, n)| ==>
      0 <= KeptIndices(found, n)[k] < n &&
      FilteredPrefix(found, n)[k] == found[KeptIndices(found, n)[k]]
  {
    if n > 0 {
      FilteredPrefixSelects(found, n - 1);
      var prev, idx := FilteredPrefix(found, n - 1), KeptIndices(found, n - 1);
      if !Dominated(found, n - 1) {
        assert FilteredPrefix(found, n) == prev + [found[n - 1]];
        assert KeptIndices(found, n) == idx + [n - 1];
      }
    }
  }

  /** The filter's output is an order-preserving subsequence of the detector
      list, read at indices idx; each output rectangle is contained in no
      rectangle at another index; and an index is selected exactly when no
      other index contains its rectangle. */
  lemma FilterSubsequence(found: seq<Rect>)
    ensures var idx := KeptIndices(found, |found|);
      |Filtered(found)| == |idx| &&
      (forall a, b :: 0 <= a < b < |idx| ==> 0 <= idx[a] < idx[b] < |found|) &&
      (forall k :: 0 <= k < |idx| ==> 0 <= idx[k] < |found| && Filtered(found)[k] == found[idx[k]]) &&
      (forall k, j :: 0 <= k < |idx| && 0 <= j < |found| && j != idx[k] ==>
         !ContainedIn(Filtered(found)[k], found[j])) &&
      (forall i :: 0 <= i < |found| ==> (i in idx <==> !Dominated(found, i)))
  {
    KeptIndicesSpec(found, |found|);
    FilteredPrefixSelects(found, |found|);
  }

  /** A rectangle that survives does so at an index no other index contains. */
  lemma {:induction false} FilteredMember(found: seq<Rect>, r: Rect)
    ensures r in Filtered(found) ==>
      exists i :: 0 <= i < |found| && found[i] == r && !Dominated(found, i)
  {
    if r in Filtered(found) {
      KeptIndicesSpec(found, |found|);
      FilteredPrefixSelects(found, |found|);
      var k :| 0 <= k < |Filtered(found)| && Filtered(found)[k] == r;
      var i := KeptIndices(found, |found|)[k];
      assert found[i] == r && !Dominated(found, i);
    }
  }

  /** A rectangle contained in a different rectangle of the list is removed,
      every copy of it. */
  lemma {:induction false} ContainedDropped(found: seq<Rect>, i: int, j: int)
    requires 0 <= i < |found| && 0 <= j < |found|
    requires found[i] != found[j] && ContainedIn(found[i], found[j])
    ensures found[i] !in Filtered(found)
  {
    forall k | 0 <= k < |found| && found[k] == found[i] ensures Dominated(found, k) {
      assert k != j && ContainedIn(found[k], found[j]);
    }
    FilteredMember(found, found[i]);
  }

  /** In particular, a non-empty rectangle lying strictly inside another one is
      removed. */
  lemma StrictlyInsideDropped(found: seq<Rect>, i: int, j: int)
    requires 0 <= i < |found| && 0 <= j < |found|
    requires NonEmpty(found[i]) && found[i] != found[j]
    requires found[j].x <= found[i].x && found[j].y <= found[i].y
    requires found[i].x + found[i].width <= found[j].x + found[j].width
    requires found[i].y + found[i].height <= found[j].y + found[j].height
    ensures found[i] !in Filtered(found)
  {
    ContainedInIff(found[i], found[j]);
    ContainedDropped(found, i, j);
  }

  /** Because containment is not strict, a non-empty rectangle that occurs at
      two different indices contains itself and is removed at both. */
  lemma {:induction false} DuplicatesDropped(found: seq<Rect>, i: int, j: int)
    requires 0 <= i < |found| && 0 <= j < |found| && i != j
    requires found[i] == found[j] && NonEmpty(found[i])
    ensures found[i] !in Filtered(found)
  {
    ContainedInSelf(found[i]);
    forall k | 0 <= k < |found| && found[k] == found[i] ensures Dominated(found, k) {
      if k == i {
        assert ContainedIn(found[k], found[j]);
      } else {
        assert ContainedIn(found[k], found[i]);
      }
    }
    FilteredMember(found, found[i]);
  }
}
