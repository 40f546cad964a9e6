/** Warnsdorff ranking of the candidate next squares: the `extCoord` record,
    the integer key of `compare`, and the sort that orders the candidates. */
module Ranking {
  import opened Geometry

  /** A candidate square with the number of onward moves from it
      (`possibleSteps`); -1 marks a slot that holds no candidate. */
  datatype Candidate = Candidate(position: Coord, possibleSteps: int)

  /** The initial value of every slot: no candidate, position zero-filled. */
  const NoCandidate: Candidate := Candidate(Coord(0, 0), -1)

  /** compare, on its integer key only: negative, zero or positive as a has
      fewer, as many or more onward moves than b. The floating-point
      tie-break on the distance from the centre is not part of this key. */
  function Compare(a: Candidate, b: Candidate): (r: int)
    ensures r < 0 <==> a.possibleSteps < b.possibleSteps
    ensures r == 0 <==> a.possibleSteps == b.possibleSteps
    ensures r > 0 <==> a.possibleSteps > b.possibleSteps
  {
    a.possibleSteps - b.possibleSteps
  }

  /** Candidates in non-decreasing order of possibleSteps; empty slots (-1)
      come first. */
  ghost predicate Sorted(s: seq<Candidate>)
  {
    forall p, q :: 0 <= p < q < |s| ==> s[p].possibleSteps <= s[q].possibleSteps
  }

  /** The qsort call: rearranges the candidates into non-decreasing order of
      possibleSteps. Candidates with equal keys may come in any order; this
      insertion sort happens to keep them in their original order. */
  method SortCandidates(a: array<Candidate>)
    modifies a
    ensures Sorted(a[..])
    ensures multiset(a[..]) == multiset(old(a[..]))
  {
    var i := 0;
    while i < a.Length
      invariant 0 <= i <= a.Length
      invariant Sorted(a[..i])
      invariant multiset(a[..]) == multiset(old(a[..]))
    {
      InsertDown(a, i);
      i := i + 1;
    }
    assert a[..a.Length] == a[..];
  }

  /** Moves a[i] down into the sorted prefix a[..i], leaving a[..i+1] sorted. */
  method InsertDown(a: array<Candidate>, i: int)
    requires 0 <= i < a.Length
    requires Sorted(a[..i])
    modifies a
    ensures Sorted(a[..i + 1])
    ensures multiset(a[..]) == multiset(old(a[..]))
  {
    var j := i;
    while j > 0 && Compare(a[j - 1], a[j]) > 0
      invariant 0 <= j <= i
      invariant multiset(a[..]) == multiset(old(a[..]))
      invariant forall p, q :: 0 <= p < q <= i && p != j && q != j ==> a[p].possibleSteps <= a[q].possibleSteps
      invariant forall q :: j < q <= i ==> a[j].possibleSteps <= a[q].possibleSteps
    {
      Swap(a, j - 1, j);
      j := j - 1;
    }
  }

  method Swap(a: array<Candidate>, p: int, q: int)
    requires 0 <= p < q < a.Length
    modifies a
    ensures a[..] == old(a[..])[p := old(a[q])][q := old(a[p])]
    ensures multiset(a[..]) == multiset(old(a[..]))
  {
    a[p], a[q] := a[q], a[p];
  }
}
