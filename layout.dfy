/**
 * Facts about an initial layout shared by both boards: the ordered list of
 * squares holding a code, and first-match searches over sequences.
 */
module Layout {
  import opened Wrappers

  /** The indices i < n with s[i] == c, in increasing order. */
  function Occurrences(s: seq<int>, c: int, n: nat): (occ: seq<nat>)
    requires n <= |s|
    ensures |occ| <= n
    ensures forall k | 0 <= k < |occ| :: occ[k] < n && s[occ[k]] == c
  {
    if n == 0 then []
    else Occurrences(s, c, n - 1) + (if s[n - 1] == c then [n - 1] else [])
  }

  /** The non-zero codes of a layout. */
  function Codes(s: seq<int>): set<int> {
    set i | 0 <= i < |s| && s[i] != 0 :: s[i]
  }

  /** A code is among a layout's codes exactly when it is non-zero and occurs. */
  lemma CodesMembership(s: seq<int>, c: int)
    ensures c in Codes(s) <==> c != 0 && |Occurrences(s, c, |s|)| >= 1
  {
    if c in Codes(s) {
      var i :| 0 <= i < |s| && s[i] != 0 && s[i] == c;
      OccurrenceListed(s, c, |s|, i);
    }
    if c != 0 && |Occurrences(s, c, |s|)| >= 1 {
      var i := Occurrences(s, c, |s|)[0];
      assert 0 <= i < |s| && s[i] != 0;
    }
  }

  /** Every index below n holding c is listed. */
  lemma {:induction false} OccurrenceListed(s: seq<int>, c: int, n: nat, i: nat)
    requires i < n <= |s| && s[i] == c
    ensures i in Occurrences(s, c, n)
  {
    if i < n - 1 {
      OccurrenceListed(s, c, n - 1, i);
    }
  }

  /** Concatenation regroups freely. */
  lemma AppendRegroup<T>(a: seq<T>, b: seq<T>, c: seq<T>)
    ensures a + (b + c) == (a + b) + c
  {
  }

  /** A sequence of indices in strictly increasing order. */
  predicate Increasing(occ: seq<nat>) {
    forall j, k | 0 <= j < k < |occ| :: occ[j] < occ[k]
  }

  /** The occurrence list is strictly increasing and complete. */
  lemma {:induction false} OccurrencesExact(s: seq<int>, c: int, n: nat)
    requires n <= |s|
    ensures Increasing(Occurrences(s, c, n))
    ensures forall i | 0 <= i < n :: s[i] == c <==> i in Occurrences(s, c, n)
  {
    if n > 0 {
      OccurrencesExact(s, c, n - 1);
    }
  }

  /** The first index of x in s, if any. */
  function FirstIndex<T(==)>(s: seq<T>, x: T): (r: Option<nat>)
    ensures r.Some? ==> r.value < |s| && s[r.value] == x
    ensures r.Some? ==> forall j | 0 <= j < r.value :: s[j] != x
    ensures r.None? <==> x !in s
  {
    if |s| == 0 then None
    else if s[0] == x then Some(0)
    else match FirstIndex(s[1..], x)
      case None => None
      case Some(k) => Some(k + 1)
  }

  /** In a strictly increasing list the first match is the only one. */
  lemma FirstIndexOfIncreasing(occ: seq<nat>, k: nat)
    requires Increasing(occ) && k < |occ|
    ensures FirstIndex(occ, occ[k]) == Some(k)
  {
  }

  /** A code occurring once is found by a first-match scan at its one square. */
  lemma SingleOccurrenceFirst(s: seq<int>, c: int, u: nat)
    requires u < |s| && s[u] == c
    requires |Occurrences(s, c, |s|)| == 1
    ensures FirstIndex(s, c) == Some(u)
  {
    OccurrencesExact(s, c, |s|);
    var occ := Occurrences(s, c, |s|);
    var k := FirstIndex(s, c).value;
    assert k in occ && u in occ;
  }

  /** A shorter scan's occurrence list is a prefix of a longer one's. */
  lemma {:induction false} OccurrencesPrefix(s: seq<int>, c: int, m: nat, n: nat)
    requires m <= n <= |s|
    ensures Occurrences(s, c, m) <= Occurrences(s, c, n)
  {
    if m < n {
      OccurrencesPrefix(s, c, m, n - 1);
    }
  }

  /**
   * The number of earlier squares holding c is the rank of square u among
   * all the squares holding c.
   */
  lemma OccurrenceRank(s: seq<int>, u: nat)
    requires u < |s|
    ensures |Occurrences(s, s[u], u)| < |Occurrences(s, s[u], |s|)|
    ensures Occurrences(s, s[u], |s|)[|Occurrences(s, s[u], u)|] == u
  {
    OccurrencesPrefix(s, s[u], u + 1, |s|);
  }
}
