// qsufsort of Sparkle/bsdiff.c as a whole.

module SuffixArrays {
  import opened Bytes
  import opened SuffixOrder
  import opened SortState
  import opened SortPass
  import opened Buckets

  // I lists every suffix of s, the empty one included, in strictly increasing order.
  ghost predicate SuffixArray(s: seq<Byte>, I: seq<int>) {
    |I| == |s| + 1
    && (forall k :: 0 <= k < |I| ==> 0 <= I[k] <= |s|)
    && (forall a :: 0 <= a <= |s| ==> a in I)
    && (forall j, k :: 0 <= j < k < |I| ==> Less(s, I[j], I[k]))
  }

  // The outer loop's exit test is right: one run of -(n + 1) means all settled.
  lemma AllSettled(s: seq<Byte>, c: Snap, h: nat)
    requires Scanned(s, c, h, 0) && c.I[0] == -(|s| + 1)
    ensures Inverse(c.P, c.Q, |s| + 1) && |c.V| == |s| + 1
    ensures forall a :: 0 <= a <= |s| ==> c.V[a] == c.Q[a]
    ensures forall j, k :: 0 <= j < k <= |s| ==> Less(s, c.P[j], c.P[k])
  {
    assert Run(c.I, c.V, c.P, 0);
    forall a | 0 <= a <= |s|
      ensures c.V[a] == c.Q[a]
    {
      assert Single(c.V, c.P, c.Q[a]) && c.P[c.Q[a]] == a;
    }
    forall j, k | 0 <= j < k <= |s|
      ensures Less(s, c.P[j], c.P[k])
    {
      assert c.V[c.P[j]] == j && c.V[c.P[k]] == k;
    }
  }

  lemma ListedIsSuffixArray(s: seq<Byte>, I: seq<int>, P: seq<int>, Q: seq<int>)
    requires Inverse(P, Q, |s| + 1) && |I| == |P| && forall a :: 0 <= a <= |s| ==> I[Q[a]] == a
    requires forall j, k :: 0 <= j < k <= |s| ==> Less(s, P[j], P[k])
    ensures SuffixArray(s, I)
  {
    forall k | 0 <= k <= |s|
      ensures I[k] == P[k]
    {
      assert Q[P[k]] == k;
    }
    forall a | 0 <= a <= |s|
      ensures a in I
    {
      assert I[Q[a]] == a;
    }
  }

  // There is only one.
  lemma {:induction false} SuffixArrayUnique(s: seq<Byte>, I: seq<int>, J: seq<int>, k: nat)
    requires SuffixArray(s, I) && SuffixArray(s, J) && k <= |s| + 1
    ensures I[..k] == J[..k]
  {
    if k > 0 {
      SuffixArrayUnique(s, I, J, k - 1);
      NotBelow(s, I, J, k - 1);
      NotBelow(s, J, I, k - 1);
      if I[k - 1] != J[k - 1] { LessTotal(s, I[k - 1], J[k - 1]); }
      assert I[..k] == I[..k - 1] + [I[k - 1]] && J[..k] == J[..k - 1] + [J[k - 1]];
    }
  }

  lemma NotBelow(s: seq<Byte>, I: seq<int>, J: seq<int>, k: nat)
    requires SuffixArray(s, I) && SuffixArray(s, J) && k <= |s| && I[..k] == J[..k]
    ensures !Less(s, I[k], J[k])
  {
    hide Less;
    assert I[k] in J;
    var j :| 0 <= j < |J| && J[j] == I[k];
    if j < k {
      assert I[j] == I[..k][j] == J[..k][j] == I[k];
      LessIrreflexive(s, I[k]);
    } else if Less(s, I[k], J[k]) {
      LessIrreflexive(s, J[k]);
      if j > k { LessTransitive(s, J[k], J[j], J[k]); }
    }
  }

  method QSufSort(I: array<int>, V: array<int>, source: seq<Byte>)
    requires I != V && I.Length == V.Length == |source| + 1
    modifies I, V
    ensures SuffixArray(source, I[..])
  {
    hide Scanned, Inverse;
    ghost var P, Q := FirstOrder(I, V, source);
    var h: nat := 1;
    while I[0] != -(|source| + 1)
      invariant 1 <= h && Scanned(source, Snap(I[..], V[..], P, Q), h, 0)
      invariant h > 2 * |source| + 1 ==> I[0] == -(|source| + 1)
      decreases 4 * |source| + 4 - h
    {
      P, Q := Pass(I, V, h, source, P, Q);
      h := h + h;
    }
    AllSettled(source, Snap(I[..], V[..], P, Q), h);
    InverseRanges(P, Q, |source| + 1);
    ghost var N := V[..];
    var i := 0;
    while i < |source| + 1
      invariant 0 <= i <= |source| + 1 && V[..] == N
      invariant forall a :: 0 <= a < i ==> I[Q[a]] == a
    {
      I[V[i]] := i;
      i := i + 1;
    }
    ListedIsSuffixArray(source, I[..], P, Q);
  }

  lemma InverseRanges(P: seq<int>, Q: seq<int>, m: nat)
    requires Inverse(P, Q, m)
    ensures |P| == |Q| == m && forall a :: 0 <= a < m ==> 0 <= Q[a] < m
    ensures forall a, b :: 0 <= a < b < m ==> Q[a] != Q[b]
  {
  }
}
