// One pass of qsufsort: from h to 2h bytes over all groups, skipping over and
// merging the stretches that are already settled.

module SortPass {
  import opened Bytes
  import opened SuffixOrder
  import opened SortState
  import opened SuffixSort

  // Positions lo..hi-1 are settled: single groups that I no longer names.
  ghost predicate Settled(I: seq<int>, V: seq<int>, P: seq<int>, lo: int, hi: int) {
    0 <= lo <= hi <= |I| && forall m :: lo <= m < hi ==> I[m] < 0 && Single(V, P, m)
  }

  // A negative entry tells how far a settled stretch reaches at least.
  ghost predicate Run(I: seq<int>, V: seq<int>, P: seq<int>, k: int)
    requires 0 <= k < |I|
  {
    I[k] < 0 ==> Settled(I, V, P, k, k - I[k])
  }

  // Everything below i is split by 2h bytes, the rest by h; i is a group boundary.
  ghost predicate Scanned(s: seq<Byte>, c: Snap, h: nat, i: int) {
    Sorting(s, c.V, c.P, c.Q, h) && |c.I| == |c.V| == |s| + 1 && 0 <= i <= |c.I|
    && (forall k :: 0 <= k < |c.I| ==> Run(c.I, c.V, c.P, k))
    && (forall k :: 0 <= k < |c.I| && c.I[k] >= 0 ==>
          c.I[k] == c.P[k] && c.P[k] + (if k < i then 2 * h else h) <= |s|)
    && (forall a {:trigger c.Q[a]} :: 0 <= a < |c.V| && c.Q[a] < i ==> c.V[a] < i)
    && (forall a, b {:trigger c.Q[a], c.V[b]} ::
          0 <= a < |c.V| && 0 <= b < |c.V| && c.Q[a] < i && c.V[a] == c.V[b] ==> Agree(s, a, b, 2 * h))
  }

  lemma SingleIsAlone(V: seq<int>, P: seq<int>, Q: seq<int>, m: int, b: int)
    requires Grouped(V, P, Q) && 0 <= m < |V| && Single(V, P, m) && 0 <= b < |V| && V[b] == m
    ensures b == P[m]
  {
  }

  // Skipping a settled stretch.
  lemma ScanRun(s: seq<Byte>, c: Snap, h: nat, i: int)
    requires Scanned(s, c, h, i) && i < |c.I| && c.I[i] < 0
    ensures Scanned(s, c, h, i - c.I[i]) && Settled(c.I, c.V, c.P, i, i - c.I[i])
  {
    hide Ordered, Grouped;
    assert Run(c.I, c.V, c.P, i);
    SettledAlone(s, c, h, i, i - c.I[i]);
    hide Single, Run;
  }

  lemma SettledAlone(s: seq<Byte>, c: Snap, h: nat, lo: int, hi: int)
    requires Grouped(c.V, c.P, c.Q) && |c.I| == |c.V| && Settled(c.I, c.V, c.P, lo, hi)
    ensures forall a {:trigger c.Q[a]} :: 0 <= a < |c.V| && lo <= c.Q[a] < hi ==> c.V[a] < hi
    ensures forall a, b {:trigger c.Q[a], c.V[b]} ::
              0 <= a < |c.V| && 0 <= b < |c.V| && lo <= c.Q[a] < hi && c.V[a] == c.V[b] ==> a == b
  {
    forall a | 0 <= a < |c.V| && lo <= c.Q[a] < hi
      ensures c.V[a] < hi && forall b :: 0 <= b < |c.V| && c.V[a] == c.V[b] ==> a == b
    {
      assert Single(c.V, c.P, c.Q[a]) && c.P[c.Q[a]] == a;
      forall b | 0 <= b < |c.V| && c.V[a] == c.V[b]
        ensures a == b
      {
        SingleIsAlone(c.V, c.P, c.Q, c.Q[a], b);
      }
    }
  }

  // Recording a longer run of settled entries at its start disturbs nothing.
  lemma ScanRecord(s: seq<Byte>, c: Snap, c': Snap, h: nat, i: int, lo: int, hi: int)
    requires Scanned(s, c, h, i) && lo < hi && Settled(c.I, c.V, c.P, lo, hi)
    requires c' == c.(I := c.I[lo := lo - hi])
    ensures Scanned(s, c', h, i)
  {
    hide Ordered;
    forall k | 0 <= k < |c.I|
      ensures Run(c'.I, c.V, c.P, k)
    {
      assert Run(c.I, c.V, c.P, k);
    }
  }

  // Positions of an unsettled group are all in that group, and I still names them.
  lemma GroupIsOpen(s: seq<Byte>, c: Snap, h: nat, i: int, k: int)
    requires Scanned(s, c, h, i) && i < |c.I| && c.I[i] >= 0
    requires i <= k <= c.V[c.P[i]]
    ensures c.V[c.P[k]] == c.V[c.P[i]] && c.I[k] == c.P[k] && c.P[k] + h <= |s|
  {
    hide Ordered;
    var g := c.V[c.P[i]];
    assert c.Q[c.P[k]] == k && c.Q[c.P[i]] == i && c.Q[c.P[g]] == g && c.V[c.P[g]] == g;
    assert Run(c.I, c.V, c.P, k);
    if i < k {
      assert c.Q[c.P[k - 1]] == k - 1 && c.V[c.P[k - 1]] == g;
    }
  }

  // A group met during the scan is tied and can be split.
  lemma ScanGroup(s: seq<Byte>, c: Snap, h: nat, i: int)
    requires Scanned(s, c, h, i) && i < |c.I| && c.I[i] >= 0
    ensures 0 <= c.I[i] < |c.V| && i <= c.V[c.I[i]] < |c.V|
    ensures Pending(s, c, h, i, c.V[c.I[i]] + 1, c.V[c.I[i]])
  {
    hide Ordered, Run;
    var g := c.V[c.P[i]];
    forall k | i <= k <= g
      ensures c.V[c.P[k]] == g && c.I[k] == c.P[k] && c.P[k] + h <= |s|
    {
      GroupIsOpen(s, c, h, i, k);
    }
    forall a | 0 <= a < |c.V|
      ensures i <= c.Q[a] <= g ==> c.V[a] == g && a + h <= |s|
      ensures i <= c.Q[a] ==> g <= c.V[a]
    {
      assert c.P[c.Q[a]] == a && c.Q[c.P[i]] == i;
    }
  }

  lemma RunsSurvive(s: seq<Byte>, b: Snap, c: Snap, h: nat, i: int, hi: int, k: int)
    requires |b.V| == |s| + 1 && Within(b, c, i, hi) && Refined(s, c.I, c.V, c.P, c.Q, h, i, hi) && i < hi <= |b.I|
    requires forall m :: i <= m < hi ==> b.I[m] >= 0
    requires 0 <= k < |b.I| && Run(b.I, b.V, b.P, k)
    ensures Run(c.I, c.V, c.P, k)
  {
    hide Within, Refined;
    SplitEntries(s, b, c, h, i, hi);
    if i <= k < hi {
      if c.I[k] < 0 { assert c.I[k] == -1 && Single(c.V, c.P, k); }
    } else if b.I[k] < 0 {
      forall m | k <= m < k - b.I[k]
        ensures c.I[m] < 0 && Single(c.V, c.P, m)
      {
        assert b.I[m] < 0 && Single(b.V, b.P, m);
        RunMember(s, b, c, h, i, hi, m);
      }
    }
  }

  lemma SplitEntries(s: seq<Byte>, b: Snap, c: Snap, h: nat, i: int, hi: int)
    requires Within(b, c, i, hi) && Refined(s, c.I, c.V, c.P, c.Q, h, i, hi)
    ensures |c.I| == |b.I| && 0 <= i <= hi <= |c.I|
    ensures forall k :: i <= k < hi && c.I[k] < 0 ==> c.I[k] == -1 && Single(c.V, c.P, k)
    ensures forall k :: 0 <= k < |b.I| && !(i <= k < hi) ==> c.I[k] == b.I[k]
  {
    hide Single;
  }

  lemma RunMember(s: seq<Byte>, b: Snap, c: Snap, h: nat, i: int, hi: int, m: int)
    requires |b.V| == |s| + 1 && Within(b, c, i, hi) && Refined(s, c.I, c.V, c.P, c.Q, h, i, hi)
    requires 0 <= m < |b.I| && !(i <= m < hi) && Single(b.V, b.P, m)
    ensures Single(c.V, c.P, m)
  {
  }

  // Splitting the group at i moves the scan past it.
  lemma ScanSplit(s: seq<Byte>, b: Snap, c: Snap, h: nat, i: int, hi: int, g: int)
    requires Scanned(s, b, h, i) && i < hi <= |b.I| && Pending(s, b, h, i, hi, g)
    requires SplitUpTo(s, b, c, h, i, hi, hi, g)
    ensures Scanned(s, c, h, hi)
  {
    hide Ordered;
    forall k | 0 <= k < |c.I|
      ensures Run(c.I, c.V, c.P, k)
    {
      assert Run(b.I, b.V, b.P, k);
      RunsSurvive(s, b, c, h, i, hi, k);
    }
    ScanSplitTies(s, b, c, h, i, hi, g);
    hide Tied, Run;
  }

  lemma ScanSplitTies(s: seq<Byte>, b: Snap, c: Snap, h: nat, i: int, hi: int, g: int)
    requires Scanned(s, b, h, i) && i < hi <= |b.I| && SplitUpTo(s, b, c, h, i, hi, hi, g)
    ensures forall x {:trigger c.Q[x]} :: 0 <= x < |c.V| && c.Q[x] < hi ==> c.V[x] < hi
    ensures forall x, y {:trigger c.Q[x], c.V[y]} ::
              0 <= x < |c.V| && 0 <= y < |c.V| && c.Q[x] < hi && c.V[x] == c.V[y] ==> Agree(s, x, y, 2 * h)
  {
  }

  lemma SettledJoin(c: Snap, lo: int, mid: int, hi: int)
    requires Settled(c.I, c.V, c.P, lo, mid) && Settled(c.I, c.V, c.P, mid, hi)
    ensures Settled(c.I, c.V, c.P, lo, hi)
  {
  }

  lemma ScanShape(s: seq<Byte>, c: Snap, h: nat, i: int)
    requires Scanned(s, c, h, i)
    ensures Sorting(s, c.V, c.P, c.Q, h) && |c.I| == |c.V| == |c.P| == |c.Q| == |s| + 1 && 0 <= i <= |c.I|
    ensures forall k :: 0 <= k < |c.P| ==> 0 <= c.P[k] < |c.V|
    ensures h > |s| && i < |c.I| ==> c.I[i] < 0
  {
  }

  lemma SettledNone(c: Snap, i: int)
    requires 0 <= i <= |c.I|
    ensures Settled(c.I, c.V, c.P, i, i)
  {
  }

  // A finished pass is ready for the next one, at twice the depth.
  lemma ScanNext(s: seq<Byte>, c: Snap, h: nat)
    requires Scanned(s, c, h, |c.I|)
    ensures Scanned(s, c, 2 * h, 0)
  {
  }

  // The unsettled branch of the pass.
  method PassGroup(I: array<int>, V: array<int>, h: nat, i: int, ghost s: seq<Byte>, ghost P: seq<int>,
                   ghost Q: seq<int>)
    returns (len: int, ghost P': seq<int>, ghost Q': seq<int>)
    requires Arrays(I, V) && Scanned(s, Snap(I[..], V[..], P, Q), h, i) && i < I.Length && I[i] >= 0
    modifies I, V
    ensures 0 < len <= I.Length - i && Scanned(s, Snap(I[..], V[..], P', Q'), h, i + len)
  {
    hide Scanned, Sorting, Pending, SplitUpTo;
    ghost var b := Snap(I[..], V[..], P, Q);
    ScanShape(s, b, h, i);
    ScanGroup(s, b, h, i);
    ghost var g := V[I[i]];
    len := V[I[i]] + 1 - i;
    P', Q' := Split(I, V, i, len, h, s, P, Q, g);
    ScanSplit(s, b, Snap(I[..], V[..], P', Q'), h, i, i + len, g);
  }

  // The body of qsufsort's outer loop.
  method Pass(I: array<int>, V: array<int>, h: nat, ghost s: seq<Byte>, ghost P: seq<int>, ghost Q: seq<int>)
    returns (ghost P': seq<int>, ghost Q': seq<int>)
    requires Arrays(I, V) && Scanned(s, Snap(I[..], V[..], P, Q), h, 0)
    modifies I, V
    ensures Scanned(s, Snap(I[..], V[..], P', Q'), 2 * h, 0)
    ensures h > |s| ==> 0 < I.Length && I[0] == -I.Length
  {
    hide Scanned, Sorting, Pending, SplitUpTo, Settled;
    P', Q' := P, Q;
    var len, i := 0, 0;
    ScanShape(s, Snap(I[..], V[..], P, Q), h, 0);
    SettledNone(Snap(I[..], V[..], P, Q), 0);
    while i < I.Length
      invariant 0 <= len <= i <= I.Length && (h > |s| ==> len == i)
      invariant Scanned(s, Snap(I[..], V[..], P', Q'), h, i)
      invariant Settled(I[..], V[..], P', i - len, i)
    {
      ghost var c := Snap(I[..], V[..], P', Q');
      ScanShape(s, c, h, i);
      if I[i] < 0 {
        ScanRun(s, c, h, i);
        ScanShape(s, c, h, i - I[i]);
        SettledJoin(c, i - len, i, i - I[i]);
        len := len - I[i];
        i := i - I[i];
      } else {
        if len != 0 {
          ScanRecord(s, c, c.(I := c.I[i - len := -len]), h, i, i - len, i);
          I[i - len] := -len;
        }
        c := Snap(I[..], V[..], P', Q');
        len, P', Q' := PassGroup(I, V, h, i, s, P', Q');
        i := i + len;
        len := 0;
        SettledNone(Snap(I[..], V[..], P', Q'), i);
      }
    }
    if len != 0 {
      ghost var c := Snap(I[..], V[..], P', Q');
      ScanRecord(s, c, c.(I := c.I[i - len := -len]), h, i, i - len, i);
      I[i - len] := -len;
    }
    ScanNext(s, Snap(I[..], V[..], P', Q'), h);
  }
}
