// qsufsort and split of Sparkle/bsdiff.c, on the arrays they permute and rewrite.

module SuffixSort {
  import opened Bytes
  import opened SortState
  import opened Partition

  // The loop that gives positions lo..lo+j-1 their own group number.
  method Regroup(I: array<int>, V: array<int>, lo: int, j: int, ghost P: seq<int>, ghost Q: seq<int>)
    requires I != V && I.Length == V.Length && 0 <= lo && 1 <= j && lo + j <= I.Length
    requires Inverse(P, Q, I.Length) && forall k :: lo <= k < lo + j ==> I[k] == P[k]
    modifies I, V
    ensures Regrouped(old(V[..]), V[..], Q, lo, j)
    ensures I[..] == if j == 1 then old(I[..])[lo := -1] else old(I[..])
  {
    var i := 0;
    while i < j
      invariant 0 <= i <= j
      invariant forall a :: 0 <= a < V.Length ==> V[a] == if lo <= Q[a] < lo + i then lo + j - 1 else old(V[a])
      invariant I[..] == old(I[..])
    {
      assert Q[I[lo + i]] == lo + i && P[lo + i] == I[lo + i];
      V[I[lo + i]] := lo + j - 1;
      i := i + 1;
    }
    if j == 1 {
      I[lo] := -1;
    }
  }

  ghost predicate Arrays(I: array<int>, V: array<int>) {
    I != V && I.Length == V.Length
  }

  // One round of the loop for short stretches.
  method SplitOff(I: array<int>, V: array<int>, k: int, hi: int, h: nat,
                  ghost s: seq<Byte>, ghost P: seq<int>, ghost Q: seq<int>, ghost g: int)
    returns (j: int, ghost P': seq<int>, ghost Q': seq<int>)
    requires Arrays(I, V) && k < hi
    requires Sorting(s, V[..], P, Q, h) && Pending(s, Snap(I[..], V[..], P, Q), h, k, hi, g)
    modifies I, V
    ensures 1 <= j <= hi - k
    ensures SplitUpTo(s, Snap(old(I[..]), old(V[..]), P, Q), Snap(I[..], V[..], P', Q'), h, k, k + j, hi, g)
  {
    ghost var a := Snap(I[..], V[..], P, Q);
    var x;
    SplitReadable(s, a, h, k, hi, g);
    j, x, P', Q' := SelectLeast(I, V, k, hi, h, P, Q);
    ghost var b := Snap(I[..], V[..], P', Q');
    SelectedSplit(I, V, a, b, h, k, j, hi, x, s, g);
    Regroup(I, V, k, j, P', Q');
    GatherThenRegroup(s, a, b, Snap(I[..], V[..], P', Q'), h, k, j, hi, g, x);
  }

  lemma SplitReadable(s: seq<Byte>, a: Snap, h: nat, k: int, hi: int, g: int)
    requires Sorting(s, a.V, a.P, a.Q, h) && k < hi && Pending(s, a, h, k, hi, g)
    ensures 0 <= k < hi <= |a.I| == |a.V| && Inverse(a.P, a.Q, |a.I|) && Tied(s, a.V, a.Q, h, k, hi, g)
    ensures forall p :: k <= p < hi ==> a.I[p] == a.P[p] && 0 <= a.I[p] && a.I[p] + h < |a.V|
  {
  }

  lemma SelectedSplit(I: array<int>, V: array<int>, a: Snap, b: Snap, h: nat, k: int, j: int, hi: int, x: int,
                      s: seq<Byte>, g: int)
    requires b.I == I[..] && b.V == V[..] == a.V && |a.I| == |b.I| == |a.P| == |b.P|
    requires Tied(s, a.V, a.Q, h, k, hi, g) && Shuffled(a.P, a.Q, b.P, b.Q, k, hi)
    requires forall p :: k <= p < hi ==> I[p] == b.P[p]
    requires Gathered(I, V, h, k, j, hi - k, hi, x)
    requires forall p :: 0 <= p < I.Length && !(k <= p < hi) ==> I[p] == a.I[p]
    ensures Within(a, b, k, hi) && Pending(s, b, h, k, hi, g) && KeySplit(b.V, b.P, h, k, j, hi, x)
    ensures Inverse(b.P, b.Q, |b.P|)
  {
    ShuffleKeepsTie(s, a.V, a.P, a.Q, b.P, b.Q, h, k, hi, g);
    hide Tied;
  }

  lemma SplitStart(s: seq<Byte>, a: Snap, h: nat, lo: int, hi: int, g: int)
    requires Sorting(s, a.V, a.P, a.Q, h) && lo < hi && Pending(s, a, h, lo, hi, g)
    ensures SplitUpTo(s, a, a, h, lo, lo, hi, g)
  {
  }

  lemma SplitRest(s: seq<Byte>, a: Snap, b: Snap, h: nat, lo: int, mid: int, hi: int, g: int)
    requires SplitUpTo(s, a, b, h, lo, mid, hi, g)
    ensures Sorting(s, b.V, b.P, b.Q, h) && Pending(s, b, h, mid, hi, g)
  {
  }

  // split, on stretches of fewer than 16 positions.
  method SplitShort(I: array<int>, V: array<int>, start: int, len: int, h: nat,
                    ghost s: seq<Byte>, ghost P: seq<int>, ghost Q: seq<int>, ghost g: int)
    returns (ghost P': seq<int>, ghost Q': seq<int>)
    requires Arrays(I, V) && 0 < len
    requires Sorting(s, V[..], P, Q, h) && Pending(s, Snap(I[..], V[..], P, Q), h, start, start + len, g)
    modifies I, V
    ensures SplitUpTo(s, Snap(old(I[..]), old(V[..]), P, Q), Snap(I[..], V[..], P', Q'), h, start, start + len,
                      start + len, g)
  {
    hide SplitUpTo, Sorting, Pending;
    P', Q' := P, Q;
    ghost var a := Snap(I[..], V[..], P, Q);
    SplitStart(s, a, h, start, start + len, g);
    var k := start;
    while k < start + len
      invariant start <= k <= start + len
      invariant SplitUpTo(s, a, Snap(I[..], V[..], P', Q'), h, start, k, start + len, g)
    {
      ghost var b := Snap(I[..], V[..], P', Q');
      SplitRest(s, a, b, h, start, k, start + len, g);
      var j;
      j, P', Q' := SplitOff(I, V, k, start + len, h, s, P', Q', g);
      SplitsCompose(s, a, b, Snap(I[..], V[..], P', Q'), h, start, k, k + j, start + len, g);
      k := k + j;
    }
  }

  // What the three-way partition leaves to be done.
  lemma PivotSplit(I: array<int>, V: array<int>, s: seq<Byte>, a: Snap, b: Snap, h: nat,
                   lo: int, jj: int, kk: int, hi: int, g: int, x: int)
    requires Sorting(s, a.V, a.P, a.Q, h) && lo < hi && Pending(s, a, h, lo, hi, g)
    requires b.I == I[..] && b.V == V[..] == a.V && |a.I| == |b.I| && jj < kk
    requires Shuffled(a.P, a.Q, b.P, b.Q, lo, hi) && Holds(I, b.P, lo, hi)
    requires ThreeParts(I, V, h, lo, jj, kk, hi, x)
    requires forall p :: 0 <= p < I.Length && !(lo <= p < hi) ==> I[p] == a.I[p]
    ensures SplitUpTo(s, a, b, h, lo, lo, hi, g)
    ensures Below(s, b.Q, lo, jj, hi) && Least(s, b.Q, h, jj, kk - jj, hi)
  {
    hide Shuffled, Refined, Within, Tied, Grouped, Ordered, ThreeKeys, KeySplit, Level, Below, Least;
    SplitReadable(s, a, h, lo, hi, g);
    PartsAreKeys(I, V, b, h, lo, jj, kk, hi, x);
    PivotTie(s, a, b, h, lo, hi, g);
    LevelUpper(s, b, h, lo, jj, hi, g);
    PivotBelow(s, b, h, lo, jj, kk, hi, g, x);
    LeastByKeys(s, b.V, b.P, b.Q, h, jj, kk - jj, hi, g, x);
  }

  lemma PartsAreKeys(I: array<int>, V: array<int>, b: Snap, h: nat, lo: int, jj: int, kk: int, hi: int, x: int)
    requires b.V == V[..] && Holds(I, b.P, lo, hi) && ThreeParts(I, V, h, lo, jj, kk, hi, x)
    ensures ThreeKeys(b.V, b.P, h, lo, jj, kk, hi, x) && KeySplit(b.V, b.P, h, jj, kk - jj, hi, x)
  {
  }

  lemma LevelUpper(s: seq<Byte>, b: Snap, h: nat, lo: int, jj: int, hi: int, g: int)
    requires Level(s, b.V, b.Q, h, lo, hi, g) && lo <= jj
    ensures Level(s, b.V, b.Q, h, jj, hi, g)
  {
  }

  lemma PivotTie(s: seq<Byte>, a: Snap, b: Snap, h: nat, lo: int, hi: int, g: int)
    requires Sorting(s, a.V, a.P, a.Q, h) && lo < hi && Pending(s, a, h, lo, hi, g)
    requires b.V == a.V && |a.I| == |b.I| && Shuffled(a.P, a.Q, b.P, b.Q, lo, hi)
    requires forall p :: lo <= p < hi ==> b.I[p] == b.P[p]
    requires forall p :: 0 <= p < |b.I| && !(lo <= p < hi) ==> b.I[p] == a.I[p]
    ensures SplitUpTo(s, a, b, h, lo, lo, hi, g) && Level(s, b.V, b.Q, h, lo, hi, g)
    ensures Ordered(s, b.V, h) && Inverse(b.P, b.Q, |b.V|)
  {
    ShuffleKeepsGroups(s, a.V, a.P, a.Q, b.P, b.Q, h, lo, hi, g);
    ShuffleKeepsTie(s, a.V, a.P, a.Q, b.P, b.Q, h, lo, hi, g);
    assert forall k :: 0 <= k < lo ==> b.Q[b.P[k]] == k;
    hide Ordered;
  }

  // The positions with the pivot key, which become one group.
  method SplitMiddle(I: array<int>, V: array<int>, ghost s: seq<Byte>, ghost a: Snap, ghost P: seq<int>,
                     ghost Q: seq<int>, h: nat, ghost lo: int, jj: int, kk: int, ghost hi: int, ghost g: int)
    returns (ghost d: Snap)
    requires Arrays(I, V) && jj < kk <= hi && SplitUpTo(s, a, Snap(I[..], V[..], P, Q), h, lo, jj, hi, g)
    requires Least(s, Q, h, jj, kk - jj, hi)
    modifies I, V
    ensures d == Snap(I[..], V[..], P, Q) && SplitUpTo(s, a, d, h, lo, kk, hi, g)
  {
    hide Sorting, Pending, SplitUpTo, Least, Tied, Inverse, Regrouped;
    ghost var c := Snap(I[..], V[..], P, Q);
    SplitRest(s, a, c, h, lo, jj, hi, g);
    SplitReadable(s, c, h, jj, hi, g);
    Regroup(I, V, jj, kk - jj, P, Q);
    d := Snap(I[..], V[..], P, Q);
    RegroupSplits(s, c, d, h, jj, kk - jj, hi, g);
    SplitsCompose(s, a, c, d, h, lo, jj, kk, hi, g);
  }

  // split: refines the tied stretch start..start+len-1 from h to 2h bytes.
  method Split(I: array<int>, V: array<int>, start: int, len: int, h: nat,
               ghost s: seq<Byte>, ghost P: seq<int>, ghost Q: seq<int>, ghost g: int)
    returns (ghost P': seq<int>, ghost Q': seq<int>)
    requires Arrays(I, V) && 0 < len
    requires Sorting(s, V[..], P, Q, h) && Pending(s, Snap(I[..], V[..], P, Q), h, start, start + len, g)
    modifies I, V
    ensures SplitUpTo(s, Snap(old(I[..]), old(V[..]), P, Q), Snap(I[..], V[..], P', Q'), h, start, start + len,
                      start + len, g)
    decreases len
  {
    hide Sorting, Pending, SplitUpTo, Shuffled, ThreeParts, Below, Least, Tied, Inverse, Regrouped;
    ghost var a := Snap(I[..], V[..], P, Q);
    ghost var hi := start + len;
    if len < 16 {
      P', Q' := SplitShort(I, V, start, len, h, s, P, Q, g);
      return;
    }
    SplitReadable(s, a, h, start, hi, g);
    var jj, kk, x;
    jj, kk, x, P', Q' := ThreeWay(I, V, start, len, h, P, Q);
    ghost var b := Snap(I[..], V[..], P', Q');
    PivotSplit(I, V, s, a, b, h, start, jj, kk, hi, g, x);
    if jj > start {
      SplitRest(s, a, b, h, start, start, hi, g);
      TiedLower(s, b, h, start, jj, hi, g);
      P', Q' := Split(I, V, start, jj - start, h, s, P', Q', g);
      TiedUpper(s, b, Snap(I[..], V[..], P', Q'), h, start, jj, kk - jj, hi, g);
      SplitsCompose(s, a, b, Snap(I[..], V[..], P', Q'), h, start, start, jj, hi, g);
    }
    ghost var d := SplitMiddle(I, V, s, a, P', Q', h, start, jj, kk, hi, g);
    if start + len > kk {
      SplitRest(s, a, d, h, start, kk, hi, g);
      P', Q' := Split(I, V, kk, start + len - kk, h, s, P', Q', g);
      SplitsCompose(s, a, d, Snap(I[..], V[..], P', Q'), h, start, kk, hi, hi, g);
    }
  }

  lemma RegroupSplits(s: seq<Byte>, c: Snap, d: Snap, h: nat, lo: int, j: int, hi: int, g: int)
    requires Sorting(s, c.V, c.P, c.Q, h) && lo < hi && Pending(s, c, h, lo, hi, g)
    requires 1 <= j && lo + j <= hi && Least(s, c.Q, h, lo, j, hi)
    requires d.P == c.P && d.Q == c.Q && Regrouped(c.V, d.V, c.Q, lo, j) && d.I == if j == 1 then c.I[lo := -1] else c.I
    ensures SplitUpTo(s, c, d, h, lo, lo + j, hi, g)
  {
    RegroupSettles(s, c, d, h, lo, j, hi, g);
    hide Ordered, Refined, Least;
  }
}
