// What the two arrays of qsufsort mean at every point of a pass.
//
// V[a] is the group of suffix a: the last position that group reaches in the
// order.  The positions themselves are ghost: P[k] is the suffix at position k
// and Q[a] the position of suffix a, because I only remembers P where a group
// still has to be split; settled positions of I hold negated run lengths.

module SortState {
  import opened Bytes
  import opened SuffixOrder

  // P and Q are inverse permutations of 0..m-1.
  ghost predicate Inverse(P: seq<int>, Q: seq<int>, m: nat) {
    |P| == |Q| == m
    && (forall k :: 0 <= k < m ==> 0 <= P[k] < m && Q[P[k]] == k)
    && (forall a :: 0 <= a < m ==> 0 <= Q[a] < m && P[Q[a]] == a)
  }

  // V never orders two suffixes wrongly, and suffixes it ties agree on h bytes.
  ghost predicate Ordered(s: seq<Byte>, V: seq<int>, h: nat) {
    |V| == |s| + 1
    && (forall a, b :: 0 <= a < |V| && 0 <= b < |V| && V[a] < V[b] ==> Less(s, a, b))
    && (forall a, b :: 0 <= a < |V| && 0 <= b < |V| && V[a] == V[b] ==> Agree(s, a, b, h))
  }

  // Groups are contiguous, in the order of their numbers, and numbered by
  // their last position.
  ghost predicate Grouped(V: seq<int>, P: seq<int>, Q: seq<int>) {
    Inverse(P, Q, |V|)
    && (forall a :: 0 <= a < |V| ==> Q[a] <= V[a] < |V| && V[P[V[a]]] == V[a])
    && (forall a, b :: 0 <= a < |V| && 0 <= b < |V| && V[a] < V[b] ==> Q[a] < Q[b])
  }

  ghost predicate Sorting(s: seq<Byte>, V: seq<int>, P: seq<int>, Q: seq<int>, h: nat) {
    Ordered(s, V, h) && Grouped(V, P, Q)
  }

  // Positions lo..hi-1 are still tied in group g, everything before lo is in
  // earlier groups, and what remains of g after hi is already known to be above.
  ghost predicate Tied(s: seq<Byte>, V: seq<int>, Q: seq<int>, h: nat, lo: int, hi: int, g: int) {
    |V| == |Q| == |s| + 1 && 0 <= lo < hi <= g + 1 <= |V|
    && (forall a {:trigger Q[a]} :: 0 <= a < |V| && lo <= Q[a] < hi ==> V[a] == g && a + h <= |s|)
    && (forall a {:trigger Q[a]} :: 0 <= a < |V| && Q[a] < lo ==> V[a] < lo)
    && (forall a {:trigger Q[a]} :: 0 <= a < |V| && lo <= Q[a] ==> g <= V[a])
    && (forall a, b {:trigger Q[a], Q[b]} ::
          0 <= a < |V| && 0 <= b < |V| && lo <= Q[a] < hi <= Q[b] && V[b] == g ==> Less(s, a, b))
  }

  // Position k is a group of its own.
  ghost predicate Single(V: seq<int>, P: seq<int>, k: int) {
    0 <= k < |P| && 0 <= P[k] < |V| && V[P[k]] == k
    && (k > 0 ==> 0 <= P[k - 1] < |V| && V[P[k - 1]] < k)
  }

  // Positions lo..hi-1 have been split by 2h bytes: ties agree on 2h bytes, and
  // I holds the suffix where there is a tie and -1 where there is none.
  ghost predicate Refined(s: seq<Byte>, I: seq<int>, V: seq<int>, P: seq<int>, Q: seq<int>, h: nat, lo: int, hi: int)
  {
    Inverse(P, Q, |V|) && |V| == |I| == |s| + 1 && 0 <= lo <= hi <= |V|
    && (forall a :: 0 <= a < |V| && lo <= Q[a] < hi ==> V[a] < hi)
    && (forall a :: 0 <= a < |V| && hi <= Q[a] ==> hi <= V[a])
    && (forall a, b :: 0 <= a < |V| && 0 <= b < |V| && lo <= Q[a] < hi && V[a] == V[b] ==> Agree(s, a, b, 2 * h))
    && (forall k :: lo <= k < hi ==>
          if I[k] < 0 then I[k] == -1 && Single(V, P, k) else I[k] == P[k] && P[k] + 2 * h <= |s|)
  }

  // P', Q' differ from P, Q only in the order of positions lo..hi-1.
  ghost predicate Shuffled(P: seq<int>, Q: seq<int>, P': seq<int>, Q': seq<int>, lo: int, hi: int) {
    Inverse(P, Q, |P|) && Inverse(P', Q', |P|) && 0 <= lo <= hi <= |P|
    && (forall k :: 0 <= k < |P| && !(lo <= k < hi) ==> P'[k] == P[k])
    && (forall a :: 0 <= a < |P| && !(lo <= Q[a] < hi) ==> Q'[a] == Q[a])
    && (forall a :: 0 <= a < |P| && lo <= Q[a] < hi ==> lo <= Q'[a] < hi)
  }

  // I and V differ from I0 and V0 only inside positions lo..hi-1.
  ghost predicate Framed(I0: seq<int>, V0: seq<int>, Q0: seq<int>, I: seq<int>, V: seq<int>, lo: int, hi: int) {
    |I0| == |I| == |V0| == |V| == |Q0|
    && (forall k :: 0 <= k < |I| && !(lo <= k < hi) ==> I[k] == I0[k])
    && (forall a :: 0 <= a < |V| && !(lo <= Q0[a] < hi) ==> V[a] == V0[a])
  }

  // The first j tied positions of lo.. leave group g and become group lo+j-1.
  ghost predicate Regrouped(V: seq<int>, V': seq<int>, Q: seq<int>, lo: int, j: int) {
    |V| == |V'| == |Q|
    && (forall a :: 0 <= a < |V| ==> V'[a] == if lo <= Q[a] < lo + j then lo + j - 1 else V[a])
  }

  // Elements at lo..lo+j-1 are below those at lo+j..hi-1 and agree on 2h bytes.
  ghost predicate Least(s: seq<Byte>, Q: seq<int>, h: nat, lo: int, j: int, hi: int) {
    |Q| == |s| + 1
    && (forall a, b :: 0 <= a < |Q| && 0 <= b < |Q| && lo <= Q[a] < lo + j <= Q[b] < hi ==> Less(s, a, b))
    && (forall a, b ::
          0 <= a < |Q| && 0 <= b < |Q| && lo <= Q[a] < lo + j && lo <= Q[b] < lo + j ==> Agree(s, a, b, 2 * h))
  }

  lemma RegroupOrdered(s: seq<Byte>, V: seq<int>, V': seq<int>, P: seq<int>, Q: seq<int>,
                       h: nat, lo: int, j: int, hi: int, g: int)
    requires Sorting(s, V, P, Q, h) && Tied(s, V, Q, h, lo, hi, g)
    requires 1 <= j && lo + j <= hi && Least(s, Q, h, lo, j, hi)
    requires Regrouped(V, V', Q, lo, j)
    ensures Ordered(s, V', h)
  {
  }

  // The new group number is not in use outside the new group.
  lemma RegroupFresh(s: seq<Byte>, V: seq<int>, P: seq<int>, Q: seq<int>, h: nat, lo: int, j: int, hi: int, g: int,
                     b: int)
    requires Grouped(V, P, Q) && Tied(s, V, Q, h, lo, hi, g)
    requires 1 <= j && lo + j <= hi
    requires 0 <= b < |V| && !(lo <= Q[b] < lo + j)
    ensures V[b] != lo + j - 1
    ensures V[b] < lo || lo + j <= V[b]
  {
  }

  lemma RegroupGrouped(s: seq<Byte>, V: seq<int>, V': seq<int>, P: seq<int>, Q: seq<int>,
                       h: nat, lo: int, j: int, hi: int, g: int)
    requires Grouped(V, P, Q) && Tied(s, V, Q, h, lo, hi, g)
    requires 1 <= j && lo + j <= hi
    requires Regrouped(V, V', Q, lo, j)
    ensures Grouped(V', P, Q)
  {
  }

  lemma RegroupRefined(s: seq<Byte>, I: seq<int>, V: seq<int>, V': seq<int>, P: seq<int>, Q: seq<int>,
                       h: nat, lo: int, j: int, hi: int, g: int)
    requires Grouped(V, P, Q) && Grouped(V', P, Q) && Tied(s, V, Q, h, lo, hi, g) && |I| == |V|
    requires 1 <= j && lo + j <= hi && Least(s, Q, h, lo, j, hi)
    requires forall k :: lo <= k < lo + j ==> I[k] == if j == 1 then -1 else P[k]
    requires Regrouped(V, V', Q, lo, j)
    ensures Refined(s, I, V', P, Q, h, lo, lo + j)
  {
    forall a, b | 0 <= a < |V| && 0 <= b < |V| && lo <= Q[a] < lo + j && V'[a] == V'[b]
      ensures Agree(s, a, b, 2 * h)
    {
      if !(lo <= Q[b] < lo + j) {
        RegroupFresh(s, V, P, Q, h, lo, j, hi, g, b);
      }
    }
    forall k | lo <= k < lo + j
      ensures if I[k] < 0 then I[k] == -1 && Single(V', P, k) else I[k] == P[k] && P[k] + 2 * h <= |s|
    {
      if j > 1 {
        var partner := P[if k == lo then lo + 1 else lo];
        assert Q[P[k]] == k && Q[partner] != k;
        assert Agree(s, P[k], partner, 2 * h);
      }
    }
  }

  lemma RegroupTied(s: seq<Byte>, V: seq<int>, V': seq<int>, P: seq<int>, Q: seq<int>,
                    h: nat, lo: int, j: int, hi: int, g: int)
    requires Grouped(V, P, Q) && Tied(s, V, Q, h, lo, hi, g)
    requires 1 <= j && lo + j < hi
    requires Regrouped(V, V', Q, lo, j)
    ensures Tied(s, V', Q, h, lo + j, hi, g)
  {
  }

  // ---- Exchanging two positions ----

  ghost function Exchange(P: seq<int>, i: int, j: int): seq<int>
    requires 0 <= i < |P| && 0 <= j < |P|
  {
    P[i := P[j]][j := P[i]]
  }

  ghost function ExchangeInverse(P: seq<int>, Q: seq<int>, i: int, j: int): seq<int>
    requires 0 <= i < |P| && 0 <= j < |P| && 0 <= P[i] < |Q| && 0 <= P[j] < |Q|
  {
    Q[P[i] := j][P[j] := i]
  }

  lemma ExchangeShuffles(P: seq<int>, Q: seq<int>, P': seq<int>, Q': seq<int>, i: int, j: int, lo: int, hi: int)
    requires Shuffled(P, Q, P', Q', lo, hi) && lo <= i < hi && lo <= j < hi
    ensures Shuffled(P, Q, Exchange(P', i, j), ExchangeInverse(P', Q', i, j), lo, hi)
  {
  }

  lemma ShuffleKeepsGroups(s: seq<Byte>, V: seq<int>, P: seq<int>, Q: seq<int>, P': seq<int>, Q': seq<int>,
                           h: nat, lo: int, hi: int, g: int)
    requires Grouped(V, P, Q) && Tied(s, V, Q, h, lo, hi, g) && Shuffled(P, Q, P', Q', lo, hi)
    ensures Grouped(V, P', Q')
  {
  }

  lemma ShuffleKeepsTie(s: seq<Byte>, V: seq<int>, P: seq<int>, Q: seq<int>, P': seq<int>, Q': seq<int>,
                        h: nat, lo: int, hi: int, g: int)
    requires Tied(s, V, Q, h, lo, hi, g) && Shuffled(P, Q, P', Q', lo, hi) && |P| == |V|
    ensures Tied(s, V, Q', h, lo, hi, g)
  {
  }

  // Keys are the groups of the h-th successors.  What they order is ordered, and
  // what they tie agrees on 2h bytes.
  lemma KeysDecide(s: seq<Byte>, V: seq<int>, h: nat, a: int, b: int)
    requires Ordered(s, V, h) && 0 <= a < |V| && 0 <= b < |V| && V[a] == V[b]
    requires a + h <= |s| && b + h <= |s|
    ensures V[a + h] < V[b + h] ==> Less(s, a, b)
    ensures V[a + h] == V[b + h] ==> Agree(s, a, b, 2 * h)
  {
    assert Agree(s, a, b, h);
    if V[a + h] < V[b + h] {
      LessByTails(s, a, b, h);
    } else if V[a + h] == V[b + h] {
      AgreeByTails(s, a, b, h, h);
    }
  }

  // Positions lo..lo+j-1 have key x, positions lo+j..hi-1 a larger one.
  ghost predicate KeySplit(V: seq<int>, P: seq<int>, h: nat, lo: int, j: int, hi: int, x: int) {
    |P| == |V| && 0 <= lo <= lo + j <= hi <= |P|
    && (forall k :: lo <= k < hi ==> 0 <= P[k] && P[k] + h < |V|)
    && (forall k :: lo <= k < lo + j ==> V[P[k] + h] == x)
    && (forall k :: lo + j <= k < hi ==> V[P[k] + h] > x)
  }

  // Positions lo..hi-1 are all in group g and have h-th successors.
  ghost predicate Level(s: seq<Byte>, V: seq<int>, Q: seq<int>, h: nat, lo: int, hi: int, g: int) {
    |V| == |Q| == |s| + 1
    && forall a {:trigger Q[a]} :: 0 <= a < |V| && lo <= Q[a] < hi ==> V[a] == g && a + h <= |s|
  }

  lemma LeastByKeys(s: seq<Byte>, V: seq<int>, P: seq<int>, Q: seq<int>, h: nat, lo: int, j: int, hi: int, g: int,
                    x: int)
    requires Ordered(s, V, h) && Level(s, V, Q, h, lo, hi, g) && Inverse(P, Q, |V|) && KeySplit(V, P, h, lo, j, hi, x)
    ensures Least(s, Q, h, lo, j, hi)
  {
    hide Ordered;
    forall a, b | 0 <= a < |V| && 0 <= b < |V| && lo <= Q[a] < lo + j && lo <= Q[b] < hi
      ensures lo + j <= Q[b] ==> Less(s, a, b)
      ensures Q[b] < lo + j ==> Agree(s, a, b, 2 * h)
    {
      assert P[Q[a]] == a && P[Q[b]] == b;
      KeysDecide(s, V, h, a, b);
    }
  }

  // ---- A split in progress ----

  // The two arrays with the order they stand for.
  datatype Snap = Snap(I: seq<int>, V: seq<int>, P: seq<int>, Q: seq<int>)

  // b differs from a only in positions lo..hi-1, and there holds the same suffixes.
  ghost predicate Within(a: Snap, b: Snap, lo: int, hi: int) {
    |a.P| == |a.I| && Shuffled(a.P, a.Q, b.P, b.Q, lo, hi) && Framed(a.I, a.V, a.Q, b.I, b.V, lo, hi)
  }

  // Positions lo..hi-1, if any, are tied in group g and readable in I.
  ghost predicate Pending(s: seq<Byte>, c: Snap, h: nat, lo: int, hi: int, g: int) {
    lo < hi ==> Tied(s, c.V, c.Q, h, lo, hi, g) && |c.I| == |c.V| == |c.P|
                && forall k :: lo <= k < hi ==> c.I[k] == c.P[k]
  }

  // From a to b, positions lo..mid-1 have been split by 2h bytes while
  // positions mid..hi-1 are still tied in group g.
  ghost predicate SplitUpTo(s: seq<Byte>, a: Snap, b: Snap, h: nat, lo: int, mid: int, hi: int, g: int) {
    Sorting(s, b.V, b.P, b.Q, h) && Within(a, b, lo, hi)
    && Refined(s, b.I, b.V, b.P, b.Q, h, lo, mid) && mid <= hi && Pending(s, b, h, mid, hi, g)
  }

  lemma WithinCompose(a: Snap, b: Snap, c: Snap, lo: int, mid: int, hi: int)
    requires lo <= mid && Within(a, b, lo, hi) && Within(b, c, mid, hi)
    ensures Within(a, c, lo, hi)
  {
  }

  lemma RefinedExtend(s: seq<Byte>, b: Snap, c: Snap, h: nat, lo: int, mid: int, mid': int, hi: int)
    requires Refined(s, b.I, b.V, b.P, b.Q, h, lo, mid) && Refined(s, c.I, c.V, c.P, c.Q, h, mid, mid')
    requires Within(b, c, mid, hi) && mid' <= hi && Grouped(c.V, c.P, c.Q)
    ensures Refined(s, c.I, c.V, c.P, c.Q, h, lo, mid')
  {
    hide Agree, Single;
    forall x, y | 0 <= x < |c.V| && 0 <= y < |c.V| && lo <= c.Q[x] < mid' && c.V[x] == c.V[y]
      ensures Agree(s, x, y, 2 * h)
    {
      TiedExtend(s, b, c, h, lo, mid, mid', hi, x, y);
    }
    SinglesExtend(s, b, c, h, lo, mid, mid', hi);
  }

  lemma TiedExtend(s: seq<Byte>, b: Snap, c: Snap, h: nat, lo: int, mid: int, mid': int, hi: int, x: int, y: int)
    requires Refined(s, b.I, b.V, b.P, b.Q, h, lo, mid) && Refined(s, c.I, c.V, c.P, c.Q, h, mid, mid')
    requires Within(b, c, mid, hi) && mid' <= hi && Grouped(c.V, c.P, c.Q)
    requires 0 <= x < |c.V| && 0 <= y < |c.V| && lo <= c.Q[x] < mid' && c.V[x] == c.V[y]
    ensures Agree(s, x, y, 2 * h)
  {
  }

  lemma SinglesExtend(s: seq<Byte>, b: Snap, c: Snap, h: nat, lo: int, mid: int, mid': int, hi: int)
    requires Refined(s, b.I, b.V, b.P, b.Q, h, lo, mid) && Refined(s, c.I, c.V, c.P, c.Q, h, mid, mid')
    requires Within(b, c, mid, hi) && mid' <= hi && Grouped(c.V, c.P, c.Q)
    ensures forall k :: lo <= k < mid' ==>
              if c.I[k] < 0 then c.I[k] == -1 && Single(c.V, c.P, k) else c.I[k] == c.P[k] && c.P[k] + 2 * h <= |s|
  {
  }

  lemma SplitsCompose(s: seq<Byte>, a: Snap, b: Snap, c: Snap, h: nat, lo: int, mid: int, mid': int, hi: int, g: int)
    requires SplitUpTo(s, a, b, h, lo, mid, hi, g) && SplitUpTo(s, b, c, h, mid, mid', hi, g)
    ensures SplitUpTo(s, a, c, h, lo, mid', hi, g)
  {
    assert lo <= mid;
    hide Ordered;
    WithinCompose(a, b, c, lo, mid, hi);
    RefinedExtend(s, b, c, h, lo, mid, mid', hi);
  }

  // Gathering the least keys, then numbering that group, is one step of a split.
  lemma GatherThenRegroup(s: seq<Byte>, a: Snap, b: Snap, c: Snap, h: nat, lo: int, j: int, hi: int, g: int, x: int)
    requires Sorting(s, a.V, a.P, a.Q, h) && Tied(s, a.V, a.Q, h, lo, hi, g)
    requires Within(a, b, lo, hi) && b.V == a.V && Pending(s, b, h, lo, hi, g)
    requires 1 <= j && KeySplit(b.V, b.P, h, lo, j, hi, x)
    requires c.P == b.P && c.Q == b.Q && Regrouped(b.V, c.V, b.Q, lo, j) && c.I == if j == 1 then b.I[lo := -1] else b.I
    ensures SplitUpTo(s, a, c, h, lo, lo + j, hi, g)
  {
    ShuffleKeepsGroups(s, a.V, a.P, a.Q, b.P, b.Q, h, lo, hi, g);
    LeastByKeys(s, b.V, b.P, b.Q, h, lo, j, hi, g, x);
    assert Within(a, c, lo, hi);
    RegroupSettles(s, b, c, h, lo, j, hi, g);
  }

  lemma RegroupSettles(s: seq<Byte>, b: Snap, c: Snap, h: nat, lo: int, j: int, hi: int, g: int)
    requires Sorting(s, b.V, b.P, b.Q, h) && lo < hi && Pending(s, b, h, lo, hi, g)
    requires 1 <= j && lo + j <= hi && Least(s, b.Q, h, lo, j, hi)
    requires c.P == b.P && c.Q == b.Q && Regrouped(b.V, c.V, b.Q, lo, j) && c.I == if j == 1 then b.I[lo := -1] else b.I
    ensures Sorting(s, c.V, c.P, c.Q, h) && Refined(s, c.I, c.V, c.P, c.Q, h, lo, lo + j)
    ensures Pending(s, c, h, lo + j, hi, g)
  {
    RegroupOrdered(s, b.V, c.V, b.P, b.Q, h, lo, j, hi, g);
    RegroupGrouped(s, b.V, c.V, b.P, b.Q, h, lo, j, hi, g);
    RegroupRefined(s, c.I, b.V, c.V, b.P, b.Q, h, lo, j, hi, g);
    if lo + j < hi {
      RegroupTied(s, b.V, c.V, b.P, b.Q, h, lo, j, hi, g);
    }
    hide Ordered, Grouped, Refined, Tied, Least, Regrouped;
  }

  // ---- Around a pivot ----

  ghost predicate ThreeKeys(V: seq<int>, P: seq<int>, h: nat, lo: int, jj: int, kk: int, hi: int, x: int) {
    |P| == |V| && 0 <= lo <= jj <= kk <= hi <= |P|
    && (forall k :: lo <= k < hi ==> 0 <= P[k] && P[k] + h < |V|)
    && (forall k :: lo <= k < jj ==> V[P[k] + h] < x)
    && (forall k :: jj <= k < kk ==> V[P[k] + h] == x)
    && (forall k :: kk <= k < hi ==> V[P[k] + h] > x)
  }

  // Everything at lo..jj-1 is below everything at jj..hi-1.
  ghost predicate Below(s: seq<Byte>, Q: seq<int>, lo: int, jj: int, hi: int) {
    |Q| == |s| + 1
    && forall a, b :: 0 <= a < |Q| && 0 <= b < |Q| && lo <= Q[a] < jj <= Q[b] < hi ==> Less(s, a, b)
  }

  lemma PivotBelow(s: seq<Byte>, c: Snap, h: nat, lo: int, jj: int, kk: int, hi: int, g: int, x: int)
    requires Ordered(s, c.V, h) && Level(s, c.V, c.Q, h, lo, hi, g) && Inverse(c.P, c.Q, |c.V|)
    requires ThreeKeys(c.V, c.P, h, lo, jj, kk, hi, x)
    ensures Below(s, c.Q, lo, jj, hi)
  {
    hide Ordered;
    forall a, b | 0 <= a < |c.Q| && 0 <= b < |c.Q| && lo <= c.Q[a] < jj <= c.Q[b] < hi
      ensures Less(s, a, b)
    {
      assert c.P[c.Q[a]] == a && c.P[c.Q[b]] == b;
      KeysDecide(s, c.V, h, a, b);
    }
  }

  // The lower part of a tie can be split on its own.
  lemma TiedLower(s: seq<Byte>, c: Snap, h: nat, lo: int, jj: int, hi: int, g: int)
    requires lo < jj <= hi && Pending(s, c, h, lo, hi, g) && Below(s, c.Q, lo, jj, hi)
    ensures Pending(s, c, h, lo, jj, g)
  {
  }

  // After that, the upper part is still tied, and its own order facts still hold.
  lemma TiedUpper(s: seq<Byte>, b: Snap, c: Snap, h: nat, lo: int, jj: int, j: int, hi: int, g: int)
    requires lo < jj < hi && Pending(s, b, h, lo, hi, g) && SplitUpTo(s, b, c, h, lo, jj, jj, g)
    requires Least(s, b.Q, h, jj, j, hi)
    ensures SplitUpTo(s, b, c, h, lo, jj, hi, g) && Least(s, c.Q, h, jj, j, hi)
  {
    hide Ordered, Grouped;
    TiedUpperPending(s, b, c, h, lo, jj, hi, g);
    hide Tied, Refined;
  }

  lemma TiedUpperPending(s: seq<Byte>, b: Snap, c: Snap, h: nat, lo: int, jj: int, hi: int, g: int)
    requires lo < jj < hi && Pending(s, b, h, lo, hi, g) && Within(b, c, lo, jj)
    requires Refined(s, c.I, c.V, c.P, c.Q, h, lo, jj)
    ensures Pending(s, c, h, jj, hi, g)
  {
  }
}
