// The two in-place rearrangements of split in Sparkle/bsdiff.c.  Both only move
// suffixes of positions lo..hi-1 of I around; the key of suffix I[p] is V[I[p] + h].

module Partition {
  import opened SortState

  // Exchanges two entries of I.
  method Swap(I: array<int>, i: int, j: int, ghost P0: seq<int>, ghost Q0: seq<int>, ghost P: seq<int>,
              ghost Q: seq<int>, ghost lo: int, ghost hi: int)
    returns (ghost P': seq<int>, ghost Q': seq<int>)
    requires |P| == |P0| == I.Length && Shuffled(P0, Q0, P, Q, lo, hi)
    requires lo <= i < hi && lo <= j < hi
    requires forall k :: lo <= k < hi ==> I[k] == P[k]
    modifies I
    ensures I[i] == old(I[j]) && I[j] == old(I[i])
    ensures forall k :: 0 <= k < I.Length && k != i && k != j ==> I[k] == old(I[k])
    ensures Shuffled(P0, Q0, P', Q', lo, hi) && |P'| == |P|
    ensures forall k :: lo <= k < hi ==> I[k] == P'[k]
  {
    ExchangeShuffles(P0, Q0, P, Q, i, j, lo, hi);
    P', Q' := Exchange(P, i, j), ExchangeInverse(P, Q, i, j);
    I[i], I[j] := I[j], I[i];
  }

  // Positions k..k+j-1 have key x, positions up to k+i-1 a larger one.
  ghost predicate Gathered(I: array<int>, V: array<int>, h: nat, k: int, j: int, i: int, hi: int, x: int)
    reads I, V
  {
    0 <= k && 0 <= j <= i && k + i <= hi <= I.Length == V.Length
    && (forall p :: k <= p < hi ==> 0 <= I[p] && I[p] + h < V.Length)
    && (forall p :: k <= p < k + j ==> V[I[p] + h] == x)
    && (forall p :: k + j <= p < k + i ==> V[I[p] + h] > x)
  }

  method SelectStep(I: array<int>, V: array<int>, k: int, hi: int, h: nat, i: int, j: int, x: int,
                    ghost P0: seq<int>, ghost Q0: seq<int>, ghost P: seq<int>, ghost Q: seq<int>)
    returns (j': int, x': int, ghost P': seq<int>, ghost Q': seq<int>)
    requires I != V && |P| == |P0| == I.Length && k + i < hi && Shuffled(P0, Q0, P, Q, k, hi)
    requires forall p :: k <= p < hi ==> I[p] == P[p]
    requires Gathered(I, V, h, k, j, i, hi, x)
    modifies I
    ensures j > 0 ==> j' > 0
    ensures |P'| == I.Length && Shuffled(P0, Q0, P', Q', k, hi)
    ensures forall p :: k <= p < hi ==> I[p] == P'[p]
    ensures Gathered(I, V, h, k, j', i + 1, hi, x')
    ensures forall p :: 0 <= p < I.Length && !(k <= p < hi) ==> I[p] == old(I[p])
  {
    hide Shuffled;
    j', x', P', Q' := j, x, P, Q;
    var key := V[I[k + i] + h];
    if key < x' {
      j', x' := 0, key;
    }
    if key == x' {
      P', Q' := Swap(I, k + j', k + i, P0, Q0, P, Q, k, hi);
      j' := j' + 1;
    }
  }
  // The inner loop for short stretches: gathers the j positions with the least
  // key at k..k+j-1, restarting whenever a smaller key turns up.
  method SelectLeast(I: array<int>, V: array<int>, k: int, hi: int, h: nat, ghost P: seq<int>, ghost Q: seq<int>)
    returns (j: int, x: int, ghost P': seq<int>, ghost Q': seq<int>)
    requires I != V && I.Length == V.Length && 0 <= k < hi <= I.Length
    requires Inverse(P, Q, I.Length) && forall p :: k <= p < hi ==> I[p] == P[p] && I[p] + h < V.Length
    modifies I
    ensures 1 <= j <= hi - k
    ensures |P'| == I.Length && Shuffled(P, Q, P', Q', k, hi)
    ensures forall p :: k <= p < hi ==> I[p] == P'[p]
    ensures Gathered(I, V, h, k, j, hi - k, hi, x)
    ensures forall p :: 0 <= p < I.Length && !(k <= p < hi) ==> I[p] == old(I[p])
  {
    P', Q', j := P, Q, 1;
    x := V[I[k] + h];
    var i := 1;
    while k + i < hi
      invariant 1 <= j <= i <= hi - k
      invariant |P'| == I.Length && Shuffled(P, Q, P', Q', k, hi)
      invariant forall p :: k <= p < hi ==> I[p] == P'[p]
      invariant Gathered(I, V, h, k, j, i, hi, x)
      invariant forall p :: 0 <= p < I.Length && !(k <= p < hi) ==> I[p] == old(I[p])
    {
      j, x, P', Q' := SelectStep(I, V, k, hi, h, i, j, x, P, Q, P', Q');
      i := i + 1;
    }
  }

  // ---- Three-way partition around a pivot key x ----

  ghost function Class(key: int, x: int): int {
    if key < x then 0 else if key == x then 1 else 2
  }

  ghost predicate InRange(I: array<int>, V: array<int>, h: nat, lo: int, hi: int)
    reads I
  {
    0 <= lo <= hi <= I.Length == V.Length && forall p :: lo <= p < hi ==> 0 <= I[p] && I[p] + h < V.Length
  }

  ghost function Classes(I: array<int>, V: array<int>, h: nat, lo: int, hi: int, x: int): (C: seq<int>)
    requires InRange(I, V, h, lo, hi)
    reads I, V
    ensures |C| == hi - lo && forall q :: 0 <= q < |C| ==> C[q] == Class(V[I[lo + q] + h], x)
  {
    seq(hi - lo, i requires 0 <= i < hi - lo && InRange(I, V, h, lo, hi) reads I, V => Class(V[I[lo + i] + h], x))
  }

  ghost function Tally(C: seq<int>, i: nat, c: int): nat
    requires i <= |C|
  {
    multiset(C[..i])[c]
  }

  lemma TallyEnds(C: seq<int>, c: int)
    ensures Tally(C, 0, c) == 0 && Tally(C, |C|, c) == multiset(C)[c]
  {
    assert C[..|C|] == C;
  }

  lemma TallyStep(C: seq<int>, i: nat, c: int)
    requires i < |C|
    ensures Tally(C, i + 1, c) == Tally(C, i, c) + if c == C[i] then 1 else 0
  {
    assert C[..i + 1] == C[..i] + [C[i]];
  }

  // The counting loop: jj and kk are where the keys equal to x will start and end.
  method CountKeys(I: array<int>, V: array<int>, h: nat, start: int, len: int, x: int) returns (jj: int, kk: int)
    requires 0 <= len && InRange(I, V, h, start, start + len)
    ensures var C := multiset(Classes(I, V, h, start, start + len, x));
            jj == start + C[0] && kk == jj + C[1] && start + len == kk + C[2]
  {
    hide Classes, Tally;
    jj, kk := 0, 0;
    ghost var C := Classes(I, V, h, start, start + len, x);
    TallyEnds(C, 0);
    TallyEnds(C, 1);
    TallyEnds(C, 2);
    var i := start;
    while i < start + len
      invariant start <= i <= start + len
      invariant jj == Tally(C, i - start, 0) && kk == Tally(C, i - start, 1)
      invariant i - start == jj + kk + Tally(C, i - start, 2)
    {
      TallyStep(C, i - start, 0);
      TallyStep(C, i - start, 1);
      TallyStep(C, i - start, 2);
      if V[I[i] + h] < x {
        jj := jj + 1;
      }
      if V[I[i] + h] == x {
        kk := kk + 1;
      }
      i := i + 1;
    }
    jj := jj + start;
    kk := kk + jj;
  }

  lemma {:induction false} RunCount(C: seq<int>, c: int)
    requires forall p :: 0 <= p < |C| ==> C[p] == c
    ensures multiset(C)[c] == |C|
  {
    if C != [] {
      assert C == C[..|C| - 1] + [C[|C| - 1]];
      RunCount(C[..|C| - 1], c);
    }
  }

  // A run of class c plus one more of class c elsewhere needs room for both.
  lemma RunAndOneMore(C: seq<int>, c: int, a: int, b: int, i: int)
    requires 0 <= a <= b <= |C| && 0 <= i < |C| && !(a <= i < b) && C[i] == c
    requires forall p :: a <= p < b ==> C[p] == c
    ensures multiset(C)[c] > b - a
  {
    assert C == C[..a] + C[a..b] + C[b..];
    RunCount(C[a..b], c);
    if i < a {
      assert C[..a][i] == c;
    } else {
      assert C[b..][i - b] == c;
    }
  }

  // jj and kk are where classes 1 and 2 belong.
  ghost predicate Counted(C: seq<int>, jj: int, kk: int) {
    jj == multiset(C)[0] && kk - jj == multiset(C)[1] && |C| - kk == multiset(C)[2]
  }

  // While sweeping, positions below i have class 0, jj..jj+j-1 have class 1
  // and kk..kk+k-1 have class 2.
  ghost predicate Swept(C: seq<int>, i: int, jj: int, j: int, kk: int, k: int) {
    0 <= i <= jj <= jj + j <= kk <= kk + k <= |C|
    && (forall p :: 0 <= p < |C| ==> 0 <= C[p] <= 2)
    && (forall p :: 0 <= p < i ==> C[p] == 0)
    && (forall p :: jj <= p < jj + j ==> C[p] == 1)
    && (forall p :: kk <= p < kk + k ==> C[p] == 2)
  }

  lemma ExchangeCounts(C: seq<int>, i: int, j: int, jj: int, kk: int)
    requires 0 <= i < |C| && 0 <= j < |C| && Counted(C, jj, kk)
    ensures Counted(Exchange(C, i, j), jj, kk)
  {
  }

  lemma SweptBounds(C: seq<int>, i: int, jj: int, j: int, kk: int, k: int)
    requires Swept(C, i, jj, j, kk, k)
    ensures 0 <= i <= jj <= jj + j <= kk <= kk + k <= |C| && forall p :: 0 <= p < |C| ==> 0 <= C[p] <= 2
  {
  }

  // A misplaced element always finds room in the run of its class.
  lemma Room(C: seq<int>, i: int, jj: int, j: int, kk: int, k: int, m: int)
    requires Swept(C, i, jj, j, kk, k) && Counted(C, jj, kk) && i <= m < |C|
    ensures C[m] == 0 ==> i < jj
    ensures C[m] == 1 && !(jj <= m < jj + j) ==> jj + j < kk
    ensures C[m] == 2 && !(kk <= m < kk + k) ==> kk + k < |C|
  {
    if C[m] == 0 {
      RunAndOneMore(C, 0, 0, i, m);
    } else if C[m] == 1 && !(jj <= m < jj + j) {
      RunAndOneMore(C, 1, jj, jj + j, m);
    } else if C[m] == 2 && !(kk <= m < kk + k) {
      RunAndOneMore(C, 2, kk, kk + k, m);
    }
  }

  lemma SweptExchange(C: seq<int>, i: int, jj: int, j: int, kk: int, k: int, m: int)
    requires Swept(C, i, jj, j, kk, k) && i <= m < |C|
    ensures C[m] == 0 && m == i < jj ==> Swept(C, i + 1, jj, j, kk, k)
    ensures C[m] == 1 && m == jj + j < kk ==> Swept(C, i, jj, j + 1, kk, k)
    ensures C[m] == 1 && m < jj && jj + j < kk ==> Swept(Exchange(C, m, jj + j), i, jj, j + 1, kk, k)
    ensures C[m] == 2 && jj + j <= m < kk && kk + k < |C| ==> Swept(Exchange(C, m, kk + k), i, jj, j, kk, k + 1)
    ensures C[m] == 2 && m < jj && kk + k < |C| ==> Swept(Exchange(C, m, kk + k), i, jj, j, kk, k + 1)
  {
  }

  lemma SweepDone(C: seq<int>, jj: int, j: int, kk: int, k: int)
    requires Swept(C, jj, jj, j, kk, k) && Counted(C, jj, kk) && jj + j == kk
    ensures forall p :: kk <= p < |C| ==> C[p] == 2
  {
    forall p | kk <= p < |C|
      ensures C[p] == 2
    {
      Room(C, jj, jj, j, kk, k, p);
    }
  }

  ghost predicate Holds(I: array<int>, P: seq<int>, lo: int, hi: int)
    reads I
  {
    |P| == I.Length && 0 <= lo <= hi <= I.Length && forall p :: lo <= p < hi ==> I[p] == P[p]
  }

  method SwapClasses(I: array<int>, V: array<int>, h: nat, lo: int, hi: int, i: int, j: int, ghost x: int,
                     ghost P0: seq<int>, ghost Q0: seq<int>, ghost P: seq<int>, ghost Q: seq<int>)
    returns (ghost P': seq<int>, ghost Q': seq<int>)
    requires I != V && InRange(I, V, h, lo, hi) && lo <= i < hi && lo <= j < hi
    requires |P0| == |P| && Shuffled(P0, Q0, P, Q, lo, hi) && Holds(I, P, lo, hi)
    modifies I
    ensures InRange(I, V, h, lo, hi) && Holds(I, P', lo, hi) && Shuffled(P0, Q0, P', Q', lo, hi)
    ensures Classes(I, V, h, lo, hi, x) == Exchange(old(Classes(I, V, h, lo, hi, x)), i - lo, j - lo)
    ensures forall p :: 0 <= p < I.Length && !(lo <= p < hi) ==> I[p] == old(I[p])
  {
    hide Shuffled;
    ghost var C := Classes(I, V, h, lo, hi, x);
    P', Q' := Swap(I, i, j, P0, Q0, P, Q, lo, hi);
    ghost var C' := Classes(I, V, h, lo, hi, x);
    forall q | 0 <= q < hi - lo
      ensures C'[q] == Exchange(C, i - lo, j - lo)[q]
    {
    }
    assert Classes(I, V, h, lo, hi, x) == Exchange(C, i - lo, j - lo);
  }

  ghost predicate Sweeping(I: array<int>, V: array<int>, h: nat, lo: int, hi: int, x: int,
                           i: int, jj: int, j: int, kk: int, k: int)
    reads I, V
  {
    InRange(I, V, h, lo, hi)
    && var C := Classes(I, V, h, lo, hi, x);
       Swept(C, i - lo, jj - lo, j, kk - lo, k) && Counted(C, jj - lo, kk - lo)
  }

  // One round of the first sweep, which places the element at i < jj.
  method SweepLow(I: array<int>, V: array<int>, h: nat, lo: int, hi: int, x: int,
                  i: int, jj: int, j: int, kk: int, k: int,
                  ghost P0: seq<int>, ghost Q0: seq<int>, ghost P: seq<int>, ghost Q: seq<int>)
    returns (i': int, j': int, k': int, ghost P': seq<int>, ghost Q': seq<int>)
    requires I != V && Sweeping(I, V, h, lo, hi, x, i, jj, j, kk, k) && i < jj
    requires |P0| == |P| && Shuffled(P0, Q0, P, Q, lo, hi) && Holds(I, P, lo, hi)
    modifies I
    ensures Sweeping(I, V, h, lo, hi, x, i', jj, j', kk, k') && i' + j' + k' == i + j + k + 1
    ensures Shuffled(P0, Q0, P', Q', lo, hi) && Holds(I, P', lo, hi)
    ensures forall p :: 0 <= p < I.Length && !(lo <= p < hi) ==> I[p] == old(I[p])
  {
    hide Shuffled, Counted, Swept, Exchange, Classes, Holds;
    ghost var C := Classes(I, V, h, lo, hi, x);
    SweptBounds(C, i - lo, jj - lo, j, kk - lo, k);
    Room(C, i - lo, jj - lo, j, kk - lo, k, i - lo);
    SweptExchange(C, i - lo, jj - lo, j, kk - lo, k, i - lo);
    i', j', k', P', Q' := i, j, k, P, Q;
    if V[I[i] + h] < x {
      i' := i + 1;
    } else if V[I[i] + h] == x {
      ExchangeCounts(C, i - lo, jj + j - lo, jj - lo, kk - lo);
      P', Q' := SwapClasses(I, V, h, lo, hi, i, jj + j, x, P0, Q0, P, Q);
      j' := j + 1;
    } else {
      ExchangeCounts(C, i - lo, kk + k - lo, jj - lo, kk - lo);
      P', Q' := SwapClasses(I, V, h, lo, hi, i, kk + k, x, P0, Q0, P, Q);
      k' := k + 1;
    }
  }

  // One round of the second sweep, which places the element at jj + j < kk.
  method SweepMiddle(I: array<int>, V: array<int>, h: nat, lo: int, hi: int, x: int, jj: int, j: int, kk: int, k: int,
                     ghost P0: seq<int>, ghost Q0: seq<int>, ghost P: seq<int>, ghost Q: seq<int>)
    returns (j': int, k': int, ghost P': seq<int>, ghost Q': seq<int>)
    requires I != V && Sweeping(I, V, h, lo, hi, x, jj, jj, j, kk, k) && jj + j < kk
    requires |P0| == |P| && Shuffled(P0, Q0, P, Q, lo, hi) && Holds(I, P, lo, hi)
    modifies I
    ensures Sweeping(I, V, h, lo, hi, x, jj, jj, j', kk, k') && j' + k' == j + k + 1
    ensures Shuffled(P0, Q0, P', Q', lo, hi) && Holds(I, P', lo, hi)
    ensures forall p :: 0 <= p < I.Length && !(lo <= p < hi) ==> I[p] == old(I[p])
  {
    hide Shuffled, Counted, Swept, Exchange, Classes, Holds;
    ghost var C := Classes(I, V, h, lo, hi, x);
    SweptBounds(C, jj - lo, jj - lo, j, kk - lo, k);
    Room(C, jj - lo, jj - lo, j, kk - lo, k, jj + j - lo);
    SweptExchange(C, jj - lo, jj - lo, j, kk - lo, k, jj + j - lo);
    j', k', P', Q' := j, k, P, Q;
    if V[I[jj + j] + h] == x {
      j' := j + 1;
    } else {
      ExchangeCounts(C, jj + j - lo, kk + k - lo, jj - lo, kk - lo);
      P', Q' := SwapClasses(I, V, h, lo, hi, jj + j, kk + k, x, P0, Q0, P, Q);
      k' := k + 1;
    }
  }

  // start..jj-1 below the pivot, jj..kk-1 equal to it, kk..hi-1 above it.
  ghost predicate ThreeParts(I: array<int>, V: array<int>, h: nat, lo: int, jj: int, kk: int, hi: int, x: int)
    reads I, V
  {
    InRange(I, V, h, lo, hi) && lo <= jj <= kk <= hi
    && (forall p :: lo <= p < jj ==> V[I[p] + h] < x)
    && (forall p :: jj <= p < kk ==> V[I[p] + h] == x)
    && (forall p :: kk <= p < hi ==> V[I[p] + h] > x)
  }

  lemma SweptParts(I: array<int>, V: array<int>, h: nat, lo: int, hi: int, x: int, jj: int, j: int, kk: int, k: int)
    requires Sweeping(I, V, h, lo, hi, x, jj, jj, j, kk, k) && jj + j == kk
    ensures ThreeParts(I, V, h, lo, jj, kk, hi, x)
  {
    var C := Classes(I, V, h, lo, hi, x);
    SweepDone(C, jj - lo, j, kk - lo, k);
    forall p | lo <= p < hi
      ensures C[p - lo] == Class(V[I[p] + h], x)
    {
    }
  }

  lemma SweepStart(I: array<int>, V: array<int>, h: nat, lo: int, hi: int, x: int, pivot: int, jj: int, kk: int)
    requires InRange(I, V, h, lo, hi) && lo <= pivot < hi && V[I[pivot] + h] == x
    requires var C := multiset(Classes(I, V, h, lo, hi, x)); jj == lo + C[0] && kk == jj + C[1] && hi == kk + C[2]
    ensures Sweeping(I, V, h, lo, hi, x, lo, jj, 0, kk, 0) && jj < kk
  {
    assert Classes(I, V, h, lo, hi, x)[pivot - lo] == 1;
  }

  lemma SweepBounds(I: array<int>, V: array<int>, h: nat, lo: int, hi: int, x: int, i: int, jj: int, j: int, kk: int,
                    k: int)
    requires Sweeping(I, V, h, lo, hi, x, i, jj, j, kk, k)
    ensures 0 <= lo <= i <= jj <= jj + j <= kk <= kk + k <= hi <= I.Length
  {
  }

  lemma ShuffledSelf(P: seq<int>, Q: seq<int>, lo: int, hi: int)
    requires Inverse(P, Q, |P|) && 0 <= lo <= hi <= |P|
    ensures Shuffled(P, Q, P, Q, lo, hi)
  {
  }

  // The first sweep: fills start..jj-1.
  method SweepAllLow(I: array<int>, V: array<int>, h: nat, lo: int, hi: int, x: int, jj: int, kk: int,
                     ghost P: seq<int>, ghost Q: seq<int>)
    returns (j: int, k: int, ghost P': seq<int>, ghost Q': seq<int>)
    requires I != V && Sweeping(I, V, h, lo, hi, x, lo, jj, 0, kk, 0)
    requires Shuffled(P, Q, P, Q, lo, hi) && Holds(I, P, lo, hi)
    modifies I
    ensures Sweeping(I, V, h, lo, hi, x, jj, jj, j, kk, k)
    ensures Shuffled(P, Q, P', Q', lo, hi) && Holds(I, P', lo, hi)
    ensures forall p :: 0 <= p < I.Length && !(lo <= p < hi) ==> I[p] == old(I[p])
  {
    hide Shuffled, Sweeping, InRange;
    P', Q' := P, Q;
    var i;
    i, j, k := lo, 0, 0;
    SweepBounds(I, V, h, lo, hi, x, i, jj, j, kk, k);
    while i < jj
      invariant i <= jj && Sweeping(I, V, h, lo, hi, x, i, jj, j, kk, k)
      invariant |P'| == |P| && Shuffled(P, Q, P', Q', lo, hi) && Holds(I, P', lo, hi)
      invariant forall p :: 0 <= p < I.Length && !(lo <= p < hi) ==> I[p] == old(I[p])
      decreases 3 * I.Length - i - j - k
    {
      SweepBounds(I, V, h, lo, hi, x, i, jj, j, kk, k);
      i, j, k, P', Q' := SweepLow(I, V, h, lo, hi, x, i, jj, j, kk, k, P, Q, P', Q');
      SweepBounds(I, V, h, lo, hi, x, i, jj, j, kk, k);
    }
  }

  // The second sweep: fills jj..kk-1.
  method SweepAllMiddle(I: array<int>, V: array<int>, h: nat, lo: int, hi: int, x: int, jj: int, j0: int, kk: int,
                        k0: int, ghost P0: seq<int>, ghost Q0: seq<int>, ghost P: seq<int>, ghost Q: seq<int>)
    returns (ghost P': seq<int>, ghost Q': seq<int>)
    requires I != V && Sweeping(I, V, h, lo, hi, x, jj, jj, j0, kk, k0)
    requires |P0| == |P| && Shuffled(P0, Q0, P, Q, lo, hi) && Holds(I, P, lo, hi)
    modifies I
    ensures ThreeParts(I, V, h, lo, jj, kk, hi, x)
    ensures Shuffled(P0, Q0, P', Q', lo, hi) && Holds(I, P', lo, hi)
    ensures forall p :: 0 <= p < I.Length && !(lo <= p < hi) ==> I[p] == old(I[p])
  {
    hide Shuffled, Sweeping, InRange, ThreeParts;
    P', Q' := P, Q;
    var j, k := j0, k0;
    SweepBounds(I, V, h, lo, hi, x, jj, jj, j, kk, k);
    while jj + j < kk
      invariant jj + j <= kk && Sweeping(I, V, h, lo, hi, x, jj, jj, j, kk, k)
      invariant |P'| == |P| && Shuffled(P0, Q0, P', Q', lo, hi) && Holds(I, P', lo, hi)
      invariant forall p :: 0 <= p < I.Length && !(lo <= p < hi) ==> I[p] == old(I[p])
      decreases 2 * I.Length - j - k
    {
      SweepBounds(I, V, h, lo, hi, x, jj, jj, j, kk, k);
      j, k, P', Q' := SweepMiddle(I, V, h, lo, hi, x, jj, j, kk, k, P0, Q0, P', Q');
      SweepBounds(I, V, h, lo, hi, x, jj, jj, j, kk, k);
    }
    SweptParts(I, V, h, lo, hi, x, jj, j, kk, k);
  }

  // The long branch of split up to its first recursive call.
  method ThreeWay(I: array<int>, V: array<int>, start: int, len: int, h: nat, ghost P: seq<int>, ghost Q: seq<int>)
    returns (jj: int, kk: int, x: int, ghost P': seq<int>, ghost Q': seq<int>)
    requires I != V && 0 < len && InRange(I, V, h, start, start + len)
    requires Inverse(P, Q, I.Length) && Holds(I, P, start, start + len)
    modifies I
    ensures start <= jj < kk <= start + len && ThreeParts(I, V, h, start, jj, kk, start + len, x)
    ensures |P'| == I.Length && Shuffled(P, Q, P', Q', start, start + len) && Holds(I, P', start, start + len)
    ensures forall p :: 0 <= p < I.Length && !(start <= p < start + len) ==> I[p] == old(I[p])
  {
    hide Shuffled, Sweeping, ThreeParts, Classes, Class;
    ShuffledSelf(P, Q, start, start + len);
    x := V[I[start + len / 2] + h];
    jj, kk := CountKeys(I, V, h, start, len, x);
    SweepStart(I, V, h, start, start + len, x, start + len / 2, jj, kk);
    SweepBounds(I, V, h, start, start + len, x, start, jj, 0, kk, 0);
    var j, k;
    j, k, P', Q' := SweepAllLow(I, V, h, start, start + len, x, jj, kk, P, Q);
    P', Q' := SweepAllMiddle(I, V, h, start, start + len, x, jj, j, kk, k, P, Q, P', Q');
  }
}
