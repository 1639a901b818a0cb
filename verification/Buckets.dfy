// The start of qsufsort: a bucket sort of the suffixes by their first byte.

module Buckets {
  import opened Bytes
  import opened SuffixOrder
  import opened SortState
  import opened SortPass

  // How many bytes of s are less than c.
  ghost function CountBelow(s: seq<Byte>, c: int): (n: nat)
    ensures n <= |s|
  {
    if s == [] then 0 else CountBelow(s[..|s| - 1], c) + if s[|s| - 1] < c then 1 else 0
  }

  lemma {:induction false} CountBelowMonotone(s: seq<Byte>, c: int, d: int)
    requires c <= d
    ensures CountBelow(s, c) <= CountBelow(s, d)
    ensures c <= 0 ==> CountBelow(s, c) == 0
    ensures d >= 256 ==> CountBelow(s, d) == |s|
  {
    if s != [] {
      CountBelowMonotone(s[..|s| - 1], c, d);
    }
  }

  lemma CountBelowStep(s: seq<Byte>, i: nat, c: int)
    requires i < |s|
    ensures CountBelow(s[..i + 1], c) == CountBelow(s[..i], c) + if s[i] < c then 1 else 0
  {
    assert s[..i + 1][..i] == s[..i];
  }

  // Occurrences of byte c among the first i bytes.
  ghost function Seen(s: seq<Byte>, i: nat, c: int): (n: nat)
    requires i <= |s|
  {
    CountBelowMonotone(s[..i], c, c + 1);
    CountBelow(s[..i], c + 1) - CountBelow(s[..i], c)
  }

  lemma SeenStep(s: seq<Byte>, i: nat, c: int)
    requires i < |s|
    ensures Seen(s, i + 1, c) == Seen(s, i, c) + if s[i] == c then 1 else 0
  {
    CountBelowStep(s, i, c);
    CountBelowStep(s, i, c + 1);
  }

  lemma {:induction false} SeenMonotone(s: seq<Byte>, i: nat, j: nat, c: int)
    requires i <= j <= |s|
    ensures Seen(s, i, c) <= Seen(s, j, c)
    decreases j - i
  {
    if i < j {
      SeenStep(s, i, c);
      SeenMonotone(s, i + 1, j, c);
    }
  }

  // The first position of bucket c is Base(s, c) + 1; position 0 is the empty suffix's.
  ghost function Base(s: seq<Byte>, c: int): (n: nat)
    ensures n <= |s|
  {
    CountBelow(s, c)
  }

  lemma BaseStep(s: seq<Byte>, c: int)
    ensures Base(s, c + 1) == Base(s, c) + Seen(s, |s|, c)
  {
    assert s[..|s|] == s;
  }

  // Counting, summing up and shifting right.
  method FillBuckets(s: seq<Byte>) returns (buckets: array<int>)
    ensures fresh(buckets) && buckets.Length == 256
    ensures forall c :: 0 <= c < 256 ==> buckets[c] == Base(s, c)
  {
    buckets := new int[256](_ => 0);
    var i := 0;
    while i < |s|
      invariant 0 <= i <= |s|
      invariant forall c :: 0 <= c < 256 ==> buckets[c] == Seen(s, i, c)
    {
      forall c | 0 <= c < 256
        ensures Seen(s, i + 1, c) == Seen(s, i, c) + if s[i] == c then 1 else 0
      {
        SeenStep(s, i, c);
      }
      buckets[s[i]] := buckets[s[i]] + 1;
      i := i + 1;
    }
    CountBelowMonotone(s, 0, 0);
    BaseStep(s, 0);
    i := 1;
    while i < 256
      invariant 1 <= i <= 256
      invariant forall c :: 0 <= c < i ==> buckets[c] == Base(s, c + 1)
      invariant forall c :: i <= c < 256 ==> buckets[c] == Seen(s, |s|, c)
    {
      BaseStep(s, i);
      buckets[i] := buckets[i] + buckets[i - 1];
      i := i + 1;
    }
    i := 255;
    while i > 0
      invariant 0 <= i <= 255
      invariant forall c :: 0 <= c <= i ==> buckets[c] == Base(s, c + 1)
      invariant forall c :: i < c < 256 ==> buckets[c] == Base(s, c)
    {
      buckets[i] := buckets[i - 1];
      i := i - 1;
    }
    buckets[0] := 0;
  }

  // The first i suffixes have been placed: bucket c fills positions
  // Base(s, c) + 1 .. b[c], and Q tells where each of them went.
  ghost predicate Placed(s: seq<Byte>, I: seq<int>, b: seq<int>, Q: seq<int>, i: nat) {
    |I| == |s| + 1 && |b| == 256 && |Q| == i <= |s|
    && Filled(s, b, i) && Found(s, I, b, Q) && Kept(s, I, b, Q)
  }

  ghost predicate Filled(s: seq<Byte>, b: seq<int>, i: nat)
    requires |b| == 256 && i <= |s|
  {
    forall c {:trigger b[c]} :: 0 <= c < 256 ==> b[c] == Base(s, c) + Seen(s, i, c) <= Base(s, c + 1)
  }

  ghost predicate Found(s: seq<Byte>, I: seq<int>, b: seq<int>, Q: seq<int>)
    requires |I| == |s| + 1 && |b| == 256 && |Q| <= |s|
  {
    forall a :: 0 <= a < |Q| ==> Base(s, s[a]) < Q[a] <= b[s[a]] <= |s| && I[Q[a]] == a
  }

  ghost predicate Kept(s: seq<Byte>, I: seq<int>, b: seq<int>, Q: seq<int>)
    requires |I| == |s| + 1 && |b| == 256 && |Q| <= |s|
  {
    forall c, p {:trigger b[c], I[p]} :: 0 <= c < 256 && Base(s, c) < p <= b[c] <= |s| ==>
      0 <= I[p] < |Q| && s[I[p]] == c && Q[I[p]] == p
  }

  lemma PlaceStart(s: seq<Byte>, I: seq<int>, b: seq<int>)
    requires |I| == |s| + 1 && |b| == 256 && forall c :: 0 <= c < 256 ==> b[c] == Base(s, c)
    ensures Placed(s, I, b, [], 0)
  {
    forall c | 0 <= c < 256
      ensures Base(s, c) <= Base(s, c + 1)
    {
      CountBelowMonotone(s, c, c + 1);
    }
  }

  lemma PlaceRoom(s: seq<Byte>, I: seq<int>, b: seq<int>, Q: seq<int>, i: nat)
    requires Placed(s, I, b, Q, i) && i < |s|
    ensures var c: int := s[i]; b[c] + 1 == Base(s, c) + Seen(s, i + 1, c) <= Base(s, c + 1) <= |s|
  {
    SeenStep(s, i, s[i]);
    SeenMonotone(s, i + 1, |s|, s[i]);
    BaseStep(s, s[i]);
  }

  // A position in bucket c is in no other bucket.
  lemma BucketsApart(s: seq<Byte>, c: int, d: int, p: int)
    requires Base(s, c) < p <= Base(s, c + 1) && Base(s, d) < p <= Base(s, d + 1)
    ensures c == d
  {
    if c < d {
      CountBelowMonotone(s, c + 1, d);
    } else if d < c {
      CountBelowMonotone(s, d + 1, c);
    }
  }

  lemma PlaceStepOld(s: seq<Byte>, I: seq<int>, b: seq<int>, Q: seq<int>, i: nat, a: nat)
    requires Placed(s, I, b, Q, i) && a < i < |s|
    ensures b[s[i]] + 1 < |I| && Q[a] != b[s[i]] + 1
  {
    PlaceRoom(s, I, b, Q, i);
    if Q[a] == b[s[i]] + 1 {
      BucketsApart(s, s[a], s[i], Q[a]);
    }
  }

  lemma PlaceStepBucket(s: seq<Byte>, I: seq<int>, b: seq<int>, Q: seq<int>, i: nat, c: int, p: int)
    requires Placed(s, I, b, Q, i) && i < |s| && 0 <= c < 256
    requires var c0: int := s[i]; Base(s, c) < p <= if c == c0 then b[c] + 1 else b[c]
    ensures p == b[s[i]] + 1 ==> c == s[i]
    ensures p != b[s[i]] + 1 ==> p <= b[c] <= |s| && 0 <= I[p] < i && s[I[p]] == c && Q[I[p]] == p
  {
    PlaceRoom(s, I, b, Q, i);
    if p == b[s[i]] + 1 {
      BucketsApart(s, c, s[i], p);
    }
  }

  lemma PlaceStep(s: seq<Byte>, I: seq<int>, b: seq<int>, Q: seq<int>, i: nat)
    requires Placed(s, I, b, Q, i) && i < |s|
    ensures var p := b[s[i]] + 1; 0 < p < |I| && Placed(s, I[p := i], b[s[i] := p], Q + [p], i + 1)
  {
    hide Filled, Found, Kept;
    PlaceRoom(s, I, b, Q, i);
    PlaceFills(s, I, b, Q, i, b[s[i] := b[s[i]] + 1]);
    PlaceFinds(s, I, b, Q, i);
    PlaceKeeps(s, I, b, Q, i);
  }

  lemma PlaceFills(s: seq<Byte>, I: seq<int>, b: seq<int>, Q: seq<int>, i: nat, b': seq<int>)
    requires Placed(s, I, b, Q, i) && i < |s| && |b| == |b'| == 256
    requires forall c :: 0 <= c < 256 ==> b'[c] == if c == s[i] as int then b[c] + 1 else b[c]
    ensures Filled(s, b', i + 1)
  {
    hide Placed;
    if !Filled(s, b', i + 1) {
      var c :| 0 <= c < 256 && !(b'[c] == Base(s, c) + Seen(s, i + 1, c) <= Base(s, c + 1));
      BucketFills(s, I, b, Q, i, c);
    }
  }

  lemma BucketFills(s: seq<Byte>, I: seq<int>, b: seq<int>, Q: seq<int>, i: nat, c: int)
    requires Placed(s, I, b, Q, i) && i < |s| && 0 <= c < 256
    ensures (if c == s[i] as int then b[c] + 1 else b[c]) == Base(s, c) + Seen(s, i + 1, c) <= Base(s, c + 1)
  {
    hide Base, Found, Kept;
    PlaceRoom(s, I, b, Q, i);
    SeenStep(s, i, c);
    assert b[c] == Base(s, c) + Seen(s, i, c);
  }

  lemma PlaceFinds(s: seq<Byte>, I: seq<int>, b: seq<int>, Q: seq<int>, i: nat)
    requires Placed(s, I, b, Q, i) && i < |s| && b[s[i]] + 1 < |I|
    ensures b[s[i]] >= 0 && Found(s, I[b[s[i]] + 1 := i], b[s[i] := b[s[i]] + 1], Q + [b[s[i]] + 1])
  {
    hide Kept;
    PlaceRoom(s, I, b, Q, i);
    forall a | 0 <= a < i
      ensures Q[a] != b[s[i]] + 1
    {
      PlaceStepOld(s, I, b, Q, i, a);
    }
  }

  lemma PlaceKeeps(s: seq<Byte>, I: seq<int>, b: seq<int>, Q: seq<int>, i: nat)
    requires Placed(s, I, b, Q, i) && i < |s| && b[s[i]] + 1 < |I|
    ensures b[s[i]] >= 0 && Kept(s, I[b[s[i]] + 1 := i], b[s[i] := b[s[i]] + 1], Q + [b[s[i]] + 1])
  {
    PlaceRoom(s, I, b, Q, i);
    var p0 := b[s[i]] + 1;
    var b', I' := b[s[i] := p0], I[p0 := i];
    forall c, p | 0 <= c < 256 && Base(s, c) < p <= b'[c] <= |s|
      ensures 0 <= I'[p] <= i && s[I'[p]] == c && (Q + [p0])[I'[p]] == p
    {
      PlaceStepBucket(s, I, b, Q, i, c, p);
    }
  }

  // Every suffix goes to the next free place of the bucket of its first byte.
  method Place(s: seq<Byte>, I: array<int>, buckets: array<int>) returns (ghost Q: seq<int>)
    requires I.Length == |s| + 1 && I != buckets && buckets.Length == 256
    requires forall c :: 0 <= c < 256 ==> buckets[c] == Base(s, c)
    modifies I, buckets
    ensures Placed(s, I[..], buckets[..], Q, |s|)
  {
    hide Placed;
    Q := [];
    var i := 0;
    PlaceStart(s, I[..], buckets[..]);
    while i < |s|
      invariant 0 <= i <= |s| && Placed(s, I[..], buckets[..], Q, i)
    {
      PlaceStep(s, I[..], buckets[..], Q, i);
      ghost var b, I0 := buckets[..], I[..];
      buckets[s[i]] := buckets[s[i]] + 1;
      I[buckets[s[i]]] := i;
      Q := Q + [buckets[s[i]]];
      assert buckets[..] == b[s[i] := b[s[i]] + 1] && I[..] == I0[b[s[i]] + 1 := i];
      i := i + 1;
    }
  }

  // ---- The state the first pass starts from ----

  // All suffixes are placed, the empty one at position 0, and V numbers each
  // by the last position of its bucket.
  ghost predicate Bucketed(s: seq<Byte>, V: seq<int>, P: seq<int>, Q: seq<int>, b: seq<int>) {
    |P| == |Q| == |V| == |s| + 1 && |b| == 256 && Placed(s, P, b, Q[..|s|], |s|)
    && P[0] == |s| && Q[|s|] == 0 && V[|s|] == 0
    && forall a :: 0 <= a < |s| ==> V[a] == b[s[a]]
  }

  lemma {:induction false} FindBucket(s: seq<Byte>, p: int, n: nat) returns (c: int)
    requires 0 < p <= Base(s, n)
    ensures 0 <= c < n && Base(s, c) < p <= Base(s, c + 1)
  {
    if n == 0 {
      CountBelowMonotone(s, 0, 0);
      assert false;
    } else if p <= Base(s, n - 1) {
      c := FindBucket(s, p, n - 1);
    } else {
      c := n - 1;
    }
  }

  // Position p > 0 holds a suffix of some bucket c.
  lemma BucketAt(s: seq<Byte>, V: seq<int>, P: seq<int>, Q: seq<int>, b: seq<int>, p: int) returns (c: int)
    requires Bucketed(s, V, P, Q, b) && 0 < p <= |s|
    ensures 0 <= c < 256 && Base(s, c) < p <= Base(s, c + 1) == b[c]
    ensures 0 <= P[p] < |s| && s[P[p]] == c && Q[P[p]] == p && V[P[p]] == b[c]
  {
    CountBelowMonotone(s, 256, 256);
    c := FindBucket(s, p, 256);
    BaseStep(s, c);
    assert b[c] == Base(s, c) + Seen(s, |s|, c);
  }

  // Suffix a < |s| lies in the bucket of its first byte.
  lemma BucketOf(s: seq<Byte>, V: seq<int>, P: seq<int>, Q: seq<int>, b: seq<int>, a: int)
    requires Bucketed(s, V, P, Q, b) && 0 <= a < |s|
    ensures var c: int := s[a]; Base(s, c) < Q[a] <= V[a] == Base(s, c + 1) <= |s| && P[Q[a]] == a
  {
    var c: int := s[a];
    BaseStep(s, c);
    assert b[c] == Base(s, c) + Seen(s, |s|, c);
    assert Q[..|s|][a] == Q[a];
  }

  lemma FirstGrouped(s: seq<Byte>, V: seq<int>, P: seq<int>, Q: seq<int>, b: seq<int>)
    requires Bucketed(s, V, P, Q, b)
    ensures Grouped(V, P, Q)
  {
    forall k | 0 <= k <= |s|
      ensures 0 <= P[k] <= |s| && Q[P[k]] == k
    {
      if k > 0 {
        var c := BucketAt(s, V, P, Q, b, k);
      }
    }
    forall a | 0 <= a <= |s|
      ensures 0 <= Q[a] <= V[a] <= |s| && P[Q[a]] == a && V[P[V[a]]] == V[a]
    {
      if a < |s| {
        BucketOf(s, V, P, Q, b, a);
        var c := BucketAt(s, V, P, Q, b, V[a]);
        BucketsApart(s, c, s[a], V[a]);
      }
    }
    forall x, y | 0 <= x <= |s| && 0 <= y <= |s| && V[x] < V[y]
      ensures Q[x] < Q[y]
    {
      FirstBytes(s, V, P, Q, b, x, y);
    }
  }

  // Bucket numbers compare as first bytes do.
  lemma FirstBytes(s: seq<Byte>, V: seq<int>, P: seq<int>, Q: seq<int>, b: seq<int>, x: int, y: int)
    requires Bucketed(s, V, P, Q, b) && 0 <= x <= |s| && 0 <= y <= |s|
    ensures V[x] < V[y] ==> y < |s| && Q[x] < Q[y] && (x == |s| || s[x] < s[y])
    ensures V[x] == V[y] ==> x == y || (x < |s| && y < |s| && s[x] == s[y])
  {
    if x < |s| {
      BucketOf(s, V, P, Q, b, x);
    }
    if y < |s| {
      BucketOf(s, V, P, Q, b, y);
    }
    if x < |s| && y < |s| {
      if s[x] < s[y] {
        CountBelowMonotone(s, s[x] as int + 1, s[y]);
      } else if s[y] < s[x] {
        CountBelowMonotone(s, s[y] as int + 1, s[x]);
      }
    }
  }

  lemma FirstOrdered(s: seq<Byte>, V: seq<int>, P: seq<int>, Q: seq<int>, b: seq<int>)
    requires Bucketed(s, V, P, Q, b)
    ensures Ordered(s, V, 1)
  {
    forall x, y | 0 <= x <= |s| && 0 <= y <= |s|
      ensures V[x] < V[y] ==> Less(s, x, y)
      ensures V[x] == V[y] ==> Agree(s, x, y, 1)
    {
      FirstBytes(s, V, P, Q, b, x, y);
    }
  }

  // I after the singleton buckets 1..m-1 have been marked with -1.
  ghost predicate Marked(I: seq<int>, P: seq<int>, b: seq<int>, m: int) {
    |I| == |P| && |b| == 256
    && (forall k :: 0 <= k < |I| ==> I[k] == P[k] || (I[k] == -1 && (exists c :: 0 < c < m && MarksSingle(b, c, k))))
  }

  ghost predicate MarksSingle(b: seq<int>, c: int, k: int) {
    0 < c < |b| && b[c] == b[c - 1] + 1 == k
  }

  lemma FirstScanned(s: seq<Byte>, I: seq<int>, V: seq<int>, P: seq<int>, Q: seq<int>, b: seq<int>)
    requires Bucketed(s, V, P, Q, b) && |I| == |P| && I[0] == -1
    requires Marked(I[0 := P[0]], P, b, 256)
    ensures Scanned(s, Snap(I, V, P, Q), 1, 0)
  {
    hide Ordered, Placed, Bucketed, Marked, Sorting;
    FirstSorting(s, V, P, Q, b);
    FirstEntries(s, I, V, P, Q, b);
  }

  lemma FirstSorting(s: seq<Byte>, V: seq<int>, P: seq<int>, Q: seq<int>, b: seq<int>)
    requires Bucketed(s, V, P, Q, b)
    ensures Sorting(s, V, P, Q, 1) && |V| == |P| == |Q| == |s| + 1
    ensures forall a :: 0 <= a < |V| ==> 0 <= Q[a]
  {
    hide Placed, Ordered;
    FirstGrouped(s, V, P, Q, b);
    FirstOrdered(s, V, P, Q, b);
  }

  lemma FirstEntries(s: seq<Byte>, I: seq<int>, V: seq<int>, P: seq<int>, Q: seq<int>, b: seq<int>)
    requires Bucketed(s, V, P, Q, b) && |I| == |P| && I[0] == -1
    requires Marked(I[0 := P[0]], P, b, 256)
    ensures forall k :: 0 <= k < |I| && I[k] < 0 ==> I[k] == -1 && Single(V, P, k)
    ensures forall k :: 0 <= k < |I| && I[k] >= 0 ==> I[k] == P[k] && P[k] + 1 <= |s|
  {
    hide Marked, Placed;
    forall k | 0 <= k < |I|
      ensures I[k] < 0 ==> I[k] == -1 && Single(V, P, k)
      ensures I[k] >= 0 ==> I[k] == P[k] && P[k] + 1 <= |s|
    {
      if k > 0 {
        FirstMark(s, I[0 := P[0]], V, P, Q, b, k);
      }
    }
  }

  lemma FirstMark(s: seq<Byte>, I: seq<int>, V: seq<int>, P: seq<int>, Q: seq<int>, b: seq<int>, k: int)
    requires Bucketed(s, V, P, Q, b) && Marked(I, P, b, 256) && 0 < k < |I|
    ensures I[k] < 0 ==> I[k] == -1 && Single(V, P, k)
    ensures I[k] >= 0 ==> I[k] == P[k] && P[k] + 1 <= |s|
  {
    var d := BucketAt(s, V, P, Q, b, k);
    if I[k] != P[k] {
      var c :| 0 < c < 256 && MarksSingle(b, c, k);
      assert b[c] == Base(s, c) + Seen(s, |s|, c) && b[c - 1] == Base(s, c - 1) + Seen(s, |s|, c - 1);
      BaseStep(s, c);
      BaseStep(s, c - 1);
      BucketsApart(s, c, d, k);
      if k > 1 {
        var e := BucketAt(s, V, P, Q, b, k - 1);
        if c <= e {
          CountBelowMonotone(s, c, e);
        } else {
          CountBelowMonotone(s, e + 1, c);
        }
      }
    }
  }

  // Every suffix is numbered by the last place of its bucket, the empty one by 0.
  method Number(s: seq<Byte>, V: array<int>, buckets: array<int>)
    requires V.Length == |s| + 1 && V != buckets && buckets.Length == 256
    modifies V
    ensures V[|s|] == 0 && forall a :: 0 <= a < |s| ==> V[a] == buckets[s[a]]
  {
    var i := 0;
    while i < |s|
      invariant 0 <= i <= |s| && forall a :: 0 <= a < i ==> V[a] == buckets[s[a]]
    {
      V[i] := buckets[s[i]];
      i := i + 1;
    }
    V[|s|] := 0;
  }

  // Buckets of one suffix are settled before the first pass.  Bucket 0 is not
  // looked at: a single zero byte stays readable, and the first pass settles it.
  method MarkSingles(I: array<int>, buckets: array<int>)
    requires I != buckets && buckets.Length == 256
    requires forall c :: 0 < c < 256 && buckets[c] == buckets[c - 1] + 1 ==> 0 <= buckets[c] < I.Length
    modifies I
    ensures Marked(I[..], old(I[..]), buckets[..], 256)
  {
    ghost var P := I[..];
    var i := 1;
    while i < 256
      invariant 1 <= i <= 256 && Marked(I[..], P, buckets[..], i)
    {
      if buckets[i] == buckets[i - 1] + 1 {
        assert MarksSingle(buckets[..], i, buckets[i]);
        I[buckets[i]] := -1;
      }
      i := i + 1;
    }
  }

  // qsufsort up to its first pass.
  method FirstOrder(I: array<int>, V: array<int>, s: seq<Byte>) returns (ghost P: seq<int>, ghost Q: seq<int>)
    requires I != V && I.Length == V.Length == |s| + 1
    modifies I, V
    ensures Scanned(s, Snap(I[..], V[..], P, Q), 1, 0)
  {
    hide Placed, Marked, Scanned;
    var buckets := FillBuckets(s);
    Q := Place(s, I, buckets);
    ghost var b := buckets[..];
    PlacedAll(s, I[..], b, Q);
    I[0] := |s|;
    Q := Q + [0];
    P := I[..];
    Number(s, V, buckets);
    assert Q[..|s|] == Q[..|Q| - 1];
    assert Bucketed(s, V[..], P, Q, b);
    MarkSingles(I, buckets);
    ghost var M := I[..];
    MarkedPositive(s, M, P, b);
    I[0] := -1;
    assert I[..][0 := P[0]] == M;
    FirstScanned(s, I[..], V[..], P, Q, b);
  }

  // The entry for the empty suffix can be filled in afterwards.
  lemma PlacedAll(s: seq<Byte>, I: seq<int>, b: seq<int>, Q: seq<int>)
    requires Placed(s, I, b, Q, |s|)
    ensures |Q| == |s| && Placed(s, I[0 := |s|], b, Q, |s|)
    ensures forall c :: 0 < c < 256 && b[c] == b[c - 1] + 1 ==> 0 < b[c] <= |s|
  {
  }

  lemma MarkedPositive(s: seq<Byte>, M: seq<int>, P: seq<int>, b: seq<int>)
    requires Marked(M, P, b, 256) && |P| > 0 && forall c :: 0 < c < 256 && b[c] == b[c - 1] + 1 ==> 0 < b[c]
    ensures |M| == |P| && M[0] == P[0]
  {
  }
}
