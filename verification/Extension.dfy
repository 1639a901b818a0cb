// The match-extension loops of bsdiff: how far to stretch the previous match
// forwards and the next match backwards, and where to cut if they overlap.

module Extension {
  import opened Bytes

  // How many of source[p..p+n] equal the byte of target[q..q+n] opposite.
  ghost function Agreeing(source: seq<Byte>, p: nat, target: seq<Byte>, q: nat, n: nat): (c: nat)
    requires p + n <= |source| && q + n <= |target|
    ensures c <= n
  {
    if n == 0 then 0
    else Agreeing(source, p, target, q, n - 1) + if source[p + n - 1] == target[q + n - 1] then 1 else 0
  }

  lemma AgreeingNone(source: seq<Byte>, p: nat, target: seq<Byte>, q: nat)
    requires p <= |source| && q <= |target|
    ensures Agreeing(source, p, target, q, 0) == 0
  {
  }

  lemma AgreeingMore(source: seq<Byte>, p: nat, target: seq<Byte>, q: nat, n: nat)
    requires p + n <= |source| && q + n <= |target| && n > 0
    ensures Agreeing(source, p, target, q, n)
         == Agreeing(source, p, target, q, n - 1) + if source[p + n - 1] == target[q + n - 1] then 1 else 0
  {
  }

  lemma {:induction false} AgreeingFront(source: seq<Byte>, p: nat, target: seq<Byte>, q: nat, n: nat)
    requires p + n <= |source| && q + n <= |target| && n > 0
    ensures Agreeing(source, p, target, q, n)
         == (if source[p] == target[q] then 1 else 0) + Agreeing(source, p + 1, target, q + 1, n - 1)
  {
    if n > 1 {
      AgreeingFront(source, p, target, q, n - 1);
    }
  }

  // What the loops weigh: agreeing bytes less disagreeing ones.
  ghost function Worth(source: seq<Byte>, p: nat, target: seq<Byte>, q: nat, n: nat): int
    requires p + n <= |source| && q + n <= |target|
  {
    2 * Agreeing(source, p, target, q, n) - n
  }

  // The longest forward extension that stays inside source and short of scan.
  ghost function Reach(source: seq<Byte>, lastpos: nat, lastscan: nat, scan: nat): nat
    requires lastpos <= |source| && lastscan <= scan
  {
    if scan - lastscan < |source| - lastpos then scan - lastscan else |source| - lastpos
  }

  // n is the shortest extension among those worth most.
  ghost predicate BestForwards(source: seq<Byte>, target: seq<Byte>, lastpos: nat, lastscan: nat, scan: nat, n: nat)
    requires lastpos <= |source| && lastscan <= scan <= |target|
  {
    n <= Reach(source, lastpos, lastscan, scan)
    && (forall i :: 0 <= i <= Reach(source, lastpos, lastscan, scan) ==>
          Worth(source, lastpos, target, lastscan, i) <= Worth(source, lastpos, target, lastscan, n))
    && (forall i :: 0 <= i < n ==>
          Worth(source, lastpos, target, lastscan, i) < Worth(source, lastpos, target, lastscan, n))
  }

  // lenf
  method Forwards(source: seq<Byte>, target: seq<Byte>, lastpos: nat, lastscan: nat, scan: nat) returns (lenf: nat)
    requires lastpos <= |source| && lastscan <= scan <= |target|
    ensures BestForwards(source, target, lastpos, lastscan, scan, lenf)
  {
    hide Agreeing;
    AgreeingNone(source, lastpos, target, lastscan);
    var s, Sf, i := 0, 0, 0;
    lenf := 0;
    while lastscan + i < scan && lastpos + i < |source|
      invariant 0 <= lenf <= i <= Reach(source, lastpos, lastscan, scan)
      invariant s == Agreeing(source, lastpos, target, lastscan, i)
      invariant Sf == Agreeing(source, lastpos, target, lastscan, lenf)
      invariant forall k :: 0 <= k <= i ==> Worth(source, lastpos, target, lastscan, k) <= Sf * 2 - lenf
      invariant forall k :: 0 <= k < lenf ==> Worth(source, lastpos, target, lastscan, k) < Sf * 2 - lenf
    {
      AgreeingMore(source, lastpos, target, lastscan, i + 1);
      if source[lastpos + i] == target[lastscan + i] {
        s := s + 1;
      }
      i := i + 1;
      assert Worth(source, lastpos, target, lastscan, i) == s * 2 - i;
      if s * 2 - i > Sf * 2 - lenf {
        Sf := s;
        lenf := i;
      }
    }
  }

  // The longest backward extension.
  ghost function BackReach(pos: nat, lastscan: nat, scan: nat): nat
    requires lastscan <= scan
  {
    if scan - lastscan < pos then scan - lastscan else pos
  }

  ghost function BackWorth(source: seq<Byte>, pos: nat, target: seq<Byte>, scan: nat, n: nat): int
    requires n <= pos <= |source| && n <= scan <= |target|
  {
    Worth(source, pos - n, target, scan - n, n)
  }

  ghost predicate BestBackwards(source: seq<Byte>, target: seq<Byte>, pos: nat, lastscan: nat, scan: nat, n: nat)
    requires pos <= |source| && lastscan <= scan <= |target|
  {
    n <= BackReach(pos, lastscan, scan)
    && (forall i :: 0 <= i <= BackReach(pos, lastscan, scan) ==>
          BackWorth(source, pos, target, scan, i) <= BackWorth(source, pos, target, scan, n))
    && (forall i :: 0 <= i < n ==> BackWorth(source, pos, target, scan, i) < BackWorth(source, pos, target, scan, n))
  }

  // lenb, when the next match starts at scan in target and pos in source.
  method Backwards(source: seq<Byte>, target: seq<Byte>, pos: nat, lastscan: nat, scan: nat) returns (lenb: nat)
    requires pos <= |source| && lastscan <= scan <= |target|
    ensures BestBackwards(source, target, pos, lastscan, scan, lenb)
  {
    hide Agreeing;
    AgreeingNone(source, pos, target, scan);
    var s, Sb, i := 0, 0, 1;
    lenb := 0;
    while scan >= lastscan + i && pos >= i
      invariant 0 <= lenb < i <= BackReach(pos, lastscan, scan) + 1
      invariant s == Agreeing(source, pos - (i - 1), target, scan - (i - 1), i - 1)
      invariant Sb == Agreeing(source, pos - lenb, target, scan - lenb, lenb)
      invariant forall k :: 0 <= k < i ==> BackWorth(source, pos, target, scan, k) <= Sb * 2 - lenb
      invariant forall k :: 0 <= k < lenb ==> BackWorth(source, pos, target, scan, k) < Sb * 2 - lenb
    {
      AgreeingFront(source, pos - i, target, scan - i, i);
      if source[pos - i] == target[scan - i] {
        s := s + 1;
      }
      assert BackWorth(source, pos, target, scan, i) == s * 2 - i;
      if s * 2 - i > Sb * 2 - lenb {
        Sb := s;
        lenb := i;
      }
      i := i + 1;
    }
  }

  // Agreeing bytes of an overlap cut at c: the first c bytes follow the previous
  // match (source at p), the others the next match (source at r).
  ghost function CutWorth(source: seq<Byte>, p: nat, r: nat, target: seq<Byte>, q: nat, overlap: nat, c: nat): nat
    requires c <= overlap && p + overlap <= |source| && r + overlap <= |source| && q + overlap <= |target|
  {
    Agreeing(source, p, target, q, c) + Agreeing(source, r + c, target, q + c, overlap - c)
  }

  // c is the first of the dividing points that keep most agreeing bytes.
  ghost predicate BestCut(source: seq<Byte>, target: seq<Byte>, p: nat, r: nat, q: nat, overlap: nat, c: nat)
    requires p + overlap <= |source| && r + overlap <= |source| && q + overlap <= |target|
  {
    c <= overlap
    && (forall i :: 0 <= i <= overlap ==>
          CutWorth(source, p, r, target, q, overlap, i) <= CutWorth(source, p, r, target, q, overlap, c))
    && (forall i :: 0 <= i < c ==>
          CutWorth(source, p, r, target, q, overlap, i) < CutWorth(source, p, r, target, q, overlap, c))
  }

  // lens: the best dividing point of an overlap.
  method Divide(source: seq<Byte>, target: seq<Byte>, p: nat, r: nat, q: nat, overlap: nat) returns (lens: nat)
    requires p + overlap <= |source| && r + overlap <= |source| && q + overlap <= |target|
    ensures BestCut(source, target, p, r, q, overlap, lens)
  {
    hide Agreeing;
    var s: int, Ss: int, i: nat := 0, 0, 0;
    lens := 0;
    ghost var all := CutWorth(source, p, r, target, q, overlap, 0);
    while i < overlap
      invariant 0 <= lens <= i <= overlap
      invariant s == CutWorth(source, p, r, target, q, overlap, i) - all
      invariant Ss == CutWorth(source, p, r, target, q, overlap, lens) - all
      invariant forall c :: 0 <= c <= i ==> CutWorth(source, p, r, target, q, overlap, c) <= all + Ss
      invariant forall c :: 0 <= c < lens ==> CutWorth(source, p, r, target, q, overlap, c) < all + Ss
    {
      AgreeingFront(source, r + i, target, q + i, overlap - i);
      AgreeingMore(source, p, target, q, i + 1);
      if target[q + i] == source[p + i] {
        s := s + 1;
      }
      if target[q + i] == source[r + i] {
        s := s - 1;
      }
      if s > Ss {
        Ss := s;
        lens := i + 1;
      }
      i := i + 1;
    }
  }
}
