// What bsdiff writes is determined by the two files: no two patches meet what is
// promised of it.

module DeltaUnique {
  import opened Bytes
  import opened SuffixArrays
  import opened PrefixSearch
  import opened Extension
  import opened Patch
  import opened Pieces
  import opened Delta

  // ---- Extensions ----

  lemma ForwardsUnique(source: seq<Byte>, target: seq<Byte>, lastpos: nat, lastscan: nat, scan: nat, m: nat, n: nat)
    requires lastpos <= |source| && lastscan <= scan <= |target|
    requires BestForwards(source, target, lastpos, lastscan, scan, m)
    requires BestForwards(source, target, lastpos, lastscan, scan, n)
    ensures m == n
  {
    hide Worth;
    var w := Worth(source, lastpos, target, lastscan, m);
    assert w <= Worth(source, lastpos, target, lastscan, n) && Worth(source, lastpos, target, lastscan, n) <= w;
  }

  lemma BackwardsUnique(source: seq<Byte>, target: seq<Byte>, pos: nat, lastscan: nat, scan: nat, m: nat, n: nat)
    requires pos <= |source| && lastscan <= scan <= |target|
    requires BestBackwards(source, target, pos, lastscan, scan, m)
    requires BestBackwards(source, target, pos, lastscan, scan, n)
    ensures m == n
  {
    hide BackWorth;
    var w := BackWorth(source, pos, target, scan, m);
    assert w <= BackWorth(source, pos, target, scan, n) && BackWorth(source, pos, target, scan, n) <= w;
  }

  lemma CutUnique(source: seq<Byte>, target: seq<Byte>, p: nat, r: nat, q: nat, overlap: nat, m: nat, n: nat)
    requires p + overlap <= |source| && r + overlap <= |source| && q + overlap <= |target|
    requires BestCut(source, target, p, r, q, overlap, m) && BestCut(source, target, p, r, q, overlap, n)
    ensures m == n
  {
    hide CutWorth;
    var w := CutWorth(source, p, r, target, q, overlap, m);
    assert w <= CutWorth(source, p, r, target, q, overlap, n) && CutWorth(source, p, r, target, q, overlap, n) <= w;
  }

  lemma ExtendedUnique(source: seq<Byte>, target: seq<Byte>, lastpos: nat, lastscan: nat, pos: nat, scan: nat,
                       lenf: int, lenb: int, lenf': int, lenb': int)
    requires lastpos <= |source| && pos <= |source| && lastscan <= scan <= |target|
    requires Extended(source, target, lastpos, lastscan, pos, scan, lenf, lenb)
    requires Extended(source, target, lastpos, lastscan, pos, scan, lenf', lenb')
    ensures lenf == lenf' && lenb == lenb'
  {
    hide BestForwards, BestBackwards, BestCut, ExtendedBy;
    var f: nat, b: nat :| ExtendedBy(source, target, lastpos, lastscan, pos, scan, lenf, lenb, f, b);
    var f': nat, b': nat :| ExtendedBy(source, target, lastpos, lastscan, pos, scan, lenf', lenb', f', b');
    SameBest(source, target, lastpos, lastscan, pos, scan, lenf, lenb, f, b, lenf', lenb', f', b');
    SameCut(source, target, lastpos, lastscan, pos, scan, lenf, lenb, lenf', lenb', f, b);
  }

  lemma SameBest(source: seq<Byte>, target: seq<Byte>, lastpos: nat, lastscan: nat, pos: nat, scan: nat,
                 lenf: int, lenb: int, f: nat, b: nat, lenf': int, lenb': int, f': nat, b': nat)
    requires lastpos <= |source| && pos <= |source| && lastscan <= scan <= |target|
    requires ExtendedBy(source, target, lastpos, lastscan, pos, scan, lenf, lenb, f, b)
    requires ExtendedBy(source, target, lastpos, lastscan, pos, scan, lenf', lenb', f', b')
    ensures f == f' && b == b'
  {
    hide BestForwards, BestBackwards, BestCut;
    ForwardsUnique(source, target, lastpos, lastscan, scan, f, f');
    if scan < |target| { BackwardsUnique(source, target, pos, lastscan, scan, b, b'); }
  }

  lemma SameCut(source: seq<Byte>, target: seq<Byte>, lastpos: nat, lastscan: nat, pos: nat, scan: nat,
                lenf: int, lenb: int, lenf': int, lenb': int, f: nat, b: nat)
    requires lastpos <= |source| && pos <= |source| && lastscan <= scan <= |target|
    requires ExtendedBy(source, target, lastpos, lastscan, pos, scan, lenf, lenb, f, b)
    requires ExtendedBy(source, target, lastpos, lastscan, pos, scan, lenf', lenb', f, b)
    ensures lenf == lenf' && lenb == lenb'
  {
    hide BestCut;
    if lastscan + f > scan - b {
      CutUnique(source, target, lastpos + (scan - b - lastscan), pos - b, scan - b, lastscan + f - (scan - b),
                b - lenb, b - lenb');
    }
  }

  // ---- Scans ----

  // Two scans that start alike pass over the same matches.
  lemma SameAnswers(source: seq<Byte>, I: seq<int>, target: seq<Byte>, x: Stop, y: Stop)
    requires SuffixArray(source, I) && Stops(source, I, target, x) && Stops(source, I, target, y)
    requires x.from == y.from && x.offset == y.offset && |x.lens| <= |y.lens|
    ensures x.lens == y.lens[..|x.lens|]
  {
    hide SuffixArray, Found, Common, Covered, Hits;
    forall n | 0 <= n < |x.lens|
      ensures x.lens[n] == y.lens[n]
    {
      assert Answered(source, I, target, x.from + n, x.lens[n]) && Answered(source, I, target, y.from + n, y.lens[n]);
    }
  }

  // Neither goes on where the other has stopped.
  lemma SameLength(source: seq<Byte>, I: seq<int>, target: seq<Byte>, x: Stop, y: Stop)
    requires SuffixArray(source, I) && Stops(source, I, target, x) && Stops(source, I, target, y)
    requires x.from == y.from && x.offset == y.offset
    ensures |x.lens| >= |y.lens|
  {
    hide SuffixArray, Found, Common, Covered, Hits, Passed;
    var n := |x.lens|;
    if n < |y.lens| {
      SameAnswers(source, I, target, x, y);
      PassedAt(source, I, target, y, n);
      OneMore(y.lens, x.lens, n, x.len);
    }
  }

  lemma PassedAt(source: seq<Byte>, I: seq<int>, target: seq<Byte>, y: Stop, n: nat)
    requires SuffixArray(source, I) && Stops(source, I, target, y) && n < |y.lens|
    ensures Answered(source, I, target, y.from + n, y.lens[n]) && Rejected(source, target, y.offset, y.from, y.lens, n)
  {
    hide SuffixArray, Answered, Rejected, Covered, Hits;
  }

  lemma OneMore(a: seq<nat>, b: seq<nat>, n: nat, x: nat)
    requires n < |a| && b == a[..n] && a[n] == x
    ensures a[..n + 1] == b + [x]
  {
  }

  lemma SameStop(source: seq<Byte>, I: seq<int>, target: seq<Byte>, x: Stop, y: Stop)
    requires SuffixArray(source, I) && Stops(source, I, target, x) && Stops(source, I, target, y)
    requires x.from == y.from && x.offset == y.offset && x.before == y.before
    ensures x == y
  {
    hide SuffixArray, Found, Common, Covered, Hits, Passed;
    SameLength(source, I, target, x, y);
    SameLength(source, I, target, y, x);
    SameAnswers(source, I, target, x, y);
    assert y.lens[..|x.lens|] == y.lens;
  }

  lemma {:induction false} SameTrace(source: seq<Byte>, I: seq<int>, target: seq<Byte>, tr: seq<Stop>, us: seq<Stop>,
                                     m: nat)
    requires SuffixArray(source, I) && Trace(source, I, target, tr) && Trace(source, I, target, us)
    requires m <= |tr| && m <= |us|
    ensures tr[..m] == us[..m]
  {
    hide SuffixArray, Stops, NextFrom, NextOffset, NextPos;
    if m > 0 {
      SameTrace(source, I, target, tr, us, m - 1);
      SameStop(source, I, target, tr[m - 1], us[m - 1]);
      assert tr[..m] == tr[..m - 1] + [tr[m - 1]] && us[..m] == us[..m - 1] + [us[m - 1]];
    }
  }

  lemma NotLonger(source: seq<Byte>, I: seq<int>, target: seq<Byte>, tr: seq<Stop>, us: seq<Stop>)
    requires SuffixArray(source, I) && Trace(source, I, target, tr) && Trace(source, I, target, us)
    requires Finished(target, tr) && Finished(target, us)
    ensures |us| <= |tr|
  {
    hide SuffixArray, Stops, NextFrom, NextOffset, NextPos;
    var m := |tr|;
    if 0 < m < |us| {
      SameTrace(source, I, target, tr, us, m);
      SameAt(tr, us, m);
    }
  }

  lemma SameAt(tr: seq<Stop>, us: seq<Stop>, m: nat)
    requires 0 < m <= |tr| && m <= |us| && tr[..m] == us[..m]
    ensures tr[m - 1] == us[m - 1]
  {
    assert tr[m - 1] == tr[..m][m - 1] && us[m - 1] == us[..m][m - 1];
  }

  // ---- Pieces ----

  lemma SameAddend(x: Byte, y: Byte, z: Byte)
    requires AddByte(x, z) == AddByte(y, z)
    ensures x == y
  {
  }

  lemma AddedUnique(source: seq<Byte>, p: int, d: seq<Byte>, d': seq<Byte>)
    requires |d| == |d'| && Added(source, p, d) == Added(source, p, d')
    ensures d == d'
  {
    forall i | 0 <= i < |d|
      ensures d[i] == d'[i]
    {
      assert Added(source, p, d)[i] == Added(source, p, d')[i];
      if 0 <= p + i < |source| { SameAddend(d[i], d'[i], source[p + i]); }
    }
  }

  lemma OldPosLast(ps: seq<Piece>, k: nat)
    requires k < |ps|
    ensures OldPos(ps[..k + 1]) == OldPos(ps[..k]) + |ps[k].diff| + ps[k].seek
  {
    assert ps[..k + 1][..k] == ps[..k];
  }

  // After the same pieces, and ended by the same match, the next piece is the same.
  lemma SamePiece(source: seq<Byte>, target: seq<Byte>, ps: seq<Piece>, qs: seq<Piece>, k: nat, pos: nat, scan: nat)
    requires Emitted(source, target, ps, |target|, OldPos(ps)) && Emitted(source, target, qs, |target|, OldPos(qs))
    requires k < |ps| && k < |qs| && ps[..k] == qs[..k]
    requires JustifiedBy(source, target, ps, k, pos, scan) && JustifiedBy(source, target, qs, k, pos, scan)
    ensures ps[k] == qs[k]
  {
    hide Emitted, JustifiedBy, Output, OldPos, Added;
    var at := OldPos(ps[..k]);
    SameSizes(source, target, ps, qs, k, pos, scan);
    PieceText(source, target, ps, k);
    PieceText(source, target, qs, k);
    AddedUnique(source, at, ps[k].diff, qs[k].diff);
  }

  lemma SameSizes(source: seq<Byte>, target: seq<Byte>, ps: seq<Piece>, qs: seq<Piece>, k: nat, pos: nat, scan: nat)
    requires k < |ps| && k < |qs| && ps[..k] == qs[..k]
    requires JustifiedBy(source, target, ps, k, pos, scan) && JustifiedBy(source, target, qs, k, pos, scan)
    ensures |ps[k].diff| == |qs[k].diff| && |ps[k].extra| == |qs[k].extra| && ps[k].seek == qs[k].seek
  {
    hide Extended, Beats, Output, OldPos, Added;
    var at, q := OldPos(ps[..k]), |Output(source, ps[..k])|;
    ExtendedUnique(source, target, at, q, pos, scan, |ps[k].diff|, scan - |Output(source, ps[..k + 1])|,
                   |qs[k].diff|, scan - |Output(source, qs[..k + 1])|);
    OutputSize(source, ps, k);
    OutputSize(source, qs, k);
    OldPosLast(ps, k);
    OldPosLast(qs, k);
  }

  lemma OutputSize(source: seq<Byte>, ps: seq<Piece>, k: nat)
    requires k < |ps|
    ensures |Output(source, ps[..k + 1])| == |Output(source, ps[..k])| + |ps[k].diff| + |ps[k].extra|
  {
    OutputLast(source, ps, k);
    AddedSize(source, OldPos(ps[..k]), ps[k].diff);
  }

  lemma AddedSize(source: seq<Byte>, p: int, d: seq<Byte>)
    ensures |Added(source, p, d)| == |d|
  {
  }

  lemma {:induction false} SamePieces(source: seq<Byte>, I: seq<int>, target: seq<Byte>, tr: seq<Stop>,
                                      ps: seq<Piece>, qs: seq<Piece>, k: nat)
    requires SuffixArray(source, I) && Traced(source, I, target, tr, ps) && Traced(source, I, target, tr, qs)
    requires Emitted(source, target, ps, |target|, OldPos(ps)) && Emitted(source, target, qs, |target|, OldPos(qs))
    requires k <= |ps|
    ensures |ps| == |qs| && ps[..k] == qs[..k]
  {
    hide SuffixArray, Trace, Emitted, JustifiedBy, Cutters, OldPos;
    if k > 0 {
      SamePieces(source, I, target, tr, ps, qs, k - 1);
      var cut := Cutters(source, target, tr);
      SamePiece(source, target, ps, qs, k - 1, cut[k - 1].pos, cut[k - 1].scan);
      assert ps[..k] == ps[..k - 1] + [ps[k - 1]] && qs[..k] == qs[..k - 1] + [qs[k - 1]];
    }
  }

  // ---- Patches ----

  // All that Bsdiff promises of its patch, but for what follows from it.
  ghost predicate Promised(source: seq<Byte>, target: seq<Byte>, patch: seq<Byte>, ps: seq<Piece>) {
    IsDelta(source, target, patch, ps) && Chosen(source, target, ps)
  }

  lemma PatchUnique(source: seq<Byte>, target: seq<Byte>, patch: seq<Byte>, ps: seq<Piece>, patch': seq<Byte>,
                    qs: seq<Piece>)
    requires Promised(source, target, patch, ps) && Promised(source, target, patch', qs)
    ensures ps == qs && patch == patch'
  {
    hide SuffixArray, Traced, Finished, Emitted, Fits, PatchFile, OldPos;
    var I, tr :| ChosenBy(source, target, ps, I, tr);
    var J, us :| ChosenBy(source, target, qs, J, us);
    SameOrder(source, I, J);
    TracedParts(source, I, target, tr, ps);
    TracedParts(source, I, target, us, qs);
    NotLonger(source, I, target, tr, us);
    NotLonger(source, I, target, us, tr);
    SameTrace(source, I, target, tr, us, |tr|);
    assert tr[..|tr|] == tr && us[..|tr|] == us;
    SamePieces(source, I, target, tr, ps, qs, |ps|);
    assert ps[..|ps|] == ps && qs[..|ps|] == qs;
  }

  lemma SameOrder(s: seq<Byte>, I: seq<int>, J: seq<int>)
    requires SuffixArray(s, I) && SuffixArray(s, J)
    ensures I == J
  {
    SuffixArrayUnique(s, I, J, |s| + 1);
    assert I[..|s| + 1] == I && J[..|s| + 1] == J;
  }
}
