// What bsdiff emits: pieces that replay to the new file, each as long as the
// best extensions make it.

module Pieces {
  import opened Bytes
  import opened PrefixSearch
  import opened Extension
  import opened PatchFormat
  import opened Patch

  // Byte c of target is what continuing the previous match would predict.
  ghost predicate Hit(source: seq<Byte>, target: seq<Byte>, lastoffset: int, c: nat)
    requires c < |target|
  {
    0 <= c + lastoffset < |source| && source[c + lastoffset] == target[c]
  }

  // How many bytes of target[i..j] it predicts rightly; 0 when j <= i.
  ghost function Hits(source: seq<Byte>, target: seq<Byte>, lastoffset: int, i: nat, j: nat): nat
    requires j <= |target|
    decreases j
  {
    if j <= i then 0
    else Hits(source, target, lastoffset, i, j - 1) + if Hit(source, target, lastoffset, j - 1) then 1 else 0
  }

  lemma {:induction false} HitsFront(source: seq<Byte>, target: seq<Byte>, lastoffset: int, i: nat, j: nat)
    requires i < j <= |target|
    ensures Hits(source, target, lastoffset, i, j)
         == (if Hit(source, target, lastoffset, i) then 1 else 0) + Hits(source, target, lastoffset, i + 1, j)
    decreases j
  {
    if i + 1 < j {
      HitsFront(source, target, lastoffset, i, j - 1);
    }
  }

  lemma NoHits(source: seq<Byte>, target: seq<Byte>, lastoffset: int, i: nat)
    requires i <= |target|
    ensures Hits(source, target, lastoffset, i, i) == 0
  {
  }

  lemma {:induction false} HitsGrow(source: seq<Byte>, target: seq<Byte>, lastoffset: int, i: nat, j: nat, k: nat)
    requires j <= k <= |target|
    ensures Hits(source, target, lastoffset, i, j) <= Hits(source, target, lastoffset, i, k)
    decreases k
  {
    if j < k { HitsGrow(source, target, lastoffset, i, j, k - 1); }
  }

  // ---- Extensions ----

  // How far the previous match is taken forwards and the next one backwards.
  // f and b are the two best extensions on their own; where they overlap, the
  // overlap is divided at the best point and no byte is left between.
  ghost predicate ExtendedBy(source: seq<Byte>, target: seq<Byte>, lastpos: nat, lastscan: nat, pos: nat, scan: nat,
                             lenf: int, lenb: int, f: nat, b: nat)
    requires lastpos <= |source| && pos <= |source| && lastscan <= scan <= |target|
  {
    && BestForwards(source, target, lastpos, lastscan, scan, f)
    && (if scan < |target| then BestBackwards(source, target, pos, lastscan, scan, b) else b == 0)
    && 0 <= lenf <= f && 0 <= lenb <= b && lastscan + lenf <= scan - lenb
    && (lastscan + f <= scan - b ==> lenf == f && lenb == b)
    && (lastscan + f > scan - b ==>
          lastscan + lenf == scan - lenb
          && BestCut(source, target, lastpos + (scan - b - lastscan), pos - b, scan - b, lastscan + f - (scan - b),
                     b - lenb))
  }

  ghost predicate Extended(source: seq<Byte>, target: seq<Byte>, lastpos: nat, lastscan: nat, pos: nat, scan: nat,
                           lenf: int, lenb: int)
    requires lastpos <= |source| && pos <= |source| && lastscan <= scan <= |target|
  {
    exists f: nat, b: nat :: ExtendedBy(source, target, lastpos, lastscan, pos, scan, lenf, lenb, f, b)
  }

  lemma ExtendBounds(source: seq<Byte>, target: seq<Byte>, lastpos: nat, lastscan: nat, pos: nat, scan: nat, lenf: nat,
                     lenb: nat)
    requires lastpos <= |source| && pos <= |source| && lastscan <= scan <= |target|
    requires Extended(source, target, lastpos, lastscan, pos, scan, lenf, lenb)
    ensures lastpos + lenf <= |source| && lastscan + lenf <= scan - lenb && lenb <= pos
    ensures scan == |target| ==> lenb == 0
  {
    hide BestCut;
  }

  // ---- What has been emitted so far ----

  // Replaying ps gives the first lastscan bytes of target and leaves the source
  // at lastpos; no diff byte was taken outside source, and only the last piece
  // can complete target.
  ghost predicate Emitted(source: seq<Byte>, target: seq<Byte>, ps: seq<Piece>, lastscan: int, lastpos: int) {
    0 <= lastscan <= |target| && 0 <= lastpos <= |source|
    && Output(source, ps) == target[..lastscan] && OldPos(ps) == lastpos
    && (forall k :: 0 <= k < |ps| ==> Inside(source, ps, k) && |Output(source, ps[..k])| < |target| && Storable(ps[k]))
  }

  // The diff of piece k lies inside source.
  ghost predicate Inside(source: seq<Byte>, ps: seq<Piece>, k: int)
    requires 0 <= k < |ps|
  {
    0 <= OldPos(ps[..k]) && OldPos(ps[..k]) + |ps[k].diff| <= |source|
  }

  // db, eb and ctrl hold the three blocks of ps.
  ghost predicate Stored(ps: seq<Piece>, db: seq<Byte>, eb: seq<Byte>, ctrl: seq<Byte>) {
    (forall k :: 0 <= k < |ps| ==> Storable(ps[k]))
    && db == DiffBlock(ps) && eb == ExtraBlock(ps) && ctrl == CtrlBlock(ps)
  }

  ghost function Difference(source: seq<Byte>, p: nat, target: seq<Byte>, q: nat, n: nat): (d: seq<Byte>)
    requires p + n <= |source| && q + n <= |target|
    ensures |d| == n
  {
    seq<Byte>(n, i requires 0 <= i < n => SubByte(target[q + i], source[p + i]))
  }

  ghost function NextPiece(source: seq<Byte>, target: seq<Byte>, lastscan: nat, lastpos: nat, lenf: nat, next: nat,
                           seek: int): Piece
    requires lastpos + lenf <= |source| && lastscan + lenf <= next <= |target|
  {
    Piece(Difference(source, lastpos, target, lastscan, lenf), target[lastscan + lenf..next], seek)
  }

  // Adding a difference back gives the target bytes, modulo 256.
  lemma DifferenceAdded(source: seq<Byte>, p: nat, target: seq<Byte>, q: nat, n: nat)
    requires p + n <= |source| && q + n <= |target|
    ensures Added(source, p, Difference(source, p, target, q, n)) == target[q..q + n]
  {
    forall i | 0 <= i < n
      ensures Added(source, p, Difference(source, p, target, q, n))[i] == target[q..q + n][i]
    {
      AddSub(target[q + i], source[p + i]);
    }
  }

  lemma AddSub(t: Byte, s: Byte)
    ensures AddByte(SubByte(t, s), s) == t
  {
  }

  lemma OutputNext(source: seq<Byte>, target: seq<Byte>, ps: seq<Piece>, lastscan: nat, lastpos: nat, lenf: nat,
                   next: nat, seek: int)
    requires lastpos + lenf <= |source| && lastscan + lenf <= next <= |target|
    requires Output(source, ps) == target[..lastscan] && OldPos(ps) == lastpos
    ensures var ps' := ps + [NextPiece(source, target, lastscan, lastpos, lenf, next, seek)];
            Output(source, ps') == target[..next] && OldPos(ps') == lastpos + lenf + seek
  {
    hide Difference, Added;
    var ps' := ps + [NextPiece(source, target, lastscan, lastpos, lenf, next, seek)];
    assert ps'[..|ps|] == ps;
    DifferenceAdded(source, lastpos, target, lastscan, lenf);
    assert target[..next] == target[..lastscan] + target[lastscan..lastscan + lenf] + target[lastscan + lenf..next];
  }

  lemma EmitNext(source: seq<Byte>, target: seq<Byte>, ps: seq<Piece>, lastscan: nat, lastpos: nat, lenf: nat,
                 next: nat, seek: int)
    requires |source| < OFF_LIMIT && |target| < OFF_LIMIT
    requires Emitted(source, target, ps, lastscan, lastpos) && lastscan < |target|
    requires lastpos + lenf <= |source| && lastscan + lenf <= next <= |target| && 0 <= lastpos + lenf + seek <= |source|
    ensures Emitted(source, target, ps + [NextPiece(source, target, lastscan, lastpos, lenf, next, seek)], next,
                    lastpos + lenf + seek)
  {
    hide Output, OldPos, Difference;
    OutputNext(source, target, ps, lastscan, lastpos, lenf, next, seek);
    var ps' := ps + [NextPiece(source, target, lastscan, lastpos, lenf, next, seek)];
    forall k | 0 <= k < |ps'|
      ensures Inside(source, ps', k) && |Output(source, ps'[..k])| < |target| && Storable(ps'[k])
    {
      assert ps'[..k] == ps[..k] && ps[..|ps|] == ps;
      if k < |ps| {
        assert Inside(source, ps, k);
      }
    }
  }

  lemma StoreNext(ps: seq<Piece>, p: Piece, db: seq<Byte>, eb: seq<Byte>, ctrl: seq<Byte>)
    requires Stored(ps, db, eb, ctrl) && Storable(p)
    ensures Stored(ps + [p], db + p.diff, eb + p.extra, ctrl + TripleBytes(p))
  {
  }

  // Everything emitted is accounted for: dblen + eblen == lastscan.
  lemma {:induction false} OutputLength(source: seq<Byte>, ps: seq<Piece>)
    ensures |Output(source, ps)| == |DiffBlock(ps)| + |ExtraBlock(ps)|
  {
    if ps != [] {
      OutputLength(source, ps[..|ps| - 1]);
    }
  }

  lemma EmittedBounds(source: seq<Byte>, target: seq<Byte>, ps: seq<Piece>, lastscan: int, lastpos: int)
    requires Emitted(source, target, ps, lastscan, lastpos)
    ensures 0 <= lastscan <= |target| && 0 <= lastpos <= |source|
  {
  }

  lemma EmittedStart(source: seq<Byte>, target: seq<Byte>)
    ensures Emitted(source, target, [], 0, 0) && Stored([], [], [], []) && AllJustified(source, target, [])
  {
  }

  lemma EmittedOldPos(source: seq<Byte>, target: seq<Byte>, ps: seq<Piece>, lastscan: int, lastpos: int)
    requires Emitted(source, target, ps, lastscan, lastpos)
    ensures OldPos(ps) == lastpos
  {
  }

  // An off_t holds every length in the patch: a triple costs 24 bytes and there
  // are at most |target| + 1 of them.
  const TARGET_LIMIT: int := 0x0400_0000_0000_0000

  lemma EmittedFits(source: seq<Byte>, target: seq<Byte>, ps: seq<Piece>, lastscan: int, lastpos: int)
    requires |target| < TARGET_LIMIT && |ps| <= |target| + 1
    requires Emitted(source, target, ps, lastscan, lastpos)
    ensures Fits(ps, |target|)
  {
    OutputLength(source, ps);
    forall p | p in ps
      ensures Storable(p)
    {
      var k :| 0 <= k < |ps| && ps[k] == p;
      assert Inside(source, ps, k);
    }
  }

  // The finished file is the patch its pieces stand for.
  lemma FileIsPatch(source: seq<Byte>, target: seq<Byte>, ps: seq<Piece>, db: seq<Byte>, eb: seq<Byte>, ctrl: seq<Byte>)
    requires |target| < TARGET_LIMIT && |ps| <= |target| + 1
    requires Emitted(source, target, ps, |target|, OldPos(ps)) && Stored(ps, db, eb, ctrl)
    ensures Fits(ps, |target|) && |ctrl| == 24 * |ps| && |db| < OFF_LIMIT
    ensures PatchFile(ps, |target|) == MAGIC + OffBytes(|ctrl|) + OffBytes(|db|) + OffBytes(|target|) + ctrl + db + eb
  {
    EmittedFits(source, target, ps, |target|, OldPos(ps));
  }

  // patch is the file of pieces that replay to target.
  ghost predicate IsDelta(source: seq<Byte>, target: seq<Byte>, patch: seq<Byte>, ps: seq<Piece>) {
    Fits(ps, |target|) && patch == PatchFile(ps, |target|) && Emitted(source, target, ps, |target|, OldPos(ps))
  }

  // Byte i of a diff is what to add to the old byte, modulo 256, for the new one;
  // the extra bytes follow as they are.
  lemma EmittedBytes(source: seq<Byte>, target: seq<Byte>, ps: seq<Piece>, k: nat)
    requires Emitted(source, target, ps, |target|, OldPos(ps)) && k < |ps|
    ensures var p, at, q := ps[k], OldPos(ps[..k]), |Output(source, ps[..k])|;
            && 0 <= at && at + |p.diff| <= |source| && q + |p.diff| + |p.extra| <= |target|
            && (forall i :: 0 <= i < |p.diff| ==> (p.diff[i] as int + source[at + i]) % 256 == target[q + i])
            && target[q + |p.diff|..q + |p.diff| + |p.extra|] == p.extra
  {
    hide Added, Output, OldPos, Emitted;
    var p, at, q := ps[k], OldPos(ps[..k]), |Output(source, ps[..k])|;
    PieceText(source, target, ps, k);
    forall i | 0 <= i < |p.diff|
      ensures (p.diff[i] as int + source[at + i]) % 256 == target[q + i]
    {
      assert target[q..q + |p.diff|][i] == target[q + i];
      AddedByte(source, at, p.diff, i);
    }
  }

  lemma PieceText(source: seq<Byte>, target: seq<Byte>, ps: seq<Piece>, k: nat)
    requires Emitted(source, target, ps, |target|, OldPos(ps)) && k < |ps|
    ensures var p, at, q := ps[k], OldPos(ps[..k]), |Output(source, ps[..k])|;
            && 0 <= at && at + |p.diff| <= |source| && q + |p.diff| + |p.extra| <= |target|
            && target[q..q + |p.diff|] == Added(source, at, p.diff)
            && target[q + |p.diff|..q + |p.diff| + |p.extra|] == p.extra
  {
    hide Added, Emitted, Output, OldPos;
    EmittedAll(source, target, ps, k);
    OutputPrefix(source, ps, k + 1);
    OutputLast(source, ps, k);
    ThreeParts(Output(source, ps[..k]), Added(source, OldPos(ps[..k]), ps[k].diff), ps[k].extra, target);
  }

  lemma EmittedAll(source: seq<Byte>, target: seq<Byte>, ps: seq<Piece>, k: nat)
    requires Emitted(source, target, ps, |target|, OldPos(ps)) && k < |ps|
    ensures Inside(source, ps, k) && Output(source, ps) == target
  {
    hide Output, OldPos;
    assert target[..|target|] == target;
  }

  lemma OutputLast(source: seq<Byte>, ps: seq<Piece>, k: nat)
    requires k < |ps|
    ensures Output(source, ps[..k + 1])
         == Output(source, ps[..k]) + Added(source, OldPos(ps[..k]), ps[k].diff) + ps[k].extra
  {
    hide Added;
    assert ps[..k + 1][..k] == ps[..k];
  }

  lemma ThreeParts(a: seq<Byte>, b: seq<Byte>, c: seq<Byte>, t: seq<Byte>)
    requires a + b + c <= t
    ensures |a| + |b| + |c| <= |t| && t[|a|..|a| + |b|] == b && t[|a| + |b|..|a| + |b| + |c|] == c
  {
  }

  lemma AddedByte(source: seq<Byte>, p: int, diff: seq<Byte>, i: nat)
    requires i < |diff| && 0 <= p + i < |source|
    ensures Added(source, p, diff)[i] == (diff[i] as int + source[p + i]) % 256
  {
  }

  lemma {:induction false} OutputPrefix(source: seq<Byte>, ps: seq<Piece>, k: nat)
    requires k <= |ps|
    ensures Output(source, ps[..k]) <= Output(source, ps)
    decreases |ps| - k
  {
    hide Added;
    if k < |ps| {
      assert ps[..k + 1][..k] == ps[..k];
      OutputPrefix(source, ps, k + 1);
    } else {
      assert ps[..k] == ps;
    }
  }

  // ---- Why the pieces are what they are ----

  // The match at pos and scan agrees on over eight bytes more than the previous
  // match, continued, would.
  ghost predicate Beats(source: seq<Byte>, target: seq<Byte>, lastoffset: int, pos: nat, scan: nat)
    requires pos <= |source| && scan <= |target|
  {
    var len := Common(source, pos, target, scan);
    scan + len <= |target| && len > Hits(source, target, lastoffset, scan, scan + len) + 8
  }

  // Piece k ends for a match that beats its own, or at the end of target; its
  // diff and what it leaves to the next piece are the best extensions.
  ghost predicate Justified(source: seq<Byte>, target: seq<Byte>, ps: seq<Piece>, k: int)
    requires 0 <= k < |ps|
  {
    exists pos: nat, scan: nat :: JustifiedBy(source, target, ps, k, pos, scan)
  }

  ghost predicate JustifiedBy(source: seq<Byte>, target: seq<Byte>, ps: seq<Piece>, k: int, pos: nat, scan: nat)
    requires 0 <= k < |ps|
  {
    var lastpos, lastscan := OldPos(ps[..k]), |Output(source, ps[..k])|;
    var lenb := scan - |Output(source, ps[..k + 1])|;
    && 0 <= lastpos <= |source| && lastscan <= scan <= |target| && pos <= |source| && OldPos(ps[..k + 1]) == pos - lenb
    && Extended(source, target, lastpos, lastscan, pos, scan, |ps[k].diff|, lenb)
    && (scan < |target| ==> Beats(source, target, lastpos - lastscan, pos, scan))
  }

  ghost predicate AllJustified(source: seq<Byte>, target: seq<Byte>, ps: seq<Piece>) {
    forall k :: 0 <= k < |ps| ==> Justified(source, target, ps, k)
  }

  lemma JustifiedKept(source: seq<Byte>, target: seq<Byte>, ps: seq<Piece>, p: Piece, k: nat, pos: nat, scan: nat)
    requires k < |ps| && JustifiedBy(source, target, ps, k, pos, scan)
    ensures JustifiedBy(source, target, ps + [p], k, pos, scan)
  {
    hide Extended, Beats, Output, OldPos;
    var ps' := ps + [p];
    assert ps'[..k] == ps[..k] && ps'[..k + 1] == ps[..k + 1];
  }

  lemma JustifiedNew(source: seq<Byte>, target: seq<Byte>, ps: seq<Piece>, p: Piece, lastscan: nat, lastpos: nat,
                     lastscan': nat, lastpos': nat, pos: nat, scan: nat)
    requires Emitted(source, target, ps, lastscan, lastpos) && Emitted(source, target, ps + [p], lastscan', lastpos')
    requires lastscan <= scan <= |target| && pos <= |source| && scan - lastscan' == pos - lastpos'
    requires Extended(source, target, lastpos, lastscan, pos, scan, |p.diff|, scan - lastscan')
    requires scan < |target| ==> Beats(source, target, lastpos - lastscan, pos, scan)
    ensures JustifiedBy(source, target, ps + [p], |ps|, pos, scan)
  {
    hide Extended, Beats, Output, OldPos;
    var ps' := ps + [p];
    assert ps'[..|ps|] == ps && ps'[..|ps| + 1] == ps';
  }

  // A match accepted for being longer than the score beats the previous one.
  lemma AcceptedBeats(source: seq<Byte>, target: seq<Byte>, lastoffset: int, pos: nat, scan: nat, scsc: nat, len: nat)
    requires pos <= |source| && scan < |target| && scsc <= |target| && len == Common(source, pos, target, scan)
    requires scan + len <= scsc && len > Hits(source, target, lastoffset, scan, scsc) + 8
    ensures Beats(source, target, lastoffset, pos, scan)
  {
    hide Common;
    HitsGrow(source, target, lastoffset, scan, scan + len, scsc);
  }

  lemma NoPieces(source: seq<Byte>, target: seq<Byte>, ps: seq<Piece>)
    requires Emitted(source, target, ps, |target|, OldPos(ps))
    ensures ps == [] <==> target == []
  {
    if ps != [] {
      assert Inside(source, ps, 0);
    }
  }

  // The first piece starts at the start of both files.
  lemma FirstPiece(source: seq<Byte>, target: seq<Byte>, ps: seq<Piece>) returns (pos: nat, scan: nat)
    requires Emitted(source, target, ps, |target|, OldPos(ps)) && AllJustified(source, target, ps) && target != []
    ensures ps != [] && scan <= |target| && pos <= |source| && JustifiedBy(source, target, ps, 0, pos, scan)
    ensures scan < |target| ==> Beats(source, target, 0, pos, scan)
  {
    hide Emitted, Extended, Beats;
    NoPieces(source, target, ps);
    assert Justified(source, target, ps, 0);
    pos, scan :| JustifiedBy(source, target, ps, 0, pos, scan);
    assert ps[..0] == [];
  }

  // If no match ends it, it is the only one.
  lemma OnlyPiece(source: seq<Byte>, target: seq<Byte>, ps: seq<Piece>, pos: nat, scan: nat)
    requires Emitted(source, target, ps, |target|, OldPos(ps)) && ps != [] && scan == |target|
    requires JustifiedBy(source, target, ps, 0, pos, scan)
    ensures |ps| == 1 && pos <= |source| && Extended(source, target, 0, 0, pos, scan, |ps[0].diff|, 0)
  {
    hide Extended;
    assert ps[..0] == [];
    var lenb := scan - |Output(source, ps[..1])|;
    ExtendBounds(source, target, 0, 0, pos, scan, |ps[0].diff|, lenb);
    EarlierShort(source, target, ps, 1);
  }

  lemma EarlierShort(source: seq<Byte>, target: seq<Byte>, ps: seq<Piece>, k: nat)
    requires Emitted(source, target, ps, |target|, OldPos(ps))
    ensures k < |ps| ==> |Output(source, ps[..k])| < |target|
  {
    if k < |ps| {
      assert Inside(source, ps, k);
    }
  }

  // ---- Files with nothing in common ----

  ghost predicate Strangers(source: seq<Byte>, target: seq<Byte>) {
    forall c :: c in target ==> c !in source
  }

  lemma {:induction false} StrangersDisagree(source: seq<Byte>, p: nat, target: seq<Byte>, q: nat, n: nat)
    requires Strangers(source, target) && p + n <= |source| && q + n <= |target|
    ensures Agreeing(source, p, target, q, n) == 0
    decreases n
  {
    if n > 0 {
      StrangersDisagree(source, p, target, q, n - 1);
      assert target[q + n - 1] in target;
    }
  }

  lemma StrangersNoMatch(source: seq<Byte>, pos: nat, target: seq<Byte>, scan: nat)
    requires Strangers(source, target) && pos <= |source| && scan <= |target|
    ensures Common(source, pos, target, scan) == 0
  {
    assert scan < |target| ==> target[scan] in target;
  }

  lemma StrangersStay(source: seq<Byte>, target: seq<Byte>, lastpos: nat, lastscan: nat, scan: nat, f: nat)
    requires Strangers(source, target) && lastpos <= |source| && lastscan <= scan <= |target|
    requires BestForwards(source, target, lastpos, lastscan, scan, f)
    ensures f == 0
  {
    StrangersDisagree(source, lastpos, target, lastscan, f);
    assert Worth(source, lastpos, target, lastscan, 0) <= Worth(source, lastpos, target, lastscan, f);
  }

  // The patch for strangers: one run of extra bytes, the whole new file.
  ghost predicate AllExtra(target: seq<Byte>, ps: seq<Piece>) {
    if target == [] then ps == [] else |ps| == 1 && ps[0].diff == [] && ps[0].extra == target
  }

  lemma OnePieceIsAll(source: seq<Byte>, target: seq<Byte>, ps: seq<Piece>)
    requires Emitted(source, target, ps, |target|, OldPos(ps)) && |ps| == 1 && ps[0].diff == []
    ensures ps[0].extra == target
  {
    assert ps[..0] == [] && target[..|target|] == target;
    assert Output(source, []) + Added(source, 0, []) == [];
  }

  lemma StrangersEmpty(source: seq<Byte>, target: seq<Byte>, ps: seq<Piece>)
    requires Strangers(source, target) && AllJustified(source, target, ps)
    requires Emitted(source, target, ps, |target|, OldPos(ps))
    ensures AllExtra(target, ps)
  {
    hide Emitted, Justified, Common, Hits;
    if target == [] {
      NoPieces(source, target, ps);
      return;
    }
    var pos, scan := FirstPiece(source, target, ps);
    if scan < |target| {
      StrangersNoMatch(source, pos, target, scan);
    }
    OnlyPiece(source, target, ps, pos, scan);
    var f: nat, b: nat :| ExtendedBy(source, target, 0, 0, pos, scan, |ps[0].diff|, 0, f, b);
    StrangersStay(source, target, 0, 0, scan, f);
    OnePieceIsAll(source, target, ps);
  }

  // ---- Files that have only grown ----

  lemma {:induction false} HitsAll(source: seq<Byte>, target: seq<Byte>, i: nat, j: nat)
    requires i <= j <= |target| && forall c :: i <= c < j ==> Hit(source, target, 0, c)
    ensures Hits(source, target, 0, i, j) == j - i
    decreases j
  {
    if i < j { HitsAll(source, target, i, j - 1); }
  }

  // No match anywhere beats going on at the same place.
  lemma AppendedUnbeaten(source: seq<Byte>, target: seq<Byte>, pos: nat, scan: nat)
    requires source <= target && Strangers(source, target[|source|..]) && pos <= |source| && scan <= |target|
    ensures !Beats(source, target, 0, pos, scan)
  {
    hide Common;
    var len := Common(source, pos, target, scan);
    CommonAgrees(source, pos, target, scan);
    forall c | scan <= c < scan + len
      ensures Hit(source, target, 0, c)
    {
      assert source[pos + (c - scan)] == source[pos..pos + len][c - scan] == target[scan..scan + len][c - scan];
      OldByteIsOld(source, target, c);
    }
    HitsAll(source, target, scan, scan + len);
  }

  lemma OldByteIsOld(source: seq<Byte>, target: seq<Byte>, c: nat)
    requires source <= target && Strangers(source, target[|source|..]) && c < |target| && target[c] in source
    ensures c < |source| && source[c] == target[c]
  {
    InTail(target, |source|, c);
    assert target[..|source|] == source;
  }

  lemma InTail(s: seq<Byte>, n: nat, c: nat)
    requires n <= |s| && c < |s|
    ensures c >= n ==> s[c] in s[n..]
  {
    if c >= n {
      assert s[n..][c - n] == s[c];
    }
  }

  lemma {:induction false} PrefixAgrees(source: seq<Byte>, target: seq<Byte>, n: nat)
    requires source <= target && n <= |source|
    ensures Agreeing(source, 0, target, 0, n) == n
  {
    if n > 0 { PrefixAgrees(source, target, n - 1); }
  }

  lemma PrefixBest(source: seq<Byte>, target: seq<Byte>, f: nat)
    requires source <= target && BestForwards(source, target, 0, 0, |target|, f)
    ensures f == |source|
  {
    hide Agreeing;
    PrefixAgrees(source, target, f);
    PrefixAgrees(source, target, |source|);
    assert Worth(source, 0, target, 0, |source|) <= Worth(source, 0, target, 0, f);
  }

  // The patch for a file that has been appended to with bytes of its own, or not
  // at all: one piece, whose diff is as many zeros as the old file has bytes.
  ghost predicate OneZeroPiece(n: nat, rest: seq<Byte>, ps: seq<Piece>) {
    |ps| == 1 && |ps[0].diff| == n && (forall i :: 0 <= i < n ==> ps[0].diff[i] == 0) && ps[0].extra == rest
  }

  lemma AppendedIsOnePiece(source: seq<Byte>, target: seq<Byte>, ps: seq<Piece>)
    requires source <= target && Strangers(source, target[|source|..]) && target != []
    requires Emitted(source, target, ps, |target|, OldPos(ps)) && AllJustified(source, target, ps)
    ensures OneZeroPiece(|source|, target[|source|..], ps)
  {
    hide Emitted, AllJustified, Beats, BestForwards, BestBackwards, BestCut, Strangers, JustifiedBy;
    var pos, scan := FirstPiece(source, target, ps);
    AppendedUnbeaten(source, target, pos, scan);
    OnlyPiece(source, target, ps, pos, scan);
    var f: nat, b: nat :| ExtendedBy(source, target, 0, 0, pos, scan, |ps[0].diff|, 0, f, b);
    PrefixBest(source, target, f);
    ZeroDiff(source, target, ps);
  }

  lemma SameIsOnePiece(source: seq<Byte>, ps: seq<Piece>)
    requires source != [] && Emitted(source, source, ps, |source|, OldPos(ps)) && AllJustified(source, source, ps)
    ensures OneZeroPiece(|source|, [], ps)
  {
    hide Emitted, AllJustified;
    assert source[|source|..] == [];
    AppendedIsOnePiece(source, source, ps);
  }

  lemma ZeroDiff(source: seq<Byte>, target: seq<Byte>, ps: seq<Piece>)
    requires source <= target && |ps| == 1 && |ps[0].diff| == |source|
    requires Emitted(source, target, ps, |target|, OldPos(ps))
    ensures OneZeroPiece(|source|, target[|source|..], ps)
  {
    assert ps[..0] == [] && target[..|target|] == target;
    var diff, extra := ps[0].diff, ps[0].extra;
    assert Output(source, []) == [] && Output(source, ps) == Added(source, 0, diff) + extra;
    forall i | 0 <= i < |source|
      ensures diff[i] == 0
    {
      assert target[i] == Added(source, 0, diff)[i] == AddByte(diff[i], source[i]);
      NothingAdded(diff[i], source[i]);
    }
  }

  lemma NothingAdded(x: Byte, y: Byte)
    requires AddByte(x, y) == y
    ensures x == 0
  {
  }
}
