// bspatch undoes bsdiff.

module RoundTrip {
  import opened Bytes
  import opened PatchFormat
  import opened Patch
  import PatchApply
  import opened Pieces
  import opened Delta

  // ---- Where piece k sits in each block ----

  lemma {:induction false} CtrlAt(ps: seq<Piece>, k: nat)
    requires k < |ps| && forall p :: p in ps ==> Storable(p)
    ensures CtrlBlock(ps)[24 * k..24 * k + 24] == TripleBytes(ps[k])
    decreases |ps|
  {
    hide TripleBytes, Storable;
    var front := ps[..|ps| - 1];
    if k < |front| {
      CtrlAt(front, k);
      assert CtrlBlock(ps)[24 * k..24 * k + 24] == CtrlBlock(front)[24 * k..24 * k + 24];
    }
  }

  lemma {:induction false} DiffAt(ps: seq<Piece>, k: nat)
    requires k < |ps|
    ensures var at := |DiffBlock(ps[..k])|;
            |DiffBlock(ps[..k + 1])| == at + |ps[k].diff| <= |DiffBlock(ps)|
              && DiffBlock(ps)[at..at + |ps[k].diff|] == ps[k].diff
    decreases |ps|
  {
    var front := ps[..|ps| - 1];
    assert ps[..k + 1][..k] == ps[..k];
    if k < |front| {
      DiffAt(front, k);
      assert front[..k] == ps[..k] && front[..k + 1] == ps[..k + 1];
      var at := |DiffBlock(ps[..k])|;
      assert DiffBlock(ps)[at..at + |ps[k].diff|] == DiffBlock(front)[at..at + |ps[k].diff|];
    } else {
      assert ps[..k + 1] == ps;
    }
  }

  lemma {:induction false} ExtraAt(ps: seq<Piece>, k: nat)
    requires k < |ps|
    ensures var at := |ExtraBlock(ps[..k])|;
            |ExtraBlock(ps[..k + 1])| == at + |ps[k].extra| <= |ExtraBlock(ps)|
              && ExtraBlock(ps)[at..at + |ps[k].extra|] == ps[k].extra
    decreases |ps|
  {
    var front := ps[..|ps| - 1];
    assert ps[..k + 1][..k] == ps[..k];
    if k < |front| {
      ExtraAt(front, k);
      assert front[..k] == ps[..k] && front[..k + 1] == ps[..k + 1];
      var at := |ExtraBlock(ps[..k])|;
      assert ExtraBlock(ps)[at..at + |ps[k].extra|] == ExtraBlock(front)[at..at + |ps[k].extra|];
    } else {
      assert ps[..k + 1] == ps;
    }
  }

  // ---- Replaying ----

  // The state bspatch is in after k pieces.
  ghost function After(source: seq<Byte>, ps: seq<Piece>, k: nat): Replay
    requires k <= |ps|
  {
    var q := ps[..k];
    var data := 32 + 24 * |ps|;
    Replayed(Output(source, q), OldPos(q), 32 + 24 * k, data + |DiffBlock(q)|, data + |DiffBlock(ps)| + |ExtraBlock(q)|)
  }

  ghost predicate ShortRun(p: Piece) {
    |p.diff| < INT_LIMIT && |p.extra| < INT_LIMIT
  }

  lemma Slices(h: seq<Byte>, c: seq<Byte>, d: seq<Byte>, e: seq<Byte>, i: nat, j: nat)
    requires i <= j
    ensures var f := h + c + d + e;
            && (j <= |c| ==> f[|h| + i..|h| + j] == c[i..j])
            && (j <= |d| ==> f[|h| + |c| + i..|h| + |c| + j] == d[i..j])
            && (j <= |e| ==> f[|h| + |c| + |d| + i..|h| + |c| + |d| + j] == e[i..j])
  {
  }

  lemma ThreeNumbers(f: seq<Byte>, c: nat, x: seq<Byte>, y: seq<Byte>, z: seq<Byte>)
    requires |x| == |y| == |z| == 8 && c + 24 <= |f| && f[c..c + 24] == x + y + z
    ensures f[c..c + 8] == x && f[c + 8..c + 16] == y && f[c + 16..c + 24] == z
  {
    var t := f[c..c + 24];
    SliceOfSlice(f, c, 24, 0, 8);
    SliceOfSlice(f, c, 24, 8, 16);
    SliceOfSlice(f, c, 24, 16, 24);
    assert t[0..8] == x && t[8..16] == y && t[16..24] == z;
  }

  lemma SliceOfSlice(f: seq<Byte>, c: nat, n: nat, i: nat, j: nat)
    requires i <= j <= n && c + n <= |f|
    ensures f[c..c + n][i..j] == f[c + i..c + j]
  {
    var t := f[c..c + n];
    forall k | 0 <= k < j - i
      ensures t[i..j][k] == f[c + i..c + j][k]
    {
      assert t[i..j][k] == t[i + k] == f[c + (i + k)];
    }
  }

  // What bspatch finds at those positions: the triple ...
  lemma TripleAt(ps: seq<Piece>, newsize: nat, k: nat)
    requires Fits(ps, newsize) && k < |ps|
    ensures var f, c := PatchFile(ps, newsize), 32 + 24 * k;
            && c + 24 <= |f| && OffValue(f[c..c + 8]) == |ps[k].diff|
            && OffValue(f[c + 8..c + 16]) == |ps[k].extra| && OffValue(f[c + 16..c + 24]) == ps[k].seek
  {
    hide OffBytes, OffValue, CtrlBlock, DiffBlock, ExtraBlock;
    var f, p, c := PatchFile(ps, newsize), ps[k], 32 + 24 * k;
    assert p in ps;
    CtrlAt(ps, k);
    Slices(MAGIC + OffBytes(24 * |ps|) + OffBytes(|DiffBlock(ps)|) + OffBytes(newsize), CtrlBlock(ps), DiffBlock(ps),
           ExtraBlock(ps), 24 * k, 24 * k + 24);
    assert f[c..c + 24] == TripleBytes(p);
    ThreeNumbers(f, c, OffBytes(|p.diff|), OffBytes(|p.extra|), OffBytes(p.seek));
    OffRoundTrip(|p.diff|);
    OffRoundTrip(|p.extra|);
    OffRoundTrip(p.seek);
  }

  // ... and its bytes.
  lemma DiffBytesAt(ps: seq<Piece>, newsize: nat, k: nat)
    requires Fits(ps, newsize) && k < |ps|
    ensures var f, d := PatchFile(ps, newsize), 32 + 24 * |ps| + |DiffBlock(ps[..k])|;
            d + |ps[k].diff| <= |f| && f[d..d + |ps[k].diff|] == ps[k].diff
  {
    hide OffBytes, OffValue, CtrlBlock, DiffBlock, ExtraBlock;
    DiffAt(ps, k);
    var d := |DiffBlock(ps[..k])|;
    Slices(MAGIC + OffBytes(24 * |ps|) + OffBytes(|DiffBlock(ps)|) + OffBytes(newsize), CtrlBlock(ps), DiffBlock(ps),
           ExtraBlock(ps), d, d + |ps[k].diff|);
  }

  lemma ExtraBytesAt(ps: seq<Piece>, newsize: nat, k: nat)
    requires Fits(ps, newsize) && k < |ps|
    ensures var f, e := PatchFile(ps, newsize), 32 + 24 * |ps| + |DiffBlock(ps)| + |ExtraBlock(ps[..k])|;
            e + |ps[k].extra| <= |f| && f[e..e + |ps[k].extra|] == ps[k].extra
  {
    hide OffBytes, OffValue, CtrlBlock, DiffBlock, ExtraBlock;
    ExtraAt(ps, k);
    var e := |ExtraBlock(ps[..k])|;
    Slices(MAGIC + OffBytes(24 * |ps|) + OffBytes(|DiffBlock(ps)|) + OffBytes(newsize), CtrlBlock(ps), DiffBlock(ps),
           ExtraBlock(ps), e, e + |ps[k].extra|);
  }

  lemma AfterNext(source: seq<Byte>, ps: seq<Piece>, k: nat)
    requires k < |ps|
    ensures var st, p := After(source, ps, k), ps[k];
            After(source, ps, k + 1) == Replayed(st.out + Added(source, st.oldpos, p.diff) + p.extra,
              st.oldpos + |p.diff| + p.seek, st.c + 24, st.d + |p.diff|, st.e + |p.extra|)
  {
    assert ps[..k + 1][..k] == ps[..k];
  }

  lemma EmittedPiece(source: seq<Byte>, target: seq<Byte>, ps: seq<Piece>, k: nat)
    requires Emitted(source, target, ps, |target|, OldPos(ps)) && k <= |ps|
    ensures k < |ps| ==> |Output(source, ps[..k])| < |target|
    ensures |Output(source, ps[..k])| <= |target|
    ensures k == |ps| ==> Output(source, ps[..k]) == target
  {
    OutputPrefix(source, ps, k);
    if k == |ps| {
      assert ps[..k] == ps;
    } else {
      assert Inside(source, ps, k);
    }
  }

  // One round of the loop on a state that faces piece p.
  lemma ApplyOne(source: seq<Byte>, f: seq<Byte>, newsize: nat, st: Replay, p: Piece)
    requires st.Replayed? && |st.out| < newsize && |st.out| + |p.diff| + |p.extra| <= newsize
    requires st.c + 24 <= |f| && OffValue(f[st.c..st.c + 8]) == |p.diff|
    requires OffValue(f[st.c + 8..st.c + 16]) == |p.extra| && OffValue(f[st.c + 16..st.c + 24]) == p.seek
    requires st.d + |p.diff| <= |f| && f[st.d..st.d + |p.diff|] == p.diff
    requires st.e + |p.extra| <= |f| && f[st.e..st.e + |p.extra|] == p.extra
    ensures Apply(source, f, newsize, st)
         == if ShortRun(p) then
              Apply(source, f, newsize, Replayed(st.out + Added(source, st.oldpos, p.diff) + p.extra,
                                                 st.oldpos + |p.diff| + p.seek, st.c + 24, st.d + |p.diff|,
                                                 st.e + |p.extra|))
            else Corrupt
  {
    hide OffValue, Added;
  }

  lemma ReplayOne(source: seq<Byte>, target: seq<Byte>, ps: seq<Piece>, k: nat)
    requires Fits(ps, |target|) && Emitted(source, target, ps, |target|, OldPos(ps)) && k < |ps|
    ensures |After(source, ps, k).out| <= |target| && |After(source, ps, k + 1).out| <= |target|
    ensures Apply(source, PatchFile(ps, |target|), |target|, After(source, ps, k))
         == if ShortRun(ps[k]) then Apply(source, PatchFile(ps, |target|), |target|, After(source, ps, k + 1))
         else Corrupt
  {
    hide OffBytes, OffValue, PatchFile, Added, Emitted, Output, OldPos, DiffBlock, ExtraBlock, Apply, ShortRun, Fits;
    EmittedPiece(source, target, ps, k);
    EmittedPiece(source, target, ps, k + 1);
    AfterNext(source, ps, k);
    TripleAt(ps, |target|, k);
    DiffBytesAt(ps, |target|, k);
    ExtraBytesAt(ps, |target|, k);
    ApplyOne(source, PatchFile(ps, |target|), |target|, After(source, ps, k), ps[k]);
  }

  lemma AppliedAll(source: seq<Byte>, f: seq<Byte>, newsize: nat, st: Replay)
    requires st.Replayed? && |st.out| == newsize
    ensures Apply(source, f, newsize, st) == st
  {
  }

  // From any piece on, the replay succeeds exactly if all remaining runs fit in
  // an int, and then it has consumed all three blocks to their last byte.
  lemma {:induction false} ReplayFrom(source: seq<Byte>, target: seq<Byte>, ps: seq<Piece>, k: nat)
    requires Fits(ps, |target|) && Emitted(source, target, ps, |target|, OldPos(ps)) && k <= |ps|
    ensures |After(source, ps, k).out| <= |target|
    ensures Apply(source, PatchFile(ps, |target|), |target|, After(source, ps, k))
         == if forall j :: k <= j < |ps| ==> ShortRun(ps[j]) then After(source, ps, |ps|) else Corrupt
    decreases |ps| - k
  {
    hide OffBytes, OffValue, PatchFile, Added, Emitted, Output, OldPos, DiffBlock, ExtraBlock, ShortRun, Fits, Apply;
    EmittedPiece(source, target, ps, k);
    if k == |ps| {
      AppliedAll(source, PatchFile(ps, |target|), |target|, After(source, ps, k));
    } else {
      ReplayOne(source, target, ps, k);
      if ShortRun(ps[k]) {
        ReplayFrom(source, target, ps, k + 1);
      }
    }
  }

  // Replaying a patch emitted for target: bspatch ends with exactly target, having
  // consumed exactly the triples, diff bytes and extra bytes that were written --
  // unless some run is too long for the int that its stream reader takes.
  lemma PatchReplays(source: seq<Byte>, target: seq<Byte>, ps: seq<Piece>)
    requires Fits(ps, |target|) && Emitted(source, target, ps, |target|, OldPos(ps))
    ensures var f, r := PatchFile(ps, |target|), Patched(source, PatchFile(ps, |target|));
            if forall p :: p in ps ==> ShortRun(p) then
              r == Replayed(target, OldPos(ps), 32 + |CtrlBlock(ps)|, 32 + |CtrlBlock(ps)| + |DiffBlock(ps)|, |f|)
            else r == Corrupt
  {
    hide OffBytes, OffValue, Emitted, Apply, ShortRun, Output, OldPos, DiffBlock, ExtraBlock, CtrlBlock;
    var f := PatchFile(ps, |target|);
    HeaderReads(ps, |target|);
    StartsEmpty(source, ps);
    EmittedPiece(source, target, ps, |ps|);
    ReplayFrom(source, target, ps, 0);
    assert ps[..|ps|] == ps;
    assert (forall p :: p in ps ==> ShortRun(p)) <==> forall j :: 0 <= j < |ps| ==> ShortRun(ps[j]);
  }

  lemma StartsEmpty(source: seq<Byte>, ps: seq<Piece>)
    ensures After(source, ps, 0) == Replayed([], 0, 32, 32 + 24 * |ps|, 32 + 24 * |ps| + |DiffBlock(ps)|)
  {
  }

  lemma HeaderReads(ps: seq<Piece>, newsize: nat)
    requires Fits(ps, newsize)
    ensures var f := PatchFile(ps, newsize);
            && |f| >= 32 && f[..8] == MAGIC && OffValue(f[8..16]) == 24 * |ps|
            && OffValue(f[16..24]) == |DiffBlock(ps)| && OffValue(f[24..32]) == newsize
  {
    hide OffBytes, OffValue, CtrlBlock, DiffBlock, ExtraBlock;
    var f := PatchFile(ps, newsize);
    assert f[8..16] == OffBytes(24 * |ps|) && f[16..24] == OffBytes(|DiffBlock(ps)|) && f[24..32] == OffBytes(newsize);
    OffRoundTrip(24 * |ps|);
    OffRoundTrip(|DiffBlock(ps)|);
    OffRoundTrip(newsize);
  }

  lemma RunsFitTarget(source: seq<Byte>, ps: seq<Piece>, p: Piece)
    requires p in ps
    ensures |p.diff| + |p.extra| <= |Output(source, ps)|
  {
  }

  // ---- Files cut short, and files with something behind them ----

  lemma DeliversMore(f: seq<Byte>, tail: seq<Byte>, at: nat, len: int)
    requires Delivers(f, at, len)
    ensures Delivers(f + tail, at, len) && Delivered(f + tail, at, len) == Delivered(f, at, len)
    ensures len > 0 ==> at + len <= |f|
  {
  }

  // What is behind the bytes that are read makes no difference, and nothing is
  // read that is not there.
  lemma {:induction false} AppliesMore(source: seq<Byte>, f: seq<Byte>, tail: seq<Byte>, newsize: nat, st: Replay)
    requires st.Replayed? && |st.out| <= newsize && Apply(source, f, newsize, st).Replayed?
    ensures var r := Apply(source, f, newsize, st);
            && Apply(source, f + tail, newsize, st) == r && st.c <= r.c && st.d <= r.d && st.e <= r.e
            && (st.c < r.c ==> r.c <= |f|) && (st.d < r.d ==> r.d <= |f|) && (st.e < r.e ==> r.e <= |f|)
    decreases |f| - st.c
  {
    hide OffValue, Added, Delivers, Delivered;
    if |st.out| < newsize {
      var c := st.c;
      SliceMore(f, tail, c, c + 8);
      SliceMore(f, tail, c + 8, c + 16);
      SliceMore(f, tail, c + 16, c + 24);
      var add, copy := OffValue(f[c..c + 8]), OffValue(f[c + 8..c + 16]);
      DeliversMore(f, tail, st.d, add);
      DeliversMore(f, tail, st.e, copy);
      DeliversNat(f, st.d, add);
      DeliversNat(f, st.e, copy);
      var next := Replayed(st.out + Added(source, st.oldpos, Delivered(f, st.d, add)) + Delivered(f, st.e, copy),
                           st.oldpos + add + OffValue(f[c + 16..c + 24]), c + 24, st.d + add, st.e + copy);
      AppliesMore(source, f, tail, newsize, next);
    }
  }

  lemma SliceMore(f: seq<Byte>, tail: seq<Byte>, i: nat, j: nat)
    requires i <= j <= |f|
    ensures (f + tail)[i..j] == f[i..j]
  {
  }

  lemma DeliversNat(f: seq<Byte>, at: nat, len: int)
    requires Delivers(f, at, len)
    ensures len >= 0
  {
  }

  lemma PatchedMore(source: seq<Byte>, f: seq<Byte>, tail: seq<Byte>)
    requires Patched(source, f).Replayed?
    ensures var r := Patched(source, f);
            && Patched(source, f + tail) == r && |f| >= 32 && (32 < r.c ==> r.c <= |f|)
            && (32 + OffValue(f[8..16]) < r.d ==> r.d <= |f|)
            && (32 + OffValue(f[8..16]) + OffValue(f[16..24]) < r.e ==> r.e <= |f|)
  {
    hide OffValue, Apply;
    var g := f + tail;
    assert g[..8] == f[..8] && g[8..16] == f[8..16] && g[16..24] == f[16..24] && g[24..32] == f[24..32];
    var ctrllen, datalen := OffValue(f[8..16]), OffValue(f[16..24]);
    AppliesMore(source, f, tail, OffValue(f[24..32]), Replayed([], 0, 32, 32 + ctrllen, 32 + ctrllen + datalen));
  }

  // A patch with anything appended to it still gives the new file ...
  lemma TrailingIgnored(source: seq<Byte>, target: seq<Byte>, ps: seq<Piece>, tail: seq<Byte>)
    requires Fits(ps, |target|) && Emitted(source, target, ps, |target|, OldPos(ps))
    requires forall p :: p in ps ==> ShortRun(p)
    ensures var r := Patched(source, PatchFile(ps, |target|) + tail); r.Replayed? && r.out == target
  {
    hide PatchFile, Patched, ShortRun, Emitted;
    PatchReplays(source, target, ps);
    PatchedMore(source, PatchFile(ps, |target|), tail);
  }

  // ... and one that is cut short anywhere is rejected.
  lemma TruncatedRejected(source: seq<Byte>, target: seq<Byte>, ps: seq<Piece>, n: nat)
    requires Fits(ps, |target|) && Emitted(source, target, ps, |target|, OldPos(ps)) && n < |PatchFile(ps, |target|)|
    ensures Patched(source, PatchFile(ps, |target|)[..n]) == Corrupt
  {
    hide PatchFile, Patched, ShortRun, Emitted, OffValue, CtrlBlock, DiffBlock, ExtraBlock;
    var f := PatchFile(ps, |target|);
    var q := f[..n];
    if Patched(source, q).Replayed? {
      assert q + f[n..] == f;
      HeaderReads(ps, |target|);
      FileLength(ps, |target|);
      PatchReplays(source, target, ps);
      HeaderCut(f, n);
      PatchedMore(source, q, f[n..]);
    }
  }

  lemma HeaderCut(f: seq<Byte>, n: nat)
    requires n <= |f|
    ensures n >= 32 ==> f[..n][8..16] == f[8..16] && f[..n][16..24] == f[16..24]
  {
  }

  lemma FileLength(ps: seq<Piece>, newsize: nat)
    requires Fits(ps, newsize)
    ensures |PatchFile(ps, newsize)| == 32 + 24 * |ps| + |DiffBlock(ps)| + |ExtraBlock(ps)|
    ensures |CtrlBlock(ps)| == 24 * |ps|
  {
    hide OffBytes;
  }

  // ---- A patch has only one reading ----

  lemma {:induction false} PiecesAgree(ps: seq<Piece>, qs: seq<Piece>, n: nat, k: nat)
    requires Fits(ps, n) && Fits(qs, n) && PatchFile(ps, n) == PatchFile(qs, n)
    requires |ps| == |qs| && |DiffBlock(ps)| == |DiffBlock(qs)| && k <= |ps|
    ensures ps[..k] == qs[..k]
  {
    hide Fits, PatchFile, OffValue, DiffBlock, ExtraBlock;
    if k > 0 {
      PiecesAgree(ps, qs, n, k - 1);
      TripleAt(ps, n, k - 1);
      TripleAt(qs, n, k - 1);
      DiffBytesAt(ps, n, k - 1);
      DiffBytesAt(qs, n, k - 1);
      ExtraBytesAt(ps, n, k - 1);
      ExtraBytesAt(qs, n, k - 1);
      assert ps[..k] == ps[..k - 1] + [ps[k - 1]] && qs[..k] == qs[..k - 1] + [qs[k - 1]];
    }
  }

  // The pieces of a patch file can be read off it: no other pieces give that file.
  lemma PiecesUnique(ps: seq<Piece>, qs: seq<Piece>, m: nat, n: nat)
    requires Fits(ps, m) && Fits(qs, n) && PatchFile(ps, m) == PatchFile(qs, n)
    ensures ps == qs && m == n
  {
    hide Fits, PatchFile, OffValue, DiffBlock;
    HeaderReads(ps, m);
    HeaderReads(qs, n);
    PiecesAgree(ps, qs, n, |ps|);
    assert ps[..|ps|] == ps && qs[..|ps|] == qs;
  }

  // An input that fails: no old file to speak of, and 2^31 bytes or more that
  // therefore make one run of extra bytes.
  lemma LongRunFails(target: seq<Byte>)
    requires INT_LIMIT <= |target| < TARGET_LIMIT
    ensures var ps := [Piece([], target, 0)];
            Fits(ps, |target|) && IsDelta([], target, PatchFile(ps, |target|), ps)
              && Patched([], PatchFile(ps, |target|)) == Corrupt
  {
    hide PatchFile, Patched, OffBytes;
    var p := Piece([], target, 0);
    assert Output([], [p]) == target by {
      assert [p][..0] == [] && Output([], []) + Added([], 0, []) + target == target;
    }
    assert OldPos([p]) == 0 && DiffBlock([p]) == [];
    assert target[..|target|] == target;
    PatchReplays([], target, [p]);
    assert p in [p];
  }

  // ---- Both programs in a row ----

  lemma EmptyIsStranger(target: seq<Byte>)
    ensures Strangers([], target)
  {
  }

  lemma ExtraRuns(target: seq<Byte>, ps: seq<Piece>)
    requires AllExtra(target, ps)
    ensures (forall p :: p in ps ==> ShortRun(p)) <==> |target| < INT_LIMIT
  {
    assert ps != [] ==> ps[0] in ps;
  }

  // bspatch never writes a wrong file, and it writes target exactly when no run
  // in the patch is too long for an int -- which can be read off the patch, and
  // which a target below 2^31 bytes guarantees.  Files with no byte in common
  // show that the limit is real: there the size of target alone decides.
  method DiffThenPatch(source: seq<Byte>, target: seq<Byte>)
    returns (patch: seq<Byte>, r: PatchApply.Result, ghost ps: seq<Piece>)
    requires |source| < OFF_LIMIT && |target| < TARGET_LIMIT
    ensures IsDelta(source, target, patch, ps) && AllJustified(source, target, ps) && Chosen(source, target, ps)
    ensures r == if forall p :: p in ps ==> ShortRun(p) then PatchApply.Success(target) else PatchApply.CorruptPatch
    ensures |target| < INT_LIMIT ==> r == PatchApply.Success(target)
    ensures Strangers(source, target) ==>
              r == if |target| < INT_LIMIT then PatchApply.Success(target) else PatchApply.CorruptPatch
    ensures source == [] && |target| >= INT_LIMIT ==> r == PatchApply.CorruptPatch
  {
    hide Emitted, Output, PatchFile, Fits, OldPos, CtrlBlock, DiffBlock, Strangers, AllJustified, Chosen;
    EmptyIsStranger(target);
    patch := Bsdiff(source, target);
    ps :| IsDelta(source, target, patch, ps) && AllJustified(source, target, ps) && Chosen(source, target, ps)
          && (Strangers(source, target) ==> AllExtra(target, ps));
    r := PatchApply.Bspatch(source, patch);
    PatchReplays(source, target, ps);
    EmittedPiece(source, target, ps, |ps|);
    assert ps[..|ps|] == ps;
    forall p | p in ps
      ensures |p.diff| + |p.extra| <= |target|
    {
      RunsFitTarget(source, ps, p);
    }
    if Strangers(source, target) { ExtraRuns(target, ps); }
  }
}
