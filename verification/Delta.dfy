// The match, extend and emit loop of bsdiff.

module Delta {
  import opened Bytes
  import opened SuffixArrays
  import opened PrefixSearch
  import opened Extension
  import opened PatchFormat
  import opened Patch
  import opened Pieces

  // ---- The scan ----

  // A byte that search cannot match at all does not occur in source.
  lemma MatchesIffOccurs(source: seq<Byte>, I: seq<int>, target: seq<Byte>, scan: nat)
    requires SuffixArray(source, I) && scan < |target|
    ensures Matches(source, I, target, scan, 0, |source|) <==> target[scan] in source
  {
    if target[scan] in source {
      var a :| 0 <= a < |source| && source[a] == target[scan];
      assert a in I;
      var x :| 0 <= x < |I| && I[x] == a;
      assert Common(source, I[x], target, scan) > 0;
    }
  }

  // Counts the bytes newly covered by the match, and moves scsc to its end.
  method Cover(source: seq<Byte>, target: seq<Byte>, lastoffset: int, scan: nat, len: nat, scsc: nat, oldscore: nat)
    returns (scsc': nat, oldscore': nat)
    requires scan + len <= |target| && scsc <= |target| && 0 <= scan + lastoffset && 0 <= scsc + lastoffset
    requires oldscore == Hits(source, target, lastoffset, scan, scsc)
    requires forall p :: scsc <= p < scan ==> target[p] !in source
    ensures scsc' == if scsc < scan + len then scan + len else scsc
    ensures oldscore' == Hits(source, target, lastoffset, scan, scsc')
  {
    scsc', oldscore' := scsc, oldscore;
    while scsc' < scan + len
      invariant scsc <= scsc' && scsc' <= (if scsc < scan + len then scan + len else scsc)
      invariant oldscore' == Hits(source, target, lastoffset, scan, scsc')
    {
      if scsc' + lastoffset < |source| && source[scsc' + lastoffset] == target[scsc'] {
        oldscore' := oldscore' + 1;
      }
      scsc' := scsc' + 1;
    }
  }

  // A match is worth stopping at: it is what the previous one predicts, or more
  // than eight bytes better than that.
  predicate Accepted(len: nat, oldscore: nat) {
    (len == oldscore && len != 0) || len > oldscore + 8
  }

  // The position that a search for target[p..] in all of source answers.
  ghost function Found(source: seq<Byte>, I: seq<int>, target: seq<Byte>, p: nat): (pos: nat)
    requires SuffixArray(source, I) && p <= |target|
    ensures pos <= |source|
  {
    I[Bisected(source, I, target, p, 0, |source|)]
  }

  // len is the length of what a search for target[p..] in all of source answers.
  ghost predicate Answered(source: seq<Byte>, I: seq<int>, target: seq<Byte>, p: nat, len: nat)
    requires SuffixArray(source, I) && p <= |target|
  {
    len == Common(source, Found(source, I, target, p), target, p)
  }

  // One round of the scan loop: search, count, and either stop or step over a byte.
  // The count is right even when scsc has fallen behind scan, and is never taken below zero.
  method ScanStep(I: array<int>, source: seq<Byte>, target: seq<Byte>, lastoffset: int, scan: nat, scsc: nat,
                  oldscore: nat)
    returns (found: bool, len: nat, pos: nat, scsc': nat, oldscore': nat)
    requires SuffixArray(source, I[..]) && scan < |target| && scsc <= |target|
    requires 0 <= scan + lastoffset && 0 <= scsc + lastoffset
    requires oldscore == Hits(source, target, lastoffset, scan, scsc)
    requires forall p :: scsc <= p < scan ==> target[p] !in source
    ensures pos <= |source| && len == Common(source, pos, target, scan) && scsc <= scsc' <= |target|
    ensures scsc' == (if scsc < scan + len then scan + len else scsc) && Answered(source, I[..], target, scan, len)
    ensures pos == Found(source, I[..], target, scan)
    ensures var predicted := Hits(source, target, lastoffset, scan, scsc');
            found <==> 0 < len == predicted || len > predicted + 8
    ensures oldscore' == Hits(source, target, lastoffset, if found then scan else scan + 1, scsc')
    ensures !found ==> forall p :: scsc' <= p < scan + 1 ==> target[p] !in source
  {
    hide LongestAmong, Misled, Bisected;
    ghost var k;
    len, pos, k := Search(I, source, target, scan, 0, |source|);
    MatchesIffOccurs(source, I[..], target, scan);
    scsc', oldscore' := Cover(source, target, lastoffset, scan, len, scsc, oldscore);
    if Accepted(len, oldscore') {
      return true, len, pos, scsc', oldscore';
    }
    found := false;
    if scan < scsc' {
      HitsFront(source, target, lastoffset, scan, scsc');
    }
    if scan + lastoffset < |source| && source[scan + lastoffset] == target[scan] {
      oldscore' := oldscore' - 1;
    }
  }

  // The end of what the matches found from start on, one at each byte, have covered.
  ghost function Covered(start: nat, lens: seq<nat>): (c: nat)
    ensures c >= start
    decreases |lens|
  {
    if lens == [] then start
    else
      var front, last := Covered(start, lens[..|lens| - 1]), start + |lens| - 1 + lens[|lens| - 1];
      if front < last then last else front
  }

  // The match found at start + n was no reason to stop.
  ghost predicate Rejected(source: seq<Byte>, target: seq<Byte>, lastoffset: int, start: nat, lens: seq<nat>, n: nat)
    requires n < |lens|
  {
    var c := Covered(start, lens[..n + 1]);
    c <= |target| && !Accepted(lens[n], Hits(source, target, lastoffset, start + n, c))
  }

  // Every match found before scan was answered and rejected.
  ghost predicate Passed(source: seq<Byte>, I: seq<int>, target: seq<Byte>, lastoffset: int, start: nat, lens: seq<nat>)
    requires SuffixArray(source, I) && start + |lens| <= |target|
  {
    forall n :: 0 <= n < |lens| ==>
      Answered(source, I, target, start + n, lens[n]) && Rejected(source, target, lastoffset, start, lens, n)
  }

  lemma PassedNone(source: seq<Byte>, I: seq<int>, target: seq<Byte>, lastoffset: int, start: nat)
    requires SuffixArray(source, I) && start <= |target|
    ensures Passed(source, I, target, lastoffset, start, []) && Covered(start, []) == start
  {
  }

  lemma PassedMore(source: seq<Byte>, I: seq<int>, target: seq<Byte>, lastoffset: int, start: nat, lens: seq<nat>,
                   len: nat)
    requires SuffixArray(source, I) && start + |lens| < |target| && Passed(source, I, target, lastoffset, start, lens)
    requires Answered(source, I, target, start + |lens|, len)
    requires var c := Covered(start, lens + [len]);
             c <= |target| && !Accepted(len, Hits(source, target, lastoffset, start + |lens|, c))
    ensures Passed(source, I, target, lastoffset, start, lens + [len])
  {
    hide Answered, Hits, Covered, SuffixArray;
    var more := lens + [len];
    forall n | 0 <= n < |more|
      ensures Answered(source, I, target, start + n, more[n]) && Rejected(source, target, lastoffset, start, more, n)
    {
      if n < |lens| {
        assert Rejected(source, target, lastoffset, start, lens, n);
        assert more[..n + 1] == lens[..n + 1];
      } else {
        assert more[..n + 1] == more;
      }
    }
  }

  lemma CoveredMore(start: nat, lens: seq<nat>, len: nat)
    ensures var c := Covered(start, lens);
            Covered(start, lens + [len]) == if c < start + |lens| + len then start + |lens| + len else c
  {
    assert (lens + [len])[..|lens|] == lens;
  }

  // The scan loop: it stops at the first match that is accepted, or at the end.
  method Scan(I: array<int>, source: seq<Byte>, target: seq<Byte>, lastoffset: int, start: nat, len0: nat, pos0: nat)
    returns (scan: nat, len: nat, pos: nat, oldscore: nat, scsc: nat, ghost lens: seq<nat>)
    requires SuffixArray(source, I[..]) && start <= |target| && 0 <= start + lastoffset && pos0 <= |source|
    ensures start <= scan <= |target| && pos <= |source| && scsc <= |target|
    ensures oldscore == Hits(source, target, lastoffset, scan, scsc)
    ensures |lens| == scan - start && Passed(source, I[..], target, lastoffset, start, lens)
    ensures scan == |target| ==> scsc == Covered(start, lens)
    ensures pos == if scan < |target| then Found(source, I[..], target, scan)
                   else if lens == [] then pos0 else Found(source, I[..], target, scan - 1)
    ensures scan < |target| ==>
              len == Common(source, pos, target, scan) && scsc == Covered(start, lens + [len])
                && Answered(source, I[..], target, scan, len) && Accepted(len, oldscore)
  {
    hide SuffixArray, Common, Hits, Passed, Answered, Found;
    scan, len, pos, oldscore := start, len0, pos0, 0;
    scsc, lens := start, [];
    PassedNone(source, I[..], target, lastoffset, start);
    NoHits(source, target, lastoffset, start);
    while scan < |target|
      invariant start <= scan <= |target| && start <= scsc <= |target| && pos <= |source|
      invariant oldscore == Hits(source, target, lastoffset, scan, scsc)
      invariant forall p :: scsc <= p < scan ==> target[p] !in source
      invariant pos == if scan == start then pos0 else Found(source, I[..], target, scan - 1)
      invariant |lens| == scan - start && Passed(source, I[..], target, lastoffset, start, lens)
      invariant scsc == Covered(start, lens)
    {
      var found;
      found, len, pos, scsc, oldscore := ScanStep(I, source, target, lastoffset, scan, scsc, oldscore);
      CoveredMore(start, lens, len);
      if found {
        break;
      }
      PassedMore(source, I[..], target, lastoffset, start, lens, len);
      lens := lens + [len];
      scan := scan + 1;
    }
  }

  // ---- All scans of a run ----

  // One scan: where it starts, the offset and the position of the previous match,
  // the lengths of the matches passed over, and where and with what it stops.
  datatype Stop = Stop(from: nat, offset: int, before: nat, lens: seq<nat>, scan: nat, pos: nat, len: nat)

  ghost predicate Stops(source: seq<Byte>, I: seq<int>, target: seq<Byte>, x: Stop)
    requires SuffixArray(source, I)
  {
    && x.from + |x.lens| == x.scan <= |target|
    && Passed(source, I, target, x.offset, x.from, x.lens)
    && x.pos == (if x.scan < |target| then Found(source, I, target, x.scan)
                 else if x.lens == [] then x.before else Found(source, I, target, x.scan - 1))
    && (x.scan < |target| ==>
          var c := Covered(x.from, x.lens + [x.len]);
          && c <= |target| && Answered(source, I, target, x.scan, x.len)
          && Accepted(x.len, Hits(source, target, x.offset, x.scan, c)))
    && (x.scan == |target| ==> x.len == 0)
  }

  // A scan ends the current piece unless it stops at just what the previous match
  // predicts.
  ghost predicate Emits(source: seq<Byte>, target: seq<Byte>, x: Stop) {
    var c := Covered(x.from, x.lens + [x.len]);
    x.scan >= |target| || c > |target| || x.len != Hits(source, target, x.offset, x.scan, c)
  }

  // Where the next scan starts, the offset it compares with, and the last position
  // found.
  ghost function NextFrom(tr: seq<Stop>): nat {
    if tr == [] then 0 else tr[|tr| - 1].scan + tr[|tr| - 1].len
  }

  ghost function NextOffset(source: seq<Byte>, target: seq<Byte>, tr: seq<Stop>): int {
    if tr == [] then 0
    else
      var x := tr[|tr| - 1];
      if Emits(source, target, x) then x.pos - x.scan else x.offset
  }

  ghost function NextPos(tr: seq<Stop>): nat {
    if tr == [] then 0 else tr[|tr| - 1].pos
  }

  ghost predicate Trace(source: seq<Byte>, I: seq<int>, target: seq<Byte>, tr: seq<Stop>)
    requires SuffixArray(source, I)
  {
    forall m :: 0 <= m < |tr| ==>
      && Stops(source, I, target, tr[m])
      && tr[m].from == NextFrom(tr[..m]) && tr[m].offset == NextOffset(source, target, tr[..m])
      && tr[m].before == NextPos(tr[..m]) && (m + 1 < |tr| ==> tr[m].scan < |target|)
  }

  ghost function Cutters(source: seq<Byte>, target: seq<Byte>, tr: seq<Stop>): seq<Stop> {
    if tr == [] then []
    else
      var x := tr[|tr| - 1];
      Cutters(source, target, tr[..|tr| - 1]) + if Emits(source, target, x) then [x] else []
  }

  // The pieces are those that the scans end, one after another.
  ghost predicate Traced(source: seq<Byte>, I: seq<int>, target: seq<Byte>, tr: seq<Stop>, ps: seq<Piece>)
    requires SuffixArray(source, I)
  {
    var cut := Cutters(source, target, tr);
    && Trace(source, I, target, tr) && |cut| == |ps|
    && forall k :: 0 <= k < |ps| ==> JustifiedBy(source, target, ps, k, cut[k].pos, cut[k].scan)
  }

  // The last scan reached the end of target.
  ghost predicate Finished(target: seq<Byte>, tr: seq<Stop>) {
    if target == [] then tr == [] else tr != [] && tr[|tr| - 1].scan == |target|
  }

  lemma TraceNext(source: seq<Byte>, I: seq<int>, target: seq<Byte>, tr: seq<Stop>, x: Stop)
    requires SuffixArray(source, I) && Trace(source, I, target, tr) && Stops(source, I, target, x)
    requires x.from == NextFrom(tr) && x.offset == NextOffset(source, target, tr) && x.before == NextPos(tr)
    requires tr != [] ==> tr[|tr| - 1].scan < |target|
    ensures Trace(source, I, target, tr + [x])
    ensures Cutters(source, target, tr + [x])
         == Cutters(source, target, tr) + if Emits(source, target, x) then [x] else []
    ensures NextFrom(tr + [x]) == x.scan + x.len && NextPos(tr + [x]) == x.pos
    ensures NextOffset(source, target, tr + [x]) == if Emits(source, target, x) then x.pos - x.scan else x.offset
  {
    hide SuffixArray, Stops, Emits, NextFrom, NextOffset, NextPos;
    var more := tr + [x];
    assert more[..|tr|] == tr;
    forall m | 0 <= m < |more|
      ensures && Stops(source, I, target, more[m])
              && more[m].from == NextFrom(more[..m]) && more[m].offset == NextOffset(source, target, more[..m])
              && more[m].before == NextPos(more[..m]) && (m + 1 < |more| ==> more[m].scan < |target|)
    {
      if m < |tr| {
        assert more[..m] == tr[..m];
      }
    }
    LastStop(source, target, tr, x);
  }

  lemma LastStop(source: seq<Byte>, target: seq<Byte>, tr: seq<Stop>, x: Stop)
    ensures NextFrom(tr + [x]) == x.scan + x.len && NextPos(tr + [x]) == x.pos
    ensures NextOffset(source, target, tr + [x]) == if Emits(source, target, x) then x.pos - x.scan else x.offset
  {
    hide Emits;
  }

  lemma TracedQuiet(source: seq<Byte>, I: seq<int>, target: seq<Byte>, tr: seq<Stop>, x: Stop, ps: seq<Piece>)
    requires SuffixArray(source, I) && Traced(source, I, target, tr, ps) && Trace(source, I, target, tr + [x])
    requires Cutters(source, target, tr + [x]) == Cutters(source, target, tr)
    ensures Traced(source, I, target, tr + [x], ps)
  {
    hide SuffixArray, Trace, JustifiedBy, Cutters;
  }

  lemma TracedEmits(source: seq<Byte>, I: seq<int>, target: seq<Byte>, tr: seq<Stop>, x: Stop, ps: seq<Piece>, p: Piece)
    requires SuffixArray(source, I) && Traced(source, I, target, tr, ps) && Trace(source, I, target, tr + [x])
    requires Cutters(source, target, tr + [x]) == Cutters(source, target, tr) + [x]
    requires JustifiedBy(source, target, ps + [p], |ps|, x.pos, x.scan)
    ensures Traced(source, I, target, tr + [x], ps + [p])
  {
    hide SuffixArray, Trace, JustifiedBy, Cutters;
    var cut := Cutters(source, target, tr);
    forall k | 0 <= k < |ps|
      ensures JustifiedBy(source, target, ps + [p], k, (cut + [x])[k].pos, (cut + [x])[k].scan)
    {
      JustifiedKept(source, target, ps, p, k, cut[k].pos, cut[k].scan);
    }
  }

  lemma TracedJustified(source: seq<Byte>, I: seq<int>, target: seq<Byte>, tr: seq<Stop>, ps: seq<Piece>)
    requires SuffixArray(source, I) && Traced(source, I, target, tr, ps)
    ensures AllJustified(source, target, ps)
  {
    hide SuffixArray, Trace, JustifiedBy, Cutters;
    var cut := Cutters(source, target, tr);
    forall k | 0 <= k < |ps|
      ensures Justified(source, target, ps, k)
    {
      assert JustifiedBy(source, target, ps, k, cut[k].pos, cut[k].scan);
    }
  }

  lemma TracedStart(source: seq<Byte>, I: seq<int>, target: seq<Byte>)
    requires SuffixArray(source, I)
    ensures Traced(source, I, target, [], [])
  {
  }

  // What Scan found out, as one stop.
  lemma StopIs(source: seq<Byte>, I: seq<int>, target: seq<Byte>, x: Stop, oldscore: nat, scsc: nat)
    requires SuffixArray(source, I) && x.from + |x.lens| == x.scan <= |target| && scsc <= |target|
    requires x.pos == if x.scan < |target| then Found(source, I, target, x.scan)
                      else if x.lens == [] then x.before else Found(source, I, target, x.scan - 1)
    requires Passed(source, I, target, x.offset, x.from, x.lens)
    requires oldscore == Hits(source, target, x.offset, x.scan, scsc) && (x.scan == |target| ==> x.len == 0)
    requires x.scan < |target| ==>
               scsc == Covered(x.from, x.lens + [x.len])
               && Answered(source, I, target, x.scan, x.len) && Accepted(x.len, oldscore)
    ensures Stops(source, I, target, x)
    ensures Emits(source, target, x) <==> x.len != oldscore || x.scan == |target|
  {
    hide SuffixArray, Passed, Answered, Common, Hits, Covered, Found;
  }

  // ---- Emission ----

  method Extend(source: seq<Byte>, target: seq<Byte>, lastpos: nat, lastscan: nat, pos: nat, scan: nat)
    returns (lenf: nat, lenb: nat)
    requires lastpos <= |source| && pos <= |source| && lastscan <= scan <= |target|
    ensures Extended(source, target, lastpos, lastscan, pos, scan, lenf, lenb)
  {
    lenf := Forwards(source, target, lastpos, lastscan, scan);
    lenb := 0;
    if scan < |target| {
      lenb := Backwards(source, target, pos, lastscan, scan);
    }
    ghost var f, b := lenf, lenb;
    if lastscan + lenf > scan - lenb {
      var overlap := (lastscan + lenf) - (scan - lenb);
      var lens := Divide(source, target, lastpos + lenf - overlap, pos - lenb, lastscan + lenf - overlap, overlap);
      lenf := lenf + lens - overlap;
      lenb := lenb - lens;
    }
    assert ExtendedBy(source, target, lastpos, lastscan, pos, scan, lenf, lenb, f, b);
  }

  method WriteDiff(source: seq<Byte>, target: seq<Byte>, lastpos: nat, lastscan: nat, lenf: nat, db: array<Byte>,
                   dblen: nat)
    requires lastpos + lenf <= |source| && lastscan + lenf <= |target| && dblen + lenf <= db.Length
    modifies db
    ensures db[..dblen + lenf] == old(db[..dblen]) + Difference(source, lastpos, target, lastscan, lenf)
  {
    var i := 0;
    while i < lenf
      invariant 0 <= i <= lenf
      invariant db[..dblen + i] == old(db[..dblen]) + Difference(source, lastpos, target, lastscan, lenf)[..i]
    {
      db[dblen + i] := SubByte(target[lastscan + i], source[lastpos + i]);
      assert db[..dblen + i + 1] == db[..dblen + i] + [db[dblen + i]];
      i := i + 1;
    }
  }

  method WriteExtra(target: seq<Byte>, from: nat, n: nat, eb: array<Byte>, eblen: nat)
    requires from + n <= |target| && eblen + n <= eb.Length
    modifies eb
    ensures eb[..eblen + n] == old(eb[..eblen]) + target[from..from + n]
  {
    var i := 0;
    while i < n
      invariant 0 <= i <= n
      invariant eb[..eblen + i] == old(eb[..eblen]) + target[from..from + i]
    {
      eb[eblen + i] := target[from + i];
      assert eb[..eblen + i + 1] == eb[..eblen + i] + [eb[eblen + i]];
      i := i + 1;
    }
  }

  // offtout, then fwrite.
  method WriteOff(patch: seq<Byte>, x: int, buf: array<Byte>) returns (patch': seq<Byte>)
    requires -OFF_LIMIT < x < OFF_LIMIT && buf.Length == 8
    modifies buf
    ensures patch' == patch + OffBytes(x)
  {
    OffTOut(x, buf);
    patch' := patch + buf[..];
  }

  method WriteTriple(patch: seq<Byte>, ghost p: Piece, difflen: int, extralen: int, seek: int, buf: array<Byte>)
    returns (patch': seq<Byte>)
    requires Storable(p) && difflen == |p.diff| && extralen == |p.extra| && seek == p.seek && buf.Length == 8
    modifies buf
    ensures patch' == patch + TripleBytes(p)
  {
    patch' := WriteOff(patch, difflen, buf);
    patch' := WriteOff(patch', extralen, buf);
    patch' := WriteOff(patch', seek, buf);
  }

  // Writes one triple with its bytes, for a match found at scan (or the end of target).
  method EmitMatch(source: seq<Byte>, target: seq<Byte>, lastscan: nat, lastpos: nat, scan: nat, pos: nat,
                   db: array<Byte>, dblen: nat, eb: array<Byte>, eblen: nat, buf: array<Byte>, patch: seq<Byte>,
                   ghost ps: seq<Piece>)
    returns (lastscan': nat, lastpos': nat, dblen': nat, eblen': nat, patch': seq<Byte>, ghost ps': seq<Piece>)
    requires |source| < OFF_LIMIT && |target| < OFF_LIMIT
    requires db != eb && db != buf && eb != buf && db.Length == eb.Length == |target| + 1 && buf.Length == 8
    requires dblen + eblen == lastscan <= scan <= |target| && lastscan < |target| && pos <= |source| && 32 <= |patch|
    requires Emitted(source, target, ps, lastscan, lastpos) && Stored(ps, db[..dblen], eb[..eblen], patch[32..])
    modifies db, eb, buf
    ensures dblen' + eblen' == lastscan' <= scan && |ps'| == |ps| + 1 && 32 <= |patch'| && patch'[..32] == patch[..32]
    ensures Emitted(source, target, ps', lastscan', lastpos') && Stored(ps', db[..dblen'], eb[..eblen'], patch'[32..])
    ensures scan - lastscan' == pos - lastpos' && (scan == |target| ==> lastscan' == |target|)
    ensures ps' == ps + [ps'[|ps|]] && 0 <= lastpos <= |source|
    ensures Extended(source, target, lastpos, lastscan, pos, scan, |ps'[|ps|].diff|, scan - lastscan')
  {
    hide Emitted, Stored, Difference, Extended, TripleBytes;
    EmittedBounds(source, target, ps, lastscan, lastpos);
    var lenf, lenb := Extend(source, target, lastpos, lastscan, pos, scan);
    ExtendBounds(source, target, lastpos, lastscan, pos, scan, lenf, lenb);
    WriteDiff(source, target, lastpos, lastscan, lenf, db, dblen);
    var gap := (scan - lenb) - (lastscan + lenf);
    WriteExtra(target, lastscan + lenf, gap, eb, eblen);
    dblen', eblen' := dblen + lenf, eblen + gap;
    var seek := (pos - lenb) - (lastpos + lenf);
    ghost var p := NextPiece(source, target, lastscan, lastpos, lenf, scan - lenb, seek);
    patch' := WriteTriple(patch, p, lenf, gap, seek, buf);
    assert patch'[32..] == patch[32..] + TripleBytes(p);
    ps' := ps + [p];
    EmitNext(source, target, ps, lastscan, lastpos, lenf, scan - lenb, seek);
    StoreNext(ps, p, old(db[..dblen]), old(eb[..eblen]), patch[32..]);
    lastscan' := scan - lenb;
    lastpos' := pos - lenb;
  }

  lemma NoStops(source: seq<Byte>, target: seq<Byte>)
    ensures NextFrom([]) == 0 && NextOffset(source, target, []) == 0 && NextPos([]) == 0
  {
  }

  lemma TracedParts(source: seq<Byte>, I: seq<int>, target: seq<Byte>, tr: seq<Stop>, ps: seq<Piece>)
    requires SuffixArray(source, I) && Traced(source, I, target, tr, ps)
    ensures Trace(source, I, target, tr)
  {
    hide SuffixArray, Trace, JustifiedBy, Cutters;
  }

  // The loop over target: writes the control block behind the 32 header bytes,
  // and the diff and extra data to db and eb.
  method WriteDifferences(I: array<int>, source: seq<Byte>, target: seq<Byte>, db: array<Byte>, eb: array<Byte>,
                          buf: array<Byte>, header: seq<Byte>)
    returns (patch: seq<Byte>, dblen: nat, eblen: nat, ghost ps: seq<Piece>, ghost tr: seq<Stop>)
    requires |source| < OFF_LIMIT && |target| < TARGET_LIMIT && SuffixArray(source, I[..]) && |header| == 32
    requires db != eb && db != buf && eb != buf && db.Length == eb.Length == |target| + 1 && buf.Length == 8
    modifies db, eb, buf
    ensures dblen + eblen == |target| && |ps| <= |target| + 1 && |patch| >= 32 && patch[..32] == header
    ensures Emitted(source, target, ps, |target|, OldPos(ps)) && Stored(ps, db[..dblen], eb[..eblen], patch[32..])
    ensures Traced(source, I[..], target, tr, ps) && Finished(target, tr)
  {
    hide Emitted, Stored, SuffixArray, OldPos, Common, Hits, Traced, Trace, Beats, Extended, Passed, Answered;
    hide Stops, Emits, NextFrom, NextOffset, NextPos, Cutters, JustifiedBy, Covered, Found;
    patch, dblen, eblen, ps := header, 0, 0, [];
    var scan: nat, len: nat, pos: nat, lastscan: nat, lastpos: nat, lastoffset := 0, 0, 0, 0, 0, 0;
    EmittedStart(source, target);
    tr := [];
    TracedStart(source, I[..], target);
    NoStops(source, target);
    assert db[..dblen] == [] && eb[..eblen] == [] && patch[32..] == [];
    while scan < |target|
      invariant scan <= |target| && pos <= |source| && (scan < |target| ==> scan + len <= |target|)
      invariant dblen + eblen == lastscan <= scan && lastoffset == lastpos - lastscan
      invariant |patch| >= 32 && patch[..32] == header
      invariant Emitted(source, target, ps, lastscan, lastpos) && Stored(ps, db[..dblen], eb[..eblen], patch[32..])
      invariant |ps| <= scan + (if scan == |target| then 1 else len)
      invariant scan == |target| ==> lastscan == |target|
      invariant Traced(source, I[..], target, tr, ps)
      invariant NextPos(tr) == pos
      invariant NextFrom(tr) == scan + (if scan < |target| then len else 0)
      invariant NextOffset(source, target, tr) == lastoffset
      invariant if tr == [] then scan == 0 else target != [] && tr[|tr| - 1].scan == scan
      decreases if scan < |target| then |target| - scan - len + 1 else 0
    {
      var oldscore, scsc;
      ghost var lens, from, offset, before := [], scan + len, lastoffset, pos;
      scan, len, pos, oldscore, scsc, lens := Scan(I, source, target, lastoffset, scan + len, len, pos);
      ghost var x := Stop(from, offset, before, lens, scan, pos, if scan < |target| then len else 0);
      StopIs(source, I[..], target, x, oldscore, scsc);
      TracedParts(source, I[..], target, tr, ps);
      TraceNext(source, I[..], target, tr, x);
      if scan < |target| {
        CoveredMore(from, lens, len);
        if len != oldscore { AcceptedBeats(source, target, lastoffset, pos, scan, scsc, len); }
      }
      if len != oldscore || scan == |target| {
        ghost var was, wasScan, wasPos := ps, lastscan, lastpos;
        lastscan, lastpos, dblen, eblen, patch, ps :=
          EmitMatch(source, target, lastscan, lastpos, scan, pos, db, dblen, eb, eblen, buf, patch, ps);
        JustifiedNew(source, target, was, ps[|was|], wasScan, wasPos, lastscan, lastpos, pos, scan);
        TracedEmits(source, I[..], target, tr, x, was, ps[|was|]);
        lastoffset := pos - scan;
      } else {
        TracedQuiet(source, I[..], target, tr, x, ps);
      }
      tr := tr + [x];
    }
    EmittedOldPos(source, target, ps, lastscan, lastpos);
  }

  // MAGIC and three integers.
  method WriteHeader(ctrllen: int, datalen: int, newsize: int, buf: array<Byte>) returns (header: seq<Byte>)
    requires 0 <= ctrllen < OFF_LIMIT && 0 <= datalen < OFF_LIMIT && 0 <= newsize < OFF_LIMIT && buf.Length == 8
    modifies buf
    ensures header == MAGIC + OffBytes(ctrllen) + OffBytes(datalen) + OffBytes(newsize) && |header| == 32
  {
    header := WriteOff(MAGIC, ctrllen, buf);
    header := WriteOff(header, datalen, buf);
    header := WriteOff(header, newsize, buf);
  }

  // The pieces are those that the scans of target end, whose last one reaches its
  // end, searching in the order of the suffixes of source.
  ghost predicate Chosen(source: seq<Byte>, target: seq<Byte>, ps: seq<Piece>) {
    exists I, tr :: ChosenBy(source, target, ps, I, tr)
  }

  ghost predicate ChosenBy(source: seq<Byte>, target: seq<Byte>, ps: seq<Piece>, I: seq<int>, tr: seq<Stop>) {
    SuffixArray(source, I) && Traced(source, I, target, tr, ps) && Finished(target, tr)
  }

  lemma TracedChosen(source: seq<Byte>, I: seq<int>, target: seq<Byte>, tr: seq<Stop>, ps: seq<Piece>)
    requires ChosenBy(source, target, ps, I, tr)
    ensures Chosen(source, target, ps)
  {
  }

  method Bsdiff(source: seq<Byte>, target: seq<Byte>) returns (patch: seq<Byte>)
    requires |source| < OFF_LIMIT && |target| < TARGET_LIMIT
    ensures |patch| >= 32 && patch[..8] == [66, 83, 68, 73, 70, 78, 52, 48]
    ensures exists ps :: IsDelta(source, target, patch, ps) && AllJustified(source, target, ps)
                         && Chosen(source, target, ps)
                         && (Strangers(source, target) ==> AllExtra(target, ps))
                         && (source == target && target != [] ==> OneZeroPiece(|target|, [], ps))
  {
    hide AllJustified, OneZeroPiece, Emitted, Stored, SuffixArray, OldPos, Fits, PatchFile, OffBytes;
    hide Strangers, AllExtra, Chosen, Traced;
    var I, V := new int[|source| + 1], new int[|source| + 1];
    QSufSort(I, V, source);
    var db, eb, buf := new Byte[|target| + 1], new Byte[|target| + 1], new Byte[8];
    var header := WriteHeader(0, 0, |target|, buf);
    var dblen, eblen;
    ghost var ps, tr;
    patch, dblen, eblen, ps, tr := WriteDifferences(I, source, target, db, eb, buf, header);
    // Now that the lengths of the blocks are known, the header is written again.
    ghost var ctrl, diffs, extras := patch[32..], db[..dblen], eb[..eblen];
    FileIsPatch(source, target, ps, diffs, extras, ctrl);
    var len := |patch|;
    patch := patch + db[..dblen];
    var size := |patch|;
    patch := patch + eb[..eblen];
    header := WriteHeader(len - 32, size - len, |target|, buf);
    assert patch[32..] == ctrl + diffs + extras;
    patch := header + patch[32..];
    assert patch == header + ctrl + diffs + extras;
    assert IsDelta(source, target, patch, ps);
    TracedJustified(source, I[..], target, tr, ps);
    TracedChosen(source, I[..], target, tr, ps);
    if Strangers(source, target) { StrangersEmpty(source, target, ps); }
    if source == target && target != [] { SameIsOnePiece(source, ps); }
  }
}
