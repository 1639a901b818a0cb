// What a patch means, how it is laid out, and bspatch's replay loop for the raw format.

module Patch {
  import opened Bytes
  import opened PatchFormat

  // One control triple with the bytes it consumes: diff is added to source,
  // extra is copied, seek moves the source position.
  datatype Piece = Piece(diff: seq<Byte>, extra: seq<Byte>, seek: int)

  function AddByte(x: Byte, y: Byte): Byte { (x as int + y as int) % 256 }
  function SubByte(x: Byte, y: Byte): Byte { (x as int - y as int) % 256 }

  // diff plus source[p..]; bytes outside source count as zero.
  function Added(source: seq<Byte>, p: int, diff: seq<Byte>): (r: seq<Byte>)
    ensures |r| == |diff|
  {
    seq(|diff|, i requires 0 <= i < |diff| => if 0 <= p + i < |source| then AddByte(diff[i], source[p + i])
        else diff[i])
  }

  ghost function OldPos(ps: seq<Piece>): int {
    if ps == [] then 0 else var p := ps[|ps| - 1]; OldPos(ps[..|ps| - 1]) + |p.diff| + p.seek
  }

  ghost function Output(source: seq<Byte>, ps: seq<Piece>): seq<Byte> {
    if ps == [] then []
    else var p := ps[|ps| - 1];
         Output(source, ps[..|ps| - 1]) + Added(source, OldPos(ps[..|ps| - 1]), p.diff) + p.extra
  }

  // ---- Layout ----

  ghost predicate Storable(p: Piece) {
    |p.diff| < OFF_LIMIT && |p.extra| < OFF_LIMIT && -OFF_LIMIT < p.seek < OFF_LIMIT
  }

  ghost function TripleBytes(p: Piece): (b: seq<Byte>)
    requires Storable(p)
    ensures |b| == 24
  {
    OffBytes(|p.diff|) + OffBytes(|p.extra|) + OffBytes(p.seek)
  }

  ghost function CtrlBlock(ps: seq<Piece>): (b: seq<Byte>)
    requires forall p :: p in ps ==> Storable(p)
    ensures |b| == 24 * |ps|
  {
    if ps == [] then [] else CtrlBlock(ps[..|ps| - 1]) + TripleBytes(ps[|ps| - 1])
  }

  ghost function DiffBlock(ps: seq<Piece>): seq<Byte> {
    if ps == [] then [] else DiffBlock(ps[..|ps| - 1]) + ps[|ps| - 1].diff
  }

  ghost function ExtraBlock(ps: seq<Piece>): seq<Byte> {
    if ps == [] then [] else ExtraBlock(ps[..|ps| - 1]) + ps[|ps| - 1].extra
  }

  const MAGIC: seq<Byte> := [66, 83, 68, 73, 70, 78, 52, 48]  // "BSDIFN40"

  // The lengths in the header must fit in an off_t.
  ghost predicate Fits(ps: seq<Piece>, newsize: nat) {
    (forall p :: p in ps ==> Storable(p))
    && 24 * |ps| < OFF_LIMIT && |DiffBlock(ps)| < OFF_LIMIT && newsize < OFF_LIMIT
  }

  ghost function PatchFile(ps: seq<Piece>, newsize: nat): seq<Byte>
    requires Fits(ps, newsize)
  {
    MAGIC + OffBytes(24 * |ps|) + OffBytes(|DiffBlock(ps)|) + OffBytes(newsize) + CtrlBlock(ps) + DiffBlock(ps)
      + ExtraBlock(ps)
  }

  // ---- bspatch ----

  // read(stream, buf, len) takes len as a 32-bit int.
  const INT_LIMIT: int := 0x8000_0000

  function Remaining(patch: seq<Byte>, at: nat): nat {
    if at <= |patch| then |patch| - at else 0
  }

  // A stream at position `at` delivers all len bytes asked for.
  predicate Delivers(patch: seq<Byte>, at: nat, len: int) {
    0 <= len < INT_LIMIT && len <= Remaining(patch, at)
  }

  function Delivered(patch: seq<Byte>, at: nat, len: int): (b: seq<Byte>)
    requires Delivers(patch, at, len)
    ensures |b| == len
  {
    if at <= |patch| then patch[at..at + len] else []
  }

  datatype Replay = Replayed(out: seq<Byte>, oldpos: int, c: nat, d: nat, e: nat) | Corrupt

  // The replay loop from any state: out so far, source position, and the
  // positions of the control, diff and extra streams.
  ghost function Apply(source: seq<Byte>, patch: seq<Byte>, newsize: nat, st: Replay): (r: Replay)
    requires st.Replayed? && |st.out| <= newsize
    ensures r.Replayed? ==> |r.out| == newsize
    decreases |patch| - st.c
  {
    if |st.out| == newsize then st
    else if Remaining(patch, st.c) < 24 then Corrupt
    else
      var add := OffValue(patch[st.c..st.c + 8]);
      var copy := OffValue(patch[st.c + 8..st.c + 16]);
      var seek := OffValue(patch[st.c + 16..st.c + 24]);
      if |st.out| + add > newsize || !Delivers(patch, st.d, add) then Corrupt
      else if |st.out| + add + copy > newsize || !Delivers(patch, st.e, copy) then Corrupt
      else Apply(source, patch, newsize,
                 Replayed(st.out + Added(source, st.oldpos, Delivered(patch, st.d, add)) + Delivered(patch, st.e, copy),
                          st.oldpos + add + seek, st.c + 24, st.d + add, st.e + copy))
  }

  ghost function Patched(source: seq<Byte>, patch: seq<Byte>): Replay {
    if |patch| < 32 || patch[..8] != MAGIC then Corrupt
    else
      var ctrllen := OffValue(patch[8..16]);
      var datalen := OffValue(patch[16..24]);
      var newsize := OffValue(patch[24..32]);
      if ctrllen < 0 || datalen < 0 || newsize < 0 then Corrupt
      else Apply(source, patch, newsize, Replayed([], 0, 32, 32 + ctrllen, 32 + ctrllen + datalen))
  }
}
