// bspatch of Sparkle/bspatch.c on the raw BSDIFN40 format.

module PatchApply {
  import opened Bytes
  import opened PatchFormat
  import opened Patch

  datatype Result = Success(file: seq<Byte>) | CorruptPatch

  ghost function ResultOf(r: Replay): Result {
    if r.Replayed? then Success(r.out) else CorruptPatch
  }

  // Reads len bytes of a stream into target[at..]; not ok if fewer are there.
  method Read(patch: seq<Byte>, pos: nat, target: array<Byte>, at: nat, len: int) returns (ok: bool)
    requires at + len <= target.Length
    modifies target
    ensures ok <==> Delivers(patch, pos, len)
    ensures ok ==> target[..] == old(target[..at]) + Delivered(patch, pos, len) + old(target[at + len..])
  {
    if !(0 <= len < INT_LIMIT) {
      return false;
    }
    var lenread := if len <= Remaining(patch, pos) then len else Remaining(patch, pos);
    var i := 0;
    while i < lenread
      invariant 0 <= i <= lenread
      invariant forall k :: at <= k < at + i ==> target[k] == patch[pos + k - at]
      invariant forall k :: 0 <= k < target.Length && !(at <= k < at + i) ==> target[k] == old(target[k])
    {
      target[at + i] := patch[pos + i];
      i := i + 1;
    }
    ok := lenread == len;
  }

  // Adds old data to the diff string already in target[newpos..newpos+len].
  method AddOld(source: seq<Byte>, target: array<Byte>, newpos: nat, oldpos: int, len: nat)
    requires newpos + len <= target.Length
    modifies target
    ensures target[..] == old(target[..newpos]) + Added(source, oldpos, old(target[newpos..newpos + len]))
            + old(target[newpos + len..])
  {
    var i := 0;
    while i < len
      invariant 0 <= i <= len
      invariant forall k :: newpos <= k < newpos + i ==>
        target[k] == Added(source, oldpos, old(target[newpos..newpos + len]))[k - newpos]
      invariant forall k :: 0 <= k < target.Length && !(newpos <= k < newpos + i) ==> target[k] == old(target[k])
    {
      if 0 <= oldpos + i < |source| {
        target[newpos + i] := AddByte(target[newpos + i], source[oldpos + i]);
      }
      i := i + 1;
    }
  }

  // One round of the replay loop, on target[newpos..].
  method ReplayTriple(source: seq<Byte>, patch: seq<Byte>, newsize: nat, target: array<Byte>,
                      newpos: nat, oldpos: int, c: nat, d: nat, e: nat)
    returns (ok: bool, newpos': nat, oldpos': int, c': nat, d': nat, e': nat)
    requires newpos < newsize < target.Length
    modifies target
    ensures ok ==> newpos' <= newsize && c' == c + 24 <= |patch|
    ensures Apply(source, patch, newsize, Replayed(old(target[..newpos]), oldpos, c, d, e))
         == if ok then Apply(source, patch, newsize, Replayed(target[..newpos'], oldpos', c', d', e')) else Corrupt
  {
    hide OffValue, Added, Delivered;
    ghost var out := target[..newpos];
    ok, newpos', oldpos', c', d', e' := false, newpos, oldpos, c, d, e;
    if Remaining(patch, c) < 24 {
      return;
    }
    var add := OffTIn(patch[c..c + 8]);
    var copy := OffTIn(patch[c + 8..c + 16]);
    var seek := OffTIn(patch[c + 16..c + 24]);
    c' := c + 24;
    if newpos + add > newsize {
      return;
    }
    ok := Read(patch, d, target, newpos, add);
    if !ok {
      return;
    }
    assert target[newpos..newpos + add] == Delivered(patch, d, add) && target[..newpos] == out;
    AddOld(source, target, newpos, oldpos, add);
    newpos', oldpos', d' := newpos + add, oldpos + add, d + add;
    assert target[..newpos'] == out + Added(source, oldpos, Delivered(patch, d, add));
    if newpos' + copy > newsize {
      return false, newpos', oldpos', c', d', e';
    }
    ghost var out' := target[..newpos'];
    ok := Read(patch, e, target, newpos', copy);
    if !ok {
      return;
    }
    newpos', oldpos', e' := newpos' + copy, oldpos' + seek, e + copy;
    assert target[..newpos'] == out' + Delivered(patch, e, copy);
  }

  lemma ApplyDone(source: seq<Byte>, patch: seq<Byte>, newsize: nat, st: Replay)
    requires st.Replayed? && |st.out| == newsize
    ensures Apply(source, patch, newsize, st) == st
  {
  }

  method Bspatch(source: seq<Byte>, patch: seq<Byte>) returns (r: Result)
    ensures r == ResultOf(Patched(source, patch))
    ensures |patch| < 32 || patch[..8] != [66, 83, 68, 73, 70, 78, 52, 48] ==> r == CorruptPatch
    ensures r.Success? ==>
              |patch| >= 32 && |r.file| == Magnitude(patch[24..32]) && (patch[31] < 128 || r.file == [])
  {
    hide Apply, Magnitude;
    if |patch| >= 32 { OffValueMeans(patch[24..32]); }
    if |patch| < 32 || patch[..8] != MAGIC {
      return CorruptPatch;
    }
    var ctrllen := OffTIn(patch[8..16]);
    var datalen := OffTIn(patch[16..24]);
    var newsize := OffTIn(patch[24..32]);
    if ctrllen < 0 || datalen < 0 || newsize < 0 {
      return CorruptPatch;
    }
    var target := new Byte[newsize + 1];
    var newpos, oldpos := 0, 0;
    var c: nat, d: nat, e: nat := 32, 32 + ctrllen, 32 + ctrllen + datalen;
    assert target[..newpos] == [];
    while newpos < newsize
      invariant 0 <= newpos <= newsize
      invariant Apply(source, patch, newsize, Replayed(target[..newpos], oldpos, c, d, e)) == Patched(source, patch)
      decreases |patch| - c
    {
      var ok;
      ok, newpos, oldpos, c, d, e := ReplayTriple(source, patch, newsize, target, newpos, oldpos, c, d, e);
      if !ok {
        return CorruptPatch;
      }
    }
    ApplyDone(source, patch, newsize, Replayed(target[..newpos], oldpos, c, d, e));
    r := Success(target[..newsize]);
  }
}
