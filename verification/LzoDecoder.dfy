// The decoder itself, writing into and copying from its output buffer.

module LzoDecoder {
  import opened Bytes
  import opened LzoFormat
  import opened LzoDecode

  // Literals, byte by byte.
  method CopyBytes(inp: seq<Byte>, ip: nat, out: array<Byte>, op: nat, n: nat)
    requires ip + n <= |inp| && op + n <= out.Length
    modifies out
    ensures out[..op + n] == old(out[..op]) + inp[ip..ip + n]
  {
    var i := 0;
    while i < n
      invariant 0 <= i <= n && out[..op + i] == old(out[..op]) + inp[ip..ip + i]
    {
      out[op + i] := inp[ip + i];
      assert out[..op + i + 1] == out[..op + i] + [out[op + i]];
      i := i + 1;
    }
  }

  // COPY4(op,ip): all four bytes are read before any is written.
  method Copy4(out: array<Byte>, op: nat, src: seq<Byte>)
    requires op + 4 <= out.Length && |src| == 4
    modifies out
    ensures out[..op + 4] == old(out[..op]) + src
  {
    out[op], out[op + 1], out[op + 2], out[op + 3] := src[0], src[1], src[2], src[3];
    assert out[..op + 4] == out[..op] + [out[op], out[op + 1], out[op + 2], out[op + 3]];
  }

  // The literals of a run, n >= 4, in words of four where that is allowed.
  method CopyRun(inp: seq<Byte>, ip: nat, out: array<Byte>, op: nat, n: nat, fast: bool)
    requires 4 <= n && ip + n <= |inp| && op + n <= out.Length
    modifies out
    ensures out[..op + n] == old(out[..op]) + inp[ip..ip + n]
  {
    if !fast {
      CopyBytes(inp, ip, out, op, n);
      return;
    }
    ghost var was := out[..op];
    Copy4(out, op, inp[ip..ip + 4]);
    var done := 4;
    while n - done >= 4
      invariant 4 <= done <= n && out[..op + done] == was + inp[ip..ip + done]
    {
      var word := inp[ip + done..ip + done + 4];
      Onwards(was, inp, ip, ip + done, ip + done + 4);
      Copy4(out, op + done, word);
      done := done + 4;
    }
    Onwards(was, inp, ip, ip + done, ip + n);
    CopyBytes(inp, ip + done, out, op + done, n - done);
  }

  lemma Onwards(before: seq<Byte>, inp: seq<Byte>, a: nat, b: nat, c: nat)
    requires a <= b <= c <= |inp|
    ensures before + inp[a..b] + inp[b..c] == before + inp[a..c]
  {
    assert inp[a..c] == inp[a..b] + inp[b..c];
  }

  lemma CopiedLength(out: seq<Byte>, off: nat, n: nat)
    requires 1 <= off <= |out|
    ensures |Copied(out, off, n)| == |out| + n
  {
  }

  lemma CopiedOneMore(out: seq<Byte>, off: nat, n: nat)
    requires 1 <= off <= |out| && n > 0
    ensures |Copied(out, off, n - 1)| >= off
    ensures var r := Copied(out, off, n - 1); Copied(out, off, n) == r + [r[|r| - off]]
  {
  }

  lemma {:induction false} CopiedSplit(out: seq<Byte>, off: nat, n: nat, m: nat)
    requires 1 <= off <= |out|
    ensures Copied(Copied(out, off, n), off, m) == Copied(out, off, n + m)
    decreases m
  {
    hide Copied;
    var now := Copied(out, off, n);
    CopiedLength(out, off, n);
    if m > 0 {
      CopiedSplit(out, off, n, m - 1);
      CopiedOneMore(now, off, m);
      CopiedOneMore(out, off, n + m);
    } else {
      CopiedNone(now, off);
    }
  }

  // Up to off bytes can be taken from the output as it stands.
  lemma {:induction false} CopiedBlock(out: seq<Byte>, off: nat, n: nat)
    requires 1 <= off <= |out| && n <= off
    ensures Copied(out, off, n) == out + out[|out| - off..|out| - off + n]
    decreases n
  {
    if n > 0 {
      CopiedBlock(out, off, n - 1);
      var from := |out| - off;
      var r := Copied(out, off, n - 1);
      assert r[|r| - off] == out[from + n - 1];
      assert out[from..from + n] == out[from..from + n - 1] + [out[from + n - 1]];
      Appended(out, out[from..from + n - 1], [out[from + n - 1]]);
    } else {
      assert out[|out| - off..|out| - off] == [];
    }
  }

  lemma Appended(a: seq<Byte>, b: seq<Byte>, c: seq<Byte>)
    ensures a + b + c == a + (b + c)
  {
  }

  lemma CopiedNone(out: seq<Byte>, off: nat)
    requires 1 <= off <= |out|
    ensures Copied(out, off, 0) == out
  {
  }

  lemma WordCopied(was: seq<Byte>, off: nat, done: nat, now: seq<Byte>, word: seq<Byte>)
    requires 4 <= off <= |was| <= |now| && now == Copied(was, off, done)
    requires word == now[|now| - off..|now| - off + 4]
    ensures now + word == Copied(was, off, done + 4)
  {
    hide Copied;
    CopiedBlock(now, off, 4);
    CopiedSplit(was, off, done, 4);
  }

  // copy_match: byte by byte, so that a match may overlap its own output.
  method CopyBack(out: array<Byte>, op: nat, off: nat, n: nat)
    requires 1 <= off <= op && op + n <= out.Length
    modifies out
    ensures out[..op + n] == Copied(old(out[..op]), off, n)
  {
    var i := 0;
    while i < n
      invariant 0 <= i <= n && out[..op + i] == Copied(old(out[..op]), off, i)
    {
      out[op + i] := out[op + i - off];
      assert out[..op + i + 1] == out[..op + i] + [out[op + i]];
      i := i + 1;
    }
  }

  // The match copy of M3 and M4, in words of four if the match is long enough
  // and does not overlap a word.
  method CopyBackFast(out: array<Byte>, op: nat, off: nat, n: nat, fast: bool)
    requires 1 <= off <= op && op + n <= out.Length
    modifies out
    ensures out[..op + n] == Copied(old(out[..op]), off, n)
  {
    hide Copied;
    if !(fast && n >= 8 && off >= 4) {
      CopyBack(out, op, off, n);
      return;
    }
    var done := 0;
    ghost var was := out[..op];
    CopiedNone(was, off);
    while n - done >= 4
      invariant 0 <= done <= n && out[..op + done] == Copied(was, off, done)
    {
      ghost var now := out[..op + done];
      var word := out[op + done - off..op + done - off + 4];
      assert word == now[op + done - off..op + done - off + 4];
      Copy4(out, op + done, word);
      WordCopied(was, off, done, now, word);
      done := done + 4;
    }
    CopyBack(out, op + done, off, n - done);
    CopiedSplit(was, off, done, n - done);
  }

  // ---- The labels ----

  // Where to go next: control without the output, which is in the buffer.
  datatype Control = Go(at: Label, ip: nat) | Stop(status: Status)

  ghost function Reached(c: Control, out: seq<Byte>): State {
    match c
    case Go(at, ip) => Going(at, ip, out)
    case Stop(status) => Halted(status, out)
  }

  // TEST_LOOKBEHIND, NEED_OP, the copy, and match_done.
  method DoMatch(inp: seq<Byte>, out: array<Byte>, ip: nat, op: nat, off: nat, n: nat, fast: bool)
    returns (c: Control, op': nat)
    requires 2 <= ip <= |inp| && op <= out.Length && off >= 1
    modifies out
    ensures op' <= out.Length && Reached(c, out[..op']) == CopyMatch(inp, out.Length, ip, old(out[..op]), off, n)
  {
    op' := op;
    if off > op {
      return Stop(LookbehindOverrun), op;
    }
    if out.Length - op < n {
      return Stop(OutputOverrun), op;
    }
    CopyBackFast(out, op, off, n, fast);
    op' := op + n;
    var t := inp[ip - 2] % 4;
    c := Go(if t == 0 then Top else Next(t), ip);
  }

  // The three length loops.
  method DoLength(inp: seq<Byte>, ip: nat, t: nat, base: nat) returns (ok: bool, t': nat, ip': nat)
    requires ip <= |inp|
    ensures LengthOf(inp, ip, t, base) == if ok then Length(t', ip') else NoInput
    ensures ok ==> t' > 0
  {
    t', ip', ok := t, ip, true;
    if t != 0 {
      return;
    }
    t' := base;
    while ip' < |inp| && inp[ip'] == 0
      invariant ip <= ip' <= |inp| && ReadLength(inp, ip', t') == ReadLength(inp, ip, base)
      decreases |inp| - ip'
    {
      t', ip' := t' + 255, ip' + 1;
    }
    if ip' >= |inp| {
      ok := false;
    } else {
      t', ip' := t' + inp[ip'], ip' + 1;
    }
  }

  method DoTop(inp: seq<Byte>, out: array<Byte>, ip: nat, op: nat, fast: bool) returns (c: Control, op': nat)
    requires op <= out.Length
    modifies out
    ensures op' <= out.Length && Reached(c, out[..op']) == StepTop(inp, out.Length, ip, old(out[..op]))
  {
    op' := op;
    if ip >= |inp| {
      return Stop(EofNotFound), op;
    }
    if inp[ip] >= 16 {
      return Go(AtMatch(inp[ip]), ip + 1), op;
    }
    var ok, t, ip1 := DoLength(inp, ip + 1, inp[ip], 15);
    if !ok {
      return Stop(InputOverrun), op;
    }
    if out.Length - op < t + 3 {
      return Stop(OutputOverrun), op;
    }
    if |inp| - ip1 < t + 4 {
      return Stop(InputOverrun), op;
    }
    CopyRun(inp, ip1, out, op, t + 3, fast);
    return Go(AfterRun, ip1 + t + 3), op + t + 3;
  }

  method DoAfterRun(inp: seq<Byte>, out: array<Byte>, ip: nat, op: nat) returns (c: Control, op': nat)
    requires op <= out.Length
    modifies out
    ensures op' <= out.Length && Reached(c, out[..op']) == StepAfterRun(inp, out.Length, ip, old(out[..op]))
  {
    if ip >= |inp| {
      return Stop(ReadPastEnd), op;
    }
    if inp[ip] >= 16 {
      return Go(AtMatch(inp[ip]), ip + 1), op;
    }
    if ip + 1 >= |inp| {
      return Stop(ReadPastEnd), op;
    }
    c, op' := DoMatch(inp, out, ip + 2, op, M2_MAX_OFFSET + ShortOffset(inp[ip], inp[ip + 1]), 3, false);
  }

  // The instructions with a length that may go on, and a word for the offset.
  method DoLongMatch(inp: seq<Byte>, out: array<Byte>, t: Byte, ip: nat, op: nat, fast: bool)
    returns (c: Control, op': nat)
    requires 1 <= ip <= |inp| && op <= out.Length && 16 <= t < 64
    modifies out
    ensures op' <= out.Length && Reached(c, out[..op']) == StepMatch(inp, out.Length, t, ip, old(out[..op]))
  {
    hide CopyMatch, LengthOf, WordOffset;
    var ok, n, ip1 := DoLength(inp, ip, if t >= 32 then t % 32 else t % 8, if t >= 32 then 31 else 7);
    if !ok {
      return Stop(InputOverrun), op;
    }
    if ip1 + 1 >= |inp| {
      return Stop(ReadPastEnd), op;
    }
    if t >= 32 {
      c, op' := DoMatch(inp, out, ip1 + 2, op, 1 + WordOffset(inp[ip1], inp[ip1 + 1]), n + 2, fast);
      return;
    }
    var o: nat := (if t / 8 % 2 == 1 then 0x4000 else 0) + WordOffset(inp[ip1], inp[ip1 + 1]);
    if o == 0 {
      return Stop(if ip1 + 2 == |inp| then OK else InputNotConsumed), op;
    }
    c, op' := DoMatch(inp, out, ip1 + 2, op, o + 0x4000, n + 2, fast);
  }

  method DoInstruction(inp: seq<Byte>, out: array<Byte>, t: Byte, ip: nat, op: nat, fast: bool)
    returns (c: Control, op': nat)
    requires 1 <= ip <= |inp| && op <= out.Length
    modifies out
    ensures op' <= out.Length && Reached(c, out[..op']) == StepMatch(inp, out.Length, t, ip, old(out[..op]))
  {
    hide CopyMatch, LengthOf, NearOffset, ShortOffset;
    if t >= 64 || t < 16 {
      if ip >= |inp| {
        return Stop(ReadPastEnd), op;
      }
      if t >= 64 {
        c, op' := DoMatch(inp, out, ip + 1, op, NearOffset(t, inp[ip]), t / 32 - 1 + 2, false);
      } else {
        c, op' := DoMatch(inp, out, ip + 1, op, ShortOffset(t, inp[ip]), 2, false);
      }
      return;
    }
    c, op' := DoLongMatch(inp, out, t, ip, op, fast);
  }

  method DoNext(inp: seq<Byte>, out: array<Byte>, t: nat, ip: nat, op: nat) returns (c: Control, op': nat)
    requires op <= out.Length
    modifies out
    ensures op' <= out.Length && Reached(c, out[..op']) == StepNext(inp, out.Length, t, ip, old(out[..op]))
  {
    if out.Length - op < t {
      return Stop(OutputOverrun), op;
    }
    if |inp| - ip < t + 1 {
      return Stop(InputOverrun), op;
    }
    CopyBytes(inp, ip, out, op, t);
    op' := op + t;
    c := if ip + t + 1 >= |inp| then Stop(EofNotFound) else Go(AtMatch(inp[ip + t]), ip + t + 1);
  }

  method DoStart(inp: seq<Byte>, out: array<Byte>) returns (c: Control, op: nat)
    modifies out
    ensures op <= out.Length && Reached(c, out[..op]) == Start(inp, out.Length)
  {
    assert out[..0] == [];
    if inp == [] {
      return Stop(ReadPastEnd), 0;
    }
    if inp[0] <= 17 {
      return Go(Top, 0), 0;
    }
    var t := inp[0] - 17;
    if t < 4 {
      return Go(Next(t), 1), 0;
    }
    if out.Length < t {
      return Stop(OutputOverrun), 0;
    }
    if |inp| - 1 < t + 1 {
      return Stop(InputOverrun), 0;
    }
    CopyBytes(inp, 1, out, 0, t);
    return Go(AfterRun, 1 + t), t;
  }

  // The decoder: *out_len becomes op, and the status is returned.  out.Length is
  // the capacity; fast says whether unaligned four-byte copies are compiled in.
  method Decompress(inp: seq<Byte>, out: array<Byte>, fast: bool) returns (status: Status, op: nat)
    modifies out
    ensures op <= out.Length && Halted(status, out[..op]) == Decoded(inp, out.Length)
  {
    hide StepTop, StepAfterRun, StepMatch, StepNext, Start;
    var c;
    c, op := DoStart(inp, out);
    while c.Go?
      invariant op <= out.Length && Legal(inp, out.Length, Reached(c, out[..op]))
      invariant Steps(inp, out.Length, Reached(c, out[..op])) == Decoded(inp, out.Length)
      decreases if c.Go? then |inp| - c.ip + 1 else 0
    {
      match c.at
      case Top => c, op := DoTop(inp, out, c.ip, op, fast);
      case AfterRun => c, op := DoAfterRun(inp, out, c.ip, op);
      case AtMatch(t) => c, op := DoInstruction(inp, out, t, c.ip, op, fast);
      case Next(t) => c, op := DoNext(inp, out, t, c.ip, op);
    }
    status := c.status;
  }
}
