// lzo1x_decompress_safe of distcc/lzo/minilzo.c: the decoder's labels as the
// states of a machine, and the decoder on its output buffer, which it both
// writes and copies from.

module LzoDecode {
  import opened Bytes
  import opened LzoFormat

  datatype Status = OK | InputOverrun | OutputOverrun | LookbehindOverrun | EofNotFound | InputNotConsumed
                  | ReadPastEnd  // a byte beyond the input, taken without a check

  // Where control is: at the top of the outer loop; at first_literal_run; at
  // match with instruction byte t; at match_next with t literals to copy.
  datatype Label = Top | AfterRun | AtMatch(t: Byte) | Next(count: nat)

  datatype State = Going(at: Label, ip: nat, out: seq<Byte>) | Halted(status: Status, out: seq<Byte>)

  datatype Length = Length(t: nat, ip: nat) | NoInput

  // The length loops: zero bytes count 255 each, up to a non-zero byte.
  ghost function ReadLength(inp: seq<Byte>, ip: nat, t: nat): (r: Length)
    ensures r.Length? ==> ip < r.ip <= |inp|
    decreases |inp| - ip
  {
    if ip >= |inp| then NoInput
    else if inp[ip] == 0 then ReadLength(inp, ip + 1, t + 255)
    else Length(t + inp[ip], ip + 1)
  }

  // A length in the low bits of t, or, when those are zero, base plus what follows.
  ghost function LengthOf(inp: seq<Byte>, ip: nat, t: nat, base: nat): (r: Length)
    requires ip <= |inp|
    ensures r.Length? ==> ip <= r.ip <= |inp|
  {
    if t == 0 then ReadLength(inp, ip, base) else Length(t, ip)
  }

  // The three ways an offset is packed: with 3, 6 + 8 and 2 + 8 bits.
  function NearOffset(t: nat, b: nat): (off: nat) ensures off >= 1 { 1 + t / 4 % 8 + b * 8 }
  function WordOffset(b0: nat, b1: nat): nat { b0 / 4 + b1 * 64 }
  function ShortOffset(t: nat, b: nat): (off: nat) ensures off >= 1 { 1 + t / 4 + b * 4 }

  // Copying n bytes from off back, then match_done.
  ghost function CopyMatch(inp: seq<Byte>, cap: nat, ip: nat, out: seq<Byte>, off: nat, n: nat): State
    requires 2 <= ip <= |inp| && off >= 1
  {
    if off > |out| then Halted(LookbehindOverrun, out)
    else if cap < |out| + n then Halted(OutputOverrun, out)
    else
      var t := inp[ip - 2] % 4;
      Going(if t == 0 then Top else Next(t), ip, Copied(out, off, n))
  }

  ghost function StepTop(inp: seq<Byte>, cap: nat, ip: nat, out: seq<Byte>): State {
    if ip >= |inp| then Halted(EofNotFound, out)
    else if inp[ip] >= 16 then Going(AtMatch(inp[ip]), ip + 1, out)
    else
      match LengthOf(inp, ip + 1, inp[ip], 15)
      case NoInput => Halted(InputOverrun, out)
      case Length(t, ip1) =>
        if cap < |out| + t + 3 then Halted(OutputOverrun, out)
        else if |inp| < ip1 + t + 4 then Halted(InputOverrun, out)
        else Going(AfterRun, ip1 + t + 3, out + inp[ip1..ip1 + t + 3])
  }

  ghost function StepAfterRun(inp: seq<Byte>, cap: nat, ip: nat, out: seq<Byte>): State {
    if ip >= |inp| then Halted(ReadPastEnd, out)
    else if inp[ip] >= 16 then Going(AtMatch(inp[ip]), ip + 1, out)
    else if ip + 1 >= |inp| then Halted(ReadPastEnd, out)
    else CopyMatch(inp, cap, ip + 2, out, M2_MAX_OFFSET + ShortOffset(inp[ip], inp[ip + 1]), 3)
  }

  ghost function StepMatch(inp: seq<Byte>, cap: nat, t: Byte, ip: nat, out: seq<Byte>): State
    requires 1 <= ip <= |inp|
  {
    if t >= 64 then
      if ip >= |inp| then Halted(ReadPastEnd, out)
      else CopyMatch(inp, cap, ip + 1, out, NearOffset(t, inp[ip]), t / 32 - 1 + 2)
    else if t >= 32 then
      match LengthOf(inp, ip, t % 32, 31)
      case NoInput => Halted(InputOverrun, out)
      case Length(n, ip1) =>
        if ip1 + 1 >= |inp| then Halted(ReadPastEnd, out)
        else CopyMatch(inp, cap, ip1 + 2, out, 1 + WordOffset(inp[ip1], inp[ip1 + 1]), n + 2)
    else if t >= 16 then
      match LengthOf(inp, ip, t % 8, 7)
      case NoInput => Halted(InputOverrun, out)
      case Length(n, ip1) =>
        if ip1 + 1 >= |inp| then Halted(ReadPastEnd, out)
        else
          var o: nat := (if t / 8 % 2 == 1 then 0x4000 else 0) + WordOffset(inp[ip1], inp[ip1 + 1]);
          if o == 0 then Halted(if ip1 + 2 == |inp| then OK else InputNotConsumed, out)
          else CopyMatch(inp, cap, ip1 + 2, out, o + 0x4000, n + 2)
    else
      if ip >= |inp| then Halted(ReadPastEnd, out)
      else CopyMatch(inp, cap, ip + 1, out, ShortOffset(t, inp[ip]), 2)
  }

  ghost function StepNext(inp: seq<Byte>, cap: nat, t: nat, ip: nat, out: seq<Byte>): State {
    if cap < |out| + t then Halted(OutputOverrun, out)
    else if |inp| < ip + t + 1 then Halted(InputOverrun, out)
    else if ip + t + 1 >= |inp| then Halted(EofNotFound, out + inp[ip..ip + t])
    else Going(AtMatch(inp[ip + t]), ip + t + 1, out + inp[ip..ip + t])
  }

  ghost predicate Legal(inp: seq<Byte>, cap: nat, st: State) {
    |st.out| <= cap && (st.Going? ==> st.ip <= |inp| && (st.at.AtMatch? ==> 1 <= st.ip))
  }

  ghost function Step(inp: seq<Byte>, cap: nat, st: State): (r: State)
    requires st.Going? && Legal(inp, cap, st)
    ensures Legal(inp, cap, r) && (r.Going? ==> r.ip > st.ip)
  {
    match st.at
    case Top => StepTop(inp, cap, st.ip, st.out)
    case AfterRun => StepAfterRun(inp, cap, st.ip, st.out)
    case AtMatch(t) => StepMatch(inp, cap, t, st.ip, st.out)
    case Next(t) => StepNext(inp, cap, t, st.ip, st.out)
  }

  ghost function Steps(inp: seq<Byte>, cap: nat, st: State): (r: State)
    requires Legal(inp, cap, st)
    ensures r.Halted? && Legal(inp, cap, r)
    decreases if st.Going? then |inp| - st.ip + 1 else 0
  {
    if st.Halted? then st else Steps(inp, cap, Step(inp, cap, st))
  }

  // Before the loop: a first byte above 17 announces literals.
  ghost function Start(inp: seq<Byte>, cap: nat): (r: State)
    ensures Legal(inp, cap, r)
  {
    if inp == [] then Halted(ReadPastEnd, [])
    else if inp[0] <= 17 then Going(Top, 0, [])
    else
      var t := inp[0] - 17;
      if t < 4 then Going(Next(t), 1, [])
      else if cap < t then Halted(OutputOverrun, [])
      else if |inp| - 1 < t + 1 then Halted(InputOverrun, [])
      else Going(AfterRun, 1 + t, inp[1..1 + t])
  }

  ghost function Decoded(inp: seq<Byte>, cap: nat): (r: State)
    ensures r.Halted? && |r.out| <= cap
  {
    Steps(inp, cap, Start(inp, cap))
  }
}
