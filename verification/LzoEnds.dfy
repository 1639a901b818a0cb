// Where a compressed block ends: the decoder accepts an input only if its end
// marker is the last thing in it.

module LzoEnds {
  import opened Bytes
  import opened LzoFormat
  import opened LzoDecode
  import opened LzoStream

  // ---- Bytes behind the input ----

  lemma {:induction false} ReadLengthMore(inp: seq<Byte>, tail: seq<Byte>, ip: nat, t: nat)
    requires ReadLength(inp, ip, t).Length?
    ensures ReadLength(inp + tail, ip, t) == ReadLength(inp, ip, t)
    decreases |inp| - ip
  {
    if inp[ip] == 0 { ReadLengthMore(inp, tail, ip + 1, t + 255); }
  }

  lemma LengthOfMore(inp: seq<Byte>, tail: seq<Byte>, ip: nat, t: nat, base: nat)
    requires ip <= |inp| && LengthOf(inp, ip, t, base).Length?
    ensures LengthOf(inp + tail, ip, t, base) == LengthOf(inp, ip, t, base)
  {
    if t == 0 { ReadLengthMore(inp, tail, ip, base); }
  }

  lemma CopyMore(inp: seq<Byte>, tail: seq<Byte>, cap: nat, ip: nat, out: seq<Byte>, off: nat, n: nat)
    requires 2 <= ip <= |inp| && off >= 1
    ensures CopyMatch(inp + tail, cap, ip, out, off, n) == CopyMatch(inp, cap, ip, out, off, n)
  {
    hide Copied;
  }

  // What a step becomes when tail follows the input: the same, if it goes on,
  // and no longer an end.
  ghost predicate Carried(r: State, more: State) {
    (r.Going? ==> more == r) && (r.Halted? && r.status == OK ==> more == Halted(InputNotConsumed, r.out))
  }

  lemma TopMore(inp: seq<Byte>, tail: seq<Byte>, cap: nat, ip: nat, out: seq<Byte>)
    ensures Carried(StepTop(inp, cap, ip, out), StepTop(inp + tail, cap, ip, out))
  {
    hide LengthOf;
    if ip < |inp| && inp[ip] < 16 {
      var r := LengthOf(inp, ip + 1, inp[ip], 15);
      if r.Length? {
        LengthOfMore(inp, tail, ip + 1, inp[ip], 15);
        SliceOfFrontMore(inp, tail, r.ip, r.t + 3);
      }
    }
  }

  lemma SliceOfFrontMore(inp: seq<Byte>, tail: seq<Byte>, at: nat, n: nat)
    ensures at + n <= |inp| ==> (inp + tail)[at..at + n] == inp[at..at + n]
  {
  }

  lemma AfterRunMore(inp: seq<Byte>, tail: seq<Byte>, cap: nat, ip: nat, out: seq<Byte>)
    ensures Carried(StepAfterRun(inp, cap, ip, out), StepAfterRun(inp + tail, cap, ip, out))
  {
    hide CopyMatch, ShortOffset;
    if ip + 1 < |inp| && inp[ip] < 16 {
      CopyMore(inp, tail, cap, ip + 2, out, M2_MAX_OFFSET + ShortOffset(inp[ip], inp[ip + 1]), 3);
      CopyNotOk(inp, cap, ip + 2, out, M2_MAX_OFFSET + ShortOffset(inp[ip], inp[ip + 1]), 3);
    }
  }

  lemma CopyNotOk(inp: seq<Byte>, cap: nat, ip: nat, out: seq<Byte>, off: nat, n: nat)
    requires 2 <= ip <= |inp| && off >= 1
    ensures var r := CopyMatch(inp, cap, ip, out, off, n); r.Halted? ==> r.status != OK
  {
  }

  lemma MatchMore(inp: seq<Byte>, tail: seq<Byte>, cap: nat, t: Byte, ip: nat, out: seq<Byte>)
    requires 1 <= ip <= |inp| && tail != []
    ensures Carried(StepMatch(inp, cap, t, ip, out), StepMatch(inp + tail, cap, t, ip, out))
  {
    if 16 <= t < 64 {
      LongMore(inp, tail, cap, t, ip, out);
    } else if ip < |inp| {
      hide CopyMatch, NearOffset, ShortOffset;
      var off := if t >= 64 then NearOffset(t, inp[ip]) else ShortOffset(t, inp[ip]);
      var n := if t >= 64 then t / 32 + 1 else 2;
      CopyMore(inp, tail, cap, ip + 1, out, off, n);
      CopyNotOk(inp, cap, ip + 1, out, off, n);
    }
  }

  lemma LongMore(inp: seq<Byte>, tail: seq<Byte>, cap: nat, t: Byte, ip: nat, out: seq<Byte>)
    requires 1 <= ip <= |inp| && tail != [] && 16 <= t < 64
    ensures Carried(StepMatch(inp, cap, t, ip, out), StepMatch(inp + tail, cap, t, ip, out))
  {
    hide CopyMatch, LengthOf, WordOffset;
    var low, base := if t >= 32 then t % 32 else t % 8, if t >= 32 then 31 else 7;
    var r := LengthOf(inp, ip, low, base);
    if r.Length? {
      LengthOfMore(inp, tail, ip, low, base);
      if r.ip + 1 < |inp| {
        var o := WordOffset(inp[r.ip], inp[r.ip + 1]);
        var off := if t >= 32 then 1 + o else (if t / 8 % 2 == 1 then 0x4000 else 0) + o + 0x4000;
        CopyMore(inp, tail, cap, r.ip + 2, out, off, r.t + 2);
        CopyNotOk(inp, cap, r.ip + 2, out, off, r.t + 2);
      }
    }
  }

  lemma NextMore(inp: seq<Byte>, tail: seq<Byte>, cap: nat, t: nat, ip: nat, out: seq<Byte>)
    ensures Carried(StepNext(inp, cap, t, ip, out), StepNext(inp + tail, cap, t, ip, out))
  {
    SliceOfFrontMore(inp, tail, ip, t);
  }

  lemma StepMore(inp: seq<Byte>, tail: seq<Byte>, cap: nat, st: State)
    requires st.Going? && Legal(inp, cap, st) && tail != []
    ensures Legal(inp + tail, cap, st) && Carried(Step(inp, cap, st), Step(inp + tail, cap, st))
  {
    hide StepTop, StepAfterRun, StepMatch, StepNext;
    match st.at
    case Top => TopMore(inp, tail, cap, st.ip, st.out);
    case AfterRun => AfterRunMore(inp, tail, cap, st.ip, st.out);
    case AtMatch(t) => MatchMore(inp, tail, cap, t, st.ip, st.out);
    case Next(t) => NextMore(inp, tail, cap, t, st.ip, st.out);
  }

  lemma {:induction false} StepsMore(inp: seq<Byte>, tail: seq<Byte>, cap: nat, st: State)
    requires st.Going? && Legal(inp, cap, st) && tail != [] && Steps(inp, cap, st).status == OK
    ensures Legal(inp + tail, cap, st)
    ensures Steps(inp + tail, cap, st) == Halted(InputNotConsumed, Steps(inp, cap, st).out)
    decreases |inp| - st.ip
  {
    hide Step;
    StepMore(inp, tail, cap, st);
    var r := Step(inp, cap, st);
    if r.Going? { StepsMore(inp, tail, cap, r); }
  }

  lemma StartMore(inp: seq<Byte>, tail: seq<Byte>, cap: nat)
    ensures Start(inp, cap).Going? ==> Start(inp + tail, cap) == Start(inp, cap)
    ensures Start(inp, cap).Halted? ==> Start(inp, cap).status != OK
  {
    if inp != [] && inp[0] > 17 { SliceOfFrontMore(inp, tail, 1, inp[0] - 17); }
  }

  // An input that is accepted is accepted only as it is: with anything behind it,
  // the decoder writes the same bytes and then complains.
  lemma ExtraInput(inp: seq<Byte>, tail: seq<Byte>, cap: nat)
    requires Decoded(inp, cap).status == OK && tail != []
    ensures Decoded(inp + tail, cap) == Halted(InputNotConsumed, Decoded(inp, cap).out)
  {
    hide Steps, Start;
    StartMore(inp, tail, cap);
    HaltedStays(inp, cap, Start(inp, cap));
    if Start(inp, cap).Going? {
      StepsMore(inp, tail, cap, Start(inp, cap));
    }
  }

  lemma HaltedStays(inp: seq<Byte>, cap: nat, st: State)
    requires Legal(inp, cap, st)
    ensures st.Halted? ==> Steps(inp, cap, st) == st
  {
  }

  // A valid stream with anything behind it ...
  lemma TrailingRejected(s: Stream, tail: seq<Byte>, cap: nat)
    requires ValidStream(s) && tail != [] && |StreamText(s)| <= cap
    ensures Decoded(StreamBytes(s) + tail, cap) == Halted(InputNotConsumed, StreamText(s))
  {
    hide Decoded, ValidStream, StreamBytes, StreamText;
    StreamDecodes(s, cap);
    ExtraInput(StreamBytes(s), tail, cap);
  }

  // ... or cut short anywhere is refused, whatever the capacity.
  lemma TruncatedRejected(s: Stream, n: nat, cap: nat)
    requires ValidStream(s) && n < |StreamBytes(s)|
    ensures Decoded(StreamBytes(s)[..n], cap).status != OK
  {
    hide Decoded, ValidStream, StreamBytes, StreamText;
    var b := StreamBytes(s);
    assert b[..n] + b[n..] == b;
    StreamDecodes(s, cap);
    if Decoded(b[..n], cap).status == OK {
      ExtraInput(b[..n], b[n..], cap);
    }
  }

  // ---- The end marker ----

  // The input ends with a marker: an instruction byte of 16 to 23, its length,
  // and two bytes that give the offset 0.
  ghost predicate EndsWithMarker(inp: seq<Byte>) {
    |inp| >= 3 && inp[|inp| - 2] < 4 && inp[|inp| - 1] == 0 && exists k :: MarkerAt(inp, k)
  }

  ghost predicate MarkerAt(inp: seq<Byte>, k: int)
    requires |inp| >= 3
  {
    && 0 <= k <= |inp| - 3 && 16 <= inp[k] < 24
    && if inp[k] % 8 != 0 then k == |inp| - 3
       else k < |inp| - 3 && inp[|inp| - 3] != 0 && forall j :: k < j < |inp| - 3 ==> inp[j] == 0
  }

  lemma {:induction false} ReadLengthShape(inp: seq<Byte>, ip: nat, t: nat)
    requires ReadLength(inp, ip, t).Length?
    ensures var r := ReadLength(inp, ip, t);
            ip < r.ip <= |inp| && inp[r.ip - 1] != 0 && forall j :: ip <= j < r.ip - 1 ==> inp[j] == 0
    decreases |inp| - ip
  {
    if inp[ip] == 0 { ReadLengthShape(inp, ip + 1, t + 255); }
  }

  lemma OkStep(inp: seq<Byte>, cap: nat, t: Byte, ip: nat, out: seq<Byte>)
    requires 1 <= ip <= |inp| && inp[ip - 1] == t
    requires var r := StepMatch(inp, cap, t, ip, out); r.Halted? && r.status == OK
    ensures EndsWithMarker(inp)
  {
    hide CopyMatch, ReadLength, NearOffset, ShortOffset;
    if 16 <= t < 32 {
      var r := LengthOf(inp, ip, t % 8, 7);
      if t % 8 == 0 && r.Length? { ReadLengthShape(inp, ip, 7); }
      if r.Length? && r.ip + 1 < |inp| {
        LongNotOk(inp, cap, t, ip, out);
        assert MarkerAt(inp, ip - 1);
      }
    } else {
      OtherNotOk(inp, cap, t, ip, out);
    }
  }

  lemma LongNotOk(inp: seq<Byte>, cap: nat, t: Byte, ip: nat, out: seq<Byte>)
    requires 1 <= ip <= |inp| && 16 <= t < 32
    requires var r := StepMatch(inp, cap, t, ip, out); r.Halted? && r.status == OK
    ensures var r := LengthOf(inp, ip, t % 8, 7);
            && r.Length? && r.ip + 2 == |inp| && t < 24 && inp[r.ip] < 4 && inp[r.ip + 1] == 0
  {
    hide CopyMatch, LengthOf;
    var r := LengthOf(inp, ip, t % 8, 7);
    if r.Length? && r.ip + 1 < |inp| {
      var o: nat := (if t / 8 % 2 == 1 then 0x4000 else 0) + WordOffset(inp[r.ip], inp[r.ip + 1]);
      if o > 0 { CopyNotOk(inp, cap, r.ip + 2, out, o + 0x4000, r.t + 2); }
    }
  }

  lemma OtherNotOk(inp: seq<Byte>, cap: nat, t: Byte, ip: nat, out: seq<Byte>)
    requires 1 <= ip <= |inp| && !(16 <= t < 32)
    ensures var r := StepMatch(inp, cap, t, ip, out); r.Halted? ==> r.status != OK
  {
    hide LengthOf;
  }

  // The byte before the place of a match instruction is the instruction.
  ghost predicate Faithful(inp: seq<Byte>, st: State) {
    st.Going? && st.at.AtMatch? ==> 1 <= st.ip <= |inp| && inp[st.ip - 1] == st.at.t
  }

  lemma StepFaithful(inp: seq<Byte>, cap: nat, st: State)
    requires st.Going? && Legal(inp, cap, st)
    ensures Faithful(inp, Step(inp, cap, st))
    ensures var r := Step(inp, cap, st); r.Halted? && r.status == OK ==> st.at.AtMatch?
  {
    hide LengthOf, Copied;
  }

  lemma {:induction false} StepsEnd(inp: seq<Byte>, cap: nat, st: State)
    requires st.Going? && Legal(inp, cap, st) && Faithful(inp, st) && Steps(inp, cap, st).status == OK
    ensures EndsWithMarker(inp)
    decreases |inp| - st.ip
  {
    hide StepMatch, StepTop, StepAfterRun, StepNext, EndsWithMarker;
    StepFaithful(inp, cap, st);
    var r := Step(inp, cap, st);
    if r.Going? {
      StepsEnd(inp, cap, r);
    } else {
      HaltedStays(inp, cap, r);
      OkStep(inp, cap, st.at.t, st.ip, st.out);
    }
  }

  // Nothing is accepted that does not end with a marker.
  lemma OkEnds(inp: seq<Byte>, cap: nat)
    requires Decoded(inp, cap).status == OK
    ensures EndsWithMarker(inp)
  {
    hide Steps, EndsWithMarker;
    var st := Start(inp, cap);
    HaltedStays(inp, cap, st);
    StepsEnd(inp, cap, st);
  }

  // ---- A match that reaches back too far ----

  // There is room before item k, and what comes of decoding from there.
  ghost predicate Standing(inp: seq<Byte>, cap: nat, items: seq<Item>, k: nat) {
    k <= |items| && |ItemsBytes(items[..k])| < |inp| && |Expand(items[..k])| <= cap
  }

  ghost function From(inp: seq<Byte>, cap: nat, items: seq<Item>, k: nat): State
    requires Standing(inp, cap, items, k)
  {
    Steps(inp, cap, Between(inp, items, k))
  }

  lemma {:induction false} AdvanceTo(inp: seq<Byte>, cap: nat, items: seq<Item>, k: nat, m: nat)
    requires k <= m <= |items| && inp == ItemsBytes(items) + END && |Expand(items[..m])| <= cap
    requires AllFitting(items, k, m)
    ensures Standing(inp, cap, items, k) && Standing(inp, cap, items, m)
    ensures From(inp, cap, items, k) == From(inp, cap, items, m)
    decreases m - k
  {
    hide AllFitting, ItemsBytes, Expand, Steps, Between;
    ExpandUpTo(items, k, m);
    BytesUpTo(items, k);
    BytesUpTo(items, m);
    if k < m {
      ExpandUpTo(items, k + 1, m);
      BytesUpTo(items, k + 1);
      FittingParts(items, k, m);
      if items[k].Run? {
        RunAdvances(inp, cap, items, k);
      } else {
        MatchAdvances(inp, cap, items, k);
      }
      AdvanceTo(inp, cap, items, k + 1, m);
    }
  }

  lemma {:induction false} ExpandUpTo(items: seq<Item>, k: nat, m: nat)
    requires k <= m <= |items|
    ensures |Expand(items[..k])| <= |Expand(items[..m])|
    decreases m - k
  {
    hide Expand;
    if k < m {
      ExpandNext(items, k);
      ExpandUpTo(items, k + 1, m);
    }
  }

  lemma BytesUpTo(items: seq<Item>, k: nat)
    requires k <= |items|
    ensures |ItemsBytes(items[..k])| < |ItemsBytes(items) + END|
  {
    hide ItemsBytes, ItemBytes;
    if k < |items| {
      ItemAt(items, k);
    } else {
      assert items[..k] == items;
    }
  }

  lemma FittingParts(items: seq<Item>, k: nat, m: nat)
    requires k < m <= |items| && AllFitting(items, k, m)
    ensures AllFitting(items, k, k + 1) && AllFitting(items, k + 1, m)
  {
  }

  // Whatever follows it, such a match ends the decoding.
  lemma TooFarBack(items: seq<Item>, k: nat, cap: nat)
    requires 0 < k < |items| && items[k].Match? && Shaped(items[k]) && items[k].off > |Expand(items[..k])|
    requires AllFitting(items, 0, k) && |Expand(items[..k])| <= cap
    ensures Decoded(ItemsBytes(items) + END, cap) == Halted(LookbehindOverrun, Expand(items[..k]))
  {
    hide AllFitting, ItemsBytes, Expand, Steps, Between, MatchBytes, Start;
    FittingParts(items, 0, k);
    var inp := ItemsBytes(items) + END;
    LongStarts(items, cap);
    AdvanceTo(inp, cap, items, 0, k);
    var Match(off, len, tail) := items[k];
    var ip, out := |ItemsBytes(items[..k])|, Expand(items[..k]);
    var next := ip + |MatchBytes(off, len, |tail|)|;
    MatchStarts(inp, cap, items, k, ip, out, off, len, tail, next);
    HaltedStays(inp, cap, Halted(LookbehindOverrun, out));
  }

  // ---- A run of literals that is cut short ----

  lemma RunCutShort(inp: seq<Byte>, cap: nat, ip: nat, out: seq<Byte>, n: nat)
    requires n >= 4 && Reads(inp, ip, RunHeader(n)) && |inp| <= ip + |RunHeader(n)| + n && |out| + n <= cap
    ensures StepTop(inp, cap, ip, out) == Halted(InputOverrun, out)
  {
    ReadsByte(inp, ip, RunHeader(n), 0);
    if n > 18 {
      ReadsSplit(inp, ip, [0], LenBytes(n - 18));
      LengthReads(inp, ip + 1, n - 18, 15);
    }
  }

  // The literals behind a match that are cut short, an input that ends where an
  // instruction should stand, and a length that never ends.
  lemma TailCutShort(inp: seq<Byte>, cap: nat, ip: nat, out: seq<Byte>, t: nat)
    requires |inp| <= ip + t && |out| + t <= cap
    ensures StepNext(inp, cap, t, ip, out) == Halted(InputOverrun, out)
    ensures StepTop(inp, cap, |inp|, out) == Halted(EofNotFound, out)
  {
  }

  lemma {:induction false} OnlyZeros(inp: seq<Byte>, ip: nat, t: nat)
    requires ip <= |inp| && forall k :: ip <= k < |inp| ==> inp[k] == 0
    ensures ReadLength(inp, ip, t) == NoInput
    decreases |inp| - ip
  {
    if ip < |inp| { OnlyZeros(inp, ip + 1, t + 255); }
  }

  lemma EndlessRun(inp: seq<Byte>, cap: nat, ip: nat, out: seq<Byte>)
    requires ip < |inp| && forall k :: ip <= k < |inp| ==> inp[k] == 0
    ensures StepTop(inp, cap, ip, out) == Halted(InputOverrun, out)
  {
    hide ReadLength;
    OnlyZeros(inp, ip + 1, 15);
  }

  lemma EndlessMatch(inp: seq<Byte>, cap: nat, ip: nat, out: seq<Byte>, t: Byte)
    requires 1 <= ip <= |inp| && t in {16, 24, 32} && forall k :: ip <= k < |inp| ==> inp[k] == 0
    ensures StepMatch(inp, cap, t, ip, out) == Halted(InputOverrun, out)
  {
    hide ReadLength, CopyMatch, WordOffset, NearOffset, ShortOffset;
    OnlyZeros(inp, ip, 31);
    OnlyZeros(inp, ip, 7);
  }

  // ---- Instructions that this compressor never writes ----

  // A two-byte match after a match ...
  lemma TwoByteMatch(inp: seq<Byte>, cap: nat, ip: nat, out: seq<Byte>, off: nat, t: nat)
    requires 1 <= off <= 1024 && t <= 3 && Reads(inp, ip, [(off - 1) % 4 * 4 + t, (off - 1) / 4])
    ensures inp[ip] < 16 && ip + 2 <= |inp| && inp[ip] % 4 == t
    ensures StepMatch(inp, cap, inp[ip], ip + 1, out) == CopyMatch(inp, cap, ip + 2, out, off, 2)
  {
    hide CopyMatch;
    var b: seq<Byte> := [(off - 1) % 4 * 4 + t, (off - 1) / 4];
    ReadsByte(inp, ip, b, 0);
    ReadsByte(inp, ip, b, 1);
  }

  // ... and a far three-byte match after a run.
  lemma FarAfterRun(inp: seq<Byte>, cap: nat, ip: nat, out: seq<Byte>, off: nat, t: nat)
    requires 2049 <= off <= 3072 && t <= 3 && Reads(inp, ip, [(off - 2049) % 4 * 4 + t, (off - 2049) / 4])
    ensures inp[ip] < 16 && ip + 2 <= |inp| && inp[ip] % 4 == t
    ensures StepAfterRun(inp, cap, ip, out) == CopyMatch(inp, cap, ip + 2, out, off, 3)
  {
    hide CopyMatch;
    var b: seq<Byte> := [(off - 2049) % 4 * 4 + t, (off - 2049) / 4];
    ReadsByte(inp, ip, b, 0);
    ReadsByte(inp, ip, b, 1);
  }
}
