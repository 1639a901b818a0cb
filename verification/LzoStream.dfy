// The decoder undoes the byte stream: every valid stream decodes to its text
// in a large enough buffer, and overruns any smaller one.

module LzoStream {
  import opened Bytes
  import opened LzoFormat
  import opened LzoDecode

  // b stands in inp at ip.
  ghost predicate Reads(inp: seq<Byte>, ip: nat, b: seq<Byte>) {
    ip + |b| <= |inp| && inp[ip..ip + |b|] == b
  }

  lemma ReadsSplit(inp: seq<Byte>, ip: nat, b: seq<Byte>, c: seq<Byte>)
    requires Reads(inp, ip, b + c)
    ensures Reads(inp, ip, b) && Reads(inp, ip + |b|, c)
  {
    assert inp[ip..ip + |b|] == inp[ip..ip + |b + c|][..|b|];
    assert inp[ip + |b|..ip + |b| + |c|] == inp[ip..ip + |b + c|][|b|..];
  }

  lemma ReadsByte(inp: seq<Byte>, ip: nat, b: seq<Byte>, k: nat)
    requires Reads(inp, ip, b) && k < |b|
    ensures inp[ip + k] == b[k]
  {
  }

  // ---- Single items ----

  lemma {:induction false} LengthReads(inp: seq<Byte>, ip: nat, n: nat, base: nat)
    requires n >= 1 && Reads(inp, ip, LenBytes(n))
    ensures ReadLength(inp, ip, base) == Length(base + n, ip + |LenBytes(n)|)
    decreases n
  {
    ReadsByte(inp, ip, LenBytes(n), 0);
    if n > 255 {
      ReadsSplit(inp, ip, [0], LenBytes(n - 255));
      LengthReads(inp, ip + 1, n - 255, base + 255);
    }
  }

  lemma RunReads(inp: seq<Byte>, cap: nat, ip: nat, out: seq<Byte>, lits: seq<Byte>)
    requires |lits| >= 4 && Reads(inp, ip, RunHeader(|lits|) + lits) && |out| <= cap
    requires ip + |RunHeader(|lits|)| + |lits| < |inp|
    ensures StepTop(inp, cap, ip, out)
         == if cap < |out| + |lits| then Halted(OutputOverrun, out)
            else Going(AfterRun, ip + |RunHeader(|lits|)| + |lits|, out + lits)
  {
    var t := |lits|;
    ReadsSplit(inp, ip, RunHeader(t), lits);
    ReadsByte(inp, ip, RunHeader(t), 0);
    if t > 18 {
      ReadsSplit(inp, ip, [0], LenBytes(t - 18));
      LengthReads(inp, ip + 1, t - 18, 15);
    }
  }

  // The instruction byte of a match is never taken for a run, and a length code
  // followed by two offset bytes is read back whole.
  lemma CodeReads(inp: seq<Byte>, ip: nat, n: nat, max: nat, marker: Byte, short: Byte, word: seq<Byte>, t: nat)
    requires |word| == 2 && n >= 3 && max >= 3
    requires Reads(inp, ip, (if n <= max then [short] else [marker] + LenBytes(n - max)) + word)
    requires t == (if n <= max then n - 2 else 0)
    ensures LengthOf(inp, ip + 1, t, max - 2) == Length(n - 2, ip + (if n <= max then 1 else 1 + |LenBytes(n - max)|))
    ensures var ip1 := ip + (if n <= max then 1 else 1 + |LenBytes(n - max)|); Reads(inp, ip1, word)
    ensures inp[ip] == if n <= max then short else marker
  {
    var head := if n <= max then [short] else [marker] + LenBytes(n - max);
    ReadsSplit(inp, ip, head, word);
    ReadsByte(inp, ip, head, 0);
    if n > max {
      ReadsSplit(inp, ip, [marker], LenBytes(n - max));
      LengthReads(inp, ip + 1, n - max, max - 2);
    }
  }

  lemma NearReads(inp: seq<Byte>, cap: nat, ip: nat, out: seq<Byte>, off: nat, len: nat, t: nat)
    requires 1 <= off <= M2_MAX_OFFSET && 3 <= len <= M2_MAX_LEN && t <= 3
    requires Reads(inp, ip, MatchBytes(off, len, t))
    ensures inp[ip] >= 16 && ip + 2 <= |inp| && inp[ip] % 4 == t
    ensures StepMatch(inp, cap, inp[ip], ip + 1, out) == CopyMatch(inp, cap, ip + 2, out, off, len)
  {
    hide StepMatch, CopyMatch, NearOffset, Reads;
    var bytes := MatchBytes(off, len, t);
    ReadsByte(inp, ip, bytes, 0);
    ReadsByte(inp, ip, bytes, 1);
    ReadsBound(inp, ip, bytes);
    NearBits(off, len, t);
    NearStep(inp, cap, ip, out);
  }

  lemma NearBits(off: nat, len: nat, t: nat)
    requires 1 <= off <= M2_MAX_OFFSET && 3 <= len <= M2_MAX_LEN && t <= 3
    ensures var b := (len - 1) * 32 + (off - 1) % 8 * 4 + t;
            64 <= b < 256 && b % 4 == t && b / 32 - 1 + 2 == len && NearOffset(b, (off - 1) / 8) == off
  {
    var low := (off - 1) % 8;
    var b := (len - 1) * 32 + low * 4 + t;
    assert b / 4 == (len - 1) * 8 + low;
    assert b / 4 % 8 == low;
  }

  lemma NearStep(inp: seq<Byte>, cap: nat, ip: nat, out: seq<Byte>)
    requires ip + 2 <= |inp| && inp[ip] >= 64
    ensures StepMatch(inp, cap, inp[ip], ip + 1, out)
         == CopyMatch(inp, cap, ip + 2, out, NearOffset(inp[ip], inp[ip + 1]), inp[ip] / 32 - 1 + 2)
  {
    hide CopyMatch, NearOffset;
  }

  lemma MiddleReads(inp: seq<Byte>, cap: nat, ip: nat, out: seq<Byte>, off: nat, len: nat, t: nat)
    requires 1 <= off <= M3_MAX_OFFSET && 3 <= len && t <= 3 && !(len <= M2_MAX_LEN && off <= M2_MAX_OFFSET)
    requires Reads(inp, ip, MatchBytes(off, len, t))
    ensures var m := |MatchBytes(off, len, t)|; inp[ip] >= 16 && ip + m <= |inp| && inp[ip + m - 2] % 4 == t
    ensures StepMatch(inp, cap, inp[ip], ip + 1, out)
            == CopyMatch(inp, cap, ip + |MatchBytes(off, len, t)|, out, off, len)
  {
    hide StepMatch, CopyMatch, LenBytes, Reads, LengthOf, WordOffset;
    var word: seq<Byte> := [(off - 1) % 64 * 4 + t, (off - 1) / 64];
    CodeReads(inp, ip, len, M3_MAX_LEN, M3_MARKER, if len <= M3_MAX_LEN then M3_MARKER + (len - 2) else M3_MARKER, word,
              if len <= M3_MAX_LEN then len - 2 else 0);
    var ip1 := ip + |MatchBytes(off, len, t)| - 2;
    ReadsByte(inp, ip1, word, 0);
    ReadsByte(inp, ip1, word, 1);
    WordReads(off - 1, t);
    ReadsBound(inp, ip1, word);
    MiddleStep(inp, cap, ip, out, len - 2, ip1);
  }

  lemma MiddleStep(inp: seq<Byte>, cap: nat, ip: nat, out: seq<Byte>, n: nat, ip1: nat)
    requires ip < |inp| && 32 <= inp[ip] < 64 && LengthOf(inp, ip + 1, inp[ip] % 32, 31) == Length(n, ip1)
    requires ip1 + 2 <= |inp| && ip1 >= 1
    ensures StepMatch(inp, cap, inp[ip], ip + 1, out)
         == CopyMatch(inp, cap, ip1 + 2, out, 1 + WordOffset(inp[ip1], inp[ip1 + 1]), n + 2)
  {
    hide CopyMatch, LengthOf, WordOffset;
  }

  lemma FarStep(inp: seq<Byte>, cap: nat, ip: nat, out: seq<Byte>, n: nat, ip1: nat, o: nat)
    requires ip < |inp| && 16 <= inp[ip] < 32 && LengthOf(inp, ip + 1, inp[ip] % 8, 7) == Length(n, ip1)
    requires ip1 + 2 <= |inp| && ip1 >= 1
    requires o == (if inp[ip] / 8 % 2 == 1 then 0x4000 else 0) + WordOffset(inp[ip1], inp[ip1 + 1]) && o > 0
    ensures StepMatch(inp, cap, inp[ip], ip + 1, out) == CopyMatch(inp, cap, ip1 + 2, out, o + 0x4000, n + 2)
  {
    hide CopyMatch, LengthOf, WordOffset;
  }

  lemma FarReads(inp: seq<Byte>, cap: nat, ip: nat, out: seq<Byte>, off: nat, len: nat, t: nat)
    requires M3_MAX_OFFSET < off <= M4_MAX_OFFSET && 3 <= len && t <= 3
    requires Reads(inp, ip, MatchBytes(off, len, t))
    ensures var m := |MatchBytes(off, len, t)|; inp[ip] >= 16 && ip + m <= |inp| && inp[ip + m - 2] % 4 == t
    ensures StepMatch(inp, cap, inp[ip], ip + 1, out)
            == CopyMatch(inp, cap, ip + |MatchBytes(off, len, t)|, out, off, len)
  {
    hide StepMatch, CopyMatch, LenBytes, Reads, WordOffset, LengthOf;
    var o := off - 0x4000;
    var high := if o >= 0x4000 then 8 else 0;
    var word: seq<Byte> := [o % 64 * 4 + t, o % 0x4000 / 64];
    var x := if len <= M4_MAX_LEN then len - 2 else 0;
    CodeReads(inp, ip, len, M4_MAX_LEN, M4_MARKER + high, M4_MARKER + high + x, word, x);
    var ip1 := ip + |MatchBytes(off, len, t)| - 2;
    ReadsByte(inp, ip1, word, 0);
    ReadsByte(inp, ip1, word, 1);
    ReadsBound(inp, ip1, word);
    FarBits(o, high, x, t);
    FarStep(inp, cap, ip, out, len - 2, ip1, o);
  }

  lemma FarBits(o: nat, high: nat, x: nat, t: nat)
    requires 1 <= o <= 0x7fff && high == (if o >= 0x4000 then 8 else 0) && x < 8 && t <= 3
    ensures var b := M4_MARKER + high + x; 16 <= b < 32 && b % 8 == x && (b / 8 % 2 == 1 <==> high == 8)
    ensures (if high == 8 then 0x4000 else 0) + WordOffset(o % 64 * 4 + t, o % 0x4000 / 64) == o
    ensures (o % 64 * 4 + t) % 4 == t
  {
    var low := o % 0x4000;
    assert low % 64 == o % 64;
    WordReads(low, t);
  }

  lemma ReadsBound(inp: seq<Byte>, ip: nat, b: seq<Byte>)
    requires Reads(inp, ip, b)
    ensures ip + |b| <= |inp|
  {
  }

  lemma WordReads(o: nat, t: nat)
    requires t <= 3
    ensures WordOffset(o % 64 * 4 + t, o / 64) == o && (o % 64 * 4 + t) % 4 == t
  {
  }

  lemma MatchReads(inp: seq<Byte>, cap: nat, ip: nat, out: seq<Byte>, off: nat, len: nat, t: nat)
    requires 1 <= off <= M4_MAX_OFFSET && 3 <= len && t <= 3
    requires Reads(inp, ip, MatchBytes(off, len, t))
    ensures var m := |MatchBytes(off, len, t)|; inp[ip] >= 16 && ip + m <= |inp| && inp[ip + m - 2] % 4 == t
    ensures StepMatch(inp, cap, inp[ip], ip + 1, out)
            == CopyMatch(inp, cap, ip + |MatchBytes(off, len, t)|, out, off, len)
  {
    if len <= M2_MAX_LEN && off <= M2_MAX_OFFSET {
      NearReads(inp, cap, ip, out, off, len, t);
    } else if off <= M3_MAX_OFFSET {
      MiddleReads(inp, cap, ip, out, off, len, t);
    } else {
      FarReads(inp, cap, ip, out, off, len, t);
    }
  }

  // ---- Between items ----

  // The decoder's state before item k of inp == ItemsBytes(items) + END.
  ghost function Between(inp: seq<Byte>, items: seq<Item>, k: nat): State
    requires k <= |items| && |ItemsBytes(items[..k])| < |inp|
  {
    var ip, out := |ItemsBytes(items[..k])|, Expand(items[..k]);
    if k > 0 && items[k - 1].Run? then Going(AfterRun, ip, out)
    else if k > 0 && items[k - 1].tail != [] then Going(AtMatch(inp[ip]), ip + 1, out)
    else Going(Top, ip, out)
  }

  lemma {:induction false} ItemAt(items: seq<Item>, k: nat)
    requires k < |items|
    ensures var at := |ItemsBytes(items[..k])|;
            |ItemsBytes(items[..k + 1])| == at + |ItemBytes(items[k])| <= |ItemsBytes(items)|
            && ItemsBytes(items)[at..at + |ItemBytes(items[k])|] == ItemBytes(items[k])
    decreases |items|
  {
    hide ItemBytes;
    var front := items[..|items| - 1];
    assert items[..k + 1][..k] == items[..k];
    if k < |front| {
      ItemAt(front, k);
      assert front[..k] == items[..k] && front[..k + 1] == items[..k + 1];
      var at := |ItemsBytes(items[..k])|;
      assert ItemsBytes(items)[at..at + |ItemBytes(items[k])|] == ItemsBytes(front)[at..at + |ItemBytes(items[k])|];
    } else {
      assert items[..k + 1] == items;
    }
  }

  lemma ItemReads(items: seq<Item>, k: nat)
    requires k < |items|
    ensures var inp, at := ItemsBytes(items) + END, |ItemsBytes(items[..k])|;
            Reads(inp, at, ItemBytes(items[k]))
              && |ItemsBytes(items[..k + 1])| == at + |ItemBytes(items[k])| <= |inp| - 3
  {
    hide ItemsBytes, ItemBytes;
    ItemAt(items, k);
    var at := |ItemsBytes(items[..k])|;
    SliceOfFront(ItemsBytes(items), END, at, at + |ItemBytes(items[k])|);
  }

  lemma SliceOfFront(a: seq<Byte>, b: seq<Byte>, i: nat, j: nat)
    requires i <= j <= |a|
    ensures (a + b)[i..j] == a[i..j]
  {
  }

  lemma ExpandNext(items: seq<Item>, k: nat)
    requires k < |items|
    ensures var out := Expand(items[..k]);
            Expand(items[..k + 1]) == match items[k]
              case Run(lits) => out + lits
              case Match(off, len, tail) => (if 1 <= off <= |out| then Copied(out, off, len) else out) + tail
    ensures |Expand(items[..k])| <= |Expand(items[..k + 1])|
  {
    hide Expand, Copied;
    var front := items[..k + 1];
    assert front[..k] == items[..k] && front[k] == items[k];
    ExpandLast(front);
    var out := Expand(items[..k]);
    if items[k].Match? && 1 <= items[k].off <= |out| {
      CopiedLonger(out, items[k].off, items[k].len);
    }
  }

  lemma ExpandLast(items: seq<Item>)
    requires items != []
    ensures var out := Expand(items[..|items| - 1]);
            Expand(items) == match items[|items| - 1]
              case Run(lits) => out + lits
              case Match(off, len, tail) => (if 1 <= off <= |out| then Copied(out, off, len) else out) + tail
  {
    hide Copied;
  }

  lemma CopiedLonger(out: seq<Byte>, off: nat, n: nat)
    requires 1 <= off <= |out|
    ensures |out| <= |Copied(out, off, n)|
  {
  }

  lemma {:induction false} ExpandGrows(items: seq<Item>, k: nat)
    requires k <= |items|
    ensures |Expand(items[..k])| <= |Expand(items)|
    decreases |items| - k
  {
    if k < |items| {
      ExpandNext(items, k);
      ExpandGrows(items, k + 1);
    } else {
      assert items[..k] == items;
    }
  }

  // An instruction byte of 16 or more is executed whatever came before.
  lemma ToMatch(inp: seq<Byte>, cap: nat, items: seq<Item>, k: nat)
    requires k <= |items| && |ItemsBytes(items[..k])| < |inp| && |Expand(items[..k])| <= cap
    requires inp[|ItemsBytes(items[..k])|] >= 16
    ensures var ip, out := |ItemsBytes(items[..k])|, Expand(items[..k]);
            Steps(inp, cap, Between(inp, items, k)) == Steps(inp, cap, Going(AtMatch(inp[ip]), ip + 1, out))
  {
    hide ItemsBytes, Expand, StepMatch, StepNext, Steps, CopyMatch, LengthOf;
    var st := Between(inp, items, k);
    if !st.at.AtMatch? { StepsOnce(inp, cap, st); }
  }

  lemma StepsOnce(inp: seq<Byte>, cap: nat, st: State)
    requires st.Going? && Legal(inp, cap, st)
    ensures Steps(inp, cap, st) == Steps(inp, cap, Step(inp, cap, st))
  {
  }

  lemma StepsHalted(inp: seq<Byte>, cap: nat, st: State)
    requires st.Halted? && Legal(inp, cap, st)
    ensures Steps(inp, cap, st) == st
  {
  }

  ghost predicate AllFitting(items: seq<Item>, k: nat, m: nat)
    requires m <= |items|
  {
    forall j :: k <= j < m ==> Fitting(items, j)
  }

  // Decoding from item k: one more item, or a full buffer.
  lemma RunAdvances(inp: seq<Byte>, cap: nat, items: seq<Item>, k: nat)
    requires k < |items| && AllFitting(items, k, k + 1) && items[k].Run? && inp == ItemsBytes(items) + END
    requires |Expand(items[..k])| <= cap && |ItemsBytes(items[..k])| < |inp| && |ItemsBytes(items[..k + 1])| < |inp|
    ensures var r := Steps(inp, cap, Between(inp, items, k));
            if |Expand(items[..k + 1])| <= cap then r == Steps(inp, cap, Between(inp, items, k + 1))
            else r.status == OutputOverrun
  {
    hide ItemsBytes, Expand, StepTop, Reads, RunHeader, Steps, StepAfterRun, StepMatch, StepNext;
    assert Fitting(items, k);
    var ip, out, lits := |ItemsBytes(items[..k])|, Expand(items[..k]), items[k].lits;
    ItemReads(items, k);
    ExpandNext(items, k);
    RunReads(inp, cap, ip, out, lits);
    assert Between(inp, items, k) == Going(Top, ip, out);
    StepsOnce(inp, cap, Going(Top, ip, out));
    if cap < |out| + |lits| {
      StepsHalted(inp, cap, Halted(OutputOverrun, out));
    }
  }

  lemma MatchAdvances(inp: seq<Byte>, cap: nat, items: seq<Item>, k: nat)
    requires k < |items| && AllFitting(items, k, k + 1) && items[k].Match? && inp == ItemsBytes(items) + END
    requires |Expand(items[..k])| <= cap && |ItemsBytes(items[..k])| < |inp| && |ItemsBytes(items[..k + 1])| < |inp|
    ensures var r := Steps(inp, cap, Between(inp, items, k));
            if |Expand(items[..k + 1])| <= cap then r == Steps(inp, cap, Between(inp, items, k + 1))
            else r.status == OutputOverrun
  {
    hide ItemsBytes, Expand, Reads, MatchBytes, Copied, Steps, CopyMatch, StepTop, StepAfterRun, StepNext, StepMatch;
    hide Between, ItemBytes;
    assert Fitting(items, k);
    AfterMatch(inp, items, k);
    var ip, out := |ItemsBytes(items[..k])|, Expand(items[..k]);
    var Match(off, len, tail) := items[k];
    var next := ip + |MatchBytes(off, len, |tail|)|;
    MatchStarts(inp, cap, items, k, ip, out, off, len, tail, next);
    ExpandNext(items, k);
    CopyAdvances(inp, cap, next, out, off, len, tail);
  }

  lemma AfterMatch(inp: seq<Byte>, items: seq<Item>, k: nat)
    requires k < |items| && items[k].Match? && |ItemsBytes(items[..k + 1])| < |inp|
    ensures var ip, out := |ItemsBytes(items[..k + 1])|, Expand(items[..k + 1]);
            Between(inp, items, k + 1)
            == if items[k].tail == [] then Going(Top, ip, out) else Going(AtMatch(inp[ip]), ip + 1, out)
  {
    hide ItemsBytes, Expand;
  }

  // The instruction itself, up to the copy.
  lemma MatchStarts(inp: seq<Byte>, cap: nat, items: seq<Item>, k: nat, ip: nat, out: seq<Byte>,
                    off: nat, len: nat, tail: seq<Byte>, next: nat)
    requires k < |items| && items[k] == Match(off, len, tail) && inp == ItemsBytes(items) + END
    requires 1 <= off <= M4_MAX_OFFSET && len >= 3 && |tail| <= 3 && next == ip + |MatchBytes(off, len, |tail|)|
    requires ip == |ItemsBytes(items[..k])| < |inp| && out == Expand(items[..k]) && |out| <= cap
    ensures 2 <= next && next + |tail| + 3 <= |inp| && |ItemsBytes(items[..k + 1])| == next + |tail|
    ensures inp[next..next + |tail|] == tail && inp[next - 2] % 4 == |tail|
    ensures Steps(inp, cap, Between(inp, items, k)) == Steps(inp, cap, CopyMatch(inp, cap, next, out, off, len))
  {
    hide ItemsBytes, Expand, StepMatch, Reads, MatchBytes, Copied, Steps, CopyMatch, Between, ItemBytes, StepTop;
    hide StepAfterRun, StepNext;
    ItemReads(items, k);
    MatchItem(off, len, tail);
    ReadsSplit(inp, ip, MatchBytes(off, len, |tail|), tail);
    MatchReads(inp, cap, ip, out, off, len, |tail|);
    ToMatch(inp, cap, items, k);
    AtMatchOnce(inp, cap, ip + 1, out, inp[ip]);
    TailReads(inp, next, tail);
  }

  lemma MatchItem(off: nat, len: nat, tail: seq<Byte>)
    requires 1 <= off <= M4_MAX_OFFSET && len >= 3 && |tail| <= 3
    ensures ItemBytes(Match(off, len, tail)) == MatchBytes(off, len, |tail|) + tail
    ensures |MatchBytes(off, len, |tail|)| >= 2
  {
  }

  lemma AtMatchOnce(inp: seq<Byte>, cap: nat, ip: nat, out: seq<Byte>, t: Byte)
    requires 1 <= ip <= |inp| && |out| <= cap
    ensures Legal(inp, cap, StepMatch(inp, cap, t, ip, out))
    ensures Steps(inp, cap, Going(AtMatch(t), ip, out)) == Steps(inp, cap, StepMatch(inp, cap, t, ip, out))
  {
    hide StepMatch, Steps;
    StepsOnce(inp, cap, Going(AtMatch(t), ip, out));
    assert Step(inp, cap, Going(AtMatch(t), ip, out)) == StepMatch(inp, cap, t, ip, out);
  }

  // After the instruction: the copy, and the literals in its tail.
  lemma CopyAdvances(inp: seq<Byte>, cap: nat, ip: nat, out: seq<Byte>, off: nat, len: nat, tail: seq<Byte>)
    requires 1 <= off <= |out| <= cap && 2 <= ip && ip + |tail| < |inp| && inp[ip..ip + |tail|] == tail
    requires |tail| <= 3 && inp[ip - 2] % 4 == |tail| && ip + |tail| + 1 < |inp|
    ensures var r, out' := Steps(inp, cap, CopyMatch(inp, cap, ip, out, off, len)), Copied(out, off, len) + tail;
            if |out'| > cap then r.status == OutputOverrun
            else if tail == [] then r == Steps(inp, cap, Going(Top, ip, out'))
            else r == Steps(inp, cap, Going(AtMatch(inp[ip + |tail|]), ip + |tail| + 1, out'))
  {
    hide Copied, StepTop, StepAfterRun, StepMatch, Steps;
    var c := CopyMatch(inp, cap, ip, out, off, len);
    if c.Going? {
      assert Copied(out, off, len) + [] == Copied(out, off, len);
      if tail != [] {
        StepsOnce(inp, cap, c);
        var c' := Step(inp, cap, c);
        if c'.Halted? {
          StepsHalted(inp, cap, c');
        }
      }
    } else {
      StepsHalted(inp, cap, c);
    }
  }

  lemma TailReads(inp: seq<Byte>, ip: nat, tail: seq<Byte>)
    requires Reads(inp, ip, tail)
    ensures ip + |tail| <= |inp| && inp[ip..ip + |tail|] == tail
  {
  }

  lemma EndStep(inp: seq<Byte>, cap: nat, ip: nat, out: seq<Byte>)
    requires Reads(inp, ip, END) && |inp| == ip + 3
    ensures inp[ip] == 17 && StepMatch(inp, cap, inp[ip], ip + 1, out) == Halted(OK, out)
  {
    ReadsByte(inp, ip, END, 0);
    ReadsByte(inp, ip, END, 1);
    ReadsByte(inp, ip, END, 2);
  }

  lemma EndReads(inp: seq<Byte>, cap: nat, items: seq<Item>)
    requires inp == ItemsBytes(items) + END && |Expand(items)| <= cap && items[..|items|] == items
    ensures |ItemsBytes(items[..|items|])| < |inp|
    ensures Steps(inp, cap, Between(inp, items, |items|)) == Halted(OK, Expand(items))
  {
    hide ItemsBytes, Expand, Steps, Between, StepTop, StepAfterRun, StepNext, StepMatch;
    var ip, out := |ItemsBytes(items)|, Expand(items);
    EndStep(inp, cap, ip, out);
    ToMatch(inp, cap, items, |items|);
    StepsOnce(inp, cap, Going(AtMatch(17), ip + 1, out));
    StepsHalted(inp, cap, Halted(OK, out));
  }

  lemma {:induction false} DecodesFrom(inp: seq<Byte>, cap: nat, items: seq<Item>, k: nat)
    requires WellFormed(items) && k <= |items| && inp == ItemsBytes(items) + END && |Expand(items[..k])| <= cap
    ensures |ItemsBytes(items[..k])| < |inp|
    ensures var r := Steps(inp, cap, Between(inp, items, k));
            if |Expand(items)| <= cap then r == Halted(OK, Expand(items)) else r.status == OutputOverrun
    decreases |items| - k
  {
    hide WellFormed, AllFitting, ItemsBytes, Expand, Steps, Between;
    ExpandGrows(items, k);
    if k == |items| {
      assert items[..k] == items;
      EndReads(inp, cap, items);
    } else {
      WellFormedAt(items, k);
      ItemReads(items, k);
      if items[k].Run? {
        RunAdvances(inp, cap, items, k);
      } else {
        MatchAdvances(inp, cap, items, k);
      }
      ExpandGrows(items, k + 1);
      if |Expand(items[..k + 1])| <= cap {
        DecodesFrom(inp, cap, items, k + 1);
      }
    }
  }

  lemma WellFormedAt(items: seq<Item>, k: nat)
    requires WellFormed(items) && k < |items|
    ensures AllFitting(items, k, k + 1)
  {
  }

  // ---- Whole streams ----

  lemma LongStarts(items: seq<Item>, cap: nat)
    requires items != [] ==> AllFitting(items, 0, 1)
    ensures var inp := ItemsBytes(items) + END; Start(inp, cap) == Between(inp, items, 0) == Going(Top, 0, [])
  {
    hide ItemsBytes;
    assert ItemsBytes([]) == [] by { EmptyItems(); }
    assert items[..0] == [];
    if items != [] {
      assert Fitting(items, 0) && Expand(items[..0]) == [];
      ItemReads(items, 0);
      ReadsByte(ItemsBytes(items) + END, 0, ItemBytes(items[0]), 0);
    }
  }

  lemma EmptyItems()
    ensures ItemsBytes([]) == []
  {
  }

  lemma ShortDecodes(lits: seq<Byte>, cap: nat)
    requires 1 <= |lits| <= 238
    ensures var r := Decoded([17 + |lits|] + lits + END, cap);
            if |lits| <= cap then r == Halted(OK, lits) else r.status == OutputOverrun
  {
    hide Steps, StepMatch, StepTop;
    var inp, n := [17 + |lits|] + lits + END, |lits|;
    var st := Start(inp, cap);
    assert inp[1..1 + n] == lits && inp[n + 1] == 17 && inp[n + 1..n + 4] == END;
    EndStep(inp, cap, n + 1, lits);
    if st.Halted? {
      StepsHalted(inp, cap, st);
    } else {
      StepsOnce(inp, cap, st);
      var st1 := Step(inp, cap, st);
      if st1.Halted? {
        StepsHalted(inp, cap, st1);
      } else {
        assert st1 == Going(AtMatch(17), n + 2, lits);
        StepsOnce(inp, cap, st1);
        StepsHalted(inp, cap, Halted(OK, lits));
      }
    }
  }

  // Every valid stream decodes to its text exactly when the buffer is large
  // enough, and is reported as an output overrun otherwise.
  lemma StreamDecodes(s: Stream, cap: nat)
    requires ValidStream(s)
    ensures var r := Decoded(StreamBytes(s), cap);
            if |StreamText(s)| <= cap then r == Halted(OK, StreamText(s)) else r.status == OutputOverrun
  {
    match s
    case Short(lits) =>
      ShortDecodes(lits, cap);
    case Long(items) =>
      hide ItemsBytes, WellFormed, Steps, Start, Between;
      if items != [] { WellFormedAt(items, 0); }
      LongStarts(items, cap);
      assert items[..0] == [];
      DecodesFrom(ItemsBytes(items) + END, cap, items, 0);
  }
}
