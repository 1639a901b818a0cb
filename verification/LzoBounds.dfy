// How large compressed and decompressed data can get.

module LzoBounds {
  import opened Bytes
  import opened LzoFormat
  import opened LzoDecode
  import opened LzoCompress

  // ---- Compressed size ----

  lemma {:induction false} LenBytesSize(n: nat)
    requires n >= 1
    ensures |LenBytes(n)| == 1 + (n - 1) / 255
    decreases n
  {
    if n > 255 {
      LenBytesSize(n - 255);
    }
  }

  lemma RunOverhead(t: nat)
    requires t >= 4
    ensures 22 * |RunHeader(t)| <= t + 25
  {
    if t > 18 {
      LenBytesSize(t - 18);
    }
  }

  // A match token is at least one byte shorter than its text.
  lemma MatchSaves(off: nat, len: nat, t: nat)
    requires 1 <= off <= M4_MAX_OFFSET && len >= 3 && t <= 3 && (off > M2_MAX_OFFSET ==> len >= 4)
    ensures |MatchBytes(off, len, t)| < len
  {
    if len > M3_MAX_LEN {
      LenBytesSize(len - M3_MAX_LEN);
    }
    if len > M4_MAX_LEN {
      LenBytesSize(len - M4_MAX_LEN);
    }
  }

  // A run of 19 literals has a header of two bytes, of which the match that must
  // follow saves one: no better than one byte lost in 22.
  lemma {:induction false} ItemsOverhead(items: seq<Item>)
    requires WellFormed(items) && AllWorthwhile(items)
    ensures 22 * (|ItemsBytes(items)| - |Expand(items)|)
         <= |Expand(items)| + if items != [] && items[|items| - 1].Run? then 25 else 0
  {
    if items != [] {
      hide MatchBytes, RunHeader;
      var front, last := items[..|items| - 1], items[|items| - 1];
      WellFormedFront(items);
      assert Fitting(items, |items| - 1);
      ItemsOverhead(front);
      match last
      case Run(lits) => RunOverhead(|lits|);
      case Match(off, len, tail) => MatchSaves(off, len, |tail|);
    }
  }

  // The most bytes a text of n bytes can compress to.
  function Largest(n: nat): nat { n + (n + 3) / 22 + 4 }

  lemma CompressedSize(s: Stream)
    requires ValidStream(s) && (s.Long? ==> AllWorthwhile(s.items))
    ensures |StreamBytes(s)| <= Largest(|StreamText(s)|)
  {
    if s.Long? {
      ItemsOverhead(s.items);
    }
  }

  // k times 19 literals and a match of three.
  ghost function Wasteful(k: nat): (items: seq<Item>)
    ensures |items| == 2 * k
  {
    if k == 0 then [] else Wasteful(k - 1) + [Run(Zeros(19))] + [Match(1, 3, [])]
  }

  function Zeros(n: nat): (z: seq<Byte>)
    ensures |z| == n
  {
    seq(n, _ => 0)
  }

  // ... and then a run: no byte can be added to what that loses.
  lemma {:induction false} WastefulSize(k: nat)
    ensures |Expand(Wasteful(k))| == 22 * k && |ItemsBytes(Wasteful(k))| == 23 * k
    ensures WellFormed(Wasteful(k)) && AllWorthwhile(Wasteful(k))
            && (k > 0 ==> Wasteful(k)[2 * k - 1] == Match(1, 3, []))
  {
    hide ItemsBytes, ItemBytes, Expand, WellFormed, AllWorthwhile;
    WasteSizes();
    if k > 0 {
      WastefulSize(k - 1);
      OneMore(Wasteful(k - 1), Run(Zeros(19)));
      OneMore(Wasteful(k - 1) + [Run(Zeros(19))], Match(1, 3, []));
    }
  }

  lemma WasteSizes()
    ensures Expand([]) == [] && ItemsBytes([]) == [] && WellFormed([]) && AllWorthwhile([])
    ensures |ItemBytes(Run(Zeros(19)))| == 21 && |ItemBytes(Match(1, 3, []))| == 2
  {
  }

  // Adding an item that fits.
  lemma OneMore(items: seq<Item>, item: Item)
    requires WellFormed(items) && AllWorthwhile(items) && Shaped(item) && Worthwhile(item)
    requires if item.Run? then Open(items) else item.off <= |Expand(items)|
    ensures WellFormed(items + [item]) && AllWorthwhile(items + [item])
    ensures |ItemsBytes(items + [item])| == |ItemsBytes(items)| + |ItemBytes(item)|
    ensures |Expand(items + [item])| == |Expand(items)| + match item
              case Run(lits) => |lits|
              case Match(off, len, tail) => len + |tail|
  {
    hide WellFormed, AllWorthwhile, ItemsBytes, ItemBytes;
    AppendItem(items, item);
    assert (items + [item])[..|items|] == items;
  }

  // The bound is exact: a stream of every size from 19 bytes up attains it.
  lemma LargestAttained(n: nat) returns (s: Stream)
    requires n >= 19
    ensures s.Long? && ValidStream(s) && AllWorthwhile(s.items)
    ensures |StreamText(s)| == n && |StreamBytes(s)| == Largest(n)
  {
    var k := (n - 19) / 22;
    var last := Run(Zeros(n - 22 * k));
    WastefulSize(k);
    OneMore(Wasteful(k), last);
    LenBytesSize(n - 22 * k - 18);
    s := Long(Wasteful(k) + [last]);
  }

  // The buffer that dcc_compress_lzo1x_alloc allocates for n bytes.
  function OutSize(n: nat): nat { n + n / 64 + 16 + 3 }

  // It holds every stream that the format allows for a text of n bytes, far matches
  // of at least four given, exactly when the largest fits.
  lemma BufferSuffices(n: nat)
    ensures (forall s :: ValidStream(s) && (s.Long? ==> AllWorthwhile(s.items)) && |StreamText(s)| == n ==>
               |StreamBytes(s)| <= OutSize(n))
       <==> Largest(n) <= OutSize(n)
  {
    hide ValidStream, StreamText, StreamBytes, AllWorthwhile;
    if Largest(n) <= OutSize(n) {
      forall s | ValidStream(s) && (s.Long? ==> AllWorthwhile(s.items)) && |StreamText(s)| == n
        ensures |StreamBytes(s)| <= OutSize(n)
      {
        CompressedSize(s);
      }
    } else {
      var s := LargestAttained(n);
    }
  }

  // It fits up to 502 bytes of text and from 512 to 524, and for no other size.
  lemma BufferLimits(n: nat)
    ensures Largest(n) <= OutSize(n) <==> n <= 502 || 512 <= n <= 524
  {
  }

  // ---- Decompressed size ----

  lemma {:induction false} ReadLengthBound(inp: seq<Byte>, ip: nat, t: nat)
    ensures var r := ReadLength(inp, ip, t); r.Length? ==> r.t <= t + 255 * (r.ip - ip)
    decreases |inp| - ip
  {
    if ip < |inp| && inp[ip] == 0 {
      ReadLengthBound(inp, ip + 1, t + 255);
    }
  }

  // The decoder counts lengths in 32 bits.  On inputs below 2^24 bytes no length,
  // with what is added to it before a copy, reaches 2^32.
  lemma LengthsFit(inp: seq<Byte>, ip: nat, t: nat, base: nat)
    requires ip <= |inp| < 0x100_0000 && t <= 31 && base <= 31
    ensures var r := LengthOf(inp, ip, t, base); r.Length? ==> r.t + 4 < 0x1_0000_0000
  {
    LengthModest(inp, ip, t, base);
  }

  // No more than 256 bytes have been written for every byte read, counting the
  // literals that match_next still has to copy.
  ghost predicate Modest(st: State) {
    st.Going? ==>
      match st.at
      case Top => |st.out| <= 256 * st.ip
      case AfterRun => |st.out| <= 256 * st.ip
      case AtMatch(t) => |st.out| <= 256 * (st.ip - 1)
      case Next(t) => |st.out| + t <= 256 * st.ip
  }

  ghost predicate Fine(r: State) {
    Modest(r) && (r.Halted? ==> r.status != OutputOverrun)
  }

  lemma CopyModest(inp: seq<Byte>, cap: nat, ip: nat, out: seq<Byte>, off: nat, n: nat)
    requires 2 <= ip <= |inp| && off >= 1 && |out| + n + 3 <= 256 * ip && cap >= 256 * |inp|
    ensures Fine(CopyMatch(inp, cap, ip, out, off, n))
  {
  }

  lemma LengthModest(inp: seq<Byte>, ip: nat, t: nat, base: nat)
    requires ip <= |inp|
    ensures var r := LengthOf(inp, ip, t, base); r.Length? ==> r.t <= t + base + 255 * (r.ip - ip)
  {
    ReadLengthBound(inp, ip, base);
  }

  lemma MatchModest(inp: seq<Byte>, cap: nat, t: Byte, ip: nat, out: seq<Byte>)
    requires 1 <= ip <= |inp| && |out| <= 256 * (ip - 1) && cap >= 256 * |inp|
    ensures Fine(StepMatch(inp, cap, t, ip, out))
  {
    hide CopyMatch, LengthOf, NearOffset, WordOffset, ShortOffset, Fine;
    if t >= 64 || t < 16 {
      if ip < |inp| {
        CopyModest(inp, cap, ip + 1, out, if t >= 64 then NearOffset(t, inp[ip]) else ShortOffset(t, inp[ip]),
                   if t >= 64 then t / 32 - 1 + 2 else 2);
      } else {
        StopsFine(ReadPastEnd, out);
      }
    } else {
      var low, base := if t >= 32 then t % 32 else t % 8, if t >= 32 then 31 else 7;
      LengthModest(inp, ip, low, base);
      StopsFine(InputOverrun, out);
      StopsFine(ReadPastEnd, out);
      StopsFine(OK, out);
      StopsFine(InputNotConsumed, out);
      var l := LengthOf(inp, ip, low, base);
      if l.Length? && l.ip + 1 < |inp| {
        var o: nat := (if t / 8 % 2 == 1 then 0x4000 else 0) + WordOffset(inp[l.ip], inp[l.ip + 1]);
        CopyModest(inp, cap, l.ip + 2, out,
                   if t >= 32 then 1 + WordOffset(inp[l.ip], inp[l.ip + 1]) else o + 0x4000, l.t + 2);
      }
    }
  }

  lemma StopsFine(status: Status, out: seq<Byte>)
    requires status != OutputOverrun
    ensures Fine(Halted(status, out))
  {
  }

  lemma StepModest(inp: seq<Byte>, cap: nat, st: State)
    requires st.Going? && Legal(inp, cap, st) && Modest(st) && cap >= 256 * |inp|
    ensures Fine(Step(inp, cap, st))
  {
    hide StepMatch, CopyMatch, LengthOf, ShortOffset;
    match st.at
    case Top =>
      if st.ip < |inp| {
        LengthModest(inp, st.ip + 1, inp[st.ip], 15);
      }
    case AfterRun =>
      if st.ip + 1 < |inp| {
        CopyModest(inp, cap, st.ip + 2, st.out, M2_MAX_OFFSET + ShortOffset(inp[st.ip], inp[st.ip + 1]), 3);
      }
    case AtMatch(t) =>
      MatchModest(inp, cap, t, st.ip, st.out);
    case Next(t) =>
  }

  lemma {:induction false} StepsModest(inp: seq<Byte>, cap: nat, st: State)
    requires Legal(inp, cap, st) && Fine(st) && cap >= 256 * |inp|
    ensures Steps(inp, cap, st).status != OutputOverrun
    decreases if st.Going? then |inp| - st.ip + 1 else 0
  {
    if st.Going? {
      StepModest(inp, cap, st);
      StepsModest(inp, cap, Step(inp, cap, st));
    }
  }

  // 256 times the input is always room enough, valid stream or not.
  lemma NeverOverruns(inp: seq<Byte>, cap: nat)
    requires cap >= 256 * |inp|
    ensures Decoded(inp, cap).status != OutputOverrun
  {
    StepsModest(inp, cap, Start(inp, cap));
  }
}
