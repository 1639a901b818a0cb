// do_compress and lzo1x_1_compress of distcc/lzo/minilzo.c.

module LzoCompress {
  import opened Bytes
  import opened LzoFormat

  const D_SIZE := 0x4000

  // D_INDEX1: a hash of four bytes in 32-bit arithmetic, cut to D_BITS = 14.
  function Index1(b0: Byte, b1: Byte, b2: Byte, b3: Byte): (d: nat)
    ensures d < D_SIZE
  {
    Masked(Mixed(b0 as bv32, b1 as bv32, b2 as bv32, b3 as bv32))
  }

  function Mixed(b0: bv32, b1: bv32, b2: bv32, b3: bv32): bv32 {
    (0x21 * ((((((b3 << 6) ^ b2) << 5) ^ b1) << 5) ^ b0)) >> 5
  }

  // D_INDEX2: the second chance.
  function Index2(d: nat): (e: nat)
    requires d < D_SIZE
    ensures e < D_SIZE
  {
    Masked(((d as bv32) & 0x7ff) ^ 0x201f)
  }

  function Masked(v: bv32): (d: nat)
    ensures d < D_SIZE
  {
    (v as int) % D_SIZE
  }

  lemma HashExamples()
    ensures Mixed(97, 98, 99, 100) == 6859810 && Mixed(1, 2, 3, 4) == 273571 && Mixed(255, 255, 255, 255) == 17091127
  {
  }

  // A far match is taken only with a fourth equal byte.
  ghost predicate Worthwhile(item: Item) {
    item.Match? && item.off > M2_MAX_OFFSET ==> item.len >= 4
  }

  ghost predicate AllWorthwhile(items: seq<Item>) {
    forall k :: 0 <= k < |items| ==> Worthwhile(items[k])
  }

  // out holds the items for the first n bytes of inp.
  ghost predicate Encodes(inp: seq<Byte>, n: nat, items: seq<Item>, out: seq<Byte>) {
    n <= |inp| && WellFormed(items) && AllWorthwhile(items)
    && Expand(items) == inp[..n] && out == ItemsBytes(items)
  }

  // The last match can still take literals in its tail, or a run can follow.
  ghost predicate Open(items: seq<Item>) {
    items == [] || (items[|items| - 1].Match? && items[|items| - 1].tail == [])
  }

  lemma AppendItem(items: seq<Item>, item: Item)
    requires WellFormed(items) && Shaped(item)
    requires item.Match? ==> item.off <= |Expand(items)|
    requires item.Run? ==> Open(items)
    ensures WellFormed(items + [item]) && ItemsBytes(items + [item]) == ItemsBytes(items) + ItemBytes(item)
    ensures AllWorthwhile(items) && Worthwhile(item) ==> AllWorthwhile(items + [item])
  {
    hide Expand, ItemBytes;
    var items' := items + [item];
    assert items'[..|items|] == items;
    forall k | 0 <= k < |items'|
      ensures Fitting(items', k)
    {
      assert items'[..k] == items[..k] && items[..|items|] == items;
      if k < |items| {
        assert Fitting(items, k);
      }
    }
  }

  lemma AppendRun(inp: seq<Byte>, n: nat, items: seq<Item>, out: seq<Byte>, m: nat)
    requires Encodes(inp, n, items, out) && Open(items) && n + 4 <= m <= |inp|
    ensures Encodes(inp, m, items + [Run(inp[n..m])], out + RunHeader(m - n) + inp[n..m])
  {
    hide WellFormed, AllWorthwhile, RunHeader, ItemsBytes;
    var items' := items + [Run(inp[n..m])];
    AppendItem(items, Run(inp[n..m]));
    assert items'[..|items|] == items && inp[..m] == inp[..n] + inp[n..m];
    assert ItemBytes(Run(inp[n..m])) == RunHeader(m - n) + inp[n..m];
    AssociatesBytes(out, RunHeader(m - n), inp[n..m]);
  }

  lemma AssociatesBytes(a: seq<Byte>, b: seq<Byte>, c: seq<Byte>)
    ensures a + (b + c) == a + b + c
  {
  }

  lemma AppendMatch(inp: seq<Byte>, n: nat, items: seq<Item>, out: seq<Byte>, off: nat, len: nat)
    requires Encodes(inp, n, items, out) && MatchesAt(inp, n, off, len) && off <= M4_MAX_OFFSET && len >= 3
    requires off > M2_MAX_OFFSET ==> len >= 4
    ensures var items' := items + [Match(off, len, [])];
            Encodes(inp, n + len, items', out + MatchBytes(off, len, 0)) && Open(items')
  {
    hide WellFormed, AllWorthwhile, MatchBytes, Copied;
    var items' := items + [Match(off, len, [])];
    AppendItem(items, Match(off, len, []));
    assert items'[..|items|] == items;
    CopiedMatches(inp, n, off, len);
    assert ItemBytes(Match(off, len, [])) == MatchBytes(off, len, 0);
  }

  // inp[n..n+len] repeats what stands off places before.
  ghost predicate MatchesAt(inp: seq<Byte>, n: nat, off: nat, len: nat) {
    1 <= off <= n && n + len <= |inp| && forall k :: n <= k < n + len ==> inp[k] == inp[k - off]
  }

  lemma {:induction false} CopiedMatches(inp: seq<Byte>, n: nat, off: nat, len: nat)
    requires MatchesAt(inp, n, off, len)
    ensures Copied(inp[..n], off, len) == inp[..n + len]
    decreases len
  {
    if len > 0 {
      CopiedMatches(inp, n, off, len - 1);
      assert inp[..n + len] == inp[..n + len - 1] + [inp[n + len - 1]];
    }
  }

  // Setting t in the last byte but one fills the two low bits that were left clear.
  lemma PatchTail(off: nat, len: nat, t: nat)
    requires 1 <= off <= M4_MAX_OFFSET && len >= 3 && t <= 3
    ensures var b := MatchBytes(off, len, 0);
            b[|b| - 2] % 4 == 0 && b[|b| - 2] + t < 256 && MatchBytes(off, len, t) == b[|b| - 2 := b[|b| - 2] + t]
  {
  }

  // Giving the last match its tail changes one byte that is already written.
  lemma TailBytes(items: seq<Item>, out: seq<Byte>, tail: seq<Byte>)
    requires WellFormed(items) && Open(items) && items != [] && 1 <= |tail| <= 3 && out == ItemsBytes(items)
    ensures |out| >= 2 && out[|out| - 2] % 4 == 0 && out[|out| - 2] + |tail| < 256
    ensures var front, last := items[..|items| - 1], items[|items| - 1];
            out[|out| - 2 := out[|out| - 2] + |tail|] + tail
              == ItemsBytes(front) + ItemBytes(Match(last.off, last.len, tail))
  {
    hide MatchBytes, ItemsBytes, WellFormed, Expand;
    var front, last := items[..|items| - 1], items[|items| - 1];
    WellFormedFront(items);
    PatchTail(last.off, last.len, |tail|);
    var b := MatchBytes(last.off, last.len, 0);
    LastBytes(items);
    assert out[|out| - 2 := out[|out| - 2] + |tail|] == ItemsBytes(front) + b[|b| - 2 := b[|b| - 2] + |tail|];
  }

  lemma LastBytes(items: seq<Item>)
    requires items != []
    ensures ItemsBytes(items) == ItemsBytes(items[..|items| - 1]) + ItemBytes(items[|items| - 1])
  {
  }

  lemma AppendTail(inp: seq<Byte>, n: nat, items: seq<Item>, out: seq<Byte>, m: nat)
    requires Encodes(inp, n, items, out) && Open(items) && items != [] && n < m <= n + 3 && m <= |inp|
    ensures |out| >= 2 && out[|out| - 2] % 4 == 0 && out[|out| - 2] + (m - n) < 256
    ensures var last := items[|items| - 1];
            Encodes(inp, m, items[..|items| - 1] + [Match(last.off, last.len, inp[n..m])],
                    out[|out| - 2 := out[|out| - 2] + (m - n)] + inp[n..m])
  {
    hide ItemBytes, ItemsBytes, WellFormed, AllWorthwhile, Copied;
    var front, last := items[..|items| - 1], items[|items| - 1];
    WorthwhileFront(items);
    var item := Match(last.off, last.len, inp[n..m]);
    TailBytes(items, out, inp[n..m]);
    WellFormedFront(items);
    AppendItem(front, item);
    assert (front + [item])[..|front|] == front;
    assert inp[..m] == inp[..n] + inp[n..m];
  }

  lemma WorthwhileFront(items: seq<Item>)
    requires AllWorthwhile(items) && items != []
    ensures AllWorthwhile(items[..|items| - 1]) && Worthwhile(items[|items| - 1])
  {
  }

  lemma WellFormedFront(items: seq<Item>)
    requires WellFormed(items) && items != []
    ensures WellFormed(items[..|items| - 1]) && Shaped(items[|items| - 1])
    ensures items[|items| - 1].Match? ==> items[|items| - 1].off <= |Expand(items[..|items| - 1])|
  {
    var front := items[..|items| - 1];
    assert Fitting(items, |items| - 1);
    forall k | 0 <= k < |front|
      ensures Fitting(front, k)
    {
      assert Fitting(items, k) && front[..k] == items[..k];
    }
  }

  // ---- The compressor ----

  // One dictionary entry, whatever it holds: usable if it lies in the input,
  // strictly before ip and not too far back (LZO_CHECK_MPOS_NON_DET).
  predicate Usable(mpos: int, ip: nat) {
    0 <= mpos < ip && ip - mpos <= M4_MAX_OFFSET
  }

  // Near enough, or with a fourth equal byte.
  predicate Promising(inp: seq<Byte>, mpos: int, ip: nat)
    requires Usable(mpos, ip) && ip + 4 <= |inp|
  {
    ip - mpos <= M2_MAX_OFFSET || inp[mpos + 3] == inp[ip + 3]
  }

  // An entry that leads to a match: three equal bytes, and four if it is far.
  ghost predicate Taken(inp: seq<Byte>, mpos: int, ip: nat)
    requires ip + 4 <= |inp|
  {
    Usable(mpos, ip) && Promising(inp, mpos, ip) && inp[mpos..mpos + 3] == inp[ip..ip + 3]
  }

  // The entry that is decided on, and replaced: the second if the first is usable,
  // but not promising.
  ghost function Entry(inp: seq<Byte>, d: seq<int>, ip: nat): (e: nat)
    requires |d| == D_SIZE && ip + 4 <= |inp|
    ensures e < D_SIZE
  {
    var i := Index1(inp[ip], inp[ip + 1], inp[ip + 2], inp[ip + 3]);
    if Usable(d[i], ip) && !Promising(inp, d[i], ip) then Index2(i) else i
  }

  // From the first look into the dictionary to `match` or `literal`.
  method FindMatch(inp: seq<Byte>, dict: array<int>, ip: nat) returns (found: bool, mpos: int, dindex: nat)
    requires dict.Length == D_SIZE && ip + 4 <= |inp|
    ensures dindex == Entry(inp, dict[..], ip) && mpos == dict[dindex] && (found <==> Taken(inp, mpos, ip))
    ensures found ==> Usable(mpos, ip) && MatchesAt(inp, ip, ip - mpos, 3)
    ensures found && ip - mpos > M2_MAX_OFFSET ==> MatchesAt(inp, ip, ip - mpos, 4)
  {
    hide MatchesAt;
    found := false;
    dindex := Index1(inp[ip], inp[ip + 1], inp[ip + 2], inp[ip + 3]);
    mpos := dict[dindex];
    if !Usable(mpos, ip) {
      return;
    }
    if !Promising(inp, mpos, ip) {
      dindex := Index2(dindex);
      mpos := dict[dindex];
      if !Usable(mpos, ip) || !Promising(inp, mpos, ip) {
        return;
      }
    }
    found := inp[mpos] == inp[ip] && inp[mpos + 1] == inp[ip + 1] && inp[mpos + 2] == inp[ip + 2];
    ThreeBytes(inp, ip, mpos);
    if found { EqualBytes(inp, ip, mpos); }
  }

  lemma ThreeBytes(inp: seq<Byte>, ip: nat, mpos: nat)
    requires mpos < ip && ip + 4 <= |inp|
    ensures inp[mpos..mpos + 3] == inp[ip..ip + 3]
       <==> inp[mpos] == inp[ip] && inp[mpos + 1] == inp[ip + 1] && inp[mpos + 2] == inp[ip + 2]
  {
    var a, b := inp[mpos..mpos + 3], inp[ip..ip + 3];
    if a == b { assert a[0] == b[0] && a[1] == b[1] && a[2] == b[2]; }
  }

  lemma EqualBytes(inp: seq<Byte>, ip: nat, mpos: nat)
    requires mpos < ip && ip + 4 <= |inp|
    requires inp[mpos] == inp[ip] && inp[mpos + 1] == inp[ip + 1] && inp[mpos + 2] == inp[ip + 2]
    ensures MatchesAt(inp, ip, ip - mpos, 3)
    ensures inp[mpos + 3] == inp[ip + 3] ==> MatchesAt(inp, ip, ip - mpos, 4)
  {
  }

  ghost predicate Longest(inp: seq<Byte>, mpos: int, ip: nat, len: nat) {
    0 <= mpos < ip && len >= 3 && ip + len <= |inp| && MatchesAt(inp, ip, ip - mpos, len)
    && (ip + len == |inp| || inp[ip + len] != inp[mpos + len])
  }

  // How far the match goes: up to the first difference or the end of the input.
  method Measure(inp: seq<Byte>, mpos: nat, ip: nat) returns (len: nat)
    requires mpos < ip && ip + 9 <= |inp| && MatchesAt(inp, ip, ip - mpos, 3)
    ensures Longest(inp, mpos, ip, len)
  {
    len := 3;
    while len < 9 && inp[mpos + len] == inp[ip + len]
      invariant 3 <= len <= 9 && MatchesAt(inp, ip, ip - mpos, len)
    {
      len := len + 1;
    }
    if len == 9 {
      while ip + len < |inp| && inp[mpos + len] == inp[ip + len]
        invariant 9 <= len && MatchesAt(inp, ip, ip - mpos, len)
      {
        len := len + 1;
      }
    }
  }

  // A long length: a zero byte for every 255 in it, then what is left.
  method WriteLength(out: seq<Byte>, n: nat) returns (out': seq<Byte>)
    requires n >= 1
    ensures out' == out + LenBytes(n)
  {
    out' := out;
    var tt := n;
    while tt > 255
      invariant tt >= 1 && out' + LenBytes(tt) == out + LenBytes(n)
    {
      assert out' + LenBytes(tt) == out' + [0] + LenBytes(tt - 255);
      tt := tt - 255;
      out' := out' + [0];
    }
    out' := out' + [tt];
  }

  ghost function WithLiterals(items: seq<Item>, lits: seq<Byte>): seq<Item> {
    if lits == [] then items
    else if |lits| <= 3 && items != [] && items[|items| - 1].Match? then
      var last := items[|items| - 1];
      items[..|items| - 1] + [Match(last.off, last.len, lits)]
    else items + [Run(lits)]
  }

  // The literals inp[ii..ip]: in the tail of the last match, or as a run.
  method WriteLiterals(inp: seq<Byte>, ii: nat, ip: nat, out: seq<Byte>, ghost items: seq<Item>)
    returns (out': seq<Byte>, ghost items': seq<Item>)
    requires Encodes(inp, ii, items, out) && Open(items) && ii < ip <= |inp|
    requires items == [] ==> ip - ii >= 4
    ensures Encodes(inp, ip, items', out') && items' == WithLiterals(items, inp[ii..ip])
  {
    hide Encodes;
    var t := ip - ii;
    if t <= 3 {
      AppendTail(inp, ii, items, out, ip);
      ghost var last := items[|items| - 1];
      items' := items[..|items| - 1] + [Match(last.off, last.len, inp[ii..ip])];
      out' := out[|out| - 2 := out[|out| - 2] + t];
    } else {
      AppendRun(inp, ii, items, out, ip);
      items' := items + [Run(inp[ii..ip])];
      if t <= 18 {
        out' := out + [t - 3];
      } else {
        out' := WriteLength(out + [0], t - 18);
        assert out' == out + ([0] + LenBytes(t - 18));
      }
    }
    out' := out' + inp[ii..ip];
  }

  // A match of length len at distance off.
  method WriteMatch(out: seq<Byte>, off: nat, len: nat) returns (out': seq<Byte>)
    requires 1 <= off <= M4_MAX_OFFSET && len >= 3
    ensures out' == out + MatchBytes(off, len, 0)
  {
    hide LenBytes, MatchBytes;
    MatchBytesAre(off, len);
    if len <= M2_MAX_LEN && off <= M2_MAX_OFFSET {
      var o := off - 1;
      return out + [(len - 1) * 32 + o % 8 * 4, o / 8];
    }
    var o: nat;
    if off <= M3_MAX_OFFSET {
      o := off - 1;
      if len <= M3_MAX_LEN {
        out' := out + [M3_MARKER + (len - 2)];
      } else {
        out' := WriteLength(out + [M3_MARKER], len - M3_MAX_LEN);
        assert out' == out + ([M3_MARKER] + LenBytes(len - M3_MAX_LEN));
      }
    } else {
      o := off - 0x4000;
      var high := if o >= 0x4000 then 8 else 0;
      if len <= M4_MAX_LEN {
        out' := out + [M4_MARKER + high + (len - 2)];
      } else {
        out' := WriteLength(out + [M4_MARKER + high], len - M4_MAX_LEN);
        assert out' == out + ([M4_MARKER + high] + LenBytes(len - M4_MAX_LEN));
      }
    }
    out' := out' + [o % 64 * 4, o / 64 % 256];
  }

  // The last byte as it is computed, with the bit that went into the marker cut off.
  lemma MatchBytesAre(off: nat, len: nat)
    requires 1 <= off <= M4_MAX_OFFSET && len >= 3
    ensures len <= M2_MAX_LEN && off <= M2_MAX_OFFSET ==>
              MatchBytes(off, len, 0) == [(len - 1) * 32 + (off - 1) % 8 * 4, (off - 1) / 8]
    ensures !(len <= M2_MAX_LEN && off <= M2_MAX_OFFSET) && off <= M3_MAX_OFFSET ==>
              var o := off - 1;
              MatchBytes(off, len, 0)
              == (if len <= M3_MAX_LEN then [M3_MARKER + (len - 2)] else [M3_MARKER] + LenBytes(len - M3_MAX_LEN))
                 + [o % 64 * 4, o / 64 % 256]
    ensures off > M3_MAX_OFFSET ==>
              var o := off - 0x4000;
              var m := M4_MARKER + if o >= 0x4000 then 8 else 0;
              MatchBytes(off, len, 0)
              == (if len <= M4_MAX_LEN then [m + (len - 2)] else [m] + LenBytes(len - M4_MAX_LEN))
                 + [o % 64 * 4, o / 64 % 256]
  {
    hide LenBytes;
    if off > M3_MAX_OFFSET { HighBits(off - 0x4000); } else { HighBits(off - 1); }
  }

  // LZO_BYTE(m_off >> 6) drops the bit that went into the marker.
  lemma HighBits(o: nat)
    requires o < 0x8000
    ensures o / 64 % 256 == o % 0x4000 / 64
    ensures o < 0x4000 ==> o / 64 % 256 == o / 64
  {
  }

  // ---- What is decided ----

  // One round of do_compress: where it looks, where the pending literals start,
  // the dictionary it finds, the entry it decides on, and how long a match it
  // takes from there, 0 if none.
  datatype Look = Look(ip: nat, ii: nat, dict: seq<int>, mpos: int, len: nat)

  ghost predicate Decided(inp: seq<Byte>, x: Look) {
    && |x.dict| == D_SIZE && x.ii <= x.ip && x.ip + 4 <= |inp|
    && x.mpos == x.dict[Entry(inp, x.dict, x.ip)]
    && if Taken(inp, x.mpos, x.ip) then Longest(inp, x.mpos, x.ip, x.len) else x.len == 0
  }

  // What the next round starts from; the entry decided on points here now.
  ghost function NextIp(x: Look): nat { if x.len == 0 then x.ip + 1 else x.ip + x.len }

  ghost function NextIi(x: Look): nat { if x.len == 0 then x.ii else x.ip + x.len }

  ghost function NextDict(inp: seq<Byte>, x: Look): seq<int>
    requires |x.dict| == D_SIZE && x.ip + 4 <= |inp|
  {
    x.dict[Entry(inp, x.dict, x.ip) := x.ip]
  }

  ghost predicate Succeeds(inp: seq<Byte>, x: Look, y: Look) {
    Decided(inp, x) && y.ip == NextIp(x) && y.ii == NextIi(x) && y.dict == NextDict(inp, x)
    && y.ip + M2_MAX_LEN + 5 < |inp|
  }

  // The first round looks at byte 4.
  ghost predicate Starts(d: seq<int>, x: Look) {
    x.ip == 4 && x.ii == 0 && x.dict == d
  }

  ghost predicate Rounds(inp: seq<Byte>, d: seq<int>, tr: seq<Look>) {
    && (forall m :: 0 <= m < |tr| ==> Decided(inp, tr[m]))
    && (tr != [] ==> Starts(d, tr[0]))
    && forall m :: 0 < m < |tr| ==> Succeeds(inp, tr[m - 1], tr[m])
  }

  // The rounds are over when 13 bytes or less are left.
  ghost predicate Over(inp: seq<Byte>, tr: seq<Look>) {
    tr != [] && NextIp(tr[|tr| - 1]) + M2_MAX_LEN + 5 >= |inp|
  }

  ghost predicate Taking(inp: seq<Byte>, x: Look) {
    x.ii <= x.ip <= |inp| && x.mpos < x.ip
  }

  // The items that come of it.
  ghost function ItemsOf(inp: seq<Byte>, tr: seq<Look>): seq<Item> {
    if tr == [] then []
    else
      var x, front := tr[|tr| - 1], ItemsOf(inp, tr[..|tr| - 1]);
      if x.len == 0 || !Taking(inp, x) then front
      else WithLiterals(front, inp[x.ii..x.ip]) + [Match(x.ip - x.mpos, x.len, [])]
  }

  lemma OneMoreRound(inp: seq<Byte>, d: seq<int>, tr: seq<Look>, x: Look)
    requires Rounds(inp, d, tr) && Decided(inp, x)
    requires if tr == [] then Starts(d, x) else Succeeds(inp, tr[|tr| - 1], x)
    ensures Rounds(inp, d, tr + [x])
    ensures ItemsOf(inp, tr + [x]) == if x.len == 0 then ItemsOf(inp, tr)
            else WithLiterals(ItemsOf(inp, tr), inp[x.ii..x.ip]) + [Match(x.ip - x.mpos, x.len, [])]
  {
    hide Decided, Succeeds, Starts, WithLiterals, ItemsOf;
    var more := tr + [x];
    forall m | 0 <= m < |more| ensures Decided(inp, more[m]) {}
    forall m | 0 < m < |more| ensures Succeeds(inp, more[m - 1], more[m]) {}
    LastLook(inp, tr, x);
  }

  lemma LastLook(inp: seq<Byte>, tr: seq<Look>, x: Look)
    requires Decided(inp, x)
    ensures ItemsOf(inp, tr + [x]) == if x.len == 0 then ItemsOf(inp, tr)
            else WithLiterals(ItemsOf(inp, tr), inp[x.ii..x.ip]) + [Match(x.ip - x.mpos, x.len, [])]
  {
    hide WithLiterals, Taken, Entry, MatchesAt;
    assert (tr + [x])[..|tr|] == tr;
  }

  // The stream that comes of it: all literals if no match was taken in up to 238
  // bytes.
  ghost predicate CompressedBy(inp: seq<Byte>, d: seq<int>, s: Stream, tr: seq<Look>) {
    && Rounds(inp, d, tr) && (if |inp| <= M2_MAX_LEN + 5 then tr == [] else Over(inp, tr))
    && var items := ItemsOf(inp, tr);
    var ii := if tr == [] then 0 else NextIi(tr[|tr| - 1]);
    ii <= |inp| && s == if items == [] && 1 <= |inp| <= 238 then Short(inp) else Long(WithLiterals(items, inp[ii..]))
  }

  ghost predicate Compressed(inp: seq<Byte>, d: seq<int>, s: Stream) {
    exists tr :: CompressedBy(inp, d, s, tr)
  }

  // ---- Runs of one byte ----

  ghost predicate OneByte(inp: seq<Byte>) {
    forall k :: 0 <= k < |inp| ==> inp[k] == inp[0]
  }

  // Where all bytes are the same, any usable entry leads to a match, and an entry
  // made at one place is found at the next.
  lemma OneByteTaken(inp: seq<Byte>, mpos: int, ip: nat)
    requires OneByte(inp) && ip + 4 <= |inp|
    ensures Usable(mpos, ip) ==> Promising(inp, mpos, ip) && Taken(inp, mpos, ip)
  {
  }

  // At the first place looked at, or just behind it, where its entry is.
  ghost predicate Entered(inp: seq<Byte>, d: seq<int>, ip: nat)
    requires |inp| > 0 && |d| == D_SIZE
  {
    ip == 4 || (ip == 5 && d[Index1(inp[0], inp[0], inp[0], inp[0])] == 4)
  }

  // Unless the entry for the first place happens to be usable, it is replaced by
  // one that is usable at the second.
  lemma OneByteStep(inp: seq<Byte>, d: seq<int>, ip: nat, found: bool, mpos: int, dindex: nat)
    requires OneByte(inp) && |d| == D_SIZE && ip + 9 <= |inp| && Entered(inp, d, ip)
    requires dindex == Entry(inp, d, ip) && mpos == d[dindex] && (found <==> Taken(inp, mpos, ip))
    ensures found || (ip == 4 && Entered(inp, d[dindex := ip], 5))
  {
    hide Index1, Index2, Taken, Promising;
    assert inp[ip] == inp[ip + 1] == inp[ip + 2] == inp[ip + 3] == inp[0];
    OneByteTaken(inp, d[Index1(inp[0], inp[0], inp[0], inp[0])], ip);
  }

  // What is written for such an input: a short run and one match.
  ghost predicate RunAndMatch(n: nat, items: seq<Item>) {
    |items| == 2 && items[0].Run? && 4 <= |items[0].lits| <= 5
    && items[1].Match? && items[1].tail == [] && |items[0].lits| + items[1].len == n
  }

  lemma {:induction false} LenBytesCount(n: nat)
    requires n >= 1
    ensures |LenBytes(n)| <= 1 + (n - 1) / 255
  {
    if n > 255 { LenBytesCount(n - 255); }
  }

  lemma RunAndMatchSize(n: nat, items: seq<Item>)
    requires RunAndMatch(n, items) && WellFormed(items)
    ensures |ItemsBytes(items)| <= 11 + n / 255
  {
    hide LenBytes, Expand;
    var run, m := items[0], items[1];
    assert Fitting(items, 0) && Fitting(items, 1);
    assert items[..1] == [run] && [run][..0] == [];
    assert ItemsBytes(items) == ItemsBytes(items[..1]) + ItemBytes(m);
    assert ItemsBytes([run]) == ItemsBytes([run][..0]) + ItemBytes(run);
    assert |ItemBytes(run)| <= 6;
    if m.len > M3_MAX_LEN { LenBytesCount(m.len - M3_MAX_LEN); }
    if m.len > M4_MAX_LEN { LenBytesCount(m.len - M4_MAX_LEN); }
  }

  // do_compress: everything but the last literals, which start at ii.
  method DoCompress(inp: seq<Byte>, dict: array<int>)
    returns (out: seq<Byte>, ii: nat, ghost items: seq<Item>, ghost tr: seq<Look>)
    requires dict.Length == D_SIZE && |inp| > M2_MAX_LEN + 5
    modifies dict
    ensures Encodes(inp, ii, items, out) && Open(items)
    ensures items == [] ==> ii == 0
    ensures Rounds(inp, old(dict[..]), tr) && Over(inp, tr) && items == ItemsOf(inp, tr)
    ensures ii == NextIi(tr[|tr| - 1])
    ensures OneByte(inp) && |inp| >= 19 ==> ii == |inp| && RunAndMatch(|inp|, items)
  {
    hide Encodes, OneByte, RunAndMatch, Taken, Promising, MatchesAt, Index1, Index2, Open;
    hide Rounds, Entry, Longest, WithLiterals, ItemsOf;
    out, ii, items, tr := [], 0, [], [];
    NoRounds(inp, dict[..]);
    EncodesNothing(inp);
    var ip := 4;
    assert Open(items) by { OpenEmpty(); }
    while true
      invariant ii <= ip && ip + 9 <= |inp|
      invariant Encodes(inp, ii, items, out) && Open(items) && (items == [] ==> ii == 0 && ip >= 4)
      invariant Rounds(inp, old(dict[..]), tr) && items == ItemsOf(inp, tr)
      invariant if tr == [] then ip == 4 && ii == 0 && dict[..] == old(dict[..])
                else Reached(inp, tr[|tr| - 1], ip, ii, dict[..]) && ip + M2_MAX_LEN + 5 < |inp|
      invariant OneByte(inp) ==> items == [] && Entered(inp, dict[..], ip)
      decreases |inp| - ip
    {
      var found, mpos, dindex := FindMatch(inp, dict, ip);
      if OneByte(inp) { OneByteStep(inp, dict[..], ip, found, mpos, dindex); }
      ghost var d := dict[..];
      dict[dindex] := ip;
      assert dict[..] == d[dindex := ip];
      ghost var x := Look(ip, ii, d, mpos, 0);
      if !found {
        ip := ip + 1;
      } else {
        var len;
        out, len, items := Take(inp, mpos, ip, ii, out, items);
        x := Look(ip, ii, d, mpos, len);
        RunFirst(inp[0..x.ip]);
        if OneByte(inp) { MatchToEnd(inp, mpos, ip, len, items); }
        ip := ip + len;
        ii := ip;
      }
      LookIs(inp, x, found);
      OneMoreRound(inp, old(dict[..]), tr, x);
      tr := tr + [x];
      if ip + M2_MAX_LEN + 5 >= |inp| {
        break;
      }
    }
  }

  // The pending literals, and the match.
  method Take(inp: seq<Byte>, mpos: nat, ip: nat, ii: nat, out: seq<Byte>, ghost items: seq<Item>)
    returns (out': seq<Byte>, len: nat, ghost items': seq<Item>)
    requires Encodes(inp, ii, items, out) && Open(items) && (items == [] ==> ip - ii >= 4)
    requires ii <= ip && ip + 9 <= |inp|
    requires Usable(mpos, ip) && MatchesAt(inp, ip, ip - mpos, 3)
    requires ip - mpos > M2_MAX_OFFSET ==> MatchesAt(inp, ip, ip - mpos, 4)
    ensures Longest(inp, mpos, ip, len) && len >= 3 && ip + len <= |inp|
    ensures Encodes(inp, ip + len, items', out') && Open(items')
    ensures items' == WithLiterals(items, inp[ii..ip]) + [Match(ip - mpos, len, [])]
  {
    hide Encodes, Open, MatchesAt, WithLiterals;
    out', items' := out, items;
    if ip > ii {
      out', items' := WriteLiterals(inp, ii, ip, out, items);
    } else {
      assert inp[ii..ip] == [];
      NoLiterals(items);
    }
    len := Measure(inp, mpos, ip);
    if ip - mpos > M2_MAX_OFFSET { FourthByte(inp, mpos, ip, len); }
    out', items' := TakeMatch(inp, ip, out', ip - mpos, len, items');
  }

  lemma NoLiterals(items: seq<Item>)
    ensures WithLiterals(items, []) == items
  {
  }

  lemma FourthByte(inp: seq<Byte>, mpos: nat, ip: nat, len: nat)
    requires mpos < ip && ip + 9 <= |inp| && MatchesAt(inp, ip, ip - mpos, 4) && len >= 3 && ip + len <= |inp|
    requires ip + len == |inp| || inp[ip + len] != inp[mpos + len]
    ensures len >= 4
  {
    assert inp[ip + 3] == inp[ip + 3 - (ip - mpos)];
  }

  lemma MatchToEnd(inp: seq<Byte>, mpos: nat, ip: nat, len: nat, items: seq<Item>)
    requires OneByte(inp) && mpos < ip && Longest(inp, mpos, ip, len) && 4 <= ip <= 5
    requires items == [Run(inp[0..ip])] + [Match(ip - mpos, len, [])]
    ensures ip + len == |inp| && RunAndMatch(|inp|, items)
  {
  }

  method TakeMatch(inp: seq<Byte>, ip: nat, out: seq<Byte>, off: nat, len: nat, ghost items: seq<Item>)
    returns (out': seq<Byte>, ghost items': seq<Item>)
    requires Encodes(inp, ip, items, out) && MatchesAt(inp, ip, off, len) && off <= M4_MAX_OFFSET && len >= 3
    requires off > M2_MAX_OFFSET ==> len >= 4
    ensures Encodes(inp, ip + len, items', out') && Open(items') && items' == items + [Match(off, len, [])]
  {
    hide Encodes;
    out' := WriteMatch(out, off, len);
    items' := items + [Match(off, len, [])];
    AppendMatch(inp, ip, items, out, off, len);
  }

  lemma RunFirst(lits: seq<Byte>)
    ensures lits != [] ==> WithLiterals([], lits) == [Run(lits)]
  {
  }

  ghost predicate Reached(inp: seq<Byte>, x: Look, ip: nat, ii: nat, d: seq<int>) {
    Decided(inp, x) && ip == NextIp(x) && ii == NextIi(x) && d == NextDict(inp, x)
  }

  lemma NoRounds(inp: seq<Byte>, d: seq<int>)
    ensures Rounds(inp, d, []) && ItemsOf(inp, []) == []
  {
  }

  lemma LookIs(inp: seq<Byte>, x: Look, found: bool)
    requires |x.dict| == D_SIZE && x.ii <= x.ip && x.ip + 4 <= |inp| && x.mpos == x.dict[Entry(inp, x.dict, x.ip)]
    requires found <==> Taken(inp, x.mpos, x.ip)
    requires if found then Longest(inp, x.mpos, x.ip, x.len) else x.len == 0
    ensures Decided(inp, x)
  {
  }

  lemma OpenEmpty()
    ensures Open([])
  {
  }

  lemma EncodesNothing(inp: seq<Byte>)
    ensures Encodes(inp, 0, [], [])
  {
  }

  // lzo1x_1_compress, for any contents of the dictionary memory.
  method Compress(inp: seq<Byte>, dict: array<int>) returns (out: seq<Byte>, ghost s: Stream)
    requires dict.Length == D_SIZE
    modifies dict
    ensures ValidStream(s) && out == StreamBytes(s) && StreamText(s) == inp
    ensures s.Long? ==> AllWorthwhile(s.items)
    ensures Compressed(inp, old(dict[..]), s)
    ensures (forall k :: 0 <= k < |inp| ==> inp[k] == inp[0]) && |inp| >= 19 ==> |out| <= 14 + |inp| / 255
  {
    hide ItemsBytes, WellFormed, Expand, RunAndMatch, Rounds, Over, ItemsOf, Compressed, WithLiterals;
    var ii: nat := 0;
    ghost var items: seq<Item>, tr: seq<Look> := [], [];
    out := [];
    EncodesNothing(inp);
    NoRounds(inp, dict[..]);
    if |inp| > M2_MAX_LEN + 5 {
      out, ii, items, tr := DoCompress(inp, dict);
    }
    var t := |inp| - ii;
    assert inp[..|inp|] == inp;
    ghost var found := items;
    if OneByte(inp) && |inp| >= 19 { RunAndMatchSize(|inp|, items); }
    if t > 0 {
      if out == [] && t <= 238 {
        if items != [] {
          SomethingWritten(items);
        }
        out := [17 + t] + inp[ii..] + END;
        s := Short(inp);
        assert inp[ii..] == inp;
        IsCompressed(inp, old(dict[..]), items, s, tr, ii);
        return;
      }
      if items == [] {
        EncodesNothing(inp);
      }
      out, items := WriteLiterals(inp, ii, |inp|, out, items);
    }
    out := out + END;
    s := Long(items);
    if t == 0 {
      assert inp[ii..] == [];
      NoLiterals(found);
    }
    IsCompressed(inp, old(dict[..]), found, s, tr, ii);
  }

  lemma IsCompressed(inp: seq<Byte>, d: seq<int>, items: seq<Item>, s: Stream, tr: seq<Look>, ii: nat)
    requires Rounds(inp, d, tr) && (if |inp| <= M2_MAX_LEN + 5 then tr == [] else Over(inp, tr))
    requires items == ItemsOf(inp, tr) && ii <= |inp| && ii == if tr == [] then 0 else NextIi(tr[|tr| - 1])
    requires s == if items == [] && 1 <= |inp| <= 238 then Short(inp) else Long(WithLiterals(items, inp[ii..]))
    ensures Compressed(inp, d, s)
  {
    hide Rounds, Over, ItemsOf, WithLiterals;
    assert CompressedBy(inp, d, s, tr);
  }

  lemma SomethingWritten(items: seq<Item>)
    requires WellFormed(items) && items != []
    ensures ItemsBytes(items) != []
  {
    assert Fitting(items, |items| - 1);
    LastBytes(items);
  }
}
