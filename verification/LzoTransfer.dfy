// distcc/src/compress.c: compressed bulk data on its way from sender to receiver.

module LzoTransfer {
  import opened Bytes
  import opened LzoFormat
  import opened LzoDecode
  import opened LzoDecoder
  import opened LzoStream
  import opened LzoCompress
  import opened LzoBounds

  // ---- The sizes of the buffer ----

  // unsigned and lzo_uint have 32 bits; size_t has 32 or 64.
  const WORD: int := 0x1_0000_0000

  datatype SizeT = Bits32 | Bits64 {
    function Limit(): int { if Bits32? then WORD else WORD * WORD }
  }

  function Doubled(k: nat): (n: nat)
    ensures n >= 1
  {
    if k == 0 then 1 else 2 * Doubled(k - 1)
  }

  // The capacity that the decoder is told after k doublings, for an input of n
  // bytes: the first product is taken in an unsigned, and the size is handed on
  // as an lzo_uint.
  function Capacity(n: nat, k: nat): (c: nat)
    ensures c < WORD
  {
    8 * n * Doubled(k) % WORD
  }

  lemma ModIs(q: int, r: int)
    requires 0 <= r < WORD
    ensures (q * WORD + r) % WORD == r
  {
  }

  lemma NextCapacity(n: nat, k: nat)
    ensures Capacity(n, k + 1) == 2 * Capacity(n, k) % WORD
  {
    var x := 8 * n * Doubled(k);
    assert 8 * n * Doubled(k + 1) == 2 * x by { assert 8 * n * (2 * Doubled(k)) == 2 * (8 * n * Doubled(k)); }
    assert x == x / WORD * WORD + x % WORD;
    var y := 2 * (x % WORD);
    assert 2 * x == (2 * (x / WORD) + y / WORD) * WORD + y % WORD;
    ModIs(2 * (x / WORD) + y / WORD, y % WORD);
  }

  lemma ZeroStays(n: nat, k: nat, j: nat)
    requires Capacity(n, k) == 0 && k <= j
    ensures Capacity(n, j) == 0
    decreases j
  {
    if k < j {
      ZeroStays(n, k, j - 1);
      NextCapacity(n, j - 1);
    }
  }

  // From the 29th doubling on, there is nothing left of it.
  lemma CapacityVanishes(n: nat, k: nat)
    requires k >= 29
    ensures Capacity(n, k) == 0
  {
    assert Doubled(10) == 0x400;
    assert Doubled(20) == 0x10_0000;
    assert Doubled(29) == 0x2000_0000;
    assert 8 * n * 0x2000_0000 == n * WORD;
    ModIs(n, 0);
    ZeroStays(n, 29, k);
  }

  // ---- The retry loop ----

  // What dcc_r_bulk_lzo1x does with a block: nothing for an empty one, otherwise
  // write the data out, give up with an I/O error, or never come to an end.
  datatype Received = Nothing | Written(data: seq<Byte>) | IoError(status: Status) | Unending

  ghost predicate Overruns(inp: seq<Byte>, k: nat) {
    Decoded(inp, Capacity(|inp|, k)).status == OutputOverrun
  }

  ghost predicate Endless(inp: seq<Byte>) {
    forall k: nat :: Overruns(inp, k)
  }

  ghost function Answer(s: State): Received
    requires s.Halted?
  {
    if s.status == OK then Written(s.out) else IoError(s.status)
  }

  // Decompress into a buffer of 8 times the input, and double it for as long as
  // the output does not fit.  Once the decoder has been told 0, it is told 0 for
  // ever; the model stops there, where the original goes on.
  method Receive(inp: seq<Byte>, fast: bool, sizeT: SizeT) returns (r: Received, doublings: nat)
    requires |inp| < WORD
    ensures inp == [] <==> r == Nothing
    ensures inp != [] ==> (r == Unending <==> Endless(inp))
    ensures forall k :: 0 <= k < doublings ==> Overruns(inp, k)
    ensures r.Written? ==>
              Decoded(inp, Capacity(|inp|, doublings)).status == OK
                && r.data == Decoded(inp, Capacity(|inp|, doublings)).out
    ensures r.IoError? ==> r.status == Decoded(inp, Capacity(|inp|, doublings)).status && r.status != OK
    ensures 0 < |inp| < 0x2000_0000 ==> (doublings == 0 <==> Decoded(inp, 8 * |inp|).status != OutputOverrun)
    ensures inp != [] && r != Unending
            ==> !Overruns(inp, doublings) && r == Answer(Decoded(inp, Capacity(|inp|, doublings)))
    ensures |inp| < 0x100_0000 ==> r != Unending && doublings <= 5
  {
    hide Decoded, Capacity, Endless;
    r, doublings := Nothing, 0;
    if inp == [] {
      return;
    }
    var outSize := 8 * |inp| % WORD;
    FirstCapacity(|inp|);
    while true
      invariant doublings <= 29 && 0 <= outSize < sizeT.Limit() && outSize % WORD == Capacity(|inp|, doublings)
      invariant forall k :: 0 <= k < doublings ==> Overruns(inp, k)
      invariant |inp| < 0x100_0000 ==> doublings <= 5
      decreases 29 - doublings
    {
      var outLen := outSize % WORD;
      var out := new Byte[outLen];
      var status, len := Decompress(inp, out, fast);
      if status != OutputOverrun {
        NotEndless(inp, doublings);
        FirstSize(inp, doublings);
        return if status == OK then Written(out[..len]) else IoError(status), doublings;
      }
      FiveSuffice(inp, doublings);
      if outLen == 0 {
        FirstNotZero(inp, doublings);
        ZeroIsEndless(inp, doublings);
        return Unending, doublings;
      }
      NextSize(outSize, sizeT);
      NextCapacity(|inp|, doublings);
      if doublings == 29 { CapacityVanishes(|inp|, 29); }
      outSize := outSize * 2 % sizeT.Limit();
      doublings := doublings + 1;
    }
  }

  lemma FirstCapacity(n: nat)
    ensures Capacity(n, 0) == 8 * n % WORD
  {
  }

  lemma FirstSize(inp: seq<Byte>, n: nat)
    requires forall k :: 0 <= k < n ==> Overruns(inp, k)
    requires !Overruns(inp, n)
    ensures |inp| < 0x2000_0000 ==> (n == 0 <==> Decoded(inp, 8 * |inp|).status != OutputOverrun)
  {
    hide Decoded;
    assert Overruns(inp, 0) <==> n > 0;
  }

  lemma FirstNotZero(inp: seq<Byte>, n: nat)
    requires Capacity(|inp|, n) == 0 && forall k :: 0 <= k <= n ==> Overruns(inp, k)
    ensures 0 < |inp| < 0x2000_0000 ==> n > 0 && Decoded(inp, 8 * |inp|).status == OutputOverrun
  {
    hide Decoded;
    assert Overruns(inp, 0);
  }

  // Only the low 32 bits of the size matter, however wide it is.
  lemma NextSize(size: nat, sizeT: SizeT)
    requires size < sizeT.Limit()
    ensures size * 2 % sizeT.Limit() % WORD == 2 * (size % WORD) % WORD
  {
    var q, r := size / WORD, size % WORD;
    var y := 2 * r;
    assert 2 * size == (2 * q + y / WORD) * WORD + y % WORD;
    ModIs(2 * q + y / WORD, y % WORD);
    if sizeT.Bits64? && size * 2 >= WORD * WORD {
      assert size * 2 % sizeT.Limit() == size * 2 - WORD * WORD == (2 * q + y / WORD - WORD) * WORD + y % WORD;
      ModIs(2 * q + y / WORD - WORD, y % WORD);
    }
  }

  lemma NotEndless(inp: seq<Byte>, k: nat)
    requires !Overruns(inp, k)
    ensures !Endless(inp)
  {
  }

  lemma ZeroIsEndless(inp: seq<Byte>, n: nat)
    requires Capacity(|inp|, n) == 0 && forall k :: 0 <= k <= n ==> Overruns(inp, k)
    ensures Endless(inp)
  {
    hide Decoded, Capacity;
    forall k: nat ensures Overruns(inp, k) {
      if k > n {
        ZeroStays(|inp|, n, k);
        assert Overruns(inp, n);
      }
    }
  }

  // On no input below 2^24 bytes does it take more than five doublings.
  lemma FiveSuffice(inp: seq<Byte>, k: nat)
    requires inp != [] && Overruns(inp, k)
    ensures |inp| < 0x100_0000 ==> k != 5 && (k < 5 ==> Capacity(|inp|, k) > 0)
  {
    hide Decoded;
    if |inp| < 0x100_0000 && k <= 5 {
      assert Doubled(5) == 32;
      if k == 5 { NeverOverruns(inp, Capacity(|inp|, 5)); }
    }
  }

  // The loop ends exactly if one of the first thirty attempts does not overrun.
  lemma EndlessIff(inp: seq<Byte>)
    ensures Endless(inp) <==> forall k: nat :: k <= 29 ==> Overruns(inp, k)
  {
    hide Decoded, Capacity;
    if forall k: nat :: k <= 29 ==> Overruns(inp, k) {
      CapacityVanishes(|inp|, 29);
      ZeroIsEndless(inp, 29);
    }
  }

  // On a stream, it ends exactly if it ever tells the decoder enough room.
  lemma StreamEndless(s: Stream)
    requires ValidStream(s)
    ensures Endless(StreamBytes(s)) <==> forall k: nat :: Capacity(|StreamBytes(s)|, k) < |StreamText(s)|
  {
    hide Overruns, Capacity, ValidStream, StreamBytes, StreamText;
    forall k: nat
      ensures Overruns(StreamBytes(s), k) <==> Capacity(|StreamBytes(s)|, k) < |StreamText(s)|
    {
      StreamFits(s, k);
    }
  }

  // A stream of 2^29 bytes: eight times that is 0, and so is every size after.
  lemma NoCapacity(k: nat)
    ensures Capacity(0x2000_0000, k) == 0
  {
    FirstCapacity(0x2000_0000);
    ZeroStays(0x2000_0000, 0, k);
  }

  lemma HalfGigabyteFails() returns (s: Stream)
    ensures ValidStream(s) && |StreamBytes(s)| == 0x2000_0000 && Endless(StreamBytes(s))
  {
    hide Decoded, Capacity, Endless;
    s := OneRun(534773756);
    assert |StreamBytes(s)| == 0x2000_0000;
    forall k: nat ensures Capacity(|StreamBytes(s)|, k) < |StreamText(s)| {
      NoCapacity(k);
    }
    StreamEndless(s);
  }

  lemma OneRun(n: nat) returns (s: Stream)
    requires n >= 19
    ensures ValidStream(s) && |StreamText(s)| == n && |StreamBytes(s)| == n + 5 + (n - 19) / 255
  {
    var lits := Zeros(n);
    s := Long([] + [Run(lits)]);
    WasteSizes();
    OneMore([], Run(lits));
    LenBytesSize(n - 18);
  }

  // ---- Both ends ----

  // Below 2^29 bytes there is a size of 2^31 or more, or five doublings give 256
  // times the input.
  lemma RoomEnough(n: nat, room: nat) returns (k: nat)
    requires 0 < n < 0x2000_0000 && room <= 0x8000_0000 && room <= 256 * n
    ensures k <= 5 && Capacity(n, k) >= room
  {
    assert Doubled(0) == 1 && Doubled(1) == 2 && Doubled(2) == 4 && Doubled(3) == 8 && Doubled(4) == 16
           && Doubled(5) == 32;
    k := if n >= 0x1000_0000 then 0 else if n >= 0x800_0000 then 1 else if n >= 0x400_0000 then 2
         else if n >= 0x200_0000 then 3 else if n >= 0x100_0000 then 4 else 5;
  }

  // The decoder can expand its input at most 256 times.
  lemma TextWithin(s: Stream)
    requires ValidStream(s)
    ensures |StreamText(s)| <= 256 * |StreamBytes(s)|
  {
    hide Decoded, ValidStream, StreamBytes, StreamText;
    NeverOverruns(StreamBytes(s), 256 * |StreamBytes(s)|);
    StreamDecodes(s, 256 * |StreamBytes(s)|);
  }

  // What a length that is passed as an lzo_uint leaves of a block.
  function Kept(b: seq<Byte>): seq<Byte> {
    b[..|b| % WORD]
  }

  lemma KeptWhole(b: seq<Byte>)
    ensures |Kept(b)| < WORD && (|b| < WORD ==> Kept(b) == b)
  {
  }

  // The compressor and the receiver, for any contents of the dictionary memory.
  // The receiver writes exactly the bytes that were sent if it ever makes enough
  // room for them, and never ends otherwise; it does make room, in at most five
  // doublings, for all texts that compress to less than 2^29 bytes and are not
  // larger than 2^31.
  method SendAndReceive(text: seq<Byte>, dict: array<int>, fast: bool, sizeT: SizeT)
    returns (compressed: seq<Byte>, r: Received, doublings: nat)
    requires dict.Length == D_SIZE
    modifies dict
    ensures 3 <= |compressed| <= Largest(|Kept(text)|)
    ensures Largest(|Kept(text)|) <= OutSize(|text|) ==> |compressed| <= OutSize(|text|)
    ensures |compressed| < WORD ==>
              r == if forall k: nat :: Capacity(|compressed|, k) < |Kept(text)| then Unending else Written(Kept(text))
    ensures |compressed| < 0x2000_0000 && |Kept(text)| <= 0x8000_0000 ==> r == Written(Kept(text)) && doublings <= 5
    ensures Largest(|text|) < 0x2000_0000 ==> r == Written(text) && doublings <= 5
  {
    hide ValidStream, StreamBytes, StreamText, Decoded, Capacity, Overruns, Endless, Kept;
    ghost var s;
    compressed, s := Compress(Kept(text), dict);
    CompressedSize(s);
    StreamNotEmpty(s);
    KeptWhole(compressed);
    r, doublings := Receive(Kept(compressed), fast, sizeT);
    if |compressed| < WORD {
      StreamEndless(s);
      if r != Unending { StreamAnswer(s, doublings); }
      TextWithin(s);
      if |compressed| < 0x2000_0000 && |Kept(text)| <= 0x8000_0000 {
        ghost var k := RoomEnough(|compressed|, |Kept(text)|);
        StreamFits(s, k);
      }
    }
    KeptWhole(text);
  }

  lemma StreamFits(s: Stream, k: nat)
    requires ValidStream(s)
    ensures Overruns(StreamBytes(s), k) <==> Capacity(|StreamBytes(s)|, k) < |StreamText(s)|
  {
    hide Decoded, Capacity, ValidStream, StreamBytes, StreamText;
    StreamDecodes(s, Capacity(|StreamBytes(s)|, k));
  }

  lemma StreamAnswer(s: Stream, k: nat)
    requires ValidStream(s) && !Overruns(StreamBytes(s), k)
    ensures Answer(Decoded(StreamBytes(s), Capacity(|StreamBytes(s)|, k))) == Written(StreamText(s))
  {
    hide Decoded, Capacity, ValidStream, StreamBytes, StreamText;
    StreamDecodes(s, Capacity(|StreamBytes(s)|, k));
  }

  lemma StreamNotEmpty(s: Stream)
    requires ValidStream(s)
    ensures |StreamBytes(s)| >= 3
  {
  }
}
