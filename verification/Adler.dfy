// lzo_adler32 of distcc/lzo/minilzo.c against section 2.2 of RFC 1950.

module Adler {
  import opened Bytes

  const BASE := 65521
  const NMAX := 5552

  // lzo_uint32: every assignment to one is proved not to wrap around.
  type Word = x: int | 0 <= x < 0x1_0000_0000

  // ---- The definition: both sums are reduced after every byte ----

  datatype Sums = Sums(s1: nat, s2: nat)

  ghost function AddByte(s: Sums, b: Byte): Sums {
    var s1 := (s.s1 + b) % BASE;
    Sums(s1, (s.s2 + s1) % BASE)
  }

  ghost function Sum(s: Sums, buf: seq<Byte>): Sums {
    if buf == [] then s else AddByte(Sum(s, buf[..|buf| - 1]), buf[|buf| - 1])
  }

  function Packed(s: Sums): int { s.s2 * 0x1_0000 + s.s1 }

  function Unpacked(adler: Word): Sums { Sums(adler % 0x1_0000, adler / 0x1_0000) }

  ghost function Checksum(adler: Word, buf: seq<Byte>): int {
    Packed(Sum(Unpacked(adler), buf))
  }

  lemma {:induction false} SumSplit(s: Sums, x: seq<Byte>, y: seq<Byte>)
    ensures Sum(s, x + y) == Sum(Sum(s, x), y)
    decreases |y|
  {
    if y == [] {
      assert x + y == x;
    } else {
      assert (x + y)[..|x + y| - 1] == x + y[..|y| - 1];
      SumSplit(s, x, y[..|y| - 1]);
    }
  }

  lemma SumReduced(s: Sums, buf: seq<Byte>)
    requires buf != []
    ensures Sum(s, buf).s1 < BASE && Sum(s, buf).s2 < BASE
  {
  }

  // Checksumming x and going on with y is checksumming x + y.
  lemma ChecksumContinues(adler: Word, x: seq<Byte>, y: seq<Byte>)
    ensures 0 <= Checksum(adler, x) < 0x1_0000_0000
    ensures Checksum(Checksum(adler, x), y) == Checksum(adler, x + y)
  {
    hide Sum;
    var s := Sum(Unpacked(adler), x);
    if x != [] {
      SumReduced(Unpacked(adler), x);
    } else {
      SumNothing(Unpacked(adler));
    }
    UnpackedPacked(s);
    SumSplit(Unpacked(adler), x, y);
  }

  lemma UnpackedPacked(s: Sums)
    requires s.s1 <= 0xffff && s.s2 <= 0xffff
    ensures 0 <= Packed(s) < 0x1_0000_0000 && Unpacked(Packed(s)) == s
  {
  }

  // ---- The running sums, not reduced ----

  ghost function Raw(s: Sums, buf: seq<Byte>): Sums {
    if buf == [] then s
    else var r := Raw(s, buf[..|buf| - 1]); Sums(r.s1 + buf[|buf| - 1], r.s2 + r.s1 + buf[|buf| - 1])
  }

  lemma ModPlus(q: int, z: nat)
    ensures (q * BASE + z) % BASE == z % BASE
  {
    assert q * BASE + z == (q + z / BASE) * BASE + z % BASE;
  }

  lemma ModAdd(x: nat, y: nat)
    ensures (x % BASE + y) % BASE == (x + y) % BASE
  {
    ModPlus(x / BASE, x % BASE + y);
  }

  // One more byte, on sums r that have been reduced and on sums that have not.
  lemma ReduceOne(r: Sums, b: Byte)
    ensures AddByte(Sums(r.s1 % BASE, r.s2 % BASE), b) == Sums((r.s1 + b) % BASE, (r.s2 + r.s1 + b) % BASE)
    ensures AddByte(r, b) == Sums((r.s1 + b) % BASE, (r.s2 + r.s1 + b) % BASE)
  {
    ModAdd(r.s1, b);
    var s1 := (r.s1 + b) % BASE;
    ModAdd(r.s2, s1);
    ModAdd(r.s1 + b, r.s2);
  }

  // Reducing once at the end of a block is as good as after every byte.
  lemma {:induction false} RawReduces(s: Sums, buf: seq<Byte>)
    requires buf != []
    ensures Sum(s, buf) == Sums(Raw(s, buf).s1 % BASE, Raw(s, buf).s2 % BASE)
    decreases |buf|
  {
    hide AddByte;
    var front, b := buf[..|buf| - 1], buf[|buf| - 1];
    ReduceOne(Raw(s, front), b);
    if front != [] {
      RawReduces(s, front);
    }
  }

  // ---- The sums in closed form ----

  // The first n bytes added up, and added up with the weights m, m - 1, ...
  ghost function Total(buf: seq<Byte>, n: nat): nat
    requires n <= |buf|
  {
    if n == 0 then 0 else Total(buf, n - 1) + buf[n - 1]
  }

  ghost function Weighted(buf: seq<Byte>, n: nat, m: nat): nat
    requires n <= |buf| && n <= m
  {
    if n == 0 then 0 else Weighted(buf, n - 1, m) + (m - (n - 1)) * buf[n - 1]
  }

  lemma {:induction false} OneHeavier(buf: seq<Byte>, n: nat, m: nat)
    requires n <= |buf| && n <= m
    ensures Weighted(buf, n, m + 1) == Weighted(buf, n, m) + Total(buf, n)
  {
    if n > 0 {
      OneHeavier(buf, n - 1, m);
      var b: nat := buf[n - 1];
      assert (m + 1 - (n - 1)) * b == (m - (n - 1)) * b + b;
    }
  }

  lemma {:induction false} TotalFront(buf: seq<Byte>, k: nat, n: nat, m: nat)
    requires n <= k <= |buf| && n <= m
    ensures Total(buf[..k], n) == Total(buf, n) && Weighted(buf[..k], n, m) == Weighted(buf, n, m)
  {
    if n > 0 { TotalFront(buf, k, n - 1, m); }
  }

  lemma {:induction false} RawIs(s: Sums, buf: seq<Byte>)
    ensures var n := |buf|; Raw(s, buf) == Sums(s.s1 + Total(buf, n), s.s2 + n * s.s1 + Weighted(buf, n, n))
    decreases |buf|
  {
    if buf != [] {
      var n := |buf| - 1;
      RawIs(s, buf[..n]);
      TotalFront(buf, n, n, n);
      OneHeavier(buf, n, n);
      assert (n + 1) * s.s1 == n * s.s1 + s.s1;
    }
  }

  // From the halves a and b of the value before: a and all bytes; b, a once for
  // every byte, and the bytes weighted with how many there are from each to the
  // end.  Both are taken modulo the largest prime below 2^16.
  lemma ChecksumIs(adler: Word, buf: seq<Byte>)
    requires buf != []
    ensures var a, b, n := adler % 0x1_0000, adler / 0x1_0000, |buf|;
            && Checksum(adler, buf) % 0x1_0000 == (a + Total(buf, n)) % 65521
            && Checksum(adler, buf) / 0x1_0000 == (b + n * a + Weighted(buf, n, n)) % 65521
  {
    hide Total, Weighted;
    var s := Unpacked(adler);
    RawReduces(s, buf);
    RawIs(s, buf);
    SumReduced(s, buf);
    var r := Sum(s, buf);
    assert Unpacked(Packed(r)) == r;
  }

  // ---- How large they get ----

  // 0 + 1 + ... + k.
  ghost function Triangle(k: nat): nat { if k == 0 then 0 else Triangle(k - 1) + k }

  lemma {:induction false} TriangleIs(k: nat)
    ensures 2 * Triangle(k) == k * (k + 1)
  {
    if k > 0 { TriangleIs(k - 1); }
  }

  lemma {:induction false} TriangleGrows(j: nat, k: nat)
    requires j <= k
    ensures Triangle(j) <= Triangle(k)
  {
    if j < k { TriangleGrows(j, k - 1); }
  }

  // How far k bytes can take sums that start in 16 bits.
  ghost predicate Bounded(r: Sums, k: nat) {
    r.s1 <= 0xffff + 255 * k && r.s2 <= 0xffff * (k + 1) + 255 * Triangle(k)
  }

  lemma {:induction false} RawBounded(s: Sums, buf: seq<Byte>)
    requires s.s1 <= 0xffff && s.s2 <= 0xffff
    ensures Bounded(Raw(s, buf), |buf|)
    decreases |buf|
  {
    if buf != [] {
      var k := |buf|;
      RawBounded(s, buf[..k - 1]);
    }
  }

  lemma RawFits(s: Sums, buf: seq<Byte>)
    requires s.s1 <= 0xffff && s.s2 <= 0xffff && |buf| <= NMAX
    ensures Raw(s, buf).s1 < 0x1_0000_0000 && Raw(s, buf).s2 < 0x1_0000_0000
  {
    RawBounded(s, buf);
    var k := |buf|;
    TriangleIs(k);
    TriangleIs(NMAX);
    TriangleGrows(k, NMAX);
  }

  function Full(k: nat): (buf: seq<Byte>)
    ensures |buf| == k
  {
    if k == 0 then [] else Full(k - 1) + [255]
  }

  lemma {:induction false} RawFull(k: nat)
    ensures Raw(Sums(0xffff, 0xffff), Full(k)) == Sums(0xffff + 255 * k, 0xffff * (k + 1) + 255 * Triangle(k))
  {
    if k > 0 {
      RawFull(k - 1);
      assert Full(k)[..k - 1] == Full(k - 1);
    }
  }

  // NMAX is the largest block for which that holds.
  lemma NmaxIsLargest()
    ensures Raw(Sums(0xffff, 0xffff), Full(NMAX + 1)).s2 >= 0x1_0000_0000
  {
    RawFull(NMAX + 1);
    TriangleIs(NMAX + 1);
  }

  // s1 and s2 are the sums of buf[from..p] on top of s.
  ghost predicate Running(buf: seq<Byte>, from: nat, p: nat, s: Sums, s1: nat, s2: nat) {
    s.s1 <= 0xffff && s.s2 <= 0xffff && from <= p <= |buf| && Raw(s, buf[from..p]) == Sums(s1, s2)
  }

  // LZO_DO1 and its doublings.
  method Do1(buf: seq<Byte>, p: nat, s1: Word, s2: Word, ghost s: Sums, ghost from: nat) returns (t1: Word, t2: Word)
    requires Running(buf, from, p, s, s1, s2) && p + 1 <= |buf| && p + 1 - from <= NMAX
    ensures Running(buf, from, p + 1, s, t1, t2)
  {
    RawFits(s, buf[from..p + 1]);
    assert buf[from..p + 1][..p - from] == buf[from..p];
    t1 := s1 + buf[p];
    t2 := s2 + t1;
  }

  method Do2(buf: seq<Byte>, p: nat, s1: Word, s2: Word, ghost s: Sums, ghost from: nat) returns (t1: Word, t2: Word)
    requires Running(buf, from, p, s, s1, s2) && p + 2 <= |buf| && p + 2 - from <= NMAX
    ensures Running(buf, from, p + 2, s, t1, t2)
  {
    hide Running;
    t1, t2 := Do1(buf, p, s1, s2, s, from);
    t1, t2 := Do1(buf, p + 1, t1, t2, s, from);
  }

  method Do4(buf: seq<Byte>, p: nat, s1: Word, s2: Word, ghost s: Sums, ghost from: nat) returns (t1: Word, t2: Word)
    requires Running(buf, from, p, s, s1, s2) && p + 4 <= |buf| && p + 4 - from <= NMAX
    ensures Running(buf, from, p + 4, s, t1, t2)
  {
    hide Running;
    t1, t2 := Do2(buf, p, s1, s2, s, from);
    t1, t2 := Do2(buf, p + 2, t1, t2, s, from);
  }

  method Do8(buf: seq<Byte>, p: nat, s1: Word, s2: Word, ghost s: Sums, ghost from: nat) returns (t1: Word, t2: Word)
    requires Running(buf, from, p, s, s1, s2) && p + 8 <= |buf| && p + 8 - from <= NMAX
    ensures Running(buf, from, p + 8, s, t1, t2)
  {
    hide Running;
    t1, t2 := Do4(buf, p, s1, s2, s, from);
    t1, t2 := Do4(buf, p + 4, t1, t2, s, from);
  }

  method Do16(buf: seq<Byte>, p: nat, s1: Word, s2: Word, ghost s: Sums, ghost from: nat) returns (t1: Word, t2: Word)
    requires Running(buf, from, p, s, s1, s2) && p + 16 <= |buf| && p + 16 - from <= NMAX
    ensures Running(buf, from, p + 16, s, t1, t2)
  {
    hide Running;
    t1, t2 := Do8(buf, p, s1, s2, s, from);
    t1, t2 := Do8(buf, p + 8, t1, t2, s, from);
  }

  // One block of k <= NMAX bytes: sixteen at a time, then one at a time, then reduced.
  method Block(buf: seq<Byte>, from: nat, k0: nat, s1: Word, s2: Word) returns (t1: Word, t2: Word)
    requires 0 < k0 <= NMAX && from + k0 <= |buf| && s1 <= 0xffff && s2 <= 0xffff
    ensures Sums(t1, t2) == Sum(Sums(s1, s2), buf[from..from + k0])
  {
    hide Running;
    ghost var s := Sums(s1, s2);
    t1, t2 := s1, s2;
    var k, p := k0, from;
    RunningStart(buf, from, s);
    while k >= 16
      invariant 0 <= k && p == from + k0 - k && Running(buf, from, p, s, t1, t2)
    {
      t1, t2 := Do16(buf, p, t1, t2, s, from);
      p, k := p + 16, k - 16;
    }
    while k > 0
      invariant 0 <= k && p == from + k0 - k && Running(buf, from, p, s, t1, t2)
    {
      t1, t2 := Do1(buf, p, t1, t2, s, from);
      p, k := p + 1, k - 1;
    }
    RunningEnd(buf, from, p, s, t1, t2);
    t1 := t1 % BASE;
    t2 := t2 % BASE;
  }

  lemma RunningStart(buf: seq<Byte>, from: nat, s: Sums)
    requires s.s1 <= 0xffff && s.s2 <= 0xffff && from <= |buf|
    ensures Running(buf, from, from, s, s.s1, s.s2)
  {
  }

  lemma RunningEnd(buf: seq<Byte>, from: nat, p: nat, s: Sums, s1: nat, s2: nat)
    requires Running(buf, from, p, s, s1, s2) && from < p
    ensures Sums(s1 % BASE, s2 % BASE) == Sum(s, buf[from..p])
  {
    RawReduces(s, buf[from..p]);
  }

  method Adler32(adler: Word, buf: seq<Byte>) returns (r: Word)
    ensures r == Checksum(adler, buf)
    ensures buf != [] ==> r % 0x1_0000 == (adler % 0x1_0000 + Total(buf, |buf|)) % 65521
    ensures buf != [] ==>
              r / 0x1_0000 == (adler / 0x1_0000 + |buf| * (adler % 0x1_0000) + Weighted(buf, |buf|, |buf|)) % 65521
  {
    hide Sum, Total, Weighted;
    var s1: Word, s2: Word := adler % 0x1_0000, adler / 0x1_0000;
    ghost var s := Unpacked(adler);
    var p, len := 0, |buf|;
    SumNothing(s);
    assert buf[..0] == [];
    while len > 0
      invariant 0 <= len <= |buf| && p == |buf| - len && s1 <= 0xffff && s2 <= 0xffff
      invariant Sums(s1, s2) == Sum(s, buf[..p])
    {
      var k := if len < NMAX then len else NMAX;
      len := len - k;
      s1, s2 := Block(buf, p, k, s1, s2);
      SumReduced(Sum(s, buf[..p]), buf[p..p + k]);
      SumSplit(s, buf[..p], buf[p..p + k]);
      assert buf[..p + k] == buf[..p] + buf[p..p + k];
      p := p + k;
    }
    assert buf[..p] == buf;
    r := s2 * 0x1_0000 + s1;
    if buf != [] { ChecksumIs(adler, buf); }
  }

  lemma SumNothing(s: Sums)
    ensures Sum(s, []) == s
  {
  }
}
