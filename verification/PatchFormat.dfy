// The raw patch format shared by bsdiff and bspatch: 8-byte integers with a
// sign bit (offtout, offtin), and a header before three blocks.

module PatchFormat {
  import opened Bytes

  const OFF_LIMIT: int := 0x8000_0000_0000_0000

  // Little-endian digits, n of them.
  function Digits(y: nat, n: nat): (d: seq<Byte>)
    ensures |d| == n
  {
    if n == 0 then [] else [y % 256] + Digits(y / 256, n - 1)
  }

  function Power256(n: nat): (p: nat)
    ensures p > 0
  {
    if n == 0 then 1 else 256 * Power256(n - 1)
  }

  function Number(d: seq<Byte>): nat {
    if d == [] then 0 else d[0] + 256 * Number(d[1..])
  }

  lemma {:induction false} DigitsNumber(y: nat, n: nat)
    requires y < Power256(n)
    ensures Number(Digits(y, n)) == y
  {
    if n > 0 {
      assert y / 256 < Power256(n - 1);
      DigitsNumber(y / 256, n - 1);
      assert Digits(y, n)[1..] == Digits(y / 256, n - 1);
    }
  }

  // The eight bytes of x: its magnitude, and 0x80 in the last byte when negative.
  function OffBytes(x: int): (buf: seq<Byte>)
    requires -OFF_LIMIT < x < OFF_LIMIT
    ensures |buf| == 8
  {
    var d := Digits(if x < 0 then -x else x, 8);
    if x < 0 then d[7 := SetTop(d[7])] else d
  }

  // b | 0x80 and b & 0x7f on a byte.
  function SetTop(b: Byte): Byte { if b < 128 then b + 128 else b }
  function ClearTop(b: Byte): Byte { b % 128 }

  function OffValue(buf: seq<Byte>): int
    requires |buf| == 8
  {
    var y: int := Number(buf[7 := ClearTop(buf[7])]);
    if buf[7] >= 128 then -y else y
  }

  lemma DigitsTop(y: nat)
    requires y < OFF_LIMIT
    ensures Digits(y, 8)[7] < 128 && y < Power256(8)
  {
    var a := y / 256; var b := a / 256; var c := b / 256; var d := c / 256;
    var e := d / 256; var f := e / 256; var g := f / 256;
    assert Digits(y, 8)[7] == Digits(a, 7)[6] == Digits(b, 6)[5] == Digits(c, 5)[4];
    assert Digits(c, 5)[4] == Digits(d, 4)[3] == Digits(e, 3)[2] == Digits(f, 2)[1] == g % 256;
    assert Power256(8) == 256 * Power256(7) == 65536 * Power256(6) == 0x100_0000 * Power256(5)
           == 0x1_0000_0000 * Power256(4);
    assert Power256(4) == 256 * Power256(3) == 65536 * Power256(2) == 0x100_0000 * Power256(1) == 0x1_0000_0000;
  }

  // offtin undoes offtout.
  lemma OffRoundTrip(x: int)
    requires -OFF_LIMIT < x < OFF_LIMIT
    ensures OffValue(OffBytes(x)) == x
  {
    var y := if x < 0 then -x else x;
    DigitsTop(y);
    DigitsNumber(y, 8);
    assert OffBytes(x)[7 := ClearTop(OffBytes(x)[7])] == Digits(y, 8);
  }

  lemma DigitsFour(y: nat, n: nat)
    requires n >= 4
    ensures Digits(y, n) == [y % 256, y / 256 % 256, y / 256 / 256 % 256, y / 256 / 256 / 256 % 256]
            + Digits(y / 256 / 256 / 256 / 256, n - 4)
  {
    assert Digits(y / 256, n - 1) == [y / 256 % 256] + Digits(y / 256 / 256, n - 2);
    assert Digits(y / 256 / 256, n - 2) == [y / 256 / 256 % 256] + Digits(y / 256 / 256 / 256, n - 3);
  }

  lemma NumberFour(d: seq<Byte>)
    requires |d| >= 4
    ensures Number(d) == d[0] + 256 * (d[1] + 256 * (d[2] + 256 * (d[3] + 256 * Number(d[4..]))))
  {
    NumberOne(d, 0);
    NumberOne(d, 1);
    NumberOne(d, 2);
    NumberOne(d, 3);
    assert d[0..] == d;
  }

  lemma NumberOne(d: seq<Byte>, k: nat)
    requires k < |d|
    ensures Number(d[k..]) == d[k] + 256 * Number(d[k + 1..])
  {
    assert d[k..][1..] == d[k + 1..];
  }

  // ---- The bytes themselves ----

  // The value of eight bytes but for the sign bit, and the sign.
  function Magnitude(b: seq<Byte>): nat
    requires |b| == 8
  {
    var i: seq<nat> := b;
    i[0] + 0x100 * i[1] + 0x1_0000 * i[2] + 0x100_0000 * i[3] + 0x1_0000_0000 * i[4] + 0x100_0000_0000 * i[5]
    + 0x1_0000_0000_0000 * i[6] + 0x100_0000_0000_0000 * (i[7] % 128)
  }

  lemma NumberEight(d: seq<Byte>)
    requires |d| == 8 && d[7] < 128
    ensures Number(d) == Magnitude(d)
  {
    NumberFour(d);
    NumberFour(d[4..]);
    assert d[4..][4..] == [];
  }

  // The top bit of the last byte is the sign, the other 63 bits the magnitude.
  lemma OffBytesMean(x: int)
    requires -OFF_LIMIT < x < OFF_LIMIT
    ensures OffBytes(x)[7] >= 128 <==> x < 0
    ensures Magnitude(OffBytes(x)) == if x < 0 then -x else x
  {
    hide Digits;
    var y := if x < 0 then -x else x;
    DigitsTop(y);
    DigitsNumber(y, 8);
    NumberEight(Digits(y, 8));
  }

  lemma OffValueMeans(buf: seq<Byte>)
    requires |buf| == 8
    ensures var m: int := Magnitude(buf); OffValue(buf) == if buf[7] >= 128 then -m else m
  {
    hide Number;
    NumberEight(buf[7 := ClearTop(buf[7])]);
  }

  // ---- Writing and reading them ----

  // The lowest digit of y goes to place k, and is taken off y.
  method PutByte(y: nat, buf: array<Byte>, k: nat) returns (y': nat)
    requires k < buf.Length
    modifies buf
    ensures y' == y / 256 && buf[..] == old(buf[..])[k := y % 256]
  {
    buf[k] := y % 256;
    y' := (y - buf[k]) / 256;
  }

  method OffTOut(x: int, buf: array<Byte>)
    requires -OFF_LIMIT < x < OFF_LIMIT && buf.Length == 8
    modifies buf
    ensures buf[..] == OffBytes(x)
  {
    var y: nat := if x < 0 then -x else x;
    DigitsFour(y, 8);
    ghost var d := Digits(y, 8);
    y := PutByte(y, buf, 0);
    y := PutByte(y, buf, 1);
    y := PutByte(y, buf, 2);
    y := PutByte(y, buf, 3);
    DigitsFour(y, 4);
    assert buf[..4] == d[..4] && d[4..] == Digits(y, 4);
    y := PutByte(y, buf, 4);
    y := PutByte(y, buf, 5);
    y := PutByte(y, buf, 6);
    y := PutByte(y, buf, 7);
    assert buf[..] == d;
    if x < 0 {
      buf[7] := SetTop(buf[7]);
    }
  }

  method OffTIn(buf: seq<Byte>) returns (y: int)
    requires |buf| == 8
    ensures y == OffValue(buf)
  {
    ghost var d := buf[7 := ClearTop(buf[7])];
    NumberFour(d);
    NumberFour(d[4..]);
    y := ClearTop(buf[7]);
    y := y * 256; y := y + buf[6];
    y := y * 256; y := y + buf[5];
    y := y * 256; y := y + buf[4];
    y := y * 256; y := y + buf[3];
    y := y * 256; y := y + buf[2];
    y := y * 256; y := y + buf[1];
    y := y * 256; y := y + buf[0];
    if buf[7] >= 128 {
      y := -y;
    }
  }
}
