// The LZO1X byte stream, as items: runs of literals and matches.

module LzoFormat {
  import opened Bytes

  const M2_MAX_LEN := 8
  const M2_MAX_OFFSET := 0x0800
  const M3_MAX_LEN := 33
  const M3_MAX_OFFSET := 0x4000
  const M4_MAX_LEN := 9
  const M4_MAX_OFFSET := 0xbfff
  const M3_MARKER := 32
  const M4_MARKER := 16

  // A run of at least four literals, or a match whose last offset bytes carry
  // the count of up to three literals that follow it.
  datatype Item = Run(lits: seq<Byte>) | Match(off: nat, len: nat, tail: seq<Byte>)

  // ---- Meaning ----

  // out followed by n bytes, each a copy of the byte off places before it.
  function Copied(out: seq<Byte>, off: nat, n: nat): (r: seq<Byte>)
    requires 1 <= off <= |out|
    ensures |r| == |out| + n && r[..|out|] == out
    decreases n
  {
    if n == 0 then out else var r := Copied(out, off, n - 1); r + [r[|r| - off]]
  }

  // What the items expand to; a match reaching back too far copies nothing.
  ghost function Expand(items: seq<Item>): seq<Byte> {
    if items == [] then []
    else
      var out := Expand(items[..|items| - 1]);
      match items[|items| - 1]
      case Run(lits) => out + lits
      case Match(off, len, tail) => (if 1 <= off <= |out| then Copied(out, off, len) else out) + tail
  }

  // ---- Layout ----

  // n >= 1 as zero bytes of 255 each and a last byte of 1..255.
  ghost function LenBytes(n: nat): (b: seq<Byte>)
    requires n >= 1
    ensures |b| >= 1
  {
    if n > 255 then [0] + LenBytes(n - 255) else [n]
  }

  ghost function RunHeader(t: nat): seq<Byte>
    requires t >= 4
  {
    if t <= 18 then [t - 3] else [0] + LenBytes(t - 18)
  }

  // The bytes of a match, with t in the two low bits of the last byte but one.
  ghost function MatchBytes(off: nat, len: nat, t: nat): (b: seq<Byte>)
    requires 1 <= off <= M4_MAX_OFFSET && len >= 3 && t <= 3
    ensures |b| >= 2
  {
    if len <= M2_MAX_LEN && off <= M2_MAX_OFFSET then
      [(len - 1) * 32 + (off - 1) % 8 * 4 + t, (off - 1) / 8]
    else if off <= M3_MAX_OFFSET then
      (if len <= M3_MAX_LEN then [M3_MARKER + (len - 2)] else [M3_MARKER] + LenBytes(len - M3_MAX_LEN))
      + [(off - 1) % 64 * 4 + t, (off - 1) / 64]
    else
      var o := off - 0x4000;
      var high := if o >= 0x4000 then 8 else 0;
      (if len <= M4_MAX_LEN then [M4_MARKER + high + (len - 2)] else [M4_MARKER + high] + LenBytes(len - M4_MAX_LEN))
      + [o % 64 * 4 + t, o % 0x4000 / 64]
  }

  ghost predicate Shaped(item: Item) {
    match item
    case Run(lits) => |lits| >= 4
    case Match(off, len, tail) => 1 <= off <= M4_MAX_OFFSET && len >= 3 && |tail| <= 3
  }

  ghost function ItemBytes(item: Item): seq<Byte> {
    if !Shaped(item) then []
    else
      match item
      case Run(lits) => RunHeader(|lits|) + lits
      case Match(off, len, tail) => MatchBytes(off, len, |tail|) + tail
  }

  // A run stands at the start or after a match without tail; matches stay in the output.
  ghost predicate WellFormed(items: seq<Item>) {
    forall k :: 0 <= k < |items| ==> Fitting(items, k)
  }

  ghost predicate Fitting(items: seq<Item>, k: int)
    requires 0 <= k < |items|
  {
    Shaped(items[k])
    && (items[k].Match? ==> items[k].off <= |Expand(items[..k])|)
    && (items[k].Run? && k > 0 ==> items[k - 1].Match? && items[k - 1].tail == [])
  }

  ghost function ItemsBytes(items: seq<Item>): seq<Byte> {
    if items == [] then [] else ItemsBytes(items[..|items| - 1]) + ItemBytes(items[|items| - 1])
  }

  const END: seq<Byte> := [M4_MARKER + 1, 0, 0]

  // A whole compressed block: either up to 238 literals, or items.
  datatype Stream = Short(lits: seq<Byte>) | Long(items: seq<Item>)

  ghost predicate ValidStream(s: Stream) {
    match s
    case Short(lits) => 1 <= |lits| <= 238
    case Long(items) => WellFormed(items)
  }

  ghost function StreamBytes(s: Stream): seq<Byte>
    requires ValidStream(s)
  {
    match s
    case Short(lits) => [17 + |lits|] + lits + END
    case Long(items) => ItemsBytes(items) + END
  }

  ghost function StreamText(s: Stream): seq<Byte> {
    match s
    case Short(lits) => lits
    case Long(items) => Expand(items)
  }
}
