// What the compressor writes is determined by its input and by what the
// dictionary memory holds at first.

module LzoUnique {
  import opened Bytes
  import opened LzoFormat
  import opened LzoCompress

  lemma LongestUnique(inp: seq<Byte>, mpos: int, ip: nat, m: nat, n: nat)
    requires Longest(inp, mpos, ip, m) && Longest(inp, mpos, ip, n)
    ensures m <= n
  {
    MatchAt(inp, ip, ip - mpos, m, n);
  }

  lemma MatchAt(inp: seq<Byte>, n: nat, off: nat, len: nat, k: nat)
    requires MatchesAt(inp, n, off, len)
    ensures k < len ==> inp[n + k] == inp[n + k - off]
  {
  }

  lemma LookUnique(inp: seq<Byte>, x: Look, y: Look)
    requires Decided(inp, x) && Decided(inp, y) && x.ip == y.ip && x.ii == y.ii && x.dict == y.dict
    ensures x == y
  {
    hide Taken, Longest, Entry;
    if Taken(inp, x.mpos, x.ip) {
      LongestUnique(inp, x.mpos, x.ip, x.len, y.len);
      LongestUnique(inp, x.mpos, x.ip, y.len, x.len);
    }
  }

  lemma RoundAt(inp: seq<Byte>, d: seq<int>, tr: seq<Look>, m: nat)
    requires Rounds(inp, d, tr) && m < |tr|
    ensures Decided(inp, tr[m]) && (m == 0 ==> Starts(d, tr[m]))
    ensures m > 0 ==> Succeeds(inp, tr[m - 1], tr[m])
  {
    hide Decided, Starts, Succeeds;
  }

  lemma {:induction false} RoundsUnique(inp: seq<Byte>, d: seq<int>, tr: seq<Look>, us: seq<Look>, m: nat)
    requires Rounds(inp, d, tr) && Rounds(inp, d, us) && m <= |tr| && m <= |us|
    ensures tr[..m] == us[..m]
    decreases m
  {
    hide Rounds, Decided, Succeeds, Starts;
    if m > 0 {
      RoundsUnique(inp, d, tr, us, m - 1);
      RoundAt(inp, d, tr, m - 1);
      RoundAt(inp, d, us, m - 1);
      if m > 1 { SameBefore(tr, us, m - 1); }
      LookSame(inp, d, tr, us, m - 1);
      assert tr[..m] == tr[..m - 1] + [tr[m - 1]] && us[..m] == us[..m - 1] + [us[m - 1]];
    }
  }

  lemma SameBefore(tr: seq<Look>, us: seq<Look>, m: nat)
    requires 0 < m <= |tr| && m <= |us| && tr[..m] == us[..m]
    ensures tr[m - 1] == us[m - 1]
  {
    assert tr[m - 1] == tr[..m][m - 1] && us[m - 1] == us[..m][m - 1];
  }

  lemma LookSame(inp: seq<Byte>, d: seq<int>, tr: seq<Look>, us: seq<Look>, m: nat)
    requires m < |tr| && m < |us| && Decided(inp, tr[m]) && Decided(inp, us[m])
    requires if m == 0 then Starts(d, tr[m]) && Starts(d, us[m])
             else tr[m - 1] == us[m - 1] && Succeeds(inp, tr[m - 1], tr[m]) && Succeeds(inp, us[m - 1], us[m])
    ensures tr[m] == us[m]
  {
    hide Decided;
    LookUnique(inp, tr[m], us[m]);
  }

  lemma NotLonger(inp: seq<Byte>, d: seq<int>, tr: seq<Look>, us: seq<Look>)
    requires Rounds(inp, d, tr) && Rounds(inp, d, us) && Over(inp, tr)
    ensures |us| <= |tr|
  {
    hide Rounds, Decided;
    var m := |tr|;
    if m < |us| {
      RoundsUnique(inp, d, tr, us, m);
      SameBefore(tr, us, m);
      RoundAt(inp, d, us, m);
    }
  }

  lemma StreamUnique(inp: seq<Byte>, d: seq<int>, s: Stream, t: Stream)
    requires Compressed(inp, d, s) && Compressed(inp, d, t)
    ensures s == t
  {
    hide Rounds, ItemsOf, Over;
    var tr :| CompressedBy(inp, d, s, tr);
    var us :| CompressedBy(inp, d, t, us);
    if |inp| > M2_MAX_LEN + 5 {
      NotLonger(inp, d, tr, us);
      NotLonger(inp, d, us, tr);
      RoundsUnique(inp, d, tr, us, |tr|);
      assert tr[..|tr|] == tr && us[..|tr|] == us;
    }
  }
}
