// The order qsufsort sorts by, and the static facts its passes rest on.
//
// A suffix of `s` is named by its start, 0 <= a <= |s|; the empty suffix |s|
// plays the part of a sentinel that is below every other suffix.

module SuffixOrder {

  import opened Bytes

  // Suffix a is strictly below suffix b in dictionary order.
  ghost predicate Less(s: seq<Byte>, a: nat, b: nat)
    requires a <= |s| && b <= |s|
    decreases |s| - a
  {
    b < |s| && (a == |s| || s[a] < s[b] || (s[a] == s[b] && Less(s, a + 1, b + 1)))
  }

  // The order in one formula: at the first place where the two differ, a has
  // ended or has the smaller byte.
  lemma {:induction false} LessMeans(s: seq<Byte>, a: nat, b: nat)
    requires a <= |s| && b <= |s|
    ensures Less(s, a, b) <==> exists k: nat :: Decides(s, a, b, k)
    decreases |s| - a
  {
    hide Decides;
    DecidedHere(s, a, b);
    if a < |s| && b < |s| && s[a] == s[b] {
      var a', b' := a + 1, b + 1;
      LessMeans(s, a', b');
      if k: nat :| Decides(s, a', b', k) { DecidedLater(s, a, b, k); }
      if k: nat :| Decides(s, a, b, k) {
        if k > 0 { DecidedLater(s, a, b, k - 1); }
      }
    } else if k: nat :| Decides(s, a, b, k) {
      DecidedAt(s, a, b, k);
    }
  }

  lemma DecidedHere(s: seq<Byte>, a: nat, b: nat)
    requires a <= |s| && b <= |s|
    ensures Decides(s, a, b, 0) <==> b < |s| && (a == |s| || s[a] < s[b])
  {
  }

  lemma DecidedLater(s: seq<Byte>, a: nat, b: nat, k: nat)
    requires a < |s| && b < |s| && s[a] == s[b]
    ensures Decides(s, a, b, k + 1) <==> Decides(s, a + 1, b + 1, k)
  {
    if a + 1 + k <= |s| && b + 1 + k <= |s| {
      assert s[a..a + k + 1] == [s[a]] + s[a + 1..a + 1 + k] && s[b..b + k + 1] == [s[b]] + s[b + 1..b + 1 + k];
    }
  }

  lemma DecidedAt(s: seq<Byte>, a: nat, b: nat, k: nat)
    requires a <= |s| && b <= |s| && Decides(s, a, b, k)
    ensures k > 0 ==> a < |s| && b < |s| && s[a] == s[b]
  {
    assert k > 0 ==> s[a] == s[a..a + k][0] && s[b] == s[b..b + k][0];
  }

  ghost predicate Decides(s: seq<Byte>, a: nat, b: nat, k: nat)
    requires a <= |s| && b <= |s|
  {
    a + k <= |s| && b + k < |s| && s[a..a + k] == s[b..b + k] && (a + k == |s| || s[a + k] < s[b + k])
  }

  // Suffixes a and b both have h bytes left and agree on them.
  ghost predicate SamePrefix(s: seq<Byte>, a: nat, b: nat, h: nat) {
    a + h <= |s| && b + h <= |s| && s[a..a + h] == s[b..b + h]
  }

  ghost predicate Agree(s: seq<Byte>, a: nat, b: nat, h: nat) {
    a == b || SamePrefix(s, a, b, h)
  }

  lemma {:induction false} LessIrreflexive(s: seq<Byte>, a: nat)
    requires a <= |s|
    ensures !Less(s, a, a)
    decreases |s| - a
  {
    if a < |s| {
      LessIrreflexive(s, a + 1);
    }
  }

  lemma {:induction false} LessTotal(s: seq<Byte>, a: nat, b: nat)
    requires a <= |s| && b <= |s| && a != b
    ensures Less(s, a, b) || Less(s, b, a)
    decreases |s| - a
  {
    if a < |s| && b < |s| && s[a] == s[b] {
      LessTotal(s, a + 1, b + 1);
    }
  }

  lemma {:induction false} LessTransitive(s: seq<Byte>, a: nat, b: nat, c: nat)
    requires a <= |s| && b <= |s| && c <= |s|
    requires Less(s, a, b) && Less(s, b, c)
    ensures Less(s, a, c)
    decreases |s| - a
  {
    if a < |s| && b < |s| && c < |s| && s[a] == s[b] == s[c] {
      LessTransitive(s, a + 1, b + 1, c + 1);
    }
  }

  // The doubling step, order half: the h-th successors decide.
  lemma {:induction false} LessByTails(s: seq<Byte>, a: nat, b: nat, h: nat)
    requires SamePrefix(s, a, b, h) && Less(s, a + h, b + h)
    ensures Less(s, a, b)
    decreases h
  {
    if h > 0 {
      assert s[a] == s[a..a + h][0] && s[b] == s[b..b + h][0];
      assert s[a + 1..a + h] == s[a..a + h][1..] && s[b + 1..b + h] == s[b..b + h][1..];
      LessByTails(s, a + 1, b + 1, h - 1);
    }
  }

  // The doubling step, agreement half.
  lemma AgreeByTails(s: seq<Byte>, a: nat, b: nat, h: nat, h': nat)
    requires a + h <= |s| && b + h <= |s|
    requires Agree(s, a, b, h) && Agree(s, a + h, b + h, h')
    ensures Agree(s, a, b, h + h')
  {
    if a != b {
      assert s[a..a + h + h'] == s[a..a + h] + s[a + h..a + h + h'];
      assert s[b..b + h + h'] == s[b..b + h] + s[b + h..b + h + h'];
    }
  }
}
