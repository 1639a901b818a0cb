// matchlen and search of Sparkle/bsdiff.c: looking up t[b..] among the sorted suffixes of s.

module PrefixSearch {
  import opened Bytes
  import opened SuffixOrder
  import opened SuffixArrays

  // Length of the longest common prefix of s[a..] and t[b..].
  ghost function Common(s: seq<Byte>, a: nat, t: seq<Byte>, b: nat): (n: nat)
    requires a <= |s| && b <= |t|
    ensures a + n <= |s| && b + n <= |t|
    decreases |s| - a
  {
    if a < |s| && b < |t| && s[a] == t[b] then 1 + Common(s, a + 1, t, b + 1) else 0
  }

  lemma {:induction false} CommonIsLongest(s: seq<Byte>, a: nat, t: seq<Byte>, b: nat, n: nat)
    requires a + n <= |s| && b + n <= |t| && s[a..a + n] == t[b..b + n]
    requires a + n == |s| || b + n == |t| || s[a + n] != t[b + n]
    ensures Common(s, a, t, b) == n
    decreases n
  {
    if n > 0 {
      assert s[a] == s[a..a + n][0] && t[b] == t[b..b + n][0];
      assert s[a + 1..a + n] == s[a..a + n][1..] && t[b + 1..b + n] == t[b..b + n][1..];
      CommonIsLongest(s, a + 1, t, b + 1, n - 1);
    }
  }

  lemma {:induction false} CommonAgrees(s: seq<Byte>, a: nat, t: seq<Byte>, b: nat)
    requires a <= |s| && b <= |t|
    ensures var n := Common(s, a, t, b); s[a..a + n] == t[b..b + n]
    ensures var n := Common(s, a, t, b); a + n == |s| || b + n == |t| || s[a + n] != t[b + n]
    decreases |s| - a
  {
    if a < |s| && b < |t| && s[a] == t[b] {
      CommonAgrees(s, a + 1, t, b + 1);
      var n := Common(s, a, t, b);
      assert s[a..a + n] == [s[a]] + s[a + 1..a + n] && t[b..b + n] == [t[b]] + t[b + 1..b + n];
    }
  }

  method MatchLen(s: seq<Byte>, a: nat, t: seq<Byte>, b: nat) returns (i: nat)
    requires a <= |s| && b <= |t|
    ensures i == Common(s, a, t, b)
  {
    i := 0;
    while a + i < |s| && b + i < |t|
      invariant a + i <= |s| && b + i <= |t| && i + Common(s, a + i, t, b + i) == Common(s, a, t, b)
    {
      if s[a + i] != t[b + i] {
        break;
      }
      i := i + 1;
    }
  }

  // memcmp(s + a, t + b, n): the sign of the first difference in n bytes.
  function Memcmp(s: seq<Byte>, a: nat, t: seq<Byte>, b: nat, n: nat): int
    requires a + n <= |s| && b + n <= |t|
    decreases n
  {
    if n == 0 then 0
    else if s[a] != t[b] then s[a] as int - t[b] as int
    else Memcmp(s, a + 1, t, b + 1, n - 1)
  }

  function Min(x: int, y: int): int { if x < y then x else y }

  // Suffix a of s sorts before t[b..]: at the first difference, or by being a proper prefix.
  ghost predicate Before(s: seq<Byte>, a: nat, t: seq<Byte>, b: nat)
    requires a <= |s| && b <= |t|
  {
    var n := Common(s, a, t, b);
    b + n < |t| && (a + n == |s| || s[a + n] < t[b + n])
  }

  // Suffix a of s is a proper prefix of t[b..]: memcmp over the shorter length calls them equal.
  ghost predicate Swallowed(s: seq<Byte>, a: nat, t: seq<Byte>, b: nat)
    requires a <= |s| && b <= |t|
  {
    a + Common(s, a, t, b) == |s| && b + Common(s, a, t, b) < |t|
  }

  lemma {:induction false} MemcmpTruncated(s: seq<Byte>, a: nat, t: seq<Byte>, b: nat)
    requires a <= |s| && b <= |t|
    ensures Memcmp(s, a, t, b, Min(|s| - a, |t| - b)) < 0 <==> Before(s, a, t, b) && !Swallowed(s, a, t, b)
    decreases |s| - a
  {
    if a < |s| && b < |t| && s[a] == t[b] {
      MemcmpTruncated(s, a + 1, t, b + 1);
    }
  }

  // Below a suffix that sorts before t, matches only get shorter ...
  lemma {:induction false} ShorterBelow(s: seq<Byte>, i: nat, j: nat, t: seq<Byte>, b: nat)
    requires i <= |s| && j <= |s| && b <= |t| && Less(s, i, j) && Before(s, j, t, b)
    ensures Common(s, i, t, b) <= Common(s, j, t, b)
    decreases |s| - j
  {
    if i < |s| && j < |s| && b < |t| && s[i] == t[b] {
      ShorterBelow(s, i + 1, j + 1, t, b + 1);
    }
  }

  // ... and above one that does not, likewise.
  lemma {:induction false} ShorterAbove(s: seq<Byte>, i: nat, j: nat, t: seq<Byte>, b: nat)
    requires i <= |s| && j <= |s| && b <= |t| && Less(s, i, j) && !Before(s, i, t, b)
    ensures Common(s, j, t, b) <= Common(s, i, t, b)
    decreases |s| - j
  {
    if i < |s| && b < |t| && s[j] == t[b] {
      ShorterAbove(s, i + 1, j + 1, t, b + 1);
    }
  }

  // No suffix among I[st..en] has a longer match than len.
  ghost predicate LongestAmong(s: seq<Byte>, I: seq<int>, t: seq<Byte>, b: nat, st: int, en: int, len: int)
    requires SuffixArray(s, I) && 0 <= st <= en < |I| && b <= |t|
  {
    forall x :: st <= x <= en ==> Common(s, I[x], t, b) <= len
  }

  // The first n bytes of t[b..] occur in s, at a position among I[lo..hi].
  ghost predicate OccursAmong(s: seq<Byte>, I: seq<int>, t: seq<Byte>, b: nat, n: nat, lo: int, hi: int)
    requires SuffixArray(s, I) && 0 <= lo <= hi < |I|
  {
    b + n <= |t| && exists y :: lo <= y <= hi && I[y] + n <= |s| && s[I[y]..I[y] + n] == t[b..b + n]
  }

  lemma OccursIsCommon(s: seq<Byte>, a: nat, t: seq<Byte>, b: nat, n: nat)
    requires a + n <= |s| && b + n <= |t|
    ensures s[a..a + n] == t[b..b + n] <==> Common(s, a, t, b) >= n
    decreases n
  {
    if n > 0 {
      assert s[a..a + n] == [s[a]] + s[a + 1..a + n] && t[b..b + n] == [t[b]] + t[b + 1..b + n];
      OccursIsCommon(s, a + 1, t, b + 1, n - 1);
    }
  }

  // The bisection of st..en probes a suffix that is a proper prefix of t[b..],
  // while the prefix of t[b..] one byte longer than that occurs in the range too.
  ghost predicate Misled(s: seq<Byte>, I: seq<int>, t: seq<Byte>, b: nat, st: int, en: int)
    requires SuffixArray(s, I) && 0 <= st <= en < |I| && b <= |t|
    decreases en - st
  {
    en - st >= 2 &&
    var x := st + (en - st) / 2;
    if Memcmp(s, I[x], t, b, Min(|s| - I[x], |t| - b)) < 0 then Misled(s, I, t, b, x, en)
    else (Swallowed(s, I[x], t, b) && OccursAmong(s, I, t, b, |s| - I[x] + 1, x, en))
         || Misled(s, I, t, b, st, x)
  }

  ghost predicate Matches(s: seq<Byte>, I: seq<int>, t: seq<Byte>, b: nat, st: int, en: int)
    requires SuffixArray(s, I) && 0 <= st <= en < |I| && b <= |t|
  {
    exists x :: st <= x <= en && Common(s, I[x], t, b) > 0
  }

  // Going right of a probe that sorts before t loses nothing.
  lemma GoRight(s: seq<Byte>, I: seq<int>, t: seq<Byte>, b: nat, st: int, x: int, en: int, len: int)
    requires SuffixArray(s, I) && 0 <= st <= x <= en < |I| && b <= |t| && Before(s, I[x], t, b)
    ensures LongestAmong(s, I, t, b, x, en, len) ==> LongestAmong(s, I, t, b, st, en, len)
    ensures Matches(s, I, t, b, st, en) ==> Matches(s, I, t, b, x, en)
  {
    forall y | st <= y < x
      ensures Common(s, I[y], t, b) <= Common(s, I[x], t, b)
    {
      ShorterBelow(s, I[y], I[x], t, b);
    }
  }

  // Going left of a probe that does not sort before t loses nothing.
  lemma GoLeft(s: seq<Byte>, I: seq<int>, t: seq<Byte>, b: nat, st: int, x: int, en: int, len: int)
    requires SuffixArray(s, I) && 0 <= st <= x <= en < |I| && b <= |t| && !Before(s, I[x], t, b)
    ensures LongestAmong(s, I, t, b, st, x, len) ==> LongestAmong(s, I, t, b, st, en, len)
    ensures Matches(s, I, t, b, st, en) ==> Matches(s, I, t, b, st, x)
  {
    forall y | x < y <= en
      ensures Common(s, I[y], t, b) <= Common(s, I[x], t, b)
    {
      ShorterAbove(s, I[x], I[y], t, b);
    }
  }

  // Going left of a swallowed probe loses exactly the matches longer than that suffix.
  lemma GoLeftMisled(s: seq<Byte>, I: seq<int>, t: seq<Byte>, b: nat, st: int, x: int, en: int, k: int, len: int)
    requires SuffixArray(s, I) && 0 <= st < x <= en < |I| && b <= |t| && Swallowed(s, I[x], t, b)
    requires st <= k <= x && len == Common(s, I[k], t, b)
    ensures LongestAmong(s, I, t, b, st, en, len) <==>
            LongestAmong(s, I, t, b, st, x, len) && !OccursAmong(s, I, t, b, |s| - I[x] + 1, x, en)
    ensures Matches(s, I, t, b, st, x)
  {
    assert Less(s, I[0], I[x]);
    assert Common(s, I[x], t, b) == |s| - I[x] > 0;
    if k < x {
      ShorterBelow(s, I[k], I[x], t, b);
    }
    OccursIffLonger(s, I, t, b, x, en);
  }

  lemma OccursIffLonger(s: seq<Byte>, I: seq<int>, t: seq<Byte>, b: nat, x: int, en: int)
    requires SuffixArray(s, I) && 0 <= x <= en < |I| && b <= |t| && Swallowed(s, I[x], t, b)
    ensures OccursAmong(s, I, t, b, |s| - I[x] + 1, x, en)
            <==> exists y :: x < y <= en && Common(s, I[y], t, b) > |s| - I[x]
  {
    var n := |s| - I[x] + 1;
    forall y | x <= y <= en
      ensures I[y] + n <= |s| && s[I[y]..I[y] + n] == t[b..b + n] <==> Common(s, I[y], t, b) >= n
    {
      if I[y] + n <= |s| { OccursIsCommon(s, I[y], t, b, n); }
    }
  }

  // Where the bisection ends: of the last two neighbours, the upper one unless the
  // lower one matches more.
  ghost function Bisected(s: seq<Byte>, I: seq<int>, t: seq<Byte>, b: nat, st: int, en: int): (k: int)
    requires SuffixArray(s, I) && 0 <= st <= en < |I| && b <= |t|
    ensures st <= k <= en
    decreases en - st
  {
    if en - st < 2 then if Common(s, I[st], t, b) > Common(s, I[en], t, b) then st else en
    else
      var x := st + (en - st) / 2;
      if Memcmp(s, I[x], t, b, Min(|s| - I[x], |t| - b)) < 0 then Bisected(s, I, t, b, x, en)
      else Bisected(s, I, t, b, st, x)
  }

  // The answer is one of I[st..en] with its exact match length.  It is a longest
  // match precisely when the bisection is not misled, and non-zero whenever any
  // of those suffixes matches at all.
  method Search(I: array<int>, s: seq<Byte>, t: seq<Byte>, b: nat, st: int, en: int)
    returns (len: nat, pos: nat, ghost k: int)
    requires SuffixArray(s, I[..]) && 0 <= st <= en < I.Length && b <= |t|
    ensures st <= k <= en && pos == I[k] <= |s| && len == Common(s, pos, t, b) && k == Bisected(s, I[..], t, b, st, en)
    ensures LongestAmong(s, I[..], t, b, st, en, len) <==> !Misled(s, I[..], t, b, st, en)
    ensures len > 0 <==> Matches(s, I[..], t, b, st, en)
    decreases en - st
  {
    hide SuffixArray, Common, LongestAmong, Matches, Misled, Bisected;
    SuffixesInRange(s, I[..]);
    BisectedIs(s, I[..], t, b, st, en);
    if en - st < 2 {
      var x := MatchLen(s, I[st], t, b);
      var y := MatchLen(s, I[en], t, b);
      EndsOnly(s, I[..], t, b, st, en, x, y);
      if x > y {
        return x, I[st], st;
      } else {
        return y, I[en], en;
      }
    }
    var x := st + (en - st) / 2;
    if Memcmp(s, I[x], t, b, Min(|s| - I[x], |t| - b)) < 0 {
      len, pos, k := Search(I, s, t, b, x, en);
      SearchedRight(s, I[..], t, b, st, x, en, len);
    } else {
      len, pos, k := Search(I, s, t, b, st, x);
      SearchedLeft(s, I[..], t, b, st, x, en, k, len);
    }
  }

  lemma BisectedIs(s: seq<Byte>, I: seq<int>, t: seq<Byte>, b: nat, st: int, en: int)
    requires SuffixArray(s, I) && 0 <= st <= en < |I| && b <= |t|
    ensures Bisected(s, I, t, b, st, en)
         == if en - st < 2 then if Common(s, I[st], t, b) > Common(s, I[en], t, b) then st else en
            else
              var x := st + (en - st) / 2;
              if Memcmp(s, I[x], t, b, Min(|s| - I[x], |t| - b)) < 0 then Bisected(s, I, t, b, x, en)
              else Bisected(s, I, t, b, st, x)
  {
    hide SuffixArray, Common;
    SuffixesInRange(s, I);
  }

  lemma SearchedRight(s: seq<Byte>, I: seq<int>, t: seq<Byte>, b: nat, st: int, x: int, en: int, len: int)
    requires SuffixArray(s, I) && 0 <= st <= en < |I| && b <= |t| && en - st >= 2 && x == st + (en - st) / 2
    requires Memcmp(s, I[x], t, b, Min(|s| - I[x], |t| - b)) < 0
    requires LongestAmong(s, I, t, b, x, en, len) <==> !Misled(s, I, t, b, x, en)
    requires len > 0 <==> Matches(s, I, t, b, x, en)
    ensures LongestAmong(s, I, t, b, st, en, len) <==> !Misled(s, I, t, b, st, en)
    ensures len > 0 <==> Matches(s, I, t, b, st, en)
  {
    hide SuffixArray, Common, LongestAmong, Matches, Before, Swallowed;
    SuffixesInRange(s, I);
    MemcmpTruncated(s, I[x], t, b);
    GoRight(s, I, t, b, st, x, en, len);
    Narrower(s, I, t, b, st, en, x, en, len);
  }

  lemma MisledLeft(s: seq<Byte>, I: seq<int>, t: seq<Byte>, b: nat, st: int, x: int, en: int)
    requires SuffixArray(s, I) && 0 <= st <= en < |I| && b <= |t| && en - st >= 2 && x == st + (en - st) / 2
    requires Memcmp(s, I[x], t, b, Min(|s| - I[x], |t| - b)) >= 0
    ensures Misled(s, I, t, b, st, en)
       <==> (Swallowed(s, I[x], t, b) && OccursAmong(s, I, t, b, |s| - I[x] + 1, x, en)) || Misled(s, I, t, b, st, x)
  {
    hide Swallowed, OccursAmong;
  }

  lemma SearchedLeft(s: seq<Byte>, I: seq<int>, t: seq<Byte>, b: nat, st: int, x: int, en: int, k: int, len: int)
    requires SuffixArray(s, I) && 0 <= st <= en < |I| && b <= |t| && en - st >= 2 && x == st + (en - st) / 2
    requires Memcmp(s, I[x], t, b, Min(|s| - I[x], |t| - b)) >= 0 && st <= k <= x && len == Common(s, I[k], t, b)
    requires LongestAmong(s, I, t, b, st, x, len) <==> !Misled(s, I, t, b, st, x)
    requires len > 0 <==> Matches(s, I, t, b, st, x)
    ensures LongestAmong(s, I, t, b, st, en, len) <==> !Misled(s, I, t, b, st, en)
    ensures len > 0 <==> Matches(s, I, t, b, st, en)
  {
    hide SuffixArray, Common, LongestAmong, Matches, Misled, Before, Swallowed, OccursAmong;
    SuffixesInRange(s, I);
    MisledLeft(s, I, t, b, st, x, en);
    MemcmpTruncated(s, I[x], t, b);
    Narrower(s, I, t, b, st, en, st, x, len);
    if Before(s, I[x], t, b) {
      GoLeftMisled(s, I, t, b, st, x, en, k, len);
    } else {
      GoLeft(s, I, t, b, st, x, en, len);
      BeforeOrSwallowed(s, I[x], t, b);
    }
  }

  lemma SuffixesInRange(s: seq<Byte>, I: seq<int>)
    requires SuffixArray(s, I)
    ensures |I| == |s| + 1 && forall x :: 0 <= x < |I| ==> 0 <= I[x] <= |s|
  {
  }

  lemma BeforeOrSwallowed(s: seq<Byte>, a: nat, t: seq<Byte>, b: nat)
    requires a <= |s| && b <= |t|
    ensures Swallowed(s, a, t, b) ==> Before(s, a, t, b)
  {
  }

  lemma Narrower(s: seq<Byte>, I: seq<int>, t: seq<Byte>, b: nat, st: int, en: int, st': int, en': int, len: int)
    requires SuffixArray(s, I) && 0 <= st <= st' <= en' <= en < |I| && b <= |t|
    ensures LongestAmong(s, I, t, b, st, en, len) ==> LongestAmong(s, I, t, b, st', en', len)
    ensures Matches(s, I, t, b, st', en') ==> Matches(s, I, t, b, st, en)
  {
  }

  lemma EndsOnly(s: seq<Byte>, I: seq<int>, t: seq<Byte>, b: nat, st: int, en: int, x: nat, y: nat)
    requires SuffixArray(s, I) && 0 <= st <= en < |I| && en - st < 2 && b <= |t|
    requires x == Common(s, I[st], t, b) && y == Common(s, I[en], t, b)
    ensures var len := if x > y then x else y;
            LongestAmong(s, I, t, b, st, en, len) && (len > 0 <==> Matches(s, I, t, b, st, en))
              && !Misled(s, I, t, b, st, en)
  {
  }

  // If no non-empty suffix of s is a proper prefix of t[b..], search finds the longest match.
  lemma {:induction false} NeverMisled(s: seq<Byte>, I: seq<int>, t: seq<Byte>, b: nat, st: int, en: int)
    requires SuffixArray(s, I) && 0 <= st <= en < |I| && b <= |t|
    requires forall a :: 0 <= a < |s| ==> !Swallowed(s, a, t, b)
    ensures !Misled(s, I, t, b, st, en)
    decreases en - st
  {
    if en - st >= 2 {
      var x := st + (en - st) / 2;
      assert Less(s, I[0], I[x]);
      NeverMisled(s, I, t, b, x, en);
      NeverMisled(s, I, t, b, st, x);
    }
  }

  ghost predicate PartAt(s: seq<Byte>, a: nat, p: seq<Byte>) {
    a + |p| <= |s| && s[a..a + |p|] == p
  }

  ghost predicate Contains(s: seq<Byte>, p: seq<Byte>) {
    exists a :: PartAt(s, a, p)
  }

  // As Misled, but the longer prefix may occur anywhere in s.
  ghost predicate Derailed(s: seq<Byte>, I: seq<int>, t: seq<Byte>, b: nat, st: int, en: int)
    requires SuffixArray(s, I) && 0 <= st <= en < |I| && b <= |t|
    decreases en - st
  {
    en - st >= 2 &&
    var x := st + (en - st) / 2;
    if Memcmp(s, I[x], t, b, Min(|s| - I[x], |t| - b)) < 0 then Derailed(s, I, t, b, x, en)
    else (Swallowed(s, I[x], t, b) && Contains(s, t[b..b + (|s| - I[x] + 1)]))
         || Derailed(s, I, t, b, st, x)
  }

  // Nothing above the range matches further than its last suffix does.
  ghost predicate Capped(s: seq<Byte>, I: seq<int>, t: seq<Byte>, b: nat, en: int)
    requires SuffixArray(s, I) && 0 <= en < |I| && b <= |t|
  {
    forall y :: en < y < |I| ==> Common(s, I[y], t, b) <= Common(s, I[en], t, b)
  }

  // A search of the whole array is misled exactly if, at one of its probes, a
  // suffix of s is a proper prefix of t[b..] and s contains the prefix of t[b..]
  // one byte longer.
  lemma {:induction false} MisledIffDerailed(s: seq<Byte>, I: seq<int>, t: seq<Byte>, b: nat, st: int, en: int)
    requires SuffixArray(s, I) && 0 <= st <= en < |I| && b <= |t| && Capped(s, I, t, b, en)
    ensures Misled(s, I, t, b, st, en) <==> Derailed(s, I, t, b, st, en)
    decreases en - st
  {
    hide Memcmp, Before, Less, OccursAmong, Contains;
    if en - st >= 2 {
      var x := st + (en - st) / 2;
      if Memcmp(s, I[x], t, b, Min(|s| - I[x], |t| - b)) < 0 {
        MisledIffDerailed(s, I, t, b, x, en);
      } else {
        MemcmpTruncated(s, I[x], t, b);
        if Swallowed(s, I[x], t, b) { OccursAnywhere(s, I, t, b, x, en); }
        if !(Swallowed(s, I[x], t, b) && OccursAmong(s, I, t, b, |s| - I[x] + 1, x, en)) {
          CapLower(s, I, t, b, x, en);
          MisledIffDerailed(s, I, t, b, st, x);
        }
      }
    }
  }

  lemma CapLower(s: seq<Byte>, I: seq<int>, t: seq<Byte>, b: nat, x: int, en: int)
    requires SuffixArray(s, I) && 0 <= x <= en < |I| && b <= |t| && Capped(s, I, t, b, en)
    requires Before(s, I[x], t, b) ==> Swallowed(s, I[x], t, b) && !OccursAmong(s, I, t, b, |s| - I[x] + 1, x, en)
    ensures Capped(s, I, t, b, x)
  {
    forall y | x < y < |I|
      ensures Common(s, I[y], t, b) <= Common(s, I[x], t, b)
    {
      if Before(s, I[x], t, b) {
        OccursIffLonger(s, I, t, b, x, en);
      } else {
        ShorterAbove(s, I[x], I[y], t, b);
      }
    }
  }

  lemma OccursAnywhere(s: seq<Byte>, I: seq<int>, t: seq<Byte>, b: nat, x: int, en: int)
    requires SuffixArray(s, I) && 0 <= x <= en < |I| && b <= |t| && Capped(s, I, t, b, en) && Swallowed(s, I[x], t, b)
    ensures var n := |s| - I[x] + 1; OccursAmong(s, I, t, b, n, x, en) <==> Contains(s, t[b..b + n])
  {
    hide Capped, Swallowed, SuffixArray, Common;
    SuffixesInRange(s, I);
    var n := |s| - I[x] + 1;
    SwallowedFits(s, I[x], t, b);
    if OccursAmong(s, I, t, b, n, x, en) {
      var y :| x <= y <= en && I[y] + n <= |s| && s[I[y]..I[y] + n] == t[b..b + n];
      assert PartAt(s, I[y], t[b..b + n]);
    }
    if Contains(s, t[b..b + n]) {
      var a :| PartAt(s, a, t[b..b + n]);
      OccursIsCommon(s, a, t, b, n);
      var y := PlaceOf(s, I, a);
      FurtherIsInRange(s, I, t, b, x, en, y);
      OccursIffLonger(s, I, t, b, x, en);
    }
  }

  lemma PlaceOf(s: seq<Byte>, I: seq<int>, a: nat) returns (y: int)
    requires SuffixArray(s, I) && a <= |s|
    ensures 0 <= y < |I| && I[y] == a
  {
    assert a in I;
    y :| 0 <= y < |I| && I[y] == a;
  }

  lemma SwallowedFits(s: seq<Byte>, a: nat, t: seq<Byte>, b: nat)
    requires a <= |s| && b <= |t| && Swallowed(s, a, t, b)
    ensures b + (|s| - a) + 1 <= |t|
  {
  }

  lemma FurtherIsInRange(s: seq<Byte>, I: seq<int>, t: seq<Byte>, b: nat, x: int, en: int, y: int)
    requires SuffixArray(s, I) && 0 <= x <= en < |I| && b <= |t| && Capped(s, I, t, b, en) && Swallowed(s, I[x], t, b)
    requires 0 <= y < |I| && Common(s, I[y], t, b) > |s| - I[x]
    ensures exists z :: x < z <= en && Common(s, I[z], t, b) > |s| - I[x]
  {
    if y <= en {
      if y < x {
        ShorterBelow(s, I[y], I[x], t, b);
      }
      assert x < y;
    } else {
      assert Common(s, I[en], t, b) > |s| - I[x];
    }
  }

  // Whatever its probes are, a search of the whole array is not misled if s does
  // not contain any proper prefix of t[b..] that ends s with one byte more.
  lemma NotMisledByContents(s: seq<Byte>, I: seq<int>, t: seq<Byte>, b: nat)
    requires SuffixArray(s, I) && b <= |t|
    requires forall a :: 0 <= a < |s| && Swallowed(s, a, t, b) ==> !Contains(s, t[b..b + (|s| - a + 1)])
    ensures !Misled(s, I, t, b, 0, |s|)
  {
    hide Swallowed, Common;
    NotDerailed(s, I, t, b, 0, |s|);
    MisledIffDerailed(s, I, t, b, 0, |s|);
  }

  lemma {:induction false} NotDerailed(s: seq<Byte>, I: seq<int>, t: seq<Byte>, b: nat, st: int, en: int)
    requires SuffixArray(s, I) && 0 <= st <= en < |I| && b <= |t|
    requires forall a :: 0 <= a < |s| && Swallowed(s, a, t, b) ==> !Contains(s, t[b..b + (|s| - a + 1)])
    ensures !Derailed(s, I, t, b, st, en)
    decreases en - st
  {
    hide Contains, Swallowed, Memcmp, Common;
    if en - st >= 2 {
      var x := st + (en - st) / 2;
      assert Less(s, I[0], I[x]);
      NotDerailed(s, I, t, b, x, en);
      NotDerailed(s, I, t, b, st, x);
    }
  }

  lemma ExampleArray()
    ensures SuffixArray([97, 98, 97], [3, 2, 0, 1])
  {
    var s: seq<Byte>, I := [97, 98, 97], [3, 2, 0, 1];
    assert I[0] == 3 && I[1] == 2 && I[2] == 0 && I[3] == 1;
    assert Less(s, 3, 2) && Less(s, 3, 0) && Less(s, 3, 1);
    assert Less(s, 2, 0) by { assert Less(s, 3, 1); }
    assert Less(s, 2, 1) && Less(s, 0, 1);
  }

  // "Longest" can fail: looking up "ab" in "aba", the probe "a" hides "aba".
  lemma MisledExample()
    ensures var s: seq<Byte>, t: seq<Byte>, I := [97, 98, 97], [97, 98], [3, 2, 0, 1];
            SuffixArray(s, I) && Misled(s, I, t, 0, 0, 3) && !LongestAmong(s, I, t, 0, 0, 3, 1)
  {
    var s: seq<Byte>, t: seq<Byte>, I := [97, 98, 97], [97, 98], [3, 2, 0, 1];
    assert I[0] == 3 && I[1] == 2 && I[2] == 0 && I[3] == 1;
    ExampleArray();
    assert Common(s, 2, t, 0) == 1 + Common(s, 3, t, 1) == 1;
    assert Common(s, 0, t, 0) == 1 + Common(s, 1, t, 1) == 2 + Common(s, 2, t, 2);
    assert Memcmp(s, 2, t, 0, 1) == Memcmp(s, 3, t, 1, 0) == 0;
    assert Swallowed(s, I[1], t, 0) && Common(s, I[2], t, 0) > |s| - I[1];
  }
}
