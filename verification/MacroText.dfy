// Putting arguments in the place of parameters, and the pound-sign operators.

module MacroText {
  import opened MacroArgs

  predicate Boundary(s: string, i: nat)
    requires i <= |s|
  {
    (i > 0 && IsWord(s[i - 1])) != (i < |s| && IsWord(s[i]))
  }

  predicate Occurs(x: string, s: string, i: nat)
    requires i <= |s|
  {
    i + |x| <= |s| && s[i..i + |x|] == x && Boundary(s, i) && Boundary(s, i + |x|)
  }

  // re.sub of \bx\b by y, from position i on.
  function SubstituteFrom(x: string, y: string, s: string, i: nat): string
    requires i <= |s|
    decreases |s| - i
  {
    if Occurs(x, s, i) && x != "" then y + SubstituteFrom(x, y, s, i + |x|)
    else
      (if Occurs(x, s, i) then y else "")
      + if i == |s| then "" else [s[i]] + SubstituteFrom(x, y, s, i + 1)
  }

  function Substitute(x: string, y: string, s: string): string {
    SubstituteFrom(x, y, s, 0)
  }

  // Concatenation: ## disappears.
  function Paste(s: string): string {
    if |s| < 2 then s
    else if s[..2] == "##" then Paste(s[2..])
    else [s[0]] + Paste(s[1..])
  }

  function SkipSpaces(s: string, i: nat): (j: nat)
    requires i <= |s|
    ensures i <= j <= |s|
    decreases |s| - i
  {
    if i < |s| && IsSpace(s[i]) then SkipSpaces(s, i + 1) else i
  }

  function SkipToSpace(s: string, i: nat): (j: nat)
    requires i <= |s|
    ensures i <= j <= |s|
    decreases |s| - i
  {
    if i < |s| && !IsSpace(s[i]) then SkipToSpace(s, i + 1) else i
  }

  // Stringification: # and the non-blank text after it becomes that text in quotes.
  function StringifyFrom(s: string, i: nat): string
    requires i <= |s|
    decreases |s| - i
  {
    if i == |s| then ""
    else if s[i] == '#' && !Boundary(s, i) then
      var from := SkipSpaces(s, i + 1);
      var to := SkipToSpace(s, from);
      "\"" + s[from..to] + "\"" + StringifyFrom(s, to)
    else [s[i]] + StringifyFrom(s, i + 1)
  }

  function Massage(s: string): string {
    StringifyFrom(Paste(s), 0)
  }

  // The occurrences of x that are replaced, from position i on.
  function Hits(x: string, s: string, i: nat): seq<nat>
    requires i <= |s|
    decreases |s| - i
  {
    if i == |s| then if Occurs(x, s, i) then [i] else []
    else if Occurs(x, s, i) then [i] + Hits(x, s, if x == "" then i + 1 else i + |x|)
    else Hits(x, s, i + 1)
  }

  lemma OccursText(x: string, s: string, i: nat)
    requires i <= |s|
    ensures Occurs(x, s, i) ==> i + |x| <= |s| && s[i..i + |x|] == x
  {
  }

  // Occurrences of x at i or later, from left to right, that do not overlap.
  ghost predicate InOrder(x: string, s: string, i: nat, h: seq<nat>) {
    && (forall k :: 0 <= k < |h| ==> i <= h[k] <= |s| && Occurs(x, s, h[k]))
    && forall j, k :: 0 <= j < k < |h| ==> h[j] < h[k] && h[j] + |x| <= h[k]
  }

  lemma {:induction false} HitsOccur(x: string, s: string, i: nat)
    requires i <= |s|
    ensures InOrder(x, s, i, Hits(x, s, i))
    decreases |s| - i
  {
    hide Occurs, InOrder;
    OccursText(x, s, i);
    if i < |s| {
      var n := if Occurs(x, s, i) && x != "" then i + |x| else i + 1;
      HitsOccur(x, s, n);
      OneInFront(x, s, i, n, Hits(x, s, n));
    } else {
      OneInFront(x, s, i, i, []);
      assert [i] + [] == [i];
    }
  }

  lemma OneInFront(x: string, s: string, i: nat, n: nat, h: seq<nat>)
    requires i <= |s| && i <= n && (h == [] || InOrder(x, s, n, h))
    ensures InOrder(x, s, i, h)
            && (Occurs(x, s, i) && (h == [] || (i < n && i + |x| <= n)) ==> InOrder(x, s, i, [i] + h))
  {
    hide Occurs;
  }

  // None is passed over: an occurrence is replaced or overlaps one that is.
  lemma {:induction false} AllHit(x: string, s: string, i: nat, q: nat)
    requires i <= q <= |s| && Occurs(x, s, q)
    ensures exists p :: p in Hits(x, s, i) && p <= q && (p == q || q < p + |x|)
    decreases |s| - i
  {
    hide Occurs;
    OccursText(x, s, i);
    if Occurs(x, s, i) && (q == i || q < i + |x|) {
      assert i == Hits(x, s, i)[0] && i in Hits(x, s, i);
    } else {
      var n := if Occurs(x, s, i) && x != "" then i + |x| else i + 1;
      AllHit(x, s, n, q);
      var p :| p in Hits(x, s, n) && p <= q && (p == q || q < p + |x|);
      assert p in Hits(x, s, i);
    }
  }

  // s[i..] with the n characters at each of the given positions replaced by y, up
  // to a position that is out of order.
  function Woven(s: string, i: nat, h: seq<nat>, n: nat, y: string): string
    requires i <= |s|
    decreases |h|
  {
    if h == [] || h[0] < i || h[0] + n > |s| then s[i..]
    else s[i..h[0]] + y + Woven(s, h[0] + n, h[1..], n, y)
  }

  // The result is the text between the occurrences, joined by y.
  lemma {:induction false} SubstituteWeaves(x: string, y: string, s: string, i: nat)
    requires i <= |s|
    ensures SubstituteFrom(x, y, s, i) == Woven(s, i, Hits(x, s, i), |x|, y)
    decreases |s| - i
  {
    hide Occurs, Woven;
    OccursText(x, s, i);
    if Occurs(x, s, i) && x != "" {
      SubstituteWeaves(x, y, s, i + |x|);
      WeaveHere(s, i, Hits(x, s, i + |x|), |x|, y);
    } else if i < |s| {
      SubstituteWeaves(x, y, s, i + 1);
      FirstHit(x, s, i + 1);
      var h := Hits(x, s, i + 1);
      WeaveLater(s, i, h, |x|, y);
      if Occurs(x, s, i) { WeaveHere(s, i, h, 0, y); }
    } else {
      WeaveEnd(s, |x|, y);
    }
  }

  lemma FirstHit(x: string, s: string, i: nat)
    requires i <= |s|
    ensures var h := Hits(x, s, i); h != [] ==> i <= h[0] && h[0] + |x| <= |s|
  {
    hide Occurs;
    HitsOccur(x, s, i);
    var h := Hits(x, s, i);
    if h != [] {
      assert h[0] <= |s|;
      OccursText(x, s, h[0]);
    }
  }

  lemma WeaveHere(s: string, i: nat, h: seq<nat>, n: nat, y: string)
    requires i + n <= |s|
    ensures Woven(s, i, [i] + h, n, y) == y + Woven(s, i + n, h, n, y)
  {
    assert ([i] + h)[1..] == h && s[i..i] == "";
  }

  lemma WeaveEnd(s: string, n: nat, y: string)
    ensures Woven(s, |s|, [], n, y) == ""
    ensures n == 0 ==> Woven(s, |s|, [|s|], n, y) == y
  {
  }

  lemma WeaveLater(s: string, i: nat, h: seq<nat>, n: nat, y: string)
    requires i < |s| && (h == [] || (i + 1 <= h[0] && h[0] + n <= |s|))
    ensures Woven(s, i, h, n, y) == [s[i]] + Woven(s, i + 1, h, n, y)
  {
    if h != [] {
      var rest := Woven(s, h[0] + n, h[1..], n, y);
      assert s[i..h[0]] == [s[i]] + s[i + 1..h[0]];
      assert s[i..h[0]] + y + rest == [s[i]] + (s[i + 1..h[0]] + y + rest);
    }
  }

  // So substitution does nothing where x does not occur ...
  lemma SubstituteAbsent(x: string, y: string, s: string, i: nat)
    requires i <= |s| && forall k :: i <= k <= |s| ==> !Occurs(x, s, k)
    ensures SubstituteFrom(x, y, s, i) == s[i..]
  {
    hide Occurs;
    HitsOccur(x, s, i);
    SubstituteWeaves(x, y, s, i);
  }

  // ... and exactly x is taken out.
  lemma {:induction false} SubstituteSelf(x: string, s: string, i: nat)
    requires i <= |s| && x != ""
    ensures SubstituteFrom(x, x, s, i) == s[i..]
    decreases |s| - i
  {
    hide Occurs;
    if Occurs(x, s, i) {
      OccursText(x, s, i);
      SubstituteSelf(x, s, i + |x|);
      assert s[i..] == s[i..i + |x|] + s[i + |x|..];
    } else if i < |s| {
      SubstituteSelf(x, s, i + 1);
    }
  }
}
