// What the pound signs of a right-hand side do.

module MacroPound {
  import opened Options
  import opened MacroArgs
  import opened MacroText
  import opened MacroEval

  // ---- Concatenation ----

  lemma {:induction false} PasteBehind(a: string, b: string)
    requires '#' !in a
    ensures Paste(a + b) == a + Paste(b)
  {
    if a != "" {
      PasteBehind(a[1..], b);
      var s := a + b;
      assert s[0] == a[0] && s[1..] == a[1..] + b;
      if |s| >= 2 { assert s[..2][0] == s[0]; }
      assert a == [a[0]] + a[1..];
    } else {
      assert a + b == b;
    }
  }

  lemma PasteNothing(s: string)
    requires '#' !in s
    ensures Paste(s) == s
  {
    PasteBehind(s, "");
    assert s + "" == s;
  }

  lemma PastePair(b: string)
    ensures Paste("##" + b) == Paste(b)
  {
    assert ("##" + b)[..2] == "##" && ("##" + b)[2..] == b;
  }

  // A single sign stays for the next pass.
  lemma PasteSingle(b: string)
    requires b == "" || b[0] != '#'
    ensures Paste("#" + b) == "#" + Paste(b)
  {
    var s := "#" + b;
    assert s[1..] == b && s[0] == '#';
    if |s| >= 2 { assert s[..2][1] == b[0]; }
  }

  // ---- Stringification ----

  // No sign of s[i..] that is not directly behind a word.
  ghost predicate NoneToQuote(s: string, i: nat) {
    forall k :: i <= k < |s| && s[k] == '#' ==> k > 0 && IsWord(s[k - 1])
  }

  lemma {:induction false} StringifyNothing(s: string, i: nat)
    requires i <= |s| && NoneToQuote(s, i)
    ensures StringifyFrom(s, i) == s[i..]
    decreases |s| - i
  {
    if i < |s| {
      StringifyNothing(s, i + 1);
      assert s[i..] == [s[i]] + s[i + 1..];
    }
  }

  lemma {:induction false} StringifyFront(s: string, i: nat, j: nat)
    requires i <= j <= |s| && forall k :: i <= k < j ==> s[k] != '#'
    ensures StringifyFrom(s, i) == s[i..j] + StringifyFrom(s, j)
    decreases j - i
  {
    hide StringifyFrom, IsWord;
    if i < j {
      StringifyFront(s, i + 1, j);
      NotQuoted(s, i);
      assert s[i..j] == [s[i]] + s[i + 1..j];
    }
  }

  lemma Quoted(s: string, i: nat)
    requires i < |s| && s[i] == '#' && !(i > 0 && IsWord(s[i - 1]))
    ensures var from := SkipSpaces(s, i + 1);
            var to := SkipToSpace(s, from);
            StringifyFrom(s, i) == "\"" + s[from..to] + "\"" + StringifyFrom(s, to)
  {
  }

  lemma NotQuoted(s: string, i: nat)
    requires i < |s| && !(s[i] == '#' && !(i > 0 && IsWord(s[i - 1])))
    ensures StringifyFrom(s, i) == [s[i]] + StringifyFrom(s, i + 1)
  {
  }

  // Text in front does not matter, unless the rest starts with a sign.
  lemma {:induction false} StringifyLater(a: string, b: string, i: nat)
    requires i <= |b| && (b == "" || b[0] != '#')
    ensures StringifyFrom(a + b, |a| + i) == StringifyFrom(b, i)
    decreases |b| - i
  {
    hide StringifyFrom, SkipSpaces, SkipToSpace, IsWord;
    var s := a + b;
    if i == |b| {
      NothingLeft(s);
      NothingLeft(b);
    } else {
      assert s[|a| + i] == b[i] && (i > 0 ==> s[|a| + i - 1] == b[i - 1]);
      if b[i] == '#' && !IsWord(b[i - 1]) {
        SkipLater(a, b, i + 1);
        var from := SkipSpaces(b, i + 1);
        var to := SkipToSpace(b, from);
        SliceLater(a, b, from, to);
        Quoted(s, |a| + i);
        Quoted(b, i);
        StringifyLater(a, b, to);
      } else {
        NotQuoted(s, |a| + i);
        NotQuoted(b, i);
        StringifyLater(a, b, i + 1);
      }
    }
  }

  lemma NothingLeft(s: string)
    ensures StringifyFrom(s, |s|) == ""
  {
  }

  lemma SliceLater(a: string, b: string, i: nat, j: nat)
    requires i <= j <= |b|
    ensures (a + b)[|a| + i..|a| + j] == b[i..j]
  {
  }

  lemma {:induction false} SkipLater(a: string, b: string, i: nat)
    requires i <= |b|
    ensures SkipSpaces(a + b, |a| + i) == |a| + SkipSpaces(b, i)
    ensures var from := SkipSpaces(b, i); SkipToSpace(a + b, |a| + from) == |a| + SkipToSpace(b, from)
    decreases |b| - i
  {
    if i < |b| && IsSpace(b[i]) {
      SkipLater(a, b, i + 1);
    } else {
      SkipOn(a, b, i);
    }
  }

  lemma {:induction false} SkipOn(a: string, b: string, i: nat)
    requires i <= |b|
    ensures SkipToSpace(a + b, |a| + i) == |a| + SkipToSpace(b, i)
    decreases |b| - i
  {
    if i < |b| && !IsSpace(b[i]) { SkipOn(a, b, i + 1); }
  }

  lemma {:induction false} SkipAll(s: string, i: nat, j: nat)
    requires i <= j <= |s|
    ensures (forall k :: i <= k < j ==> IsSpace(s[k])) && (j == |s| || !IsSpace(s[j])) ==> SkipSpaces(s, i) == j
    ensures (forall k :: i <= k < j ==> !IsSpace(s[k])) && (j == |s| || IsSpace(s[j])) ==> SkipToSpace(s, i) == j
    decreases j - i
  {
    if i < j { SkipAll(s, i + 1, j); }
  }

  // ---- Both ----

  // A text without pound signs is left alone ...
  lemma MassageNothing(s: string)
    requires '#' !in s
    ensures Massage(s) == s
  {
    PasteNothing(s);
    StringifyNothing(s, 0);
  }

  // ... two of them join what is on either side ...
  lemma MassageJoins(a: string, b: string)
    requires '#' !in a && '#' !in b
    ensures Massage(a + "##" + b) == a + b
  {
    assert a + "##" + b == a + ("##" + b);
    PasteBehind(a, "##" + b);
    PastePair(b);
    PasteNothing(b);
    assert '#' !in a + b;
    StringifyNothing(a + b, 0);
  }

  // ... one that is not directly behind a word puts the next non-blank text in
  // quotes and drops itself and the blanks before that text, and the rest of the
  // line is massaged on its own ...
  lemma MassageQuotes(a: string, blanks: string, run: string, rest: string)
    requires '#' !in a && (a == "" || !IsWord(a[|a| - 1]))
    requires (forall k :: 0 <= k < |blanks| ==> IsSpace(blanks[k]))
    requires '#' !in run && (forall k :: 0 <= k < |run| ==> !IsSpace(run[k])) && (run == "" ==> rest == "")
    requires rest == "" || IsSpace(rest[0])
    ensures Massage(a + "#" + blanks + run + rest) == a + "\"" + run + "\"" + Massage(rest)
  {
    var text := blanks + run;
    assert a + "#" + blanks + run + rest == a + ("#" + (text + rest));
    PasteBehind(a, "#" + (text + rest));
    PasteSingle(text + rest);
    PasteBehind(text, rest);
    PasteKeepsStart(rest);
    QuoteText(a, blanks, run, Paste(rest));
  }

  lemma PasteKeepsStart(s: string)
    requires s == "" || s[0] != '#'
    ensures if s == "" then Paste(s) == "" else Paste(s) != "" && Paste(s)[0] == s[0]
  {
    assert |s| >= 2 ==> s[..2][0] == s[0];
  }

  lemma QuoteText(a: string, blanks: string, run: string, rest: string)
    requires '#' !in a && (a == "" || !IsWord(a[|a| - 1]))
    requires (forall k :: 0 <= k < |blanks| ==> IsSpace(blanks[k]))
    requires (forall k :: 0 <= k < |run| ==> !IsSpace(run[k])) && (run == "" ==> rest == "")
    requires rest == "" || IsSpace(rest[0])
    ensures StringifyFrom(a + ("#" + (blanks + run + rest)), 0)
         == a + "\"" + run + "\"" + StringifyFrom(rest, 0)
  {
    hide *;
    var s := a + ("#" + (blanks + run + rest));
    var from := |a| + 1 + |blanks|;
    var to := from + |run|;
    Parts(s, a, blanks, run, rest);
    QuoteAt(s, |a|, from, to);
    SpaceIsNoSign(rest);
    StringifyLater(s[..to], rest, 0);
    Ends(s, to, rest);
  }

  lemma SpaceIsNoSign(s: string)
    requires s == "" || IsSpace(s[0])
    ensures s == "" || s[0] != '#'
  {
  }

  lemma Ends(s: string, to: nat, rest: string)
    requires to <= |s| && s[..to] + rest == s && StringifyFrom(s[..to] + rest, to + 0) == StringifyFrom(rest, 0)
    ensures StringifyFrom(s, to) == StringifyFrom(rest, 0)
  {
    hide *;
  }

  // The first sign of s stands at i, and the text to quote is s[from..to].
  ghost predicate Quotable(s: string, i: nat, from: nat, to: nat) {
    && i < from <= to <= |s| && s[i] == '#' && (i == 0 || !IsWord(s[i - 1])) && (forall k :: 0 <= k < i ==> s[k] != '#')
    && (forall k :: i + 1 <= k < from ==> IsSpace(s[k])) && (from == |s| || from < to)
    && (forall k :: from <= k < to ==> !IsSpace(s[k])) && (to == |s| || IsSpace(s[to]))
  }

  lemma QuoteAt(s: string, i: nat, from: nat, to: nat)
    requires Quotable(s, i, from, to)
    ensures StringifyFrom(s, 0) == s[0..i] + "\"" + s[from..to] + "\"" + StringifyFrom(s, to)
  {
    hide StringifyFrom, SkipSpaces, SkipToSpace, IsWord, IsSpace;
    StringifyFront(s, 0, i);
    SkipAll(s, i + 1, from);
    SkipAll(s, from, to);
    Quoted(s, i);
  }

  lemma Parts(s: string, a: string, blanks: string, run: string, rest: string)
    requires s == a + ("#" + (blanks + run + rest))
    requires '#' !in a && (a == "" || !IsWord(a[|a| - 1])) && (rest == "" || IsSpace(rest[0]))
    requires (forall k :: 0 <= k < |blanks| ==> IsSpace(blanks[k]))
    requires (forall k :: 0 <= k < |run| ==> !IsSpace(run[k])) && (run == "" ==> rest == "")
    ensures var from := |a| + 1 + |blanks|; Quotable(s, |a|, from, from + |run|)
    ensures var from := |a| + 1 + |blanks|;
            && from + |run| <= |s| && s[0..|a|] == a && s[from..from + |run|] == run && s[..from + |run|] + rest == s
  {
    hide IsWord, IsSpace;
    var from := |a| + 1 + |blanks|;
    var to := from + |run|;
    forall k | 0 <= k < |a| ensures s[k] != '#' { CharOf(s, a, blanks, run, rest, k); }
    forall k | |a| + 1 <= k < from ensures IsSpace(s[k]) { CharOf(s, a, blanks, run, rest, k); }
    forall k | from <= k < to ensures !IsSpace(s[k]) { CharOf(s, a, blanks, run, rest, k); }
    CharOf(s, a, blanks, run, rest, |a|);
    if a != "" { CharOf(s, a, blanks, run, rest, |a| - 1); }
    if to < |s| { CharOf(s, a, blanks, run, rest, to); }
    SlicesOf(s, a, blanks, run, rest);
  }

  lemma CharOf(s: string, a: string, blanks: string, run: string, rest: string, k: nat)
    requires s == a + ("#" + (blanks + run + rest)) && k < |s|
    ensures k < |a| ==> s[k] == a[k]
    ensures k == |a| ==> s[k] == '#'
    ensures var from := |a| + 1 + |blanks|; |a| + 1 <= k < from ==> s[k] == blanks[k - (|a| + 1)]
    ensures var from := |a| + 1 + |blanks|; from <= k < from + |run| ==> s[k] == run[k - from]
    ensures k == |a| + 1 + |blanks| + |run| ==> rest != "" && s[k] == rest[0]
  {
  }

  lemma SlicesOf(s: string, a: string, blanks: string, run: string, rest: string)
    requires s == a + ("#" + (blanks + run + rest))
    ensures var from := |a| + 1 + |blanks|;
            && |s| == from + |run| + |rest| && s[0..|a|] == a && s[from..from + |run|] == run
            && s[..from + |run|] + rest == s
  {
  }

  // ... and one directly behind a word stays.
  lemma MassageKeeps(a: string, b: string)
    requires '#' !in a && a != "" && IsWord(a[|a| - 1]) && '#' !in b
    ensures Massage(a + "#" + b) == a + "#" + b
  {
    hide StringifyFrom, Paste, IsWord;
    assert a + "#" + b == a + ("#" + b);
    PasteBehind(a, "#" + b);
    PasteSingle(b);
    PasteNothing(b);
    assert NoneToQuote(a + ("#" + b), 0);
    StringifyNothing(a + ("#" + b), 0);
  }

  // With A(x) defined as x##a.c, a value of A(y) is ya.c.
  const JOINING: Table := map["A" := [Function(["x"], "x##a.c")]]

  lemma JoinedExample()
    ensures "ya.c" in Values("A(y)", JOINING, {})
  {
    hide Values, Massage, Substitute, Args;
    var e, ps, rhs := "A(y)", ["x"], "x##a.c";
    assert SymbolAt(e, 0, 1) && e[0..1] == "A" && JOINING["A"][0] == Function(ps, rhs);
    ExampleCall();
    ExampleBody();
    CallReplaced(e, 0, 1, ps, rhs, JOINING);
    assert SubstituteAll(ps, ["y"], rhs, 1) == Substitute("x", "y", rhs);
    MassageJoins("y", "a.c");
    assert "y" + "##" + "a.c" == "y##a.c" && "y" + "a.c" == "ya.c";
    assert e[..0] + "ya.c" + e[4..] == "ya.c";
  }

  lemma ExampleCall()
    ensures Args("A(y)", 1) == Some((["y"], 4))
  {
    var e := "A(y)";
    assert Read(e, 1, 2) == Read(e, 1, 3) == Reading(1, false);
    CloseIs(e, 1, 3);
    assert Cuts(e, 1, 2) == Cuts(e, 1, 3) == [1];
    SeparatesComma(e, 1, 3);
    assert [1] + [3] == [1, 3] && e[2..3] == "y";
    assert Pieces(e, [1, 3]) == ["y"];
  }

  lemma ExampleBody()
    ensures Substitute("x", "y", "x##a.c") == "y##a.c"
  {
    hide Substitute, Woven, Hits, Occurs;
    var s := "x##a.c";
    NoMore(s);
    SubstituteAbsent("x", "y", s, 1);
    assert s[1..] == "##a.c";
    FirstReplaced(s);
  }

  lemma NoMore(s: string)
    requires s == "x##a.c"
    ensures Occurs("x", s, 0) && forall k :: 1 <= k <= |s| ==> !Occurs("x", s, k)
  {
    assert s[0..1] == "x";
  }

  lemma FirstReplaced(s: string)
    requires |s| > 0 && Occurs("x", s, 0) && SubstituteFrom("x", "y", s, 1) == "##a.c"
    ensures Substitute("x", "y", s) == "y##a.c"
  {
    hide Occurs;
  }
}
