// What the characters classes and the arguments of a call are, said without the
// counters of the parser.

module MacroNesting {
  import opened Options
  import opened MacroArgs
  import opened MacroText

  // ---- Characters ----

  // ASCII letters, digits and the underscore make words.
  lemma WordCharacters(c: char)
    ensures var n := c as int;
            IsWord(c) <==> 97 <= n <= 122 || 65 <= n <= 90 || 48 <= n <= 57 || n == 95
  {
  }

  lemma SpaceCharacters(c: char)
    ensures IsSpace(c) <==> c as int in {32, 9, 10, 11, 12, 13}
  {
  }

  // A word occurs where it stands and no longer word does.
  lemma WordOccurs(x: string, s: string, i: nat)
    requires x != "" && (forall k :: 0 <= k < |x| ==> IsWord(x[k])) && i <= |s|
    ensures Occurs(x, s, i) <==>
            && i + |x| <= |s| && s[i..i + |x|] == x
            && (i == 0 || !IsWord(s[i - 1])) && (i + |x| == |s| || !IsWord(s[i + |x|]))
  {
    if i + |x| <= |s| && s[i..i + |x|] == x {
      assert s[i] == s[i..i + |x|][0] == x[0] && s[i + |x| - 1] == s[i..i + |x|][|x| - 1] == x[|x| - 1];
    }
  }

  lemma UnderscoreExample()
    ensures Substitute("x", "y", "x_ x") == "x_ y"
  {
    var s := "x_ x";
    assert !Occurs("x", s, 0) && !Occurs("x", s, 1) && !Occurs("x", s, 2);
    assert s[3..4] == "x" && Occurs("x", s, 3);
    assert SubstituteFrom("x", "y", s, 4) == "";
    assert SubstituteFrom("x", "y", s, 3) == "y" && SubstituteFrom("x", "y", s, 2) == " y";
  }

  // ---- Nesting ----

  function Quotes(a: string): nat {
    if a == "" then 0 else Quotes(a[..|a| - 1]) + if a[|a| - 1] == '"' then 1 else 0
  }

  // Opening less closing parentheses, of those outside quotes.
  function Depth(a: string): int {
    if a == "" then 0
    else
      Depth(a[..|a| - 1])
      + if Quotes(a[..|a| - 1]) % 2 == 1 then 0
        else if a[|a| - 1] == '(' then 1 else if a[|a| - 1] == ')' then -1 else 0
  }

  // All quotes are in pairs, and outside of them so are the parentheses.
  ghost predicate Balanced(a: string) {
    Quotes(a) % 2 == 0 && Depth(a) == 0 && forall k :: 0 <= k <= |a| ==> Depth(a[..k]) >= 0
  }

  // Every comma outside quotes is inside parentheses.
  ghost predicate OneArgument(a: string) {
    forall k :: 0 <= k < |a| && a[k] == ',' && Quotes(a[..k]) % 2 == 0 ==> Depth(a[..k]) > 0
  }

  // From a place at depth one on, the parser's counters are those of the text from there.
  lemma {:induction false} ReadsNesting(s: string, pos: nat, from: nat, i: nat)
    requires pos <= from <= i <= |s| && Read(s, pos, from) == Reading(1, false)
    ensures Read(s, pos, i) == Reading(1 + Depth(s[from..i]), Quotes(s[from..i]) % 2 == 1)
    decreases i
  {
    hide Read, Depth, Quotes;
    if from < i {
      ReadsNesting(s, pos, from, i - 1);
      NestingMore(s[from..i - 1], s[i - 1]);
      assert s[from..i] == s[from..i - 1] + [s[i - 1]];
      ReadMore(s, pos, i);
    } else {
      assert s[from..i] == "";
      NestingNone();
    }
  }

  lemma ReadMore(s: string, pos: nat, i: nat)
    requires pos < i <= |s|
    ensures Read(s, pos, i) == Next(Read(s, pos, i - 1), s[i - 1])
  {
  }

  lemma NestingNone()
    ensures Depth("") == 0 && Quotes("") == 0
  {
  }

  lemma NestingMore(a: string, c: char)
    ensures Quotes(a + [c]) == Quotes(a) + if c == '"' then 1 else 0
    ensures Depth(a + [c])
         == Depth(a) + if Quotes(a) % 2 == 1 then 0 else if c == '(' then 1 else if c == ')' then -1 else 0
  {
    assert (a + [c])[..|a|] == a;
  }

  // Before the call is closed, its parenthesis is open.
  lemma {:induction false} StaysOpen(s: string, pos: nat, e: nat, i: nat)
    requires pos < i <= e < |s| && s[pos] == '(' && forall k :: pos <= k < e ==> !Closes(s, pos, k)
    ensures Read(s, pos, i).depth >= 1
    decreases i
  {
    if i > pos + 1 {
      StaysOpen(s, pos, e, i - 1);
      assert !Closes(s, pos, i - 1);
    } else {
      assert Read(s, pos, pos) == Reading(0, false);
    }
  }

  // Between neighbouring cuts there is one argument.
  lemma PieceIsArgument(s: string, pos: nat, e: nat, from: nat, to: nat)
    requires pos < from <= to <= e < |s| && s[pos] == '(' && forall k :: pos <= k < e ==> !Closes(s, pos, k)
    requires Read(s, pos, from) == Reading(1, false) && Read(s, pos, to) == Reading(1, false)
    requires forall k :: from <= k < to ==> !Separates(s, pos, k)
    ensures Balanced(s[from..to]) && OneArgument(s[from..to])
  {
    hide Read, Depth, Quotes;
    var a := s[from..to];
    ReadsNesting(s, pos, from, to);
    forall k | 0 <= k <= |a|
      ensures Depth(a[..k]) >= 0
      ensures k < |a| && a[k] == ',' && Quotes(a[..k]) % 2 == 0 ==> Depth(a[..k]) > 0
    {
      assert a[..k] == s[from..from + k];
      ReadsNesting(s, pos, from, from + k);
      StaysOpen(s, pos, e, from + k);
      assert k < |a| ==> !Separates(s, pos, from + k) && a[k] == s[from + k];
    }
  }

  // Every argument found is one: what is in it is balanced and holds no comma of
  // the call, whose own parentheses enclose all of them.
  lemma ArgsBalanced(s: string, pos: nat)
    requires Args(s, pos).Some?
    ensures forall a :: a in Args(s, pos).value.0 ==> Balanced(a) && OneArgument(a)
  {
    hide Balanced, OneArgument, Cuts, Pieces, Closes, Separates, Increasing, Read;
    var e := Close(s, pos, pos);
    SeparatesComma(s, pos, e);
    var c := Cuts(s, pos, e) + [e];
    var list := Pieces(s, c);
    forall a | a in list
      ensures Balanced(a) && OneArgument(a)
    {
      var k :| 0 <= k < |list| && list[k] == a;
      PieceIs(s, c, k);
      CutPlaces(s, pos, e, k);
      PieceIsArgument(s, pos, e, c[k] + 1, c[k + 1]);
    }
  }

  lemma PieceIs(s: string, c: seq<nat>, k: nat)
    requires Increasing(|s|, c) && k < |c| - 1
    ensures |Pieces(s, c)| == |c| - 1 && c[k] < c[k + 1] < |s| && Pieces(s, c)[k] == s[c[k] + 1..c[k + 1]]
  {
  }

  lemma CutPlaces(s: string, pos: nat, e: nat, k: nat)
    requires pos < e < |s| && s[pos] == '(' && Closes(s, pos, e) && k < |Cuts(s, pos, e)|
    ensures var c := Cuts(s, pos, e) + [e];
            && pos <= c[k] < c[k + 1] <= e && Read(s, pos, c[k] + 1) == Reading(1, false)
            && Read(s, pos, c[k + 1]) == Reading(1, false)
            && forall i :: c[k] + 1 <= i < c[k + 1] ==> !Separates(s, pos, i)
  {
    hide Cuts;
    CutsMean(s, pos, e);
    var cuts := Cuts(s, pos, e);
    var c := cuts + [e];
    if k > 0 { assert Separates(s, pos, cuts[k]); }
    if k + 1 < |cuts| { assert Separates(s, pos, cuts[k + 1]); }
    forall i | c[k] + 1 <= i < c[k + 1]
      ensures !Separates(s, pos, i)
    {
      if Separates(s, pos, i) {
        assert i in cuts;
        var j :| 0 <= j < |cuts| && cuts[j] == i;
      }
    }
    AfterCut(s, pos, c[k]);
  }

  lemma AfterCut(s: string, pos: nat, i: nat)
    requires pos <= i < |s| && (i == pos ==> s[i] == '(') && (i > pos ==> Separates(s, pos, i))
    ensures Read(s, pos, i + 1) == Reading(1, false)
  {
    assert Read(s, pos, pos) == Reading(0, false);
  }

  // The call of the documentation: a, m(c, n(d)) and c with the blank before it.
  lemma DocumentedExample()
    ensures Args("(a,m(c, n(d)), c)", 0) == Some((["a", "m(c, n(d))", " c"], 17))
  {
    var s := "(a,m(c, n(d)), c)";
    hide Pieces, Close, Cuts, Increasing, Read;
    ExampleRead(s);
    CloseIs(s, 0, 16);
    SeparatesComma(s, 0, 16);
    ExampleCuts(s);
    ExamplePieces(s);
    assert [0, 2, 13] + [16] == [0, 2, 13, 16];
  }

  lemma ExampleRead(s: string)
    requires s == "(a,m(c, n(d)), c)"
    ensures forall i :: 0 <= i <= 16 ==>
              var depth := if i == 0 then 0 else if i <= 4 || i >= 13 then 1 else if i <= 9 || i == 12 then 2 else 3;
              Read(s, 0, i) == Reading(depth, false)
  {
    hide Read;
    ExampleFront(s);
    ReadOne(s, 8); ReadOne(s, 9); ReadOne(s, 10); ReadOne(s, 11);
    ReadOne(s, 12); ReadOne(s, 13); ReadOne(s, 14); ReadOne(s, 15);
  }

  lemma ExampleFront(s: string)
    requires s == "(a,m(c, n(d)), c)"
    ensures forall i :: 0 <= i <= 8 ==>
              Read(s, 0, i) == Reading(if i == 0 then 0 else if i <= 4 then 1 else 2, false)
  {
    hide Read;
    ReadOne(s, 0); ReadOne(s, 1); ReadOne(s, 2); ReadOne(s, 3);
    ReadOne(s, 4); ReadOne(s, 5); ReadOne(s, 6); ReadOne(s, 7);
  }

  lemma ReadOne(s: string, i: nat)
    requires i < |s|
    ensures Read(s, 0, i + 1) == Next(Read(s, 0, i), s[i]) && Read(s, 0, 0) == Reading(0, false)
  {
  }

  lemma ExampleCuts(s: string)
    requires |s| == 17 && Separates(s, 0, 2) && Separates(s, 0, 13)
    requires forall i :: 0 < i < 16 && i != 2 && i != 13 ==> !Separates(s, 0, i)
    ensures Cuts(s, 0, 16) == [0, 2, 13]
  {
    assert Cuts(s, 0, 1) == Cuts(s, 0, 2) == [0];
    assert Cuts(s, 0, 3) == [0, 2];
    assert Cuts(s, 0, 4) == Cuts(s, 0, 5) == Cuts(s, 0, 6) == Cuts(s, 0, 7) == Cuts(s, 0, 8) == [0, 2];
    assert Cuts(s, 0, 9) == Cuts(s, 0, 10) == Cuts(s, 0, 11) == Cuts(s, 0, 12) == Cuts(s, 0, 13) == [0, 2];
    assert Cuts(s, 0, 14) == Cuts(s, 0, 15) == [0, 2, 13];
  }

  lemma ExamplePieces(s: string)
    requires s == "(a,m(c, n(d)), c)"
    ensures Increasing(|s|, [0, 2, 13, 16]) && Pieces(s, [0, 2, 13, 16]) == ["a", "m(c, n(d))", " c"]
  {
    var p := Pieces(s, [0, 2, 13, 16]);
    FirstPiece(s);
    SecondPiece(s);
    ThirdPiece(s);
    assert p == [p[0], p[1], p[2]];
  }

  lemma FirstPiece(s: string)
    requires s == "(a,m(c, n(d)), c)"
    ensures s[1..2] == "a"
  {
  }

  lemma SecondPiece(s: string)
    requires s == "(a,m(c, n(d)), c)"
    ensures s[3..13] == "m(c, n(d))"
  {
    assert s == "(a," + "m(c, n(d))" + ", c)";
    Middle("(a,", "m(c, n(d))", ", c)");
  }

  lemma ThirdPiece(s: string)
    requires s == "(a,m(c, n(d)), c)"
    ensures s[14..16] == " c"
  {
  }

  lemma Middle(a: string, b: string, c: string)
    ensures (a + b + c)[|a|..|a| + |b|] == b
  {
  }
}
