// Quotes after a backslash in the arguments of a call.  The code compares the
// character before a quote with a string of two, which it never equals, and so
// does not do what the comparison is there for.

module MacroQuotes {
  import opened Options
  import opened MacroArgs

  predicate EscapedQuote(s: string, i: nat) {
    0 < i < |s| && s[i] == '"' && s[i - 1] == '\\'
  }

  // The text as it was meant to be read: a quote directly after a backslash is a
  // character like any other.
  function Masked(s: string): (m: string)
    ensures |m| == |s| && forall i :: 0 <= i < |s| ==> m[i] == if EscapedQuote(s, i) then 'x' else s[i]
  {
    seq(|s|, i requires 0 <= i < |s| => if EscapedQuote(s, i) then 'x' else s[i])
  }

  function IntendedArgs(s: string, pos: nat): Option<(seq<string>, nat)> {
    var m := Masked(s);
    if pos < |s| && s[pos] == '(' && Close(m, pos, pos) < |s| then
      var e := Close(m, pos, pos);
      SeparatesComma(m, pos, e);
      Some((Pieces(s, Cuts(m, pos, e) + [e]), e + 1))
    else None
  }

  // On ("\"",b) the code sees an open quote at the end, and so no call at all.
  lemma BackslashExample()
    ensures var s := "(\"\\\"\",b)"; Args(s, 0) == None && IntendedArgs(s, 0) == Some((["\"\\\"\"", "b"], 8))
  {
    hide Pieces, Close, Cuts, Increasing;
    var s := "(\"\\\"\",b)";
    var m := Masked(s);
    assert Read(s, 0, 1) == Reading(1, false) && Read(s, 0, 2) == Read(s, 0, 3) == Reading(1, true);
    assert Read(s, 0, 4) == Reading(1, false) && Read(s, 0, 5) == Read(s, 0, 6) == Read(s, 0, 7) == Reading(1, true);
    Unclosed(s, 0);
    assert Read(m, 0, 1) == Reading(1, false) && Read(m, 0, 2) == Read(m, 0, 3) == Read(m, 0, 4) == Reading(1, true);
    assert Read(m, 0, 5) == Read(m, 0, 6) == Read(m, 0, 7) == Reading(1, false);
    CloseIs(m, 0, 7);
    ExampleCuts(m);
    SeparatesComma(m, 0, 7);
    assert [0, 5] + [7] == [0, 5, 7];
    ExamplePieces(s);
    assert s[1..5] == "\"\\\"\"" && s[6..7] == "b";
  }

  lemma ExamplePieces(s: string)
    requires |s| == 8
    ensures Increasing(|s|, [0, 5, 7]) && Pieces(s, [0, 5, 7]) == [s[1..5], s[6..7]]
  {
    var p := Pieces(s, [0, 5, 7]);
    assert p[0] == s[1..5] && p[1] == s[6..7];
  }

  lemma ExampleCuts(m: string)
    requires |m| == 8 && Separates(m, 0, 5) && forall i :: 0 < i < 7 && i != 5 ==> !Separates(m, 0, i)
    ensures Cuts(m, 0, 7) == [0, 5]
  {
    assert Cuts(m, 0, 1) == Cuts(m, 0, 2) == Cuts(m, 0, 3) == Cuts(m, 0, 4) == Cuts(m, 0, 5) == [0];
    assert Cuts(m, 0, 6) == [0, 5];
  }

  // How many quotes of s[pos..i] stand after a backslash.
  function EscapedCount(s: string, pos: nat, i: nat): nat
    requires pos <= i <= |s|
    decreases i - pos
  {
    if i == pos then 0 else EscapedCount(s, pos, i - 1) + if EscapedQuote(s, i - 1) then 1 else 0
  }

  // The two readings differ in whether they are inside quotes exactly after an
  // odd number of such quotes.
  lemma {:induction false} QuotedDiffers(s: string, pos: nat, i: nat)
    requires pos <= i <= |s|
    ensures Read(s, pos, i).quoted != Read(Masked(s), pos, i).quoted <==> EscapedCount(s, pos, i) % 2 == 1
    decreases i - pos
  {
    if i > pos {
      QuotedDiffers(s, pos, i - 1);
    }
  }

  // They agree all along s[pos..k] exactly if no quote there stands after a backslash.
  lemma {:induction false} ReadingsAgree(s: string, pos: nat, k: nat)
    requires pos <= k <= |s|
    ensures (forall i :: pos <= i <= k ==> Read(s, pos, i) == Read(Masked(s), pos, i))
       <==> forall i :: pos <= i < k ==> !EscapedQuote(s, i)
    decreases k - pos
  {
    if k > pos {
      ReadingsAgree(s, pos, k - 1);
      assert Read(s, pos, k) == Next(Read(s, pos, k - 1), s[k - 1]);
      assert Read(Masked(s), pos, k) == Next(Read(Masked(s), pos, k - 1), Masked(s)[k - 1]);
    }
  }

  predicate Structural(c: char) { c == '(' || c == ')' || c == ',' }

  // No parenthesis or comma of s[pos..k] comes after an odd number of escaped quotes.
  ghost predicate Unaffected(s: string, pos: nat, k: nat)
    requires pos <= k <= |s|
  {
    forall i :: pos <= i < k && Structural(s[i]) ==> EscapedCount(s, pos, i) % 2 == 0
  }

  lemma {:induction false} DepthsAgree(s: string, pos: nat, k: nat, i: nat)
    requires pos <= i <= k <= |s| && Unaffected(s, pos, k)
    ensures Read(s, pos, i).depth == Read(Masked(s), pos, i).depth
    decreases i - pos
  {
    if i > pos {
      DepthsAgree(s, pos, k, i - 1);
      QuotedDiffers(s, pos, i - 1);
    }
  }

  lemma CallsAgree(s: string, pos: nat, k: nat, i: nat)
    requires pos <= i < k <= |s| && Unaffected(s, pos, k)
    ensures Closes(s, pos, i) <==> Closes(Masked(s), pos, i)
    ensures Separates(s, pos, i) <==> Separates(Masked(s), pos, i)
  {
    DepthsAgree(s, pos, k, i);
    QuotedDiffers(s, pos, i);
  }

  // The arguments found are the intended ones exactly if both readings close the
  // call at the same place, or neither does, and see the same commas in it.
  lemma AgreeIff(s: string, pos: nat)
    requires pos < |s| && s[pos] == '('
    ensures Args(s, pos) == IntendedArgs(s, pos) <==> SeenAlike(s, Masked(s), pos, Close(s, pos, pos))
  {
    hide Args, IntendedArgs, Closes, Cuts, Close, Pieces, Increasing, SameCommas, Masked;
    var m, e := Masked(s), Close(s, pos, pos);
    ArgsFound(s, pos);
    IntendedFound(s, pos);
    if e < |s| && Close(m, pos, pos) == e {
      BothClosed(s, m, pos, e);
    }
  }

  lemma ArgsFound(s: string, pos: nat)
    requires pos < |s| && s[pos] == '('
    ensures var e := Close(s, pos, pos);
            if e == |s| then Args(s, pos) == None
            else pos < e && Closes(s, pos, e) && Increasing(|s|, Cuts(s, pos, e) + [e])
                 && Args(s, pos) == Some((Pieces(s, Cuts(s, pos, e) + [e]), e + 1))
  {
    hide Closes, Cuts, Close, Pieces, Increasing, Separates;
    var e := Close(s, pos, pos);
    if e < |s| { SeparatesComma(s, pos, e); }
  }

  lemma IntendedFound(s: string, pos: nat)
    requires pos < |s| && s[pos] == '('
    ensures var m := Masked(s);
            var e := Close(m, pos, pos);
            |m| == |s| && m[pos] == '('
            && if e == |s| then IntendedArgs(s, pos) == None
               else pos < e && Closes(m, pos, e) && Increasing(|s|, Cuts(m, pos, e) + [e])
                    && IntendedArgs(s, pos) == Some((Pieces(s, Cuts(m, pos, e) + [e]), e + 1))
  {
    hide Closes, Cuts, Close, Pieces, Increasing, Separates;
    var m := Masked(s);
    var e := Close(m, pos, pos);
    if e < |s| { SeparatesComma(m, pos, e); }
  }

  lemma BothClosed(s: string, m: string, pos: nat, e: nat)
    requires pos < |s| == |m| && s[pos] == m[pos] == '(' && pos <= e < |s| && Closes(s, pos, e) && Closes(m, pos, e)
    ensures pos < e && Increasing(|s|, Cuts(s, pos, e) + [e]) && Increasing(|s|, Cuts(m, pos, e) + [e])
    ensures Pieces(s, Cuts(s, pos, e) + [e]) == Pieces(s, Cuts(m, pos, e) + [e]) <==> SameCommas(s, m, pos, e)
  {
    hide Closes, Cuts, Pieces, Increasing, SameCommas;
    SeparatesComma(s, pos, e);
    SeparatesComma(m, pos, e);
    PiecesDecide(s, m, pos, e);
  }

  // The call that ends at e for one reader does for the other, and has the same commas.
  ghost predicate SeenAlike(s: string, m: string, pos: nat, e: nat)
    requires pos <= e <= |s| == |m|
  {
    Close(m, pos, pos) == e && (e < |s| ==> SameCommas(s, m, pos, e))
  }

  ghost predicate SameCommas(s: string, m: string, pos: nat, e: nat)
    requires pos <= e <= |s| == |m|
  {
    forall i :: pos < i < e ==> (Separates(s, pos, i) <==> Separates(m, pos, i))
  }

  lemma PiecesDecide(s: string, m: string, pos: nat, e: nat)
    requires pos < e < |s| == |m| && Increasing(|s|, Cuts(s, pos, e) + [e]) && Increasing(|s|, Cuts(m, pos, e) + [e])
    ensures Pieces(s, Cuts(s, pos, e) + [e]) == Pieces(s, Cuts(m, pos, e) + [e]) <==> SameCommas(s, m, pos, e)
  {
    hide Pieces, Increasing, SameCommas, Cuts;
    var c, d := Cuts(s, pos, e), Cuts(m, pos, e);
    CutsStart(s, pos, e);
    CutsStart(m, pos, e);
    if Pieces(s, c + [e]) == Pieces(s, d + [e]) {
      CutsFromPieces(s, c + [e], d + [e], |c|);
      assert c == (c + [e])[..|c|] && d == (d + [e])[..|d|];
      SameSeparators(s, m, pos, e);
    } else if SameCommas(s, m, pos, e) {
      SameCuts(s, m, pos, e);
    }
  }

  lemma CutsStart(s: string, pos: nat, e: nat)
    requires pos < e <= |s|
    ensures |Cuts(s, pos, e)| > 0 && Cuts(s, pos, e)[0] == pos
  {
    hide Separates;
    CutsMean(s, pos, e);
  }

  lemma {:induction false} SameCuts(s: string, m: string, pos: nat, i: nat)
    requires pos < i <= |s| == |m| && SameCommas(s, m, pos, i)
    ensures Cuts(s, pos, i) == Cuts(m, pos, i)
    decreases i
  {
    if i > pos + 1 {
      SameCuts(s, m, pos, i - 1);
    }
  }

  lemma SameSeparators(s: string, m: string, pos: nat, e: nat)
    requires pos < e <= |s| == |m| && Cuts(s, pos, e) == Cuts(m, pos, e)
    ensures SameCommas(s, m, pos, e)
  {
    hide Separates, Cuts;
    CutsMean(s, pos, e);
    CutsMean(m, pos, e);
    forall i | pos < i < e
      ensures Separates(s, pos, i) <==> Separates(m, pos, i)
    {
      assert Separates(s, pos, i) ==> i in Cuts(s, pos, e);
      assert Separates(m, pos, i) ==> i in Cuts(m, pos, e);
    }
  }

  lemma {:induction false} CutsFromPieces(s: string, c: seq<nat>, d: seq<nat>, k: nat)
    requires Increasing(|s|, c) && Increasing(|s|, d) && c[0] == d[0] && Pieces(s, c) == Pieces(s, d) && k < |c|
    ensures |c| == |d| && c[..k + 1] == d[..k + 1]
  {
    hide Pieces, Increasing;
    PieceLength(s, c, k);
    PieceLength(s, d, k);
    if k > 0 {
      CutsFromPieces(s, c, d, k - 1);
      assert c[k - 1] == c[..k][k - 1] && d[k - 1] == d[..k][k - 1];
      assert c[..k + 1] == c[..k] + [c[k]] && d[..k + 1] == d[..k] + [d[k]];
    }
  }

  lemma PieceLength(s: string, c: seq<nat>, k: nat)
    requires Increasing(|s|, c)
    ensures |c| == |Pieces(s, c)| + 1
    ensures 0 < k < |c| ==> |Pieces(s, c)[k - 1]| == c[k] - c[k - 1] - 1
  {
  }

  // In particular where no parenthesis or comma follows an odd number of escaped
  // quotes in the text that is read, and so where there are none.
  lemma IntendedWhenUnaffected(s: string, pos: nat)
    requires pos < |s| && s[pos] == '('
    requires var e := Close(s, pos, pos); Unaffected(s, pos, if e < |s| then e + 1 else e)
    ensures Args(s, pos) == IntendedArgs(s, pos)
  {
    hide Closes, Separates, Unaffected;
    var m, e := Masked(s), Close(s, pos, pos);
    var k := if e < |s| then e + 1 else e;
    forall i | pos <= i < k
      ensures Closes(s, pos, i) <==> Closes(m, pos, i)
      ensures Separates(s, pos, i) <==> Separates(m, pos, i)
    {
      CallsAgree(s, pos, k, i);
    }
    if e < |s| {
      CloseIs(m, pos, e);
    } else {
      Unclosed(m, pos);
    }
    AgreeIff(s, pos);
  }

  lemma {:induction false} NoneEscaped(s: string, pos: nat, k: nat)
    requires pos <= k <= |s| && forall i :: pos <= i < k ==> !EscapedQuote(s, i)
    ensures Unaffected(s, pos, k) && EscapedCount(s, pos, k) == 0
    decreases k
  {
    if k > pos {
      NoneEscaped(s, pos, k - 1);
    }
  }

  // With no quote after a backslash in the text that is read, the code does what
  // it was meant to.
  lemma IntendedWithoutEscapes(s: string, pos: nat)
    requires pos < |s| && s[pos] == '(' && forall i :: pos <= i < Close(s, pos, pos) ==> !EscapedQuote(s, i)
    ensures Args(s, pos) == IntendedArgs(s, pos)
  {
    var e := Close(s, pos, pos);
    NoneEscaped(s, pos, if e < |s| then e + 1 else e);
    IntendedWhenUnaffected(s, pos);
  }
}
