// Reading macro expressions: symbols and the arguments of a call.

module MacroArgs {
  import opened Options

  predicate IsWord(c: char) {
    'a' <= c <= 'z' || 'A' <= c <= 'Z' || '0' <= c <= '9' || c == '_'
  }

  predicate IsSpace(c: char) {
    c == ' ' || '\t' <= c <= '\r'
  }

  // The first position from i on whose character is a word character, or is not.
  function Find(s: string, i: nat, word: bool): (j: nat)
    requires i <= |s|
    ensures i <= j <= |s| && (j < |s| ==> IsWord(s[j]) == word)
    ensures forall k :: i <= k < j ==> IsWord(s[k]) != word
    decreases |s| - i
  {
    if i == |s| || IsWord(s[i]) == word then i else Find(s, i + 1, word)
  }

  // ---- The arguments of a call ----

  // How deep in parentheses a reader is, and whether inside double quotes.
  datatype Reading = Reading(depth: int, quoted: bool)

  function Next(r: Reading, c: char): Reading {
    if c == '"' then r.(quoted := !r.quoted)
    else if r.quoted then r
    else if c == '(' then r.(depth := r.depth + 1)
    else if c == ')' then r.(depth := r.depth - 1)
    else r
  }

  // After reading s[pos..i].
  function Read(s: string, pos: nat, i: nat): Reading
    requires pos <= i <= |s|
    decreases i - pos
  {
    if i == pos then Reading(0, false) else Next(Read(s, pos, i - 1), s[i - 1])
  }

  // The parenthesis at i closes the one at pos.
  predicate Closes(s: string, pos: nat, i: nat)
    requires pos <= i <= |s|
  {
    i < |s| && s[i] == ')' && Read(s, pos, i) == Reading(1, false)
  }

  // The comma at i separates two arguments of the call opened at pos.
  predicate Separates(s: string, pos: nat, i: nat)
    requires pos <= i <= |s|
  {
    i < |s| && s[i] == ',' && Read(s, pos, i) == Reading(1, false)
  }

  function Close(s: string, pos: nat, i: nat): (e: nat)
    requires pos <= i <= |s|
    ensures i <= e <= |s| && (e < |s| ==> Closes(s, pos, e))
    ensures forall k :: i <= k < e ==> !Closes(s, pos, k)
    decreases |s| - i
  {
    if i == |s| || Closes(s, pos, i) then i else Close(s, pos, i + 1)
  }

  // The opening parenthesis and the separating commas before i.
  function Cuts(s: string, pos: nat, i: nat): seq<nat>
    requires pos < i <= |s|
    decreases i - pos
  {
    if i == pos + 1 then [pos]
    else Cuts(s, pos, i - 1) + if Separates(s, pos, i - 1) then [i - 1] else []
  }

  lemma {:induction false} CutsMean(s: string, pos: nat, i: nat)
    requires pos < i <= |s|
    ensures var c := Cuts(s, pos, i);
            && c != [] && c[0] == pos && (forall k :: 0 < k < |c| ==> pos < c[k] < i && Separates(s, pos, c[k]))
            && (forall j, k :: 0 <= j < k < |c| ==> c[j] < c[k])
            && forall k :: pos < k < i && Separates(s, pos, k) ==> k in c
    decreases i - pos
  {
    hide Separates;
    if i > pos + 1 {
      CutsMean(s, pos, i - 1);
    }
  }

  ghost predicate Increasing(n: nat, c: seq<nat>) {
    c != [] && (forall j, k :: 0 <= j < k < |c| ==> c[j] < c[k]) && forall k :: 0 <= k < |c| ==> c[k] < n
  }

  // What lies between consecutive cuts.
  function Pieces(s: string, c: seq<nat>): (p: seq<string>)
    requires Increasing(|s|, c)
    ensures |p| == |c| - 1 && forall k :: 0 <= k < |p| ==> p[k] == s[c[k] + 1..c[k + 1]]
  {
    seq(|c| - 1, k requires 0 <= k < |c| - 1 => s[c[k] + 1..c[k + 1]])
  }

  lemma SeparatesComma(s: string, pos: nat, e: nat)
    requires pos < |s| && s[pos] == '(' && pos <= e < |s| && Closes(s, pos, e)
    ensures e > pos && s[e] == ')' && Increasing(|s|, Cuts(s, pos, e) + [e])
    ensures var c := Cuts(s, pos, e);
            c != [] && c[0] == pos && forall k :: 0 < k < |c| ==> pos < c[k] < e && s[c[k]] == ','
  {
    hide Cuts;
    CutsMean(s, pos, e);
  }

  // The arguments, and the position after the call; nothing if s[pos..] does
  // not start with a parenthesis that is closed.
  function Args(s: string, pos: nat): (r: Option<(seq<string>, nat)>)
    ensures r.Some? ==> pos + 1 < r.value.1 <= |s| && forall a :: a in r.value.0 ==> |a| < |s| - pos
  {
    if pos < |s| && s[pos] == '(' && Close(s, pos, pos) < |s| then
      var e := Close(s, pos, pos);
      SeparatesComma(s, pos, e);
      Some((Pieces(s, Cuts(s, pos, e) + [e]), e + 1))
    else None
  }

  function Join(args: seq<string>): string {
    if args == [] then "" else if |args| == 1 then args[0] else Join(args[..|args| - 1]) + "," + args[|args| - 1]
  }

  lemma {:induction false} JoinPieces(s: string, c: seq<nat>)
    requires Increasing(|s|, c) && |c| > 1 && forall k :: 0 < k < |c| - 1 ==> s[c[k]] == ','
    ensures Join(Pieces(s, c)) == s[c[0] + 1..c[|c| - 1]]
  {
    hide Increasing, Pieces;
    var n := |c|;
    Shorter(s, c);
    LastPiece(s, c);
    if n > 2 {
      JoinPieces(s, c[..n - 1]);
      JoinTexts(s, c[0] + 1, c[n - 2], c[n - 1]);
    }
  }

  lemma JoinTexts(s: string, a: nat, b: nat, c: nat)
    requires a <= b < c <= |s| && s[b] == ','
    ensures s[a..b] + "," + s[b + 1..c] == s[a..c]
  {
  }

  lemma Shorter(s: string, c: seq<nat>)
    requires Increasing(|s|, c) && |c| > 1
    ensures Increasing(|s|, c[..|c| - 1]) && c[0] < c[|c| - 1] < |s| && c[|c| - 2] < c[|c| - 1]
    ensures |c| > 2 ==> c[0] < c[|c| - 2]
  {
  }

  lemma LastPiece(s: string, c: seq<nat>)
    requires Increasing(|s|, c) && |c| > 1 && Increasing(|s|, c[..|c| - 1])
    ensures c[|c| - 2] < c[|c| - 1] < |s| && Pieces(s, c) == Pieces(s, c[..|c| - 1]) + [s[c[|c| - 2] + 1..c[|c| - 1]]]
  {
    var p, q := Pieces(s, c), Pieces(s, c[..|c| - 1]);
    forall k | 0 <= k < |q|
      ensures p[k] == q[k]
    {
    }
    assert p == p[..|q|] + [p[|q|]] && p[..|q|] == q;
  }

  // The arguments with their commas and parentheses are the text of the call,
  // and the call ends where its parenthesis is first closed.
  lemma ArgsAreText(s: string, pos: nat)
    requires Args(s, pos).Some?
    ensures var (args, end) := Args(s, pos).value;
            && "(" + Join(args) + ")" == s[pos..end] && Closes(s, pos, end - 1)
            && (forall i :: pos <= i < end - 1 ==> !Closes(s, pos, i))
            && |args| == |Cuts(s, pos, end - 1)|
  {
    hide Pieces, Closes, Separates, Join;
    var e := Close(s, pos, pos);
    SeparatesComma(s, pos, e);
    JoinPieces(s, Cuts(s, pos, e) + [e]);
    assert s[pos..e + 1] == [s[pos]] + s[pos + 1..e] + [s[e]];
  }

  lemma CloseIs(s: string, pos: nat, e: nat)
    requires pos <= e < |s| && Closes(s, pos, e) && forall k :: pos <= k < e ==> !Closes(s, pos, k)
    ensures Close(s, pos, pos) == e
  {
  }

  lemma Unclosed(s: string, pos: nat)
    requires pos <= |s| && forall k :: pos <= k < |s| ==> !Closes(s, pos, k)
    ensures Close(s, pos, pos) == |s|
  {
  }

  // What the character before a quote is compared with: never equal to it.
  const TWO_BACKSLASHES: string := "\\\\"

  lemma NoCall(s: string, pos: nat)
    requires pos < |s| && s[pos] == '(' ==> forall k :: pos <= k < |s| ==> !Closes(s, pos, k)
    ensures Args(s, pos) == None
  {
    hide Closes, Pieces, Cuts;
    if pos < |s| && s[pos] == '(' { Unclosed(s, pos); }
  }

  lemma CallIs(s: string, pos: nat, e: nat)
    requires pos < |s| && s[pos] == '(' && pos <= e < |s| && Closes(s, pos, e)
             && forall k :: pos <= k < e ==> !Closes(s, pos, k)
    ensures pos < e && Increasing(|s|, Cuts(s, pos, e) + [e])
    ensures Args(s, pos) == Some((Pieces(s, Cuts(s, pos, e) + [e]), e + 1))
  {
    hide Closes, Pieces, Cuts;
    CloseIs(s, pos, e);
    SeparatesComma(s, pos, e);
  }

  lemma NextCut(s: string, pos: nat, i: nat)
    requires pos <= i < |s| && (i == pos ==> s[i] == '(')
    ensures Cuts(s, pos, i + 1) == (if i == pos then [pos] else Cuts(s, pos, i))
            + if Separates(s, pos, i) then [i] else []
  {
  }

  // _ParseArgs
  method ParseArgs(s: string, pos: nat) returns (args: Option<seq<string>>, end: nat)
    ensures args == (if Args(s, pos).Some? then Some(Args(s, pos).value.0) else None)
    ensures end == if Args(s, pos).Some? then Args(s, pos).value.1 else pos
  {
    hide Args, Cuts, Pieces, Increasing;
    if !(pos < |s| && s[pos] == '(') {
      NoCall(s, pos);
      return None, pos;
    }
    var depth, quoted, commas := 0, false, [pos];
    var closed: Option<nat> := None;
    var i := pos;
    while i < |s|
      invariant pos <= i <= |s| && Read(s, pos, i) == Reading(depth, quoted)
      invariant commas == if i == pos then [pos] else Cuts(s, pos, i)
      invariant forall k :: pos <= k < i ==> !Closes(s, pos, k)
      invariant closed.None? && (i > pos ==> depth > 0) && (i == pos ==> depth == 0 && !quoted)
    {
      NextCut(s, pos, i);
      if quoted {
        if s[i] == '"' && [s[i - 1]] != TWO_BACKSLASHES { quoted := false; }
      } else if s[i] == ',' && depth == 1 {
        commas := commas + [i];
      } else if s[i] == '(' {
        depth := depth + 1;
      } else if s[i] == ')' {
        depth := depth - 1;
        if depth == 0 {
          closed := Some(i);
          break;
        }
      } else if s[i] == '"' && [s[i - 1]] != TWO_BACKSLASHES {
        quoted := true;
      }
      i := i + 1;
    }
    if closed.None? {
      NoCall(s, pos);
      return None, pos;
    }
    CallIs(s, pos, i);
    var list := CutUp(s, commas + [i]);
    return Some(list), i + 1;
  }

  method CutUp(s: string, commas: seq<nat>) returns (list: seq<string>)
    requires Increasing(|s|, commas)
    ensures list == Pieces(s, commas)
  {
    list := [];
    for i := 0 to |commas| - 1
      invariant |list| == i && forall k :: 0 <= k < i ==> list[k] == s[commas[k] + 1..commas[k + 1]]
    {
      list := list + [s[commas[i] + 1..commas[i + 1]]];
    }
  }

  // ---- Calls further on in a text ----

  lemma {:induction false} ReadLater(s: string, n: nat, pos: nat, i: nat)
    requires n <= pos <= i <= |s|
    ensures Read(s[n..], pos - n, i - n) == Read(s, pos, i)
    decreases i
  {
    if i > pos {
      ReadLater(s, n, pos, i - 1);
    }
  }

  lemma SeenLater(s: string, n: nat, pos: nat, i: nat)
    requires n <= pos <= i <= |s|
    ensures Closes(s[n..], pos - n, i - n) <==> Closes(s, pos, i)
    ensures Separates(s[n..], pos - n, i - n) <==> Separates(s, pos, i)
  {
    ReadLater(s, n, pos, i);
  }

  lemma {:induction false} CloseLater(s: string, n: nat, pos: nat, i: nat)
    requires n <= pos <= i <= |s|
    ensures Close(s[n..], pos - n, i - n) == Close(s, pos, i) - n
    decreases |s| - i
  {
    hide Closes;
    SeenLater(s, n, pos, i);
    if i < |s| {
      CloseLater(s, n, pos, i + 1);
    }
  }

  function Shifted(c: seq<nat>, n: nat): (d: seq<nat>)
    requires forall k :: 0 <= k < |c| ==> c[k] >= n
    ensures |d| == |c| && forall k :: 0 <= k < |c| ==> d[k] == c[k] - n
  {
    seq(|c|, k requires 0 <= k < |c| => c[k] - n)
  }

  lemma {:induction false} CutsLater(s: string, n: nat, pos: nat, i: nat)
    requires n <= pos < i <= |s|
    ensures forall k :: 0 <= k < |Cuts(s, pos, i)| ==> Cuts(s, pos, i)[k] >= n
    ensures Cuts(s[n..], pos - n, i - n) == Shifted(Cuts(s, pos, i), n)
    decreases i
  {
    hide Separates, Shifted;
    if i > pos + 1 {
      SeenLater(s, n, pos, i - 1);
      CutsLater(s, n, pos, i - 1);
      ShiftedMore(Cuts(s, pos, i - 1), i - 1, n);
    } else {
      ShiftedMore([], pos, n);
    }
  }

  lemma ShiftedMore(c: seq<nat>, x: nat, n: nat)
    requires x >= n && forall k :: 0 <= k < |c| ==> c[k] >= n
    ensures Shifted(c + [x], n) == Shifted(c, n) + [x - n] && Shifted([], n) == []
  {
  }

  // A call has the same arguments however much text before it is dropped.
  lemma ArgsLater(s: string, n: nat, pos: nat)
    requires n <= pos <= |s|
    ensures Args(s[n..], pos - n) == match Args(s, pos)
              case None => None
              case Some((args, end)) => Some((args, end - n))
  {
    hide Closes, Separates, Pieces, Increasing, Cuts, Close;
    var t, e := s[n..], Close(s, pos, pos);
    CloseLater(s, n, pos, pos);
    if pos < |s| && s[pos] == '(' && e < |s| {
      SeparatesComma(s, pos, e);
      SeparatesComma(t, pos - n, e - n);
      CutsLater(s, n, pos, e);
      PiecesLater(s, n, Cuts(s, pos, e) + [e]);
      ShiftedMore(Cuts(s, pos, e), e, n);
    }
  }

  lemma PiecesLater(s: string, n: nat, c: seq<nat>)
    requires n <= |s| && Increasing(|s|, c) && forall k :: 0 <= k < |c| ==> c[k] >= n
    ensures Increasing(|s[n..]|, Shifted(c, n)) && Pieces(s[n..], Shifted(c, n)) == Pieces(s, c)
  {
    var d := Shifted(c, n);
    assert Increasing(|s[n..]|, d);
    forall k | 0 <= k < |c| - 1
      ensures Pieces(s[n..], d)[k] == Pieces(s, c)[k]
    {
      TextLater(s, n, c[k] + 1, c[k + 1]);
    }
  }

  lemma TextLater(s: string, n: nat, i: nat, j: nat)
    requires n <= i <= j <= |s|
    ensures s[n..][i - n..j - n] == s[i..j]
  {
  }
}
