// The evaluator invents nothing: every value of an expression is reached from it
// by replacing one macro at a time by one of its definitions.

module MacroSound {
  import opened Options
  import opened MacroArgs
  import opened MacroText
  import opened MacroEval

  // ---- Replacing one macro at a time ----

  // v is e with the symbol at e[i..j], and its arguments if it takes any, replaced
  // according to def.  Arguments may first be taken further themselves.
  ghost predicate Replacing(e: string, i: nat, j: nat, def: Definition, v: string, t: Table, n: nat)
    requires i <= j <= |e|
    decreases n, 2
  {
    match def
    case Object(rhs) => v == e[..i] + rhs + e[j..]
    case Function(ps, rhs) =>
      var call := Args(e, j);
      call.Some? && |call.value.0| == |ps| && exists args :: Calling(e, i, j, ps, rhs, args, v, t, n)
  }

  ghost predicate Calling(e: string, i: nat, j: nat, ps: seq<string>, rhs: string, args: seq<string>, v: string,
                          t: Table, n: nat)
    requires i <= j <= |e| && Args(e, j).Some? && |Args(e, j).value.0| == |ps|
    decreases n, 1
  {
    var (raw, end) := Args(e, j).value;
    && |args| == |ps| && (forall k :: 0 <= k < |ps| ==> DerivesIn(raw[k], args[k], t, n))
    && v == e[..i] + Massage(SubstituteAll(ps, args, rhs, |ps|)) + e[end..]
  }

  ghost predicate StepIn(e: string, v: string, t: Table, n: nat)
    decreases n, 4
  {
    exists i: nat, j: nat, def :: StepAt(e, i, j, def, v, t, n)
  }

  ghost predicate StepAt(e: string, i: nat, j: nat, def: Definition, v: string, t: Table, n: nat)
    decreases n, 3
  {
    SymbolAt(e, i, j) && e[i..j] in t && def in t[e[i..j]] && Replacing(e, i, j, def, v, t, n)
  }

  // At most n replacements, nested or one after another, take e to v.
  ghost predicate DerivesIn(e: string, v: string, t: Table, n: nat)
    decreases n, 0
  {
    v == e || (n > 0 && Goes(e, v, t, n - 1))
  }

  ghost predicate Goes(e: string, v: string, t: Table, n: nat)
    decreases n, 6
  {
    exists m :: Through(e, m, v, t, n)
  }

  ghost predicate Through(e: string, m: string, v: string, t: Table, n: nat)
    decreases n, 5
  {
    StepIn(e, m, t, n) && DerivesIn(m, v, t, n)
  }

  ghost predicate Derives(e: string, v: string, t: Table) {
    exists n: nat :: DerivesIn(e, v, t, n)
  }

  lemma {:induction false} CallingMore(e: string, i: nat, j: nat, ps: seq<string>, rhs: string, args: seq<string>,
                                       v: string, t: Table, n: nat, m: nat)
    requires i <= j <= |e| && Args(e, j).Some? && |Args(e, j).value.0| == |ps|
    requires Calling(e, i, j, ps, rhs, args, v, t, n) && n <= m
    ensures Calling(e, i, j, ps, rhs, args, v, t, m)
    decreases n, 1
  {
    hide DerivesIn, Args, Massage, SubstituteAll;
    var raw := Args(e, j).value.0;
    forall k | 0 <= k < |ps| ensures DerivesIn(raw[k], args[k], t, m) {
      DerivesMore(raw[k], args[k], t, n, m);
    }
  }

  lemma {:induction false} StepMore(e: string, v: string, t: Table, n: nat, m: nat)
    requires StepIn(e, v, t, n) && n <= m
    ensures StepIn(e, v, t, m)
    decreases n, 2
  {
    hide Calling, Args, SymbolAt;
    var i: nat, j: nat, def :| StepAt(e, i, j, def, v, t, n);
    SymbolBounds(e, i, j);
    assert Replacing(e, i, j, def, v, t, n);
    match def {
      case Object(_) =>
      case Function(ps, rhs) =>
        var args :| Calling(e, i, j, ps, rhs, args, v, t, n);
        CallingMore(e, i, j, ps, rhs, args, v, t, n, m);
    }
    assert Replacing(e, i, j, def, v, t, m);
    assert StepAt(e, i, j, def, v, t, m);
  }

  lemma SymbolBounds(e: string, i: nat, j: nat)
    requires SymbolAt(e, i, j)
    ensures i < j <= |e|
  {
  }

  lemma {:induction false} DerivesMore(e: string, v: string, t: Table, n: nat, m: nat)
    requires DerivesIn(e, v, t, n) && n <= m
    ensures DerivesIn(e, v, t, m)
    decreases n, 0
  {
    hide StepIn;
    if v != e {
      assert Goes(e, v, t, n - 1);
      var f :| Through(e, f, v, t, n - 1);
      assert Through(e, f, v, t, n - 1);
      StepMore(e, f, t, n - 1, m - 1);
      DerivesMore(f, v, t, n - 1, m - 1);
      assert Through(e, f, v, t, m - 1) && Goes(e, v, t, m - 1);
    }
  }

  lemma {:induction false} Onwards(e: string, f: string, v: string, t: Table, n: nat, m: nat)
    requires DerivesIn(e, f, t, n) && DerivesIn(f, v, t, m)
    ensures DerivesIn(e, v, t, n + m)
    decreases n
  {
    hide StepIn;
    if f == e {
      DerivesMore(e, v, t, m, n + m);
    } else {
      assert Goes(e, f, t, n - 1);
      var g :| Through(e, g, f, t, n - 1);
      assert Through(e, g, f, t, n - 1);
      Onwards(g, f, v, t, n - 1, m);
      StepMore(e, g, t, n - 1, n - 1 + m);
      assert Through(e, g, v, t, n - 1 + m) && Goes(e, v, t, n - 1 + m);
    }
  }

  lemma OneStep(e: string, v: string, t: Table, n: nat)
    requires StepIn(e, v, t, n)
    ensures DerivesIn(e, v, t, n + 1)
  {
    assert DerivesIn(v, v, t, n);
    assert Through(e, v, v, t, n) && Goes(e, v, t, n);
  }

  // ---- Text in front ----

  ghost predicate Separate(s: string) {
    s == "" || !IsWord(s[0])
  }

  // What stands before s does not run into a word at its start.
  ghost predicate Apart(before: string, s: string) {
    before == "" || !IsWord(before[|before| - 1]) || Separate(s)
  }

  lemma SymbolLater(before: string, s: string, i: nat, j: nat)
    requires SymbolAt(s, i, j) && Apart(before, s)
    ensures SymbolAt(before + s, |before| + i, |before| + j) && (before + s)[|before| + i..|before| + j] == s[i..j]
  {
    var e := before + s;
    assert forall k :: 0 <= k < |s| ==> e[|before| + k] == s[k];
    SliceOf(before, s, i, j);
  }

  lemma SliceOf(before: string, s: string, i: nat, j: nat)
    requires i <= j <= |s|
    ensures (before + s)[|before| + i..|before| + j] == s[i..j]
  {
  }

  lemma ArgsBehind(before: string, s: string, j: nat)
    requires j <= |s|
    ensures Args(before + s, |before| + j) == match Args(s, j)
              case None => None
              case Some((args, end)) => Some((args, |before| + end))
  {
    hide Args;
    assert (before + s)[|before|..] == s;
    ArgsLater(before + s, |before|, |before| + j);
  }

  lemma StepBehind(before: string, s: string, v: string, t: Table, n: nat)
    requires StepIn(s, v, t, n) && Apart(before, s)
    ensures StepIn(before + s, before + v, t, n) && Apart(before, v)
  {
    hide SymbolAt, Apart, Replacing;
    var i: nat, j: nat, def :| StepAt(s, i, j, def, v, t, n);
    SymbolBounds(s, i, j);
    SymbolLater(before, s, i, j);
    SymbolBounds(before + s, |before| + i, |before| + j);
    ReplacingBehind(before, s, i, j, def, v, t, n);
    assert StepAt(before + s, |before| + i, |before| + j, def, before + v, t, n);
    FrontStays(s, i, j, v, before);
  }

  lemma ReplacingBehind(before: string, s: string, i: nat, j: nat, def: Definition, v: string, t: Table, n: nat)
    requires i <= j <= |s| && Replacing(s, i, j, def, v, t, n)
    ensures Replacing(before + s, |before| + i, |before| + j, def, before + v, t, n)
    ensures i <= |v| && v[..i] == s[..i]
  {
    FrontAndRest(before, s, i);
    FrontAndRest(before, s, j);
    match def
    case Object(rhs) =>
      Joined3(before, s[..i], rhs, s[j..]);
    case Function(ps, rhs) =>
      CallingBehind(before, s, i, j, ps, rhs, v, t, n);
  }

  lemma FrontAndRest(before: string, s: string, i: nat)
    requires i <= |s|
    ensures (before + s)[..|before| + i] == before + s[..i] && (before + s)[|before| + i..] == s[i..]
  {
  }

  lemma CallingBehind(before: string, s: string, i: nat, j: nat, ps: seq<string>, rhs: string, v: string, t: Table,
                      n: nat)
    requires i <= j <= |s| && Replacing(s, i, j, Function(ps, rhs), v, t, n)
    ensures Replacing(before + s, |before| + i, |before| + j, Function(ps, rhs), before + v, t, n)
    ensures i <= |v| && v[..i] == s[..i]
  {
    hide Args, DerivesIn, Massage, SubstituteAll;
    ArgsBehind(before, s, j);
    EndFits(s, j);
    var args :| Calling(s, i, j, ps, rhs, args, v, t, n);
    var end := Args(s, j).value.1;
    FrontAndRest(before, s, i);
    FrontAndRest(before, s, end);
    Joined3(before, s[..i], Massage(SubstituteAll(ps, args, rhs, |ps|)), s[end..]);
    assert Calling(before + s, |before| + i, |before| + j, ps, rhs, args, before + v, t, n);
  }

  lemma Joined3(a: string, b: string, c: string, d: string)
    ensures a + (b + c + d) == a + b + c + d
  {
  }

  lemma EndFits(s: string, j: nat)
    requires Args(s, j).Some?
    ensures j < Args(s, j).value.1 <= |s| && j < |s| && s[j] == '(' && s[Args(s, j).value.1 - 1] == ')'
  {
    hide Cuts, Pieces, Increasing, Read;
    SeparatesComma(s, j, Close(s, j, j));
  }

  lemma FrontStays(s: string, i: nat, j: nat, v: string, before: string)
    requires SymbolAt(s, i, j) && Apart(before, s) && i <= |v| && v[..i] == s[..i]
    ensures Apart(before, v)
  {
    if Separate(s) {
      assert IsWord(s[i]);
      assert i > 0 && v[0] == v[..i][0] == s[0];
    }
  }

  lemma {:induction false} DerivesBehind(before: string, s: string, v: string, t: Table, n: nat)
    requires DerivesIn(s, v, t, n) && Apart(before, s)
    ensures DerivesIn(before + s, before + v, t, n) && Apart(before, v)
    decreases n
  {
    hide StepIn, Apart;
    if v != s {
      assert Goes(s, v, t, n - 1);
      var m :| Through(s, m, v, t, n - 1);
      assert Through(s, m, v, t, n - 1);
      StepBehind(before, s, m, t, n - 1);
      DerivesBehind(before, m, v, t, n - 1);
      assert Through(before + s, before + m, before + v, t, n - 1) && Goes(before + s, before + v, t, n - 1);
    }
  }

  // ---- Text behind ----

  lemma {:induction false} ReadFront(e: string, f: string, pos: nat, i: nat)
    requires pos <= i <= |e| && i <= |f| && e[..i] == f[..i]
    ensures Read(e, pos, i) == Read(f, pos, i)
    decreases i
  {
    if i > pos {
      assert e[..i - 1] == e[..i][..i - 1] && f[..i - 1] == f[..i][..i - 1];
      ReadFront(e, f, pos, i - 1);
      assert e[i - 1] == e[..i][i - 1] == f[..i][i - 1];
    }
  }

  lemma SeenFront(e: string, f: string, pos: nat, i: nat)
    requires pos <= i < |e| && i < |f| && e[..i + 1] == f[..i + 1]
    ensures Closes(e, pos, i) <==> Closes(f, pos, i)
    ensures Separates(e, pos, i) <==> Separates(f, pos, i)
  {
    assert e[..i] == e[..i + 1][..i] && f[..i] == f[..i + 1][..i] && e[i] == e[..i + 1][i] == f[..i + 1][i];
    ReadFront(e, f, pos, i);
  }

  lemma {:induction false} CutsFront(e: string, f: string, pos: nat, i: nat)
    requires pos < i <= |e| && i <= |f| && e[..i] == f[..i]
    ensures Cuts(e, pos, i) == Cuts(f, pos, i)
    decreases i
  {
    hide Separates;
    if i > pos + 1 {
      assert e[..i - 1] == e[..i][..i - 1] && f[..i - 1] == f[..i][..i - 1];
      CutsFront(e, f, pos, i - 1);
      SeenFront(e, f, pos, i - 1);
    }
  }

  // The arguments of a call do not depend on what follows it.
  lemma ArgsFront(e: string, f: string, pos: nat)
    requires Args(e, pos).Some? && Args(e, pos).value.1 <= |f|
    requires var end := Args(e, pos).value.1; e[..end] == f[..end]
    ensures Args(f, pos) == Args(e, pos)
  {
    hide Closes, Separates, Cuts, Pieces, Increasing;
    var end := Args(e, pos).value.1;
    var c := end - 1;
    forall k | pos <= k <= c
      ensures Closes(f, pos, k) <==> Closes(e, pos, k)
    {
      assert e[..k + 1] == e[..end][..k + 1] && f[..k + 1] == f[..end][..k + 1];
      SeenFront(e, f, pos, k);
    }
    CloseIs(f, pos, c);
    assert e[..c] == e[..end][..c] && f[..c] == f[..end][..c] && f[pos] == f[..end][pos] == e[pos];
    SeparatesComma(e, pos, c);
    SeparatesComma(f, pos, c);
    CutsFront(e, f, pos, c);
    PiecesFront(e, f, Cuts(e, pos, c) + [c], end);
  }

  lemma SliceFront(e: string, f: string, i: nat, j: nat, n: nat)
    requires i <= j <= n <= |e| && n <= |f| && e[..n] == f[..n]
    ensures e[i..j] == f[i..j]
  {
    assert e[i..j] == e[..n][i..j] && f[i..j] == f[..n][i..j];
  }

  lemma PiecesFront(e: string, f: string, c: seq<nat>, n: nat)
    requires n <= |e| && n <= |f| && e[..n] == f[..n] && Increasing(|e|, c) && Increasing(|f|, c) && c[|c| - 1] < n
    ensures Pieces(e, c) == Pieces(f, c)
  {
    forall k | 0 <= k < |c| - 1
      ensures Pieces(e, c)[k] == Pieces(f, c)[k]
    {
      assert c[k] < c[k + 1] <= c[|c| - 1];
      SliceFront(e, f, c[k] + 1, c[k + 1], n);
    }
  }

  // ---- Every value ----

  lemma {:induction false} SubstituteSame(ps: seq<string>, args: seq<string>, more: seq<string>, rhs: string, k: nat)
    requires k <= |ps| == |args| == |more| && args[..k] == more[..k]
    ensures SubstituteAll(ps, args, rhs, k) == SubstituteAll(ps, more, rhs, k)
  {
    hide Substitute;
    if k > 0 {
      assert args[..k - 1] == args[..k][..k - 1] && more[..k - 1] == more[..k][..k - 1];
      SubstituteSame(ps, args, more, rhs, k - 1);
      assert args[k - 1] == args[..k][k - 1] == more[..k][k - 1];
    }
  }

  // A body is the right-hand side with some value of each argument put in.
  lemma {:induction false} BodyParts(e: string, ps: seq<string>, raw: seq<string>, rhs: string, k: nat, t: Table,
                                     off: set<string>, b: string)
    returns (args: seq<string>)
    requires k <= |ps| == |raw| && (forall a :: a in raw ==> |a| < |e|) && b in Bodies(e, ps, raw, rhs, k, t, off)
    ensures |args| == |raw| && (forall m :: 0 <= m < |raw| ==> args[m] in Values(raw[m], t, off))
    ensures SubstituteAll(ps, args, rhs, k) == b
  {
    hide Values, Substitute;
    if k == 0 {
      args := raw;
      forall m | 0 <= m < |raw| ensures raw[m] in Values(raw[m], t, off) { OwnValue(raw[m], t, off); }
    } else {
      var c, a :| c in Bodies(e, ps, raw, rhs, k - 1, t, off) && a in Values(raw[k - 1], t, off)
                  && b == Substitute(ps[k - 1], a, c);
      var front := BodyParts(e, ps, raw, rhs, k - 1, t, off, c);
      args := front[k - 1 := a];
      assert args[..k - 1] == front[..k - 1];
      SubstituteSame(ps, front, args, rhs, k - 1);
    }
  }

  lemma OwnValue(e: string, t: Table, off: set<string>)
    ensures e in Values(e, t, off)
  {
  }

  lemma {:induction false} ArgumentsDerive(e: string, raw: seq<string>, args: seq<string>, t: Table, off: set<string>,
                                           k: nat) returns (n: nat)
    requires k <= |raw| == |args| && (forall a :: a in raw ==> |a| < |e|)
    requires forall m :: 0 <= m < |raw| ==> args[m] in Values(raw[m], t, off)
    ensures forall m :: 0 <= m < k ==> DerivesIn(raw[m], args[m], t, n)
    decreases |t.Keys - off|, |e|, 0, k
  {
    hide Values, DerivesIn;
    n := 0;
    if k > 0 {
      var n1 := ArgumentsDerive(e, raw, args, t, off, k - 1);
      assert raw[k - 1] in raw;
      var n2 := ValueDerives(raw[k - 1], t, off, args[k - 1]);
      n := n1 + n2;
      forall m | 0 <= m < k ensures DerivesIn(raw[m], args[m], t, n) {
        DerivesMore(raw[m], args[m], t, if m < k - 1 then n1 else n2, n);
      }
    }
  }

  lemma {:induction false} ValueDerives(e: string, t: Table, off: set<string>, v: string) returns (n: nat)
    requires v in Values(e, t, off)
    ensures DerivesIn(e, v, t, n)
    decreases |t.Keys - off|, |e|, 2
  {
    hide Uses, DerivesIn, SymbolAt;
    n := 0;
    var i := Find(e, 0, true);
    if v == e {
      NoStep(e, t);
    } else {
      var j := Find(e, i, false);
      assert j > i;
      if e[i..j] !in t {
        n := RestDerives(e, i, j, t, off, v);
      } else {
        var k: nat :| k < |t[e[i..j]]| && v in Uses(e, i, j, t[e[i..j]][k], t, off);
        n := UseDerives(e, i, j, t[e[i..j]][k], t, off, v);
      }
    }
  }

  lemma NoStep(e: string, t: Table)
    ensures DerivesIn(e, e, t, 0)
  {
  }

  // The first symbol stays.
  lemma {:induction false} RestDerives(e: string, i: nat, j: nat, t: Table, off: set<string>, v: string)
    returns (n: nat)
    requires i == Find(e, 0, true) < |e| && j == Find(e, i, false) && i < j
    requires v in Prepend(e[..j], Values(e[j..], t, off))
    ensures DerivesIn(e, v, t, n)
    decreases |t.Keys - off|, |e|, 0
  {
    hide Values, DerivesIn;
    var w :| w in Values(e[j..], t, off) && v == e[..j] + w;
    n := ValueDerives(e[j..], t, off, w);
    DerivesBehind(e[..j], e[j..], w, t, n);
    assert e[..j] + e[j..] == e;
  }

  lemma {:induction false} UseDerives(e: string, i: nat, j: nat, def: Definition, t: Table, off: set<string>, v: string)
    returns (n: nat)
    requires i == Find(e, 0, true) < |e| && j == Find(e, i, false) && i < j
    requires e[i..j] in t && e[i..j] !in off && def in t[e[i..j]] && v in Uses(e, i, j, def, t, off)
    ensures DerivesIn(e, v, t, n)
    decreases |t.Keys - off|, |e|, 1
  {
    hide Values, Again, Bodies, DerivesIn;
    if v in Prepend(e[..j], Values(e[j..], t, off)) {
      n := RestDerives(e, i, j, t, off, v);
      return;
    }
    match def {
      case Object(rhs) =>
        var u :| u in Again(rhs, e[j..], e[i..j], t, off) && v == e[..i] + u;
        n := ObjectDerives(e, i, j, rhs, t, off, u);
      case Function(ps, rhs) =>
        var (raw, end) := Args(e, j).value;
        var b, u :| b in Bodies(e, ps, raw, rhs, |ps|, t, off) && u in Again(Massage(b), e[end..], e[i..j], t, off)
                    && v == e[..i] + u;
        n := CallDerives(e, i, j, ps, rhs, t, off, b, u);
    }
  }

  lemma AgainParts(expansion: string, after: string, x: string, t: Table, off: set<string>, u: string)
    returns (a: string)
    requires x in t && x !in off && u in Again(expansion, after, x, t, off)
    ensures a in Values(after, t, off) && u in Values(expansion + a, t, off + {x})
  {
    hide Values;
    a :| a in Values(after, t, off) && u in Values(expansion + a, t, off + {x});
  }

  lemma NoWordBefore(e: string, i: nat, s: string)
    requires i == Find(e, 0, true)
    ensures Apart(e[..i], s)
  {
  }

  lemma FirstIsSymbol(e: string, i: nat, j: nat)
    requires i == Find(e, 0, true) < |e| && j == Find(e, i, false) && i < j
    ensures SymbolAt(e, i, j) && Separate(e[j..])
  {
  }

  lemma {:induction false} ObjectDerives(e: string, i: nat, j: nat, rhs: string, t: Table, off: set<string>, u: string)
    returns (n: nat)
    requires i == Find(e, 0, true) < |e| && j == Find(e, i, false) && i < j
    requires e[i..j] in t && e[i..j] !in off && Object(rhs) in t[e[i..j]] && u in Again(rhs, e[j..], e[i..j], t, off)
    ensures DerivesIn(e, e[..i] + u, t, n)
    decreases |t.Keys - off|, |e|, 0
  {
    hide Values, Again, DerivesIn, StepIn, Apart, SymbolAt;
    var x := e[i..j];
    FirstIsSymbol(e, i, j);
    var a := AgainParts(rhs, e[j..], x, t, off, u);
    var n1 := ValueDerives(e[j..], t, off, a);
    SeparateApart(e[..j], e[j..]);
    DerivesBehind(e[..j], e[j..], a, t, n1);
    assert e[..j] + e[j..] == e;
    ObjectStep(e, i, j, rhs, a, t);
    OneStep(e[..j] + a, e[..i] + rhs + a, t, 0);
    Fewer(t, off, x);
    var n2 := ValueDerives(rhs + a, t, off + {x}, u);
    NoWordBefore(e, i, rhs + a);
    DerivesBehind(e[..i], rhs + a, u, t, n2);
    assert e[..i] + (rhs + a) == e[..i] + rhs + a;
    Onwards(e, e[..j] + a, e[..i] + rhs + a, t, n1, 1);
    Onwards(e, e[..i] + rhs + a, e[..i] + u, t, n1 + 1, n2);
    n := n1 + 1 + n2;
  }

  lemma SeparateApart(before: string, s: string)
    requires Separate(s)
    ensures Apart(before, s)
  {
  }

  lemma ObjectStep(e: string, i: nat, j: nat, rhs: string, a: string, t: Table)
    requires SymbolAt(e, i, j) && e[i..j] in t && Object(rhs) in t[e[i..j]] && Apart(e[..j], a)
    ensures StepIn(e[..j] + a, e[..i] + rhs + a, t, 0)
  {
    var f := e[..j] + a;
    assert f[i..j] == e[i..j] && f[..i] == e[..i] && f[j..] == a;
    assert IsWord(e[j - 1]) && e[..j][j - 1] == e[j - 1];
    assert SymbolAt(f, i, j) by {
      assert forall k :: 0 <= k < j ==> f[k] == e[k];
    }
    assert StepAt(f, i, j, Object(rhs), e[..i] + rhs + a, t, 0);
  }

  lemma {:induction false} CallDerives(e: string, i: nat, j: nat, ps: seq<string>, rhs: string, t: Table,
                                       off: set<string>, b: string, u: string)
    returns (n: nat)
    requires i == Find(e, 0, true) < |e| && j == Find(e, i, false) && i < j
    requires e[i..j] in t && e[i..j] !in off && Function(ps, rhs) in t[e[i..j]]
    requires Args(e, j).Some? && |Args(e, j).value.0| == |ps|
    requires b in Bodies(e, ps, Args(e, j).value.0, rhs, |ps|, t, off)
    requires u in Again(Massage(b), e[Args(e, j).value.1..], e[i..j], t, off)
    ensures DerivesIn(e, e[..i] + u, t, n)
    decreases |t.Keys - off|, |e|, 0, |ps| + 1
  {
    hide Values, Again, Bodies, DerivesIn, StepIn, Apart, SymbolAt, Massage, SubstituteAll, Args;
    var x := e[i..j];
    var raw, end := Args(e, j).value.0, Args(e, j).value.1;
    FirstIsSymbol(e, i, j);
    EndFits(e, j);
    ArgsShorter(e, j);
    var body := Massage(b);
    var a := AgainParts(body, e[end..], x, t, off, u);
    var n1 := ValueDerives(e[end..], t, off, a);
    ClosedApart(e, end);
    DerivesBehind(e[..end], e[end..], a, t, n1);
    assert e[..end] + e[end..] == e;
    var args := BodyParts(e, ps, raw, rhs, |ps|, t, off, b);
    var n3 := ArgumentsDerive(e, raw, args, t, off, |ps|);
    CallStep(e, i, j, ps, rhs, args, a, t, n3);
    OneStep(e[..end] + a, e[..i] + body + a, t, n3);
    Fewer(t, off, x);
    var n2 := ValueDerives(body + a, t, off + {x}, u);
    NoWordBefore(e, i, body + a);
    DerivesBehind(e[..i], body + a, u, t, n2);
    assert e[..i] + (body + a) == e[..i] + body + a;
    Onwards(e, e[..end] + a, e[..i] + body + a, t, n1, n3 + 1);
    Onwards(e, e[..i] + body + a, e[..i] + u, t, n1 + (n3 + 1), n2);
    n := n1 + (n3 + 1) + n2;
  }

  lemma ArgsShorter(e: string, j: nat)
    requires Args(e, j).Some?
    ensures forall a :: a in Args(e, j).value.0 ==> |a| < |e|
  {
  }

  lemma ClosedApart(e: string, end: nat)
    requires 0 < end <= |e| && e[end - 1] == ')'
    ensures Apart(e[..end], e[end..])
  {
  }

  lemma CallStep(e: string, i: nat, j: nat, ps: seq<string>, rhs: string, args: seq<string>, a: string, t: Table,
                 n: nat)
    requires SymbolAt(e, i, j) && e[i..j] in t && Function(ps, rhs) in t[e[i..j]]
    requires Args(e, j).Some? && |Args(e, j).value.0| == |ps| == |args|
    requires forall k :: 0 <= k < |ps| ==> DerivesIn(Args(e, j).value.0[k], args[k], t, n)
    ensures var end := Args(e, j).value.1;
            StepIn(e[..end] + a, e[..i] + Massage(SubstituteAll(ps, args, rhs, |ps|)) + a, t, n)
  {
    hide DerivesIn, Massage, SubstituteAll, Args;
    var end := Args(e, j).value.1;
    EndFits(e, j);
    SymbolBounds(e, i, j);
    var f := e[..end] + a;
    assert f[..end] == e[..end] && f[end..] == a;
    ArgsFront(e, f, j);
    assert f[..i] == e[..i] && f[i..j] == e[i..j];
    assert SymbolAt(f, i, j) by {
      assert forall k :: 0 <= k < end ==> f[k] == e[k];
      assert f[j] == '(';
    }
    var v := e[..i] + Massage(SubstituteAll(ps, args, rhs, |ps|)) + a;
    assert Calling(f, i, j, ps, rhs, args, v, t, n);
    assert StepAt(f, i, j, Function(ps, rhs), v, t, n);
  }

  // So nothing else is ever a value.
  lemma ValuesDerive(e: string, t: Table, v: string)
    requires v in Values(e, t, {})
    ensures Derives(e, v, t)
  {
    var n := ValueDerives(e, t, {}, v);
  }
}
