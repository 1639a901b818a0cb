// Evaluation of macros when any of the definitions seen may be in effect: an
// expression has a set of values.

module MacroEval {
  import opened Options
  import opened MacroArgs
  import opened MacroText

  datatype Definition = Object(rhs: string) | Function(params: seq<string>, rhs: string)

  // Every symbol in a table has at least one definition.
  type Table = map<string, seq<Definition>>

  ghost predicate Defined(t: Table) {
    forall x :: x in t ==> t[x] != []
  }

  // ---- What the values are ----

  // _PrependToSet
  function Prepend(head: string, tails: set<string>): set<string> {
    set v | v in tails :: head + v
  }

  // The values of e when the symbols in off are not to be expanded.
  ghost function Values(e: string, t: Table, off: set<string>): (vs: set<string>)
    ensures e in vs
    decreases |t.Keys - off|, |e|, 4
  {
    var i := Find(e, 0, true);
    if i == |e| then {e}
    else
      var j := Find(e, i, false);
      assert j > i;
      var x := e[i..j];
      if x !in t then
        assert e == e[..j] + e[j..];
        Prepend(e[..j], Values(e[j..], t, off))
      else if x in off then {e}
      else {e} + UsesOf(e, i, j, |t[x]|, t, off)
  }

  // What the first n definitions of the symbol e[i..j] give.
  ghost function UsesOf(e: string, i: nat, j: nat, n: nat, t: Table, off: set<string>): set<string>
    requires i < j <= |e| && e[i..j] in t && e[i..j] !in off && n <= |t[e[i..j]]|
    decreases |t.Keys - off|, |e|, 3, 1
  {
    set k, v | 0 <= k < n && v in Uses(e, i, j, t[e[i..j]][k], t, off) :: v
  }

  // The symbol e[i..j] is left as it is, or replaced according to def.
  ghost function Uses(e: string, i: nat, j: nat, def: Definition, t: Table, off: set<string>): set<string>
    requires i < j <= |e| && e[i..j] in t && e[i..j] !in off
    decreases |t.Keys - off|, |e|, 3, 0
  {
    Prepend(e[..j], Values(e[j..], t, off))
    + match def
      case Object(rhs) => Prepend(e[..i], Again(rhs, e[j..], e[i..j], t, off))
      case Function(ps, rhs) =>
        var call := Args(e, j);
        if call.None? || |call.value.0| != |ps| then {}
        else Placed(Bodies(e, ps, call.value.0, rhs, |ps|, t, off), e[..i], e[call.value.1..], e[i..j], t, off)
  }

  // Each of the bodies, once massaged, in the place of the call of x.
  ghost function Placed(bodies: set<string>, before: string, after: string, x: string, t: Table,
                        off: set<string>): set<string>
    requires x in t && x !in off
    decreases |t.Keys - off|, |after|, 6
  {
    set b, v | b in bodies && v in Again(Massage(b), after, x, t, off) :: before + v
  }

  // The right-hand side with any values of the first k arguments in place.
  ghost function Bodies(e: string, ps: seq<string>, args: seq<string>, rhs: string, k: nat, t: Table,
                        off: set<string>): set<string>
    requires k <= |ps| == |args| && forall a :: a in args ==> |a| < |e|
    decreases |t.Keys - off|, |e|, 2, k
  {
    if k == 0 then {rhs}
    else Replaced(ps[k - 1], Values(args[k - 1], t, off), Bodies(e, ps, args, rhs, k - 1, t, off))
  }

  function Replaced(param: string, values: set<string>, bodies: set<string>): set<string> {
    set b, a | b in bodies && a in values :: Substitute(param, a, b)
  }

  // The expansion followed by any value of what comes after, read again without x.
  ghost function Again(expansion: string, after: string, x: string, t: Table, off: set<string>): set<string>
    requires x in t && x !in off
    decreases |t.Keys - off|, |after|, 5
  {
    Joined(expansion, Values(after, t, off), x, t, off)
  }

  ghost function Joined(expansion: string, afters: set<string>, x: string, t: Table, off: set<string>): set<string>
    requires x in t && x !in off
    decreases |t.Keys - off|, 0, 0
  {
    Fewer(t, off, x);
    set a, v | a in afters && v in Values(expansion + a, t, off + {x}) :: v
  }

  lemma Fewer(t: Table, off: set<string>, x: string)
    requires x in t && x !in off
    ensures |t.Keys - (off + {x})| < |t.Keys - off|
  {
    assert t.Keys - (off + {x}) == (t.Keys - off) - {x};
  }

  // ---- Whichever definition is in effect, its expansion is among them ----

  // e[i..j] is a symbol.
  predicate SymbolAt(e: string, i: nat, j: nat) {
    && i < j <= |e| && (forall k :: i <= k < j ==> IsWord(e[k]))
    && (i == 0 || !IsWord(e[i - 1])) && (j == |e| || !IsWord(e[j]))
  }

  // The first symbol of e, if there is one.
  lemma FirstSymbol(e: string, i: nat, j: nat)
    requires SymbolAt(e, i, j)
    ensures var i0 := Find(e, 0, true);
            && i0 <= i && var j0 := Find(e, i0, false);
            && i0 < j0 && if i0 == i then j0 == j else j0 < i
  {
    assert IsWord(e[i]);
    var i0 := Find(e, 0, true);
    var j0 := Find(e, i0, false);
    if i0 < i {
      assert !IsWord(e[i - 1]);
    } else {
      assert j0 >= j && (j < |e| ==> !IsWord(e[j]));
    }
  }

  // Leaving the first symbol alone and evaluating what follows.
  lemma FirstLeftAlone(e: string, i: nat, j: nat, t: Table, off: set<string>, v: string)
    requires Defined(t) && i == Find(e, 0, true) < |e| && j == Find(e, i, false) && i < j
    requires !(e[i..j] in t && e[i..j] in off) && v in Values(e[j..], t, off)
    ensures e[..j] + v in Values(e, t, off)
  {
    if e[i..j] in t {
      hide Values;
      var def := t[e[i..j]][0];
      assert e[..j] + v in Uses(e, i, j, def, t, off);
      FirstUsed(e, i, j, def, t, off, e[..j] + v);
    }
  }

  // Wherever an object-like macro stands in e, each of its definitions may replace it.
  lemma {:induction false} ReplacedAnywhere(e: string, i: nat, j: nat, rhs: string, t: Table)
    requires Defined(t) && SymbolAt(e, i, j) && e[i..j] in t && Object(rhs) in t[e[i..j]]
    ensures e[..i] + rhs + e[j..] in Values(e, t, {})
    decreases |e|
  {
    hide Values, Uses;
    FirstSymbol(e, i, j);
    var j0 := Find(e, Find(e, 0, true), false);
    if Find(e, 0, true) == i {
      FirstReplaced(e, i, j, rhs, t);
    } else {
      SymbolInRest(e, i, j, j0);
      ReplacedAnywhere(e[j0..], i - j0, j - j0, rhs, t);
      FirstLeftAlone(e, Find(e, 0, true), j0, t, {}, e[j0..][..i - j0] + rhs + e[j0..][j - j0..]);
      Spliced(e, j0, i, j, rhs);
    }
  }

  lemma FirstReplaced(e: string, i: nat, j: nat, rhs: string, t: Table)
    requires i == Find(e, 0, true) < |e| && j == Find(e, i, false) && i < j
    requires e[i..j] in t && Object(rhs) in t[e[i..j]]
    ensures e[..i] + rhs + e[j..] in Values(e, t, {})
  {
    hide Values, Again;
    AgainHas(rhs, e[j..], e[j..], e[i..j], t, {});
    assert e[..i] + (rhs + e[j..]) == e[..i] + rhs + e[j..];
    FirstUsed(e, i, j, Object(rhs), t, {}, e[..i] + rhs + e[j..]);
  }

  lemma Spliced(e: string, j0: nat, i: nat, j: nat, body: string)
    requires j0 <= i <= j <= |e|
    ensures e[..i] + body + e[j..] == e[..j0] + (e[j0..][..i - j0] + body + e[j0..][j - j0..])
  {
    assert e[j0..][..i - j0] == e[j0..i] && e[j0..][j - j0..] == e[j..];
    assert e[..i] == e[..j0] + e[j0..i];
  }

  lemma SymbolInRest(e: string, i: nat, j: nat, j0: nat)
    requires SymbolAt(e, i, j) && j0 <= i
    ensures SymbolAt(e[j0..], i - j0, j - j0) && e[j0..][i - j0..j - j0] == e[i..j]
  {
    SliceOfRest(e, j0, i, j);
  }

  lemma SliceOfRest(e: string, j0: nat, i: nat, j: nat)
    requires j0 <= i <= j <= |e|
    ensures e[j0..][i - j0..j - j0] == e[i..j]
  {
  }

  // The arguments, as they stand, in the place of the parameters.
  function SubstituteAll(ps: seq<string>, args: seq<string>, rhs: string, k: nat): string
    requires k <= |ps| == |args|
  {
    if k == 0 then rhs else Substitute(ps[k - 1], args[k - 1], SubstituteAll(ps, args, rhs, k - 1))
  }

  // And wherever a function-like macro is called with the right number of
  // arguments, its right-hand side may replace the call.
  lemma {:induction false} CallReplaced(e: string, i: nat, j: nat, ps: seq<string>, rhs: string, t: Table)
    requires Defined(t) && SymbolAt(e, i, j) && e[i..j] in t && Function(ps, rhs) in t[e[i..j]]
    requires Args(e, j).Some? && |Args(e, j).value.0| == |ps|
    ensures var (args, end) := Args(e, j).value;
            e[..i] + Massage(SubstituteAll(ps, args, rhs, |ps|)) + e[end..] in Values(e, t, {})
    decreases |e|
  {
    hide Values, Uses, Args, Massage, SubstituteAll, Defined;
    FirstSymbol(e, i, j);
    var (args, end) := Args(e, j).value;
    var body := Massage(SubstituteAll(ps, args, rhs, |ps|));
    var j0 := Find(e, Find(e, 0, true), false);
    if Find(e, 0, true) == i {
      FirstCallReplaced(e, i, j, ps, rhs, t);
    } else {
      SymbolInRest(e, i, j, j0);
      ArgsLater(e, j0, j);
      CallReplaced(e[j0..], i - j0, j - j0, ps, rhs, t);
      FirstLeftAlone(e, Find(e, 0, true), j0, t, {}, e[j0..][..i - j0] + body + e[j0..][end - j0..]);
      Spliced(e, j0, i, end, body);
    }
  }

  lemma FirstCallReplaced(e: string, i: nat, j: nat, ps: seq<string>, rhs: string, t: Table)
    requires i == Find(e, 0, true) < |e| && j == Find(e, i, false) && i < j
    requires e[i..j] in t && Function(ps, rhs) in t[e[i..j]]
    requires Args(e, j).Some? && |Args(e, j).value.0| == |ps|
    ensures var (args, end) := Args(e, j).value;
            e[..i] + Massage(SubstituteAll(ps, args, rhs, |ps|)) + e[end..] in Values(e, t, {})
  {
    hide Values, Again, Bodies;
    var (args, end) := Args(e, j).value;
    var body := SubstituteAll(ps, args, rhs, |ps|);
    BodyOfArguments(e, ps, args, rhs, |ps|, t);
    AgainHas(Massage(body), e[end..], e[end..], e[i..j], t, {});
    assert e[..i] + (Massage(body) + e[end..]) == e[..i] + Massage(body) + e[end..];
    FirstUsed(e, i, j, Function(ps, rhs), t, {}, e[..i] + Massage(body) + e[end..]);
  }

  lemma {:induction false} BodyOfArguments(e: string, ps: seq<string>, args: seq<string>, rhs: string, k: nat, t: Table)
    requires k <= |ps| == |args| && forall a :: a in args ==> |a| < |e|
    ensures SubstituteAll(ps, args, rhs, k) in Bodies(e, ps, args, rhs, k, t, {})
  {
    hide Values;
    if k > 0 { BodyOfArguments(e, ps, args, rhs, k - 1, t); }
  }

  lemma FirstUsed(e: string, i: nat, j: nat, def: Definition, t: Table, off: set<string>, v: string)
    requires i == Find(e, 0, true) < |e| && j == Find(e, i, false) && i < j
    requires e[i..j] in t && e[i..j] !in off && def in t[e[i..j]] && v in Uses(e, i, j, def, t, off)
    ensures v in Values(e, t, off)
  {
    hide Uses;
    var k :| 0 <= k < |t[e[i..j]]| && t[e[i..j]][k] == def;
    assert v in UsesOf(e, i, j, |t[e[i..j]]|, t, off);
  }

  lemma AgainHas(expansion: string, after: string, a: string, x: string, t: Table, off: set<string>)
    requires x in t && x !in off && a in Values(after, t, off)
    ensures expansion + a in Again(expansion, after, x, t, off)
  {
    AgainGives(expansion, after, a, expansion + a, x, t, off);
  }

  lemma AgainGives(expansion: string, after: string, a: string, v: string, x: string, t: Table, off: set<string>)
    requires x in t && x !in off && a in Values(after, t, off) && v in Values(expansion + a, t, off + {x})
    ensures v in Again(expansion, after, x, t, off)
  {
    hide Values;
  }

  // ---- Computing them ----

  // _EvalExprHelper.  It ends on every table, however the macros use each other.
  method EvalExprHelper(e: string, t: Table, off: set<string>) returns (vs: set<string>)
    ensures vs == Values(e, t, off)
    decreases |t.Keys - off|, |e|, 4
  {
    hide Uses, Prepend;
    var i := Find(e, 0, true);
    if i == |e| { return {e}; }
    var j := Find(e, i, false);
    assert j > i;
    var x := e[i..j];
    var args, end := ParseArgs(e, j);
    if x !in t {
      var rest := EvalExprHelper(e[j..], t, off);
      return Prepend(e[..j], rest);
    }
    vs := {e};
    if x !in off {
      for k := 0 to |t[x]|
        invariant vs == {e} + UsesOf(e, i, j, k, t, off)
      {
        var more := EvalMacro(e, i, j, args, end, t[x][k], t, off);
        OneMoreUse(e, i, j, k, t, off);
        vs := vs + more;
      }
    }
  }

  lemma OneMoreUse(e: string, i: nat, j: nat, k: nat, t: Table, off: set<string>)
    requires i < j <= |e| && e[i..j] in t && e[i..j] !in off && k < |t[e[i..j]]|
    ensures UsesOf(e, i, j, k + 1, t, off) == UsesOf(e, i, j, k, t, off) + Uses(e, i, j, t[e[i..j]][k], t, off)
  {
    hide Uses;
  }

  // _EvalMacro
  method EvalMacro(e: string, i: nat, j: nat, args: Option<seq<string>>, end: nat, def: Definition, t: Table,
                   off: set<string>)
    returns (vs: set<string>)
    requires i < j <= |e| && e[i..j] in t && e[i..j] !in off
    requires if Args(e, j).Some? then args == Some(Args(e, j).value.0) && end == Args(e, j).value.1 else args == None
    ensures vs == Uses(e, i, j, def, t, off)
    decreases |t.Keys - off|, |e|, 3
  {
    hide Values, Again, Bodies, Placed, Prepend;
    var rest := EvalExprHelper(e[j..], t, off);
    vs := Prepend(e[..j], rest);
    match def {
      case Object(rhs) =>
        var more := ReEval(rhs, e[j..], e[i..j], t, off);
        vs := vs + Prepend(e[..i], more);
      case Function(ps, rhs) =>
        if args.None? || |ps| != |args.value| { return; }
        var bodies := Expansions(e, ps, args.value, rhs, t, off);
        var placed := PlaceAll(bodies, e[..i], e[end..], e[i..j], t, off);
        vs := vs + placed;
    }
  }

  // The arguments are expanded, and every choice of their values put in place.
  method Expansions(e: string, ps: seq<string>, args: seq<string>, rhs: string, t: Table, off: set<string>)
    returns (bodies: set<string>)
    requires |ps| == |args| && forall a :: a in args ==> |a| < |e|
    ensures bodies == Bodies(e, ps, args, rhs, |ps|, t, off)
    decreases |t.Keys - off|, |e|, 2
  {
    hide Values, Replaced;
    bodies := {rhs};
    for k := 0 to |ps|
      invariant bodies == Bodies(e, ps, args, rhs, k, t, off)
    {
      var values := EvalExprHelper(args[k], t, off);
      bodies := Replaced(ps[k], values, bodies);
    }
  }

  method PlaceAll(bodies: set<string>, before: string, after: string, x: string, t: Table, off: set<string>)
    returns (vs: set<string>)
    requires x in t && x !in off
    ensures vs == Placed(bodies, before, after, x, t, off)
    decreases |t.Keys - off|, |after|, 6
  {
    vs := {};
    var todo := bodies;
    while todo != {}
      invariant todo <= bodies && vs == Placed(bodies - todo, before, after, x, t, off)
    {
      var b :| b in todo;
      var more := ReEval(Massage(b), after, x, t, off);
      vs := vs + Prepend(before, more);
      assert bodies - (todo - {b}) == (bodies - todo) + {b};
      todo := todo - {b};
    }
    assert bodies - {} == bodies;
  }

  // _ReEvalRecursivelyForExpansion
  method ReEval(expansion: string, after: string, x: string, t: Table, off: set<string>) returns (vs: set<string>)
    requires x in t && x !in off
    ensures vs == Again(expansion, after, x, t, off)
    decreases |t.Keys - off|, |after|, 5
  {
    Fewer(t, off, x);
    var afters := EvalExprHelper(after, t, off);
    vs := {};
    var todo := afters;
    while todo != {}
      invariant todo <= afters && vs == Joined(expansion, afters - todo, x, t, off)
    {
      var a :| a in todo;
      var more := EvalExprHelper(expansion + a, t, off + {x});
      vs := vs + more;
      assert afters - (todo - {a}) == (afters - todo) + {a};
      todo := todo - {a};
    }
    assert afters - {} == afters;
  }

  // ---- More definitions never lose a value ----

  ghost predicate Extends(t: Table, u: Table) {
    Defined(u) && t.Keys <= u.Keys && forall x, d :: x in t && d in t[x] ==> d in u[x]
  }

  lemma {:induction false} Monotone(e: string, t: Table, u: Table, off: set<string>)
    requires Extends(t, u) && off <= t.Keys
    ensures Values(e, t, off) <= Values(e, u, off)
    decreases |t.Keys - off|, |e|, 4
  {
    var i := Find(e, 0, true);
    if i < |e| {
      var j := Find(e, i, false);
      var x := e[i..j];
      if x !in t {
        Monotone(e[j..], t, u, off);
        if x in u {
          assert Uses(e, i, j, u[x][0], u, off) <= Values(e, u, off);
        }
      } else if x !in off {
        forall k, v | 0 <= k < |t[x]| && v in Uses(e, i, j, t[x][k], t, off)
          ensures v in Values(e, u, off)
        {
          assert t[x][k] in t[x];
          var m :| 0 <= m < |u[x]| && u[x][m] == t[x][k];
          MonotoneUses(e, i, j, t[x][k], t, u, off);
          assert v in Uses(e, i, j, u[x][m], u, off);
        }
      }
    }
  }

  lemma {:induction false} MonotoneUses(e: string, i: nat, j: nat, def: Definition, t: Table, u: Table,
                                        off: set<string>)
    requires Extends(t, u) && off <= t.Keys
    requires i < j <= |e| && e[i..j] in t && e[i..j] !in off
    ensures Uses(e, i, j, def, t, off) <= Uses(e, i, j, def, u, off)
    decreases |t.Keys - off|, |e|, 3
  {
    hide Values, Again, Bodies;
    Monotone(e[j..], t, u, off);
    match def
    case Object(rhs) =>
      MonotoneAgain(rhs, e[j..], e[i..j], t, u, off);
    case Function(ps, rhs) =>
      var call := Args(e, j);
      if call.Some? && |call.value.0| == |ps| {
        MonotoneBodies(e, ps, call.value.0, rhs, |ps|, t, u, off);
        forall b
          ensures Again(Massage(b), e[call.value.1..], e[i..j], t, off)
               <= Again(Massage(b), e[call.value.1..], e[i..j], u, off)
        {
          MonotoneAgain(Massage(b), e[call.value.1..], e[i..j], t, u, off);
        }
      }
  }

  lemma {:induction false} MonotoneBodies(e: string, ps: seq<string>, args: seq<string>, rhs: string, k: nat, t: Table,
                                          u: Table, off: set<string>)
    requires Extends(t, u) && off <= t.Keys
    requires k <= |ps| == |args| && forall a :: a in args ==> |a| < |e|
    ensures Bodies(e, ps, args, rhs, k, t, off) <= Bodies(e, ps, args, rhs, k, u, off)
    decreases |t.Keys - off|, |e|, 2, k
  {
    hide Values;
    if k > 0 {
      MonotoneBodies(e, ps, args, rhs, k - 1, t, u, off);
      Monotone(args[k - 1], t, u, off);
    }
  }

  lemma {:induction false} MonotoneAgain(expansion: string, after: string, x: string, t: Table, u: Table,
                                         off: set<string>)
    requires Extends(t, u) && off <= t.Keys && x in t && x !in off
    ensures Again(expansion, after, x, t, off) <= Again(expansion, after, x, u, off)
    decreases |t.Keys - off|, |after|, 5
  {
    hide Values;
    Fewer(t, off, x);
    Monotone(after, t, u, off);
    forall a ensures Values(expansion + a, t, off + {x}) <= Values(expansion + a, u, off + {x}) {
      Monotone(expansion + a, t, u, off + {x});
    }
  }

  // InsertMacroDefInTable
  function Insert(t: Table, x: string, def: Definition): Table {
    t[x := (if x in t then t[x] else []) + [def]]
  }

  // A #define met later never removes a value found before it.
  lemma DefineKeepsValues(e: string, t: Table, x: string, def: Definition)
    requires Defined(t)
    ensures Defined(Insert(t, x, def)) && Values(e, t, {}) <= Values(e, Insert(t, x, def), {})
  {
    Monotone(e, t, Insert(t, x, def), {});
  }
}
