// What the values of an expression are meant to be: the texts that arbitrary
// choices of definitions lead to.  All choices made once are among the values;
// choices made again inside what was put in can be missed.

module MacroChoices {
  import opened MacroArgs
  import opened MacroText
  import opened MacroEval

  // ---- Every symbol replaced at once ----

  // v is e with each of its macros, read from left to right, left alone or
  // replaced by one of its definitions; arguments of calls likewise.
  ghost predicate Rewrites(e: string, v: string, t: Table)
    decreases |e|, 1
  {
    var i := Find(e, 0, true);
    if i == |e| then v == e
    else
      var j := Find(e, i, false);
      assert j > i;
      || (exists w :: Rewrites(e[j..], w, t) && v == e[..j] + w)
      || (e[i..j] in t && exists def :: def in t[e[i..j]] && Replaces(e, i, j, def, v, t))
  }

  ghost predicate Replaces(e: string, i: nat, j: nat, def: Definition, v: string, t: Table)
    requires i < j <= |e|
    decreases |e|, 0
  {
    match def
    case Object(rhs) =>
      exists w :: Rewrites(e[j..], w, t) && v == e[..i] + (rhs + w)
    case Function(ps, rhs) =>
      var call := Args(e, j);
      call.Some? && |call.value.0| == |ps|
      && exists args: seq<string>, w: string ::
           && |args| == |ps| && (forall n :: 0 <= n < |ps| ==> Rewrites(call.value.0[n], args[n], t))
           && Rewrites(e[call.value.1..], w, t)
           && v == e[..i] + (Massage(SubstituteAll(ps, args, rhs, |ps|)) + w)
  }

  // Every such combination is a value.
  lemma {:induction false} JointlyReplaced(e: string, v: string, t: Table)
    requires Defined(t) && Rewrites(e, v, t)
    ensures v in Values(e, t, {})
    decreases |e|, 1
  {
    hide Values, Uses, Replaces, Defined;
    var i := Find(e, 0, true);
    if i < |e| {
      var j := Find(e, i, false);
      assert j > i;
      if w :| Rewrites(e[j..], w, t) && v == e[..j] + w {
        JointlyReplaced(e[j..], w, t);
        FirstLeftAlone(e, i, j, t, {}, w);
      } else {
        var def :| def in t[e[i..j]] && Replaces(e, i, j, def, v, t);
        ReplacedByOne(e, i, j, def, v, t);
        FirstUsed(e, i, j, def, t, {}, v);
      }
    } else {
      assert v == e;
    }
  }

  lemma {:induction false} ReplacedByOne(e: string, i: nat, j: nat, def: Definition, v: string, t: Table)
    requires Defined(t) && i < j <= |e| && e[i..j] in t && Replaces(e, i, j, def, v, t)
    ensures v in Uses(e, i, j, def, t, {})
    decreases |e|, 0
  {
    hide Values, Again, Bodies, Rewrites, Defined;
    match def
    case Object(rhs) =>
      var w :| Rewrites(e[j..], w, t) && v == e[..i] + (rhs + w);
      JointlyReplaced(e[j..], w, t);
      AgainHas(rhs, e[j..], w, e[i..j], t, {});
    case Function(ps, rhs) =>
      var (raw, end) := Args(e, j).value;
      var args: seq<string>, w: string :|
        && |args| == |ps| && (forall n :: 0 <= n < |ps| ==> Rewrites(raw[n], args[n], t))
        && Rewrites(e[end..], w, t) && v == e[..i] + (Massage(SubstituteAll(ps, args, rhs, |ps|)) + w);
      JointlyReplaced(e[end..], w, t);
      forall n | 0 <= n < |ps| ensures args[n] in Values(raw[n], t, {}) {
        assert raw[n] in raw;
        JointlyReplaced(raw[n], args[n], t);
      }
      BodyOfValues(e, ps, raw, args, rhs, |ps|, t);
      AgainHas(Massage(SubstituteAll(ps, args, rhs, |ps|)), e[end..], w, e[i..j], t, {});
  }

  lemma {:induction false} BodyOfValues(e: string, ps: seq<string>, raw: seq<string>, args: seq<string>, rhs: string,
                                        k: nat, t: Table)
    requires k <= |ps| == |raw| == |args| && forall a :: a in raw ==> |a| < |e|
    requires forall n :: 0 <= n < |ps| ==> args[n] in Values(raw[n], t, {})
    ensures SubstituteAll(ps, args, rhs, k) in Bodies(e, ps, raw, rhs, k, t, {})
  {
    hide Values;
    if k > 0 { BodyOfValues(e, ps, raw, args, rhs, k - 1, t); }
  }

  // ---- Choices made again ----

  // Each symbol of e on its own: left alone, or replaced by one of its object-like
  // definitions, in which the choices are made again without that symbol.
  ghost function Tokenwise(e: string, t: Table, off: set<string>): set<string>
    decreases |t.Keys - off|, |e|, 1
  {
    var i := Find(e, 0, true);
    if i == |e| then {e}
    else
      var j := Find(e, i, false);
      assert j > i;
      Around(e[..i], Choices(e[i..j], t, off, |e|), Tokenwise(e[j..], t, off))
  }

  ghost function Around(head: string, us: set<string>, ws: set<string>): set<string> {
    set u, w | u in us && w in ws :: head + u + w
  }

  lemma AroundOne(head: string, u: string, w: string)
    ensures Around(head, {u}, {w}) == {head + u + w}
  {
  }

  ghost function Choices(x: string, t: Table, off: set<string>, n: nat): set<string>
    decreases |t.Keys - off|, n, 0
  {
    if x in t && x !in off then
      Fewer(t, off, x);
      {x} + set k, u | 0 <= k < |t[x]| && t[x][k].Object? && u in Tokenwise(t[x][k].rhs, t, off + {x}) :: u
    else {x}
  }

  // No symbol of e can be replaced.
  ghost predicate Settled(e: string, t: Table, off: set<string>)
    decreases |e|
  {
    var i := Find(e, 0, true);
    if i == |e| then true
    else
      var j := Find(e, i, false);
      assert j > i;
      (e[i..j] !in t || e[i..j] in off) && Settled(e[j..], t, off)
  }

  // Wherever a symbol comes up again while it is being replaced, nothing after it
  // in the same right-hand side can be replaced.
  ghost predicate Unmissed(e: string, t: Table, off: set<string>)
    decreases |t.Keys - off|, |e|
  {
    var i := Find(e, 0, true);
    if i == |e| then true
    else
      var j := Find(e, i, false);
      assert j > i;
      var x := e[i..j];
      if x !in t then Unmissed(e[j..], t, off)
      else if x in off then Settled(e[j..], t, off)
      else
        Fewer(t, off, x);
        && Unmissed(e[j..], t, off)
        && forall k :: 0 <= k < |t[x]| && t[x][k].Object? ==> Unmissed(t[x][k].rhs, t, off + {x})
  }

  lemma {:induction false} SettledStays(e: string, t: Table, off: set<string>)
    requires Settled(e, t, off)
    ensures Tokenwise(e, t, off) == {e}
    decreases |e|
  {
    hide Around;
    var i := Find(e, 0, true);
    if i < |e| {
      var j := Find(e, i, false);
      SettledStays(e[j..], t, off);
      AroundOne(e[..i], e[i..j], e[j..]);
      assert e[..i] + e[i..j] + e[j..] == e;
    }
  }

  ghost predicate Separate(tail: string) {
    tail == "" || !IsWord(tail[0])
  }

  // A text that starts between symbols still does after all choices.
  lemma TokenwiseSeparate(e: string, t: Table, off: set<string>, u: string)
    requires Separate(e) && u in Tokenwise(e, t, off)
    ensures Separate(u)
  {
  }

  lemma {:induction false} FindInFront(e: string, tail: string, i: nat, word: bool)
    requires i <= |e| && (Find(e, i, word) < |e| || (!word && Separate(tail)))
    ensures Find(e + tail, i, word) == Find(e, i, word)
    decreases |e| - i
  {
    if i < |e| {
      if IsWord(e[i]) != word { FindInFront(e, tail, i + 1, word); }
    }
  }

  lemma TokenwiseParts(e: string, i: nat, j: nat, t: Table, off: set<string>, v: string) returns (u: string, w: string)
    requires i == Find(e, 0, true) < |e| && j == Find(e, i, false) && i < j && v in Tokenwise(e, t, off)
    ensures u in Choices(e[i..j], t, off, |e|) && w in Tokenwise(e[j..], t, off) && v == e[..i] + u + w
  {
    hide Choices;
    u, w :| u in Choices(e[i..j], t, off, |e|) && w in Tokenwise(e[j..], t, off) && v == e[..i] + u + w;
  }

  lemma UnmissedParts(e: string, i: nat, j: nat, t: Table, off: set<string>)
    requires i == Find(e, 0, true) < |e| && j == Find(e, i, false) && i < j && Unmissed(e, t, off)
    ensures if e[i..j] in t && e[i..j] in off then Settled(e[j..], t, off) else Unmissed(e[j..], t, off)
    ensures e[i..j] in t && e[i..j] !in off ==>
              forall def :: def in t[e[i..j]] && def.Object? ==> Unmissed(def.rhs, t, off + {e[i..j]})
  {
    hide Settled;
  }

  lemma ChosenFrom(x: string, t: Table, off: set<string>, n: nat, u: string) returns (def: Definition)
    requires u in Choices(x, t, off, n) && u != x
    ensures x in t && x !in off && def in t[x] && def.Object? && u in Tokenwise(def.rhs, t, off + {x})
  {
    hide Tokenwise;
    var k :| 0 <= k < |t[x]| && t[x][k].Object? && u in Tokenwise(t[x][k].rhs, t, off + {x});
    def := t[x][k];
  }

  lemma OffStays(e: string, i: nat, j: nat, t: Table, off: set<string>, u: string)
    requires i < j <= |e| && e[i..j] in t && e[i..j] in off && u in Choices(e[i..j], t, off, |e|)
             && Settled(e[j..], t, off)
    ensures u == e[i..j] && Tokenwise(e[j..], t, off) == {e[j..]} && e[..i] + u + e[j..] == e
  {
    hide Tokenwise, Settled;
    SettledStays(e[j..], t, off);
    assert e[..i] + e[i..j] + e[j..] == e;
  }

  lemma NoSymbol(e: string, t: Table, off: set<string>, v: string)
    requires Find(e, 0, true) == |e| && v in Tokenwise(e, t, off)
    ensures v == e
  {
  }

  // With any text behind it that starts between symbols.
  lemma {:induction false} ChoicesAreValues(e: string, tail: string, t: Table, off: set<string>, v: string)
    requires Defined(t) && Unmissed(e, t, off) && Separate(tail) && v in Tokenwise(e, t, off)
    ensures v + tail in Values(e + tail, t, off)
    decreases |t.Keys - off|, |e|
  {
    hide Values, Uses, Defined, Tokenwise, Unmissed, Settled, Choices;
    var i := Find(e, 0, true);
    if i == |e| {
      NoSymbol(e, t, off, v);
      return;
    }
    var j := Find(e, i, false);
    assert j > i;
    var u, w := TokenwiseParts(e, i, j, t, off, v);
    UnmissedParts(e, i, j, t, off);
    if e[i..j] in t && e[i..j] in off {
      OffStays(e, i, j, t, off, u);
      return;
    }
    ChoicesAreValues(e[j..], tail, t, off, w);
    FindInFront(e, tail, 0, true);
    FindInFront(e, tail, i, false);
    if u == e[i..j] {
      OneLeftAlone(e, i, j, tail, t, off, w);
    } else {
      var def := ChosenFrom(e[i..j], t, off, |e|, u);
      Fewer(t, off, e[i..j]);
      TokenwiseSeparate(e[j..], t, off, w);
      ChoicesAreValues(def.rhs, w + tail, t, off + {e[i..j]}, u);
      OneChosen(e, i, j, tail, t, off, def, u, w);
    }
  }

  lemma OneLeftAlone(e: string, i: nat, j: nat, tail: string, t: Table, off: set<string>, w: string)
    requires Defined(t) && i == Find(e + tail, 0, true) < |e| && j == Find(e + tail, i, false) && i < j <= |e|
    requires !(e[i..j] in t && e[i..j] in off) && w + tail in Values(e[j..] + tail, t, off)
    ensures e[..i] + e[i..j] + w + tail in Values(e + tail, t, off)
  {
    hide Values, Defined;
    var f := e + tail;
    assert f[i..j] == e[i..j] && f[j..] == e[j..] + tail && f[..j] == e[..i] + e[i..j];
    FirstLeftAlone(f, i, j, t, off, w + tail);
    assert f[..j] + (w + tail) == e[..i] + e[i..j] + w + tail;
  }

  lemma OneChosen(e: string, i: nat, j: nat, tail: string, t: Table, off: set<string>, def: Definition, u: string,
                  w: string)
    requires i == Find(e + tail, 0, true) < |e| && j == Find(e + tail, i, false) && i < j <= |e|
    requires e[i..j] in t && e[i..j] !in off && def in t[e[i..j]] && def.Object?
    requires w + tail in Values(e[j..] + tail, t, off)
             && u + (w + tail) in Values(def.rhs + (w + tail), t, off + {e[i..j]})
    ensures e[..i] + u + w + tail in Values(e + tail, t, off)
  {
    hide Values, Again;
    var f := e + tail;
    assert f[i..j] == e[i..j] && f[j..] == e[j..] + tail && f[..i] == e[..i];
    AgainGives(def.rhs, f[j..], w + tail, u + (w + tail), f[i..j], t, off);
    assert f[..i] + (u + (w + tail)) == e[..i] + u + w + tail;
    FirstUsed(f, i, j, def, t, off, e[..i] + u + w + tail);
  }

  // Nothing that repeated choices lead to is missed then.
  lemma NothingMissed(e: string, t: Table)
    requires Defined(t) && Unmissed(e, t, {})
    ensures Tokenwise(e, t, {}) <= Values(e, t, {})
  {
    hide Tokenwise, Values, Unmissed;
    forall v | v in Tokenwise(e, t, {})
      ensures v in Values(e, t, {})
    {
      ChoicesAreValues(e, "", t, {}, v);
      assert v + "" == v && e + "" == e;
    }
  }

  // So where no macro leads back to itself: symbols have ranks, and right-hand
  // sides only hold macros of a lower rank.
  ghost predicate Lower(e: string, t: Table, rank: map<string, nat>, n: nat)
    decreases |e|
  {
    var i := Find(e, 0, true);
    if i == |e| then true
    else
      var j := Find(e, i, false);
      assert j > i;
      (e[i..j] in t ==> e[i..j] in rank && rank[e[i..j]] < n) && Lower(e[j..], t, rank, n)
  }

  ghost predicate Ranked(t: Table, rank: map<string, nat>) {
    forall x, def :: x in t && def in t[x] && def.Object? ==> x in rank && Lower(def.rhs, t, rank, rank[x])
  }

  lemma {:induction false} RankedIsUnmissed(e: string, t: Table, off: set<string>, rank: map<string, nat>, n: nat)
    requires Ranked(t, rank) && Lower(e, t, rank, n) && forall y :: y in off && y in rank ==> rank[y] >= n
    ensures Unmissed(e, t, off)
    decreases |t.Keys - off|, |e|
  {
    var i := Find(e, 0, true);
    if i < |e| {
      var j := Find(e, i, false);
      var x := e[i..j];
      RankedIsUnmissed(e[j..], t, off, rank, n);
      if x in t {
        Fewer(t, off, x);
        forall k | 0 <= k < |t[x]| && t[x][k].Object? ensures Unmissed(t[x][k].rhs, t, off + {x}) {
          assert t[x][k] in t[x];
          RankedIsUnmissed(t[x][k].rhs, t, off + {x}, rank, rank[x]);
        }
      }
    }
  }

  // ---- What is missed ----

  // With A defined as "A B" and B as "1", the values of A are A and "A B": the
  // evaluation of "A B" stops at the symbol that is being replaced, and "A 1" is
  // not found.
  const LOOPING: Table := map["A" := [Object("A B")], "B" := [Object("1")]]

  lemma MissedExample()
    ensures Values("A", LOOPING, {}) == {"A", "A B"} && "A 1" in Tokenwise("A", LOOPING, {})
  {
    ExampleValues();
    ExampleChoice();
  }

  lemma ExampleValues()
    ensures Values("A", LOOPING, {}) == {"A", "A B"}
  {
    hide Uses;
    assert Find("A", 0, true) == 0 && Find("A", 0, false) == 1 && "A"[0..1] == "A";
    ExampleUses();
    OneUse("A", 0, 1, LOOPING, {});
  }

  lemma OneUse(e: string, i: nat, j: nat, t: Table, off: set<string>)
    requires i < j <= |e| && e[i..j] in t && e[i..j] !in off && |t[e[i..j]]| == 1
    ensures UsesOf(e, i, j, 1, t, off) == Uses(e, i, j, t[e[i..j]][0], t, off)
  {
    hide Uses;
  }

  lemma PrependOne(head: string, v: string)
    ensures Prepend(head, {v}) == {head + v}
  {
  }

  lemma ExampleUses()
    ensures "A"[0..1] == "A" && Uses("A", 0, 1, Object("A B"), LOOPING, {}) == {"A", "A B"}
  {
    hide Prepend, Joined;
    var t := LOOPING;
    assert "A"[0..1] == "A" && "A"[1..] == "" && "A"[..0] == "" && "A"[..1] == "A";
    assert Values("", t, {}) == {""};
    PrependOne("A", "");
    PrependOne("", "A B");
    assert "A" + "" == "A" && "" + "A B" == "A B";
    ExampleJoined();
  }

  lemma ExampleJoined()
    ensures Joined("A B", {""}, "A", LOOPING, {}) == {"A B"}
  {
    hide Values;
    ExampleInner();
    assert "A B" + "" == "A B";
  }

  // A is not to be replaced here, and nothing after it is looked at.
  lemma ExampleInner()
    ensures Values("A B", LOOPING, {} + {"A"}) == {"A B"}
  {
    assert Find("A B", 0, true) == 0 && Find("A B", 0, false) == 1 && "A B"[0..1] == "A";
  }

  lemma ExampleChoice()
    ensures "A 1" in Tokenwise("A", LOOPING, {})
  {
    var t := LOOPING;
    assert Find("A", 0, true) == 0 && Find("A", 0, false) == 1 && "A"[0..1] == "A" && "A"[1..] == "";
    ExampleRest();
    assert t["A"][0] == Object("A B");
    assert "A 1" in Choices("A", t, {}, 1);
    assert "" in Tokenwise("", t, {});
    assert "A"[..0] + "A 1" + "" == "A 1";
  }

  lemma ExampleRest()
    ensures "A 1" in Tokenwise("A B", LOOPING, {} + {"A"})
  {
    hide Choices;
    var t, off := LOOPING, {} + {"A"};
    assert Find("A B", 0, true) == 0 && Find("A B", 0, false) == 1 && "A B"[0..1] == "A" && "A B"[1..] == " B";
    ExampleTail();
    NotReplaced("A", t, off, 3);
    assert "A B"[..0] + "A" + " 1" == "A 1";
  }

  lemma NotReplaced(x: string, t: Table, off: set<string>, n: nat)
    ensures x in Choices(x, t, off, n)
  {
  }

  lemma ExampleTail()
    ensures " 1" in Tokenwise(" B", LOOPING, {} + {"A"})
  {
    hide Choices;
    var t, off := LOOPING, {} + {"A"};
    assert Find(" B", 0, true) == 1 && Find(" B", 1, false) == 2 && " B"[1..2] == "B" && " B"[2..] == "";
    ExampleB();
    assert " B"[..1] + "1" + "" == " 1" && "" in Tokenwise("", t, off);
  }

  lemma ExampleB()
    ensures "1" in Choices("B", LOOPING, {} + {"A"}, 2)
  {
    var t, off := LOOPING, {} + {"A"};
    assert t["B"][0] == Object("1") && "1" in Tokenwise("1", t, off + {"B"}) by {
      assert Find("1", 0, true) == 0 && Find("1", 0, false) == 1 && "1"[0..1] == "1" && "1"[1..] == "";
      assert "" in Tokenwise("", t, off + {"B"}) && "1"[..0] + "1" + "" == "1";
    }
  }
}
