// Temporary files to remove on exit: a list that a signal handler may find in
// the middle of any operation on it.
//
// Memory is explicit, so that reading what has been freed is a fault.  The
// program takes one step for each statement that matters to the list; a signal
// may come between any two steps, and its handler does not return.

module Cleanup {
  import opened Options

  datatype Cell = Null | Ptr(id: nat)

  datatype Memory = Memory(
    arrays: map<nat, seq<Cell>>,   // the arrays allocated and not yet freed
    strings: map<nat, string>,
    cleanups: Option<nat>,
    size: nat,
    count: nat)

  // Where the program is: between operations, in dcc_add_cleanup, or in
  // dcc_cleanup_tempfiles_inner, each state named after the statement just done.
  datatype Control =
    | Idle
    | Wanting(name: string)
    | Grown(name: string, bigger: nat)
    | Copied(name: string, bigger: nat)
    | Swapped(name: string, former: Option<nat>)
    | Resized(name: string, former: Option<nat>)
    | Roomy(name: string)
    | Duplicated(name: string, p: nat)
    | Stored(name: string, p: nat)
    | Picked(i: nat)
    | Removed(i: nat)
    | Discounted(i: nat)
    | Freed(i: nat)

  // What the caller asks for when idle, and what the allocator gives.
  datatype Event = Add(name: string) | Clean | Go | Allocate(id: nat, junk: seq<Cell>) | OutOfMemory

  // pending: names added and not yet cleaned, oldest first; added and tried: every
  // name whose addition was completed, and every name whose removal was tried.
  datatype State = State(m: Memory, at: Control, pending: seq<string>, added: set<string>, tried: set<string>)

  datatype Outcome = Fault | Fine(s: State)

  const START := State(Memory(map[], map[], None, 0, 0), Idle, [], {}, {})

  // The string that cleanups[i] points to, if all of that is allocated.
  function Name(m: Memory, i: nat): Option<string> {
    if m.cleanups.Some? && m.cleanups.value in m.arrays && i < |m.arrays[m.cleanups.value]| then
      match m.arrays[m.cleanups.value][i]
      case Null => None
      case Ptr(p) => if p in m.strings then Some(m.strings[p]) else None
    else None
  }

  // Storing into the array that cleanups points to.
  function Put(m: Memory, i: nat, c: Cell): Option<Memory> {
    if m.cleanups.Some? && m.cleanups.value in m.arrays && i < |m.arrays[m.cleanups.value]| then
      Some(m.(arrays := m.arrays[m.cleanups.value := m.arrays[m.cleanups.value][i := c]]))
    else None
  }

  function Enlarged(size: nat): nat { if size == 0 then 10 else size * 3 }

  // ---- dcc_add_cleanup, one statement at a time ----

  predicate Adding(at: Control) {
    at.Wanting? || at.Grown? || at.Copied? || at.Swapped? || at.Resized? || at.Roomy? || at.Duplicated? || at.Stored?
  }

  predicate Cleaning(at: Control) {
    at.Picked? || at.Removed? || at.Discounted? || at.Freed?
  }

  // What malloc gives holds whatever it held before.
  function Fresh(n: nat, junk: seq<Cell>): (a: seq<Cell>)
    ensures |a| == n
  {
    seq(n, i => if 0 <= i < |junk| then junk[i] else Null)
  }

  function AddStep(s: State, e: Event): Outcome
    requires Adding(s.at)
  {
    var m := s.m;
    match s.at
    case Wanting(name) =>
      if e.OutOfMemory? then Fine(s.(at := Idle))
      else if e.Allocate? && e.id !in m.arrays then
        Fine(s.(at := Grown(name, e.id), m := m.(arrays := m.arrays[e.id := Fresh(Enlarged(m.size), e.junk)])))
      else Fine(s)
    case Grown(name, b) =>
      if b !in m.arrays || |m.arrays[b]| < m.size then Fault
      else if m.size == 0 then Fine(s.(at := Copied(name, b)))
      else if m.cleanups.None? || m.cleanups.value !in m.arrays || |m.arrays[m.cleanups.value]| < m.size then Fault
      else Fine(s.(at := Copied(name, b),
                   m := m.(arrays := m.arrays[b := m.arrays[m.cleanups.value][..m.size] + m.arrays[b][m.size..]])))
    case Copied(name, b) => Fine(s.(at := Swapped(name, m.cleanups), m := m.(cleanups := Some(b))))
    case Swapped(name, former) => Fine(s.(at := Resized(name, former), m := m.(size := Enlarged(m.size))))
    case Resized(name, former) =>
      if former.None? then Fine(s.(at := Roomy(name)))
      else if former.value !in m.arrays then Fault
      else Fine(s.(at := Roomy(name), m := m.(arrays := m.arrays - {former.value})))
    case Roomy(name) =>
      if e.OutOfMemory? then Fine(s.(at := Idle))
      else if e.Allocate? && e.id !in m.strings then
        Fine(s.(at := Duplicated(name, e.id), m := m.(strings := m.strings[e.id := name])))
      else Fine(s)
    case Duplicated(name, p) =>
      var m' := Put(m, m.count, Ptr(p));
      if m'.None? then Fault else Fine(s.(at := Stored(name, p), m := m'.value))
    case Stored(name, p) =>
      Fine(s.(at := Idle, m := m.(count := m.count + 1), pending := s.pending + [name], added := s.added + {name}))
  }

  // ---- dcc_cleanup_tempfiles_inner, not in a signal handler ----

  function CleanStep(s: State): Outcome
    requires Cleaning(s.at)
  {
    var m, i := s.m, s.at.i;
    match s.at
    case Picked(_) =>
      var name := Name(m, i);
      if name.None? then Fault else Fine(s.(at := Removed(i), tried := s.tried + {name.value}))
    case Removed(_) =>
      Fine(s.(at := Discounted(i), m := m.(count := i),
              pending := if i <= |s.pending| then s.pending[..i] else s.pending))
    case Discounted(_) =>
      if Name(m, i).None? then Fault
      else Fine(s.(at := Freed(i), m := m.(strings := m.strings - {m.arrays[m.cleanups.value][i].id})))
    case Freed(_) =>
      var m' := Put(m, i, Null);
      if m'.None? then Fault else Fine(s.(at := if i == 0 then Idle else Picked(i - 1), m := m'.value))
  }

  function Step(s: State, e: Event): Outcome {
    if s.at.Idle? then
      if e.Clean? && s.m.count > 0 then Fine(s.(at := Picked(s.m.count - 1)))
      else if e.Add? then Fine(s.(at := if s.m.count + 1 > s.m.size then Wanting(e.name) else Roomy(e.name)))
      else Fine(s)
    else if Adding(s.at) then AddStep(s, e)
    else CleanStep(s)
  }

  function Run(s: State, es: seq<Event>): Outcome
    decreases |es|
  {
    if es == [] then Fine(s)
    else match Step(s, es[0])
      case Fault => Fault
      case Fine(next) => Run(next, es[1..])
  }

  // ---- The signal handler ----

  // The removals it tries, in order; nothing if it reads what is not there.
  function Handle(m: Memory): Option<seq<string>>
    decreases m.count
  {
    if m.count == 0 then Some([])
    else
      var i := m.count - 1;
      match Name(m, i)
      case None => None
      case Some(name) =>
        match Handle(Put(m, i, Null).value.(count := i))
        case None => None
        case Some(rest) => Some([name] + rest)
  }

  function Reversed(names: seq<string>): seq<string> {
    if names == [] then [] else [names[|names| - 1]] + Reversed(names[..|names| - 1])
  }

  // ---- What holds between any two steps ----

  // The first cells point to strings of their own, which are the pending names.
  ghost predicate Listed(m: Memory, pending: seq<string>) {
    && m.count == |pending|
    && (m.cleanups.Some? ==> m.cleanups.value in m.arrays && m.count <= |m.arrays[m.cleanups.value]|)
    && (m.cleanups.None? ==> m.count == 0)
    && (m.cleanups.Some? ==>
          var a := m.arrays[m.cleanups.value];
          && (forall i :: 0 <= i < m.count ==> a[i].Ptr? && a[i].id in m.strings && m.strings[a[i].id] == pending[i])
          && (forall i, j :: 0 <= i < j < m.count ==> a[i] != a[j]))
  }

  // The size on record is that of the array, or smaller.
  ghost predicate Sized(m: Memory) {
    m.count <= m.size &&
    if m.cleanups.Some? then m.cleanups.value in m.arrays && m.size <= |m.arrays[m.cleanups.value]| else m.size == 0
  }

  // The string at p is not on the list.
  ghost predicate Apart(m: Memory, p: nat, n: nat) {
    p in m.strings
    && (m.cleanups.Some? && m.cleanups.value in m.arrays ==>
          forall i :: 0 <= i < n && i < |m.arrays[m.cleanups.value]| ==> m.arrays[m.cleanups.value][i] != Ptr(p))
  }

  ghost predicate Bigger(m: Memory, b: nat) {
    b in m.arrays && m.cleanups != Some(b) && |m.arrays[b]| == Enlarged(m.size) && m.count == m.size
  }

  ghost predicate At(s: State)
    requires Listed(s.m, s.pending) && Sized(s.m)
  {
    var m := s.m;
    match s.at
    case Idle => true
    case Wanting(_) => m.count == m.size
    case Grown(_, b) => Bigger(m, b)
    case Copied(_, b) => Bigger(m, b)
      && (m.cleanups.Some? ==> m.arrays[b][..m.size] == m.arrays[m.cleanups.value][..m.size])
    case Swapped(_, former) => m.cleanups.Some? && m.cleanups != former
      && |m.arrays[m.cleanups.value]| == Enlarged(m.size) && m.count == m.size
                               && (former.Some? ==> former.value in m.arrays)
    case Resized(_, former) => m.cleanups.Some? && m.cleanups != former && m.count < m.size
      && (former.Some? ==> former.value in m.arrays)
    case Roomy(_) => m.count < m.size
    case Duplicated(name, p) => m.count < m.size && Apart(m, p, m.count) && m.strings[p] == name
    case Stored(name, p) => m.count < m.size && Apart(m, p, m.count) && Name(m, m.count) == Some(name)
      && m.arrays[m.cleanups.value][m.count] == Ptr(p)
    case Picked(i) => m.count == i + 1
    case Removed(i) => m.count == i + 1 && s.pending[i] in s.tried
    case Discounted(i) => m.count == i < m.size && Name(m, i).Some? && Apart(m, m.arrays[m.cleanups.value][i].id, i)
    case Freed(i) => m.count == i < m.size
  }

  ghost predicate Inv(s: State) {
    Listed(s.m, s.pending) && Sized(s.m) && At(s) && forall x :: x in s.added ==> x in s.tried || x in s.pending
  }

  lemma StepKeeps(s: State, e: Event)
    requires Inv(s)
    ensures Step(s, e).Fine? && Inv(Step(s, e).s)
  {
    if Adding(s.at) {
      AddKeeps(s, e);
    } else if Cleaning(s.at) {
      CleanKeeps(s);
    }
  }

  lemma AddKeeps(s: State, e: Event)
    requires Inv(s) && Adding(s.at)
    ensures AddStep(s, e).Fine? && Inv(AddStep(s, e).s)
  {
    if s.at.Wanting? || s.at.Grown? {
      MakeRoomKeeps(s, e);
    } else if s.at.Copied? {
      SwapKeeps(s, e);
    } else if s.at.Duplicated? || s.at.Stored? {
      StoreKeeps(s, e);
    } else {
      OtherKeeps(s, e);
    }
  }

  lemma MakeRoomKeeps(s: State, e: Event)
    requires Inv(s) && (s.at.Wanting? || s.at.Grown?)
    ensures AddStep(s, e).Fine? && Inv(AddStep(s, e).s)
  {
  }

  // The new array agrees with the old one on the cells in use.
  lemma SwapKeeps(s: State, e: Event)
    requires Inv(s) && s.at.Copied?
    ensures AddStep(s, e).Fine? && Inv(AddStep(s, e).s)
  {
  }

  lemma OtherKeeps(s: State, e: Event)
    requires Inv(s) && (s.at.Swapped? || s.at.Resized? || s.at.Roomy?)
    ensures AddStep(s, e).Fine? && Inv(AddStep(s, e).s)
  {
  }

  lemma StoreKeeps(s: State, e: Event)
    requires Inv(s) && (s.at.Duplicated? || s.at.Stored?)
    ensures AddStep(s, e).Fine? && Inv(AddStep(s, e).s)
  {
  }

  lemma CleanKeeps(s: State)
    requires Inv(s) && Cleaning(s.at)
    ensures CleanStep(s).Fine? && Inv(CleanStep(s).s)
  {
  }

  lemma {:induction false} HandlesAll(m: Memory, pending: seq<string>)
    requires Listed(m, pending)
    ensures Handle(m) == Some(Reversed(pending))
    decreases m.count
  {
    if m.count > 0 {
      var i := m.count - 1;
      HandlesAll(Put(m, i, Null).value.(count := i), pending[..i]);
    }
  }

  lemma {:induction false} RunKeeps(s: State, es: seq<Event>)
    requires Inv(s)
    ensures Run(s, es).Fine? && Inv(Run(s, es).s)
    decreases |es|
  {
    if es != [] {
      StepKeeps(s, es[0]);
      RunKeeps(Step(s, es[0]).s, es[1..]);
    }
  }

  lemma {:induction false} ReversedHasAll(names: seq<string>, x: string)
    ensures x in Reversed(names) <==> x in names
  {
    if names != [] {
      ReversedHasAll(names[..|names| - 1], x);
      assert names == names[..|names| - 1] + [names[|names| - 1]];
    }
  }

  // The last name comes first.
  lemma {:induction false} ReversedAt(names: seq<string>, k: nat)
    ensures |Reversed(names)| == |names|
    ensures k < |names| ==> Reversed(names)[k] == names[|names| - 1 - k]
  {
    if names != [] {
      ReversedAt(names[..|names| - 1], if k == 0 then 0 else k - 1);
    }
  }

  // Whatever is added and cleaned, however the allocator answers, and wherever
  // the signal comes: nothing freed is used, the handler tries the pending names,
  // newest first, and so every name ever added has had its removal tried.
  lemma SignalAnywhere(es: seq<Event>)
    ensures Run(START, es).Fine?
    ensures var s := Run(START, es).s;
            && Handle(s.m).Some? && var tries := Handle(s.m).value;
            && |tries| == |s.pending| && (forall k :: 0 <= k < |tries| ==> tries[k] == s.pending[|s.pending| - 1 - k])
            && forall x :: x in s.added ==> x in s.tried || x in Handle(s.m).value
  {
    RunKeeps(START, es);
    var s := Run(START, es).s;
    HandlesAll(s.m, s.pending);
    forall x ensures x in Reversed(s.pending) <==> x in s.pending { ReversedHasAll(s.pending, x); }
    ReversedAt(s.pending, 0);
    forall k | 0 <= k < |s.pending|
      ensures Reversed(s.pending)[k] == s.pending[|s.pending| - 1 - k]
    {
      ReversedAt(s.pending, k);
    }
  }

  function Gos(n: nat): (es: seq<Event>)
    ensures |es| == n && forall k :: 0 <= k < n ==> es[k] == Go
  {
    seq(n, _ => Go)
  }

  lemma {:induction false} RunInTwo(s: State, es: seq<Event>, fs: seq<Event>)
    requires Run(s, es).Fine?
    ensures Run(s, es + fs) == Run(Run(s, es).s, fs)
    decreases |es|
  {
    if es == [] {
      assert es + fs == fs;
    } else {
      assert (es + fs)[1..] == es[1..] + fs;
      RunInTwo(Step(s, es[0]).s, es[1..], fs);
    }
  }

  // Left alone, a cleanup tries every pending name and leaves none.
  lemma {:induction false} CleanEmpties(s: State)
    requires Inv(s) && s.at.Picked?
    ensures var r := Run(s, Gos(4 * (s.at.i + 1)));
            r.Fine? && r.s.at.Idle? && r.s.pending == [] && r.s.tried == s.tried + set x | x in s.pending
    decreases s.at.i
  {
    hide Inv, Step, Run;
    var i := s.at.i;
    OneCleaned(s);
    var t := Run(s, Gos(4)).s;
    RunInTwo(s, Gos(4), Gos(4 * i));
    assert Gos(4) + Gos(4 * i) == Gos(4 * (i + 1));
    if i > 0 {
      CleanEmpties(t);
    } else {
      RunNone(t);
    }
    assert s.pending == s.pending[..i] + [s.pending[i]];
  }

  lemma RunNone(s: State)
    ensures Run(s, Gos(0)) == Fine(s)
  {
  }

  lemma OneCleaned(s: State)
    requires Inv(s) && s.at.Picked?
    ensures |s.pending| == s.at.i + 1
    ensures var r, i := Run(s, Gos(4)), s.at.i;
            && r.Fine? && Inv(r.s) && r.s.pending == s.pending[..i] && r.s.tried == s.tried + {s.pending[i]}
            && r.s.at == if i == 0 then Idle else Picked(i - 1)
  {
    hide Listed, Sized;
    NameIsPending(s);
    CleanKeeps(s);
    var a := CleanStep(s).s;
    CleanKeeps(a);
    var b := CleanStep(a).s;
    CleanKeeps(b);
    var c := CleanStep(b).s;
    CleanKeeps(c);
    FourSteps(s, a, b, c, CleanStep(c).s);
  }

  lemma FourSteps(s: State, a: State, b: State, c: State, d: State)
    requires Step(s, Go) == Fine(a) && Step(a, Go) == Fine(b) && Step(b, Go) == Fine(c) && Step(c, Go) == Fine(d)
    ensures Run(s, Gos(4)) == Fine(d)
  {
  }

  lemma NameIsPending(s: State)
    requires Inv(s) && s.at.Picked?
    ensures |s.pending| == s.at.i + 1 && Name(s.m, s.at.i) == Some(s.pending[s.at.i])
  {
  }

  // A whole cleanup, from when it is asked for.
  lemma CleanRuns(s: State)
    requires Inv(s) && s.at.Idle?
    ensures var r := Run(s, [Clean] + Gos(4 * s.m.count));
            r.Fine? && r.s.at.Idle? && r.s.pending == [] && r.s.tried == s.tried + set x | x in s.pending
  {
    hide Gos, Run, Inv;
    StepKeeps(s, Clean);
    RunStep(s, Clean, Gos(4 * s.m.count));
    PendingCount(s);
    if s.m.count > 0 {
      CleanEmpties(Step(s, Clean).s);
    } else {
      RunNone(s);
    }
  }

  lemma PendingCount(s: State)
    requires Inv(s)
    ensures s.m.count == |s.pending|
  {
  }

  lemma RunStep(s: State, e: Event, es: seq<Event>)
    requires Step(s, e).Fine?
    ensures Run(s, [e] + es) == Run(Step(s, e).s, es)
  {
    assert ([e] + es)[1..] == es;
  }

  // What an addition is granted: a bigger array if the old one is full, and a string.
  function Granted(s: State, name: string, id: nat, junk: seq<Cell>, p: nat): seq<Event> {
    [Add(name)] + ((if s.m.count < s.m.size then [] else [Allocate(id, junk)] + ([Go] + ([Go] + ([Go] + ([Go] + [])))))
                   + ([Allocate(p, [])] + ([Go] + ([Go] + []))))
  }

  // A whole addition, with memory granted: one more name, nothing else lost.
  lemma AddRuns(s: State, name: string, id: nat, junk: seq<Cell>, p: nat)
    requires Inv(s) && s.at.Idle? && id !in s.m.arrays && p !in s.m.strings
    ensures var r := Run(s, Granted(s, name, id, junk, p));
            r.Fine? && r.s.at.Idle? && r.s.pending == s.pending + [name] && r.s.added == s.added + {name}
              && r.s.tried == s.tried
  {
    hide Run, Inv;
    var last := [Allocate(p, [])] + ([Go] + ([Go] + []));
    StepKeeps(s, Add(name));
    var a := Step(s, Add(name)).s;
    if s.m.count < s.m.size {
      RunStep(s, Add(name), [] + last);
      assert [] + last == last;
      Named(a, p);
    } else {
      var first := [Allocate(id, junk)] + ([Go] + ([Go] + ([Go] + ([Go] + []))));
      RunStep(s, Add(name), first + last);
      MadeRoom(a, id, junk);
      RunInTwo(a, first, last);
      Named(Run(a, first).s, p);
    }
  }

  lemma MadeRoom(s: State, id: nat, junk: seq<Cell>)
    requires Inv(s) && s.at.Wanting? && id !in s.m.arrays
    ensures var r := Run(s, [Allocate(id, junk)] + ([Go] + ([Go] + ([Go] + ([Go] + [])))));
            && r.Fine? && Inv(r.s) && r.s.at == Roomy(s.at.name) && r.s.m.strings == s.m.strings
            && r.s.pending == s.pending && r.s.added == s.added && r.s.tried == s.tried
  {
    hide Inv, Run, Step;
    StepKeeps(s, Allocate(id, junk));
    AddMoves(s, Allocate(id, junk));
    RunStep(s, Allocate(id, junk), [Go] + ([Go] + ([Go] + ([Go] + []))));
    var a := Step(s, Allocate(id, junk)).s;
    StepKeeps(a, Go);
    AddMoves(a, Go);
    RunStep(a, Go, [Go] + ([Go] + ([Go] + [])));
    var b := Step(a, Go).s;
    StepKeeps(b, Go);
    AddMoves(b, Go);
    RunStep(b, Go, [Go] + ([Go] + []));
    var c := Step(b, Go).s;
    StepKeeps(c, Go);
    AddMoves(c, Go);
    RunStep(c, Go, [Go] + []);
    var d := Step(c, Go).s;
    StepKeeps(d, Go);
    AddMoves(d, Go);
    RunStep(d, Go, []);
    RunEnds(Step(d, Go).s);
  }

  // Where the statements that make room lead, and what they leave alone.
  lemma AddMoves(s: State, e: Event)
    requires Step(s, e).Fine? && (s.at.Wanting? || s.at.Grown? || s.at.Copied? || s.at.Swapped? || s.at.Resized?)
    ensures var t := Step(s, e).s;
            && t.m.strings == s.m.strings && t.pending == s.pending && t.added == s.added && t.tried == s.tried
            && match s.at
               case Wanting(n) => e.Allocate? && e.id !in s.m.arrays ==> t.at.Grown? && t.at.name == n
               case Grown(n, _) => t.at.Copied? && t.at.name == n
               case Copied(n, _) => t.at.Swapped? && t.at.name == n
               case Swapped(n, _) => t.at.Resized? && t.at.name == n
               case Resized(n, _) => t.at == Roomy(n)
               case _ => true
  {
  }

  lemma Named(s: State, p: nat)
    requires Inv(s) && s.at.Roomy? && p !in s.m.strings
    ensures var r := Run(s, [Allocate(p, [])] + ([Go] + ([Go] + [])));
            && r.Fine? && r.s.at.Idle? && r.s.pending == s.pending + [s.at.name]
            && r.s.added == s.added + {s.at.name} && r.s.tried == s.tried
  {
    hide Inv, Run;
    StepKeeps(s, Allocate(p, []));
    var a := Step(s, Allocate(p, [])).s;
    StepKeeps(a, Go);
    var b := Step(a, Go).s;
    RunStep(s, Allocate(p, []), [Go] + ([Go] + []));
    RunStep(a, Go, [Go] + []);
    StepKeeps(b, Go);
    RunStep(b, Go, []);
    RunEnds(Step(b, Go).s);
  }

  lemma RunEnds(s: State)
    ensures Run(s, []) == Fine(s)
  {
  }

  // ---- Nothing leaks ----

  function Only(p: Option<nat>): set<nat> {
    if p.Some? then {p.value} else {}
  }

  // The arrays that are still needed: the list, and while it is being enlarged
  // the one to come or the one that was.
  ghost function Arrays(s: State): set<nat> {
    Only(s.m.cleanups)
    + match s.at
      case Grown(_, b) => {b}
      case Copied(_, b) => {b}
      case Swapped(_, former) => Only(former)
      case Resized(_, former) => Only(former)
      case _ => {}
  }

  // p is the string of a cell of the list, or the one that is being entered or
  // taken off.
  ghost predicate Needed(s: State, p: nat) {
    || (s.m.cleanups.Some? && s.m.cleanups.value in s.m.arrays
        && Ptr(p) in s.m.arrays[s.m.cleanups.value][..Min(s.m.count, |s.m.arrays[s.m.cleanups.value]|)])
    || match s.at
       case Duplicated(_, q) => p == q
       case Stored(_, q) => p == q
       case Discounted(i) => Pointed(s.m, i) == Some(p)
       case _ => false
  }

  function Min(a: nat, b: nat): nat { if a < b then a else b }

  function Pointed(m: Memory, i: nat): Option<nat> {
    if m.cleanups.Some? && m.cleanups.value in m.arrays && i < |m.arrays[m.cleanups.value]|
       && m.arrays[m.cleanups.value][i].Ptr? then Some(m.arrays[m.cleanups.value][i].id)
    else None
  }

  // All that is allocated is needed.
  ghost predicate Tidy(s: State) {
    TidyArrays(s) && TidyStrings(s)
  }

  ghost predicate TidyArrays(s: State) {
    s.m.arrays.Keys == Arrays(s)
  }

  ghost predicate TidyStrings(s: State) {
    forall p :: p in s.m.strings ==> Needed(s, p)
  }

  lemma ArraysAdd(s: State, e: Event)
    requires Inv(s) && TidyArrays(s) && Adding(s.at) && AddStep(s, e).Fine?
    ensures TidyArrays(AddStep(s, e).s)
  {
  }

  lemma StringsRoom(s: State, e: Event)
    requires Inv(s) && TidyStrings(s) && Adding(s.at) && AddStep(s, e).Fine?
    requires s.at.Wanting? || s.at.Grown? || s.at.Copied? || s.at.Swapped? || s.at.Resized?
    ensures TidyStrings(AddStep(s, e).s)
  {
  }

  lemma StringsEnter(s: State, e: Event)
    requires Inv(s) && TidyStrings(s) && (s.at.Roomy? || s.at.Duplicated? || s.at.Stored?) && AddStep(s, e).Fine?
    ensures TidyStrings(AddStep(s, e).s)
  {
  }

  lemma ArraysClean(s: State)
    requires Inv(s) && TidyArrays(s) && Cleaning(s.at) && CleanStep(s).Fine?
    ensures TidyArrays(CleanStep(s).s)
  {
  }

  lemma StringsPick(s: State)
    requires Inv(s) && TidyStrings(s) && s.at.Picked? && CleanStep(s).Fine?
    ensures TidyStrings(CleanStep(s).s)
  {
  }

  lemma StringsRemove(s: State)
    requires Inv(s) && TidyStrings(s) && s.at.Removed? && CleanStep(s).Fine?
    ensures TidyStrings(CleanStep(s).s)
  {
    var t := CleanStep(s).s;
    forall p | p in t.m.strings ensures Needed(t, p) {
      assert Needed(s, p);
    }
  }

  lemma StringsClean(s: State)
    requires Inv(s) && TidyStrings(s) && (s.at.Freed? || s.at.Discounted?) && CleanStep(s).Fine?
    ensures TidyStrings(CleanStep(s).s)
  {
  }

  lemma TidyStep(s: State, e: Event)
    requires Inv(s) && Tidy(s) && Step(s, e).Fine?
    ensures Tidy(Step(s, e).s)
  {
    hide Inv, AddStep, CleanStep, TidyArrays, TidyStrings;
    if Adding(s.at) {
      ArraysAdd(s, e);
      if s.at.Roomy? || s.at.Duplicated? || s.at.Stored? { StringsEnter(s, e); } else { StringsRoom(s, e); }
    } else if Cleaning(s.at) {
      ArraysClean(s);
      if s.at.Picked? {
        StringsPick(s);
      } else if s.at.Removed? {
        StringsRemove(s);
      } else {
        StringsClean(s);
      }
    } else {
      TidyIdle(s, e);
    }
  }

  lemma TidyIdle(s: State, e: Event)
    requires Tidy(s) && s.at.Idle? && Step(s, e).Fine?
    ensures Tidy(Step(s, e).s)
  {
  }

  lemma {:induction false} TidyRun(s: State, es: seq<Event>)
    requires Inv(s) && Tidy(s)
    ensures Run(s, es).Fine? && Inv(Run(s, es).s) && Tidy(Run(s, es).s)
    decreases |es|
  {
    hide Inv, Tidy, Step;
    if es != [] {
      StepKeeps(s, es[0]);
      TidyStep(s, es[0]);
      TidyRun(Step(s, es[0]).s, es[1..]);
    }
  }

  // Between operations, whatever came before, only the list itself and the names
  // on it are allocated.
  lemma NothingLeaks(es: seq<Event>)
    requires Run(START, es).Fine? && Run(START, es).s.at.Idle?
    ensures var m := Run(START, es).s.m;
            && m.arrays.Keys == Only(m.cleanups)
            && forall p :: p in m.strings ==> exists i :: 0 <= i < m.count && Pointed(m, i) == Some(p)
  {
    TidyRun(START, es);
    var s := Run(START, es).s;
    IdleOwns(s);
  }

  lemma IdleOwns(s: State)
    requires Inv(s) && Tidy(s) && s.at.Idle?
    ensures s.m.arrays.Keys == Only(s.m.cleanups)
    ensures forall p :: p in s.m.strings ==> exists i :: 0 <= i < s.m.count && Pointed(s.m, i) == Some(p)
  {
    forall p | p in s.m.strings
      ensures exists i :: 0 <= i < s.m.count && Pointed(s.m, i) == Some(p)
    {
      assert Needed(s, p);
      var cells := s.m.arrays[s.m.cleanups.value];
      var i :| 0 <= i < s.m.count && cells[i] == Ptr(p);
      assert Pointed(s.m, i) == Some(p);
    }
  }
}
