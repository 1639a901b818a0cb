// The include closure: a depth-first walk over the summary graph, and what
// analysing one translation unit returns.

module IncludeClosure {
  import opened Options
  import opened IncludeWorld
  import opened IncludeGraph

  // All nodes have all their children.
  ghost predicate Complete(w: World, nodes: seq<Node>, wants: seq<Want>) {
    |nodes| == |wants| && forall n :: 0 <= n < |nodes| ==> NodeOk(w, nodes, wants, n, false)
  }

  // A node standing for x belongs to the closure of s.
  ghost predicate Met(w: World, s: Place, x: Want) {
    match x
    case IsDead => true
    case IsFile(p) => Reaches(w, s, p)
    case IsNext(f) => exists p: Place :: Reaches(w, s, p) && !w.system(p.r) && f in w.nexts(p.r)
  }

  ghost predicate InClosure(w: World, s: Place, r: Real) {
    !w.system(r) && exists rd: RealDir :: Reaches(w, s, Place(r, rd))
  }

  // Child i of a complete node stands for the i-th thing expected of it.
  lemma ChildIs(w: World, nodes: seq<Node>, wants: seq<Want>, n: nat, i: nat)
    requires Complete(w, nodes, wants) && n < |nodes|
    ensures |nodes[n].children| == |Expected(w, wants[n])|
    ensures i < |nodes[n].children|
            ==> nodes[n].children[i] < |nodes| && wants[nodes[n].children[i]] == Expected(w, wants[n])[i]
  {
    assert NodeOk(w, nodes, wants, n, false);
    if i < |nodes[n].children| {
      assert nodes[n].children[i] in nodes[n].children;
      assert WantsOf(wants, nodes[n].children)[i] == Expected(w, wants[n])[i];
    }
  }

  lemma {:induction false} HitsAreFiles(w: World, dirs: seq<Dir>, f: Inc, x: Want)
    requires x in AllHits(w, dirs, f)
    ensures x.IsFile?
  {
    if x in AllHits(w, dirs[..|dirs| - 1], f) {
      HitsAreFiles(w, dirs[..|dirs| - 1], f, x);
    }
  }

  // What a file node expects, kind by kind.
  lemma ExpectedOfFile(w: World, p: Place, x: Want)
    requires !w.system(p.r)
    ensures x in Expected(w, IsFile(p)) <==>
            || (exists f :: f in w.quotes(p.r) && QuoteWant(w, p.rd, f) == x)
            || (exists f :: f in w.angles(p.r) && AngleWant(w, f) == x)
            || (exists f :: f in w.nexts(p.r) && IsNext(f) == x)
  {
    DirectiveIn(w, QUOTE, p.rd, w.quotes(p.r), x);
    DirectiveIn(w, ANGLE, p.rd, w.angles(p.r), x);
    DirectiveIn(w, NEXT, p.rd, w.nexts(p.r), x);
  }

  lemma DirectiveIn(w: World, mode: Mode, rd: RealDir, fs: seq<Inc>, x: Want)
    ensures x in DirectiveWants(w, mode, rd, fs) <==>
            exists f :: f in fs && x == DirectiveWant(w, mode, rd, f)
  {
    var q := DirectiveWants(w, mode, rd, fs);
    if f :| f in fs && x == DirectiveWant(w, mode, rd, f) {
      var i :| 0 <= i < |fs| && fs[i] == f;
      assert q[i] == x;
    }
    if x in q {
      var i :| 0 <= i < |q| && q[i] == x;
      assert fs[i] in fs;
    }
  }

  // The walk stays inside the closure...
  lemma StepIsMet(w: World, s: Place, x: Want, y: Want)
    requires Met(w, s, x) && y in Expected(w, x)
    ensures Met(w, s, y)
  {
    hide Expected, AllHits, Reaches;
    Unfold(w, x);
    match x
    case IsNext(f) =>
      HitsAreFiles(w, w.quoteDirs, f, y);
      var p: Place :| Reaches(w, s, p) && !w.system(p.r) && f in w.nexts(p.r);
      ReachesNext(w, s, p, y.at);
    case IsFile(p) =>
      ExpectedOfFile(w, p, y);
      if y.IsFile? { ReachesNext(w, s, p, y.at); }
    case IsDead =>
  }

  lemma Unfold(w: World, x: Want)
    ensures x.IsDead? ==> Expected(w, x) == []
    ensures x.IsNext? ==> Expected(w, x) == AllHits(w, w.quoteDirs, x.fp)
    ensures x.IsFile? && w.system(x.at.r) ==> Expected(w, x) == []
  {
  }

  // ... and a set of nodes that holds the children of its members is all of it.
  ghost predicate Closed(nodes: seq<Node>, seen: set<nat>, more: seq<nat>) {
    forall n, c :: n in seen && n < |nodes| && c in nodes[n].children ==> c in seen || c in more
  }

  lemma ChildStanding(w: World, nodes: seq<Node>, wants: seq<Want>, seen: set<nat>, n: nat, x: Want) returns (c: nat)
    requires Complete(w, nodes, wants) && |nodes| == |wants| && Closed(nodes, seen, []) && n in seen && n < |nodes|
             && x in Expected(w, wants[n])
    ensures c in seen && c < |nodes| && wants[c] == x
  {
    hide Complete, Expected;
    var q := Expected(w, wants[n]);
    var i :| 0 <= i < |q| && q[i] == x;
    ChildIs(w, nodes, wants, n, i);
    c := nodes[n].children[i];
    assert c in nodes[n].children;
  }

  lemma {:induction false} AllSeen(w: World, nodes: seq<Node>, wants: seq<Want>, seen: set<nat>, root: nat,
                                   p: seq<Place>, t: Place)
    returns (n: nat)
    requires Complete(w, nodes, wants) && |nodes| == |wants| && Closed(nodes, seen, [])
    requires root in seen && root < |nodes| && wants[root].IsFile? && Chain(w, p, wants[root].at, t)
    ensures n in seen && n < |nodes| && wants[n] == IsFile(t)
    decreases |p|
  {
    hide Complete, Expected, QuoteWant, AngleWant, AllHits, Closed, NodeOk;
    if |p| == 1 { return root; }
    var u := p[|p| - 2];
    assert Chain(w, p[..|p| - 1], wants[root].at, u);
    n := AllSeen(w, nodes, wants, seen, root, p[..|p| - 1], u);
    assert Includes(w, p[|p| - 2], p[|p| - 2 + 1]);
    ExpectedOfFile(w, u, IsFile(t));
    if IsFile(t) in Expected(w, IsFile(u)) {
      n := ChildStanding(w, nodes, wants, seen, n, IsFile(t));
    } else {
      var f :| f in w.nexts(u.r) && IsFile(t) in AllHits(w, w.quoteDirs, f);
      ExpectedOfFile(w, u, IsNext(f));
      n := ChildStanding(w, nodes, wants, seen, n, IsNext(f));
      Unfold(w, IsNext(f));
      n := ChildStanding(w, nodes, wants, seen, n, IsFile(t));
    }
  }

  // Everything on the way is in the closure, and what was visited is recorded.
  ghost predicate Walking(w: World, nodes: seq<Node>, wants: seq<Want>, s: Place, visited: set<nat>, stack: seq<nat>,
                          found: set<Real>) {
    && |nodes| == |wants| && Closed(nodes, visited, stack)
    && (forall n :: n in visited || n in stack ==> n < |nodes| && Met(w, s, wants[n]))
    && (forall n :: n in visited && n < |nodes| && wants[n].IsFile? && !w.system(wants[n].at.r) ==>
          wants[n].at.r in found)
    && (forall r :: r in found ==> InClosure(w, s, r))
  }

  // A node is visited, and its children are put on the stack.
  lemma Visit(w: World, nodes: seq<Node>, wants: seq<Want>, s: Place, visited: set<nat>, stack: seq<nat>, n: nat,
              found: set<Real>)
    requires Complete(w, nodes, wants) && Walking(w, nodes, wants, s, visited, stack + [n], found)
    ensures n < |nodes|
    ensures Walking(w, nodes, wants, s, visited + {n}, stack + nodes[n].children,
                    if wants[n].IsFile? && !w.system(wants[n].at.r) then found + {wants[n].at.r} else found)
  {
    hide Complete, Expected, NodeOk, Met, InClosure, Closed;
    assert n in stack + [n];
    forall c | c in nodes[n].children
      ensures c < |nodes| && Met(w, s, wants[c])
    {
      var i :| 0 <= i < |nodes[n].children| && nodes[n].children[i] == c;
      ChildIs(w, nodes, wants, n, i);
      StepIsMet(w, s, wants[n], wants[c]);
    }
    forall m | m in visited + {n} || m in stack + nodes[n].children
      ensures m < |nodes| && Met(w, s, wants[m])
    {
      assert m in visited || m in stack + [n] || m in nodes[n].children;
    }
    VisitCloses(nodes, visited, stack, n);
    FoundIsClosure(w, s, wants[n]);
  }

  lemma VisitCloses(nodes: seq<Node>, visited: set<nat>, stack: seq<nat>, n: nat)
    requires Closed(nodes, visited, stack + [n]) && n < |nodes|
    ensures Closed(nodes, visited + {n}, stack + nodes[n].children)
  {
  }

  lemma FoundIsClosure(w: World, s: Place, x: Want)
    requires Met(w, s, x)
    ensures x.IsFile? && !w.system(x.at.r) ==> InClosure(w, s, x.at.r)
  {
  }

  lemma Skip(w: World, nodes: seq<Node>, wants: seq<Want>, s: Place, visited: set<nat>, stack: seq<nat>, n: nat,
             found: set<Real>)
    requires Walking(w, nodes, wants, s, visited, stack + [n], found) && n in visited
    ensures Walking(w, nodes, wants, s, visited, stack, found)
  {
    hide Met, InClosure;
    forall m, c | m in visited && m < |nodes| && c in nodes[m].children
      ensures c in visited || c in stack
    {
      assert c in visited || c in stack + [n];
    }
    forall m | m in stack ensures m in stack + [n] {}
  }

  lemma Walked(w: World, nodes: seq<Node>, wants: seq<Want>, root: nat, visited: set<nat>, found: set<Real>, r: Real)
    requires Complete(w, nodes, wants) && root < |nodes| && wants[root].IsFile? && root in visited
    requires Walking(w, nodes, wants, wants[root].at, visited, [], found)
    ensures r in found <==> InClosure(w, wants[root].at, r)
  {
    hide Complete, Closed, Met, Chain;
    var s := wants[root].at;
    if InClosure(w, s, r) {
      var rd: RealDir :| Reaches(w, s, Place(r, rd));
      var p :| Chain(w, p, s, Place(r, rd));
      var n := AllSeen(w, nodes, wants, visited, root, p, Place(r, rd));
    }
  }

  // ---- The graph itself ----

  // p leads from one node to another by child edges.
  ghost predicate Path(nodes: seq<Node>, p: seq<nat>, m: nat, n: nat) {
    && p != [] && p[0] == m && p[|p| - 1] == n && (forall i :: 0 <= i < |p| ==> p[i] < |nodes|)
    && forall i :: 0 <= i < |p| - 1 ==> p[i + 1] in nodes[p[i]].children
  }

  ghost predicate InGraph(nodes: seq<Node>, root: nat, n: nat) {
    exists p :: Path(nodes, p, root, n)
  }

  lemma ChildInGraph(nodes: seq<Node>, root: nat, n: nat, c: nat)
    requires InGraph(nodes, root, n) && n < |nodes| && c in nodes[n].children && c < |nodes|
    ensures InGraph(nodes, root, c)
  {
    var p :| Path(nodes, p, root, n);
    assert Path(nodes, p + [c], root, c);
  }

  lemma {:induction false} GraphSeen(nodes: seq<Node>, seen: set<nat>, root: nat, p: seq<nat>, n: nat)
    requires Closed(nodes, seen, []) && root in seen && Path(nodes, p, root, n)
    ensures n in seen
    decreases |p|
  {
    if |p| > 1 {
      var m := p[|p| - 2];
      assert p[|p| - 2 + 1] in nodes[m].children;
      assert Path(nodes, p[..|p| - 1], root, m);
      GraphSeen(nodes, seen, root, p[..|p| - 1], m);
    }
  }

  // Node n stands for the file r, which it found under an absolute name.
  ghost predicate Names(w: World, nodes: seq<Node>, n: nat, r: Real, name: (Dir, Inc)) {
    n < |nodes| && nodes[n].file == Some(r) && !w.system(r) && nodes[n].name == Some(name) && w.absolute(name.0)
  }

  // The lists hold the names under which the visited nodes found their files.
  ghost predicate Listing(w: World, nodes: seq<Node>, root: nat, visited: set<nat>, stack: seq<nat>,
                          closure: map<Real, seq<(Dir, Inc)>>) {
    && (forall n :: n in visited || n in stack ==> n < |nodes| && InGraph(nodes, root, n))
    && forall r, x :: r in closure ==> (x in closure[r] <==> exists n :: n in visited && Names(w, nodes, n, r, x))
  }

  // The absolute names that the nodes of order found r by, one after another.
  ghost function NamesIn(w: World, nodes: seq<Node>, order: seq<nat>, r: Real): seq<(Dir, Inc)> {
    if order == [] then []
    else
      var n := order[|order| - 1];
      NamesIn(w, nodes, order[..|order| - 1], r)
      + if n < |nodes| && nodes[n].name.Some? && Names(w, nodes, n, r, nodes[n].name.value)
        then [nodes[n].name.value] else []
  }

  // No node comes twice, and those that do come are the visited ones.
  ghost predicate Once(order: seq<nat>, visited: set<nat>) {
    (forall i, j :: 0 <= i < j < |order| ==> order[i] != order[j]) && forall n :: n in order <==> n in visited
  }

  // The lists are the names found by the nodes in the order of their visits.
  ghost predicate Ordered(w: World, nodes: seq<Node>, order: seq<nat>, visited: set<nat>,
                          closure: map<Real, seq<(Dir, Inc)>>) {
    Once(order, visited)
    && forall r :: NamesIn(w, nodes, order, r) == if r in closure then closure[r] else []
  }

  lemma OrderedNext(w: World, nodes: seq<Node>, order: seq<nat>, visited: set<nat>, n: nat,
                    closure: map<Real, seq<(Dir, Inc)>>)
    requires Ordered(w, nodes, order, visited, closure) && n < |nodes| && n !in visited
    ensures Ordered(w, nodes, order + [n], visited + {n}, Visited(w, nodes[n], closure))
  {
    assert (order + [n])[..|order|] == order;
    var closure' := Visited(w, nodes[n], closure);
    forall r
      ensures NamesIn(w, nodes, order + [n], r) == if r in closure' then closure'[r] else []
    {
      assert NamesIn(w, nodes, order, r) == if r in closure then closure[r] else [];
    }
  }

  lemma OrderedStart(w: World, nodes: seq<Node>)
    ensures Ordered(w, nodes, [], {}, map[])
  {
  }

  // What visiting node n adds to the closure.
  function Visited(w: World, node: Node, closure: map<Real, seq<(Dir, Inc)>>): (c: map<Real, seq<(Dir, Inc)>>)
    ensures c.Keys == closure.Keys + if node.file.Some? && !w.system(node.file.value) then {node.file.value} else {}
  {
    if node.file.Some? && !w.system(node.file.value) then
      var r := node.file.value;
      var names := if r in closure then closure[r] else [];
      closure[r := if node.name.Some? && w.absolute(node.name.value.0) then names + [node.name.value] else names]
    else closure
  }

  lemma ListingVisit(w: World, nodes: seq<Node>, root: nat, visited: set<nat>, stack: seq<nat>, n: nat,
                     closure: map<Real, seq<(Dir, Inc)>>)
    requires Listing(w, nodes, root, visited, stack + [n], closure) && n < |nodes| && n !in visited
    requires forall c :: c in nodes[n].children ==> c < |nodes|
    requires forall m, r :: m in visited && m < |nodes| && nodes[m].file == Some(r) && !w.system(r) ==> r in closure
    ensures Listing(w, nodes, root, visited + {n}, stack + nodes[n].children, Visited(w, nodes[n], closure))
  {
    hide InGraph;
    assert n in stack + [n];
    forall c | c in nodes[n].children
      ensures InGraph(nodes, root, c)
    {
      ChildInGraph(nodes, root, n, c);
    }
    forall m | m in visited + {n} || m in stack + nodes[n].children
      ensures m < |nodes| && InGraph(nodes, root, m)
    {
      assert m in visited || m in stack + [n] || m in nodes[n].children;
    }
    var closure' := Visited(w, nodes[n], closure);
    forall r, x | r in closure'
      ensures x in closure'[r] <==> exists m :: m in visited + {n} && Names(w, nodes, m, r, x)
    {
      OneMoreName(w, nodes, visited, n, closure, r, x);
    }
  }

  lemma OneMoreName(w: World, nodes: seq<Node>, visited: set<nat>, n: nat, closure: map<Real, seq<(Dir, Inc)>>, r: Real,
                    x: (Dir, Inc))
    requires n < |nodes| && r in Visited(w, nodes[n], closure)
    requires r in closure ==> (x in closure[r] <==> exists m :: m in visited && Names(w, nodes, m, r, x))
    requires r !in closure ==> forall m :: m in visited ==> !Names(w, nodes, m, r, x)
    ensures x in Visited(w, nodes[n], closure)[r] <==> exists m :: m in visited + {n} && Names(w, nodes, m, r, x)
  {
    var after := Visited(w, nodes[n], closure)[r];
    var before := if r in closure then closure[r] else [];
    assert x in after <==> x in before || Names(w, nodes, n, r, x);
    if exists m :: m in visited && Names(w, nodes, m, r, x) {
      var m :| m in visited && Names(w, nodes, m, r, x);
      assert m in visited + {n};
    }
    assert n in visited + {n};
  }

  lemma ListingSkip(w: World, nodes: seq<Node>, root: nat, visited: set<nat>, stack: seq<nat>, n: nat,
                    closure: map<Real, seq<(Dir, Inc)>>)
    requires Listing(w, nodes, root, visited, stack + [n], closure)
    ensures Listing(w, nodes, root, visited, stack, closure)
  {
    hide InGraph, Names;
    forall m | m in stack ensures m in stack + [n] {}
  }

  lemma Listed(w: World, nodes: seq<Node>, root: nat, visited: set<nat>, closure: map<Real, seq<(Dir, Inc)>>, r: Real,
               x: (Dir, Inc))
    requires Listing(w, nodes, root, visited, [], closure) && Closed(nodes, visited, []) && root in visited
             && r in closure
    ensures x in closure[r] <==> exists n :: InGraph(nodes, root, n) && Names(w, nodes, n, r, x)
  {
    hide Closed, Names;
    if n :| InGraph(nodes, root, n) && Names(w, nodes, n, r, x) {
      var p :| Path(nodes, p, root, n);
      GraphSeen(nodes, visited, root, p, n);
    }
  }

  // What Walking and completeness say about single nodes.
  lemma NodeFacts(w: World, nodes: seq<Node>, wants: seq<Want>, s: Place, visited: set<nat>, stack: seq<nat>,
                  found: set<Real>)
    requires Complete(w, nodes, wants) && Walking(w, nodes, wants, s, visited, stack, found)
    ensures forall n, c :: 0 <= n < |nodes| && c in nodes[n].children ==> c < |nodes|
    ensures forall m, r :: m in visited && m < |nodes| && nodes[m].file == Some(r) && !w.system(r) ==> r in found
    ensures Closed(nodes, visited, stack)
  {
    hide Met, InClosure, Closed, Expected, NodeOk;
    forall n | 0 <= n < |nodes|
      ensures forall c :: c in nodes[n].children ==> c < |nodes|
      ensures nodes[n].file == if wants[n].IsFile? then Some(wants[n].at.r) else None
    {
      FileOf(w, nodes, wants, n);
    }
  }

  // ---- The walk ----

  ghost predicate Walk(w: World, nodes: seq<Node>, wants: seq<Want>, root: nat, visited: set<nat>, stack: seq<nat>,
                       closure: map<Real, seq<(Dir, Inc)>>) {
    && root < |nodes| == |wants| && wants[root].IsFile? && (root in visited || root in stack)
    && visited <= Upto(|nodes|)
    && Walking(w, nodes, wants, wants[root].at, visited, stack, closure.Keys)
    && Listing(w, nodes, root, visited, stack, closure)
  }

  lemma WalkStarts(w: World, nodes: seq<Node>, wants: seq<Want>, root: nat)
    requires Complete(w, nodes, wants) && root < |nodes| && wants[root].IsFile?
    ensures Walk(w, nodes, wants, root, {}, [root], map[])
  {
    hide Walking, Listing, NodeOk;
    Start(w, nodes, wants, root);
    var none: map<Real, seq<(Dir, Inc)>> := map[];
    assert none.Keys == {};
  }

  lemma WalkSkips(w: World, nodes: seq<Node>, wants: seq<Want>, root: nat, visited: set<nat>, stack: seq<nat>, n: nat,
                  closure: map<Real, seq<(Dir, Inc)>>)
    requires Walk(w, nodes, wants, root, visited, stack + [n], closure) && n in visited
    ensures Walk(w, nodes, wants, root, visited, stack, closure)
  {
    hide Walking, Listing;
    Skip(w, nodes, wants, wants[root].at, visited, stack, n, closure.Keys);
    ListingSkip(w, nodes, root, visited, stack, n, closure);
  }

  lemma WalkVisits(w: World, nodes: seq<Node>, wants: seq<Want>, root: nat, visited: set<nat>, stack: seq<nat>, n: nat,
                   closure: map<Real, seq<(Dir, Inc)>>)
    requires Complete(w, nodes, wants) && Walk(w, nodes, wants, root, visited, stack + [n], closure) && n !in visited
    ensures n < |nodes| && |Upto(|nodes|) - (visited + {n})| < |Upto(|nodes|) - visited|
    ensures Walk(w, nodes, wants, root, visited + {n}, stack + nodes[n].children, Visited(w, nodes[n], closure))
  {
    hide Complete, Walking, Listing, Visited, Upto;
    WalkingOn(w, nodes, wants, wants[root].at, visited, stack, n, closure);
    ListingOn(w, nodes, wants, root, visited, stack, n, closure);
    InUpto(|nodes|, n);
    Fewer(Upto(|nodes|), visited, n);
  }

  lemma InUpto(m: nat, n: nat)
    requires n < m
    ensures n in Upto(m)
  {
  }

  lemma WalkingOn(w: World, nodes: seq<Node>, wants: seq<Want>, s: Place, visited: set<nat>, stack: seq<nat>, n: nat,
                  closure: map<Real, seq<(Dir, Inc)>>)
    requires Complete(w, nodes, wants) && Walking(w, nodes, wants, s, visited, stack + [n], closure.Keys)
    ensures n < |nodes| && Walking(w, nodes, wants, s, visited + {n}, stack + nodes[n].children,
                                   Visited(w, nodes[n], closure).Keys)
  {
    hide Complete, Walking, Visited;
    Visit(w, nodes, wants, s, visited, stack, n, closure.Keys);
    FileOf(w, nodes, wants, n);
    assert closure.Keys + {} == closure.Keys;
  }

  lemma ListingOn(w: World, nodes: seq<Node>, wants: seq<Want>, root: nat, visited: set<nat>, stack: seq<nat>, n: nat,
                  closure: map<Real, seq<(Dir, Inc)>>)
    requires Complete(w, nodes, wants) && root < |nodes| == |wants| && wants[root].IsFile? && n !in visited
             && n < |nodes|
    requires Walking(w, nodes, wants, wants[root].at, visited, stack + [n], closure.Keys)
    requires Listing(w, nodes, root, visited, stack + [n], closure)
    ensures Listing(w, nodes, root, visited + {n}, stack + nodes[n].children, Visited(w, nodes[n], closure))
  {
    hide Complete, Walking, Listing, Visited, Closed;
    NodeFacts(w, nodes, wants, wants[root].at, visited, stack + [n], closure.Keys);
    ListingVisit(w, nodes, root, visited, stack, n, closure);
  }

  lemma WalkEnds(w: World, nodes: seq<Node>, wants: seq<Want>, root: nat, visited: set<nat>,
                 closure: map<Real, seq<(Dir, Inc)>>)
    requires Complete(w, nodes, wants) && Walk(w, nodes, wants, root, visited, [], closure)
    ensures root < |wants| && wants[root].IsFile? && forall r :: r in closure <==> InClosure(w, wants[root].at, r)
    ensures forall r, x :: r in closure ==>
              (x in closure[r] <==> exists n :: InGraph(nodes, root, n) && Names(w, nodes, n, r, x))
  {
    hide Complete, Walking, Listing, Closed, InClosure, InGraph, Names;
    NodeFacts(w, nodes, wants, wants[root].at, visited, [], closure.Keys);
    forall r ensures r in closure <==> InClosure(w, wants[root].at, r) {
      Walked(w, nodes, wants, root, visited, closure.Keys, r);
    }
    forall r, x | r in closure
      ensures x in closure[r] <==> exists n :: InGraph(nodes, root, n) && Names(w, nodes, n, r, x)
    {
      Listed(w, nodes, root, visited, closure, r, x);
    }
  }

  // _CalculateIncludeClosureExceptSystem: the files found are the files that
  // plain includes lead to without passing through a system file, less the
  // system files; each comes with the absolute names that nodes found it by.
  method ClosureExceptSystem(w: World, nodes: seq<Node>, root: nat, ghost wants: seq<Want>)
    returns (closure: map<Real, seq<(Dir, Inc)>>, ghost order: seq<nat>)
    requires Complete(w, nodes, wants) && root < |nodes| && wants[root].IsFile?
    ensures forall r :: r in closure <==> InClosure(w, wants[root].at, r)
    ensures forall r, x :: r in closure ==>
              (x in closure[r] <==> exists n :: InGraph(nodes, root, n) && Names(w, nodes, n, r, x))
    ensures EachOnce(nodes, root, order) && forall r :: r in closure ==> closure[r] == NamesIn(w, nodes, order, r)
  {
    hide *;
    var visited: set<nat> := {};
    var stack := [root];
    closure, order := map[], [];
    WalkStarts(w, nodes, wants, root);
    OrderedStart(w, nodes);
    while stack != []
      invariant Ordered(w, nodes, order, visited, closure)
      invariant Walk(w, nodes, wants, root, visited, stack, closure)
      decreases |Upto(|nodes|) - visited|, |stack|
    {
      var n := stack[|stack| - 1];
      assert stack == stack[..|stack| - 1] + [n];
      stack := stack[..|stack| - 1];
      if n in visited {
        WalkSkips(w, nodes, wants, root, visited, stack, n, closure);
        continue;
      }
      WalkVisits(w, nodes, wants, root, visited, stack, n, closure);
      OrderedNext(w, nodes, order, visited, n, closure);
      visited, order := visited + {n}, order + [n];
      closure := Visited(w, nodes[n], closure);
      stack := stack + nodes[n].children;
    }
    WalkEnds(w, nodes, wants, root, visited, closure);
    OrderEnds(w, nodes, wants, root, visited, closure, order);
  }

  // All nodes of the graph, each of them once.
  ghost predicate EachOnce(nodes: seq<Node>, root: nat, order: seq<nat>) {
    && (forall i, j :: 0 <= i < j < |order| ==> order[i] != order[j])
    && forall n :: n in order <==> InGraph(nodes, root, n)
  }

  lemma OrderEnds(w: World, nodes: seq<Node>, wants: seq<Want>, root: nat, visited: set<nat>,
                  closure: map<Real, seq<(Dir, Inc)>>, order: seq<nat>)
    requires Walk(w, nodes, wants, root, visited, [], closure) && Ordered(w, nodes, order, visited, closure)
    ensures EachOnce(nodes, root, order) && forall r :: r in closure ==> closure[r] == NamesIn(w, nodes, order, r)
  {
    hide NamesIn, Names, Met, InClosure, Closed;
    forall n ensures n in visited <==> InGraph(nodes, root, n) {
      VisitedIsGraph(w, nodes, wants, root, visited, closure, n);
    }
  }

  lemma VisitedIsGraph(w: World, nodes: seq<Node>, wants: seq<Want>, root: nat, visited: set<nat>,
                       closure: map<Real, seq<(Dir, Inc)>>, n: nat)
    requires Walk(w, nodes, wants, root, visited, [], closure)
    ensures n in visited <==> InGraph(nodes, root, n)
  {
    hide Names, Met, InClosure, Closed, Path;
    if InGraph(nodes, root, n) {
      var p :| Path(nodes, p, root, n);
      GraphSeen(nodes, visited, root, p, n);
    }
  }

  lemma Start(w: World, nodes: seq<Node>, wants: seq<Want>, root: nat)
    requires Complete(w, nodes, wants) && root < |nodes| && wants[root].IsFile?
    ensures |nodes| == |wants| && Walking(w, nodes, wants, wants[root].at, {}, [root], {})
            && Listing(w, nodes, root, {}, [root], map[])
  {
    ReachesSelf(w, wants[root].at);
    assert Path(nodes, [root], root, root);
  }

  lemma FileOf(w: World, nodes: seq<Node>, wants: seq<Want>, n: nat)
    requires Complete(w, nodes, wants) && n < |nodes|
    ensures |nodes| == |wants| && nodes[n].file == if wants[n].IsFile? then Some(wants[n].at.r) else None
    ensures forall c :: c in nodes[n].children ==> c < |nodes|
  {
    assert NodeOk(w, nodes, wants, n, false);
  }

  ghost function Upto(n: nat): (s: set<nat>)
    ensures forall i: nat :: i in s <==> i < n
  {
    if n == 0 then {} else Upto(n - 1) + {n - 1}
  }

  lemma Fewer(all: set<nat>, visited: set<nat>, n: nat)
    requires n in all && n !in visited
    ensures |all - (visited + {n})| < |all - visited|
  {
    assert all - (visited + {n}) == (all - visited) - {n};
  }

  lemma NoneOpen(a: Analyzer)
    requires a.Inv({})
    ensures Complete(a.w, a.nodes, a.wants)
  {
    var open: set<nat> := {};
    assert a.Inv(open);
    forall n | 0 <= n < |a.nodes|
      ensures NodeOk(a.w, a.nodes, a.wants, n, false)
    {
      assert NodeOk(a.w, a.nodes, a.wants, n, n in open);
    }
  }

  // The absolute name x leads to the file r.
  ghost predicate NamesFile(w: World, x: (Dir, Inc), r: Real) {
    w.absolute(x.0) && Hit(w, x.0, x.1).Some? && Hit(w, x.0, x.1).value.r == r
  }

  lemma NamesResolve(w: World, nodes: seq<Node>, wants: seq<Want>, n: nat, r: Real, x: (Dir, Inc))
    requires Complete(w, nodes, wants) && Names(w, nodes, n, r, x)
    ensures NamesFile(w, x, r)
  {
    hide Expected;
    assert NodeOk(w, nodes, wants, n, false);
  }

  // RunAlgorithm: find the node of the translation unit and walk from it.  The
  // caches left by earlier translation units are kept and used; whatever they
  // hold, the answer is the plain one.
  method RunAlgorithm(a: Analyzer, d: Dir, f: Inc, ghost b: Bounds)
    returns (closure: map<Real, seq<(Dir, Inc)>>, ghost order: seq<nat>)
    requires a.Inv({}) && Bounded(a.w, b) && f in b.incs && a.w.realDir(d) in b.dirs && Hit(a.w, d, f).Some?
    modifies a
    ensures a.Inv({})
    ensures forall r :: r in closure <==> InClosure(a.w, Hit(a.w, d, f).value, r)
    ensures Resolved(d, f) in a.cache
    ensures forall r, x :: r in closure ==>
              (x in closure[r] <==>
                 exists m :: InGraph(a.nodes, a.cache[Resolved(d, f)], m) && Names(a.w, a.nodes, m, r, x))
    ensures EachOnce(a.nodes, a.cache[Resolved(d, f)], order)
    ensures forall r :: r in closure ==> closure[r] == NamesIn(a.w, a.nodes, order, r)
    ensures forall r, x :: r in closure && x in closure[r] ==> NamesFile(a.w, x, r)
    ensures var r := Hit(a.w, d, f).value.r; a.w.absolute(d) && !a.w.system(r) ==> r in closure && (d, f) in closure[r]
  {
    hide Bounded, NodeOk, CacheOk, Coherent, InClosure, Grown, EachOnce, NamesIn;
    ghost var U := (set r, rd | r in b.reals && rd in b.dirs :: Really(Place(r, rd)))
                   + (set e, g | e in a.w.quoteDirs && g in b.incs :: Resolved(e, g)) + {Resolved(d, f)};
    var n := a.FindNode(Resolved(d, f), {}, b, U);
    NoneOpen(a);
    closure, order := ClosureExceptSystem(a.w, a.nodes, n, a.wants);
    forall r, x | r in closure && x in closure[r]
      ensures NamesFile(a.w, x, r)
    {
      var m :| InGraph(a.nodes, n, m) && Names(a.w, a.nodes, m, r, x);
      NamesResolve(a.w, a.nodes, a.wants, m, r, x);
    }
    RootNamed(a, d, f);
    var r := Hit(a.w, d, f).value.r;
    RootInClosure(a.w, Hit(a.w, d, f).value);
    if a.w.absolute(d) && !a.w.system(r) {
      assert Names(a.w, a.nodes, n, r, (d, f));
    }
  }

  // The node of the translation unit is in the graph, under the name it was asked for.
  lemma RootNamed(a: Analyzer, d: Dir, f: Inc)
    requires a.Inv({}) && Resolved(d, f) in a.cache && Hit(a.w, d, f).Some?
    ensures var n := a.cache[Resolved(d, f)];
            && n < |a.nodes| && InGraph(a.nodes, n, n) && a.nodes[n].name == Some((d, f))
            && a.nodes[n].file == Some(Hit(a.w, d, f).value.r)
  {
    var n := a.cache[Resolved(d, f)];
    assert Path(a.nodes, [n], n, n);
    assert NodeOk(a.w, a.nodes, a.wants, n, false) by { NoneOpen(a); }
  }

  lemma RootInClosure(w: World, s: Place)
    ensures !w.system(s.r) ==> InClosure(w, s, s.r)
  {
    ReachesSelf(w, s);
  }
}
