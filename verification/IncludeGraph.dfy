// FindNode: the memoised summary graph, for files whose directives are quote,
// angle and include_next, over one include configuration.

module IncludeGraph {
  import opened Options
  import opened IncludeWorld

  datatype Mode = QUOTE | ANGLE | NEXT

  // The keys of the node cache: a name as written, a resolved name, and a real place.
  datatype Key = Named(fp: Inc, mode: Mode, dir: Dir) | Resolved(d: Dir, fp: Inc) | Really(at: Place)

  // A node: the file it resolved to, if any, the directory and include path that
  // it resolved to it by, and its direct include dependencies.
  // Nodes have identity; they are numbered in the order they are made.
  datatype Node = Node(file: Option<Real>, name: Option<(Dir, Inc)>, children: seq<nat>)

  // A name leads to the file a node stands for, and there is one just for a file.
  ghost predicate NameOk(w: World, name: Option<(Dir, Inc)>, want: Want) {
    if want.IsFile? then name.Some? && Hit(w, name.value.0, name.value.1) == Some(want.at) else name.None?
  }

  ghost function KeyWant(w: World, k: Key): Want {
    match k
    case Named(f, QUOTE, d) => QuoteWant(w, w.realDir(d), f)
    case Named(f, ANGLE, d) => AngleWant(w, f)
    case Named(f, NEXT, d) => IsNext(f)
    case Resolved(d, f) => FileIn(w, Some(d), f)
    case Really(p) => IsFile(p)
  }

  // The nodes that a node should have as children, in order.
  ghost function Expected(w: World, x: Want): seq<Want> {
    match x
    case IsDead => []
    case IsNext(f) => AllHits(w, w.quoteDirs, f)
    case IsFile(p) =>
      if w.system(p.r) then []
      else DirectiveWants(w, QUOTE, p.rd, w.quotes(p.r)) + DirectiveWants(w, ANGLE, p.rd, w.angles(p.r))
           + DirectiveWants(w, NEXT, p.rd, w.nexts(p.r))
  }

  ghost function DirectiveWants(w: World, mode: Mode, rd: RealDir, fs: seq<Inc>): (q: seq<Want>)
    ensures |q| == |fs|
  {
    seq(|fs|, i requires 0 <= i < |fs| => DirectiveWant(w, mode, rd, fs[i]))
  }

  ghost function DirectiveWant(w: World, mode: Mode, rd: RealDir, f: Inc): Want {
    match mode
    case QUOTE => QuoteWant(w, rd, f)
    case ANGLE => AngleWant(w, f)
    case NEXT => IsNext(f)
  }

  ghost function WantsOf(wants: seq<Want>, children: seq<nat>): (q: seq<Want>)
    ensures |q| == |children|
  {
    seq(|children|, i requires 0 <= i < |children| => if children[i] < |wants| then wants[children[i]] else IsDead)
  }

  // Node n names the file it stands for, and has its expected children: all of
  // them, or, while it is still being filled in, the first few.
  ghost predicate NodeOk(w: World, nodes: seq<Node>, wants: seq<Want>, n: nat, open: bool)
    requires |nodes| == |wants| && n < |nodes|
  {
    var node := nodes[n];
    (forall c :: c in node.children ==> c < |nodes|)
    && node.file == (if wants[n].IsFile? then Some(wants[n].at.r) else None) && NameOk(w, node.name, wants[n])
    && if open then WantsOf(wants, node.children) <= Expected(w, wants[n])
       else WantsOf(wants, node.children) == Expected(w, wants[n])
  }

  lemma NodeKept(w: World, nodes: seq<Node>, wants: seq<Want>, node: Node, want: Want, n: nat, open: bool)
    requires |nodes| == |wants| && n < |nodes| && NodeOk(w, nodes, wants, n, open)
    ensures NodeOk(w, nodes + [node], wants + [want], n, open)
  {
    var children := nodes[n].children;
    forall i | 0 <= i < |children|
      ensures WantsOf(wants + [want], children)[i] == WantsOf(wants, children)[i]
    {
      assert children[i] in children;
    }
    assert WantsOf(wants + [want], children) == WantsOf(wants, children);
  }

  lemma FreshNode(w: World, nodes: seq<Node>, wants: seq<Want>, node: Node, want: Want)
    requires |nodes| == |wants| && node.children == [] && NameOk(w, node.name, want)
    requires node.file == (if want.IsFile? then Some(want.at.r) else None)
    ensures NodeOk(w, nodes + [node], wants + [want], |nodes|, true)
  {
    hide Expected, NameOk;
  }

  ghost predicate CacheOk(w: World, cache: map<Key, nat>, wants: seq<Want>) {
    forall k :: k in cache ==> cache[k] < |wants| && wants[cache[k]] == KeyWant(w, k)
  }

  // A resolved name leads to a node that was found by that very name.
  ghost predicate Addressed(nodes: seq<Node>, cache: map<Key, nat>) {
    forall k :: k in cache && k.Resolved? ==> cache[k] < |nodes| && nodes[cache[k]].name == Some((k.d, k.fp))
  }

  // What the cache and the graph look like at one moment.
  datatype Graph = Graph(nodes: seq<Node>, wants: seq<Want>, cache: map<Key, nat>)

  // A key keeps its node, nodes keep their meaning, and open nodes are left alone.
  ghost predicate Grown(g: Graph, h: Graph, open: set<nat>) {
    |g.nodes| <= |h.nodes| && g.wants <= h.wants
      && (forall k :: k in g.cache ==> k in h.cache && h.cache[k] == g.cache[k])
    && (forall n :: n in open && n < |g.nodes| ==> h.nodes[n] == g.nodes[n])
  }

  lemma GrownTransitive(g: Graph, h: Graph, k: Graph, open: set<nat>, open': set<nat>, both: set<nat>)
    requires Grown(g, h, open) && Grown(h, k, open') && both <= open && both <= open'
    ensures Grown(g, k, both)
  {
  }

  // What a node's children stand for does not change when the graph grows.
  lemma ChildrenKept(w: World, g: Graph, h: Graph, open: set<nat>, n: nat)
    requires Grown(g, h, open) && n in open && n < |g.nodes| == |g.wants| && NodeOk(w, g.nodes, g.wants, n, true)
    ensures n < |h.nodes| && n < |h.wants| && h.wants[n] == g.wants[n]
    ensures WantsOf(h.wants, h.nodes[n].children) == WantsOf(g.wants, g.nodes[n].children)
  {
    var children := g.nodes[n].children;
    forall i | 0 <= i < |children|
      ensures WantsOf(h.wants, children)[i] == WantsOf(g.wants, children)[i]
    {
      assert children[i] in children;
    }
  }

  lemma DirectiveStep(w: World, mode: Mode, dir: Dir, fs: seq<Inc>, i: nat, b: Bounds, U: set<Key>)
    requires i < |fs| && w.realDir(dir) in b.dirs && fs[i] in b.incs
    ensures DirectiveWants(w, mode, w.realDir(dir), fs)[i] == KeyWant(w, Named(fs[i], mode, dir))
    ensures InBounds(w, b, U, Named(fs[i], mode, dir))
  {
  }

  lemma NoHits(w: World, f: Inc)
    ensures AllHits(w, [], f) == []
  {
  }

  lemma HitStep(w: World, f: Inc, i: nat, b: Bounds, U: set<Key>)
    requires i < |w.quoteDirs| && Universe(w, b, U) && f in b.incs
    ensures var d, hits := w.quoteDirs[i], AllHits(w, w.quoteDirs[..i], f);
            if Hit(w, d, f).Some? then
              && AllHits(w, w.quoteDirs[..i + 1], f) == hits + [KeyWant(w, Resolved(d, f))]
                 <= AllHits(w, w.quoteDirs, f)
              && InBounds(w, b, U, Resolved(d, f))
            else AllHits(w, w.quoteDirs[..i + 1], f) == hits
  {
    assert w.quoteDirs[..i + 1][..i] == w.quoteDirs[..i];
    HitsPrefix(w, f, w.quoteDirs, i + 1);
  }

  lemma {:induction false} HitsPrefix(w: World, f: Inc, dirs: seq<Dir>, i: nat)
    requires i <= |dirs|
    ensures AllHits(w, dirs[..i], f) <= AllHits(w, dirs, f)
    decreases |dirs| - i
  {
    if i < |dirs| {
      HitsPrefix(w, f, dirs, i + 1);
      assert dirs[..i + 1][..i] == dirs[..i];
    } else {
      assert dirs[..i] == dirs;
    }
  }

  lemma FileDirectives(w: World, p: Place, b: Bounds, U: set<Key>)
    requires Universe(w, b, U) && p.r in b.reals && !w.system(p.r)
    ensures forall f :: f in w.quotes(p.r) || f in w.angles(p.r) || f in w.nexts(p.r) ==> f in b.incs
    ensures var q, a, x := DirectiveWants(w, QUOTE, p.rd, w.quotes(p.r)), DirectiveWants(w, ANGLE, p.rd, w.angles(p.r)),
                           DirectiveWants(w, NEXT, p.rd, w.nexts(p.r));
            [] + q <= Expected(w, IsFile(p)) && [] + q + a <= Expected(w, IsFile(p))
              && [] + q + a + x == Expected(w, IsFile(p))
  {
  }

  function Rank(k: Key): nat { if k.Named? && k.mode == NEXT then 4 else 1 }

  lemma RankSmall(k: Key)
    ensures Rank(k) <= 4
  {
  }

  // U holds every key that starts a new descent: the places in bounds, and the
  // names that #include_next resolves to.
  ghost predicate Universe(w: World, b: Bounds, U: set<Key>) {
    Bounded(w, b)
    && (forall p: Place :: p.r in b.reals && p.rd in b.dirs ==> Really(p) in U)
    && (forall d: Dir, f: Inc :: d in w.quoteDirs && f in b.incs ==> Resolved(d, f) in U)
  }

  ghost predicate InBounds(w: World, b: Bounds, U: set<Key>, k: Key) {
    match k
    case Named(f, mode, d) => f in b.incs && w.realDir(d) in b.dirs
    case Resolved(d, f) => f in b.incs && w.realDir(d) in b.dirs && Hit(w, d, f).Some? && k in U
    case Really(p) => false
  }

  lemma FewerLeft(U: set<Key>, seen: set<Key>, seen': set<Key>)
    requires seen <= seen'
    ensures |U - seen'| <= |U - seen|
    ensures forall k :: k in U && k in seen' && k !in seen ==> |U - seen'| < |U - seen|
  {
    var met := U * seen' - seen;
    assert U - seen == (U - seen') + met && (U - seen') * met == {};
    assert forall k :: k in U && k in seen' && k !in seen ==> k in met;
  }

  class Analyzer {
    const w: World
    var nodes: seq<Node>
    var cache: map<Key, nat>
    ghost var wants: seq<Want>

    ghost function Now(): Graph
      reads this
    {
      Graph(nodes, wants, cache)
    }

    // open: the nodes whose children are still being collected.
    ghost predicate Inv(open: set<nat>)
      reads this
    {
      Coherent(w) && |nodes| == |wants| && CacheOk(w, cache, wants) && Addressed(nodes, cache)
      && (forall m :: m in open ==> m < |nodes|)
      && (forall n :: 0 <= n < |nodes| ==> NodeOk(w, nodes, wants, n, n in open))
    }

    // The children node n has so far, by what they stand for.
    ghost function Has(n: nat): seq<Want>
      reads this
      requires n < |nodes|
    {
      WantsOf(wants, nodes[n].children)
    }

    constructor (world: World)
      requires Coherent(world)
      ensures Inv({}) && w == world && nodes == [] && cache == map[]
    {
      w, nodes, cache, wants := world, [], map[], [];
    }

    // A node is entered under its key, with children still to come.
    method NewNode(key: Key, file: Option<Real>, name: Option<(Dir, Inc)>, ghost want: Want, ghost open: set<nat>)
      returns (n: nat)
      requires Inv(open) && key !in cache && want == KeyWant(w, key)
               && file == (if want.IsFile? then Some(want.at.r) else None)
      requires NameOk(w, name, want) && (key.Resolved? ==> name == Some((key.d, key.fp)))
      modifies this
      ensures Inv(open + {n}) && n !in open && n < |nodes| && nodes[n].children == [] && wants[n] == want
      ensures Grown(old(Now()), Now(), open) && cache == old(cache)[key := n]
    {
      hide NodeOk, NameOk, KeyWant, Expected, WantsOf;
      n := |nodes|;
      FreshNode(w, nodes, wants, Node(file, name, []), want);
      forall m | 0 <= m < |nodes|
        ensures NodeOk(w, nodes + [Node(file, name, [])], wants + [want], m, m in open)
      {
        NodeKept(w, nodes, wants, Node(file, name, []), want, m, m in open);
      }
      nodes := nodes + [Node(file, name, [])];
      wants := wants + [want];
      cache := cache[key := n];
    }

    // One more child.
    method AddChild(n: nat, c: nat, ghost open: set<nat>)
      requires Inv(open) && n in open && n < |nodes| && c < |nodes| == |wants|
      requires Has(n) + [wants[c]] <= Expected(w, wants[n])
      modifies this
      ensures Inv(open) && n < |nodes| && Has(n) == old(Has(n)) + [old(wants)[c]]
      ensures Grown(old(Now()), Now(), open - {n})
    {
      nodes := nodes[n := nodes[n].(children := nodes[n].children + [c])];
      assert WantsOf(wants, nodes[n].children) == WantsOf(wants, old(nodes)[n].children) + [wants[c]];
    }

    // One directive of node n: find the node it leads to and make that a child.
    method AddFound(n: nat, key: Key, ghost open: set<nat>, ghost b: Bounds, ghost U: set<Key>, ghost g: Graph)
      requires Inv(open) && n in open && n < |nodes| == |wants| && Grown(g, Now(), open - {n})
      requires Universe(w, b, U) && InBounds(w, b, U, key)
      requires Has(n) + [KeyWant(w, key)] <= Expected(w, wants[n])
      modifies this
      ensures Inv(open) && n < |nodes| && Has(n) == old(Has(n)) + [KeyWant(w, key)]
      ensures Grown(g, Now(), open - {n}) && |U - cache.Keys| <= |U - old(cache).Keys|
      ensures |nodes| == |wants| && wants[n] == old(wants)[n]
      decreases |U - cache.Keys|, Rank(key) + 1
    {
      hide Inv, Universe, Expected, WantsOf, Grown, KeyWant;
      OpenNode(n, open);
      var c := FindNode(key, open, b, U);
      label Found:
      ChildrenKept(w, old(Now()), Now(), open, n);
      AddChild(n, c, open);
      GrownTransitive(old(Now()), old@Found(Now()), Now(), open, open - {n}, open - {n});
      GrownKeys(old(Now()), Now(), open - {n});
      FewerLeft(U, old(cache).Keys, cache.Keys);
      GrownTransitive(g, old(Now()), Now(), open - {n}, open - {n}, open - {n});
    }

    lemma OpenNode(n: nat, open: set<nat>)
      requires Inv(open) && n in open
      ensures n < |nodes| == |wants| && NodeOk(w, nodes, wants, n, true)
    {
    }

    // The loop over the directives of one kind.
    method Collect(n: nat, mode: Mode, fs: seq<Inc>, dir: Dir, ghost open: set<nat>, ghost b: Bounds, ghost U: set<Key>,
                   ghost g: Graph)
      requires Inv(open) && n in open && n < |nodes| == |wants| && Grown(g, Now(), open - {n})
      requires Universe(w, b, U) && w.realDir(dir) in b.dirs && forall f :: f in fs ==> f in b.incs
      requires Has(n) + DirectiveWants(w, mode, w.realDir(dir), fs) <= Expected(w, wants[n])
      modifies this
      ensures Inv(open) && Grown(g, Now(), open - {n}) && |U - cache.Keys| <= |U - old(cache).Keys|
      ensures n < |nodes| == |wants| && wants[n] == old(wants)[n]
      ensures Has(n) == old(Has(n)) + DirectiveWants(w, mode, w.realDir(dir), fs)
      decreases |U - cache.Keys|, 6
    {
      hide *;
      ghost var q := DirectiveWants(w, mode, w.realDir(dir), fs);
      var i := 0;
      while i < |fs|
        invariant 0 <= i <= |fs| && Inv(open) && Grown(g, Now(), open - {n})
                  && |U - cache.Keys| <= |U - old(cache).Keys|
        invariant n < |nodes| == |wants| && wants[n] == old(wants)[n] && Has(n) == old(Has(n)) + q[..i]
      {
        PrefixStep(old(Has(n)), q, i, Expected(w, wants[n]));
        DirectiveStep(w, mode, dir, fs, i, b, U);
        RankSmall(Named(fs[i], mode, dir));
        AddFound(n, Named(fs[i], mode, dir), open, b, U, g);
        i := i + 1;
      }
    }

    lemma GrownSelf(g: Graph, open: set<nat>)
      ensures Grown(g, g, open)
    {
    }

    lemma GrownKeys(g: Graph, h: Graph, open: set<nat>)
      requires Grown(g, h, open)
      ensures g.cache.Keys <= h.cache.Keys
      ensures forall k :: k in g.cache ==> h.cache[k] == g.cache[k]
    {
    }

    lemma PrefixStep(before: seq<Want>, q: seq<Want>, i: nat, all: seq<Want>)
      requires before + q <= all && i < |q|
      ensures before + q[..i] + [q[i]] <= all && before + q[..i] + [q[i]] == before + q[..i + 1]
    {
    }

    // All three kinds, in order; dir names the directory of the file.
    method Follow(n: nat, place: Place, dir: Dir, ghost open: set<nat>, ghost b: Bounds, ghost U: set<Key>)
      requires Inv(open) && n in open && n < |nodes| == |wants|
      requires Universe(w, b, U) && place.r in b.reals && place.rd in b.dirs && w.realDir(dir) == place.rd
      requires wants[n] == IsFile(place) && nodes[n].children == [] && !w.system(place.r)
      modifies this
      ensures Inv(open - {n}) && Grown(old(Now()), Now(), open - {n})
      decreases |U - cache.Keys|, 7
    {
      hide Inv, WantsOf, Grown, NodeOk, DirectiveWants, Universe, Expected;
      FileDirectives(w, place, b, U);
      ghost var g := Now();
      GrownSelf(g, open - {n});
      assert Has(n) == [];
      Collect(n, QUOTE, w.quotes(place.r), dir, open, b, U, g);
      Collect(n, ANGLE, w.angles(place.r), dir, open, b, U, g);
      Collect(n, NEXT, w.nexts(place.r), dir, open, b, U, g);
      Close(n, open);
    }

    // A node that has all its children is no longer open.
    lemma Close(n: nat, open: set<nat>)
      requires Inv(open) && n in open && n < |nodes| == |wants| && Has(n) == Expected(w, wants[n])
      ensures Inv(open - {n})
    {
    }

    // The dummy node of an #include_next: a child for every directory that has the file.
    method FollowNext(n: nat, f: Inc, ghost open: set<nat>, ghost b: Bounds, ghost U: set<Key>)
      requires Inv(open) && n in open && n < |nodes| == |wants|
      requires Universe(w, b, U) && f in b.incs && wants[n] == IsNext(f) && nodes[n].children == []
      modifies this
      ensures Inv(open - {n}) && Grown(old(Now()), Now(), open - {n})
      decreases |U - cache.Keys|, 3
    {
      hide Inv, WantsOf, Grown, NodeOk, Universe, InBounds, Bounded, AllHits;
      ghost var g := Now();
      GrownSelf(g, open - {n});
      NoHits(w, f);
      assert Has(n) == [] && w.quoteDirs[..0] == [];
      var i := 0;
      while i < |w.quoteDirs|
        invariant 0 <= i <= |w.quoteDirs| && Inv(open) && Grown(g, Now(), open - {n})
                  && |U - cache.Keys| <= |U - old(cache).Keys|
        invariant n < |nodes| == |wants| && wants[n] == IsNext(f) && Has(n) == AllHits(w, w.quoteDirs[..i], f)
      {
        var d := w.quoteDirs[i];
        HitStep(w, f, i, b, U);
        if Hit(w, d, f).Some? {
          AddFound(n, Resolved(d, f), open, b, U, g);
        }
        i := i + 1;
      }
      assert w.quoteDirs[..i] == w.quoteDirs;
      Close(n, open);
    }

    // FindNode.  A key seen before gives the node made for it then, even if that
    // node is still open; otherwise the name is resolved, and a place seen before
    // gives its node; otherwise the directives of the file are followed.
    method FindNode(key: Key, ghost open: set<nat>, ghost b: Bounds, ghost U: set<Key>) returns (n: nat)
      requires Inv(open) && Universe(w, b, U) && InBounds(w, b, U, key)
      modifies this
      ensures Inv(open) && n < |nodes| == |wants| && wants[n] == KeyWant(w, key) && Grown(old(Now()), Now(), open)
      ensures key in cache && cache[key] == n
      decreases |U - cache.Keys|, Rank(key)
    {
      hide Inv, Universe, Grown, Bounded, Expected, WantsOf, NodeOk, Coherent;
      if key in cache {
        n := cache[key];
        CachedNode(key, open);
        GrownSelf(Now(), open);
        return;
      }
      if key.Named? && key.mode == NEXT {
        n := NewNode(key, None, None, IsNext(key.fp), open);
        label Made:
        NodeCounts(open + {n});
        FewerLeft(U, old(cache).Keys, cache.Keys);
        FollowNext(n, key.fp, open + {n}, b, U);
        Finished(old(Now()), old@Made(Now()), n, open);
        GrownKeys(old@Made(Now()), Now(), open + {n} - {n});
        return;
      }
      var name := if key.Resolved? then Some(key.d)
                  else if key.mode == QUOTE then FirstHit(w, [key.dir] + w.quoteDirs, key.fp)
                  else FirstHit(w, w.angleDirs, key.fp);
      NameResolves(w, key, name);
      if name.None? {
        n := NewNode(key, None, None, IsDead, open);
        NodeCounts(open + {n});
        CloseDead(n, open + {n});
        assert open + {n} - {n} == open;
        return;
      }
      var place := Hit(w, name.value, key.fp).value;
      if key.Named? && Really(place) in cache {
        // The node already there replaces the one just made for key.
        n := cache[Really(place)];
        CachedNode(Really(place), open);
        Alias(key, n, open);
        return;
      }
      n := FollowFile(key, name.value, place, open, b, U);
    }

    // A file not met before: make its node, and follow its directives unless it
    // is a system file.
    method FollowFile(key: Key, d: Dir, place: Place, ghost open: set<nat>, ghost b: Bounds, ghost U: set<Key>)
      returns (n: nat)
      requires Inv(open) && Universe(w, b, U) && InBounds(w, b, U, key) && key !in cache
      requires !(key.Named? && Really(place) in cache)
      requires Hit(w, d, key.fp) == Some(place) && KeyWant(w, key) == IsFile(place) && (key.Resolved? ==> d == key.d)
      modifies this
      ensures Inv(open) && n < |nodes| == |wants| && wants[n] == KeyWant(w, key) && Grown(old(Now()), Now(), open)
      ensures key in cache && cache[key] == n
      decreases |U - cache.Keys|, 0
    {
      hide Inv, Universe, Grown, Bounded, Expected, WantsOf, NodeOk, Coherent, KeyWant;
      NodeCounts(open);
      PlaceInBounds(w, key, d, place, b, U);
      n := NewNode(key, Some(place.r), Some((d, key.fp)), IsFile(place), open);
      NodeCounts(open + {n});
      if key.Named? {
        label Made:
        Alias(Really(place), n, open + {n});
        GrownTransitive(old(Now()), old@Made(Now()), Now(), open, open + {n}, open);
      }
      FewerLeft(U, old(cache).Keys, cache.Keys);
      if w.system(place.r) {
        CloseSystem(n, open + {n});
        assert open + {n} - {n} == open;
        return;
      }
      var dir := w.dirName(d, key.fp);
      label Ready:
      Follow(n, place, dir, open + {n}, b, U);
      Finished(old(Now()), old@Ready(Now()), n, open);
      GrownKeys(old@Ready(Now()), Now(), open + {n} - {n});
    }

    lemma CloseSystem(n: nat, open: set<nat>)
      requires Inv(open) && n in open && n < |nodes| == |wants| && nodes[n].children == []
      requires wants[n].IsFile? && w.system(wants[n].at.r)
      ensures Inv(open - {n})
    {
    }

    lemma CachedNode(key: Key, open: set<nat>)
      requires Inv(open) && key in cache
      ensures cache[key] < |nodes| == |wants| && wants[cache[key]] == KeyWant(w, key)
    {
    }

    lemma NodeCounts(open: set<nat>)
      requires Inv(open)
      ensures |nodes| == |wants| && Coherent(w)
    {
    }

    lemma CloseDead(n: nat, open: set<nat>)
      requires Inv(open) && n in open && n < |nodes| == |wants| && wants[n] == IsDead && nodes[n].children == []
      ensures Inv(open - {n})
    {
    }

    // A node already there is entered under another key.
    method Alias(key: Key, n: nat, ghost open: set<nat>)
      requires Inv(open) && key !in cache && n < |wants| && wants[n] == KeyWant(w, key) && !key.Resolved?
      modifies this
      ensures Inv(open) && nodes == old(nodes) && wants == old(wants) && cache == old(cache)[key := n]
      ensures Grown(old(Now()), Now(), open)
    {
      cache := cache[key := n];
    }

    lemma Finished(g: Graph, h: Graph, n: nat, open: set<nat>)
      requires Grown(g, h, open) && Grown(h, Now(), open + {n} - {n}) && n !in open && n < |h.nodes| == |h.wants|
      requires Inv(open + {n} - {n})
      ensures Inv(open) && Grown(g, Now(), open) && n < |nodes| == |wants| && wants[n] == h.wants[n]
    {
    }
  }

  lemma PlaceInBounds(w: World, key: Key, d: Dir, p: Place, b: Bounds, U: set<Key>)
    requires Coherent(w) && Universe(w, b, U) && InBounds(w, b, U, key) && Hit(w, d, key.fp) == Some(p)
             && KeyWant(w, key) == IsFile(p)
    ensures p.r in b.reals && p.rd in b.dirs && w.realDir(w.dirName(d, key.fp)) == p.rd
    ensures if key.Named? then Really(p) in U && KeyWant(w, Really(p)) == IsFile(p) else key in U
  {
  }

  // What resolving a name finds is what the key stands for.
  lemma NameResolves(w: World, key: Key, name: Option<Dir>)
    requires !key.Really? && !(key.Named? && key.mode == NEXT)
    requires name == if key.Resolved? then Some(key.d)
                     else if key.mode == QUOTE then FirstHit(w, [key.dir] + w.quoteDirs, key.fp)
                     else FirstHit(w, w.angleDirs, key.fp)
    requires key.Resolved? ==> Hit(w, key.d, key.fp).Some?
    ensures name.None? ==> KeyWant(w, key) == IsDead
    ensures name.Some? ==>
              Hit(w, name.value, key.fp).Some? && KeyWant(w, key) == IsFile(Hit(w, name.value, key.fp).value)
  {
  }
}
