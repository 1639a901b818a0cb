// What the memoising include analysis is about: a fixed file system, its
// include directives, and the plain include relation between files.
//
// A directory has many names, and so unboundedly many relative paths may denote
// one file.  Files and directories proper are named by their real paths.

module IncludeWorld {
  import opened Options

  type Dir = nat      // index of a directory name
  type Inc = nat      // index of an include path
  type Real = nat     // index of a file's real path
  type RealDir = nat  // index of a directory's real path

  datatype World = World(
    realDir: Dir -> RealDir,                // the real path of a directory name
    lookup: (RealDir, Inc) -> Option<Real>, // the file that dir/inc is, if it is one
    dirOf: (RealDir, Inc) -> RealDir,       // the real path of dirname(dir/inc)
    dirName: (Dir, Inc) -> Dir,             // its name
    absolute: Dir -> bool,                  // the directory name starts with a slash
    quotes: Real -> seq<Inc>,               // #include "inc" in a file
    angles: Real -> seq<Inc>,               // #include <inc>
    nexts: Real -> seq<Inc>,                // #include_next
    system: Real -> bool,                   // under a default system directory
    quoteDirs: seq<Dir>,
    angleDirs: seq<Dir>)

  // Directory names of one real directory lead to the same places.
  ghost predicate Coherent(w: World) {
    forall d: Dir, f: Inc :: w.realDir(w.dirName(d, f)) == w.dirOf(w.realDir(d), f)
  }

  // Where an include stands: a file, seen from a directory that resolves its quotes.
  datatype Place = Place(r: Real, rd: RealDir)

  // What a node of the summary graph stands for.
  datatype Want = IsFile(at: Place) | IsNext(fp: Inc) | IsDead

  function Hit(w: World, d: Dir, f: Inc): Option<Place> {
    match w.lookup(w.realDir(d), f)
    case None => None
    case Some(r) => Some(Place(r, w.dirOf(w.realDir(d), f)))
  }

  // The first search directory that has f, as a file name there.
  function FirstHit(w: World, dirs: seq<Dir>, f: Inc): (d: Option<Dir>)
    ensures d.Some? ==> d.value in dirs && Hit(w, d.value, f).Some?
    ensures d.None? ==> forall x :: x in dirs ==> Hit(w, x, f).None?
  {
    if dirs == [] then None
    else if Hit(w, dirs[0], f).Some? then Some(dirs[0])
    else FirstHit(w, dirs[1..], f)
  }

  // No directory before it has f.
  lemma {:induction false} FirstHitIsFirst(w: World, dirs: seq<Dir>, f: Inc, k: nat)
    requires k <= |dirs| && forall i :: 0 <= i < k ==> Hit(w, dirs[i], f).None?
    ensures k < |dirs| && Hit(w, dirs[k], f).Some? ==> FirstHit(w, dirs, f) == Some(dirs[k])
    ensures k == |dirs| ==> FirstHit(w, dirs, f) == None
  {
    if k > 0 {
      assert Hit(w, dirs[0], f).None?;
      FirstHitIsFirst(w, dirs[1..], f, k - 1);
    }
  }

  function FileIn(w: World, d: Option<Dir>, f: Inc): Want {
    if d.None? then IsDead
    else match Hit(w, d.value, f) case None => IsDead case Some(p) => IsFile(p)
  }

  // Resolution of one directive in a file whose directory has real path rd.
  ghost function QuoteWant(w: World, rd: RealDir, f: Inc): Want {
    match w.lookup(rd, f)
    case Some(r) => IsFile(Place(r, w.dirOf(rd, f)))
    case None => FileIn(w, FirstHit(w, w.quoteDirs, f), f)
  }

  ghost function AngleWant(w: World, f: Inc): Want {
    FileIn(w, FirstHit(w, w.angleDirs, f), f)
  }

  // #include_next stands for every file of that name along the quote directories.
  ghost function AllHits(w: World, dirs: seq<Dir>, f: Inc): seq<Want> {
    if dirs == [] then []
    else
      AllHits(w, dirs[..|dirs| - 1], f)
      + match Hit(w, dirs[|dirs| - 1], f) case None => [] case Some(p) => [IsFile(p)]
  }

  // A quoted name is looked up in the directory of the file that has it, and then
  // along the quote directories, where the first that has it counts ...
  lemma QuoteMeans(w: World, rd: RealDir, f: Inc, p: Place)
    ensures QuoteWant(w, rd, f) == IsFile(p) <==>
            if w.lookup(rd, f).Some? then w.lookup(rd, f) == Some(p.r) && w.dirOf(rd, f) == p.rd
            else exists k :: FirstAt(w, w.quoteDirs, f, k) && Stands(w, w.quoteDirs[k], f, p)
  {
    FirstHitMeans(w, w.quoteDirs, f, p);
  }

  // ... a name in angle brackets along the angle directories only ...
  lemma AngleMeans(w: World, f: Inc, p: Place)
    ensures AngleWant(w, f) == IsFile(p)
            <==> exists k :: FirstAt(w, w.angleDirs, f, k) && Stands(w, w.angleDirs[k], f, p)
  {
    FirstHitMeans(w, w.angleDirs, f, p);
  }

  // ... and #include_next counts every quote directory that has it.
  lemma NextMeans(w: World, f: Inc, p: Place)
    ensures IsFile(p) in AllHits(w, w.quoteDirs, f) <==> exists d :: d in w.quoteDirs && Stands(w, d, f, p)
  {
    AllHitsMean(w, w.quoteDirs, f, p);
  }

  // The file f in directory d is the one at p.
  ghost predicate Stands(w: World, d: Dir, f: Inc, p: Place) {
    w.lookup(w.realDir(d), f) == Some(p.r) && w.dirOf(w.realDir(d), f) == p.rd
  }

  ghost predicate FirstAt(w: World, dirs: seq<Dir>, f: Inc, k: int) {
    0 <= k < |dirs| && w.lookup(w.realDir(dirs[k]), f).Some?
    && forall i :: 0 <= i < k ==> w.lookup(w.realDir(dirs[i]), f).None?
  }

  lemma FirstHitMeans(w: World, dirs: seq<Dir>, f: Inc, p: Place)
    ensures FileIn(w, FirstHit(w, dirs, f), f) == IsFile(p) <==>
            exists k :: FirstAt(w, dirs, f, k) && Stands(w, dirs[k], f, p)
  {
    var k := FirstOf(w, dirs, f, 0);
    forall i | 0 <= i < k ensures Hit(w, dirs[i], f).None? {
      assert w.lookup(w.realDir(dirs[i]), f).None?;
    }
    FirstHitIsFirst(w, dirs, f, k);
    if k < |dirs| {
      assert FirstAt(w, dirs, f, k);
    }
  }

  lemma FirstOf(w: World, dirs: seq<Dir>, f: Inc, from: nat) returns (k: nat)
    requires from <= |dirs| && forall i :: 0 <= i < from ==> w.lookup(w.realDir(dirs[i]), f).None?
    ensures k <= |dirs| && (k < |dirs| ==> FirstAt(w, dirs, f, k))
    ensures forall i :: 0 <= i < k ==> w.lookup(w.realDir(dirs[i]), f).None?
    decreases |dirs| - from
  {
    k := from;
    if from < |dirs| && w.lookup(w.realDir(dirs[from]), f).None? {
      k := FirstOf(w, dirs, f, from + 1);
    }
  }

  lemma {:induction false} AllHitsMean(w: World, dirs: seq<Dir>, f: Inc, p: Place)
    ensures IsFile(p) in AllHits(w, dirs, f) <==> exists d :: d in dirs && Stands(w, d, f, p)
    decreases |dirs|
  {
    if dirs != [] {
      var front, last := dirs[..|dirs| - 1], dirs[|dirs| - 1];
      AllHitsMean(w, front, f, p);
      assert dirs == front + [last];
      assert forall d :: d in dirs <==> d in front || d == last;
      assert IsFile(p) in AllHits(w, dirs, f) <==> IsFile(p) in AllHits(w, front, f) || Stands(w, last, f, p);
    }
  }

  // ---- The plain include relation, without any memoising ----

  ghost predicate Includes(w: World, s: Place, t: Place) {
    !w.system(s.r)
    && ((exists f :: f in w.quotes(s.r) && QuoteWant(w, s.rd, f) == IsFile(t))
        || (exists f :: f in w.angles(s.r) && AngleWant(w, f) == IsFile(t))
        || (exists f :: f in w.nexts(s.r) && IsFile(t) in AllHits(w, w.quoteDirs, f)))
  }

  // p leads from s to t by includes, none of which is made by a system file.
  ghost predicate Chain(w: World, p: seq<Place>, s: Place, t: Place) {
    p != [] && p[0] == s && p[|p| - 1] == t && forall i :: 0 <= i < |p| - 1 ==> Includes(w, p[i], p[i + 1])
  }

  ghost predicate Reaches(w: World, s: Place, t: Place) {
    exists p :: Chain(w, p, s, t)
  }

  lemma ReachesSelf(w: World, s: Place)
    ensures Reaches(w, s, s)
  {
    assert Chain(w, [s], s, s);
  }

  lemma ReachesNext(w: World, s: Place, t: Place, u: Place)
    requires Reaches(w, s, t) && Includes(w, t, u)
    ensures Reaches(w, s, u)
  {
    var p :| Chain(w, p, s, t);
    assert Chain(w, p + [u], s, u);
  }

  // ---- Finiteness ----

  // Everything that can be met lies in three finite sets.
  datatype Bounds = Bounds(reals: set<Real>, dirs: set<RealDir>, incs: set<Inc>)

  ghost predicate Bounded(w: World, b: Bounds) {
    (forall d, f :: d in b.dirs && f in b.incs && w.lookup(d, f).Some? ==>
       w.lookup(d, f).value in b.reals && w.dirOf(d, f) in b.dirs)
    && (forall r, f :: r in b.reals && (f in w.quotes(r) || f in w.angles(r) || f in w.nexts(r)) ==> f in b.incs)
    && (forall d :: d in w.quoteDirs || d in w.angleDirs ==> w.realDir(d) in b.dirs)
  }
}
