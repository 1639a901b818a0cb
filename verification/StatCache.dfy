// The stat cache: resolution of an include against search directories, without
// asking the file system the same thing twice.

module StatCache {
  import opened Options

  // ---- Small integers for strings ----

  class MapToIndex {
    var index: map<string, nat>
    var strings: seq<Option<string>>

    // index and strings are inverse to each other; 0 is no index.
    ghost predicate Valid()
      reads this
    {
      && |strings| > 0 && strings[0] == None
      && (forall p :: p in index ==> 0 < index[p] < |strings| && strings[index[p]] == Some(p))
      && (forall i :: 0 < i < |strings| ==>
            strings[i].Some? && strings[i].value in index && index[strings[i].value] == i)
    }

    constructor ()
      ensures Valid() && index == map[] && |strings| == 1
    {
      index, strings := map[], [None];
    }

    // An index once given stands for its string for ever.
    method Index(path: string) returns (i: nat)
      requires Valid()
      modifies this
      ensures Valid() && 0 < i < |strings| && strings[i] == Some(path) && old(strings) <= strings
      ensures if path in old(index) then i == old(index)[path] && strings == old(strings)
              else strings == old(strings) + [Some(path)]
    {
      if path in index { return index[path]; }
      index := index[path := |strings|];
      strings := strings + [Some(path)];
      i := |strings| - 1;
    }

    // Two strings have one index just when they are equal.
    lemma Unique(i: nat, j: nat)
      requires Valid() && 0 < i < |strings| && 0 < j < |strings| && strings[i] == strings[j]
      ensures i == j
    {
    }
  }

  // ---- Resolution ----

  const DIR_ARRAY_SIZE: nat := 500

  datatype Query = Query(currdir: nat, searchdir: nat, includepath: nat)

  // The file system, and the strings behind the include path indices.
  datatype Files = Files(isFile: Query -> bool, realPath: Query -> string, includepath: nat -> string)

  // Plain left-to-right search.
  function FirstFile(w: Files, currdir: nat, dirs: seq<nat>, f: nat): Option<nat> {
    if dirs == [] then None
    else if w.isFile(Query(currdir, dirs[0], f)) then Some(dirs[0])
    else FirstFile(w, currdir, dirs[1..], f)
  }

  lemma {:induction false} FirstIsFirst(w: Files, currdir: nat, dirs: seq<nat>, f: nat, k: nat)
    requires k <= |dirs| && forall i :: 0 <= i < k ==> !w.isFile(Query(currdir, dirs[i], f))
    ensures k < |dirs| && w.isFile(Query(currdir, dirs[k], f)) ==> FirstFile(w, currdir, dirs, f) == Some(dirs[k])
    ensures k == |dirs| ==> FirstFile(w, currdir, dirs, f) == None
  {
    if k > 0 {
      assert !w.isFile(Query(currdir, dirs[0], f));
      FirstIsFirst(w, currdir, dirs[1..], f, k - 1);
    }
  }

  predicate IsAbsolute(s: string) {
    |s| > 0 && s[0] == '/'
  }

  // The arrays for one current directory and one include path, by search directory.
  datatype Cells = Cells(stats: seq<Option<bool>>, reals: seq<Option<nat>>)

  // What a cell says is so: a file is recorded with its real path.
  ghost predicate Truthful(w: Files, cells: Cells, currdir: nat, f: nat, strings: seq<Option<string>>) {
    0 < |cells.stats| <= |cells.reals|
    && forall d :: 0 <= d < |cells.stats| && cells.stats[d].Some? ==>
         var q := Query(currdir, d, f);
         && cells.stats[d].value == w.isFile(q)
         && (w.isFile(q) ==> cells.reals[d].Some? && 0 < cells.reals[d].value < |strings|
                             && strings[cells.reals[d].value] == Some(w.realPath(q)))
  }

  // Two arrays of the initial size with nothing known.
  function Unknown(): (c: Cells)
    ensures |c.stats| == |c.reals| > 0 && forall d :: 0 <= d < |c.stats| ==> c.stats[d] == None
  {
    Cells(seq(DIR_ARRAY_SIZE, _ => None), seq(DIR_ARRAY_SIZE, _ => None))
  }

  lemma NothingClaimed(w: Files, currdir: nat, f: nat, strings: seq<Option<string>>)
    ensures Truthful(w, Unknown(), currdir, f, strings)
  {
  }

  // Make both arrays long enough to hold d.
  function Grow(c: Cells, d: nat): (g: Cells)
    requires 0 < |c.stats| <= |c.reals| && d >= |c.stats|
    ensures d < |g.stats| <= |g.reals| && c.stats <= g.stats && c.reals <= g.reals
    ensures forall k :: |c.stats| <= k < |g.stats| ==> g.stats[k] == None
  {
    var stats := c.stats + seq(if d > |c.stats| then d else |c.stats|, _ => None);
    Cells(stats, c.reals + seq(if d > |stats| then d else |stats|, _ => None))
  }

  lemma GrowKeeps(w: Files, c: Cells, d: nat, currdir: nat, f: nat, strings: seq<Option<string>>)
    requires Truthful(w, c, currdir, f, strings) && d >= |c.stats|
    ensures Truthful(w, Grow(c, d), currdir, f, strings)
  {
  }

  lemma LaterStrings(w: Files, c: Cells, currdir: nat, f: nat, strings: seq<Option<string>>, later: seq<Option<string>>)
    requires Truthful(w, c, currdir, f, strings) && strings <= later
    ensures Truthful(w, c, currdir, f, later)
  {
  }

  lemma AllLater(w: Files, cache: map<(nat, nat), Cells>, strings: seq<Option<string>>, later: seq<Option<string>>)
    requires (forall k :: k in cache ==> Truthful(w, cache[k], k.0, k.1, strings)) && strings <= later
    ensures forall k :: k in cache ==> Truthful(w, cache[k], k.0, k.1, later)
  {
    hide Truthful;
    forall k | k in cache
      ensures Truthful(w, cache[k], k.0, k.1, later)
    {
      LaterStrings(w, cache[k], k.0, k.1, strings, later);
    }
  }

  lemma CellsFit(w: Files, c: Cells, currdir: nat, f: nat, strings: seq<Option<string>>)
    requires Truthful(w, c, currdir, f, strings)
    ensures 0 < |c.stats| <= |c.reals|
  {
  }

  // A cell filled in from an answer of the file system.
  function Fill(c: Cells, d: nat, found: bool, i: nat): Cells
    requires d < |c.stats| <= |c.reals|
  {
    Cells(c.stats[d := Some(found)], if found then c.reals[d := Some(i)] else c.reals)
  }

  lemma FillKeeps(w: Files, c: Cells, q: Query, i: nat, strings: seq<Option<string>>)
    requires Truthful(w, c, q.currdir, q.includepath, strings) && q.searchdir < |c.stats|
    requires w.isFile(q) ==> 0 < i < |strings| && strings[i] == Some(w.realPath(q))
    ensures Truthful(w, Fill(c, q.searchdir, w.isFile(q), i), q.currdir, q.includepath, strings)
  {
  }

  class BuildStatCache {
    const w: Files
    const realpaths: MapToIndex
    var cache: map<(nat, nat), Cells>
    ghost var asked: set<Query>

    ghost predicate Known(q: Query)
      reads this
    {
      (q.currdir, q.includepath) in cache
      && var stats := cache[(q.currdir, q.includepath)].stats; q.searchdir < |stats| && stats[q.searchdir].Some?
    }

    ghost predicate Valid()
      reads this, realpaths
    {
      && realpaths.Valid()
      && (forall k :: k in cache ==> Truthful(w, cache[k], k.0, k.1, realpaths.strings))
      && (forall q :: q in asked ==> Known(q))
    }

    constructor (files: Files)
      ensures Valid() && w == files && cache == map[] && asked == {} && fresh(realpaths)
    {
      w, cache, asked := files, map[], {};
      realpaths := new MapToIndex();
    }

    // A stat call: no query is ever put to the file system again.
    method OsPathIsFile(q: Query) returns (r: bool)
      requires q !in asked
      modifies this`asked
      ensures r == w.isFile(q) && asked == old(asked) + {q}
    {
      asked := asked + {q};
      r := w.isFile(q);
    }

    // A query whose cell is not known: ask, and fill in the cell.
    method Ask(q: Query) returns (hit: Option<nat>)
      requires Valid() && (q.currdir, q.includepath) in cache && !Known(q)
      modifies this, realpaths
      ensures Valid() && old(realpaths.strings) <= realpaths.strings && cache.Keys == old(cache).Keys
      ensures Known(q) && asked == old(asked) + {q}
      ensures hit.Some? == w.isFile(q)
      ensures hit.Some? ==> 0 < hit.value < |realpaths.strings| && realpaths.strings[hit.value] == Some(w.realPath(q))
    {
      hide Truthful, MapToIndex.Valid, Grow;
      var key := (q.currdir, q.includepath);
      var c := cache[key];
      Sized(key);
      if q.searchdir >= |c.stats| {
        GrowKeeps(w, c, q.searchdir, key.0, key.1, realpaths.strings);
        c := Grow(c, q.searchdir);
      }
      var found := OsPathIsFile(q);
      hit := Record(q, found, c);
    }

    // Fill in the cell for an answer, with the index of the real path of a file.
    method Record(q: Query, found: bool, c: Cells) returns (hit: Option<nat>)
      requires realpaths.Valid() && found == w.isFile(q) && (q.currdir, q.includepath) in cache
               && q.searchdir < |c.stats|
      requires forall k :: k in cache ==> Truthful(w, cache[k], k.0, k.1, realpaths.strings)
      requires Truthful(w, c, q.currdir, q.includepath, realpaths.strings)
      requires forall p :: p in asked && p != q ==> Known(p)
      requires cache[(q.currdir, q.includepath)].stats <= c.stats
      modifies this`cache, realpaths
      ensures Valid() && old(realpaths.strings) <= realpaths.strings && cache.Keys == old(cache).Keys && Known(q)
      ensures hit.Some? == found
      ensures hit.Some? ==> 0 < hit.value < |realpaths.strings| && realpaths.strings[hit.value] == Some(w.realPath(q))
    {
      hide Truthful, MapToIndex.Valid;
      var key, i := (q.currdir, q.includepath), 0;
      CellsFit(w, c, key.0, key.1, realpaths.strings);
      hit := None;
      if found {
        i := realpaths.Index(w.realPath(q));
        hit := Some(i);
      }
      AllLater(w, cache, old(realpaths.strings), realpaths.strings);
      LaterStrings(w, c, key.0, key.1, old(realpaths.strings), realpaths.strings);
      FillKeeps(w, c, q, i, realpaths.strings);
      cache := cache[key := Fill(c, q.searchdir, found, i)];
    }

    lemma Sized(key: (nat, nat))
      requires Valid() && key in cache
      ensures 0 < |cache[key].stats| <= |cache[key].reals|
    {
    }

    // One search directory: the real path of the file there, if there is one.
    method Probe(q: Query) returns (hit: Option<nat>)
      requires Valid() && (q.currdir, q.includepath) in cache
      modifies this, realpaths
      ensures Valid() && old(realpaths.strings) <= realpaths.strings && cache.Keys == old(cache).Keys
      ensures Known(q) && asked == if old(Known(q)) then old(asked) else old(asked) + {q}
      ensures hit.Some? == w.isFile(q)
      ensures hit.Some? ==> 0 < hit.value < |realpaths.strings| && realpaths.strings[hit.value] == Some(w.realPath(q))
    {
      var c := cache[(q.currdir, q.includepath)];
      if q.searchdir < |c.stats| {
        if c.stats[q.searchdir] == Some(false) { return None; }
        if c.stats[q.searchdir] == Some(true) { return c.reals[q.searchdir]; }
      }
      hit := Ask(q);
    }

    // Resolve.  Whatever has been asked before, the answer is that of the plain
    // search along [searchdir] + searchlist.
    method Resolve(includepath: nat, currdir: nat, searchdir: Option<nat>, searchlist: seq<nat>)
      returns (r: Option<(nat, nat)>)
      requires Valid()
      modifies this, realpaths
      ensures Valid() && old(realpaths.strings) <= realpaths.strings && asked >= old(asked)
      ensures IsAbsolute(w.includepath(includepath)) ==> r == None
      ensures !IsAbsolute(w.includepath(includepath)) ==>
                var dirs := (if searchdir.Some? then [searchdir.value] else []) + searchlist;
                var d := FirstFile(w, currdir, dirs, includepath);
                && r.Some? == d.Some?
                && (r.Some? ==> && r.value.0 == d.value
                                && 0 < r.value.1 < |realpaths.strings|
                                && realpaths.strings[r.value.1]
                                   == Some(w.realPath(Query(currdir, d.value, includepath))))
    {
      hide Truthful, MapToIndex.Valid, FirstFile;
      if IsAbsolute(w.includepath(includepath)) { return None; }
      if (currdir, includepath) !in cache {
        NothingClaimed(w, currdir, includepath, realpaths.strings);
        cache := cache[(currdir, includepath) := Unknown()];
      }
      var dirs := (if searchdir.Some? then [searchdir.value] else []) + searchlist;
      for k := 0 to |dirs|
        invariant Valid() && (currdir, includepath) in cache.Keys && old(realpaths.strings) <= realpaths.strings
                  && asked >= old(asked)
        invariant forall i :: 0 <= i < k ==> !w.isFile(Query(currdir, dirs[i], includepath))
      {
        var hit := Probe(Query(currdir, dirs[k], includepath));
        FirstIsFirst(w, currdir, dirs, includepath, k);
        if hit.Some? { return Some((dirs[k], hit.value)); }
      }
      FirstIsFirst(w, currdir, dirs, includepath, |dirs|);
      r := None;
    }
  }
}
