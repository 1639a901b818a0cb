// Which nodes depend on which macro symbols: sets of symbols named by small
// integers, and the records that a new definition makes invalid.

module SupportSets {

  type Symbol = string

  // Ids and the sets seen so far correspond one to one; the ids are 1, 2, ...
  ghost predicate OneToOne(members: map<nat, set<Symbol>>, idMap: map<set<Symbol>, nat>) {
    && (forall i :: i in members <==> 1 <= i <= |idMap|)
    && (forall i :: i in members ==> members[i] in idMap && idMap[members[i]] == i)
    && (forall s :: s in idMap ==> idMap[s] in members && members[idMap[s]] == s)
  }

  lemma NextId(members: map<nat, set<Symbol>>, idMap: map<set<Symbol>, nat>, s: set<Symbol>)
    requires OneToOne(members, idMap) && s !in idMap
    ensures var id := |idMap| + 1; id !in members && OneToOne(members[id := s], idMap[s := id])
  {
  }

  class UnionCache {
    var members: map<nat, set<Symbol>>
    var cache: map<(nat, nat), nat>
    var idMap: map<set<Symbol>, nat>

    ghost predicate Valid()
      reads this
    {
      && OneToOne(members, idMap)
      && (forall p :: p in cache ==> && p.0 in members && p.1 in members && cache[p] in members
                                     && members[cache[p]] == members[p.0] + members[p.1])
    }

    // Ids go on standing for their sets.
    ghost predicate Keeps(before: map<nat, set<Symbol>>)
      reads this
    {
      forall i :: i in before ==> i in members && members[i] == before[i]
    }

    constructor ()
      ensures Valid() && idMap == map[]
    {
      members, cache, idMap := map[], map[], map[];
    }

    method SetId(symbols: set<Symbol>) returns (id: nat)
      requires Valid()
      modifies this
      ensures Valid() && Keeps(old(members)) && id in members && members[id] == symbols
      ensures members == if symbols in old(idMap) then old(members) else old(members)[id := symbols]
    {
      if symbols in idMap { return idMap[symbols]; }
      NextId(members, idMap, symbols);
      idMap := idMap[symbols := |idMap| + 1];
      members := members[|idMap| := symbols];
      id := |idMap|;
    }

    method Union(a: nat, b: nat) returns (id: nat)
      requires Valid() && a in members && b in members
      modifies this
      ensures Valid() && Keeps(old(members)) && id in members && members[id] == members[a] + members[b]
    {
      if (a, b) in cache { return cache[(a, b)]; }
      id := SetId(members[a] + members[b]);
      cache := cache[(a, b) := id];
    }

    // Comparing ids compares sets.
    lemma SameSet(a: nat, b: nat)
      requires Valid() && a in members && b in members
      ensures a == b <==> members[a] == members[b]
    {
    }
  }

  class SupportRecord {
    const master: SupportMaster
    var valid: bool
    var supportId: nat

    ghost function Support(): set<Symbol>
      reads this, master.unionCache
    {
      if supportId in master.unionCache.members then master.unionCache.members[supportId] else {}
    }

    constructor (m: SupportMaster, empty: nat)
      ensures master == m && valid && supportId == empty
    {
      master, valid, supportId := m, true, empty;
    }

    // Augment the support with the set of an id.
    method Update(setId: nat)
      requires master.Valid() && this in master.records && setId in master.unionCache.members
      modifies this`supportId, master`symbolToRecords, master.unionCache
      ensures master.Valid() && master.unionCache.Keeps(old(master.unionCache.members))
      ensures Support() == old(Support()) + old(master.unionCache.members)[setId]
      ensures forall r :: r in master.records && r != this ==> r.Support() == old(r.Support())
    {
      hide UnionCache.Valid;
      var unionId := master.unionCache.Union(supportId, setId);
      master.unionCache.SameSet(unionId, supportId);
      forall r | r in master.records ensures master.Listed(r) && r.Support() == old(r.Support()) {
        assert old(master.Listed(r));
      }
      if unionId != supportId {
        Depend(setId, unionId);
      }
    }

    // The support becomes a larger set, by the set of an id.
    method Depend(setId: nat, unionId: nat)
      requires master.Valid() && this in master.records && setId in master.unionCache.members
      requires unionId in master.unionCache.members
      requires master.unionCache.members[unionId] == Support() + master.unionCache.members[setId]
      modifies this`supportId, master`symbolToRecords
      ensures master.Valid() && Support() == old(Support()) + master.unionCache.members[setId]
      ensures forall r :: r in master.records && r != this ==> r.Support() == old(r.Support())
    {
      hide UnionCache.Valid;
      master.SupportRecordDependencyAdd(master.unionCache.members[setId], this);
      supportId := unionId;
      forall r | r in master.records ensures master.Listed(r) {
        assert old(master.Listed(r)) && (r != this ==> r.Support() == old(r.Support()));
      }
    }

    method UpdateSet(symbols: set<Symbol>)
      requires master.Valid() && this in master.records
      modifies this`supportId, master`symbolToRecords, master.unionCache
      ensures master.Valid() && master.unionCache.Keeps(old(master.unionCache.members))
      ensures Support() == old(Support()) + symbols
      ensures forall r :: r in master.records && r != this ==> r.Support() == old(r.Support())
    {
      var id := master.unionCache.SetId(symbols);
      Update(id);
    }
  }

  class SupportMaster {
    const unionCache: UnionCache
    var symbolToRecords: map<Symbol, set<SupportRecord>>
    ghost var records: set<SupportRecord>

    ghost function Depending(s: Symbol): set<SupportRecord>
      reads this
    {
      if s in symbolToRecords then symbolToRecords[s] else {}
    }

    // symbolToRecords[s] is the set of records whose support contains s.
    ghost predicate Valid()
      reads this, unionCache, records
    {
      && unionCache.Valid()
      && (forall r :: r in records ==> r.master == this && r.supportId in unionCache.members)
      && (forall s :: Depending(s) <= records)
      && (forall r :: r in records ==> Listed(r))
    }

    ghost predicate Listed(r: SupportRecord)
      reads this, r, r.master.unionCache
    {
      forall s :: r in Depending(s) <==> s in r.Support()
    }

    constructor ()
      ensures Valid() && records == {} && fresh(unionCache)
    {
      unionCache := new UnionCache();
      symbolToRecords, records := map[], {};
    }

    method NewRecord() returns (r: SupportRecord)
      requires Valid()
      modifies this, unionCache
      ensures Valid() && fresh(r) && records == old(records) + {r} && r.valid && r.Support() == {}
      ensures forall x :: x in old(records) ==> x.Support() == old(x.Support())
    {
      hide UnionCache.Valid;
      var empty := unionCache.SetId({});
      r := new SupportRecord(this, empty);
      records := records + {r};
      assert Listed(r);
      forall s ensures Depending(s) <= records {
        assert old(Depending(s)) <= old(records);
      }
      forall x | x in old(records) ensures Listed(x) {
        assert old(Listed(x)) && x.Support() == old(x.Support());
      }
    }

    method SupportRecordDependencyAdd(symbols: set<Symbol>, r: SupportRecord)
      modifies this`symbolToRecords
      ensures forall s :: Depending(s) == old(Depending(s)) + if s in symbols then {r} else {}
    {
      var todo := symbols;
      while todo != {}
        invariant todo <= symbols
        invariant forall s :: Depending(s) == old(Depending(s)) + if s in symbols - todo then {r} else {}
      {
        var s :| s in todo;
        if s !in symbolToRecords {
          symbolToRecords := symbolToRecords[s := {}];
        }
        symbolToRecords := symbolToRecords[s := symbolToRecords[s] + {r}];
        todo := todo - {s};
      }
    }

    // A symbol is defined: exactly the records that depend on it become invalid.
    method InvalidateRecords(s: Symbol)
      requires Valid()
      modifies records
      ensures Valid() && forall r :: r in records ==> r.Support() == old(r.Support())
      ensures forall r :: r in records ==> r.valid == (old(r.valid) && s !in r.Support())
    {
      hide UnionCache.Valid;
      if s in symbolToRecords {
        var todo := symbolToRecords[s];
        assert todo <= Depending(s);
        while todo != {}
          invariant todo <= symbolToRecords[s] && Depending(s) <= records
          invariant forall r :: r in records ==> r.supportId == old(r.supportId)
          invariant forall r :: r in records ==> r.valid == (old(r.valid) && r !in Depending(s) - todo)
        {
          var r :| r in todo;
          r.valid := false;
          todo := todo - {r};
        }
      }
      forall r | r in records ensures Listed(r) && r.Support() == old(r.Support()) {
        assert old(Listed(r));
      }
    }
  }
}
