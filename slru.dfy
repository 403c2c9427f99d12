/** A two-segment LRU cache (SLRU).  New names enter the probation list; a
    hit in probation promotes the name to the protected list, a hit in
    protected refreshes its position; both lists keep the most recently
    used name at the front.  Only the protected list and the total are
    bounded: the probation list has no cap of its own. */
module Slru {
  import opened Names

  /** The list that an entry's stored list position points into. */
  datatype Segment = Probation | Protected

  /** What the store keeps for one name: its data and its list position,
      the position being identified by the list it lives in. */
  datatype Entry<D> = Entry(data: D, segment: Segment)

  /** The two recency lists, most recently used first. */
  datatype Segments = Segments(prob: seq<Name>, prot: seq<Name>)

  function Occupancy(l: Segments): nat
  {
    |l.prob| + |l.prot|
  }

  function Members(l: Segments): set<Name>
  {
    Elems(l.prob) + Elems(l.prot)
  }

  /** Neither list repeats a name and no name is in both. */
  ghost predicate WellFormed(l: Segments)
  {
    NoDup(l.prob) && NoDup(l.prot) && Elems(l.prob) !! Elems(l.prot)
  }

  /** The least recently used name of a list. */
  function Last(s: seq<Name>): Name
    requires s != []
  {
    s[|s| - 1]
  }

  /** A list after `pop_back`. */
  function DropLast(s: seq<Name>): (r: seq<Name>)
    requires s != []
    ensures NoDup(s) ==> Elems(r) == Elems(s) - {Last(s)} && NoDup(r)
  {
    s[..|s| - 1]
  }

  /** A list after erasing the position that holds `x`. */
  function Without(s: seq<Name>, x: Name): (r: seq<Name>)
    ensures Elems(r) == Elems(s) - {x}
    ensures NoDup(s) ==> NoDup(r)
    ensures NoDup(s) && x in s ==> |r| == |s| - 1
    ensures x !in s ==> r == s
  {
    if s == [] then []
    else if s[0] == x then Without(s[1..], x)
    else
      var r := Without(s[1..], x);
      assert NoDup(s) ==> NoDup(s[1..]) && s[0] !in s[1..] by {
        if NoDup(s) {
          forall j | 0 <= j < |s| - 1 ensures s[1..][j] != s[0] { assert s[1..][j] == s[j + 1]; }
        }
      }
      if NoDup(s) then NoDupPush(s[0], r); [s[0]] + r else [s[0]] + r
  }

  /** In a duplicate-free list, removing a name is erasing its one
      position: the names before and after it keep their order, so the
      last name stays the least recently used one. */
  lemma {:induction false} WithoutIsErase(s: seq<Name>, i: nat)
    requires NoDup(s) && i < |s|
    ensures Without(s, s[i]) == s[..i] + s[i + 1..]
  {
    assert s[1..][..0] == [];
    if i == 0 {
      assert s[0] !in s[1..];
    } else {
      assert NoDup(s[1..]);
      assert s[0] != s[i];
      assert s[1..][i - 1] == s[i];
      WithoutIsErase(s[1..], i - 1);
      assert s[..i] == [s[0]] + s[1..][..i - 1];
      assert s[i + 1..] == s[1..][i..];
    }
  }

  /** Moves `name` from probation to the front of protected; when that
      overflows protected, its last name moves to the front of probation. */
  function Promote(l: Segments, name: Name, capProt: nat): Segments
  {
    var prob := Without(l.prob, name);
    var prot := [name] + l.prot;
    if |prot| > capProt then Segments([Last(prot)] + prob, DropLast(prot))
    else Segments(prob, prot)
  }

  /** Moves a protected `name` to the front of protected. */
  function Refresh(l: Segments, name: Name): Segments
  {
    Segments(l.prob, [name] + Without(l.prot, name))
  }

  /** The list change of a hit on a cached `name`. */
  function Touch(l: Segments, name: Name, capProt: nat): Segments
  {
    if name in l.prob then Promote(l, name, capProt) else Refresh(l, name)
  }

  /** The name to evict: probation's last, else protected's last, else the
      empty name. */
  function Victim(l: Segments): (v: Name)
    ensures Occupancy(l) > 0 ==> v in Members(l)
  {
    if l.prob != [] then Last(l.prob)
    else if l.prot != [] then Last(l.prot)
    else []
  }

  /** The list change of the cap-enforcement step: when the total reaches
      `cap`, drop probation's last name, or protected's if probation is
      empty. */
  function EnforceCap(l: Segments, cap: nat): Segments
  {
    if Occupancy(l) >= cap then
      if l.prob != [] then Segments(DropLast(l.prob), l.prot)
      else if l.prot != [] then Segments(l.prob, DropLast(l.prot))
      else l
    else l
  }

  /** The list change of inserting a name that is not cached. */
  function InsertNew(l: Segments, name: Name, cap: nat): Segments
  {
    EnforceCap(Segments([name] + l.prob, l.prot), cap)
  }

  /** The list change of `insert`: a cached name is touched, a new one is
      added under the total capacity `capProb + capProt`. */
  function AfterInsert(l: Segments, name: Name, capProb: nat, capProt: nat): Segments
  {
    if name in Members(l) then Touch(l, name, capProt) else InsertNew(l, name, capProb + capProt)
  }

  lemma PromoteFacts(l: Segments, name: Name, capProt: nat)
    requires WellFormed(l) && name in l.prob && |l.prot| <= capProt
    ensures var r := Promote(l, name, capProt);
      && WellFormed(r) && Members(r) == Members(l) && Occupancy(r) == Occupancy(l)
      && |r.prot| <= capProt
      && (|l.prot| < capProt ==> r == Segments(Without(l.prob, name), [name] + l.prot))
      && (0 < |l.prot| == capProt ==>
            r == Segments([Last(l.prot)] + Without(l.prob, name), [name] + DropLast(l.prot)))
      && (capProt == 0 ==> r == Segments([name] + Without(l.prob, name), []))
  {
    var prob := Without(l.prob, name);
    var prot := [name] + l.prot;
    NoDupPush(name, l.prot);
    if |prot| > capProt {
      if 0 < |l.prot| {
        assert DropLast(prot) == [name] + DropLast(l.prot);
        assert Last(prot) == Last(l.prot);
      }
      var p2 := [Last(prot)] + prob;
      NoDupPush(Last(prot), prob);
      assert Elems(p2) == {Last(prot)} + Elems(prob);
    }
  }

  lemma RefreshFacts(l: Segments, name: Name)
    requires WellFormed(l) && name in l.prot
    ensures var r := Refresh(l, name);
      && WellFormed(r) && Members(r) == Members(l) && Occupancy(r) == Occupancy(l)
      && r.prob == l.prob && r.prot[0] == name && |r.prot| == |l.prot|
  {
    var rest := Without(l.prot, name);
    var prot := [name] + rest;
    NoDupPush(name, rest);
    assert Elems(prot) == {name} + Elems(rest);
  }

  /** A hit neither adds nor removes names, keeps the total and keeps
      protected within its cap. */
  lemma TouchFacts(l: Segments, name: Name, capProt: nat)
    requires WellFormed(l) && name in Members(l) && |l.prot| <= capProt
    ensures var r := Touch(l, name, capProt);
      WellFormed(r) && Members(r) == Members(l) && Occupancy(r) == Occupancy(l) && |r.prot| <= capProt
  {
    if name in l.prob { PromoteFacts(l, name, capProt); } else { RefreshFacts(l, name); }
  }

  /** The cap-enforcement step evicts exactly the name `Victim` selects,
      and only once the total has reached the cap. */
  lemma EnforceCapEvictsVictim(l: Segments, cap: nat)
    requires WellFormed(l)
    ensures var r := EnforceCap(l, cap);
      && WellFormed(r)
      && (Occupancy(l) >= cap && Occupancy(l) > 0 ==>
            Members(r) == Members(l) - {Victim(l)} && Occupancy(r) == Occupancy(l) - 1)
      && (Occupancy(l) < cap ==> r == l)
      && (l.prob != [] ==> r.prot == l.prot)
  {
  }

  /** Inserting a new name: it goes to the front of probation; at most one
      name is evicted, only when the total reaches `cap`, and it is
      probation's last name, which is the new name itself when probation
      was empty.  Protected is never touched, and a total below `cap`
      stays below it. */
  lemma InsertNewFacts(l: Segments, name: Name, cap: nat)
    requires WellFormed(l) && name !in Members(l) && 0 < cap && Occupancy(l) <= cap
    ensures var r := InsertNew(l, name, cap);
      && WellFormed(r) && r.prot == l.prot
      && (Occupancy(l) + 1 < cap ==> r == Segments([name] + l.prob, l.prot))
      && (Occupancy(l) + 1 >= cap && l.prob != [] ==>
            r == Segments([name] + DropLast(l.prob), l.prot)
            && Members(r) == Members(l) + {name} - {Last(l.prob)})
      && (Occupancy(l) + 1 >= cap && l.prob == [] ==> r == l)
      && Occupancy(r) <= cap && (Occupancy(l) < cap ==> Occupancy(r) < cap)
  {
    var pushed := Segments([name] + l.prob, l.prot);
    NoDupPush(name, l.prob);
    assert Elems(pushed.prob) == {name} + Elems(l.prob);
    EnforceCapEvictsVictim(pushed, cap);
    if l.prob != [] {
      assert DropLast(pushed.prob) == [name] + DropLast(l.prob);
    } else {
      assert DropLast(pushed.prob) == [];
    }
  }

  /** With a probation cap of at least two, an inserted name is always
      still cached afterwards: it can only evict itself from a probation
      list that was empty, and then the protected list would have to hold
      more than its cap. */
  lemma InsertedNameStays(l: Segments, name: Name, capProb: nat, capProt: nat)
    requires WellFormed(l) && |l.prot| <= capProt && Occupancy(l) <= capProb + capProt
    requires capProb >= 2
    ensures name in Members(AfterInsert(l, name, capProb, capProt))
  {
    if name in Members(l) {
      TouchFacts(l, name, capProt);
    } else {
      InsertNewFacts(l, name, capProb + capProt);
      if l.prob != [] {
        assert name in Elems([name] + DropLast(l.prob));
      }
    }
  }

  /** Every stored name is listed, every listed name is stored, and each
      entry's position points into the list that holds its name. */
  ghost predicate Tagged<D>(l: Segments, store: map<Name, Entry<D>>)
  {
    && store.Keys == Members(l)
    && forall k :: k in store ==> (store[k].segment == Probation <==> k in l.prob)
  }

  /** The store after repointing the position of `k` into list `seg`. */
  function Retag<D>(store: map<Name, Entry<D>>, k: Name, seg: Segment): map<Name, Entry<D>>
    requires k in store
  {
    store[k := store[k].(segment := seg)]
  }

  /** The data of every stored name. */
  ghost function DataOf<D>(store: map<Name, Entry<D>>): map<Name, D>
  {
    map k | k in store :: store[k].data
  }

  /** Every name stored in `after` other than `name` was stored in `before`
      with the same data. */
  ghost predicate OthersKept<D>(before: map<Name, Entry<D>>, after: map<Name, Entry<D>>, name: Name)
  {
    forall k :: k in after && k != name ==> k in before && after[k].data == before[k].data
  }

  /** Repointing a position leaves every name's data as it was. */
  lemma RetagKeepsData<D>(store: map<Name, Entry<D>>, k: Name, seg: Segment)
    requires k in store
    ensures DataOf(Retag(store, k, seg)) == DataOf(store)
  {
    var a, b := DataOf(Retag(store, k, seg)), DataOf(store);
    assert a.Keys == b.Keys;
    forall x | x in a ensures a[x] == b[x] {}
  }

  lemma PromoteTagged<D>(l: Segments, store: map<Name, Entry<D>>, name: Name, capProt: nat)
    requires WellFormed(l) && Tagged(l, store) && name in l.prob && |l.prot| <= capProt
    ensures var s1 := Retag(store, name, Protected);
      var s2 := if 1 + |l.prot| > capProt then Retag(s1, Last([name] + l.prot), Probation) else s1;
      Tagged(Promote(l, name, capProt), s2) && DataOf(s2) == DataOf(store)
  {
    PromoteFacts(l, name, capProt);
    var r := Promote(l, name, capProt);
    var s1 := Retag(store, name, Protected);
    var back := Last([name] + l.prot);
    var overflow := 1 + |l.prot| > capProt;
    var s2 := if overflow then Retag(s1, back, Probation) else s1;
    var rest := Without(l.prob, name);
    assert r.prob == if overflow then [back] + rest else rest;
    assert forall k :: k in r.prob <==> (overflow && k == back) || (k in l.prob && k != name);
    assert s2.Keys == store.Keys;
    forall k | k in s2
      ensures (s2[k].segment == Probation <==> k in r.prob)
    {
      if overflow && k == back {
      } else if k == name {
      } else {
        assert s2[k] == store[k];
      }
    }
    RetagKeepsData(store, name, Protected);
    if overflow { RetagKeepsData(s1, back, Probation); }
  }

  lemma RefreshTagged<D>(l: Segments, store: map<Name, Entry<D>>, name: Name)
    requires WellFormed(l) && Tagged(l, store) && name in l.prot
    ensures var s1 := Retag(store, name, Protected);
      Tagged(Refresh(l, name), s1) && DataOf(s1) == DataOf(store)
  {
    RefreshFacts(l, name);
    var s1 := Retag(store, name, Protected);
    assert s1 == store;
  }

  /** The store after evicting what `EnforceCap` drops. */
  function EvictedStore<D>(l: Segments, store: map<Name, Entry<D>>, cap: nat): map<Name, Entry<D>>
  {
    if Occupancy(l) >= cap && Occupancy(l) > 0 then store - {Victim(l)} else store
  }

  lemma EnforceCapTagged<D>(l: Segments, store: map<Name, Entry<D>>, cap: nat)
    requires WellFormed(l) && Tagged(l, store)
    ensures Tagged(EnforceCap(l, cap), EvictedStore(l, store, cap))
  {
    EnforceCapEvictsVictim(l, cap);
  }

  lemma PushTagged<D>(l: Segments, store: map<Name, Entry<D>>, name: Name, data: D)
    requires WellFormed(l) && Tagged(l, store) && name !in Members(l)
    ensures WellFormed(Segments([name] + l.prob, l.prot))
    ensures Tagged(Segments([name] + l.prob, l.prot), store[name := Entry(data, Probation)])
  {
    NoDupPush(name, l.prob);
    assert Elems([name] + l.prob) == {name} + Elems(l.prob);
  }

  /** A two-segment LRU cache over data of type `D`. */
  class SlruCache<D> {
    const capProb: nat
    const capProt: nat
    var probList: seq<Name>
    var protList: seq<Name>
    var store: map<Name, Entry<D>>

    function Segs(): Segments
      reads this
    {
      Segments(probList, protList)
    }

    ghost function StoredData(): map<Name, D>
      reads this
    {
      DataOf(store)
    }

    /** The lists are duplicate-free and disjoint, their names are exactly
        the store's names, and each entry points into its own list. */
    ghost predicate Consistent()
      reads this
    {
      capProb + capProt > 0 && WellFormed(Segs()) && Tagged(Segs(), store)
    }

    ghost predicate Valid()
      reads this
    {
      Consistent() && |protList| <= capProt && Occupancy(Segs()) <= capProb + capProt
    }

    /** The store holds one entry per listed name. */
    lemma StoreSize()
      ensures Consistent() ==> |store| == |probList| + |protList|
    {
      if Consistent() {
        NoDupCard(probList);
        NoDupCard(protList);
        assert store.Keys == Elems(probList) + Elems(protList);
        assert |store.Keys| == |Elems(probList)| + |Elems(protList)|;
      }
    }

    constructor (probationCap: nat, protectedCap: nat)
      requires probationCap + protectedCap > 0
      ensures Valid() && !IsFull()
      ensures capProb == probationCap && capProt == protectedCap
      ensures probList == [] && protList == [] && store == map[]
    {
      capProb := probationCap;
      capProt := protectedCap;
      probList := [];
      protList := [];
      store := map[];
    }

    function Contains(name: Name): (found: bool)
      reads this
      ensures Consistent() ==> (found <==> name in probList || name in protList)
    {
      name in store
    }

    /** True once the total reaches the combined capacity. */
    function IsFull(): (full: bool)
      reads this
      ensures Valid() ==> (full <==> |store| == capProb + capProt)
    {
      StoreSize();
      Occupancy(Segs()) >= capProb + capProt
    }

    /** The name that an eviction would take, the empty name when the cache
        is empty. */
    function SelectVictim(): (victim: Name)
      reads this
      ensures Consistent() && store != map[] ==> victim in store
      ensures Consistent() && store == map[] ==> victim == []
    {
      StoreSize();
      Victim(Segs())
    }

    /** The linear search of probation that decides a hit's branch. */
    method InProbation(name: Name) returns (found: bool)
      ensures found <==> name in probList
    {
      var i := 0;
      while i < |probList|
        invariant 0 <= i <= |probList|
        invariant name !in probList[..i]
      {
        if probList[i] == name {
          return true;
        }
        assert probList[..i + 1] == probList[..i] + [probList[i]];
        i := i + 1;
      }
      assert probList[..i] == probList;
      return false;
    }

    method PromoteToProtected(name: Name)
      requires Valid() && name in probList
      modifies this
      ensures Valid()
      ensures Segs() == Promote(old(Segs()), name, capProt)
      ensures StoredData() == old(StoredData())
    {
      PromoteFacts(Segs(), name, capProt);
      PromoteTagged(Segs(), store, name, capProt);
      probList := Without(probList, name);
      protList := [name] + protList;
      store := Retag(store, name, Protected);
      if |protList| > capProt {
        var demoted := Last(protList);
        protList := DropLast(protList);
        probList := [demoted] + probList;
        store := Retag(store, demoted, Probation);
      }
    }

    method EnsureCaps()
      requires Consistent()
      modifies this
      ensures Consistent()
      ensures Segs() == EnforceCap(old(Segs()), capProb + capProt)
      ensures store == EvictedStore(old(Segs()), old(store), capProb + capProt)
    {
      EnforceCapEvictsVictim(Segs(), capProb + capProt);
      EnforceCapTagged(Segs(), store, capProb + capProt);
      if IsFull() {
        if probList != [] {
          var victim := Last(probList);
          probList := DropLast(probList);
          store := store - {victim};
        } else if protList != [] {
          var victim := Last(protList);
          protList := DropLast(protList);
          store := store - {victim};
        }
      }
    }

    /** Lookup: a miss changes nothing; a hit promotes or refreshes. */
    method Fetch(name: Name) returns (hit: Option<D>)
      requires Valid()
      modifies this
      ensures Valid()
      ensures old(name !in store) ==> hit == None && Segs() == old(Segs()) && store == old(store)
      ensures old(name in store) ==>
        hit == Some(old(store[name].data)) && Segs() == Touch(old(Segs()), name, capProt)
      ensures StoredData() == old(StoredData())
      ensures Occupancy(Segs()) == old(Occupancy(Segs()))
    {
      if name !in store {
        return None;
      }
      ghost var data := StoredData()[name];
      var inProb := InProbation(name);
      if inProb {
        PromoteToProtected(name);
      } else {
        RefreshFacts(Segs(), name);
        RefreshTagged(Segs(), store, name);
        protList := [name] + Without(protList, name);
        store := Retag(store, name, Protected);
      }
      assert StoredData()[name] == data;
      hit := Some(store[name].data);
    }

    /** Stores `data` under `name`; always succeeds. */
    method Insert(name: Name, data: D) returns (ok: bool)
      requires Valid()
      modifies this
      ensures ok && Valid()
      ensures Segs() == AfterInsert(old(Segs()), name, capProb, capProt)
      ensures forall k :: k in store ==> store[k].data == if k == name then data else old(store[k].data)
      ensures old(name in store) ==> store.Keys == old(store.Keys)
      ensures OthersKept(old(store), store, name)
      ensures old(!IsFull()) ==> !IsFull()
    {
      if name in store {
        TouchFacts(Segs(), name, capProt);
        InsertExisting(name, data);
        forall k | k in store
          ensures store[k].data == if k == name then data else old(store[k].data)
        {
          assert StoredData()[k] == store[k].data;
        }
        return true;
      }
      InsertNewName(name, data);
      return true;
    }

    /** The overwrite path of `insert`: replace the data, then behave as a hit. */
    method InsertExisting(name: Name, data: D)
      requires Valid() && name in store
      modifies this
      ensures Valid()
      ensures Segs() == Touch(old(Segs()), name, capProt)
      ensures StoredData() == old(StoredData())[name := data]
      ensures store.Keys == old(store.Keys)
    {
      ghost var l := Segs();
      TouchFacts(l, name, capProt);
      store := store[name := store[name].(data := data)];
      assert StoredData() == old(StoredData())[name := data];
      assert Tagged(l, store);
      var hit := Fetch(name);
    }

    /** The fresh-name path of `insert`: push to the front of probation,
        store, enforce the cap. */
    method InsertNewName(name: Name, data: D)
      requires Valid() && name !in store
      modifies this
      ensures Valid()
      ensures Segs() == InsertNew(old(Segs()), name, capProb + capProt)
      ensures store == EvictedStore(Segments([name] + old(probList), old(protList)),
                                    old(store)[name := Entry(data, Probation)], capProb + capProt)
      ensures old(!IsFull()) ==> !IsFull()
    {
      InsertNewFacts(Segs(), name, capProb + capProt);
      PushTagged(Segs(), store, name, data);
      probList := [name] + probList;
      store := store[name := Entry(data, Probation)];
      EnsureCaps();
    }
  }
}
