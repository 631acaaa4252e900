/** The in-memory member repository: a table keyed by generated ids. */
module Repository {
  import opened Wrappers
  import opened Domain
  import Registry

  /**
   * The table `store` of saved members keyed by id, and the counter
   * `sequence` of ids issued so far. Only Save advances the counter;
   * ClearStore empties the table and leaves the counter alone.
   */
  /** A nonempty set has an element, so a scan can always pick its next key. */
  lemma NonEmptyHasElement(s: set<int>)
    requires s != {}
    ensures exists x :: x in s
  {
    if forall x :: x !in s { assert false; }
  }

  /** A value of a map is stored under some key. */
  lemma ValueHasKey(store: map<int, Member>, m: Member)
    requires m in store.Values
    ensures exists k :: k in store && store[k] == m
  {
    if forall k :: k in store ==> store[k] != m { assert false; }
  }

  class MemoryMemberRepository {
    var store: map<int, Member>
    var sequence: nat

    /** The repository's state as a value. */
    function Model(): Registry.State
      reads this
    {
      Registry.State(store, sequence)
    }

    /** Every key is its member's id and no key exceeds the counter. */
    ghost predicate Valid()
      reads this
    {
      Registry.WellKeyed(Model())
    }

    constructor ()
      ensures Valid() && store == map[] && sequence == 0
    {
      store := map[];
      sequence := 0;
    }

    /**
     * Stamps the next id onto the member and stores it under that id. The new
     * id was never issued before, so no entry is overwritten and the others
     * are unchanged; the member returned is the one stored.
     */
    method Save(member: Member) returns (saved: Member)
      requires Valid()
      modifies this
      ensures Valid()
      ensures (Model(), saved) == Registry.Save(old(Model()), member)
      ensures saved == member.(id := old(sequence) + 1) && sequence == old(sequence) + 1
      ensures saved.id !in old(store) && store == old(store)[saved.id := saved]
      ensures FindById(saved.id) == Some(saved)
    {
      sequence := sequence + 1;
      saved := member.(id := sequence);
      store := store[saved.id := saved];
    }

    /**
     * The member stored under id, or None exactly when id is not a key; an id
     * the counter has not reached (or below 1) is never found.
     */
    function FindById(id: int): (r: Option<Member>)
      reads this
      ensures r.None? <==> id !in store
      ensures r.Some? ==> r.value == store[id]
      ensures Valid() && r.Some? ==> r.value.id == id
      ensures Valid() && (id < 1 || id > sequence) ==> r.None?
    {
      if id in store then Some(store[id]) else None
    }

    /**
     * Some stored member with exactly this name, or None when there is none.
     * Which one is unspecified when several share the name (the scan order of
     * the table is unspecified); when names are unique it is the only one.
     */
    method FindByName(name: string) returns (r: Option<Member>)
      ensures r.None? <==> !Registry.HasName(store, name)
      ensures r.Some? ==> r.value in store.Values && r.value.name == name
      ensures r.Some? && Registry.NamesUnique(store) ==>
        forall k :: k in store && store[k].name == name ==> store[k] == r.value
    {
      var unseen := store.Keys;
      while unseen != {}
        invariant unseen <= store.Keys
        invariant forall k :: k in store && k !in unseen ==> store[k].name != name
        decreases unseen
      {
        NonEmptyHasElement(unseen);
        var k :| k in unseen;
        if store[k].name == name {
          return Some(store[k]);
        }
        unseen := unseen - {k};
      }
      return None;
    }

    /**
     * A fresh list of all stored members, in unspecified order: exactly the
     * stored values, one element per entry, none twice.
     */
    method FindAll() returns (all: seq<Member>)
      requires Valid()
      ensures |all| == |store|
      ensures forall m :: m in all <==> m in store.Values
      ensures forall i, j :: 0 <= i < j < |all| ==> all[i] != all[j]
    {
      all := [];
      var unseen := store.Keys;
      while unseen != {}
        invariant unseen <= store.Keys
        invariant |all| + |unseen| == |store|
        invariant forall i :: 0 <= i < |all| ==>
          all[i].id in store && store[all[i].id] == all[i] && all[i].id !in unseen
        invariant forall k :: k in store && k !in unseen ==> store[k] in all
        invariant forall i, j :: 0 <= i < j < |all| ==> all[i].id != all[j].id
        decreases unseen
      {
        NonEmptyHasElement(unseen);
        var k :| k in unseen;
        all := all + [store[k]];
        unseen := unseen - {k};
      }
      forall m | m in store.Values
        ensures m in all
      {
        ValueHasKey(store, m);
        var k :| k in store && store[k] == m;
      }
    }

    /** Empties the table; the counter is kept, so later ids still increase. */
    method ClearStore()
      requires Valid()
      modifies this
      ensures Valid()
      ensures store == map[] && sequence == old(sequence)
    {
      store := map[];
    }
  }
}
