/**
 * The abstract state of the in-memory member registry and the two state
 * changes the service performs on it: saving a member under a fresh id, and
 * joining (save only when the name is not yet taken). The classes in the
 * Repository and Service modules are proved to follow these functions, and
 * the lemmas below say what any run of successive joins guarantees.
 */
module Registry {
  import opened Wrappers
  import opened Domain

  /** The table of stored members keyed by id. */
  type Store = map<int, Member>

  /** The table plus the id counter, which only save advances. */
  datatype State = State(store: Store, sequence: nat)

  /** The state of a freshly created repository: no members, counter at zero. */
  const Initial := State(map[], 0)

  /** Every key is its member's id, and every key lies in 1..sequence (ids already issued). */
  predicate WellKeyed(s: State) {
    forall k :: k in s.store ==> s.store[k].id == k && 1 <= k <= s.sequence
  }

  /** Some stored member has exactly this name. */
  predicate HasName(store: Store, name: string) {
    exists k :: k in store && store[k].name == name
  }

  /** No two stored members share a name. */
  predicate NamesUnique(store: Store) {
    forall j, k :: j in store && k in store && store[j].name == store[k].name ==> j == k
  }

  /**
   * Saving: advance the counter, stamp the new counter value onto the member
   * as its id and store it under that key; the stamped member is returned.
   * On a well-keyed state the new id is not yet a key, so nothing is
   * overwritten and the table grows by exactly one entry.
   */
  function Save(s: State, m: Member): (r: (State, Member))
    ensures r.1.name == m.name && r.1.id == s.sequence + 1 == r.0.sequence
    ensures r.0.store.Keys == s.store.Keys + {r.1.id} && r.0.store[r.1.id] == r.1
    ensures WellKeyed(s) ==> WellKeyed(r.0)
    ensures WellKeyed(s) ==> r.1.id !in s.store && |r.0.store| == |s.store| + 1
    ensures WellKeyed(s) ==> forall k :: k in s.store ==> r.0.store[k] == s.store[k]
  {
    var next := s.sequence + 1;
    var saved := m.(id := next);
    (State(s.store[next := saved], next), saved)
  }

  /**
   * Joining: fail with DuplicateMember, leaving the state alone, when a
   * stored member already has the candidate's name; otherwise save it and
   * return the id it was given.
   */
  function Join(s: State, m: Member): (r: (Result<int, JoinError>, State))
    ensures HasName(s.store, m.name) <==> r.0.Failure?
    ensures r.0.Failure? ==> r.0.error == DuplicateMember && r.1 == s
    ensures r.0.Success? ==> r.0.value == s.sequence + 1 == r.1.sequence && r.1 == Save(s, m).0
    ensures r.0.Success? ==> r.0.value in r.1.store && r.1.store[r.0.value].name == m.name
    ensures WellKeyed(s) ==> WellKeyed(r.1)
    ensures WellKeyed(s) && NamesUnique(s.store) ==> NamesUnique(r.1.store)
  {
    if HasName(s.store, m.name) then
      (Failure(DuplicateMember), s)
    else
      var (s', saved) := Save(s, m);
      (Success(saved.id), s')
  }

  /** Successive joins of the members ms, in order: each result and the final state. */
  ghost function JoinAll(s: State, ms: seq<Member>): (r: (seq<Result<int, JoinError>>, State))
    ensures |r.0| == |ms|
    decreases |ms|
  {
    if ms == [] then ([], s)
    else
      var (first, s1) := Join(s, ms[0]);
      var (rest, s2) := JoinAll(s1, ms[1..]);
      ([first] + rest, s2)
  }

  /**
   * A run of joins keeps the table well keyed, never changes or removes an
   * entry that was there before, never moves the counter backwards, and
   * keeps names unique if they were unique to begin with.
   */
  lemma {:induction false} JoinAllPreserves(s: State, ms: seq<Member>)
    requires WellKeyed(s)
    ensures WellKeyed(JoinAll(s, ms).1)
    ensures s.sequence <= JoinAll(s, ms).1.sequence
    ensures forall k :: k in s.store ==> k in JoinAll(s, ms).1.store && JoinAll(s, ms).1.store[k] == s.store[k]
    ensures NamesUnique(s.store) ==> NamesUnique(JoinAll(s, ms).1.store)
    decreases |ms|
  {
    if ms != [] {
      var s1 := Join(s, ms[0]).1;
      JoinAllPreserves(s1, ms[1..]);
    }
  }

  /** Names are unique in every state reachable from a new repository by joins alone. */
  lemma JoinOnlyKeepsNamesUnique(ms: seq<Member>)
    ensures NamesUnique(JoinAll(Initial, ms).1.store)
  {
    JoinAllPreserves(Initial, ms);
  }

  /**
   * The ids returned by a run of joins lie above the starting counter and up
   * to the final one, strictly increase in call order, and each names the
   * joined member, stamped with that id, in the final table.
   */
  lemma {:induction false} JoinAllIds(s: State, ms: seq<Member>)
    requires WellKeyed(s)
    ensures var (rs, t) := JoinAll(s, ms);
      forall i :: 0 <= i < |rs| && rs[i].Success? ==> s.sequence < rs[i].value <= t.sequence
    ensures var (rs, t) := JoinAll(s, ms);
      forall i, j :: 0 <= i < j < |rs| && rs[i].Success? && rs[j].Success? ==> rs[i].value < rs[j].value
    ensures var (rs, t) := JoinAll(s, ms);
      forall i :: 0 <= i < |rs| && rs[i].Success? ==>
        rs[i].value in t.store && t.store[rs[i].value] == ms[i].(id := rs[i].value)
    decreases |ms|
  {
    if ms != [] {
      var (first, s1) := Join(s, ms[0]);
      var (rest, s2) := JoinAll(s1, ms[1..]);
      JoinAllIds(s1, ms[1..]);
      JoinAllPreserves(s1, ms[1..]);
      var rs := JoinAll(s, ms).0;
      assert rs == [first] + rest;
      forall i | 0 <= i < |rs| && rs[i].Success?
        ensures s.sequence < rs[i].value <= s2.sequence
      {
        if i > 0 { assert rs[i] == rest[i - 1]; }
      }
      forall i | 0 <= i < |rs| && rs[i].Success?
        ensures rs[i].value in s2.store && s2.store[rs[i].value] == ms[i].(id := rs[i].value)
      {
        if i > 0 { assert rs[i] == rest[i - 1]; assert ms[i] == ms[1..][i - 1]; }
      }
    }
  }

  /**
   * Every entry after a run of joins was either there before or was stored
   * by one of the successful joins: the table holds exactly the old members
   * and the successfully joined ones.
   */
  lemma {:induction false} JoinAllNoOthers(s: State, ms: seq<Member>)
    ensures var (rs, t) := JoinAll(s, ms);
      forall k :: k in t.store ==> k in s.store || exists i :: 0 <= i < |rs| && rs[i] == Success(k)
    decreases |ms|
  {
    if ms != [] {
      var (first, s1) := Join(s, ms[0]);
      var (rest, s2) := JoinAll(s1, ms[1..]);
      JoinAllNoOthers(s1, ms[1..]);
      var rs := JoinAll(s, ms).0;
      assert rs == [first] + rest;
      forall k | k in s2.store
        ensures k in s.store || exists i :: 0 <= i < |rs| && rs[i] == Success(k)
      {
        if k !in s1.store {
          var i :| 0 <= i < |rest| && rest[i] == Success(k);
          assert rs[i + 1] == Success(k);
        } else if k !in s.store {
          assert rs[0] == Success(k);
        }
      }
    }
  }

  /** The members ms have pairwise distinct names, none of them already stored. */
  ghost predicate FreshNames(store: Store, ms: seq<Member>) {
    && (forall i :: 0 <= i < |ms| ==> !HasName(store, ms[i].name))
    && (forall i, j :: 0 <= i < j < |ms| ==> ms[i].name != ms[j].name)
  }

  /** After the first of a run of fresh-named joins, the remaining names are still fresh. */
  lemma FreshNamesAfterJoin(s: State, ms: seq<Member>)
    requires WellKeyed(s) && ms != []
    requires FreshNames(s.store, ms)
    ensures Join(s, ms[0]).0 == Success(s.sequence + 1)
    ensures FreshNames(Join(s, ms[0]).1.store, ms[1..])
  {
  }

  /**
   * Joining members whose names are distinct and not yet taken: every call
   * succeeds, and the i-th returns the id sequence + 1 + i.
   */
  lemma {:induction false} JoinAllFreshNamesSucceed(s: State, ms: seq<Member>)
    requires WellKeyed(s)
    requires FreshNames(s.store, ms)
    ensures forall i :: 0 <= i < |ms| ==> JoinAll(s, ms).0[i] == Success(s.sequence + 1 + i)
    decreases |ms|
  {
    if ms != [] {
      var (first, s1) := Join(s, ms[0]);
      FreshNamesAfterJoin(s, ms);
      JoinAllFreshNamesSucceed(s1, ms[1..]);
      var rs := JoinAll(s, ms).0;
      var rest := JoinAll(s1, ms[1..]).0;
      assert rs == [first] + rest;
      forall i | 0 <= i < |ms|
        ensures rs[i] == Success(s.sequence + 1 + i)
      {
        if i > 0 { assert rs[i] == rest[i - 1]; }
      }
    }
  }

  /** Joining members whose names are distinct and not yet taken adds one entry per call. */
  lemma {:induction false} JoinAllFreshNamesGrow(s: State, ms: seq<Member>)
    requires WellKeyed(s)
    requires FreshNames(s.store, ms)
    ensures |JoinAll(s, ms).1.store| == |s.store| + |ms|
    decreases |ms|
  {
    if ms != [] {
      var s1 := Join(s, ms[0]).1;
      FreshNamesAfterJoin(s, ms);
      assert |s1.store| == |s.store| + 1;
      JoinAllFreshNamesGrow(s1, ms[1..]);
    }
  }
}
