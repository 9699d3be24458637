/** The cyclic id allocator AutoID, the ids of users built on it, and the table of live users. */
module AutoId {

  const FIRST := 1000
  const LAST := 0xFFFFFF
  const USER_RANGE := 0x10000000

  predicate InRange(i: int) {
    FIRST <= i <= LAST
  }

  /** How many steps of the probe, up by one and from the last id back to the first, lead from one id to another. */
  function Distance(from: int, to: int): (d: nat)
    requires InRange(from) && InRange(to)
  {
    if from <= to then to - from else LAST - from + 1 + (to - FIRST)
  }

  ghost predicate SomeFree(list: set<int>) {
    exists i :: InRange(i) && i !in list
  }

  /** Where the constructor starts probing: the counter's successor, where the last id already wraps. */
  function Start(count: int): (s: int)
    requires InRange(count)
    ensures InRange(s)
  {
    if count + 1 >= LAST then FIRST else count + 1
  }

  /** The static members of AutoID. */
  class Allocator {
    var count: int
    var list: set<int>

    ghost predicate Valid()
      reads this
    {
      InRange(count) && forall i :: i in list ==> InRange(i)
    }

    constructor ()
      ensures Valid() && list == {} && count == FIRST
    {
      count, list := FIRST, {};
    }

    /** The AutoID constructor. While some id is free the probe ends, at the first free id in probe order. */
    method Construct() returns (auto_id: int)
      requires Valid() && SomeFree(list)
      modifies this
      ensures Valid() && InRange(auto_id) && auto_id !in old(list)
      ensures list == old(list) + {auto_id} && count == auto_id
      ensures forall i :: InRange(i) && i !in old(list) ==>
                Distance(Start(old(count)), auto_id) <= Distance(Start(old(count)), i)
      ensures 1000 <= auto_id <= 0xFFFFFF
      ensures var start := if old(count) + 1 < 0xFFFFFF then old(count) + 1 else 1000;
              if start <= auto_id then
                forall i :: start <= i < auto_id ==> i in old(list)
              else
                forall i :: start <= i <= 0xFFFFFF || 1000 <= i < auto_id ==> i in old(list)
    {
      count := count + 1;
      if count >= LAST {
        count := FIRST;
      }
      ghost var start := count;
      ghost var free :| InRange(free) && free !in list;
      while count in list
        invariant InRange(count) && list == old(list)
        invariant forall i :: InRange(i) && Distance(start, i) < Distance(start, count) ==> i in list
        decreases Distance(count, free)
      {
        assert count != free;
        if count >= LAST {
          count := FIRST;
        } else {
          count := count + 1;
        }
      }
      list := list + {count};
      auto_id := count;
    }

    /** The AutoID destructor. */
    method Destroy(auto_id: int)
      requires Valid()
      modifies this`list
      ensures Valid() && list == old(list) - {auto_id}
    {
      if auto_id in list {
        list := list - {auto_id};
      }
    }
  }

  // ---------- Runs of constructions and destructions ----------

  /** Bitwise or of unsigned numbers. */
  function Or(a: nat, b: nat): nat {
    if a == 0 && b == 0 then 0
    else (if a % 2 == 1 || b % 2 == 1 then 1 else 0) + 2 * Or(a / 2, b / 2)
  }

  function Shl(m: nat, k: nat): nat {
    if k == 0 then m else 2 * Shl(m, k - 1)
  }

  /** Below a shifted number, or is addition. */
  lemma {:induction false} OrBelow(a: nat, m: nat, k: nat)
    requires a < Shl(1, k)
    ensures Or(a, Shl(m, k)) == a + Shl(m, k)
  {
    if k == 0 {
      OrZero(m);
    } else {
      OrBelow(a / 2, m, k - 1);
    }
  }

  lemma {:induction false} OrZero(m: nat)
    ensures Or(0, m) == m
  {
    if m > 0 {
      OrZero(m / 2);
    }
  }

  lemma ShlTwo(m: nat, k: nat)
    ensures Shl(m, k + 2) == 4 * Shl(m, k)
  {
    assert Shl(m, k + 1) == 2 * Shl(m, k);
  }

  lemma ShlEight(m: nat, k: nat)
    ensures Shl(m, k + 8) == 256 * Shl(m, k)
  {
    ShlTwo(m, k);
    ShlTwo(m, k + 2);
    ShlTwo(m, k + 4);
    ShlTwo(m, k + 6);
  }

  lemma Shl24(m: nat)
    ensures Shl(m, 24) == 0x1000000 * m
  {
    ShlEight(m, 0);
    ShlEight(m, 8);
    ShlEight(m, 16);
  }

  /** setID: auto_id | idRange(). */
  function UserId(auto: int): int
    requires InRange(auto)
  {
    Or(auto, USER_RANGE)
  }

  /** Putting an id in the user range keeps ids apart, and out of the range of bare ids. */
  lemma UserIdInjective(a: int, b: int)
    requires InRange(a) && InRange(b)
    ensures UserId(a) == UserId(b) <==> a == b
    ensures UserId(a) == 0x10000000 + a > 0xFFFFFF
  {
    Shl24(1);
    Shl24(16);
    OrBelow(a, 16, 24);
    OrBelow(b, 16, 24);
  }

  type UserRef = nat     // a User object

  /** The allocator, the auto id of every live User, and User::listUser. */
  datatype State = State(count: int, list: set<int>, live: map<UserRef, int>, table: map<int, UserRef>)

  datatype Action =
    | New(u: UserRef, id: int)
    | List(u: UserRef)
    | Unlist(u: UserRef)
    | Delete(u: UserRef)

  const INITIAL := State(FIRST, {}, map[], map[])

  /** Construct and setID give u its id; List and Unlist are addList and removeList; Delete runs ~User,
      which unlists, and then ~AutoID. A user is created once, and only live users do anything. */
  ghost predicate Next(s: State, a: Action, s': State)
    requires forall u :: u in s.live ==> InRange(s.live[u])
  {
    match a
    case New(u, id) =>
      && u !in s.live && InRange(id) && id !in s.list
      && s' == s.(count := id, list := s.list + {id}, live := s.live[u := id])
    case List(u) =>
      && u in s.live
      && s' == s.(table := s.table[UserId(s.live[u]) := u])
    case Unlist(u) =>
      && u in s.live
      && s' == s.(table := s.table - {UserId(s.live[u])})
    case Delete(u) =>
      && u in s.live
      && s' == s.(list := s.list - {s.live[u]}, live := s.live - {u}, table := s.table - {UserId(s.live[u])})
  }

  /** Live ids are the allocated ones and pairwise distinct; every table entry is under its live user's id. */
  ghost predicate Inv(s: State) {
    && InRange(s.count)
    && (forall u :: u in s.live ==> InRange(s.live[u]) && s.live[u] in s.list)
    && (forall i :: i in s.list ==> InRange(i) && exists u :: u in s.live && s.live[u] == i)
    && (forall u, v :: u in s.live && v in s.live && u != v ==> s.live[u] != s.live[v])
    && (forall i :: i in s.table ==> s.table[i] in s.live && i == UserId(s.live[s.table[i]]))
  }

  lemma DistinctUserIds(s: State)
    requires Inv(s)
    ensures forall u, v :: u in s.live && v in s.live && UserId(s.live[u]) == UserId(s.live[v]) ==> u == v
  {
    forall u, v | u in s.live && v in s.live && UserId(s.live[u]) == UserId(s.live[v])
      ensures u == v
    {
      UserIdInjective(s.live[u], s.live[v]);
    }
  }

  lemma NextKeepsInv(s: State, a: Action, s': State)
    requires Inv(s) && Next(s, a, s')
    ensures Inv(s')
    ensures forall u :: u in s.live && u in s'.live ==> s'.live[u] == s.live[u]
  {
    DistinctUserIds(s);
    hide UserId;
    forall i | i in s'.list
      ensures InRange(i) && exists u :: u in s'.live && s'.live[u] == i
    {
      if a.New? && i == a.id {
        assert s'.live[a.u] == i;
      } else {
        var u :| u in s.live && s.live[u] == i;
        assert u in s'.live && s'.live[u] == i;
      }
    }
  }

  /** Listing a live user never overwrites the entry of another live user. */
  lemma ListNeverOverwrites(s: State, u: UserRef, s': State)
    requires Inv(s) && Next(s, List(u), s')
    ensures forall i :: i in s.table ==> i in s'.table && s'.table[i] == s.table[i]
    ensures forall v :: v in s.live && v != u ==> (UserId(s.live[v]) in s'.table <==> UserId(s.live[v]) in s.table)
  {
    DistinctUserIds(s);
    hide UserId;
  }

  ghost predicate IsRun(states: seq<State>, actions: seq<Action>) {
    && |states| == |actions| + 1
    && states[0] == INITIAL
    && forall i {:trigger actions[i]} :: 0 <= i < |actions| ==>
         (forall u :: u in states[i].live ==> InRange(states[i].live[u])) && Next(states[i], actions[i], states[i + 1])
  }

  lemma {:induction false} RunKeepsInv(states: seq<State>, actions: seq<Action>, i: nat)
    requires IsRun(states, actions) && i < |states|
    ensures Inv(states[i])
  {
    if i > 0 {
      RunKeepsInv(states, actions, i - 1);
      NextKeepsInv(states[i - 1], actions[i - 1], states[i]);
    }
  }

  /** Over every run of constructions, destructions and listings: the ids of live users are pairwise distinct,
      and the table maps each id it holds to the one live user with that id. */
  lemma LiveIdsDistinct(states: seq<State>, actions: seq<Action>, i: nat)
    requires IsRun(states, actions) && i < |states|
    ensures var s := states[i];
            && (forall u :: u in s.live ==> InRange(s.live[u]))
            && (forall u, v :: u in s.live && v in s.live && u != v ==> UserId(s.live[u]) != UserId(s.live[v]))
            && (forall k :: k in s.table ==> s.table[k] in s.live && UserId(s.live[s.table[k]]) == k)
  {
    RunKeepsInv(states, actions, i);
    DistinctUserIds(states[i]);
  }
}
