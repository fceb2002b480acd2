/** server/core/session_manager.hpp and session_manager.cpp: the pool of open sessions and the
    identifiers waiting for reuse. */
module SessionPool {

  // ---------------------------------------------------------------- atomic steps

  /** count is number_of_sessions. */
  datatype Pool = Pool(open: set<int>, reusable: seq<int>, count: int)

  const EMPTY := Pool({}, [], 0)

  /** What create_session or delete_session does, each under the mutex. */
  datatype Step = Create | Delete(id: int)

  /** The identifier that create_session chooses. */
  function NewId(p: Pool): int {
    if p.reusable == [] then p.count else p.reusable[|p.reusable| - 1]
  }

  function Apply(p: Pool, s: Step): Pool {
    match s
    case Create =>
      Pool(p.open + {NewId(p)}, if p.reusable == [] then [] else p.reusable[..|p.reusable| - 1], p.count + 1)
    case Delete(id) =>
      if id in p.open then Pool(p.open - {id}, p.reusable + [id], p.count - 1) else p
  }

  /** The pool after a sequence of atomic steps of any threads. */
  function Run(steps: seq<Step>): Pool {
    if steps == [] then EMPTY else Apply(Run(steps[..|steps| - 1]), steps[|steps| - 1])
  }

  /** The most sessions that were ever open at once. */
  function Peak(steps: seq<Step>): nat {
    if steps == [] then 0
    else
      var before, now := Peak(steps[..|steps| - 1]), |Run(steps).open|;
      if before < now then now else before
  }

  // ---------------------------------------------------------------- the invariant

  function IdsBelow(n: nat): (r: set<int>)
    ensures |r| == n && forall i :: i in r <==> 0 <= i < n
  {
    if n == 0 then {} else IdsBelow(n - 1) + {n - 1}
  }

  ghost predicate Distinct(s: seq<int>) {
    forall i, j :: 0 <= i < j < |s| ==> s[i] != s[j]
  }

  ghost predicate Apart(s: seq<int>, open: set<int>, ids: set<int>) {
    forall i :: 0 <= i < |s| ==> s[i] !in open && s[i] in ids
  }

  ghost predicate Cover(s: seq<int>, open: set<int>, ids: set<int>) {
    forall id :: id in ids ==> id in open || id in s
  }

  /** Open and reusable identifiers are apart, none is listed twice, and together they are the
      numbers below peak. */
  ghost predicate Partition(p: Pool, peak: nat) {
    var ids := IdsBelow(peak);
    && p.count == |p.open| && p.open <= ids
    && Distinct(p.reusable) && Apart(p.reusable, p.open, ids) && Cover(p.reusable, p.open, ids)
  }

  /** With no identifier to reuse, the open ones are the numbers below the count. */
  lemma AllOpen(p: Pool, peak: nat)
    requires Partition(p, peak) && p.reusable == []
    ensures p.open == IdsBelow(p.count) && p.count == peak
  {
    assert p.open == IdsBelow(peak);
  }

  /** While one waits for reuse, fewer sessions are open than at the peak. */
  lemma SomeReusable(p: Pool, peak: nat)
    requires Partition(p, peak) && p.reusable != []
    ensures |p.open| < peak
  {
    var id := p.reusable[0];
    assert p.open + {id} <= IdsBelow(peak);
    Subset(p.open + {id}, IdsBelow(peak));
  }

  /** Once no session is open, every identifier below the peak waits for reuse. */
  lemma AllWaiting(p: Pool, peak: nat)
    requires Partition(p, peak) && p.open == {}
    ensures p.count == 0
    ensures forall id :: id in p.reusable <==> 0 <= id < peak
  {
  }

  lemma {:induction false} Subset<T>(x: set<T>, y: set<T>)
    requires x <= y
    ensures |x| <= |y|
    decreases x
  {
    if a :| a in x {
      Subset(x - {a}, y - {a});
    }
  }

  /** The identifier that a new session gets is not in use. */
  lemma NewIdIsFresh(p: Pool, peak: nat)
    requires Partition(p, peak)
    ensures NewId(p) !in p.open
  {
    if p.reusable == [] {
      AllOpen(p, peak);
    }
  }

  lemma CreateKeepsPartition(p: Pool, peak: nat)
    requires Partition(p, peak)
    ensures var r := Apply(p, Create); Partition(r, if peak < |r.open| then |r.open| else peak)
  {
    if p.reusable == [] {
      AllOpen(p, peak);
    } else {
      SomeReusable(p, peak);
      ReuseKeepsPartition(p, peak);
    }
  }

  lemma ReuseKeepsPartition(p: Pool, peak: nat)
    requires Partition(p, peak) && p.reusable != []
    ensures var r := Apply(p, Create); Partition(r, peak) && |r.open| == |p.open| + 1
  {
    hide Distinct, Apart, Cover;
    TakeLast(p.reusable, p.open, IdsBelow(peak));
  }

  lemma TakeLast(s: seq<int>, open: set<int>, ids: set<int>)
    requires s != [] && Distinct(s) && Apart(s, open, ids) && Cover(s, open, ids)
    ensures var id, rest := s[|s| - 1], s[..|s| - 1];
            && id !in open && id in ids && Distinct(rest)
            && Apart(rest, open + {id}, ids) && Cover(rest, open + {id}, ids)
  {
    var id, rest := s[|s| - 1], s[..|s| - 1];
    assert s == rest + [id];
    assert Cover(rest, open + {id}, ids) by {
      hide Distinct, Apart;
    }
  }

  /** The identifier closed last is the first one reused, and closing a session and opening another
      one leaves the pool as it was. */
  lemma ReopenRestores(p: Pool, id: int)
    requires id in p.open
    ensures var q := Apply(p, Delete(id)); NewId(q) == id && Apply(q, Create) == p
  {
    assert p.open - {id} + {id} == p.open;
    assert (p.reusable + [id])[..|p.reusable|] == p.reusable;
  }

  lemma DeleteKeepsPartition(p: Pool, peak: nat, id: int)
    requires Partition(p, peak)
    ensures var r := Apply(p, Delete(id)); Partition(r, peak) && |r.open| <= peak
  {
    hide Distinct, Apart, Cover;
    Subset(Apply(p, Delete(id)).open, IdsBelow(peak));
    if id in p.open {
      AddLast(p.reusable, p.open, IdsBelow(peak), id);
    }
  }

  lemma AddLast(s: seq<int>, open: set<int>, ids: set<int>, id: int)
    requires id in open && open <= ids && Distinct(s) && Apart(s, open, ids) && Cover(s, open, ids)
    ensures Distinct(s + [id]) && Apart(s + [id], open - {id}, ids) && Cover(s + [id], open - {id}, ids)
  {
  }

  /** After every interleaving of creations and deletions, open and reusable identifiers
      partition the numbers below the peak, and the counter is the size of the pool. */
  lemma {:induction false} RunKeepsPartition(steps: seq<Step>)
    ensures Partition(Run(steps), Peak(steps))
  {
    if steps != [] {
      var before, s := steps[..|steps| - 1], steps[|steps| - 1];
      RunKeepsPartition(before);
      match s
      case Create => CreateKeepsPartition(Run(before), Peak(before));
      case Delete(id) => DeleteKeepsPartition(Run(before), Peak(before), id);
    }
  }

  /** Whatever the threads did so far, the next session gets an identifier that is not in use,
      and never one above the most sessions that were open at once. */
  lemma NextIdIsFresh(steps: seq<Step>)
    ensures NewId(Run(steps)) !in Run(steps).open
    ensures 0 <= NewId(Run(steps)) <= Peak(steps)
  {
    RunKeepsPartition(steps);
    NewIdIsFresh(Run(steps), Peak(steps));
    if Run(steps).reusable == [] {
      AllOpen(Run(steps), Peak(steps));
    }
  }

  // ---------------------------------------------------------------- the class

  class SessionManager {
    var sessionPool: map<int, int>   // identifier to file descriptor
    var reusableIds: seq<int>
    var numberOfSessions: int

    ghost function Abs(): Pool
      reads this
    {
      Pool(sessionPool.Keys, reusableIds, numberOfSessions)
    }

    constructor ()
      ensures Abs() == EMPTY
    {
      sessionPool, reusableIds, numberOfSessions := map[], [], 0;
    }

    /** create_session; insert leaves the map alone when the key is there. */
    method CreateSession(commFd: int, ghost peak: nat) returns (id: int)
      requires Partition(Abs(), peak)
      modifies this
      ensures Abs() == Apply(old(Abs()), Create)
      ensures id !in old(sessionPool) && sessionPool == old(sessionPool)[id := commFd]
    {
      hide Partition;
      NewIdIsFresh(Abs(), peak);
      ghost var created := NewId(Abs());
      KeysOfInsert(sessionPool, created, commFd);
      if reusableIds == [] {
        id := numberOfSessions;
      } else {
        id := reusableIds[|reusableIds| - 1];
        reusableIds := reusableIds[..|reusableIds| - 1];
      }
      if id !in sessionPool {
        sessionPool := sessionPool[id := commFd];
      }
      numberOfSessions := numberOfSessions + 1;
    }

    /** is_reusable_id */
    method IsReusableId(id: int) returns (found: bool)
      ensures found <==> id in reusableIds
    {
      for i := 0 to |reusableIds|
        invariant id !in reusableIds[..i]
      {
        if reusableIds[i] == id {
          return true;
        }
      }
      assert reusableIds[..|reusableIds|] == reusableIds;
      return false;
    }

    /** get_session_ids: the keys in ascending order; its assertion holds for each of them. */
    method GetSessionIds(ghost peak: nat) returns (res: seq<int>)
      requires Partition(Abs(), peak)
      ensures forall i, j :: 0 <= i < j < |res| ==> res[i] < res[j]
      ensures forall id :: id in res <==> id in sessionPool
      ensures forall id :: id in res ==> id !in reusableIds
    {
      hide Partition;
      OpenIsNotReusable(peak);
      res := [];
      var left := sessionPool.Keys;
      while left != {}
        invariant forall i, j :: 0 <= i < j < |res| ==> res[i] < res[j]
        invariant forall i, k :: 0 <= i < |res| && k in left ==> res[i] < k
        invariant forall id :: id in sessionPool <==> id in res || id in left
      {
        ghost var any := Member(left);
        ghost var least := Smallest(left, any);
        var id :| id in left && forall k :: k in left ==> id <= k;
        var reusable := IsReusableId(id);
        assert !reusable;
        res := res + [id];
        left := left - {id};
      }
    }

    lemma OpenIsNotReusable(peak: nat)
      requires Partition(Abs(), peak)
      ensures forall id :: id in sessionPool ==> id !in reusableIds
    {
    }

    /** is_id_in_session_ids */
    method IsIdInSessionIds(id: int, ghost peak: nat) returns (found: bool)
      requires Partition(Abs(), peak)
      ensures found <==> id in sessionPool
    {
      var ids := GetSessionIds(peak);
      for i := 0 to |ids|
        invariant id !in ids[..i]
      {
        if ids[i] == id {
          return true;
        }
      }
      assert ids[..|ids|] == ids;
      return false;
    }

    /** delete_session; an identifier that is not in use is ignored. */
    method DeleteSession(id: int, ghost peak: nat)
      requires Partition(Abs(), peak)
      modifies this
      ensures Abs() == Apply(old(Abs()), Delete(id)) && sessionPool == old(sessionPool) - {id}
    {
      hide Partition;
      var found := IsIdInSessionIds(id, peak);
      if !found {
        return;
      }
      sessionPool := sessionPool - {id};
      reusableIds := reusableIds + [id];
      numberOfSessions := numberOfSessions - 1;
    }

    /** delete_all, with nothing in between: the pool ends empty, its two assertions hold, and
        every identifier ever used waits for reuse. */
    method DeleteAll(ghost peak: nat)
      requires Partition(Abs(), peak)
      modifies this
      ensures sessionPool == map[] && numberOfSessions == 0
      ensures Partition(Abs(), peak) && forall id :: id in reusableIds <==> 0 <= id < peak
    {
      hide *;
      CounterIsPoolSize(peak);
      assert numberOfSessions == |sessionPool|;
      if sessionPool != map[] {
        var ids := GetSessionIds(peak);
        for i := 0 to |ids|
          invariant Partition(Abs(), peak)
          invariant forall id :: id in sessionPool ==> id in ids[i..]
        {
          DeleteKeepsPartition(Abs(), peak, ids[i]);
          DropOne(ids, i);
          DeleteSession(ids[i], peak);
        }
        assert ids[|ids|..] == [];
      }
      assert forall id :: id !in sessionPool;
      assert sessionPool.Keys == {};
      CounterIsPoolSize(peak);
      AllWaiting(Abs(), peak);
      assert numberOfSessions == 0;
    }

    lemma CounterIsPoolSize(peak: nat)
      requires Partition(Abs(), peak)
      ensures numberOfSessions == |sessionPool|
      ensures Abs().open == sessionPool.Keys && Abs().reusable == reusableIds
    {
    }
  }

  lemma DropOne(s: seq<int>, i: nat)
    requires i < |s|
    ensures forall x :: x in s[i..] ==> x == s[i] || x in s[i + 1..]
  {
    assert s[i..] == [s[i]] + s[i + 1..];
  }

  lemma KeysOfInsert<T>(m: map<T, int>, k: T, v: int)
    ensures m[k := v].Keys == m.Keys + {k}
  {
  }

  lemma Member<T>(s: set<T>) returns (x: T)
    requires s != {}
    ensures x in s
  {
    x :| x in s;
  }

  predicate Least(s: set<int>, m: int) {
    m in s && forall k :: k in s ==> m <= k
  }

  lemma {:induction false} Smallest(s: set<int>, x: int) returns (m: int)
    requires x in s
    ensures Least(s, m)
    decreases s
  {
    m := x;
    if y :| y in s && y < x {
      m := Smallest(s - {x}, y);
      assert forall k :: k in s ==> k == x || k in s - {x};
    }
  }
}
