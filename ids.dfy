/**
 * Identity assignment. Each of Task, Project and User keeps one process-wide "next id"
 * counter, starting at 1. A construction without an id takes the counter's value and
 * increments it; a construction with an id (the reload path) adopts that id and, when it
 * is at or above the counter, moves the counter to id + 1. The three counters live in
 * one IdAllocator that is handed to every constructor.
 */
module Identity {
  import opened Common

  /** What one construction does: the id the entity gets, and the counter afterwards. */
  datatype Issue = Issue(id: int, next: int)

  /** One construction against a counter that stands at `next`. */
  function Allocate(next: int, explicit: Option<int>): Issue {
    match explicit
    case None => Issue(next, next + 1)
    case Some(id) => Issue(id, if id >= next then id + 1 else next)
  }

  /** A run of constructions from a counter at `next`: the ids handed out, in order, and the final counter. */
  function Replay(next: int, requests: seq<Option<int>>): (seq<int>, int) {
    if requests == [] then ([], next)
    else
      var (ids, mid) := Replay(next, requests[..|requests| - 1]);
      var step := Allocate(mid, requests[|requests| - 1]);
      (ids + [step.id], step.next)
  }

  /**
   * Over any run of constructions the counter never goes down and ends above every id
   * handed out or adopted; an explicit id is kept as given; and every automatically
   * assigned id is at least the starting counter and above every id issued before it, so
   * it collides with none of them.
   */
  lemma {:induction false} ReplayKeepsCounterAhead(next: int, requests: seq<Option<int>>)
    ensures var (ids, last) := Replay(next, requests);
      && |ids| == |requests|
      && next <= last
      && (forall i :: 0 <= i < |ids| ==> ids[i] < last)
      && (forall i :: 0 <= i < |ids| && requests[i].Some? ==> ids[i] == requests[i].value)
      && (forall j :: 0 <= j < |ids| && requests[j].None? ==> next <= ids[j])
      && (forall i, j :: 0 <= i < j < |ids| && requests[j].None? ==> ids[i] < ids[j])
  {
    if requests != [] {
      var front := requests[..|requests| - 1];
      ReplayKeepsCounterAhead(next, front);
      var (ids, mid) := Replay(next, front);
      var step := Allocate(mid, requests[|requests| - 1]);
      assert Replay(next, requests) == (ids + [step.id], step.next);
      assert forall i :: 0 <= i < |front| ==> requests[i] == front[i];
    }
  }

  /**
   * Reloading a store whose largest id is `k` and then constructing without an id gives
   * `k + 1`, whatever the counter was below that: ids resume above the stored ones.
   */
  lemma ReloadThenCreate(next: int, k: int)
    requires next <= k + 1
    ensures Replay(next, [Some(k), None]).0 == [k, k + 1]
  {
    assert [Some(k), None][..1] == [Some(k)];
    assert [Some(k)][..0] == [];
    assert Replay(next, []) == ([], next);
    assert Allocate(next, Some(k)) == Issue(k, k + 1);
    assert Replay(next, [Some(k)]) == ([] + [k], k + 1);
    assert Allocate(k + 1, None) == Issue(k + 1, k + 2);
  }

  /**
   * A counter that went from `start` to `next` moved only by adopting ids of `ids`: it
   * stands where it stood, or just above one of them. For a counter that never goes down
   * and stays above every adopted id, this pins it at the larger of `start` and the largest
   * id of `ids` plus one.
   */
  predicate MovedOnlyBy(start: int, next: int, ids: set<int>) {
    next == start || next - 1 in ids
  }

  /** Adopting one id moves the counter only by that id. */
  lemma AdoptMovesOnlyBy(next: int, id: int)
    ensures MovedOnlyBy(next, Allocate(next, Some(id)).next, {id})
  {
  }

  /** Two moves in a row move the counter only by the ids of either. */
  lemma MovedOnlyByBoth(start: int, mid: int, next: int, first: set<int>, second: set<int>)
    requires MovedOnlyBy(start, mid, first) && MovedOnlyBy(mid, next, second)
    ensures MovedOnlyBy(start, next, first + second)
  {
  }

  /**
   * Where a counter that stood at `start` ends after adopting every id of `ids`, in any
   * order: the larger of `start` and the largest of them plus one.
   */
  ghost function Raised(start: int, ids: set<int>): (r: int)
    ensures start <= r && (forall id | id in ids :: id < r)
    ensures MovedOnlyBy(start, r, ids)
    decreases ids
  {
    if ids == {} then start
    else
      assert (forall id :: id !in ids) ==> ids == {};
      var id :| id in ids;
      var rest := Raised(start, ids - {id});
      assert forall other | other in ids :: other == id || other in ids - {id};
      if id >= rest then id + 1 else rest
  }

  /**
   * A counter that never went below `start`, stays above every id of `ids` and moved only
   * by adopting them stands exactly at `Raised(start, ids)`.
   */
  lemma RaisedUnique(start: int, next: int, ids: set<int>)
    requires start <= next && (forall id | id in ids :: id < next)
    requires MovedOnlyBy(start, next, ids)
    ensures next == Raised(start, ids)
  {
  }

  /**
   * Adopting `more` after `ids`: a counter at `Raised(start, ids)` that moves only by `more`
   * and stays above all of them ends at `Raised(start, ids + more)`.
   */
  lemma RaisedStep(start: int, ids: set<int>, more: set<int>, mid: int, next: int)
    requires mid == Raised(start, ids) && mid <= next
    requires MovedOnlyBy(mid, next, more)
    requires forall id | id in ids + more :: id < next
    ensures next == Raised(start, ids + more)
  {
    MovedOnlyByBoth(start, mid, next, ids, more);
    RaisedUnique(start, next, ids + more);
  }

  /** One class's counter, with the ids it has issued or adopted so far. */
  class Counter {
    var next: int
    ghost var issued: set<int>

    /** The counter is positive and above every id it has seen. */
    ghost predicate Valid()
      reads this
    {
      1 <= next && forall id | id in issued :: id < next
    }

    constructor ()
      ensures Valid() && next == 1 && issued == {}
    {
      next := 1;
      issued := {};
    }

    /** Between two states the counter did not go down and forgot nothing it had issued. */
    twostate predicate Advanced()
      reads this
    {
      old(next) <= next
    }

    /** Every id among those issued is below the counter. */
    lemma Covers(ids: set<int>)
      requires Valid() && ids <= issued
      ensures forall id | id in ids :: id < next
    {
    }

    /** The id-assignment step of a constructor. */
    method Take(explicit: Option<int>) returns (id: int)
      requires Valid()
      modifies this
      ensures Valid() && Advanced()
      ensures Issue(id, next) == Allocate(old(next), explicit)
      ensures issued == old(issued) + {id}
      ensures explicit.None? ==> id !in old(issued)
    {
      match explicit {
        case None =>
          id := next;
          next := next + 1;
        case Some(given) =>
          id := given;
          if given >= next {
            next := given + 1;
          }
      }
      issued := issued + {id};
    }
  }

  /** The three class-level counters of Task, Project and User, made explicit. */
  class IdAllocator {
    const tasks: Counter
    const projects: Counter
    const users: Counter

    ghost predicate Valid()
      reads tasks, projects, users
    {
      && tasks != projects && projects != users && tasks != users
      && tasks.Valid() && projects.Valid() && users.Valid()
    }

    /** A fresh process: every counter at 1. */
    constructor ()
      ensures Valid()
      ensures tasks.next == 1 && projects.next == 1 && users.next == 1
      ensures tasks.issued == {} && projects.issued == {} && users.issued == {}
      ensures fresh(tasks) && fresh(projects) && fresh(users)
    {
      tasks := new Counter();
      projects := new Counter();
      users := new Counter();
    }
  }
}
