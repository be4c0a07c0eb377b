/** The blocking mutex (kernel/scheduler/mutex.cpp, kernel/scheduler/task_blocking.hpp). */
module Mutex {
  import opened Common
  import opened Ring

  type Task = int

  /** What lock() and unlock() did to the mutex, or which of their assertions failed. */
  datatype Outcome = Taken | Enqueued | Released | HandedTo(next: Task) | CalledByOwner | CalledByOther

  /** A mutex as a value: its owner and its waiters, in the order of the wait ring. */
  datatype Lock = Lock(owner: Option<Task>, waiters: seq<Task>) {

    /** The body of lock(), run by `t` with preemption off. */
    function Acquire(t: Task): (Lock, Outcome) {
      if owner == Some(t) then (this, CalledByOwner)
      else if owner == None then (this.(owner := Some(t)), Taken)
      else (this.(waiters := waiters + [t]), Enqueued)
    }

    /** The body of unlock(), run by `t` with preemption off: ownership goes straight to whoever
        has waited longest. */
    function Release(t: Task): (Lock, Outcome) {
      if owner != Some(t) then (this, CalledByOther)
      else if waiters == [] then (this.(owner := None), Released)
      else (Lock(Some(waiters[0]), waiters[1..]), HandedTo(waiters[0]))
    }
  }

  ghost function Ids(s: seq<Link>): seq<Task> {
    seq(|s|, i requires 0 <= i < |s| => s[i].id)
  }

  /** The mutex object: the wait list is the ring through `list`, which is its sentinel. */
  class MutexObject {
    var owner: Option<Task>
    const list: Link
    ghost var waiting: seq<Link>

    ghost predicate Valid()
      reads this, list, waiting
    {
      IsRing([list] + waiting)
    }

    ghost function View(): Lock
      reads this
    {
      Lock(owner, Ids(waiting))
    }

    constructor ()
      ensures Valid() && fresh(list) && View() == Lock(None, [])
    {
      var head := new Link(-1);
      owner, list, waiting := None, head, [];
      new;
      assert [list] + waiting == [list];
    }

    /** lock() up to the point where it drops the preemption lock; `blocking` is the wait node of
        the calling task. */
    method LockBody(current: Task, blocking: Link) returns (outcome: Outcome)
      requires Valid() && blocking.id == current && blocking !in [list] + waiting
      modifies this, list, waiting, blocking
      ensures Valid() && (View(), outcome) == old(View()).Acquire(current)
      ensures waiting == if outcome == Enqueued then old(waiting) + [blocking] else old(waiting)
      ensures outcome == Enqueued ==> !blocking.Lonely()
    {
      if owner == Some(current) {
        return CalledByOwner;
      }
      if owner == None {
        owner := Some(current);
        return Taken;
      }
      Append(list, blocking, waiting);
      waiting := waiting + [blocking];
      assert [list] + waiting == [list] + old(waiting) + [blocking];
      LonelyMeansAlone([list] + waiting, |waiting|);
      assert Ids(waiting) == Ids(old(waiting)) + [current];
      return Enqueued;
    }

    /** The body of unlock() between taking and dropping the preemption lock. */
    method Unlock(current: Task) returns (outcome: Outcome)
      requires Valid()
      modifies this, list, waiting
      ensures Valid() && (View(), outcome) == old(View()).Release(current)
      ensures outcome.HandedTo? ==>
                && |old(waiting)| > 0 && old(waiting)[0].id == outcome.next
                && old(waiting)[0].Lonely() && waiting == old(waiting)[1..]
      ensures !outcome.HandedTo? ==> waiting == old(waiting)
    {
      if owner != Some(current) {
        return CalledByOther;
      }
      LonelyMeansAlone([list] + waiting, 0);
      if list.Lonely() {
        owner := None;
        return Released;
      }
      var waiter := Unblock();
      assert Ids(old(waiting))[1..] == Ids(waiting);
      owner := Some(waiter.id);
      return HandedTo(waiter.id);
    }

    /** Takes the first waiter out of the wait ring. */
    method Unblock() returns (waiter: Link)
      requires Valid() && waiting != []
      modifies this`waiting, list, waiting
      ensures Valid() && waiter == old(waiting)[0] && waiting == old(waiting)[1..] && waiter.Lonely()
    {
      ghost var s := [list] + waiting;
      assert s[0] == list && s[0].next == s[1];
      waiter := list.next;
      Rotated(s, 1);
      ghost var r := s[1..] + s[..1];
      waiter.Unlink(r);
      LonelyMeansAlone([waiter], 0);
      ghost var t := r[1..];
      assert t == waiting[1..] + [list];
      Rotated(t, |waiting| - 1);
      assert t[|waiting| - 1..] == [list] && t[..|waiting| - 1] == waiting[1..];
      waiting := waiting[1..];
    }
  }
}
