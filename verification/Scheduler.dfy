/** Task ring, preemption counter and context switches (kernel/scheduler/init.cpp) together with
    the blocking mutex (kernel/scheduler/mutex.cpp), as a transition system.

    One step is one uninterruptible piece of kernel code; a timer tick may come between any two. */
module Scheduler {
  import opened Common
  import opened Mutex

  /** The idle task: pid 0, whose code is an endless pause loop. */
  const IDLE: Task := 0

  // ---------------------------------------------------------------- picking the next task

  function After(i: nat, n: nat): (j: nat)
    requires i < n
    ensures j < n
  {
    if i + 1 < n then i + 1 else 0
  }

  /** How many steps around a ring of `n` lead from position `i` to position `j`: 1 to n. */
  function Distance(i: nat, j: nat, n: nat): (d: nat)
    requires i < n && j < n
    ensures 1 <= d <= n
  {
    if i < j then j - i else j - i + n
  }

  /** The first position after `i`, looking at `left` positions at most, whose task is not blocked. */
  function Pick(ring: seq<Task>, i: nat, left: nat, blocked: set<Task>): (r: Option<nat>)
    requires i < |ring|
    ensures r.Some? ==> r.value < |ring| && ring[r.value] !in blocked
    decreases left
  {
    if left == 0 then None else
      var j := After(i, |ring|);
      if ring[j] !in blocked then Some(j) else Pick(ring, j, left - 1, blocked)
  }

  /** An unblocked task anywhere in the ring makes the search succeed, and it is never passed over. */
  lemma {:induction false} PickFinds(ring: seq<Task>, i: nat, left: nat, blocked: set<Task>, p: nat)
    requires i < |ring| && p < |ring| && ring[p] !in blocked
    requires Distance(i, p, |ring|) <= left
    ensures Pick(ring, i, left, blocked).Some?
    ensures Distance(i, Pick(ring, i, left, blocked).value, |ring|) <= Distance(i, p, |ring|)
    decreases left
  {
    var j := After(i, |ring|);
    if ring[j] in blocked {
      PickFinds(ring, j, left - 1, blocked, p);
    }
  }

  /** pick_next_task: moves on along the ring at least once, and until the one reached is not blocked.  The
      loop ends because some task of the ring, the idle task, is never blocked. */
  method PickNextTask(ring: seq<Task>, current: nat, blocked: set<Task>, ghost free: nat) returns (next: nat)
    requires current < |ring| && free < |ring| && ring[free] !in blocked
    ensures next < |ring| && ring[next] !in blocked
    ensures Pick(ring, current, |ring|, blocked) == Some(next)
    ensures Distance(current, next, |ring|) <= Distance(current, free, |ring|)
  {
    PickFinds(ring, current, |ring|, blocked, free);
    next := After(current, |ring|);
    ghost var left := |ring| - 1;
    while ring[next] in blocked
      invariant next < |ring| && 0 <= left && Pick(ring, current, |ring|, blocked).Some?
      invariant Pick(ring, current, |ring|, blocked) ==
                if ring[next] !in blocked then Some(next) else Pick(ring, next, left, blocked)
      decreases left
    {
      next, left := After(next, |ring|), left - 1;
    }
  }

  /** The positions picked one after the other, the blocked tasks changing in between. */
  function Picks(ring: seq<Task>, i: nat, blocked: seq<set<Task>>): (s: seq<nat>)
    requires i < |ring|
    ensures forall x :: x in s ==> x < |ring|
    decreases |blocked|
  {
    if blocked == [] then [] else
      match Pick(ring, i, |ring|, blocked[0])
      case None => []
      case Some(j) => [j] + Picks(ring, j, blocked[1..])
  }

  /** A task that stays unblocked is picked within as many picks as its distance along the ring. */
  lemma {:induction false} PickedInTime(ring: seq<Task>, i: nat, blocked: seq<set<Task>>, p: nat)
    requires i < |ring| && p < |ring|
    requires forall b :: b in blocked ==> ring[p] !in b
    requires Distance(i, p, |ring|) <= |blocked|
    ensures exists x :: 0 <= x < |Picks(ring, i, blocked)| && x < Distance(i, p, |ring|)
                        && Picks(ring, i, blocked)[x] == p
    decreases |blocked|
  {
    PickFinds(ring, i, |ring|, blocked[0], p);
    var j := Pick(ring, i, |ring|, blocked[0]).value;
    if j == p {
      assert Picks(ring, i, blocked)[0] == p;
    } else {
      PickedInTime(ring, j, blocked[1..], p);
      var x :| 0 <= x < |Picks(ring, j, blocked[1..])| && x < Distance(j, p, |ring|)
               && Picks(ring, j, blocked[1..])[x] == p;
      assert Picks(ring, i, blocked)[x + 1] == p;
    }
  }

  // ---------------------------------------------------------------- the transition system

  /** How far a task has come in lock() or unlock() of mutex `m`. */
  datatype At =
    | Client                   // outside the mutex code
    | Locking(m: nat)          // lock(): preemption is off
    | Locked(m: nat)           // lock(): took the free mutex, preemption still off
    | Queued(m: nat)           // lock(): in the wait ring, preemption still off
    | Window(m: nat)           // lock(): preemption on again, yield() not yet called
    | Resumed(m: nat)          // lock(): switched away inside yield(), or back from it
    | Unlocking(m: nat)        // unlock(): preemption is off
    | Unlocked(m: nat)         // unlock(): mutex passed on, preemption still off

  /** The execution state of a task: its place in the mutex code, the preemption locks it holds
      outside that code, and the mutexes whose lock() has returned and whose unlock() it has not
      called. */
  datatype Pc = Pc(at: At, depth: nat, held: set<nat>) {
    /** The preemption locks a task holds right now. */
    function Depth(): nat {
      depth + if at.Locking? || at.Locked? || at.Queued? || at.Unlocking? || at.Unlocked? then 1 else 0
    }
    predicate WaitsFor(m: nat) {
      at == Queued(m) || at == Window(m) || at == Resumed(m)
    }
  }

  /** The assertions of the kernel that can fail in these steps. */
  datatype Panic =
    | Relock            // lock() by the owner
    | ForeignUnlock     // unlock() by a task that is not the owner
    | CounterUnderflow  // preempt_down without preempt_up
    | YieldLocked       // yield() with preemption off
    | NotOwner          // a contended lock() returns to a task that is not the owner
    | NoRunnable        // pick_next_task would never end

  datatype Kernel = Kernel(
    ring: seq<Task>, cur: nat, counter: nat, locks: seq<Lock>, pcs: map<Task, Pc>, panic: Option<Panic>)
  {
    ghost predicate Shaped() {
      && cur < |ring|
      && Unique(ring)
      && (forall t :: t in pcs <==> t in ring)
    }

    function Current(): Task
      requires Shaped()
    {
      ring[cur]
    }

    function Me(): Pc
      requires Shaped()
    {
      var t := ring[cur];
      assert t in ring;
      pcs[t]
    }

    function Blocked(): set<Task> {
      set m, t | 0 <= m < |locks| && t in locks[m].waiters :: t
    }
  }

  datatype Action =
    | Tick | PreemptUp | PreemptDown | YieldCall
    | LockCall(m: nat) | UnlockCall(m: nat) | Continue | LinkTask(t: Task)

  function Fail(k: Kernel, p: Panic): Kernel {
    k.(panic := Some(p))
  }

  /** Both switch paths, the timer's and yield's, end in pick_next_task. */
  function Switch(k: Kernel): Kernel
    requires k.Shaped()
  {
    match Pick(k.ring, k.cur, |k.ring|, k.Blocked())
    case None => Fail(k, NoRunnable)
    case Some(j) => k.(cur := j)
  }

  function SetAt(k: Kernel, at: At): Kernel
    requires k.Shaped()
  {
    k.(pcs := k.pcs[k.Current() := k.Me().(at := at)])
  }

  /** One step of the running task, or a timer tick.  A step that does not apply changes nothing. */
  function Step(k: Kernel, a: Action): Kernel
    requires k.Shaped()
  {
    if k.panic.Some? then k
    else if a == Tick then
      if k.counter != 0 then k else Switch(k)
    else if k.Current() == IDLE then k
    else if k.Me().at != Client then
      if a == Continue then StepInside(k) else k
    else
      var me := k.Me();
      match a
      case PreemptUp =>
        k.(counter := k.counter + 1, pcs := k.pcs[k.Current() := me.(depth := me.depth + 1)])
      case PreemptDown =>
        if k.counter == 0 then Fail(k, CounterUnderflow)
        else k.(counter := k.counter - 1,
                pcs := k.pcs[k.Current() := me.(depth := if me.depth > 0 then me.depth - 1 else 0)])
      case YieldCall =>
        if k.counter != 0 then Fail(k, YieldLocked) else Switch(k)
      case LockCall(m) =>
        if m < |k.locks| then SetAt(k.(counter := k.counter + 1), Locking(m)) else k
      case UnlockCall(m) =>
        if m < |k.locks| then
          k.(counter := k.counter + 1,
             pcs := k.pcs[k.Current() := me.(at := Unlocking(m), held := me.held - {m})])
        else k
      case LinkTask(t) =>
        if t in k.ring then k
        else k.(ring := k.ring[..k.cur + 1] + [t] + k.ring[k.cur + 1..],
                pcs := k.pcs[t := Pc(Client, 0, {})])
      case _ => k
  }

  /** The running task goes on inside lock() or unlock(). */
  function StepInside(k: Kernel): Kernel
    requires k.Shaped() && k.Me().at != Client
  {
    var t, me := k.Current(), k.Me();
    match me.at
    case Locking(m) =>
      if m >= |k.locks| then k else
      var (l, outcome) := k.locks[m].Acquire(t);
      if outcome == CalledByOwner then Fail(k, Relock)
      else SetAt(k.(locks := k.locks[m := l]), if outcome == Taken then Locked(m) else Queued(m))
    case Locked(m) =>
      if k.counter == 0 then Fail(k, CounterUnderflow)
      else k.(counter := k.counter - 1, pcs := k.pcs[t := me.(at := Client, held := me.held + {m})])
    case Queued(m) =>
      if k.counter == 0 then Fail(k, CounterUnderflow)
      else SetAt(k.(counter := k.counter - 1), Window(m))
    case Window(m) =>
      if k.counter != 0 then Fail(k, YieldLocked) else Switch(SetAt(k, Resumed(m)))
    case Resumed(m) =>
      if m >= |k.locks| || k.locks[m].owner != Some(t) then Fail(k, NotOwner)
      else k.(pcs := k.pcs[t := me.(at := Client, held := me.held + {m})])
    case Unlocking(m) =>
      if m >= |k.locks| then k else
      var (l, outcome) := k.locks[m].Release(t);
      if outcome == CalledByOther then Fail(k, ForeignUnlock)
      else SetAt(k.(locks := k.locks[m := l]), Unlocked(m))
    case Unlocked(m) =>
      if k.counter == 0 then Fail(k, CounterUnderflow)
      else SetAt(k.(counter := k.counter - 1), Client)
  }

  // ---------------------------------------------------------------- the invariant

  /** The running task holds exactly the preemption locks the counter says; nobody else holds any. */
  ghost predicate Counted(k: Kernel)
    requires k.Shaped()
  {
    && k.counter == k.Me().Depth()
    && forall t :: t in k.pcs && t != k.Current() ==> k.pcs[t].Depth() == 0
  }

  /** A mutex agrees with where its owner and its waiters are. */
  ghost predicate LockAgrees(l: Lock, m: nat, pcs: map<Task, Pc>) {
    && (l.owner == None ==> l.waiters == [])
    && Unique(l.waiters)
    && (forall t :: t in l.waiters ==> t in pcs && pcs[t].WaitsFor(m) && l.owner != Some(t))
    && (l.owner.Some? ==> l.owner.value in pcs && Owns(pcs[l.owner.value], m))
    && (forall t :: t in pcs ==> TaskAgrees(l, m, t, pcs[t]))
  }

  ghost predicate Owns(p: Pc, m: nat) {
    m in p.held || p.at == Locked(m) || p.at == Unlocking(m) || p.at == Window(m) || p.at == Resumed(m)
  }

  ghost predicate TaskAgrees(l: Lock, m: nat, t: Task, p: Pc) {
    && (m in p.held || p.at == Locked(m) ==> l.owner == Some(t))
    && (p.at == Queued(m) ==> t in l.waiters)
    && (p.WaitsFor(m) ==> t in l.waiters || l.owner == Some(t))
  }

  /** Where a task may be, whatever the mutexes look like. */
  ghost predicate PlaceAgrees(k: Kernel, t: Task)
    requires t in k.pcs
  {
    && (!k.pcs[t].at.Client? ==> k.pcs[t].at.m < |k.locks|)
    && (k.pcs[t].at.Resumed? ==> k.pcs[t].depth == 0)
    && (k.pcs[t].at.Unlocking? ==> k.pcs[t].at.m !in k.pcs[t].held)
    && (forall m :: m in k.pcs[t].held ==> m < |k.locks|)
  }

  /** The invariant without its last part, which a task that is about to switch away gives up. */
  ghost predicate CoreInv(k: Kernel) {
    && k.Shaped()
    && IDLE in k.pcs && k.pcs[IDLE] == Pc(Client, 0, {})
    && Counted(k)
    && (forall t {:trigger k.pcs[t]} :: t in k.pcs ==> PlaceAgrees(k, t))
    && (forall m {:trigger k.locks[m]} :: 0 <= m < |k.locks| ==> LockAgrees(k.locks[m], m, k.pcs))
  }

  ghost predicate Inv(k: Kernel) {
    CoreInv(k) && (k.Me().at.Resumed? ==> k.Current() !in k.Blocked())
  }

  // ---------------------------------------------------------------- every step keeps the invariant

  /** The idle task is never blocked, so a switch always finds a task, and one that is not blocked. */
  lemma SwitchKeepsInv(k: Kernel)
    requires CoreInv(k) && k.Me().Depth() == 0
    ensures Inv(Switch(k)) && Switch(k).panic == k.panic
  {
    assert IDLE in k.ring;
    var p :| 0 <= p < |k.ring| && k.ring[p] == IDLE;
    assert IDLE !in k.Blocked();
    PickFinds(k.ring, k.cur, |k.ring|, k.Blocked(), p);
  }

  /** A task moves on and the mutex stays as it is. */
  lemma MoveKeepsLock(l: Lock, m: nat, pcs: map<Task, Pc>, t: Task, p: Pc)
    requires LockAgrees(l, m, pcs)
    requires TaskAgrees(l, m, t, p)
    requires t in l.waiters ==> p.WaitsFor(m)
    requires l.owner == Some(t) ==> Owns(p, m)
    ensures LockAgrees(l, m, pcs[t := p])
  {
  }

  /** The running task moves on to `p`, and the counter with it. */
  lemma MoveKeepsInv(k: Kernel, p: Pc, counter: nat)
    requires CoreInv(k) && k.Current() != IDLE && counter == p.Depth()
    requires !p.at.Client? ==> p.at.m < |k.locks|
    requires p.at.Resumed? ==> p.depth == 0
    requires p.at.Unlocking? ==> p.at.m !in p.held
    requires forall m :: m in p.held ==> m < |k.locks|
    requires forall m {:trigger k.locks[m]} :: 0 <= m < |k.locks| ==>
               && TaskAgrees(k.locks[m], m, k.Current(), p)
               && (k.Current() in k.locks[m].waiters ==> p.WaitsFor(m))
               && (k.locks[m].owner == Some(k.Current()) ==> Owns(p, m))
    ensures CoreInv(k.(counter := counter, pcs := k.pcs[k.Current() := p]))
  {
    var k' := k.(counter := counter, pcs := k.pcs[k.Current() := p]);
    assert k.Current() in k.ring;
    forall m {:trigger k'.locks[m]} | 0 <= m < |k'.locks| ensures LockAgrees(k'.locks[m], m, k'.pcs) {
      MoveKeepsLock(k.locks[m], m, k.pcs, k.Current(), p);
    }
  }

  lemma AcquireKeepsLock(l: Lock, m: nat, pcs: map<Task, Pc>, t: Task)
    requires LockAgrees(l, m, pcs) && t in pcs && pcs[t].at == Locking(m) && l.owner != Some(t)
    ensures var (l', outcome) := l.Acquire(t);
      LockAgrees(l', m, pcs[t := pcs[t].(at := if outcome == Taken then Locked(m) else Queued(m))])
  {
    assert t !in l.waiters;
  }

  lemma ReleaseKeepsLock(l: Lock, m: nat, pcs: map<Task, Pc>, t: Task)
    requires LockAgrees(l, m, pcs) && t in pcs && pcs[t].at == Unlocking(m) && l.owner == Some(t)
    requires m !in pcs[t].held && forall x :: x in pcs && x != t ==> pcs[x].Depth() == 0
    ensures LockAgrees(l.Release(t).0, m, pcs[t := pcs[t].(at := Unlocked(m))])
  {
    var pcs' := pcs[t := pcs[t].(at := Unlocked(m))];
    if l.waiters != [] {
      var w := l.waiters[0];
      assert forall x :: x in l.waiters[1..] ==> x in l.waiters && x != w;
      assert w in l.waiters && w != t && pcs[w].WaitsFor(m);
      assert Owns(pcs'[w], m);
    }
  }

  lemma FailKeepsInv(k: Kernel, e: Panic)
    requires Inv(k)
    ensures Inv(Fail(k, e))
  {
    var k' := Fail(k, e);
    assert forall t {:trigger k'.pcs[t]} :: t in k'.pcs ==> PlaceAgrees(k, t) && PlaceAgrees(k', t);
  }

  /** The running task changes one mutex and moves on; the other mutexes do not notice. */
  lemma LockMove(k: Kernel, m: nat, l: Lock, at: At)
    requires Inv(k) && k.Current() != IDLE && m < |k.locks|
    requires (k.Me().at == Locking(m) && (at == Locked(m) || at == Queued(m)))
          || (k.Me().at == Unlocking(m) && at == Unlocked(m))
    requires LockAgrees(l, m, k.pcs[k.Current() := k.Me().(at := at)])
    ensures Inv(SetAt(k.(locks := k.locks[m := l]), at))
  {
    var t, p := k.Current(), k.Me().(at := at);
    var k' := SetAt(k.(locks := k.locks[m := l]), at);
    assert t in k.ring && PlaceAgrees(k, t);
    forall x {:trigger k'.locks[x]} | 0 <= x < |k'.locks| ensures LockAgrees(k'.locks[x], x, k'.pcs) {
      if x != m {
        assert LockAgrees(k.locks[x], x, k.pcs) && TaskAgrees(k.locks[x], x, t, k.Me());
        MoveKeepsLock(k.locks[x], x, k.pcs, t, p);
      }
    }
    forall u {:trigger k'.pcs[u]} | u in k'.pcs ensures PlaceAgrees(k', u) { assert PlaceAgrees(k, u); }
  }

  lemma AcquireKeepsInv(k: Kernel)
    requires Inv(k) && k.panic == None && k.Current() != IDLE && k.Me().at.Locking?
    ensures Inv(StepInside(k))
  {
    var t, m := k.Current(), k.Me().at.m;
    assert t in k.ring && PlaceAgrees(k, t);
    if k.locks[m].owner == Some(t) {
      FailKeepsInv(k, Relock);
    } else {
      AcquireKeepsLock(k.locks[m], m, k.pcs, t);
      var (l, outcome) := k.locks[m].Acquire(t);
      LockMove(k, m, l, if outcome == Taken then Locked(m) else Queued(m));
    }
  }

  lemma ReleaseKeepsInv(k: Kernel)
    requires Inv(k) && k.panic == None && k.Current() != IDLE && k.Me().at.Unlocking?
    ensures Inv(StepInside(k))
  {
    var t, m := k.Current(), k.Me().at.m;
    assert t in k.ring && PlaceAgrees(k, t);
    if k.locks[m].owner != Some(t) {
      FailKeepsInv(k, ForeignUnlock);
    } else {
      ReleaseKeepsLock(k.locks[m], m, k.pcs, t);
      LockMove(k, m, k.locks[m].Release(t).0, Unlocked(m));
    }
  }

  lemma YieldKeepsInv(k: Kernel)
    requires Inv(k) && k.Current() != IDLE && k.Me().at.Window? && k.counter == 0
    ensures Inv(Switch(SetAt(k, Resumed(k.Me().at.m))))
    ensures Switch(SetAt(k, Resumed(k.Me().at.m))).panic == k.panic
  {
    var t, me, m := k.Current(), k.Me(), k.Me().at.m;
    assert t in k.ring && PlaceAgrees(k, t);
    assert forall x {:trigger k.locks[x]} :: 0 <= x < |k.locks| ==>
             LockAgrees(k.locks[x], x, k.pcs) && TaskAgrees(k.locks[x], x, t, me);
    MoveKeepsInv(k, me.(at := Resumed(m)), 0);
    assert SetAt(k, Resumed(m)) == k.(counter := 0, pcs := k.pcs[t := me.(at := Resumed(m))]);
    SwitchKeepsInv(SetAt(k, Resumed(m)));
  }

  /** A task that runs again after waiting for a mutex has become its owner: the assertion at the end
      of a contended lock() cannot fail. */
  lemma ResumedOwns(k: Kernel)
    requires Inv(k) && k.Me().at.Resumed?
    ensures k.Me().at.m < |k.locks| && k.locks[k.Me().at.m].owner == Some(k.Current())
  {
    var t, m := k.Current(), k.Me().at.m;
    assert t in k.ring && PlaceAgrees(k, t);
    assert LockAgrees(k.locks[m], m, k.pcs) && TaskAgrees(k.locks[m], m, t, k.pcs[t]);
    assert t in k.locks[m].waiters ==> t in k.Blocked();
  }

  lemma ReturnKeepsInv(k: Kernel)
    requires Inv(k) && k.Current() != IDLE && k.Me().at.Resumed?
    ensures Inv(StepInside(k))
  {
    var t, me, m := k.Current(), k.Me(), k.Me().at.m;
    ResumedOwns(k);
    assert t in k.ring && PlaceAgrees(k, t);
    assert forall x {:trigger k.locks[x]} :: 0 <= x < |k.locks| ==>
             LockAgrees(k.locks[x], x, k.pcs) && TaskAgrees(k.locks[x], x, t, me);
    MoveKeepsInv(k, me.(at := Client, held := me.held + {m}), k.counter);
  }

  /** A task moves on without changing what it owns or waits for. */
  lemma PlainMove(k: Kernel, p: Pc, counter: nat)
    requires CoreInv(k) && k.Current() != IDLE && counter == p.Depth()
    requires !p.at.Client? ==> p.at.m < |k.locks|
    requires var me := k.Me();
      || ((me.at.Client? || me.at.Unlocked?) && p.held == me.held && (p.at.Client? || p.at.Locking?))
      || (me.at.Client? && p.at.Unlocking? && p.held == me.held - {p.at.m})
      || (me.at.Queued? && p.at == Window(me.at.m) && p.held == me.held)
      || (me.at.Locked? && p.at.Client? && p.held == me.held + {me.at.m})
    ensures Inv(k.(counter := counter, pcs := k.pcs[k.Current() := p]))
  {
    var t, me := k.Current(), k.Me();
    assert t in k.ring && PlaceAgrees(k, t);
    forall m {:trigger k.locks[m]} | 0 <= m < |k.locks|
      ensures TaskAgrees(k.locks[m], m, t, p)
      ensures t in k.locks[m].waiters ==> p.WaitsFor(m)
      ensures k.locks[m].owner == Some(t) ==> Owns(p, m)
    {
      assert LockAgrees(k.locks[m], m, k.pcs) && TaskAgrees(k.locks[m], m, t, me);
    }
    MoveKeepsInv(k, p, counter);
  }

  /** The steps inside lock() and unlock() that change no mutex. */
  lemma MoveInsideKeepsInv(k: Kernel)
    requires Inv(k) && k.panic == None && k.Current() != IDLE
    requires !k.Me().at.Client? && !k.Me().at.Locking? && !k.Me().at.Unlocking?
    ensures Inv(StepInside(k))
  {
    var me := k.Me();
    assert k.Current() in k.ring && PlaceAgrees(k, k.Current());
    match me.at
    case Locked(m) => PlainMove(k, me.(at := Client, held := me.held + {m}), k.counter - 1);
    case Queued(m) => PlainMove(k, me.(at := Window(m)), k.counter - 1);
    case Window(m) => if k.counter == 0 { YieldKeepsInv(k); }
    case Resumed(m) => ReturnKeepsInv(k);
    case Unlocked(m) => PlainMove(k, me.(at := Client), k.counter - 1);
  }

  lemma LinkKeepsInv(k: Kernel, t: Task)
    requires Inv(k) && k.panic == None && k.Me().at.Client? && t !in k.ring
    ensures Inv(k.(ring := k.ring[..k.cur + 1] + [t] + k.ring[k.cur + 1..],
                   pcs := k.pcs[t := Pc(Client, 0, {})]))
  {
    var k' := k.(ring := k.ring[..k.cur + 1] + [t] + k.ring[k.cur + 1..],
                 pcs := k.pcs[t := Pc(Client, 0, {})]);
    assert k'.ring[k.cur] == k.ring[k.cur];
    forall m {:trigger k'.locks[m]} | 0 <= m < |k'.locks| ensures LockAgrees(k'.locks[m], m, k'.pcs) {
      assert LockAgrees(k.locks[m], m, k.pcs);
      MoveKeepsLock(k.locks[m], m, k.pcs, t, Pc(Client, 0, {}));
    }
  }

  /** Every step of every task, and every tick, keeps the invariant. */
  lemma StepKeepsInv(k: Kernel, a: Action)
    requires Inv(k)
    ensures Inv(Step(k, a))
  {
    var t, me := k.Current(), k.Me();
    assert t in k.ring && PlaceAgrees(k, t);
    if k.panic.Some? {
    } else if a == Tick {
      if k.counter == 0 { SwitchKeepsInv(k); }
    } else if t == IDLE {
    } else if me.at != Client {
      if me.at.Locking? { AcquireKeepsInv(k); }
      else if me.at.Unlocking? { ReleaseKeepsInv(k); }
      else { MoveInsideKeepsInv(k); }
    } else {
      ClientStepKeepsInv(k, a);
    }
  }

  lemma ClientStepKeepsInv(k: Kernel, a: Action)
    requires Inv(k) && k.panic == None && a != Tick && k.Current() != IDLE && k.Me().at == Client
    ensures Inv(Step(k, a))
  {
    var t, me := k.Current(), k.Me();
    assert t in k.ring && PlaceAgrees(k, t);
    match a
    case PreemptUp =>
      var p := me.(depth := me.depth + 1);
      PlainMove(k, p, k.counter + 1);
      assert Step(k, a) == k.(counter := k.counter + 1, pcs := k.pcs[t := p]);
    case PreemptDown =>
      if me.depth > 0 {
        var p := me.(depth := me.depth - 1);
        PlainMove(k, p, k.counter - 1);
        assert Step(k, a) == k.(counter := k.counter - 1, pcs := k.pcs[t := p]);
      } else {
        FailKeepsInv(k, CounterUnderflow);
      }
    case YieldCall => if k.counter == 0 { SwitchKeepsInv(k); } else { FailKeepsInv(k, YieldLocked); }
    case LockCall(m) =>
      if m < |k.locks| {
        var p := me.(at := Locking(m));
        PlainMove(k, p, k.counter + 1);
        assert Step(k, a) == k.(counter := k.counter + 1, pcs := k.pcs[t := p]);
      }
    case UnlockCall(m) =>
      if m < |k.locks| {
        var p := me.(at := Unlocking(m), held := me.held - {m});
        PlainMove(k, p, k.counter + 1);
        assert Step(k, a) == k.(counter := k.counter + 1, pcs := k.pcs[t := p]);
      }
    case LinkTask(u) =>
      if u !in k.ring {
        LinkKeepsInv(k, u);
      } else {
        assert Step(k, a) == k;
      }
    case _ =>
  }

  // ---------------------------------------------------------------- whole runs

  /** Some tasks, the idle task among them, all outside the mutex code; no mutex is owned. */
  ghost predicate Initial(k: Kernel) {
    && k.Shaped() && IDLE in k.pcs && k.counter == 0 && k.panic == None
    && (forall t :: t in k.pcs ==> k.pcs[t] == Pc(Client, 0, {}))
    && (forall m {:trigger k.locks[m]} :: 0 <= m < |k.locks| ==> k.locks[m] == Lock(None, []))
  }

  ghost function Run(k: Kernel, actions: seq<Action>): (r: Kernel)
    requires Inv(k)
    ensures Inv(r) && |r.locks| == |k.locks|
    decreases |actions|
  {
    if actions == [] then k else
      StepKeepsInv(k, actions[0]);
      Run(Step(k, actions[0]), actions[1..])
  }

  /** In every run at most one task is between lock() and unlock() of a mutex, and it is the owner;
      tasks wait only for a mutex that is owned, each of them at most once. */
  lemma MutualExclusion(k: Kernel, actions: seq<Action>, m: nat, t: Task, u: Task)
    requires Initial(k) && m < |k.locks|
    ensures var r := Run(k, actions);
      && (t in r.pcs && m in r.pcs[t].held ==> r.locks[m].owner == Some(t))
      && (t in r.pcs && u in r.pcs && m in r.pcs[t].held && m in r.pcs[u].held ==> t == u)
      && (r.locks[m].waiters != [] ==> r.locks[m].owner != None)
      && (t in r.locks[m].waiters ==> r.locks[m].owner != Some(t))
      && Unique(r.locks[m].waiters)
  {
    var r := Run(k, actions);
    assert LockAgrees(r.locks[m], m, r.pcs);
    if t in r.pcs { assert TaskAgrees(r.locks[m], m, t, r.pcs[t]); }
    if u in r.pcs { assert TaskAgrees(r.locks[m], m, u, r.pcs[u]); }
  }

  /** In every run the counter is the nesting depth of the running task, and a task that is switched
      out holds no preemption lock. */
  lemma CounterIsDepth(k: Kernel, actions: seq<Action>, t: Task)
    requires Initial(k)
    ensures var r := Run(k, actions);
      && r.counter == r.Me().Depth()
      && (t in r.pcs && t != r.Current() ==> r.pcs[t].Depth() == 0)
      && (r.counter != 0 ==> Step(r, Tick) == r)
  {
  }

  /** The panics that a client can cause by misusing the interface. */
  predicate ClientFault(p: Panic) {
    p == Relock || p == ForeignUnlock || p == CounterUnderflow || p == YieldLocked
  }

  /** Which step panics, and with what: relocking, unlocking what one does not own, lifting a preemption
      lock one does not hold, and yielding with preemption off, directly or inside a contended lock(). */
  lemma StepPanics(k: Kernel, a: Action)
    requires Inv(k) && k.panic == None
    ensures var p, me := Step(k, a).panic, k.Me();
      && (p.Some? ==> ClientFault(p.value))
      && (p == Some(Relock) <==> k.Current() != IDLE && a == Continue && me.at.Locking? && me.at.m in me.held)
      && (p == Some(ForeignUnlock) <==>
            && k.Current() != IDLE && a == Continue && me.at.Unlocking?
            && me.at.m < |k.locks| && k.locks[me.at.m].owner != Some(k.Current()))
      && (p == Some(CounterUnderflow) <==>
            k.Current() != IDLE && a == PreemptDown && me.at.Client? && me.depth == 0)
      && (p == Some(YieldLocked) <==>
            && k.Current() != IDLE && me.depth > 0
            && ((a == YieldCall && me.at.Client?) || (a == Continue && me.at.Window?)))
  {
    var t, me := k.Current(), k.Me();
    assert t in k.ring && PlaceAgrees(k, t);
    if a == Tick {
      if k.counter == 0 { SwitchKeepsInv(k); }
    } else if t != IDLE {
      if me.at.Resumed? { ResumedOwns(k); }
      if me.at.Window? && k.counter == 0 { YieldKeepsInv(k); }
      if me.at.Client? && k.counter == 0 { SwitchKeepsInv(k); }
      if me.at.Locking? { LockingOwner(k); }
    }
  }

  /** A task that calls lock() owns the mutex exactly if it already holds it. */
  lemma LockingOwner(k: Kernel)
    requires Inv(k) && k.Me().at.Locking?
    ensures var m := k.Me().at.m;
      m < |k.locks| && (k.locks[m].owner == Some(k.Current()) <==> m in k.Me().held)
  {
    var t, m := k.Current(), k.Me().at.m;
    assert t in k.ring && PlaceAgrees(k, t);
    assert LockAgrees(k.locks[m], m, k.pcs) && TaskAgrees(k.locks[m], m, t, k.pcs[t]);
  }

  /** No run makes the scheduler hang in pick_next_task or lets a contended lock() return to a task
      that is not the owner. */
  lemma {:induction false} OnlyClientFaults(k: Kernel, actions: seq<Action>)
    requires Inv(k) && (k.panic.Some? ==> ClientFault(k.panic.value))
    ensures Run(k, actions).panic.Some? ==> ClientFault(Run(k, actions).panic.value)
    decreases |actions|
  {
    if actions != [] {
      StepKeepsInv(k, actions[0]);
      if k.panic == None { StepPanics(k, actions[0]); }
      OnlyClientFaults(Step(k, actions[0]), actions[1..]);
    }
  }

  // ---------------------------------------------------------------- tasks that keep the rules

  /** The step keeps the rules of the interface: lock() with preemption on and not for a mutex one holds,
      unlock() for one that one holds, preempt_down for an own preempt_up, yield() with preemption on. */
  predicate Polite(k: Kernel, a: Action)
    requires k.Shaped()
  {
    k.Me().at == Client ==>
      match a
      case LockCall(m) => k.Me().depth == 0 && m !in k.Me().held
      case UnlockCall(m) => m in k.Me().held
      case PreemptDown => k.Me().depth > 0
      case YieldCall => k.Me().depth == 0
      case _ => true
  }

  /** What polite steps add to the invariant: inside lock() the depth of the caller is 0 and the mutex is
      not held, and inside unlock() the mutex is owned. */
  ghost predicate Calm(k: Kernel, t: Task)
    requires t in k.pcs
  {
    var p := k.pcs[t];
    && (p.at.Locking? || p.at.Queued? || p.at.Window? ==> p.depth == 0)
    && (p.at.Locking? ==> p.at.m !in p.held)
    && (p.at.Unlocking? ==> p.at.m < |k.locks| && k.locks[p.at.m].owner == Some(t))
  }

  ghost predicate AllCalm(k: Kernel) {
    Inv(k) && k.panic == None && forall t {:trigger Calm(k, t)} :: t in k.pcs ==> Calm(k, t)
  }

  lemma PoliteNoPanic(k: Kernel, a: Action)
    requires AllCalm(k) && Polite(k, a)
    ensures Step(k, a).panic == None
  {
    assert k.Current() in k.ring && Calm(k, k.Current());
    StepPanics(k, a);
  }

  /** A step changes the place of the running task only, and a mutex only while that task is in its
      lock() or unlock(). */
  lemma OthersStay(k: Kernel, a: Action, t: Task)
    requires Inv(k) && t in Step(k, a).pcs && t in k.pcs && t != k.Current()
    ensures Step(k, a).pcs[t] == k.pcs[t]
  {
  }

  lemma OthersCalm(k: Kernel, a: Action, t: Task)
    requires AllCalm(k) && t in k.pcs && t in Step(k, a).pcs && t != k.Current()
    ensures Calm(Step(k, a), t)
  {
    assert Calm(k, t) && k.pcs[t].Depth() == 0;
    OthersStay(k, a, t);
  }

  lemma SelfCalm(k: Kernel, a: Action)
    requires AllCalm(k) && Polite(k, a) && k.Current() in Step(k, a).pcs
    ensures Calm(Step(k, a), k.Current())
  {
    var t := k.Current();
    assert t in k.ring && Calm(k, t) && PlaceAgrees(k, t);
    assert forall m {:trigger k.locks[m]} :: 0 <= m < |k.locks| ==>
             LockAgrees(k.locks[m], m, k.pcs) && TaskAgrees(k.locks[m], m, t, k.pcs[t]);
  }

  lemma PoliteKeepsCalm(k: Kernel, a: Action)
    requires AllCalm(k) && Polite(k, a)
    ensures AllCalm(Step(k, a))
  {
    StepKeepsInv(k, a);
    PoliteNoPanic(k, a);
    var k' := Step(k, a);
    forall t | t in k'.pcs ensures Calm(k', t) {
      if t == k.Current() { SelfCalm(k, a); }
      else if t in k.pcs { OthersCalm(k, a, t); }
      else { assert k'.pcs[t] == Pc(Client, 0, {}); }
    }
  }

  /** Every step of the run keeps the rules. */
  ghost predicate PoliteRun(k: Kernel, actions: seq<Action>)
    requires Inv(k)
    decreases |actions|
  {
    actions == [] ||
    (StepKeepsInv(k, actions[0]);
     Polite(k, actions[0]) && PoliteRun(Step(k, actions[0]), actions[1..]))
  }

  lemma {:induction false} PoliteRunCalm(k: Kernel, actions: seq<Action>)
    requires AllCalm(k) && PoliteRun(k, actions)
    ensures Run(k, actions).panic == None
    decreases |actions|
  {
    if actions != [] {
      PoliteKeepsCalm(k, actions[0]);
      PoliteRunCalm(Step(k, actions[0]), actions[1..]);
    }
  }

  /** If all tasks keep the rules then nothing ever panics, however their steps and the ticks mix. */
  lemma NothingPanics(k: Kernel, actions: seq<Action>)
    requires Initial(k) && PoliteRun(k, actions)
    ensures Run(k, actions).panic == None
  {
    PoliteRunCalm(k, actions);
  }

  // ---------------------------------------------------------------- contended lock()

  /** The running task has moved on to `p`, nothing else than the counter and the mutexes has changed. */
  function Moved(k: Kernel, counter: nat, locks: seq<Lock>, p: Pc): Kernel
    requires k.Shaped()
  {
    k.(counter := counter, locks := locks, pcs := k.pcs[k.Current() := p])
  }

  lemma MovedOn(k: Kernel, c: nat, l: seq<Lock>, p: Pc, c': nat, l': seq<Lock>, p': Pc)
    requires k.Shaped()
    ensures var k' := Moved(k, c, l, p);
      && k'.Shaped() && k'.Current() == k.Current() && k'.Me() == p
      && Moved(k', c', l', p') == Moved(k, c', l', p')
  {
    assert k.Current() in k.ring;
    assert k.pcs[k.Current() := p][k.Current() := p'] == k.pcs[k.Current() := p'];
  }

  /** A task other than the idle task runs, and nothing has panicked. */
  ghost predicate Running(k: Kernel) {
    k.Shaped() && k.panic == None && k.Current() != IDLE
  }

  /** The first two steps of lock(), up to where the preemption lock is dropped. */
  lemma LockSteps(k: Kernel, m: nat)
    requires Running(k) && k.Me().at == Client && m < |k.locks| && k.locks[m].owner != Some(k.Current())
    ensures var (l, outcome) := k.locks[m].Acquire(k.Current());
      var k1 := Step(k, LockCall(m));
      k1.Shaped() && Step(k1, Continue) ==
        Moved(k, k.counter + 1, k.locks[m := l], k.Me().(at := if outcome == Taken then Locked(m) else Queued(m)))
  {
    var me, k1 := k.Me(), Step(k, LockCall(m));
    var (l, outcome) := k.locks[m].Acquire(k.Current());
    var p := me.(at := if outcome == Taken then Locked(m) else Queued(m));
    assert k1 == Moved(k, k.counter + 1, k.locks, me.(at := Locking(m)));
    MovedOn(k, k.counter + 1, k.locks, me.(at := Locking(m)), k.counter + 1, k.locks[m := l], p);
    assert Step(k1, Continue) == Moved(k1, k.counter + 1, k.locks[m := l], p);
  }

  /** The third step: the preemption lock is dropped. */
  lemma DropStep(k: Kernel, c: nat, l: seq<Lock>, p: Pc)
    requires Running(k) && (p.at.Locked? || p.at.Queued?)
    ensures var m := p.at.m;
      var k' := Moved(k, c + 1, l, p);
      k'.Shaped() && Step(k', Continue) ==
        Moved(k, c, l, if p.at.Locked? then p.(at := Client, held := p.held + {m}) else p.(at := Window(m)))
  {
    var m, k' := p.at.m, Moved(k, c + 1, l, p);
    var p' := if p.at.Locked? then p.(at := Client, held := p.held + {m}) else p.(at := Window(m));
    MovedOn(k, c + 1, l, p, c, l, p');
    assert Step(k', Continue) == Moved(k', c, l, p');
  }

  lemma RunOf3(k: Kernel, a: Action, b: Action, c: Action)
    requires Inv(k)
    ensures Inv(Step(k, a)) && Inv(Step(Step(k, a), b)) && Inv(Step(Step(Step(k, a), b), c))
    ensures Run(k, [a, b, c]) == Step(Step(Step(k, a), b), c)
  {
    StepKeepsInv(k, a);
    var k1 := Step(k, a);
    StepKeepsInv(k1, b);
    var k2 := Step(k1, b);
    StepKeepsInv(k2, c);
    assert [a, b, c][1..] == [b, c] && [b, c][1..] == [c] && [c][1..] == [];
    assert Run(k2, [c]) == Run(Step(k2, c), []);
    assert Run(k1, [b, c]) == Run(k2, [c]);
  }

  lemma RunOf1(k: Kernel, a: Action)
    requires Inv(k)
    ensures Inv(Step(k, a)) && Run(k, [a]) == Step(k, a)
  {
    StepKeepsInv(k, a);
    assert Run(k, [a]) == Run(Step(k, a), [a][1..]);
  }

  /** lock() of a free mutex returns to the caller, who then holds it. */
  lemma FreeLock(k: Kernel, m: nat)
    requires Inv(k) && Running(k) && k.Me().at == Client && m < |k.locks| && k.locks[m].owner == None
    ensures Run(k, [LockCall(m), Continue, Continue]) ==
              Moved(k, k.counter, k.locks[m := k.locks[m].(owner := Some(k.Current()))],
                    k.Me().(held := k.Me().held + {m}))
  {
    LockSteps(k, m);
    DropStep(k, k.counter, k.locks[m := k.locks[m].Acquire(k.Current()).0], k.Me().(at := Locked(m)));
    RunOf3(k, LockCall(m), Continue, Continue);
  }

  /** A contended lock() waits in the ring of the mutex and drops the preemption lock again. */
  lemma Contend(k: Kernel, m: nat)
    requires Inv(k) && Running(k) && k.Me().at == Client
    requires m < |k.locks| && k.locks[m].owner.Some? && k.locks[m].owner != Some(k.Current())
    ensures Run(k, [LockCall(m), Continue, Continue]) ==
              Moved(k, k.counter, k.locks[m := k.locks[m].(waiters := k.locks[m].waiters + [k.Current()])],
                    k.Me().(at := Window(m)))
  {
    LockSteps(k, m);
    DropStep(k, k.counter, k.locks[m := k.locks[m].Acquire(k.Current()).0], k.Me().(at := Queued(m)));
    RunOf3(k, LockCall(m), Continue, Continue);
  }

  /** It gets past yield() exactly if it was called with preemption on. */
  lemma ContendedLock(k: Kernel, m: nat)
    requires Inv(k) && Running(k) && k.Me().at == Client
    requires m < |k.locks| && k.locks[m].owner.Some? && k.locks[m].owner != Some(k.Current())
    ensures Run(k, [LockCall(m), Continue, Continue] + [Continue]).panic ==
              if k.Me().depth == 0 then None else Some(YieldLocked)
  {
    Contend(k, m);
    RunAppend(k, [LockCall(m), Continue, Continue], [Continue]);
    var k3 := Run(k, [LockCall(m), Continue, Continue]);
    MovedOn(k, k.counter, k3.locks, k.Me().(at := Window(m)), 0, [], k.Me());
    RunOf1(k3, Continue);
    StepPanics(k3, Continue);
  }

  lemma {:induction false} RunAppend(k: Kernel, a: seq<Action>, b: seq<Action>)
    requires Inv(k)
    ensures Run(k, a + b) == Run(Run(k, a), b)
    decreases |a|
  {
    if a == [] {
      assert a + b == b;
    } else {
      StepKeepsInv(k, a[0]);
      assert (a + b)[1..] == a[1..] + b;
      RunAppend(Step(k, a[0]), a[1..], b);
    }
  }

  /** Two tasks, one mutex and the idle task, right after start. */
  ghost function TwoTasks(): (k: Kernel)
    ensures Initial(k) && Inv(k)
  {
    var rest := Pc(Client, 0, {});
    Kernel([IDLE, 1, 2], 1, 0, [Lock(None, [])], map[IDLE := rest, 1 := rest, 2 := rest], None)
  }

  /** A tick with preemption on makes the next task run if it is not blocked. */
  lemma TickMoves(k: Kernel)
    requires k.Shaped() && k.panic == None && k.counter == 0 && k.ring[After(k.cur, |k.ring|)] !in k.Blocked()
    ensures Step(k, Tick) == k.(cur := After(k.cur, |k.ring|))
  {
  }

  /** The first task takes the mutex, and a tick lets the second one run. */
  lemma FirstTaskLocks()
    ensures var k := Run(TwoTasks(), [LockCall(0), Continue, Continue] + [Tick]);
      && Running(k) && k.Current() == 2 && k.locks == [Lock(Some(1), [])] && k.Me() == Pc(Client, 0, {})
  {
    var k, lock := TwoTasks(), [LockCall(0), Continue, Continue];
    FreeLock(k, 0);
    var k' := Run(k, lock);
    assert k'.locks == [Lock(Some(1), [])] && k'.Blocked() == {};
    RunAppend(k, lock, [Tick]);
    RunOf1(k', Tick);
    TickMoves(k');
  }

  /** A run from the start that ends in the panic: the second task asks for the mutex with preemption off. */
  lemma ContendedPanic()
    ensures Initial(TwoTasks())
    ensures Run(TwoTasks(), [LockCall(0), Continue, Continue] + [Tick] +
                            ([PreemptUp] + ([LockCall(0), Continue, Continue] + [Continue]))).panic == Some(YieldLocked)
  {
    var first, last := [LockCall(0), Continue, Continue] + [Tick], [LockCall(0), Continue, Continue] + [Continue];
    FirstTaskLocks();
    var k := Run(TwoTasks(), first);
    RunAppend(TwoTasks(), first, [PreemptUp] + last);
    RunAppend(k, [PreemptUp], last);
    RunOf1(k, PreemptUp);
    MovedOn(k, k.counter + 1, k.locks, k.Me().(depth := 1), 0, [], k.Me());
    var k' := Step(k, PreemptUp);
    assert k' == Moved(k, k.counter + 1, k.locks, k.Me().(depth := 1));
    ContendedLock(k', 0);
  }

  /** Which task a step enters into the wait ring of mutex `m`, if any. */
  function Arrived(k: Kernel, a: Action, m: nat): seq<Task>
    requires k.Shaped() && m < |k.locks|
  {
    if k.panic == None && a == Continue && k.Current() != IDLE && k.Me().at == Locking(m)
       && k.locks[m].Acquire(k.Current()).1 == Enqueued then [k.Current()] else []
  }

  /** The waiting task that a step makes the owner of mutex `m`, if any. */
  function Granted(k: Kernel, a: Action, m: nat): seq<Task>
    requires k.Shaped() && m < |k.locks|
  {
    if k.panic == None && a == Continue && k.Current() != IDLE && k.Me().at == Unlocking(m) then
      match k.locks[m].Release(k.Current()).1
      case HandedTo(t) => [t]
      case _ => []
    else []
  }

  ghost function Arrivals(k: Kernel, actions: seq<Action>, m: nat): seq<Task>
    requires Inv(k) && m < |k.locks|
    decreases |actions|
  {
    if actions == [] then [] else
      StepKeepsInv(k, actions[0]);
      Arrived(k, actions[0], m) + Arrivals(Step(k, actions[0]), actions[1..], m)
  }

  ghost function Grants(k: Kernel, actions: seq<Action>, m: nat): seq<Task>
    requires Inv(k) && m < |k.locks|
    decreases |actions|
  {
    if actions == [] then [] else
      StepKeepsInv(k, actions[0]);
      Granted(k, actions[0], m) + Grants(Step(k, actions[0]), actions[1..], m)
  }

  lemma StepKeepsQueue(k: Kernel, a: Action, m: nat)
    requires k.Shaped() && m < |k.locks|
    ensures Step(k, a).Shaped() ==> |Step(k, a).locks| == |k.locks|
    ensures k.locks[m].waiters + Arrived(k, a, m) == Granted(k, a, m) + Step(k, a).locks[m].waiters
  {
    var w := k.locks[m].waiters;
    assert w + [] == [] + w;
    if k.panic == None && a == Continue && k.Current() != IDLE && k.Me().at == Unlocking(m) {
      assert w != [] ==> w == [w[0]] + w[1..];
    }
  }

  /** Waiters acquire in arrival order: over any run, those waiting at the start followed by those
      that arrive are those that get the mutex handed over followed by those still waiting. */
  lemma {:induction false} FirstComeFirstServed(k: Kernel, actions: seq<Action>, m: nat)
    requires Inv(k) && m < |k.locks|
    ensures k.locks[m].waiters + Arrivals(k, actions, m)
         == Grants(k, actions, m) + Run(k, actions).locks[m].waiters
    decreases |actions|
  {
    if actions == [] {
      assert k.locks[m].waiters + [] == [] + k.locks[m].waiters;
    } else {
      var k' := Step(k, actions[0]);
      StepKeepsInv(k, actions[0]);
      StepKeepsQueue(k, actions[0], m);
      FirstComeFirstServed(k', actions[1..], m);
      Spliced(k.locks[m].waiters, Arrived(k, actions[0], m), Granted(k, actions[0], m), k'.locks[m].waiters,
              Arrivals(k', actions[1..], m), Grants(k', actions[1..], m), Run(k, actions).locks[m].waiters);
    }
  }

  lemma Spliced(w: seq<Task>, a: seq<Task>, g: seq<Task>, w': seq<Task>,
                a': seq<Task>, g': seq<Task>, w'': seq<Task>)
    requires w + a == g + w' && w' + a' == g' + w''
    ensures w + (a + a') == (g + g') + w''
  {
    assert w + (a + a') == (w + a) + a' == g + (w' + a') == (g + g') + w'';
  }
}
