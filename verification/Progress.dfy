/** What tasks get done in the scheduler and the blocking mutex (kernel/scheduler/init.cpp,
    kernel/scheduler/mutex.cpp): lock() and unlock() return, a mutex that is handed over reaches its new owner,
    and the preemption depth of a task is what its calls make it. */
module Progress {
  import opened Common
  import opened Mutex
  import opened Scheduler

  // ---------------------------------------------------------------- the running task on its own

  /** preempt_down undoes preempt_up. */
  lemma UpThenDown(k: Kernel)
    requires Inv(k) && Running(k) && k.Me().at == Client
    ensures Run(k, [PreemptUp] + [PreemptDown]) == k
  {
    RunAppend(k, [PreemptUp], [PreemptDown]);
    RunOf1(k, PreemptUp);
    RunOf1(Step(k, PreemptUp), PreemptDown);
    UpDownSteps(k);
  }

  lemma UpDownSteps(k: Kernel)
    requires Running(k) && k.Me().at == Client
    ensures var k' := Step(k, PreemptUp);
      && k' == Moved(k, k.counter + 1, k.locks, k.Me().(depth := k.Me().depth + 1))
      && k'.Shaped() && Step(k', PreemptDown) == k
  {
    var me, k' := k.Me(), Step(k, PreemptUp);
    var up := me.(depth := me.depth + 1);
    assert k' == Moved(k, k.counter + 1, k.locks, up);
    MovedOn(k, k.counter + 1, k.locks, up, k.counter, k.locks, me);
    assert Step(k', PreemptDown) == Moved(k', k.counter, k.locks, me);
    assert k.pcs[k.Current() := me] == k.pcs;
  }

  /** unlock() by the owner returns.  The caller no longer holds the mutex, which has become free or belongs to
      the first waiter; the counter and everything else is as before. */
  lemma UnlockReturns(k: Kernel, m: nat)
    requires Inv(k) && Running(k) && k.Me().at == Client && m in k.Me().held
    ensures m < |k.locks| && k.locks[m].owner == Some(k.Current())
    ensures var w := k.locks[m].waiters;
      Run(k, [UnlockCall(m), Continue, Continue]) ==
        Moved(k, k.counter, k.locks[m := if w == [] then Lock(None, []) else Lock(Some(w[0]), w[1..])],
              k.Me().(held := k.Me().held - {m}))
  {
    HeldIsOwned(k, m);
    UnlockSteps(k, m);
    var l := k.locks[m].Release(k.Current()).0;
    UnlockedStep(k, k.counter, k.locks[m := l], k.Me().(at := Unlocked(m), held := k.Me().held - {m}));
    RunOf3(k, UnlockCall(m), Continue, Continue);
  }

  lemma HeldIsOwned(k: Kernel, m: nat)
    requires Inv(k) && m in k.Me().held
    ensures m < |k.locks| && k.locks[m].owner == Some(k.Current())
  {
    var t := k.Current();
    assert t in k.ring && PlaceAgrees(k, t);
    assert LockAgrees(k.locks[m], m, k.pcs) && TaskAgrees(k.locks[m], m, t, k.Me());
  }

  /** The first two steps of unlock(), up to where the preemption lock is dropped. */
  lemma UnlockSteps(k: Kernel, m: nat)
    requires Running(k) && k.Me().at == Client && m < |k.locks| && k.locks[m].owner == Some(k.Current())
    ensures var k1 := Step(k, UnlockCall(m));
      k1.Shaped() && Step(k1, Continue) ==
        Moved(k, k.counter + 1, k.locks[m := k.locks[m].Release(k.Current()).0],
              k.Me().(at := Unlocked(m), held := k.Me().held - {m}))
  {
    var p := k.Me().(held := k.Me().held - {m});
    var l, k1 := k.locks[m].Release(k.Current()).0, Step(k, UnlockCall(m));
    assert k1 == Moved(k, k.counter + 1, k.locks, p.(at := Unlocking(m)));
    MovedOn(k, k.counter + 1, k.locks, p.(at := Unlocking(m)), k.counter + 1, k.locks[m := l], p.(at := Unlocked(m)));
    assert Step(k1, Continue) == Moved(k1, k.counter + 1, k.locks[m := l], p.(at := Unlocked(m)));
  }

  lemma UnlockedStep(k: Kernel, c: nat, l: seq<Lock>, p: Pc)
    requires Running(k) && p.at.Unlocked?
    ensures var k' := Moved(k, c + 1, l, p);
      k'.Shaped() && Step(k', Continue) == Moved(k, c, l, p.(at := Client))
  {
    MovedOn(k, c + 1, l, p, c, l, p.(at := Client));
    assert Step(Moved(k, c + 1, l, p), Continue) == Moved(Moved(k, c + 1, l, p), c, l, p.(at := Client));
  }

  /** How many of its own steps a task that does not wait takes to leave lock() or unlock(). */
  function StepsLeft(at: At): nat {
    if at.Locking? || at.Unlocking? then 2 else if at.Client? then 0 else 1
  }

  /** The task is inside lock() or unlock() and need not wait. */
  predicate Passing(k: Kernel)
    requires k.Shaped()
  {
    var at := k.Me().at;
    && !at.Client? && !at.Queued? && !at.Window?
    && (at.Locking? ==> at.m < |k.locks| && k.locks[at.m].owner == None)
  }

  /** Such a task is back outside after that many steps; after lock() it holds the mutex. */
  lemma Returns(k: Kernel)
    requires AllCalm(k) && Running(k) && Passing(k)
    ensures var r, at := Run(k, seq(StepsLeft(k.Me().at), _ => Continue)), k.Me().at;
      && Running(r) && r.Current() == k.Current() && r.Me().at == Client
      && r.Me().depth == k.Me().depth && r.counter == k.Me().depth
      && r.Me().held == if at.Unlocking? || at.Unlocked? then k.Me().held else k.Me().held + {at.m}
  {
    var t, me := k.Current(), k.Me();
    assert t in k.ring && Calm(k, t) && PlaceAgrees(k, t);
    StepOut(k);
    if StepsLeft(me.at) == 1 {
      RunOf1(k, Continue);
      assert seq(1, _ => Continue) == [Continue];
    } else {
      var k' := Step(k, Continue);
      RunOf1(k, Continue);
      PoliteKeepsCalm(k, Continue);
      assert t in k'.ring && PlaceAgrees(k', t);
      StepOut(k');
      RunAppend(k, [Continue], [Continue]);
      RunOf1(k', Continue);
      assert seq(2, _ => Continue) == [Continue] + [Continue];
    }
  }

  /** One step towards the end. */
  lemma StepOut(k: Kernel)
    requires AllCalm(k) && Running(k) && Passing(k)
    ensures var r, at := Step(k, Continue), k.Me().at;
      && Running(r) && r.Current() == k.Current() && r.Me().depth == k.Me().depth
      && (at.Locking? ==> r.Me().at == Locked(at.m) && r.Me().held == k.Me().held)
      && (at.Unlocking? ==> r.Me().at == Unlocked(at.m) && r.Me().held == k.Me().held)
      && (at.Unlocked? ==> r.Me().at == Client && r.Me().held == k.Me().held)
      && (at.Locked? || at.Resumed? ==> r.Me().at == Client && r.Me().held == k.Me().held + {at.m})
      && (StepsLeft(at) == 1 ==> r.counter == k.Me().depth)
  {
    var t := k.Current();
    assert t in k.ring && Calm(k, t) && PlaceAgrees(k, t);
    if k.Me().at.Resumed? { ResumedOwns(k); }
    PoliteNoPanic(k, Continue);
  }

  // ---------------------------------------------------------------- switching

  /** yield() with preemption on, and a tick, switch to the first task along the ring that is not blocked, and
      change nothing else. */
  lemma SwitchMoves(k: Kernel, a: Action)
    requires Inv(k) && k.panic == None && k.counter == 0
    requires a == Tick || (a == YieldCall && k.Current() != IDLE && k.Me().at == Client)
    ensures var r := Step(k, a);
      && r == k.(cur := r.cur) && r.cur < |k.ring| && r.Current() !in k.Blocked()
      && forall p: nat {:trigger k.ring[p]} :: p < |k.ring| && k.ring[p] !in k.Blocked() ==>
           Distance(k.cur, r.cur, |k.ring|) <= Distance(k.cur, p, |k.ring|)
  {
    SwitchKeepsInv(k);
    forall p: nat {:trigger k.ring[p]} | p < |k.ring| && k.ring[p] !in k.Blocked()
      ensures Distance(k.cur, Step(k, a).cur, |k.ring|) <= Distance(k.cur, p, |k.ring|)
    {
      PickFinds(k.ring, k.cur, |k.ring|, k.Blocked(), p);
    }
  }

  /** A new task comes next. */
  lemma LinkedIsNext(k: Kernel, t: Task)
    requires Inv(k) && Running(k) && k.Me().at == Client && k.counter == 0 && t !in k.ring
    ensures Run(k, [LinkTask(t)] + [Tick]).Current() == t
  {
    var k' := Step(k, LinkTask(t));
    RunAppend(k, [LinkTask(t)], [Tick]);
    RunOf1(k, LinkTask(t));
    RunOf1(k', Tick);
    assert k'.ring[k.cur + 1] == t && k'.cur == k.cur;
    assert t !in k'.Blocked() by {
      forall m {:trigger k.locks[m]} | 0 <= m < |k.locks| ensures t !in k.locks[m].waiters {
        assert LockAgrees(k.locks[m], m, k.pcs);
      }
    }
    TickMoves(k');
  }

  function Ticks(n: nat): seq<Action> {
    seq(n, _ => Tick)
  }

  /** With preemption on, a task that is not blocked runs after at most as many ticks as the ring is long. */
  lemma {:induction false} TicksReach(k: Kernel, p: nat) returns (n: nat)
    requires Inv(k) && k.panic == None && k.counter == 0
    requires p < |k.ring| && k.ring[p] !in k.Blocked()
    ensures n <= Distance(k.cur, p, |k.ring|) && Run(k, Ticks(n)) == k.(cur := p)
    decreases Distance(k.cur, p, |k.ring|)
  {
    SwitchMoves(k, Tick);
    var k' := Step(k, Tick);
    StepKeepsInv(k, Tick);
    if k'.cur == p {
      n := 1;
      RunOf1(k, Tick);
      assert Ticks(1) == [Tick];
    } else {
      assert k'.Blocked() == k.Blocked();
      var n' := TicksReach(k', p);
      n := n' + 1;
      assert Ticks(n)[0] == Tick && Ticks(n)[1..] == Ticks(n');
    }
  }

  // ---------------------------------------------------------------- the hand-over

  /** Task `w`, suspended in lock(), has been given the mutex. */
  ghost predicate Given(k: Kernel, m: nat, w: Task) {
    k.Shaped() && w in k.pcs && k.pcs[w].at == Resumed(m) && m < |k.locks| && k.locks[m].owner == Some(w)
  }

  /** It is not the running task before any of the steps. */
  ghost predicate NeverRuns(k: Kernel, actions: seq<Action>, w: Task)
    requires Inv(k)
    decreases |actions|
  {
    actions == [] ||
    (StepKeepsInv(k, actions[0]);
     k.Current() != w && NeverRuns(Step(k, actions[0]), actions[1..], w))
  }

  lemma GivenStep(k: Kernel, a: Action, m: nat, w: Task)
    requires Inv(k) && Given(k, m, w) && k.Current() != w
    ensures Given(Step(k, a), m, w) && Step(k, a).pcs[w] == k.pcs[w]
  {
    StepKeepsInv(k, a);
    RingGrows(k, a, w);
    OthersStay(k, a, w);
    OwnerStays(k, a, m, w);
  }

  /** Only the owner lets go of a mutex. */
  lemma OwnerStays(k: Kernel, a: Action, m: nat, w: Task)
    requires k.Shaped() && m < |k.locks| && k.locks[m].owner == Some(w) && k.Current() != w
    ensures m < |Step(k, a).locks| && Step(k, a).locks[m].owner == Some(w)
  {
    if k.panic == None && a == Continue && k.Current() != IDLE && k.Me().at != Client {
      InsideOwnerStays(k, m, w);
    }
  }

  lemma InsideOwnerStays(k: Kernel, m: nat, w: Task)
    requires k.Shaped() && m < |k.locks| && k.locks[m].owner == Some(w) && k.Current() != w && k.Me().at != Client
    ensures m < |StepInside(k).locks| && StepInside(k).locks[m].owner == Some(w)
  {
    if k.Me().at.Locking? {
      assert k.locks[m].Acquire(k.Current()).0.owner == Some(w);
    } else if k.Me().at.Unlocking? {
      assert k.locks[m].Release(k.Current()).1 == CalledByOther;
    }
  }

  /** Whatever the other tasks do, the mutex waits for its new owner. */
  lemma {:induction false} GivenStays(k: Kernel, actions: seq<Action>, m: nat, w: Task)
    requires Inv(k) && Given(k, m, w) && NeverRuns(k, actions, w)
    ensures Given(Run(k, actions), m, w) && Run(k, actions).pcs[w] == k.pcs[w]
    decreases |actions|
  {
    if actions != [] {
      StepKeepsInv(k, actions[0]);
      GivenStep(k, actions[0], m, w);
      GivenStays(Step(k, actions[0]), actions[1..], m, w);
    }
  }

  /** When the new owner runs, its next step returns from lock(), and it holds the mutex. */
  lemma GivenReturns(k: Kernel, m: nat, w: Task)
    requires Inv(k) && Running(k) && Given(k, m, w) && k.Current() == w
    ensures Run(k, [Continue]) == Moved(k, k.counter, k.locks, k.pcs[w].(at := Client, held := k.pcs[w].held + {m}))
  {
    RunOf1(k, Continue);
  }

  /** Once the owner of a mutex has unlocked it, the first waiter has it, and returns from lock() holding it with the
      first step it takes, however long that takes and whatever happens in between. */
  lemma HandOver(k: Kernel, m: nat, w: Task, actions: seq<Action>)
    requires Inv(k) && Running(k) && k.Me().at == Client && m in k.Me().held
    requires m < |k.locks| && k.locks[m].waiters != [] && k.locks[m].waiters[0] == w
    requires w in k.pcs && k.pcs[w].at == Resumed(m)
    requires NeverRuns(Run(k, [UnlockCall(m), Continue, Continue]), actions, w)
    ensures var r := Run(k, [UnlockCall(m), Continue, Continue] + actions);
      r.panic == None && r.Current() == w ==>
        var r' := Run(k, [UnlockCall(m), Continue, Continue] + actions + [Continue]);
        && r'.panic == None && r'.Current() == w && r'.Me().at == Client
        && m in r'.Me().held && r'.locks[m].owner == Some(w)
  {
    var unlock := [UnlockCall(m), Continue, Continue];
    UnlockReturns(k, m);
    assert LockAgrees(k.locks[m], m, k.pcs) && w in k.locks[m].waiters;
    MovedOn(k, k.counter, Run(k, unlock).locks, k.Me().(held := k.Me().held - {m}), 0, [], k.Me());
    RunAppend(k, unlock, actions);
    GivenStays(Run(k, unlock), actions, m, w);
    var r := Run(k, unlock + actions);
    if r.panic == None && r.Current() == w {
      RunAppend(k, unlock + actions, [Continue]);
      IdleNeverWaits(r);
      GivenReturns(r, m, w);
      MovedOn(r, r.counter, r.locks, r.pcs[w].(at := Client, held := r.pcs[w].held + {m}), 0, [], r.Me());
    }
  }

  lemma IdleNeverWaits(k: Kernel)
    requires Inv(k)
    ensures k.pcs[IDLE].at == Client
  {
  }

  /** Task `w` runs outside the mutex code and holds the mutex. */
  ghost predicate Holds(k: Kernel, m: nat, w: Task) {
    && Running(k) && k.Current() == w && k.Me().at == Client
    && m in k.Me().held && m < |k.locks| && k.locks[m].owner == Some(w)
  }

  /** With preemption on, the new owner returns from lock() within one round of ticks and one step of its own. */
  lemma ResumedReturns(k: Kernel, m: nat, w: Task) returns (actions: seq<Action>)
    requires Inv(k) && k.panic == None && k.counter == 0 && Given(k, m, w)
    ensures (forall a :: a in actions ==> a == Tick || a == Continue) && |actions| <= |k.ring| + 1
    ensures Holds(Run(k, actions), m, w)
  {
    var r, n := WaiterRuns(k, m, w);
    RunAppend(k, Ticks(n), [Continue]);
    GivenReturns(r, m, w);
    MovedOn(r, r.counter, r.locks, r.pcs[w].(at := Client, held := r.pcs[w].held + {m}), 0, [], r.Me());
    actions := Ticks(n) + [Continue];
  }

  /** If a tick interrupted it just before yield(), it takes two rounds and two steps. */
  lemma WindowReturns(k: Kernel, m: nat, w: Task) returns (actions: seq<Action>)
    requires Inv(k) && k.panic == None && k.counter == 0
    requires m < |k.locks| && k.locks[m].owner == Some(w)
    requires w in k.pcs && k.pcs[w].at == Window(m)
    ensures (forall a :: a in actions ==> a == Tick || a == Continue) && |actions| <= 2 * (|k.ring| + 1)
    ensures Holds(Run(k, actions), m, w)
  {
    var y, first := WindowResumes(k, m, w);
    var rest := ResumedReturns(y, m, w);
    RunAppend(k, first, rest);
    actions := first + rest;
  }

  lemma WindowResumes(k: Kernel, m: nat, w: Task) returns (y: Kernel, actions: seq<Action>)
    requires Inv(k) && k.panic == None && k.counter == 0
    requires m < |k.locks| && k.locks[m].owner == Some(w)
    requires w in k.pcs && k.pcs[w].at == Window(m)
    ensures (forall a :: a in actions ==> a == Tick || a == Continue) && |actions| <= |k.ring| + 1
    ensures y == Run(k, actions) && Inv(y) && y.panic == None && y.counter == 0 && y.ring == k.ring && Given(y, m, w)
  {
    var r, n := WaiterRuns(k, m, w);
    RunAppend(k, Ticks(n), [Continue]);
    RunOf1(r, Continue);
    WindowYields(r, m);
    y, actions := Step(r, Continue), Ticks(n) + [Continue];
  }

  /** The new owner is not blocked, so ticks alone make it run. */
  lemma WaiterRuns(k: Kernel, m: nat, w: Task) returns (r: Kernel, n: nat)
    requires Inv(k) && k.panic == None && k.counter == 0
    requires m < |k.locks| && k.locks[m].owner == Some(w) && w in k.pcs && k.pcs[w].WaitsFor(m)
    ensures n <= |k.ring| && r == Run(k, Ticks(n)) && r == k.(cur := r.cur) && Inv(r) && Running(r) && r.Current() == w
  {
    IdleNeverWaits(k);
    assert w in k.ring;
    var p :| 0 <= p < |k.ring| && k.ring[p] == w;
    NotBlocked(k, m, w);
    n := TicksReach(k, p);
    r := Run(k, Ticks(n));
  }

  /** A task that was interrupted just before yield() yields when it runs again. */
  lemma WindowYields(k: Kernel, m: nat)
    requires Inv(k) && Running(k) && k.Me().at == Window(m) && k.counter == 0
    ensures var r, w := Step(k, Continue), k.Current();
      && Inv(r) && r.panic == None && r.counter == 0 && r.locks == k.locks && r.ring == k.ring
      && w in r.pcs && r.pcs[w] == k.pcs[w].(at := Resumed(m))
  {
    StepKeepsInv(k, Continue);
    YieldKeepsInv(k);
  }

  /** The owner of the mutex it waited for is in no wait ring. */
  lemma NotBlocked(k: Kernel, m: nat, w: Task)
    requires Inv(k) && m < |k.locks| && k.locks[m].owner == Some(w) && w in k.pcs
    requires k.pcs[w].WaitsFor(m)
    ensures w !in k.Blocked()
  {
    forall x {:trigger k.locks[x]} | 0 <= x < |k.locks| ensures w !in k.locks[x].waiters {
      assert LockAgrees(k.locks[x], x, k.pcs);
    }
  }

  // ---------------------------------------------------------------- depth

  /** How a step of task `t` changes its own preemption depth. */
  function Change(k: Kernel, a: Action, t: Task): int
    requires k.Shaped()
  {
    if k.panic == None && k.Current() == t && t != IDLE && k.Me().at == Client then
      if a == PreemptUp then 1 else if a == PreemptDown && k.Me().depth > 0 then -1 else 0
    else 0
  }

  /** The calls of preempt_up by `t` minus those of preempt_down. */
  ghost function UpsMinusDowns(k: Kernel, actions: seq<Action>, t: Task): int
    requires Inv(k)
    decreases |actions|
  {
    if actions == [] then 0 else
      StepKeepsInv(k, actions[0]);
      Change(k, actions[0], t) + UpsMinusDowns(Step(k, actions[0]), actions[1..], t)
  }

  lemma DepthStep(k: Kernel, a: Action, t: Task)
    requires Inv(k) && t in k.pcs
    ensures t in Step(k, a).pcs && Step(k, a).pcs[t].depth == k.pcs[t].depth + Change(k, a, t)
  {
    RingGrows(k, a, t);
    if t != k.Current() {
      OthersStay(k, a, t);
    } else {
      OwnDepth(k, a);
    }
  }

  lemma OwnDepth(k: Kernel, a: Action)
    requires Inv(k)
    ensures var t := k.Current();
      t in Step(k, a).pcs && Step(k, a).pcs[t].depth == k.Me().depth + Change(k, a, t)
  {
    var t := k.Current();
    assert t in k.ring && PlaceAgrees(k, t);
    if k.Me().at != Client { InsideKeepsDepth(k); }
  }

  lemma InsideKeepsDepth(k: Kernel)
    requires k.Shaped() && k.Me().at != Client
    ensures k.Current() in StepInside(k).pcs && StepInside(k).pcs[k.Current()].depth == k.Me().depth
  {
    assert k.Current() in k.ring;
  }

  lemma RingGrows(k: Kernel, a: Action, t: Task)
    requires Inv(k) && t in k.pcs
    ensures t in Step(k, a).pcs
  {
  }

  /** In every run the depth of a task is what it was plus its calls of preempt_up minus those of preempt_down. */
  lemma {:induction false} DepthCounts(k: Kernel, actions: seq<Action>, t: Task)
    requires Inv(k) && t in k.pcs
    ensures t in Run(k, actions).pcs
    ensures Run(k, actions).pcs[t].depth == k.pcs[t].depth + UpsMinusDowns(k, actions, t)
    decreases |actions|
  {
    if actions != [] {
      StepKeepsInv(k, actions[0]);
      DepthStep(k, actions[0], t);
      DepthCounts(Step(k, actions[0]), actions[1..], t);
    }
  }
}
