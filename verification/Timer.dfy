/**
 * The timer interrupt of sys/idt.c (clock, sleep and alarm counters, preemption), and setSleep and
 * getCounter of sys/task.c.
 */
module Timer {
  import opened RingOps
  import opened RunQueue

  // One second is 19 ticks.
  function SecondsAt(ticks: nat): nat { ticks / 19 }

  lemma NextTick(n: nat)
    ensures (n + 1) % 19 == 0 <==> n % 19 == 18
    ensures (n + 1) % 19 == if n % 19 == 18 then 0 else n % 19 + 1
    ensures SecondsAt(n + 1) == SecondsAt(n) + if n % 19 == 18 then 1 else 0
  {
  }

  // What a task asked of setSleep, and when.
  datatype Nap = Nap(seconds: nat, since: nat)

  // A sleep count agrees with what the task asked for, `ticks` ticks after boot.
  ghost predicate CountAgrees(t: Task, count: nat, naps: map<Task, Nap>, ticks: nat)
    reads t
  {
    if t in naps then
      && naps[t].since <= ticks
      && count == 1 + SecondsAt(ticks) - SecondsAt(naps[t].since)
      && t.expectedSleepCount == naps[t].seconds
    else
      count == 0
  }

  ghost predicate Agrees(t: Task, naps: map<Task, Nap>, ticks: nat)
    reads t
  {
    CountAgrees(t, t.currSleepCount, naps, ticks)
  }

  function Bumped(count: nat): nat { if count >= 1 then count + 1 else count }

  lemma BumpKeepsAgreement(was: nat, count: nat, since: nat, ticks: nat)
    requires since <= ticks && was == 1 + SecondsAt(ticks) - SecondsAt(since)
    ensures was >= 1
    ensures (ticks + 1) % 19 == 0 ==> Bumped(was) == 1 + SecondsAt(ticks + 1) - SecondsAt(since)
    ensures (ticks + 1) % 19 != 0 ==> was == 1 + SecondsAt(ticks + 1) - SecondsAt(since)
  {
    NextTick(ticks);
  }

  ghost predicate AllAgree(ring: seq<Task>, naps: map<Task, Nap>, ticks: nat)
    reads ring
  {
    forall i | 0 <= i < |ring| :: Agrees(ring[i], naps, ticks)
  }

  lemma QuietTick(ring: seq<Task>, naps: map<Task, Nap>, ticks: nat)
    requires AllAgree(ring, naps, ticks) && (ticks + 1) % 19 != 0
    ensures AllAgree(ring, naps, ticks + 1)
  {
    NextTick(ticks);
  }

  // Counts that agreed before a second was over agree after it, once they are bumped.
  lemma SecondTick(ring: seq<Task>, was: seq<nat>, naps: map<Task, Nap>, ticks: nat)
    requires |was| == |ring| && (ticks + 1) % 19 == 0
    requires forall i | 0 <= i < |ring| :: CountAgrees(ring[i], was[i], naps, ticks)
    requires forall i | 0 <= i < |ring| :: ring[i].currSleepCount == Bumped(was[i])
    ensures AllAgree(ring, naps, ticks + 1)
  {
    forall i | 0 <= i < |ring|
      ensures Agrees(ring[i], naps, ticks + 1)
    {
      var t := ring[i];
      assert CountAgrees(t, was[i], naps, ticks);
      if t in naps {
        BumpKeepsAgreement(was[i], t.currSleepCount, naps[t].since, ticks);
      }
    }
  }

  lemma AgreeAfterAdvance(ring: seq<Task>, turned: seq<Task>, naps: map<Task, Nap>, ticks: nat)
    requires |ring| > 0 && turned == Advance(ring) && AllAgree(ring, naps, ticks)
    ensures AllAgree(turned, naps, ticks)
  {
  }

  // fork and exec bring in a task without a nap,
  lemma AgreeAfterSplice(ring: seq<Task>, naps: map<Task, Nap>, ticks: nat, task: Task)
    requires |ring| > 0 && AllAgree(ring, naps, ticks) && task !in naps && task.currSleepCount == 0
    ensures AllAgree(AddAfterRunning(ring, task), naps, ticks)
    ensures AllAgree(ReplaceRunning(ring, task), naps, ticks)
  {
  }

  // and exit and kill take a task out.
  lemma AgreeAfterDrop(ring: seq<Task>, rest: seq<Task>, naps: map<Task, Nap>, ticks: nat, k: nat)
    requires k < |ring| && rest == DropAt(ring, k) && AllAgree(ring, naps, ticks)
    ensures AllAgree(rest, naps, ticks)
  {
  }

  // kill
  method KillSleeper(queue: RunQueue, task: Task, ghost k: nat, ghost rest: seq<Task>, ghost naps: map<Task, Nap>,
                     ghost ticks: nat)
    returns (victim: Task)
    requires IsInOrder(queue) && AllAgree(rest, naps, ticks)
    requires k + 1 < |queue.ring| && rest == DropAt(queue.ring, k + 1) && task == queue.ring[k]
    requires queue.ring[k + 1].pid != 1
    modifies queue`deleteQueue, queue`ring, queue`dead, queue.ring`next, queue.dead`next
    ensures IsInOrder(queue) && queue.ring == rest && AllAgree(rest, naps, ticks)
  {
    victim := queue.Remove(task, k);
    forall i | 0 <= i < |rest|
      ensures Agrees(rest[i], naps, ticks)
    {
    }
  }

  // exit of a task other than sbush
  method ExitSleeper(queue: RunQueue, ghost rest: seq<Task>, ghost naps: map<Task, Nap>, ghost ticks: nat)
    returns (gone: Task?)
    requires IsInOrder(queue) && |queue.ring| > 0 && queue.running.pid != 1
    requires rest == DropAt(queue.ring, 0) && AllAgree(rest, naps, ticks)
    modifies queue`running, queue`deleteQueue, queue`ring, queue`dead, queue.ring`next, queue.running`state,
      queue.dead`next
    ensures IsInOrder(queue) && queue.ring == rest && AllAgree(rest, naps, ticks) && gone != null
  {
    gone := queue.Exit();
  }

  method BumpTask(t: Task)
    modifies t`currAlarmCount, t`currSleepCount
    ensures t.currAlarmCount == Bumped(old(t.currAlarmCount)) && t.currSleepCount == Bumped(old(t.currSleepCount))
  {
    if t.currAlarmCount >= 1 {
      t.currAlarmCount := t.currAlarmCount + 1;
    }
    if t.currSleepCount >= 1 {
      t.currSleepCount := t.currSleepCount + 1;
    }
  }

  // Once around the ring, every active counter of every task is bumped exactly once.
  method BumpRing(running: Task, ghost ring: seq<Task>)
    requires IsRing(ring) && running == ring[0]
    modifies ring`currAlarmCount, ring`currSleepCount
    ensures forall i | 0 <= i < |ring| ::
              && ring[i].currAlarmCount == Bumped(old(ring[i].currAlarmCount))
              && ring[i].currSleepCount == Bumped(old(ring[i].currSleepCount))
  {
    BumpTask(running);
    var temp := running.next;
    ghost var k := 1;
    while temp != running
      invariant 1 <= k <= |ring| && temp == (if k < |ring| then ring[k] else ring[0])
      invariant forall i | 0 <= i < k ::
                  && ring[i].currAlarmCount == Bumped(old(ring[i].currAlarmCount))
                  && ring[i].currSleepCount == Bumped(old(ring[i].currSleepCount))
      invariant forall i | k <= i < |ring| ::
                  && ring[i].currAlarmCount == old(ring[i].currAlarmCount)
                  && ring[i].currSleepCount == old(ring[i].currSleepCount)
      decreases |ring| - k
    {
      BumpTask(temp);
      assert temp.next == After(ring, k);
      temp := temp.next;
      k := k + 1;
    }
  }

  method BumpAll(queue: RunQueue, ghost naps: map<Task, Nap>, ghost ticks: nat)
    requires IsInOrder(queue) && AllAgree(queue.ring, naps, ticks) && (ticks + 1) % 19 == 0
    modifies queue.ring`currAlarmCount, queue.ring`currSleepCount
    ensures IsInOrder(queue) && AllAgree(queue.ring, naps, ticks + 1)
    ensures forall i | 0 <= i < |queue.ring| ::
              && queue.ring[i].currAlarmCount == Bumped(old(queue.ring[i].currAlarmCount))
              && queue.ring[i].currSleepCount == Bumped(old(queue.ring[i].currSleepCount))
  {
    ghost var ring := queue.ring;
    ghost var was: seq<nat> := seq(|ring|, i requires 0 <= i < |ring| reads ring => ring[i].currSleepCount);
    BumpRing(queue.running, ring);
    SecondTick(ring, was, naps, ticks);
  }

  // runNextTask, called from the timer
  method Turn(queue: RunQueue, ghost naps: map<Task, Nap>, ghost ticks: nat)
    requires IsInOrder(queue) && AllAgree(queue.ring, naps, ticks)
    modifies queue`running, queue`ring, queue.ring`currAlarmCount, queue.ring`expectedAlarmCount
    ensures IsInOrder(queue) && AllAgree(queue.ring, naps, ticks)
    ensures |old(queue.ring)| > 0 && queue.ring == Advance(old(queue.ring))
    ensures forall t | t in old(queue.ring) ::
              var expired := t == queue.running && old(t.currAlarmCount) > old(t.expectedAlarmCount);
              && t.currAlarmCount == (if expired then 0 else old(t.currAlarmCount))
              && t.expectedAlarmCount == (if expired then 0 else old(t.expectedAlarmCount))
  {
    ghost var turned := Advance(queue.ring);
    AgreeAfterAdvance(queue.ring, turned, naps, ticks);
    var alarm := queue.RunNext();
  }

  method Preempt(queue: RunQueue, mutex: int, ghost naps: map<Task, Nap>, ghost ticks: nat)
    requires IsInOrder(queue) && AllAgree(queue.ring, naps, ticks)
    modifies queue`running, queue`ring, queue.ring`currAlarmCount, queue.ring`expectedAlarmCount
    ensures IsInOrder(queue) && AllAgree(queue.ring, naps, ticks) && |old(queue.ring)| > 0
    ensures queue.ring == if mutex != 1 then Advance(old(queue.ring)) else old(queue.ring)
    ensures forall t | t in old(queue.ring) ::
              var expired := mutex != 1 && t == queue.running && old(t.currAlarmCount) > old(t.expectedAlarmCount);
              && t.currAlarmCount == (if expired then 0 else old(t.currAlarmCount))
              && t.expectedAlarmCount == (if expired then 0 else old(t.expectedAlarmCount))
  {
    if mutex != 1 {
      Turn(queue, naps, ticks);
    }
  }

  /* ---------- the clock ---------- */

  // The static counters of the handler, `ticks` ticks after boot
  ghost predicate IsClock(i: nat, j: nat, hour: nat, minute: nat, seconds: nat, ticks: nat) {
    && i == ticks % 19 && j % 3 == ticks % 3
    && seconds < 60 && minute < 60
    && (hour * 60 + minute) * 60 + seconds == SecondsAt(ticks)
  }

  // The same, before a second that is over has been counted
  ghost predicate IsDue(i: nat, j: nat, hour: nat, minute: nat, seconds: nat, ticks: nat) {
    && ticks % 19 == 0 && j % 3 == ticks % 3
    && seconds < 60 && minute < 60
    && (hour * 60 + minute) * 60 + seconds + 1 == SecondsAt(ticks)
  }

  lemma TickOn(i: nat, j: nat, hour: nat, minute: nat, seconds: nat, ticks: nat)
    requires IsClock(i, j, hour, minute, seconds, ticks)
    ensures (i + 1) % 19 == 0 <==> (ticks + 1) % 19 == 0
    ensures (i + 1) % 19 == 0 ==> IsDue(i + 1, j + 1, hour, minute, seconds, ticks + 1)
    ensures (i + 1) % 19 != 0 ==> IsClock(i + 1, j + 1, hour, minute, seconds, ticks + 1)
  {
    NextTick(ticks);
  }

  class Clock {
    var i: nat
    var j: nat
    var hour: nat
    var minute: nat
    var seconds: nat
    // The number of interrupts so far, and the naps of tasks that setSleep has started and
    // getCounter not yet ended
    ghost var ticks: nat
    ghost var naps: map<Task, Nap>

    ghost predicate Valid()
      reads this
    {
      IsClock(i, j, hour, minute, seconds, ticks)
    }

    ghost predicate NapsAgree(queue: RunQueue)
      reads this, queue, queue.ring
    {
      AllAgree(queue.ring, naps, ticks)
    }

    constructor ()
      ensures Valid() && ticks == 0 && naps == map[]
    {
      i, j, hour, minute, seconds, ticks, naps := 0, 0, 0, 0, 0, 0, map[];
    }

    // The clock on the screen shows the seconds since boot.
    lemma ShowsSecondsSinceBoot()
      requires Valid()
      ensures seconds == SecondsAt(ticks) % 60
      ensures minute == SecondsAt(ticks) / 60 % 60
      ensures hour == SecondsAt(ticks) / 3600
    {
      Digits(hour * 60 + minute, seconds);
      Digits(hour, minute);
      assert SecondsAt(ticks) / 3600 == SecondsAt(ticks) / 60 / 60;
    }

    // The second's carry into minutes and hours
    method Carry()
      requires 0 < seconds <= 60 && minute < 60
      modifies this`hour, this`minute, this`seconds
      ensures seconds < 60 && minute < 60
      ensures (hour * 60 + minute) * 60 + seconds == old((hour * 60 + minute) * 60 + seconds)
    {
      if seconds % 60 == 0 {
        seconds := seconds % 60;
        minute := minute + 1;
        if minute % 60 == 0 {
          minute := minute % 60;
          hour := hour + 1;
        }
      }
    }

    // The first lines of the interrupt
    method CountTick() returns (second: bool)
      requires Valid()
      modifies this`i, this`j, this`ticks
      ensures ticks == old(ticks) + 1 && (second <==> ticks % 19 == 0)
      ensures second ==> IsDue(i, j, hour, minute, seconds, ticks)
      ensures !second ==> Valid()
    {
      TickOn(i, j, hour, minute, seconds, ticks);
      i := i + 1;
      j := j + 1;
      ticks := ticks + 1;
      second := i % 19 == 0;
    }

    method CountSecond()
      requires IsDue(i, j, hour, minute, seconds, ticks)
      modifies this`i, this`hour, this`minute, this`seconds
      ensures Valid()
    {
      i := 0;
      seconds := seconds + 1;
      Carry();
    }

    // _timer_intr_hdlr.  `attempted`: a context switch is attempted; it takes place unless the mutex
    // is held.
    method Interrupt(queue: RunQueue, mutex: int) returns (attempted: bool)
      requires Valid() && IsInOrder(queue) && NapsAgree(queue)
      modifies this`i, this`j, this`hour, this`minute, this`seconds, this`ticks
      modifies queue`running, queue`ring
      modifies queue.ring`currAlarmCount, queue.ring`currSleepCount, queue.ring`expectedAlarmCount
      ensures Valid() && IsInOrder(queue) && NapsAgree(queue) && ticks == old(ticks) + 1
      ensures attempted <==> ticks % 3 == 0 && ticks % 19 != 0
      ensures queue.ring == if attempted && mutex != 1 then Advance(old(queue.ring)) else old(queue.ring)
      ensures ticks % 19 == 0 ==>
                forall i | 0 <= i < |queue.ring| ::
                  && queue.ring[i].currAlarmCount == Bumped(old(queue.ring[i].currAlarmCount))
                  && queue.ring[i].expectedAlarmCount == old(queue.ring[i].expectedAlarmCount)
      ensures ticks % 19 != 0 ==>
                forall t | t in old(queue.ring) ::
                  var expired :=
                    attempted && mutex != 1 && t == queue.running && old(t.currAlarmCount) > old(t.expectedAlarmCount);
                  && t.currAlarmCount == (if expired then 0 else old(t.currAlarmCount))
                  && t.expectedAlarmCount == (if expired then 0 else old(t.expectedAlarmCount))
    {
      var second := CountTick();
      assert AllAgree(queue.ring, naps, ticks - 1);
      attempted := TimeTasks(queue, mutex, second);
    }

    // What the interrupt does to the tasks
    method TimeTasks(queue: RunQueue, mutex: int, second: bool) returns (attempted: bool)
      requires ticks > 0 && IsInOrder(queue) && AllAgree(queue.ring, naps, ticks - 1) && (second <==> ticks % 19 == 0)
      requires if second then IsDue(i, j, hour, minute, seconds, ticks) else Valid()
      modifies this`i, this`j, this`hour, this`minute, this`seconds
      modifies queue`running, queue`ring
      modifies queue.ring`currAlarmCount, queue.ring`currSleepCount, queue.ring`expectedAlarmCount
      ensures Valid() && IsInOrder(queue) && NapsAgree(queue)
      ensures attempted <==> ticks % 3 == 0 && ticks % 19 != 0
      ensures queue.ring == if attempted && mutex != 1 then Advance(old(queue.ring)) else old(queue.ring)
      ensures ticks % 19 == 0 ==>
                forall i | 0 <= i < |queue.ring| ::
                  && queue.ring[i].currAlarmCount == Bumped(old(queue.ring[i].currAlarmCount))
                  && queue.ring[i].expectedAlarmCount == old(queue.ring[i].expectedAlarmCount)
      ensures ticks % 19 != 0 ==>
                forall t | t in old(queue.ring) ::
                  var expired :=
                    attempted && mutex != 1 && t == queue.running && old(t.currAlarmCount) > old(t.expectedAlarmCount);
                  && t.currAlarmCount == (if expired then 0 else old(t.currAlarmCount))
                  && t.expectedAlarmCount == (if expired then 0 else old(t.expectedAlarmCount))
    {
      if second {
        EndSecond(queue);
        attempted := false;
      } else {
        attempted := EndSlice(queue, mutex);
      }
    }

    // The counters of the tasks at the end of a second
    method BumpBeside(queue: RunQueue, ghost before: nat)
      requires ticks == before + 1 && ticks % 19 == 0 && IsInOrder(queue) && AllAgree(queue.ring, naps, before)
      modifies queue.ring`currAlarmCount, queue.ring`currSleepCount
      ensures IsInOrder(queue) && NapsAgree(queue)
      ensures forall i | 0 <= i < |queue.ring| ::
                queue.ring[i].currAlarmCount == Bumped(old(queue.ring[i].currAlarmCount))
    {
      BumpAll(queue, naps, before);
    }

    // Every nineteenth tick
    method EndSecond(queue: RunQueue)
      requires IsDue(i, j, hour, minute, seconds, ticks) && ticks > 0
      requires IsInOrder(queue) && AllAgree(queue.ring, naps, ticks - 1)
      modifies this`i, this`hour, this`minute, this`seconds, queue.ring`currAlarmCount, queue.ring`currSleepCount
      ensures Valid() && IsInOrder(queue) && NapsAgree(queue)
      ensures forall i | 0 <= i < |queue.ring| ::
                queue.ring[i].currAlarmCount == Bumped(old(queue.ring[i].currAlarmCount))
    {
      ghost var before := ticks - 1;
      CountSecond();
      assert IsInOrder(queue) by {
        QueueStays(queue);
      }
      forall i | 0 <= i < |queue.ring|
        ensures Agrees(queue.ring[i], naps, before)
      {
      }
      BumpBeside(queue, before);
    }

    // Every third tick that does not end a second
    method EndSlice(queue: RunQueue, mutex: int) returns (attempted: bool)
      requires Valid() && IsInOrder(queue) && ticks % 19 != 0 && AllAgree(queue.ring, naps, ticks - 1)
      modifies this`j, queue`running, queue`ring, queue.ring`currAlarmCount, queue.ring`expectedAlarmCount
      ensures Valid() && IsInOrder(queue) && NapsAgree(queue)
      ensures attempted <==> ticks % 3 == 0
      ensures queue.ring == if attempted && mutex != 1 then Advance(old(queue.ring)) else old(queue.ring)
      ensures forall t | t in old(queue.ring) ::
                var expired :=
                  attempted && mutex != 1 && t == queue.running && old(t.currAlarmCount) > old(t.expectedAlarmCount);
                && t.currAlarmCount == (if expired then 0 else old(t.currAlarmCount))
                && t.expectedAlarmCount == (if expired then 0 else old(t.expectedAlarmCount))
    {
      QuietTick(queue.ring, naps, ticks - 1);
      attempted := j % 3 == 0;
      if attempted {
        j := 0;
        Preempt(queue, mutex, naps, ticks);
      }
    }

    // setSleep
    method SetSleep(queue: RunQueue, howLong: nat)
      requires Valid() && queue.Valid() && NapsAgree(queue)
      modifies this`naps, queue.running`currSleepCount, queue.running`expectedSleepCount
      ensures naps == old(naps)[queue.running := Nap(howLong, ticks)]
      ensures Valid() && queue.Valid() && NapsAgree(queue)
    {
      queue.running.currSleepCount := 1;
      queue.running.expectedSleepCount := howLong;
      naps := naps[queue.running := Nap(howLong, ticks)];
    }

    /* ---------- the ring changes while tasks sleep ---------- */

    // fork: the child has no nap, and the others sleep on.
    method Adopt(queue: RunQueue, child: Task)
      requires Valid() && IsInOrder(queue) && NapsAgree(queue)
      requires child !in queue.ring && child !in queue.dead && child !in naps && child.currSleepCount == 0
      requires child.pid == queue.pidCount + 1 && child.ppid == queue.running.pid && child.state == 1
      modifies queue`ring, queue`pidCount, queue.running`next, child`next
      ensures Valid() && IsInOrder(queue) && NapsAgree(queue)
      ensures |old(queue.ring)| > 0 && queue.ring == AddAfterRunning(old(queue.ring), child)
    {
      AgreeAfterSplice(queue.ring, naps, ticks, child);
      queue.Adopt(child);
    }

    // exec
    method Become(queue: RunQueue, task: Task)
      requires Valid() && IsInOrder(queue) && NapsAgree(queue)
      requires task !in queue.ring && task !in queue.dead && task !in naps && task.currSleepCount == 0
      requires task.pid == queue.running.pid && task.state == 1
      modifies queue`running, queue`ring, queue`pidCount, queue.ring`next, task`next
      ensures Valid() && queue.Valid() && NapsAgree(queue)
      ensures |old(queue.ring)| > 0 && queue.ring == ReplaceRunning(old(queue.ring), task)
    {
      AgreeAfterSplice(queue.ring, naps, ticks, task);
      queue.Become(task);
    }

    // kill
    method Remove(queue: RunQueue, task: Task, ghost k: nat) returns (victim: Task)
      requires Valid() && IsInOrder(queue) && NapsAgree(queue)
      requires k < |queue.ring| - 1 && task == queue.ring[k] && queue.ring[k + 1].pid != 1
      modifies queue`deleteQueue, queue`ring, queue`dead, queue.ring`next, queue.dead`next
      ensures Valid() && IsInOrder(queue) && NapsAgree(queue)
      ensures k + 1 < |old(queue.ring)| && queue.ring == DropAt(old(queue.ring), k + 1)
    {
      ghost var rest := DropAt(queue.ring, k + 1);
      AgreeAfterDrop(queue.ring, rest, naps, ticks, k + 1);
      victim := KillSleeper(queue, task, k, rest, naps, ticks);
    }

    // exit; sbush only restarts.
    method Exit(queue: RunQueue) returns (gone: Task?)
      requires Valid() && IsInOrder(queue) && NapsAgree(queue)
      modifies queue`running, queue`deleteQueue, queue`ring, queue`dead, queue.ring`next, queue.running`state,
        queue.dead`next
      ensures Valid() && IsInOrder(queue) && NapsAgree(queue)
      ensures gone == null <==> old(queue.running).pid == 1
      ensures |old(queue.ring)| > 0
      ensures queue.ring == if old(queue.running).pid == 1 then old(queue.ring) else DropAt(old(queue.ring), 0)
    {
      if queue.running.pid == 1 {
        return null;
      }
      ghost var rest := DropAt(queue.ring, 0);
      AgreeAfterDrop(queue.ring, rest, naps, ticks, 0);
      gone := ExitSleeper(queue, rest, naps, ticks);
    }

    // getCounter.  It is 1 exactly when the running task's nap has lasted as many second ticks as
    // it asked for; the nap is then over.
    method GetCounter(queue: RunQueue) returns (r: int)
      requires Valid() && queue.Valid() && NapsAgree(queue)
      modifies this`naps, queue.running`currSleepCount, queue.running`expectedSleepCount
      ensures r == 0 || r == 1
      ensures r == 1 <==>
                && queue.running in old(naps)
                && SecondsAt(ticks) - SecondsAt(old(naps)[queue.running].since) >= old(naps)[queue.running].seconds
      ensures naps == if r == 1 then old(naps) - {queue.running} else old(naps)
      ensures Valid() && queue.Valid() && NapsAgree(queue)
    {
      assert Agrees(queue.running, naps, ticks);
      if queue.running.currSleepCount > queue.running.expectedSleepCount {
        queue.running.currSleepCount := 0;
        queue.running.expectedSleepCount := 0;
        naps := naps - {queue.running};
        r := 1;
      } else {
        r := 0;
      }
    }
  }

  lemma Digits(a: nat, b: nat)
    requires b < 60
    ensures (a * 60 + b) / 60 == a && (a * 60 + b) % 60 == b
  {
  }
}
