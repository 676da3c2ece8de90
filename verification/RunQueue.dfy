/**
 * The tasks of sys/task.c on the heap: a ring threaded through `next`, entered at the running
 * task, and the NULL-terminated delete queue.
 */
module RunQueue {
  import opened RingOps
  import opened Vmas

  class Task {
    // Set when the task is created, and not changed by the operations modelled here
    const pid: int
    const ppid: int
    const cr3: nat
    const areas: seq<Vma>

    var next: Task?
    var state: int
    var currAlarmCount: nat
    var expectedAlarmCount: nat
    var currSleepCount: nat
    var expectedSleepCount: nat

    // The page that holds a task is zeroed, so no alarm and no sleep is pending.
    constructor (pid: int, ppid: int, cr3: nat, areas: seq<Vma>)
      ensures this.pid == pid && this.ppid == ppid && this.cr3 == cr3 && this.areas == areas
      ensures next == null && state == 1
      ensures currAlarmCount == 0 && expectedAlarmCount == 0 && currSleepCount == 0 && expectedSleepCount == 0
    {
      this.pid, this.ppid, this.cr3, this.areas := pid, ppid, cr3, areas;
      next, state := null, 1;
      currAlarmCount, expectedAlarmCount, currSleepCount, expectedSleepCount := 0, 0, 0, 0;
    }
  }

  // No alarm and no sleep is pending.
  ghost predicate IsUntimed(t: Task)
    reads t
  {
    t.currAlarmCount == 0 && t.expectedAlarmCount == 0 && t.currSleepCount == 0 && t.expectedSleepCount == 0
  }

  ghost predicate AreApart(a: seq<Task>, b: seq<Task>) {
    forall i, j | 0 <= i < |a| && 0 <= j < |b| :: a[i] != b[j]
  }

  function After(tasks: seq<Task>, i: nat): Task
    requires i < |tasks|
  {
    if i + 1 < |tasks| then tasks[i + 1] else tasks[0]
  }

  // Following `next` from tasks[0] visits every task once and returns.
  ghost predicate IsRing(tasks: seq<Task>)
    reads tasks
  {
    && |tasks| > 0 && AreDistinct(tasks)
    && forall i {:trigger tasks[i].next} {:trigger After(tasks, i)} | 0 <= i < |tasks| ::
      tasks[i].next == After(tasks, i)
  }

  // The task k hops behind the first one
  function Hop(tasks: seq<Task>, k: nat): Task
    requires |tasks| > 0 && k <= |tasks|
  {
    if k < |tasks| then tasks[k] else tasks[0]
  }

  lemma NextHop(tasks: seq<Task>, k: nat)
    requires IsRing(tasks) && k < |tasks|
    ensures Hop(tasks, k).next == Hop(tasks, k + 1)
    ensures Hop(tasks, k + 1) == tasks[0] <==> k + 1 == |tasks|
  {
    assert tasks[k].next == After(tasks, k);
  }

  function AfterOrNull(tasks: seq<Task>, i: nat): Task?
    requires i < |tasks|
  {
    if i + 1 < |tasks| then tasks[i + 1] else null
  }

  // Following `next` from first visits every task once and ends in NULL.
  ghost predicate IsList(first: Task?, tasks: seq<Task>)
    reads tasks
  {
    && AreDistinct(tasks)
    && first == (if tasks == [] then null else tasks[0])
    && forall i {:trigger tasks[i].next} {:trigger AfterOrNull(tasks, i)} | 0 <= i < |tasks| ::
         tasks[i].next == AfterOrNull(tasks, i)
  }

  // Distinct pids up to a limit, that of sbush (1) among them
  ghost predicate HavePids(tasks: seq<Task>, limit: int) {
    && (forall i, j | 0 <= i < j < |tasks| :: tasks[i].pid != tasks[j].pid)
    && (forall i | 0 <= i < |tasks| :: 1 <= tasks[i].pid <= limit)
    && (exists i :: 0 <= i < |tasks| && tasks[i].pid == 1)
  }

  ghost predicate AreLive(tasks: seq<Task>)
    reads tasks
  {
    forall i | 0 <= i < |tasks| :: tasks[i].state == 1
  }

  lemma SbushIsElsewhere(tasks: seq<Task>, limit: int)
    requires HavePids(tasks, limit) && |tasks| > 0 && tasks[0].pid != 1
    ensures |tasks| > 1
  {
  }

  lemma DropKeepsPids(tasks: seq<Task>, k: nat, limit: int)
    requires k < |tasks| && HavePids(tasks, limit) && tasks[k].pid != 1
    ensures HavePids(DropAt(tasks, k), limit)
  {
    var i :| 0 <= i < |tasks| && tasks[i].pid == 1;
    assert DropAt(tasks, k)[if i < k then i else i - 1].pid == 1;
  }

  lemma AdvanceKeepsPids(tasks: seq<Task>, limit: int)
    requires |tasks| > 0 && HavePids(tasks, limit)
    ensures HavePids(Advance(tasks), limit)
  {
    var i :| 0 <= i < |tasks| && tasks[i].pid == 1;
    assert Advance(tasks)[if i == 0 then |tasks| - 1 else i - 1].pid == 1;
  }

  lemma AddKeepsPids(tasks: seq<Task>, limit: int, task: Task)
    requires |tasks| > 0 && HavePids(tasks, limit) && task.pid == limit + 1
    ensures HavePids(AddAfterRunning(tasks, task), limit + 1)
  {
    var i :| 0 <= i < |tasks| && tasks[i].pid == 1;
    assert AddAfterRunning(tasks, task)[if i == 0 then 0 else i + 1].pid == 1;
  }

  // A task that takes the pid of the running one and its place: pids stay distinct exactly when
  // some other task is in the ring.
  lemma ReplaceKeepsPids(tasks: seq<Task>, limit: int, task: Task)
    requires |tasks| > 0 && HavePids(tasks, limit) && task.pid == tasks[0].pid
    ensures HavePids(ReplaceRunning(tasks, task), limit + 1) <==> |tasks| > 1
  {
    var r := ReplaceRunning(tasks, task);
    if |tasks| > 1 {
      var i :| 0 <= i < |tasks| && tasks[i].pid == 1;
      assert r[i].pid == 1;
    } else {
      assert r[0].pid == r[1].pid;
    }
  }

  class RunQueue {
    var running: Task
    var deleteQueue: Task?
    var pidCount: int
    ghost var ring: seq<Task>
    ghost var dead: seq<Task>

    ghost predicate Valid()
      reads this, ring, dead
    {
      && IsRing(ring) && running == ring[0]
      && IsList(deleteQueue, dead)
      && AreApart(ring, dead)
    }

    // Live tasks have their own pids, sbush (pid 1) is among them, and all of them run.
    ghost predicate Sane()
      reads this, ring
    {
      HavePids(ring, pidCount) && AreLive(ring)
    }

    // initUserProcess: one task, sbush, linked to itself
    constructor (sbush: Task)
      requires sbush.pid == 1 && sbush.state == 1
      modifies sbush`next
      ensures Valid() && Sane() && ring == [sbush] && dead == [] && pidCount == 1
    {
      running, deleteQueue, pidCount := sbush, null, 1;
      ring, dead := [sbush], [];
      new;
      sbush.next := sbush;
      assert ring[0].pid == 1;
    }

    method AddToQueue(task: Task)
      requires Valid() && task !in ring && task !in dead
      modifies this`ring, running`next, task`next
      ensures Valid() && ring == AddAfterRunning(old(ring), task)
    {
      task.next := running.next;
      running.next := task;
      ring := AddAfterRunning(ring, task);
    }

    method Step()
      requires Valid() && Sane()
      modifies this`running, this`ring
      ensures Valid() && Sane() && ring == Advance(old(ring))
    {
      AdvanceKeepsPids(ring, pidCount);
      running := running.next;
      ring := Advance(ring);
    }

    // An alarm that has expired is delivered once.
    method DeliverAlarm() returns (alarm: bool)
      modifies running`currAlarmCount, running`expectedAlarmCount
      ensures alarm <==> old(running.currAlarmCount) > old(running.expectedAlarmCount)
      ensures running.currAlarmCount == if alarm then 0 else old(running.currAlarmCount)
      ensures running.expectedAlarmCount == if alarm then 0 else old(running.expectedAlarmCount)
    {
      alarm := running.currAlarmCount > running.expectedAlarmCount;
      if alarm {
        running.currAlarmCount := 0;
        running.expectedAlarmCount := 0;
      }
    }

    // runNextTask, without saving and restoring registers: the next task runs, first in its
    // alarm handler when its alarm has expired.
    method RunNext() returns (alarm: bool)
      requires Valid() && Sane()
      modifies this`running, this`ring, ring`currAlarmCount, ring`expectedAlarmCount
      ensures Valid() && Sane() && ring == Advance(old(ring))
      ensures alarm <==> old(After(ring, 0).currAlarmCount) > old(After(ring, 0).expectedAlarmCount)
      ensures forall t | t in ring && !(alarm && t == running) ::
                t.currAlarmCount == old(t.currAlarmCount) && t.expectedAlarmCount == old(t.expectedAlarmCount)
      ensures alarm ==> running.currAlarmCount == 0 && running.expectedAlarmCount == 0
    {
      Step();
      alarm := DeliverAlarm();
    }

    // The predecessor of the running task
    method FindLast() returns (temp: Task)
      requires Valid()
      ensures temp == ring[|ring| - 1]
    {
      temp := running;
      ghost var k := 0;
      while temp.next != running
        invariant 0 <= k < |ring| && temp == ring[k]
        decreases |ring| - k
      {
        temp := temp.next;
        k := k + 1;
      }
    }

    // The splice of deleteRunningThreadAndJump.  On a ring of one it keeps the old task.
    method ReplaceRunningTask(task: Task)
      requires Valid() && task !in ring && task !in dead
      modifies this`running, this`ring, ring`next, task`next
      ensures Valid() && ring == ReplaceRunning(old(ring), task)
    {
      task.next := running.next;
      var temp := FindLast();
      temp.next := task;
      running := task;
      ring := ReplaceRunning(ring, task);
    }

    // addToDeleteQueue, for a task that has just left the ring
    method AddToDeleteQueue(task: Task)
      requires IsList(deleteQueue, dead) && task !in dead
      modifies this`deleteQueue, this`dead, dead`next, task`next
      ensures IsList(deleteQueue, dead) && dead == old(dead) + [task]
    {
      if deleteQueue == null {
        deleteQueue := task;
        task.next := null;
      } else {
        var temp := deleteQueue;
        ghost var k := 0;
        while temp.next != null
          invariant 0 <= k < |dead| && temp == dead[k]
          decreases |dead| - k
        {
          temp := temp.next;
          k := k + 1;
        }
        temp.next := task;
        task.next := null;
      }
      dead := dead + [task];
    }

    // Takes the successor of task ring[k] out of the ring and puts it on the delete queue.
    method Unlink(task: Task, ghost k: nat) returns (victim: Task)
      requires Valid() && k < |ring| - 1 && task == ring[k]
      modifies this`deleteQueue, this`ring, this`dead, ring`next, dead`next
      ensures Valid() && ring == DropAt(old(ring), k + 1) && dead == old(dead) + [victim] && victim == old(ring)[k + 1]
    {
      victim := task.next;
      task.next := task.next.next;
      ring := DropAt(ring, k + 1);
      AddToDeleteQueue(victim);
    }

    method Remove(task: Task, ghost k: nat) returns (victim: Task)
      requires Valid() && Sane() && k < |ring| - 1 && task == ring[k] && ring[k + 1].pid != 1
      modifies this`deleteQueue, this`ring, this`dead, ring`next, dead`next
      ensures Valid() && Sane()
      ensures ring == DropAt(old(ring), k + 1) && dead == old(dead) + [victim] && victim == old(ring)[k + 1]
    {
      DropKeepsPids(ring, k + 1, pidCount);
      victim := Unlink(task, k);
    }

    // The search of kill: the task before the first one, from the running task on, with this pid
    method FindBefore(pid: int) returns (task: Task, ghost k: nat)
      requires Valid()
      ensures k < |ring| && task == ring[k]
      ensures forall i | 0 < i <= k :: ring[i].pid != pid
      ensures k < |ring| - 1 ==> ring[k + 1].pid == pid
    {
      task, k := running, 0;
      while task.next != running && task.next.pid != pid
        invariant 0 <= k < |ring| && task == ring[k]
        invariant forall i | 0 < i <= k :: ring[i].pid != pid
        decreases |ring| - k
      {
        task := task.next;
        k := k + 1;
      }
    }

    // The search of kill.  sbush (pid 1) and the running task are never found.
    method FindVictim(pid: int) returns (before: Task?, ghost k: nat)
      requires Valid()
      ensures before == null ==> pid == 1 || forall i | 0 < i < |ring| :: ring[i].pid != pid
      ensures before != null ==>
                k < |ring| - 1 && before == ring[k] && before.next == ring[k + 1] && ring[k + 1].pid == pid && pid != 1
    {
      before, k := null, 0;
      if pid != 1 {
        before, k := FindBefore(pid);
        if before.next == running || before.next.pid == 1 {
          before := null;
        }
      }
    }

    method UnlinkRunning() returns (gone: Task)
      requires Valid() && |ring| > 1
      modifies this`running, this`deleteQueue, this`ring, this`dead, ring`next, dead`next
      ensures Valid() && gone == old(running) && ring == DropAt(old(ring), 0) && dead == old(dead) + [gone]
    {
      gone := running;
      var temp := FindLast();
      temp.next := temp.next.next;
      temp := temp.next;
      ring := DropAt(ring, 0);
      AddToDeleteQueue(gone);
      running := temp;
    }

    // exit, without the release of memory; sbush only restarts.
    method Exit() returns (gone: Task?)
      requires Valid() && Sane()
      modifies this`running, this`deleteQueue, this`ring, this`dead, ring`next, running`state, dead`next
      ensures Valid() && Sane()
      ensures old(running).pid == 1 ==>
                gone == null && ring == old(ring) && dead == old(dead) && running == old(running)
      ensures old(running).pid != 1 ==>
                && |old(ring)| > 1 && gone == old(running) && gone.state == 0
                && ring == DropAt(old(ring), 0) && dead == old(dead) + [gone]
    {
      if running.pid == 1 {
        return null;
      }
      DropKeepsPids(ring, 0, pidCount);
      running.state := 0;
      gone := UnlinkRunning();
    }

    /* ---------- the system calls on tasks ---------- */

    // fork's last steps: the child, made with the next pid, enters the ring after the parent.
    method Adopt(child: Task)
      requires Valid() && Sane() && child !in ring && child !in dead
      requires child.pid == pidCount + 1 && child.ppid == running.pid && child.state == 1
      modifies this`ring, this`pidCount, running`next, child`next
      ensures Valid() && Sane() && ring == AddAfterRunning(old(ring), child) && pidCount == old(pidCount) + 1
    {
      AddKeepsPids(ring, pidCount, child);
      pidCount := pidCount + 1;
      AddToQueue(child);
    }

    // exec's last steps: the new task, made with the running task's pid, replaces it.  The ring
    // stays sane exactly when another task is in it: a task that execs alone stays in the ring.
    method Become(task: Task)
      requires Valid() && Sane() && task !in ring && task !in dead
      requires task.pid == running.pid && task.state == 1
      modifies this`running, this`ring, this`pidCount, ring`next, task`next
      ensures Valid() && ring == ReplaceRunning(old(ring), task) && pidCount == old(pidCount) + 1
      ensures Sane() <==> |old(ring)| >= 2
    {
      ReplaceKeepsPids(ring, pidCount, task);
      pidCount := pidCount + 1;
      ReplaceRunningTask(task);
    }

    // waitpid: is some other task of that pid in the ring?  For -1, is some other task there that has
    // the running task's own parent?
    method WaitPid(pid: int) returns (status: int, result: int)
      requires Valid() && Sane()
      ensures pid != -1 ==>
                (status, result) == if exists i :: 0 < i < |ring| && ring[i].pid == pid then (1, pid) else (0, -1)
      ensures pid == -1 ==>
                (status, result) ==
                  if exists i :: 0 < i < |ring| && ring[i].ppid == running.ppid then (1, running.ppid) else (0, -1)
    {
      var task, ppid := running.next, running.ppid;
      ghost var k := 1;
      while task != running
        invariant 1 <= k <= |ring| && task == (if k < |ring| then ring[k] else ring[0])
        invariant pid != -1 ==> forall i | 0 < i < k :: ring[i].pid != pid
        invariant pid == -1 ==> forall i | 0 < i < k :: ring[i].ppid != ppid
        decreases |ring| - k
      {
        if pid == -1 {
          if task.ppid == ppid && task.state == 1 {
            return 1, task.ppid;
          }
        } else if task.pid == pid && task.state == 1 {
          return 1, pid;
        }
        task := task.next;
        k := k + 1;
      }
      return 0, -1;
    }
  }

  // Does waitpid(-1) of the first task report 1?
  predicate SeesSibling(ring: seq<Task>) {
    exists i :: 0 < i < |ring| && ring[i].ppid == ring[0].ppid
  }

  // A task without a parent waits for its child exactly once the child has exec'ed, for exec forgets the
  // parent: a child by fork alone is seen by nobody's waitpid(-1) but its siblings'.
  lemma WaitSeesExecutedChild(ring: seq<Task>, child: Task, heir: Task)
    requires |ring| > 0 && ring[0].ppid == 0 && ring[0].pid >= 1 && child.ppid == ring[0].pid && heir.ppid == 0
    ensures var born := AddAfterRunning(ring, child);
            var now := ReplaceRunning(Advance(born), heir);
            && (SeesSibling(born) <==> SeesSibling(ring))
            && now[|now| - 1] == ring[0] && SeesSibling([ring[0]] + now[..|now| - 1])
  {
    var born := AddAfterRunning(ring, child);
    var now := ReplaceRunning(Advance(born), heir);
    var back := [ring[0]] + now[..|now| - 1];
    assert back[1] == heir && back[1].ppid == back[0].ppid;
    forall i | 0 < i < |ring|
      ensures born[i + 1] == ring[i]
    {
    }
    if SeesSibling(ring) {
      var i :| 0 < i < |ring| && ring[i].ppid == ring[0].ppid;
      assert born[i + 1].ppid == born[0].ppid;
    }
    if SeesSibling(born) {
      var i :| 0 < i < |born| && born[i].ppid == born[0].ppid;
      assert ring[i - 1].ppid == ring[0].ppid;
    }
  }

  ghost predicate IsInOrder(queue: RunQueue)
    reads queue, queue.ring, queue.dead
  {
    queue.Valid() && queue.Sane()
  }

  twostate lemma QueueStays(queue: RunQueue)
    requires old(IsInOrder(queue))
    requires unchanged(queue) && unchanged(queue.ring) && unchanged(queue.dead)
    ensures IsInOrder(queue)
  {
  }
}
