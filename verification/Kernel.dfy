/**
 * The system calls and the page-fault handler on the whole state: ring of tasks, page tables,
 * frames and bitmap, all changed in place.  Each is proved to be one operation of the
 * copy-on-write machine, but for faults in the kernel's slot, where the handler remaps the kernel.
 */
module Kernel {
  import opened PageFormat
  import opened PageTables
  import opened RingOps
  import opened Vmas
  import opened VirtualMemory
  import opened CowMachine
  import opened RunQueue
  import opened ForkMemory
  import opened KernelViews
  import opened PageFaults
  import opened Forking
  import opened Teardowns
  import opened Execs

  class Kernel {
    const memory: Memory
    const queue: RunQueue

    ghost predicate Valid()
      reads memory, memory.frames, memory.bitmap.availFrames, queue, queue.ring, queue.dead
    {
      && memory.Valid() && IsInOrder(queue)
      && IsConsistent(queue.ring, memory.View(), memory.state.dead)
    }

    constructor (memory: Memory, queue: RunQueue)
      requires memory.Valid() && queue.Valid() && queue.Sane()
      requires IsConsistent(queue.ring, memory.View(), memory.state.dead)
      ensures Valid() && this.memory == memory && this.queue == queue
    {
      this.memory, this.queue := memory, queue;
    }

    // The page-fault handler
    method PageFault(address: nat, errorCode: nat) returns (result: FaultResult, ghost spare: nat)
      requires Valid() && |memory.state.free| >= 4
      requires IsReported(memory.state, queue.running.cr3, address, errorCode)
      modifies memory`state, memory.frames, memory.bitmap.availFrames
      ensures Valid() && memory.state.dead == old(memory.state.dead)
      ensures |old(memory.state.free)| <= |memory.state.free| + 4
      ensures result == Verdict(queue.running.areas, address, errorCode)
      ensures result == Resumed <==>
                && PageStart(address) != 0xFFFF_FF7E_FFFF_5000
                && (errorCode == 7
                    || (errorCode in {2, 6}
                        && exists i | 0 <= i < |queue.running.areas| ::
                               PageStart(queue.running.areas[i].start) == PageStart(address)))
      ensures result == Hangs <==>
                && PageStart(address) != 0xFFFF_FF7E_FFFF_5000
                && errorCode < 8 && errorCode % 2 == 0 && errorCode / 4 % 2 == 0
                && (errorCode / 2 % 2 == 0
                    || forall i | 0 <= i < |queue.running.areas| ::
                           PageStart(queue.running.areas[i].start) != PageStart(address))
      ensures errorCode / 4 % 2 == 1 ==> result != Hangs
      ensures IsOutcome(result, queue.ring, old(memory.View()), memory.state, address, spare)
      ensures result == Resumed && PageOf(address) < USER_PAGES &&
              PageOf(address) !in old(SpaceIn(memory.View(), queue.running.cr3)) ==>
                var f := Effective(memory.state.mem, queue.running.cr3, PathOf(address)).frame;
                f in memory.View().data && forall k | 0 <= k < 0x1000 :: memory.View().data[f][k] == 0
    {
      VerdictByCode(queue.running.areas, address, errorCode);
      result, spare := FaultBeside(memory, queue, address, errorCode);
    }

    // A store of one byte by the user program of the running task
    method UserWrite(address: nat, value: Byte) returns (result: FaultResult, ghost spare: nat)
      requires Valid() && |memory.state.free| >= 4
      modifies memory`state, memory.frames, memory.bitmap.availFrames
      ensures Valid() && memory.state.dead == old(memory.state.dead)
      ensures |old(memory.state.free)| <= |memory.state.free| + 4
      ensures result == WriteVerdict(queue.running, old(memory.state), address) && result != Hangs
      ensures IsWriteOutcome(result, queue.ring, old(memory.View()), memory.state, address, value, spare)
      ensures result == Resumed && PageOf(address) < USER_PAGES ==>
                var f := Effective(memory.state.mem, queue.running.cr3, PathOf(address)).frame;
                var was := old(SpaceIn(memory.View(), queue.running.cr3));
                && f in memory.View().data && memory.View().data[f][address % 0x1000] == value
                && (PageOf(address) in was ==> was[PageOf(address)].frame in old(memory.View()).data)
                && forall k | 0 <= k < 0x1000 && k != address % 0x1000 ::
                     memory.View().data[f][k] ==
                       if PageOf(address) in was then old(memory.View()).data[was[PageOf(address)].frame][k] else 0
    {
      result, spare := WriteBeside(memory, queue, address, value);
    }

    // A user's access for writing whose instruction is not retried yet: another task may run first.
    method UserAccess(address: nat) returns (result: FaultResult, ghost spare: nat)
      requires Valid() && |memory.state.free| >= 4
      modifies memory`state, memory.frames, memory.bitmap.availFrames
      ensures Valid() && memory.state.dead == old(memory.state.dead)
      ensures |old(memory.state.free)| <= |memory.state.free| + 4
      ensures result == WriteVerdict(queue.running, old(memory.state), address) && result != Hangs
      ensures IsOutcome(result, queue.ring, old(memory.View()), memory.state, address, spare)
    {
      result, spare := TouchBeside(memory, queue, address);
    }

    // fork, as the parent sees it; `reserve` frames stay free.
    method Fork(ghost reserve: nat) returns (pid: int, ghost copies: map<nat, nat>)
      requires Valid() && |memory.state.free| >= reserve + ForkFrames(queue.running.areas)
      modifies memory`state, memory.frames, memory.bitmap.availFrames, queue`ring, queue`pidCount, queue.running`next
      ensures Valid() && |memory.state.free| >= reserve && memory.state.dead == old(memory.state.dead)
      ensures IsForkWithPid(old(queue.ring), old(memory.View()), queue.ring, memory.View(),
                memory.state.dead, copies, pid)
      ensures queue.ring == AddAfterRunning(old(queue.ring), queue.ring[1]) && fresh(queue.ring[1])
      ensures queue.ring[1].areas == old(queue.running).areas && IsUntimed(queue.ring[1])
      ensures pid == queue.pidCount == old(queue.pidCount) + 1 == queue.ring[1].pid
      ensures queue.ring[1].ppid == old(queue.running.pid)
    {
      pid, copies := ForkBeside(memory, queue, reserve);
    }

    // runNextTask
    method SwitchTask() returns (alarm: bool)
      requires Valid()
      modifies queue`running, queue`ring, queue.ring`currAlarmCount, queue.ring`expectedAlarmCount
      ensures Valid() && queue.ring == Advance(old(queue.ring))
      ensures IsStep(old(queue.ring), memory.View(), memory.state.dead,
                queue.ring, memory.View(), memory.state.dead, Switch)
      ensures alarm <==> old(queue.running.next.currAlarmCount) > old(queue.running.next.expectedAlarmCount)
      ensures forall t | t in queue.ring && !(alarm && t == queue.running) ::
                t.currAlarmCount == old(t.currAlarmCount) && t.expectedAlarmCount == old(t.expectedAlarmCount)
      ensures alarm ==> queue.running.currAlarmCount == 0 && queue.running.expectedAlarmCount == 0
    {
      SwitchIsStep(queue.ring, memory.View(), memory.state.dead);
      alarm := SwitchBeside(memory, queue);
    }

    // kill; nothing happens when no task but the running one has this pid, or it is that of sbush.
    method KillTask(pid: int) returns (victim: Task?, ghost k: nat)
      requires Valid()
      requires pid != 1 ==> forall i | 0 < i < |queue.ring| && queue.ring[i].pid == pid ::
                 SharesOnlyIdentityPages(AbsOf(queue.ring, memory.View()), i)
      modifies memory`state, memory.frames, memory.bitmap.availFrames
      modifies queue`deleteQueue, queue`ring, queue`dead, queue.ring`next, queue.dead`next
      ensures Valid() && old(memory.state.free) <= memory.state.free
      ensures victim == null ==> memory.state.dead == old(memory.state.dead)
      ensures queue.dead == if victim == null then old(queue.dead) else old(queue.dead) + [victim]
      ensures victim == null ==> queue.ring == old(queue.ring) && memory.View() == old(memory.View())
      ensures victim == null ==> pid == 1 || forall i | 0 < i < |old(queue.ring)| :: old(queue.ring)[i].pid != pid
      ensures victim != null ==>
                && 0 < k < |old(queue.ring)| && victim == old(queue.ring)[k] && victim.pid == pid && pid != 1
                && queue.ring == DropAt(old(queue.ring), k)
                && IsStep(old(queue.ring), old(memory.View()), old(memory.state.dead),
                          queue.ring, memory.View(), memory.state.dead, CowMachine.Kill(k))
    {
      var before;
      before, k := queue.FindVictim(pid);
      if before == null {
        return null, 0;
      }
      k := k + 1;
      victim := TearDown(before, k);
    }

    // The second half of kill, for the task after `before`
    method TearDown(before: Task, ghost k: nat) returns (victim: Task)
      requires Valid() && 0 < k < |queue.ring| && before == queue.ring[k - 1] && before.next == queue.ring[k]
      requires queue.ring[k].pid != 1 && SharesOnlyIdentityPages(AbsOf(queue.ring, memory.View()), k)
      modifies memory`state, memory.frames, memory.bitmap.availFrames
      modifies queue`deleteQueue, queue`ring, queue`dead, queue.ring`next, queue.dead`next
      ensures Valid() && old(memory.state.free) <= memory.state.free
      ensures victim == old(queue.ring)[k] && queue.ring == DropAt(old(queue.ring), k)
      ensures queue.dead == old(queue.dead) + [victim]
      ensures IsStep(old(queue.ring), old(memory.View()), old(memory.state.dead),
                     queue.ring, memory.View(), memory.state.dead, CowMachine.Kill(k))
    {
      ghost var ring, view, dead := queue.ring, memory.View(), memory.state.dead;
      TeardownIsStep(ring, view, dead, k);
      victim := RemoveTask(memory, queue, before, ring, k);
    }

    // exit; sbush does not leave.
    method ExitTask() returns (gone: Task?)
      requires Valid()
      requires queue.running.pid != 1 ==> SharesOnlyIdentityPages(AbsOf(queue.ring, memory.View()), 0)
      modifies memory`state, memory.frames, memory.bitmap.availFrames
      modifies queue`running, queue`deleteQueue, queue`ring, queue`dead, queue.ring`next, queue.running`state,
        queue.dead`next
      ensures Valid() && old(memory.state.free) <= memory.state.free && (gone == null <==> old(queue.running).pid == 1)
      ensures gone == null ==> memory.state.dead == old(memory.state.dead)
      ensures queue.dead == if gone == null then old(queue.dead) else old(queue.dead) + [gone]
      ensures gone == null ==> queue.ring == old(queue.ring) && memory.View() == old(memory.View())
      ensures gone != null ==> gone.state == 0
      ensures gone != null ==>
                gone == old(queue.running) && |old(queue.ring)| > 1 && queue.ring == DropAt(old(queue.ring), 0)
      ensures gone != null ==>
                IsStep(old(queue.ring), old(memory.View()), old(memory.state.dead),
                       queue.ring, memory.View(), memory.state.dead, CowMachine.Exit)
    {
      if queue.running.pid == 1 {
        return null;
      }
      ghost var ring, view, dead := queue.ring, memory.View(), memory.state.dead;
      SbushIsElsewhere(ring, queue.pidCount);
      TeardownIsStep(ring, view, dead, 0);
      gone := LeaveRing(memory, queue, ring);
    }

    // exec, from a ring of at least two tasks, of a program given by its areas and pages.  The image
    // of the new task is what the sections hold.
    method ExecTask(areas: seq<Vma>, sections: seq<Section>)
      requires Valid() && |queue.ring| > 1 && |memory.state.free| >= ProgramFrames(areas, sections)
      requires AreUserSections(sections) && IsProgram(areas, Loaded(sections))
      modifies memory`state, memory.frames, memory.bitmap.availFrames
      modifies queue`running, queue`ring, queue`pidCount, queue.ring`next
      ensures Valid() && |old(memory.state.free)| <= |memory.state.free| + ProgramFrames(areas, sections)
      ensures IsExecOf(old(queue.ring), old(memory.View()), old(memory.state.dead),
                       queue.ring, memory.View(), memory.state.dead, Loaded(sections))
      ensures queue.ring == ReplaceRunning(old(queue.ring), queue.ring[0]) && fresh(queue.ring[0])
      ensures queue.ring[0].areas == areas
      ensures queue.ring[0].ppid == 0 && IsUntimed(queue.ring[0]) && queue.pidCount == old(queue.pidCount) + 1
    {
      ExecBeside(memory, queue, areas, sections);
    }
  }
}
