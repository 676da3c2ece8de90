/**
 * The run ring as a sequence: element 0 is the running task, and each element's successor is
 * the next one, the last one's being element 0.  The functions are what the splices of
 * sys/task.c do to that sequence; class RunQueue proves that they do.
 */
module RingOps {
  ghost predicate AreDistinct<T>(r: seq<T>) { forall i, j | 0 <= i < j < |r| :: r[i] != r[j] }

  // addToQueue
  function AddAfterRunning<T>(r: seq<T>, t: T): seq<T>
    requires |r| > 0
  {
    [r[0], t] + r[1..]
  }

  lemma AddedAt<T>(r: seq<T>, t: T, i: nat)
    requires |r| > 0 && i <= |r|
    ensures AddAfterRunning(r, t)[i] == if i == 0 then r[0] else if i == 1 then t else r[i - 1]
  {
  }

  // runNextTask
  function Advance<T>(r: seq<T>): seq<T>
    requires |r| > 0
  {
    r[1..] + [r[0]]
  }

  // deleteRunningThreadAndJump: on a ring of one the search for the predecessor ends at the
  // running task itself, which then stays in the ring.
  function ReplaceRunning<T>(r: seq<T>, t: T): seq<T>
    requires |r| > 0
  {
    if |r| == 1 then [t, r[0]] else [t] + r[1..]
  }

  // kill (k > 0) and exit (k == 0)
  function DropAt<T>(r: seq<T>, k: nat): seq<T>
    requires k < |r|
  {
    r[..k] + r[k + 1..]
  }
}
