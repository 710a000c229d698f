/** Workers that claim tasks from one atomic counter, under every interleaving of their steps. */
module WorkPool {
  import opened Seqs

  /** Between two steps a worker is about to claim, holds a claimed task, or has seen the counter pass the end. */
  datatype Worker = Ready | Holds(task: nat) | Done

  /** A claim by `fetch_add`: the counter goes up whether or not a task is left. */
  function Claim(next: nat, n: nat): Worker {
    if next < n then Holds(next) else Done
  }

  class WorkPool {
    const n: nat                   // the number of tasks
    var next: nat                  // the shared counter
    var workers: seq<Worker>
    ghost var ran: set<nat>        // the tasks run so far

    /** Every claimed task is held by exactly one worker or has been run, not both. */
    ghost predicate Valid()
      reads this
    {
      && (forall i :: i in ran ==> i < n && i < next)
      && (forall w :: 0 <= w < |workers| && workers[w].Holds? ==>
            workers[w].task < n && workers[w].task < next && workers[w].task !in ran)
      && (forall v, w :: 0 <= v < w < |workers| && workers[v].Holds? && workers[w].Holds? ==>
            workers[v].task != workers[w].task)
      && (forall i :: 0 <= i < n && i < next ==> i in ran || IsHeld(i))
      && (forall w :: 0 <= w < |workers| && workers[w].Done? ==> next >= n)
    }

    ghost predicate IsHeld(i: nat)
      reads this
    {
      exists w :: 0 <= w < |workers| && workers[w] == Holds(i)
    }

    predicate Finished()
      reads this
    {
      forall w :: 0 <= w < |workers| ==> workers[w].Done?
    }

    constructor (n: nat, workers: nat)
      ensures Valid() && this.n == n && ran == {} && |this.workers| == workers
    {
      this.n, next, this.workers, ran := n, 0, seq(workers, _ => Ready), {};
    }

    /** Steps left: a claim and a run for each task, and a last claim for each worker. */
    ghost function StepsLeft(): int
      reads this
    {
      2 * (if next < n then n - next else 0) + Unfinished(workers)
    }

    /** One step of some worker, whichever the scheduler picks; `task` is the task it has just run, if any. */
    method Step() returns (task: int)
      requires Valid() && !Finished()
      modifies this
      ensures Valid() && |workers| == old(|workers|)
      ensures task >= 0 ==> task < n && task !in old(ran) && ran == old(ran) + {task as nat}
      ensures task < 0 ==> ran == old(ran)
      ensures 0 <= StepsLeft() < old(StepsLeft())
    {
      var w: nat :| w < |workers| && !workers[w].Done?;
      StepCounts(workers, w, if workers[w].Ready? then Claim(next, n) else Ready);
      if workers[w].Ready? {
        task := -1;
        ClaimNext(w);
      } else {
        task := workers[w].task;
        Ran(w);
      }
    }

    method ClaimNext(w: nat)
      requires Valid() && w < |workers| && workers[w].Ready?
      modifies this`next, this`workers
      ensures Valid() && next == old(next) + 1 && workers == old(workers)[w := Claim(old(next), n)]
    {
      workers, next := workers[w := Claim(next, n)], next + 1;
      assert old(next) < n ==> workers[w] == Holds(old(next));
      forall i: nat | i < n && i < next ensures i in ran || IsHeld(i) {
        if i < old(next) && i !in ran {
          assert old(IsHeld(i));
          var v :| 0 <= v < |workers| && old(workers)[v] == Holds(i);
          assert workers[v] == Holds(i);
        }
      }
    }

    method Ran(w: nat)
      requires Valid() && w < |workers| && workers[w].Holds?
      modifies this`workers, this`ran
      ensures Valid() && workers == old(workers)[w := Ready] && ran == old(ran) + {old(workers)[w].task}
    {
      ghost var task := workers[w].task;
      workers, ran := workers[w := Ready], ran + {task};
      forall i: nat | i < n && i < next ensures i in ran || IsHeld(i) {
        if i !in ran {
          assert old(IsHeld(i));
          var v :| 0 <= v < |workers| && old(workers)[v] == Holds(i);
          assert workers[v] == Holds(i);
        }
      }
    }

    /** When every worker has stopped, every task has been run, once. */
    lemma AllRan()
      requires Valid() && Finished() && workers != []
      ensures ran == Below(n)
    {
      assert workers[0].Done?;
      forall i: nat | i < n ensures i in ran {
        assert !IsHeld(i);
      }
      assert forall i :: i in ran <==> i in Below(n);
    }
  }

  function Weight(w: Worker): nat {
    match w
    case Ready => 1
    case Holds(_) => 2
    case Done => 0
  }

  function Unfinished(workers: seq<Worker>): nat {
    if workers == [] then 0 else Unfinished(Init(workers)) + Weight(Last(workers))
  }

  lemma {:induction false} StepCounts(workers: seq<Worker>, w: nat, x: Worker)
    requires w < |workers|
    ensures Unfinished(workers[w := x]) == Unfinished(workers) - Weight(workers[w]) + Weight(x)
  {
    if w == |workers| - 1 {
      assert Init(workers[w := x]) == Init(workers);
    } else {
      StepCounts(Init(workers), w, x);
      assert Init(workers[w := x]) == Init(workers)[w := x];
    }
  }
}
