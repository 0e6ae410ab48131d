/** Waiting for an assistant run to leave its non-terminal states. The
    remote status lookup is an oracle: `answers[k]` is what the k-th
    re-fetch of the run returns. */
module Polling {

  /** A run of the assistant against a thread, reduced to its id and status. */
  datatype Run = Run(id: string, status: string)

  /** The statuses the loop keeps waiting on. */
  predicate Pending(status: string) {
    status == "queued" || status == "in_progress"
  }

  /** How the wait ends within the answers the oracle has given: the loop
      returned `run` after `polls` re-fetches, or every answer so far was
      still pending and the loop goes on polling past the last one. */
  datatype Outcome = Returned(run: Run, polls: nat) | StillPolling(last: Run)

  /** Re-fetches the run while its status is pending. The run it returns is
      the first observed one (the initial run, then each answer in turn)
      whose status is not pending; if the initial run is already terminal it
      is returned unchanged with no re-fetch. */
  method WaitOnRun(run: Run, answers: seq<Run>) returns (o: Outcome)
    ensures o.Returned? ==> !Pending(o.run.status)
    ensures o.Returned? ==>
              && o.polls <= |answers|
              && o.run == ([run] + answers)[o.polls]
              && forall k :: 0 <= k < o.polls ==> Pending(([run] + answers)[k].status)
    ensures o.StillPolling? ==>
              && o.last == ([run] + answers)[|answers|]
              && forall k :: 0 <= k <= |answers| ==> Pending(([run] + answers)[k].status)
    ensures !Pending(run.status) ==> o == Returned(run, 0)
  {
    ghost var observed := [run] + answers;
    var current := run;
    var polls := 0;
    while Pending(current.status)
      invariant polls <= |answers|
      invariant current == observed[polls]
      invariant forall k :: 0 <= k < polls ==> Pending(observed[k].status)
      decreases |answers| - polls
    {
      if polls == |answers| {
        return StillPolling(current);
      }
      current := answers[polls];
      polls := polls + 1;
    }
    return Returned(current, polls);
  }
}
