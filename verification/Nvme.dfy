/** The driver's queue pair in its own form, with the controller that shares its memory. */
module Nvme {
  import opened Bytes
  import M = NvmeModel

  /** `Result<u32, u16>` of a submit and poll. */
  datatype Answer = Ok(result: u32) | Err(status: nat)

  const TIMED_OUT: nat := 0xFFFF

  function AnswerOf(c: M.Completion): Answer { if c.status == 0 then Ok(c.result) else Err(c.status) }

  class QueuePair {
    const depth: nat
    const cq: array<M.Cqe>
    var tail: nat
    var head: nat
    var phase: nat
    // The controller's side: completions written, completions acknowledged by the head doorbell, commands fetched.
    var posted: seq<M.Completion>
    var taken: nat
    var submitted: nat

    ghost predicate Valid()
      reads this, cq
    {
      depth >= 2 && cq.Length == depth && tail == submitted % depth && M.InStep(Queue(), posted, taken)
    }

    ghost function Queue(): M.Queue
      reads this, cq
    {
      M.Queue(cq[..], head, phase)
    }

    constructor (depth: nat)
      requires depth >= 2
      ensures Valid() && fresh(cq) && posted == [] && taken == submitted == 0 && this.depth == depth
    {
      this.depth := depth;
      cq := new M.Cqe[depth](_ => M.Cqe(0, 0));
      tail, head, phase := 0, 0, 1;
      posted, taken, submitted := [], 0, 0;
      new;
      M.FreshInStep(depth);
      assert cq[..] == M.Fresh(depth).slots;
      M.DivModIs(0, depth, 0, 0);
    }

    /** The controller posts its next completion, if it has a free slot. */
    method Post(c: M.Completion)
      requires Valid() && c.status < M.STATUS_RANGE
      modifies this`posted, cq
      ensures Valid()
      ensures posted == if |old(posted)| < taken + depth then old(posted) + [c] else old(posted)
    {
      if |posted| >= taken + depth { return; }
      M.PutInStep(Queue(), posted, taken, c);
      ghost var q := M.Put(Queue(), |posted|, c);
      cq[|posted| % depth] := M.Encode(c, M.PhaseFor(|posted|, depth));
      assert cq[..] == q.slots;
      posted := posted + [c];
    }

    /** One look at the head slot. */
    method TryTake() returns (r: M.Polled)
      requires Valid()
      modifies this`head, this`phase, this`taken
      ensures Valid()
      ensures old(taken) <= |posted| && (r.Got? ==> r.status < M.STATUS_RANGE)
      ensures old(taken) < |posted| ==> r == M.Got(posted[old(taken)].status, posted[old(taken)].result) && taken == old(taken) + 1
      ensures old(taken) == |posted| ==> r == M.Nothing && taken == old(taken)
    {
      M.TakeExact(Queue(), posted, taken);
      var e := cq[head];
      if M.PhaseOf(e) != phase { return M.Nothing; }
      r := M.Got(M.StatusOf(e), e.dw0);
      head := (head + 1) % depth;
      if head == 0 { phase := 1 - phase; }
      taken := taken + 1;
    }

    /** `admin_submit_poll` and `io_submit_poll`: submit, then look until something is found or the deadline passes.
        `schedule` says what the controller posts before each look. The answer is the oldest completion not taken yet;
        a timeout means that there was none. */
    method SubmitPoll(schedule: seq<Option<M.Completion>>) returns (r: Answer)
      requires Valid() && forall i :: 0 <= i < |schedule| && schedule[i].Some? ==> schedule[i].value.status < M.STATUS_RANGE
      modifies this, cq
      ensures Valid() && submitted == old(submitted) + 1 && old(posted) <= posted
      ensures r != Err(TIMED_OUT) ==>
                taken == old(taken) + 1 && old(taken) < |posted| && r == AnswerOf(posted[old(taken)])
      ensures r == Err(TIMED_OUT) ==> taken == old(taken) && (|schedule| > 0 ==> taken == |posted|)
    {
      Submit();
      r := Wait(schedule);
    }

    /** Advance the tail and ring the doorbell. */
    method Submit()
      requires Valid()
      modifies this`tail, this`submitted
      ensures Valid() && submitted == old(submitted) + 1
    {
      M.StepsOrWraps(submitted, depth);
      tail := (tail + 1) % depth;
      submitted := submitted + 1;
    }

    method Wait(schedule: seq<Option<M.Completion>>) returns (r: Answer)
      requires Valid() && forall i :: 0 <= i < |schedule| && schedule[i].Some? ==> schedule[i].value.status < M.STATUS_RANGE
      modifies this`head, this`phase, this`taken, this`posted, cq
      ensures Valid() && old(posted) <= posted
      ensures r != Err(TIMED_OUT) ==>
                taken == old(taken) + 1 && old(taken) < |posted| && r == AnswerOf(posted[old(taken)])
      ensures r == Err(TIMED_OUT) ==> taken == old(taken) && (|schedule| > 0 ==> taken == |posted|)
    {
      for i := 0 to |schedule|
        invariant Valid() && old(posted) <= posted && taken == old(taken)
        invariant i > 0 ==> taken == |posted|
      {
        var p := LookOnce(schedule[i]);
        if p.Got? {
          r := if p.status == 0 then Ok(p.result) else Err(p.status);
          return;
        }
      }
      r := Err(TIMED_OUT);
    }

    /** What the controller does in the meantime, then one look. */
    method LookOnce(post: Option<M.Completion>) returns (r: M.Polled)
      requires Valid() && (post.Some? ==> post.value.status < M.STATUS_RANGE)
      modifies this`head, this`phase, this`taken, this`posted, cq
      ensures Valid() && old(posted) <= posted
      ensures r.Got? ==> r.status < M.STATUS_RANGE && taken == old(taken) + 1 && old(taken) < |posted|
                         && r == M.Got(posted[old(taken)].status, posted[old(taken)].result)
      ensures r.Nothing? ==> taken == old(taken) == |posted|
    {
      if post.Some? { Post(post.value); }
      r := TryTake();
    }
  }
}
