/** The phase-bit protocol of an NVMe completion queue: a controller that posts, a driver that
    polls, and what the driver can rely on over every interleaving of the two. */
module NvmeModel {
  import opened Bytes

  /** The two words of a completion entry the driver looks at. */
  datatype Cqe = Cqe(dw0: u32, dw3: u32)

  /** What the controller reports: the command it is about (its number in submission order), its identifier on the
      wire, a 15-bit status and a result. */
  datatype Completion = Completion(cmd: nat, cid: u16, status: nat, result: u32)

  const STATUS_RANGE: nat := 0x8000

  /** Identifier in bits 15..0, phase in bit 16, status in bits 31..17. */
  function Encode(c: Completion, phase: nat): (r: Cqe)
    requires c.status < STATUS_RANGE && phase < 2
  {
    Cqe(c.result, c.cid + 0x1_0000 * phase + 0x2_0000 * c.status)
  }

  /** `phase` and `status_code` */
  function PhaseOf(e: Cqe): nat { e.dw3 / 0x1_0000 % 2 }

  function StatusOf(e: Cqe): nat { e.dw3 / 0x2_0000 % STATUS_RANGE }

  lemma EntryRoundTrip(c: Completion, phase: nat)
    requires c.status < STATUS_RANGE && phase < 2
    ensures PhaseOf(Encode(c, phase)) == phase && StatusOf(Encode(c, phase)) == c.status && Encode(c, phase).dw0 == c.result
  {
  }

  // ---- The queue ------------------------------------------------------------------------------------------

  /** The driver's side: the slots in memory, its head and the phase it expects. */
  datatype Queue = Queue(slots: seq<Cqe>, head: nat, phase: nat)

  /** The phase of the `p`-th completion ever posted: 1 in the first lap, then alternating. */
  function PhaseFor(p: nat, depth: nat): nat
    requires depth > 0
  {
    if p / depth % 2 == 0 then 1 else 0
  }

  datatype Polled = Nothing | Got(status: nat, result: u32)

  datatype Poll = Poll(queue: Queue, polled: Polled)

  /** One look at the head slot. */
  function TryTake(q: Queue): Poll
    requires q.head < |q.slots| && q.phase < 2
  {
    var e := q.slots[q.head];
    if PhaseOf(e) != q.phase then Poll(q, Nothing) else
    var head := (q.head + 1) % |q.slots|;
    Poll(q.(head := head, phase := if head == 0 then 1 - q.phase else q.phase), Got(StatusOf(e), e.dw0))
  }

  /** The controller writes its next completion, the `n`-th, over a slot. */
  function Put(q: Queue, n: nat, c: Completion): Queue
    requires |q.slots| > 0 && c.status < STATUS_RANGE
  {
    q.(slots := q.slots[n % |q.slots| := Encode(c, PhaseFor(n, |q.slots|))])
  }

  ghost predicate Unread(q: Queue, posted: seq<Completion>, p: nat)
    requires |q.slots| > 0 && p < |posted|
  {
    posted[p].status < STATUS_RANGE && q.slots[p % |q.slots|] == Encode(posted[p], PhaseFor(p, |q.slots|))
  }

  ghost predicate Stale(q: Queue, p: nat)
    requires |q.slots| > 0
  {
    PhaseOf(q.slots[p % |q.slots|]) != PhaseFor(p, |q.slots|)
  }

  /** The `taken`-th completion is next; what was posted since lies in its slots, and every other slot carries
      the phase of an older lap. */
  ghost predicate InStep(q: Queue, posted: seq<Completion>, taken: nat) {
    && |q.slots| >= 2 && taken <= |posted| <= taken + |q.slots|
    && q.head == taken % |q.slots| && q.phase == PhaseFor(taken, |q.slots|)
    && (forall p: nat | taken <= p < |posted| :: Unread(q, posted, p))
    && (forall p: nat | |posted| <= p < taken + |q.slots| :: Stale(q, p))
  }

  // ---- Arithmetic of laps --------------------------------------------------------------------------------------

  lemma {:induction false} LapsDiffer(p: nat, depth: nat)
    requires depth > 0
    ensures PhaseFor(p + depth, depth) != PhaseFor(p, depth) && (p + depth) % depth == p % depth
  {
    DivideIs(p + depth, depth, p / depth + 1, p % depth);
    assert (p + depth) == depth * (p / depth + 1) + p % depth;
  }

  lemma SlotsDiffer(p: nat, q: nat, depth: nat)
    requires p < q < p + depth
    ensures p % depth != q % depth
  {
    if p % depth == q % depth { SameSlot(p, q, depth); }
  }

  lemma SameSlot(p: nat, q: nat, depth: nat)
    requires depth > 0 && p <= q && p % depth == q % depth
    ensures q == p || q >= p + depth
  {
    var k := q / depth - p / depth;
    assert q - p == depth * k;
    if k <= 0 { MulSign(depth, k); } else { Monotone(depth, 1, k); }
  }

  lemma MulSign(d: nat, k: int)
    requires k <= 0
    ensures d * k <= 0
  {
  }

  /** The head and the expected phase follow the count of completions taken. */
  lemma Advance(taken: nat, depth: nat)
    requires depth >= 2
    ensures (taken + 1) % depth == (taken % depth + 1) % depth
    ensures PhaseFor(taken + 1, depth)
         == if (taken % depth + 1) % depth == 0 then 1 - PhaseFor(taken, depth) else PhaseFor(taken, depth)
  {
    var a, r := taken / depth, taken % depth;
    if r + 1 == depth {
      WrapsTo(taken, depth, a);
    } else {
      StepsTo(taken, depth, a, r);
    }
  }

  lemma DivModIs(v: nat, d: nat, q: nat, r: nat)
    requires v == d * q + r && r < d
    ensures v / d == q && v % d == r
  {
    DivideIs(v, d, q, r);
  }

  lemma WrapsTo(taken: nat, depth: nat, a: nat)
    requires depth >= 2 && taken == depth * a + (depth - 1)
    ensures (taken + 1) / depth == a + 1 && (taken + 1) % depth == 0 && depth % depth == 0
  {
    assert depth * (a + 1) == depth * a + depth;
    DivModIs(taken + 1, depth, a + 1, 0);
    DivModIs(depth, depth, 1, 0);
  }

  lemma StepsTo(taken: nat, depth: nat, a: nat, r: nat)
    requires taken == depth * a + r && r + 1 < depth
    ensures (taken + 1) / depth == a && (taken + 1) % depth == r + 1 && (r + 1) % depth == r + 1
  {
    DivModIs(taken + 1, depth, a, r + 1);
    DivModIs(r + 1, depth, 0, r + 1);
  }

  /** The tail follows the count of submissions. */
  lemma StepsOrWraps(n: nat, depth: nat)
    requires depth >= 2
    ensures (n % depth + 1) % depth == (n + 1) % depth
  {
    Advance(n, depth);
  }

  // ---- Every step keeps the queue in step --------------------------------------------------------------------------

  lemma PutInStep(q: Queue, posted: seq<Completion>, taken: nat, c: Completion)
    requires InStep(q, posted, taken) && |posted| < taken + |q.slots| && c.status < STATUS_RANGE
    ensures InStep(Put(q, |posted|, c), posted + [c], taken)
  {
    var q1, n, all := Put(q, |posted|, c), |posted|, posted + [c];
    forall p: nat | taken <= p < n + 1 ensures Unread(q1, all, p) {
      if p < n {
        assert Unread(q, posted, p);
        SlotsDiffer(p, n, |q.slots|);
      }
    }
    forall p: nat | n + 1 <= p < taken + |q.slots| ensures Stale(q1, p) {
      assert Stale(q, p);
      SlotsDiffer(n, p, |q.slots|);
    }
  }

  /** A look at the queue finds something if and only if a completion is unread; then it is the oldest unread one,
      taken for good, and nothing stale is ever taken. */
  lemma TakeExact(q: Queue, posted: seq<Completion>, taken: nat)
    requires InStep(q, posted, taken)
    ensures var r := TryTake(q);
            if taken < |posted|
            then && r.polled == Got(posted[taken].status, posted[taken].result) && posted[taken].status < STATUS_RANGE
                 && InStep(r.queue, posted, taken + 1)
            else r == Poll(q, Nothing)
  {
    var d := |q.slots|;
    if taken < |posted| {
      assert Unread(q, posted, taken);
      EntryRoundTrip(posted[taken], PhaseFor(taken, d));
      Advance(taken, d);
      var q1 := TryTake(q).queue;
      forall p: nat | taken + 1 <= p < |posted| ensures Unread(q1, posted, p) { assert Unread(q, posted, p); }
      forall p: nat | |posted| <= p < taken + 1 + d ensures Stale(q1, p) {
        if p < taken + d {
          assert Stale(q, p);
        } else {
          LapsDiffer(taken, d);
        }
      }
    } else {
      assert Stale(q, taken);
    }
  }

  /** Zeroed slots, head 0, phase 1. */
  function Fresh(depth: nat): Queue { Queue(seq(depth, _ => Cqe(0, 0)), 0, 1) }

  lemma FreshInStep(depth: nat)
    requires depth >= 2
    ensures InStep(Fresh(depth), [], 0)
  {
    var q := Fresh(depth);
    forall p: nat | p < depth ensures Stale(q, p) { FirstLap(p, depth); }
    FirstLap(0, depth);
  }

  lemma FirstLap(p: nat, depth: nat)
    requires p < depth
    ensures p % depth == p && PhaseFor(p, depth) == 1
  {
    DivideIs(p, depth, 0, p);
  }

  // ---- Whole runs ------------------------------------------------------------------------------------------------------

  /** Queue and controller: what was posted, how much was taken, how many commands were submitted, how many polls gave
      up, and whether a command is being waited for. */
  datatype Sys = Sys(q: Queue, posted: seq<Completion>, taken: nat, submitted: nat, timeouts: nat, waiting: bool)

  datatype Event = Submit | Post(c: Completion) | Look | GiveUp

  /** The controller completes submitted commands, each once, in any order, while it has a free slot. */
  ghost predicate MayPost(s: Sys, c: Completion) {
    && c.status < STATUS_RANGE && c.cmd < s.submitted && |s.posted| < s.taken + |s.q.slots|
    && forall i :: 0 <= i < |s.posted| ==> s.posted[i].cmd != c.cmd
  }

  ghost predicate Next(s: Sys, e: Event, s': Sys)
    requires s.q.head < |s.q.slots| && s.q.phase < 2
  {
    match e
    case Submit => !s.waiting && s' == s.(submitted := s.submitted + 1, waiting := true)
    case Post(c) => MayPost(s, c) && s' == s.(q := Put(s.q, |s.posted|, c), posted := s.posted + [c])
    case Look =>
      var r := TryTake(s.q);
      s.waiting && s' == if r.polled.Got? then s.(q := r.queue, taken := s.taken + 1, waiting := false) else s
    case GiveUp =>
      s.waiting && TryTake(s.q).polled.Nothing? && s' == s.(timeouts := s.timeouts + 1, waiting := false)
  }

  ghost predicate Inv(s: Sys) {
    && InStep(s.q, s.posted, s.taken) && s.submitted == s.taken + s.timeouts + (if s.waiting then 1 else 0)
    && (s.timeouts == 0 ==> forall i :: 0 <= i < |s.posted| ==> s.posted[i].cmd == i)
  }

  lemma HeadInRange(s: Sys)
    requires Inv(s)
    ensures s.q.head < |s.q.slots| && s.q.phase < 2
  {
  }

  lemma NextInv(s: Sys, e: Event, s': Sys)
    requires Inv(s) && Next(s, e, s')
    ensures Inv(s')
  {
    TakeExact(s.q, s.posted, s.taken);
    match e
    case Submit =>
    case Post(c) =>
      PutInStep(s.q, s.posted, s.taken, c);
      if s.timeouts == 0 { OnlyOneLeft(s, c); }
    case Look =>
    case GiveUp =>
  }

  /** Without timeouts at most one command is open, so a completion is about that one. */
  lemma OnlyOneLeft(s: Sys, c: Completion)
    requires Inv(s) && s.timeouts == 0 && MayPost(s, c)
    ensures c.cmd == |s.posted|
  {
    InPlace(s.posted, c.cmd);
  }

  lemma InPlace(posted: seq<Completion>, k: nat)
    requires forall i :: 0 <= i < |posted| ==> posted[i].cmd == i
    ensures k < |posted| ==> posted[k].cmd == k
  {
  }

  ghost predicate IsRun(trace: seq<Sys>, events: seq<Event>) {
    && |trace| == |events| + 1 && Inv(trace[0])
    && forall n :: 0 <= n < |events| ==> Step(trace[n], events[n], trace[n + 1])
  }

  ghost predicate Step(s: Sys, e: Event, s': Sys) { s.q.head < |s.q.slots| && s.q.phase < 2 && Next(s, e, s') }

  lemma {:induction false} RunInv(trace: seq<Sys>, events: seq<Event>, n: nat)
    requires IsRun(trace, events) && n < |trace|
    ensures Inv(trace[n])
  {
    if n > 0 {
      RunInv(trace, events, n - 1);
      assert Step(trace[n - 1], events[n - 1], trace[n - 1 + 1]);
      NextInv(trace[n - 1], events[n - 1], trace[n]);
    }
  }

  /** What the first `n` events of a run gave to the driver. */
  ghost function Received(trace: seq<Sys>, events: seq<Event>, n: nat): seq<Polled>
    requires IsRun(trace, events) && n < |trace|
  {
    if n == 0 then [] else
    RunInv(trace, events, n - 1);
    HeadInRange(trace[n - 1]);
    var before := Received(trace, events, n - 1);
    var r := TryTake(trace[n - 1].q).polled;
    if events[n - 1].Look? && r.Got? then before + [r] else before
  }

  ghost function Results(cs: seq<Completion>): seq<Polled> { seq(|cs|, i requires 0 <= i < |cs| => Got(cs[i].status, cs[i].result)) }

  /** Over every interleaving of posts, looks, timeouts and submissions, the driver receives every completion once and in
      the order of posting, and nothing else: what it has received is the first completions posted. */
  lemma {:induction false} EachOnceInOrder(trace: seq<Sys>, events: seq<Event>, n: nat)
    requires IsRun(trace, events) && n < |trace| && trace[0].taken == 0
    ensures trace[n].taken <= |trace[n].posted|
    ensures Received(trace, events, n) == Results(trace[n].posted[..trace[n].taken])
  {
    RunInv(trace, events, n);
    if n > 0 {
      EachOnceInOrder(trace, events, n - 1);
      RunInv(trace, events, n - 1);
      var s, s' := trace[n - 1], trace[n];
      assert Step(s, events[n - 1], trace[n - 1 + 1]);
      ReceivedGrows(s, s', events[n - 1], Received(trace, events, n - 1));
    }
  }

  lemma ReceivedGrows(s: Sys, s': Sys, e: Event, before: seq<Polled>)
    requires Inv(s) && Inv(s') && Step(s, e, s') && before == Results(s.posted[..s.taken])
    ensures var r := TryTake(s.q).polled;
            Results(s'.posted[..s'.taken]) == if e.Look? && r.Got? then before + [r] else before
  {
    ResultsGrow(s, s', e);
    OneMoreResult(s.posted, s.taken);
  }

  lemma OneMoreResult(posted: seq<Completion>, taken: nat)
    requires taken <= |posted|
    ensures taken < |posted| ==>
              Results(posted[..taken] + [posted[taken]]) == Results(posted[..taken]) + [Got(posted[taken].status, posted[taken].result)]
  {
  }

  lemma ResultsGrow(s: Sys, s': Sys, e: Event)
    requires Inv(s) && Inv(s') && Step(s, e, s')
    ensures s'.posted[..s'.taken] == if s'.taken > s.taken then s.posted[..s.taken] + [s.posted[s.taken]] else s.posted[..s.taken]
    ensures s'.taken > s.taken <==> e.Look? && TryTake(s.q).polled.Got?
    ensures s'.taken > s.taken ==> TryTake(s.q).polled == Got(s.posted[s.taken].status, s.posted[s.taken].result)
  {
    TakeExact(s.q, s.posted, s.taken);
  }

  /** In a run without timeouts, a look that finds something finds the completion of the command just submitted. */
  lemma AnswersTheLastCommand(s: Sys)
    requires Inv(s) && s.waiting && s.timeouts == 0 && TryTake(s.q).polled.Got?
    ensures s.taken < |s.posted| && s.posted[s.taken].cmd == s.submitted - 1
  {
    TakeExact(s.q, s.posted, s.taken);
  }

  /** With a controller that answers in order, a look finds the answer to the command that lies as many submissions back
      as polls have timed out: it answers the last command if and only if none has. */
  lemma TimeoutsShiftAnswers(s: Sys)
    requires Inv(s) && s.waiting && TryTake(s.q).polled.Got? && forall i :: 0 <= i < |s.posted| ==> s.posted[i].cmd == i
    ensures s.taken < |s.posted| && s.posted[s.taken].cmd == s.submitted - 1 - s.timeouts
    ensures s.posted[s.taken].cmd == s.submitted - 1 <==> s.timeouts == 0
  {
    TakeExact(s.q, s.posted, s.taken);
  }

  /** A run with a timeout: the poll for command 0 gives up, command 1 is submitted, the controller completes command 0,
      and the poll for command 1 returns the status of command 0. */
  lemma LateAnswer(depth: nat, c: Completion) returns (trace: seq<Sys>)
    requires depth >= 2 && c.cmd == 0 && c.status < STATUS_RANGE
    ensures IsRun(trace, [Submit, GiveUp, Submit, Post(c)]) && trace[0] == Sys(Fresh(depth), [], 0, 0, 0, false)
    ensures var s := trace[4]; HeadOk(s) && s.waiting && s.submitted == 2 && TryTake(s.q).polled == Got(c.status, c.result)
  {
    FreshInStep(depth);
    var q := Fresh(depth);
    TakeExact(q, [], 0);
    PutInStep(q, [], 0, c);
    TakeExact(Put(q, 0, c), [c], 0);
    trace := [Sys(q, [], 0, 0, 0, false), Sys(q, [], 0, 1, 0, true), Sys(q, [], 0, 1, 1, false), Sys(q, [], 0, 2, 1, true),
              Sys(Put(q, 0, c), [c], 0, 2, 1, true)];
    assert [] + [c] == [c];
  }

  ghost predicate HeadOk(s: Sys) { s.q.head < |s.q.slots| && s.q.phase < 2 }
}
