/**
 * The query jobs of `a2s_query_all`: one job per server walks from the
 * challenge request to the player list, retrying on timeouts and bad
 * replies, and gives up after three failed attempts in a phase. The send
 * pass and the receive pass of the polling loop are pure functions here;
 * the socket, the clock and the sleep are left to the caller, which passes
 * the current time and the received datagrams in.
 */
module Scheduler {
  import opened Wrappers
  import opened Bytes
  import opened A2s

  const MAX_REQ_ATTEMPTS: int := 3
  const REQ_TIMEOUT: int := 1000
  const MAX_PACKETS_PER_PASS: int := 100
  /** The size of the receive buffer: longer datagrams arrive cut to it. */
  const RECV_BUFFER: int := 4096

  const GET_CHALLENGE: seq<byte> := [0xFF, 0xFF, 0xFF, 0xFF, 0x55, 0xFF, 0xFF, 0xFF, 0xFF]
  const GET_PLAYERS: seq<byte> := [0xFF, 0xFF, 0xFF, 0xFF, 0x55]

  datatype JobState = NotStarted | WaitChallenge | GotChallenge | WaitPlayers | Done

  /**
   * A query job: the key of the server's address, the phase it is in, the
   * challenge the server handed out (an `int32_t`), the time in milliseconds
   * of the last request, the failed attempts of the current phase, and what
   * the server answered.
   */
  datatype Job = Job(key: nat, state: JobState, challenge: int, lastReq: nat, attempts: int,
                     players: seq<Player>, success: bool)

  /** The value-initialised job a server starts with. */
  function NewJob(key: nat): (job: Job)
    ensures Valid(job) && job.state == NotStarted && !job.success
  {
    Job(key, NotStarted, 0, 0, 0, [], false)
  }

  /**
   * What every job reachable from NewJob satisfies: fewer than three
   * failures while it runs, success only once done, an unsigned 64-bit
   * clock stamp and a 32-bit challenge.
   */
  predicate Valid(job: Job) {
    0 <= job.attempts <= MAX_REQ_ATTEMPTS
    && (job.state != Done ==> job.attempts < MAX_REQ_ATTEMPTS)
    && (job.success ==> job.state == Done)
    && job.lastReq < TWO_64
    && -0x8000_0000 <= job.challenge < 0x8000_0000
  }

  /** `now - job.lastReq > REQ_TIMEOUT` on unsigned 64-bit milliseconds. */
  predicate TimedOut(now: nat, lastReq: nat) {
    (now - lastReq) % TWO_64 > REQ_TIMEOUT
  }

  /** A failed attempt: count it and fall back to `retry`, or give up at the limit. */
  function Fail(job: Job, retry: JobState): (j: Job)
    ensures j.attempts == job.attempts + 1
    ensures j.state == (if job.attempts + 1 >= MAX_REQ_ATTEMPTS then Done else retry)
    ensures j == job.(state := j.state, attempts := j.attempts)
  {
    var attempts := job.attempts + 1;
    job.(state := if attempts >= MAX_REQ_ATTEMPTS then Done else retry, attempts := attempts)
  }

  /** The job sends a request on this pass. */
  predicate Sends(job: Job) {
    job.state == NotStarted || job.state == GotChallenge
  }

  /** The request for the player list, carrying the four bytes of the challenge. */
  function PlayersRequest(challenge: int): (p: seq<byte>)
    requires -0x8000_0000 <= challenge < 0x8000_0000
    ensures |p| == 9 && p[..5] == GET_PLAYERS
  {
    GET_PLAYERS + LE32(challenge % TWO_32)
  }

  /** One job's turn in the send switch at time `now`: the new job and the packet it sends, if any. */
  function SendStep(job: Job, now: nat): (r: (Job, Option<seq<byte>>))
    requires -0x8000_0000 <= job.challenge < 0x8000_0000
    ensures r.1.Some? <==> Sends(job)
    ensures job.state == NotStarted ==> r == (job.(state := WaitChallenge, lastReq := now), Some(GET_CHALLENGE))
    ensures job.state == GotChallenge ==>
      r == (job.(state := WaitPlayers, lastReq := now), Some(PlayersRequest(job.challenge)))
    ensures job.state == Done ==> r.0 == job
    ensures (job.state == WaitChallenge || job.state == WaitPlayers) && !TimedOut(now, job.lastReq) ==> r.0 == job
    ensures job.state == WaitChallenge && TimedOut(now, job.lastReq) ==> r == (Fail(job, NotStarted), None)
    ensures job.state == WaitPlayers && TimedOut(now, job.lastReq) ==> r == (Fail(job, GotChallenge), None)
    ensures r.0.key == job.key && r.0.players == job.players && r.0.success == job.success
  {
    match job.state
    case NotStarted => (job.(state := WaitChallenge, lastReq := now), Some(GET_CHALLENGE))
    case GotChallenge => (job.(state := WaitPlayers, lastReq := now), Some(PlayersRequest(job.challenge)))
    case WaitChallenge => (if TimedOut(now, job.lastReq) then Fail(job, NotStarted) else job, None)
    case WaitPlayers => (if TimedOut(now, job.lastReq) then Fail(job, GotChallenge) else job, None)
    case Done => (job, None)
  }

  /** The player list a reply carries; an unreadable list leaves the job with no players. */
  function PlayersOf(data: seq<byte>): seq<Player> {
    ParsePlayers(data).GetOr([])
  }

  /** One datagram from the job's server, by the receive switch. */
  function RecvStep(job: Job, data: seq<byte>): (j: Job)
    ensures j.key == job.key
    ensures job.state !in {WaitChallenge, WaitPlayers} ==> j == job
    ensures j.success <==> job.success || (job.state in {WaitChallenge, WaitPlayers} && j.state == Done && j.attempts == job.attempts)
    ensures job.state == WaitChallenge && |data| >= 9 && data[4] == 0x41 ==>
      j == job.(state := GotChallenge, challenge := I32(data[5], data[6], data[7], data[8]), attempts := 0)
    ensures job.state == WaitChallenge && |data| > 4 && data[4] == 0x44 ==>
      j == job.(state := Done, success := true, players := PlayersOf(data))
    ensures job.state == WaitChallenge && !(|data| >= 9 && data[4] == 0x41) && !(|data| > 4 && data[4] == 0x44) ==>
      j == Fail(job, NotStarted)
    ensures job.state == WaitPlayers && |data| >= 6 && data[4] == 0x44 ==>
      j == job.(state := Done, success := true, players := PlayersOf(data))
    ensures job.state == WaitPlayers && !(|data| >= 6 && data[4] == 0x44) ==> j == Fail(job, GotChallenge)
  {
    match job.state
    case WaitChallenge =>
      if |data| < 9 || data[4] != 0x41 then
        if |data| > 4 && data[4] == 0x44 then job.(players := PlayersOf(data), state := Done, success := true)
        else Fail(job, NotStarted)
      else job.(challenge := I32(data[5], data[6], data[7], data[8]), state := GotChallenge, attempts := 0)
    case WaitPlayers =>
      if |data| < 6 || data[4] != 0x44 then Fail(job, GotChallenge)
      else job.(players := PlayersOf(data), state := Done, success := true)
    case _ => job
  }

  // ---------------------------------------------------------------------
  // Termination of a single job
  // ---------------------------------------------------------------------

  /**
   * Work left for a job: the challenge phase weighs more than the whole
   * player phase, fewer attempts left weigh less, and a request still to be
   * sent weighs one more than waiting for its answer.
   */
  function Measure(job: Job): (m: nat)
    requires Valid(job)
    ensures m == 0 <==> job.state == Done
    ensures m <= 16
  {
    var left := MAX_REQ_ATTEMPTS - job.attempts;
    match job.state
    case NotStarted => 9 + 2 * left + 1
    case WaitChallenge => 9 + 2 * left
    case GotChallenge => 1 + 2 * left + 1
    case WaitPlayers => 1 + 2 * left
    case Done => 0
  }

  /** A send step keeps a job valid, and it either changes nothing or moves the job strictly closer to done. */
  lemma SendStepProgress(job: Job, now: nat)
    requires Valid(job) && now < TWO_64
    ensures Valid(SendStep(job, now).0)
    ensures SendStep(job, now).0 == job || Measure(SendStep(job, now).0) < Measure(job)
    ensures Sends(job) ==> Measure(SendStep(job, now).0) < Measure(job)
  {
  }

  /** So does a received datagram, whatever its bytes. */
  lemma RecvStepProgress(job: Job, data: seq<byte>)
    requires Valid(job)
    ensures Valid(RecvStep(job, data))
    ensures RecvStep(job, data) == job || Measure(RecvStep(job, data)) < Measure(job)
  {
  }

  /** A done job is never left: neither a pass nor a datagram changes it. */
  lemma DoneIsFinal(job: Job, now: nat, data: seq<byte>)
    requires job.state == Done && -0x8000_0000 <= job.challenge < 0x8000_0000
    ensures SendStep(job, now).0 == job && SendStep(job, now).1.None?
    ensures RecvStep(job, data) == job
  {
  }

  /** The player request echoes exactly the four challenge bytes the server sent. */
  lemma ChallengeEcho(job: Job, data: seq<byte>, now: nat)
    requires Valid(job) && job.state == WaitChallenge
    requires |data| >= 9 && data[4] == 0x41
    ensures RecvStep(job, data).state == GotChallenge
    ensures SendStep(RecvStep(job, data), now).1 == Some(GET_PLAYERS + data[5..9])
  {
    var c := I32(data[5], data[6], data[7], data[8]);
    U32Injective(data[5..9]);
    assert LE32(c % TWO_32) == data[5..9];
  }

  /** The job after a send pass at each of the times `nows`, with no replies in between. */
  function Ticks(job: Job, nows: seq<nat>): Job
    requires Valid(job)
    requires forall k :: 0 <= k < |nows| ==> nows[k] < TWO_64
    decreases |nows|
  {
    if |nows| == 0 then job
    else
      SendStepProgress(job, nows[0]);
      Ticks(SendStep(job, nows[0]).0, nows[1..])
  }

  /** Pass times on the 64-bit clock, each more than REQ_TIMEOUT after `since` and after the one before. */
  predicate Spaced(since: nat, nows: seq<nat>) {
    (forall k :: 0 <= k < |nows| ==> nows[k] < TWO_64)
    && (|nows| > 0 ==> since + REQ_TIMEOUT < nows[0])
    && (forall k :: 0 < k < |nows| ==> nows[k - 1] + REQ_TIMEOUT < nows[k])
  }

  /**
   * A server that never answers is given up: after as many timed-out passes
   * as the job's measure, the job is done, and it did not succeed unless it
   * already had.
   */
  lemma {:induction false} GivesUp(job: Job, nows: seq<nat>)
    requires Valid(job)
    requires Spaced(job.lastReq, nows)
    requires |nows| >= Measure(job)
    ensures Ticks(job, nows).state == Done
    ensures Ticks(job, nows).success == job.success
    decreases |nows|
  {
    if |nows| > 0 {
      var now := nows[0];
      assert TimedOut(now, job.lastReq);
      SendStepProgress(job, now);
      var next := SendStep(job, now).0;
      assert next.lastReq == job.lastReq || next.lastReq == now;
      assert Spaced(next.lastReq, nows[1..]);
      GivesUp(next, nows[1..]);
    }
  }

  /** A done job stays as it is, however many passes follow. */
  lemma {:induction false} TicksDone(job: Job, nows: seq<nat>)
    requires Valid(job) && job.state == Done
    requires forall k :: 0 <= k < |nows| ==> nows[k] < TWO_64
    ensures Ticks(job, nows) == job
    decreases |nows|
  {
    if |nows| > 0 {
      TicksDone(SendStep(job, nows[0]).0, nows[1..]);
    }
  }

  /**
   * How far an unanswered job has come through its challenge requests: two
   * for each failed attempt, and one more while a request is out.
   */
  function ChallengeTries(job: Job): nat
    requires Valid(job)
  {
    2 * job.attempts + (if job.state == WaitChallenge then 1 else 0)
  }

  /**
   * With no answers, a job still in the challenge phase alternates between
   * sending the challenge request and timing out, and is given up, without
   * success, on exactly the pass that completes six such steps.
   */
  lemma {:induction false} ChallengeRetries(job: Job, nows: seq<nat>)
    requires Valid(job) && (job.state == NotStarted || job.state == WaitChallenge)
    requires Spaced(job.lastReq, nows)
    ensures Ticks(job, nows).state == Done <==> ChallengeTries(job) + |nows| >= 2 * MAX_REQ_ATTEMPTS
    ensures !Ticks(job, nows).success
    decreases |nows|
  {
    if |nows| > 0 {
      var now := nows[0];
      var next := SendStep(job, now).0;
      SendStepProgress(job, now);
      if job.state == NotStarted {
        assert next.state == WaitChallenge && next.lastReq == now;
        assert Spaced(now, nows[1..]);
        ChallengeRetries(next, nows[1..]);
      } else {
        assert TimedOut(now, job.lastReq);
        if next.state == Done {
          TicksDone(next, nows[1..]);
        } else {
          assert Spaced(next.lastReq, nows[1..]);
          ChallengeRetries(next, nows[1..]);
        }
      }
    }
  }

  /**
   * A fresh job whose server never answers is given up, unsuccessfully, on
   * its sixth timed-out pass and not before: three challenge requests, each
   * followed by a timeout.
   */
  lemma NewJobGivesUp(key: nat, nows: seq<nat>)
    requires Spaced(0, nows)
    ensures Ticks(NewJob(key), nows).state == Done <==> |nows| >= 6
    ensures !Ticks(NewJob(key), nows).success
  {
    ChallengeRetries(NewJob(key), nows);
  }

  // ---------------------------------------------------------------------
  // The send pass
  // ---------------------------------------------------------------------

  predicate AllValid(jobs: seq<Job>) {
    forall k :: 0 <= k < |jobs| ==> Valid(jobs[k])
  }

  /** The jobs with the first `n` of them having taken their send step. */
  function Advance(jobs: seq<Job>, now: nat, n: nat): (js: seq<Job>)
    requires AllValid(jobs) && n <= |jobs|
    ensures |js| == |jobs|
    ensures forall k :: 0 <= k < |jobs| ==> js[k] == if k < n then SendStep(jobs[k], now).0 else jobs[k]
  {
    if n == 0 then jobs else Advance(jobs, now, n - 1)[n - 1 := SendStep(jobs[n - 1], now).0]
  }

  /** The packets the first `n` jobs send, each with the key of its destination, in job order. */
  function Outbox(jobs: seq<Job>, now: nat, n: nat): (ps: seq<(nat, seq<byte>)>)
    requires AllValid(jobs) && n <= |jobs|
    ensures |ps| <= n
  {
    if n == 0 then []
    else
      var sent := SendStep(jobs[n - 1], now).1;
      Outbox(jobs, now, n - 1) + (if sent.Some? then [(jobs[n - 1].key, sent.value)] else [])
  }

  /** How many of the first `n` jobs are not done yet. */
  function Running(jobs: seq<Job>, n: nat): (r: nat)
    requires n <= |jobs|
    ensures r <= n
    ensures r == 0 <==> forall k :: 0 <= k < n ==> jobs[k].state == Done
  {
    if n == 0 then 0
    else Running(jobs, n - 1) + (if jobs[n - 1].state != Done then 1 else 0)
  }

  /** The pass reaches the first `v` jobs: it stops after the job that brings the packets to 100, or at the end. */
  predicate StopsAt(jobs: seq<Job>, now: nat, v: nat)
    requires AllValid(jobs)
  {
    && v <= |jobs|
    && (forall w :: 0 <= w < v ==> |Outbox(jobs, now, w)| < MAX_PACKETS_PER_PASS)
    && (v == |jobs| || |Outbox(jobs, now, v)| >= MAX_PACKETS_PER_PASS)
  }

  /** Only one number of jobs can be where the pass stops. */
  lemma StopsAtUnique(jobs: seq<Job>, now: nat, v1: nat, v2: nat)
    requires AllValid(jobs) && StopsAt(jobs, now, v1) && StopsAt(jobs, now, v2)
    ensures v1 == v2
  {
  }

  /** How many jobs a pass reaches, when it got past the first `i` without hitting the cap. */
  function VisitedFrom(jobs: seq<Job>, now: nat, i: nat): (v: nat)
    requires AllValid(jobs) && i <= |jobs|
    requires forall w :: 0 <= w <= i ==> |Outbox(jobs, now, w)| < MAX_PACKETS_PER_PASS
    ensures i <= v && StopsAt(jobs, now, v)
    decreases |jobs| - i
  {
    if i == |jobs| then i
    else if |Outbox(jobs, now, i + 1)| >= MAX_PACKETS_PER_PASS then i + 1
    else VisitedFrom(jobs, now, i + 1)
  }

  /** What a send pass leaves: the jobs, the packets sent, the running count and how many jobs it reached. */
  datatype Pass = Pass(jobs: seq<Job>, packets: seq<(nat, seq<byte>)>, running: nat, visited: nat)

  /**
   * The effect of one send pass at time `now`: the jobs up to where it
   * stops have taken their step and counted towards the running jobs, and
   * the rest are untouched.
   */
  function SendPass(jobs: seq<Job>, now: nat): (r: Pass)
    requires AllValid(jobs)
    ensures StopsAt(jobs, now, r.visited)
    ensures r.jobs == Advance(jobs, now, r.visited)
    ensures r.packets == Outbox(jobs, now, r.visited)
    ensures r.running == Running(jobs, r.visited)
  {
    var v := VisitedFrom(jobs, now, 0);
    Pass(Advance(jobs, now, v), Outbox(jobs, now, v), Running(jobs, v), v)
  }

  /** One more job taking its step extends the three running references by that job. */
  lemma PassStep(jobs: seq<Job>, now: nat, i: nat)
    requires AllValid(jobs) && i < |jobs|
    ensures Advance(jobs, now, i + 1) == Advance(jobs, now, i)[i := SendStep(jobs[i], now).0]
    ensures var sent := SendStep(jobs[i], now).1;
      Outbox(jobs, now, i + 1) == Outbox(jobs, now, i) + (if sent.Some? then [(jobs[i].key, sent.value)] else [])
    ensures Running(jobs, i + 1) == Running(jobs, i) + (if jobs[i].state != Done then 1 else 0)
  {
  }

  /** The body of the send loop for job `i`: count it if it is running, take its step, queue its packet. */
  method VisitJob(jobs: seq<Job>, now: nat, i: nat, out: seq<Job>, packets: seq<(nat, seq<byte>)>, runningJobs: nat)
    returns (out': seq<Job>, packets': seq<(nat, seq<byte>)>, runningJobs': nat)
    requires AllValid(jobs) && i < |jobs|
    requires out == Advance(jobs, now, i) && packets == Outbox(jobs, now, i) && runningJobs == Running(jobs, i)
    ensures out' == Advance(jobs, now, i + 1) && packets' == Outbox(jobs, now, i + 1) && runningJobs' == Running(jobs, i + 1)
  {
    var job := jobs[i];
    PassStep(jobs, now, i);
    runningJobs' := runningJobs;
    if job.state != Done {
      runningJobs' := runningJobs + 1;
    }
    var step := SendStep(job, now);
    out' := out[i := step.0];
    packets' := packets;
    if step.1.Some? {
      packets' := packets + [(job.key, step.1.value)];
    }
  }

  /** A pass that stops after `v` jobs leaves what SendPass describes. */
  lemma PassEnd(jobs: seq<Job>, now: nat, v: nat)
    requires AllValid(jobs) && StopsAt(jobs, now, v)
    ensures SendPass(jobs, now) == Pass(Advance(jobs, now, v), Outbox(jobs, now, v), Running(jobs, v), v)
  {
    StopsAtUnique(jobs, now, v, SendPass(jobs, now).visited);
  }

  /**
   * The send loop of `a2s_query_all`: every job reached counts towards
   * `runningJobs` if it is not done and takes its step, and the loop breaks
   * once 100 packets have gone out.
   */
  method SendPassLoop(jobs: seq<Job>, now: nat) returns (out: seq<Job>, packets: seq<(nat, seq<byte>)>, runningJobs: nat)
    requires AllValid(jobs)
    ensures out == SendPass(jobs, now).jobs
    ensures packets == SendPass(jobs, now).packets
    ensures runningJobs == SendPass(jobs, now).running
  {
    out := jobs;
    packets := [];
    runningJobs := 0;
    var i := 0;
    while i < |jobs|
      invariant 0 <= i <= |jobs|
      invariant out == Advance(jobs, now, i)
      invariant packets == Outbox(jobs, now, i) && runningJobs == Running(jobs, i)
      invariant forall w :: 0 <= w <= i ==> |Outbox(jobs, now, w)| < MAX_PACKETS_PER_PASS
    {
      out, packets, runningJobs := VisitJob(jobs, now, i, out, packets, runningJobs);
      i := i + 1;
      if |packets| >= MAX_PACKETS_PER_PASS {
        break;
      }
    }
    PassEnd(jobs, now, i);
  }

  /** Each job sends at most one packet, and only a job that is not done sends one. */
  lemma {:induction false} OutboxRunning(jobs: seq<Job>, now: nat, n: nat)
    requires AllValid(jobs) && n <= |jobs|
    ensures |Outbox(jobs, now, n)| <= Running(jobs, n)
  {
    if n > 0 {
      OutboxRunning(jobs, now, n - 1);
    }
  }

  /** A pass never sends more than 100 packets. */
  lemma SendPassBounded(jobs: seq<Job>, now: nat)
    requires AllValid(jobs)
    ensures |SendPass(jobs, now).packets| <= MAX_PACKETS_PER_PASS
  {
    var v := SendPass(jobs, now).visited;
    if v > 0 {
      assert |Outbox(jobs, now, v - 1)| < MAX_PACKETS_PER_PASS;
    }
  }

  /**
   * The polling loop ends when a pass counts no running job, and that
   * happens only when every job is done: a pass cut short by the packet cap
   * had sent a packet, so it saw a running job.
   */
  lemma SendPassExit(jobs: seq<Job>, now: nat)
    requires AllValid(jobs)
    ensures SendPass(jobs, now).running == 0 <==> forall k :: 0 <= k < |jobs| ==> jobs[k].state == Done
  {
    var v := SendPass(jobs, now).visited;
    OutboxRunning(jobs, now, v);
  }

  /** The sum of the measures of the jobs. */
  function Total(jobs: seq<Job>): nat
    requires AllValid(jobs)
  {
    if |jobs| == 0 then 0 else Total(jobs[..|jobs| - 1]) + Measure(jobs[|jobs| - 1])
  }

  /** Sums of pointwise smaller measures are smaller, strictly so if one is. */
  lemma {:induction false} TotalMono(a: seq<Job>, b: seq<Job>)
    requires AllValid(a) && AllValid(b) && |a| == |b|
    requires forall k :: 0 <= k < |a| ==> Measure(b[k]) <= Measure(a[k])
    ensures Total(b) <= Total(a)
    ensures (exists k :: 0 <= k < |a| && Measure(b[k]) < Measure(a[k])) ==> Total(b) < Total(a)
    decreases |a|
  {
    if |a| > 0 {
      var n := |a| - 1;
      TotalMono(a[..n], b[..n]);
      if exists k :: 0 <= k < |a| && Measure(b[k]) < Measure(a[k]) {
        var k :| 0 <= k < |a| && Measure(b[k]) < Measure(a[k]);
        if k < n {
          assert Measure(b[..n][k]) < Measure(a[..n][k]);
        }
      }
    }
  }

  /** A packet among those of the first `n` jobs comes from a job that sends. */
  lemma {:induction false} OutboxSender(jobs: seq<Job>, now: nat, n: nat)
    requires AllValid(jobs) && n <= |jobs|
    requires |Outbox(jobs, now, n)| > 0
    ensures exists k :: 0 <= k < n && Sends(jobs[k])
  {
    if !Sends(jobs[n - 1]) {
      OutboxSender(jobs, now, n - 1);
    }
  }

  /**
   * A send pass keeps every job valid and never adds work; when it sends a
   * packet, the total work left strictly drops.
   */
  lemma SendPassProgress(jobs: seq<Job>, now: nat)
    requires AllValid(jobs) && now < TWO_64
    ensures AllValid(SendPass(jobs, now).jobs)
    ensures Total(SendPass(jobs, now).jobs) <= Total(jobs)
    ensures |SendPass(jobs, now).packets| > 0 ==> Total(SendPass(jobs, now).jobs) < Total(jobs)
  {
    var r := SendPass(jobs, now);
    forall k | 0 <= k < |jobs|
      ensures Valid(r.jobs[k]) && Measure(r.jobs[k]) <= Measure(jobs[k])
    {
      SendStepProgress(jobs[k], now);
    }
    TotalMono(jobs, r.jobs);
    if |r.packets| > 0 {
      OutboxSender(jobs, now, r.visited);
      var k :| 0 <= k < r.visited && Sends(jobs[k]);
      SendStepProgress(jobs[k], now);
    }
  }

  /** Every job waiting for a reply has waited past the timeout at `now`. */
  predicate AllTimedOut(jobs: seq<Job>, now: nat) {
    forall k :: 0 <= k < |jobs| && (jobs[k].state == WaitChallenge || jobs[k].state == WaitPlayers) ==>
      TimedOut(now, jobs[k].lastReq)
  }

  /**
   * A pass at an instant when every waiting job has timed out leaves
   * strictly less work unless every job is done. With passes that far
   * apart, the polling loop therefore ends after at most Total(jobs) of them.
   */
  lemma SendPassTimedOut(jobs: seq<Job>, now: nat)
    requires AllValid(jobs) && now < TWO_64
    requires AllTimedOut(jobs, now)
    ensures AllValid(SendPass(jobs, now).jobs)
    ensures (exists k :: 0 <= k < |jobs| && jobs[k].state != Done) ==> Total(SendPass(jobs, now).jobs) < Total(jobs)
  {
    SendPassProgress(jobs, now);
    var r := SendPass(jobs, now);
    if |r.packets| == 0 && exists k :: 0 <= k < |jobs| && jobs[k].state != Done {
      var k :| 0 <= k < |jobs| && jobs[k].state != Done;
      assert r.visited == |jobs|;
      TimedOutStep(jobs[k], now);
      assert Measure(r.jobs[k]) < Measure(jobs[k]);
      forall i | 0 <= i < |jobs|
        ensures Measure(r.jobs[i]) <= Measure(jobs[i])
      {
        SendStepProgress(jobs[i], now);
      }
      TotalMono(jobs, r.jobs);
    }
  }

  /** A job that is not done and, if waiting, has timed out, moves strictly closer to done in a send step. */
  lemma TimedOutStep(job: Job, now: nat)
    requires Valid(job) && now < TWO_64 && job.state != Done
    requires job.state == WaitChallenge || job.state == WaitPlayers ==> TimedOut(now, job.lastReq)
    ensures Measure(SendStep(job, now).0) < Measure(job)
  {
  }

  // ---------------------------------------------------------------------
  // The receive pass
  // ---------------------------------------------------------------------

  /** Every job is stored under a different key, as in the job map. */
  predicate Keyed(jobs: seq<Job>) {
    forall i, j :: 0 <= i < j < |jobs| ==> jobs[i].key != jobs[j].key
  }

  /** The position of the job stored under `key`. */
  function JobIndex(jobs: seq<Job>, key: nat): (r: Option<nat>)
    ensures r.Some? ==> r.value < |jobs| && jobs[r.value].key == key
    ensures r.None? ==> forall k :: 0 <= k < |jobs| ==> jobs[k].key != key
  {
    if |jobs| == 0 then None
    else if jobs[|jobs| - 1].key == key then Some(|jobs| - 1)
    else JobIndex(jobs[..|jobs| - 1], key)
  }

  /** A datagram from `key` goes to that server's job; one from an unknown address is ignored. */
  function Deliver(jobs: seq<Job>, key: nat, data: seq<byte>): (js: seq<Job>)
    requires Keyed(jobs)
    ensures |js| == |jobs| && Keyed(js)
    ensures forall k :: 0 <= k < |jobs| && jobs[k].key != key ==> js[k] == jobs[k]
    ensures forall k :: 0 <= k < |jobs| && jobs[k].key == key ==> js[k] == RecvStep(jobs[k], data)
  {
    match JobIndex(jobs, key)
    case None => jobs
    case Some(k) => jobs[k := RecvStep(jobs[k], data)]
  }

  /** A datagram as the receive buffer holds it: cut to the buffer size. */
  function Clip(data: seq<byte>): (d: seq<byte>)
    ensures |d| <= RECV_BUFFER && |d| <= |data| && d == data[..|d|]
    ensures |d| == |data| || |d| == RECV_BUFFER
  {
    if |data| > RECV_BUFFER then data[..RECV_BUFFER] else data
  }

  /**
   * The datagrams the receive loop handles, out of those queued at the
   * socket: each cut to the buffer, up to the first empty one, where
   * `recvfrom` returns 0 and the loop ends.
   */
  function Received(queued: seq<(nat, seq<byte>)>): (got: seq<(nat, seq<byte>)>)
    ensures |got| <= |queued|
    ensures forall m :: 0 <= m < |got| ==> |queued[m].1| > 0 && got[m] == (queued[m].0, Clip(queued[m].1))
    ensures |got| < |queued| ==> |queued[|got|].1| == 0
  {
    if |queued| == 0 || |queued[0].1| == 0 then []
    else [(queued[0].0, Clip(queued[0].1))] + Received(queued[1..])
  }

  /** Handing each received datagram, in arrival order, to the job of its sender. */
  function Dispatch(jobs: seq<Job>, inbox: seq<(nat, seq<byte>)>): (js: seq<Job>)
    requires Keyed(jobs)
    ensures |js| == |jobs| && Keyed(js)
    ensures forall k :: 0 <= k < |jobs| ==> js[k].key == jobs[k].key
    decreases |inbox|
  {
    if |inbox| == 0 then jobs
    else
      var js := Dispatch(jobs, inbox[..|inbox| - 1]);
      Deliver(js, inbox[|inbox| - 1].0, inbox[|inbox| - 1].1)
  }

  /** The receive loop over the datagrams queued at the socket. */
  function RecvPass(jobs: seq<Job>, queued: seq<(nat, seq<byte>)>): (js: seq<Job>)
    requires Keyed(jobs)
    ensures |js| == |jobs| && Keyed(js)
    ensures forall k :: 0 <= k < |jobs| ==> js[k].key == jobs[k].key
  {
    Dispatch(jobs, Received(queued))
  }

  /** An empty datagram ends the loop: neither it nor anything queued after it reaches a job. */
  lemma {:induction false} ReceivedStopsAtEmpty(before: seq<(nat, seq<byte>)>, key: nat, after: seq<(nat, seq<byte>)>)
    requires forall m :: 0 <= m < |before| ==> |before[m].1| > 0
    ensures Received(before + [(key, [])] + after) == Received(before)
    decreases |before|
  {
    if |before| > 0 {
      assert (before + [(key, [])] + after)[1..] == before[1..] + [(key, [])] + after;
      ReceivedStopsAtEmpty(before[1..], key, after);
    }
  }

  /** So the jobs after the loop depend only on the datagrams before the first empty one. */
  lemma RecvPassStopsAtEmpty(jobs: seq<Job>, before: seq<(nat, seq<byte>)>, key: nat, after: seq<(nat, seq<byte>)>)
    requires Keyed(jobs)
    requires forall m :: 0 <= m < |before| ==> |before[m].1| > 0
    ensures RecvPass(jobs, before + [(key, [])] + after) == RecvPass(jobs, before)
  {
    ReceivedStopsAtEmpty(before, key, after);
  }

  /** A job whose only datagram is empty is left as it was, even while it waits for a reply. */
  lemma RecvPassEmpty(job: Job)
    ensures RecvPass([job], [(job.key, [])]) == [job]
  {
    assert Received([(job.key, [])]) == [];
  }

  /** A single datagram longer than the buffer is handled as its first 4096 bytes. */
  lemma RecvPassClips(jobs: seq<Job>, key: nat, data: seq<byte>)
    requires Keyed(jobs) && |data| > RECV_BUFFER
    ensures RecvPass(jobs, [(key, data)]) == Deliver(jobs, key, data[..RECV_BUFFER])
  {
    var got := [(key, data[..RECV_BUFFER])];
    assert Received([(key, data)]) == got;
    assert got[..0] == [];
    assert Dispatch(jobs, got) == Deliver(Dispatch(jobs, []), key, data[..RECV_BUFFER]);
  }

  /** Datagrams from addresses no job was made for change nothing. */
  lemma RecvPassUnknown(jobs: seq<Job>, queued: seq<(nat, seq<byte>)>)
    requires Keyed(jobs)
    requires forall m, k :: 0 <= m < |queued| && 0 <= k < |jobs| ==> queued[m].0 != jobs[k].key
    ensures RecvPass(jobs, queued) == jobs
  {
    DispatchUnknown(jobs, Received(queued));
  }

  lemma {:induction false} DispatchUnknown(jobs: seq<Job>, inbox: seq<(nat, seq<byte>)>)
    requires Keyed(jobs)
    requires forall m, k :: 0 <= m < |inbox| && 0 <= k < |jobs| ==> inbox[m].0 != jobs[k].key
    ensures Dispatch(jobs, inbox) == jobs
    decreases |inbox|
  {
    if |inbox| > 0 {
      DispatchUnknown(jobs, inbox[..|inbox| - 1]);
    }
  }

  /** A receive pass keeps every job valid and never adds work. */
  lemma RecvPassProgress(jobs: seq<Job>, queued: seq<(nat, seq<byte>)>)
    requires AllValid(jobs) && Keyed(jobs)
    ensures AllValid(RecvPass(jobs, queued))
    ensures Total(RecvPass(jobs, queued)) <= Total(jobs)
  {
    DispatchProgress(jobs, Received(queued));
  }

  lemma {:induction false} DispatchProgress(jobs: seq<Job>, inbox: seq<(nat, seq<byte>)>)
    requires AllValid(jobs) && Keyed(jobs)
    ensures AllValid(Dispatch(jobs, inbox))
    ensures Total(Dispatch(jobs, inbox)) <= Total(jobs)
    decreases |inbox|
  {
    if |inbox| > 0 {
      var js := Dispatch(jobs, inbox[..|inbox| - 1]);
      DispatchProgress(jobs, inbox[..|inbox| - 1]);
      var (key, data) := inbox[|inbox| - 1];
      var out := Deliver(js, key, data);
      forall k | 0 <= k < |js|
        ensures Valid(out[k]) && Measure(out[k]) <= Measure(js[k])
      {
        RecvStepProgress(js[k], data);
      }
      TotalMono(js, out);
    }
  }
}
