/** The lookup jobs shared by all threads: the ring they wait in, and how the threads
    that take them count a request down and send its second reply. */
module DnsThreads {
  import opened FileBytes
  import opened Replies
  import TcpSearch

  const ARRAYSIZE := 5024000
  const SECOND_WITH_ERROR := 0xbf
  const SECOND_WITHOUT_ERROR := 0xff

  /** A job for the place `count` of the second reply to the request `req`, or one whose
      answer only goes into the cache. */
  datatype Job = TcpJob(req: nat, count: nat, index: int, domain: Name) | UdpJob(domain: Name)

  // ---- the ring ----

  datatype Taken = Nothing | TakenJob(job: Job)

  class JobRing {
    const jobs: array<Job>
    var iput: nat
    var iget: nat

    ghost predicate Valid()
      reads this
    {
      1 < jobs.Length && iput < jobs.Length && iget < jobs.Length
    }

    /** The jobs put in and not taken out yet, oldest first. */
    ghost function Queue(): seq<Job>
      reads this, jobs
      requires Valid()
    {
      if iget <= iput then jobs[iget..iput] else jobs[iget..] + jobs[..iput]
    }

    constructor (size: nat)
      requires 1 < size
      ensures Valid() && jobs.Length == size && fresh(jobs) && Queue() == []
    {
      jobs := new Job[size](_ => UdpJob([]));
      iput, iget := 0, 0;
    }

    /** Puts a job in; a ring that becomes full stops the server. */
    method Put(job: Job) returns (running: bool)
      requires Valid()
      modifies this`iput, jobs
      ensures Valid() && (running <==> |old(Queue())| + 1 < jobs.Length)
      ensures running ==> Queue() == old(Queue()) + [job]
    {
      jobs[iput] := job;
      iput := iput + 1;
      if iput == jobs.Length {
        iput := 0;
      }
      running := iget != iput;
    }

    /** Takes the oldest job out, if there is one. */
    method Take() returns (t: Taken)
      requires Valid()
      modifies this`iget
      ensures Valid()
      ensures t == if old(Queue()) == [] then Nothing else TakenJob(old(Queue())[0])
      ensures Queue() == if old(Queue()) == [] then [] else old(Queue())[1..]
    {
      if iget == iput {
        return Nothing;
      }
      t := TakenJob(jobs[iget]);
      iget := iget + 1;
      if iget == jobs.Length {
        iget := 0;
      }
    }
  }

  // ---- requests and threads ----

  datatype Found = Resolved(ip: Word) | Failed

  datatype Slot = Slot(index: int, ip: Word)

  /** How far the lookup for one place has come. */
  datatype Stage = Unqueued | Queued | Asked | Filled | Counted

  datatype Reply = NoReply | Sent(slots: seq<Slot>, flag: Byte)

  /** `number` and `slots` are the counter and the buffer the threads share; `miss` says
      whether the request has its error flag set.  For the record, `stages` says how far
      each place has come, `marks` whether the thread that took its job had failed before,
      and `late` that a thread saw the counter at zero after the reply had been sent.  At
      that moment the source sends once more and frees the request a second time. */
  datatype Request = Request(misses: seq<Miss>, number: int, slots: seq<Slot>, miss: bool,
                             stages: seq<Stage>, marks: seq<bool>, reply: Reply, late: bool)

  datatype Pc = Waiting | Asking(job: Job) | Answered(job: Job) | Looking(job: Job)

  /** The error mark `missindex` of a thread is never reset. */
  datatype Thread = Thread(pc: Pc, missindex: bool)

  datatype State = State(requests: seq<Request>, queue: seq<Job>, threads: seq<Thread>)

  datatype Step =
    | Accept(misses: seq<Miss>, junk: seq<Slot>)
    | Put(req: nat, count: nat)
    | PutUdp(domain: Name)
    | Take(thread: nat)
    | Answer(thread: nat)
    | CountDown(thread: nat)
    | Look(thread: nat)

  function AddressFor(f: Found): Word {
    if f.Resolved? then f.ip else DNS_ERROR
  }

  function SlotFor(m: Miss, resolver: Name -> Found): Slot {
    Slot(m.index, AddressFor(resolver(m.domain)))
  }

  function WithStage(q: Request, count: nat, st: Stage): Request
    requires count < |q.stages|
  {
    q.(stages := q.stages[count := st])
  }

  /** A request as it arrives. */
  function Fresh(misses: seq<Miss>, junk: seq<Slot>): Request {
    Request(misses, |misses|, junk, false, seq(|misses|, _ => Unqueued), seq(|misses|, _ => false), NoReply, false)
  }

  /** The request after a thread took the job for a place. */
  function TakenBy(q: Request, count: nat, mark: bool): Request
    requires count < |q.stages| && count < |q.marks|
  {
    WithStage(q, count, Asked).(marks := q.marks[count := mark])
  }

  /** The request after a thread saw its counter. */
  function Seen(q: Request): Request {
    if q.number != 0 then q
    else if q.reply.Sent? then q.(late := true)
    else q.(reply := Sent(q.slots, if q.miss then SECOND_WITH_ERROR else SECOND_WITHOUT_ERROR))
  }

  function WithThread(s: State, t: nat, pc: Pc): seq<Thread>
    requires t < |s.threads|
  {
    s.threads[t := s.threads[t].(pc := pc)]
  }

  predicate Sized(q: Request) {
    |q.misses| == |q.stages| == |q.slots| == |q.marks|
  }

  /** The job for a place is the one its request has there. */
  predicate Known(requests: seq<Request>, job: Job) {
    && job.TcpJob? && job.req < |requests|
    && Sized(requests[job.req]) && job.count < |requests[job.req].misses|
    && job.index == requests[job.req].misses[job.count].index && job.domain == requests[job.req].misses[job.count].domain
  }

  /** When the step can be taken. */
  predicate Enabled(s: State, step: Step) {
    match step
    case Accept(misses, junk) => misses != [] && |junk| == |misses|
    case Put(r, j) =>
      && r < |s.requests| && Sized(s.requests[r]) && j < |s.requests[r].stages|
      && s.requests[r].stages[j] == Unqueued && |s.queue| + 1 < ARRAYSIZE
    case PutUdp(_) => |s.queue| + 1 < ARRAYSIZE
    case Take(t) => t < |s.threads| && s.threads[t].pc == Waiting && s.queue != [] && (s.queue[0].TcpJob? ==> Known(s.requests, s.queue[0]))
    case Answer(t) => t < |s.threads| && s.threads[t].pc.Asking? && (s.threads[t].pc.job.TcpJob? ==> Known(s.requests, s.threads[t].pc.job))
    case CountDown(t) => t < |s.threads| && s.threads[t].pc.Answered? && Known(s.requests, s.threads[t].pc.job)
    case Look(t) => t < |s.threads| && s.threads[t].pc.Looking? && Known(s.requests, s.threads[t].pc.job)
  }

  /** One atomic step of a server thread or of a lookup thread.  The test for zero is a
      step of its own, after the lock is released. */
  function After(s: State, step: Step, resolver: Name -> Found): State
    requires Enabled(s, step)
  {
    match step
    case Accept(misses, junk) =>
      s.(requests := s.requests + [Fresh(misses, junk)])
    case Put(r, j) =>
      var m := s.requests[r].misses[j];
      s.(requests := s.requests[r := WithStage(s.requests[r], j, Queued)], queue := s.queue + [TcpJob(r, j, m.index, m.domain)])
    case PutUdp(domain) => s.(queue := s.queue + [UdpJob(domain)])
    case Take(t) =>
      var job := s.queue[0];
      State(if job.TcpJob? then s.requests[job.req := TakenBy(s.requests[job.req], job.count, s.threads[t].missindex)] else s.requests,
            s.queue[1..], WithThread(s, t, Asking(job)))
    case Answer(t) =>
      var job := s.threads[t].pc.job;
      if job.UdpJob? then s.(threads := WithThread(s, t, Waiting))
      else
        var q := s.requests[job.req];
        var found := resolver(job.domain);
        State(s.requests[job.req := WithStage(q, job.count, Filled).(slots := q.slots[job.count := Slot(job.index, AddressFor(found))])],
              s.queue, s.threads[t := Thread(Answered(job), s.threads[t].missindex || found.Failed?)])
    case CountDown(t) =>
      var job := s.threads[t].pc.job;
      var q := s.requests[job.req];
      State(s.requests[job.req := WithStage(q, job.count, Counted).(number := q.number - 1, miss := q.miss || s.threads[t].missindex)],
            s.queue, WithThread(s, t, Looking(job)))
    case Look(t) =>
      var job := s.threads[t].pc.job;
      var q := s.requests[job.req];
      State(s.requests[job.req := Seen(q)], s.queue, WithThread(s, t, Waiting))
  }

  // ---- what every step keeps ----

  /** The lookups of a request that have not been counted down. */
  function Remaining(stages: seq<Stage>): nat {
    if stages == [] then 0
    else Remaining(stages[..|stages| - 1]) + if stages[|stages| - 1] == Counted then 0 else 1
  }

  lemma {:induction false} RemainingAfter(stages: seq<Stage>, j: nat, x: Stage)
    requires j < |stages|
    ensures Remaining(stages[j := x]) - (if x == Counted then 0 else 1) == Remaining(stages) - (if stages[j] == Counted then 0 else 1)
  {
    var n := |stages| - 1;
    if j < n {
      assert stages[j := x][..n] == stages[..n][j := x];
      RemainingAfter(stages[..n], j, x);
    } else {
      assert stages[j := x][..n] == stages[..n];
    }
  }

  lemma {:induction false} NoneRemaining(stages: seq<Stage>)
    requires Remaining(stages) == 0
    ensures forall j {:trigger stages[j]} :: 0 <= j < |stages| ==> stages[j] == Counted
  {
    if stages != [] {
      var n := |stages| - 1;
      NoneRemaining(stages[..n]);
      assert forall j {:trigger stages[j]} :: 0 <= j < n ==> stages[..n][j] == stages[j];
    }
  }

  lemma {:induction false} AllRemain(n: nat)
    ensures Remaining(seq(n, _ => Unqueued)) == n
  {
    if n > 0 {
      AllRemain(n - 1);
      assert seq(n, _ => Unqueued)[..n - 1] == seq(n - 1, _ => Unqueued);
    }
  }

  /** The lookup for a place failed, or its thread had failed before it took the job. */
  predicate Bad(misses: seq<Miss>, marks: seq<bool>, j: int, resolver: Name -> Found)
    requires 0 <= j < |misses| && |marks| == |misses|
  {
    marks[j] || resolver(misses[j].domain).Failed?
  }

  ghost predicate SlotsOk(q: Request, resolver: Name -> Found) {
    && Sized(q)
    && forall j {:trigger q.stages[j]} :: 0 <= j < |q.stages| && (q.stages[j] == Filled || q.stages[j] == Counted) ==>
         q.slots[j] == SlotFor(q.misses[j], resolver)
  }

  /** The error flag is set exactly if a bad place has been counted. */
  ghost predicate FlagOk(q: Request, resolver: Name -> Found)
    requires Sized(q)
  {
    q.miss <==> exists j {:trigger q.stages[j]} :: 0 <= j < |q.stages| && q.stages[j] == Counted && Bad(q.misses, q.marks, j, resolver)
  }

  /** The reply has the place and the answer of every miss, and it is flagged exactly if
      the lookup of some place failed or was done by a thread that had failed before. */
  ghost predicate Complete(misses: seq<Miss>, marks: seq<bool>, slots: seq<Slot>, flag: int, resolver: Name -> Found) {
    && |slots| == |marks| == |misses|
    && (forall j {:trigger slots[j]} :: 0 <= j < |slots| ==> slots[j] == SlotFor(misses[j], resolver))
    && (flag == SECOND_WITH_ERROR <==> exists j {:trigger Bad(misses, marks, j, resolver)} :: 0 <= j < |misses| && Bad(misses, marks, j, resolver))
    && (flag == SECOND_WITH_ERROR || flag == SECOND_WITHOUT_ERROR)
  }

  /** The counter counts the lookups that are left, and a reply that was sent is complete. */
  ghost predicate RequestOk(q: Request, resolver: Name -> Found) {
    && SlotsOk(q, resolver) && FlagOk(q, resolver)
    && q.number == Remaining(q.stages)
    && (q.reply.Sent? ==> q.number == 0 && Complete(q.misses, q.marks, q.reply.slots, q.reply.flag, resolver))
  }

  predicate At(requests: seq<Request>, job: Job, st: Stage) {
    Known(requests, job) && requests[job.req].stages[job.count] == st
  }

  function MarkAt(requests: seq<Request>, job: Job): bool {
    if job.TcpJob? && job.req < |requests| && job.count < |requests[job.req].marks| then requests[job.req].marks[job.count] else false
  }

  predicate SamePlace(a: Job, b: Job) {
    a.TcpJob? && b.TcpJob? && a.req == b.req && a.count == b.count
  }

  ghost predicate RequestsOk(requests: seq<Request>, resolver: Name -> Found) {
    forall r {:trigger requests[r]} :: 0 <= r < |requests| ==> RequestOk(requests[r], resolver)
  }

  /** Every job in the queue is waiting for its first thread, and is there once. */
  ghost predicate QueueOk(requests: seq<Request>, queue: seq<Job>) {
    && (forall i {:trigger queue[i]} :: 0 <= i < |queue| && queue[i].TcpJob? ==> At(requests, queue[i], Queued))
    && (forall i, k {:trigger queue[i], queue[k]} :: 0 <= i < k < |queue| ==> !SamePlace(queue[i], queue[k]))
  }

  /** The stage in which the job of a thread is. */
  function StageOf(pc: Pc): Stage {
    match pc
    case Waiting => Unqueued
    case Asking(_) => Asked
    case Answered(_) => Filled
    case Looking(_) => Counted
  }

  ghost predicate ThreadOk(requests: seq<Request>, t: Thread, resolver: Name -> Found) {
    t.pc != Waiting ==>
      && (t.pc.job.UdpJob? ==> t.pc.Asking?)
      && (t.pc.job.TcpJob? ==> At(requests, t.pc.job, StageOf(t.pc)))
      && (t.pc.Asking? && t.pc.job.TcpJob? ==> t.missindex == MarkAt(requests, t.pc.job))
      && (t.pc.Answered? ==> t.missindex == (MarkAt(requests, t.pc.job) || resolver(t.pc.job.domain).Failed?))
  }

  /** Two threads never work on the same place. */
  ghost predicate Apart(a: Thread, b: Thread) {
    (a.pc.Asking? || a.pc.Answered?) && (b.pc.Asking? || b.pc.Answered?) ==> !SamePlace(a.pc.job, b.pc.job)
  }

  ghost predicate ThreadsOk(requests: seq<Request>, threads: seq<Thread>, resolver: Name -> Found) {
    && (forall t {:trigger threads[t]} :: 0 <= t < |threads| ==> ThreadOk(requests, threads[t], resolver))
    && (forall t, u {:trigger threads[t], threads[u]} :: 0 <= t < u < |threads| ==> Apart(threads[t], threads[u]))
  }

  ghost predicate Inv(s: State, resolver: Name -> Found) {
    RequestsOk(s.requests, resolver) && QueueOk(s.requests, s.queue) && ThreadsOk(s.requests, s.threads, resolver)
  }

  /** `q'` is `q` with another stage, and maybe other contents, for one place. */
  predicate Updated(q: Request, j: nat, st: Stage, q': Request) {
    && q'.misses == q.misses && |q'.slots| == |q.slots|
    && j < |q.stages| == |q.marks| == |q'.marks| && q'.stages == q.stages[j := st]
    && q'.marks == q.marks[j := q'.marks[j]]
  }

  lemma AtKept(requests: seq<Request>, r: nat, j: nat, st: Stage, q': Request, job: Job, x: Stage)
    requires r < |requests| && Updated(requests[r], j, st, q') && At(requests, job, x)
    requires x != requests[r].stages[j] || !(job.req == r && job.count == j)
    ensures At(requests[r := q'], job, x) && MarkAt(requests[r := q'], job) == MarkAt(requests, job)
  {
  }

  lemma RequestsKept(requests: seq<Request>, r: nat, q': Request, resolver: Name -> Found)
    requires RequestsOk(requests, resolver) && r < |requests| && RequestOk(q', resolver)
    ensures RequestsOk(requests[r := q'], resolver)
  {
    hide RequestOk;
  }

  /** Jobs in the queue are not touched by a step of a thread on its own job. */
  lemma QueueKept(requests: seq<Request>, queue: seq<Job>, r: nat, j: nat, st: Stage, q': Request)
    requires QueueOk(requests, queue) && r < |requests| && Updated(requests[r], j, st, q')
    requires forall i {:trigger queue[i]} :: 0 <= i < |queue| && queue[i].TcpJob? ==>
      requests[r].stages[j] != Queued || !(queue[i].req == r && queue[i].count == j)
    ensures QueueOk(requests[r := q'], queue)
  {
    hide At, Updated, SamePlace;
    forall i {:trigger queue[i]} | 0 <= i < |queue| && queue[i].TcpJob?
      ensures At(requests[r := q'], queue[i], Queued)
    {
      AtKept(requests, r, j, st, q', queue[i], Queued);
    }
  }

  /** The other threads are not touched either. */
  lemma ThreadsKept(requests: seq<Request>, threads: seq<Thread>, t: nat, r: nat, j: nat, st: Stage, q': Request, after: Thread, resolver: Name -> Found)
    requires ThreadsOk(requests, threads, resolver) && r < |requests| && Updated(requests[r], j, st, q') && t < |threads|
    requires forall u {:trigger threads[u]} :: 0 <= u < |threads| && u != t && threads[u].pc != Waiting && threads[u].pc.job.TcpJob? ==>
      requests[r].stages[j] != StageOf(threads[u].pc) || !(threads[u].pc.job.req == r && threads[u].pc.job.count == j)
    requires ThreadOk(requests[r := q'], after, resolver)
    requires forall u {:trigger threads[u]} :: 0 <= u < |threads| && u != t ==> Apart(threads[u], after) && Apart(after, threads[u])
    ensures ThreadsOk(requests[r := q'], threads[t := after], resolver)
  {
    hide At, Updated, Apart, StageOf;
    forall u {:trigger threads[u]} | 0 <= u < |threads| && u != t
      ensures ThreadOk(requests[r := q'], threads[u], resolver)
    {
      if threads[u].pc != Waiting && threads[u].pc.job.TcpJob? {
        AtKept(requests, r, j, st, q', threads[u].pc.job, StageOf(threads[u].pc));
      }
    }
    hide ThreadOk;
    var threads' := threads[t := after];
    assert forall u {:trigger threads'[u]} :: 0 <= u < |threads'| ==> threads'[u] == if u == t then after else threads[u];
  }

  /** A job whose place is in another stage than the job of a thread is another job. */
  lemma OtherJob(requests: seq<Request>, threads: seq<Thread>, u: nat, job: Job, resolver: Name -> Found)
    requires ThreadsOk(requests, threads, resolver) && u < |threads| && threads[u].pc != Waiting && threads[u].pc.job.TcpJob?
    requires Known(requests, job) && requests[job.req].stages[job.count] != StageOf(threads[u].pc)
    ensures !SamePlace(threads[u].pc.job, job) && !SamePlace(job, threads[u].pc.job)
  {
    assert ThreadOk(requests, threads[u], resolver);
  }

  /** Stages that do not count leave the flag as it should be. */
  lemma FlagKept(q: Request, q': Request, j: nat, resolver: Name -> Found)
    requires Sized(q) && Sized(q') && FlagOk(q, resolver) && q'.misses == q.misses && q'.miss == q.miss
    requires j < |q.stages| && q.stages[j] != Counted && q'.stages[j] != Counted
    requires q'.stages == q.stages[j := q'.stages[j]] && q'.marks == q.marks[j := q'.marks[j]]
    ensures FlagOk(q', resolver)
  {
    forall i {:trigger q'.stages[i]} | 0 <= i < |q.stages| && i != j
      ensures q'.stages[i] == q.stages[i] && q'.marks[i] == q.marks[i]
    {
    }
    if q.miss {
      var i :| 0 <= i < |q.stages| && q.stages[i] == Counted && Bad(q.misses, q.marks, i, resolver);
      assert q'.stages[i] == Counted && Bad(q'.misses, q'.marks, i, resolver);
    }
    forall i {:trigger q'.stages[i]} | 0 <= i < |q'.stages| && q'.stages[i] == Counted && Bad(q'.misses, q'.marks, i, resolver)
      ensures q.miss
    {
      assert q.stages[i] == Counted;
    }
  }

  lemma WithStageOk(q: Request, j: nat, resolver: Name -> Found)
    requires RequestOk(q, resolver) && j < |q.stages| && q.stages[j] == Unqueued
    ensures RequestOk(WithStage(q, j, Queued), resolver) && Updated(q, j, Queued, WithStage(q, j, Queued))
  {
    RemainingAfter(q.stages, j, Queued);
    NotSent(q, j, resolver);
    FlagKept(q, WithStage(q, j, Queued), j, resolver);
    hide Remaining, Complete, FlagOk;
  }

  lemma TakenOk(q: Request, j: nat, mark: bool, resolver: Name -> Found)
    requires RequestOk(q, resolver) && j < |q.stages| && j < |q.marks| && q.stages[j] == Queued
    ensures RequestOk(TakenBy(q, j, mark), resolver) && Updated(q, j, Asked, TakenBy(q, j, mark))
  {
    RemainingAfter(q.stages, j, Asked);
    NotSent(q, j, resolver);
    FlagKept(q, TakenBy(q, j, mark), j, resolver);
    hide Remaining, Complete, FlagOk;
  }

  /** A reply is not sent while a place has not been counted. */
  lemma NotSent(q: Request, j: nat, resolver: Name -> Found)
    requires RequestOk(q, resolver) && j < |q.stages| && q.stages[j] != Counted
    ensures q.reply.NoReply? && q.number != 0
  {
    hide SlotsOk, FlagOk, Complete;
    if Remaining(q.stages) == 0 {
      NoneRemaining(q.stages);
    }
  }

  lemma WaitingOk(requests: seq<Request>, threads: seq<Thread>, t: nat, resolver: Name -> Found)
    requires ThreadsOk(requests, threads, resolver) && t < |threads|
    ensures ThreadsOk(requests, threads[t := threads[t].(pc := Waiting)], resolver)
  {
    hide At;
    var threads' := threads[t := threads[t].(pc := Waiting)];
    assert forall u {:trigger threads'[u]} :: 0 <= u < |threads'| ==> threads'[u] == if u == t then threads[t].(pc := Waiting) else threads[u];
  }

  lemma TakeTcpKeeps(s: State, t: nat, resolver: Name -> Found)
    requires Inv(s, resolver) && Enabled(s, Take(t)) && s.queue[0].TcpJob?
    ensures Inv(After(s, Take(t), resolver), resolver)
  {
    hide RequestsOk, RequestOk, Known;
    var job := s.queue[0];
    AtIs(s.requests, job, Queued);
    RequestAt(s.requests, job, resolver);
    var q := s.requests[job.req];
    var mark := s.threads[t].missindex;
    var q' := TakenBy(q, job.count, mark);
    TakenOk(q, job.count, mark, resolver);
    RequestsKept(s.requests, job.req, q', resolver);
    QueueTail(s.requests, s.queue);
    var after := Thread(Asking(job), mark);
    NowAt(s.requests, job, Asked, q');
    hide QueueOk, At, Updated, ThreadsOk, SamePlace, TakenBy, MarkAt;
    QueueKept(s.requests, s.queue[1..], job.req, job.count, Asked, q');
    TakerApart(s.requests, s.threads, job, resolver);
    ThreadsKept(s.requests, s.threads, t, job.req, job.count, Asked, q', after, resolver);
  }

  lemma RequestAt(requests: seq<Request>, job: Job, resolver: Name -> Found)
    requires RequestsOk(requests, resolver) && Known(requests, job)
    ensures job.TcpJob? && job.req < |requests| && RequestOk(requests[job.req], resolver)
  {
    hide RequestOk;
  }

  lemma AtIs(requests: seq<Request>, job: Job, st: Stage)
    requires At(requests, job, st)
    ensures Known(requests, job) && job.TcpJob? && job.req < |requests| && Sized(requests[job.req]) && job.count < |requests[job.req].stages| && requests[job.req].stages[job.count] == st
  {
  }

  lemma NowAt(requests: seq<Request>, job: Job, st: Stage, q': Request)
    requires Known(requests, job) && Updated(requests[job.req], job.count, st, q')
    ensures At(requests[job.req := q'], job, st) && MarkAt(requests[job.req := q'], job) == q'.marks[job.count]
  {
  }

  lemma QueueTail(requests: seq<Request>, queue: seq<Job>)
    requires QueueOk(requests, queue) && queue != []
    ensures QueueOk(requests, queue[1..])
    ensures forall i {:trigger queue[1..][i]} :: 0 <= i < |queue| - 1 ==> !SamePlace(queue[0], queue[1..][i])
  {
    hide At, SamePlace;
    var rest := queue[1..];
    assert forall i {:trigger rest[i]} :: 0 <= i < |rest| ==> rest[i] == queue[i + 1];
  }

  /** No thread has a job that is still in the queue. */
  lemma TakerApart(requests: seq<Request>, threads: seq<Thread>, job: Job, resolver: Name -> Found)
    requires ThreadsOk(requests, threads, resolver) && At(requests, job, Queued)
    ensures forall u {:trigger threads[u]} :: 0 <= u < |threads| && threads[u].pc != Waiting ==>
      !SamePlace(threads[u].pc.job, job) && !SamePlace(job, threads[u].pc.job) && StageOf(threads[u].pc) != Queued
  {
    hide ThreadsOk;
    forall u {:trigger threads[u]} | 0 <= u < |threads| && threads[u].pc != Waiting
      ensures !SamePlace(threads[u].pc.job, job) && !SamePlace(job, threads[u].pc.job)
    {
      if threads[u].pc.job.TcpJob? {
        OtherJob(requests, threads, u, job, resolver);
      }
    }
  }

  lemma TakeKeeps(s: State, t: nat, resolver: Name -> Found)
    requires Inv(s, resolver) && Enabled(s, Take(t))
    ensures Inv(After(s, Take(t), resolver), resolver)
  {
    if s.queue[0].TcpJob? {
      TakeTcpKeeps(s, t, resolver);
    } else {
      hide RequestsOk, At;
      QueueTail(s.requests, s.queue);
      hide QueueOk;
      var after := Thread(Asking(s.queue[0]), s.threads[t].missindex);
      var threads' := s.threads[t := after];
      assert forall u {:trigger threads'[u]} :: 0 <= u < |threads'| ==> threads'[u] == if u == t then after else s.threads[u];
    }
  }

  lemma AcceptKeeps(s: State, misses: seq<Miss>, junk: seq<Slot>, resolver: Name -> Found)
    requires Inv(s, resolver) && Enabled(s, Accept(misses, junk))
    ensures Inv(After(s, Accept(misses, junk), resolver), resolver)
  {
    var q := Fresh(misses, junk);
    AllRemain(|misses|);
    FreshOk(misses, junk, resolver);
    hide RequestOk, Remaining;
    var requests' := s.requests + [q];
    assert forall r {:trigger requests'[r]} :: 0 <= r < |requests'| ==> requests'[r] == if r < |s.requests| then s.requests[r] else q;
    forall job: Job, st: Stage {:trigger At(requests', job, st)} | At(s.requests, job, st)
      ensures At(requests', job, st) && MarkAt(requests', job) == MarkAt(s.requests, job)
    {
    }
  }

  lemma FreshOk(misses: seq<Miss>, junk: seq<Slot>, resolver: Name -> Found)
    requires |junk| == |misses|
    ensures RequestOk(Fresh(misses, junk), resolver)
  {
    AllRemain(|misses|);
    hide Remaining, Complete;
  }

  /** A place that no job was made for is in no queue and with no thread. */
  lemma PutKeeps(s: State, r: nat, j: nat, resolver: Name -> Found)
    requires Inv(s, resolver) && Enabled(s, Put(r, j))
    ensures Inv(After(s, Put(r, j), resolver), resolver)
  {
    hide RequestsOk, RequestOk, ThreadsOk;
    var q := s.requests[r];
    assert RequestOk(q, resolver) by { RequestIn(s.requests, r, resolver); }
    SizesOk(q, resolver);
    var job := TcpJob(r, j, q.misses[j].index, q.misses[j].domain);
    var q' := WithStage(q, j, Queued);
    WithStageOk(q, j, resolver);
    RequestsKept(s.requests, r, q', resolver);
    NowAt(s.requests, job, Queued, q');
    assert Known(s.requests, job);
    QueueApart(s.requests, s.queue, job);
    hide Updated, SamePlace, WithStage, Known;
    QueueKept(s.requests, s.queue, r, j, Queued, q');
    QueueMore(s.requests[r := q'], s.queue, job);
    ThreadsStay(s.requests, s.threads, r, j, Queued, q', resolver);
  }

  lemma RequestIn(requests: seq<Request>, r: nat, resolver: Name -> Found)
    requires RequestsOk(requests, resolver) && r < |requests|
    ensures RequestOk(requests[r], resolver)
  {
    hide RequestOk;
  }

  lemma SizesOk(q: Request, resolver: Name -> Found)
    requires RequestOk(q, resolver)
    ensures Sized(q)
  {
  }

  lemma QueueApart(requests: seq<Request>, queue: seq<Job>, job: Job)
    requires QueueOk(requests, queue) && Known(requests, job) && requests[job.req].stages[job.count] != Queued
    ensures forall i {:trigger queue[i]} :: 0 <= i < |queue| ==> !SamePlace(queue[i], job)
  {
  }

  lemma QueueMore(requests: seq<Request>, queue: seq<Job>, job: Job)
    requires QueueOk(requests, queue) && (job.TcpJob? ==> At(requests, job, Queued))
    requires forall i {:trigger queue[i]} :: 0 <= i < |queue| ==> !SamePlace(queue[i], job)
    ensures QueueOk(requests, queue + [job])
  {
    hide At, SamePlace;
  }

  /** A place that no thread has may change. */
  lemma ThreadsStay(requests: seq<Request>, threads: seq<Thread>, r: nat, j: nat, st: Stage, q': Request, resolver: Name -> Found)
    requires ThreadsOk(requests, threads, resolver) && r < |requests| && Updated(requests[r], j, st, q')
    requires requests[r].stages[j] == Unqueued
    ensures ThreadsOk(requests[r := q'], threads, resolver)
  {
    hide At, Updated, Apart;
    forall u {:trigger threads[u]} | 0 <= u < |threads|
      ensures ThreadOk(requests[r := q'], threads[u], resolver)
    {
      assert ThreadOk(requests, threads[u], resolver);
      if threads[u].pc != Waiting && threads[u].pc.job.TcpJob? {
        AtKept(requests, r, j, st, q', threads[u].pc.job, StageOf(threads[u].pc));
      }
    }
  }

  /** The thread that works on a job is the only one. */
  lemma WorkerApart(requests: seq<Request>, threads: seq<Thread>, t: nat, resolver: Name -> Found)
    requires ThreadsOk(requests, threads, resolver) && t < |threads|
    requires (threads[t].pc.Asking? || threads[t].pc.Answered?) && threads[t].pc.job.TcpJob?
    ensures forall u {:trigger threads[u]} :: 0 <= u < |threads| && u != t && threads[u].pc != Waiting && threads[u].pc.job.TcpJob? ==>
      !(StageOf(threads[u].pc) == StageOf(threads[t].pc) && SamePlace(threads[u].pc.job, threads[t].pc.job))
    ensures forall u {:trigger threads[u]} :: 0 <= u < |threads| && u != t && (threads[u].pc.Asking? || threads[u].pc.Answered?) ==>
      !SamePlace(threads[u].pc.job, threads[t].pc.job) && !SamePlace(threads[t].pc.job, threads[u].pc.job)
    ensures At(requests, threads[t].pc.job, StageOf(threads[t].pc)) && ThreadOk(requests, threads[t], resolver)
  {
    hide At;
    assert ThreadOk(requests, threads[t], resolver);
    hide ThreadOk;
    forall u {:trigger threads[u]} | 0 <= u < |threads| && u != t
      ensures Apart(threads[u], threads[t])
    {
      assert if u < t then Apart(threads[u], threads[t]) else Apart(threads[t], threads[u]);
    }
  }

  lemma FilledOk(q: Request, j: nat, slot: Slot, resolver: Name -> Found)
    requires RequestOk(q, resolver) && j < |q.stages| && q.stages[j] == Asked && j < |q.slots| && j < |q.misses| && slot == SlotFor(q.misses[j], resolver)
    ensures RequestOk(WithStage(q, j, Filled).(slots := q.slots[j := slot]), resolver)
    ensures Updated(q, j, Filled, WithStage(q, j, Filled).(slots := q.slots[j := slot]))
  {
    var q' := WithStage(q, j, Filled).(slots := q.slots[j := slot]);
    RemainingAfter(q.stages, j, Filled);
    NotSent(q, j, resolver);
    FlagKept(q, q', j, resolver);
    hide Remaining, Complete, FlagOk;
  }

  lemma CountedOk(q: Request, j: nat, bad: bool, resolver: Name -> Found)
    requires RequestOk(q, resolver) && j < |q.stages| && q.stages[j] == Filled && j < |q.misses| == |q.marks|
    requires bad == Bad(q.misses, q.marks, j, resolver)
    ensures RequestOk(WithStage(q, j, Counted).(number := q.number - 1, miss := q.miss || bad), resolver)
    ensures Updated(q, j, Counted, WithStage(q, j, Counted).(number := q.number - 1, miss := q.miss || bad))
  {
    var q' := WithStage(q, j, Counted).(number := q.number - 1, miss := q.miss || bad);
    RemainingAfter(q.stages, j, Counted);
    NotSent(q, j, resolver);
    FlagCounted(q, q', j, resolver);
    hide Remaining, Complete, FlagOk;
  }

  /** Counting a place sets the flag if the place is bad. */
  lemma FlagCounted(q: Request, q': Request, j: nat, resolver: Name -> Found)
    requires Sized(q) && Sized(q') && FlagOk(q, resolver) && q'.misses == q.misses && q'.marks == q.marks
    requires j < |q.stages| && q'.stages == q.stages[j := Counted] && q.stages[j] != Counted
    requires q'.miss == (q.miss || Bad(q.misses, q.marks, j, resolver))
    ensures FlagOk(q', resolver)
  {
    if q.miss {
      var i :| 0 <= i < |q.stages| && q.stages[i] == Counted && Bad(q.misses, q.marks, i, resolver);
      assert q'.stages[i] == Counted;
    }
    if Bad(q.misses, q.marks, j, resolver) {
      assert q'.stages[j] == Counted;
    }
    forall i {:trigger q'.stages[i]} | 0 <= i < |q'.stages| && q'.stages[i] == Counted && Bad(q'.misses, q'.marks, i, resolver)
      ensures q'.miss
    {
      assert i != j ==> q.stages[i] == Counted;
    }
  }

  /** The common part of the two steps of a thread on the job it works on. */
  lemma WorkKeeps(s: State, t: nat, st: Stage, q': Request, after: Thread, resolver: Name -> Found)
    requires Inv(s, resolver) && t < |s.threads| && (s.threads[t].pc.Asking? || s.threads[t].pc.Answered?) && s.threads[t].pc.job.TcpJob?
    requires var job := s.threads[t].pc.job; job.req < |s.requests| && Updated(s.requests[job.req], job.count, st, q') && RequestOk(q', resolver)
    requires after.pc != Waiting && after.pc.job == s.threads[t].pc.job && StageOf(after.pc) == st && !after.pc.Asking?
    requires var job := s.threads[t].pc.job; job.count < |q'.marks| && q'.marks[job.count] == MarkAt(s.requests, job)
    requires after.pc.Answered? ==> after.missindex == (MarkAt(s.requests, after.pc.job) || resolver(after.pc.job.domain).Failed?)
    ensures Inv(State(s.requests[s.threads[t].pc.job.req := q'], s.queue, s.threads[t := after]), resolver)
  {
    hide RequestsOk, RequestOk, QueueOk, ThreadsOk, Updated;
    var job := s.threads[t].pc.job;
    WorkerApart(s.requests, s.threads, t, resolver);
    AtIs(s.requests, job, StageOf(s.threads[t].pc));
    RequestsKept(s.requests, job.req, q', resolver);
    NowAt(s.requests, job, st, q');
    hide Known, At, SamePlace;
    WorkQueue(s.requests, s.queue, job);
    QueueKept(s.requests, s.queue, job.req, job.count, st, q');
    OthersApart(s.threads, t, after);
    OthersStay(s.requests, s.threads, t, job);
    ThreadsKept(s.requests, s.threads, t, job.req, job.count, st, q', after, resolver);
  }

  lemma WorkQueue(requests: seq<Request>, queue: seq<Job>, job: Job)
    requires QueueOk(requests, queue) && Known(requests, job) && requests[job.req].stages[job.count] != Queued
    ensures forall i {:trigger queue[i]} :: 0 <= i < |queue| && queue[i].TcpJob? ==> !(queue[i].req == job.req && queue[i].count == job.count)
  {
  }

  lemma OthersApart(threads: seq<Thread>, t: nat, after: Thread)
    requires t < |threads| && threads[t].pc != Waiting && after.pc != Waiting && after.pc.job == threads[t].pc.job
    requires forall u {:trigger threads[u]} :: 0 <= u < |threads| && u != t && (threads[u].pc.Asking? || threads[u].pc.Answered?) ==>
      !SamePlace(threads[u].pc.job, threads[t].pc.job) && !SamePlace(threads[t].pc.job, threads[u].pc.job)
    ensures forall u {:trigger threads[u]} :: 0 <= u < |threads| && u != t ==> Apart(threads[u], after) && Apart(after, threads[u])
  {
  }

  lemma OthersStay(requests: seq<Request>, threads: seq<Thread>, t: nat, job: Job)
    requires t < |threads| && job.TcpJob? && threads[t].pc != Waiting && job == threads[t].pc.job && At(requests, job, StageOf(threads[t].pc))
    requires forall u {:trigger threads[u]} :: 0 <= u < |threads| && u != t && threads[u].pc != Waiting && threads[u].pc.job.TcpJob? ==>
      !(StageOf(threads[u].pc) == StageOf(threads[t].pc) && SamePlace(threads[u].pc.job, threads[t].pc.job))
    ensures forall u {:trigger threads[u]} :: 0 <= u < |threads| && u != t && threads[u].pc != Waiting && threads[u].pc.job.TcpJob? ==>
      requests[job.req].stages[job.count] != StageOf(threads[u].pc) || !(threads[u].pc.job.req == job.req && threads[u].pc.job.count == job.count)
  {
  }

  lemma JobAt(requests: seq<Request>, threads: seq<Thread>, t: nat, resolver: Name -> Found)
    requires ThreadsOk(requests, threads, resolver) && t < |threads| && threads[t].pc != Waiting && threads[t].pc.job.TcpJob?
    ensures At(requests, threads[t].pc.job, StageOf(threads[t].pc))
    ensures threads[t].pc.Asking? ==> threads[t].missindex == MarkAt(requests, threads[t].pc.job)
    ensures threads[t].pc.Answered? ==> threads[t].missindex == (MarkAt(requests, threads[t].pc.job) || resolver(threads[t].pc.job.domain).Failed?)
  {
    assert ThreadOk(requests, threads[t], resolver);
  }

  lemma AnswerKeeps(s: State, t: nat, resolver: Name -> Found)
    requires Inv(s, resolver) && Enabled(s, Answer(t))
    ensures Inv(After(s, Answer(t), resolver), resolver)
  {
    hide RequestsOk, RequestOk, QueueOk, ThreadsOk, Updated;
    var job := s.threads[t].pc.job;
    if job.UdpJob? {
      WaitingOk(s.requests, s.threads, t, resolver);
    } else {
      JobAt(s.requests, s.threads, t, resolver);
      RequestAt(s.requests, job, resolver);
      var q, found := s.requests[job.req], resolver(job.domain);
      var slot := Slot(job.index, AddressFor(found));
      FilledOk(q, job.count, slot, resolver);
      WorkKeeps(s, t, Filled, WithStage(q, job.count, Filled).(slots := q.slots[job.count := slot]),
                Thread(Answered(job), s.threads[t].missindex || found.Failed?), resolver);
    }
  }

  lemma CountDownKeeps(s: State, t: nat, resolver: Name -> Found)
    requires Inv(s, resolver) && Enabled(s, CountDown(t))
    ensures Inv(After(s, CountDown(t), resolver), resolver)
  {
    hide RequestsOk, RequestOk, QueueOk, ThreadsOk, Updated;
    var job := s.threads[t].pc.job;
    JobAt(s.requests, s.threads, t, resolver);
    RequestAt(s.requests, job, resolver);
    var q := s.requests[job.req];
    CountedOk(q, job.count, s.threads[t].missindex, resolver);
    WorkKeeps(s, t, Counted, WithStage(q, job.count, Counted).(number := q.number - 1, miss := q.miss || s.threads[t].missindex),
              s.threads[t].(pc := Looking(job)), resolver);
  }

  /** When the counter is zero the whole buffer is filled in and the flag is final. */
  lemma ZeroIsComplete(q: Request, resolver: Name -> Found)
    requires RequestOk(q, resolver) && q.number == 0
    ensures Complete(q.misses, q.marks, q.slots, if q.miss then SECOND_WITH_ERROR else SECOND_WITHOUT_ERROR, resolver)
  {
    hide Remaining, Bad;
    NoneRemaining(q.stages);
    FinalFlag(q, resolver);
    hide FlagOk;
    forall j {:trigger q.slots[j]} | 0 <= j < |q.slots|
      ensures q.slots[j] == SlotFor(q.misses[j], resolver)
    {
      assert q.stages[j] == Counted;
    }
  }

  lemma FinalFlag(q: Request, resolver: Name -> Found)
    requires Sized(q) && FlagOk(q, resolver) && forall j {:trigger q.stages[j]} :: 0 <= j < |q.stages| ==> q.stages[j] == Counted
    ensures q.miss <==> exists j {:trigger Bad(q.misses, q.marks, j, resolver)} :: 0 <= j < |q.misses| && Bad(q.misses, q.marks, j, resolver)
  {
    forall j {:trigger Bad(q.misses, q.marks, j, resolver)} | 0 <= j < |q.misses| && Bad(q.misses, q.marks, j, resolver)
      ensures q.miss
    {
      assert q.stages[j] == Counted;
    }
    if q.miss {
      var i :| 0 <= i < |q.stages| && q.stages[i] == Counted && Bad(q.misses, q.marks, i, resolver);
    }
  }

  lemma SeenOk(q: Request, resolver: Name -> Found)
    requires RequestOk(q, resolver)
    ensures RequestOk(Seen(q), resolver)
  {
    if q.number == 0 {
      ZeroIsComplete(q, resolver);
    }
    hide Remaining, Complete, Bad;
  }

  /** Seeing the counter does not change the stage of any place. */
  lemma SeenStays(requests: seq<Request>, r: nat, queue: seq<Job>, threads: seq<Thread>, resolver: Name -> Found)
    requires r < |requests| && QueueOk(requests, queue) && ThreadsOk(requests, threads, resolver)
    ensures QueueOk(requests[r := Seen(requests[r])], queue)
    ensures ThreadsOk(requests[r := Seen(requests[r])], threads, resolver)
  {
    var requests' := requests[r := Seen(requests[r])];
    forall job: Job, st: Stage {:trigger At(requests', job, st)} | At(requests, job, st)
      ensures At(requests', job, st) && MarkAt(requests', job) == MarkAt(requests, job)
    {
    }
    forall job: Job {:trigger MarkAt(requests', job)}
      ensures MarkAt(requests', job) == MarkAt(requests, job)
    {
    }
    hide At, Known, Apart, MarkAt;
  }

  lemma LookKeeps(s: State, t: nat, resolver: Name -> Found)
    requires Inv(s, resolver) && Enabled(s, Look(t))
    ensures Inv(After(s, Look(t), resolver), resolver)
  {
    hide RequestsOk, RequestOk, QueueOk, ThreadsOk, Seen;
    var job := s.threads[t].pc.job;
    RequestAt(s.requests, job, resolver);
    WaitingOk(s.requests, s.threads, t, resolver);
    SeenOk(s.requests[job.req], resolver);
    RequestsKept(s.requests, job.req, Seen(s.requests[job.req]), resolver);
    SeenStays(s.requests, job.req, s.queue, s.threads[t := s.threads[t].(pc := Waiting)], resolver);
  }

  lemma PutUdpKeeps(s: State, domain: Name, resolver: Name -> Found)
    requires Inv(s, resolver) && Enabled(s, PutUdp(domain))
    ensures Inv(After(s, PutUdp(domain), resolver), resolver)
  {
    hide RequestsOk, QueueOk, ThreadsOk;
    QueueMore(s.requests, s.queue, UdpJob(domain));
  }

  lemma StepKeeps(s: State, step: Step, resolver: Name -> Found)
    requires Inv(s, resolver) && Enabled(s, step)
    ensures Inv(After(s, step, resolver), resolver)
  {
    hide Inv, Enabled, After;
    match step
    case Accept(misses, junk) => AcceptKeeps(s, misses, junk, resolver);
    case Put(r, j) => PutKeeps(s, r, j, resolver);
    case PutUdp(domain) => PutUdpKeeps(s, domain, resolver);
    case Take(t) => TakeKeeps(s, t, resolver);
    case Answer(t) => AnswerKeeps(s, t, resolver);
    case CountDown(t) => CountDownKeeps(s, t, resolver);
    case Look(t) => LookKeeps(s, t, resolver);
  }
}
