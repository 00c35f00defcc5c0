/** Whole runs of the lookup threads: what a second reply says, that it is sent, and when
    a thread comes too late. */
module DnsRuns {
  import opened FileBytes
  import opened Replies
  import opened DnsThreads

  /** No request yet, an empty ring and waiting threads without an error mark. */
  predicate Initial(s: State) {
    s.requests == [] && s.queue == [] && forall t {:trigger s.threads[t]} :: 0 <= t < |s.threads| ==> s.threads[t] == Thread(Waiting, false)
  }

  /** The steps can be taken one after the other and lead from `s` to `s'`. */
  predicate Leads(s: State, steps: seq<Step>, s': State, resolver: Name -> Found)
    decreases |steps|
  {
    if steps == [] then s == s'
    else Enabled(s, steps[0]) && Leads(After(s, steps[0], resolver), steps[1..], s', resolver)
  }

  lemma {:induction false} RunKeeps(s: State, steps: seq<Step>, s': State, resolver: Name -> Found)
    requires Inv(s, resolver) && Leads(s, steps, s', resolver)
    ensures Inv(s', resolver)
    decreases |steps|
  {
    hide Inv, Enabled, After;
    if steps != [] {
      StepKeeps(s, steps[0], resolver);
      RunKeeps(After(s, steps[0], resolver), steps[1..], s', resolver);
    }
  }

  lemma InitialOk(s: State, resolver: Name -> Found)
    requires Initial(s)
    ensures Inv(s, resolver)
  {
  }

  /** No thread has seen the counter of a request at zero after its reply had been sent. */
  predicate InTime(s: State) {
    forall r {:trigger s.requests[r]} :: 0 <= r < |s.requests| ==> !s.requests[r].late
  }

  /** `w` is what a second reply says of the lookup `f`: the address the resolver found, or
      the bytes 127, 0, 0, 1. */
  predicate Tells(w: Word, f: Found) {
    match f
    case Resolved(ip) => w == ip
    case Failed => WordBytes(w) == [127, 0, 0, 1]
  }

  /** In every run in which no thread came too late, with any number of threads and
      whatever the order of their steps, a second reply that is sent has every place of
      the request filled with its own index and address, and it is flagged if and only if
      a lookup failed or was done by a thread that had failed before it took the job. */
  lemma RepliesAreComplete(s: State, steps: seq<Step>, s': State, resolver: Name -> Found, r: nat)
    requires Initial(s) && Leads(s, steps, s', resolver) && InTime(s')
    requires r < |s'.requests| && s'.requests[r].reply.Sent?
    ensures var q := s'.requests[r]; Complete(q.misses, q.marks, q.reply.slots, q.reply.flag, resolver)
    ensures var q := s'.requests[r];
            && |q.reply.slots| == |q.marks| == |q.misses|
            && (forall j {:trigger q.reply.slots[j]} :: 0 <= j < |q.misses| ==>
                  q.reply.slots[j].index == q.misses[j].index && Tells(q.reply.slots[j].ip, resolver(q.misses[j].domain)))
            && q.reply.flag == if exists j {:trigger q.marks[j]} :: 0 <= j < |q.misses| && (q.marks[j] || resolver(q.misses[j].domain) == Failed)
                               then SECOND_WITH_ERROR else SECOND_WITHOUT_ERROR
  {
    hide Leads, Complete, Inv, InTime, Tells;
    InitialOk(s, resolver);
    RunKeeps(s, steps, s', resolver);
    SentIsComplete(s', resolver, r);
    var q := s'.requests[r];
    CompleteTells(q.misses, q.marks, q.reply.slots, q.reply.flag, resolver);
  }

  lemma ErrorAddress()
    ensures WordBytes(DNS_ERROR) == [127, 0, 0, 1]
  {
  }

  /** What a complete reply says, place by place. */
  lemma CompleteTells(misses: seq<Miss>, marks: seq<bool>, slots: seq<Slot>, flag: int, resolver: Name -> Found)
    requires Complete(misses, marks, slots, flag, resolver)
    ensures |slots| == |marks| == |misses|
    ensures forall j {:trigger slots[j]} :: 0 <= j < |misses| ==> slots[j].index == misses[j].index && Tells(slots[j].ip, resolver(misses[j].domain))
    ensures flag == if exists j {:trigger marks[j]} :: 0 <= j < |misses| && (marks[j] || resolver(misses[j].domain) == Failed)
                    then SECOND_WITH_ERROR else SECOND_WITHOUT_ERROR
  {
    ErrorAddress();
    hide WordBytes;
    if j: nat :| j < |misses| && (marks[j] || resolver(misses[j].domain) == Failed) {
      assert DnsThreads.Bad(misses, marks, j, resolver);
    } else {
      assert forall j {:trigger marks[j]} :: 0 <= j < |misses| ==> !marks[j] && resolver(misses[j].domain) != Failed;
    }
  }

  lemma SentIsComplete(s: State, resolver: Name -> Found, r: nat)
    requires Inv(s, resolver) && r < |s.requests| && s.requests[r].reply.Sent?
    ensures var q := s.requests[r]; Complete(q.misses, q.marks, q.reply.slots, q.reply.flag, resolver)
  {
    hide Complete, QueueOk, ThreadsOk, SlotsOk, FlagOk;
    assert RequestOk(s.requests[r], resolver);
  }

  /** The mark of a place is the error mark that its thread had when it took the job; no
      other step changes it. */
  lemma MarkRecorded(s: State, step: Step, resolver: Name -> Found, r: nat, j: nat)
    requires Inv(s, resolver) && Enabled(s, step) && r < |s.requests| && j < |s.requests[r].marks|
    ensures var s' := After(s, step, resolver);
            && r < |s'.requests| && j < |s'.requests[r].marks|
            && s'.requests[r].marks[j] ==
                 if step.Take? && s.queue[0].TcpJob? && s.queue[0].req == r && s.queue[0].count == j then s.threads[step.thread].missindex
                 else s.requests[r].marks[j]
  {
    hide RequestOk, ThreadsOk, QueueOk;
  }

  predicate WorksFor(t: Thread, req: nat) {
    t.pc != Waiting && t.pc.job.TcpJob? && t.pc.job.req == req
  }

  /** When the counter of a request is zero no thread is looking one of its names up. */
  lemma DoneIsDone(s: State, resolver: Name -> Found, r: nat)
    requires Inv(s, resolver) && r < |s.requests| && s.requests[r].number == 0
    ensures forall j {:trigger s.requests[r].stages[j]} :: 0 <= j < |s.requests[r].stages| ==> s.requests[r].stages[j] == Counted
    ensures forall u {:trigger s.threads[u]} :: 0 <= u < |s.threads| && WorksFor(s.threads[u], r) ==> s.threads[u].pc.Looking?
    ensures forall i {:trigger s.queue[i]} :: 0 <= i < |s.queue| && s.queue[i].TcpJob? ==> s.queue[i].req != r
  {
    hide RequestsOk, ThreadsOk, QueueOk, Complete, SlotsOk, FlagOk;
    RequestIn(s.requests, r, resolver);
    NoneRemaining(s.requests[r].stages);
    hide RequestOk;
    forall u {:trigger s.threads[u]} | 0 <= u < |s.threads| && WorksFor(s.threads[u], r)
      ensures s.threads[u].pc.Looking?
    {
      JobAt(s.requests, s.threads, u, resolver);
      assert s.requests[r].stages[s.threads[u].pc.job.count] == Counted;
    }
    forall i {:trigger s.queue[i]} | 0 <= i < |s.queue| && s.queue[i].TcpJob?
      ensures s.queue[i].req != r
    {
      QueuedAt(s.requests, s.queue, i);
    }
  }

  lemma QueuedAt(requests: seq<Request>, queue: seq<Job>, i: nat)
    requires QueueOk(requests, queue) && i < |queue| && queue[i].TcpJob?
    ensures At(requests, queue[i], Queued)
  {
    hide At;
  }

  /** When a thread sees the counter at zero the buffer is complete, every lookup of the
      request has been counted and no thread is still working for it. */
  lemma ZeroMeansDone(s: State, steps: seq<Step>, s': State, resolver: Name -> Found, t: nat)
    requires Initial(s) && Leads(s, steps, s', resolver) && InTime(s') && Enabled(s', Look(t))
    requires s'.requests[s'.threads[t].pc.job.req].number == 0
    ensures var q := s'.requests[s'.threads[t].pc.job.req];
            Complete(q.misses, q.marks, q.slots, if q.miss then SECOND_WITH_ERROR else SECOND_WITHOUT_ERROR, resolver)
    ensures forall u {:trigger s'.threads[u]} :: 0 <= u < |s'.threads| && WorksFor(s'.threads[u], s'.threads[t].pc.job.req) ==> s'.threads[u].pc.Looking?
  {
    hide Leads, Complete, RequestOk, QueueOk, ThreadsOk;
    InitialOk(s, resolver);
    RunKeeps(s, steps, s', resolver);
    var r := s'.threads[t].pc.job.req;
    RequestIn(s'.requests, r, resolver);
    ZeroIsComplete(s'.requests[r], resolver);
    DoneIsDone(s', resolver, r);
  }

  /** What a step needs of the jobs it handles is always there: a waiting thread can take
      any job, and a thread with a job can go on. */
  lemma NothingBlocks(s: State, resolver: Name -> Found, t: nat)
    requires Inv(s, resolver) && t < |s.threads|
    ensures match s.threads[t].pc
            case Waiting => s.queue != [] ==> Enabled(s, Take(t))
            case Asking(_) => Enabled(s, Answer(t))
            case Answered(_) => Enabled(s, CountDown(t))
            case Looking(_) => Enabled(s, Look(t))
  {
    hide RequestsOk;
    assert ThreadOk(s.requests, s.threads[t], resolver);
    assert s.queue != [] && s.queue[0].TcpJob? ==> At(s.requests, s.queue[0], Queued);
  }

  // ---- every reply is sent ----

  predicate HasPlace(job: Job, r: nat, j: nat) {
    job.TcpJob? && job.req == r && job.count == j
  }

  ghost predicate InQueue(queue: seq<Job>, r: nat, j: nat) {
    exists i {:trigger queue[i]} :: 0 <= i < |queue| && HasPlace(queue[i], r, j)
  }

  predicate WorksAt(t: Thread, r: nat, j: nat, st: Stage) {
    t.pc != Waiting && StageOf(t.pc) == st && HasPlace(t.pc.job, r, j)
  }

  ghost predicate OnThread(threads: seq<Thread>, r: nat, j: nat, st: Stage) {
    exists t {:trigger threads[t]} :: 0 <= t < |threads| && WorksAt(threads[t], r, j, st)
  }

  ghost predicate PlaceTracked(queue: seq<Job>, threads: seq<Thread>, r: nat, j: nat, st: Stage) {
    && (st == Queued ==> InQueue(queue, r, j))
    && (st == Asked || st == Filled ==> OnThread(threads, r, j, st))
  }

  /** No lookup is lost: the job of a queued place is in the queue, and the thread that
      looks a name up is there. */
  ghost predicate Tracked(s: State) {
    forall r: nat, j: nat {:trigger s.requests[r].stages[j]} :: r < |s.requests| && j < |s.requests[r].stages| ==>
      PlaceTracked(s.queue, s.threads, r, j, s.requests[r].stages[j])
  }

  predicate LooksAt(t: Thread, r: nat) {
    t.pc.Looking? && WorksFor(t, r)
  }

  /** A request counted down to zero has its reply, or a thread that is going to look. */
  ghost predicate Watched(s: State) {
    forall r: nat {:trigger s.requests[r]} :: r < |s.requests| && s.requests[r].number == 0 && s.requests[r].reply.NoReply? ==>
      exists t {:trigger s.threads[t]} :: 0 <= t < |s.threads| && LooksAt(s.threads[t], r)
  }

  lemma InLongerQueue(queue: seq<Job>, job: Job, r: nat, j: nat)
    requires InQueue(queue, r, j) || HasPlace(job, r, j)
    ensures InQueue(queue + [job], r, j)
  {
    hide HasPlace;
    if InQueue(queue, r, j) {
      var i :| 0 <= i < |queue| && HasPlace(queue[i], r, j);
      assert (queue + [job])[i] == queue[i];
    } else {
      assert (queue + [job])[|queue|] == job;
    }
  }

  lemma InShorterQueue(queue: seq<Job>, r: nat, j: nat)
    requires InQueue(queue, r, j) && !HasPlace(queue[0], r, j)
    ensures InQueue(queue[1..], r, j)
  {
    hide HasPlace;
    var i :| 0 <= i < |queue| && HasPlace(queue[i], r, j);
    assert queue[1..][i - 1] == queue[i];
  }

  lemma StillOnThread(threads: seq<Thread>, t: nat, after: Thread, r: nat, j: nat, st: Stage)
    requires OnThread(threads, r, j, st) && t < |threads| && !WorksAt(threads[t], r, j, st)
    ensures OnThread(threads[t := after], r, j, st)
  {
    hide WorksAt;
    var u :| 0 <= u < |threads| && WorksAt(threads[u], r, j, st);
    assert threads[t := after][u] == threads[u];
  }

  lemma NowOnThread(threads: seq<Thread>, t: nat, after: Thread, r: nat, j: nat, st: Stage)
    requires t < |threads| && WorksAt(after, r, j, st)
    ensures OnThread(threads[t := after], r, j, st)
  {
    hide WorksAt;
    assert threads[t := after][t] == after;
  }

  lemma StillWatched(threads: seq<Thread>, t: nat, after: Thread, r: nat)
    requires t < |threads| && (LooksAt(after, r) || (!LooksAt(threads[t], r) && exists u {:trigger threads[u]} :: 0 <= u < |threads| && LooksAt(threads[u], r)))
    ensures exists u {:trigger threads[t := after][u]} :: 0 <= u < |threads[t := after]| && LooksAt(threads[t := after][u], r)
  {
    hide LooksAt;
    if LooksAt(after, r) {
      assert threads[t := after][t] == after;
    } else {
      var u :| 0 <= u < |threads| && LooksAt(threads[u], r);
      assert threads[t := after][u] == threads[u];
    }
  }

  lemma PlaceIs(s: State, r: nat, j: nat)
    requires Tracked(s) && r < |s.requests| && j < |s.requests[r].stages|
    ensures PlaceTracked(s.queue, s.threads, r, j, s.requests[r].stages[j])
  {
    hide PlaceTracked;
  }

  lemma WatchIs(s: State, r: nat)
    requires Watched(s) && r < |s.requests| && s.requests[r].number == 0 && s.requests[r].reply.NoReply?
    ensures exists t {:trigger s.threads[t]} :: 0 <= t < |s.threads| && LooksAt(s.threads[t], r)
  {
    hide LooksAt;
  }

  lemma AcceptTracks(s: State, misses: seq<Miss>, junk: seq<Slot>, resolver: Name -> Found)
    requires Enabled(s, Accept(misses, junk)) && Tracked(s) && Watched(s)
    ensures var s' := After(s, Accept(misses, junk), resolver); Tracked(s') && Watched(s')
  {
    hide PlaceTracked, LooksAt;
    var s' := After(s, Accept(misses, junk), resolver);
    forall r: nat, j: nat {:trigger s'.requests[r].stages[j]} | r < |s'.requests| && j < |s'.requests[r].stages|
      ensures PlaceTracked(s.queue, s.threads, r, j, s'.requests[r].stages[j])
    {
      if r < |s.requests| {
        PlaceIs(s, r, j);
      } else {
        UnqueuedTracked(s.queue, s.threads, r, j);
      }
    }
    assert forall r: nat {:trigger s'.requests[r]} :: r < |s.requests| ==> s'.requests[r] == s.requests[r];
  }

  lemma UnqueuedTracked(queue: seq<Job>, threads: seq<Thread>, r: nat, j: nat)
    ensures PlaceTracked(queue, threads, r, j, Unqueued)
  {
  }

  lemma PutTracks(s: State, r: nat, j: nat, resolver: Name -> Found)
    requires Enabled(s, Put(r, j)) && Tracked(s) && Watched(s)
    ensures var s' := After(s, Put(r, j), resolver); Tracked(s') && Watched(s')
  {
    hide InQueue, OnThread, LooksAt;
    var s' := After(s, Put(r, j), resolver);
    var job := s'.queue[|s.queue|];
    forall q: nat, i: nat {:trigger s'.requests[q].stages[i]} | q < |s'.requests| && i < |s'.requests[q].stages|
      ensures PlaceTracked(s'.queue, s'.threads, q, i, s'.requests[q].stages[i])
    {
      PlaceIs(s, q, i);
      if s'.requests[q].stages[i] == Queued {
        InLongerQueue(s.queue, job, q, i);
      }
    }
    assert forall q: nat {:trigger s'.requests[q]} :: q < |s.requests| ==> s'.requests[q].number == s.requests[q].number && s'.requests[q].reply == s.requests[q].reply;
  }

  lemma PutUdpTracks(s: State, domain: Name, resolver: Name -> Found)
    requires Enabled(s, PutUdp(domain)) && Tracked(s) && Watched(s)
    ensures var s' := After(s, PutUdp(domain), resolver); Tracked(s') && Watched(s')
  {
    hide InQueue, OnThread, LooksAt;
    var s' := After(s, PutUdp(domain), resolver);
    forall q: nat, i: nat {:trigger s'.requests[q].stages[i]} | q < |s'.requests| && i < |s'.requests[q].stages|
      ensures PlaceTracked(s'.queue, s'.threads, q, i, s'.requests[q].stages[i])
    {
      PlaceIs(s, q, i);
      if s'.requests[q].stages[i] == Queued {
        InLongerQueue(s.queue, UdpJob(domain), q, i);
      }
    }
  }

  /** A thread that works on no other place leaves the others tracked. */
  lemma OthersTracked(queue: seq<Job>, threads: seq<Thread>, t: nat, after: Thread, r: nat, j: nat, st: Stage)
    requires PlaceTracked(queue, threads, r, j, st) && t < |threads| && !WorksAt(threads[t], r, j, st)
    ensures PlaceTracked(queue, threads[t := after], r, j, st)
  {
    hide InQueue, OnThread, WorksAt;
    if st == Asked || st == Filled {
      StillOnThread(threads, t, after, r, j, st);
    }
  }

  /** A step of the thread `t` on its job at the place r, j. */
  lemma WorkTracks(s: State, s': State, t: nat, r: nat, j: nat, resolver: Name -> Found)
    requires Tracked(s) && t < |s.threads| && |s'.threads| == |s.threads| && s'.threads == s.threads[t := s'.threads[t]] && s'.queue == s.queue
    requires |s'.requests| == |s.requests| && r < |s.requests| && j < |s.requests[r].stages|
    requires s.threads[t].pc != Waiting && HasPlace(s.threads[t].pc.job, r, j)
    requires forall q: nat {:trigger s'.requests[q]} :: q < |s.requests| && q != r ==> s'.requests[q] == s.requests[q]
    requires |s'.requests[r].stages| == |s.requests[r].stages| && s'.requests[r].stages == s.requests[r].stages[j := s'.requests[r].stages[j]]
    requires PlaceTracked(s'.queue, s'.threads, r, j, s'.requests[r].stages[j])
    ensures Tracked(s')
  {
    hide PlaceTracked;
    forall q: nat, i: nat {:trigger s'.requests[q].stages[i]} | q < |s'.requests| && i < |s'.requests[q].stages| && !(q == r && i == j)
      ensures PlaceTracked(s'.queue, s'.threads, q, i, s'.requests[q].stages[i])
    {
      PlaceIs(s, q, i);
      assert s'.requests[q].stages[i] == s.requests[q].stages[i];
      OthersTracked(s.queue, s.threads, t, s'.threads[t], q, i, s.requests[q].stages[i]);
    }
  }

  lemma AnswerTracks(s: State, t: nat, resolver: Name -> Found)
    requires Inv(s, resolver) && Enabled(s, Answer(t)) && Tracked(s) && Watched(s)
    ensures var s' := After(s, Answer(t), resolver); Tracked(s') && Watched(s')
  {
    hide Inv, Tracked, Watched, LooksAt;
    var s', job := After(s, Answer(t), resolver), s.threads[t].pc.job;
    WatchedOn(s, s', t, 0);
    if job.TcpJob? {
      NowOnThread(s.threads, t, s'.threads[t], job.req, job.count, Filled);
      WorkTracks(s, s', t, job.req, job.count, resolver);
    } else {
      UdpTracks(s, s', t);
    }
  }

  lemma UdpTracks(s: State, s': State, t: nat)
    requires Tracked(s) && t < |s.threads| && s.threads[t].pc != Waiting && s.threads[t].pc.job.UdpJob?
    requires s'.requests == s.requests && s'.queue == s.queue && |s'.threads| == |s.threads| && s'.threads == s.threads[t := s'.threads[t]]
    ensures Tracked(s')
  {
    hide PlaceTracked;
    forall q: nat, i: nat {:trigger s'.requests[q].stages[i]} | q < |s'.requests| && i < |s'.requests[q].stages|
      ensures PlaceTracked(s'.queue, s'.threads, q, i, s'.requests[q].stages[i])
    {
      PlaceIs(s, q, i);
      OthersTracked(s.queue, s.threads, t, s'.threads[t], q, i, s.requests[q].stages[i]);
    }
  }

  /** Requests stay watched when a thread that was not looking steps, if the thread looks
      at each request whose counter it made zero. */
  lemma WatchedOn(s: State, s': State, t: nat, r: nat)
    requires Watched(s) && t < |s.threads| && |s'.threads| == |s.threads| && s'.threads == s.threads[t := s'.threads[t]] && !s.threads[t].pc.Looking?
    requires |s'.requests| == |s.requests|
    requires forall q: nat {:trigger s'.requests[q]} :: q < |s.requests| && !LooksAt(s'.threads[t], q) ==>
      s'.requests[q].number == s.requests[q].number && s'.requests[q].reply == s.requests[q].reply
    ensures Watched(s')
  {
    hide WorksFor;
    forall q: nat {:trigger s'.requests[q]} | q < |s'.requests| && s'.requests[q].number == 0 && s'.requests[q].reply.NoReply?
      ensures exists u {:trigger s'.threads[u]} :: 0 <= u < |s'.threads| && LooksAt(s'.threads[u], q)
    {
      if LooksAt(s'.threads[t], q) {
        assert s'.threads[t] == s'.threads[t];
      } else {
        WatchIs(s, q);
      }
      StillWatched(s.threads, t, s'.threads[t], q);
    }
  }

  lemma CountDownTracks(s: State, t: nat, resolver: Name -> Found)
    requires Inv(s, resolver) && Enabled(s, CountDown(t)) && Tracked(s) && Watched(s)
    ensures var s' := After(s, CountDown(t), resolver); Tracked(s') && Watched(s')
  {
    hide Inv, Tracked, Watched;
    var s', job := After(s, CountDown(t), resolver), s.threads[t].pc.job;
    WatchedOn(s, s', t, job.req);
    CountedTracked(s'.queue, s'.threads, job.req, job.count);
    WorkTracks(s, s', t, job.req, job.count, resolver);
  }

  lemma CountedTracked(queue: seq<Job>, threads: seq<Thread>, r: nat, j: nat)
    ensures PlaceTracked(queue, threads, r, j, Counted)
  {
  }

  lemma LookTracks(s: State, t: nat, resolver: Name -> Found)
    requires Inv(s, resolver) && Enabled(s, Look(t)) && Tracked(s) && Watched(s)
    ensures var s' := After(s, Look(t), resolver); Tracked(s') && Watched(s')
  {
    hide Inv, Tracked, Watched, LooksAt, Seen;
    var s', job := After(s, Look(t), resolver), s.threads[t].pc.job;
    SeenSame(s.requests[job.req]);
    LookWatched(s, s', t, job.req);
    hide PlaceTracked;
    forall q: nat, i: nat {:trigger s'.requests[q].stages[i]} | q < |s'.requests| && i < |s'.requests[q].stages|
      ensures PlaceTracked(s'.queue, s'.threads, q, i, s'.requests[q].stages[i])
    {
      PlaceIs(s, q, i);
      LookerTracked(s.queue, s.threads, t, s'.threads[t], q, i, s.requests[q].stages[i]);
    }
    IsTracked(s');
  }

  lemma IsTracked(s: State)
    requires forall r: nat, j: nat {:trigger s.requests[r].stages[j]} :: r < |s.requests| && j < |s.requests[r].stages| ==>
      PlaceTracked(s.queue, s.threads, r, j, s.requests[r].stages[j])
    ensures Tracked(s)
  {
    hide PlaceTracked;
  }

  lemma LookerTracked(queue: seq<Job>, threads: seq<Thread>, t: nat, after: Thread, r: nat, j: nat, st: Stage)
    requires PlaceTracked(queue, threads, r, j, st) && t < |threads| && threads[t].pc.Looking?
    ensures PlaceTracked(queue, threads[t := after], r, j, st)
  {
    hide InQueue, OnThread;
    if st == Asked || st == Filled {
      StillOnThread(threads, t, after, r, j, st);
    }
  }

  lemma SeenSame(q: Request)
    ensures Seen(q).stages == q.stages && Seen(q).number == q.number && (q.number == 0 ==> Seen(q).reply.Sent?)
  {
  }

  lemma LookWatched(s: State, s': State, t: nat, r: nat)
    requires Watched(s) && t < |s.threads| && |s'.threads| == |s.threads| && s'.threads == s.threads[t := s'.threads[t]] && s.threads[t].pc.Looking? && WorksFor(s.threads[t], r)
    requires r < |s.requests| && s'.requests == s.requests[r := Seen(s.requests[r])]
    ensures Watched(s')
  {
    hide Seen;
    SeenSame(s.requests[r]);
    forall q: nat {:trigger s'.requests[q]} | q < |s'.requests| && s'.requests[q].number == 0 && s'.requests[q].reply.NoReply?
      ensures exists u {:trigger s'.threads[u]} :: 0 <= u < |s'.threads| && LooksAt(s'.threads[u], q)
    {
      assert q != r;
      WatchIs(s, q);
      StillWatched(s.threads, t, s'.threads[t], q);
    }
  }

  lemma TakeTracks(s: State, t: nat, resolver: Name -> Found)
    requires Inv(s, resolver) && Enabled(s, Take(t)) && Tracked(s) && Watched(s)
    ensures var s' := After(s, Take(t), resolver); Tracked(s') && Watched(s')
  {
    hide Inv, Tracked, Watched, LooksAt;
    var s', job := After(s, Take(t), resolver), s.queue[0];
    WatchedOn(s, s', t, 0);
    hide InQueue, OnThread;
    forall q: nat, i: nat {:trigger s'.requests[q].stages[i]} | q < |s'.requests| && i < |s'.requests[q].stages|
      ensures PlaceTracked(s'.queue, s'.threads, q, i, s'.requests[q].stages[i])
    {
      PlaceIs(s, q, i);
      if HasPlace(job, q, i) {
        NowOnThread(s.threads, t, s'.threads[t], q, i, Asked);
      } else {
        TakenTracked(s.queue, s.threads, t, s'.threads[t], q, i, s.requests[q].stages[i]);
      }
    }
    IsTracked(s');
  }

  lemma TakenTracked(queue: seq<Job>, threads: seq<Thread>, t: nat, after: Thread, r: nat, j: nat, st: Stage)
    requires PlaceTracked(queue, threads, r, j, st) && t < |threads| && threads[t].pc == Waiting && queue != [] && !HasPlace(queue[0], r, j)
    ensures PlaceTracked(queue[1..], threads[t := after], r, j, st)
  {
    hide InQueue, OnThread;
    if st == Queued {
      InShorterQueue(queue, r, j);
    }
    if st == Asked || st == Filled {
      StillOnThread(threads, t, after, r, j, st);
    }
  }

  lemma StepTracks(s: State, step: Step, resolver: Name -> Found)
    requires Inv(s, resolver) && Enabled(s, step) && Tracked(s) && Watched(s)
    ensures Tracked(After(s, step, resolver)) && Watched(After(s, step, resolver))
  {
    hide Inv, Enabled, After, Tracked, Watched;
    match step
    case Accept(misses, junk) => AcceptTracks(s, misses, junk, resolver);
    case Put(r, j) => PutTracks(s, r, j, resolver);
    case PutUdp(domain) => PutUdpTracks(s, domain, resolver);
    case Take(t) => TakeTracks(s, t, resolver);
    case Answer(t) => AnswerTracks(s, t, resolver);
    case CountDown(t) => CountDownTracks(s, t, resolver);
    case Look(t) => LookTracks(s, t, resolver);
  }

  lemma {:induction false} RunTracks(s: State, steps: seq<Step>, s': State, resolver: Name -> Found)
    requires Inv(s, resolver) && Tracked(s) && Watched(s) && Leads(s, steps, s', resolver)
    ensures Inv(s', resolver) && Tracked(s') && Watched(s')
    decreases |steps|
  {
    hide Inv, Enabled, After, Tracked, Watched;
    if steps != [] {
      StepKeeps(s, steps[0], resolver);
      StepTracks(s, steps[0], resolver);
      RunTracks(After(s, steps[0], resolver), steps[1..], s', resolver);
    }
  }

  /** In every reachable state a request counted down to zero has its reply, or a thread
      that is going to look at the counter. */
  lemma ZeroIsSeen(s: State, steps: seq<Step>, s': State, resolver: Name -> Found, r: nat)
    requires Initial(s) && Leads(s, steps, s', resolver) && r < |s'.requests| && s'.requests[r].number == 0
    ensures s'.requests[r].reply.Sent? || exists t {:trigger s'.threads[t]} :: 0 <= t < |s'.threads| && LooksAt(s'.threads[t], r)
  {
    hide Leads, Inv;
    InitialOk(s, resolver);
    RunTracks(s, steps, s', resolver);
  }

  /** When the queue is empty, all threads wait and every job of a request has been put,
      its reply has been sent. */
  lemma RepliesAreSent(s: State, steps: seq<Step>, s': State, resolver: Name -> Found, r: nat)
    requires Initial(s) && Leads(s, steps, s', resolver) && r < |s'.requests|
    requires s'.queue == [] && forall t {:trigger s'.threads[t]} :: 0 <= t < |s'.threads| ==> s'.threads[t].pc == Waiting
    requires forall j {:trigger s'.requests[r].stages[j]} :: 0 <= j < |s'.requests[r].stages| ==> s'.requests[r].stages[j] != Unqueued
    ensures s'.requests[r].reply.Sent?
  {
    hide Leads, Inv;
    InitialOk(s, resolver);
    RunTracks(s, steps, s', resolver);
    forall j: nat {:trigger s'.requests[r].stages[j]} | j < |s'.requests[r].stages|
      ensures s'.requests[r].stages[j] == Counted
    {
      PlaceIs(s', r, j);
    }
    CountedIsZero(s', resolver, r);
    hide Tracked;
  }

  lemma CountedIsZero(s: State, resolver: Name -> Found, r: nat)
    requires Inv(s, resolver) && r < |s.requests|
    requires forall j {:trigger s.requests[r].stages[j]} :: 0 <= j < |s.requests[r].stages| ==> s.requests[r].stages[j] == Counted
    ensures s.requests[r].number == 0
  {
    hide QueueOk, ThreadsOk, SlotsOk, FlagOk, Complete;
    assert RequestOk(s.requests[r], resolver);
    AllCounted(s.requests[r].stages);
  }

  lemma {:induction false} AllCounted(stages: seq<Stage>)
    requires forall j {:trigger stages[j]} :: 0 <= j < |stages| ==> stages[j] == Counted
    ensures Remaining(stages) == 0
  {
    if stages != [] {
      var n := |stages| - 1;
      assert forall j {:trigger stages[..n][j]} :: 0 <= j < n ==> stages[..n][j] == stages[j];
      AllCounted(stages[..n]);
    }
  }

  // ---- threads that come too late ----

  /** The reply has been sent and no thread is left that works for the request. */
  ghost predicate Over(s: State, r: nat) {
    && r < |s.requests| && s.requests[r].number == 0 && s.requests[r].reply.Sent?
    && forall t {:trigger s.threads[t]} :: 0 <= t < |s.threads| ==> !WorksFor(s.threads[t], r)
  }

  /** A request that is over stays over, and no thread will come too late for it. */
  lemma OverStays(s: State, step: Step, resolver: Name -> Found, r: nat)
    requires Inv(s, resolver) && Enabled(s, step) && Over(s, r)
    ensures Over(After(s, step, resolver), r) && After(s, step, resolver).requests[r].late == s.requests[r].late
  {
    DoneIsDone(s, resolver, r);
    hide Inv;
    var s' := After(s, step, resolver);
    forall t {:trigger s'.threads[t]} | 0 <= t < |s'.threads|
      ensures !WorksFor(s'.threads[t], r)
    {
      assert !WorksFor(s.threads[t], r);
    }
  }

  lemma {:induction false} OverForGood(s: State, steps: seq<Step>, s': State, resolver: Name -> Found, r: nat)
    requires Inv(s, resolver) && Over(s, r) && Leads(s, steps, s', resolver)
    ensures Over(s', r) && s'.requests[r].late == s.requests[r].late
    decreases |steps|
  {
    hide Inv, Enabled, After, Over;
    OverIs(s, r);
    if steps != [] {
      StepKeeps(s, steps[0], resolver);
      OverStays(s, steps[0], resolver, r);
      OverForGood(After(s, steps[0], resolver), steps[1..], s', resolver, r);
    }
  }

  lemma OverIs(s: State, r: nat)
    requires Over(s, r)
    ensures r < |s.requests|
  {
  }

  /** The thread `t` sends the reply to `r`. */
  ghost predicate Sends(s: State, t: nat, r: nat) {
    Enabled(s, Look(t)) && s.threads[t].pc.job.req == r && s.requests[r].number == 0 && s.requests[r].reply.NoReply? && !s.requests[r].late
  }

  /** Another thread has counted down for the request and not looked yet. */
  ghost predicate AnotherLooks(s: State, t: nat, r: nat) {
    exists u {:trigger s.threads[u]} :: 0 <= u < |s.threads| && u != t && LooksAt(s.threads[u], r)
  }

  /** After a reply is sent some thread can come too late for the request, if and only if
      at that moment another thread is past its countdown for it. */
  lemma LateIff(s: State, resolver: Name -> Found, t: nat, r: nat)
    requires Inv(s, resolver) && Sends(s, t, r)
    ensures (exists steps, s' {:trigger Leads(After(s, Look(t), resolver), steps, s', resolver)} ::
               Leads(After(s, Look(t), resolver), steps, s', resolver) && r < |s'.requests| && s'.requests[r].late)
       <==> AnotherLooks(s, t, r)
  {
    hide Inv, Leads;
    var s1 := After(s, Look(t), resolver);
    StepKeeps(s, Look(t), resolver);
    if AnotherLooks(s, t, r) {
      var steps, s' := ComesLate(s, resolver, t, r);
    } else {
      SendsLast(s, resolver, t, r);
      hide After, Over;
      forall steps, s' {:trigger Leads(s1, steps, s', resolver)} | Leads(s1, steps, s', resolver) && r < |s'.requests|
        ensures !s'.requests[r].late
      {
        OverForGood(s1, steps, s', resolver, r);
      }
    }
  }

  lemma SendsLast(s: State, resolver: Name -> Found, t: nat, r: nat)
    requires Inv(s, resolver) && Sends(s, t, r) && !AnotherLooks(s, t, r)
    ensures Over(After(s, Look(t), resolver), r) && !After(s, Look(t), resolver).requests[r].late
  {
    DoneIsDone(s, resolver, r);
    hide Inv;
    var s' := After(s, Look(t), resolver);
    forall u {:trigger s'.threads[u]} | 0 <= u < |s'.threads|
      ensures !WorksFor(s'.threads[u], r)
    {
      assert u != t ==> s'.threads[u] == s.threads[u] && !LooksAt(s.threads[u], r);
    }
  }

  lemma ComesLate(s: State, resolver: Name -> Found, t: nat, r: nat) returns (steps: seq<Step>, s': State)
    requires Inv(s, resolver) && Sends(s, t, r) && AnotherLooks(s, t, r)
    ensures Leads(After(s, Look(t), resolver), steps, s', resolver) && r < |s'.requests| && s'.requests[r].late
  {
    var u :| 0 <= u < |s.threads| && u != t && LooksAt(s.threads[u], r);
    JobAt(s.requests, s.threads, u, resolver);
    hide Inv, Leads;
    var s1 := After(s, Look(t), resolver);
    assert s1.threads[u] == s.threads[u];
    assert Enabled(s1, Look(u));
    s' := After(s1, Look(u), resolver);
    steps := [Look(u)] + [];
    assert Leads(s', [], s', resolver) by { LeadsNowhere(s', resolver); }
    LeadsStep(s1, Look(u), [], s', resolver);
  }

  lemma LeadsNowhere(s: State, resolver: Name -> Found)
    ensures Leads(s, [], s, resolver)
  {
  }

  lemma LeadsStep(s: State, step: Step, steps: seq<Step>, s': State, resolver: Name -> Found)
    requires Enabled(s, step) && Leads(After(s, step, resolver), steps, s', resolver)
    ensures Leads(s, [step] + steps, s', resolver)
  {
    hide Enabled, After;
    assert ([step] + steps)[1..] == steps;
  }

  // ---- the ring as the queue ----

  /** The part of a step that works on the ring: the ring holds the queue of the steps. */
  method RingStep(ring: JobRing, step: Step, job: Job, ghost s: State, ghost resolver: Name -> Found) returns (running: bool, taken: Taken)
    requires ring.Valid() && ring.jobs.Length == ARRAYSIZE && ring.Queue() == s.queue && Enabled(s, step)
    requires step.Put? ==> var m := s.requests[step.req].misses[step.count]; job == TcpJob(step.req, step.count, m.index, m.domain)
    requires step.PutUdp? ==> job == UdpJob(step.domain)
    modifies ring, ring.jobs
    ensures ring.Valid() && running && ring.Queue() == After(s, step, resolver).queue
    ensures taken == if step.Take? then TakenJob(s.queue[0]) else Nothing
  {
    running, taken := true, Nothing;
    if step.Put? || step.PutUdp? {
      running := ring.Put(job);
    } else if step.Take? {
      taken := ring.Take();
    }
  }
}
