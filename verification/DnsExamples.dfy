/** Two runs of the lookup threads: an error flag without a cause in the request, and a
    thread that comes too late. */
module DnsExamples {
  import opened FileBytes
  import opened Replies
  import opened DnsThreads
  import opened DnsRuns

  // ---- one thread, requests with one miss ----

  function One(m: Miss, number: int, slot: Slot, miss: bool, st: Stage, mark: bool, reply: Reply): Request {
    Request([m], number, [slot], miss, [st], [mark], reply, false)
  }

  function Served(m: Miss, before: bool, after: bool, resolver: Name -> Found): Request {
    One(m, 0, SlotFor(m, resolver), after, Counted, before,
        Sent([SlotFor(m, resolver)], if after then SECOND_WITH_ERROR else SECOND_WITHOUT_ERROR))
  }

  lemma LastUpdated<T>(before: seq<T>, x: T, y: T)
    ensures (before + [x])[|before| := y] == before + [y] && [x][0 := y] == [y]
  {
  }

  lemma FreshOne(m: Miss, junk: Slot)
    ensures Fresh([m], [junk]) == One(m, 1, junk, false, Unqueued, false, NoReply)
  {
    assert seq(1, _ => Unqueued) == [Unqueued] && seq(1, _ => false) == [false];
  }

  /** From the arrival of the request to the thread that takes its job. */
  lemma Arrives(before: seq<Request>, mark: bool, m: Miss, junk: Slot, resolver: Name -> Found, s': State, steps: seq<Step>)
    requires var job := TcpJob(|before|, 0, m.index, m.domain);
             Leads(State(before + [One(m, 1, junk, false, Asked, mark, NoReply)], [], [Thread(Asking(job), mark)]), steps, s', resolver)
    ensures Leads(State(before, [], [Thread(Waiting, mark)]), [Accept([m], [junk])] + ([Put(|before|, 0)] + ([Take(0)] + steps)), s', resolver)
  {
    var r, job := |before|, TcpJob(|before|, 0, m.index, m.domain);
    var q0, q1 := One(m, 1, junk, false, Unqueued, false, NoReply), One(m, 1, junk, false, Queued, false, NoReply);
    var q2 := One(m, 1, junk, false, Asked, mark, NoReply);
    var s0 := State(before, [], [Thread(Waiting, mark)]);
    var s1 := State(before + [q0], [], [Thread(Waiting, mark)]);
    var s2 := State(before + [q1], [job], [Thread(Waiting, mark)]);
    FreshOne(m, junk);
    LastUpdated(before, q0, q1);
    LastUpdated(before, q1, q2);
    assert [Unqueued][0 := Queued] == [Queued] && [Queued][0 := Asked] == [Asked] && [false][0 := mark] == [mark];
    assert After(s0, Accept([m], [junk]), resolver) == s1;
    assert [] + [job] == [job] && [job][1..] == [];
    assert After(s1, Put(r, 0), resolver) == s2;
    assert After(s2, Take(0), resolver) == State(before + [q2], [], [Thread(Asking(job), mark)]);
    hide After, Leads;
    LeadsStep(s2, Take(0), steps, s', resolver);
    LeadsStep(s1, Put(r, 0), [Take(0)] + steps, s', resolver);
    LeadsStep(s0, Accept([m], [junk]), [Put(r, 0)] + ([Take(0)] + steps), s', resolver);
  }

  /** From the answer of the resolver to the second reply, and on. */
  lemma Returns(before: seq<Request>, mark: bool, m: Miss, junk: Slot, resolver: Name -> Found, s': State, steps: seq<Step>)
    requires var mark' := mark || resolver(m.domain).Failed?;
             Leads(State(before + [Served(m, mark, mark', resolver)], [], [Thread(Waiting, mark')]), steps, s', resolver)
    ensures var job := TcpJob(|before|, 0, m.index, m.domain);
            Leads(State(before + [One(m, 1, junk, false, Asked, mark, NoReply)], [], [Thread(Asking(job), mark)]),
                  [Answer(0)] + ([CountDown(0)] + ([Look(0)] + steps)), s', resolver)
  {
    var job, mark', slot := TcpJob(|before|, 0, m.index, m.domain), mark || resolver(m.domain).Failed?, SlotFor(m, resolver);
    var q3, q4 := One(m, 1, junk, false, Asked, mark, NoReply), One(m, 1, slot, false, Filled, mark, NoReply);
    var q5, q6 := One(m, 0, slot, mark', Counted, mark, NoReply), Served(m, mark, mark', resolver);
    var s3 := State(before + [q3], [], [Thread(Asking(job), mark)]);
    var s4 := State(before + [q4], [], [Thread(Answered(job), mark')]);
    var s5 := State(before + [q5], [], [Thread(Looking(job), mark')]);
    var s6 := State(before + [q6], [], [Thread(Waiting, mark')]);
    LastUpdated(before, q3, q4);
    assert [junk][0 := slot] == [slot] && [Asked][0 := Filled] == [Filled];
    assert After(s3, Answer(0), resolver) == s4;
    ReturnsRest(before, mark, m, s5, s6, resolver);
    hide After, Leads;
    LeadsStep(s5, Look(0), steps, s', resolver);
    LeadsStep(s4, CountDown(0), [Look(0)] + steps, s', resolver);
    LeadsStep(s3, Answer(0), [CountDown(0)] + ([Look(0)] + steps), s', resolver);
  }

  lemma ReturnsRest(before: seq<Request>, mark: bool, m: Miss, s5: State, s6: State, resolver: Name -> Found)
    requires var job, mark', slot := TcpJob(|before|, 0, m.index, m.domain), mark || resolver(m.domain).Failed?, SlotFor(m, resolver);
             && s5 == State(before + [One(m, 0, slot, mark', Counted, mark, NoReply)], [], [Thread(Looking(job), mark')])
             && s6 == State(before + [Served(m, mark, mark', resolver)], [], [Thread(Waiting, mark')])
    ensures var job, mark', slot := TcpJob(|before|, 0, m.index, m.domain), mark || resolver(m.domain).Failed?, SlotFor(m, resolver);
            var s4 := State(before + [One(m, 1, slot, false, Filled, mark, NoReply)], [], [Thread(Answered(job), mark')]);
            After(s4, CountDown(0), resolver) == s5 && After(s5, Look(0), resolver) == s6
  {
    var mark', slot := mark || resolver(m.domain).Failed?, SlotFor(m, resolver);
    var q4, q5 := One(m, 1, slot, false, Filled, mark, NoReply), One(m, 0, slot, mark', Counted, mark, NoReply);
    LastUpdated(before, q4, q5);
    LastUpdated(before, q5, Served(m, mark, mark', resolver));
    assert [Filled][0 := Counted] == [Counted];
  }

  /** A thread that once failed marks a later request all of whose lookups succeed. */
  lemma MarkSticks() returns (s: State, steps: seq<Step>, s': State, resolver: Name -> Found)
    ensures Initial(s) && Leads(s, steps, s', resolver) && InTime(s')
    ensures |s'.requests| == 2 && s'.requests[1].reply.Sent? && s'.requests[1].reply.flag == SECOND_WITH_ERROR
    ensures forall j {:trigger s'.requests[1].misses[j]} :: 0 <= j < |s'.requests[1].misses| ==> resolver(s'.requests[1].misses[j].domain).Resolved?
  {
    resolver := n => if n == [97] then Failed else Resolved(7);
    var bad, good, junk := Miss([97], 0), Miss([98], 0), Slot(0, 0);
    var q0, q1 := Served(bad, false, true, resolver), Served(good, true, true, resolver);
    s := State([], [], [Thread(Waiting, false)]);
    s' := State([q0] + [q1], [], [Thread(Waiting, true)]);
    hide Leads;
    steps := [];
    LeadsNowhere(s', resolver);
    Returns([q0], true, good, junk, resolver, s', steps);
    steps := [Answer(0)] + ([CountDown(0)] + ([Look(0)] + steps));
    Arrives([q0], true, good, junk, resolver, s', steps);
    steps := [Accept([good], [junk])] + ([Put(1, 0)] + ([Take(0)] + steps));
    assert [] + [q0] == [q0];
    Returns([], false, bad, junk, resolver, s', steps);
    steps := [Answer(0)] + ([CountDown(0)] + ([Look(0)] + steps));
    Arrives([], false, bad, junk, resolver, s', steps);
    steps := [Accept([bad], [junk])] + ([Put(0, 0)] + ([Take(0)] + steps));
  }

  // ---- two threads, a request with two misses ----

  const A := Miss([97], 0)
  const B := Miss([98], 1)
  const JobA := TcpJob(0, 0, 0, [97])
  const JobB := TcpJob(0, 1, 1, [98])

  function Two(number: int, slots: seq<Slot>, a: Stage, b: Stage): Request {
    Request([A, B], number, slots, false, [a, b], [false, false], NoReply, false)
  }

  function Pair(number: int, slots: seq<Slot>, a: Stage, b: Stage, queue: seq<Job>, x: Pc, y: Pc): State {
    State([Two(number, slots, a, b)], queue, [Thread(x, false), Thread(y, false)])
  }

  const Junk: seq<Slot> := [Slot(0, 0), Slot(0, 0)]
  const Half: seq<Slot> := [Slot(0, 7), Slot(0, 0)]
  const Full: seq<Slot> := [Slot(0, 7), Slot(1, 7)]

  lemma Lists<T>(a: T, b: T, x: T)
    ensures [a][0 := x] == [x] && [a, b][0 := x] == [x, b] && [a, b][1 := x] == [a, x]
    ensures [a, b][1..] == [b] && [a][1..] == [] && [] + [a] == [a] && [a] + [b] == [a, b]
  {
  }

  /** One request and two threads, before and after a step that changes each of them. */
  lemma Changes(q: Request, q': Request, x: Thread, y: Thread, x': Thread, st: Stage, st': Stage, to: Stage)
    ensures [q][0 := q'] == [q'] && [x, y][0 := x'] == [x', y] && [x, y][1 := x'] == [x, x']
    ensures [st, st'][0 := to] == [to, st'] && [st, st'][1 := to] == [st, to]
    ensures [false, false][0 := false] == [false, false] && [false, false][1 := false] == [false, false]
  {
  }

  lemma Queues(resolver: Name -> Found)
    ensures var s0 := State([], [], [Thread(Waiting, false), Thread(Waiting, false)]);
            var s1 := Pair(2, Junk, Unqueued, Unqueued, [], Waiting, Waiting);
            var s2 := Pair(2, Junk, Queued, Unqueued, [JobA], Waiting, Waiting);
            var s3 := Pair(2, Junk, Queued, Queued, [JobA, JobB], Waiting, Waiting);
            && Enabled(s0, Accept([A, B], Junk)) && After(s0, Accept([A, B], Junk), resolver) == s1
            && Enabled(s1, Put(0, 0)) && After(s1, Put(0, 0), resolver) == s2
            && Enabled(s2, Put(0, 1)) && After(s2, Put(0, 1), resolver) == s3
  {
    assert seq(2, _ => Unqueued) == [Unqueued, Unqueued] && seq(2, _ => false) == [false, false];
    Lists(JobA, JobB, JobA);
    Changes(Two(2, Junk, Unqueued, Unqueued), Two(2, Junk, Queued, Unqueued), Thread(Waiting, false), Thread(Waiting, false), Thread(Waiting, false),
            Unqueued, Unqueued, Queued);
    Changes(Two(2, Junk, Queued, Unqueued), Two(2, Junk, Queued, Queued), Thread(Waiting, false), Thread(Waiting, false), Thread(Waiting, false),
            Queued, Unqueued, Queued);
    assert [] + [Two(2, Junk, Unqueued, Unqueued)] == [Two(2, Junk, Unqueued, Unqueued)];
  }

  lemma Takes(resolver: Name -> Found)
    ensures var s3 := Pair(2, Junk, Queued, Queued, [JobA, JobB], Waiting, Waiting);
            var s4 := Pair(2, Junk, Asked, Queued, [JobB], Asking(JobA), Waiting);
            var s5 := Pair(2, Junk, Asked, Asked, [], Asking(JobA), Asking(JobB));
            && Enabled(s3, Take(0)) && After(s3, Take(0), resolver) == s4
            && Enabled(s4, Take(1)) && After(s4, Take(1), resolver) == s5
  {
    Lists(JobA, JobB, JobA);
    Lists(JobB, JobA, JobA);
    Changes(Two(2, Junk, Queued, Queued), Two(2, Junk, Asked, Queued), Thread(Waiting, false), Thread(Waiting, false), Thread(Asking(JobA), false),
            Queued, Queued, Asked);
    Changes(Two(2, Junk, Asked, Queued), Two(2, Junk, Asked, Asked), Thread(Asking(JobA), false), Thread(Waiting, false), Thread(Asking(JobB), false),
            Asked, Queued, Asked);
  }

  lemma Answers(resolver: Name -> Found)
    requires resolver([97]) == Resolved(7) && resolver([98]) == Resolved(7)
    ensures var s5 := Pair(2, Junk, Asked, Asked, [], Asking(JobA), Asking(JobB));
            var s6 := Pair(2, Half, Filled, Asked, [], Answered(JobA), Asking(JobB));
            var s7 := Pair(2, Full, Filled, Filled, [], Answered(JobA), Answered(JobB));
            && Enabled(s5, Answer(0)) && After(s5, Answer(0), resolver) == s6
            && Enabled(s6, Answer(1)) && After(s6, Answer(1), resolver) == s7
  {
    Lists(Slot(0, 0), Slot(0, 0), Slot(0, 7));
    Lists(Slot(0, 7), Slot(0, 0), Slot(1, 7));
    Changes(Two(2, Junk, Asked, Asked), Two(2, Half, Filled, Asked), Thread(Asking(JobA), false), Thread(Asking(JobB), false), Thread(Answered(JobA), false),
            Asked, Asked, Filled);
    Changes(Two(2, Half, Filled, Asked), Two(2, Full, Filled, Filled), Thread(Answered(JobA), false), Thread(Asking(JobB), false), Thread(Answered(JobB), false),
            Filled, Asked, Filled);
  }

  lemma CountsDown(resolver: Name -> Found)
    ensures var s7 := Pair(2, Full, Filled, Filled, [], Answered(JobA), Answered(JobB));
            var s8 := Pair(1, Full, Counted, Filled, [], Looking(JobA), Answered(JobB));
            var s9 := Pair(0, Full, Counted, Counted, [], Looking(JobA), Looking(JobB));
            && Enabled(s7, CountDown(0)) && After(s7, CountDown(0), resolver) == s8
            && Enabled(s8, CountDown(1)) && After(s8, CountDown(1), resolver) == s9
  {
    Changes(Two(2, Full, Filled, Filled), Two(1, Full, Counted, Filled), Thread(Answered(JobA), false), Thread(Answered(JobB), false), Thread(Looking(JobA), false),
            Filled, Filled, Counted);
    Changes(Two(1, Full, Counted, Filled), Two(0, Full, Counted, Counted), Thread(Looking(JobA), false), Thread(Answered(JobB), false), Thread(Looking(JobB), false),
            Counted, Filled, Counted);
  }

  lemma LooksTwice(resolver: Name -> Found) returns (s': State)
    ensures var s9 := Pair(0, Full, Counted, Counted, [], Looking(JobA), Looking(JobB));
            && Enabled(s9, Look(0)) && Enabled(After(s9, Look(0), resolver), Look(1))
            && s' == After(After(s9, Look(0), resolver), Look(1), resolver)
            && |s'.requests| == 1 && s'.requests[0].late
  {
    var s9 := Pair(0, Full, Counted, Counted, [], Looking(JobA), Looking(JobB));
    s' := After(After(s9, Look(0), resolver), Look(1), resolver);
  }

  lemma LastSteps(resolver: Name -> Found) returns (steps: seq<Step>, s': State)
    requires resolver([97]) == Resolved(7) && resolver([98]) == Resolved(7)
    ensures Leads(Pair(2, Junk, Asked, Asked, [], Asking(JobA), Asking(JobB)), steps, s', resolver)
    ensures |s'.requests| == 1 && s'.requests[0].late
  {
    hide Enabled, After, Leads, Pair;
    Answers(resolver);
    CountsDown(resolver);
    s' := LooksTwice(resolver);
    var s6 := Pair(2, Half, Filled, Asked, [], Answered(JobA), Asking(JobB));
    var s7 := Pair(2, Full, Filled, Filled, [], Answered(JobA), Answered(JobB));
    var s8 := Pair(1, Full, Counted, Filled, [], Looking(JobA), Answered(JobB));
    var s9 := Pair(0, Full, Counted, Counted, [], Looking(JobA), Looking(JobB));
    LeadsNowhere(s', resolver);
    steps := Before(After(s9, Look(0), resolver), Look(1), [], s', resolver);
    steps := Before(s9, Look(0), steps, s', resolver);
    steps := Before(s8, CountDown(1), steps, s', resolver);
    steps := Before(s7, CountDown(0), steps, s', resolver);
    steps := Before(s6, Answer(1), steps, s', resolver);
    steps := Before(Pair(2, Junk, Asked, Asked, [], Asking(JobA), Asking(JobB)), Answer(0), steps, s', resolver);
  }

  /** Both threads count down before either looks: the second one comes too late. */
  lemma LateLook() returns (s: State, steps: seq<Step>, s': State, resolver: Name -> Found)
    ensures Initial(s) && Leads(s, steps, s', resolver) && !InTime(s')
  {
    hide Enabled, After, Leads, Pair;
    resolver := n => Resolved(7);
    s := State([], [], [Thread(Waiting, false), Thread(Waiting, false)]);
    Queues(resolver);
    Takes(resolver);
    steps, s' := LastSteps(resolver);
    steps := Before(Pair(2, Junk, Asked, Queued, [JobB], Asking(JobA), Waiting), Take(1), steps, s', resolver);
    steps := Before(Pair(2, Junk, Queued, Queued, [JobA, JobB], Waiting, Waiting), Take(0), steps, s', resolver);
    steps := Before(Pair(2, Junk, Queued, Unqueued, [JobA], Waiting, Waiting), Put(0, 1), steps, s', resolver);
    steps := Before(Pair(2, Junk, Unqueued, Unqueued, [], Waiting, Waiting), Put(0, 0), steps, s', resolver);
    steps := Before(s, Accept([A, B], Junk), steps, s', resolver);
    assert s'.requests[0].late;
  }

  lemma Before(s: State, step: Step, steps: seq<Step>, s': State, resolver: Name -> Found) returns (more: seq<Step>)
    requires Enabled(s, step) && Leads(After(s, step, resolver), steps, s', resolver)
    ensures Leads(s, more, s', resolver)
  {
    hide Enabled, After, Leads;
    LeadsStep(s, step, steps, s', resolver);
    more := [step] + steps;
  }
}
