/** The Art-Net node's poll-reply scheduler: ArtNetNode::Run in
    lib-artnet/include/artnetnode_inline_impl.h and PollReplyQueueAdd in
    lib-artnet/src/node/artnetnodehandlepoll.cpp.

    Polls wait in a queue of four slots. Each Run does at most one thing: move on from an empty
    slot, see a waiting poll's delay pass, or send one port's reply. */
module PollReply {

  import opened Machine

  const QUEUE_SIZE: nat := 4

  // A slot of the queue; it is empty when the time of the poll is 0.
  datatype Entry = Entry(millis: Word, ip: Word, top: int, bottom: int)

  datatype Phase = WaitingTimeout | Running

  datatype State = State(queue: seq<Entry>, index: nat, port: nat, phase: Phase)

  datatype Config = Config(maxPorts: nat, delay: Word)

  // A call that sends one port's reply to one poll.
  datatype Call = Call(port: nat, poll: Entry)

  // A poll and the time at which its delay was found to have passed.
  datatype Answer = Answer(poll: Entry, start: Word)

  // What has happened so far: the polls accepted, those fully answered, when the one being answered
  // was begun, and every reply sent.
  datatype History = History(accepted: seq<Entry>, answered: seq<Answer>, start: Word, calls: seq<Call>)

  predicate Elapsed(c: Config, poll: Entry, now: Word) {
    Wrap(now - poll.millis) > c.delay
  }

  /* ---- The transitions ---- */

  function Step(c: Config, s: State, now: Word): State
    requires s.index < |s.queue|
  {
    var entry := s.queue[s.index];
    if entry.millis == 0 then
      s.(index := if s.index + 1 == QUEUE_SIZE then 0 else s.index + 1)
    else if s.phase == WaitingTimeout then
      if Elapsed(c, entry, now) then s.(phase := Running, port := 0) else s
    else if s.port + 1 >= c.maxPorts then
      State(s.queue[s.index := entry.(millis := 0)], s.index, s.port + 1, WaitingTimeout)
    else
      s.(port := s.port + 1)
  }

  function Record(c: Config, s: State, h: History, now: Word): History
    requires s.index < |s.queue|
  {
    var entry := s.queue[s.index];
    if entry.millis == 0 then h
    else if s.phase == WaitingTimeout then
      if Elapsed(c, entry, now) then h.(start := now) else h
    else
      var h' := h.(calls := h.calls + [Call(s.port, entry)]);
      if s.port + 1 >= c.maxPorts then h'.(answered := h.answered + [Answer(entry, h.start)]) else h'
  }

  // The slot a poll from an address goes to: the first that is empty or already holds one from that
  // address, whichever comes first.
  function SlotFor(queue: seq<Entry>, ip: Word): (i: nat)
    ensures i <= |queue|
    ensures i < |queue| ==> queue[i].millis == 0 || queue[i].ip == ip
    ensures forall j :: 0 <= j < i ==> queue[j].millis != 0 && queue[j].ip != ip
  {
    if queue == [] || queue[0].millis == 0 || queue[0].ip == ip then 0 else 1 + SlotFor(queue[1..], ip)
  }

  predicate Accepts(queue: seq<Entry>, poll: Entry) {
    var i := SlotFor(queue, poll.ip);
    i < |queue| && queue[i].millis == 0
  }

  function Enqueue(s: State, poll: Entry): State {
    if Accepts(s.queue, poll) then s.(queue := s.queue[SlotFor(s.queue, poll.ip) := poll]) else s
  }

  // A poll stamped with time 0 leaves its slot empty: it is lost.
  function RecordPoll(s: State, h: History, poll: Entry): History {
    if Accepts(s.queue, poll) && poll.millis != 0 then h.(accepted := h.accepted + [poll]) else h
  }

  /** A poll from an address that already has one waiting is put in the queue a second time exactly
      if an empty slot lies in front of all those already waiting. */
  lemma DuplicateAccepted(queue: seq<Entry>, poll: Entry, waiting: nat)
    requires waiting < |queue| && queue[waiting].millis != 0 && queue[waiting].ip == poll.ip
    requires forall j :: 0 <= j < waiting && queue[j].ip == poll.ip ==> queue[j].millis == 0
    ensures Accepts(queue, poll) <==> exists j :: 0 <= j < waiting && queue[j].millis == 0
  {
  }

  /* ---- Exactly one answer ---- */

  // The replies to one poll, ports 0 to n - 1 in order.
  function CallsTo(poll: Entry, n: nat): (calls: seq<Call>)
    ensures |calls| == n
  {
    seq(n, port requires 0 <= port < n => Call(port, poll))
  }

  function CallsOf(c: Config, answered: seq<Answer>): seq<Call> {
    if answered == [] then []
    else CallsOf(c, answered[..|answered| - 1]) + CallsTo(answered[|answered| - 1].poll, c.maxPorts)
  }

  function Polls(answered: seq<Answer>): (polls: seq<Entry>)
    ensures |polls| == |answered|
  {
    seq(|answered|, i requires 0 <= i < |answered| => answered[i].poll)
  }

  // The poll a slot holds, if any.
  function Slot(e: Entry): multiset<Entry> {
    if e.millis == 0 then multiset{} else multiset{e}
  }

  // The polls waiting in the queue.
  function Pending(queue: seq<Entry>): multiset<Entry>
    decreases |queue|
  {
    if queue == [] then multiset{} else Slot(queue[0]) + Pending(queue[1..])
  }

  ghost predicate InRange(c: Config, s: State) {
    && 0 < c.maxPorts < 256 && |s.queue| == QUEUE_SIZE && s.index < QUEUE_SIZE
    && (s.phase == Running ==> s.queue[s.index].millis != 0 && s.port < c.maxPorts)
  }

  // Every accepted poll is waiting or answered, and only once.
  ghost predicate OnceEach(s: State, h: History) {
    multiset(h.accepted) == Pending(s.queue) + multiset(Polls(h.answered))
  }

  // No poll is answered, or begun to be, before its delay has passed.
  ghost predicate InTime(c: Config, s: State, h: History)
    requires InRange(c, s)
  {
    && (s.phase == Running ==> Elapsed(c, s.queue[s.index], h.start))
    && (forall i :: 0 <= i < |h.answered| ==> Elapsed(c, h.answered[i].poll, h.answered[i].start))
  }

  // The replies sent are whole answers one after the other, then the begun part of one.
  ghost predicate InOrder(c: Config, s: State, h: History)
    requires InRange(c, s)
  {
    h.calls == CallsOf(c, h.answered) + CallsTo(s.queue[s.index], if s.phase == Running then s.port else 0)
  }

  ghost predicate Inv(c: Config, s: State, h: History) {
    InRange(c, s) && OnceEach(s, h) && InTime(c, s, h) && InOrder(c, s, h)
  }

  lemma {:induction false} PendingUpdate(queue: seq<Entry>, i: nat, e: Entry)
    requires i < |queue|
    ensures Pending(queue[i := e]) + Slot(queue[i]) == Pending(queue) + Slot(e)
    decreases |queue|
  {
    var rest := queue[1..];
    if i == 0 {
      assert queue[0 := e][1..] == rest;
      Exchange(Slot(e), Pending(rest), Slot(queue[0]));
    } else {
      assert queue[i := e][1..] == rest[i - 1 := e];
      PendingUpdate(rest, i - 1, e);
      Shift(Slot(queue[0]), Pending(rest[i - 1 := e]), Slot(queue[i]), Pending(rest), Slot(e));
    }
  }

  lemma Exchange(a: multiset<Entry>, b: multiset<Entry>, c: multiset<Entry>)
    ensures (a + b) + c == (c + b) + a
  {
  }

  lemma Shift(a: multiset<Entry>, b: multiset<Entry>, c: multiset<Entry>, d: multiset<Entry>, e: multiset<Entry>)
    requires b + c == d + e
    ensures (a + b) + c == (a + d) + e
  {
    assert (a + b) + c == a + (b + c) && (a + d) + e == a + (d + e);
  }

  lemma {:induction false} NothingPending(queue: seq<Entry>)
    requires forall i :: 0 <= i < |queue| ==> queue[i].millis == 0
    ensures Pending(queue) == multiset{}
    decreases |queue|
  {
    if queue != [] {
      NothingPending(queue[1..]);
    }
  }

  lemma InvStart(c: Config, s: State, h: History)
    requires 0 < c.maxPorts < 256 && |s.queue| == QUEUE_SIZE && s.index < QUEUE_SIZE && s.phase == WaitingTimeout
    requires forall i :: 0 <= i < QUEUE_SIZE ==> s.queue[i].millis == 0
    requires h.accepted == [] && h.answered == [] && h.calls == []
    ensures Inv(c, s, h)
  {
    NothingPending(s.queue);
    assert Polls(h.answered) == [];
  }

  // The step that ends an answer.
  predicate Finishes(c: Config, s: State)
    requires s.index < |s.queue|
  {
    s.queue[s.index].millis != 0 && s.phase == Running && s.port + 1 >= c.maxPorts
  }

  lemma StepOnceEach(c: Config, s: State, h: History, now: Word)
    requires InRange(c, s) && OnceEach(s, h)
    ensures OnceEach(Step(c, s, now), Record(c, s, h, now))
  {
    hide Elapsed, Polls, Pending, Slot;
    if Finishes(c, s) {
      FinishOnceEach(s, h, Answer(s.queue[s.index], h.start));
      hide OnceEach;
    }
  }

  // A poll answered leaves the queue and joins the answered.
  lemma FinishOnceEach(s: State, h: History, answer: Answer)
    requires s.index < |s.queue| && answer.poll == s.queue[s.index] && answer.poll.millis != 0
    requires OnceEach(s, h)
    ensures multiset(h.accepted)
         == Pending(s.queue[s.index := answer.poll.(millis := 0)]) + multiset(Polls(h.answered + [answer]))
  {
    PendingUpdate(s.queue, s.index, answer.poll.(millis := 0));
    AnsweredOnce(h.answered, answer);
    Moved(Pending(s.queue[s.index := answer.poll.(millis := 0)]), Slot(answer.poll), Pending(s.queue),
          multiset(Polls(h.answered)));
    hide Pending, Polls;
  }

  lemma Moved(a: multiset<Entry>, b: multiset<Entry>, c: multiset<Entry>, d: multiset<Entry>)
    requires a + b == c + multiset{}
    ensures c + d == a + (d + b) == (a + d) + b
  {
    assert c + multiset{} == c;
    assert c + d == (a + d) + b;
  }

  lemma AnsweredOnce(answered: seq<Answer>, answer: Answer)
    ensures multiset(Polls(answered + [answer])) == multiset(Polls(answered)) + multiset{answer.poll}
  {
    assert Polls(answered + [answer]) == Polls(answered) + [answer.poll];
  }

  lemma StepInOrder(c: Config, s: State, h: History, now: Word)
    requires InRange(c, s) && InOrder(c, s, h)
    ensures InRange(c, Step(c, s, now)) && InOrder(c, Step(c, s, now), Record(c, s, h, now))
  {
    hide Elapsed;
    var entry := s.queue[s.index];
    if entry.millis != 0 && s.phase == Running {
      OneMoreCall(entry, s.port);
      WholeAnswer(c, h.answered, Answer(entry, h.start));
    }
  }

  lemma OneMoreCall(poll: Entry, n: nat)
    ensures CallsTo(poll, n + 1) == CallsTo(poll, n) + [Call(n, poll)]
  {
  }

  lemma WholeAnswer(c: Config, answered: seq<Answer>, answer: Answer)
    ensures CallsOf(c, answered + [answer]) == CallsOf(c, answered) + CallsTo(answer.poll, c.maxPorts)
  {
  }

  /** No Run breaks the exactly-once bookkeeping. */
  lemma StepKeeps(c: Config, s: State, h: History, now: Word)
    requires Inv(c, s, h)
    ensures Inv(c, Step(c, s, now), Record(c, s, h, now))
  {
    StepOnceEach(c, s, h, now);
    StepInOrder(c, s, h, now);
    hide OnceEach, InOrder, Elapsed;
  }

  lemma EnqueueOnceEach(s: State, h: History, poll: Entry)
    requires OnceEach(s, h)
    ensures OnceEach(Enqueue(s, poll), RecordPoll(s, h, poll))
  {
    hide Polls, Pending;
    if Accepts(s.queue, poll) {
      var i := SlotFor(s.queue, poll.ip);
      PendingUpdate(s.queue, i, poll);
      assert multiset(h.accepted + [poll]) == multiset(h.accepted) + multiset{poll};
      Moved(Pending(s.queue), Slot(poll), Pending(s.queue[i := poll]), multiset(Polls(h.answered)));
    }
  }

  /** A poll adds to those waiting exactly if it is accepted and the clock did not stand at 0 when it came: stamped
      with 0 its slot reads as empty, and it is lost. */
  lemma ZeroStampLost(s: State, poll: Entry)
    ensures Pending(Enqueue(s, poll).queue)
         == Pending(s.queue) + if Accepts(s.queue, poll) && poll.millis != 0 then multiset{poll} else multiset{}
    ensures Pending(Enqueue(s, poll).queue) == Pending(s.queue) <==> !Accepts(s.queue, poll) || poll.millis == 0
  {
    var after := Enqueue(s, poll).queue;
    if Accepts(s.queue, poll) {
      PendingUpdate(s.queue, SlotFor(s.queue, poll.ip), poll);
    }
    hide Pending;
    assert Pending(after) + multiset{} == Pending(after);
    assert Pending(s.queue) + multiset{} == Pending(s.queue);
    assert |Pending(s.queue) + multiset{poll}| == |Pending(s.queue)| + 1;
  }

  // Only an empty slot is filled, so not the one being answered.
  lemma EnqueueApart(c: Config, s: State, poll: Entry)
    requires InRange(c, s)
    ensures InRange(c, Enqueue(s, poll))
    ensures s.phase == Running ==> Enqueue(s, poll).queue[s.index] == s.queue[s.index]
  {
  }

  /** Nor does a poll that arrives at any moment. */
  lemma EnqueueKeeps(c: Config, s: State, h: History, poll: Entry)
    requires Inv(c, s, h)
    ensures Inv(c, Enqueue(s, poll), RecordPoll(s, h, poll))
  {
    EnqueueOnceEach(s, h, poll);
    EnqueueApart(c, s, poll);
    var s' := Enqueue(s, poll);
    assert CallsTo(s'.queue[s.index], 0) == CallsTo(s.queue[s.index], 0);
    hide OnceEach, Elapsed, CallsTo, CallsOf;
  }

  /* ---- Whole runs ---- */

  // What may happen to the node: a pass of its main loop, or a poll arriving. The times are true ones; the node's
  // clock shows them modulo 2^32.
  datatype Event = Pass(time: nat) | Arrival(time: nat, ip: Word, top: int, bottom: int)

  datatype World = World(state: State, history: History)

  predicate Shaped(s: State) {
    |s.queue| == QUEUE_SIZE && s.index < QUEUE_SIZE
  }

  function PollOf(e: Event): Entry
    requires e.Arrival?
  {
    Entry(Wrap(e.time), e.ip, e.top, e.bottom)
  }

  function Happens(c: Config, w: World, e: Event): (w': World)
    requires Shaped(w.state)
    ensures Shaped(w'.state)
  {
    match e
    case Pass(time) => World(Step(c, w.state, Wrap(time)), Record(c, w.state, w.history, Wrap(time)))
    case Arrival(_, _, _, _) => World(Enqueue(w.state, PollOf(e)), RecordPoll(w.state, w.history, PollOf(e)))
  }

  function Run(c: Config, w: World, events: seq<Event>): (w': World)
    requires Shaped(w.state)
    ensures Shaped(w'.state)
    decreases |events|
  {
    if events == [] then w else Run(c, Happens(c, w, events[0]), events[1..])
  }

  ghost predicate Holding(c: Config, w: World) {
    Inv(c, w.state, w.history)
  }

  /** After every run, and so at every moment of one: each accepted poll is waiting or answered, once; the replies
      are whole answers in port order, with none interleaved; and none came before its delay. */
  lemma {:induction false} RunKeeps(c: Config, w: World, events: seq<Event>)
    requires Holding(c, w)
    ensures Shaped(w.state) && Holding(c, Run(c, w, events))
    decreases |events|
  {
    Sizes(c, w.state, w.history);
    if events != [] {
      match events[0] {
        case Pass(time) => StepKeeps(c, w.state, w.history, Wrap(time));
        case Arrival(_, _, _, _) => EnqueueKeeps(c, w.state, w.history, PollOf(events[0]));
      }
      hide Inv, Step, Record, Enqueue, RecordPoll;
      RunKeeps(c, Happens(c, w, events[0]), events[1..]);
    }
  }

  lemma Sizes(c: Config, s: State, h: History)
    requires Inv(c, s, h)
    ensures Shaped(s) && (s.phase == Running ==> s.port < c.maxPorts)
  {
  }

  /** The k-th answer is made up of exactly the replies number k * maxPorts and on, one per port in
      order, all to the k-th poll answered. */
  lemma {:induction false} ReplyAt(c: Config, answered: seq<Answer>, k: nat, port: nat)
    requires k < |answered| && port < c.maxPorts
    ensures |CallsOf(c, answered)| == |answered| * c.maxPorts
    ensures k * c.maxPorts + port < |CallsOf(c, answered)|
    ensures CallsOf(c, answered)[k * c.maxPorts + port] == Call(port, answered[k].poll)
    decreases |answered|
  {
    var n := |answered| - 1;
    var before := answered[..n];
    assert |CallsOf(c, before)| == n * c.maxPorts by {
      if n > 0 {
        ReplyAt(c, before, 0, 0);
      }
    }
    assert |answered| * c.maxPorts == n * c.maxPorts + c.maxPorts;
    if k < n {
      ReplyAt(c, before, k, port);
    }
  }

  /* ---- In true times ---- */

  // A reply: when its poll came in, and when it was sent.
  datatype Span = Span(arrival: nat, sent: nat)

  // The true times at which the polls in the slots came in, and those of every reply.
  datatype Times = Times(arrived: seq<nat>, replies: seq<Span>)

  function Timed(c: Config, s: State, k: Times, e: Event): (k': Times)
    requires Shaped(s) && |k.arrived| == QUEUE_SIZE
    ensures |k'.arrived| == QUEUE_SIZE
  {
    match e
    case Pass(time) =>
      if s.queue[s.index].millis != 0 && s.phase == Running then
        k.(replies := k.replies + [Span(k.arrived[s.index], time)])
      else k
    case Arrival(time, ip, _, _) =>
      if Accepts(s.queue, PollOf(e)) then k.(arrived := k.arrived[SlotFor(s.queue, ip) := time]) else k
  }

  function RunTimed(c: Config, w: World, k: Times, events: seq<Event>): (k': Times)
    requires Shaped(w.state) && |k.arrived| == QUEUE_SIZE
    ensures |k'.arrived| == QUEUE_SIZE
    decreases |events|
  {
    if events == [] then k else RunTimed(c, Happens(c, w, events[0]), Timed(c, w.state, k, events[0]), events[1..])
  }

  // The reply went to a poll of that time, and later than the delay after it.
  predicate Due(c: Config, call: Call, reply: Span) {
    Wrap(reply.arrival) == call.poll.millis && reply.sent - reply.arrival > c.delay
  }

  // Every reply so far was due, and the one under way is.
  ghost predicate OnTime(c: Config, w: World, k: Times, now: nat) {
    && InRange(c, w.state) && |k.arrived| == QUEUE_SIZE
    && (forall i :: 0 <= i < QUEUE_SIZE && w.state.queue[i].millis != 0 ==>
          k.arrived[i] <= now && Wrap(k.arrived[i]) == w.state.queue[i].millis)
    && (w.state.phase == Running ==> now - k.arrived[w.state.index] > c.delay)
    && |k.replies| == |w.history.calls|
    && (forall i :: 0 <= i < |k.replies| ==> Due(c, w.history.calls[i], k.replies[i]))
  }

  // The clock never shows more than the time that has passed.
  lemma ShownAtMost(time: nat, stamp: nat)
    requires stamp <= time
    ensures Wrap(Wrap(time) - Wrap(stamp)) <= time - stamp
  {
    var n, q := Wrap(time) - Wrap(stamp), stamp / UINT32 - time / UINT32;
    var r, m := (time - stamp) % UINT32, (time - stamp) / UINT32;
    assert n == UINT32 * (q + m) + r;
    Unique(n, UINT32, q + m, r);
    assert m >= 0;
  }

  lemma PassOnTime(c: Config, w: World, k: Times, now: nat, time: nat)
    requires OnTime(c, w, k, now) && now <= time
    ensures OnTime(c, Happens(c, w, Pass(time)), Timed(c, w.state, k, Pass(time)), time)
  {
    hide Wrap;
    var s := w.state;
    if s.queue[s.index].millis != 0 {
      ShownAtMost(time, k.arrived[s.index]);
    }
  }

  lemma ArrivalOnTime(c: Config, w: World, k: Times, now: nat, e: Event)
    requires OnTime(c, w, k, now) && e.Arrival? && now <= e.time
    ensures OnTime(c, Happens(c, w, e), Timed(c, w.state, k, e), e.time)
  {
    EnqueueApart(c, w.state, PollOf(e));
    hide Wrap;
  }

  function EndOf(events: seq<Event>, from: nat): nat {
    if events == [] then from else events[|events| - 1].time
  }

  /** In every run whose times do not go backwards no reply is sent before its poll's delay has passed, in true time:
      however long the clock runs and however often it comes round. */
  lemma {:induction false} RunOnTime(c: Config, w: World, k: Times, events: seq<Event>, now: nat)
    requires OnTime(c, w, k, now) && Chronological(events, now)
    ensures Shaped(w.state) && OnTime(c, Run(c, w, events), RunTimed(c, w, k, events), EndOf(events, now))
    decreases |events|
  {
    if events != [] {
      var e := events[0];
      assert now <= e.time && Chronological(events[1..], e.time);
      match e {
        case Pass(time) => PassOnTime(c, w, k, now, time);
        case Arrival(_, _, _, _) => ArrivalOnTime(c, w, k, now, e);
      }
      hide OnTime, Happens, Timed, Chronological;
      RunOnTime(c, Happens(c, w, e), Timed(c, w.state, k, e), events[1..], e.time);
    }
  }

  /* ---- Every poll is answered in time ---- */

  function After(i: nat): nat {
    if i + 1 == QUEUE_SIZE then 0 else i + 1
  }

  // How far on the slot t is.
  function Distance(i: nat, t: nat): nat
    requires i < QUEUE_SIZE && t < QUEUE_SIZE
  {
    if i <= t then t - i else t + QUEUE_SIZE - i
  }

  // The number of Runs spent on one slot: to see the delay pass, to reply for each port, to move on.
  function Cost(c: Config, e: Entry): nat {
    if e.millis == 0 then 1 else c.maxPorts + 2
  }

  // The number of Runs from reaching slot i until the slot d places on has been answered.
  function Path(c: Config, queue: seq<Entry>, i: nat, d: nat): (n: nat)
    requires |queue| == QUEUE_SIZE && i < QUEUE_SIZE
    decreases d
  {
    if d == 0 then c.maxPorts + 1 else Cost(c, queue[i]) + Path(c, queue, After(i), d - 1)
  }

  // The Runs already spent on the current slot.
  function Spent(s: State): nat {
    if s.phase == Running then 1 + s.port else 0
  }

  // The number of Runs until the poll in slot t has been answered, when every delay has passed.
  function Remaining(c: Config, s: State, t: nat): int
    requires |s.queue| == QUEUE_SIZE && s.index < QUEUE_SIZE && t < QUEUE_SIZE
  {
    Path(c, s.queue, s.index, Distance(s.index, t)) - Spent(s)
  }

  // The delay of the poll in the current slot holds the node up: this pass does nothing.
  predicate Held(c: Config, s: State, now: Word)
    requires s.index < |s.queue|
  {
    s.queue[s.index].millis != 0 && s.phase == WaitingTimeout && !Elapsed(c, s.queue[s.index], now)
  }

  predicate Holds(s: State, t: nat, poll: Entry) {
    t < |s.queue| && s.queue[t] == poll && poll.millis != 0
  }

  lemma {:induction false} PathBehind(c: Config, queue: seq<Entry>, i: nat, d: nat, at: nat, e: Entry)
    requires |queue| == QUEUE_SIZE && i < QUEUE_SIZE && at < QUEUE_SIZE && d <= Distance(i, at)
    ensures Path(c, queue[at := e], i, d) == Path(c, queue, i, d)
    decreases d
  {
    if d > 0 {
      PathBehind(c, queue, After(i), d - 1, at, e);
    }
  }

  lemma {:induction false} PathUpdate(c: Config, queue: seq<Entry>, i: nat, d: nat, at: nat, e: Entry)
    requires |queue| == QUEUE_SIZE && i < QUEUE_SIZE && at < QUEUE_SIZE && Distance(i, at) < d < QUEUE_SIZE
    ensures Path(c, queue[at := e], i, d) == Path(c, queue, i, d) - Cost(c, queue[at]) + Cost(c, e)
    decreases d
  {
    if i == at {
      PathBehind(c, queue, After(i), d - 1, at, e);
    } else {
      PathUpdate(c, queue, After(i), d - 1, at, e);
    }
  }

  /** Every pass that is not held brings a waiting poll exactly one step nearer to its answer, and the last of
      those steps is the one that completes it. */
  lemma StepNearer(c: Config, s: State, h: History, now: Word, t: nat, poll: Entry)
    requires InRange(c, s) && Holds(s, t, poll) && t < QUEUE_SIZE && !Held(c, s, now)
    ensures Remaining(c, s, t) >= 1
    ensures InRange(c, Step(c, s, now))
    ensures if Remaining(c, s, t) > 1
            then Holds(Step(c, s, now), t, poll) && Remaining(c, Step(c, s, now), t) == Remaining(c, s, t) - 1
            else exists start :: Record(c, s, h, now).answered == h.answered + [Answer(poll, start)]
  {
    hide Elapsed;
    var entry := s.queue[s.index];
    var d := Distance(s.index, t);
    if d > 0 {
      PathBounds(c, s.queue, After(s.index), d - 1);
      if Finishes(c, s) {
        PathUpdate(c, s.queue, s.index, d, s.index, entry.(millis := 0));
      }
    } else if Finishes(c, s) {
      assert Record(c, s, h, now).answered == h.answered + [Answer(poll, h.start)];
    }
  }

  /** A poll that arrives in the meantime sets it back by at most one answer. */
  lemma ArrivalSetback(c: Config, s: State, poll: Entry, t: nat, waiting: Entry)
    requires InRange(c, s) && Holds(s, t, waiting) && t < QUEUE_SIZE
    ensures InRange(c, Enqueue(s, poll)) && Holds(Enqueue(s, poll), t, waiting)
    ensures Remaining(c, Enqueue(s, poll), t) <= Remaining(c, s, t) + c.maxPorts + 1
  {
    EnqueueApart(c, s, poll);
    if Accepts(s.queue, poll) {
      var at := SlotFor(s.queue, poll.ip);
      var d := Distance(s.index, t);
      if Distance(s.index, at) < d {
        PathUpdate(c, s.queue, s.index, d, at, poll);
      } else {
        PathBehind(c, s.queue, s.index, d, at, poll);
      }
    }
  }

  // The passes of a run that are not held, and the polls that arrive.
  function Unheld(c: Config, w: World, events: seq<Event>): nat
    requires Shaped(w.state)
    decreases |events|
  {
    if events == [] then 0
    else (if events[0].Pass? && !Held(c, w.state, Wrap(events[0].time)) then 1 else 0)
         + Unheld(c, Happens(c, w, events[0]), events[1..])
  }

  function Arrivals(events: seq<Event>): nat {
    if events == [] then 0 else (if events[0].Arrival? then 1 else 0) + Arrivals(events[1..])
  }

  // Among the answers given since is one to the poll.
  ghost predicate AnsweredSince(h: History, h': History, poll: Entry) {
    exists i :: |h.answered| <= i < |h'.answered| && h'.answered[i].poll == poll
  }

  lemma {:induction false} RunGrows(c: Config, w: World, events: seq<Event>)
    requires Shaped(w.state)
    ensures w.history.answered <= Run(c, w, events).history.answered
    decreases |events|
  {
    if events != [] {
      RunGrows(c, Happens(c, w, events[0]), events[1..]);
      hide Elapsed, SlotFor;
    }
  }

  lemma AnsweredLater(c: Config, w: World, w': World, events: seq<Event>, poll: Entry)
    requires Shaped(w'.state) && w.history.answered <= w'.history.answered
    requires AnsweredSince(w.history, w'.history, poll)
             || AnsweredSince(w'.history, Run(c, w', events).history, poll)
    ensures AnsweredSince(w.history, Run(c, w', events).history, poll)
  {
    RunGrows(c, w', events);
    hide Run;
    if i :| |w.history.answered| <= i < |w'.history.answered| && w'.history.answered[i].poll == poll {
      assert Run(c, w', events).history.answered[i].poll == poll;
    }
  }

  lemma Single(c: Config, w: World, e: Event)
    requires Shaped(w.state)
    ensures Run(c, w, [e]) == Happens(c, w, e)
    ensures Unheld(c, w, [e]) == if e.Pass? && !Held(c, w.state, Wrap(e.time)) then 1 else 0
    ensures Arrivals([e]) == if e.Arrival? then 1 else 0
  {
    hide Happens, Held;
    assert [e][1..] == [];
  }

  /** In every run a waiting poll has been answered once there have been as many passes that are not held as it had
      remaining, and maxPorts + 1 more for every poll that arrived. */
  lemma {:induction false} Answered(c: Config, w: World, events: seq<Event>, t: nat, poll: Entry)
    requires InRange(c, w.state) && Holds(w.state, t, poll) && t < QUEUE_SIZE
    requires Unheld(c, w, events) >= Remaining(c, w.state, t) + Arrivals(events) * (c.maxPorts + 1)
    ensures AnsweredSince(w.history, Run(c, w, events).history, poll)
    decreases |events|
  {
    hide Remaining, Elapsed, SlotFor, Path, Distance;
    RemainingPositive(c, w.state, t);
    if events != [] {
      var w', rest := Happens(c, w, events[0]), events[1..];
      RunGrows(c, w, [events[0]]);
      Single(c, w, events[0]);
      if events[0].Arrival? {
        ArrivalSetback(c, w.state, PollOf(events[0]), t, poll);
        OneArrivalMore(Arrivals(rest), c.maxPorts + 1);
        Answered(c, w', rest, t, poll);
      } else if Held(c, w.state, Wrap(events[0].time)) {
        Answered(c, w', rest, t, poll);
      } else {
        StepNearer(c, w.state, w.history, Wrap(events[0].time), t, poll);
        if Remaining(c, w.state, t) > 1 {
          Answered(c, w', rest, t, poll);
        } else {
          assert w'.history.answered[|w.history.answered|].poll == poll;
        }
      }
      AnsweredLater(c, w, w', rest, poll);
    }
  }

  lemma OneArrivalMore(n: nat, cost: nat)
    ensures (n + 1) * cost == n * cost + cost
  {
  }

  lemma RemainingPositive(c: Config, s: State, t: nat)
    requires InRange(c, s) && t < QUEUE_SIZE
    ensures 1 <= Remaining(c, s, t) <= 4 * c.maxPorts + 7
  {
    PathBounds(c, s.queue, s.index, Distance(s.index, t));
  }

  lemma PathBounds(c: Config, queue: seq<Entry>, i: nat, d: nat)
    requires |queue| == QUEUE_SIZE && i < QUEUE_SIZE
    ensures c.maxPorts + 1 <= Path(c, queue, i, d) <= d * (c.maxPorts + 2) + c.maxPorts + 1
    decreases d
  {
    if d > 0 {
      PathBounds(c, queue, After(i), d - 1);
      OneArrivalMore(d - 1, c.maxPorts + 2);
    }
  }

  /* ---- By the clock ---- */

  // Every waiting poll is stamped with a time from lo to hi.
  ghost predicate Stamped(s: State, lo: nat, hi: nat) {
    forall i :: 0 <= i < |s.queue| && s.queue[i].millis != 0 ==> StampedWithin(s.queue[i].millis, lo, hi)
  }

  ghost predicate StampedWithin(millis: Word, lo: nat, hi: nat) {
    exists time: nat :: lo <= time <= hi && Wrap(time) == millis
  }

  // Every poll of the run arrives from lo to hi.
  predicate ArriveWithin(events: seq<Event>, lo: nat, hi: nat) {
    forall e :: e in events && e.Arrival? ==> lo <= e.time <= hi
  }

  // A pass later than the delay of every poll stamped from lo to hi, and before the clock comes round to them.
  predicate Late(c: Config, e: Event, lo: nat, hi: nat) {
    e.Pass? && hi + c.delay < e.time < lo + UINT32
  }

  function LatePasses(c: Config, events: seq<Event>, lo: nat, hi: nat): nat {
    if events == [] then 0 else (if Late(c, events[0], lo, hi) then 1 else 0) + LatePasses(c, events[1..], lo, hi)
  }

  lemma ClockDifference(time: nat, stamp: nat)
    requires stamp <= time < stamp + UINT32
    ensures Wrap(Wrap(time) - Wrap(stamp)) == time - stamp
  {
    var n, q := Wrap(time) - Wrap(stamp), stamp / UINT32 - time / UINT32;
    assert n == UINT32 * q + (time - stamp);
    Unique(n, UINT32, q, time - stamp);
  }

  lemma LateUnheld(c: Config, s: State, e: Event, lo: nat, hi: nat)
    requires s.index < |s.queue| && Stamped(s, lo, hi) && Late(c, e, lo, hi)
    ensures e.Pass? && !Held(c, s, Wrap(e.time))
  {
    var millis := s.queue[s.index].millis;
    if millis != 0 {
      var stamp: nat :| lo <= stamp <= hi && Wrap(stamp) == millis;
      ClockDifference(e.time, stamp);
      hide Wrap;
    }
  }

  lemma StampsKept(c: Config, w: World, e: Event, lo: nat, hi: nat)
    requires Shaped(w.state) && Stamped(w.state, lo, hi)
    requires e.Arrival? ==> lo <= e.time <= hi
    ensures Stamped(Happens(c, w, e).state, lo, hi)
  {
    hide Elapsed, SlotFor, Wrap;
    if e.Arrival? {
      assert StampedWithin(PollOf(e).millis, lo, hi);
    }
  }

  lemma {:induction false} LateCounted(c: Config, w: World, events: seq<Event>, lo: nat, hi: nat)
    requires Shaped(w.state) && Stamped(w.state, lo, hi) && ArriveWithin(events, lo, hi)
    ensures LatePasses(c, events, lo, hi) <= Unheld(c, w, events)
    decreases |events|
  {
    hide Stamped, Late, Held, Happens;
    if events != [] {
      assert events[0] in events;
      StampsKept(c, w, events[0], lo, hi);
      if Late(c, events[0], lo, hi) {
        LateUnheld(c, w.state, events[0], lo, hi);
      }
      LateCounted(c, Happens(c, w, events[0]), events[1..], lo, hi);
    }
  }

  /** By the clock: if all polls, those waiting and those to come, are of the times lo to hi, a waiting one has been
      answered once there have been that many passes at times beyond hi plus the delay. */
  lemma AnsweredByClock(c: Config, w: World, events: seq<Event>, t: nat, poll: Entry, lo: nat, hi: nat)
    requires InRange(c, w.state) && Holds(w.state, t, poll) && t < QUEUE_SIZE
    requires Stamped(w.state, lo, hi) && ArriveWithin(events, lo, hi)
    requires LatePasses(c, events, lo, hi) >= Remaining(c, w.state, t) + Arrivals(events) * (c.maxPorts + 1)
    ensures AnsweredSince(w.history, Run(c, w, events).history, poll)
  {
    hide Remaining, LatePasses, Arrivals, Stamped;
    LateCounted(c, w, events, lo, hi);
    Answered(c, w, events, t, poll);
  }

  /* ---- A slot refilled starves the others ---- */

  lemma {:induction false} RunOn(c: Config, w: World, events: seq<Event>, more: seq<Event>)
    requires Shaped(w.state)
    ensures Run(c, w, events + more) == Run(c, Run(c, w, events), more)
    ensures Unheld(c, w, events + more) == Unheld(c, w, events) + Unheld(c, Run(c, w, events), more)
    ensures Arrivals(events + more) == Arrivals(events) + Arrivals(more)
    decreases |events|
  {
    hide Happens, Held;
    if events == [] {
      assert events + more == more;
    } else {
      assert (events + more)[0] == events[0] && (events + more)[1..] == events[1..] + more;
      RunOn(c, Happens(c, w, events[0]), events[1..], more);
    }
  }

  // Passes of the main loop within one millisecond.
  function Passes(time: nat, n: nat): (events: seq<Event>)
    ensures |events| == n
    ensures forall i :: 0 <= i < n ==> events[i] == Pass(time)
  {
    seq(n, _ => Pass(time))
  }

  // The poll in the first slot is up.
  predicate FirstUp(c: Config, s: State) {
    0 < c.maxPorts && |s.queue| == QUEUE_SIZE && s.index == 0 && s.queue[0].millis != 0
  }

  lemma {:induction false} RunReplies(c: Config, w: World, time: nat, n: nat)
    requires FirstUp(c, w.state) && w.state.phase == Running && w.state.port + n == c.maxPorts && n > 0
    ensures var w' := Run(c, w, Passes(time, n));
            var poll := w.state.queue[0];
            && w'.state == State(w.state.queue[0 := poll.(millis := 0)], 0, c.maxPorts, WaitingTimeout)
            && w'.history.answered == w.history.answered + [Answer(poll, w.history.start)]
    ensures Unheld(c, w, Passes(time, n)) == n && Arrivals(Passes(time, n)) == 0
    decreases n
  {
    hide Elapsed, Wrap;
    var w' := Happens(c, w, Pass(time));
    assert Passes(time, n)[0] == Pass(time);
    assert Passes(time, n)[1..] == Passes(time, n - 1);
    if n > 1 {
      RunReplies(c, w', time, n - 1);
    } else {
      assert Passes(time, 0) == [];
    }
  }

  // The first millisecond from a time on in which the clock does not read 0.
  function NextStamp(time: nat): (stamp: nat)
    ensures time <= stamp <= time + 1 && Wrap(stamp) != 0
  {
    if Wrap(time) == 0 then
      OneMore(time);
      time + 1
    else time
  }

  lemma OneMore(time: nat)
    requires Wrap(time) == 0
    ensures Wrap(time + 1) == 1
  {
  }

  // The first slot's poll is answered as soon as its delay has passed, and the same address polls again at once.
  function Round(c: Config, time: nat, poll: Entry): seq<Event> {
    var now := time + c.delay + 1;
    Passes(now, c.maxPorts + 1) + [Arrival(NextStamp(now), poll.ip, poll.top, poll.bottom)]
  }

  function Rounds(c: Config, time: nat, poll: Entry, n: nat): seq<Event>
    decreases n
  {
    if n == 0 then [] else Round(c, time, poll) + Rounds(c, NextStamp(time + c.delay + 1), poll, n - 1)
  }

  // The scheduler looks at the first slot, which holds the poll of that time.
  predicate WaitsFirst(c: Config, s: State, time: nat, poll: Entry) {
    FirstUp(c, s) && s.phase == WaitingTimeout && s.queue[0] == poll.(millis := Wrap(time))
  }

  lemma SeesDelayPass(c: Config, w: World, time: nat, poll: Entry)
    requires WaitsFirst(c, w.state, time, poll) && c.delay + 1 < UINT32
    ensures var now := time + c.delay + 1;
            !Held(c, w.state, Wrap(now))
            && Happens(c, w, Pass(now))
               == World(w.state.(phase := Running, port := 0), w.history.(start := Wrap(now)))
  {
    ClockDifference(time + c.delay + 1, time);
    hide Wrap;
  }

  lemma Refilled(c: Config, w: World, stamp: nat, poll: Entry)
    requires |w.state.queue| == QUEUE_SIZE && w.state.index == 0 && w.state.queue[0].millis == 0 && Wrap(stamp) != 0
    requires 0 < c.maxPorts && w.state.phase == WaitingTimeout
    ensures var w' := Happens(c, w, Arrival(stamp, poll.ip, poll.top, poll.bottom));
            && w'.state == w.state.(queue := w.state.queue[0 := poll.(millis := Wrap(stamp))])
            && WaitsFirst(c, w'.state, stamp, poll)
            && w'.history.answered == w.history.answered
  {
    hide Wrap;
  }

  lemma OneRound(c: Config, w: World, time: nat, poll: Entry)
    requires WaitsFirst(c, w.state, time, poll) && c.delay + 1 < UINT32
    ensures var w', stamp := Run(c, w, Round(c, time, poll)), NextStamp(time + c.delay + 1);
            && WaitsFirst(c, w'.state, stamp, poll) && w'.state.queue[1..] == w.state.queue[1..]
            && exists start :: w'.history.answered
                               == w.history.answered + [Answer(poll.(millis := Wrap(time)), start)]
    ensures Unheld(c, w, Round(c, time, poll)) == c.maxPorts + 1 && Arrivals(Round(c, time, poll)) == 1
  {
    hide Elapsed, Held, NextStamp, Run, Unheld, Happens;
    var now := time + c.delay + 1;
    var stamp, passes := NextStamp(now), Passes(now, c.maxPorts);
    var arrival := Arrival(stamp, poll.ip, poll.top, poll.bottom);
    var w1 := Happens(c, w, Pass(now));
    var w2 := Run(c, w1, passes);
    SeesDelayPass(c, w, time, poll);
    RunReplies(c, w1, now, c.maxPorts);
    StampNotZero(now);
    Refilled(c, w2, stamp, poll);
    assert Round(c, time, poll) == [Pass(now)] + (passes + [arrival]);
    Single(c, w, Pass(now));
    Single(c, w2, arrival);
    RunOn(c, w, [Pass(now)], passes + [arrival]);
    RunOn(c, w1, passes, [arrival]);
    assert w2.history.answered == w.history.answered + [Answer(poll.(millis := Wrap(time)), Wrap(now))];
  }

  lemma StampNotZero(time: nat)
    ensures Wrap(NextStamp(time)) != 0
  {
  }

  // The times of a run do not go backwards.
  predicate Chronological(events: seq<Event>, from: nat) {
    forall i, j :: 0 <= i <= j < |events| ==> from <= events[i].time <= events[j].time
  }

  lemma RoundsChronological(c: Config, time: nat, poll: Entry, n: nat)
    ensures Chronological(Rounds(c, time, poll, n), time)
    decreases n
  {
    if n > 0 {
      RoundsChronological(c, NextStamp(time + c.delay + 1), poll, n - 1);
    }
  }

  /** The arrivals cannot be left out of that count, nor counted for less. However many ports there are and whatever
      the delay, if the first slot's address polls again whenever it has been answered, the polls in the other slots
      are still waiting after n arrivals and n * (maxPorts + 1) passes none of which was held, for every n: the times
      go forward, and every stamp is the clock's at its arrival. */
  lemma {:induction false} Starvation(c: Config, w: World, time: nat, poll: Entry, n: nat)
    requires WaitsFirst(c, w.state, time, poll) && c.delay + 1 < UINT32
    ensures var events := Rounds(c, time, poll, n);
            var w' := Run(c, w, events);
            && Chronological(events, time) && Arrivals(events) == n
            && Unheld(c, w, events) == n * (c.maxPorts + 1)
            && w'.state.queue[1..] == w.state.queue[1..]
            && forall other :: AnsweredSince(w.history, w'.history, other) ==> other.ip == poll.ip
    decreases n
  {
    hide Run, Unheld, Arrivals, Round, Chronological, NextStamp, Wrap;
    RoundsChronological(c, time, poll, n);
    if n > 0 {
      var round, stamp := Round(c, time, poll), NextStamp(time + c.delay + 1);
      var w' := Run(c, w, round);
      OneRound(c, w, time, poll);
      Starvation(c, w', stamp, poll, n - 1);
      RunOn(c, w, round, Rounds(c, stamp, poll, n - 1));
      OneArrivalMore(n - 1, c.maxPorts + 1);
      OnlyAnswered(c, w, w', Rounds(c, stamp, poll, n - 1), poll.(millis := Wrap(time)));
      hide AnsweredSince;
    } else {
      NothingRun(c, w);
    }
  }

  lemma OnlyAnswered(c: Config, w: World, w': World, events: seq<Event>, poll: Entry)
    requires Shaped(w'.state)
    requires exists start :: w'.history.answered == w.history.answered + [Answer(poll, start)]
    ensures forall other :: AnsweredSince(w.history, Run(c, w', events).history, other)
                        ==> other == poll || AnsweredSince(w'.history, Run(c, w', events).history, other)
  {
    RunGrows(c, w', events);
    hide Run;
  }

  lemma NothingRun(c: Config, w: World)
    requires Shaped(w.state)
    ensures Run(c, w, []) == w && Unheld(c, w, []) == 0 && Arrivals([]) == 0
  {
  }

  /* ---- The node ---- */

  lemma SlotIs(queue: seq<Entry>, poll: Entry, i: nat)
    requires i <= |queue| && forall j :: 0 <= j < i ==> queue[j].millis != 0 && queue[j].ip != poll.ip
    requires i < |queue| ==> queue[i].millis == 0 || queue[i].ip == poll.ip
    ensures SlotFor(queue, poll.ip) == i
    ensures Accepts(queue, poll) <==> i < |queue| && queue[i].millis == 0
  {
  }

  class Node {
    const c: Config
    const queue: array<Entry>
    var queueIndex: nat
    var portIndex: nat
    var phase: Phase
    ghost var history: History

    ghost function View(): State
      reads this, queue
    {
      State(queue[..], queueIndex, portIndex, phase)
    }

    ghost predicate Valid()
      reads this, queue
    {
      Inv(c, View(), history)
    }

    constructor (c: Config)
      requires 0 < c.maxPorts < 256
      ensures Valid() && this.c == c && fresh(queue)
      ensures queue.Length == 4 && (forall i :: 0 <= i < 4 ==> queue[i].millis == 0)
      ensures queueIndex == 0 && phase == WaitingTimeout && history == History([], [], 0, [])
    {
      this.c := c;
      queue := new Entry[QUEUE_SIZE](_ => Entry(0, 0, 0, 0));
      queueIndex, portIndex, phase := 0, 0, WaitingTimeout;
      history := History([], [], 0, []);
      new;
      InvStart(c, View(), history);
      hide Inv;
    }

    /** The queue part of one pass of the main loop. */
    method Run(now: Word)
      requires Valid()
      modifies this, queue
      ensures Valid()
      ensures View() == Step(c, old(View()), now)
      ensures history == Record(c, old(View()), old(history), now)
      ensures var entry, at, port := old(queue[queueIndex]), old(queueIndex), old(portIndex);
              if entry.millis == 0 then
                && queueIndex == (at + 1) % 4 && portIndex == port && phase == old(phase)
                && queue[..] == old(queue[..]) && history == old(history)
              else if old(phase) == Running then
                && queueIndex == at && portIndex == port + 1
                && phase == (if port == c.maxPorts - 1 then WaitingTimeout else Running)
                && queue[..] == (if port == c.maxPorts - 1 then old(queue[..])[at := entry.(millis := 0)]
                                 else old(queue[..]))
                && history.calls == old(history.calls) + [Call(port, entry)]
              else
                var over := (now - entry.millis) % 0x1_0000_0000 > c.delay;
                && queueIndex == at && portIndex == (if over then 0 else port)
                && phase == (if over then Running else WaitingTimeout)
                && queue[..] == old(queue[..]) && history.calls == old(history.calls)
    {
      hide Inv;
      ghost var before, past := View(), history;
      StepKeeps(c, before, past, now);
      Sizes(c, before, past);
      var entry := queue[queueIndex];
      assert entry == before.queue[before.index];
      if entry.millis != 0 {
        if phase == WaitingTimeout {
          if Elapsed(c, entry, now) {
            phase := Running;
            portIndex := 0;
            history := history.(start := now);
          }
          assert View().queue == before.queue;
        } else {
          // SendPollReply: what the reply says, and whether the port is enabled, is left open.
          history := history.(calls := history.calls + [Call(portIndex, entry)]);
          portIndex := portIndex + 1;
          if portIndex >= c.maxPorts {
            queue[queueIndex] := entry.(millis := 0);
            phase := WaitingTimeout;
            history := history.(answered := history.answered + [Answer(entry, history.start)]);
            assert View().queue == before.queue[before.index := entry.(millis := 0)];
          } else {
            assert View().queue == before.queue;
          }
        }
      } else {
        queueIndex := queueIndex + 1;
        if queueIndex == QUEUE_SIZE {
          queueIndex := 0;
        }
        assert View().queue == before.queue;
      }
    }

    /** A poll has come in from an address, at a time. */
    method PollReplyQueueAdd(poll: Entry)
      requires Valid()
      modifies this`history, queue
      ensures Valid()
      ensures View() == Enqueue(old(View()), poll)
      ensures history == RecordPoll(old(View()), old(history), poll)
      ensures forall i :: 0 <= i < queue.Length && old(queue[i]).millis == 0
                    && (forall j :: 0 <= j < i ==> old(queue[j]).millis != 0 && old(queue[j]).ip != poll.ip)
                ==> queue[..] == old(queue[..])[i := poll]
      ensures queue[..] == old(queue[..])
              || exists i :: 0 <= i < queue.Length && old(queue[i]).millis == 0
                   && forall j :: 0 <= j < i ==> old(queue[j]).millis != 0 && old(queue[j]).ip != poll.ip
    {
      hide Inv, SlotFor, Accepts;
      EnqueueKeeps(c, View(), history, poll);
      ghost var before := queue[..];
      for i := 0 to queue.Length
        invariant queue[..] == before
        invariant forall j :: 0 <= j < i ==> before[j].millis != 0 && before[j].ip != poll.ip
      {
        if queue[i].ip == poll.ip && queue[i].millis != 0 {
          SlotIs(before, poll, i);
          return;
        }
        if queue[i].millis == 0 {
          SlotIs(before, poll, i);
          queue[i] := poll;
          if poll.millis != 0 {
            history := history.(accepted := history.accepted + [poll]);
          }
          return;
        }
      }
      SlotIs(before, poll, queue.Length);
    }
  }
}
