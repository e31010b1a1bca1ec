/** One subscription of the event hub as a state machine: the steps of the publisher and of the consumer, interleaved in
    any order. */
module EventStreams {
  const MAX_UINT64 := 0xFFFF_FFFF_FFFF_FFFF

  /** An event, with the number of events that its subscriber lost before it. */
  datatype Event = Event(sequence: nat, dropped: nat, body: nat)

  function SaturatingAdd(a: nat, b: nat): nat {
    if a > MAX_UINT64 - b then MAX_UINT64 else a + b
  }

  // ---------------------------------------------------------------- accounting

  /** Events accounted for: those in the list and those reported lost. */
  function Tally(s: seq<Event>): nat
    decreases |s|
  {
    if s == [] then 0 else Tally(s[..|s| - 1]) + s[|s| - 1].dropped + 1
  }

  /** The last sequence seen, starting from one. */
  function Seen(from: nat, s: seq<Event>): nat {
    if s == [] then from else s[|s| - 1].sequence
  }

  /** Every event reports exactly the gap to the one before it. */
  predicate Exact(from: nat, s: seq<Event>)
    decreases |s|
  {
    s == [] ||
    (var last := |s| - 1;
     Exact(from, s[..last]) && s[last].sequence == Seen(from, s[..last]) + s[last].dropped + 1)
  }

  predicate Increasing(from: nat, s: seq<Event>) {
    && (forall i :: 0 <= i < |s| ==> s[i].sequence > from)
    && (forall i, j :: 0 <= i < j < |s| ==> s[i].sequence < s[j].sequence)
  }

  /** A queue is a gapless account of what leads up to a sequence. */
  predicate EndsAt(queue: seq<Event>, newest: nat)
    decreases |queue|
  {
    queue == [] ||
    (var last := queue[|queue| - 1];
     last.sequence == newest && last.dropped + 1 <= newest && EndsAt(queue[..|queue| - 1], newest - last.dropped - 1))
  }

  lemma {:induction false} TallyConcat(a: seq<Event>, b: seq<Event>)
    ensures Tally(a + b) == Tally(a) + Tally(b)
    decreases |b|
  {
    if b == [] {
      assert a + b == a;
    } else {
      TallyConcat(a, b[..|b| - 1]);
      assert (a + b)[..|a + b| - 1] == a + b[..|b| - 1];
    }
  }

  lemma TallySnoc(s: seq<Event>, e: Event)
    ensures Tally(s + [e]) == Tally(s) + e.dropped + 1
    ensures Tally([e]) == e.dropped + 1
  {
    assert (s + [e])[..|s|] == s && [e][..0] == [];
  }

  lemma ExactSnoc(from: nat, s: seq<Event>, e: Event)
    ensures Exact(from, s + [e]) <==> Exact(from, s) && e.sequence == Seen(from, s) + e.dropped + 1
  {
    assert (s + [e])[..|s|] == s;
  }

  lemma EndsAtSnoc(queue: seq<Event>, e: Event, newest: nat)
    requires EndsAt(queue, newest) && e.sequence == newest + e.dropped + 1
    ensures EndsAt(queue + [e], e.sequence)
  {
    assert (queue + [e])[..|queue|] == queue;
  }

  /** Exact reports add up: every sequence up to the last one seen is accounted for. */
  lemma {:induction false} ExactTally(from: nat, s: seq<Event>)
    requires Exact(from, s)
    ensures from + Tally(s) == Seen(from, s)
    decreases |s|
  {
    if s != [] {
      ExactTally(from, s[..|s| - 1]);
    }
  }

  lemma IncreasingAppend(from: nat, s: seq<Event>, e: Event)
    requires Increasing(from, s) && Seen(from, s) < e.sequence
    ensures Increasing(from, s + [e])
  {
  }

  lemma IncreasingDrop(from: nat, a: seq<Event>, head: Event, b: seq<Event>)
    requires Increasing(from, a + [head] + b)
    ensures Increasing(from, a + b)
  {
    var s, t := a + b, a + [head] + b;
    assert forall i :: 0 <= i < |s| ==> s[i] == t[if i < |a| then i else i + 1];
  }

  lemma SeenLast(from: nat, received: seq<Event>, queue: seq<Event>, newest: nat)
    requires EndsAt(queue, newest) && Seen(from, received) <= newest
    ensures Seen(from, received + queue) <= newest
  {
  }

  lemma Appended(from: nat, received: seq<Event>, queue: seq<Event>, event: Event, newest: nat)
    requires EndsAt(queue, newest) && Increasing(from, received + queue) && Seen(from, received) <= newest
    requires event.sequence == newest + 1 && event.dropped <= newest && (queue != [] ==> event.dropped == 0)
    ensures EndsAt(queue + [event], event.sequence) && Increasing(from, received + (queue + [event]))
    ensures Tally(queue + [event]) == Tally(queue) + event.dropped + 1
  {
    hide Tally;
    TallySnoc(queue, event);
    SeenLast(from, received, queue, newest);
    IncreasingAppend(from, received + queue, event);
    assert received + (queue + [event]) == received + queue + [event];
    if queue != [] {
      EndsAtSnoc(queue, event, newest);
    } else {
      assert [event][..0] == [] && queue + [event] == [event];
    }
  }

  /** Taking the head off a queue. */
  lemma {:induction false} QueueHead(queue: seq<Event>, newest: nat)
    requires EndsAt(queue, newest) && queue != []
    ensures EndsAt(queue[1..], newest)
    ensures Tally(queue) == queue[0].dropped + 1 + Tally(queue[1..])
    ensures queue[0].sequence + Tally(queue[1..]) == newest
    decreases |queue|
  {
    var last := queue[|queue| - 1];
    if |queue| == 1 {
      assert queue[1..] == [] && queue[..0] == [];
    } else {
      QueueHead(queue[..|queue| - 1], newest - last.dropped - 1);
      var rest := queue[1..];
      assert rest[..|rest| - 1] == queue[..|queue| - 1][1..];
    }
  }

  // ---------------------------------------------------------------- the machine

  /** What the publisher is doing: nothing, or draining a full queue to make room for an event. */
  datatype Phase = Idle | Draining(body: nat, dropped: nat)

  /** A subscription to the events after a sequence. The events after `base` are offered to it, in order; those between
      the two were no longer retained when it began. */
  datatype Stream = Stream(
    capacity: nat,
    after: nat,
    base: nat,
    offered: seq<Event>,
    queue: seq<Event>,
    pendingDropped: nat,
    attached: bool,
    received: seq<Event>,
    phase: Phase)
  {
    function Newest(): nat {
      base + |offered|
    }

    function Next(body: nat): Event {
      Event(Newest() + 1, 0, body)
    }

    /** Losses that no queued event reports yet. */
    function Unreported(): nat {
      if phase.Idle? then pendingDropped else phase.dropped
    }

    /** All that the consumer has, or can still receive of what was offered so far. */
    function Delivered(): seq<Event> {
      received + queue
    }
  }

  function Start(capacity: nat, after: nat, gap: nat): Stream {
    Stream(capacity, after, after + gap, [], [], gap, false, [], Idle)
  }

  /** Subscribe hands the stream to the consumer, the consumer receives, and the publisher sends at once or drains
      first. An empty channel ends the drain. */
  datatype Step = Attach | Receive | FastSend(body: nat) | StartDrain(body: nat) | Discard | FinalSend

  predicate Can(s: Stream, step: Step) {
    match step
    case Attach => s.phase.Idle? && !s.attached
    case Receive => s.attached && s.queue != []
    case FastSend(_) => s.phase.Idle? && |s.queue| < s.capacity && s.Newest() < MAX_UINT64
    case StartDrain(_) => s.phase.Idle? && |s.queue| == s.capacity && s.Newest() < MAX_UINT64
    case Discard => s.phase.Draining? && s.queue != []
    case FinalSend => s.phase.Draining? && s.queue == []
  }

  function Do(s: Stream, step: Step): Stream
    requires Can(s, step)
  {
    match step
    case Attach =>
      s.(attached := true)
    case Receive =>
      s.(received := s.received + [s.queue[0]], queue := s.queue[1..])
    case FastSend(body) =>
      s.(offered := s.offered + [s.Next(body)],
         queue := s.queue + [s.Next(body).(dropped := s.pendingDropped)],
         pendingDropped := 0)
    case StartDrain(body) =>
      s.(phase := Draining(body, s.pendingDropped))
    case Discard =>
      s.(phase := s.phase.(dropped := SaturatingAdd(s.phase.dropped, SaturatingAdd(s.queue[0].dropped, 1))),
         queue := s.queue[1..])
    case FinalSend =>
      s.(offered := s.offered + [s.Next(s.phase.body)],
         queue := [s.Next(s.phase.body).(dropped := s.phase.dropped)],
         pendingDropped := 0,
         phase := Idle)
  }

  predicate CanRun(s: Stream, steps: seq<Step>)
    decreases |steps|
  {
    steps == [] || (Can(s, steps[0]) && CanRun(Do(s, steps[0]), steps[1..]))
  }

  function Run(s: Stream, steps: seq<Step>): Stream
    requires CanRun(s, steps)
    decreases |steps|
  {
    if steps == [] then s else Run(Do(s, steps[0]), steps[1..])
  }

  lemma {:induction false} RunConcat(s: Stream, a: seq<Step>, b: seq<Step>)
    requires CanRun(s, a) && CanRun(Run(s, a), b)
    ensures CanRun(s, a + b) && Run(s, a + b) == Run(Run(s, a), b)
    decreases |a|
  {
    if a == [] {
      assert a + b == b;
    } else {
      RunConcat(Do(s, a[0]), a[1..], b);
      assert (a + b)[0] == a[0] && (a + b)[1..] == a[1..] + b;
    }
  }

  /** One state leads to another by some steps. */
  ghost predicate Reaches(s: Stream, t: Stream) {
    exists steps :: CanRun(s, steps) && Run(s, steps) == t
  }

  lemma ReachesSelf(s: Stream)
    ensures Reaches(s, s)
  {
    assert CanRun(s, []) && Run(s, []) == s;
  }

  lemma ReachesStep(s: Stream, t: Stream, step: Step)
    requires Reaches(s, t) && Can(t, step)
    ensures Reaches(s, Do(t, step))
  {
    var steps :| CanRun(s, steps) && Run(s, steps) == t;
    assert [step][0] == step && [step][1..] == [];
    assert CanRun(Do(t, step), []);
    assert CanRun(t, [step]) && Run(t, [step]) == Run(Do(t, step), []);
    RunConcat(s, steps, [step]);
  }

  // ---------------------------------------------------------------- what every step keeps

  /** The offered events are numbered without gaps. */
  predicate Numbered(s: Stream) {
    forall i :: 0 <= i < |s.offered| ==> s.offered[i].sequence == s.base + 1 + i && s.offered[i].dropped == 0
  }

  /** Every event of a list is, but for the losses it reports, the offered event of its sequence. */
  predicate FromOffered(s: Stream, list: seq<Event>) {
    forall i :: 0 <= i < |list| ==>
                  && s.base < list[i].sequence <= s.Newest()
                  && list[i].(dropped := 0) == s.offered[list[i].sequence - s.base - 1]
  }

  /** Every sequence is received, queued, reported lost, or still to be reported. */
  predicate Accounts(s: Stream) {
    && s.after + Tally(s.received) + Tally(s.queue) + s.Unreported() == s.Newest()
    && EndsAt(s.queue, s.Newest())
    && Increasing(s.after, s.Delivered())
    && s.after + Tally(s.received) <= Seen(s.after, s.received) <= s.Newest()
  }

  /** The consumer has seen exact reports, and nothing stands between it and an exact next one. */
  predicate Reporting(s: Stream) {
    Exact(s.after, s.received) && (s.queue != [] ==> s.Unreported() == 0)
  }

  predicate Sound(s: Stream) {
    && 0 < s.capacity && |s.queue| <= s.capacity && s.after <= s.base && s.Newest() <= MAX_UINT64
    && Numbered(s) && FromOffered(s, s.Delivered()) && Accounts(s)
    && (s.queue != [] ==> s.pendingDropped == 0)
    && (s.phase.Draining? ==> s.pendingDropped == 0 && s.Newest() < MAX_UINT64)
    && (s.capacity == 1 ==> Reporting(s))
  }

  lemma StartSound(capacity: nat, after: nat, gap: nat)
    requires capacity > 0 && after + gap <= MAX_UINT64
    ensures Sound(Start(capacity, after, gap)) && Reporting(Start(capacity, after, gap))
  {
  }

  /** Receiving moves the head of the queue over, which reports its gap exactly when nothing is unreported. */
  lemma ReceiveReports(s: Stream)
    requires Can(s, Receive) && Accounts(s)
    ensures Accounts(Do(s, Receive))
    ensures Exact(s.after, s.received) ==> (Exact(s.after, Do(s, Receive).received) <==> s.Unreported() == 0)
    ensures Exact(s.after, Do(s, Receive).received) ==> Exact(s.after, s.received)
  {
    hide Increasing;
    var head := s.queue[0];
    var t := Do(s, Receive);
    QueueHead(s.queue, s.Newest());
    TallySnoc(s.received, head);
    ExactSnoc(s.after, s.received, head);
    assert s.Delivered() == t.Delivered();
    HeadSeen(s.after, s.received, s.queue);
    if Exact(s.after, s.received) {
      ExactTally(s.after, s.received);
    }
  }

  lemma HeadSeen(from: nat, received: seq<Event>, queue: seq<Event>)
    requires queue != [] && Increasing(from, received + queue)
    ensures Seen(from, received) < queue[0].sequence
  {
    var all := received + queue;
    assert all[|received|] == queue[0];
    if received != [] {
      assert all[|received| - 1] == received[|received| - 1];
    }
  }

  lemma DiscardAccounts(s: Stream)
    requires Can(s, Discard) && Accounts(s) && s.Newest() <= MAX_UINT64
    ensures Accounts(Do(s, Discard)) && Do(s, Discard).Unreported() == s.Unreported() + s.queue[0].dropped + 1
  {
    QueueHead(s.queue, s.Newest());
    assert s.Delivered() == s.received + [s.queue[0]] + s.queue[1..];
    IncreasingDrop(s.after, s.received, s.queue[0], s.queue[1..]);
  }

  lemma SendAccounts(s: Stream, step: Step)
    requires Can(s, step) && (step.FastSend? || step.FinalSend?) && Accounts(s)
             && (s.queue != [] ==> s.Unreported() == 0)
    ensures Accounts(Do(s, step))
  {
    hide Tally, EndsAt, Increasing;
    var event := s.Next(if step.FastSend? then step.body else s.phase.body).(dropped := s.Unreported());
    Appended(s.after, s.received, s.queue, event, s.Newest());
    assert Do(s, step).queue == s.queue + [event];
  }

  lemma StepAccounts(s: Stream, step: Step)
    requires Sound(s) && Can(s, step)
    ensures Accounts(Do(s, step))
  {
    match step
    case Attach =>
    case Receive => ReceiveReports(s);
    case FastSend(_) => SendAccounts(s, step);
    case StartDrain(_) =>
    case Discard => DiscardAccounts(s);
    case FinalSend => SendAccounts(s, step);
  }

  /** Only a discard that leaves older events in the queue can spoil the reports. */
  lemma StepReports(s: Stream, step: Step)
    requires Sound(s) && Can(s, step) && Reporting(s) && (step.Discard? ==> |s.queue| == 1)
    ensures Reporting(Do(s, step))
  {
    if step.Receive? {
      ReceiveReports(s);
    }
  }

  lemma StepDelivers(s: Stream, step: Step)
    requires Sound(s) && Can(s, step)
    ensures Numbered(Do(s, step)) && FromOffered(Do(s, step), Do(s, step).Delivered())
  {
    hide Accounts, Reporting;
    var t := Do(s, step);
    if step.Receive? {
      assert t.Delivered() == s.Delivered();
    } else if step.Discard? {
      var all := s.Delivered();
      assert forall i :: 0 <= i < |t.Delivered()| ==>
                           t.Delivered()[i] == all[if i < |s.received| then i else i + 1];
    } else if step.FastSend? || step.FinalSend? {
      var event := t.queue[|t.queue| - 1];
      assert t.Delivered() == s.Delivered() + [event];
      assert event.(dropped := 0) == t.offered[|s.offered|];
    }
  }

  lemma StepSound(s: Stream, step: Step)
    requires Sound(s) && Can(s, step)
    ensures Sound(Do(s, step))
  {
    StepAccounts(s, step);
    StepDelivers(s, step);
    if s.capacity == 1 {
      StepReports(s, step);
    }
    hide Accounts, Reporting, Numbered, FromOffered;
  }

  lemma {:induction false} RunSound(s: Stream, steps: seq<Step>)
    requires Sound(s) && CanRun(s, steps)
    ensures Sound(Run(s, steps))
    decreases |steps|
  {
    hide Sound;
    if steps != [] {
      StepSound(s, steps[0]);
      RunSound(Do(s, steps[0]), steps[1..]);
    }
  }

  /** What a consumer may conclude from its stream, at any moment of any run: the sequences grow, every event received
      is the published one of its sequence, the queue is bounded, the losses reported never exceed the real ones, and
      once it has caught up they are exactly the real ones. */
  lemma StreamPromise(capacity: nat, after: nat, gap: nat, steps: seq<Step>)
    requires capacity > 0 && after + gap <= MAX_UINT64 && CanRun(Start(capacity, after, gap), steps)
    ensures var s := Run(Start(capacity, after, gap), steps);
            && Increasing(after, s.received) && FromOffered(s, s.received) && |s.queue| <= capacity
            && after + Tally(s.received) <= Seen(after, s.received)
            && (s.queue == [] && s.Unreported() == 0 ==> after + Tally(s.received) == s.Newest())
            && s.after == after && s.base == after + gap
  {
    var start := Start(capacity, after, gap);
    StartSound(capacity, after, gap);
    RunSound(start, steps);
    RunConstants(start, steps);
    var s := Run(start, steps);
    assert forall i :: 0 <= i < |s.received| ==> s.received[i] == s.Delivered()[i];
  }

  lemma {:induction false} RunConstants(s: Stream, steps: seq<Step>)
    requires CanRun(s, steps)
    ensures var t := Run(s, steps); t.capacity == s.capacity && t.after == s.after && t.base == s.base
    decreases |steps|
  {
    if steps != [] {
      RunConstants(Do(s, steps[0]), steps[1..]);
    }
  }

  // ---------------------------------------------------------------- what is delivered

  /** A list ends with an event, whatever losses it reports. */
  predicate EndsWith(list: seq<Event>, event: Event) {
    list != [] && list[|list| - 1].(dropped := 0) == event.(dropped := 0)
  }

  /** Every event of a list is, but for the losses it reports, the published event of its sequence. */
  predicate ArePublished(list: seq<Event>, published: seq<Event>) {
    forall i :: 0 <= i < |list| ==>
                  && 0 < list[i].sequence <= |published|
                  && list[i].(dropped := 0) == published[list[i].sequence - 1]
  }

  /** The queue after an offer that no consumer interferes with. */
  function Offered(capacity: nat, queue: seq<Event>, pendingDropped: nat, event: Event): seq<Event> {
    if |queue| < capacity then queue + [event.(dropped := pendingDropped)]
    else [event.(dropped := Tally(queue))]
  }

  /** The queue after events were replayed into a new subscription that has lost some before them. */
  function Replayed(capacity: nat, gap: nat, events: seq<Event>): seq<Event>
    decreases |events|
  {
    if events == [] then []
    else
      var n := |events| - 1;
      Offered(capacity, Replayed(capacity, gap, events[..n]), if n == 0 then gap else 0, events[n])
  }

  lemma NothingReplayed(capacity: nat, gap: nat)
    ensures Replayed(capacity, gap, []) == []
  {
  }

  lemma ReplayedOne(capacity: nat, gap: nat, events: seq<Event>, event: Event)
    ensures Replayed(capacity, gap, events + [event])
            == Offered(capacity, Replayed(capacity, gap, events), if events == [] then gap else 0, event)
  {
    assert (events + [event])[..|events|] == events;
  }

  /** A replay that fits the buffer queues exactly the events, the first with the losses before it. */
  lemma {:induction false} ReplayFits(capacity: nat, gap: nat, events: seq<Event>)
    requires |events| <= capacity && forall i :: 0 <= i < |events| ==> events[i].dropped == 0
    ensures Replayed(capacity, gap, events) == if events == [] then [] else events[0 := events[0].(dropped := gap)]
    decreases |events|
  {
    if events != [] {
      ReplayFits(capacity, gap, events[..|events| - 1]);
    }
  }

  lemma Between(s: Stream)
    requires Sound(s)
    ensures |s.queue| <= s.capacity && 0 < s.capacity && (s.queue != [] ==> s.pendingDropped == 0)
  {
  }

  lemma NothingTallied()
    ensures Tally([]) == 0
  {
  }

  // ---------------------------------------------------------------- when every report is exact

  /** A subscription that can never be overtaken: its queue holds one event, or the sequence numbers run out before the
      queue is full. */
  predicate NeverOvertaken(s: Stream) {
    s.capacity == 1 || s.Newest() + s.capacity - |s.queue| >= MAX_UINT64
  }

  lemma {:induction false} StaysExact(s: Stream, steps: seq<Step>)
    requires Sound(s) && CanRun(s, steps) && Reporting(s) && NeverOvertaken(s) && (s.capacity > 1 ==> s.phase.Idle?)
    ensures Exact(s.after, Run(s, steps).received)
    decreases |steps|
  {
    hide Accounts, FromOffered, Numbered, Exact;
    if steps != [] {
      StepSound(s, steps[0]);
      StepReports(s, steps[0]);
      StaysExact(Do(s, steps[0]), steps[1..]);
    }
  }

  /** The publisher fills the queue. */
  function Fill(n: nat): seq<Step> {
    seq(n, _ => FastSend(0))
  }

  lemma {:induction false} FillRuns(s: Stream, n: nat)
    requires Sound(s) && s.phase.Idle? && |s.queue| + n <= s.capacity && s.Newest() + n <= MAX_UINT64
    ensures CanRun(s, Fill(n))
    ensures var t := Run(s, Fill(n));
            && Sound(t) && t.phase.Idle? && t.Newest() == s.Newest() + n && |t.queue| == |s.queue| + n
            && t.received == s.received && t.attached == s.attached && t.capacity == s.capacity && t.after == s.after
    decreases n
  {
    hide Sound, Exact;
    if n > 0 {
      assert Fill(n)[0] == FastSend(0) && Fill(n)[1..] == Fill(n - 1);
      Between(s);
      StepSound(s, FastSend(0));
      FillRuns(Do(s, FastSend(0)), n - 1);
    }
  }

  /** How a report goes wrong. The queue is full, the publisher takes out the oldest event, and the consumer receives
      the next one before the publisher can say what was lost. */
  function Overtaking(s: Stream): seq<Step> {
    (if s.attached then [] else [Attach])
    + Fill(if |s.queue| < s.capacity then s.capacity - |s.queue| else 0)
    + [StartDrain(0), Discard, Receive]
  }

  lemma OvertakingTail(s: Stream)
    requires Sound(s) && s.phase.Idle? && s.attached && |s.queue| == s.capacity > 1 && s.Newest() < MAX_UINT64
    ensures CanRun(s, [StartDrain(0), Discard, Receive])
    ensures !Exact(s.after, Run(s, [StartDrain(0), Discard, Receive]).received)
  {
    hide Exact, Numbered, FromOffered, Tally, EndsAt, Increasing;
    var a := Do(s, StartDrain(0));
    StepSound(s, StartDrain(0));
    var b := Do(a, Discard);
    StepSound(a, Discard);
    DiscardAccounts(a);
    ReceiveReports(b);
    var steps := [StartDrain(0), Discard, Receive];
    assert steps[1..] == [Discard, Receive] && steps[1..][1..] == [Receive] && steps[1..][1..][1..] == [];
    assert CanRun(Do(b, Receive), []);
    assert CanRun(b, [Receive]) && Run(b, [Receive]) == Do(b, Receive);
    assert CanRun(a, [Discard, Receive]) && Run(a, [Discard, Receive]) == Do(b, Receive);
  }

  /** Built step by step from any state between two offers, the consumer gets a wrong report. */
  lemma OvertakenReport(s: Stream)
    requires Sound(s) && s.phase.Idle? && !NeverOvertaken(s)
    ensures CanRun(s, Overtaking(s)) && !Exact(s.after, Run(s, Overtaking(s)).received)
  {
    hide Sound, Exact;
    var first := if s.attached then [] else [Attach];
    var a := if s.attached then s else Do(s, Attach);
    assert CanRun(s, first) && Run(s, first) == a && Sound(a) by {
      if !s.attached {
        StepSound(s, Attach);
        assert [Attach][1..] == [];
      }
    }
    Between(s);
    var n := s.capacity - |s.queue|;
    FillRuns(a, n);
    var b := Run(a, Fill(n));
    OvertakingTail(b);
    RunConcat(s, first, Fill(n));
    RunConcat(s, first + Fill(n), [StartDrain(0), Discard, Receive]);
  }

  /** When the reports can be trusted one by one. From any state between two offers, whatever the interleaving of the
      publisher and the consumer, every event received reports exactly its gap, if and only if the reports were exact so
      far and the subscription has a buffer of one event, or the sequence numbers run out before the buffer is full. */
  lemma ReportsExact(s: Stream)
    requires Sound(s) && s.phase.Idle?
    ensures (forall steps :: CanRun(s, steps) ==> Exact(s.after, Run(s, steps).received))
            <==> Exact(s.after, s.received) && NeverOvertaken(s)
  {
    if Exact(s.after, s.received) && NeverOvertaken(s) {
      forall steps | CanRun(s, steps)
        ensures Exact(s.after, Run(s, steps).received)
      {
        StaysExact(s, steps);
      }
    } else if !Exact(s.after, s.received) {
      ReachesSelf(s);
      var steps :| CanRun(s, steps) && Run(s, steps) == s;
      assert !Exact(s.after, Run(s, steps).received);
    } else {
      OvertakenReport(s);
    }
  }

  /** For a new subscription: its reports are exact in every run if and only if its buffer holds one event, or the
      sequence numbers run out before the buffer is full. */
  lemma BufferOfOne(capacity: nat, after: nat, gap: nat)
    requires capacity > 0 && after + gap <= MAX_UINT64
    ensures (forall steps :: CanRun(Start(capacity, after, gap), steps) ==>
                               Exact(after, Run(Start(capacity, after, gap), steps).received))
            <==> capacity == 1 || after + gap + capacity >= MAX_UINT64
  {
    StartSound(capacity, after, gap);
    ReportsExact(Start(capacity, after, gap));
  }
}
