/** The event hub of a session: ordered streams that never block the publisher and account for every loss. */
module Events {
  import opened Rings
  import opened EventStreams

  const DEFAULT_SUBSCRIPTION_BUFFER := 64
  const MAXIMUM_SUBSCRIPTION_BUFFER := 65536

  datatype Error = InvalidSubscription | Closed | EventSequence | LimitExceeded
  datatype Result<+T> = Success(value: T) | Failure(error: Error)

  /** The options of a subscription that cannot be meant. */
  predicate Misused(requested: int, afterSequence: nat, futureOnly: bool) {
    requested < 0 || requested > MAXIMUM_SUBSCRIPTION_BUFFER || (futureOnly && afterSequence != 0)
  }

  // ---------------------------------------------------------------- one subscriber

  /** A subscription with its consumer, which may receive whenever the hub is between two steps. The received list is
      what the consumer has seen. Every method is a run of the stream that View shows. */
  class Subscriber {
    const capacity: nat
    const after: nat
    const base: nat
    var queue: seq<Event>
    var pendingDropped: nat
    var attached: bool
    var received: seq<Event>
    ghost var offered: seq<Event>
    ghost var phase: Phase

    ghost function View(): Stream
      reads this
    {
      Stream(capacity, after, base, offered, queue, pendingDropped, attached, received, phase)
    }

    /** Between two offers. */
    ghost predicate Valid()
      reads this
    {
      Sound(View()) && phase.Idle?
    }

    constructor (capacity: nat, after: nat, gap: nat)
      requires capacity > 0 && after + gap <= MAX_UINT64
      ensures Valid() && View() == Start(capacity, after, gap)
    {
      this.capacity, this.after, this.base, this.pendingDropped := capacity, after, after + gap, gap;
      queue, attached, received, offered, phase := [], false, [], [], Idle;
      new;
      StartSound(capacity, after, gap);
    }

    method Attach()
      requires Valid() && !attached
      modifies this`attached
      ensures Valid() && View() == Do(old(View()), Step.Attach)
    {
      StepSound(View(), Step.Attach);
      attached := true;
    }

    /** The consumer receives one event, which reports exactly its gap unless losses are unreported. */
    method Receive()
      requires Sound(View()) && Can(View(), Step.Receive)
      modifies this`queue, this`received
      ensures Sound(View()) && View() == Do(old(View()), Step.Receive)
      ensures Exact(after, received) <==> old(Exact(after, received)) && View().Unreported() == 0
    {
      StepSound(View(), Step.Receive);
      ReceiveReports(View());
      hide Sound, Exact;
      received := received + [queue[0]];
      queue := queue[1..];
    }

    /** The consumer runs: it receives as many events as it likes. */
    method Consume(ghost start: Stream)
      requires Sound(View()) && Reaches(start, View())
      modifies this`queue, this`received
      ensures Sound(View()) && Reaches(start, View())
      ensures received + queue == old(received + queue) && |queue| <= |old(queue)| && old(received) <= received
      ensures !attached ==> View() == old(View())
    {
      hide Sound, Exact, Reaches;
      var more: bool := *;
      while more && attached && queue != []
        invariant Sound(View()) && Reaches(start, View())
        invariant received + queue == old(received + queue) && |queue| <= |old(queue)| && old(received) <= received
        invariant !attached ==> View() == old(View())
        decreases |queue|
      {
        ReachesStep(start, View(), Step.Receive);
        Receive();
        more := *;
      }
    }

    /** Sends into a queue with room, with everything lost before the first event on the label. */
    method Send(event: Event)
      requires Valid() && Can(View(), FastSend(event.body)) && event.sequence == View().Newest() + 1
      modifies this`queue, this`pendingDropped, this`offered
      ensures Valid() && View() == Do(old(View()), FastSend(event.body))
    {
      hide Sound, Tally;
      StepSound(View(), FastSend(event.body));
      offered := offered + [event.(dropped := 0)];
      queue := queue + [event.(dropped := pendingDropped)];
      pendingDropped := 0;
    }

    /** Takes the oldest event out and counts it, and what it reported, as lost. */
    method Discard(dropped: nat) returns (r: nat)
      requires Sound(View()) && Can(View(), Step.Discard) && phase.dropped == dropped
      modifies this`queue, this`phase
      ensures Sound(View()) && View() == Do(old(View()), Step.Discard) && r == phase.dropped
      ensures r + Tally(queue) == dropped + old(Tally(queue))
    {
      StepSound(View(), Step.Discard);
      DiscardAccounts(View());
      QueueHead(queue, View().Newest());
      hide Sound, Accounts, Tally;
      r := SaturatingAdd(dropped, SaturatingAdd(queue[0].dropped, 1));
      queue := queue[1..];
      phase := phase.(dropped := r);
    }

    /** Sends into the drained queue, with everything lost so far on the label. */
    method SendLast(event: Event, dropped: nat)
      requires Sound(View()) && Can(View(), FinalSend) && phase == Draining(event.body, dropped)
      requires event.sequence == View().Newest() + 1
      modifies this`queue, this`pendingDropped, this`offered, this`phase
      ensures Valid() && View() == Do(old(View()), FinalSend)
    {
      hide Sound, Tally;
      StepSound(View(), FinalSend);
      offered := offered + [event.(dropped := 0)];
      queue := queue + [event.(dropped := dropped)];
      pendingDropped := 0;
      phase := Idle;
      assert View() == Do(old(View()), FinalSend);
    }

    /** offerEvent. The consumer may run before every step. Whatever it does, the event becomes the newest one that it
        has or can receive: at once when there is room, and otherwise after the queue has been drained, with everything
        drained counted as lost. The number of drained events never exceeds what the queue held, so the publisher never
        waits. */
    method OfferEvent(event: Event) returns (discarded: nat)
      requires Valid() && event.sequence == View().Newest() + 1 <= MAX_UINT64
      modifies this`queue, this`received, this`pendingDropped, this`offered, this`phase
      ensures Valid() && Reaches(old(View()), View())
      ensures pendingDropped == 0 && offered == old(offered) + [event.(dropped := 0)]
      ensures discarded <= |old(queue)| && |received + queue| + discarded == |old(received + queue)| + 1
      ensures old(received) <= received && EndsWith(received + queue, event)
      ensures discarded == 0 ==> received + queue == old(received + queue) + [event.(dropped := old(pendingDropped))]
      ensures !attached ==>
                && received == old(received)
                && queue == Offered(capacity, old(queue), old(pendingDropped), event)
    {
      hide Sound, Reaches, Tally;
      ghost var start := View();
      ReachesSelf(start);
      Consume(start);
      Between(View());
      if |queue| < capacity {
        ghost var before := received + queue;
        ReachesStep(start, View(), FastSend(event.body));
        Send(event);
        assert received + queue == before + [event.(dropped := old(pendingDropped))];
        Consume(start);
        return 0;
      }
      discarded := Drain(event, start);
    }

    /** The drain loop of offerEvent. */
    method Drain(event: Event, ghost start: Stream) returns (discarded: nat)
      requires Valid() && Reaches(start, View()) && |queue| == capacity && pendingDropped == 0
      requires event.sequence == View().Newest() + 1 <= MAX_UINT64
      modifies this`queue, this`received, this`pendingDropped, this`offered, this`phase
      ensures Valid() && Reaches(start, View())
      ensures pendingDropped == 0 && offered == old(offered) + [event.(dropped := 0)]
      ensures discarded <= |old(queue)| && |received + queue| + discarded == |old(received + queue)| + 1
      ensures old(received) <= received && EndsWith(received + queue, event)
      ensures discarded == 0 ==> received + queue == old(received + queue) + [event.(dropped := 0)]
      ensures !attached ==> received == old(received) && queue == [event.(dropped := old(Tally(queue)))]
    {
      hide Sound, Reaches, Tally;
      discarded := 0;
      var dropped: nat := pendingDropped;
      ReachesStep(start, View(), StartDrain(event.body));
      StepSound(View(), StartDrain(event.body));
      phase := Draining(event.body, dropped);
      assert View() == Do(old(View()), StartDrain(event.body));
      Consume(start);
      while queue != []
        invariant Sound(View()) && Reaches(start, View()) && phase == Draining(event.body, dropped)
        invariant pendingDropped == 0 && offered == old(offered)
        invariant discarded + |queue| <= |old(queue)| && |received + queue| + discarded == |old(received + queue)|
        invariant old(received) <= received
        invariant discarded == 0 ==> dropped == 0 && received + queue == old(received + queue)
        invariant !attached ==> received == old(received) && dropped + Tally(queue) == old(Tally(queue))
        decreases |queue|
      {
        ReachesStep(start, View(), Step.Discard);
        dropped := Discard(dropped);
        discarded := discarded + 1;
        Consume(start);
      }
      assert Tally([]) == 0 by {
        NothingTallied();
      }
      ghost var before := received + queue;
      ReachesStep(start, View(), FinalSend);
      SendLast(event, dropped);
      assert received + queue == before + [event.(dropped := dropped)];
    }
  }

  /** A subscriber has been offered exactly the published events after its base. */
  ghost predicate Follows(s: Subscriber, published: seq<Event>)
    reads s
  {
    s.Valid() && s.pendingDropped == 0 && s.base <= |published| && s.offered == published[s.base..]
  }

  /** A subscriber that follows has an event as the newest of its stream, and every event that it has or can receive is,
      but for the losses it reports, the published event of that sequence. */
  ghost predicate Has(s: Subscriber, event: Event, published: seq<Event>)
    reads s
  {
    && Follows(s, published)
    && EndsWith(s.received + s.queue, event) && ArePublished(s.received + s.queue, published)
  }

  /** One more event for a subscriber that follows. */
  lemma FollowsOn(s: Subscriber, published: seq<Event>, event: Event)
    requires Follows(s, published)
    ensures s.Valid() && s.View().Newest() == |published|
    ensures s.base <= |published| && (published + [event])[s.base..] == published[s.base..] + [event]
  {
  }

  /** Everything that a subscriber has or can receive is what was published. */
  lemma StreamIsPublished(s: Subscriber, published: seq<Event>)
    requires Follows(s, published)
    ensures ArePublished(s.received + s.queue, published)
  {
    assert forall i :: 0 <= i < |s.offered| ==> s.offered[i] == published[s.base + i];
    assert s.View().Delivered() == s.received + s.queue;
  }

  lemma OneMorePublished(published: seq<Event>, from: nat, to: nat)
    requires from <= to < |published|
    ensures published[from..to + 1] == published[from..to] + [published[to]]
  {
  }

  /** Subscribers have their own queues, and identities up to the last one given. */
  predicate Apart(subscribers: map<nat, Subscriber>, last: nat, limit: nat) {
    && |subscribers| <= limit
    && (forall i, j :: i in subscribers && j in subscribers && i != j ==> subscribers[i] != subscribers[j])
    && (forall id :: id in subscribers ==> id <= last)
  }

  lemma OneMoreApart(subscribers: map<nat, Subscriber>, last: nat, limit: nat, s: Subscriber)
    requires Apart(subscribers, last, limit) && |subscribers| < limit && s !in subscribers.Values
    ensures last + 1 !in subscribers && Apart(subscribers[last + 1 := s], last + 1, limit)
  {
    assert |subscribers[last + 1 := s]| == |subscribers| + 1;
  }

  /** Offers the next event to a subscriber that follows. */
  method OfferFollower(s: Subscriber, event: Event, ghost published: seq<Event>) returns (discarded: nat)
    requires Follows(s, published) && event.sequence == |published| + 1 <= MAX_UINT64 && event.dropped == 0
    modifies s`queue, s`received, s`pendingDropped, s`offered, s`phase
    ensures Has(s, event, published + [event]) && old(s.received) <= s.received
  {
    hide Sound, Reaches, EndsWith, ArePublished, Offered;
    FollowsOn(s, published, event);
    discarded := s.OfferEvent(event);
    StreamIsPublished(s, published + [event]);
  }

  /** A new subscription into which some events have been replayed. */
  ghost predicate Replaying(s: Subscriber, events: seq<Event>)
    reads s
  {
    && s.Valid() && s.received == [] && !s.attached && s.offered == events && s.after <= s.base
    && s.pendingDropped == (if events == [] then s.base - s.after else 0)
    && s.queue == Replayed(s.capacity, s.base - s.after, events)
  }

  lemma BeginsReplay(s: Subscriber)
    requires s.Valid() && s.after <= s.base && s.View() == Start(s.capacity, s.after, s.base - s.after)
    ensures Replaying(s, [])
  {
    NothingReplayed(s.capacity, s.base - s.after);
  }

  method ReplayEvent(s: Subscriber, event: Event, ghost events: seq<Event>) returns (discarded: nat)
    requires Replaying(s, events) && event.sequence == s.base + |events| + 1 <= MAX_UINT64 && event.dropped == 0
    modifies s`queue, s`received, s`offered, s`pendingDropped, s`phase
    ensures Replaying(s, events + [event])
  {
    hide Sound, Replayed, Offered, Reaches, EndsWith;
    ReplayedOne(s.capacity, s.base - s.after, events, event);
    discarded := s.OfferEvent(event);
  }

  // ---------------------------------------------------------------- the hub

  class EventHub {
    var closed: bool
    var sequence: nat
    var nextID: nat
    const history: array<Event>
    var historyStart: nat
    var historyCount: nat
    var subscribers: map<nat, Subscriber>
    const maxSubscribers: nat
    var discarded: nat
    var historyGaps: nat
    var exhausted: bool
    /** All the events there have been. */
    ghost var published: seq<Event>

    /** The retained events, oldest first. */
    ghost function Retained(): seq<Event>
      requires history.Length > 0
      reads this`historyStart, this`historyCount, history
    {
      Ring(history[..], historyStart, historyCount)
    }

    /** The published events are numbered from one without gaps, and the ring holds the last of them. */
    ghost predicate RingValid()
      reads this`sequence, this`published, this`historyStart, this`historyCount, history
    {
      && history.Length > 0 && historyStart < history.Length && historyCount <= history.Length
      && historyCount == (if sequence < history.Length then sequence else history.Length)
      && |published| == sequence <= MAX_UINT64
      && (forall i :: 0 <= i < sequence ==> published[i].sequence == i + 1 && published[i].dropped == 0)
      && Retained() == published[sequence - historyCount..]
    }

    /** Every subscriber has its own queue and identity. */
    ghost predicate Registered()
      reads this`subscribers, this`nextID
    {
      Apart(subscribers, nextID, maxSubscribers)
    }

    ghost predicate AllOffered(events: seq<Event>)
      reads this`subscribers, subscribers.Values
    {
      forall s :: s in subscribers.Values ==> Follows(s, events)
    }

    ghost predicate Valid()
      reads this, history, subscribers.Values
    {
      RingValid() && Registered() && AllOffered(published)
    }

    constructor (historyLimit: nat, maxSubscribers: nat)
      requires historyLimit > 0
      ensures Valid() && published == [] && !closed && subscribers == map[] && fresh(history)
    {
      history := new Event[historyLimit](_ => Event(0, 0, 0));
      this.maxSubscribers := maxSubscribers;
      closed, sequence, nextID, historyStart, historyCount := false, 0, 0, 0, 0;
      subscribers, discarded, historyGaps, exhausted, published := map[], 0, 0, false, [];
    }

    /** appendHistory: the oldest event makes room for the newest. */
    method AppendHistory(event: Event)
      requires RingValid() && sequence < MAX_UINT64 && event.sequence == sequence + 1 && event.dropped == 0
      modifies this`historyStart, this`historyCount, this`sequence, this`published, history
      ensures RingValid() && sequence == old(sequence) + 1 && published == old(published) + [event]
      ensures Retained() == (if old(historyCount) < history.Length then old(Retained()) else old(Retained())[1..])
              + [event]
    {
      hide Slot, Ring;
      sequence := sequence + 1;
      published := published + [event];
      ghost var before := history[..];
      if historyCount < history.Length {
        var index := Slot(historyStart, historyCount, history.Length);
        RingPush(before, historyStart, historyCount, event);
        history[index] := event;
        assert history[..] == before[index := event];
        historyCount := historyCount + 1;
        assert Retained() == old(Retained()) + [event];
      } else {
        RingReplace(before, historyStart, event);
        history[historyStart] := event;
        assert history[..] == before[historyStart := event];
        historyStart := Slot(historyStart, 1, history.Length);
        assert Retained() == old(Retained())[1..] + [event];
      }
    }

    /** publish: one more event for the ring and for every subscriber. Each subscriber has it as the newest event of its
        stream, and every event that it has or can receive is, but for the losses it reports, the published event of
        that sequence. The last sequence number ends the hub. */
    method Publish(body: nat)
      requires Valid()
      modifies this`closed, this`exhausted, this`subscribers, this`discarded
      modifies this`sequence, this`published, this`historyStart, this`historyCount, history
      modifies subscribers.Values
      ensures Valid()
      ensures old(closed) ==>
                && published == old(published) && Retained() == old(Retained())
                && subscribers == old(subscribers)
      ensures !old(closed) && old(sequence) == MAX_UINT64 ==>
                closed && exhausted && subscribers == map[] && published == old(published)
      ensures !old(closed) && old(sequence) < MAX_UINT64 ==>
                && !closed && published == old(published) + [Event(old(sequence) + 1, 0, body)]
                && subscribers == old(subscribers)
                && Retained() == (if old(historyCount) < history.Length then old(Retained()) else old(Retained())[1..])
                                 + [Event(sequence, 0, body)]
      ensures !old(closed) && old(sequence) < MAX_UINT64 ==>
                forall s :: s in subscribers.Values ==>
                              Has(s, Event(sequence, 0, body), published) && old(s.received) <= s.received
    {
      hide EventHub.Valid, EventHub.Retained, Has;
      ValidSequence();
      if closed {
        return;
      }
      if sequence == MAX_UINT64 {
        Exhaust();
        return;
      }
      PublishNext(Event(sequence + 1, 0, body));
    }

    lemma ValidSequence()
      requires Valid()
      ensures |published| == sequence <= MAX_UINT64 && history.Length > 0
    {
    }

    /** There are no more sequence numbers: every stream ends. */
    method Exhaust()
      requires Valid()
      modifies this`closed, this`exhausted, this`subscribers
      ensures Valid() && closed && exhausted && subscribers == map[]
    {
      hide Ring, Follows;
      exhausted := true;
      closed := true;
      subscribers := map[];
      assert |subscribers| == 0;
    }

    method PublishNext(event: Event)
      requires Valid() && event.sequence == sequence + 1 <= MAX_UINT64 && event.dropped == 0
      modifies this`discarded, this`sequence, this`published, this`historyStart, this`historyCount, history
      modifies subscribers.Values
      ensures Valid() && published == old(published) + [event] && sequence == old(sequence) + 1
      ensures Retained() == (if old(historyCount) < history.Length then old(Retained()) else old(Retained())[1..])
              + [event]
      ensures forall s :: s in subscribers.Values ==> Has(s, event, published) && old(s.received) <= s.received
    {
      hide Ring, Follows, Has, Registered, RingValid, AllOffered;
      SequenceIs();
      AppendHistory(event);
      assert published[..|published| - 1] == old(published);
      OfferAll(event);
      HasFollows(event);
    }

    lemma SequenceIs()
      requires RingValid()
      ensures |published| == sequence <= MAX_UINT64 && historyCount <= sequence && history.Length > 0
      ensures historyCount == 0 ==> sequence == 0
    {
    }

    lemma Retains(index: nat)
      requires RingValid() && index < historyCount
      ensures history.Length > 0 && Slot(historyStart, index, history.Length) < history.Length
      ensures var n := sequence - historyCount + index;
              && 0 <= n < sequence == |published|
              && history[Slot(historyStart, index, history.Length)] == published[n]
              && published[n].sequence == n + 1 && published[n].dropped == 0
    {
      RingAt(history[..], historyStart, historyCount, index);
      assert Retained()[index] == published[sequence - historyCount + index];
    }

    lemma HasFollows(event: Event)
      requires forall s :: s in subscribers.Values ==> Has(s, event, published)
      ensures AllOffered(published)
    {
    }

    /** Offers one event to every subscriber, in any order. */
    method OfferAll(event: Event)
      requires Registered() && RingValid() && published != [] && event == published[|published| - 1]
      requires AllOffered(published[..|published| - 1])
      modifies this`discarded, subscribers.Values
      ensures forall s :: s in subscribers.Values ==> Has(s, event, published) && old(s.received) <= s.received
    {
      hide Ring, Registered, AllOffered, Has;
      ghost var before := published[..|published| - 1];
      assert event.sequence == |published| <= MAX_UINT64 && event.dropped == 0 && published == before + [event];
      hide RingValid;
      OfferEach(event, before);
    }

    method OfferEach(event: Event, ghost before: seq<Event>)
      requires event.sequence == |before| + 1 <= MAX_UINT64 && event.dropped == 0 && AllOffered(before)
      modifies this`discarded, subscribers.Values
      ensures forall s :: s in subscribers.Values ==> Has(s, event, before + [event]) && old(s.received) <= s.received
    {
      hide Has, Follows;
      var waiting := subscribers.Values;
      ghost var after := before + [event];
      while waiting != {}
        invariant waiting <= subscribers.Values
        invariant forall s :: s in waiting ==> Follows(s, before) && s.received == old(s.received)
        invariant forall s :: s in subscribers.Values - waiting ==> Has(s, event, after)
        invariant forall s :: s in subscribers.Values - waiting ==> old(s.received) <= s.received
        decreases |waiting|
      {
        var state :| state in waiting;
        var lost := OfferFollower(state, event, before);
        discarded := SaturatingAdd(discarded, lost);
        waiting := waiting - {state};
      }
    }

    /** subscribe: a stream with the retained events after a sequence, from the oldest on; what the ring no longer holds
        is reported lost. The result is refused in exactly four cases. */
    method Subscribe(requested: int, afterSequence: nat, futureOnly: bool) returns (r: Result<Subscriber>)
      requires Valid()
      modifies this`nextID, this`subscribers, this`discarded, this`historyGaps
      ensures Valid() && published == old(published)
      ensures r.Failure? ==> subscribers == old(subscribers)
      ensures r == Failure(InvalidSubscription) <==> Misused(requested, afterSequence, futureOnly)
      ensures r == Failure(Closed) <==> closed && !Misused(requested, afterSequence, futureOnly)
      ensures r == Failure(EventSequence) <==>
                !closed && !Misused(requested, afterSequence, futureOnly) && afterSequence > sequence
      ensures r == Failure(LimitExceeded) <==>
                !closed && !Misused(requested, afterSequence, futureOnly) && afterSequence <= sequence
                && |old(subscribers)| >= maxSubscribers
      ensures r.Success? ==>
                var s := r.value;
                && fresh(s) && s.attached && s.received == [] && Follows(s, published)
                && s.capacity == (if requested == 0 then DEFAULT_SUBSCRIPTION_BUFFER else requested)
                && s.after == (if futureOnly then sequence else afterSequence)
                && s.base == (if s.after < sequence - historyCount then sequence - historyCount else s.after)
                && s.queue == Replayed(s.capacity, s.base - s.after, published[s.base..])
                && nextID !in old(subscribers) && subscribers == old(subscribers)[nextID := s]
    {
      hide EventHub.Valid, Replayed, Follows;
      var buffer := if requested == 0 then DEFAULT_SUBSCRIPTION_BUFFER else requested;
      if buffer < 0 || buffer > MAXIMUM_SUBSCRIPTION_BUFFER || (futureOnly && afterSequence != 0) {
        return Failure(InvalidSubscription);
      }
      if closed {
        return Failure(Closed);
      }
      if afterSequence > sequence {
        return Failure(EventSequence);
      }
      if |subscribers| >= maxSubscribers {
        return Failure(LimitExceeded);
      }
      var after := if futureOnly then sequence else afterSequence;
      var state := ReplayHistory(buffer, after);
      Register(state);
      return Success(state);
    }

    /** Gives a subscription the next identity. */
    method Register(state: Subscriber)
      requires Valid() && Follows(state, published) && |subscribers| < maxSubscribers && state !in subscribers.Values
      modifies this`nextID, this`subscribers
      ensures Valid() && nextID !in old(subscribers) && subscribers == old(subscribers)[nextID := state]
    {
      hide Follows, Apart, RingValid;
      OneMoreApart(subscribers, nextID, maxSubscribers, state);
      nextID := nextID + 1;
      subscribers := subscribers[nextID := state];
    }

    /** The replay of the ring into a new subscription. */
    method ReplayHistory(buffer: nat, after: nat) returns (state: Subscriber)
      requires Valid() && buffer > 0 && after <= sequence
      modifies this`discarded, this`historyGaps
      ensures Valid() && fresh(state) && state.capacity == buffer && state.after == after && state.attached
      ensures Follows(state, published) && state.received == []
      ensures state.base == (if after < sequence - historyCount then sequence - historyCount else after)
      ensures state.queue == Replayed(buffer, state.base - after, published[state.base..])
    {
      hide Sound, Ring, Replayed, AllOffered, Registered, RingValid;
      SequenceIs();
      if historyCount == 0 || after >= sequence {
        NothingReplayed(buffer, 0);
        state := new Subscriber(buffer, after, 0);
        state.Attach();
        return;
      }
      var earliest := sequence - historyCount + 1;
      var gap := if after < earliest - 1 then earliest - after - 1 else 0;
      state := new Subscriber(buffer, after, gap);
      historyGaps := SaturatingAdd(historyGaps, gap);
      ReplayInto(state, earliest);
      state.Attach();
    }

    method ReplayInto(state: Subscriber, earliest: nat)
      requires RingValid() && historyCount > 0 && earliest == sequence - historyCount + 1
      requires state.after < sequence && state.after <= state.base
      requires state.Valid() && state.base == if state.after < earliest - 1 then earliest - 1 else state.after
      requires state.View() == Start(state.capacity, state.after, state.base - state.after)
      modifies this`discarded, state`queue, state`received, state`offered, state`pendingDropped, state`phase
      ensures RingValid() && state.base < sequence && Replaying(state, published[state.base..])
    {
      hide RingValid, Replaying, Slot, EventHub.Retained;
      var index := 0;
      ghost var newest := state.base;
      SequenceIs();
      BeginsReplay(state);
      assert published[state.base..newest] == [];
      while index < historyCount
        invariant 0 <= index <= historyCount && RingValid()
        invariant newest == (if state.base < earliest - 1 + index then earliest - 1 + index else state.base)
        invariant Replaying(state, published[state.base..newest])
      {
        Retains(index);
        var event := history[Slot(historyStart, index, history.Length)];
        if event.sequence > state.after {
          assert newest == earliest - 1 + index && event == published[newest] && event.sequence == newest + 1;
          OneMorePublished(published, state.base, newest);
          var lost := ReplayEvent(state, event, published[state.base..newest]);
          discarded := SaturatingAdd(discarded, lost);
          newest := newest + 1;
        }
        index := index + 1;
      }
      assert published[state.base..sequence] == published[state.base..];
    }
  }
}
