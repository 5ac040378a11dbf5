/** The event hub: subscribers filed by topic and ID, publishes that snapshot the table under the
    lock and send outside it into bounded channels, and subscriber loops that push frames. */
module Hub {
  import opened Wrappers
  import opened Bytes
  import opened Values

  const CAPACITY := 64

  type Name = string

  // ----- the two-level table, for any kind of subscriber -----

  type Table<S> = map<Name, map<Name, S>>

  function Registered<S>(t: Table<S>, topic: Name): map<Name, S> {
    if topic in t then t[topic] else map[]
  }

  predicate IsFiled<S>(t: Table<S>, topic: Name, id: Name) {
    topic in t && id in t[topic]
  }

  function Register<S>(t: Table<S>, topic: Name, id: Name, sub: S): Table<S> {
    t[topic := Registered(t, topic)[id := sub]]
  }

  function Deregister<S>(t: Table<S>, topic: Name, id: Name): Table<S> {
    if topic !in t then t
    else
      var subs := t[topic] - {id};
      if |subs| == 0 then t - {topic} else t[topic := subs]
  }

  /** No topic is kept without subscribers. */
  predicate NoEmptyTopic<S>(t: Table<S>) {
    forall topic :: topic in t ==> |t[topic]| > 0
  }

  lemma RegisterFiles<S>(t: Table<S>, topic: Name, id: Name, sub: S, u: Name, i: Name)
    ensures var r := Register(t, topic, id, sub);
            && (IsFiled(r, u, i) <==> IsFiled(t, u, i) || (u == topic && i == id))
            && (IsFiled(r, u, i) ==> r[u][i] == if u == topic && i == id then sub else t[u][i])
  {
  }

  lemma RegisterNonEmpty<S>(t: Table<S>, topic: Name, id: Name, sub: S)
    requires NoEmptyTopic(t)
    ensures NoEmptyTopic(Register(t, topic, id, sub))
  {
    assert id in Register(t, topic, id, sub)[topic];
  }

  lemma RemoveKey<S>(m: map<Name, S>, id: Name, i: Name)
    ensures i in m - {id} <==> i in m && i != id
    ensures i in m && i != id ==> |m - {id}| > 0 && (m - {id})[i] == m[i]
  {
    var r := m - {id};
    assert i in r ==> r.Keys != {};
  }

  lemma DeregisterFiles<S>(t: Table<S>, topic: Name, id: Name, u: Name, i: Name)
    ensures var r := Deregister(t, topic, id);
            && (IsFiled(r, u, i) <==> IsFiled(t, u, i) && !(u == topic && i == id))
            && (IsFiled(r, u, i) ==> r[u][i] == t[u][i])
  {
    if u == topic {
      RemoveKey(Registered(t, topic), id, i);
    }
  }

  lemma DeregisterNonEmpty<S>(t: Table<S>, topic: Name, id: Name)
    requires NoEmptyTopic(t)
    ensures NoEmptyTopic(Deregister(t, topic, id))
  {
  }

  // ----- states -----

  /** An event and the number of the publish it comes from, which is known to the proof only. */
  datatype Event = Event(publish: nat, topic: Name, payload: seq<Entry>, time: int)

  datatype MessageFrame = MessageFrame(sequence: Uint32, event: Event)

  /** A subscriber, the loop that serves it, and the history of its channel. No step closes the
      event channel itself, so nothing is sent on a closed one; done is what closes. */
  datatype Sub = Sub(
    id: Name,
    topic: Name,
    since: nat,                 // how many publishes had begun when it subscribed
    closed: bool,               // done has been closed
    buffer: seq<Event>,         // in the channel
    inHand: Option<Event>,      // taken from the channel by the loop, its frame not yet made
    frames: seq<MessageFrame>,  // message frames generated on the stream
    sent: Uint32,               // the loop's sequence counter
    accepted: seq<Event>,       // everything the channel has taken
    dropped: seq<Event>         // everything refused because the channel was full
  )

  /** A publish: whom its snapshot held and whom it still has to serve. */
  datatype Pub = Pub(event: Event, snapshot: set<nat>, remaining: set<nat>)

  datatype State = State(table: Table<nat>, subs: seq<Sub>, pubs: seq<Pub>, panicked: bool)

  predicate Init(s: State) {
    s == State(map[], [], [], false)
  }

  datatype Step =
    | Subscribe(topic: Name, id: Name)
    | Unsubscribe(topic: Name, id: Name)
    | BeginPublish(topic: Name, payload: seq<Entry>, time: int)
    | Send(pub: nat, sub: nat)
    | Take(sub: nat)    // the loop receives the oldest event
    | Push(sub: nat)    // and makes the next frame of it

  predicate Enabled(s: State, step: Step) {
    match step
    case Subscribe(_, _) => true
    case Unsubscribe(_, _) => true
    case BeginPublish(_, _, _) => true
    case Send(p, n) => p < |s.pubs| && n in s.pubs[p].remaining && n < |s.subs|
    case Take(n) => n < |s.subs| && s.subs[n].inHand.None? && s.subs[n].buffer != []
    case Push(n) => n < |s.subs| && s.subs[n].inHand.Some?
  }

  /** A non-blocking send: the event is taken unless the channel is full. */
  function Offer(sub: Sub, e: Event): Sub {
    if |sub.buffer| < CAPACITY then sub.(buffer := sub.buffer + [e], accepted := sub.accepted + [e])
    else sub.(dropped := sub.dropped + [e])
  }

  // One turn of the subscriber's loop: a receive from the channel, then seq++ and a frame.

  function Receive(sub: Sub): Sub
    requires sub.buffer != []
  {
    sub.(buffer := sub.buffer[1..], inHand := Some(sub.buffer[0]))
  }

  function MakeFrame(sub: Sub): Sub
    requires sub.inHand.Some?
  {
    var n := (sub.sent + 1) % 0x1_0000_0000;
    sub.(inHand := None, sent := n, frames := sub.frames + [MessageFrame(n, sub.inHand.value)])
  }

  function Held(sub: Sub): seq<Event> {
    if sub.inHand.Some? then [sub.inHand.value] else []
  }

  /** How many events the loop has received. */
  function Received(sub: Sub): nat {
    |sub.frames| + |Held(sub)|
  }

  function Apply(s: State, step: Step): State
    requires Enabled(s, step)
  {
    match step
    case Subscribe(topic, id) =>
      var sub := Sub(id, topic, |s.pubs|, false, [], None, [], 0, [], []);
      s.(table := Register(s.table, topic, id, |s.subs|), subs := s.subs + [sub])
    case Unsubscribe(topic, id) =>
      if IsFiled(s.table, topic, id) && s.table[topic][id] < |s.subs| then
        var n := s.table[topic][id];
        s.(table := Deregister(s.table, topic, id),
           panicked := s.panicked || s.subs[n].closed,   // closing a closed channel panics
           subs := s.subs[n := s.subs[n].(closed := true)])
      else s.(table := Deregister(s.table, topic, id))
    case BeginPublish(topic, payload, time) =>
      var dest := Registered(s.table, topic).Values;
      s.(pubs := s.pubs + [Pub(Event(|s.pubs|, topic, payload, time), dest, dest)])
    case Send(p, n) =>
      var pub := s.pubs[p];
      s.(pubs := s.pubs[p := pub.(remaining := pub.remaining - {n})],
         subs := s.subs[n := Offer(s.subs[n], pub.event)])
    case Take(n) => s.(subs := s.subs[n := Receive(s.subs[n])])
    case Push(n) => s.(subs := s.subs[n := MakeFrame(s.subs[n])])
  }

  ghost predicate Reaches(s: State, steps: seq<Step>, t: State)
    decreases |steps|
  {
    if steps == [] then t == s
    else Enabled(s, steps[0]) && Reaches(Apply(s, steps[0]), steps[1..], t)
  }

  ghost predicate Reachable(t: State) {
    exists s, steps :: Init(s) && Reaches(s, steps, t)
  }

  // ----- the table -----

  /** Every registered subscriber is open and filed under its own topic and ID. */
  ghost predicate TableOk(s: State) {
    && NoEmptyTopic(s.table)
    && !s.panicked
    && forall topic, id :: IsFiled(s.table, topic, id) ==> FiledOk(s, topic, id)
  }

  ghost predicate FiledOk(s: State, topic: Name, id: Name)
    requires IsFiled(s.table, topic, id)
  {
    var n := s.table[topic][id];
    n < |s.subs| && !s.subs[n].closed && s.subs[n].topic == topic && s.subs[n].id == id
  }

  lemma SubscribeTable(s: State, topic: Name, id: Name)
    requires TableOk(s)
    ensures TableOk(Apply(s, Subscribe(topic, id)))
  {
    var t := Apply(s, Subscribe(topic, id));
    RegisterNonEmpty(s.table, topic, id, |s.subs|);
    forall u, i | IsFiled(t.table, u, i) ensures FiledOk(t, u, i) {
      RegisterFiles(s.table, topic, id, |s.subs|, u, i);
      assert (u == topic && i == id) || FiledOk(s, u, i);
    }
  }

  lemma UnsubscribeTable(s: State, topic: Name, id: Name)
    requires TableOk(s)
    ensures TableOk(Apply(s, Unsubscribe(topic, id)))
  {
    var t := Apply(s, Unsubscribe(topic, id));
    DeregisterNonEmpty(s.table, topic, id);
    assert IsFiled(s.table, topic, id) ==> FiledOk(s, topic, id);
    forall u, i | IsFiled(t.table, u, i) ensures FiledOk(t, u, i) {
      DeregisterFiles(s.table, topic, id, u, i);
      assert FiledOk(s, u, i);
    }
  }

  lemma TableStep(s: State, step: Step)
    requires TableOk(s) && Enabled(s, step)
    ensures TableOk(Apply(s, step))
  {
    match step
    case Subscribe(topic, id) => SubscribeTable(s, topic, id);
    case Unsubscribe(topic, id) => UnsubscribeTable(s, topic, id);
    case _ =>
      var t := Apply(s, step);
      forall u, i | IsFiled(t.table, u, i) ensures FiledOk(t, u, i) {
        assert FiledOk(s, u, i);
      }
  }

  // ----- one subscriber's channel and stream -----

  function Events(frames: seq<MessageFrame>): (es: seq<Event>)
    ensures |es| == |frames|
  {
    seq(|frames|, i requires 0 <= i < |frames| => frames[i].event)
  }

  /** What the channel took is what was pushed, then what is in hand, then what is buffered; frames
      are numbered 1, 2, 3, ... modulo 2^32. */
  ghost predicate ChannelOk(sub: Sub) {
    && sub.accepted == Events(sub.frames) + (Held(sub) + sub.buffer)
    && |sub.buffer| <= CAPACITY
    && sub.sent == |sub.frames| % 0x1_0000_0000
    && forall i :: 0 <= i < |sub.frames| ==> sub.frames[i].sequence == (i + 1) % 0x1_0000_0000
  }

  lemma OfferOk(sub: Sub, e: Event)
    requires ChannelOk(sub)
    ensures ChannelOk(Offer(sub, e))
  {
    Associative(Events(sub.frames), Held(sub) + sub.buffer, [e]);
    Associative(Held(sub), sub.buffer, [e]);
  }

  lemma ReceiveOk(sub: Sub)
    requires ChannelOk(sub) && sub.inHand.None? && sub.buffer != []
    ensures ChannelOk(Receive(sub))
  {
    assert [sub.buffer[0]] + sub.buffer[1..] == [] + sub.buffer;
  }

  lemma MakeFrameOk(sub: Sub)
    requires ChannelOk(sub) && sub.inHand.Some?
    ensures ChannelOk(MakeFrame(sub))
  {
    var f := MakeFrame(sub).frames[|sub.frames|];
    EventsAppend(sub.frames, f);
    Associative(Events(sub.frames), [f.event], sub.buffer);
    assert [] + sub.buffer == sub.buffer;
    NextNumber(|sub.frames|);
  }

  lemma EventsAppend(frames: seq<MessageFrame>, f: MessageFrame)
    ensures Events(frames + [f]) == Events(frames) + [f.event]
  {
  }

  lemma NextNumber(n: nat)
    ensures (n % 0x1_0000_0000 + 1) % 0x1_0000_0000 == (n + 1) % 0x1_0000_0000
  {
  }

  ghost predicate ChannelsOk(s: State) {
    forall n :: 0 <= n < |s.subs| ==> ChannelOk(s.subs[n])
  }

  lemma ChannelStep(s: State, step: Step)
    requires ChannelsOk(s) && Enabled(s, step)
    ensures ChannelsOk(Apply(s, step))
  {
    match step
    case Send(p, n) => OfferOk(s.subs[n], s.pubs[p].event);
    case Take(n) => ReceiveOk(s.subs[n]);
    case Push(n) => MakeFrameOk(s.subs[n]);
    case _ =>
  }

  // ----- publishes and what became of them -----

  /** An event of publish p stands in a list. */
  predicate Holds(es: seq<Event>, p: nat) {
    exists i :: 0 <= i < |es| && es[i].publish == p
  }

  /** The list holds an event of a publish as often as it should: distinct publishes only. */
  predicate DistinctPublishes(es: seq<Event>) {
    forall i, j :: 0 <= i < j < |es| ==> es[i].publish != es[j].publish
  }

  /** Every event in the list is the event of a publish whose snapshot held the subscriber and
      that has served it. */
  ghost predicate FromPubs(s: State, n: nat, es: seq<Event>) {
    forall i :: 0 <= i < |es| ==>
      && es[i].publish < |s.pubs|
      && s.pubs[es[i].publish].event == es[i]
      && n in s.pubs[es[i].publish].snapshot
      && n !in s.pubs[es[i].publish].remaining
  }

  ghost predicate PubOk(s: State, p: nat)
    requires p < |s.pubs|
  {
    var pub := s.pubs[p];
    && pub.event.publish == p
    && pub.remaining <= pub.snapshot
    && forall n :: n in pub.snapshot ==>
         n < |s.subs| && s.subs[n].topic == pub.event.topic && s.subs[n].since <= p
  }

  ghost predicate PubsOk(s: State) {
    && (forall n :: 0 <= n < |s.subs| ==> s.subs[n].since <= |s.pubs|)
    && forall p :: 0 <= p < |s.pubs| ==> PubOk(s, p)
  }

  ghost predicate DeliveryOk(s: State, n: nat)
    requires n < |s.subs|
  {
    var sub := s.subs[n];
    && FromPubs(s, n, sub.accepted) && DistinctPublishes(sub.accepted)
    && FromPubs(s, n, sub.dropped) && DistinctPublishes(sub.dropped)
    && (forall p :: Holds(sub.accepted, p) ==> !Holds(sub.dropped, p))
    && forall p :: 0 <= p < |s.pubs| && n in s.pubs[p].snapshot && n !in s.pubs[p].remaining ==>
         Holds(sub.accepted, p) || Holds(sub.dropped, p)
  }

  ghost predicate DeliveriesOk(s: State) {
    forall n :: 0 <= n < |s.subs| ==> DeliveryOk(s, n)
  }

  /** What no step changes about a subscriber. */
  lemma SubIdentity(s: State, step: Step, n: nat)
    requires Enabled(s, step) && n < |s.subs|
    ensures var t := Apply(s, step);
            n < |t.subs| && t.subs[n].topic == s.subs[n].topic && t.subs[n].since == s.subs[n].since
              && t.subs[n].id == s.subs[n].id
  {
  }

  lemma SnapshotOk(s: State, topic: Name, n: nat)
    requires TableOk(s) && n in Registered(s.table, topic).Values
    ensures n < |s.subs| && s.subs[n].topic == topic && !s.subs[n].closed
  {
    var id :| id in Registered(s.table, topic) && s.table[topic][id] == n;
    assert IsFiled(s.table, topic, id);
    assert FiledOk(s, topic, id);
  }

  lemma PubStep(s: State, step: Step, p: nat)
    requires TableOk(s) && PubsOk(s) && Enabled(s, step) && p < |Apply(s, step).pubs|
    ensures PubOk(Apply(s, step), p)
  {
    var t := Apply(s, step);
    forall n | n in t.pubs[p].snapshot
      ensures n < |t.subs| && t.subs[n].topic == t.pubs[p].event.topic && t.subs[n].since <= p
    {
      if p < |s.pubs| {
        assert PubOk(s, p) && t.pubs[p].snapshot == s.pubs[p].snapshot && t.pubs[p].event == s.pubs[p].event;
      } else {
        SnapshotOk(s, step.topic, n);
      }
      SubIdentity(s, step, n);
    }
    assert p < |s.pubs| ==> PubOk(s, p);
  }

  lemma PubsStep(s: State, step: Step)
    requires TableOk(s) && PubsOk(s) && Enabled(s, step)
    ensures PubsOk(Apply(s, step))
  {
    forall p | 0 <= p < |Apply(s, step).pubs| ensures PubOk(Apply(s, step), p) {
      PubStep(s, step, p);
    }
  }

  lemma HoldsAppend(es: seq<Event>, e: Event, p: nat)
    ensures Holds(es + [e], p) <==> Holds(es, p) || e.publish == p
  {
    if Holds(es, p) {
      var i :| 0 <= i < |es| && es[i].publish == p;
      assert (es + [e])[i].publish == p;
    }
    if e.publish == p {
      assert (es + [e])[|es|].publish == p;
    }
  }

  /** From one state to the next: publishes keep event and snapshot, and serve a subscriber once. */
  ghost predicate PubsEvolve(s: State, t: State, n: nat) {
    && |s.pubs| <= |t.pubs|
    && forall p :: 0 <= p < |s.pubs| ==>
         && t.pubs[p].event == s.pubs[p].event && t.pubs[p].snapshot == s.pubs[p].snapshot
         && (n in t.pubs[p].remaining ==> n in s.pubs[p].remaining)
  }

  lemma FromPubsKept(s: State, t: State, n: nat, es: seq<Event>)
    requires FromPubs(s, n, es) && PubsEvolve(s, t, n)
    ensures FromPubs(t, n, es)
  {
  }

  /** An event a publish has still to send is in neither list. */
  lemma PendingNotHeld(s: State, n: nat, es: seq<Event>, p: nat)
    requires FromPubs(s, n, es) && p < |s.pubs| && n in s.pubs[p].remaining
    ensures !Holds(es, p)
  {
  }

  lemma SentFromPubs(s: State, n: nat, es: seq<Event>, p: nat)
    requires PubsOk(s) && Enabled(s, Send(p, n)) && FromPubs(s, n, es) && DistinctPublishes(es)
    ensures FromPubs(Apply(s, Send(p, n)), n, es + [s.pubs[p].event])
    ensures DistinctPublishes(es + [s.pubs[p].event])
  {
    var t := Apply(s, Send(p, n));
    assert PubOk(s, p);
    FromPubsKept(s, t, n, es);
    PendingNotHeld(s, n, es, p);
  }

  lemma SendToSelf(s: State, p: nat, n: nat)
    requires PubsOk(s) && Enabled(s, Send(p, n)) && DeliveryOk(s, n)
    ensures DeliveryOk(Apply(s, Send(p, n)), n)
  {
    var t, sub, e := Apply(s, Send(p, n)), s.subs[n], s.pubs[p].event;
    assert PubOk(s, p);
    SentFromPubs(s, n, sub.accepted, p);
    SentFromPubs(s, n, sub.dropped, p);
    FromPubsKept(s, t, n, sub.accepted);
    FromPubsKept(s, t, n, sub.dropped);
    PendingNotHeld(s, n, sub.accepted, p);
    PendingNotHeld(s, n, sub.dropped, p);
    forall q: nat
      ensures Holds(sub.accepted + [e], q) <==> Holds(sub.accepted, q) || q == p
      ensures Holds(sub.dropped + [e], q) <==> Holds(sub.dropped, q) || q == p
    {
      HoldsAppend(sub.accepted, e, q);
      HoldsAppend(sub.dropped, e, q);
    }
  }

  lemma DeliveryUnchanged(s: State, t: State, n: nat)
    requires n < |s.subs| && n < |t.subs| && DeliveryOk(s, n) && PubsEvolve(s, t, n)
    requires t.subs[n].accepted == s.subs[n].accepted && t.subs[n].dropped == s.subs[n].dropped
    requires forall p :: 0 <= p < |t.pubs| && n in t.pubs[p].snapshot && n !in t.pubs[p].remaining ==>
               p < |s.pubs| && n !in s.pubs[p].remaining
    ensures DeliveryOk(t, n)
  {
    FromPubsKept(s, t, n, s.subs[n].accepted);
    FromPubsKept(s, t, n, s.subs[n].dropped);
  }

  lemma DeliveryStep(s: State, step: Step, n: nat)
    requires PubsOk(s) && Enabled(s, step) && n < |Apply(s, step).subs|
    requires n < |s.subs| ==> DeliveryOk(s, n)
    ensures DeliveryOk(Apply(s, step), n)
  {
    var t := Apply(s, step);
    if n == |s.subs| {
      forall p | 0 <= p < |s.pubs| ensures n !in s.pubs[p].snapshot {
        assert PubOk(s, p);
      }
    } else if step.Send? && step.sub == n {
      SendToSelf(s, step.pub, n);
    } else {
      DeliveryUnchanged(s, t, n);
    }
  }

  // ----- every run -----

  ghost predicate Inv(s: State) {
    TableOk(s) && ChannelsOk(s) && PubsOk(s) && DeliveriesOk(s)
  }

  lemma StepKeepsInv(s: State, step: Step)
    requires Inv(s) && Enabled(s, step)
    ensures Inv(Apply(s, step))
  {
    TableStep(s, step);
    ChannelStep(s, step);
    PubsStep(s, step);
    forall n | 0 <= n < |Apply(s, step).subs| ensures DeliveryOk(Apply(s, step), n) {
      DeliveryStep(s, step, n);
    }
  }

  lemma {:induction false} RunKeepsInv(s: State, steps: seq<Step>, t: State)
    requires Inv(s) && Reaches(s, steps, t)
    ensures Inv(t)
    decreases |steps|
  {
    if steps != [] {
      StepKeepsInv(s, steps[0]);
      RunKeepsInv(Apply(s, steps[0]), steps[1..], t);
    }
  }

  lemma ReachableInv(t: State)
    requires Reachable(t)
    ensures Inv(t)
  {
    var s, steps :| Init(s) && Reaches(s, steps, t);
    RunKeepsInv(s, steps, t);
  }

  /** Topics lists exactly the topics with a positive subscriber count; whoever is registered is
      open and under its own name; nothing was ever closed twice. */
  lemma TableInvariant(t: State)
    requires Reachable(t)
    ensures forall topic :: topic in t.table.Keys <==> |Registered(t.table, topic)| > 0
    ensures forall topic, id :: IsFiled(t.table, topic, id) ==> FiledOk(t, topic, id)
    ensures !t.panicked
  {
    ReachableInv(t);
  }

  /** A subscriber's stream carries message frames numbered 1, 2, 3, ... modulo 2^32 that hold a
      prefix, in order, of the events its channel took; the next event may be in hand, and the
      rest, at most 64, is buffered. */
  lemma StreamInvariant(t: State, n: nat)
    requires Reachable(t) && n < |t.subs|
    ensures var sub := t.subs[n];
            && |sub.frames| <= |sub.accepted|
            && (forall i :: 0 <= i < |sub.frames| ==>
                  sub.frames[i].sequence == (i + 1) % 0x1_0000_0000 && sub.frames[i].event == sub.accepted[i])
            && Received(sub) <= |sub.accepted| && sub.accepted[|sub.frames|..Received(sub)] == Held(sub)
            && sub.buffer == sub.accepted[Received(sub)..] && |sub.accepted| - Received(sub) <= CAPACITY
  {
    ReachableInv(t);
    var sub := t.subs[n];
    assert ChannelOk(sub);
    assert sub.accepted[|sub.frames|..Received(sub)] == Held(sub);
    assert sub.accepted[Received(sub)..] == sub.buffer;
    forall i | 0 <= i < |sub.frames| ensures sub.frames[i].event == sub.accepted[i] {
      assert Events(sub.frames)[i] == sub.accepted[i];
    }
  }

  /** Each publish offers its event once to each subscriber of its snapshot, a subscriber of its
      topic since before the publish; once offered, the event is accepted or dropped, not both. */
  lemma DeliveryInvariant(t: State, n: nat, p: nat)
    requires Reachable(t) && n < |t.subs| && p < |t.pubs|
    ensures DistinctPublishes(t.subs[n].accepted) && DistinctPublishes(t.subs[n].dropped)
    ensures Holds(t.subs[n].accepted, p) || Holds(t.subs[n].dropped, p) <==>
              n in t.pubs[p].snapshot && n !in t.pubs[p].remaining
    ensures !(Holds(t.subs[n].accepted, p) && Holds(t.subs[n].dropped, p))
    ensures n in t.pubs[p].snapshot ==> t.subs[n].topic == t.pubs[p].event.topic && t.subs[n].since <= p
    ensures n in t.pubs[p].remaining ==> Enabled(t, Send(p, n))
    ensures forall i :: 0 <= i < |t.subs[n].accepted| ==>
              t.subs[n].accepted[i].publish < |t.pubs|
                && t.subs[n].accepted[i] == t.pubs[t.subs[n].accepted[i].publish].event
  {
    ReachableInv(t);
    assert DeliveryOk(t, n) && PubOk(t, p);
  }

  /** An event is dropped exactly when the channel, which holds what was accepted and not yet
      received by the loop, holds 64 events. */
  lemma DropsExactlyWhenFull(t: State, p: nat, n: nat)
    requires Reachable(t) && Enabled(t, Send(p, n))
    ensures Holds(Apply(t, Send(p, n)).subs[n].dropped, p) <==>
              |t.subs[n].accepted| == Received(t.subs[n]) + CAPACITY
    ensures Holds(Apply(t, Send(p, n)).subs[n].accepted, p) <==>
              |t.subs[n].accepted| < Received(t.subs[n]) + CAPACITY
  {
    ReachableInv(t);
    var sub, e := t.subs[n], t.pubs[p].event;
    assert ChannelOk(sub) && DeliveryOk(t, n) && PubOk(t, p);
    HoldsAppend(sub.accepted, e, p);
    HoldsAppend(sub.dropped, e, p);
    PendingNotHeld(t, n, sub.accepted, p);
    PendingNotHeld(t, n, sub.dropped, p);
  }

  // ----- publishes that do not overlap -----

  /** A step that begins a publish only when every earlier one has finished. */
  ghost predicate NoOverlap(s: State, step: Step) {
    step.BeginPublish? ==> forall p :: 0 <= p < |s.pubs| ==> s.pubs[p].remaining == {}
  }

  ghost predicate ReachesSerially(s: State, steps: seq<Step>, t: State)
    decreases |steps|
  {
    if steps == [] then t == s
    else
      && Enabled(s, steps[0]) && NoOverlap(s, steps[0])
      && ReachesSerially(Apply(s, steps[0]), steps[1..], t)
  }

  predicate InOrder(es: seq<Event>) {
    forall i, j :: 0 <= i < j < |es| ==> es[i].publish < es[j].publish
  }

  /** Only the last publish may be unfinished, and every list is in publish order. */
  ghost predicate Serial(s: State) {
    && (forall p :: 0 <= p < |s.pubs| - 1 ==> s.pubs[p].remaining == {})
    && forall n :: 0 <= n < |s.subs| ==> InOrder(s.subs[n].accepted)
  }

  /** An unfinished publish is the last one, so its event goes behind all accepted ones. */
  lemma SentIsLatest(s: State, p: nat, n: nat)
    requires Inv(s) && Serial(s) && Enabled(s, Send(p, n))
    ensures InOrder(s.subs[n].accepted + [s.pubs[p].event])
  {
    var es := s.subs[n].accepted;
    assert DeliveryOk(s, n) && PubOk(s, p);
    PendingNotHeld(s, n, es, p);
    forall i | 0 <= i < |es| ensures es[i].publish < p {
      assert p == |s.pubs| - 1;
    }
  }

  lemma SerialStep(s: State, step: Step)
    requires Inv(s) && Serial(s) && Enabled(s, step) && NoOverlap(s, step)
    ensures Serial(Apply(s, step))
  {
    if step.Send? {
      SentIsLatest(s, step.pub, step.sub);
    }
  }

  lemma {:induction false} SerialRun(s: State, steps: seq<Step>, t: State)
    requires Inv(s) && Serial(s) && ReachesSerially(s, steps, t)
    ensures Inv(t) && Serial(t)
    decreases |steps|
  {
    if steps != [] {
      StepKeepsInv(s, steps[0]);
      SerialStep(s, steps[0]);
      SerialRun(Apply(s, steps[0]), steps[1..], t);
    }
  }

  /** When publishes do not overlap, a subscriber's accepted events follow the order of the
      publishes, all of them to its topic and begun after it subscribed. */
  lemma SerialOrder(s: State, steps: seq<Step>, t: State, n: nat)
    requires Init(s) && ReachesSerially(s, steps, t) && n < |t.subs|
    ensures InOrder(t.subs[n].accepted)
    ensures forall i :: 0 <= i < |t.subs[n].accepted| ==>
              var p := t.subs[n].accepted[i].publish;
              t.subs[n].since <= p < |t.pubs| && t.pubs[p].event == t.subs[n].accepted[i]
                && t.pubs[p].event.topic == t.subs[n].topic
  {
    SerialRun(s, steps, t);
    assert DeliveryOk(t, n);
    forall i | 0 <= i < |t.subs[n].accepted|
      ensures var p := t.subs[n].accepted[i].publish;
              t.subs[n].since <= p < |t.pubs| && t.pubs[p].event.topic == t.subs[n].topic
    {
      assert PubOk(t, t.subs[n].accepted[i].publish);
    }
  }

  // ----- how long a registration lasts -----

  /** A later step names the same topic and ID, whoever takes it. */
  predicate Touches(step: Step, topic: Name, id: Name) {
    match step
    case Subscribe(u, i) => u == topic && i == id
    case Unsubscribe(u, i) => u == topic && i == id
    case _ => false
  }

  ghost predicate Holder(s: State, topic: Name, id: Name, n: nat) {
    IsFiled(s.table, topic, id) && s.table[topic][id] == n
  }

  lemma HolderStep(s: State, step: Step, topic: Name, id: Name, n: nat)
    requires TableOk(s) && Enabled(s, step) && n < |s.subs|
    ensures Holder(Apply(s, step), topic, id, n) <==> Holder(s, topic, id, n) && !Touches(step, topic, id)
  {
    match step
    case Subscribe(u, i) => RegisterFiles(s.table, u, i, |s.subs|, topic, id);
    case Unsubscribe(u, i) => DeregisterFiles(s.table, u, i, topic, id);
    case _ =>
  }

  /** A registration ends exactly when someone subscribes or unsubscribes under the same topic and
      ID, and it never comes back; the subscriber's own stream has no say in it. */
  lemma {:induction false} RegistrationLifetime(s: State, steps: seq<Step>, t: State, topic: Name, id: Name, n: nat)
    requires Inv(s) && Reaches(s, steps, t) && n < |s.subs|
    ensures Holder(t, topic, id, n) <==>
              Holder(s, topic, id, n) && forall i :: 0 <= i < |steps| ==> !Touches(steps[i], topic, id)
    decreases |steps|
  {
    if steps != [] {
      StepKeepsInv(s, steps[0]);
      HolderStep(s, steps[0], topic, id, n);
      RegistrationLifetime(Apply(s, steps[0]), steps[1..], t, topic, id, n);
      assert forall i :: 1 <= i < |steps| ==> steps[i] == steps[1..][i - 1];
    }
  }

  /** A subscription does not last as long as its own stream: after a second subscription under
      the same ID, the first stream's deferred Unsubscribe closes the second subscriber and leaves
      the first one open and unregistered. */
  lemma ReplacedSubscription(topic: Name, id: Name)
    ensures var s0 := State(map[], [], [], false);
            var steps := [Subscribe(topic, id), Subscribe(topic, id), Unsubscribe(topic, id)];
            exists t :: Init(s0) && Reaches(s0, steps, t) && |t.subs| == 2
              && t.subs[1].closed && !t.subs[0].closed && !IsFiled(t.table, topic, id)
  {
    var s0 := State(map[], [], [], false);
    var s1 := Apply(s0, Subscribe(topic, id));
    var s2 := Apply(s1, Subscribe(topic, id));
    var s3 := Apply(s2, Unsubscribe(topic, id));
    var steps := [Subscribe(topic, id), Subscribe(topic, id), Unsubscribe(topic, id)];
    DeregisterFiles(s2.table, topic, id, topic, id);
    assert Reaches(s3, [], s3);
    assert steps[1..][1..] == [Unsubscribe(topic, id)];
    assert Reaches(s2, [Unsubscribe(topic, id)], s3);
    assert Reaches(s1, steps[1..], s3);
    assert Reaches(s0, steps, s3);
  }

  // ----- every state told from the steps alone -----

  lemma {:induction false} ReachesSplit(s: State, steps: seq<Step>, k: nat, t: State) returns (u: State)
    requires Reaches(s, steps, t) && k <= |steps|
    ensures Reaches(s, steps[..k], u) && Reaches(u, steps[k..], t)
    decreases k
  {
    if k == 0 {
      u := s;
      assert steps[0..] == steps;
    } else {
      u := ReachesSplit(Apply(s, steps[0]), steps[1..], k - 1, t);
      assert steps[..k][1..] == steps[1..][..k - 1] && steps[k..] == steps[1..][k - 1..];
    }
  }

  /** The state before the last step. */
  lemma LastOf(s: State, steps: seq<Step>, t: State) returns (u: State)
    requires steps != [] && Reaches(s, steps, t)
    ensures Reaches(s, steps[..|steps| - 1], u)
    ensures Enabled(u, steps[|steps| - 1]) && t == Apply(u, steps[|steps| - 1])
  {
    var n := |steps| - 1;
    u := ReachesSplit(s, steps, n, t);
    assert steps[n..] == [steps[n]] && steps[n..][1..] == [];
  }

  /** How many of the steps subscribe, and how many publish. */
  function Subscriptions(steps: seq<Step>): nat {
    if steps == [] then 0
    else Subscriptions(steps[..|steps| - 1]) + if steps[|steps| - 1].Subscribe? then 1 else 0
  }

  function Publishes(steps: seq<Step>): nat {
    if steps == [] then 0
    else Publishes(steps[..|steps| - 1]) + if steps[|steps| - 1].BeginPublish? then 1 else 0
  }

  lemma {:induction false} Counted(s: State, steps: seq<Step>, t: State)
    requires Init(s) && Reaches(s, steps, t)
    ensures |t.subs| == Subscriptions(steps) && |t.pubs| == Publishes(steps)
    decreases |steps|
  {
    if steps != [] {
      var u := LastOf(s, steps, t);
      Counted(s, steps[..|steps| - 1], u);
    }
  }

  /** Step j is the subscription that made subscriber n, under topic and ID, and no step between j
      and k subscribes or unsubscribes under them again. */
  predicate SubscribedSince(steps: seq<Step>, j: nat, k: nat, n: nat, topic: Name, id: Name) {
    && j < k <= |steps| && steps[j] == Subscribe(topic, id) && Subscriptions(steps[..j]) == n
    && forall m :: j < m < k ==> !Touches(steps[m], topic, id)
  }

  lemma SubscribedInPrefix(steps: seq<Step>, l: nat, j: nat, k: nat, n: nat, topic: Name, id: Name)
    requires k <= l <= |steps|
    ensures SubscribedSince(steps[..l], j, k, n, topic, id) <==> SubscribedSince(steps, j, k, n, topic, id)
  {
    if j < k {
      assert steps[..l][..j] == steps[..j];
    }
    assert forall m :: 0 <= m < l ==> steps[..l][m] == steps[m];
  }

  lemma HolderAfter(s: State, step: Step, topic: Name, id: Name, n: nat)
    requires TableOk(s) && Enabled(s, step)
    ensures Holder(Apply(s, step), topic, id, n) <==>
              (step == Subscribe(topic, id) && n == |s.subs|) || (Holder(s, topic, id, n) && !Touches(step, topic, id))
  {
    assert IsFiled(s.table, topic, id) ==> FiledOk(s, topic, id);
    match step
    case Subscribe(u, i) => RegisterFiles(s.table, u, i, |s.subs|, topic, id);
    case Unsubscribe(u, i) => DeregisterFiles(s.table, u, i, topic, id);
    case _ =>
  }

  /** Who is registered under a name: whoever subscribed under it last, if nobody has unsubscribed
      under it since. */
  lemma {:induction false} RegisteredExactly(s: State, steps: seq<Step>, t: State, topic: Name, id: Name, n: nat)
    requires Init(s) && Reaches(s, steps, t)
    ensures Holder(t, topic, id, n) <==> exists j :: SubscribedSince(steps, j, |steps|, n, topic, id)
    decreases |steps|
  {
    if steps != [] {
      var l := |steps| - 1;
      var u := LastOf(s, steps, t);
      RegisteredExactly(s, steps[..l], u, topic, id, n);
      Counted(s, steps[..l], u);
      assert Reachable(u);
      ReachableInv(u);
      HolderAfter(u, steps[l], topic, id, n);
      SubscribedAfter(steps, topic, id, n);
    }
  }

  lemma SubscribedAfter(steps: seq<Step>, topic: Name, id: Name, n: nat)
    requires steps != []
    ensures var l := |steps| - 1;
            (exists j :: SubscribedSince(steps, j, |steps|, n, topic, id)) <==>
              || (steps[l] == Subscribe(topic, id) && n == Subscriptions(steps[..l]))
              || ((exists j :: SubscribedSince(steps[..l], j, l, n, topic, id)) && !Touches(steps[l], topic, id))
  {
    var l := |steps| - 1;
    if steps[l] == Subscribe(topic, id) && n == Subscriptions(steps[..l]) {
      assert SubscribedSince(steps, l, |steps|, n, topic, id);
    }
    forall j: nat | SubscribedSince(steps[..l], j, l, n, topic, id) && !Touches(steps[l], topic, id)
      ensures SubscribedSince(steps, j, |steps|, n, topic, id)
    {
      SubscribedInPrefix(steps, l, j, l, n, topic, id);
    }
    forall j: nat | SubscribedSince(steps, j, |steps|, n, topic, id) && j < l
      ensures SubscribedSince(steps[..l], j, l, n, topic, id) && !Touches(steps[l], topic, id)
    {
      SubscribedInPrefix(steps, l, j, l, n, topic, id);
    }
  }

  lemma {:induction false} Kept(s: State, steps: seq<Step>, t: State)
    requires Reaches(s, steps, t)
    ensures |s.pubs| <= |t.pubs| && |s.subs| <= |t.subs|
    ensures forall p :: 0 <= p < |s.pubs| ==>
              t.pubs[p].event == s.pubs[p].event && t.pubs[p].snapshot == s.pubs[p].snapshot
    ensures forall n :: 0 <= n < |s.subs| ==>
              && t.subs[n].topic == s.subs[n].topic && t.subs[n].id == s.subs[n].id
              && t.subs[n].since == s.subs[n].since
    decreases |steps|
  {
    if steps != [] {
      Kept(Apply(s, steps[0]), steps[1..], t);
    }
  }

  /** A subscription makes a subscriber with its topic and ID, and it stays so. */
  lemma SubscriberExactly(s: State, steps: seq<Step>, t: State, j: nat)
    requires Init(s) && Reaches(s, steps, t) && j < |steps| && steps[j].Subscribe?
    ensures var n := Subscriptions(steps[..j]);
            && n < |t.subs| && t.subs[n].topic == steps[j].topic && t.subs[n].id == steps[j].id
            && t.subs[n].since == Publishes(steps[..j])
  {
    var u := ReachesSplit(s, steps, j, t);
    Counted(s, steps[..j], u);
    assert steps[j..][0] == steps[j];
    Kept(Apply(u, steps[j]), steps[j..][1..], t);
  }

  lemma RegisteredAmong(t: State, topic: Name, n: nat)
    ensures n in Registered(t.table, topic).Values <==> exists id :: Holder(t, topic, id, n)
  {
    var subs := Registered(t.table, topic);
    if n in subs.Values {
      var id :| id in subs && subs[id] == n;
      assert Holder(t, topic, id, n);
    }
    forall id | Holder(t, topic, id, n) ensures n in subs.Values {
      assert id in subs && subs[id] == n;
    }
  }

  /** A publish carries the topic, payload and time it was begun with, and its snapshot holds exactly
      the subscribers who had subscribed to its topic before and under whose name nobody had
      subscribed or unsubscribed again. */
  lemma SnapshotExactly(s: State, steps: seq<Step>, t: State, k: nat)
    requires Init(s) && Reaches(s, steps, t) && k < |steps| && steps[k].BeginPublish?
    ensures var p := Publishes(steps[..k]);
            && p < |t.pubs|
            && t.pubs[p].event == Event(p, steps[k].topic, steps[k].payload, steps[k].time)
            && forall n: nat ::
                 n in t.pubs[p].snapshot <==> exists j, id :: SubscribedSince(steps, j, k, n, steps[k].topic, id)
  {
    var u := ReachesSplit(s, steps, k, t);
    Counted(s, steps[..k], u);
    assert steps[k..][0] == steps[k];
    Kept(Apply(u, steps[k]), steps[k..][1..], t);
    forall n: nat
      ensures n in Registered(u.table, steps[k].topic).Values <==>
                exists j, id :: SubscribedSince(steps, j, k, n, steps[k].topic, id)
    {
      RegisteredBefore(s, steps, k, u, steps[k].topic, n);
    }
  }

  lemma RegisteredBefore(s: State, steps: seq<Step>, k: nat, u: State, topic: Name, n: nat)
    requires Init(s) && k <= |steps| && Reaches(s, steps[..k], u)
    ensures n in Registered(u.table, topic).Values <==>
              exists j, id :: SubscribedSince(steps, j, k, n, topic, id)
  {
    RegisteredAmong(u, topic, n);
    if n in Registered(u.table, topic).Values {
      var id :| Holder(u, topic, id, n);
      RegisteredExactly(s, steps[..k], u, topic, id, n);
      var j: nat :| SubscribedSince(steps[..k], j, k, n, topic, id);
      SubscribedInPrefix(steps, k, j, k, n, topic, id);
    }
    forall j: nat, id | SubscribedSince(steps, j, k, n, topic, id) ensures Holder(u, topic, id, n) {
      SubscribedInPrefix(steps, k, j, k, n, topic, id);
      RegisteredExactly(s, steps[..k], u, topic, id, n);
    }
  }

  /** Every publish is some step's. */
  lemma {:induction false} PublishStep(s: State, steps: seq<Step>, t: State, p: nat) returns (k: nat)
    requires Init(s) && Reaches(s, steps, t) && p < |t.pubs|
    ensures k < |steps| && steps[k].BeginPublish? && Publishes(steps[..k]) == p
    decreases |steps|
  {
    var l := |steps| - 1;
    var u := LastOf(s, steps, t);
    if p < |u.pubs| {
      k := PublishStep(s, steps[..l], u, p);
      assert steps[..l][..k] == steps[..k];
    } else {
      k := l;
      Counted(s, steps[..l], u);
    }
  }

  /** The step closes subscriber n: someone unsubscribes its name while n is registered under it. */
  ghost predicate ClosedAt(steps: seq<Step>, m: nat, n: nat) {
    && m < |steps| && steps[m].Unsubscribe?
    && exists j :: SubscribedSince(steps, j, m, n, steps[m].topic, steps[m].id)
  }

  /** A subscriber is closed exactly when somebody has unsubscribed its name while it was registered
      under it. */
  lemma {:induction false} ClosedExactly(s: State, steps: seq<Step>, t: State, n: nat)
    requires Init(s) && Reaches(s, steps, t) && n < |t.subs|
    ensures t.subs[n].closed <==> exists m :: ClosedAt(steps, m, n)
    decreases |steps|
  {
    if steps != [] {
      var l := |steps| - 1;
      var u := LastOf(s, steps, t);
      forall m: nat | m < l ensures ClosedAt(steps[..l], m, n) <==> ClosedAt(steps, m, n) {
        ClosedInPrefix(steps, l, m, n);
      }
      if n < |u.subs| {
        ClosedExactly(s, steps[..l], u, n);
      } else {
        NotYetClosed(s, steps[..l], u, n);
      }
      ClosedByLast(s, steps, u, n);
    }
  }

  lemma ClosedInPrefix(steps: seq<Step>, l: nat, m: nat, n: nat)
    requires m < l <= |steps|
    ensures ClosedAt(steps[..l], m, n) <==> ClosedAt(steps, m, n)
  {
    if steps[m].Unsubscribe? {
      forall j: nat
        ensures SubscribedSince(steps[..l], j, m, n, steps[m].topic, steps[m].id) <==>
                  SubscribedSince(steps, j, m, n, steps[m].topic, steps[m].id)
      {
        SubscribedInPrefix(steps, l, j, m, n, steps[m].topic, steps[m].id);
      }
    }
  }

  lemma ClosedByLast(s: State, steps: seq<Step>, u: State, n: nat)
    requires steps != [] && Init(s) && Reaches(s, steps[..|steps| - 1], u) && Enabled(u, steps[|steps| - 1])
    ensures ClosedAt(steps, |steps| - 1, n) <==>
              var x := steps[|steps| - 1]; x.Unsubscribe? && Holder(u, x.topic, x.id, n)
  {
    var l := |steps| - 1;
    if steps[l].Unsubscribe? {
      RegisteredExactly(s, steps[..l], u, steps[l].topic, steps[l].id, n);
      forall j: nat
        ensures SubscribedSince(steps[..l], j, l, n, steps[l].topic, steps[l].id) <==>
                  SubscribedSince(steps, j, l, n, steps[l].topic, steps[l].id)
      {
        SubscribedInPrefix(steps, l, j, l, n, steps[l].topic, steps[l].id);
      }
    }
  }

  lemma NotYetClosed(s: State, steps: seq<Step>, u: State, n: nat)
    requires Init(s) && Reaches(s, steps, u) && n >= |u.subs|
    ensures forall m :: !ClosedAt(steps, m, n)
  {
    forall m: nat | ClosedAt(steps, m, n) ensures false {
      var j :| SubscribedSince(steps, j, m, n, steps[m].topic, steps[m].id);
      SubscriberExactly(s, steps, u, j);
    }
  }

  // ----- the objects, each operation whole -----

  class Subscriber {
    const id: Name
    const topic: Name
    var events: seq<Event>   // the channel's buffer
    var closed: bool

    constructor (id: Name, topic: Name)
      ensures this.id == id && this.topic == topic && events == [] && !closed
    {
      this.id, this.topic, events, closed := id, topic, [], false;
    }

    /** A send that drops the event when the channel is full. */
    method TrySend(e: Event)
      modifies `events
      ensures events == if |old(events)| < 64 then old(events) + [e] else old(events)
    {
      if |events| < CAPACITY {
        events := events + [e];
      }
    }

    /** close(done): closing twice would panic. */
    method Close()
      requires !closed
      modifies this`closed
      ensures closed
    {
      closed := true;
    }
  }

  /** Every subscriber is filed under its own topic and ID. */
  predicate Named(t: Table<Subscriber>) {
    forall topic, id | topic in t && id in t[topic] :: t[topic][id].topic == topic && t[topic][id].id == id
  }

  function SubsOf(t: Table<Subscriber>): set<Subscriber> {
    set topic, id | topic in t && id in t[topic] :: t[topic][id]
  }

  ghost predicate AllOpen(subs: set<Subscriber>)
    reads subs
  {
    forall sub :: sub in subs ==> !sub.closed
  }

  lemma OpenSubset(some: set<Subscriber>, all: set<Subscriber>)
    requires some <= all && AllOpen(all)
    ensures AllOpen(some)
  {
  }

  lemma RegisterNamed(t: Table<Subscriber>, topic: Name, id: Name, sub: Subscriber)
    requires Named(t) && sub.topic == topic && sub.id == id
    ensures Named(Register(t, topic, id, sub))
    ensures SubsOf(Register(t, topic, id, sub)) <= SubsOf(t) + {sub}
  {
    var r: Table<Subscriber> := Register(t, topic, id, sub);
    forall u, i | u in r && i in r[u]
      ensures r[u][i].topic == u && r[u][i].id == i && r[u][i] in SubsOf(t) + {sub}
    {
      RegisterFiles(t, topic, id, sub, u, i);
      assert IsFiled(r, u, i);
    }
  }

  lemma RegisterOpen(t: Table<Subscriber>, topic: Name, id: Name, sub: Subscriber)
    requires NoEmptyTopic(t) && Named(t) && AllOpen(SubsOf(t))
    requires sub.topic == topic && sub.id == id && !sub.closed
    ensures var r: Table<Subscriber> := Register(t, topic, id, sub);
            NoEmptyTopic(r) && Named(r) && AllOpen(SubsOf(r))
  {
    RegisterNonEmpty(t, topic, id, sub);
    RegisterNamed(t, topic, id, sub);
    OpenSubset(SubsOf(Register(t, topic, id, sub)), SubsOf(t) + {sub});
  }

  lemma DeregisterNamed(t: Table<Subscriber>, topic: Name, id: Name)
    requires Named(t)
    ensures Named(Deregister(t, topic, id))
    ensures SubsOf(Deregister(t, topic, id)) <= SubsOf(t)
    ensures IsFiled(t, topic, id) ==> t[topic][id] !in SubsOf(Deregister(t, topic, id))
  {
    var r: Table<Subscriber> := Deregister(t, topic, id);
    forall u, i | u in r && i in r[u]
      ensures r[u][i].topic == u && r[u][i].id == i && r[u][i] in SubsOf(t)
      ensures IsFiled(t, topic, id) ==> r[u][i] != t[topic][id]
    {
      DeregisterFiles(t, topic, id, u, i);
      assert IsFiled(r, u, i);
    }
  }

  lemma RegisteredNamed(t: Table<Subscriber>, topic: Name)
    requires Named(t)
    ensures forall id :: id in Registered(t, topic) ==>
              Registered(t, topic)[id].id == id && Registered(t, topic)[id] in SubsOf(t)
  {
  }

  lemma FiledIsListed(t: Table<Subscriber>, topic: Name, id: Name)
    requires IsFiled(t, topic, id)
    ensures t[topic][id] in SubsOf(t)
  {
  }

  class EventHub {
    var subscribers: Table<Subscriber>

    ghost predicate Valid()
      reads this, SubsOf(subscribers)
    {
      NoEmptyTopic(subscribers) && Named(subscribers) && AllOpen(SubsOf(subscribers))
    }

    constructor ()
      ensures Valid() && subscribers == map[]
    {
      subscribers := map[];
    }

    method Subscribe(topic: Name, id: Name) returns (sub: Subscriber)
      requires Valid()
      modifies this
      ensures Valid() && fresh(sub) && sub.events == [] && !sub.closed
      ensures subscribers == Register(old(subscribers), topic, id, sub)
    {
      sub := new Subscriber(id, topic);
      ghost var after := SubsOf(Register(subscribers, topic, id, sub));
      RegisterOpen(subscribers, topic, id, sub);
      File(topic, id, sub);
      assert AllOpen(after);
    }

    method File(topic: Name, id: Name, sub: Subscriber)
      modifies `subscribers
      ensures subscribers == Register(old(subscribers), topic, id, sub)
    {
      if topic !in subscribers {
        subscribers := subscribers[topic := map[]];
      }
      var subs: map<Name, Subscriber> := subscribers[topic];
      subscribers := subscribers[topic := subs[id := sub]];
    }

    /** Closes the subscriber filed under the name, whoever it is, and no other. */
    method Unsubscribe(topic: Name, id: Name)
      requires Valid()
      modifies this, if IsFiled(subscribers, topic, id) then {subscribers[topic][id]} else {}
      ensures Valid()
      ensures subscribers == Deregister(old(subscribers), topic, id)
      ensures old(IsFiled(subscribers, topic, id)) ==>
                var sub := old(subscribers[topic][id]);
                sub.closed && sub.events == old(subscribers[topic][id].events)
    {
      DeregisterNonEmpty(subscribers, topic, id);
      DeregisterNamed(subscribers, topic, id);
      ghost var rest := SubsOf(Deregister(subscribers, topic, id));
      OpenSubset(rest, SubsOf(subscribers));
      if topic in subscribers && id in subscribers[topic] {
        FiledIsListed(subscribers, topic, id);
        subscribers[topic][id].Close();
      }
      assert AllOpen(rest);
      Unfile(topic, id);
      assert AllOpen(rest);
    }

    method Unfile(topic: Name, id: Name)
      modifies `subscribers
      ensures subscribers == Deregister(old(subscribers), topic, id)
    {
      if topic in subscribers {
        var subs := subscribers[topic] - {id};
        subscribers := if |subs| == 0 then subscribers - {topic} else subscribers[topic := subs];
      }
    }

    /** A publish that nothing interleaves with: every subscriber of the topic is offered the event
        once. */
    method Publish(evt: Event)
      requires Valid()
      modifies Registered(subscribers, evt.topic).Values
      ensures Valid()
      ensures forall id :: id in Registered(subscribers, evt.topic) ==>
                var sub := Registered(subscribers, evt.topic)[id];
                && sub.events == (if |old(sub.events)| < 64 then old(sub.events) + [evt] else old(sub.events))
                && !sub.closed
    {
      var dest := Registered(subscribers, evt.topic);
      ghost var all := SubsOf(subscribers);
      RegisteredNamed(subscribers, evt.topic);
      SendAll(dest, evt);
      assert AllOpen(all);
    }

    /** The loop over the copied table. */
    static method SendAll(dest: map<Name, Subscriber>, evt: Event)
      requires forall id :: id in dest ==> dest[id].id == id
      modifies dest.Values`events
      ensures forall id :: id in dest ==>
                dest[id].events ==
                  if |old(dest[id].events)| < 64 then old(dest[id].events) + [evt] else old(dest[id].events)
    {
      var todo := dest.Keys;
      while todo != {}
        invariant todo <= dest.Keys
        invariant forall id :: id in dest ==>
                    dest[id].events ==
                      if id !in todo && |old(dest[id].events)| < 64 then old(dest[id].events) + [evt]
                      else old(dest[id].events)
        decreases todo
      {
        var id :| id in todo;
        todo := todo - {id};
        dest[id].TrySend(evt);
      }
    }

    method Topics() returns (topics: set<Name>)
      requires Valid()
      ensures forall topic :: topic in topics <==> |Registered(subscribers, topic)| > 0
    {
      topics := subscribers.Keys;
    }

    method SubscriberCount(topic: Name) returns (n: nat)
      requires Valid()
      ensures n > 0 <==> topic in subscribers
      ensures topic in subscribers ==> n == |subscribers[topic]|
    {
      n := if topic in subscribers then |subscribers[topic]| else 0;
    }
  }
}
