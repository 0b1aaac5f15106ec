/**
 Broadcasting into bounded per-client queues.  A full queue of a high-priority client gives up its
 oldest message; any other client's full queue refuses the new one.  Sending to one client is one
 atomic step.
 */
module Notifier {
  import opened Wrappers
  import opened Json

  datatype Message = Message(
    kind: string, priority: int, room: string, expiresAt: Option<int>, metadata: map<string, Json>, payload: Json)

  datatype Filter = Filter(kind: string, conditions: map<string, Json>, enabled: bool)

  const PRIORITY_HIGH := 3

  // ---------------------------------------------------------------- who gets a message

  ghost predicate CustomPasses(conditions: map<string, Json>, m: Message) {
    forall k :: k in conditions && k in m.metadata ==> m.metadata[k] == conditions[k]
  }

  /** `applyFilter`: a filter without a usable condition lets everything through. */
  ghost predicate Passes(f: Filter, m: Message) {
    if f.kind == "message_type" then
      "type" in f.conditions && f.conditions["type"].Str? ==> m.kind == f.conditions["type"].s
    else if f.kind == "priority" then
      "min_priority" in f.conditions && f.conditions["min_priority"].Num? ==>
        m.priority as real >= f.conditions["min_priority"].n
    else if f.kind == "room" then
      "room" in f.conditions && f.conditions["room"].Str? ==> m.room == f.conditions["room"].s
    else f.kind == "custom" ==> CustomPasses(f.conditions, m)
  }

  /** Not expired, passed by every enabled filter, and within the client's rate. */
  ghost predicate Accepts(filters: seq<Filter>, m: Message, now: int, allow: bool) {
    && (m.expiresAt.Some? ==> now <= m.expiresAt.value)
    && (forall i :: 0 <= i < |filters| && filters[i].enabled ==> Passes(filters[i], m))
    && allow
  }

  /** What each kind of filter refuses: another type, too low a priority, another room, or a differing condition. */
  lemma RefusedExactly(f: Filter, m: Message)
    ensures !Passes(f, m) <==>
            || (f.kind == "message_type" && exists v :: "type" in f.conditions && f.conditions["type"] == Str(v) && v != m.kind)
            || (f.kind == "priority" && exists n :: "min_priority" in f.conditions && f.conditions["min_priority"] == Num(n)
                                                    && (m.priority as real) < n)
            || (f.kind == "room" && exists v :: "room" in f.conditions && f.conditions["room"] == Str(v) && v != m.room)
            || (f.kind == "custom" && exists k :: k in f.conditions && k in m.metadata && m.metadata[k] != f.conditions[k])
  {
    if f.kind == "message_type" && "type" in f.conditions && f.conditions["type"].Str? {
      assert f.conditions["type"] == Str(f.conditions["type"].s);
    }
    if f.kind == "priority" && "min_priority" in f.conditions && f.conditions["min_priority"].Num? {
      assert f.conditions["min_priority"] == Num(f.conditions["min_priority"].n);
    }
    if f.kind == "room" && "room" in f.conditions && f.conditions["room"].Str? {
      assert f.conditions["room"] == Str(f.conditions["room"].s);
    }
  }

  /** A client refuses what has expired, what one of its enabled filters refuses, and what exceeds its rate. */
  lemma DeclinedExactly(filters: seq<Filter>, m: Message, now: int, allow: bool)
    ensures !Accepts(filters, m, now, allow) <==>
            || (exists t :: m.expiresAt == Some(t) && t < now)
            || (exists f :: f in filters && f.enabled && !Passes(f, m))
            || !allow
  {
    if m.expiresAt.Some? {
      assert m.expiresAt == Some(m.expiresAt.value);
    }
    if f :| f in filters && f.enabled && !Passes(f, m) {
      var i :| 0 <= i < |filters| && filters[i] == f;
    }
    if i :| 0 <= i < |filters| && filters[i].enabled && !Passes(filters[i], m) {
      assert filters[i] in filters;
    }
  }

  method EvaluateCustomFilter(conditions: map<string, Json>, m: Message) returns (ok: bool)
    ensures ok == CustomPasses(conditions, m)
  {
    var rest := conditions.Keys;
    while rest != {}
      invariant rest <= conditions.Keys
      invariant forall k :: k in conditions && k !in rest && k in m.metadata ==> m.metadata[k] == conditions[k]
      decreases rest
    {
      var key :| key in rest;
      if key in m.metadata {
        if m.metadata[key] != conditions[key] {
          return false;
        }
      }
      rest := rest - {key};
    }
    return true;
  }

  method ApplyFilter(f: Filter, m: Message) returns (ok: bool)
    ensures ok == Passes(f, m)
  {
    if f.kind == "message_type" {
      if "type" in f.conditions && f.conditions["type"].Str? {
        return m.kind == f.conditions["type"].s;
      }
    } else if f.kind == "priority" {
      if "min_priority" in f.conditions && f.conditions["min_priority"].Num? {
        return m.priority as real >= f.conditions["min_priority"].n;
      }
    } else if f.kind == "room" {
      if "room" in f.conditions && f.conditions["room"].Str? {
        return m.room == f.conditions["room"].s;
      }
    } else if f.kind == "custom" {
      ok := EvaluateCustomFilter(f.conditions, m);
      return;
    }
    return true;
  }

  /** `shouldSendToClient`; `allow` is the answer of the client's rate limiter. */
  method ShouldSendToClient(filters: seq<Filter>, m: Message, now: int, allow: bool) returns (ok: bool)
    ensures ok == Accepts(filters, m, now, allow)
  {
    if m.expiresAt.Some? && now > m.expiresAt.value {
      return false;
    }
    for i := 0 to |filters|
      invariant forall j :: 0 <= j < i && filters[j].enabled ==> Passes(filters[j], m)
    {
      if filters[i].enabled {
        var pass := ApplyFilter(filters[i], m);
        if !pass {
          return false;
        }
      }
    }
    return allow;
  }

  // ---------------------------------------------------------------- one queue

  /** The queue after offering one accepted message to it. */
  function Enqueue<T>(capacity: nat, high: bool, queue: seq<T>, m: T): seq<T> {
    if |queue| < capacity then queue + [m]
    else if high && queue != [] then queue[1..] + [m]
    else queue
  }

  /** What a broadcast changes about a client. */
  datatype ClientState = ClientState(queue: seq<Message>, received: int, filtered: int)

  /** Whether an accepted message goes into the queue. */
  predicate Fits(capacity: nat, priority: int, queue: seq<Message>) {
    |queue| < capacity || (priority >= PRIORITY_HIGH && queue != [])
  }

  /** A client after a broadcast has passed it, given whether it accepts the message. */
  function After(capacity: nat, priority: int, c: ClientState, m: Message, accepted: bool): ClientState {
    if !accepted then c.(filtered := c.filtered + 1)
    else c.(queue := Enqueue(capacity, priority >= PRIORITY_HIGH, c.queue, m),
            received := if |c.queue| < capacity then c.received + 1 else c.received)
  }

  class EnhancedClient {
    const capacity: nat
    const priority: int
    const filters: seq<Filter>
    var queue: seq<Message>
    var messagesReceived: int
    var messagesFiltered: int

    ghost function State(): ClientState
      reads this
    {
      ClientState(queue, messagesReceived, messagesFiltered)
    }

    constructor (capacity: nat, priority: int, filters: seq<Filter>)
      ensures this.capacity == capacity && this.priority == priority && this.filters == filters
      ensures State() == ClientState([], 0, 0)
    {
      this.capacity, this.priority, this.filters := capacity, priority, filters;
      queue, messagesReceived, messagesFiltered := [], 0, 0;
    }

    /** One round of the send loop of `BroadcastToNamespaceRoom`. */
    method Offer(m: Message, now: int, allow: bool) returns (sent: bool)
      modifies this
      ensures State() == After(capacity, priority, old(State()), m, Accepts(filters, m, now, allow))
      ensures sent <==> Accepts(filters, m, now, allow) && Fits(capacity, priority, old(queue))
    {
      sent := false;
      var accepted := ShouldSendToClient(filters, m, now, allow);
      if !accepted {
        messagesFiltered := messagesFiltered + 1;
        return;
      }
      if |queue| < capacity {
        queue := queue + [m];
        messagesReceived := messagesReceived + 1;
        sent := true;
      } else if priority >= PRIORITY_HIGH {
        if |queue| > 0 {
          queue := queue[1..];
          queue := queue + [m];
          sent := true;
        }
      }
    }
  }

  /** Which clients accept a message. */
  ghost function Verdicts(clients: seq<EnhancedClient>, m: Message, now: int, allows: seq<bool>): (r: seq<bool>)
    requires |allows| == |clients|
    ensures |r| == |clients|
  {
    seq(|clients|, i requires 0 <= i < |clients| => Accepts(clients[i].filters, m, now, allows[i]))
  }

  ghost function States(clients: seq<EnhancedClient>): (r: seq<ClientState>)
    reads clients
    ensures |r| == |clients|
  {
    seq(|clients|, i requires 0 <= i < |clients| reads clients => clients[i].State())
  }

  /** The first `n` clients have been offered the message, the others are as they were. */
  ghost predicate Progress(clients: seq<EnhancedClient>, states: seq<ClientState>, m: Message, verdicts: seq<bool>, n: nat)
    requires |states| == |verdicts| == |clients|
    reads clients
  {
    forall j :: 0 <= j < |clients| ==>
      clients[j].State() == if j < n then After(clients[j].capacity, clients[j].priority, states[j], m, verdicts[j])
                            else states[j]
  }

  /** Into how many of the first `n` queues a message goes. */
  ghost function SentTo(clients: seq<EnhancedClient>, states: seq<ClientState>, verdicts: seq<bool>, n: nat): nat
    requires |states| == |verdicts| == |clients| && n <= |clients|
  {
    if n == 0 then 0
    else SentTo(clients, states, verdicts, n - 1)
         + (if verdicts[n - 1] && Fits(clients[n - 1].capacity, clients[n - 1].priority, states[n - 1].queue) then 1 else 0)
  }

  /** A message that fits ends up last in the queue, which drops its oldest if it was full; another leaves it alone. */
  lemma FitsExactly(capacity: nat, priority: int, c: ClientState, m: Message)
    ensures var q := After(capacity, priority, c, m, true).queue;
            if Fits(capacity, priority, c.queue) then
              q == (if |c.queue| < capacity then c.queue else c.queue[1..]) + [m]
            else q == c.queue
    ensures Fits(capacity, priority, c.queue) <==> |c.queue| < capacity || (priority >= 3 && |c.queue| > 0)
  {
  }

  ghost function ReachedClients(clients: seq<EnhancedClient>, states: seq<ClientState>, verdicts: seq<bool>, n: nat): set<nat>
    requires |states| == |verdicts| == |clients| && n <= |clients|
  {
    set i: nat | i < n && verdicts[i] && Fits(clients[i].capacity, clients[i].priority, states[i].queue)
  }

  /** The number sent is the number of clients that accept the message and have room for it. */
  lemma {:induction false} SentCountsClients(clients: seq<EnhancedClient>, states: seq<ClientState>, verdicts: seq<bool>, n: nat)
    requires |states| == |verdicts| == |clients| && n <= |clients|
    ensures SentTo(clients, states, verdicts, n) == |ReachedClients(clients, states, verdicts, n)|
  {
    if n == 0 {
    } else {
      SentCountsClients(clients, states, verdicts, n - 1);
      var fewer, all := ReachedClients(clients, states, verdicts, n - 1), ReachedClients(clients, states, verdicts, n);
      if verdicts[n - 1] && Fits(clients[n - 1].capacity, clients[n - 1].priority, states[n - 1].queue) {
        assert all == fewer + {n - 1};
      } else {
        assert all == fewer;
      }
    }
  }

  /** One round of the send loop. */
  method OfferNext(clients: seq<EnhancedClient>, i: nat, m: Message, now: int, allow: bool,
                   ghost states: seq<ClientState>, ghost verdicts: seq<bool>)
    returns (sent: bool)
    requires i < |clients| == |states| == |verdicts| && verdicts[i] == Accepts(clients[i].filters, m, now, allow)
    requires forall j, k :: 0 <= j < k < |clients| ==> clients[j] != clients[k]
    requires Progress(clients, states, m, verdicts, i)
    modifies clients[i]
    ensures Progress(clients, states, m, verdicts, i + 1)
    ensures sent <==> verdicts[i] && Fits(clients[i].capacity, clients[i].priority, states[i].queue)
  {
    var client := clients[i];
    sent := client.Offer(m, now, allow);
  }

  method OfferAll(clients: seq<EnhancedClient>, m: Message, now: int, allows: seq<bool>,
                  ghost states: seq<ClientState>, ghost verdicts: seq<bool>)
    returns (sent: nat)
    requires |allows| == |states| == |verdicts| == |clients|
    requires forall i :: 0 <= i < |clients| ==> verdicts[i] == Accepts(clients[i].filters, m, now, allows[i])
    requires forall i, j :: 0 <= i < j < |clients| ==> clients[i] != clients[j]
    requires Progress(clients, states, m, verdicts, 0)
    modifies clients
    ensures Progress(clients, states, m, verdicts, |clients|)
    ensures sent == SentTo(clients, states, verdicts, |clients|)
  {
    sent := 0;
    for i := 0 to |clients|
      invariant sent == SentTo(clients, states, verdicts, i)
      invariant Progress(clients, states, m, verdicts, i)
    {
      var ok := OfferNext(clients, i, m, now, allows[i], states, verdicts);
      if ok {
        sent := sent + 1;
      }
    }
  }

  /**
   The send loop: every client of the room is offered the message once, no client disturbs another,
   and the result counts the queues the message went into.
   */
  method BroadcastToClients(clients: seq<EnhancedClient>, m: Message, now: int, allows: seq<bool>) returns (sent: nat)
    requires |allows| == |clients|
    requires forall i, j :: 0 <= i < j < |clients| ==> clients[i] != clients[j]
    modifies clients
    ensures Progress(clients, old(States(clients)), m, Verdicts(clients, m, now, allows), |clients|)
    ensures sent == SentTo(clients, old(States(clients)), Verdicts(clients, m, now, allows), |clients|)
  {
    sent := OfferAll(clients, m, now, allows, States(clients), Verdicts(clients, m, now, allows));
  }

  // ---------------------------------------------------------------- queues that nobody reads

  function Fill<T>(capacity: nat, high: bool, queue: seq<T>, ms: seq<T>): seq<T> {
    if ms == [] then queue
    else Enqueue(capacity, high, Fill(capacity, high, queue, ms[..|ms| - 1]), ms[|ms| - 1])
  }

  function Min(a: nat, b: nat): nat {
    if a < b then a else b
  }

  lemma {:induction false} UnreadHigh<T>(capacity: nat, ms: seq<T>)
    requires capacity >= 1
    ensures Fill(capacity, true, [], ms) == ms[|ms| - Min(|ms|, capacity)..]
  {
    if ms == [] {
    } else {
      var init, last := ms[..|ms| - 1], ms[|ms| - 1];
      UnreadHigh(capacity, init);
      var from := |init| - Min(|init|, capacity);
      var queue := init[from..];
      assert queue + [last] == ms[from..];
      if |init| >= capacity {
        assert queue[1..] + [last] == ms[from + 1..];
      }
    }
  }

  lemma {:induction false} UnreadOther<T>(capacity: nat, ms: seq<T>)
    ensures Fill(capacity, false, [], ms) == ms[..Min(|ms|, capacity)]
  {
    if ms == [] {
    } else {
      var init, last := ms[..|ms| - 1], ms[|ms| - 1];
      UnreadOther(capacity, init);
      assert init == init[..|init|];
      if |init| < capacity {
        assert init + [last] == ms[..|ms|];
      } else {
        assert init[..capacity] == ms[..capacity];
      }
    }
  }

  /**
   Unread, a high-priority queue holds exactly the last messages offered to it, as many as fit,
   and any other queue exactly the first.
   */
  lemma UnreadQueue<T>(capacity: nat, high: bool, ms: seq<T>)
    requires capacity >= 1
    ensures Fill(capacity, high, [], ms)
         == if high then ms[|ms| - Min(|ms|, capacity)..] else ms[..Min(|ms|, capacity)]
  {
    if high {
      UnreadHigh(capacity, ms);
    } else {
      UnreadOther(capacity, ms);
    }
  }

  /** A message passing a client, and whether the client accepts it. */
  datatype Offered = Offered(message: Message, accepted: bool)

  function AfterAll(capacity: nat, priority: int, c: ClientState, offers: seq<Offered>): ClientState {
    if offers == [] then c
    else
      var last := offers[|offers| - 1];
      After(capacity, priority, AfterAll(capacity, priority, c, offers[..|offers| - 1]), last.message, last.accepted)
  }

  function Accepted(offers: seq<Offered>): seq<Message> {
    if offers == [] then []
    else
      var last := offers[|offers| - 1];
      Accepted(offers[..|offers| - 1]) + (if last.accepted then [last.message] else [])
  }

  lemma AcceptedPush(offers: seq<Offered>)
    requires offers != []
    ensures var init, last := offers[..|offers| - 1], offers[|offers| - 1];
            Accepted(offers) == if last.accepted then Accepted(init) + [last.message] else Accepted(init)
  {
    assert Accepted(offers[..|offers| - 1]) + [] == Accepted(offers[..|offers| - 1]);
  }

  lemma FillPush<T>(capacity: nat, high: bool, ms: seq<T>, m: T)
    ensures Fill(capacity, high, [], ms + [m]) == Enqueue(capacity, high, Fill(capacity, high, [], ms), m)
  {
    assert (ms + [m])[..|ms|] == ms;
  }

  lemma {:induction false} OffersFill(capacity: nat, priority: int, offers: seq<Offered>)
    ensures AfterAll(capacity, priority, ClientState([], 0, 0), offers).queue
         == Fill(capacity, priority >= PRIORITY_HIGH, [], Accepted(offers))
  {
    if offers == [] {
    } else {
      var init, last := offers[..|offers| - 1], offers[|offers| - 1];
      OffersFill(capacity, priority, init);
      AcceptedPush(offers);
      FillPush(capacity, priority >= PRIORITY_HIGH, Accepted(init), last.message);
    }
  }

  lemma {:induction false} OffersCounted(capacity: nat, priority: int, offers: seq<Offered>)
    requires capacity >= 1
    ensures var c, ms := AfterAll(capacity, priority, ClientState([], 0, 0), offers), Accepted(offers);
            c.received == Min(|ms|, capacity) && c.filtered == |offers| - |ms|
  {
    if offers == [] {
    } else {
      var init := offers[..|offers| - 1];
      OffersCounted(capacity, priority, init);
      OffersFill(capacity, priority, init);
      UnreadQueue(capacity, priority >= PRIORITY_HIGH, Accepted(init));
      AcceptedPush(offers);
    }
  }

  /**
   A client that never reads, after any messages in any pattern of acceptance: its queue holds the
   last (high priority) or the first (otherwise) accepted messages, as many as fit; every refused
   message is counted as filtered; and only those accepted before the queue was full as received.
   */
  lemma UnreadClient(capacity: nat, priority: int, offers: seq<Offered>)
    requires capacity >= 1
    ensures var c, ms := AfterAll(capacity, priority, ClientState([], 0, 0), offers), Accepted(offers);
            var n := Min(|ms|, capacity);
            && c.queue == (if priority >= PRIORITY_HIGH then ms[|ms| - n..] else ms[..n])
            && c.received == n && c.filtered == |offers| - |ms|
  {
    OffersFill(capacity, priority, offers);
    OffersCounted(capacity, priority, offers);
    UnreadQueue(capacity, priority >= PRIORITY_HIGH, Accepted(offers));
  }

  // ---------------------------------------------------------------- queues with a reader

  datatype Event<T> = Broadcast(message: T) | Read

  /** A client's queue, what its reader has taken, what was offered to it, and how many were lost. */
  datatype Client<T> = Client(queue: seq<T>, taken: seq<T>, offered: seq<T>, lost: nat)

  ghost function Start<T>(): Client<T> {
    Client([], [], [], 0)
  }

  ghost function Step<T>(capacity: nat, high: bool, c: Client<T>, e: Event<T>): Client<T> {
    match e
    case Read => if c.queue == [] then c else c.(queue := c.queue[1..], taken := c.taken + [c.queue[0]])
    case Broadcast(m) =>
      c.(queue := Enqueue(capacity, high, c.queue, m), offered := c.offered + [m],
         lost := if |c.queue| < capacity then c.lost else c.lost + 1)
  }

  ghost function Run<T>(capacity: nat, high: bool, c: Client<T>, events: seq<Event<T>>): Client<T>
    decreases |events|
  {
    if events == [] then c else Run(capacity, high, Step(capacity, high, c, events[0]), events[1..])
  }

  /** `xs` is what remains of `ys` after leaving some elements out. */
  ghost predicate Subsequence<T(!new)>(xs: seq<T>, ys: seq<T>)
    decreases |ys|
  {
    || xs == []
    || (ys != [] && xs[|xs| - 1] == ys[|ys| - 1] && Subsequence(xs[..|xs| - 1], ys[..|ys| - 1]))
    || (ys != [] && Subsequence(xs, ys[..|ys| - 1]))
  }

  lemma SubsequencePush<T(!new)>(xs: seq<T>, ys: seq<T>, m: T)
    requires Subsequence(xs, ys)
    ensures Subsequence(xs, ys + [m]) && Subsequence(xs + [m], ys + [m])
  {
    assert (ys + [m])[..|ys|] == ys && (xs + [m])[..|xs|] == xs;
  }

  lemma {:induction false} SubsequenceDrop<T(!new)>(xs: seq<T>, ys: seq<T>, k: nat)
    requires Subsequence(xs, ys) && k < |xs|
    ensures Subsequence(xs[..k] + xs[k + 1..], ys)
    decreases |ys|
  {
    var less := xs[..k] + xs[k + 1..];
    if ys != [] && xs[|xs| - 1] == ys[|ys| - 1] && Subsequence(xs[..|xs| - 1], ys[..|ys| - 1]) {
      var init, ys' := xs[..|xs| - 1], ys[..|ys| - 1];
      if k == |xs| - 1 {
        assert less == init;
      } else {
        SubsequenceDrop(init, ys', k);
        assert less[|less| - 1] == xs[|xs| - 1];
        assert less[..|less| - 1] == init[..k] + init[k + 1..];
      }
    } else {
      SubsequenceDrop(xs, ys[..|ys| - 1], k);
    }
  }

  ghost predicate Good<T(!new)>(capacity: nat, c: Client<T>) {
    && |c.queue| <= capacity
    && Subsequence(c.taken + c.queue, c.offered)
    && |c.offered| == |c.taken| + |c.queue| + c.lost
  }

  lemma DropOldest<T(!new)>(taken: seq<T>, queue: seq<T>, offered: seq<T>, m: T)
    requires queue != [] && Subsequence(taken + queue, offered)
    ensures Subsequence(taken + (queue[1..] + [m]), offered + [m])
  {
    var xs, k := taken + queue, |taken|;
    SubsequenceDrop(xs, offered, k);
    var less := taken + queue[1..];
    assert xs[..k] + xs[k + 1..] == less;
    SubsequencePush(less, offered, m);
    assert taken + (queue[1..] + [m]) == less + [m];
  }

  lemma AppendNewest<T(!new)>(taken: seq<T>, queue: seq<T>, offered: seq<T>, m: T)
    requires Subsequence(taken + queue, offered)
    ensures Subsequence(taken + (queue + [m]), offered + [m]) && Subsequence(taken + queue, offered + [m])
  {
    SubsequencePush(taken + queue, offered, m);
    assert taken + (queue + [m]) == taken + queue + [m];
  }

  lemma GoodBroadcast<T(!new)>(capacity: nat, high: bool, c: Client<T>, m: T)
    requires capacity >= 1 && Good(capacity, c)
    ensures Good(capacity, Step(capacity, high, c, Broadcast(m)))
    ensures var q := Step(capacity, high, c, Broadcast(m)).queue; high ==> q != [] && q[|q| - 1] == m
  {
    if |c.queue| >= capacity && high {
      DropOldest(c.taken, c.queue, c.offered, m);
    } else {
      AppendNewest(c.taken, c.queue, c.offered, m);
    }
  }

  lemma GoodStep<T(!new)>(capacity: nat, high: bool, c: Client<T>, e: Event<T>)
    requires capacity >= 1 && Good(capacity, c)
    ensures Good(capacity, Step(capacity, high, c, e))
  {
    match e
    case Broadcast(m) => GoodBroadcast(capacity, high, c, m);
    case Read =>
      if c.queue != [] {
        assert c.taken + [c.queue[0]] + c.queue[1..] == c.taken + c.queue;
      }
  }

  /**
   Over every interleaving of broadcasts and reads: the queue never exceeds its capacity, what was
   read followed by what is queued is an in-order subsequence of what was offered, and everything
   offered was read, is queued, or is counted lost.
   */
  lemma {:induction false} QueueOverRuns<T(!new)>(capacity: nat, high: bool, c: Client<T>, events: seq<Event<T>>)
    requires capacity >= 1 && Good(capacity, c)
    ensures Good(capacity, Run(capacity, high, c, events))
    decreases |events|
  {
    if events == [] {
    } else {
      GoodStep(capacity, high, c, events[0]);
      QueueOverRuns(capacity, high, Step(capacity, high, c, events[0]), events[1..]);
    }
  }

  lemma QueueFromStart<T(!new)>(capacity: nat, high: bool, events: seq<Event<T>>)
    requires capacity >= 1
    ensures Good(capacity, Run(capacity, high, Start<T>(), events))
  {
    QueueOverRuns(capacity, high, Start<T>(), events);
  }
}
