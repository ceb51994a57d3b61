/** The localized-causal-broadcast layer: a URB-delivered message is
    delivered once, when its vector clock is dominated by the clock of
    deliveries seen so far; broadcasting stamps each message with the send
    clock and keeps at most a window of this process's own messages in
    flight. */
module LcbHosts {
  import opened JavaInts
  import opened Outcomes
  import opened Messages
  import opened PerfectLinks
  import LinkHosts
  import UrbHosts

  /** How many of its own messages a process may have broadcast but not yet
      delivered. */
  const WINDOW_SIZE: int := 100

  /** One line of the shared delivery log: `b i` or `d orig value`. */
  datatype LogLine = Broadcast(seqNum: int) | Delivery(orig: int, value: int)

  /** A process's LCB state: its id, the processes it depends on, the receive
      and send vector clocks (index `p - 1` for process `p`), the delivered
      `(originalSender, value)` pairs, the log, and the two counters the
      broadcast loop reads. */
  datatype LcbHost = LcbHost(
    me: int,
    deps: set<int>,
    recv: seq<Int32>,
    send: seq<Int32>,
    delivered: set<(int, int)>,
    log: seq<LogLine>,
    lastSent: Int32,
    lastDelivered: Int32)

  /** Both clocks have one component per process, this process among them. */
  predicate Valid(s: LcbHost) {
    1 <= s.me <= |s.recv| <= 127 && |s.send| == |s.recv|
  }

  /** The constructor: zero clocks of length `n` (`setupAuxiliaryDataStructure`),
      nothing delivered, both counters at 0. */
  function Setup(me: int, n: nat, deps: set<int>): (s: LcbHost)
    requires 1 <= me <= n <= 127
    ensures Valid(s) && |s.recv| == n && s.delivered == {} && s.log == []
    ensures forall i :: 0 <= i < n ==> s.recv[i] == 0 && s.send[i] == 0
    ensures s.lastSent == 0 && s.lastDelivered == 0
  {
    LcbHost(me, deps, seq(n, _ => 0), seq(n, _ => 0), {}, [], 0, 0)
  }

  // ------------------------------------------------------------ clock test

  /** Every component of `clock` is at most the same component of `recv`. */
  predicate Dominated(clock: seq<Int32>, recv: seq<Int32>) {
    |clock| <= |recv| && forall i :: 0 <= i < |clock| ==> clock[i] <= recv[i]
  }

  /** The outcome of `compareVectorClocks`: `false` at the first component
      of the message clock above the receive clock, an index error when the
      message clock is longer and no earlier component decided, `true`
      otherwise. */
  function Ready(clock: seq<Int32>, recv: seq<Int32>): (r: Result<bool>)
    ensures r.Ok? ==> (r.value <==> Dominated(clock, recv))
    ensures r.Err? <==> |clock| > |recv| && forall i :: 0 <= i < |recv| ==> clock[i] <= recv[i]
    ensures r.Err? ==> r.error == IndexOutOfBounds(|recv|)
  {
    if exists i :: 0 <= i < |clock| && i < |recv| && clock[i] > recv[i] then Ok(false)
    else if |clock| > |recv| then Err(IndexOutOfBounds(|recv|))
    else Ok(true)
  }

  /** `compareVectorClocks(message)`: the loop over the message clock. */
  method CompareVectorClocks(clock: seq<Int32>, recv: seq<Int32>) returns (r: Result<bool>)
    ensures r.Ok? ==> (r.value <==> Dominated(clock, recv))
    ensures r.Err? <==> |clock| > |recv| && forall i :: 0 <= i < |recv| ==> clock[i] <= recv[i]
    ensures r.Err? ==> r.error == IndexOutOfBounds(|recv|)
  {
    var i := 0;
    while i < |clock|
      invariant 0 <= i <= |clock|
      invariant i <= |recv|
      invariant forall k :: 0 <= k < i ==> clock[k] <= recv[k]
    {
      if i >= |recv| {
        return Err(IndexOutOfBounds(i));
      }
      if clock[i] > recv[i] {
        return Ok(false);
      }
      i := i + 1;
    }
    return Ok(true);
  }

  // -------------------------------------------------------------- delivery

  /** The result of handling one message of the tick: the tick goes on, or an
      exception ends it with the state reached so far. */
  datatype Step = Continue(state: LcbHost) | Abort(state: LcbHost)

  /** The body of the `for` loop of the `beginLcbDelivery` tick for message `m`. */
  function DeliverOne(s: LcbHost, m: Message): (t: Step)
    requires Valid(s)
    ensures Valid(t.state) && t.state.me == s.me && t.state.deps == s.deps
    ensures |t.state.recv| == |s.recv|
    ensures Info(m) in t.state.delivered - s.delivered <==>
      Info(m) !in s.delivered && Dominated(m.clock, s.recv)
    ensures t.state.delivered - s.delivered <= {Info(m)} && s.delivered <= t.state.delivered
    ensures t.Abort? <==> (
      && Info(m) !in s.delivered
      && ((|m.clock| > |s.recv| && forall i :: 0 <= i < |s.recv| ==> m.clock[i] <= s.recv[i])
          || (Dominated(m.clock, s.recv) && !(1 <= m.orig as int <= |s.recv|))))
  {
    if Info(m) in s.delivered then Continue(s)
    else match Ready(m.clock, s.recv)
      case Err(_) => Abort(s)
      case Ok(ready) =>
        if !ready then Continue(s)
        else
          var o := m.orig as int;
          var s1 := s.(delivered := s.delivered + {Info(m)},
                       log := s.log + [Delivery(o, m.value as int)]);
          if !(1 <= o <= |s.recv|) then Abort(s1)
          else
            var s2 := s1.(recv := s.recv[o - 1 := Inc32(s.recv[o - 1])]);
            var s3 := if o in s.deps then s2.(send := s.send[o - 1 := Inc32(s.send[o - 1])]) else s2;
            Continue(if o == s.me then s3.(lastDelivered := Inc32(s.lastDelivered)) else s3)
  }

  /** Delivering a ready message of a known process: one `d` line, one more
      receive tick for its original sender and no other, one more send tick
      exactly when that sender is a dependency, and one more own delivery
      exactly when this process sent it. */
  lemma DeliverOneEffects(s: LcbHost, m: Message)
    requires Valid(s) && Info(m) !in s.delivered && Dominated(m.clock, s.recv)
    requires 1 <= m.orig as int <= |s.recv|
    ensures DeliverOne(s, m).Continue?
    ensures var r, o := DeliverOne(s, m).state, m.orig as int;
      && r.delivered == s.delivered + {Info(m)}
      && r.log == s.log + [Delivery(o, m.value as int)]
      && r.recv[o - 1] == Inc32(s.recv[o - 1])
      && (forall i :: 0 <= i < |s.recv| && i != o - 1 ==> r.recv[i] == s.recv[i])
      && (r.send == if o in s.deps then s.send[o - 1 := Inc32(s.send[o - 1])] else s.send)
      && (r.lastDelivered == if o == s.me then Inc32(s.lastDelivered) else s.lastDelivered)
      && r.lastSent == s.lastSent
  {
  }

  /** A message already delivered, or not yet ready, changes nothing. */
  lemma DeliverOneSkips(s: LcbHost, m: Message)
    requires Valid(s)
    requires Info(m) in s.delivered || (|m.clock| <= |s.recv| && !Dominated(m.clock, s.recv))
    ensures DeliverOne(s, m) == Continue(s)
  {
  }

  /** With the dependencies excluding this process (as the program builds
      them), delivering one of its own messages counts it as delivered for
      the window and leaves the send clock alone: only broadcasting ticks
      this process's own send component. */
  lemma OwnDeliveryCountsForWindow(s: LcbHost, m: Message)
    requires Valid(s) && s.me !in s.deps && Info(m) !in s.delivered && Dominated(m.clock, s.recv)
    requires m.orig as int == s.me
    ensures DeliverOne(s, m).state.send == s.send
    ensures DeliverOne(s, m).state.lastDelivered == Inc32(s.lastDelivered)
  {
    DeliverOneEffects(s, m);
  }

  /** Every message a tick over a listing of the URB-delivered messages
      delivers is one the URB layer delivered. */
  lemma PollDeliversOnlyUrbDelivered(s: LcbHost, u: MessageSet, order: seq<Message>)
    requires Valid(s)
    requires forall i :: 0 <= i < |order| ==> exists k :: k in u && u[k] == order[i]
    ensures Poll(s, order).delivered - s.delivered <= UrbHosts.DeliveredInfo(u)
  {
    var r := Poll(s, order);
    forall p | p in r.delivered - s.delivered
      ensures p in UrbHosts.DeliveredInfo(u)
    {
      var i :| 0 <= i < |order| && Info(order[i]) == p;
      var k :| k in u && u[k] == order[i];
    }
  }

  /** The tick: the messages of `urbDeliveredMessages` in the order its key
      set yields them, stopping early when an exception ends the tick. */
  function Poll(s: LcbHost, order: seq<Message>): (r: LcbHost)
    requires Valid(s)
    ensures Valid(r) && r.me == s.me && r.deps == s.deps && |r.recv| == |s.recv|
    ensures s.delivered <= r.delivered
    ensures forall p :: p in r.delivered - s.delivered ==> exists i :: 0 <= i < |order| && Info(order[i]) == p
    decreases |order|
  {
    if order == [] then s
    else match DeliverOne(s, order[0])
      case Abort(t) => t
      case Continue(t) =>
        var r := Poll(t, order[1..]);
        assert forall p :: p in r.delivered - s.delivered ==> p == Info(order[0]) || p in r.delivered - t.delivered;
        r
  }

  // ------------------------------------------------------------- the log

  /** The `d` lines name exactly the delivered pairs, each once. */
  predicate LogConsistent(s: LcbHost) {
    && (forall i, j :: 0 <= i < j < |s.log| && s.log[i].Delivery? && s.log[j].Delivery? ==> s.log[i] != s.log[j])
    && (forall i :: 0 <= i < |s.log| && s.log[i].Delivery? ==> (s.log[i].orig, s.log[i].value) in s.delivered)
    && (forall p :: p in s.delivered ==> Delivery(p.0, p.1) in s.log)
  }

  lemma DeliverOneKeepsLog(s: LcbHost, m: Message)
    requires Valid(s) && LogConsistent(s)
    ensures LogConsistent(DeliverOne(s, m).state)
    ensures s.log <= DeliverOne(s, m).state.log
  {
    var r := DeliverOne(s, m).state;
    if r.log != s.log {
      assert r.log == s.log + [Delivery(m.orig as int, m.value as int)];
      assert forall i :: 0 <= i < |s.log| ==> r.log[i] == s.log[i];
    }
  }

  /** Each `(originalSender, value)` is LCB-delivered at most once, however
      many copies of it (differing in source sender or clock) the URB layer
      holds: the log never gets two `d` lines for one pair. */
  lemma {:induction false} PollDeliversAtMostOnce(s: LcbHost, order: seq<Message>)
    requires Valid(s) && LogConsistent(s)
    ensures LogConsistent(Poll(s, order))
    ensures s.log <= Poll(s, order).log
    decreases |order|
  {
    if order != [] {
      DeliverOneKeepsLog(s, order[0]);
      var t := DeliverOne(s, order[0]);
      if t.Continue? {
        PollDeliversAtMostOnce(t.state, order[1..]);
      }
    }
  }

  /** With room below `INT32_MAX`, the receive clock only grows during a tick,
      by at most one per message handled. */
  lemma {:induction false} PollClockMonotone(s: LcbHost, order: seq<Message>)
    requires Valid(s)
    requires forall i :: 0 <= i < |s.recv| ==> s.recv[i] as int + |order| <= INT32_MAX as int
    ensures var r := Poll(s, order);
      forall i :: 0 <= i < |s.recv| ==> s.recv[i] <= r.recv[i] <= s.recv[i] as int + |order|
    decreases |order|
  {
    if order != [] {
      var t := DeliverOne(s, order[0]);
      assert forall i :: 0 <= i < |s.recv| ==> s.recv[i] <= t.state.recv[i] <= s.recv[i] as int + 1;
      if t.Continue? {
        PollClockMonotone(t.state, order[1..]);
      }
    }
  }

  /** With room below `INT32_MAX`, the count of own deliveries only grows. */
  lemma {:induction false} PollRaisesLastDelivered(s: LcbHost, order: seq<Message>)
    requires Valid(s) && s.lastDelivered as int + |order| <= INT32_MAX as int
    ensures s.lastDelivered <= Poll(s, order).lastDelivered <= s.lastDelivered as int + |order|
    decreases |order|
  {
    if order != [] {
      var t := DeliverOne(s, order[0]);
      if t.Continue? {
        PollRaisesLastDelivered(t.state, order[1..]);
      }
    }
  }

  // ------------------------------------------------------------- broadcast

  /** Where `beginBroadcasting` is: the initial burst, or the windowed loop. */
  datatype Phase = Burst | Windowed

  /** The broadcast loop's own variables: the next sequence number `i`, the
      number of messages to send, and the phase. */
  datatype Broadcaster = Broadcaster(next: int, total: Int32, phase: Phase)

  /** `Math.min(messagesToSendNum, WINDOW_SIZE)`. */
  function InitSend(total: Int32): (k: Int32)
    ensures k <= total && k <= WINDOW_SIZE && (k == total || k == WINDOW_SIZE)
  {
    if total < WINDOW_SIZE then total else WINDOW_SIZE as Int32
  }

  /** The loop before its first iteration. */
  function Start(total: Int32): (b: Broadcaster)
    ensures b.next == 1 && b.phase == Burst
  {
    Broadcaster(1, total, Burst)
  }

  /** The message broadcast with sequence number `i`: a data message from
      this process, stamped with a copy of the send clock. */
  function Stamp(s: LcbHost, i: Int32): (m: Message)
    requires Valid(s)
    ensures m.value == i && m.kind == DATA_MESSAGE && m.clock == s.send
    ensures m.orig as int == s.me && m.src as int == s.me && Info(m) == (s.me, i as int)
  {
    Message(i, DATA_MESSAGE, ToInt8(s.me), ToInt8(s.me), s.send)
  }

  /** Logging `b i` and ticking this process's own send component. */
  function Sent(s: LcbHost, i: int): (r: LcbHost)
    requires Valid(s)
    ensures Valid(r)
  {
    s.(log := s.log + [Broadcast(i)], send := s.send[s.me - 1 := Inc32(s.send[s.me - 1])])
  }

  /** One iteration of `beginBroadcasting`: in the burst, send while `i` is at
      most `min(total, WINDOW_SIZE)`, then record that many as sent and enter
      the windowed loop; there, send while `i <= total` and fewer than
      `WINDOW_SIZE` own messages are undelivered, and otherwise spin. The
      message sent, if any, is returned for the URB layer. */
  function BroadcastStep(s: LcbHost, b: Broadcaster): (r: (LcbHost, Broadcaster, Option<Message>))
    requires Valid(s) && b.next >= 1
    ensures Valid(r.0) && r.1.next >= 1 && r.1.total == b.total
  {
    match b.phase
    case Burst =>
      if b.next <= InitSend(b.total) as int then
        (Sent(s, b.next), b.(next := b.next + 1), Some(Stamp(s, b.next as Int32)))
      else
        (s.(lastSent := InitSend(b.total)), b.(phase := Windowed), None)
    case Windowed =>
      if b.next > b.total as int then (s, b, None)
      else if Wrap32(s.lastSent as int - s.lastDelivered as int) < WINDOW_SIZE then
        (Sent(s, b.next).(lastSent := Inc32(s.lastSent)), b.(next := b.next + 1), Some(Stamp(s, b.next as Int32)))
      else (s, b, None)
  }

  /** Every send is the next sequence number, stamped with the send clock
      before this process's own component is ticked, and logged as `b i`;
      a step that sends nothing moves neither the counter nor the log. */
  lemma BroadcastStepSends(s: LcbHost, b: Broadcaster)
    requires Valid(s) && b.next >= 1
    ensures var (t, c, out) := BroadcastStep(s, b);
      && (out.Some? ==>
            && out.value.value as int == b.next && out.value.clock == s.send
            && Info(out.value) == (s.me, b.next)
            && c.next == b.next + 1
            && t.log == s.log + [Broadcast(b.next)]
            && t.send == s.send[s.me - 1 := Inc32(s.send[s.me - 1])])
      && (out.None? ==> c.next == b.next && t.log == s.log && t.send == s.send)
      && t.me == s.me && t.recv == s.recv && t.delivered == s.delivered && t.lastDelivered == s.lastDelivered
  {
  }

  /** The broadcast loop run for `steps` iterations with no delivery in
      between, and the messages it sent. */
  function Run(s: LcbHost, b: Broadcaster, steps: nat): (r: (LcbHost, Broadcaster, seq<Message>))
    requires Valid(s) && b.next >= 1
    ensures Valid(r.0) && r.1.next >= 1 && r.1.total == b.total
    decreases steps
  {
    if steps == 0 then (s, b, [])
    else
      var (t, c, out) := BroadcastStep(s, b);
      var (u, e, sent) := Run(t, c, steps - 1);
      (u, e, (if out.Some? then [out.value] else []) + sent)
  }

  /** `sent` holds broadcasts `n`, `n + 1`, … of process `me`, in order. */
  predicate NumberedFrom(sent: seq<Message>, me: int, n: int) {
    forall i :: 0 <= i < |sent| ==> sent[i].value as int == n + i && Info(sent[i]) == (me, n + i)
  }

  /** No broadcast in `sent` is numbered above `total`. */
  predicate AtMost(sent: seq<Message>, total: int) {
    forall i :: 0 <= i < |sent| ==> sent[i].value as int <= total
  }

  /** Putting broadcast `n` in front of broadcasts numbered from `n + 1`. */
  lemma NumberedCons(m: Message, rest: seq<Message>, me: int, n: int)
    requires m.value as int == n && Info(m) == (me, n) && NumberedFrom(rest, me, n + 1)
    ensures NumberedFrom([m] + rest, me, n)
  {
    forall i | 0 <= i < |[m] + rest|
      ensures ([m] + rest)[i].value as int == n + i && Info(([m] + rest)[i]) == (me, n + i)
    {
      if i > 0 {
        assert ([m] + rest)[i] == rest[i - 1];
      }
    }
  }

  /** What one iteration adds to a run: broadcast `b.next`, or nothing. */
  lemma StepNumbers(s: LcbHost, b: Broadcaster)
    requires Valid(s) && b.next >= 1
    ensures var r := BroadcastStep(s, b);
      && Valid(r.0) && r.0.me == s.me && r.1.next >= 1 && r.1.total == b.total
      && (r.2.Some? ==> r.1.next == b.next + 1 && r.2.value.value as int == b.next && Info(r.2.value) == (s.me, b.next))
      && (r.2.Some? ==> b.next <= b.total as int)
      && (r.2.None? ==> r.1.next == b.next)
  {
    BroadcastStepSends(s, b);
  }

  /** Broadcasts go out with consecutive sequence numbers, in increasing
      order, one per advance of the loop counter. */
  lemma {:induction false} RunSendsInOrder(s: LcbHost, b: Broadcaster, steps: nat)
    requires Valid(s) && b.next >= 1
    ensures |Run(s, b, steps).2| == Run(s, b, steps).1.next - b.next
    ensures NumberedFrom(Run(s, b, steps).2, s.me, b.next)
    decreases steps
  {
    if steps > 0 {
      var step := BroadcastStep(s, b);
      StepNumbers(s, b);
      RunSendsInOrder(step.0, step.1, steps - 1);
      var rest := Run(step.0, step.1, steps - 1);
      if step.2.Some? {
        assert Run(s, b, steps).2 == [step.2.value] + rest.2;
        NumberedCons(step.2.value, rest.2, s.me, b.next);
      } else {
        assert Run(s, b, steps).2 == rest.2;
      }
    }
  }

  /** The loop never sends a number above `total`, and its counter, started
      at most one past `total`, stays there: with `i` starting at 1 the
      broadcasts of any run are a prefix of `1 .. total`, each once, in
      order (`RunSendsInOrder` gives the order). */
  lemma {:induction false} RunStaysWithinTotal(s: LcbHost, b: Broadcaster, steps: nat)
    requires Valid(s) && b.next >= 1
    ensures AtMost(Run(s, b, steps).2, b.total as int)
    ensures b.next <= b.total as int + 1 ==> Run(s, b, steps).1.next <= b.total as int + 1
    decreases steps
  {
    if steps > 0 {
      var step := BroadcastStep(s, b);
      StepNumbers(s, b);
      RunStaysWithinTotal(step.0, step.1, steps - 1);
      var rest := Run(step.0, step.1, steps - 1);
      if step.2.Some? {
        assert Run(s, b, steps).2 == [step.2.value] + rest.2;
        AtMostCons(step.2.value, rest.2, b.total as int);
      } else {
        assert Run(s, b, steps).2 == rest.2;
      }
    }
  }

  /** In the burst, every iteration while `i <= min(total, WINDOW_SIZE)`
      sends: `n` such iterations advance the counter by `n` and stay in the
      burst. */
  lemma {:induction false} BurstAdvances(s: LcbHost, b: Broadcaster, n: nat)
    requires Valid(s) && b.next >= 1 && b.phase == Burst
    requires n == 0 || b.next + n <= InitSend(b.total) as int + 1
    ensures Run(s, b, n).1 == b.(next := b.next + n)
    ensures |Run(s, b, n).2| == n
    decreases n
  {
    if n > 0 {
      var step := BroadcastStep(s, b);
      assert step.1 == b.(next := b.next + 1) && step.2.Some?;
      BurstAdvances(step.0, step.1, n - 1);
    }
  }

  /** The burst is complete: started from `i = 1`, its first
      `min(total, WINDOW_SIZE)` iterations broadcast exactly `1`, `2`, … up
      to that bound, in order, and leave the counter one past it. */
  lemma BurstSendsAll(s: LcbHost, total: Int32)
    requires Valid(s)
    ensures var k: nat := if total < 0 then 0 else InitSend(total) as int;
      var r := Run(s, Start(total), k);
      && |r.2| == k && r.1.next == k + 1 && r.1.phase == Burst
      && NumberedFrom(r.2, s.me, 1)
  {
    var k: nat := if total < 0 then 0 else InitSend(total) as int;
    BurstAdvances(s, Start(total), k);
    RunSendsInOrder(s, Start(total), k);
  }

  /** Putting a broadcast numbered at most `total` in front of others that are. */
  lemma AtMostCons(m: Message, rest: seq<Message>, total: int)
    requires m.value as int <= total && AtMost(rest, total)
    ensures AtMost([m] + rest, total)
  {
    forall i | 0 < i < |[m] + rest|
      ensures ([m] + rest)[i].value as int <= total
    {
      assert ([m] + rest)[i] == rest[i - 1];
    }
  }

  /** The window bound, with the facts it rests on: own deliveries are
      counted from 0; in the burst at most `min(total, WINDOW_SIZE)` have
      gone out; in the windowed loop the counter of sends agrees with `i` and
      is at most `WINDOW_SIZE` ahead of the own deliveries. */
  predicate WindowInvariant(s: LcbHost, b: Broadcaster) {
    && 0 <= s.lastDelivered
    && 1 <= b.next
    && (b.total >= 0 ==> b.next <= b.total as int + 1)
    && (b.phase == Burst ==> b.next == 1 || b.next <= InitSend(b.total) as int + 1)
    && (b.phase == Windowed && b.next <= b.total as int ==> s.lastSent as int == b.next - 1)
    && (b.phase == Windowed ==> s.lastSent as int - s.lastDelivered as int <= WINDOW_SIZE)
  }

  lemma StartWindow(s: LcbHost, total: Int32)
    requires s.lastDelivered == 0
    ensures WindowInvariant(s, Start(total))
  {
  }

  /** Each iteration of the broadcast loop keeps the window bound. */
  lemma BroadcastStepKeepsWindow(s: LcbHost, b: Broadcaster)
    requires Valid(s) && WindowInvariant(s, b)
    ensures WindowInvariant(BroadcastStep(s, b).0, BroadcastStep(s, b).1)
  {
  }

  /** Own deliveries counted by the delivery thread in between (the counter
      only grows) keep the window bound. */
  lemma DeliveriesKeepWindow(s: LcbHost, b: Broadcaster, lastDelivered: Int32)
    requires WindowInvariant(s, b) && s.lastDelivered <= lastDelivered
    ensures WindowInvariant(s.(lastDelivered := lastDelivered), b)
  {
  }

  /** A delivery tick keeps the window bound, as long as the own-delivery
      counter has room below `INT32_MAX`. */
  lemma PollKeepsWindow(s: LcbHost, b: Broadcaster, order: seq<Message>)
    requires Valid(s) && WindowInvariant(s, b)
    requires s.lastDelivered as int + |order| <= INT32_MAX as int
    ensures WindowInvariant(Poll(s, order), b)
  {
    PollRaisesLastDelivered(s, order);
    PollKeepsCounters(s, order);
  }

  /** The tick leaves the send counter alone. */
  lemma {:induction false} PollKeepsCounters(s: LcbHost, order: seq<Message>)
    requires Valid(s)
    ensures Poll(s, order).lastSent == s.lastSent
    decreases |order|
  {
    if order != [] {
      var t := DeliverOne(s, order[0]);
      if t.Continue? {
        PollKeepsCounters(t.state, order[1..]);
      }
    }
  }

  // --------------------------------------------------- broadcast through URB

  /** One iteration of `beginBroadcasting` with the send it makes: a message
      the loop emits is handed to the URB layer's `sendMessage`, whose
      self-acknowledgment stores the own vote under the message itself. */
  function BroadcastThrough(u: UrbHosts.UrbHost, s: LcbHost, b: Broadcaster): (r: (UrbHosts.UrbHost, LcbHost, Broadcaster))
    requires UrbHosts.Valid(u) && Valid(s) && b.next >= 1
    ensures UrbHosts.Valid(r.0) && Valid(r.1) && r.0.link.links.Keys == u.link.links.Keys
    ensures (r.1, r.2) == (BroadcastStep(s, b).0, BroadcastStep(s, b).1)
    ensures var out := BroadcastStep(s, b).2;
      && (out.None? ==> r.0 == u)
      && (out.Some? ==>
            && (forall id :: id in u.link.links && id != u.link.me ==> Has(r.0.link.links[id].pending, out.value))
            && Has(r.0.link.links[u.link.me].delivered, out.value)
            && LinkHosts.CountOf(r.0.link.acks, out.value) == LinkHosts.CountOf(u.link.acks, Normalise(out.value)) + 1
            && LinkHosts.CountOf(r.0.link.acks, Normalise(out.value)) == LinkHosts.CountOf(u.link.acks, Normalise(out.value)))
  {
    var (t, c, out) := BroadcastStep(s, b);
    var u' := if out.Some? then UrbHosts.SendMessage(u, out.value) else u;
    (u', t, c)
  }

  /** The same iteration over the corrected `sendMessage`: the broadcast is
      counted once on the normalised entry the relays of the others raise. */
  function BroadcastThroughCorrected(u: UrbHosts.UrbHost, s: LcbHost, b: Broadcaster): (r: (UrbHosts.UrbHost, LcbHost, Broadcaster))
    requires UrbHosts.Valid(u) && Valid(s) && b.next >= 1
    ensures UrbHosts.Valid(r.0) && Valid(r.1) && r.0.link.links.Keys == u.link.links.Keys
    ensures (r.1, r.2) == (BroadcastStep(s, b).0, BroadcastStep(s, b).1)
    ensures var out := BroadcastStep(s, b).2;
      && (out.None? ==> r.0 == u)
      && (out.Some? ==>
            && (forall id :: id in u.link.links && id != u.link.me ==> Has(r.0.link.links[id].pending, out.value))
            && Has(r.0.link.links[u.link.me].delivered, out.value)
            && LinkHosts.CountOf(r.0.link.acks, Normalise(out.value))
                 == LinkHosts.CountOf(u.link.acks, Normalise(out.value)) + 1)
  {
    var (t, c, out) := BroadcastStep(s, b);
    var u' := if out.Some? then UrbHosts.SendMessageCorrected(u, out.value) else u;
    (u', t, c)
  }
}
