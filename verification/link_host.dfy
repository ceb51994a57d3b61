/** The reception side of a process: one perfect link per process (itself
    included), the ack-count table that URB delivery reads, and the steps the
    single reception thread takes for each datagram: acknowledge and relay a
    DATA message, retire a pending message on its ACK. */
module LinkHosts {
  import opened JavaInts
  import opened Outcomes
  import opened Messages
  import opened PerfectLinks

  /** An ack-count entry: the first key object stored and its count. */
  datatype AckEntry = AckEntry(msg: Message, count: nat)

  /** `urbAckCount`, keyed by message identity. */
  type AckTable = map<MsgKey, AckEntry>

  predicate AckTableKeyed(t: AckTable) {
    forall k :: k in t ==> Key(t[k].msg) == k
  }

  /** `t.getOrDefault(m, 0)`. */
  function CountOf(t: AckTable, m: Message): nat {
    if Key(m) in t then t[Key(m)].count else 0
  }

  /** `t.put(m, c)`: an identity already present keeps its first key object. */
  function PutCount(t: AckTable, m: Message, c: nat): (r: AckTable)
    ensures r.Keys == t.Keys + {Key(m)}
    ensures CountOf(r, m) == c
    ensures forall k :: k in t && k != Key(m) ==> r[k] == t[k]
    ensures Key(m) in t ==> r[Key(m)].msg == t[Key(m)].msg
    ensures AckTableKeyed(t) ==> AckTableKeyed(r)
  {
    t[Key(m) := AckEntry(if Key(m) in t then t[Key(m)].msg else m, c)]
  }

  /** One more acknowledgment for `m`, counted under its normalised key
      (`keyMessage` with NO_SOURCE), so copies relayed by different processes
      accumulate on one entry. */
  function BumpAck(t: AckTable, m: Message): (r: AckTable)
    ensures CountOf(r, Normalise(m)) == CountOf(t, Normalise(m)) + 1
    ensures r.Keys == t.Keys + {Key(Normalise(m))}
    ensures forall k :: k in t && k != Key(Normalise(m)) ==> r[k] == t[k]
    ensures AckTableKeyed(t) ==> AckTableKeyed(r)
  {
    PutCount(t, Normalise(m), CountOf(t, Normalise(m)) + 1)
  }

  /** A bump that happens only when `counts` holds: the normalised entry of
      `m` rises by one exactly then, and no other entry changes. */
  lemma MaybeBumpAck(t: AckTable, m: Message, n: Message, counts: bool)
    requires Normalise(m) == n
    ensures var r := if counts then BumpAck(t, m) else t;
      && CountOf(r, n) == CountOf(t, n) + (if counts then 1 else 0)
      && (forall k :: k in t && k != Key(n) ==> k in r && r[k] == t[k])
      && r.Keys <= t.Keys + {Key(n)}
  {
  }

  /** Copies of one broadcast relayed by different processes raise one entry. */
  lemma BumpAckSharesEntry(t: AckTable, m: Message, id1: int, id2: int)
    ensures CountOf(BumpAck(BumpAck(t, ChangeSource(m, id1)), ChangeSource(m, id2)), Normalise(m))
         == CountOf(t, Normalise(m)) + 2
  {
    NormaliseForgetsRelay(m, id1);
    NormaliseForgetsRelay(m, id2);
  }

  /** A datagram handed to the socket. */
  datatype Packet = Packet(dest: int, msg: Message)

  /** One process's link layer: its id, its links by destination id (its own
      included), and the shared ack-count table. */
  datatype LinkHost = LinkHost(me: int, links: map<int, Link>, acks: AckTable)

  /** How the hosts are built: ids `1..N` with `N <= 127` (ids travel as
      signed bytes), one link per id whose destination is that id, this
      process among them. */
  predicate WellFormed(h: LinkHost) {
    && |h.links| <= 127
    && (forall id :: id in h.links ==> 1 <= id <= |h.links|)
    && (forall id :: 1 <= id <= |h.links| ==> id in h.links)
    && h.me in h.links
    && (forall id :: id in h.links ==> h.links[id].dest == id && LinkWellFormed(h.links[id]))
    && AckTableKeyed(h.acks)
  }

  /** `getPerfectLinkFromID(id)`: the link whose destination is `id`; `None`
      (Java's `null`) when there is none. */
  function LinkFromId(h: LinkHost, id: int): (r: Option<Link>)
    requires WellFormed(h)
    ensures r.Some? <==> 1 <= id <= |h.links|
    ensures r.Some? ==> r.value.dest == id
  {
    if id in h.links then Some(h.links[id]) else None
  }

  /** The links are visited in ascending id order (the order of a `HashMap`
      with small `Integer` keys); the first whose destination listens on
      `port` is returned. */
  function PortScan(links: map<int, Link>, port: int, id: int, n: int): (r: Option<int>)
    requires forall j :: id <= j <= n ==> j in links
    ensures r.Some? ==> id <= r.value <= n && links[r.value].port == port
    ensures r.Some? ==> forall j :: id <= j < r.value ==> links[j].port != port
    ensures r.None? ==> forall j :: id <= j <= n ==> links[j].port != port
    decreases n - id
  {
    if id > n then None
    else if links[id].port == port then Some(id)
    else PortScan(links, port, id + 1, n)
  }

  /** `getPerfectLinkFromPort(port)`: the lowest-id link whose destination
      port is `port`; `None` where the source throws `NoSuchElementException`. */
  function LinkFromPort(h: LinkHost, port: int): (r: Option<int>)
    requires WellFormed(h)
    ensures r.Some? ==> r.value in h.links && h.links[r.value].port == port
    ensures r.Some? ==> forall j :: j in h.links && j < r.value ==> h.links[j].port != port
    ensures r.None? <==> forall j :: j in h.links ==> h.links[j].port != port
  {
    PortScan(h.links, port, 1, |h.links|)
  }

  // ------------------------------------------------------------------ relay

  /** A link takes part in relaying `incoming` (as the copy `copy`) unless it
      already delivered `incoming` or already has `copy` pending. */
  predicate RelayEligible(l: Link, incoming: Message, copy: Message) {
    !Has(l.delivered, incoming) && !Has(l.pending, copy)
  }

  /** What relaying does to one link: an eligible link to another process gets
      the copy pending; an eligible link to the relaying process itself
      delivers the copy locally instead. */
  function RelayOn(l: Link, incoming: Message, copy: Message): Link {
    if !RelayEligible(l, incoming, copy) then l
    else if l.dest != copy.src as int then SendData(l, copy)
    else Deliver(l, copy)
  }

  /** The self-delivery branch of the relay delivers something new, and is
      therefore counted. */
  predicate SelfRelayCounts(h: LinkHost, incoming: Message)
    requires WellFormed(h)
  {
    var self, copy := h.links[h.me], ChangeSource(incoming, h.me);
    RelayEligible(self, incoming, copy) && !Has(self.delivered, copy)
  }

  /** Relaying keeps a link's destination and port and its well-formedness. */
  lemma RelayOnKeepsShape(l: Link, incoming: Message, copy: Message)
    requires LinkWellFormed(l)
    ensures var r := RelayOn(l, incoming, copy);
      r.dest == l.dest && r.port == l.port && LinkWellFormed(r)
  {
  }

  /** What relaying `incoming` as `copy` did to the link `l`, now `r`: an
      eligible link to another process gained the copy as pending and kept
      everything else, an ineligible link is unchanged, and the link to the
      relaying process kept its pending set, gained the copy as delivered
      when eligible, and lost nothing delivered. */
  predicate RelayOnFacts(l: Link, r: Link, incoming: Message, copy: Message) {
    && r.port == l.port
    && l.delivered.Keys <= r.delivered.Keys
    && (l.dest != copy.src as int && RelayEligible(l, incoming, copy) ==>
          && r.pending.Keys == l.pending.Keys + {Key(copy)}
          && (forall k :: k in l.pending ==> r.pending[k] == l.pending[k])
          && r.pending[Key(copy)] == copy
          && r.delivered == l.delivered)
    && (!RelayEligible(l, incoming, copy) ==> r == l)
    && (l.dest == copy.src as int ==> r.pending == l.pending)
    && (l.dest == copy.src as int && RelayEligible(l, incoming, copy) ==> Has(r.delivered, copy))
  }

  /** One link's relay step satisfies `RelayOnFacts`. */
  lemma RelayOnEffects(l: Link, incoming: Message, copy: Message)
    ensures RelayOnFacts(l, RelayOn(l, incoming, copy), incoming, copy)
  {
  }

  /** Every link of `links` after relaying. */
  function RelayLinks(links: map<int, Link>, incoming: Message, copy: Message): (r: map<int, Link>)
    ensures r.Keys == links.Keys && |r| == |links|
    ensures forall id :: id in links ==> r[id] == RelayOn(links[id], incoming, copy)
  {
    var r := map id | id in links :: RelayOn(links[id], incoming, copy);
    assert r.Keys == links.Keys;
    r
  }

  /** `broadcastRelayMessage(incoming)`: the copy stamped with this process as
      source sender goes pending on every eligible link to another process
      (earlier pending entries kept), no ineligible link changes, no port
      changes, and the self link never sends: it delivers the copy, keeping
      what it delivered before, and a first delivery there counts one
      acknowledgment under the normalised key (`RelayOnFacts` spells out the
      per-link part). */
  function Relay(h: LinkHost, incoming: Message): (r: LinkHost)
    requires WellFormed(h)
    ensures WellFormed(r) && r.me == h.me && r.links.Keys == h.links.Keys
    ensures var copy := ChangeSource(incoming, h.me);
      && copy == incoming.(src := h.me) && copy.src as int == h.me
      && (forall id :: id in h.links ==> RelayOnFacts(h.links[id], r.links[id], incoming, copy))
    ensures CountOf(r.acks, Normalise(incoming))
         == CountOf(h.acks, Normalise(incoming)) + (if SelfRelayCounts(h, incoming) then 1 else 0)
    ensures forall k :: k in h.acks && k != Key(Normalise(incoming)) ==> k in r.acks && r.acks[k] == h.acks[k]
    ensures r.acks.Keys <= h.acks.Keys + {Key(Normalise(incoming))}
  {
    var copy := ChangeSource(incoming, h.me);
    var links := RelayLinks(h.links, incoming, copy);
    var acks := if SelfRelayCounts(h, incoming) then BumpAck(h.acks, copy) else h.acks;
    NormaliseForgetsRelay(incoming, h.me);
    MaybeBumpAck(h.acks, copy, Normalise(incoming), SelfRelayCounts(h, incoming));
    assert forall id :: id in links ==> links[id].dest == id && LinkWellFormed(links[id]) by {
      forall id | id in links
        ensures links[id].dest == id && LinkWellFormed(links[id])
      {
        RelayOnKeepsShape(h.links[id], incoming, copy);
      }
    }
    forall id | id in h.links
      ensures RelayOnFacts(h.links[id], links[id], incoming, copy)
    {
      RelayOnEffects(h.links[id], incoming, copy);
    }
    LinkHost(h.me, links, acks)
  }

  /** Relaying twice is relaying once: the second pass finds every copy
      pending or delivered, so nothing is sent or counted again. */
  lemma RelayIdempotent(h: LinkHost, incoming: Message)
    requires WellFormed(h)
    ensures Relay(Relay(h, incoming), incoming) == Relay(h, incoming)
  {
    var r := Relay(h, incoming);
    var copy := ChangeSource(incoming, h.me);
    assert !SelfRelayCounts(r, incoming);
    RelayLinksIdempotent(h.links, incoming, copy);
  }

  /** Relaying every link twice is relaying every link once. */
  lemma RelayLinksIdempotent(links: map<int, Link>, incoming: Message, copy: Message)
    ensures RelayLinks(RelayLinks(links, incoming, copy), incoming, copy) == RelayLinks(links, incoming, copy)
  {
    var r := RelayLinks(links, incoming, copy);
    forall id | id in r
      ensures RelayLinks(r, incoming, copy)[id] == r[id]
    {
      RelayOnIdempotent(links[id], incoming, copy);
    }
  }

  /** Relaying one link twice is relaying it once: the copy is then pending
      or delivered there. */
  lemma RelayOnIdempotent(l: Link, incoming: Message, copy: Message)
    ensures RelayOn(RelayOn(l, incoming, copy), incoming, copy) == RelayOn(l, incoming, copy)
  {
  }

  // --------------------------------------------------------------- DATA branch

  /** The first receipt of a DATA message on the immediate sender's link
      (`putIfAbsent`, then the ack-count increment): marks it delivered there
      and counts one acknowledgment under its normalised key. */
  function Accept(h: LinkHost, m: Message): (r: LinkHost)
    requires WellFormed(h) && m.src as int in h.links
    ensures WellFormed(r) && r.me == h.me && r.links.Keys == h.links.Keys
  {
    var l := h.links[m.src as int];
    h.(links := h.links[m.src as int := Deliver(l, m)], acks := BumpAck(h.acks, m))
  }

  /** The first receipt adds the message to exactly that link's delivered set
      and raises the count of its normalised key by exactly one. */
  lemma AcceptCountsOnce(h: LinkHost, m: Message)
    requires WellFormed(h) && m.src as int in h.links
    ensures var r, s := Accept(h, m), m.src as int;
      && Has(r.links[s].delivered, m)
      && r.links[s].delivered.Keys == h.links[s].delivered.Keys + {Key(m)}
      && (forall id :: id in h.links && id != s ==> r.links[id] == h.links[id])
      && CountOf(r.acks, Normalise(m)) == CountOf(h.acks, Normalise(m)) + 1
      && (forall k :: k in h.acks && k != Key(Normalise(m)) ==> r.acks[k] == h.acks[k])
  {
  }

  /** The DATA branch of the reception loop: deliver and relay a message new
      to the immediate sender's link, and in every case acknowledge it back
      to that sender. A source sender with no link is the source's
      `NullPointerException`. */
  function OnData(h: LinkHost, m: Message): (r: Result<(LinkHost, Packet)>)
    requires WellFormed(h)
    ensures r.Err? <==> m.src as int !in h.links
    ensures r.Ok? ==> WellFormed(r.value.0) && r.value.0.me == h.me && r.value.0.links.Keys == h.links.Keys
  {
    var s := m.src as int;
    if s !in h.links then Err(NoLinkForId(s))
    else
      var l := h.links[s];
      var h' := if Has(l.delivered, m) then h else Relay(Accept(h, m), m);
      Ok((h', Packet(s, AckFor(l, m.value, m.orig as int, m.clock))))
  }

  /** A DATA message is acknowledged back to its immediate sender whether it
      is new or a duplicate, and the acknowledgment flips back to it. */
  lemma OnDataAlwaysAcks(h: LinkHost, m: Message)
    requires WellFormed(h) && m.src as int in h.links && m.kind == DATA_MESSAGE
    ensures OnData(h, m).Ok?
    ensures var p := OnData(h, m).value.1;
      p.dest == m.src as int && p.msg.kind == ACK_MESSAGE && ChangeToData(p.msg) == m
  {
    AckFlipsToAcknowledgedData(h.links[m.src as int], m);
  }

  /** A duplicate changes no delivered set, no pending set and no ack count:
      nothing is relayed. */
  lemma OnDataDuplicateChangesNothing(h: LinkHost, m: Message)
    requires WellFormed(h) && m.src as int in h.links && Has(h.links[m.src as int].delivered, m)
    ensures OnData(h, m).Ok? && OnData(h, m).value.0 == h
  {
  }

  /** A new message is delivered on its sender's link; its normalised count
      rises by one for the receipt and by one more exactly when this process
      relays it to itself for the first time. */
  lemma OnDataNewCounts(h: LinkHost, m: Message)
    requires WellFormed(h) && m.src as int in h.links && !Has(h.links[m.src as int].delivered, m)
    ensures OnData(h, m).Ok?
    ensures var r := OnData(h, m).value.0;
      && Has(r.links[m.src as int].delivered, m)
      && CountOf(r.acks, Normalise(m)) == CountOf(h.acks, Normalise(m)) + 1
           + (if m.src as int != h.me && SelfRelayCounts(h, m) then 1 else 0)
  {
    var a := Accept(h, m);
    AcceptCountsOnce(h, m);
    NormaliseForgetsRelay(m, h.me);
    if m.src as int != h.me {
      assert a.links[h.me] == h.links[h.me];
      assert SelfRelayCounts(a, m) == SelfRelayCounts(h, m);
    } else {
      assert Has(a.links[h.me].delivered, m);
      assert !SelfRelayCounts(a, m);
    }
  }

  /** Receiving the same DATA message twice is receiving it once. */
  lemma OnDataIdempotent(h: LinkHost, m: Message)
    requires WellFormed(h) && m.src as int in h.links
    ensures var r := OnData(h, m).value.0;
      OnData(r, m).Ok? && OnData(r, m).value.0 == r
  {
    var s := m.src as int;
    if !Has(h.links[s].delivered, m) {
      var a := Accept(h, m);
      AcceptCountsOnce(h, m);
      assert Has(Relay(a, m).links[s].delivered, m);
    }
  }

  // ---------------------------------------------------------------- ACK branch

  /** The ACK branch: the link matched by the datagram's source port stops
      retransmitting the data message the acknowledgment names, if it still
      is; a late or duplicate acknowledgment changes nothing. An unmatched port
      is the source's `NoSuchElementException`. */
  function OnAck(h: LinkHost, a: Message, port: int): (r: Result<LinkHost>)
    requires WellFormed(h)
    ensures r.Err? <==> LinkFromPort(h, port).None?
    ensures r.Ok? ==> WellFormed(r.value) && r.value.me == h.me && r.value.acks == h.acks
  {
    match LinkFromPort(h, port)
    case None => Err(NoLinkForPort(port))
    case Some(id) =>
      var key := ChangeToData(a);
      var l := h.links[id];
      if Has(l.pending, key) then Ok(h.(links := h.links[id := l.(pending := l.pending - {Key(key)})]))
      else Ok(h)
  }

  /** An acknowledgment removes exactly the flipped key from the matched
      link's pending set and changes nothing else. */
  lemma OnAckRetiresOne(h: LinkHost, a: Message, port: int)
    requires WellFormed(h) && LinkFromPort(h, port).Some?
    ensures var id, r := LinkFromPort(h, port).value, OnAck(h, a, port).value;
      && r.links.Keys == h.links.Keys
      && r.links[id].pending.Keys == h.links[id].pending.Keys - {Key(ChangeToData(a))}
      && r.links[id].delivered == h.links[id].delivered
      && (forall j :: j in h.links && j != id ==> r.links[j] == h.links[j])
  {
  }

  /** Sending a data message and then receiving its acknowledgment from the
      destination restores the link as it was. */
  lemma AckCancelsSend(h: LinkHost, id: int, m: Message)
    requires WellFormed(h) && id in h.links && !Has(h.links[id].pending, m)
    requires m.kind == DATA_MESSAGE
    requires forall j :: j in h.links && j != id ==> h.links[j].port != h.links[id].port
    ensures var sent := h.(links := h.links[id := SendData(h.links[id], m)]);
      WellFormed(sent) && OnAck(sent, m.(kind := ACK_MESSAGE), h.links[id].port) == Ok(h)
  {
    var sent := h.(links := h.links[id := SendData(h.links[id], m)]);
    var l := h.links[id];
    assert sent.links.Keys == h.links.Keys;
    assert WellFormed(sent);
    assert sent.links[id].port == l.port;
    var found := LinkFromPort(sent, l.port);
    assert found.Some?;
    assert found.value == id;
    assert ChangeToData(m.(kind := ACK_MESSAGE)) == m;
    assert SendData(l, m).pending - {Key(m)} == l.pending;
    assert sent.links[id := l] == h.links;
  }

  // -------------------------------------------------------------- reception

  /** The octets `deserializeMessage` sees: the datagram received into a
      fresh zero-filled array of `size` octets, so a short datagram is padded
      with zeros and a long one is cut off. */
  function ReceiveBuffer(buf: seq<Byte>, size: nat): (r: seq<Byte>)
    ensures |r| == size
    ensures forall i :: 0 <= i < size ==> r[i] == if i < |buf| then buf[i] else 0
  {
    if |buf| >= size then buf[..size] else buf + seq(size - |buf|, _ => 0)
  }

  /** One pass of the reception loop: decode the receive buffer, then take
      the DATA or the ACK branch by type; any other type is ignored. The
      acknowledgment sent, if any, is returned. */
  function Receive(h: LinkHost, buf: seq<Byte>, port: int): (r: Result<(LinkHost, seq<Packet>)>)
    requires WellFormed(h)
    ensures r.Ok? ==> WellFormed(r.value.0) && r.value.0.me == h.me && r.value.0.links.Keys == h.links.Keys
    ensures r.Ok? ==> |r.value.1| <= 1
    ensures var d := Decode(ReceiveBuffer(buf, MessageSize(|h.links|)), |h.links|);
      && d.Ok?
      && (r.Err? <==> (|| (d.value.kind == DATA_MESSAGE && d.value.src as int !in h.links)
                       || (d.value.kind == ACK_MESSAGE && LinkFromPort(h, port).None?)))
      && (d.value.kind != DATA_MESSAGE && d.value.kind != ACK_MESSAGE ==> r == Ok((h, [])))
  {
    var m := Decode(ReceiveBuffer(buf, MessageSize(|h.links|)), |h.links|).value;
    if m.kind == DATA_MESSAGE then
      var (h', ack) :- OnData(h, m);
      Ok((h', [ack]))
    else if m.kind == ACK_MESSAGE then
      var h' :- OnAck(h, m, port);
      Ok((h', []))
    else Ok((h, []))
  }

  /** Receiving the encoding of a message from a process of this system
      (clock of length N, value below `2^24`) takes exactly the branch its
      type names, on the message itself. */
  lemma ReceiveEncoded(h: LinkHost, m: Message, port: int)
    requires WellFormed(h) && |m.clock| == |h.links| && 0 <= m.value < 0x100_0000
    ensures m.kind == DATA_MESSAGE && OnData(h, m).Ok? ==>
      Receive(h, Encode(m), port) == Ok((OnData(h, m).value.0, [OnData(h, m).value.1]))
    ensures m.kind == DATA_MESSAGE && OnData(h, m).Err? ==> Receive(h, Encode(m), port).Err?
    ensures m.kind == ACK_MESSAGE && OnAck(h, m, port).Ok? ==>
      Receive(h, Encode(m), port) == Ok((OnAck(h, m, port).value, []))
    ensures m.kind == ACK_MESSAGE && OnAck(h, m, port).Err? ==> Receive(h, Encode(m), port).Err?
    ensures m.kind != DATA_MESSAGE && m.kind != ACK_MESSAGE ==> Receive(h, Encode(m), port) == Ok((h, []))
  {
    var e := Encode(m);
    assert ReceiveBuffer(e, MessageSize(|h.links|)) == e;
    RoundTripExactIff(m);
  }
}
