/** The uniform-reliable-broadcast layer: a message is URB-delivered once a
    strict majority of processes is known to have it, read off the ack-count
    table the link layer maintains; broadcasting hands the message to every
    other link and casts this process's own vote locally. */
module UrbHosts {
  import opened Messages
  import opened PerfectLinks
  import opened LinkHosts

  /** A process's URB state: its link layer and `urbDeliveredMessages`
      (a map to `Boolean.TRUE`, so only its keys matter). */
  datatype UrbHost = UrbHost(link: LinkHost, delivered: MessageSet)

  predicate Valid(u: UrbHost) {
    WellFormed(u.link) && KeyedByIdentity(u.delivered)
  }

  // ---------------------------------------------------------------- quorums

  /** `perfectLinks.size() / 2 + 1`: the least count that is more than half of `n`. */
  function Threshold(n: nat): (t: nat)
    ensures 2 * t > n && 2 * (t - 1) <= n && t >= 1
  {
    n / 2 + 1
  }

  /** The process ids `1..n`. */
  function Ids(n: nat): (s: set<int>)
    ensures forall i :: i in s <==> 1 <= i <= n
  {
    if n == 0 then {} else Ids(n - 1) + {n}
  }

  lemma {:induction false} IdsCardinality(n: nat)
    ensures |Ids(n)| == n
  {
    if n > 0 {
      var s := Ids(n - 1);
      IdsCardinality(n - 1);
      assert n !in s;
      assert Ids(n) == s + {n};
    }
  }

  lemma {:induction false} SubsetCardinality<T>(a: set<T>, b: set<T>)
    requires a <= b
    ensures |a| <= |b|
    decreases |a|
  {
    if a != {} {
      var x :| x in a;
      SubsetCardinality(a - {x}, b - {x});
    }
  }

  /** Any two sets of processes that each reach the threshold share a
      process: the reason one more than half is used for even and odd `n`. */
  lemma QuorumsIntersect(n: nat, a: set<int>, b: set<int>)
    requires a <= Ids(n) && b <= Ids(n)
    requires |a| >= Threshold(n) && |b| >= Threshold(n)
    ensures a * b != {}
  {
    IdsCardinality(n);
    SubsetCardinality(a + b, Ids(n));
    assert |a + b| + |a * b| == |a| + |b|;
  }

  // ------------------------------------------------------------------- poll

  /** `urbDeliveredMessages.contains(m)` as written: `ConcurrentHashMap.contains`
      is `containsValue`, so it asks whether `m` equals one of the stored
      values, all of which are `Boolean.TRUE`. */
  predicate ContainsAsWritten(d: MessageSet, m: Message) {
    exists k :: k in d && Equals(m, BooleanObject(true))
  }

  /** A message is never equal to a `Boolean`, so the test never holds. */
  lemma ContainsAsWrittenNeverHolds(d: MessageSet, m: Message)
    ensures !ContainsAsWritten(d, m)
  {
  }

  /** One sweep of the ack-count table: entries in `stale` are dropped; every
      other entry at or above the threshold is URB-delivered (an identity
      already delivered keeps its stored key) and dropped; the rest stay. */
  function Sweep(u: UrbHost, stale: set<MsgKey>): (r: UrbHost)
    requires Valid(u)
    ensures Valid(r) && r.link.me == u.link.me && r.link.links == u.link.links
    ensures forall k :: k in u.delivered ==> k in r.delivered && r.delivered[k] == u.delivered[k]
  {
    var acks, t := u.link.acks, Threshold(|u.link.links|);
    var promote := set k | k in acks && k !in stale && acks[k].count >= t;
    var delivered := map k | k in u.delivered.Keys + promote ::
      if k in u.delivered then u.delivered[k] else acks[k].msg;
    var left := map k | k in acks && k !in stale && k !in promote :: acks[k];
    UrbHost(u.link.(acks := left), delivered)
  }

  /** The body of the `beginUrbDelivery` tick as written: the early-removal
      test is `contains`, so nothing is ever dropped as already delivered. */
  function PollAsWritten(u: UrbHost): (r: UrbHost)
    requires Valid(u)
    ensures Valid(r)
    ensures forall k :: k in r.link.acks <==>
      k in u.link.acks && u.link.acks[k].count < Threshold(|u.link.links|)
  {
    Sweep(u, set k | k in u.link.acks && ContainsAsWritten(u.delivered, u.link.acks[k].msg))
  }

  /** The tick with the intended `containsKey` test: an entry for a message
      already delivered is dropped; every other entry that reached the
      threshold is delivered and dropped; entries below it wait. */
  function Poll(u: UrbHost): (r: UrbHost)
    requires Valid(u)
    ensures Valid(r) && r.link.me == u.link.me && r.link.links == u.link.links
    ensures forall k :: k in r.delivered <==>
      k in u.delivered || (k in u.link.acks && u.link.acks[k].count >= Threshold(|u.link.links|))
    ensures forall k :: k in u.delivered ==> r.delivered[k] == u.delivered[k]
    ensures forall k :: k in r.delivered && k !in u.delivered ==> r.delivered[k] == u.link.acks[k].msg
    ensures forall k :: k in r.link.acks <==>
      k in u.link.acks && k !in u.delivered && u.link.acks[k].count < Threshold(|u.link.links|)
    ensures forall k :: k in r.link.acks ==> r.link.acks[k] == u.link.acks[k]
  {
    Sweep(u, set k | k in u.link.acks && k in u.delivered)
  }

  /** Both tests deliver exactly the same messages; they differ only in what
      stays in the ack-count table. */
  lemma PollAsWrittenDeliversTheSame(u: UrbHost)
    requires Valid(u)
    ensures PollAsWritten(u).delivered == Poll(u).delivered
  {
    var stale := set k | k in u.link.acks && ContainsAsWritten(u.delivered, u.link.acks[k].msg);
    forall k | k in u.link.acks
      ensures k !in stale
    {
      ContainsAsWrittenNeverHolds(u.delivered, u.link.acks[k].msg);
    }
  }

  /** The early removal is dead code as written: an entry for an
      already-delivered message that is below the threshold (a late copy
      counted after delivery) stays in the table for ever, where the intended
      test drops it. */
  lemma PollAsWrittenKeepsStaleEntry(u: UrbHost, k: MsgKey)
    requires Valid(u) && k in u.delivered && k in u.link.acks
    requires u.link.acks[k].count < Threshold(|u.link.links|)
    ensures k in PollAsWritten(u).link.acks && PollAsWritten(u).link.acks[k] == u.link.acks[k]
    ensures k !in Poll(u).link.acks
  {
    ContainsAsWrittenNeverHolds(u.delivered, u.link.acks[k].msg);
  }

  /** A message, once URB-delivered, stays delivered under the same stored key. */
  lemma PollMonotone(u: UrbHost)
    requires Valid(u)
    ensures u.delivered.Keys <= Poll(u).delivered.Keys
    ensures forall k :: k in u.delivered ==> Poll(u).delivered[k] == u.delivered[k]
  {
  }

  /** A second poll with no new acknowledgments changes nothing: the first
      left only entries below the threshold for undelivered messages. */
  lemma PollIdempotent(u: UrbHost)
    requires Valid(u)
    ensures Poll(Poll(u)) == Poll(u)
  {
    var r := Poll(u);
    var r2 := Poll(r);
    assert r2.delivered.Keys == r.delivered.Keys;
    assert r2.link.acks.Keys == r.link.acks.Keys;
  }

  /** The set of messages the URB layer has delivered, by application
      identity `(originalSender, value)`. */
  function DeliveredInfo(d: MessageSet): (s: set<(int, int)>)
    ensures forall k :: k in d ==> Info(d[k]) in s
    ensures forall p :: p in s ==> exists k :: k in d && Info(d[k]) == p
  {
    set k | k in d :: Info(d[k])
  }

  // -------------------------------------------------------------- broadcast

  /** `doSelfUrbAck(message, selfLink)` as written: the count read under the
      normalised key plus one is stored under the message itself, whose source
      sender is this process; the self link records the message as delivered. */
  function SelfAckAsWritten(u: UrbHost, m: Message): (r: UrbHost)
    requires Valid(u)
    ensures Valid(r) && r.delivered == u.delivered && r.link.links.Keys == u.link.links.Keys
    ensures CountOf(r.link.acks, m) == CountOf(u.link.acks, Normalise(m)) + 1
    ensures r.link.acks.Keys == u.link.acks.Keys + {Key(m)}
    ensures forall k :: k in u.link.acks && k != Key(m) ==> r.link.acks[k] == u.link.acks[k]
    ensures Has(r.link.links[u.link.me].delivered, m)
    ensures forall id :: id in u.link.links && id != u.link.me ==> r.link.links[id] == u.link.links[id]
  {
    var l := u.link;
    var acks := PutCount(l.acks, m, CountOf(l.acks, Normalise(m)) + 1);
    u.(link := l.(links := DeliverOnSelf(l.links, l.me, m), acks := acks))
  }

  /** `m` delivered on the link to `me`, every other link unchanged. */
  function DeliverOnSelf(links: map<int, Link>, me: int, m: Message): (r: map<int, Link>)
    requires me in links
    ensures r.Keys == links.Keys && |r| == |links|
    ensures r[me] == Deliver(links[me], m) && Has(r[me].delivered, m)
    ensures forall id :: id in links && id != me ==> r[id] == links[id]
    ensures forall id :: id in links ==>
      r[id].dest == links[id].dest && (LinkWellFormed(links[id]) ==> LinkWellFormed(r[id]))
  {
    var r := links[me := Deliver(links[me], m)];
    assert r.Keys == links.Keys;
    r
  }

  /** The self-acknowledgment counted where the relays of other processes are
      counted: one more under the normalised key. */
  function SelfAck(u: UrbHost, m: Message): (r: UrbHost)
    requires Valid(u)
    ensures Valid(r) && r.delivered == u.delivered && r.link.links.Keys == u.link.links.Keys
    ensures CountOf(r.link.acks, Normalise(m)) == CountOf(u.link.acks, Normalise(m)) + 1
    ensures r.link.acks.Keys == u.link.acks.Keys + {Key(Normalise(m))}
    ensures forall k :: k in u.link.acks && k != Key(Normalise(m)) ==> r.link.acks[k] == u.link.acks[k]
    ensures Has(r.link.links[u.link.me].delivered, m)
    ensures forall id :: id in u.link.links && id != u.link.me ==> r.link.links[id] == u.link.links[id]
  {
    var l := u.link;
    u.(link := l.(links := DeliverOnSelf(l.links, l.me, m), acks := BumpAck(l.acks, m)))
  }

  /** As written, this process's own vote for a message it broadcasts (source
      sender = itself) lands on an entry of its own: together with a relayed
      copy from process `j` the shared entry counts one vote, where the
      corrected self-acknowledgment makes it two. With three processes the
      threshold is two, so a message acknowledged by this process and `j`
      alone, a majority, is never URB-delivered as written. */
  lemma SelfVoteLostAsWritten(u: UrbHost, m: Message, j: int)
    requires Valid(u) && m.src != NO_SOURCE && Key(Normalise(m)) !in u.link.acks
    ensures CountOf(BumpAck(SelfAckAsWritten(u, m).link.acks, ChangeSource(m, j)), Normalise(m)) == 1
    ensures CountOf(BumpAck(SelfAck(u, m).link.acks, ChangeSource(m, j)), Normalise(m)) == 2
    ensures Threshold(3) == 2
  {
    var a := SelfAckAsWritten(u, m).link.acks;
    assert Key(m) != Key(Normalise(m));
    assert CountOf(a, Normalise(m)) == 0;
    NormaliseForgetsRelay(m, j);
  }

  /** `sendMessage(message)`: the message goes pending on every link to
      another process and is self-acknowledged on this process's own link,
      by `doSelfUrbAck` as written. The vote is stored under the message
      itself; for a broadcast (source sender = this process, never
      `NO_SOURCE`) the normalised entry the relays count on is unchanged. */
  function SendMessage(u: UrbHost, m: Message): (r: UrbHost)
    requires Valid(u)
    ensures Valid(r) && r.delivered == u.delivered && r.link.me == u.link.me
    ensures r.link.links.Keys == u.link.links.Keys
    ensures forall id :: id in u.link.links && id != u.link.me ==>
      r.link.links[id] == SendData(u.link.links[id], m) && Has(r.link.links[id].pending, m)
    ensures r.link.links[u.link.me].pending == u.link.links[u.link.me].pending
    ensures Has(r.link.links[u.link.me].delivered, m)
    ensures CountOf(r.link.acks, m) == CountOf(u.link.acks, Normalise(m)) + 1
    ensures r.link.acks.Keys == u.link.acks.Keys + {Key(m)}
    ensures forall k :: k in u.link.acks && k != Key(m) ==> r.link.acks[k] == u.link.acks[k]
    ensures m.src != NO_SOURCE ==> CountOf(r.link.acks, Normalise(m)) == CountOf(u.link.acks, Normalise(m))
  {
    var l := u.link;
    SelfAckAsWritten(u.(link := l.(links := SendToOthers(l.links, l.me, m))), m)
  }

  /** `sendMessage` with the corrected self-acknowledgment: the own vote is
      counted on the normalised entry, beside the relays of the others. */
  function SendMessageCorrected(u: UrbHost, m: Message): (r: UrbHost)
    requires Valid(u)
    ensures Valid(r) && r.delivered == u.delivered && r.link.me == u.link.me
    ensures r.link.links.Keys == u.link.links.Keys
    ensures forall id :: id in u.link.links && id != u.link.me ==>
      r.link.links[id] == SendData(u.link.links[id], m) && Has(r.link.links[id].pending, m)
    ensures r.link.links[u.link.me].pending == u.link.links[u.link.me].pending
    ensures Has(r.link.links[u.link.me].delivered, m)
    ensures CountOf(r.link.acks, Normalise(m)) == CountOf(u.link.acks, Normalise(m)) + 1
    ensures r.link.acks.Keys == u.link.acks.Keys + {Key(Normalise(m))}
    ensures forall k :: k in u.link.acks && k != Key(Normalise(m)) ==> r.link.acks[k] == u.link.acks[k]
  {
    var l := u.link;
    SelfAck(u.(link := l.(links := SendToOthers(l.links, l.me, m))), m)
  }

  /** The two sends differ only in where the own vote is stored: the links
      agree, and for a broadcast the as-written send leaves the normalised
      entry one vote short of the corrected one. */
  lemma SendMessageVoteMisplaced(u: UrbHost, m: Message)
    requires Valid(u) && m.src != NO_SOURCE
    ensures SendMessage(u, m).link.links == SendMessageCorrected(u, m).link.links
    ensures CountOf(SendMessage(u, m).link.acks, Normalise(m)) + 1
         == CountOf(SendMessageCorrected(u, m).link.acks, Normalise(m))
  {
  }

  /** `m` made pending on every link but the one to `me`. */
  function SendToOthers(links: map<int, Link>, me: int, m: Message): (r: map<int, Link>)
    ensures r.Keys == links.Keys && |r| == |links|
    ensures forall id :: id in links ==> r[id] == if id != me then SendData(links[id], m) else links[id]
    ensures forall id :: id in links ==>
      r[id].dest == links[id].dest && (LinkWellFormed(links[id]) ==> LinkWellFormed(r[id]))
  {
    var r := map id | id in links :: if id != me then SendData(links[id], m) else links[id];
    assert r.Keys == links.Keys;
    r
  }

  /** Sending a message twice makes nothing newly pending: only the vote is
      counted again, exactly as the source's second call would. */
  lemma SendMessagePendingIdempotent(u: UrbHost, m: Message)
    requires Valid(u)
    ensures var r := SendMessage(u, m);
      forall id :: id in u.link.links ==>
        SendMessage(r, m).link.links[id].pending == r.link.links[id].pending
  {
  }

  /** This process's own vote is cast once: when copies of its broadcast come
      back relayed by other processes, the local relay finds the copy
      already delivered on the self link and does not count it again. */
  lemma SelfVoteCountedOnce(u: UrbHost, m: Message, j: int)
    requires Valid(u) && m.src as int == u.link.me
    ensures !SelfRelayCounts(SendMessage(u, m).link, ChangeSource(m, j))
  {
    var r := SendMessage(u, m);
    assert ChangeSource(ChangeSource(m, j), r.link.me) == m;
  }
}
