/** One perfect link: the sender-side set of messages awaiting an
    acknowledgment and the receiver-side set of messages already delivered,
    both keyed by clock-blind message identity. */
module PerfectLinks {
  import opened JavaInts
  import opened Messages

  /** A collection keyed by `equals`: a Java `HashMap<Message, _>` keeps the
      first key object put under an identity, so every entry is stored under
      its own identity. */
  type MessageSet = map<MsgKey, Message>

  predicate KeyedByIdentity(s: MessageSet) {
    forall k :: k in s ==> Key(s[k]) == k
  }

  /** `s.containsKey(m)`. */
  predicate Has(s: MessageSet, m: Message) {
    Key(m) in s
  }

  /** `s.put(m, _)` / `s.putIfAbsent(m, _)` as far as the keys go: an
      identity already present keeps the message first stored under it. */
  function Insert(s: MessageSet, m: Message): (r: MessageSet)
    ensures r.Keys == s.Keys + {Key(m)}
    ensures forall k :: k in s ==> r[k] == s[k]
    ensures Key(m) !in s ==> r[Key(m)] == m
    ensures KeyedByIdentity(s) ==> KeyedByIdentity(r)
  {
    if Key(m) in s then s else s[Key(m) := m]
  }

  /** The link to one destination process. `pending` holds the messages whose
      retransmission task is running (`unackedMessages`); `delivered` the
      messages received from that process (`deliveredMessages`). */
  datatype Link = Link(dest: int, port: int, pending: MessageSet, delivered: MessageSet)

  predicate LinkWellFormed(l: Link) {
    KeyedByIdentity(l.pending) && KeyedByIdentity(l.delivered)
  }

  /** A fresh link to process `dest` listening on `port`. */
  function NewLink(dest: int, port: int): (l: Link)
    ensures LinkWellFormed(l) && l.pending == map[] && l.delivered == map[]
  {
    Link(dest, port, map[], map[])
  }

  /** `sendDataMessage(m)`: start retransmitting `m` unless a message equal to
      it is already pending. Only the pending-set join is modelled; the
      retransmission itself is a timer. */
  function SendData(l: Link, m: Message): (r: Link)
    ensures r.pending.Keys == l.pending.Keys + {Key(m)}
    ensures forall k :: k in l.pending ==> r.pending[k] == l.pending[k]
    ensures Key(m) !in l.pending ==> r.pending[Key(m)] == m
    ensures r.dest == l.dest && r.port == l.port && r.delivered == l.delivered
    ensures LinkWellFormed(l) ==> LinkWellFormed(r)
  {
    l.(pending := Insert(l.pending, m))
  }

  /** Sending is an idempotent join: sending a message equal to one already
      sent (whatever its clock) changes nothing. */
  lemma SendDataIdempotent(l: Link, m: Message, m': Message)
    requires Same(m, m')
    ensures SendData(SendData(l, m), m') == SendData(l, m)
    ensures Has(l.pending, m) ==> SendData(l, m') == l
  {
  }

  /** A later send with the same identity but another clock does not replace
      the pending message: the first clock is the one retransmitted. */
  lemma PendingKeepsFirstClock(l: Link, m: Message, c: seq<Int32>)
    requires LinkWellFormed(l) && !Has(l.pending, m)
    ensures SendData(SendData(l, m), m.(clock := c)).pending[Key(m)].clock == m.clock
  {
  }

  /** `deliverMessage(m)`: record `m` as delivered. Nothing removes from this set. */
  function Deliver(l: Link, m: Message): (r: Link)
    ensures r.delivered.Keys == l.delivered.Keys + {Key(m)}
    ensures forall k :: k in l.delivered ==> r.delivered[k] == l.delivered[k]
    ensures r.dest == l.dest && r.port == l.port && r.pending == l.pending
    ensures LinkWellFormed(l) ==> LinkWellFormed(r)
  {
    l.(delivered := Insert(l.delivered, m))
  }

  /** The acknowledgment `sendAckMessage(seqNum, originalSenderId, vectorClock)`
      puts on the wire: type ACK, the given value, original sender and clock,
      and this link's destination as source sender. */
  function AckFor(l: Link, seqNum: Int32, originalSenderId: int, vectorClock: seq<Int32>): (a: Message)
    ensures a.kind == ACK_MESSAGE && a.value == seqNum && a.clock == vectorClock
    ensures a.orig == ToInt8(originalSenderId) && a.src == ToInt8(l.dest)
  {
    Message(seqNum, ACK_MESSAGE, ToInt8(originalSenderId), ToInt8(l.dest), vectorClock)
  }

  /** The receiver acknowledges data message `m` from process `s` on its link
      to `s`; flipping that acknowledgment back to data gives a message equal
      to `m`, which is the key of `m` in the sender's pending set. */
  lemma AckFlipsToAcknowledgedData(l: Link, m: Message)
    requires m.kind == DATA_MESSAGE && l.dest == m.src as int
    ensures ChangeToData(AckFor(l, m.value, m.orig as int, m.clock)) == m
    ensures Same(ChangeToData(AckFor(l, m.value, m.orig as int, m.clock)), m)
  {
  }

  /** Without the flip, an acknowledgment is never equal to a data message. */
  lemma AckIsNotData(l: Link, m: Message)
    requires m.kind == DATA_MESSAGE
    ensures !Same(AckFor(l, m.value, m.orig as int, m.clock), m)
  {
  }
}
