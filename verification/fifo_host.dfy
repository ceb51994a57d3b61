/** The FIFO layer: per original sender, a watermark of the highest sequence
    number delivered so far; each poll advances every watermark across the
    run of consecutive sequence numbers the URB layer has delivered, and
    stops at the first gap. */
module FifoHosts {
  import opened Messages
  import opened PerfectLinks
  import opened LinkHosts
  import opened UrbHosts

  /** `lastDeliveredMessageId` for the processes `1..n`, and the delivery
      log, one `(originalSender, sequenceNumber)` entry per line `d s q`. */
  datatype FifoHost = FifoHost(n: nat, last: map<int, int>, log: seq<(int, int)>)

  predicate Valid(f: FifoHost) {
    && (forall id :: id in f.last ==> 1 <= id <= f.n)
    && (forall id :: 1 <= id <= f.n ==> id in f.last)
  }

  /** `setupLastDeliveredMessagesMap()`: a watermark of 0 for every link's
      destination and for this process. */
  function Setup(h: LinkHost): (f: FifoHost)
    requires WellFormed(h)
    ensures Valid(f) && f.n == |h.links| && f.log == []
    ensures f.last.Keys == h.links.Keys + {h.me}
    ensures forall id :: id in f.last ==> f.last[id] == 0
  {
    var last := map id | id in h.links :: 0;
    FifoHost(|h.links|, if h.me in last then last else last[h.me := 0], [])
  }

  // --------------------------------------------------------- one watermark

  /** The entries of `d` for sender `s` above `last`. */
  function Above(d: set<(int, int)>, s: int, last: int): set<(int, int)> {
    set p | p in d && p.0 == s && p.1 > last
  }

  /** The inner `while (true)` loop for sender `s`: step past `last + 1`, `last + 2`, …
      while the pair is present, and stop at the first one that is not. */
  function Advance(d: set<(int, int)>, s: int, last: int): (r: int)
    ensures r >= last
    ensures forall q :: last < q <= r ==> (s, q) in d
    ensures (s, r + 1) !in d
    decreases Above(d, s, last)
  {
    if (s, last + 1) in d then
      assert (s, last + 1) in Above(d, s, last) - Above(d, s, last + 1);
      Advance(d, s, last + 1)
    else last
  }

  /** The watermark the loop reaches is the only one that fits its
      description: at or above the start, a gap-free run below it, and a gap
      right after it. */
  lemma AdvanceUnique(d: set<(int, int)>, s: int, last: int, r: int)
    requires r >= last && (s, r + 1) !in d
    requires forall q :: last < q <= r ==> (s, q) in d
    ensures r == Advance(d, s, last)
  {
    var a := Advance(d, s, last);
    assert a < r ==> (s, a + 1) in d;
    assert a > r ==> (s, r + 1) in d;
  }

  /** A missing sequence number blocks every higher one from that sender,
      whatever else has been URB-delivered. */
  lemma GapBlocks(d: set<(int, int)>, s: int, last: int, g: int)
    requires last < g && (s, g) !in d
    ensures Advance(d, s, last) < g
  {
  }

  /** A watermark already at its end does not move. */
  lemma AdvanceIdempotent(d: set<(int, int)>, s: int, last: int)
    ensures Advance(d, s, Advance(d, s, last)) == Advance(d, s, last)
  {
  }

  /** More URB deliveries never lower the watermark a poll reaches. */
  lemma {:induction false} AdvanceMonotone(d: set<(int, int)>, e: set<(int, int)>, s: int, last: int)
    requires d <= e
    ensures Advance(d, s, last) <= Advance(e, s, last)
    decreases Above(d, s, last)
  {
    if (s, last + 1) in d {
      assert (s, last + 1) in Above(d, s, last) - Above(d, s, last + 1);
      AdvanceMonotone(d, e, s, last + 1);
    }
  }

  /** The log lines for sender `s` as its watermark moves from `lo` to `hi`. */
  function Run(s: int, lo: int, hi: int): (r: seq<(int, int)>)
    requires lo <= hi
    ensures |r| == hi - lo
    ensures forall i :: 0 <= i < |r| ==> r[i] == (s, lo + 1 + i)
  {
    seq(hi - lo, i => (s, lo + 1 + i))
  }

  // ------------------------------------------------------------------- poll

  /** The lines a poll logs for the senders `id..n`, in ascending order, from
      the watermarks `last` it starts with: each sender's watermark is
      advanced by itself, whatever happened to the senders before it. */
  function Lines(last: map<int, int>, d: set<(int, int)>, id: int, n: int): seq<(int, int)>
    requires forall s :: id <= s <= n ==> s in last
    decreases n + 1 - id
  {
    if id > n then []
    else Run(id, last[id], Advance(d, id, last[id])) + Lines(last, d, id + 1, n)
  }

  /** One tick, given the pairs the lookup at the head of the inner loop
      finds; nothing happens while the URB layer has delivered nothing.
      Senders are visited in ascending order (the order in which a `HashMap`
      with small `Integer` keys yields them); each watermark is advanced
      independently of the others, so the loop's result is every watermark
      advanced and the lines of every sender logged in that order. */
  function PollWith(f: FifoHost, d: set<(int, int)>, urbEmpty: bool): (r: FifoHost)
    requires Valid(f)
    ensures Valid(r) && r.n == f.n && r.last.Keys == f.last.Keys && f.log <= r.log
    ensures forall s :: s in f.last ==> r.last[s] == if urbEmpty then f.last[s] else Advance(d, s, f.last[s])
  {
    if urbEmpty then f
    else FifoHost(f.n, map s | s in f.last :: Advance(d, s, f.last[s]), f.log + Lines(f.last, d, 1, f.n))
  }

  /** Every line of `l` is present, names a sender from `id` to `n`, and lies
      just above that sender's watermark in `last` and at most where `d`
      lets it advance. */
  predicate LinesWithin(last: map<int, int>, d: set<(int, int)>, id: int, n: int, l: seq<(int, int)>) {
    forall i :: 0 <= i < |l| ==>
      && id <= l[i].0 <= n && l[i] in d && l[i].0 in last
      && last[l[i].0] < l[i].1 <= Advance(d, l[i].0, last[l[i].0])
  }

  lemma {:induction false} LinesEntries(last: map<int, int>, d: set<(int, int)>, id: int, n: int)
    requires forall s :: id <= s <= n ==> s in last
    ensures LinesWithin(last, d, id, n, Lines(last, d, id, n))
    decreases n + 1 - id
  {
    if id <= n {
      LinesEntries(last, d, id + 1, n);
      var run := Run(id, last[id], Advance(d, id, last[id]));
      var rest := Lines(last, d, id + 1, n);
      var l := run + rest;
      assert l == Lines(last, d, id, n);
      forall i | 0 <= i < |l|
        ensures id <= l[i].0 <= n && l[i] in d && l[i].0 in last
        ensures last[l[i].0] < l[i].1 <= Advance(d, l[i].0, last[l[i].0])
      {
        if i < |run| {
          assert l[i] == run[i];
        } else {
          assert l[i] == rest[i - |run|];
        }
      }
    }
  }

  /** Within one sender, the lines are consecutive sequence numbers. */
  predicate Consecutive(l: seq<(int, int)>) {
    forall i, j :: 0 <= i < j < |l| && l[i].0 == l[j].0 ==> l[j].1 == l[i].1 + (j - i)
  }

  lemma {:induction false} LinesConsecutive(last: map<int, int>, d: set<(int, int)>, id: int, n: int)
    requires forall s :: id <= s <= n ==> s in last
    ensures Consecutive(Lines(last, d, id, n))
    decreases n + 1 - id
  {
    if id <= n {
      LinesConsecutive(last, d, id + 1, n);
      LinesEntries(last, d, id + 1, n);
      assert LinesWithin(last, d, id + 1, n, Lines(last, d, id + 1, n));
      var run := Run(id, last[id], Advance(d, id, last[id]));
      var rest := Lines(last, d, id + 1, n);
      var l := run + rest;
      assert l == Lines(last, d, id, n);
      assert forall k :: 0 <= k < |run| ==> l[k] == run[k];
      assert forall k :: |run| <= k < |l| ==> l[k] == rest[k - |run|];
      forall i, j | 0 <= i < j < |l| && l[i].0 == l[j].0
        ensures l[j].1 == l[i].1 + (j - i)
      {
        if i >= |run| {
          assert l[i] == rest[i - |run|] && l[j] == rest[j - |run|];
        }
      }
    }
  }

  /** Every sequence number a watermark passes is logged. */
  lemma {:induction false} LinesCover(last: map<int, int>, d: set<(int, int)>, id: int, n: int)
    requires forall s :: id <= s <= n ==> s in last
    ensures forall s, q :: id <= s <= n && last[s] < q <= Advance(d, s, last[s]) ==>
      (s, q) in Lines(last, d, id, n)
    decreases n + 1 - id
  {
    if id <= n {
      LinesCover(last, d, id + 1, n);
      var run := Run(id, last[id], Advance(d, id, last[id]));
      forall q | last[id] < q <= Advance(d, id, last[id])
        ensures (id, q) in run
      {
        assert run[q - last[id] - 1] == (id, q);
      }
    }
  }

  /** Watermarks that are all at a gap produce no lines. */
  lemma {:induction false} LinesEmpty(last: map<int, int>, d: set<(int, int)>, id: int, n: int)
    requires forall s :: id <= s <= n ==> s in last && (s, last[s] + 1) !in d
    ensures Lines(last, d, id, n) == []
    decreases n + 1 - id
  {
    if id <= n {
      LinesEmpty(last, d, id + 1, n);
    }
  }

  /** A second poll over an unchanged set of present pairs delivers nothing
      and moves no watermark. */
  lemma PollIdempotent(f: FifoHost, d: set<(int, int)>, urbEmpty: bool)
    requires Valid(f)
    ensures var r := PollWith(f, d, urbEmpty);
      PollWith(r, d, urbEmpty) == r
  {
    var r := PollWith(f, d, urbEmpty);
    if !urbEmpty {
      assert forall s :: s in r.last ==> (s, r.last[s] + 1) !in d;
      LinesEmpty(r.last, d, 1, r.n);
    }
  }

  /** Watermarks never decrease. */
  lemma PollMonotone(f: FifoHost, d: set<(int, int)>, urbEmpty: bool)
    requires Valid(f)
    ensures forall s :: s in f.last ==> PollWith(f, d, urbEmpty).last[s] >= f.last[s]
  {
  }

  // --------------------------------------------------- the lookup at line 68

  /** `urbDeliveredMessages.containsKey(new Pair<>(s, q))` as written: the
      keys are messages, and a pair is never equal to a message. */
  predicate ContainsPairAsWritten(u: MessageSet, s: int, q: int) {
    exists k :: k in u && PairEquals(s, q, MessageObject(u[k]))
  }

  /** The pairs the as-written lookup finds, as a set: it can only ever find
      pairs named by a delivered message, and it finds none of them. */
  function LookupAsWritten(u: MessageSet): (d: set<(int, int)>)
    ensures forall s, q :: (s, q) in d <==> ContainsPairAsWritten(u, s, q)
    ensures d == {}
  {
    set k | k in u && ContainsPairAsWritten(u, u[k].orig as int, u[k].value as int) :: Info(u[k])
  }

  /** The tick as written. */
  function PollAsWritten(f: FifoHost, u: MessageSet): (r: FifoHost)
    requires Valid(f)
    ensures Valid(r) && r.last.Keys == f.last.Keys && f.log <= r.log
  {
    PollWith(f, LookupAsWritten(u), |u| == 0)
  }

  /** As written, the FIFO layer never delivers anything and no watermark
      moves, however many messages the URB layer has delivered. */
  lemma PollAsWrittenNeverDelivers(f: FifoHost, u: MessageSet)
    requires Valid(f)
    ensures PollAsWritten(f, u).last == f.last
    ensures PollAsWritten(f, u).log == f.log
  {
    if |u| != 0 {
      LinesEmpty(f.last, {}, 1, f.n);
    }
  }

  /** The tick with the intended lookup: a pair is present when a
      URB-delivered message has that original sender and sequence number. */
  function Poll(f: FifoHost, u: MessageSet): (r: FifoHost)
    requires Valid(f)
    ensures Valid(r) && f.log <= r.log && r.last.Keys == f.last.Keys
    ensures |u| > 0 ==> forall s :: s in f.last ==> r.last[s] == Advance(DeliveredInfo(u), s, f.last[s])
  {
    PollWith(f, DeliveredInfo(u), |u| == 0)
  }

  /** Every line the corrected poll logs names a URB-delivered message just
      above its sender's old watermark; within a sender the lines are
      consecutive; and every sequence number a watermark passes is logged. */
  lemma PollDeliversUrbDelivered(f: FifoHost, u: MessageSet)
    requires Valid(f) && |u| > 0
    ensures var r := Poll(f, u);
      var logged := r.log[|f.log|..];
      && (forall i :: 0 <= i < |logged| ==>
            && (exists k :: k in u && Info(u[k]) == logged[i])
            && logged[i].0 in f.last && f.last[logged[i].0] < logged[i].1 <= r.last[logged[i].0])
      && Consecutive(logged)
      && (forall s, q :: s in f.last && f.last[s] < q <= r.last[s] ==> (s, q) in logged)
  {
    var d := DeliveredInfo(u);
    var r := Poll(f, u);
    assert r.log[|f.log|..] == Lines(f.last, d, 1, f.n);
    LinesEntries(f.last, d, 1, f.n);
    LinesConsecutive(f.last, d, 1, f.n);
    LinesCover(f.last, d, 1, f.n);
  }
}
