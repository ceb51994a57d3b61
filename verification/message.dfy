/** The broadcast unit exchanged by all layers: its fields, its identity
    (which ignores the vector clock), the small field rewrites the hosts
    apply, and the fixed-layout big-endian wire codec. */
module Messages {
  import opened JavaInts
  import opened Outcomes
  import Decimal

  /** Type tag of a data message. */
  const DATA_MESSAGE: Int8 := 1
  /** Type tag of an acknowledgment. */
  const ACK_MESSAGE: Int8 := 2
  /** Octets that follow the clock words: type, two sender ids, four sequence octets. */
  const MESSAGE_SIZE: nat := 7
  /** Source-sender id of an ack-count key: "relayed by nobody in particular". */
  const NO_SOURCE: Int8 := 0

  /** A message: sequence number (`value`), type tag, original sender, the
      process that relayed this copy (source sender), and a vector clock. */
  datatype Message = Message(value: Int32, kind: Int8, orig: Int8, src: Int8, clock: seq<Int32>)

  /** What `equals` and `hashCode` look at: every field except the clock. */
  datatype MsgKey = MsgKey(value: Int32, kind: Int8, orig: Int8, src: Int8)

  function Key(m: Message): (k: MsgKey)
    ensures k.value == m.value && k.kind == m.kind && k.orig == m.orig && k.src == m.src
  {
    MsgKey(m.value, m.kind, m.orig, m.src)
  }

  /** `a.equals(b)` for two messages. */
  predicate Same(a: Message, b: Message) {
    Key(a) == Key(b)
  }

  /** The objects a Java collection of this program can be asked about. */
  datatype JavaObject =
    | MessageObject(msg: Message)
    | PairObject(first: int, second: int)
    | BooleanObject(flag: bool)

  /** `Message.equals(Object)`: an object of another class is never equal. */
  predicate Equals(m: Message, o: JavaObject) {
    o.MessageObject? && Same(m, o.msg)
  }

  /** `Pair.equals(Object)` for the pair `(first, second)`, with the same
      class test as `Triple.equals`: only a pair with equal components is equal. */
  predicate PairEquals(first: int, second: int, o: JavaObject) {
    o.PairObject? && o.first == first && o.second == second
  }

  /** `Objects.hash(value, dataType, originalSenderId, sourceSenderId)`:
      the polynomial hash with multiplier 31, in 32-bit arithmetic. */
  function Hash(m: Message): Int32 {
    Wrap32(31 * (31 * (31 * (31 + m.value) + m.kind) + m.orig) + m.src)
  }

  /** Equal messages hash alike, and the clock plays no part in either. */
  lemma HashRespectsEquals(a: Message, b: Message)
    requires Same(a, b)
    ensures Hash(a) == Hash(b)
    ensures Same(a, b.(clock := a.clock)) && a == b.(clock := a.clock)
  {
  }

  /** Two messages that differ only in their clocks are equal. */
  lemma EqualityIgnoresClock(m: Message, c: seq<Int32>)
    ensures Same(m, m.(clock := c))
    ensures Equals(m, MessageObject(m.(clock := c)))
    ensures m.(clock := c) != m <== c != m.clock
  {
  }

  /** `changeSourceSender(id)`: stamp the relaying process, a `(byte)` cast of `id`. */
  function ChangeSource(m: Message, id: int): (r: Message)
    ensures r.value == m.value && r.kind == m.kind && r.orig == m.orig && r.clock == m.clock
    ensures 1 <= id <= 127 ==> r.src as int == id
    ensures Same(r, m) <==> m.src == ToInt8(id)
  {
    m.(src := ToInt8(id))
  }

  /** The ack-count key of a message: its source sender cleared to NO_SOURCE. */
  function Normalise(m: Message): (r: Message)
    ensures r.src == NO_SOURCE
    ensures r == ChangeSource(m, NO_SOURCE)
  {
    ChangeSource(m, NO_SOURCE)
  }

  /** Copies relayed by different processes share one normalised key, and
      normalising is idempotent. */
  lemma NormaliseForgetsRelay(m: Message, id: int)
    ensures Normalise(ChangeSource(m, id)) == Normalise(m)
    ensures Normalise(Normalise(m)) == Normalise(m)
  {
  }

  /** `changeToDataMessage()`: an acknowledgment becomes the data message it
      acknowledges; any other message is left as it is. */
  function ChangeToData(m: Message): (r: Message)
    ensures m.kind == ACK_MESSAGE || m.kind == DATA_MESSAGE ==> r.kind == DATA_MESSAGE
    ensures m.kind != ACK_MESSAGE ==> r == m
    ensures r.(kind := m.kind) == m
  {
    if m.kind == ACK_MESSAGE then m.(kind := DATA_MESSAGE) else m
  }

  /** Flipping a data message to an acknowledgment and back gives it back, and
      the flip is idempotent. */
  lemma ChangeToDataUndoesAck(m: Message)
    requires m.kind == DATA_MESSAGE
    ensures ChangeToData(m.(kind := ACK_MESSAGE)) == m
    ensures ChangeToData(ChangeToData(m.(kind := ACK_MESSAGE))) == m
  {
  }

  /** `getMessageInfo()`: the application-level identity `(originalSender, value)`. */
  function Info(m: Message): (p: (int, int))
    ensures p.0 == m.orig as int && p.1 == m.value as int
  {
    (m.orig as int, m.value as int)
  }

  /** Messages with the same application identity differ at most in type,
      source sender and clock; relaying keeps the identity. */
  lemma InfoIgnoresRelay(m: Message, id: int)
    ensures Info(ChangeSource(m, id)) == Info(m) == Info(Normalise(m))
    ensures Info(ChangeToData(m)) == Info(m)
  {
  }

  /** `toLogString()`: the delivery line `d <originalSender> <value>`. */
  function ToLogString(m: Message): string {
    "d " + Fields(m.orig as int, m.value as int) + "\n"
  }

  /** The two numbers of a delivery line, separated by one space. */
  function Fields(a: int, b: int): string {
    Decimal.IntToString(a) + " " + Decimal.IntToString(b)
  }

  /** Reads a delivery line back into `(originalSender, value)`. */
  function ParseDeliveryLine(line: string): Option<(int, int)> {
    if |line| < 3 || line[..2] != "d " || line[|line| - 1] != '\n' then None
    else ParseFields(line[2..|line| - 1])
  }

  /** Reads `a b` into the two numbers it names. */
  function ParseFields(body: string): Option<(int, int)> {
    var i := Decimal.FirstSpace(body);
    if i == |body| then None
    else
      var a, b := body[..i], body[i + 1..];
      if Decimal.Numeral(a) && Decimal.Numeral(b)
      then Some((Decimal.ParseInt(a), Decimal.ParseInt(b)))
      else None
  }

  lemma ParseFieldsOfJoin(a: string, b: string)
    requires ' ' !in a && Decimal.Numeral(a) && Decimal.Numeral(b)
    ensures ParseFields(a + " " + b) == Some((Decimal.ParseInt(a), Decimal.ParseInt(b)))
  {
    var body := a + " " + b;
    Decimal.FirstSpaceOfJoin(a, b);
    assert body[..|a|] == a;
    assert body[|a| + 1..] == b;
  }

  lemma ParseLineOfBody(body: string)
    ensures ParseDeliveryLine("d " + body + "\n") == ParseFields(body)
  {
    var line := "d " + body + "\n";
    assert line[..2] == "d " && line[2..|line| - 1] == body;
  }

  /** The delivery line names exactly the message's application identity. */
  lemma LogStringNamesInfo(m: Message)
    ensures ParseDeliveryLine(ToLogString(m)) == Some(Info(m))
  {
    var a := Decimal.IntToString(m.orig as int);
    var b := Decimal.IntToString(m.value as int);
    Decimal.IntToStringRoundTrip(m.orig as int);
    Decimal.IntToStringRoundTrip(m.value as int);
    ParseFieldsOfJoin(a, b);
    ParseLineOfBody(Fields(m.orig as int, m.value as int));
  }

  /** Two messages have the same delivery line exactly when they have the same
      application identity. */
  lemma LogStringInjective(m: Message, n: Message)
    ensures ToLogString(m) == ToLogString(n) <==> Info(m) == Info(n)
  {
    LogStringNamesInfo(m);
    LogStringNamesInfo(n);
  }

  // ---------------------------------------------------------------- wire codec

  /** `getMessageSize(hostNumber)`: datagram length for `hostNumber` clock words. */
  function MessageSize(hostNumber: nat): nat {
    4 * hostNumber + MESSAGE_SIZE
  }

  /** `2^(24 - 8 * offset)`: shifting right by `24 - 8 * offset` bits divides by it. */
  function ShiftDivisor(offset: nat): nat
    requires offset < 4
  {
    if offset == 0 then 0x100_0000 else if offset == 1 then 0x1_0000 else if offset == 2 then 0x100 else 1
  }

  /** Octet `offset` (0 = most significant) of the big-endian encoding of
      `x`: an arithmetic right shift is floor division, and masking with 255
      is the non-negative remainder modulo 256. */
  function WordByte(x: Int32, offset: nat): Byte
    requires offset < 4
  {
    (x / ShiftDivisor(offset)) % 0x100
  }

  /** `serializeMessage`: clock words big-endian at `4i..4i+3`, then the type,
      the original sender, the source sender, and the value big-endian. */
  function Encode(m: Message): (r: seq<Byte>)
    ensures |r| == 4 * |m.clock| + 7 == MessageSize(|m.clock|)
  {
    var n := |m.clock|;
    var r := seq(4 * n + 7, j requires 0 <= j < 4 * n + 7 =>
      if j < 4 * n then WordByte(m.clock[j / 4], j % 4)
      else if j == 4 * n then ByteOfInt8(m.kind)
      else if j == 4 * n + 1 then ByteOfInt8(m.orig)
      else if j == 4 * n + 2 then ByteOfInt8(m.src)
      else WordByte(m.value, j - (4 * n + 3)));
    r
  }

  /** Where each field lands in the datagram. */
  lemma EncodeLayout(m: Message)
    ensures var r, n := Encode(m), |m.clock|;
      && (forall i, k :: 0 <= i < n && 0 <= k < 4 ==> r[4 * i + k] == WordByte(m.clock[i], k))
      && r[4 * n] == ByteOfInt8(m.kind)
      && r[4 * n + 1] == ByteOfInt8(m.orig)
      && r[4 * n + 2] == ByteOfInt8(m.src)
      && (forall k :: 0 <= k < 4 ==> r[4 * n + 3 + k] == WordByte(m.value, k))
  {
    var r, n := Encode(m), |m.clock|;
    forall i, k | 0 <= i < n && 0 <= k < 4
      ensures r[4 * i + k] == WordByte(m.clock[i], k)
    {
      assert (4 * i + k) / 4 == i && (4 * i + k) % 4 == k;
    }
  }

  /** A clock word read big-endian from four octets: each octet is read
      unsigned and shifted into its own byte lane, the lanes are disjoint, so
      or-ing them adds them; the result is the Java `int` with that bit pattern. */
  function WordAt(buf: seq<Byte>, p: nat): Int32
    requires p + 4 <= |buf|
  {
    Int32OfUnsigned(buf[p] as int * 0x100_0000 + buf[p + 1] as int * 0x1_0000 + buf[p + 2] as int * 0x100 + buf[p + 3])
  }

  /** The value field as the decoder computes it. For the top octet the
      mask is applied after the shift, because a shift binds tighter than a
      bitwise and; the shifted octet has an empty low byte, so masking it
      leaves zero and the top octet never reaches the result. The three lower
      octets are read unsigned into disjoint byte lanes and are added. */
  function SeqFieldAsWritten(buf: seq<Byte>, p: nat): (r: Int32)
    requires p + 4 <= |buf|
    ensures r == buf[p + 1] as int * 0x1_0000 + buf[p + 2] as int * 0x100 + buf[p + 3]
  {
    var first := Wrap32(Int8OfByte(buf[p]) * 0x100_0000) % 0x100;
    ShiftedByteHasEmptyLowByte(Int8OfByte(buf[p]));
    BitOrZero(buf[p + 1] as int * 0x1_0000 + buf[p + 2] as int * 0x100 + buf[p + 3]);
    BitOr(first, buf[p + 1] as int * 0x1_0000 + buf[p + 2] as int * 0x100 + buf[p + 3])
  }

  lemma ShiftedByteHasEmptyLowByte(b: Int8)
    ensures Wrap32(b * 0x100_0000) % 0x100 == 0
  {
    var z := b * 0x100_0000;
    var w := Wrap32(z);
    var k := (z + 0x8000_0000) / 0x1_0000_0000;
    assert z + 0x8000_0000 == 0x100_0000 * (b + 0x80);
    assert w == 0x100_0000 * (b + 0x80) - k * 0x1_0000_0000 - 0x8000_0000;
    assert w == 0x100 * (0x1_0000 * (b + 0x80) - k * 0x100_0000 - 0x80_0000);
  }

  /** `deserializeMessage(data, numberOfHosts)`: reads the layout `Encode`
      writes. A datagram shorter than `4 * numberOfHosts + 7` octets makes the
      source index past its end; longer ones are read from the front. */
  function Decode(buf: seq<Byte>, numberOfHosts: nat): (r: Result<Message>)
    ensures r.Err? <==> |buf| < MessageSize(numberOfHosts)
    ensures r.Ok? ==> |r.value.clock| == numberOfHosts
    ensures r.Ok? ==> forall i :: 0 <= i < numberOfHosts ==> r.value.clock[i] == WordAt(buf, 4 * i)
    ensures r.Ok? ==> r.value.kind == Int8OfByte(buf[4 * numberOfHosts])
    ensures r.Ok? ==> r.value.orig == Int8OfByte(buf[4 * numberOfHosts + 1])
    ensures r.Ok? ==> r.value.src == Int8OfByte(buf[4 * numberOfHosts + 2])
    ensures r.Ok? ==> 0 <= r.value.value < 0x100_0000
  {
    var n := numberOfHosts;
    if |buf| < 4 * n + 7 then Err(BufferTooShort(|buf|, 4 * n + 7))
    else
      var clock := seq(n, i requires 0 <= i < n => WordAt(buf, 4 * i));
      Ok(Message(SeqFieldAsWritten(buf, 4 * n + 3), Int8OfByte(buf[4 * n]),
                 Int8OfByte(buf[4 * n + 1]), Int8OfByte(buf[4 * n + 2]), clock))
  }

  /** Dividing by 256 twice is dividing by 65536, with the remainders combined. */
  lemma DivideTwice(u: int)
    requires 0 <= u
    ensures (u / 0x100) / 0x100 == u / 0x1_0000
    ensures (u / 0x100) % 0x100 * 0x100 + u % 0x100 == u % 0x1_0000
  {
    var q, r := u / 0x100, u % 0x100;
    var q2, r2 := q / 0x100, q % 0x100;
    assert u == q2 * 0x1_0000 + (r2 * 0x100 + r);
    assert 0 <= r2 * 0x100 + r < 0x1_0000;
  }

  /** Base-256 digits of a 32-bit pattern. */
  lemma Digits(u: int)
    requires 0 <= u < 0x1_0000_0000
    ensures (u / 0x100_0000) % 0x100 * 0x100_0000 + (u / 0x1_0000) % 0x100 * 0x1_0000
            + (u / 0x100) % 0x100 * 0x100 + u % 0x100 == u
    ensures (u / 0x1_0000) % 0x100 * 0x1_0000 + (u / 0x100) % 0x100 * 0x100 + u % 0x100 == u % 0x100_0000
  {
    var u1 := u / 0x100;
    var u2 := u1 / 0x100;
    var u3 := u2 / 0x100;
    DivideTwice(u);
    DivideTwice(u1);
    assert u2 == u / 0x1_0000;
    assert u3 == u1 / 0x1_0000;
    var lo := u % 0x100_0000;
    assert u == u1 * 0x100 + u % 0x100;
    assert u1 == u2 * 0x100 + u1 % 0x100;
    assert u2 == u3 * 0x100 + u2 % 0x100;
    assert u3 < 0x100 && u3 == u / 0x100_0000;
    assert u == u3 * 0x100_0000 + (u2 % 0x100 * 0x1_0000 + u1 % 0x100 * 0x100 + u % 0x100);
    assert 0 <= u2 % 0x100 * 0x1_0000 + u1 % 0x100 * 0x100 + u % 0x100 < 0x100_0000;
  }

  /** The digits are unique: four octets are the digits of the word they form. */
  lemma DigitsUnique(b0: Byte, b1: Byte, b2: Byte, b3: Byte)
    ensures var u := b0 as int * 0x100_0000 + b1 as int * 0x1_0000 + b2 as int * 0x100 + b3;
      0 <= u < 0x1_0000_0000
      && (u / 0x100_0000) % 0x100 == b0 && (u / 0x1_0000) % 0x100 == b1
      && (u / 0x100) % 0x100 == b2 && u % 0x100 == b3
  {
    var u := b0 as int * 0x100_0000 + b1 as int * 0x1_0000 + b2 as int * 0x100 + b3;
    assert u / 0x100_0000 == b0;
    assert u / 0x1_0000 == b0 * 0x100 + b1;
    assert u / 0x100 == b0 * 0x1_0000 + b1 * 0x100 + b2;
  }

  /** A negative `int` has the same octets as its unsigned reading. */
  lemma WordByteUnsigned(x: Int32, offset: nat)
    requires offset < 4
    ensures WordByte(x, offset) == (Unsigned32(x) / ShiftDivisor(offset)) % 0x100
  {
    var d := ShiftDivisor(offset);
    var m := 0x1_0000_0000 / d;
    assert m * d == 0x1_0000_0000;
    if x < 0 {
      var u := x + 0x1_0000_0000;
      assert u == x + m * d;
      assert u / d == x / d + m;
      assert m == (m / 0x100) * 0x100;
    }
  }

  /** A clock word survives encoding and decoding exactly. */
  lemma WordRoundTrip(x: Int32)
    ensures var u := Unsigned32(x);
      WordByte(x, 0) * 0x100_0000 + WordByte(x, 1) * 0x1_0000 + WordByte(x, 2) * 0x100 + WordByte(x, 3) == u
      && WordByte(x, 1) * 0x1_0000 + WordByte(x, 2) * 0x100 + WordByte(x, 3) == u % 0x100_0000
  {
    var u := Unsigned32(x);
    WordByteUnsigned(x, 0);
    WordByteUnsigned(x, 1);
    WordByteUnsigned(x, 2);
    WordByteUnsigned(x, 3);
    assert WordByte(x, 0) == (u / 0x100_0000) % 0x100 && WordByte(x, 1) == (u / 0x1_0000) % 0x100;
    assert WordByte(x, 2) == (u / 0x100) % 0x100 && WordByte(x, 3) == u % 0x100;
    Digits(u);
  }

  /** Encoding a decoded word gives back the octets it was read from. */
  lemma WordAtBytes(buf: seq<Byte>, p: nat, k: nat)
    requires p + 4 <= |buf| && k < 4
    ensures WordByte(WordAt(buf, p), k) == buf[p + k]
  {
    DigitsUnique(buf[p], buf[p + 1], buf[p + 2], buf[p + 3]);
    WordByteUnsigned(WordAt(buf, p), k);
  }

  /** Encoding a decoded value gives back its low three octets and a zero top octet. */
  lemma SeqFieldBytes(buf: seq<Byte>, p: nat, k: nat)
    requires p + 4 <= |buf| && k < 4
    ensures WordByte(SeqFieldAsWritten(buf, p), k) == if k == 0 then 0 else buf[p + k]
  {
    DigitsUnique(0, buf[p + 1], buf[p + 2], buf[p + 3]);
    WordByteUnsigned(SeqFieldAsWritten(buf, p), k);
  }

  /** The four octets of clock word `i` in an encoded message. */
  lemma EncodedClockOctets(m: Message, i: nat)
    requires i < |m.clock|
    ensures var e := Encode(m);
      e[4 * i] == WordByte(m.clock[i], 0) && e[4 * i + 1] == WordByte(m.clock[i], 1)
      && e[4 * i + 2] == WordByte(m.clock[i], 2) && e[4 * i + 3] == WordByte(m.clock[i], 3)
  {
    assert (4 * i) / 4 == i && (4 * i + 1) / 4 == i && (4 * i + 2) / 4 == i && (4 * i + 3) / 4 == i;
  }

  /** Clock word `i` survives encoding and decoding exactly. */
  lemma ClockWordRoundTrip(m: Message, i: nat)
    requires i < |m.clock|
    ensures WordAt(Encode(m), 4 * i) == m.clock[i]
  {
    EncodedClockOctets(m, i);
    WordRoundTrip(m.clock[i]);
  }

  /** The value field of an encoded message decodes to its low 24 bits. */
  lemma SeqFieldRoundTrip(m: Message)
    ensures SeqFieldAsWritten(Encode(m), 4 * |m.clock| + 3) == Unsigned32(m.value) % 0x100_0000
  {
    var n := |m.clock|;
    var e := Encode(m);
    assert e[4 * n + 4] == WordByte(m.value, 1);
    assert e[4 * n + 5] == WordByte(m.value, 2);
    assert e[4 * n + 6] == WordByte(m.value, 3);
    WordRoundTrip(m.value);
  }

  /** What decoding an encoded message gives: every field as it was, except
      that the value keeps only its low 24 bits. */
  lemma DecodeEncode(m: Message)
    ensures Decode(Encode(m), |m.clock|) == Ok(m.(value := Unsigned32(m.value) % 0x100_0000))
  {
    var n := |m.clock|;
    var e := Encode(m);
    var d := Decode(e, n).value;
    forall i | 0 <= i < n
      ensures d.clock[i] == m.clock[i]
    {
      ClockWordRoundTrip(m, i);
    }
    assert d.clock == m.clock;
    SeqFieldRoundTrip(m);
    Int8RoundTrip(m.kind);
    Int8RoundTrip(m.orig);
    Int8RoundTrip(m.src);
  }

  /** The codec is an exact round trip precisely for values below 2^24. */
  lemma RoundTripExactIff(m: Message)
    ensures Decode(Encode(m), |m.clock|) == Ok(m) <==> 0 <= m.value < 0x100_0000
  {
    DecodeEncode(m);
    if Decode(Encode(m), |m.clock|) == Ok(m) {
      assert m.value == Unsigned32(m.value) % 0x100_0000;
    }
  }

  /** Octet `j` of a re-encoded datagram. */
  lemma ReencodedOctet(buf: seq<Byte>, n: nat, j: nat)
    requires |buf| >= MessageSize(n) && j < 4 * n + 7
    ensures Encode(Decode(buf, n).value)[j] == if j == 4 * n + 3 then 0 else buf[j]
  {
    var m := Decode(buf, n).value;
    var e := Encode(m);
    if j < 4 * n {
      var i, k := j / 4, j % 4;
      assert j == 4 * i + k;
      assert e[j] == WordByte(m.clock[i], k);
      WordAtBytes(buf, 4 * i, k);
    } else if j < 4 * n + 3 {
      assert ByteOfInt8(Int8OfByte(buf[j])) == buf[j];
    } else {
      SeqFieldBytes(buf, 4 * n + 3, j - (4 * n + 3));
    }
  }

  /** Re-encoding a decoded datagram gives back its first `4N + 7` octets, with
      the top octet of the value cleared. */
  lemma EncodeDecode(buf: seq<Byte>, n: nat)
    requires |buf| >= MessageSize(n)
    ensures Encode(Decode(buf, n).value) == buf[..4 * n + 3] + [0] + buf[4 * n + 4..4 * n + 7]
  {
    var e := Encode(Decode(buf, n).value);
    var want := buf[..4 * n + 3] + [0] + buf[4 * n + 4..4 * n + 7];
    forall j | 0 <= j < |e|
      ensures e[j] == want[j]
    {
      ReencodedOctet(buf, n, j);
    }
  }
}
