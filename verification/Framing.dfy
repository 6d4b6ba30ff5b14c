/** The wire format of GenericPbCodec: size | tag | payload | checksum, and what a receiver makes of a byte stream.

    A payload is an opaque byte sequence; `accepts` is the protobuf parser's verdict on it. The results here hold
    for every checksum function; PbCodec uses XXH32. */
module Framing {
  import opened Bytes
  import opened Sequences

  const SIZE_LENGTH := 4
  const CHECKSUM_LENGTH := 4
  const MIN_MESSAGE := SIZE_LENGTH + CHECKSUM_LENGTH
  const MAX_MESSAGE := 0x400_0000

  datatype ErrorCode = NoError | ParseError | InvalidLength | InvalidMessage | InvalidChecksum

  datatype Codec = Codec(tag: seq<byte>, checkSum: seq<byte> -> u32, accepts: seq<byte> -> bool)

  /** What the size header says of a message. */
  function SizeOf(tag: seq<byte>, payload: seq<byte>): nat
  {
    |tag| + |payload| + CHECKSUM_LENGTH
  }

  /** The part of a frame that the size header counts. */
  function Body(c: Codec, payload: seq<byte>): (b: seq<byte>)
    ensures |b| == SizeOf(c.tag, payload)
  {
    c.tag + payload + EncodeBE32(c.checkSum(c.tag + payload))
  }

  /** The bytes of one message on the wire. */
  function Frame(c: Codec, payload: seq<byte>): (f: seq<byte>)
    requires SizeOf(c.tag, payload) < WORD
    ensures |f| == SIZE_LENGTH + SizeOf(c.tag, payload)
  {
    EncodeBE32(SizeOf(c.tag, payload)) + Body(c, payload)
  }

  // ---------------------------------------------------------------- receiving, as a function of the bytes

  /** The payload inside a body that Parse was given. */
  function PayloadOf(c: Codec, body: seq<byte>): seq<byte>
    requires |body| >= |c.tag| + CHECKSUM_LENGTH
  {
    body[|c.tag|..|body| - CHECKSUM_LENGTH]
  }

  function ParseCode(c: Codec, body: seq<byte>): ErrorCode
    requires |body| >= |c.tag| + CHECKSUM_LENGTH
  {
    var n := |body| - CHECKSUM_LENGTH;
    if c.checkSum(body[..n]) != DecodeBE32(body[n..]) then InvalidChecksum
    else if body[..|c.tag|] != c.tag then InvalidMessage
    else if !c.accepts(PayloadOf(c, body)) then ParseError
    else NoError
  }

  /** What the front of the buffer is: nothing complete yet, an error, or a message of that length on the wire. */
  datatype Front = Wait | Bad(code: ErrorCode) | Message(payload: seq<byte>, length: nat)

  function FrontOf(c: Codec, bytes: seq<byte>): (f: Front)
    ensures f.Message? ==> MIN_MESSAGE <= f.length <= |bytes|
    ensures f.Bad? ==> f.code != NoError
  {
    if |bytes| < MIN_MESSAGE then Wait
    else
      var size := DecodeBE32(bytes[..SIZE_LENGTH]);
      if size < CHECKSUM_LENGTH + |c.tag| || size >= MAX_MESSAGE then Bad(InvalidLength)
      else if |bytes| < SIZE_LENGTH + size then Wait
      else
        var body := bytes[SIZE_LENGTH..SIZE_LENGTH + size];
        var code := ParseCode(c, body);
        if code != NoError then Bad(code) else Message(PayloadOf(c, body), SIZE_LENGTH + size)
  }

  /** A front whose size is right and whose body is all there is judged by its body. */
  lemma FrontOfBody(c: Codec, bytes: seq<byte>, size: nat, body: seq<byte>)
    requires |bytes| >= SIZE_LENGTH + size && CHECKSUM_LENGTH + |c.tag| <= size < MAX_MESSAGE
    requires size == DecodeBE32(bytes[..SIZE_LENGTH]) && body == bytes[SIZE_LENGTH..SIZE_LENGTH + size]
    ensures FrontOf(c, bytes) == if ParseCode(c, body) == NoError then Message(PayloadOf(c, body), SIZE_LENGTH + size)
                                 else Bad(ParseCode(c, body))
  {
  }

  /** What one entry of OnMessage delivers, leaves in the buffer and reports. */
  datatype Outcome = Outcome(delivered: seq<seq<byte>>, rest: seq<byte>, error: ErrorCode)

  /** An outcome after earlier deliveries. */
  function Then(delivered: seq<seq<byte>>, r: Outcome): Outcome
  {
    Outcome(delivered + r.delivered, r.rest, r.error)
  }

  function Drain(c: Codec, bytes: seq<byte>): Outcome
    decreases |bytes|
  {
    match FrontOf(c, bytes)
    case Wait => Outcome([], bytes, NoError)
    case Bad(code) => Outcome([], bytes, code)
    case Message(payload, length) => Then([payload], Drain(c, bytes[length..]))
  }

  /** How draining goes on from the front. */
  function Onward(c: Codec, bytes: seq<byte>, delivered: seq<seq<byte>>, front: Front): Outcome
    requires front.Message? ==> front.length <= |bytes|
  {
    match front
    case Wait => Outcome(delivered, bytes, NoError)
    case Bad(code) => Outcome(delivered, bytes, code)
    case Message(payload, length) => Then(delivered + [payload], Drain(c, bytes[length..]))
  }

  lemma DrainFront(c: Codec, bytes: seq<byte>, delivered: seq<seq<byte>>)
    ensures Then(delivered, Drain(c, bytes)) == Onward(c, bytes, delivered, FrontOf(c, bytes))
  {
    var front := FrontOf(c, bytes);
    if front.Message? {
      var r := Drain(c, bytes[front.length..]);
      assert delivered + ([front.payload] + r.delivered) == delivered + [front.payload] + r.delivered;
    } else {
      assert delivered + [] == delivered;
    }
  }

  /** An entry: too much buffered is thrown away, anything else is drained. */
  function Entry(c: Codec, bytes: seq<byte>): Outcome
  {
    if |bytes| >= MAX_MESSAGE then Outcome([], [], InvalidLength) else Drain(c, bytes)
  }

  /** Fragments arriving one after the other, until an error closes the connection. */
  function Feed(c: Codec, buffered: seq<byte>, fragments: seq<seq<byte>>): Outcome
    decreases |fragments|
  {
    if fragments == [] then Outcome([], buffered, NoError)
    else
      var r := Entry(c, buffered + fragments[0]);
      if r.error != NoError then r
      else
        var next := Feed(c, r.rest, fragments[1..]);
        Then(r.delivered, next)
  }

  // ---------------------------------------------------------------- sending

  /** Every message's size passes the receiver's test of the size header. */
  predicate Sendable(c: Codec, payloads: seq<seq<byte>>)
  {
    forall i :: 0 <= i < |payloads| ==> SizeOf(c.tag, payloads[i]) < MAX_MESSAGE
  }

  /** A stream of frames. */
  function Stream(c: Codec, payloads: seq<seq<byte>>): seq<byte>
    requires Sendable(c, payloads)
  {
    if payloads == [] then [] else Frame(c, payloads[0]) + Stream(c, payloads[1..])
  }

  /** How many frames are complete in the first n bytes of the stream. */
  function Complete(c: Codec, payloads: seq<seq<byte>>, n: int): (k: nat)
    ensures k <= |payloads|
    decreases |payloads|
  {
    if payloads == [] || n < SIZE_LENGTH + SizeOf(c.tag, payloads[0]) then 0
    else 1 + Complete(c, payloads[1..], n - SIZE_LENGTH - SizeOf(c.tag, payloads[0]))
  }

  /** How many of the first k payloads precede the first one the parser refuses. */
  function Accepted(c: Codec, payloads: seq<seq<byte>>, k: nat): (a: nat)
    requires k <= |payloads|
    ensures a <= k
    decreases k
  {
    if k == 0 || !c.accepts(payloads[0]) then 0 else 1 + Accepted(c, payloads[1..], k - 1)
  }

  // ---------------------------------------------------------------- one frame

  lemma FrameParts(c: Codec, payload: seq<byte>, rest: seq<byte>)
    requires SizeOf(c.tag, payload) < WORD
    ensures var f, size := Frame(c, payload) + rest, SizeOf(c.tag, payload);
            && f[..SIZE_LENGTH] == EncodeBE32(size)
            && f[SIZE_LENGTH..SIZE_LENGTH + size] == Body(c, payload)
            && f[SIZE_LENGTH + size..] == rest
  {
  }

  /** A body that Send built is accepted on its payload's merits alone. */
  lemma ParseOfSent(c: Codec, payload: seq<byte>)
    ensures var body := Body(c, payload);
            && PayloadOf(c, body) == payload
            && ParseCode(c, body) == if c.accepts(payload) then NoError else ParseError
  {
    var sum := c.checkSum(c.tag + payload);
    var body := c.tag + payload + EncodeBE32(sum);
    var n := |body| - CHECKSUM_LENGTH;
    assert body[..n] == c.tag + payload && body[n..] == EncodeBE32(sum);
    assert body[..|c.tag|] == c.tag && PayloadOf(c, body) == payload;
    DecodeEncodeBE32(sum);
  }

  /** A complete frame at the front is delivered, or refused by the parser, whatever follows. */
  lemma DrainFrame(c: Codec, payload: seq<byte>, rest: seq<byte>)
    requires SizeOf(c.tag, payload) < MAX_MESSAGE
    ensures var bytes := Frame(c, payload) + rest;
            Drain(c, bytes) == if c.accepts(payload)
                               then Then([payload], Drain(c, rest))
                               else Outcome([], bytes, ParseError)
  {
    FrameParts(c, payload, rest);
    DecodeEncodeBE32(SizeOf(c.tag, payload));
    ParseOfSent(c, payload);
  }

  /** A frame that is not complete yet waits. */
  lemma DrainPartial(c: Codec, payload: seq<byte>, bytes: seq<byte>)
    requires SizeOf(c.tag, payload) < MAX_MESSAGE
    requires bytes <= Frame(c, payload) && |bytes| < |Frame(c, payload)|
    ensures Drain(c, bytes) == Outcome([], bytes, NoError)
  {
    if |bytes| >= MIN_MESSAGE {
      FrameParts(c, payload, []);
      assert Frame(c, payload) + [] == Frame(c, payload);
      assert bytes[..SIZE_LENGTH] == Frame(c, payload)[..SIZE_LENGTH];
      DecodeEncodeBE32(SizeOf(c.tag, payload));
    }
  }

  /** A message whose size reaches the limit is refused as soon as its header can be read. */
  lemma OversizeRejected(c: Codec, payload: seq<byte>, bytes: seq<byte>)
    requires MAX_MESSAGE <= SizeOf(c.tag, payload) < WORD
    requires bytes <= Frame(c, payload) && MIN_MESSAGE <= |bytes|
    ensures Drain(c, bytes) == Outcome([], bytes, InvalidLength)
  {
    FrameParts(c, payload, []);
    assert Frame(c, payload) + [] == Frame(c, payload);
    assert bytes[..SIZE_LENGTH] == Frame(c, payload)[..SIZE_LENGTH];
    DecodeEncodeBE32(SizeOf(c.tag, payload));
  }

  // ---------------------------------------------------------------- streams of frames

  /** Where the frame after the first k begins. */
  function Offset(c: Codec, payloads: seq<seq<byte>>, k: nat): nat
    requires k <= |payloads|
  {
    if k == 0 then 0 else SIZE_LENGTH + SizeOf(c.tag, payloads[0]) + Offset(c, payloads[1..], k - 1)
  }

  /** The complete frames are delivered in order, up to the first payload the parser refuses, and exactly the
      rest is left. */
  ghost predicate Drained(c: Codec, payloads: seq<seq<byte>>, bytes: seq<byte>, r: Outcome)
  {
    var k := Complete(c, payloads, |bytes|);
    var a := Accepted(c, payloads, k);
    && Offset(c, payloads, a) <= |bytes|
    && r == Outcome(payloads[..a], bytes[Offset(c, payloads, a)..], if a == k then NoError else ParseError)
  }

  lemma Prefixes<T>(a: seq<T>, b: seq<T>, c: seq<T>)
    requires a <= c && b <= c && |a| <= |b|
    ensures a <= b
  {
    assert a == b[..|a|];
  }

  lemma Suffixes<T>(a: seq<T>, b: seq<T>, c: seq<T>)
    requires a <= b + c && |b| <= |a|
    ensures a == b + a[|b|..] && a[|b|..] <= c
  {
    assert a == (b + c)[..|a|];
    assert a[|b|..] == c[..|a| - |b|];
  }

  lemma DrainedPartial(c: Codec, payloads: seq<seq<byte>>, bytes: seq<byte>)
    requires payloads != [] && |bytes| < SIZE_LENGTH + SizeOf(c.tag, payloads[0])
    ensures Drained(c, payloads, bytes, Outcome([], bytes, NoError))
  {
    assert bytes[0..] == bytes && payloads[..0] == [];
  }

  lemma {:induction false} DrainedFrame(c: Codec, payloads: seq<seq<byte>>, bytes: seq<byte>, rest: seq<byte>,
                                        r: Outcome)
    requires payloads != [] && SizeOf(c.tag, payloads[0]) < WORD && bytes == Frame(c, payloads[0]) + rest
    requires Drained(c, payloads[1..], rest, r)
    ensures Drained(c, payloads, bytes, if c.accepts(payloads[0]) then Then([payloads[0]], r)
                                        else Outcome([], bytes, ParseError))
  {
    var k' := Complete(c, payloads[1..], |rest|);
    assert Complete(c, payloads, |bytes|) == 1 + k';
    if c.accepts(payloads[0]) {
      var a' := Accepted(c, payloads[1..], k');
      assert Accepted(c, payloads, 1 + k') == 1 + a';
      assert payloads[..1 + a'] == [payloads[0]] + payloads[1..][..a'];
      var at := Offset(c, payloads[1..], a');
      assert Offset(c, payloads, 1 + a') == |Frame(c, payloads[0])| + at;
      assert bytes[|Frame(c, payloads[0])| + at..] == rest[at..];
    } else {
      assert bytes[0..] == bytes && payloads[..0] == [];
    }
  }

  lemma {:induction false} DrainStream(c: Codec, payloads: seq<seq<byte>>, bytes: seq<byte>)
    requires Sendable(c, payloads) && bytes <= Stream(c, payloads)
    ensures Drained(c, payloads, bytes, Drain(c, bytes))
    decreases |payloads|
  {
    if payloads == [] {
      assert bytes == [];
    } else {
      var frame := Frame(c, payloads[0]);
      if |bytes| < |frame| {
        assert bytes <= frame by {
          Prefixes(bytes, frame, Stream(c, payloads));
        }
        DrainPartial(c, payloads[0], bytes);
        DrainedPartial(c, payloads, bytes);
      } else {
        var rest := bytes[|frame|..];
        assert bytes == frame + rest && rest <= Stream(c, payloads[1..]) by {
          Suffixes(bytes, frame, Stream(c, payloads[1..]));
        }
        DrainFrame(c, payloads[0], rest);
        DrainStream(c, payloads[1..], rest);
        DrainedFrame(c, payloads, bytes, rest, Drain(c, rest));
      }
    }
  }

  predicate AllAccepted(c: Codec, payloads: seq<seq<byte>>)
  {
    forall i :: 0 <= i < |payloads| ==> c.accepts(payloads[i])
  }

  /** The payloads accepted of the first total = k + m, when the first k are. */
  lemma {:induction false} AcceptedSplit(c: Codec, payloads: seq<seq<byte>>, k: nat, m: nat, total: nat)
    requires k + m == total <= |payloads| && Accepted(c, payloads, k) == k
    ensures Accepted(c, payloads, total) == k + Accepted(c, payloads[k..], m)
    decreases k
  {
    if k == 0 {
      assert payloads[0..] == payloads;
    } else {
      AcceptedSplit(c, payloads[1..], k - 1, m, total - 1);
      assert payloads[1..][k - 1..] == payloads[k..];
    }
  }

  /** A refusal is not undone by further payloads. */
  lemma {:induction false} AcceptedStop(c: Codec, payloads: seq<seq<byte>>, k: nat, m: nat)
    requires k <= m <= |payloads| && Accepted(c, payloads, k) < k
    ensures Accepted(c, payloads, m) == Accepted(c, payloads, k)
    decreases k
  {
    if c.accepts(payloads[0]) {
      AcceptedStop(c, payloads[1..], k - 1, m - 1);
    }
  }

  /** The stream splits after any number of frames. */
  lemma {:induction false} StreamSplit(c: Codec, payloads: seq<seq<byte>>, k: nat)
    requires Sendable(c, payloads) && k <= |payloads|
    ensures |Stream(c, payloads[..k])| == Offset(c, payloads, k)
    ensures Stream(c, payloads) == Stream(c, payloads[..k]) + Stream(c, payloads[k..])
  {
    if k == 0 {
      assert payloads[0..] == payloads;
    } else {
      var frame, tail := Frame(c, payloads[0]), payloads[1..];
      StreamSplit(c, tail, k - 1);
      assert payloads[..k][1..] == tail[..k - 1] && tail[k - 1..] == payloads[k..];
      Assoc(frame, Stream(c, tail[..k - 1]), Stream(c, payloads[k..]));
    }
  }

  /** The complete frames lie within the bytes that make them complete. */
  lemma {:induction false} OffsetComplete(c: Codec, payloads: seq<seq<byte>>, n: nat)
    ensures Offset(c, payloads, Complete(c, payloads, n)) <= n
    decreases |payloads|
  {
    if payloads != [] && n >= SIZE_LENGTH + SizeOf(c.tag, payloads[0]) {
      OffsetComplete(c, payloads[1..], n - SIZE_LENGTH - SizeOf(c.tag, payloads[0]));
    }
  }

  /** Frames that are complete stay complete when more bytes arrive. */
  lemma {:induction false} CompleteGrows(c: Codec, payloads: seq<seq<byte>>, n: int, m: int)
    requires n <= m
    ensures Complete(c, payloads, n) <= Complete(c, payloads, m)
    decreases |payloads|
  {
    if payloads != [] {
      var size := SIZE_LENGTH + SizeOf(c.tag, payloads[0]);
      CompleteGrows(c, payloads[1..], n - size, m - size);
    }
  }

  /** The frames after the k that n bytes complete: none in the n' bytes left of them, and those of m bytes in m'. */
  lemma {:induction false} CompleteRest(c: Codec, payloads: seq<seq<byte>>, k: nat, n: int, m: int, n': int, m': int)
    requires k == Complete(c, payloads, n) && n <= m
    requires n == Offset(c, payloads, k) + n' && m == Offset(c, payloads, k) + m'
    ensures Complete(c, payloads[k..], n') == 0
    ensures Complete(c, payloads, m) == k + Complete(c, payloads[k..], m')
    decreases |payloads|
  {
    if k == 0 {
      assert payloads[0..] == payloads;
    } else {
      var size := SIZE_LENGTH + SizeOf(c.tag, payloads[0]);
      CompleteRest(c, payloads[1..], k - 1, n - size, m - size, n', m');
      assert payloads[1..][k - 1..] == payloads[k..];
    }
  }

  lemma {:induction false} OffsetSplit(c: Codec, payloads: seq<seq<byte>>, k: nat, m: nat)
    requires k + m <= |payloads|
    ensures Offset(c, payloads, k + m) == Offset(c, payloads, k) + Offset(c, payloads[k..], m)
    decreases k
  {
    if k == 0 {
      assert payloads[0..] == payloads;
    } else {
      OffsetSplit(c, payloads[1..], k - 1, m);
      assert payloads[1..][k - 1..] == payloads[k..];
    }
  }

  /** At no entry, up to the first that completes a payload the parser refuses, has as much as the maximum piled up:
      what arrived so far, less the frames that were complete at the entry before. */
  predicate BelowLimit(c: Codec, payloads: seq<seq<byte>>, have: nat, fragments: seq<seq<byte>>)
    decreases |fragments|
  {
    fragments == [] ||
    var n := have + |fragments[0]|;
    var k := Complete(c, payloads, n);
    && n < MAX_MESSAGE
    && (|| Accepted(c, payloads, k) < k
        || (Offset(c, payloads, k) <= n && BelowLimit(c, payloads[k..], n - Offset(c, payloads, k), fragments[1..])))
  }

  /** The first a payloads, in order and once each; then the bytes after them, all of them unless a refusal ended it. */
  ghost predicate DeliveredUpTo(c: Codec, payloads: seq<seq<byte>>, all: seq<byte>, a: nat, refused: bool, r: Outcome)
  {
    && a + (if refused then 1 else 0) <= |payloads|
    && Offset(c, payloads, a) <= |all| && r.delivered == payloads[..a]
    && r.error == (if refused then ParseError else NoError)
    && r.rest <= all[Offset(c, payloads, a)..]
    && (if refused then |r.rest| >= SIZE_LENGTH + SizeOf(c.tag, payloads[a])
        else r.rest == all[Offset(c, payloads, a)..])
  }

  /** That for all the complete frames, up to the first whose payload the parser refuses. */
  ghost predicate Delivered(c: Codec, payloads: seq<seq<byte>>, all: seq<byte>, r: Outcome)
  {
    var k := Complete(c, payloads, |all|);
    var a := Accepted(c, payloads, k);
    DeliveredUpTo(c, payloads, all, a, a < k, r)
  }

  lemma Shorter<T>(a: seq<T>, b: seq<T>, c: seq<T>)
    requires a + b <= c
    ensures a <= c
  {
    assert (a + b)[..|a|] == a;
  }

  lemma DropAppend<T>(a: seq<T>, b: seq<T>, k: nat)
    requires k <= |a|
    ensures (a + b)[k..] == a[k..] + b
  {
  }

  lemma Takes<T>(s: seq<T>, k: nat, m: nat)
    requires k + m <= |s|
    ensures s[..k + m] == s[..k] + s[k..][..m]
  {
  }

  lemma Drops<T>(s: seq<T>, k: nat, m: nat)
    requires k + m <= |s|
    ensures s[k + m..] == s[k..][m..]
  {
  }

  lemma FlattenFirst(buffered: seq<byte>, fragments: seq<seq<byte>>)
    requires fragments != []
    ensures buffered + Flatten(fragments) == buffered + fragments[0] + Flatten(fragments[1..])
  {
  }

  lemma RestOfStream(c: Codec, payloads: seq<seq<byte>>, k: nat, all: seq<byte>, rest: seq<byte>)
    requires Sendable(c, payloads) && k <= |payloads| && all <= Stream(c, payloads)
    requires Offset(c, payloads, k) <= |all| && rest == all[Offset(c, payloads, k)..]
    ensures Sendable(c, payloads[k..]) && rest <= Stream(c, payloads[k..])
  {
    StreamSplit(c, payloads, k);
    assert Stream(c, payloads)[Offset(c, payloads, k)..] == Stream(c, payloads[k..]);
  }

  /** One entry takes the complete frames off the stream and leaves the rest of the stream to come. */
  lemma EntryOnStream(c: Codec, payloads: seq<seq<byte>>, bytes: seq<byte>, later: seq<byte>, k: nat, rest: seq<byte>)
    requires Sendable(c, payloads) && bytes + later <= Stream(c, payloads)
    requires k == Complete(c, payloads, |bytes|) && Offset(c, payloads, k) <= |bytes|
    requires rest == bytes[Offset(c, payloads, k)..]
    ensures Sendable(c, payloads[k..]) && rest + later <= Stream(c, payloads[k..])
    ensures Complete(c, payloads[k..], |rest|) == 0
    ensures Complete(c, payloads, |bytes + later|) == k + Complete(c, payloads[k..], |rest + later|)
  {
    DropAppend(bytes, later, Offset(c, payloads, k));
    RestOfStream(c, payloads, k, bytes + later, rest + later);
    CompleteRest(c, payloads, k, |bytes|, |bytes + later|, |rest|, |rest + later|);
  }

  lemma DeliveredMore(c: Codec, payloads: seq<seq<byte>>, k: nat, a: nat, total: nat, refused: bool, all: seq<byte>,
                      rest: seq<byte>, next: Outcome)
    requires total == k + a && k <= |payloads|
    requires Offset(c, payloads, k) <= |all| && rest == all[Offset(c, payloads, k)..]
    requires DeliveredUpTo(c, payloads[k..], rest, a, refused, next)
    ensures DeliveredUpTo(c, payloads, all, total, refused, Then(payloads[..k], next))
  {
    OffsetSplit(c, payloads, k, a);
    Takes(payloads, k, a);
    Drops(all, Offset(c, payloads, k), Offset(c, payloads[k..], a));
    assert refused ==> payloads[k..][a] == payloads[k + a];
  }

  /** After an entry that refused nothing, the later entries deliver the later frames. */
  lemma FeedStep(c: Codec, payloads: seq<seq<byte>>, k: nat, all: seq<byte>, rest: seq<byte>, next: Outcome)
    requires k <= |payloads| && Accepted(c, payloads, k) == k
    requires Offset(c, payloads, k) <= |all| && rest == all[Offset(c, payloads, k)..]
    requires Complete(c, payloads, |all|) == k + Complete(c, payloads[k..], |rest|)
    requires Delivered(c, payloads[k..], rest, next)
    ensures Delivered(c, payloads, all, Then(payloads[..k], next))
  {
    var m, m' := Complete(c, payloads[k..], |rest|), Complete(c, payloads, |all|);
    var a, a' := Accepted(c, payloads[k..], m), Accepted(c, payloads, m');
    AcceptedSplit(c, payloads, k, m, m');
    DeliveredMore(c, payloads, k, a, a', a' < m', all, rest, next);
  }

  /** An entry that refuses a payload is the last, and has delivered what there is to deliver. */
  lemma RefusedStep(c: Codec, payloads: seq<seq<byte>>, bytes: seq<byte>, later: seq<byte>, r: Outcome)
    requires Drained(c, payloads, bytes, r) && r.error != NoError
    ensures Delivered(c, payloads, bytes + later, r)
  {
    var k := Complete(c, payloads, |bytes|);
    var a := Accepted(c, payloads, k);
    OffsetComplete(c, payloads, |bytes|);
    CompleteGrows(c, payloads, |bytes|, |bytes + later|);
    AcceptedStop(c, payloads, k, Complete(c, payloads, |bytes + later|));
    DropAppend(bytes, later, Offset(c, payloads, a));
    OffsetSplit(c, payloads, a, k - a);
    assert payloads[a..][0] == payloads[a];
  }

  lemma FeedUnfold(c: Codec, buffered: seq<byte>, fragments: seq<seq<byte>>, r: Outcome)
    requires fragments != [] && |buffered + fragments[0]| < MAX_MESSAGE && r == Drain(c, buffered + fragments[0])
    ensures Feed(c, buffered, fragments)
         == if r.error != NoError then r else Then(r.delivered, Feed(c, r.rest, fragments[1..]))
  {
  }

  /** What a receiver makes of `all`, of which it had `have` bytes when the fragments began. If it is never overfull, it
      delivers the payloads of the complete frames, in order and once each, up to the first that the parser refuses,
      and keeps exactly the bytes behind them; if it is overfull at some entry, it reports that, and had delivered
      nothing but such payloads. */
  ghost predicate FedRight(c: Codec, payloads: seq<seq<byte>>, have: nat, fragments: seq<seq<byte>>,
                           all: seq<byte>, r: Outcome)
  {
    if BelowLimit(c, payloads, have, fragments) then Delivered(c, payloads, all, r)
    else r.error == InvalidLength && r.rest == [] && r.delivered <= payloads
  }

  lemma LimitOn(c: Codec, payloads: seq<seq<byte>>, have: nat, fragments: seq<seq<byte>>, k: nat, left: nat)
    requires fragments != [] && have + |fragments[0]| < MAX_MESSAGE
    requires k == Complete(c, payloads, have + |fragments[0]|) == Accepted(c, payloads, k)
    requires have + |fragments[0]| == Offset(c, payloads, k) + left
    ensures BelowLimit(c, payloads, have, fragments) == BelowLimit(c, payloads[k..], left, fragments[1..])
  {
    assert left == have + |fragments[0]| - Offset(c, payloads, k);
  }

  /** An entry that refused nothing, and what the later ones do. */
  lemma FeedOn(c: Codec, payloads: seq<seq<byte>>, have: nat, fragments: seq<seq<byte>>, bytes: seq<byte>,
               later: seq<byte>, k: nat, r: Outcome, next: Outcome)
    requires fragments != [] && |bytes| == have + |fragments[0]| < MAX_MESSAGE
    requires k == Complete(c, payloads, |bytes|) == Accepted(c, payloads, k) && Offset(c, payloads, k) <= |bytes|
    requires r == Outcome(payloads[..k], bytes[Offset(c, payloads, k)..], NoError)
    requires Complete(c, payloads, |bytes + later|) == k + Complete(c, payloads[k..], |r.rest + later|)
    requires FedRight(c, payloads[k..], |r.rest|, fragments[1..], r.rest + later, next)
    ensures FedRight(c, payloads, have, fragments, bytes + later, Then(r.delivered, next))
  {
    LimitOn(c, payloads, have, fragments, k, |r.rest|);
    if BelowLimit(c, payloads[k..], |r.rest|, fragments[1..]) {
      DropAppend(bytes, later, Offset(c, payloads, k));
      FeedStep(c, payloads, k, bytes + later, r.rest + later, next);
    } else {
      Takes(payloads, k, |next.delivered|);
    }
  }

  /** An entry that refused a payload. */
  lemma FeedRefused(c: Codec, payloads: seq<seq<byte>>, have: nat, fragments: seq<seq<byte>>, bytes: seq<byte>,
                    later: seq<byte>, r: Outcome)
    requires fragments != [] && |bytes| == have + |fragments[0]| < MAX_MESSAGE
    requires Drained(c, payloads, bytes, r) && r.error != NoError
    ensures FedRight(c, payloads, have, fragments, bytes + later, r)
  {
    RefusedStep(c, payloads, bytes, later, r);
    assert BelowLimit(c, payloads, have, fragments);
  }

  lemma NothingFed(c: Codec, payloads: seq<seq<byte>>, buffered: seq<byte>)
    requires Complete(c, payloads, |buffered|) == 0
    ensures FedRight(c, payloads, |buffered|, [], buffered, Outcome([], buffered, NoError))
  {
    assert buffered[0..] == buffered && payloads[..0] == [];
  }

  /** However a stream of frames is cut into fragments. */
  lemma {:induction false} FeedStream(c: Codec, payloads: seq<seq<byte>>, buffered: seq<byte>,
                                      fragments: seq<seq<byte>>)
    requires Sendable(c, payloads) && buffered + Flatten(fragments) <= Stream(c, payloads)
    requires Complete(c, payloads, |buffered|) == 0
    ensures FedRight(c, payloads, |buffered|, fragments, buffered + Flatten(fragments), Feed(c, buffered, fragments))
    decreases |fragments|
  {
    if fragments == [] {
      assert buffered + Flatten(fragments) == buffered;
      NothingFed(c, payloads, buffered);
    } else if |buffered + fragments[0]| >= MAX_MESSAGE {
      assert Feed(c, buffered, fragments) == Outcome([], [], InvalidLength);
    } else {
      var bytes, later := buffered + fragments[0], Flatten(fragments[1..]);
      FlattenFirst(buffered, fragments);
      Shorter(bytes, later, Stream(c, payloads));
      DrainStream(c, payloads, bytes);
      var r, k := Drain(c, bytes), Complete(c, payloads, |bytes|);
      FeedUnfold(c, buffered, fragments, r);
      if r.error != NoError {
        FeedRefused(c, payloads, |buffered|, fragments, bytes, later, r);
      } else {
        EntryOnStream(c, payloads, bytes, later, k, r.rest);
        FeedStream(c, payloads[k..], r.rest, fragments[1..]);
        FeedOn(c, payloads, |buffered|, fragments, bytes, later, k, r, Feed(c, r.rest, fragments[1..]));
      }
    }
  }

  // ---------------------------------------------------------------- nothing but frames is delivered

  /** A delivery takes a header and a body that parses. */
  lemma FrontBody(c: Codec, bytes: seq<byte>) returns (body: seq<byte>)
    requires FrontOf(c, bytes).Message?
    ensures CHECKSUM_LENGTH + |c.tag| <= |body| < MAX_MESSAGE && ParseCode(c, body) == NoError
    ensures |bytes| >= SIZE_LENGTH + |body| && bytes[..SIZE_LENGTH] == EncodeBE32(|body|)
    ensures body == bytes[SIZE_LENGTH..SIZE_LENGTH + |body|]
    ensures FrontOf(c, bytes) == Message(PayloadOf(c, body), SIZE_LENGTH + |body|)
  {
    var header := bytes[..SIZE_LENGTH];
    EncodeDecodeBE32(header);
    var size := DecodeBE32(header);
    body := bytes[SIZE_LENGTH..SIZE_LENGTH + size];
  }

  /** What was consumed is the stream of what was delivered. */
  ghost predicate Sound(c: Codec, bytes: seq<byte>, r: Outcome)
  {
    Sendable(c, r.delivered) && AllAccepted(c, r.delivered) && bytes == Stream(c, r.delivered) + r.rest
  }

  lemma SoundFrame(c: Codec, bytes: seq<byte>, payload: seq<byte>, body: seq<byte>, r: Outcome)
    requires c.accepts(payload) && body == Body(c, payload) && |body| < MAX_MESSAGE
    requires |bytes| >= SIZE_LENGTH + |body| && bytes[SIZE_LENGTH..SIZE_LENGTH + |body|] == body
    requires bytes[..SIZE_LENGTH] == EncodeBE32(|body|)
    requires Sound(c, bytes[SIZE_LENGTH + |body|..], r)
    ensures Sound(c, bytes, Then([payload], r))
  {
    var delivered := [payload] + r.delivered;
    assert delivered[1..] == r.delivered;
    var frame := Frame(c, payload);
    assert frame == bytes[..SIZE_LENGTH + |body|];
    assert bytes == frame + bytes[SIZE_LENGTH + |body|..];
    assert frame + (Stream(c, r.delivered) + r.rest) == (frame + Stream(c, r.delivered)) + r.rest;
    assert Stream(c, delivered) == frame + Stream(c, r.delivered);
  }

  /** The only body that parses is the one Send builds for its payload. */
  lemma BodyIsSent(c: Codec, body: seq<byte>)
    requires |body| >= |c.tag| + CHECKSUM_LENGTH && ParseCode(c, body) == NoError
    ensures var payload := PayloadOf(c, body);
            c.accepts(payload) && body == Body(c, payload)
  {
    var n := |body| - CHECKSUM_LENGTH;
    EncodeDecodeBE32(body[n..]);
    assert body[..n] == c.tag + PayloadOf(c, body);
  }

  lemma SoundFront(c: Codec, bytes: seq<byte>, payload: seq<byte>, length: nat, r: Outcome)
    requires FrontOf(c, bytes) == Message(payload, length) && Sound(c, bytes[length..], r)
    ensures Sound(c, bytes, Then([payload], r))
  {
    var body := FrontBody(c, bytes);
    BodyIsSent(c, body);
    SoundFrame(c, bytes, payload, body, r);
  }

  /** Whatever bytes arrive, from whatever sender: what was consumed is exactly the stream of the delivered
      payloads, each of them accepted. */
  lemma {:induction false} DrainSound(c: Codec, bytes: seq<byte>)
    ensures Sound(c, bytes, Drain(c, bytes))
    decreases |bytes|
  {
    match FrontOf(c, bytes)
    case Message(payload, length) =>
      DrainSound(c, bytes[length..]);
      SoundFront(c, bytes, payload, length, Drain(c, bytes[length..]));
    case _ =>
      assert bytes == [] + bytes;
  }

  // ---------------------------------------------------------------- the verdict on what is left

  /** A size header of n can be read. */
  predicate Headed(bytes: seq<byte>, n: u32)
  {
    MIN_MESSAGE <= |bytes| && bytes[..SIZE_LENGTH] == EncodeBE32(n)
  }

  /** Room for tag and checksum, and below the maximum. */
  predicate Proper(c: Codec, n: nat)
  {
    |c.tag| + CHECKSUM_LENGTH <= n < MAX_MESSAGE
  }

  /** The bytes begin with a header of proper size, that content and that checksum. */
  predicate Whole(c: Codec, bytes: seq<byte>, content: seq<byte>, sum: u32)
  {
    var n := |content| + CHECKSUM_LENGTH;
    Proper(c, n) && EncodeBE32(n) + content + EncodeBE32(sum) <= bytes
  }

  /** What an outcome says of the bytes it leaves, in terms of the encoding alone. */
  ghost predicate Verdict(c: Codec, rest: seq<byte>, e: ErrorCode)
  {
    match e
    case NoError =>
      |rest| < MIN_MESSAGE || exists n: u32 :: Headed(rest, n) && Proper(c, n) && |rest| < SIZE_LENGTH + n
    case InvalidLength => exists n: u32 :: Headed(rest, n) && !Proper(c, n)
    case InvalidChecksum => exists content, sum: u32 :: Whole(c, rest, content, sum) && sum != c.checkSum(content)
    case InvalidMessage => exists content :: Whole(c, rest, content, c.checkSum(content)) && !(c.tag <= content)
    case ParseError =>
      exists payload :: Whole(c, rest, c.tag + payload, c.checkSum(c.tag + payload)) && !c.accepts(payload)
  }

  lemma HeaderOf(bytes: seq<byte>, n: u32)
    requires MIN_MESSAGE <= |bytes|
    ensures Headed(bytes, n) <==> DecodeBE32(bytes[..SIZE_LENGTH]) == n
  {
    DecodeEncodeBE32(n);
    EncodeDecodeBE32(bytes[..SIZE_LENGTH]);
  }

  lemma Pieces(bytes: seq<byte>, header: seq<byte>, content: seq<byte>, sum: seq<byte>)
    requires |header| == SIZE_LENGTH && |sum| == CHECKSUM_LENGTH && header + content + sum <= bytes
    ensures var n := |content| + CHECKSUM_LENGTH;
            var body := bytes[SIZE_LENGTH..SIZE_LENGTH + n];
            bytes[..SIZE_LENGTH] == header && body[..|content|] == content && body[|content|..] == sum
  {
    var frame := header + content + sum;
    assert frame[..SIZE_LENGTH] == header && frame[SIZE_LENGTH..] == content + sum;
    assert bytes[..|frame|] == frame;
    assert bytes[SIZE_LENGTH..|frame|] == bytes[..|frame|][SIZE_LENGTH..];
    assert bytes[..SIZE_LENGTH] == bytes[..|frame|][..SIZE_LENGTH];
  }

  /** A whole body is judged by checksum, tag and payload, in that order. */
  lemma FrontOfWhole(c: Codec, bytes: seq<byte>, content: seq<byte>, sum: u32)
    requires Whole(c, bytes, content, sum)
    ensures FrontOf(c, bytes) ==
            if sum != c.checkSum(content) then Bad(InvalidChecksum)
            else if !(c.tag <= content) then Bad(InvalidMessage)
            else if !c.accepts(content[|c.tag|..]) then Bad(ParseError)
            else Message(content[|c.tag|..], SIZE_LENGTH + |content| + CHECKSUM_LENGTH)
  {
    var n := |content| + CHECKSUM_LENGTH;
    var body := bytes[SIZE_LENGTH..SIZE_LENGTH + n];
    Pieces(bytes, EncodeBE32(n), content, EncodeBE32(sum));
    DecodeEncodeBE32(n);
    DecodeEncodeBE32(sum);
    FrontOfBody(c, bytes, n, body);
    assert body[..|c.tag|] == content[..|c.tag|] && PayloadOf(c, body) == content[|c.tag|..];
  }

  lemma Joined(s: seq<byte>, i: nat, m: nat, n: nat)
    requires m <= n && i + n <= |s|
    ensures var body := s[i..i + n];
            s[..i] + body[..m] + body[m..] <= s
  {
    var body := s[i..i + n];
    assert body[..m] + body[m..] == body;
    Assoc(s[..i], body[..m], body[m..]);
    assert s[..i] + body == s[..i + n];
  }

  /** Every whole body has a content and a checksum. */
  lemma WholeParts(c: Codec, bytes: seq<byte>, n: u32) returns (content: seq<byte>, sum: u32)
    requires Headed(bytes, n) && Proper(c, n) && SIZE_LENGTH + n <= |bytes|
    ensures Whole(c, bytes, content, sum) && |content| + CHECKSUM_LENGTH == n
  {
    var body := bytes[SIZE_LENGTH..SIZE_LENGTH + n];
    var tail := body[n - CHECKSUM_LENGTH..];
    content, sum := body[..n - CHECKSUM_LENGTH], DecodeBE32(tail);
    EncodeDecodeBE32(tail);
    Joined(bytes, SIZE_LENGTH, n - CHECKSUM_LENGTH, n);
  }

  /** A front that waits or is bad has its verdict. */
  lemma FrontExplained(c: Codec, bytes: seq<byte>)
    ensures FrontOf(c, bytes) == Wait ==> Verdict(c, bytes, NoError)
    ensures FrontOf(c, bytes).Bad? ==> Verdict(c, bytes, FrontOf(c, bytes).code)
  {
    if |bytes| >= MIN_MESSAGE {
      var n := DecodeBE32(bytes[..SIZE_LENGTH]);
      HeaderOf(bytes, n);
      if Proper(c, n) && SIZE_LENGTH + n <= |bytes| {
        var content, sum := WholeParts(c, bytes, n);
        FrontOfWhole(c, bytes, content, sum);
        if c.tag <= content {
          assert content == c.tag + content[|c.tag|..];
        }
      }
    }
  }

  /** And a verdict says what the front is. */
  lemma VerdictDecides(c: Codec, bytes: seq<byte>, e: ErrorCode)
    requires Verdict(c, bytes, e)
    ensures FrontOf(c, bytes) == if e == NoError then Wait else Bad(e)
  {
    match e
    case NoError =>
      if |bytes| >= MIN_MESSAGE {
        var n: u32 :| Headed(bytes, n) && Proper(c, n) && |bytes| < SIZE_LENGTH + n;
        HeaderOf(bytes, n);
      }
    case InvalidLength =>
      var n: u32 :| Headed(bytes, n) && !Proper(c, n);
      HeaderOf(bytes, n);
    case InvalidChecksum =>
      var content, sum: u32 :| Whole(c, bytes, content, sum) && sum != c.checkSum(content);
      FrontOfWhole(c, bytes, content, sum);
    case InvalidMessage =>
      var content :| Whole(c, bytes, content, c.checkSum(content)) && !(c.tag <= content);
      FrontOfWhole(c, bytes, content, c.checkSum(content));
    case ParseError =>
      var payload :| Whole(c, bytes, c.tag + payload, c.checkSum(c.tag + payload)) && !c.accepts(payload);
      FrontOfWhole(c, bytes, c.tag + payload, c.checkSum(c.tag + payload));
      assert (c.tag + payload)[|c.tag|..] == payload;
  }

  lemma {:induction false} FrontOfRest(c: Codec, bytes: seq<byte>)
    ensures var r := Drain(c, bytes);
            FrontOf(c, r.rest) == if r.error == NoError then Wait else Bad(r.error)
    decreases |bytes|
  {
    match FrontOf(c, bytes)
    case Message(payload, length) => FrontOfRest(c, bytes[length..]);
    case _ =>
  }

  /** For arbitrary bytes, each code is reported exactly if the bytes that are left call for it. */
  lemma DrainVerdict(c: Codec, bytes: seq<byte>, e: ErrorCode)
    ensures Drain(c, bytes).error == e <==> Verdict(c, Drain(c, bytes).rest, e)
  {
    FrontOfRest(c, bytes);
    FrontExplained(c, Drain(c, bytes).rest);
    if Verdict(c, Drain(c, bytes).rest, e) {
      VerdictDecides(c, Drain(c, bytes).rest, e);
    }
  }

  /** Behind the first frame, an outcome is one of the bytes that follow. */
  lemma SoundRest(c: Codec, bytes: seq<byte>, r: Outcome, next: Outcome, rest: seq<byte>)
    requires Sound(c, bytes, r) && r.delivered != [] && next == r.(delivered := r.delivered[1..])
    requires rest == Stream(c, next.delivered) + r.rest
    ensures Sound(c, rest, next) && bytes == Frame(c, r.delivered[0]) + rest && c.accepts(r.delivered[0])
  {
    Assoc(Frame(c, r.delivered[0]), Stream(c, next.delivered), r.rest);
  }

  lemma {:induction false} OutcomeIsDrain(c: Codec, bytes: seq<byte>, r: Outcome)
    requires Sound(c, bytes, r) && FrontOf(c, r.rest) == if r.error == NoError then Wait else Bad(r.error)
    ensures r == Drain(c, bytes)
    decreases |r.delivered|
  {
    if r.delivered == [] {
      assert bytes == r.rest;
    } else {
      var next := r.(delivered := r.delivered[1..]);
      var rest := Stream(c, next.delivered) + r.rest;
      SoundRest(c, bytes, r, next, rest);
      DrainFrame(c, r.delivered[0], rest);
      OutcomeIsDrain(c, rest, next);
      assert r.delivered == [r.delivered[0]] + next.delivered;
    }
  }

  /** Whole frames of accepted payloads, and a verdict on what follows them, are the outcome: no other is possible. */
  lemma DrainUnique(c: Codec, bytes: seq<byte>, r: Outcome)
    ensures Sound(c, bytes, r) && Verdict(c, r.rest, r.error) <==> r == Drain(c, bytes)
  {
    DrainSound(c, bytes);
    DrainVerdict(c, bytes, Drain(c, bytes).error);
    if Sound(c, bytes, r) && Verdict(c, r.rest, r.error) {
      VerdictDecides(c, r.rest, r.error);
      OutcomeIsDrain(c, bytes, r);
    }
  }

  // ---------------------------------------------------------------- arbitrary bytes, however they are cut

  lemma SliceBefore<T>(a: seq<T>, b: seq<T>, i: nat, j: nat)
    requires i <= j <= |a|
    ensures (a + b)[i..j] == a[i..j]
  {
  }

  lemma {:induction false} DrainShrinks(c: Codec, bytes: seq<byte>)
    ensures |Drain(c, bytes).rest| <= |bytes|
    decreases |bytes|
  {
    match FrontOf(c, bytes)
    case Message(_, length) => DrainShrinks(c, bytes[length..]);
    case _ =>
  }

  /** What was decided of the front stays so, whatever arrives. */
  lemma FrontStays(c: Codec, bytes: seq<byte>, later: seq<byte>)
    requires FrontOf(c, bytes) != Wait
    ensures FrontOf(c, bytes + later) == FrontOf(c, bytes)
  {
    SliceBefore(bytes, later, 0, SIZE_LENGTH);
    var n := DecodeBE32(bytes[..SIZE_LENGTH]);
    if Proper(c, n) {
      SliceBefore(bytes, later, SIZE_LENGTH, SIZE_LENGTH + n);
      FrontOfBody(c, bytes, n, bytes[SIZE_LENGTH..SIZE_LENGTH + n]);
      FrontOfBody(c, bytes + later, n, bytes[SIZE_LENGTH..SIZE_LENGTH + n]);
    }
  }

  /** Draining first and draining again behind what arrives later is draining it all at once. */
  function Resumed(c: Codec, r: Outcome, later: seq<byte>): Outcome
  {
    if r.error == NoError then Then(r.delivered, Drain(c, r.rest + later))
    else r.(rest := r.rest + later)
  }

  lemma {:induction false} DrainResumes(c: Codec, bytes: seq<byte>, later: seq<byte>)
    ensures Drain(c, bytes + later) == Resumed(c, Drain(c, bytes), later)
    decreases |bytes|
  {
    match FrontOf(c, bytes)
    case Wait =>
      assert [] + Drain(c, bytes + later).delivered == Drain(c, bytes + later).delivered;
    case Bad(_) => FrontStays(c, bytes, later);
    case Message(payload, length) =>
      FrontStays(c, bytes, later);
      DropAppend(bytes, later, length);
      DrainResumes(c, bytes[length..], later);
      var r := Drain(c, bytes[length..]);
      if r.error == NoError {
        Assoc([payload], r.delivered, Drain(c, r.rest + later).delivered);
      }
  }

  /** Whatever bytes arrive, below the maximum in all: the cuts between them change neither what is delivered nor the
      error, and without an error not the rest either. */
  lemma {:induction false} AnyCut(c: Codec, buffered: seq<byte>, fragments: seq<seq<byte>>)
    requires Drain(c, buffered) == Outcome([], buffered, NoError)
    requires |buffered + Flatten(fragments)| < MAX_MESSAGE
    ensures var fed, all := Feed(c, buffered, fragments), Drain(c, buffered + Flatten(fragments));
            && fed.delivered == all.delivered && fed.error == all.error && fed.rest <= all.rest
            && (fed.error == NoError ==> fed.rest == all.rest)
    decreases |fragments|
  {
    if fragments == [] {
      assert buffered + Flatten(fragments) == buffered;
    } else {
      var bytes, later := buffered + fragments[0], Flatten(fragments[1..]);
      FlattenFirst(buffered, fragments);
      DrainResumes(c, bytes, later);
      var r := Drain(c, bytes);
      if r.error == NoError {
        FrontOfRest(c, bytes);
        DrainShrinks(c, bytes);
        AnyCut(c, r.rest, fragments[1..]);
      }
    }
  }

  // ---------------------------------------------------------------- what can be delivered at all

  lemma {:induction false} FrameInStream(c: Codec, payloads: seq<seq<byte>>, i: nat)
    requires Sendable(c, payloads) && i < |payloads|
    ensures SIZE_LENGTH + SizeOf(c.tag, payloads[i]) <= |Stream(c, payloads)|
    decreases i
  {
    if i > 0 {
      FrameInStream(c, payloads[1..], i - 1);
    }
  }

  /** Payloads that the parser accepts, in frames that are below the maximum together with their size headers. */
  predicate AllFit(c: Codec, payloads: seq<seq<byte>>)
  {
    forall i :: 0 <= i < |payloads| ==>
      c.accepts(payloads[i]) && SIZE_LENGTH + SizeOf(c.tag, payloads[i]) < MAX_MESSAGE
  }

  lemma SoundFits(c: Codec, bytes: seq<byte>, r: Outcome)
    requires Sound(c, bytes, r) && |bytes| < MAX_MESSAGE
    ensures AllFit(c, r.delivered)
  {
    forall i | 0 <= i < |r.delivered|
      ensures SIZE_LENGTH + SizeOf(c.tag, r.delivered[i]) < MAX_MESSAGE
    {
      FrameInStream(c, r.delivered, i);
    }
  }

  lemma EntryFits(c: Codec, bytes: seq<byte>)
    ensures AllFit(c, Entry(c, bytes).delivered)
  {
    if |bytes| < MAX_MESSAGE {
      DrainSound(c, bytes);
      SoundFits(c, bytes, Drain(c, bytes));
    }
  }

  lemma AllFitConcat(c: Codec, a: seq<seq<byte>>, b: seq<seq<byte>>)
    requires AllFit(c, a) && AllFit(c, b)
    ensures AllFit(c, a + b)
  {
  }

  /** Whatever arrives, and however it is cut, nothing else is delivered. */
  lemma {:induction false} DeliveredFits(c: Codec, buffered: seq<byte>, fragments: seq<seq<byte>>)
    ensures AllFit(c, Feed(c, buffered, fragments).delivered)
    decreases |fragments|
  {
    if fragments != [] {
      EntryFits(c, buffered + fragments[0]);
      var r := Entry(c, buffered + fragments[0]);
      if r.error == NoError {
        var next := Feed(c, r.rest, fragments[1..]);
        DeliveredFits(c, r.rest, fragments[1..]);
        AllFitConcat(c, r.delivered, next.delivered);
        assert Feed(c, buffered, fragments).delivered == r.delivered + next.delivered;
      }
    }
  }

  lemma WholeFrame(c: Codec, payload: seq<byte>)
    requires c.accepts(payload) && SIZE_LENGTH + SizeOf(c.tag, payload) < MAX_MESSAGE
    ensures Feed(c, [], [Frame(c, payload)]).delivered == [payload]
  {
    var frame := Frame(c, payload);
    assert frame + [] == frame && [] + frame == frame;
    DrainFrame(c, payload, []);
    FeedUnfold(c, [], [frame], Drain(c, frame));
  }

  /** So a payload is delivered, by some way of cutting its frame, if and only if the parser accepts it and its frame
      is below the maximum. The test of the size header alone lets four more sizes pass. */
  lemma Deliverable(c: Codec, payload: seq<byte>)
    requires SizeOf(c.tag, payload) < WORD
    ensures (exists fragments ::
               Flatten(fragments) == Frame(c, payload) && Feed(c, [], fragments).delivered == [payload])
       <==> c.accepts(payload) && SIZE_LENGTH + SizeOf(c.tag, payload) < MAX_MESSAGE
  {
    if c.accepts(payload) && SIZE_LENGTH + SizeOf(c.tag, payload) < MAX_MESSAGE {
      WholeFrame(c, payload);
      FlattenSingle(Frame(c, payload));
    }
    forall fragments | Feed(c, [], fragments).delivered == [payload]
      ensures c.accepts(payload) && SIZE_LENGTH + SizeOf(c.tag, payload) < MAX_MESSAGE
    {
      DeliveredFits(c, [], fragments);
      assert [payload][0] == payload;
    }
  }
}
