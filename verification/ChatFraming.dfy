/** TCP chat framing: a length-prefixed serializer and the loop that reassembles messages from whatever chunks
    arrive. */
module ChatFraming {
  newtype byte = x: int | 0 <= x < 256

  type Bytes = seq<byte>

  const HEADER_SIZE := 5
  const TWO_TO_THE_32 := 0x1_0000_0000

  datatype Message = Message(kind: byte, body: Bytes)

  datatype Header = Header(length: nat, kind: byte)

  // ---- Frames ---------------------------------------------------------------------------------------

  /** A uint32_t in network byte order. */
  function Htonl(n: nat): Bytes
    requires n < TWO_TO_THE_32
  {
    [(n / 0x100_0000) as byte, (n / 0x1_0000 % 0x100) as byte, (n / 0x100 % 0x100) as byte, (n % 0x100) as byte]
  }

  function Ntohl(b: Bytes): (n: nat)
    requires |b| == 4
    ensures n < TWO_TO_THE_32
  {
    b[0] as int * 0x100_0000 + b[1] as int * 0x1_0000 + b[2] as int * 0x100 + b[3] as int
  }

  /** Byte order conversion loses nothing. */
  lemma NtohlHtonl(n: nat)
    requires n < TWO_TO_THE_32
    ensures Ntohl(Htonl(n)) == n
  {
    assert n == n / 0x100 * 0x100 + n % 0x100;
    assert n / 0x100 == n / 0x100 / 0x100 * 0x100 + n / 0x100 % 0x100;
    assert n / 0x100 / 0x100 == n / 0x1_0000;
    assert n / 0x1_0000 == n / 0x1_0000 / 0x100 * 0x100 + n / 0x1_0000 % 0x100;
    assert n / 0x1_0000 / 0x100 == n / 0x100_0000;
  }

  /** The frame of a message: 4 length bytes, truncated to 32 bits, then its type, then its body. */
  function Encode(m: Message): Bytes {
    Htonl(|m.body| % TWO_TO_THE_32) + [m.kind] + m.body
  }

  function EncodeAll(ms: seq<Message>): Bytes {
    if ms == [] then [] else Encode(ms[0]) + EncodeAll(ms[1..])
  }

  function HeaderOf(b: Bytes): Header
    requires |b| >= HEADER_SIZE
  {
    Header(Ntohl(b[..4]), b[4])
  }

  /** A whole frame is at the front of the buffer. */
  predicate HasFrame(b: Bytes) {
    |b| >= HEADER_SIZE && |b| >= HEADER_SIZE + HeaderOf(b).length
  }

  function FrameSize(b: Bytes): nat
    requires |b| >= HEADER_SIZE
  {
    HEADER_SIZE + HeaderOf(b).length
  }

  function FirstMessage(b: Bytes): Message
    requires HasFrame(b)
  {
    Message(HeaderOf(b).kind, b[HEADER_SIZE..FrameSize(b)])
  }

  /** The messages that can be taken off the front of a buffer, and the bytes that are left waiting. */
  function Split(b: Bytes): (seq<Message>, Bytes)
    decreases |b|
  {
    if !HasFrame(b) then ([], b)
    else
      var (ms, rest) := Split(b[FrameSize(b)..]);
      ([FirstMessage(b)] + ms, rest)
  }

  // ---- Reassembly does not depend on how the stream is cut ------------------------------------------

  /** A frame that is complete stays the same when more bytes arrive. */
  lemma FrameStays(x: Bytes, y: Bytes)
    requires HasFrame(x)
    ensures HasFrame(x + y) && FrameSize(x + y) == FrameSize(x) && FirstMessage(x + y) == FirstMessage(x)
    ensures (x + y)[FrameSize(x)..] == x[FrameSize(x)..] + y
  {
  }

  /** Splitting what has arrived so far and then going on with the rest is splitting it all. */
  lemma {:induction false} SplitIncrementally(x: Bytes, y: Bytes)
    ensures Split(x + y) == (Split(x).0 + Split(Split(x).1 + y).0, Split(Split(x).1 + y).1)
    decreases |x|
  {
    if HasFrame(x) {
      FrameStays(x, y);
      var rest := x[FrameSize(x)..];
      SplitIncrementally(rest, y);
      var a, b := Split(rest).0, Split(Split(rest).1 + y).0;
      assert [FirstMessage(x)] + (a + b) == [FirstMessage(x)] + a + b;
    } else {
      assert [] + Split(x + y).0 == Split(x + y).0;
    }
  }

  function Concat(chunks: seq<Bytes>): Bytes {
    if chunks == [] then [] else Concat(chunks[..|chunks| - 1]) + chunks[|chunks| - 1]
  }

  /** What a connection has delivered and still buffers after a sequence of received chunks. */
  function Fed(chunks: seq<Bytes>): (seq<Message>, Bytes) {
    if chunks == [] then ([], [])
    else
      var (ms, rest) := Fed(chunks[..|chunks| - 1]);
      var (more, left) := Split(rest + chunks[|chunks| - 1]);
      (ms + more, left)
  }

  /** Any cutting of any byte stream gives the result of splitting the whole stream. */
  lemma {:induction false} CuttingDoesNotMatter(chunks: seq<Bytes>)
    ensures Fed(chunks) == Split(Concat(chunks))
    decreases |chunks|
  {
    if chunks != [] {
      CuttingDoesNotMatter(chunks[..|chunks| - 1]);
      SplitIncrementally(Concat(chunks[..|chunks| - 1]), chunks[|chunks| - 1]);
    }
  }

  // ---- Round trip -----------------------------------------------------------------------------------

  ghost predicate Fits(m: Message) {
    |m.body| < TWO_TO_THE_32
  }

  /** What the receiver reads at the front of a frame, however long the body. */
  lemma ReadFrame(m: Message, tail: Bytes)
    ensures var b := Encode(m) + tail;
            && |b| >= HEADER_SIZE && HeaderOf(b) == Header(|m.body| % TWO_TO_THE_32, m.kind)
            && HasFrame(b) && |FirstMessage(b).body| == |m.body| % TWO_TO_THE_32
            && (Fits(m) ==> FirstMessage(b) == m && b[FrameSize(b)..] == tail)
  {
    var b, n := Encode(m) + tail, |m.body| % TWO_TO_THE_32;
    NtohlHtonl(n);
    assert b[..4] == Htonl(n);
    assert b[HEADER_SIZE..HEADER_SIZE + |m.body|] == m.body;
  }

  lemma SplitFrame(m: Message, tail: Bytes)
    requires Fits(m)
    ensures Split(Encode(m) + tail) == ([m] + Split(tail).0, Split(tail).1)
  {
    hide Encode, HasFrame, HeaderOf, FirstMessage;
    ReadFrame(m, tail);
  }

  lemma SplitTruncates(m: Message, tail: Bytes)
    requires !Fits(m)
    ensures Split(Encode(m) + tail).0 != [] && Split(Encode(m) + tail).0[0] != m
  {
    hide Encode, HasFrame, HeaderOf, FirstMessage;
    ReadFrame(m, tail);
  }

  /** The whole stream decodes to the messages that were sent, with nothing left, if and only if every body is shorter
      than 2^32 bytes. */
  lemma {:induction false} RoundTripIff(ms: seq<Message>)
    ensures Split(EncodeAll(ms)) == (ms, []) <==> forall m | m in ms :: Fits(m)
    decreases |ms|
  {
    hide Encode, Fits;
    if ms != [] {
      RoundTripIff(ms[1..]);
      hide Split;
      assert forall m :: m in ms <==> m == ms[0] || m in ms[1..];
      var s := Split(EncodeAll(ms[1..]));
      if Fits(ms[0]) {
        SplitFrame(ms[0], EncodeAll(ms[1..]));
        assert ([ms[0]] + s.0)[1..] == s.0 && ms == [ms[0]] + ms[1..];
      } else {
        SplitTruncates(ms[0], EncodeAll(ms[1..]));
      }
    }
  }

  /** Every message list with bodies under 2^32 bytes, cut in any way, is delivered exactly, in order, leaving
      nothing. */
  lemma AnyCuttingDelivers(ms: seq<Message>, chunks: seq<Bytes>)
    requires Concat(chunks) == EncodeAll(ms)
    ensures Fed(chunks) == (ms, []) <==> forall m | m in ms :: Fits(m)
  {
    CuttingDoesNotMatter(chunks);
    RoundTripIff(ms);
  }

  /** A body of 2^32 bytes is announced as empty: the receiver's first message has no body. */
  lemma TooLongIsTruncated(kind: byte)
    ensures var body := seq(TWO_TO_THE_32, _ => 7 as byte);
            var m := Message(kind, body);
            HasFrame(Encode(m)) && FirstMessage(Encode(m)) == Message(kind, []) && FirstMessage(Encode(m)) != m
  {
    var m := Message(kind, seq(TWO_TO_THE_32, _ => 7 as byte));
    ReadFrame(m, []);
    assert Encode(m) + [] == Encode(m);
    assert FirstMessage(Encode(m)).body == [];
  }

  /** A proper beginning of a frame is not taken for a frame. */
  lemma PartIsNoFrame(m: Message, part: Bytes)
    requires Fits(m) && part < Encode(m)
    ensures !HasFrame(part)
  {
    if |part| >= HEADER_SIZE {
      ReadFrame(m, []);
      assert Encode(m) + [] == Encode(m);
      assert part[..4] == Encode(m)[..4];
    }
  }

  /** Once a first frame has arrived in full, it is delivered and the rest is split on its own. */
  lemma PeelFrame(m: Message, rest: Bytes, sofar: Bytes)
    requires Fits(m) && sofar <= Encode(m) + rest && |sofar| >= |Encode(m)|
    ensures var tail := sofar[|Encode(m)|..];
            && sofar == Encode(m) + tail && tail <= rest
            && Split(sofar) == ([m] + Split(tail).0, Split(tail).1)
  {
    hide Encode, Split;
    PrefixBehind(Encode(m), rest, sofar);
    SplitFrame(m, sofar[|Encode(m)|..]);
  }

  lemma PrefixBehind(front: Bytes, rest: Bytes, sofar: Bytes)
    requires sofar <= front + rest && |sofar| >= |front|
    ensures var tail := sofar[|front|..]; sofar == front + tail && tail <= rest
  {
    var all := front + rest;
    assert sofar == all[..|sofar|] && all[..|front|] == front;
    assert sofar[|front|..] == all[|front|..|sofar|];
  }

  /** Mid-stream: after any part of the stream a prefix of the messages has been delivered, and the buffer holds the
      bytes received of the next frame, which is not complete. */
  lemma {:induction false} MidStream(ms: seq<Message>, sofar: Bytes) returns (k: nat)
    requires (forall m | m in ms :: Fits(m)) && sofar <= EncodeAll(ms)
    ensures k <= |ms| && Split(sofar).0 == ms[..k]
    ensures EncodeAll(ms[..k]) + Split(sofar).1 == sofar
    ensures if k == |ms| then Split(sofar).1 == [] else Split(sofar).1 < Encode(ms[k])
    decreases |ms|
  {
    hide Encode, EncodeAll, Split;
    Unfold(ms);
    if ms == [] {
      k := 0;
      assert sofar == [] && ms[..0] == [];
    } else if |sofar| < |Encode(ms[0])| {
      k := 0;
      PartDelivers(ms[0], EncodeAll(ms[1..]), sofar);
      assert ms[..0] == [];
    } else {
      PeelFrame(ms[0], EncodeAll(ms[1..]), sofar);
      var frame, tail := Encode(ms[0]), sofar[|Encode(ms[0])|..];
      var j := MidStream(ms[1..], tail);
      k := j + 1;
      TakeOneMore(ms, j);
      assert frame + (EncodeAll(ms[1..][..j]) + Split(tail).1) == frame + EncodeAll(ms[1..][..j]) + Split(tail).1;
    }
  }

  lemma Unfold(ms: seq<Message>)
    ensures EncodeAll([]) == [] && Split([]) == ([], [])
    ensures ms != [] ==> EncodeAll(ms) == Encode(ms[0]) + EncodeAll(ms[1..])
  {
  }

  lemma PartDelivers(m: Message, rest: Bytes, sofar: Bytes)
    requires Fits(m) && sofar <= Encode(m) + rest && |sofar| < |Encode(m)|
    ensures sofar < Encode(m) && Split(sofar) == ([], sofar)
  {
    assert sofar == (Encode(m) + rest)[..|sofar|] == Encode(m)[..|sofar|];
    PartIsNoFrame(m, sofar);
  }

  lemma TakeOneMore(ms: seq<Message>, j: nat)
    requires j < |ms|
    ensures ms[..j + 1] == [ms[0]] + ms[1..][..j] && EncodeAll(ms[..j + 1]) == Encode(ms[0]) + EncodeAll(ms[1..][..j])
  {
  }

  /** However the stream received so far was cut, the connection is at such a mid-stream point. */
  lemma AnyCuttingIsMidStream(ms: seq<Message>, chunks: seq<Bytes>) returns (k: nat)
    requires (forall m | m in ms :: Fits(m)) && Concat(chunks) <= EncodeAll(ms)
    ensures k <= |ms| && Fed(chunks).0 == ms[..k]
    ensures if k == |ms| then Fed(chunks).1 == [] else Fed(chunks).1 < Encode(ms[k])
  {
    CuttingDoesNotMatter(chunks);
    k := MidStream(ms, Concat(chunks));
  }

  // ---- The code -------------------------------------------------------------------------------------

  /** serializeMessage fills a buffer of the right size: header first, its most significant length byte in front, then
      the body if there is one. */
  method SerializeMessage(kind: byte, body: Bytes) returns (data: array<byte>)
    ensures fresh(data) && data[..] == Encode(Message(kind, body))
    ensures data.Length == 5 + |body| && data[4] == kind && data[5..] == body
    ensures var n := |body| % 0x1_0000_0000;
            && data[0] as int == n / 0x100_0000 && data[1] as int == n / 0x1_0000 % 0x100
            && data[2] as int == n / 0x100 % 0x100 && data[3] as int == n % 0x100
  {
    data := new byte[HEADER_SIZE + |body|];
    var length := Htonl(|body| % TWO_TO_THE_32);
    data[0], data[1], data[2], data[3], data[4] := length[0], length[1], length[2], length[3], kind;
    if body != [] {
      forall i | 0 <= i < |body| {
        data[HEADER_SIZE + i] := body[i];
      }
    }
    assert data[..] == Encode(Message(kind, body));
  }

  /** parseHeader: false when the header is not complete. */
  method ParseHeader(buffer: Bytes) returns (ok: bool, header: Header)
    ensures ok <==> |buffer| >= HEADER_SIZE
    ensures ok ==> header == HeaderOf(buffer) && header.kind == buffer[4]
    ensures ok ==> header.length == ((buffer[0] as int * 0x100 + buffer[1] as int) * 0x100 + buffer[2] as int) * 0x100
                                    + buffer[3] as int
  {
    header := Header(0, 0);
    if |buffer| < HEADER_SIZE {
      return false, header;
    }
    header := Header(Ntohl(buffer[..4]), buffer[4]);
    return true, header;
  }

  /** A client's receive buffer and the messages handed on from it. */
  class Connection {
    var recvBuffer: Bytes
    var delivered: seq<Message>
    ghost var received: seq<Bytes>

    ghost predicate Valid()
      reads this
    {
      (delivered, recvBuffer) == Fed(received)
    }

    constructor ()
      ensures Valid() && received == [] && delivered == [] && recvBuffer == []
    {
      recvBuffer, delivered, received := [], [], [];
    }

    /** processMessages: take complete frames off the front until none is left. */
    method ProcessMessages()
      modifies this`recvBuffer, this`delivered
      ensures delivered == old(delivered) + Split(old(recvBuffer)).0
      ensures recvBuffer == Split(old(recvBuffer)).1
    {
      while true
        invariant delivered + Split(recvBuffer).0 == old(delivered) + Split(old(recvBuffer)).0
        invariant Split(recvBuffer).1 == Split(old(recvBuffer)).1
        decreases |recvBuffer|
      {
        if |recvBuffer| < HEADER_SIZE {
          break;
        }
        var ok, header := ParseHeader(recvBuffer);
        if !ok {
          break;
        }
        var totalSize := HEADER_SIZE + header.length;
        if |recvBuffer| < totalSize {
          break;
        }
        var body := recvBuffer[HEADER_SIZE..totalSize];
        ghost var rest := recvBuffer[totalSize..];
        ghost var next := Message(header.kind, body);
        assert delivered + ([next] + Split(rest).0) == delivered + [next] + Split(rest).0;
        recvBuffer := recvBuffer[totalSize..];
        delivered := delivered + [Message(header.kind, body)];
      }
    }

    /** The receiving part of handleClientData: append a chunk, then process. */
    method Receive(chunk: Bytes)
      requires Valid()
      modifies this
      ensures Valid() && received == old(received) + [chunk]
      ensures (delivered, recvBuffer) == Split(Concat(received))
    {
      recvBuffer := recvBuffer + chunk;
      ProcessMessages();
      received := received + [chunk];
      assert received[..|received| - 1] == old(received);
      CuttingDoesNotMatter(received);
    }
  }
}
