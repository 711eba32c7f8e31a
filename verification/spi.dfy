/**
  `ReadSPI`: reading a range of the controller's SPI flash with subcommand
  0x10. The request is retried until a response echoes the requested address
  or the retry budget is spent; the last response is used either way, and its
  20-byte header is dropped.
 */
module Spi {
  import opened Codec
  import opened Frames
  import opened Transport

  const SpiReadId: byte := 0x10
  const SpiRetries: nat := 100
  const SpiHeaderLen: nat := 20

  /** Payload `{addr2, addr1, 0, 0, (uint8_t)len}`: address low byte first. */
  function SpiRequest(addr1: byte, addr2: byte, len: nat): (req: seq<byte>)
    ensures |req| == 5
    ensures req[0] == addr2 && req[1] == addr1 && req[2] == 0 && req[3] == 0
    ensures req[4] == len % 256
  {
    [addr2, addr1, 0x00, 0x00, len % 256]
  }

  /** A response echoes the address when byte 15 is `addr2` and byte 16 is `addr1`. */
  predicate Echoes(resp: seq<byte>, addr1: byte, addr2: byte)
  {
    |resp| > 16 && resp[15] == addr2 && resp[16] == addr1
  }

  /** The response buffer the `j`-th read from now fills. */
  function ResponseAt(inbox: seq<seq<byte>>, j: nat): seq<byte>
  {
    ReadBuffer(ReplyAt(inbox, j))
  }

  /**
    `k` attempts are what the retry loop makes on this reply stream: none of
    the first `k - 1` responses echoes, and the `k`-th does unless the budget
    `tries` is spent.
   */
  ghost predicate FirstEcho(inbox: seq<seq<byte>>, addr1: byte, addr2: byte, tries: nat, k: nat)
  {
    && 1 <= k <= tries
    && (forall j :: 0 <= j < k - 1 ==> !Echoes(ResponseAt(inbox, j), addr1, addr2))
    && (k < tries ==> Echoes(ResponseAt(inbox, k - 1), addr1, addr2))
  }

  /** The number of attempts is determined by the reply stream. */
  lemma FirstEchoUnique(inbox: seq<seq<byte>>, addr1: byte, addr2: byte, tries: nat, k1: nat, k2: nat)
    requires FirstEcho(inbox, addr1, addr2, tries, k1)
    requires FirstEcho(inbox, addr1, addr2, tries, k2)
    ensures k1 == k2
  {
  }

  /** One non-echoing response in front of a stream adds one attempt. */
  lemma FirstEchoShift(inbox: seq<seq<byte>>, addr1: byte, addr2: byte, tries: nat, k: nat)
    requires 2 <= tries
    requires !Echoes(ResponseAt(inbox, 0), addr1, addr2)
    requires FirstEcho(Consume(inbox, 1), addr1, addr2, tries - 1, k)
    ensures FirstEcho(inbox, addr1, addr2, tries, k + 1)
  {
    assert forall j :: 0 <= j ==> ResponseAt(Consume(inbox, 1), j) == ResponseAt(inbox, j + 1);
    forall j | 0 <= j < k
      ensures !Echoes(ResponseAt(inbox, j), addr1, addr2)
    {
      if j > 0 {
        assert ResponseAt(inbox, j) == ResponseAt(Consume(inbox, 1), j - 1);
      }
    }
  }

  /** The frames of `k` read requests, stamped with consecutive counter values from `c`. */
  function RequestEvents(c: byte, request: seq<byte>, k: nat): (evs: seq<Event>)
    ensures |evs| == k
    decreases k
  {
    if k == 0 then [] else [Write(SubcommandFrame(c, SpiReadId, request))] + RequestEvents(NextCount(c), request, k - 1)
  }

  /** The `j`-th request of a run carries the counter advanced `j` times. */
  lemma {:induction false} RequestEventAt(c: byte, request: seq<byte>, k: nat, j: nat)
    requires j < k
    ensures RequestEvents(c, request, k)[j] == Write(SubcommandFrame(Advance(c, j), SpiReadId, request))
    decreases j
  {
    if j > 0 {
      RequestEventAt(NextCount(c), request, k - 1, j - 1);
    }
  }

  /**
    What the retry loop leaves behind: the link after its reads and writes, and
    the number of attempts made. The response buffer it ends with is the last
    reply read, `ResponseAt(inbox, count - 1)`.
   */
  datatype Attempts = Attempts(link: Link, count: nat)

  lemma ResponseAfterOne(inbox: seq<seq<byte>>, j: nat)
    ensures ResponseAt(Consume(inbox, 1), j) == ResponseAt(inbox, j + 1)
  {
    assert ReplyAt(Consume(inbox, 1), j) == ReplyAt(inbox, 1 + j);
  }

  /** The retry loop of `ReadSPI`, with `tries` attempts left. */
  function Retry(l: Link, addr1: byte, addr2: byte, request: seq<byte>, tries: nat): (r: Attempts)
    requires 1 <= tries
    ensures FirstEcho(l.inbox, addr1, addr2, tries, r.count)
    ensures r.link.counter == Advance(l.counter, r.count)
    ensures r.link.inbox == Consume(l.inbox, r.count)
    ensures r.link.log == l.log + RequestEvents(l.counter, request, r.count)
    decreases tries
  {
    var ex := Subcommand(l, SpiReadId, request);
    assert ex.response == ResponseAt(l.inbox, 0);
    if Echoes(ex.response, addr1, addr2) || tries == 1 then
      Attempts(ex.link, 1)
    else
      var rest := Retry(ex.link, addr1, addr2, request, tries - 1);
      RetryAfterMiss(l, addr1, addr2, request, tries, rest);
      assert Advance(l.counter, rest.count + 1) == Advance(ex.link.counter, rest.count);
      Attempts(rest.link, rest.count + 1)
  }

  /**
    One missed attempt followed by the rest of the loop is the loop: the
    attempts, counter, reply stream and log of the rest, seen from before the
    missed request.
   */
  lemma RetryAfterMiss(l: Link, addr1: byte, addr2: byte, request: seq<byte>, tries: nat, rest: Attempts)
    requires 2 <= tries
    requires !Echoes(ResponseAt(l.inbox, 0), addr1, addr2)
    requires FirstEcho(Consume(l.inbox, 1), addr1, addr2, tries - 1, rest.count)
    requires rest.link.inbox == Consume(Consume(l.inbox, 1), rest.count)
    requires rest.link.log == l.log + [Write(SubcommandFrame(l.counter, SpiReadId, request))]
                              + RequestEvents(NextCount(l.counter), request, rest.count)
    ensures FirstEcho(l.inbox, addr1, addr2, tries, rest.count + 1)
    ensures rest.link.inbox == Consume(l.inbox, rest.count + 1)
    ensures rest.link.log == l.log + RequestEvents(l.counter, request, rest.count + 1)
  {
    ConsumeTwice(l.inbox, 1, rest.count);
    FirstEchoShift(l.inbox, addr1, addr2, tries, rest.count);
    RequestLogCons(l.log, l.counter, request, rest.count);
  }

  /** A log that gained one request and then `k` more gained `k + 1` requests. */
  lemma RequestLogCons(log: seq<Event>, c: byte, request: seq<byte>, k: nat)
    ensures log + [Write(SubcommandFrame(c, SpiReadId, request))] + RequestEvents(NextCount(c), request, k)
            == log + RequestEvents(c, request, k + 1)
  {
    var w := Write(SubcommandFrame(c, SpiReadId, request));
    var later := RequestEvents(NextCount(c), request, k);
    assert RequestEvents(c, request, k + 1) == [w] + later;
    assert (log + [w]) + later == log + ([w] + later);
  }

  datatype SpiRead = SpiRead(payload: seq<byte>, link: Link, attempts: nat)

  /**
    `ReadSPI(addr1, addr2, len)`: at most 100 attempts, stopping at the first
    echoing response; the payload is that response (or the last one) without
    its 20-byte header, so it is 29 bytes long whatever `len` asks for.
   */
  function ReadSpi(l: Link, addr1: byte, addr2: byte, len: nat): (r: SpiRead)
    ensures |r.payload| == ReportLen - SpiHeaderLen
    ensures FirstEcho(l.inbox, addr1, addr2, SpiRetries, r.attempts)
    ensures r.payload == ResponseAt(l.inbox, r.attempts - 1)[SpiHeaderLen..]
    ensures r.link.counter == Advance(l.counter, r.attempts)
    ensures r.link.inbox == Consume(l.inbox, r.attempts)
    ensures r.link.log == l.log + RequestEvents(l.counter, SpiRequest(addr1, addr2, len), r.attempts)
  {
    var a := Retry(l, addr1, addr2, SpiRequest(addr1, addr2, len), SpiRetries);
    SpiRead(ResponseAt(l.inbox, a.count - 1)[SpiHeaderLen..], a.link, a.count)
  }

  /**
    A reply of the shape the controller sends to an SPI read: the address
    echoed at bytes 15..16 and the flash contents from byte 20 on.
   */
  function SpiReply(addr1: byte, addr2: byte, data: seq<byte>): (reply: seq<byte>)
    requires |data| <= ReportLen - SpiHeaderLen
    ensures |reply| == ReportLen
    ensures Echoes(reply, addr1, addr2)
    ensures reply[SpiHeaderLen..SpiHeaderLen + |data|] == data
  {
    Zeros(15) + [addr2, addr1] + Zeros(3) + data + Zeros(ReportLen - SpiHeaderLen - |data|)
  }

  /**
    When the next reply is a well-formed answer for the requested address,
    `ReadSPI` makes a single attempt and returns the flash contents.
   */
  lemma ReadSpiOfReply(l: Link, addr1: byte, addr2: byte, len: nat, data: seq<byte>)
    requires |data| <= ReportLen - SpiHeaderLen
    requires ReplyAt(l.inbox, 0) == SpiReply(addr1, addr2, data)
    ensures ReadSpi(l, addr1, addr2, len).attempts == 1
    ensures ReadSpi(l, addr1, addr2, len).payload[..|data|] == data
    ensures ReadSpi(l, addr1, addr2, len).link.inbox == Consume(l.inbox, 1)
  {
    var r := ReadSpi(l, addr1, addr2, len);
    var reply := SpiReply(addr1, addr2, data);
    assert ResponseAt(l.inbox, 0) == reply;
    assert Echoes(ResponseAt(l.inbox, 0), addr1, addr2);
    assert r.attempts == 1;
    assert r.payload == reply[SpiHeaderLen..];
  }

  /**
    When no response echoes the address, the budget is spent: 100 requests are
    sent and the payload comes from the 100th response.
   */
  lemma ReadSpiExhausted(l: Link, addr1: byte, addr2: byte, len: nat)
    requires forall j :: 0 <= j < SpiRetries ==> !Echoes(ResponseAt(l.inbox, j), addr1, addr2)
    ensures ReadSpi(l, addr1, addr2, len).attempts == SpiRetries
    ensures ReadSpi(l, addr1, addr2, len).payload == ResponseAt(l.inbox, SpiRetries - 1)[SpiHeaderLen..]
    ensures |ReadSpi(l, addr1, addr2, len).link.log| == |l.log| + SpiRetries
  {
  }
}
