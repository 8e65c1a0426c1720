/**
  * The wire of the media client: little-endian records, message boundaries and exact transfers.
  *
  * The peer is the byte string it will ever send; the operating system is a list of events
  * that says how each receive or send ends, so any split of the stream, any failure and any
  * cancellation is some list.
  */
module MediaWire {
  import opened Words

  const U32: nat := 0x1_0000_0000

  datatype Status =
    | Success | InvalidArgument | StaleHandle | WrongType | NotSupported | AccessDenied | LimitExceeded
    | Timeout | Cancelled | BufferTooSmall | NoMemory | Io | Integrity

  /** How one receive or send ends. A transfer that cannot be cancelled takes Cancel for an interruption. */
  datatype Event = Count(n: nat) | Retry | Fail | Cancel

  // ---------- The wire format ----------

  /** The two services have their own headers. */
  datatype Protocol = Mdc1 | ImageService

  function HeaderSize(p: Protocol): nat { if p.Mdc1? then 32 else 48 }

  datatype Header = Header(
    magic: nat, version: nat, operation: nat, reserved: nat, flags: nat, requestId: nat, payloadSize: nat, status: int,
    peerId: nat)

  function Signed32(n: nat): int { if n >= 0x8000_0000 then n - U32 else n }

  /** `peerId` is the session id of an MDC1 header and the connection id of an image header. */
  function HeaderOf(p: Protocol, bytes: seq<Byte>): Header
    requires |bytes| == HeaderSize(p)
  {
    if p.Mdc1? then
      Header(Field(bytes, 0, 4), Field(bytes, 4, 4), Field(bytes, 8, 2), Field(bytes, 10, 2), 0,
             Field(bytes, 12, 4), Field(bytes, 16, 4), Signed32(Field(bytes, 20, 4)), Field(bytes, 24, 8))
    else
      Header(Field(bytes, 0, 4), Field(bytes, 4, 2), Field(bytes, 6, 2), Field(bytes, 40, 4), Field(bytes, 8, 4),
             Field(bytes, 16, 8), Field(bytes, 24, 4), Signed32(Field(bytes, 28, 4)), Field(bytes, 32, 8))
  }

  const MDC1_MAGIC: nat := 0x3143444D
  const MDC1_VERSION: nat := 4
  const IMAGE_MAGIC: nat := 0x31434449
  const IMAGE_VERSION: nat := 3
  const MDC1_READ: nat := 2
  const MDC1_CLOSE: nat := 4
  const MDC1_VIDEO_FRAME: nat := 6
  const IMAGE_DECODE: nat := 1
  const IMAGE_READ_PIXELS: nat := 2
  const STATUS_OK: int := 0
  const STATUS_MALFORMED: int := -11

  /** What the client remembers of a request it has sent. */
  datatype Request = Request(operation: nat, id: nat)

  /** A header answers a request of this session. */
  predicate Answers(p: Protocol, h: Header, r: Request, peerId: nat) {
    && h.operation == r.operation && h.requestId == r.id && h.peerId == peerId && h.reserved == 0
    && if p.Mdc1? then h.magic == MDC1_MAGIC && h.version == MDC1_VERSION
       else
         && h.magic == IMAGE_MAGIC && h.version == IMAGE_VERSION && h.flags == 0
         && STATUS_MALFORMED <= h.status <= STATUS_OK && (h.status == STATUS_OK || h.payloadSize == 0)
  }

  // ---------- Message boundaries ----------

  predicate HasHeader(p: Protocol, incoming: seq<Byte>, at: nat) { at + HeaderSize(p) <= |incoming| }

  function HeaderAt(p: Protocol, incoming: seq<Byte>, at: nat): Header
    requires HasHeader(p, incoming, at)
  {
    HeaderOf(p, incoming[at..at + HeaderSize(p)])
  }

  /** Where the message that starts at `at` ends: behind its header and the payload it announces. */
  function MessageEnd(p: Protocol, incoming: seq<Byte>, at: nat): nat
    requires HasHeader(p, incoming, at)
  {
    at + HeaderSize(p) + HeaderAt(p, incoming, at).payloadSize
  }

  /** The boundary `n` whole messages behind `from`. */
  function Boundary(p: Protocol, incoming: seq<Byte>, from: nat, n: nat): nat {
    if n == 0 then from else
    var at := Boundary(p, incoming, from, n - 1);
    if HasHeader(p, incoming, at) then MessageEnd(p, incoming, at) else at
  }

  /** The message at `at` has a whole header, and it answers the request. */
  predicate AnswerAt(p: Protocol, incoming: seq<Byte>, at: nat, r: Request, peerId: nat) {
    HasHeader(p, incoming, at) && Answers(p, HeaderAt(p, incoming, at), r, peerId)
  }

  /** incoming[from..end] is one whole message for each request, in order, each the answer to its request. */
  ghost predicate Answered(p: Protocol, incoming: seq<Byte>, from: nat, end: nat, requests: seq<Request>, peerId: nat) {
    && end == Boundary(p, incoming, from, |requests|)
    && forall i {:trigger requests[i]} :: 0 <= i < |requests| ==>
         AnswerAt(p, incoming, Boundary(p, incoming, from, i), requests[i], peerId)
  }

  /** A boundary and one more whole answer make the next boundary. */
  lemma AnsweredOneMore(p: Protocol, incoming: seq<Byte>, from: nat, end: nat, requests: seq<Request>, peerId: nat,
                        r: Request)
    requires Answered(p, incoming, from, end, requests, peerId)
    requires AnswerAt(p, incoming, end, r, peerId)
    ensures Answered(p, incoming, from, MessageEnd(p, incoming, end), requests + [r], peerId)
  {
    var longer := requests + [r];
    assert Boundary(p, incoming, from, |longer|) == MessageEnd(p, incoming, end);
    assert forall i :: 0 <= i < |requests| ==> longer[i] == requests[i];
  }

  /** The bytes of the first `n` messages behind `from`, one message behind the other. */
  function Messages(p: Protocol, incoming: seq<Byte>, from: nat, n: nat): seq<Byte> {
    if n == 0 then [] else
    var at, end := Boundary(p, incoming, from, n - 1), Boundary(p, incoming, from, n);
    Messages(p, incoming, from, n - 1) + if at <= end <= |incoming| then incoming[at..end] else []
  }

  /** Taking the last answer away. */
  lemma AnsweredOneLess(p: Protocol, incoming: seq<Byte>, from: nat, end: nat, requests: seq<Request>, peerId: nat,
                        n: nat)
    requires Answered(p, incoming, from, end, requests, peerId) && |requests| == n + 1
    ensures Answered(p, incoming, from, Boundary(p, incoming, from, n), requests[..n], peerId)
    ensures HasHeader(p, incoming, Boundary(p, incoming, from, n))
    ensures Boundary(p, incoming, from, n) < end
  {
    assert AnswerAt(p, incoming, Boundary(p, incoming, from, n), requests[n], peerId);
    assert forall i :: 0 <= i < n ==> requests[..n][i] == requests[i];
  }

  /** What has been consumed is the answers and nothing else: no byte is skipped and none belongs to two answers. */
  lemma {:induction false} AnswersCoverTheStream(
    p: Protocol, incoming: seq<Byte>, from: nat, end: nat, requests: seq<Request>, peerId: nat)
    requires Answered(p, incoming, from, end, requests, peerId) && end <= |incoming|
    ensures from <= end && incoming[from..end] == Messages(p, incoming, from, |requests|)
  {
    if requests != [] {
      var n: nat := |requests| - 1;
      AnsweredOneLess(p, incoming, from, end, requests, peerId, n);
      var at := Boundary(p, incoming, from, n);
      AnswersCoverTheStream(p, incoming, from, at, requests[..n], peerId);
      Adjoining(incoming, from, at, end);
    }
  }

  lemma Adjoining(s: seq<Byte>, i: nat, j: nat, k: nat)
    requires i <= j <= k <= |s|
    ensures s[i..k] == s[i..j] + s[j..k]
  {
  }

  // ---------- Transfers ----------

  const IO_RETRY_LIMIT: nat := 16

  /** What is left of the events once positive counts that add up to `size` have come, if they come at all. */
  function AfterCounts(events: seq<Event>, size: nat): Option<seq<Event>> {
    if size == 0 then Some(events)
    else if events != [] && events[0].Count? && 0 < events[0].n <= size
    then AfterCounts(events[1..], size - events[0].n)
    else None
  }

  function Total(counts: seq<nat>): nat {
    if counts == [] then 0 else counts[0] + Total(counts[1..])
  }

  function CountEvents(counts: seq<nat>): seq<Event> {
    if counts == [] then [] else [Count(counts[0])] + CountEvents(counts[1..])
  }

  /** Any way of splitting a size into positive counts. */
  lemma {:induction false} CountsAddUp(counts: seq<nat>, rest: seq<Event>)
    requires forall i :: 0 <= i < |counts| ==> counts[i] > 0
    ensures AfterCounts(CountEvents(counts) + rest, Total(counts)) == Some(rest)
  {
    if counts == [] {
      assert CountEvents(counts) + rest == rest;
    } else {
      CountsAddUp(counts[1..], rest);
      assert (CountEvents(counts) + rest)[1..] == CountEvents(counts[1..]) + rest;
    }
  }

  /** Nothing cancels the transfer behind its last byte. */
  predicate Uncancelled(cancellable: bool, events: seq<Event>) { !(cancellable && events != [] && events[0] == Cancel) }

  class Socket {
    const incoming: seq<Byte>
    var read: nat
    var events: seq<Event>
    ghost var broken: bool   // a transfer has failed

    ghost predicate Valid()
      reads this
    {
      read <= |incoming|
    }

    constructor (incoming: seq<Byte>, events: seq<Event>)
      ensures Valid() && this.incoming == incoming && read == 0
    {
      this.incoming, this.events, read, broken := incoming, events, 0, false;
    }

    /**
      * Receives exactly `size` bytes into buffer[at..], or fails. A success means the bytes are
      * the next ones of the stream; a failure may have consumed some.
      */
    method Receive(buffer: array<Byte>, at: nat, size: nat, cancellable: bool) returns (ok: bool, cancelled: bool)
      requires Valid() && at + size <= buffer.Length
      modifies this, buffer
      ensures Valid() && old(read) <= read && (cancelled ==> !ok && cancellable)
      ensures ok ==> read == old(read) + size && buffer[at..at + size] == incoming[old(read)..read]
      ensures buffer[..at] == old(buffer[..at]) && buffer[at + size..] == old(buffer[at + size..])
      ensures broken == (old(broken) || !ok)
      // positive counts that add up make it succeed, however the size is split
      ensures var left := AfterCounts(old(events), size);
              left.Some? && Uncancelled(cancellable, left.value) && size <= |incoming| - old(read) ==>
                ok && events == left.value
      // a transfer that cannot be cancelled gives up after sixteen events without a byte
      ensures !cancellable ==> |old(events)| <= |events| + IO_RETRY_LIMIT * size
    {
      ghost var was := broken;
      broken := true;
      var offset, attempt := 0, 0;
      while offset < size
        invariant offset <= size && Valid() && read == old(read) + offset
        invariant forall k :: at <= k < at + offset ==> buffer[k] == incoming[old(read) + k - at]
        invariant buffer[..at] == old(buffer[..at]) && buffer[at + size..] == old(buffer[at + size..])
        invariant broken
        invariant AfterCounts(old(events), size).Some? && size <= |incoming| - old(read) ==>
                    AfterCounts(events, size - offset) == AfterCounts(old(events), size)
        invariant (!cancellable ==> attempt < IO_RETRY_LIMIT) && (offset == size ==> attempt == 0)
        invariant !cancellable ==> |old(events)| <= |events| + IO_RETRY_LIMIT * offset + attempt
        decreases |events|
      {
        if events == [] { return false, false; }
        var event := events[0];
        events := events[1..];
        match event
        case Fail => return false, false;
        case Cancel =>
          if cancellable { return false, true; }
          attempt := attempt + 1;
          if attempt >= IO_RETRY_LIMIT { return false, false; }
        case Retry =>
          attempt := attempt + 1;
          if !cancellable && attempt >= IO_RETRY_LIMIT { return false, false; }
        case Count(n) =>
          if n == 0 || n > size - offset || n > |incoming| - read { return false, false; }
          forall k | 0 <= k < n { buffer[at + offset + k] := incoming[read + k]; }
          offset, read, attempt := offset + n, read + n, 0;
      }
      if cancellable && events != [] && events[0] == Cancel { return false, true; }
      broken := was;
      return true, false;
    }

    method ReceiveHeader(p: Protocol, cancellable: bool) returns (ok: bool, cancelled: bool, header: Header)
      requires Valid()
      modifies this
      ensures Valid() && old(read) <= read && (cancelled ==> !ok && cancellable)
      ensures ok ==>
                && HasHeader(p, incoming, old(read)) && read == old(read) + HeaderSize(p)
                && header == HeaderAt(p, incoming, old(read))
      ensures broken == (old(broken) || !ok)
    {
      var bytes := new Byte[HeaderSize(p)];
      ok, cancelled := Receive(bytes, 0, bytes.Length, cancellable);
      assert bytes[..] == bytes[0..0 + bytes.Length];
      header := HeaderOf(p, bytes[..]);
    }

    method ReceiveRecord(size: nat, cancellable: bool) returns (ok: bool, cancelled: bool, record: seq<Byte>)
      requires Valid()
      modifies this
      ensures Valid() && old(read) <= read && (cancelled ==> !ok && cancellable) && |record| == size
      ensures ok ==> read == old(read) + size && record == incoming[old(read)..read]
      ensures broken == (old(broken) || !ok)
    {
      var bytes := new Byte[size];
      ok, cancelled := Receive(bytes, 0, size, cancellable);
      assert bytes[..] == bytes[0..0 + size];
      record := bytes[..];
    }

    /** Sends `size` bytes, or fails. */
    method Send(size: nat, cancellable: bool) returns (ok: bool, cancelled: bool)
      requires Valid()
      modifies this`events, this`broken
      ensures Valid() && (cancelled ==> !ok && cancellable)
      ensures broken == (old(broken) || !ok)
      ensures var left := AfterCounts(old(events), size);
              left.Some? && Uncancelled(cancellable, left.value) ==> ok && events == left.value
      ensures !cancellable ==> |old(events)| <= |events| + IO_RETRY_LIMIT * size
    {
      ghost var was := broken;
      broken := true;
      var offset, attempt := 0, 0;
      while offset < size
        invariant broken && offset <= size
        invariant AfterCounts(old(events), size).Some? ==>
                    AfterCounts(events, size - offset) == AfterCounts(old(events), size)
        invariant (!cancellable ==> attempt < IO_RETRY_LIMIT) && (offset == size ==> attempt == 0)
        invariant !cancellable ==> |old(events)| <= |events| + IO_RETRY_LIMIT * offset + attempt
        decreases |events|
      {
        if events == [] { return false, false; }
        var event := events[0];
        events := events[1..];
        match event
        case Fail => return false, false;
        case Cancel =>
          if cancellable { return false, true; }
          attempt := attempt + 1;
          if attempt >= IO_RETRY_LIMIT { return false, false; }
        case Retry =>
          attempt := attempt + 1;
          if !cancellable && attempt >= IO_RETRY_LIMIT { return false, false; }
        case Count(n) =>
          if n == 0 || n > size - offset { return false, false; }
          offset, attempt := offset + n, 0;
      }
      if cancellable && events != [] && events[0] == Cancel { return false, true; }
      broken := was;
      return true, false;
    }
  }
}
