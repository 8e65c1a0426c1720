/**
  * Media sessions: request and reply against an arbitrary peer.
  *
  * The ghost fields record the requests sent and the frames delivered since the session was
  * published.
  */
module MediaSession {
  import opened MediaFrames
  import opened MediaImages
  import opened MediaWire
  import opened Strides
  import opened Words

  datatype MediaType = Audio | Image | Video

  datatype SessionState = Free | Published | Closing

  // ---------- The session ----------

  const AUDIO_MAX_FRAMES: nat := 1024
  const READ_REPLY_SIZE: nat := 8
  const NO_FRAME := FrameInfo(0, 0, 0, 0, 0, 0, 0, 0, 0, 0, 0, 0, 0)

  /** The request a session sends next: ids count up and skip zero. */
  function NextRequest(operation: nat, id: nat): Request { Request(operation, if id == 0 then 1 else id) }

  /** An answer to READ the client accepts: a record that says how many frames follow, and their bytes. */
  predicate AudioAnswer(incoming: seq<Byte>, at: nat, r: Request, peerId: nat, maximum: nat, frameBytes: nat) {
    && AnswerAt(Mdc1, incoming, at, r, peerId) && at + 40 <= |incoming|
    && var h, record := HeaderAt(Mdc1, incoming, at), incoming[at + 32..at + 40];
       && h.status == 0 && Field(record, 4, 4) == 0 && Field(record, 0, 4) <= maximum
       && h.payloadSize == READ_REPLY_SIZE + Field(record, 0, 4) * frameBytes
  }

  /** How many frames the record of an audio answer says follow. */
  function AudioFrames(incoming: seq<Byte>, at: nat): nat {
    if at + 40 <= |incoming| then Field(incoming[at + 32..at + 40], 0, 4) else 0
  }

  /** An answer to VIDEO_FRAME that brings a frame record. */
  predicate FrameAnnounced(incoming: seq<Byte>, at: nat, r: Request, peerId: nat) {
    && AnswerAt(Mdc1, incoming, at, r, peerId) && HeaderAt(Mdc1, incoming, at).status == 0
    && VIDEO_FRAME_INFO_SIZE <= HeaderAt(Mdc1, incoming, at).payloadSize
    && HeaderAt(Mdc1, incoming, at).payloadSize <= VIDEO_FRAME_INFO_SIZE + VIDEO_MAX_FRAME_BYTES
  }

  predicate HasFrameRecord(incoming: seq<Byte>, at: nat) { at + 32 + VIDEO_FRAME_INFO_SIZE <= |incoming| }

  function FrameRecordAt(incoming: seq<Byte>, at: nat): FrameInfo
    requires HasFrameRecord(incoming, at)
  {
    FrameInfoOf(incoming[at + 32..at + 32 + VIDEO_FRAME_INFO_SIZE])
  }

  class Session {
    const socket: Socket
    const mediaType: MediaType
    const peerId: nat
    const channels: nat
    const videoInfo: VideoInfo
    const source: ImageSource
    var state: SessionState
    var nextRequestId: nat
    var nextFrame: nat
    var decoded: bool                  // the decode cache of an image session
    var decodedFrame: nat
    var decodedAggregate: bool
    var decodeRequestId: nat
    var imageInfo: ImageInfo
    ghost const base: nat              // where the stream stood when the session was published
    ghost var requests: seq<Request>   // sent since then
    ghost var delivered: seq<nat>      // numbers of the pixel frames returned since then

    function Wire(): Protocol { if mediaType.Image? then ImageService else Mdc1 }

    /** The next call starts at a message boundary. */
    ghost predicate AtBoundary()
      reads this, socket
    {
      Answered(Wire(), socket.incoming, base, socket.read, requests, peerId)
    }

    /** One request has been sent, and its answer starts at `start`. */
    ghost predicate Replied(operation: nat, was: seq<Request>, start: nat)
      reads this, socket
    {
      && |requests| == |was| + 1 && requests == was + [requests[|was|]] && requests[|was|].operation == operation
      && AnswerAt(Wire(), socket.incoming, start, requests[|was|], peerId)
    }

    /** Between calls: a published session has no reply outstanding and has numbered its frames without a gap. */
    ghost predicate Valid()
      reads this, socket
    {
      && socket.Valid()
      && (mediaType.Video? ==> VideoShape(videoInfo))
      && (state.Published? ==> AtBoundary() && delivered == FirstNumbers(nextFrame) && decodeRequestId > 0)
      && CacheSound()
    }

    /** What the decode cache holds passed every check for its frame. */
    ghost predicate CacheSound()
      reads this
    {
      decoded ==> ImageAcceptable(imageInfo, decodeRequestId, source.generation, decodedFrame, decodedAggregate)
    }

    /** Publishing happens after the reply to OPEN has been consumed. */
    constructor (socket: Socket, mediaType: MediaType, peerId: nat, channels: nat, videoInfo: VideoInfo,
                 source: ImageSource)
      requires socket.Valid() && (mediaType.Video? ==> VideoShape(videoInfo))
      ensures Valid() && state.Published? && requests == [] && delivered == []
      ensures this.socket == socket && this.mediaType == mediaType
    {
      this.socket, this.mediaType, this.peerId, this.channels := socket, mediaType, peerId, channels;
      this.videoInfo, this.source := videoInfo, source;
      state, nextRequestId, nextFrame := Published, 2, 0;
      decoded, decodedFrame, decodedAggregate, decodeRequestId, imageInfo := false, 0, false, 1, NO_IMAGE;
      base, requests, delivered := socket.read, [], [];
    }

    /** drop_locked and unlock_free: the stream is given up. */
    method Retire()
      modifies this`state, this`nextRequestId, this`nextFrame, this`decoded, this`decodedFrame, this`decodedAggregate,
               this`decodeRequestId, this`imageInfo
      ensures state == Free && !decoded
    {
      state := Closing;
      nextRequestId, nextFrame := 1, 0;
      decoded, decodedFrame, decodedAggregate, decodeRequestId, imageInfo := false, 0, false, 0, NO_IMAGE;
      state := Free;
    }

    /** rin_media_rpc_timeout and its cancellable form: sends a request and takes the header of its answer. */
    method Rpc(operation: nat, payload: nat, cancellable: bool) returns (ok: bool, cancelled: bool, reply: Header)
      requires socket.Valid() && AtBoundary() && !mediaType.Image?
      modifies this`nextRequestId, this`requests, socket
      ensures socket.Valid() && (cancelled ==> !ok && cancellable && socket.broken)
      ensures ok ==> requests == old(requests) + [NextRequest(operation, old(nextRequestId))]
      ensures ok || socket.broken || peerId == 0 ||
              !AnswerAt(Mdc1, socket.incoming, old(socket.read), NextRequest(operation, old(nextRequestId)), peerId)
      ensures ok ==>
                && socket.read == old(socket.read) + 32
                && Replied(operation, old(requests), old(socket.read))
                && reply == HeaderAt(Mdc1, socket.incoming, old(socket.read))
    {
      ok, cancelled := false, false;
      reply := Header(0, 0, 0, 0, 0, 0, 0, 0, 0);
      if peerId == 0 { return; }
      if nextRequestId == 0 { nextRequestId := 1; }
      var request := Request(operation, nextRequestId);
      nextRequestId := (nextRequestId + 1) % U32;
      requests := requests + [request];
      ok, cancelled := socket.Send(32, cancellable);
      if !ok { return; }
      if payload != 0 {
        ok, cancelled := socket.Send(payload, cancellable);
        if !ok { return; }
      }
      ok, cancelled, reply := socket.ReceiveHeader(Mdc1, cancellable);
      if !ok { return; }
      ok := Answers(Mdc1, reply, request, peerId);
    }

    /** The payload of the answer has been consumed as well: the stream is at the next boundary. */
    lemma Finished(start: nat, was: seq<Request>, operation: nat)
      requires Answered(Wire(), socket.incoming, base, start, was, peerId)
      requires Replied(operation, was, start) && socket.read == MessageEnd(Wire(), socket.incoming, start)
      ensures AtBoundary()
    {
      AnsweredOneMore(Wire(), socket.incoming, base, start, was, peerId, requests[|was|]);
    }

    /** The answer on the stream is one an audio call for `maximum` frames accepts. */
    ghost predicate AudioAnswered(at: nat, id: nat, maximum: nat, frameBytes: nat)
      reads socket
    {
      AudioAnswer(socket.incoming, at, NextRequest(MDC1_READ, id), peerId, maximum, frameBytes)
    }

    /** An acceptable answer announces no more than the caller has room for. */
    lemma AudioAnswerFits(at: nat, r: Request, maximum: nat, maximumBytes: nat, frameBytes: nat)
      requires maximumBytes == Offset(maximum, frameBytes)
      ensures AudioAnswer(socket.incoming, at, r, peerId, maximum, frameBytes) ==>
                READ_REPLY_SIZE <= HeaderAt(Mdc1, socket.incoming, at).payloadSize <= READ_REPLY_SIZE + maximumBytes
    {
      if AudioAnswer(socket.incoming, at, r, peerId, maximum, frameBytes) {
        FewerFrames(Field(socket.incoming[at + 32..at + 40], 0, 4), maximum, frameBytes);
      }
    }

    /** The header and the record of an audio answer: how many frames follow, and how many bytes they take. */
    method ReadAudioRecord(maximum: nat, maximumBytes: nat, frameBytes: nat) returns (ok: bool, frames: nat, bytes: nat)
      requires Valid() && state.Published? && mediaType.Audio? && maximumBytes == Offset(maximum, frameBytes)
      modifies this`nextRequestId, this`requests, socket
      ensures socket.Valid()
      ensures ok ==> AudioAnswered(old(socket.read), old(nextRequestId), maximum, frameBytes)
      ensures ok ==> frames == AudioFrames(socket.incoming, old(socket.read))
      ensures !ok ==>
                socket.broken || peerId == 0 ||
                !AudioAnswered(old(socket.read), old(nextRequestId), maximum, frameBytes)
      ensures ok ==>
                && bytes == frames * frameBytes && bytes <= maximumBytes
                && Replied(MDC1_READ, old(requests), old(socket.read))
                && socket.read + bytes == MessageEnd(Mdc1, socket.incoming, old(socket.read))
    {
      frames, bytes := 0, 0;
      var cancelled, reply, record;
      ok, cancelled, reply := Rpc(MDC1_READ, 8, false);
      if !ok { return; }
      AudioAnswerFits(old(socket.read), NextRequest(MDC1_READ, old(nextRequestId)), maximum, maximumBytes, frameBytes);
      ok := reply.status == 0 && READ_REPLY_SIZE <= reply.payloadSize <= READ_REPLY_SIZE + maximumBytes;
      if !ok { return; }
      ok, cancelled, record := socket.ReceiveRecord(READ_REPLY_SIZE, false);
      if !ok { return; }
      frames := Field(record, 0, 4);
      bytes := frames * frameBytes;
      ok := Field(record, 4, 4) == 0 && frames <= maximum && reply.payloadSize == READ_REPLY_SIZE + bytes;
    }

    /** The first `n` bytes are the last `n` taken off the stream. */
    ghost predicate JustRead(bytes: seq<Byte>, n: int)
      reads socket
    {
      && 0 <= n <= |bytes| && n <= socket.read <= |socket.incoming|
      && bytes[..n] == socket.incoming[socket.read - n..socket.read]
    }

    /** Asks for up to `maximum` frames and takes the answer; any mismatch is a failure. */
    method ReadAudio(output: array<Byte>, maximum: nat, maximumBytes: nat, frameBytes: nat)
      returns (ok: bool, frames: nat, bytes: nat)
      requires Valid() && state.Published? && mediaType.Audio?
      requires maximumBytes == Offset(maximum, frameBytes) <= output.Length
      modifies this`nextRequestId, this`requests, socket, output
      ensures socket.Valid()
      ensures ok ==> AudioAnswered(old(socket.read), old(nextRequestId), maximum, frameBytes)
      ensures ok ==> frames == AudioFrames(socket.incoming, old(socket.read))
      ensures !ok ==>
                socket.broken || peerId == 0 ||
                !AudioAnswered(old(socket.read), old(nextRequestId), maximum, frameBytes)
      ensures ok ==>
                && AtBoundary() && |requests| == |old(requests)| + 1
                && bytes == frames * frameBytes <= maximumBytes && JustRead(output[..], bytes)
                && output[bytes..] == old(output[bytes..])
      ensures output[maximumBytes..] == old(output[maximumBytes..])
    {
      ghost var start := socket.read;
      ok, frames, bytes := ReadAudioRecord(maximum, maximumBytes, frameBytes);
      if !ok { return; }
      if frames != 0 {
        ok := TakeAudio(output, bytes, maximumBytes);
        if !ok { return; }
      }
      Finished(start, old(requests), MDC1_READ);
    }

    /** The frames behind an audio record. */
    method TakeAudio(output: array<Byte>, bytes: nat, maximumBytes: nat) returns (ok: bool)
      requires socket.Valid() && bytes <= maximumBytes <= output.Length
      modifies socket, output
      ensures socket.Valid() && (ok || socket.broken)
      ensures ok ==> socket.read == old(socket.read) + bytes && JustRead(output[..], bytes)
      ensures ok ==> output[bytes..] == old(output[bytes..])
      ensures output[maximumBytes..] == old(output[maximumBytes..])
    {
      var cancelled;
      ok, cancelled := socket.Receive(output, 0, bytes, false);
      SameFurtherBack(output[..], old(output[..]), bytes, maximumBytes);
    }

    lemma StillZero(now: seq<Byte>, cleared: seq<Byte>, from: nat, end: nat)
      requires |now| == |cleared| && from <= end <= |now| && now[from..] == cleared[from..]
      requires forall k :: 0 <= k < end ==> cleared[k] == 0
      ensures forall k :: from <= k < end ==> now[k] == 0
    {
      forall k | from <= k < end ensures now[k] == 0 {
        assert now[k] == now[from..][k - from] == cleared[from..][k - from];
      }
    }

    /** Clears the room for `maximum` frames and fills it from the answer; after a failure it is clear again. */
    method FillAudio(output: array<Byte>, maximum: nat, maximumBytes: nat, frameBytes: nat)
      returns (ok: bool, frames: nat)
      requires Valid() && state.Published? && mediaType.Audio?
      requires maximumBytes == Offset(maximum, frameBytes) <= output.Length
      modifies this`nextRequestId, this`requests, socket, output
      ensures socket.Valid()
      ensures ok ==> AudioAnswered(old(socket.read), old(nextRequestId), maximum, frameBytes)
      ensures ok ==> frames == AudioFrames(socket.incoming, old(socket.read))
      ensures !ok ==>
                socket.broken || peerId == 0 ||
                !AudioAnswered(old(socket.read), old(nextRequestId), maximum, frameBytes)
      ensures ok ==>
                && AtBoundary() && |requests| == |old(requests)| + 1
                && frames * frameBytes <= maximumBytes && JustRead(output[..], frames * frameBytes)
      ensures ok ==> forall k :: frames * frameBytes <= k < maximumBytes ==> output[k] == 0
      ensures !ok ==> forall k :: 0 <= k < maximumBytes ==> output[k] == 0
      ensures output[maximumBytes..] == old(output[maximumBytes..])
    {
      Zero(output, maximumBytes);
      ghost var cleared := output[..];
      var bytes;
      ok, frames, bytes := ReadAudio(output, maximum, maximumBytes, frameBytes);
      if ok { StillZero(output[..], cleared, bytes, maximumBytes); } else { Zero(output, maximumBytes); }
    }

    /** The answer to an audio call that sends nothing. */
    function AudioRefusal(size: nat): Option<Status>
      reads this
    {
      if !state.Published? then Some(StaleHandle)
      else if !mediaType.Audio? then Some(WrongType)
      else if channels == 0 || channels > 8 then Some(Integrity)
      else if size == 0 then Some(Success)
      else if size < 2 * channels then Some(BufferTooSmall)
      else None
    }

    /** The bytes of the whole frames the caller has room for, at most the limit of one request. */
    function AudioRoom(size: nat): (room: nat)
      ensures room <= size
    {
      if channels == 0 || channels > 8 then 0 else WholeFrames(size, 2 * channels) * (2 * channels)
    }

    /** rin_media_sdk_client_audio_decode_v1, on the session the lookup found. */
    method AudioDecode(output: array<Byte>, size: nat) returns (status: Status, frames: nat)
      requires Valid() && size <= output.Length
      modifies this, socket, output
      ensures Valid() && output[size..] == old(output[size..])
      ensures old(AudioRefusal(size)).Some? ==>
                && status == old(AudioRefusal(size)).value && state == old(state)
                && requests == old(requests) && frames == 0 && output[..] == old(output[..])
      // an exchange fails only if a transfer fails or the answer is not acceptable
      ensures old(AudioRefusal(size)).None? ==>
                var maximum := WholeFrames(size, 2 * channels);
                var answered := AudioAnswered(old(socket.read), old(nextRequestId), maximum, 2 * channels);
                if status == Success then answered && state == old(state)
                else status == Io && state == Free && (socket.broken || peerId == 0 || !answered)
      ensures old(AudioRefusal(size)).None? && status == Success ==>
                && |requests| == |old(requests)| + 1 && frames == AudioFrames(socket.incoming, old(socket.read))
                && frames * (2 * channels) <= AudioRoom(size) && JustRead(output[..], frames * (2 * channels))
      // behind the answer, and all over after a failure, the room for the frames asked for is clear
      ensures old(AudioRefusal(size)).None? ==>
                var from := if status == Success then frames * (2 * channels) else 0;
                forall k :: from <= k < AudioRoom(size) ==> output[k] == 0
    {
      frames := 0;
      if !state.Published? { return StaleHandle, frames; }
      if !mediaType.Audio? { return WrongType, frames; }
      if channels == 0 || channels > 8 { return Integrity, frames; }
      var frameBytes := 2 * channels;
      var maximum := WholeFrames(size, frameBytes);
      if maximum == 0 { return if size == 0 then Success else BufferTooSmall, frames; }
      var maximumBytes := maximum * frameBytes;
      OffsetIsProduct(maximum, frameBytes);
      var ok;
      ok, frames := FillAudio(output, maximum, maximumBytes, frameBytes);
      SameFurtherBack(output[..], old(output[..]), maximumBytes, size);
      if !ok {
        Retire();
        return Io, 0;
      }
      return Success, frames;
    }

    /** The answer on the stream brings a frame record. */
    ghost predicate FrameAnswered(at: nat, id: nat)
      reads socket
    {
      FrameAnnounced(socket.incoming, at, NextRequest(MDC1_VIDEO_FRAME, id), peerId)
    }

    /** Sends the frame request and takes the header and the frame record of its answer. */
    method ReadFrameRecord() returns (result: Status, f: FrameInfo)
      requires Valid() && state.Published? && mediaType.Video?
      modifies this`nextRequestId, this`requests, socket
      ensures socket.Valid() && result in {Success, Cancelled, Io, Integrity}
      ensures result == Success || result == Integrity ==>
                && FrameAnswered(old(socket.read), old(nextRequestId))
                && HasFrameRecord(socket.incoming, old(socket.read))
                && f == FrameRecordAt(socket.incoming, old(socket.read))
      ensures result == Integrity ==>
                !FrameAcceptable(videoInfo, nextFrame, f, HeaderAt(Mdc1, socket.incoming, old(socket.read)).payloadSize)
      ensures result == Cancelled ==> socket.broken
      ensures result == Io && !socket.broken && peerId != 0 ==> !FrameAnswered(old(socket.read), old(nextRequestId))
      ensures result == Success ==>
                && Replied(MDC1_VIDEO_FRAME, old(requests), old(socket.read))
                && socket.read == old(socket.read) + 32 + VIDEO_FRAME_INFO_SIZE
                && FrameAcceptable(videoInfo, nextFrame, f,
                                   HeaderAt(Mdc1, socket.incoming, old(socket.read)).payloadSize)
    {
      f := NO_FRAME;
      var ok, cancelled, reply := Rpc(MDC1_VIDEO_FRAME, 16, true);
      ok := ok && reply.status == 0 &&
            VIDEO_FRAME_INFO_SIZE <= reply.payloadSize <= VIDEO_FRAME_INFO_SIZE + VIDEO_MAX_FRAME_BYTES;
      if !ok { return if cancelled then Cancelled else Io, f; }
      var record;
      ok, cancelled, record := socket.ReceiveRecord(VIDEO_FRAME_INFO_SIZE, true);
      if !ok { return if cancelled then Cancelled else Io, f; }
      f := FrameInfoOf(record);
      return if FrameAcceptable(videoInfo, nextFrame, f, reply.payloadSize) then Success else Integrity, f;
    }

    /** Takes the pixels of an accepted frame and copies them into the target. */
    method TakePixels(target: array<Byte>, t: Target, f: FrameInfo, cancel: nat -> bool) returns (result: Status)
      requires socket.Valid() && mediaType.Video? && VideoShape(videoInfo)
      requires f.height == videoInfo.height <= t.height && videoInfo.width <= t.width && 4 * t.width <= t.pitch
      requires f.payloadSize == videoInfo.rowStride * videoInfo.height
      requires Offset(t.height, t.pitch) <= target.Length
      modifies socket, target
      ensures socket.Valid() && result in {Success, Cancelled, Io}
      ensures result == Success ==>
                && socket.read == old(socket.read) + f.payloadSize
                && RowsCopied(old(target[..]), target[..], socket.incoming[old(socket.read)..socket.read],
                              videoInfo.height, videoInfo.width, t.pitch, t.rgba)
      ensures result == Io ==> target[..] == old(target[..]) && socket.broken
      ensures result == Cancelled ==> socket.broken || exists r: nat :: r <= videoInfo.height && cancel(r)
    {
      var pixels := new Byte[f.payloadSize];
      var ok, cancelled := socket.Receive(pixels, 0, f.payloadSize, true);
      if !ok { return if cancelled then Cancelled else Io; }
      assert pixels[..] == pixels[0..0 + f.payloadSize];
      OffsetIsProduct(videoInfo.height, videoInfo.rowStride);
      if f.height < t.height { OffsetGrows(f.height, t.height, t.pitch); }
      cancelled := CopyRows(target, pixels, f.height, videoInfo.width, t.pitch, t.rgba, cancel);
      return if cancelled then Cancelled else Success;
    }

    /** Counts an accepted frame with pixels and takes them. */
    method Deliver(target: array<Byte>, t: Target, f: FrameInfo, allocationFails: bool, cancel: nat -> bool)
      returns (result: Status)
      requires socket.Valid() && mediaType.Video? && VideoShape(videoInfo)
      requires f.height == videoInfo.height <= t.height && videoInfo.width <= t.width && 4 * t.width <= t.pitch
      requires f.payloadSize == videoInfo.rowStride * videoInfo.height
      requires Offset(t.height, t.pitch) <= target.Length
      modifies this`nextFrame, this`delivered, socket, target
      ensures socket.Valid() && result in {Success, Cancelled, Io, Integrity, NoMemory}
      ensures result == Integrity ==> old(nextFrame) == U64_MAX
      ensures result == NoMemory ==> allocationFails
      ensures result == Io ==> socket.broken
      ensures result == Cancelled ==> socket.broken || exists r: nat :: r <= videoInfo.height && cancel(r)
      ensures result != Success && result != Cancelled ==> target[..] == old(target[..])
      ensures result == Success ==>
                && nextFrame == old(nextFrame) + 1 && delivered == old(delivered) + [f.frameIndex]
                && socket.read == old(socket.read) + f.payloadSize
                && RowsCopied(old(target[..]), target[..], socket.incoming[old(socket.read)..socket.read],
                              videoInfo.height, videoInfo.width, t.pitch, t.rgba)
    {
      if nextFrame == U64_MAX { return Integrity; }
      nextFrame := nextFrame + 1;
      if allocationFails { return NoMemory; }
      result := TakePixels(target, t, f, cancel);
      if result == Success { delivered := delivered + [f.frameIndex]; }
    }

    /** What a successful call leaves: the next frame in the target, or the end of the stream and nothing touched. */
    ghost predicate FrameDelivered(f: FrameInfo, t: Target, next: nat, before: seq<nat>, was: seq<Byte>, now: seq<Byte>)
      reads this, socket
    {
      && f.frameIndex == next
      && if EndOfStream(f)
         then
           && nextFrame == next && delivered == before && now == was
           && (videoInfo.countKnown ==> next == videoInfo.frameCount)
         else
           && nextFrame == next + 1 && delivered == before + [next]
           && (videoInfo.countKnown ==> next < videoInfo.frameCount)
           && f.payloadSize == videoInfo.rowStride * videoInfo.height <= socket.read <= |socket.incoming|
           && RowsCopied(was, now, socket.incoming[socket.read - f.payloadSize..socket.read],
                         videoInfo.height, videoInfo.width, t.pitch, t.rgba)
    }

    /** Why a call for a frame that was sent may end without one. */
    ghost predicate FrameFails(result: Status, at: nat, id: nat, next: nat, allocationFails: bool, cancel: nat -> bool)
      reads this, socket
    {
      var announced := FrameAnswered(at, id);
      match result
      case Io => socket.broken || peerId == 0 || !announced
      case Cancelled => socket.broken || exists r: nat :: r <= videoInfo.height && cancel(r)
      case NoMemory => allocationFails
      case Integrity =>
        && announced && HasFrameRecord(socket.incoming, at)
        && (next == U64_MAX || !FrameAcceptable(videoInfo, next, FrameRecordAt(socket.incoming, at),
                                                HeaderAt(Mdc1, socket.incoming, at).payloadSize))
      case _ => false
    }

    /** What an accepted record says about the rest of its answer. */
    ghost predicate FrameDue(f: FrameInfo, at: nat, was: seq<Request>)
      reads this, socket
    {
      && Answered(Mdc1, socket.incoming, base, at, was, peerId) && Replied(MDC1_VIDEO_FRAME, was, at)
      && socket.read + f.payloadSize == MessageEnd(Mdc1, socket.incoming, at)
      && f.frameIndex == nextFrame && f.height == videoInfo.height
      && f.payloadSize == (if EndOfStream(f) then 0 else videoInfo.rowStride * videoInfo.height)
      && (videoInfo.countKnown ==>
            if EndOfStream(f) then f.frameIndex == videoInfo.frameCount else f.frameIndex < videoInfo.frameCount)
    }

    lemma AcceptableIsDue(f: FrameInfo, at: nat, was: seq<Request>)
      requires mediaType.Video? && Answered(Mdc1, socket.incoming, base, at, was, peerId)
      requires Replied(MDC1_VIDEO_FRAME, was, at)
      requires socket.read == at + 32 + VIDEO_FRAME_INFO_SIZE
      requires FrameAcceptable(videoInfo, nextFrame, f, HeaderAt(Mdc1, socket.incoming, at).payloadSize)
      ensures FrameDue(f, at, was)
    {
    }

    /** Takes the rest of the answer. */
    method FinishFrame(target: array<Byte>, t: Target, f: FrameInfo, ghost at: nat, ghost was: seq<Request>,
                       allocationFails: bool, cancel: nat -> bool)
      returns (result: Status)
      requires socket.Valid() && mediaType.Video? && VideoShape(videoInfo) && FrameDue(f, at, was)
      requires videoInfo.width <= t.width && videoInfo.height <= t.height && 4 * t.width <= t.pitch
      requires Offset(t.height, t.pitch) <= target.Length
      modifies this`nextFrame, this`delivered, socket, target
      ensures socket.Valid() && result in {Success, Cancelled, Io, Integrity, NoMemory}
      ensures result == Integrity ==> old(nextFrame) == U64_MAX
      ensures result == NoMemory ==> allocationFails
      ensures result == Io ==> socket.broken
      ensures result == Cancelled ==> socket.broken || exists r: nat :: r <= videoInfo.height && cancel(r)
      ensures result != Success && result != Cancelled ==> target[..] == old(target[..])
      ensures result == Success ==>
                AtBoundary() && FrameDelivered(f, t, old(nextFrame), old(delivered), old(target[..]), target[..])
    {
      FrameBytes(f);
      result := Success;
      if f.payloadSize != 0 {
        result := Deliver(target, t, f, allocationFails, cancel);
        if result != Success { return; }
      }
      Finished(at, was, MDC1_VIDEO_FRAME);
    }

    /** Takes one whole answer; the caller gives the session up unless this succeeds. */
    method TakeFrame(target: array<Byte>, t: Target, allocationFails: bool, cancel: nat -> bool)
      returns (result: Status, f: FrameInfo)
      requires Valid() && state.Published? && mediaType.Video?
      requires videoInfo.width <= t.width && videoInfo.height <= t.height && 4 * t.width <= t.pitch
      requires Offset(t.height, t.pitch) <= target.Length
      modifies this`nextRequestId, this`requests, this`nextFrame, this`delivered, socket, target
      ensures socket.Valid() && result in {Success, Cancelled, Io, Integrity, NoMemory}
      ensures result != Success && result != Cancelled ==> target[..] == old(target[..])
      ensures result != Success ==>
                FrameFails(result, old(socket.read), old(nextRequestId), old(nextFrame), allocationFails, cancel)
      ensures result == Success ==>
                && AtBoundary() && |requests| == |old(requests)| + 1
                && HasFrameRecord(socket.incoming, old(socket.read))
                && f == FrameRecordAt(socket.incoming, old(socket.read))
                && FrameDelivered(f, t, old(nextFrame), old(delivered), old(target[..]), target[..])
    {
      ghost var start := socket.read;
      result, f := ReadFrameRecord();
      if result != Success { return; }
      AcceptableIsDue(f, start, old(requests));
      result := FinishFrame(target, t, f, start, old(requests), allocationFails, cancel);
    }

    /** Only the end of the stream comes without pixels. */
    lemma FrameBytes(f: FrameInfo)
      requires VideoShape(videoInfo)
      requires f.payloadSize == (if EndOfStream(f) then 0 else videoInfo.rowStride * videoInfo.height)
      ensures f.payloadSize == 0 <==> EndOfStream(f)
    {
    }

    /** The answer to a video call that sends nothing. */
    function VideoRefusal(t: Target, cancelledFirst: bool): Option<Status>
      reads this
    {
      if !TargetValid(t) then Some(InvalidArgument)
      else if !state.Published? then Some(StaleHandle)
      else if !mediaType.Video? then Some(WrongType)
      else if cancelledFirst then Some(Cancelled)
      else if t.width < videoInfo.width || t.height < videoInfo.height then Some(BufferTooSmall)
      else None
    }

    /**
      * rin_media_sdk_client_video_decode_frame_v1, on the session the lookup found. `cancelledFirst`
      * and `cancel` are the answers of the caller's cancellation callback outside the transfers.
      */
    method VideoDecode(target: array<Byte>, t: Target, cancelledFirst: bool, allocationFails: bool, cancel: nat -> bool)
      returns (result: Status, f: FrameInfo)
      requires Valid() && Offset(t.height, t.pitch) <= target.Length
      modifies this, socket, target
      ensures Valid()
      ensures result != Success && result != Cancelled ==> target[..] == old(target[..])
      // a call that is refused sends nothing; one that fails gives the session up, and only for a reason
      ensures old(VideoRefusal(t, cancelledFirst)).Some? ==>
                && result == old(VideoRefusal(t, cancelledFirst)).value
                && state == old(state) && requests == old(requests) && target[..] == old(target[..])
      ensures old(VideoRefusal(t, cancelledFirst)).None? && result != Success ==>
                && state == Free
                && FrameFails(result, old(socket.read), old(nextRequestId), old(nextFrame), allocationFails, cancel)
      // a call that succeeds delivers the next frame, or the end of the stream
      ensures result == Success ==>
                && state == old(state) && |requests| == |old(requests)| + 1
                && HasFrameRecord(socket.incoming, old(socket.read))
                && f == FrameRecordAt(socket.incoming, old(socket.read))
                && FrameDelivered(f, t, old(nextFrame), old(delivered), old(target[..]), target[..])
    {
      f := NO_FRAME;
      if !TargetValid(t) { return InvalidArgument, f; }
      if !state.Published? { return StaleHandle, f; }
      if !mediaType.Video? { return WrongType, f; }
      if cancelledFirst { return Cancelled, f; }
      if t.width < videoInfo.width || t.height < videoInfo.height { return BufferTooSmall, f; }
      result, f := TakeFrame(target, t, allocationFails, cancel);
      if result != Success { Retire(); }
    }

    /** rin_media_image_begin_request: sends a request and takes the header of its answer. */
    method BeginRequest(operation: nat, id: nat, payload: nat) returns (result: Status, reply: Header)
      requires socket.Valid() && AtBoundary() && mediaType.Image?
      modifies this`requests, socket
      ensures socket.Valid() && old(requests) <= requests
      ensures result == Success ==>
                && socket.read == old(socket.read) + HeaderSize(ImageService)
                && Replied(operation, old(requests), old(socket.read))
                && requests == old(requests) + [Request(operation, id)]
                && reply == HeaderAt(ImageService, socket.incoming, old(socket.read))
      ensures peerId == 0 || id == 0 ==> result == InvalidArgument && requests == old(requests)
      ensures peerId != 0 && id != 0 ==> requests == old(requests) + [Request(operation, id)]
      ensures peerId != 0 && id != 0 ==>
                var answered :=
                  AnswerAt(ImageService, socket.incoming, old(socket.read), Request(operation, id), peerId);
                if result == Io then socket.broken || !answered
                else answered && result == ResultOf(HeaderAt(ImageService, socket.incoming, old(socket.read)).status)
      ensures !Retires(result) && result != Success ==> AtBoundary()
    {
      reply := Header(0, 0, 0, 0, 0, 0, 0, 0, 0);
      if peerId == 0 || id == 0 { return InvalidArgument, reply; }
      var request := Request(operation, id);
      ghost var start, was := socket.read, requests;
      requests := requests + [request];
      var ok, cancelled := socket.Send(HeaderSize(ImageService), false);
      if ok && payload != 0 { ok, cancelled := socket.Send(payload, false); }
      if !ok { return Io, reply; }
      ok, cancelled, reply := socket.ReceiveHeader(ImageService, false);
      if !ok || !Answers(ImageService, reply, request, peerId) { return Io, reply; }
      if reply.status != 0 { Finished(start, was, operation); }
      return ResultOf(reply.status), reply;
    }

    /** The answer on the stream is one a decode of the frame accepts. */
    ghost predicate ImageAnswered(at: nat, id: nat, frame: nat, aggregate: bool)
      reads socket
    {
      ImageAnswer(socket.incoming, at, Request(IMAGE_DECODE, id), peerId, source.generation, frame, aggregate)
    }

    /** The request for a decode and the record of its answer. */
    method ReadImageRecord(id: nat, frame: nat, aggregate: bool) returns (result: Status, r: ImageInfo)
      requires socket.Valid() && AtBoundary() && mediaType.Image?
      modifies this`requests, socket
      ensures socket.Valid() && old(requests) <= requests
      ensures !Retires(result) ==> AtBoundary()
      ensures var answered := ImageAnswered(old(socket.read), id, frame, aggregate);
              if result == Success then
                && requests == old(requests) + [Request(IMAGE_DECODE, id)]
                && answered && r == ImageRecordAt(socket.incoming, old(socket.read))
              else socket.broken || peerId == 0 || id == 0 || !answered
    {
      r := NO_IMAGE;
      ghost var start := socket.read;
      var reply, ok, cancelled, record;
      result, reply := BeginRequest(IMAGE_DECODE, id, 112);
      if result != Success { return; }
      if reply.payloadSize != DECODE_RESPONSE_SIZE { return Integrity, r; }
      ok, cancelled, record := socket.ReceiveRecord(DECODE_RESPONSE_SIZE, false);
      if !ok { return Io, r; }
      r := ImageInfoOf(record);
      if !ImageAcceptable(r, id, source.generation, frame, aggregate) { return Integrity, r; }
      Finished(start, old(requests), IMAGE_DECODE);
    }

    /** The cache already holds the frame, under a budget at least as strict as the one asked for. */
    predicate Cached(frame: nat, compat: bool)
      reads this
    {
      decoded && decodedFrame == frame && (compat || decodedAggregate)
    }

    /** The answer to a decode that sends nothing. */
    function ImageRefusal(frame: nat, compat: bool): Option<Status>
      reads this
    {
      if source.capability == 0 || source.generation == 0 || source.size == 0 then Some(StaleHandle)
      else if Cached(frame, compat) then Some(Success)
      else if decodeRequestId == U64_MAX then Some(LimitExceeded)
      else if compat && frame != 0 then Some(InvalidArgument)
      else None
    }

    /** An acceptable image becomes the cache, under its request id. */
    method KeepImage(r: ImageInfo, frame: nat, compat: bool)
      requires ImageAcceptable(r, decodeRequestId + 1, source.generation, frame, !compat)
      modifies this`decoded, this`decodedFrame, this`decodedAggregate, this`decodeRequestId, this`imageInfo
      ensures CacheSound() && Cached(frame, compat) && imageInfo == r && decodeRequestId == old(decodeRequestId) + 1
    {
      imageInfo, decodeRequestId := r, decodeRequestId + 1;
      decoded, decodedFrame, decodedAggregate := true, frame, !compat;
    }

    /** Decodes a frame under a new request id; the cache changes only with an acceptable answer. */
    method FetchImage(frame: nat, compat: bool) returns (result: Status)
      requires socket.Valid() && AtBoundary() && mediaType.Image?
      modifies this`requests, this`decoded, this`decodedFrame, this`decodedAggregate, this`decodeRequestId,
               this`imageInfo, socket
      ensures socket.Valid() && old(requests) <= requests
      ensures !Retires(result) ==> AtBoundary()
      ensures old(CacheSound()) ==> CacheSound()
      ensures if result == Success then
                && Cached(frame, compat) && decodeRequestId == old(decodeRequestId) + 1
                && requests == old(requests) + [Request(IMAGE_DECODE, decodeRequestId)]
                && HasImageRecord(socket.incoming, old(socket.read))
                && imageInfo == ImageRecordAt(socket.incoming, old(socket.read))
              else
                && decodeRequestId == old(decodeRequestId) && imageInfo == old(imageInfo)
                && (|| socket.broken || peerId == 0
                    || !ImageAnswered(old(socket.read), old(decodeRequestId) + 1, frame, !compat))
    {
      var r;
      result, r := ReadImageRecord(decodeRequestId + 1, frame, !compat);
      if result != Success { return; }
      KeepImage(r, frame, compat);
    }

    /** rin_media_image_decode_locked: decodes a frame unless the cache holds it. */
    method ImageDecodeLocked(frame: nat, compat: bool) returns (result: Status)
      requires socket.Valid() && AtBoundary() && mediaType.Image?
      modifies this`requests, this`decoded, this`decodedFrame, this`decodedAggregate, this`decodeRequestId,
               this`imageInfo, socket
      ensures socket.Valid() && old(requests) <= requests
      ensures !Retires(result) ==> AtBoundary()
      ensures old(CacheSound()) ==> CacheSound()
      ensures result == Success ==> Cached(frame, compat)
      // the answers that send nothing
      ensures old(ImageRefusal(frame, compat)).Some? ==>
                result == old(ImageRefusal(frame, compat)).value && requests == old(requests)
      // a request fails only if a transfer fails or the answer is not acceptable
      ensures old(ImageRefusal(frame, compat)).None? && result != Success ==>
                || socket.broken || peerId == 0
                || !ImageAnswered(old(socket.read), old(decodeRequestId) + 1, frame, !compat)
      ensures result == Success && old(Cached(frame, compat)) ==>
                requests == old(requests) && decodeRequestId == old(decodeRequestId)
      ensures result == Success && !old(Cached(frame, compat)) ==>
                && decodeRequestId == old(decodeRequestId) + 1
                && requests == old(requests) + [Request(IMAGE_DECODE, decodeRequestId)]
      ensures result != Success ==> decodeRequestId == old(decodeRequestId) && imageInfo == old(imageInfo)
    {
      if source.capability == 0 || source.generation == 0 || source.size == 0 { return StaleHandle; }
      if Cached(frame, compat) { return Success; }
      if decodeRequestId == U64_MAX { return LimitExceeded; }
      if compat && frame != 0 { return InvalidArgument; }
      result := FetchImage(frame, compat);
    }

    /** The answer on the stream is a chunk the call accepts. */
    ghost predicate ChunkAnswered(at: nat, offset: nat, capacity: nat)
      reads this, socket
    {
      ChunkAnswer(socket.incoming, at, Request(IMAGE_READ_PIXELS, decodeRequestId), peerId,
                  source.generation, offset, imageInfo.pixelBytes, capacity)
    }

    /** The request for a chunk and the record of its answer. */
    method ReadChunkRecord(offset: nat, capacity: nat) returns (result: Status, n: nat)
      requires socket.Valid() && AtBoundary() && mediaType.Image?
      modifies this`requests, socket
      ensures socket.Valid() && old(requests) <= requests
      ensures !Retires(result) && result != Success ==> AtBoundary()
      ensures result != Success ==>
                || socket.broken || peerId == 0 || decodeRequestId == 0
                || (requests == old(requests) + [Request(IMAGE_READ_PIXELS, decodeRequestId)]
                    && !ChunkAnswered(old(socket.read), offset, capacity))
      ensures result == Success ==>
                && 0 < n <= capacity && requests == old(requests) + [Request(IMAGE_READ_PIXELS, decodeRequestId)]
                && Replied(IMAGE_READ_PIXELS, old(requests), old(socket.read))
                && socket.read == old(socket.read) + HeaderSize(ImageService) + PIXEL_RESPONSE_SIZE
                && socket.read + n == MessageEnd(ImageService, socket.incoming, old(socket.read))
    {
      n := 0;
      var reply, ok, cancelled, record;
      result, reply := BeginRequest(IMAGE_READ_PIXELS, decodeRequestId, 72);
      if result != Success { return; }
      if !(PIXEL_RESPONSE_SIZE <= reply.payloadSize <= PIXEL_RESPONSE_SIZE + capacity) { return Integrity, n; }
      ok, cancelled, record := socket.ReceiveRecord(PIXEL_RESPONSE_SIZE, false);
      if !ok { return Io, n; }
      var c := ChunkInfoOf(record);
      if !ChunkAcceptable(c, decodeRequestId, source.generation, offset, imageInfo.pixelBytes, capacity,
                          reply.payloadSize) {
        return Integrity, n;
      }
      n := c.bytesRead;
    }

    /** One chunk of pixels, taken into output[offset..]. */
    method ReadChunk(output: array<Byte>, offset: nat, capacity: nat) returns (result: Status, n: nat)
      requires socket.Valid() && AtBoundary() && mediaType.Image?
      requires 0 < capacity && offset + capacity <= output.Length
      modifies this`requests, socket, output
      ensures socket.Valid() && old(requests) <= requests
      ensures !Retires(result) ==> AtBoundary()
      ensures output[..offset] == old(output[..offset])
      ensures output[offset + capacity..] == old(output[offset + capacity..])
      ensures result != Success ==>
                || socket.broken || peerId == 0 || decodeRequestId == 0
                || (requests == old(requests) + [Request(IMAGE_READ_PIXELS, decodeRequestId)]
                    && !ChunkAnswered(old(socket.read), offset, capacity))
      ensures result == Success ==>
                && 0 < n <= capacity && requests == old(requests) + [Request(IMAGE_READ_PIXELS, decodeRequestId)]
                && output[offset..offset + n] == ChunkPixels(socket.incoming, old(socket.read), socket.read)
    {
      ghost var start := socket.read;
      result, n := ReadChunkRecord(offset, capacity);
      if result != Success { return; }
      var ok, cancelled := socket.Receive(output, offset, n, false);
      SameFurtherBack(output[..], old(output[..]), offset + n, offset + capacity);
      if !ok { return Io, 0; }
      Finished(start, old(requests), IMAGE_READ_PIXELS);
    }

    /** `bytes` is the pixels of the answers since number `first`, all of them chunks of the decoded image. */
    ghost predicate Collected(bytes: seq<Byte>, first: nat)
      reads this, socket
    {
      && AtBoundary() && first <= |requests|
      && bytes == Pixels(socket.incoming, base, first, |requests|)
      && forall i :: first <= i < |requests| ==> requests[i] == Request(IMAGE_READ_PIXELS, decodeRequestId)
    }

    /** The answer to the last request is no chunk of `total` bytes that fits behind the ones since number `first`. */
    ghost predicate ChunkRefused(first: nat, id: nat, total: nat)
      reads this, socket
    {
      && first < |requests|
      && var n: nat := |requests| - 1;
         var offset := |Pixels(socket.incoming, base, first, n)|;
         !ChunkAnswer(socket.incoming, Boundary(ImageService, socket.incoming, base, n), Request(IMAGE_READ_PIXELS, id),
                      peerId, source.generation, offset, total, ChunkRoom(total, offset))
    }

    lemma ChunkWasRefused(was: seq<Request>, start: nat, offset: nat, capacity: nat, first: nat)
      requires |requests| == |was| + 1 && first <= |was|
      requires start == Boundary(ImageService, socket.incoming, base, |was|)
      requires offset == |Pixels(socket.incoming, base, first, |was|)|
      requires capacity == ChunkRoom(imageInfo.pixelBytes, offset)
      requires !ChunkAnswered(start, offset, capacity)
      ensures ChunkRefused(first, decodeRequestId, imageInfo.pixelBytes)
    {
    }

    /** A chunk behind the ones collected so far. */
    lemma CollectedOneMore(was: seq<Request>, start: nat, bytes: seq<Byte>, chunk: seq<Byte>, first: nat)
      requires mediaType.Image? && AtBoundary() && first <= |was|
      requires requests == was + [Request(IMAGE_READ_PIXELS, decodeRequestId)]
      requires start == Boundary(ImageService, socket.incoming, base, |was|)
      requires bytes == Pixels(socket.incoming, base, first, |was|)
      requires forall i :: first <= i < |was| ==> was[i] == Request(IMAGE_READ_PIXELS, decodeRequestId)
      requires chunk == ChunkPixels(socket.incoming, start, socket.read)
      ensures Collected(bytes + chunk, first)
    {
      PixelsOneMore(socket.incoming, base, first, |was|);
    }

    method CollectChunk(output: array<Byte>, offset: nat, total: nat, ghost first: nat) returns (result: Status, n: nat)
      requires socket.Valid() && mediaType.Image? && offset < total == imageInfo.pixelBytes <= output.Length
      requires Collected(output[..offset], first)
      modifies this`requests, socket, output
      ensures socket.Valid() && old(requests) <= requests
      ensures !Retires(result) ==> AtBoundary()
      ensures output[total..] == old(output[total..])
      ensures result == Success ==> 0 < n && offset + n <= total && Collected(output[..offset + n], first)
      ensures result != Success ==>
                socket.broken || peerId == 0 || decodeRequestId == 0 || ChunkRefused(first, decodeRequestId, total)
    {
      var capacity := ChunkRoom(total, offset);
      ghost var bytes := output[..offset];
      result, n := ReadChunk(output, offset, capacity);
      SameFurtherBack(output[..], old(output[..]), offset + capacity, total);
      if result != Success {
        if !(socket.broken || peerId == 0 || decodeRequestId == 0) {
          ChunkWasRefused(old(requests), old(socket.read), offset, capacity, first);
        }
        return;
      }
      CollectedOneMore(old(requests), old(socket.read), bytes, output[offset..offset + n], first);
      assert output[..offset + n] == bytes + output[offset..offset + n];
    }

    /** Why the pixels of an image cannot be had. */
    ghost predicate PixelsFail(first: nat, id: nat, total: nat)
      reads this, socket
    {
      socket.broken || peerId == 0 || id == 0 || total == 0 || ChunkRefused(first, id, total)
    }

    /** rin_media_image_read_pixels_locked: the output is the chunks of the answers, one behind the other. */
    method ReadPixels(output: array<Byte>) returns (result: Status)
      requires socket.Valid() && AtBoundary() && mediaType.Image? && imageInfo.pixelBytes <= output.Length
      modifies this`requests, socket, output
      ensures socket.Valid() && old(requests) <= requests
      ensures !Retires(result) ==> AtBoundary()
      ensures output[imageInfo.pixelBytes..] == old(output[imageInfo.pixelBytes..])
      ensures result == Success ==> Collected(output[..imageInfo.pixelBytes], |old(requests)|)
      // it fails only for a reason
      ensures result != Success ==> PixelsFail(|old(requests)|, decodeRequestId, imageInfo.pixelBytes)
    {
      var offset, total := 0, imageInfo.pixelBytes;
      if total == 0 || decodeRequestId == 0 { return InvalidArgument; }
      while offset < total
        invariant socket.Valid() && offset <= total && old(requests) <= requests
        invariant output[total..] == old(output[total..])
        invariant Collected(output[..offset], |old(requests)|)
      {
        var n;
        result, n := CollectChunk(output, offset, total, |old(requests)|);
        if result != Success { return; }
        offset := offset + n;
      }
      return Success;
    }

    /** Clears the output and fills it; after a failure it is clear again. */
    method FillImage(output: array<Byte>) returns (result: Status)
      requires socket.Valid() && AtBoundary() && mediaType.Image? && imageInfo.pixelBytes <= output.Length
      modifies this`requests, socket, output
      ensures socket.Valid()
      ensures !Retires(result) ==> AtBoundary()
      ensures output[imageInfo.pixelBytes..] == old(output[imageInfo.pixelBytes..])
      ensures result == Success ==> Collected(output[..imageInfo.pixelBytes], |old(requests)|)
      ensures result != Success ==> forall k :: 0 <= k < imageInfo.pixelBytes ==> output[k] == 0
      ensures result != Success ==> PixelsFail(|old(requests)|, decodeRequestId, imageInfo.pixelBytes)
    {
      Zero(output, imageInfo.pixelBytes);
      result := ReadPixels(output);
      if result != Success { Zero(output, imageInfo.pixelBytes); }
    }

    /** rin_media_sdk_client_image_info_v1. */
    method ImageDescribe() returns (result: Status, info: ImageInfo)
      requires Valid()
      modifies this, socket
      ensures Valid()
      ensures state == if old(state).Published? && mediaType.Image? && Retires(result) then Free else old(state)
      ensures result == Success ==> info == imageInfo && Cached(0, true)
      ensures old(state).Published? && mediaType.Image? ==>
                var refusal := old(ImageRefusal(0, true));
                if refusal.Some? then result == refusal.value && requests == old(requests)
                else result != Success ==>
                  || socket.broken || peerId == 0
                  || !ImageAnswered(old(socket.read), old(decodeRequestId) + 1, 0, false)
    {
      info := NO_IMAGE;
      if !state.Published? { return StaleHandle, info; }
      if !mediaType.Image? { return WrongType, info; }
      result := ImageDecodeLocked(0, true);
      if Retires(result) { Retire(); }
      if result == Success { info := imageInfo; }
    }

    /** Gives the decoded image to the caller, if it fits. */
    method DeliverImage(output: array<Byte>, size: nat) returns (result: Status)
      requires socket.Valid() && AtBoundary() && mediaType.Image? && size <= output.Length
      modifies this`requests, socket, output
      ensures socket.Valid()
      ensures !Retires(result) ==> AtBoundary()
      ensures output[size..] == old(output[size..])
      ensures size < imageInfo.pixelBytes ==>
                result == BufferTooSmall && requests == old(requests) && output[..] == old(output[..])
      ensures imageInfo.pixelBytes <= size ==> output[imageInfo.pixelBytes..] == old(output[imageInfo.pixelBytes..])
      ensures result == Success ==>
                imageInfo.pixelBytes <= size && Collected(output[..imageInfo.pixelBytes], |old(requests)|)
      ensures result != Success && imageInfo.pixelBytes <= size ==>
                forall k :: 0 <= k < imageInfo.pixelBytes ==> output[k] == 0
      ensures result != Success && imageInfo.pixelBytes <= size ==>
                PixelsFail(|old(requests)|, decodeRequestId, imageInfo.pixelBytes)
    {
      var required := imageInfo.pixelBytes;
      if size < required { return BufferTooSmall; }
      result := FillImage(output);
      SameFurtherBack(output[..], old(output[..]), required, size);
    }

    /** A decoded image fills four bytes a pixel. */
    lemma DecodedSize(frame: nat, compat: bool)
      requires CacheSound() && Cached(frame, compat)
      ensures 0 < imageInfo.pixelBytes == 4 * (imageInfo.width * imageInfo.height) <= IMAGE_MAX_OUTPUT
    {
      PositiveProduct(imageInfo.width, imageInfo.height);
    }

    /** Why a frame cannot be decoded: refused without a request, or no acceptable answer. */
    ghost predicate NotDecoded(result: Status, refusal: Option<Status>, was: seq<Request>, start: nat, id: nat,
                               frame: nat, compat: bool)
      reads this, socket
    {
      if refusal.Some? then refusal.value != Success && result == refusal.value && requests == was
      else socket.broken || peerId == 0 || !ImageAnswered(start, id + 1, frame, !compat)
    }

    /** A transfer has failed, or a chunk of the image is not acceptable. */
    ghost predicate NoPixels(first: nat, id: nat, total: nat)
      reads this, socket
    {
      socket.broken || peerId == 0 || ChunkRefused(first, id, total)
    }

    /** Decodes the frame and gives it to the caller. */
    method DecodeAndDeliver(frame: nat, output: array<Byte>, size: nat, compat: bool)
      returns (result: Status, required: nat)
      requires socket.Valid() && AtBoundary() && mediaType.Image? && CacheSound() && size <= output.Length
      requires decodeRequestId > 0
      modifies this`requests, this`decoded, this`decodedFrame, this`decodedAggregate, this`decodeRequestId,
               this`imageInfo, socket, output
      ensures socket.Valid() && CacheSound() && decodeRequestId > 0
      ensures !Retires(result) ==> AtBoundary()
      ensures output[size..] == old(output[size..])
      ensures required > size ==> result == BufferTooSmall
      ensures result != Success && required <= size ==> forall k :: 0 <= k < required ==> output[k] == 0
      ensures result == Success ==>
                && Cached(frame, compat) && required == imageInfo.pixelBytes <= size
                && required == 4 * (imageInfo.width * imageInfo.height) <= IMAGE_MAX_OUTPUT
                && output[required..] == old(output[required..])
                && Collected(output[..required], |old(requests)| + if old(Cached(frame, compat)) then 0 else 1)
      ensures result != Success && required == 0 ==>
                NotDecoded(result, old(ImageRefusal(frame, compat)), old(requests), old(socket.read),
                           old(decodeRequestId), frame, compat)
      ensures result != Success && 0 < required <= size ==>
                var fetched := if old(Cached(frame, compat)) then 0 else 1;
                NoPixels(|old(requests)| + fetched, old(decodeRequestId) + fetched, required)
    {
      required := 0;
      result := ImageDecodeLocked(frame, compat);
      if result == Success {
        DecodedSize(frame, compat);
        required := imageInfo.pixelBytes;
        result := DeliverImage(output, size);
      }
    }

    method DecodeOrRetire(frame: nat, output: array<Byte>, size: nat, compat: bool)
      returns (result: Status, required: nat)
      requires Valid() && state.Published? && mediaType.Image? && size <= output.Length
      modifies this, socket, output
      ensures Valid() && state == if Retires(result) then Free else Published
      ensures output[size..] == old(output[size..])
      ensures required > size ==> result == BufferTooSmall
      ensures result != Success && required <= size ==> forall k :: 0 <= k < required ==> output[k] == 0
      ensures result == Success ==>
                && Cached(frame, compat) && required == imageInfo.pixelBytes <= size
                && required == 4 * (imageInfo.width * imageInfo.height) <= IMAGE_MAX_OUTPUT
                && output[required..] == old(output[required..])
                && Collected(output[..required], |old(requests)| + if old(Cached(frame, compat)) then 0 else 1)
      ensures result != Success && required == 0 ==>
                NotDecoded(result, old(ImageRefusal(frame, compat)), old(requests), old(socket.read),
                           old(decodeRequestId), frame, compat)
      ensures result != Success && 0 < required <= size ==>
                var fetched := if old(Cached(frame, compat)) then 0 else 1;
                NoPixels(|old(requests)| + fetched, old(decodeRequestId) + fetched, required)
    {
      result, required := DecodeAndDeliver(frame, output, size, compat);
      if Retires(result) { Retire(); }
    }

    /** rin_media_sdk_client_image_decode_common on the session the lookup found; `size` is what the caller offers. */
    method ImageDecode(frame: nat, argb: bool, output: array<Byte>, size: nat, compat: bool)
      returns (result: Status, required: nat)
      requires Valid() && size <= output.Length
      modifies this, socket, output
      ensures Valid()
      ensures state == if argb && old(state).Published? && mediaType.Image? && Retires(result) then Free else old(state)
      ensures output[size..] == old(output[size..])
      ensures required > size ==> result == BufferTooSmall
      ensures result != Success && required <= size ==> forall k :: 0 <= k < required ==> output[k] == 0
      ensures result == Success ==>
                && Cached(frame, compat) && required == imageInfo.pixelBytes <= size
                && required == 4 * (imageInfo.width * imageInfo.height) <= IMAGE_MAX_OUTPUT
                && output[required..] == old(output[required..])
                && Collected(output[..required], |old(requests)| + if old(Cached(frame, compat)) then 0 else 1)
      // a call fails only for a reason
      ensures !(argb && old(state).Published? && mediaType.Image?) ==>
                && requests == old(requests)
                && result == if !argb then NotSupported else if !old(state).Published? then StaleHandle else WrongType
      ensures argb && old(state).Published? && mediaType.Image? && result != Success && required == 0 ==>
                NotDecoded(result, old(ImageRefusal(frame, compat)), old(requests), old(socket.read),
                           old(decodeRequestId), frame, compat)
      ensures result != Success && 0 < required <= size ==>
                var fetched := if old(Cached(frame, compat)) then 0 else 1;
                NoPixels(|old(requests)| + fetched, old(decodeRequestId) + fetched, required)
    {
      required := 0;
      if !argb { return NotSupported, required; }
      if !state.Published? { return StaleHandle, required; }
      if !mediaType.Image? { return WrongType, required; }
      result, required := DecodeOrRetire(frame, output, size, compat);
    }

    /**
      * rin_media_sdk_client_object_close_hook_v1: the owner tells an audio or video service, nobody waits for its
      * payload.
      */
    method Close(owner: bool)
      requires Valid()
      modifies this, socket
      ensures Valid() && state == if old(state).Published? then Free else old(state)
    {
      if !state.Published? { return; }
      if owner && !mediaType.Image? {
        var ok, cancelled, reply := Rpc(MDC1_CLOSE, 0, false);
      }
      Retire();
    }

    /** What has been read since the session was published is the whole answers to the requests sent, in order. */
    ghost predicate StreamIsAnswers()
      reads this, socket
    {
      && base <= socket.read <= |socket.incoming|
      && socket.incoming[base..socket.read] == Messages(Wire(), socket.incoming, base, |requests|)
    }

    ghost predicate FramesAreNumbered()
      reads this
    {
      |delivered| == nextFrame && forall k :: 0 <= k < nextFrame ==> delivered[k] == k
    }

    lemma PublishedMeans()
      requires Valid() && state.Published?
      ensures StreamIsAnswers() && FramesAreNumbered()
    {
      AnswersCoverTheStream(Wire(), socket.incoming, base, socket.read, requests, peerId);
      if nextFrame > 0 { FirstNumbersAt(nextFrame, 0); }
      forall k: nat | k < nextFrame ensures delivered[k] == k { FirstNumbersAt(nextFrame, k); }
    }

    /**
      * Any run of calls against any peer: while the session is published, what has been read of the
      * stream is exactly the answers to the requests sent, and the frames delivered are 0, 1, 2, ...
      */
    method Serve(calls: seq<Call>, output: array<Byte>)
      requires Valid() && forall i :: 0 <= i < |calls| ==> Fits(calls[i], output.Length)
      modifies this, socket, output
      ensures Valid()
      ensures state.Published? ==> StreamIsAnswers() && FramesAreNumbered()
    {
      for i := 0 to |calls|
        invariant Valid()
      {
        Perform(calls[i], output);
      }
      if state.Published? { PublishedMeans(); }
    }

    method Perform(call: Call, output: array<Byte>)
      requires Valid() && Fits(call, output.Length)
      modifies this, socket, output
      ensures Valid()
    {
      match call
      case AudioCall(size) => var result, frames := AudioDecode(output, size);
      case VideoCall(t, cancelledFirst, allocationFails, cancel) =>
        var result, f := VideoDecode(output, t, cancelledFirst, allocationFails, cancel);
      case ImageCall(frame, argb, size, compat) =>
        var result, required := ImageDecode(frame, argb, output, size, compat);
      case DescribeCall => var result, info := ImageDescribe();
      case CloseCall(owner) => Close(owner);
    }
  }

  datatype Call =
    | AudioCall(size: nat)
    | VideoCall(t: Target, cancelledFirst: bool, allocationFails: bool, cancel: nat -> bool)
    | ImageCall(frame: nat, argb: bool, size: nat, compat: bool)
    | DescribeCall
    | CloseCall(owner: bool)

  /** The caller's memory holds what the call may write. */
  predicate Fits(call: Call, length: nat) {
    match call
    case AudioCall(size) => size <= length
    case VideoCall(t, _, _, _) => Offset(t.height, t.pitch) <= length
    case ImageCall(_, _, size, _) => size <= length
    case DescribeCall => true
    case CloseCall(_) => true
  }

  lemma PositiveProduct(a: nat, b: nat)
    requires a > 0 && b > 0
    ensures a * b > 0
  {
  }

  /** How much of an image one request asks for. */
  function ChunkRoom(total: nat, offset: nat): nat {
    if offset >= total then 0 else if total - offset < PIXEL_CHUNK then total - offset else PIXEL_CHUNK
  }

  /** What is the same from `i` on is the same from `j` on. */
  lemma SameFurtherBack(a: seq<Byte>, b: seq<Byte>, i: nat, j: nat)
    requires i <= j <= |a| && |a| == |b| && a[i..] == b[i..]
    ensures a[j..] == b[j..]
  {
    assert a[j..] == a[i..][j - i..] && b[j..] == b[i..][j - i..];
  }

  method Zero(output: array<Byte>, n: nat)
    requires n <= output.Length
    modifies output
    ensures (forall k :: 0 <= k < n ==> output[k] == 0) && output[n..] == old(output[n..])
  {
    forall k | 0 <= k < n { output[k] := 0; }
  }

  /** How many frames a call asks for: as many as fit, and no more than the service gives at once. */
  function WholeFrames(size: nat, frameBytes: nat): (n: nat)
    requires 0 < frameBytes <= 16
    ensures n <= AUDIO_MAX_FRAMES && n * frameBytes <= size
    ensures n == 0 <==> size < frameBytes
  {
    var n := size / frameBytes;
    assert n * frameBytes <= size;
    if n > AUDIO_MAX_FRAMES then
      assert AUDIO_MAX_FRAMES * frameBytes <= n * frameBytes;
      AUDIO_MAX_FRAMES
    else n
  }

  lemma FewerFrames(frames: nat, maximum: nat, frameBytes: nat)
    requires frames <= maximum
    ensures frames * frameBytes <= Offset(maximum, frameBytes)
  {
    OffsetIsProduct(frames, frameBytes);
    if frames < maximum { OffsetGrows(frames, maximum, frameBytes); }
  }
}
