/** Image decoding: the records of the decoder service, what the client accepts of them, and the pixels they carry. */
module MediaImages {
  import opened MediaWire
  import opened Words

  /** What registering the source has left in the session. */
  datatype ImageSource = ImageSource(capability: nat, generation: nat, size: nat)

  const TRANSPORT_VERSION: nat := 3
  const IMAGE_MAX_DIMENSION: nat := 4096
  const IMAGE_MAX_PIXELS: nat := 16777216
  const IMAGE_MAX_OUTPUT: nat := 67108864
  const IMAGE_MAX_FRAMES: nat := 1024
  const PIXEL_CHUNK: nat := 65536
  const PIXEL_FORMAT_ARGB8888: nat := 1
  const DECODE_RESPONSE_SIZE: nat := 80
  const PIXEL_RESPONSE_SIZE: nat := 72

  /** What a status on the wire means to the caller. */
  function ResultOf(status: int): Status {
    match status
    case 0 => Success
    case -1 => InvalidArgument
    case -2 => NotSupported
    case -3 => AccessDenied
    case -4 => Timeout
    case -5 => Cancelled
    case -6 => StaleHandle
    case -8 => NotSupported
    case -9 => LimitExceeded
    case -10 => LimitExceeded
    case _ => Integrity
  }

  /** The results that end an image session. */
  predicate Retires(result: Status) { result.Io? || result.Integrity? || result.StaleHandle? }

  datatype ImageInfo = ImageInfo(
    structSize: nat, version: nat, status: nat, flags: nat, requestId: nat, generation: nat, width: nat, height: nat,
    stride: nat, pixelBytes: nat, frameCount: nat, pixelFormat: nat, frameKind: nat, frameIndex: nat, timing: nat)

  function ImageInfoOf(bytes: seq<Byte>): ImageInfo
    requires |bytes| == DECODE_RESPONSE_SIZE
  {
    ImageInfo(Field(bytes, 0, 4), Field(bytes, 4, 2), Field(bytes, 6, 2), Field(bytes, 8, 4), Field(bytes, 16, 8),
              Field(bytes, 24, 8), Field(bytes, 32, 4), Field(bytes, 36, 4), Field(bytes, 40, 4), Field(bytes, 44, 4),
              Field(bytes, 48, 4), Field(bytes, 52, 4), Field(bytes, 56, 4), Field(bytes, 64, 8), Field(bytes, 72, 8))
  }

  const NO_IMAGE := ImageInfo(0, 0, 0, 0, 0, 0, 0, 0, 0, 0, 0, 0, 0, 0, 0)

  /** Everything the client checks of a decode response; `aggregate` is the budget over all frames. */
  predicate ImageAcceptable(r: ImageInfo, requestId: nat, generation: nat, frame: nat, aggregate: bool) {
    && r.structSize == DECODE_RESPONSE_SIZE && r.version == TRANSPORT_VERSION && r.status == 0 && r.flags < 2
    && r.requestId == requestId && r.generation == generation
    && 0 < r.width <= IMAGE_MAX_DIMENSION && 0 < r.height <= IMAGE_MAX_DIMENSION && r.stride == 4 * r.width
    && 0 < r.frameCount <= IMAGE_MAX_FRAMES
    && (r.frameKind == 0 ==> r.frameCount == 1) && (r.frameKind == 1 ==> r.frameCount > 1) && r.frameKind <= 1
    && r.pixelFormat == PIXEL_FORMAT_ARGB8888
    && r.frameIndex == frame < r.frameCount
    && (r.flags == 0 ==> r.timing < U32)
    && r.width * r.height <= IMAGE_MAX_PIXELS && 4 * (r.width * r.height) <= IMAGE_MAX_OUTPUT
    && (aggregate ==> 4 * (r.width * r.height) * r.frameCount <= IMAGE_MAX_OUTPUT)
    && r.pixelBytes == 4 * (r.width * r.height)
  }

  datatype ChunkInfo = ChunkInfo(
    structSize: nat, version: nat, status: nat, flags: nat, requestId: nat, generation: nat, offset: nat, total: nat,
    bytesRead: nat, reserved0: nat, reserved1: nat, reserved2: nat)

  function ChunkInfoOf(bytes: seq<Byte>): ChunkInfo
    requires |bytes| == PIXEL_RESPONSE_SIZE
  {
    ChunkInfo(Field(bytes, 0, 4), Field(bytes, 4, 2), Field(bytes, 6, 2), Field(bytes, 8, 4), Field(bytes, 16, 8),
              Field(bytes, 24, 8), Field(bytes, 32, 8), Field(bytes, 40, 4), Field(bytes, 44, 4), Field(bytes, 48, 4),
              Field(bytes, 56, 8), Field(bytes, 64, 8))
  }

  /** Everything the client checks of a chunk before it takes the bytes. */
  predicate ChunkAcceptable(c: ChunkInfo, requestId: nat, generation: nat, offset: nat, total: nat, capacity: nat,
                            announced: nat) {
    && c.structSize == PIXEL_RESPONSE_SIZE && c.version == TRANSPORT_VERSION && c.status == 0 && c.flags == 0
    && c.requestId == requestId && c.generation == generation && c.offset == offset && c.total == total
    && 0 < c.bytesRead <= capacity && announced == PIXEL_RESPONSE_SIZE + c.bytesRead
    && c.reserved0 == 0 && c.reserved1 == 0 && c.reserved2 == 0
  }

  // ---------- Answers on the stream ----------

  predicate HasImageRecord(incoming: seq<Byte>, at: nat) { at + 48 + DECODE_RESPONSE_SIZE <= |incoming| }

  function ImageRecordAt(incoming: seq<Byte>, at: nat): ImageInfo
    requires HasImageRecord(incoming, at)
  {
    ImageInfoOf(incoming[at + 48..at + 48 + DECODE_RESPONSE_SIZE])
  }

  /** An answer to DECODE the client accepts. */
  predicate ImageAnswer(incoming: seq<Byte>, at: nat, r: Request, peerId: nat, generation: nat, frame: nat,
                        aggregate: bool) {
    && AnswerAt(ImageService, incoming, at, r, peerId) && HasImageRecord(incoming, at)
    && HeaderAt(ImageService, incoming, at).status == 0
    && HeaderAt(ImageService, incoming, at).payloadSize == DECODE_RESPONSE_SIZE
    && ImageAcceptable(ImageRecordAt(incoming, at), r.id, generation, frame, aggregate)
  }

  predicate HasChunkRecord(incoming: seq<Byte>, at: nat) { at + 48 + PIXEL_RESPONSE_SIZE <= |incoming| }

  function ChunkRecordAt(incoming: seq<Byte>, at: nat): ChunkInfo
    requires HasChunkRecord(incoming, at)
  {
    ChunkInfoOf(incoming[at + 48..at + 48 + PIXEL_RESPONSE_SIZE])
  }

  /** An answer to READ_PIXELS the client accepts. */
  predicate ChunkAnswer(incoming: seq<Byte>, at: nat, r: Request, peerId: nat, generation: nat, offset: nat,
                        total: nat, capacity: nat) {
    && AnswerAt(ImageService, incoming, at, r, peerId) && HasChunkRecord(incoming, at)
    && HeaderAt(ImageService, incoming, at).status == 0
    && ChunkAcceptable(ChunkRecordAt(incoming, at), r.id, generation, offset, total, capacity,
                       HeaderAt(ImageService, incoming, at).payloadSize)
  }

  // ---------- Pixels on the stream ----------

  /** The pixels of the message at incoming[at..end]: what follows its header and its chunk record. */
  function ChunkPixels(incoming: seq<Byte>, at: nat, end: nat): seq<Byte> {
    var start := at + HeaderSize(ImageService) + PIXEL_RESPONSE_SIZE;
    if start <= end <= |incoming| then incoming[start..end] else []
  }

  /** The pixels of the answers number `first` to `last` behind `from`, one behind the other. */
  function Pixels(incoming: seq<Byte>, from: nat, first: nat, last: nat): seq<Byte>
    decreases last
  {
    if last <= first then [] else
    Pixels(incoming, from, first, last - 1)
    + ChunkPixels(incoming, Boundary(ImageService, incoming, from, last - 1),
                  Boundary(ImageService, incoming, from, last))
  }

  lemma PixelsOneMore(incoming: seq<Byte>, from: nat, first: nat, last: nat)
    requires first <= last
    ensures Pixels(incoming, from, first, last + 1) ==
              Pixels(incoming, from, first, last)
                + ChunkPixels(incoming, Boundary(ImageService, incoming, from, last),
                              Boundary(ImageService, incoming, from, last + 1))
  {
  }
}
