/** Video frames: the record the client checks, frame numbers, and the pixel copy. */
module MediaFrames {
  import opened MediaWire
  import opened Strides
  import opened Words

  datatype VideoInfo = VideoInfo(width: nat, height: nat, rowStride: nat, frameCount: nat, countKnown: bool)

  /** What opening a video session has checked of the stream's geometry. */
  predicate VideoShape(v: VideoInfo) { v.width > 0 && v.height > 0 && v.rowStride == 4 * v.width }

  const FORMAT_ARGB8888: nat := 1
  const VIDEO_FRAME_INFO_SIZE: nat := 72
  const VIDEO_MAX_FRAME_BYTES: nat := 67108864

  datatype FrameInfo = FrameInfo(
    structSize: nat, version: nat, width: nat, height: nat, format: nat, rowStride: nat, flags: nat, reserved0: nat,
    timestamp: nat, frameIndex: nat, payloadSize: nat, reserved1: nat, reserved2: nat)

  function FrameInfoOf(bytes: seq<Byte>): FrameInfo
    requires |bytes| == VIDEO_FRAME_INFO_SIZE
  {
    FrameInfo(Field(bytes, 0, 4), Field(bytes, 4, 4), Field(bytes, 8, 4), Field(bytes, 12, 4), Field(bytes, 16, 4),
              Field(bytes, 20, 4), Field(bytes, 24, 4), Field(bytes, 28, 4), Field(bytes, 32, 8), Field(bytes, 40, 8),
              Field(bytes, 48, 8), Field(bytes, 56, 8), Field(bytes, 64, 8))
  }

  /** Flag bit 0 is END_OF_STREAM, bit 1 TIMESTAMP_KNOWN. */
  predicate EndOfStream(f: FrameInfo) { f.flags % 2 == 1 }

  predicate TimestampKnown(f: FrameInfo) { f.flags / 2 % 2 == 1 }

  /** Everything the client checks of a frame record before it takes the pixels. */
  predicate FrameAcceptable(v: VideoInfo, next: nat, f: FrameInfo, announced: nat) {
    && f.structSize == VIDEO_FRAME_INFO_SIZE && f.version == 1
    && f.width == v.width && f.height == v.height && f.format == FORMAT_ARGB8888 && f.rowStride == v.rowStride
    && f.reserved0 == 0 && f.reserved1 == 0 && f.reserved2 == 0
    && f.frameIndex == next && f.flags < 4
    && (v.countKnown ==> if EndOfStream(f) then f.frameIndex == v.frameCount else f.frameIndex < v.frameCount)
    && (!TimestampKnown(f) ==> f.timestamp == 0)
    && v.rowStride * v.height <= VIDEO_MAX_FRAME_BYTES
    && f.payloadSize == (if EndOfStream(f) then 0 else v.rowStride * v.height)
    && announced == VIDEO_FRAME_INFO_SIZE + f.payloadSize
  }

  const MAX_DIMENSION: nat := 4096

  /** The caller's render target; `usable` is the descriptor, flag and format test. */
  datatype Target = Target(usable: bool, width: nat, height: nat, pitch: nat, rgba: bool)

  predicate TargetValid(t: Target) {
    && t.usable && t.width <= MAX_DIMENSION && t.height <= MAX_DIMENSION
    && 4 * t.width <= t.pitch && t.pitch * t.height <= VIDEO_MAX_FRAME_BYTES
  }

  /** The numbers of the first `n` frames. */
  function FirstNumbers(n: nat): seq<nat> {
    if n == 0 then [] else FirstNumbers(n - 1) + [n - 1]
  }

  /** FirstNumbers(n) is 0, 1, ..., n - 1: no gap and no repeat. */
  lemma {:induction false} FirstNumbersAt(n: nat, k: nat)
    requires k < n
    ensures |FirstNumbers(n)| == n && FirstNumbers(n)[k] == k
  {
    if n > 1 { FirstNumbersAt(n - 1, if k < n - 1 then k else 0); }
  }

  // ---------- Pixels ----------

  /** Where channel `k` of an output pixel comes from: RGBA swaps red and blue. */
  function Channel(k: nat, rgba: bool): nat
    requires k < 4
  {
    if rgba && k != 1 && k != 3 then 2 - k else k
  }

  /** The byte of the received row that byte `k` of the stored row holds. */
  function Source(k: nat, rgba: bool): (source: nat)
    ensures 4 * (k / 4) <= source < 4 * (k / 4) + 4
  {
    k - k % 4 + Channel(k % 4, rgba)
  }

  /** The swap stays inside its pixel and undoes itself. */
  lemma SourceStaysAndReturns(k: nat, rgba: bool)
    ensures Source(k, rgba) / 4 == k / 4 && Source(k, rgba) % 4 == Channel(k % 4, rgba)
    ensures Source(Source(k, rgba), rgba) == k
  {
    var pixel := k / 4;
    assert k == 4 * pixel + k % 4;
  }

  lemma SourceInPixel(pixel: nat, rgba: bool)
    ensures forall k :: 4 * pixel <= k < 4 * pixel + 4 ==> Source(k, rgba) == 4 * pixel + Channel(k - 4 * pixel, rgba)
  {
  }

  lemma SourceInRow(width: nat, rgba: bool)
    ensures forall k :: 0 <= k < 4 * width ==> Source(k, rgba) < 4 * width
  {
  }

  /** `now` holds row `r` of the pixels at the pitch of the target, and the padding behind it as it was. */
  ghost predicate RowCopied(was: seq<Byte>, now: seq<Byte>, pixels: seq<Byte>, r: nat, width: nat, pitch: nat,
                            rgba: bool) {
    var at, from := Offset(r, pitch), Offset(r, 4 * width);
    && 4 * width <= pitch && at + pitch <= |was| == |now| && from + 4 * width <= |pixels|
    && forall x :: at <= x < at + pitch ==>
         now[x] == if x < at + 4 * width then pixels[from + Source(x - at, rgba)] else was[x]
  }

  /** What a successful frame leaves: every row copied, every byte behind the last row as it was. */
  ghost predicate RowsCopied(was: seq<Byte>, now: seq<Byte>, pixels: seq<Byte>, rows: nat, width: nat, pitch: nat,
                             rgba: bool) {
    && |now| == |was|
    && (forall r: nat :: r < rows ==> RowCopied(was, now, pixels, r, width, pitch, rgba))
    && (forall x: nat :: Offset(rows, pitch) <= x < |was| ==> now[x] == was[x])
  }

  /** Copies one pixel, swapping red and blue for RGBA. */
  method CopyPixel(target: array<Byte>, at: nat, pixels: array<Byte>, from: nat, rgba: bool)
    requires target != pixels && at + 4 <= target.Length && from + 4 <= pixels.Length
    modifies target
    ensures forall x :: at <= x < at + 4 ==> target[x] == pixels[from + Channel(x - at, rgba)]
    ensures forall x :: 0 <= x < target.Length && !(at <= x < at + 4) ==> target[x] == old(target[x])
  {
    target[at] := pixels[from + if rgba then 2 else 0];
    target[at + 1] := pixels[from + 1];
    target[at + 2] := pixels[from + if rgba then 0 else 2];
    target[at + 3] := pixels[from + 3];
  }

  method CopyRow(target: array<Byte>, at: nat, pixels: array<Byte>, from: nat, width: nat, rgba: bool)
    requires target != pixels && at + 4 * width <= target.Length && from + 4 * width <= pixels.Length
    modifies target
    ensures forall k :: 0 <= k < 4 * width ==> Source(k, rgba) < 4 * width
    ensures forall x :: at <= x < at + 4 * width ==> target[x] == pixels[from + Source(x - at, rgba)]
    ensures forall x :: 0 <= x < target.Length && !(at <= x < at + 4 * width) ==> target[x] == old(target[x])
  {
    SourceInRow(width, rgba);
    var source, destination := from, at;
    for column := 0 to width
      invariant source == from + 4 * column && destination == at + 4 * column
      invariant forall x :: at <= x < destination ==> target[x] == pixels[from + Source(x - at, rgba)]
      invariant forall x :: 0 <= x < target.Length && !(at <= x < destination) ==> target[x] == old(target[x])
    {
      SourceInPixel(column, rgba);
      CopyPixel(target, destination, pixels, source, rgba);
      source, destination := source + 4, destination + 4;
    }
  }

  /** Copies row `row` into its place in the target. */
  method StoreRow(target: array<Byte>, pixels: array<Byte>, row: nat, rows: nat, width: nat, pitch: nat, rgba: bool)
    requires target != pixels && 4 * width <= pitch && row < rows
    requires Offset(rows, 4 * width) <= pixels.Length && Offset(rows, pitch) <= target.Length
    modifies target
    ensures RowCopied(old(target[..]), target[..], pixels[..], row, width, pitch, rgba)
    ensures forall x :: 0 <= x < target.Length && !(Offset(row, pitch) <= x < Offset(row + 1, pitch)) ==>
              target[x] == old(target[x])
  {
    OffsetGrows(row, rows, 4 * width);
    OffsetGrows(row, rows, pitch);
    OffsetIsProduct(row, 4 * width);
    OffsetIsProduct(row, pitch);
    var at, from := row * pitch, row * (4 * width);
    assert at == Offset(row, pitch) && from == Offset(row, 4 * width);
    CopyRow(target, at, pixels, from, width, rgba);
    RowIsCopied(old(target[..]), target[..], pixels[..], row, width, pitch, rgba);
  }

  lemma RowIsCopied(was: seq<Byte>, now: seq<Byte>, pixels: seq<Byte>, row: nat, width: nat, pitch: nat, rgba: bool)
    requires var at, from := Offset(row, pitch), Offset(row, 4 * width);
             && 4 * width <= pitch && at + pitch <= |was| == |now| && from + 4 * width <= |pixels|
             && (forall k :: 0 <= k < 4 * width ==> Source(k, rgba) < 4 * width)
             && (forall x :: at <= x < at + 4 * width ==> now[x] == pixels[from + Source(x - at, rgba)])
             && (forall x :: 0 <= x < |now| && !(at <= x < at + 4 * width) ==> now[x] == was[x])
    ensures RowCopied(was, now, pixels, row, width, pitch, rgba)
    ensures forall x :: 0 <= x < |now| && !(Offset(row, pitch) <= x < Offset(row + 1, pitch)) ==> now[x] == was[x]
  {
  }

  /** One more row: the rows above it stay copied, the bytes behind it stay as they were. */
  lemma OneMoreRow(was: seq<Byte>, before: seq<Byte>, now: seq<Byte>, pixels: seq<Byte>, row: nat, width: nat,
                   pitch: nat, rgba: bool)
    requires RowsCopied(was, before, pixels, row, width, pitch, rgba)
    requires RowCopied(before, now, pixels, row, width, pitch, rgba)
    requires forall x :: 0 <= x < |now| && !(Offset(row, pitch) <= x < Offset(row + 1, pitch)) ==> now[x] == before[x]
    ensures RowsCopied(was, now, pixels, row + 1, width, pitch, rgba)
  {
    forall r: nat | r <= row ensures RowCopied(was, now, pixels, r, width, pitch, rgba) {
      if r < row {
        assert RowCopied(was, before, pixels, r, width, pitch, rgba);
        OffsetGrows(r, row, pitch);
      }
    }
  }

  /** Copies every row; a cancellation polled before a row, or behind the last one, stops it. */
  method CopyRows(target: array<Byte>, pixels: array<Byte>, rows: nat, width: nat, pitch: nat, rgba: bool,
                  cancel: nat -> bool)
    returns (cancelled: bool)
    requires target != pixels && 4 * width <= pitch
    requires Offset(rows, 4 * width) <= pixels.Length && Offset(rows, pitch) <= target.Length
    modifies target
    ensures !cancelled ==> RowsCopied(old(target[..]), target[..], pixels[..], rows, width, pitch, rgba)
    ensures cancelled <==> exists r: nat :: r <= rows && cancel(r)
  {
    ghost var was := target[..];
    for row := 0 to rows
      invariant forall r: nat :: r < row ==> !cancel(r)
      invariant RowsCopied(was, target[..], pixels[..], row, width, pitch, rgba)
    {
      if cancel(row) { return true; }
      ghost var before := target[..];
      StoreRow(target, pixels, row, rows, width, pitch, rgba);
      OneMoreRow(was, before, target[..], pixels[..], row, width, pitch, rgba);
    }
    return cancel(rows);
  }
}
