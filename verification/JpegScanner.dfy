/** The JPEG size scanner.  It walks the marker segments of a stream (ITU-T T.81, section
    B.1.1) until a start-of-frame segment gives the image height and width. */
module JpegScanner {

  type Byte = b: int | 0 <= b < 256

  datatype Size = NoSize | Size(width: nat, height: nat)

  /** One step of the stream before the frame header. */
  datatype RawPiece =
    | Stray(value: Byte)                                 // a byte that is not FF
    | Standalone(fill: nat, marker: Byte)                // D0..D9: no length follows
    | Segment(fill: nat, marker: Byte, payload: seq<Byte>)

  /** A frame header: `tail` is what follows the width (component list). */
  datatype RawFrame = Frame(fill: nat, marker: Byte, precision: Byte, height: nat, width: nat, tail: seq<Byte>)

  predicate IsSof(marker: Byte) {
    0xC0 <= marker < 0xC4 || 0xC5 <= marker < 0xC8 || 0xC9 <= marker < 0xCC || 0xCD <= marker < 0xD0
  }

  predicate IsStandalone(marker: Byte) {
    0xD0 <= marker <= 0xD9
  }

  /** The frame headers are C0 to CF without the tables DHT (C4), JPG (C8) and DAC (CC). */
  lemma FrameMarkers(marker: Byte)
    ensures IsSof(marker) <==> marker / 16 == 0xC && marker !in {0xC4, 0xC8, 0xCC}
    ensures IsStandalone(marker) <==> marker / 16 == 0xD && marker % 16 <= 9
  {
  }

  predicate ValidPiece(p: RawPiece) {
    match p
    case Stray(value) => value != 0xFF
    case Standalone(_, marker) => IsStandalone(marker)
    case Segment(_, marker, payload) =>
      !IsStandalone(marker) && !IsSof(marker) && marker != 0xFF && |payload| + 2 < 0x1_0000
  }

  predicate ValidFrame(f: RawFrame) {
    IsSof(f.marker) && f.height < 0x1_0000 && f.width < 0x1_0000 && |f.tail| + 7 < 0x1_0000
  }

  type Piece = p: RawPiece | ValidPiece(p) witness Stray(0)

  type Frame = f: RawFrame | ValidFrame(f) witness Frame(0, 0xC0, 8, 1, 1, [])

  function Fill(n: nat): (bytes: seq<Byte>)
    ensures |bytes| == n && forall i :: 0 <= i < n ==> bytes[i] == 0xFF
  {
    seq(n, _ => 0xFF)
  }

  function BigEndian(n: nat): (bytes: seq<Byte>)
    requires n < 0x1_0000
    ensures |bytes| == 2
  {
    [n / 256, n % 256]
  }

  /** A marker with its mandatory FF and any number of further fill bytes. */
  function MarkerBytes(fill: nat, marker: Byte): seq<Byte> {
    Fill(fill + 1) + [marker]
  }

  function EncodePiece(p: Piece): seq<Byte>
  {
    match p
    case Stray(value) => [value]
    case Standalone(fill, marker) => MarkerBytes(fill, marker)
    case Segment(fill, marker, payload) => MarkerBytes(fill, marker) + BigEndian(|payload| + 2) + payload
  }

  function EncodePieces(pieces: seq<Piece>): seq<Byte>
  {
    if pieces == [] then [] else EncodePiece(pieces[0]) + EncodePieces(pieces[1..])
  }

  /** The seven bytes between the marker and the rest of a frame header. */
  function Header(f: Frame): (bytes: seq<Byte>)
    ensures |bytes| == 7
  {
    BigEndian(|f.tail| + 7) + [f.precision] + BigEndian(f.height) + BigEndian(f.width)
  }

  function EncodeFrame(f: Frame): seq<Byte>
  {
    MarkerBytes(f.fill, f.marker) + (Header(f) + f.tail)
  }

  /** `struct.unpack(">H", ...)` */
  function Word(high: Byte, low: Byte): (w: nat)
    ensures w < 0x1_0000
  {
    high as int * 256 + low as int
  }

  lemma BigEndianWord(high: Byte, low: Byte)
    ensures BigEndian(Word(high, low)) == [high, low]
  {
  }

  lemma WordBigEndian(n: nat)
    requires n < 0x1_0000
    ensures Word(BigEndian(n)[0], BigEndian(n)[1]) == n
  {
  }

  /** The header's words and its precision. */
  lemma HeaderHolds(f: Frame)
    ensures var b := Header(f);
            && Word(b[0], b[1]) == |f.tail| + 7 && b[2] == f.precision
            && Word(b[3], b[4]) == f.height && Word(b[5], b[6]) == f.width
  {
    WordBigEndian(|f.tail| + 7);
    WordBigEndian(f.height);
    WordBigEndian(f.width);
  }

  /** Seven bytes with these words are the header. */
  lemma HeaderIs(f: Frame, b: seq<Byte>)
    requires |b| == 7 && Word(b[0], b[1]) == |f.tail| + 7 && b[2] == f.precision
    requires Word(b[3], b[4]) == f.height && Word(b[5], b[6]) == f.width
    ensures Header(f) == b
  {
    BigEndianWord(b[0], b[1]);
    BigEndianWord(b[3], b[4]);
    BigEndianWord(b[5], b[6]);
  }

  /** How many FF bytes `data` holds from `offset` on. */
  function FillRun(data: seq<Byte>, offset: nat): (n: nat)
    requires offset <= |data|
    ensures offset + n <= |data|
    decreases |data| - offset
  {
    if offset < |data| && data[offset] == 0xFF then 1 + FillRun(data, offset + 1) else 0
  }

  lemma {:induction false} FillRunHolds(data: seq<Byte>, offset: nat)
    requires offset <= |data|
    ensures var n := FillRun(data, offset);
            && (forall i :: offset <= i < offset + n ==> data[i] == 0xFF)
            && (offset + n < |data| ==> data[offset + n] != 0xFF)
    decreases |data| - offset
  {
    if offset < |data| && data[offset] == 0xFF {
      FillRunHolds(data, offset + 1);
    }
  }

  /** What one step of the scan does at `offset`. */
  datatype Step = Stop | Skip(length: nat) | Found(size: Size)

  function Read(data: seq<Byte>, offset: nat): (step: Step)
    requires offset <= |data|
    ensures step.Skip? ==> 0 < step.length <= |data| - offset
    ensures step.Found? ==> step.size.Size?
  {
    if |data| <= offset + 3 then Stop
    else if data[offset] != 0xFF then Skip(1)
    else
      var n := FillRun(data, offset);
      if offset + n == |data| then Stop else ReadMarker(data, offset, n)
  }

  /** The step at a marker whose first byte is preceded by `n` FF bytes. */
  function ReadMarker(data: seq<Byte>, offset: nat, n: nat): (step: Step)
    requires 0 < n < |data| - offset
    ensures step.Skip? ==> 0 < step.length <= |data| - offset
    ensures step.Found? ==> step.size.Size?
  {
    var marker, body := data[offset + n], offset + n + 1;
    if IsStandalone(marker) then Skip(n + 1)
    else if body + 2 > |data| then Stop
    else
      var length := Word(data[body], data[body + 1]);
      if length < 2 || body + length > |data| then Stop
      else if !IsSof(marker) then Skip(n + 1 + length)
      else if length < 7 then Stop
      else Found(Size(Word(data[body + 5], data[body + 6]), Word(data[body + 3], data[body + 4])))
  }

  function Scan(data: seq<Byte>, offset: nat): Size
    requires offset <= |data|
    decreases |data| - offset
  {
    match Read(data, offset)
    case Stop => NoSize
    case Skip(length) => Scan(data, offset + length)
    case Found(size) => size
  }

  lemma {:induction false} FillRunIs(data: seq<Byte>, offset: nat, n: nat)
    requires offset + n <= |data|
    requires forall i :: offset <= i < offset + n ==> data[i] == 0xFF
    requires offset + n < |data| ==> data[offset + n] != 0xFF
    ensures FillRun(data, offset) == n
    decreases n
  {
    if n > 0 {
      FillRunIs(data, offset + 1, n - 1);
    }
  }

  /** Skips the FF bytes in front of a marker. */
  method SkipFill(data: seq<Byte>, start: nat) returns (offset: nat)
    requires start < |data| && data[start] == 0xFF
    ensures offset == start + FillRun(data, start)
  {
    offset := start;
    while offset < |data| && data[offset] == 0xFF
      invariant start <= offset <= |data|
      invariant forall i :: start <= i < offset ==> data[i] == 0xFF
      decreases |data| - offset
    {
      offset := offset + 1;
    }
    FillRunIs(data, start, offset - start);
  }

  lemma {:induction false} MarkerStep(data: seq<Byte>, start: nat)
    requires start + 3 < |data| && data[start] == 0xFF
    ensures var n := FillRun(data, start);
            n > 0 && Read(data, start) == if start + n == |data| then Stop else ReadMarker(data, start, n)
  {
  }

  /** The scan has come to `offset`. */
  ghost predicate Scanning(data: seq<Byte>, offset: nat) {
    2 <= offset <= |data| && Scan(data, offset) == Scan(data, 2)
  }

  lemma StepSkips(data: seq<Byte>, start: nat, next: nat)
    requires Scanning(data, start) && start < next <= |data| && Read(data, start) == Skip(next - start)
    ensures Scanning(data, next)
  {
  }

  lemma {:induction false} StepEnds(data: seq<Byte>, start: nat)
    requires Scanning(data, start) && !Read(data, start).Skip?
    ensures Scan(data, 2) == if Read(data, start).Stop? then NoSize else Read(data, start).size
  {
  }

  /** The scanning loop; every index is proved in bounds and every iteration moves on. */
  method JpegDimensions(data: seq<Byte>) returns (size: Size)
    ensures size == if |data| < 4 || data[..2] != [0xFF, 0xD8] then NoSize else Scan(data, 2)
  {
    if |data| < 4 || data[0] != 0xFF || data[1] != 0xD8 {
      return NoSize;
    }
    assert data[..2] == [0xFF, 0xD8];
    size := ScanSegments(data);
  }

  method ScanSegments(data: seq<Byte>) returns (size: Size)
    requires |data| >= 2
    ensures size == Scan(data, 2)
  {
    var offset := 2;
    ghost var start := 2;
    while offset + 3 < |data|
      invariant start == offset && Scanning(data, start)
      decreases |data| - offset
    {
      start := offset;
      if data[offset] != 0xFF {
        offset := offset + 1;
        StepSkips(data, start, offset);
        start := offset;
        continue;
      }
      offset := SkipFill(data, offset);
      MarkerStep(data, start);
      if offset >= |data| {
        StepEnds(data, start);
        return NoSize;
      }
      var marker := data[offset];
      offset := offset + 1;
      if marker == 0xD8 || marker == 0xD9 || 0xD0 <= marker <= 0xD7 {
        StepSkips(data, start, offset);
        start := offset;
        continue;
      }
      if offset + 2 > |data| {
        StepEnds(data, start);
        return NoSize;
      }
      var length := Word(data[offset], data[offset + 1]);
      if length < 2 || offset + length > |data| {
        StepEnds(data, start);
        return NoSize;
      }
      if IsSof(marker) {
        StepEnds(data, start);
        if length < 7 {
          return NoSize;
        }
        var height := Word(data[offset + 3], data[offset + 4]);
        var width := Word(data[offset + 5], data[offset + 6]);
        return Size(width, height);
      }
      offset := offset + length;
      StepSkips(data, start, offset);
      start := offset;
    }
    StepEnds(data, start);
    size := NoSize;
  }

  /** A scan only looks forward: what precedes `offset` is irrelevant. */
  lemma ReadSuffix(data: seq<Byte>, offset: nat)
    requires offset <= |data|
    ensures Read(data[offset..], 0) == Read(data, offset)
  {
    var rest := data[offset..];
    FillRunHolds(data, offset);
    FillRunIs(rest, 0, FillRun(data, offset));
  }

  lemma ReadInSuffix(data: seq<Byte>, offset: nat, more: nat)
    requires offset + more <= |data|
    ensures Read(data[offset..], more) == Read(data, offset + more)
  {
    ReadSuffix(data, offset + more);
    ReadSuffix(data[offset..], more);
    assert data[offset..][more..] == data[offset + more..];
  }

  /** `one` is what `two` holds from `shift` on, as far as single steps can tell. */
  ghost predicate StepsAgree(one: seq<Byte>, two: seq<Byte>, shift: nat) {
    |one| + shift == |two| && forall i: nat :: i <= |one| ==> Read(one, i) == Read(two, i + shift)
  }

  lemma {:induction false} SameScan(one: seq<Byte>, two: seq<Byte>, shift: nat, i: nat)
    requires StepsAgree(one, two, shift) && i <= |one|
    ensures Scan(one, i) == Scan(two, i + shift)
    decreases |one| - i
  {
    var step := Read(one, i);
    assert step == Read(two, i + shift);
    if step.Skip? {
      SameScan(one, two, shift, i + step.length);
    }
  }

  lemma {:induction false} ScanSuffix(data: seq<Byte>, offset: nat, more: nat)
    requires offset + more <= |data|
    ensures Scan(data[offset..], more) == Scan(data, offset + more)
  {
    var rest := data[offset..];
    forall i: nat | i <= |rest| ensures Read(rest, i) == Read(data, i + offset) {
      ReadInSuffix(data, offset, i);
    }
    SameScan(rest, data, offset, more);
  }

  function Stream(pieces: seq<Piece>, frame: Frame, tail: seq<Byte>): seq<Byte> {
    EncodePieces(pieces) + (EncodeFrame(frame) + tail)
  }

  lemma StreamCons(first: Piece, later: seq<Piece>, frame: Frame, tail: seq<Byte>)
    ensures Stream([first] + later, frame, tail) == EncodePiece(first) + Stream(later, frame, tail)
  {
    assert ([first] + later)[1..] == later;
  }

  lemma StreamInFront(data: seq<Byte>, length: nat, first: Piece, later: seq<Piece>, frame: Frame, tail: seq<Byte>)
    requires length <= |data|
    requires data[..length] == EncodePiece(first) && data[length..] == Stream(later, frame, tail)
    ensures data == Stream([first] + later, frame, tail)
  {
    StreamCons(first, later, frame, tail);
    assert data == data[..length] + data[length..];
  }

  lemma ReadMarkerBytes(fill: nat, marker: Byte, tail: seq<Byte>)
    requires marker != 0xFF && fill + 2 + |tail| >= 4
    ensures var data := MarkerBytes(fill, marker) + tail;
            Read(data, 0) == ReadMarker(data, 0, fill + 1)
  {
    FillRunIs(MarkerBytes(fill, marker) + tail, 0, fill + 1);
  }

  /** One step reads exactly one encoded piece, whatever the payload bytes are. */
  lemma ReadPiece(p: Piece, tail: seq<Byte>)
    requires |tail| >= 3
    ensures Read(EncodePiece(p) + tail, 0) == Skip(|EncodePiece(p)|)
  {
    match p
    case Stray(value) =>
    case Standalone(fill, marker) =>
      ReadMarkerBytes(fill, marker, tail);
    case Segment(fill, marker, payload) =>
      ReadSegment(fill, marker, payload, tail);
  }

  lemma ReadSegment(fill: nat, marker: Byte, payload: seq<Byte>, tail: seq<Byte>)
    requires ValidPiece(Segment(fill, marker, payload)) && |tail| >= 3
    ensures var p := Segment(fill, marker, payload);
            Read(EncodePiece(p) + tail, 0) == Skip(|EncodePiece(p)|)
  {
    var front, length := MarkerBytes(fill, marker), BigEndian(|payload| + 2);
    var data := front + (length + payload + tail);
    ReadMarkerBytes(fill, marker, length + payload + tail);
    WordBigEndian(|payload| + 2);
    assert data[fill + 2] == length[0] && data[fill + 3] == length[1] && data[fill + 1] == marker;
    assert EncodePiece(Segment(fill, marker, payload)) + tail == data;
  }

  /** A frame header behind n FF bytes. */
  lemma ReadHeader(data: seq<Byte>, n: nat, f: Frame)
    requires 0 < n && n + 8 + |f.tail| <= |data| && data[n] == f.marker
    requires data[n + 1..n + 8] == Header(f)
    ensures ReadMarker(data, 0, n) == Found(Size(f.width, f.height))
  {
    HeaderHolds(f);
    var b := data[n + 1..n + 8];
    assert b[0] == data[n + 1] && b[1] == data[n + 2] && b[3] == data[n + 4] && b[4] == data[n + 5];
    assert b[5] == data[n + 6] && b[6] == data[n + 7];
  }

  lemma FrameBytes(f: Frame, tail: seq<Byte>)
    ensures var data := EncodeFrame(f) + tail;
            && data == MarkerBytes(f.fill, f.marker) + (Header(f) + f.tail + tail)
            && |data| == f.fill + 9 + |f.tail| + |tail| && data[f.fill + 1] == f.marker
            && data[f.fill + 2..f.fill + 9] == Header(f)
  {
    var front := MarkerBytes(f.fill, f.marker);
    assert |front| == f.fill + 2 && front[f.fill + 1] == f.marker;
    assert EncodeFrame(f) + tail == front + (Header(f) + f.tail + tail);
  }

  lemma ReadFrame(f: Frame, tail: seq<Byte>)
    ensures Read(EncodeFrame(f) + tail, 0) == Found(Size(f.width, f.height))
  {
    FrameBytes(f, tail);
    ReadMarkerBytes(f.fill, f.marker, Header(f) + f.tail + tail);
    ReadHeader(EncodeFrame(f) + tail, f.fill + 1, f);
  }

  /** Every stream of fill bytes, stray bytes, standalone markers and length-prefixed
      segments with arbitrary payloads, ended by a frame header, yields the header's size. */
  lemma {:induction false} StreamIsMeasured(pieces: seq<Piece>, frame: Frame, tail: seq<Byte>)
    ensures Scan(Stream(pieces, frame, tail), 0) == Size(frame.width, frame.height)
    decreases |pieces|
  {
    var data := Stream(pieces, frame, tail);
    if pieces == [] {
      assert data == EncodeFrame(frame) + tail;
      ReadFrame(frame, tail);
    } else {
      var first, later := EncodePiece(pieces[0]), Stream(pieces[1..], frame, tail);
      StreamCons(pieces[0], pieces[1..], frame, tail);
      assert pieces == [pieces[0]] + pieces[1..];
      ReadPiece(pieces[0], later);
      ScanSuffix(data, |first|, 0);
      assert data[|first|..] == later;
      StreamIsMeasured(pieces[1..], frame, tail);
    }
  }

  /** The piece that a skipping step has read. */
  lemma SkippedIsPiece(data: seq<Byte>) returns (piece: Piece)
    requires Read(data, 0).Skip?
    ensures data[..Read(data, 0).length] == EncodePiece(piece)
  {
    if data[0] != 0xFF {
      return Stray(data[0]);
    }
    var n := FillRun(data, 0);
    FillRunHolds(data, 0);
    assert data[..n + 1] == MarkerBytes(n - 1, data[n]);
    if IsStandalone(data[n]) {
      return Standalone(n - 1, data[n]);
    }
    var length := Word(data[n + 1], data[n + 2]);
    var payload := data[n + 3..n + 1 + length];
    BigEndianWord(data[n + 1], data[n + 2]);
    assert data[..n + 1 + length] == data[..n + 1] + [data[n + 1], data[n + 2]] + payload;
    return Segment(n - 1, data[n], payload);
  }

  lemma SplitAt(data: seq<Byte>, i: nat, j: nat, k: nat)
    requires i <= j <= k <= |data|
    ensures data == data[..i] + (data[i..j] + data[j..k]) + data[k..]
  {
  }

  /** What a successful step has found. */
  lemma {:induction false} FoundBytes(data: seq<Byte>)
    requires Read(data, 0).Found?
    ensures var n := FillRun(data, 0);
            && 0 < n && n + 8 <= |data| && IsSof(data[n])
            && var length := Word(data[n + 1], data[n + 2]);
               && 7 <= length && n + 1 + length <= |data|
               && Read(data, 0).size == Size(Word(data[n + 6], data[n + 7]), Word(data[n + 4], data[n + 5]))
  {
  }

  /** The frame header that a successful step has read. */
  lemma FoundIsFrame(data: seq<Byte>) returns (frame: Frame, tail: seq<Byte>)
    requires Read(data, 0).Found?
    ensures data == EncodeFrame(frame) + tail
    ensures Read(data, 0).size == Size(frame.width, frame.height)
  {
    FoundBytes(data);
    var n := FillRun(data, 0);
    var end := n + 1 + Word(data[n + 1], data[n + 2]);
    frame := Frame(n - 1, data[n], data[n + 3], Word(data[n + 4], data[n + 5]), Word(data[n + 6], data[n + 7]),
                   data[n + 8..end]);
    tail := data[end..];
    HeaderIs(frame, data[n + 1..n + 8]);
    SplitAt(data, n + 1, n + 8, end);
    FillRunHolds(data, 0);
    assert data[..n + 1] == MarkerBytes(n - 1, data[n]);
  }

  lemma {:induction false} MeasuredIsStream(data: seq<Byte>)
      returns (pieces: seq<Piece>, frame: Frame, tail: seq<Byte>)
    requires Scan(data, 0).Size?
    ensures data == Stream(pieces, frame, tail)
    ensures Scan(data, 0) == Size(frame.width, frame.height)
    decreases |data|
  {
    if Read(data, 0).Found? {
      pieces := [];
      frame, tail := FoundIsFrame(data);
    } else {
      var length := Read(data, 0).length;
      var first := SkippedIsPiece(data);
      ScanSuffix(data, length, 0);
      var later;
      later, frame, tail := MeasuredIsStream(data[length..]);
      pieces := [first] + later;
      StreamInFront(data, length, first, later, frame, tail);
    }
  }

  /** After the start-of-image bytes, the scanner measures exactly the streams of the grammar
      above, and each with the size in its frame header. */
  lemma {:induction false} MeasuredExactly(data: seq<Byte>, size: Size)
    requires |data| >= 2 && size.Size?
    ensures Scan(data, 2) == size <==>
            exists pieces: seq<Piece>, frame: Frame, tail: seq<Byte> ::
              data[2..] == Stream(pieces, frame, tail) && size == Size(frame.width, frame.height)
  {
    ScanSuffix(data, 2, 0);
    if Scan(data, 2) == size {
      var pieces, frame, tail := MeasuredIsStream(data[2..]);
      assert data[2..] == Stream(pieces, frame, tail);
    }
    forall pieces: seq<Piece>, frame: Frame, tail: seq<Byte> | data[2..] == Stream(pieces, frame, tail)
      ensures Scan(data, 2) == Size(frame.width, frame.height)
    {
      StreamIsMeasured(pieces, frame, tail);
    }
  }

  // ----- the standalone TEM marker -----

  const TEM: Byte := 0x01

  /** What the standard allows before the frame: TEM without a length, restart and image markers,
      and segments. */
  datatype StandardPiece = Tem(fill: nat) | Other(piece: Piece)

  predicate IsStandard(p: StandardPiece) {
    p.Other? ==> !p.piece.Stray? && (p.piece.Segment? ==> p.piece.marker != TEM)
  }

  function EncodeStandard(p: StandardPiece): seq<Byte> {
    match p
    case Tem(fill) => MarkerBytes(fill, TEM)
    case Other(piece) => EncodePiece(piece)
  }

  function StandardStream(pieces: seq<StandardPiece>, frame: Frame, tail: seq<Byte>): seq<Byte> {
    if pieces == [] then EncodeFrame(frame) + tail
    else EncodeStandard(pieces[0]) + StandardStream(pieces[1..], frame, tail)
  }

  ghost predicate AllStandard(pieces: seq<StandardPiece>) {
    forall p :: p in pieces ==> IsStandard(p)
  }

  lemma {:induction false} StandardStartsWithMarker(pieces: seq<StandardPiece>, frame: Frame, tail: seq<Byte>)
    requires AllStandard(pieces)
    ensures var data := StandardStream(pieces, frame, tail);
            |data| >= 3 && data[0] == 0xFF
    decreases |pieces|
  {
    if pieces != [] {
      assert IsStandard(pieces[0]);
      StandardStartsWithMarker(pieces[1..], frame, tail);
    }
  }

  /** What the scanner makes of the bytes behind a TEM marker: it takes the next two for a length. */
  function SizeBehindTem(rest: seq<Byte>): Size
    requires |rest| >= 2 && rest[0] == 0xFF
  {
    var length := Word(rest[0], rest[1]);
    if |rest| < length then NoSize else Scan(rest, length)
  }

  /** The size the scanner finds in a standard stream: that of the frame, unless a TEM marker comes
      first. */
  ghost function StandardSize(pieces: seq<StandardPiece>, frame: Frame, tail: seq<Byte>): Size
    requires AllStandard(pieces)
  {
    if pieces == [] then Size(frame.width, frame.height)
    else if pieces[0].Other? then StandardSize(pieces[1..], frame, tail)
    else
      StandardStartsWithMarker(pieces[1..], frame, tail);
      SizeBehindTem(StandardStream(pieces[1..], frame, tail))
  }

  lemma ReadTem(fill: nat, rest: seq<Byte>)
    requires |rest| >= 2 && rest[0] == 0xFF
    ensures var length := Word(rest[0], rest[1]);
            Read(MarkerBytes(fill, TEM) + rest, 0) == if |rest| < length then Stop else Skip(fill + 2 + length)
  {
    ReadMarkerBytes(fill, TEM, rest);
  }

  lemma ScanPast(front: seq<Byte>, rest: seq<Byte>, more: nat)
    requires more <= |rest|
    ensures Scan(front + rest, |front| + more) == Scan(rest, more)
  {
    ScanSuffix(front + rest, |front|, more);
    assert (front + rest)[|front|..] == rest;
  }

  lemma {:induction false} ScanStep(data: seq<Byte>)
    ensures Read(data, 0).Stop? ==> Scan(data, 0) == NoSize
    ensures Read(data, 0).Skip? ==> Scan(data, 0) == Scan(data, Read(data, 0).length)
  {
  }

  lemma {:induction false} ScanBehindTem(fill: nat, rest: seq<Byte>)
    requires |rest| >= 2 && rest[0] == 0xFF
    ensures Scan(MarkerBytes(fill, TEM) + rest, 0) == SizeBehindTem(rest)
  {
    ReadTem(fill, rest);
    ScanStep(MarkerBytes(fill, TEM) + rest);
    if Word(rest[0], rest[1]) <= |rest| {
      ScanPast(MarkerBytes(fill, TEM), rest, Word(rest[0], rest[1]));
    }
  }

  /** What is found in a standard stream, whether it has TEM markers or not. */
  lemma {:induction false} StandardIsScanned(pieces: seq<StandardPiece>, frame: Frame, tail: seq<Byte>)
    requires AllStandard(pieces)
    ensures Scan(StandardStream(pieces, frame, tail), 0) == StandardSize(pieces, frame, tail)
    decreases |pieces|
  {
    if pieces == [] {
      ReadFrame(frame, tail);
    } else {
      var rest := StandardStream(pieces[1..], frame, tail);
      match pieces[0]
      case Tem(fill) =>
        StandardStartsWithMarker(pieces[1..], frame, tail);
        ScanBehindTem(fill, rest);
      case Other(piece) =>
        StandardStartsWithMarker(pieces[1..], frame, tail);
        ReadPiece(piece, rest);
        ScanStep(EncodePiece(piece) + rest);
        ScanPast(EncodePiece(piece), rest, 0);
        StandardIsScanned(pieces[1..], frame, tail);
    }
  }

  predicate HasTem(pieces: seq<StandardPiece>) {
    pieces != [] && (pieces[0].Tem? || HasTem(pieces[1..]))
  }

  lemma {:induction false} StandardSizeExactly(pieces: seq<StandardPiece>, frame: Frame, tail: seq<Byte>)
    requires AllStandard(pieces)
    ensures !HasTem(pieces) ==> StandardSize(pieces, frame, tail) == Size(frame.width, frame.height)
    ensures HasTem(pieces) && |StandardStream(pieces, frame, tail)| < 0xFF00 ==>
              StandardSize(pieces, frame, tail) == NoSize
    decreases |pieces|
  {
    if pieces != [] {
      StandardSizeExactly(pieces[1..], frame, tail);
      StandardStartsWithMarker(pieces[1..], frame, tail);
    }
  }

  /** Without a TEM marker the size is found; with one it is not, unless the scanner can jump more
      than 65279 bytes ahead and meets another frame header there. */
  lemma {:induction false} StandardMeasuredExactly(pieces: seq<StandardPiece>, frame: Frame, tail: seq<Byte>)
    requires AllStandard(pieces)
    ensures var data := StandardStream(pieces, frame, tail);
            && (!HasTem(pieces) ==> Scan(data, 0) == Size(frame.width, frame.height))
            && (|data| < 0xFF00 ==> (Scan(data, 0) == Size(frame.width, frame.height) <==> !HasTem(pieces)))
            && (|data| < 0xFF00 && HasTem(pieces) ==> Scan(data, 0) == NoSize)
  {
    StandardIsScanned(pieces, frame, tail);
    StandardSizeExactly(pieces, frame, tail);
  }

  /** A TEM marker directly in front of a short frame hides it. */
  lemma TemHidesFrame(frame: Frame)
    requires |EncodeFrame(frame)| < 0xFE00
    ensures Scan([0xFF, 0xD8] + ([0xFF, TEM] + EncodeFrame(frame)), 2) == NoSize
  {
    var rest := EncodeFrame(frame);
    FrameBytes(frame, []);
    assert rest + [] == rest && rest[0] == 0xFF;
    TemIsSkippedFar(rest);
    ScanBehindStart([0xFF, TEM] + rest);
  }

  lemma {:induction false} ScanBehindStart(rest: seq<Byte>)
    ensures Scan([0xFF, 0xD8] + rest, 2) == Scan(rest, 0)
  {
    var front: seq<Byte> := [0xFF, 0xD8];
    ScanPast(front, rest, 0);
  }

  lemma {:induction false} TemIsSkippedFar(rest: seq<Byte>)
    requires 2 <= |rest| < 0xFF00 && rest[0] == 0xFF
    ensures Scan([0xFF, TEM] + rest, 0) == NoSize
  {
    TemBytes();
    ScanBehindTem(0, rest);
    LongJump(rest);
  }

  lemma TemBytes()
    ensures MarkerBytes(0, TEM) == [0xFF, TEM]
  {
  }

  /** FF and any byte make a length of 65280 at least. */
  lemma LongJump(rest: seq<Byte>)
    requires 2 <= |rest| < 0xFF00 && rest[0] == 0xFF
    ensures SizeBehindTem(rest) == NoSize
  {
  }

  /** For one: an image of 32 by 16. */
  lemma TemHidesSize()
    ensures Scan([0xFF, 0xD8] + ([0xFF, TEM] + EncodeFrame(Frame(0, 0xC0, 8, 16, 32, []))), 2) == NoSize
  {
    var frame: Frame := Frame(0, 0xC0, 8, 16, 32, []);
    TemHidesFrame(frame);
  }
}
