/** The byte form of a terminal mirror frame: the server's encoder and the browser's parser. */
module MirrorWire {
  import opened Bytes
  import opened Sequences
  import opened Wrappers

  const FRAME_VERSION: Byte := 6
  const HEADER_SIZE: nat := 27

  /** What a session shows at one moment. A missing capture time is Go's zero time. */
  datatype Snapshot = Snapshot(
    rows: nat, cols: nat, lines: seq<seq<Byte>>, cursor: seq<Byte>,
    altScreen: bool, cursorVisible: bool, modeFlags: nat, capturedAt: Option<int>)

  datatype ChangedRow = ChangedRow(index: nat, content: seq<Byte>)

  /** The frame fields outside the payload. */
  datatype Header = Header(
    rows: nat, cols: nat, sequence: nat, baseSequence: nat,
    altScreen: bool, cursorVisible: bool, modeFlags: nat, capturedAt: Option<int>)

  datatype Frame =
    | Full(header: Header, lines: seq<seq<Byte>>, cursor: seq<Byte>)
    | Delta(header: Header, changed: seq<ChangedRow>, cursor: seq<Byte>)

  /** zlib as an abstract pair of functions. */
  datatype Zip = Zip(deflate: seq<Byte> -> seq<Byte>, inflate: seq<Byte> -> Option<seq<Byte>>)

  ghost predicate Invertible(zip: Zip) {
    forall input :: zip.inflate(zip.deflate(input)) == Some(input)
  }

  // ---------------------------------------------------------------- encoding

  function EncString(text: seq<Byte>): seq<Byte> {
    PutU32(|text|) + text
  }

  function EncLines(lines: seq<seq<Byte>>): seq<Byte> {
    if lines == [] then [] else EncString(lines[0]) + EncLines(lines[1..])
  }

  function EncRow(row: ChangedRow): seq<Byte> {
    PutU16(row.index) + EncString(row.content)
  }

  function EncRows(rows: seq<ChangedRow>): seq<Byte> {
    if rows == [] then [] else EncRow(rows[0]) + EncRows(rows[1..])
  }

  function EncPayload(frame: Frame): seq<Byte> {
    match frame
    case Delta(_, changed, cursor) => PutU16(|changed|) + EncRows(changed) + EncString(cursor)
    case Full(_, lines, cursor) => EncLines(lines) + EncString(cursor)
  }

  /** The compressed payload, unless compression does not make it shorter. */
  function Compress(zip: Zip, payload: seq<Byte>): (r: Option<seq<Byte>>)
    ensures r.Some? ==> |r.value| < |payload|
  {
    if payload == [] || |zip.deflate(payload)| >= |payload| then None else Some(zip.deflate(payload))
  }

  function Flags(altScreen: bool, cursorVisible: bool, compressed: bool): Byte {
    (if altScreen then 1 else 0) + (if cursorVisible then 2 else 0) + (if compressed then 4 else 0)
  }

  function EncTime(t: Option<int>): seq<Byte> {
    PutU64(if t.Some? then t.value else 0)
  }

  function EncHeader(h: Header, compressed: bool, kind: Byte): (bs: seq<Byte>)
    ensures |bs| == HEADER_SIZE
  {
    [FRAME_VERSION] + PutU16(h.rows) + PutU16(h.cols) + EncTime(h.capturedAt)
    + [Flags(h.altScreen, h.cursorVisible, compressed)]
    + PutU32(h.modeFlags) + PutU32(h.sequence) + PutU32(h.baseSequence) + [kind]
  }

  function KindByte(frame: Frame): Byte {
    if frame.Delta? then 1 else 0
  }

  function EncFrame(zip: Zip, frame: Frame, compression: bool): seq<Byte> {
    var payload := EncPayload(frame);
    var packed := if compression then Compress(zip, payload) else None;
    EncHeader(frame.header, packed.Some?, KindByte(frame)) + if packed.Some? then packed.value else payload
  }

  // ----------------------------------------------------------------- parsing

  function ReadString(bs: seq<Byte>): (r: Option<(seq<Byte>, seq<Byte>)>)
    ensures r.Some? ==> |r.value.0| < MAX32
  {
    if |bs| < 4 then None else
    var length := GetU32(bs[..4]);
    if |bs| < 4 + length then None else Some((bs[4..4 + length], bs[4 + length..]))
  }

  function ReadLines(n: nat, bs: seq<Byte>): (r: Option<(seq<seq<Byte>>, seq<Byte>)>)
  {
    if n == 0 then Some(([], bs)) else
    var head := ReadString(bs);
    if head.None? then None else
    var tail := ReadLines(n - 1, head.value.1);
    if tail.None? then None else Some(([head.value.0] + tail.value.0, tail.value.1))
  }

  function ReadRow(bs: seq<Byte>): (r: Option<(ChangedRow, seq<Byte>)>)
    ensures r.Some? ==> RowFits(r.value.0)
  {
    if |bs| < 2 then None else
    var content := ReadString(bs[2..]);
    if content.None? then None else
    Some((ChangedRow(GetU16(bs[..2]), content.value.0), content.value.1))
  }

  function ReadRows(n: nat, bs: seq<Byte>): (r: Option<(seq<ChangedRow>, seq<Byte>)>)
  {
    if n == 0 then Some(([], bs)) else
    var head := ReadRow(bs);
    if head.None? then None else
    var tail := ReadRows(n - 1, head.value.1);
    if tail.None? then None else Some(([head.value.0] + tail.value.0, tail.value.1))
  }

  function ParseDelta(header: Header, bs: seq<Byte>): Option<Frame> {
    if |bs| < 2 then None else
    var rows := ReadRows(GetU16(bs[..2]), bs[2..]);
    if rows.None? then None else
    var cursor := ReadString(rows.value.1);
    if cursor.None? then None else Some(Delta(header, rows.value.0, cursor.value.0))
  }

  function ParseFull(header: Header, bs: seq<Byte>): Option<Frame> {
    var lines := ReadLines(header.rows, bs);
    if lines.None? then None else
    var cursor := ReadString(lines.value.1);
    if cursor.None? then None else Some(Full(header, lines.value.0, cursor.value.0))
  }

  function ParsePayload(header: Header, kind: Byte, bs: seq<Byte>): Option<Frame> {
    if kind == 1 then ParseDelta(header, bs) else ParseFull(header, bs)
  }

  function ParseHeader(bs: seq<Byte>): Header
    requires |bs| >= HEADER_SIZE
  {
    var ms := GetU64(bs[5..13]);
    var flags := bs[13];
    Header(
      GetU16(bs[1..3]), GetU16(bs[3..5]), GetU32(bs[18..22]), GetU32(bs[22..26]),
      flags % 2 == 1, flags / 2 % 2 == 1, GetU32(bs[14..18]), if ms > 0 then Some(ms) else None)
  }

  function ParseFrame(zip: Zip, bs: seq<Byte>): Option<Frame> {
    if |bs| < HEADER_SIZE || bs[0] != FRAME_VERSION then None else
    var content := if bs[13] / 4 % 2 == 1 then zip.inflate(bs[HEADER_SIZE..]) else Some(bs[HEADER_SIZE..]);
    if content.None? then None else ParsePayload(ParseHeader(bs), bs[26], content.value)
  }

  // -------------------------------------------------------------- round trip

  predicate RowFits(row: ChangedRow) {
    row.index < MAX16 && |row.content| < MAX32
  }

  predicate HeaderFits(h: Header) {
    && h.rows < MAX16 && h.cols < MAX16
    && h.sequence < MAX32 && h.baseSequence < MAX32 && h.modeFlags < MAX32
    && (h.capturedAt.Some? ==> 0 < h.capturedAt.value < MAX64)
  }

  /** Every field is within the width the wire gives it, and a full frame has a line for every row. */
  predicate FrameFits(frame: Frame) {
    && HeaderFits(frame.header)
    && |frame.cursor| < MAX32
    && match frame
       case Delta(_, changed, _) => |changed| < MAX16 && forall row <- changed :: RowFits(row)
       case Full(h, lines, _) => |lines| == h.rows && forall line <- lines :: |line| < MAX32
  }

  lemma ThreeParts(head: seq<Byte>, text: seq<Byte>, tail: seq<Byte>)
    requires |head| == 4
    ensures var bs := head + text + tail;
      bs[..4] == head && bs[4..4 + |text|] == text && bs[4 + |text|..] == tail
  {
  }

  lemma ReadStringUndoesEnc(text: seq<Byte>, tail: seq<Byte>)
    requires |text| < MAX32
    ensures ReadString(EncString(text) + tail) == Some((text, tail))
  {
    Fits32(|text|);
    ThreeParts(PutU32(|text|), text, tail);
  }

  lemma ReadWholeString(text: seq<Byte>)
    requires |text| < MAX32
    ensures ReadString(EncString(text)) == Some((text, []))
  {
    ReadStringUndoesEnc(text, []);
    assert EncString(text) + [] == EncString(text);
  }

  lemma {:induction false} ReadLinesUndoesEnc(lines: seq<seq<Byte>>, tail: seq<Byte>)
    requires forall line <- lines :: |line| < MAX32
    ensures ReadLines(|lines|, EncLines(lines) + tail) == Some((lines, tail))
  {
    if lines == [] {
      assert EncLines(lines) + tail == tail;
    } else {
      ReadLinesUndoesEnc(lines[1..], tail);
      HeadAndTail(lines);
      ConcatAssoc(EncString(lines[0]), EncLines(lines[1..]), tail);
      ReadStringUndoesEnc(lines[0], EncLines(lines[1..]) + tail);
    }
  }

  lemma ReadRowUndoesEnc(row: ChangedRow, tail: seq<Byte>)
    requires RowFits(row)
    ensures ReadRow(EncRow(row) + tail) == Some((row, tail))
  {
    Fits16(row.index);
    ReadStringUndoesEnc(row.content, tail);
    var bs := EncRow(row) + tail;
    assert bs[..2] == PutU16(row.index) && bs[2..] == EncString(row.content) + tail;
  }

  lemma {:induction false} ReadRowsUndoesEnc(rows: seq<ChangedRow>, tail: seq<Byte>)
    requires forall row <- rows :: RowFits(row)
    ensures ReadRows(|rows|, EncRows(rows) + tail) == Some((rows, tail))
  {
    if rows == [] {
      assert EncRows(rows) + tail == tail;
    } else {
      ReadRowsUndoesEnc(rows[1..], tail);
      HeadAndTail(rows);
      ConcatAssoc(EncRow(rows[0]), EncRows(rows[1..]), tail);
      ReadRowUndoesEnc(rows[0], EncRows(rows[1..]) + tail);
    }
  }

  lemma ParseFullUndoesEnc(frame: Frame)
    requires frame.Full? && FrameFits(frame)
    ensures ParsePayload(frame.header, 0, EncPayload(frame)) == Some(frame)
  {
    ReadWholeString(frame.cursor);
    ReadLinesUndoesEnc(frame.lines, EncString(frame.cursor));
  }

  lemma TwoByteHead(count: seq<Byte>, rows: seq<Byte>, tail: seq<Byte>)
    requires |count| == 2
    ensures var bs := count + rows + tail; bs[..2] == count && bs[2..] == rows + tail
  {
  }

  // A delta payload in its three parts.
  lemma ParseDeltaParts(h: Header, count: seq<Byte>, rows: seq<Byte>, tail: seq<Byte>,
                        changed: seq<ChangedRow>, cursor: seq<Byte>)
    requires |count| == 2 && GetU16(count) == |changed|
    requires ReadRows(|changed|, rows + tail) == Some((changed, tail))
    requires ReadString(tail) == Some((cursor, []))
    ensures ParsePayload(h, 1, count + rows + tail) == Some(Delta(h, changed, cursor))
  {
    TwoByteHead(count, rows, tail);
  }

  lemma ParseCountedDelta(frame: Frame, count: seq<Byte>)
    requires frame.Delta? && FrameFits(frame) && |count| == 2 && GetU16(count) == |frame.changed|
    ensures ParsePayload(frame.header, 1, count + EncRows(frame.changed) + EncString(frame.cursor)) == Some(frame)
  {
    ReadWholeString(frame.cursor);
    ReadRowsUndoesEnc(frame.changed, EncString(frame.cursor));
    ParseDeltaParts(frame.header, count, EncRows(frame.changed), EncString(frame.cursor),
                    frame.changed, frame.cursor);
  }

  lemma ParseDeltaUndoesEnc(frame: Frame)
    requires frame.Delta? && FrameFits(frame)
    ensures ParsePayload(frame.header, 1, EncPayload(frame)) == Some(frame)
  {
    Fits16(|frame.changed|);
    ParseCountedDelta(frame, PutU16(|frame.changed|));
  }

  // Where each field of the 27-byte header sits.
  lemma HeaderSlices(rows: seq<Byte>, cols: seq<Byte>, time: seq<Byte>, flags: Byte,
                     modes: seq<Byte>, sequence: seq<Byte>, base: seq<Byte>, kind: Byte, payload: seq<Byte>)
    requires |rows| == |cols| == 2 && |time| == 8 && |modes| == |sequence| == |base| == 4
    ensures var bs := [FRAME_VERSION] + rows + cols + time + [flags] + modes + sequence + base + [kind] + payload;
            && |bs| >= HEADER_SIZE && bs[0] == FRAME_VERSION && bs[13] == flags && bs[26] == kind
            && bs[1..3] == rows && bs[3..5] == cols && bs[5..13] == time
            && bs[14..18] == modes && bs[18..22] == sequence && bs[22..26] == base
            && bs[HEADER_SIZE..] == payload
  {
  }

  lemma FlagsRoundTrip(altScreen: bool, cursorVisible: bool, compressed: bool)
    ensures var flags := Flags(altScreen, cursorVisible, compressed);
            && (flags % 2 == 1 <==> altScreen)
            && (flags / 2 % 2 == 1 <==> cursorVisible)
            && (flags / 4 % 2 == 1 <==> compressed)
  {
  }

  lemma TimeRoundTrip(t: Option<int>)
    requires t.Some? ==> 0 < t.value < MAX64
    ensures var ms := GetU64(EncTime(t)); t == if ms > 0 then Some(ms) else None
  {
    Fits64(if t.Some? then t.value else 0);
  }

  // Generalised over the bytes of each field, so that only their values matter.
  lemma ParseHeaderParts(h: Header, compressed: bool, rows: seq<Byte>, cols: seq<Byte>, time: seq<Byte>,
                         flags: Byte, modes: seq<Byte>, sequence: seq<Byte>, base: seq<Byte>,
                         kind: Byte, payload: seq<Byte>)
    requires |rows| == |cols| == 2 && |time| == 8 && |modes| == |sequence| == |base| == 4
    requires GetU16(rows) == h.rows && GetU16(cols) == h.cols && GetU32(modes) == h.modeFlags
    requires GetU32(sequence) == h.sequence && GetU32(base) == h.baseSequence
    requires h.capturedAt == if GetU64(time) > 0 then Some(GetU64(time)) else None
    requires flags % 2 == 1 <==> h.altScreen
    requires flags / 2 % 2 == 1 <==> h.cursorVisible
    requires flags / 4 % 2 == 1 <==> compressed
    ensures HeaderCarries([FRAME_VERSION] + rows + cols + time + [flags] + modes + sequence + base + [kind],
                          payload, h, compressed, kind)
  {
    HeaderSlices(rows, cols, time, flags, modes, sequence, base, kind, payload);
  }

  ghost predicate HeaderCarries(header: seq<Byte>, payload: seq<Byte>, h: Header, compressed: bool, kind: Byte) {
    var bs := header + payload;
    && |bs| >= HEADER_SIZE
    && ParseHeader(bs) == h
    && bs[0] == FRAME_VERSION && bs[26] == kind
    && (bs[13] / 4 % 2 == 1 <==> compressed)
    && bs[HEADER_SIZE..] == payload
  }

  lemma ParseHeaderUndoesEnc(h: Header, compressed: bool, kind: Byte, payload: seq<Byte>)
    requires HeaderFits(h)
    ensures HeaderCarries(EncHeader(h, compressed, kind), payload, h, compressed, kind)
  {
    Fits16(h.rows);
    Fits16(h.cols);
    TimeRoundTrip(h.capturedAt);
    FlagsRoundTrip(h.altScreen, h.cursorVisible, compressed);
    Fits32(h.modeFlags);
    Fits32(h.sequence);
    Fits32(h.baseSequence);
    ParseHeaderParts(h, compressed, PutU16(h.rows), PutU16(h.cols), EncTime(h.capturedAt),
                     Flags(h.altScreen, h.cursorVisible, compressed),
                     PutU32(h.modeFlags), PutU32(h.sequence), PutU32(h.baseSequence), kind, payload);
  }

  lemma TwoAt(bs: seq<Byte>, i: nat, v: nat)
    requires i + 2 <= |bs| && GetU16(bs[i..i + 2]) == v
    ensures TwoBytes(bs[i], bs[i + 1]) == v
  {
    BigEndian(bs[i..i + 2]);
  }

  lemma FourAt(bs: seq<Byte>, i: nat, v: nat)
    requires i + 4 <= |bs| && GetU32(bs[i..i + 4]) == v
    ensures FourBytes(bs[i], bs[i + 1], bs[i + 2], bs[i + 3]) == v
  {
    BigEndian(bs[i..i + 4]);
  }

  lemma FlagsAt(h: Header, compressed: bool, kind: Byte)
    ensures EncHeader(h, compressed, kind)[13] == Flags(h.altScreen, h.cursorVisible, compressed)
  {
    HeaderSlices(PutU16(h.rows), PutU16(h.cols), EncTime(h.capturedAt),
                 Flags(h.altScreen, h.cursorVisible, compressed),
                 PutU32(h.modeFlags), PutU32(h.sequence), PutU32(h.baseSequence), kind, []);
    ConcatNil(EncHeader(h, compressed, kind));
  }

  // What a browser reads from these bytes.
  lemma ReadHeaderBytes(bs: seq<Byte>)
    requires |bs| >= 27
    ensures var h := ParseHeader(bs);
      && TwoBytes(bs[1], bs[2]) == h.rows && TwoBytes(bs[3], bs[4]) == h.cols
      && FourBytes(bs[14], bs[15], bs[16], bs[17]) == h.modeFlags
      && FourBytes(bs[18], bs[19], bs[20], bs[21]) == h.sequence
      && FourBytes(bs[22], bs[23], bs[24], bs[25]) == h.baseSequence
  {
    var h := ParseHeader(bs);
    TwoAt(bs, 1, h.rows);
    TwoAt(bs, 3, h.cols);
    FourAt(bs, 14, h.modeFlags);
    FourAt(bs, 18, h.sequence);
    FourAt(bs, 22, h.baseSequence);
  }

  /** The header byte by byte: version 6, big-endian numbers, one flag in each of three bits. */
  lemma HeaderBytes(h: Header, compressed: bool, kind: Byte)
    requires HeaderFits(h)
    ensures var bs := EncHeader(h, compressed, kind);
      && |bs| == 27 && bs[0] == 6 && bs[26] == kind
      && TwoBytes(bs[1], bs[2]) == h.rows && TwoBytes(bs[3], bs[4]) == h.cols
      && GetU64(bs[5..13]) == (if h.capturedAt.Some? then h.capturedAt.value else 0)
      && bs[13] == (if h.altScreen then 1 else 0) + (if h.cursorVisible then 2 else 0) + (if compressed then 4 else 0)
      && FourBytes(bs[14], bs[15], bs[16], bs[17]) == h.modeFlags
      && FourBytes(bs[18], bs[19], bs[20], bs[21]) == h.sequence
      && FourBytes(bs[22], bs[23], bs[24], bs[25]) == h.baseSequence
  {
    ParseHeaderUndoesEnc(h, compressed, kind, []);
    ConcatNil(EncHeader(h, compressed, kind));
    ReadHeaderBytes(EncHeader(h, compressed, kind));
    FlagsAt(h, compressed, kind);
  }

  /** A payload is compressed exactly if that is asked for and makes it shorter, and its third flag says so. */
  lemma CompressedIff(zip: Zip, frame: Frame, compression: bool)
    ensures var bs, payload := EncFrame(zip, frame, compression), EncPayload(frame);
      && |bs| >= 27
      && (bs[13] / 4 % 2 == 1 <==> compression && |zip.deflate(payload)| < |payload|)
      && bs[27..] == (if compression && |zip.deflate(payload)| < |payload| then zip.deflate(payload) else payload)
      && (bs[26] == 1 <==> frame.Delta?) && (bs[26] == 0 <==> frame.Full?)
  {
    var payload := EncPayload(frame);
    var packed := if compression then Compress(zip, payload) else None;
    var content := if packed.Some? then packed.value else payload;
    var h := frame.header;
    FlagsRoundTrip(h.altScreen, h.cursorVisible, packed.Some?);
    HeaderSlices(PutU16(h.rows), PutU16(h.cols), EncTime(h.capturedAt),
                 Flags(h.altScreen, h.cursorVisible, packed.Some?),
                 PutU32(h.modeFlags), PutU32(h.sequence), PutU32(h.baseSequence), KindByte(frame), content);
    PayloadNotEmpty(frame);
  }

  lemma PayloadNotEmpty(frame: Frame)
    ensures EncPayload(frame) != []
  {
  }

  /** A full payload is each line and then the cursor, each behind its length in four bytes. */
  lemma FullPayloadBytes(h: Header, lines: seq<seq<Byte>>, cursor: seq<Byte>)
    ensures EncPayload(Full(h, [], cursor)) == PutU32(|cursor|) + cursor
    ensures lines != [] ==>
      EncPayload(Full(h, lines, cursor)) == PutU32(|lines[0]|) + lines[0] + EncPayload(Full(h, lines[1..], cursor))
  {
    if lines != [] { ConcatAssoc(EncString(lines[0]), EncLines(lines[1..]), EncString(cursor)); }
  }

  /** A delta payload is the number of rows, each row's index and length and content, and then the cursor. */
  lemma DeltaPayloadBytes(h: Header, index: nat, content: seq<Byte>, cursor: seq<Byte>)
    ensures EncPayload(Delta(h, [], cursor)) == PutU16(0) + PutU32(|cursor|) + cursor
    ensures EncPayload(Delta(h, [ChangedRow(index, content)], cursor))
         == PutU16(1) + PutU16(index) + PutU32(|content|) + content + PutU32(|cursor|) + cursor
  {
    var row := ChangedRow(index, content);
    assert [row][1..] == [];
    ConcatNil(EncRow(row));
    ConcatNil(PutU16(0));
    ConcatAssoc(PutU16(0), PutU32(|cursor|), cursor);
    DeltaParts(PutU16(1), PutU16(index), PutU32(|content|), content, PutU32(|cursor|), cursor);
  }

  lemma DeltaParts(count: seq<Byte>, index: seq<Byte>, length: seq<Byte>, content: seq<Byte>, cursorLength: seq<Byte>,
                   cursor: seq<Byte>)
    ensures count + (index + (length + content)) + (cursorLength + cursor)
         == count + index + length + content + cursorLength + cursor
  {
  }

  lemma {:induction false} ReadLinesFit(n: nat, bs: seq<Byte>)
    requires ReadLines(n, bs).Some?
    ensures var lines := ReadLines(n, bs).value.0; |lines| == n && forall line <- lines :: |line| < MAX32
  {
    if n > 0 {
      ReadLinesFit(n - 1, ReadString(bs).value.1);
    }
  }

  lemma {:induction false} ReadRowsFit(n: nat, bs: seq<Byte>)
    requires ReadRows(n, bs).Some?
    ensures var rows := ReadRows(n, bs).value.0; |rows| == n && forall row <- rows :: RowFits(row)
  {
    if n > 0 {
      ReadRowsFit(n - 1, ReadRow(bs).value.1);
    }
  }

  // The parser yields only frames whose fields the wire can carry.
  lemma ParsedFrameFits(zip: Zip, bs: seq<Byte>)
    requires ParseFrame(zip, bs).Some?
    ensures FrameFits(ParseFrame(zip, bs).value)
  {
    var content := if bs[13] / 4 % 2 == 1 then zip.inflate(bs[HEADER_SIZE..]).value else bs[HEADER_SIZE..];
    if bs[26] == 1 {
      ReadRowsFit(GetU16(content[..2]), content[2..]);
    } else {
      ReadLinesFit(ParseHeader(bs).rows, content);
    }
  }

  /** The browser recovers a frame from the server's bytes exactly when the wire can carry the frame. */
  lemma FrameRoundTrip(zip: Zip, frame: Frame, compression: bool)
    requires Invertible(zip)
    ensures ParseFrame(zip, EncFrame(zip, frame, compression)) == Some(frame) <==> FrameFits(frame)
  {
    var bs := EncFrame(zip, frame, compression);
    if FrameFits(frame) {
      var payload := EncPayload(frame);
      var packed := if compression then Compress(zip, payload) else None;
      ParseHeaderUndoesEnc(frame.header, packed.Some?, KindByte(frame),
                           if packed.Some? then packed.value else payload);
      if frame.Full? { ParseFullUndoesEnc(frame); } else { ParseDeltaUndoesEnc(frame); }
    } else if ParseFrame(zip, bs) == Some(frame) {
      ParsedFrameFits(zip, bs);
    }
  }

  /** The two ends of a connection, as the protocol sees them. */
  datatype Link = Link(encode: (Frame, bool) -> seq<Byte>, decode: seq<Byte> -> Option<Frame>)

  function WireLink(zip: Zip): Link {
    Link((frame, compression) => EncFrame(zip, frame, compression), bytes => ParseFrame(zip, bytes))
  }

  ghost predicate Faithful(link: Link) {
    forall frame, compression ::
      link.decode(link.encode(frame, compression)) == Some(frame) <==> FrameFits(frame)
  }

  lemma WireLinkIsFaithful(zip: Zip)
    requires Invertible(zip)
    ensures Faithful(WireLink(zip))
  {
    forall frame, compression
      ensures WireLink(zip).decode(WireLink(zip).encode(frame, compression)) == Some(frame) <==> FrameFits(frame)
    {
      FrameRoundTrip(zip, frame, compression);
    }
  }
}
