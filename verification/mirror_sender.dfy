/** The sending half of the mirror protocol: what one connection remembers and which frame it emits. */
module MirrorSender {
  import opened Bytes
  import opened Sequences
  import opened Wrappers
  import opened MirrorWire

  datatype Baseline = Baseline(shot: Snapshot, sequence: nat)

  // ------------------------------------------------------- the frame to send

  function HeaderOf(s: Snapshot, sequence: nat, base: nat): Header {
    Header(s.rows, s.cols, sequence, base, s.altScreen, s.cursorVisible, s.modeFlags, s.capturedAt)
  }

  function FullFrame(s: Snapshot, sequence: nat): Frame {
    Full(HeaderOf(s, sequence, 0), s.lines, s.cursor)
  }

  function DeltaFrame(last: Baseline, s: Snapshot, sequence: nat): Frame {
    Delta(HeaderOf(s, sequence, last.sequence), Diff(last.shot.lines, s.lines), s.cursor)
  }

  predicate CanDelta(last: Option<Baseline>, s: Snapshot) {
    && last.Some?
    && last.value.shot.rows == s.rows && last.value.shot.cols == s.cols
    && last.value.shot.altScreen == s.altScreen && last.value.shot.modeFlags == s.modeFlags
  }

  /** Equal in everything but the capture time. */
  predicate SameView(a: Snapshot, b: Snapshot) {
    a.(capturedAt := None) == b.(capturedAt := None)
  }

  predicate Unchanged(last: Option<Baseline>, s: Snapshot) {
    last.Some? && SameView(last.value.shot, s)
  }

  // The rows from index `from` on that differ, or all of them when the line counts differ.
  function DiffFrom(old_: seq<seq<Byte>>, new_: seq<seq<Byte>>, from: nat): (rows: seq<ChangedRow>)
    requires from <= |new_|
    ensures |rows| <= |new_| - from
    decreases |new_| - from
  {
    if from == |new_| then [] else
    var rest := DiffFrom(old_, new_, from + 1);
    if |old_| == |new_| && old_[from] == new_[from] then rest else [ChangedRow(from, new_[from])] + rest
  }

  function Diff(old_: seq<seq<Byte>>, new_: seq<seq<Byte>>): (rows: seq<ChangedRow>)
    ensures |rows| <= |new_|
  {
    DiffFrom(old_, new_, 0)
  }

  // Sequence numbers are 32 bits wide.
  function Wrap(n: nat): (sequence: nat)
    ensures sequence < MAX32
    ensures n < MAX32 ==> sequence == n
  {
    n % 0x1_0000_0000
  }

  function NextSequence(last: Option<Baseline>): (sequence: nat)
    ensures sequence < MAX32
  {
    if last.None? then 1 else Wrap(last.value.sequence + 1)
  }

  function Shorter(link: Link, delta: Frame, full: Frame, compression: bool): Frame {
    if |link.encode(delta, compression)| < |link.encode(full, compression)| then delta else full
  }

  /** The frame for a new snapshot: a delta when one is allowed and its bytes are fewer. */
  function Choose(link: Link, last: Option<Baseline>, incremental: bool,
                  s: Snapshot, force: bool, compression: bool): Frame
  {
    var full := FullFrame(s, NextSequence(last));
    if force || !incremental || !CanDelta(last, s) then full else
    Shorter(link, DeltaFrame(last.value, s, NextSequence(last)), full, compression)
  }

  /** The frame a call emits, or None when the snapshot brings nothing new. */
  function Emit(link: Link, last: Option<Baseline>, incremental: bool,
                s: Snapshot, force: bool, compression: bool): Option<Frame>
  {
    if !force && Unchanged(last, s) then None else
    Some(Choose(link, last, incremental, s, force, compression))
  }

  // Whatever is chosen is the next in sequence and no longer than the full frame.
  lemma EmittedFrame(link: Link, last: Option<Baseline>, incremental: bool, s: Snapshot, force: bool, compression: bool)
    requires Emit(link, last, incremental, s, force, compression).Some?
    ensures var frame := Emit(link, last, incremental, s, force, compression).value;
            var full := FullFrame(s, NextSequence(last));
            && frame.header.sequence == NextSequence(last)
            && |link.encode(frame, compression)| <= |link.encode(full, compression)|
            && (frame != full ==>
                  && !force && incremental && CanDelta(last, s)
                  && frame == DeltaFrame(last.value, s, NextSequence(last)))
  {
  }

  /** Unchanged means equal in everything, the lines too, but for the capture time. */
  lemma SameViewIff(a: Snapshot, b: Snapshot)
    ensures SameView(a, b) <==> a.(capturedAt := b.capturedAt) == b
  {
  }

  /** Nothing is sent exactly if nothing is forced and the last snapshot differs in the capture time at most. */
  lemma SuppressedIff(link: Link, last: Option<Baseline>, incremental: bool, s: Snapshot, force: bool,
                      compression: bool)
    ensures Emit(link, last, incremental, s, force, compression).None?
      <==> !force && last.Some? && last.value.shot.(capturedAt := s.capturedAt) == s
  {
    if last.Some? { SameViewIff(last.value.shot, s); }
  }

  /** What a sent frame says of its snapshot; it is a delta exactly if that is allowed on a last snapshot of the same
      size, screen and modes, and makes it shorter. */
  lemma SentFrameIs(link: Link, last: Option<Baseline>, incremental: bool, s: Snapshot, force: bool, compression: bool)
    requires Emit(link, last, incremental, s, force, compression).Some?
    ensures var frame := Emit(link, last, incremental, s, force, compression).value;
      && frame.cursor == s.cursor && frame.header == Header(s.rows, s.cols, frame.header.sequence,
           frame.header.baseSequence, s.altScreen, s.cursorVisible, s.modeFlags, s.capturedAt)
      && (frame.Full? ==> frame.lines == s.lines && frame.header.baseSequence == 0)
      && (frame.Delta? <==>
            !force && incremental && last.Some?
            && var shot := last.value.shot;
               && shot.rows == s.rows && shot.cols == s.cols
               && shot.altScreen == s.altScreen && shot.modeFlags == s.modeFlags
               && |link.encode(DeltaFrame(last.value, s, NextSequence(last)), compression)|
                < |link.encode(FullFrame(s, NextSequence(last)), compression)|)
  {
  }

  lemma {:induction false} DiffFromIsExact(old_: seq<seq<Byte>>, new_: seq<seq<Byte>>, from: nat, i: nat)
    requires from <= i < |new_|
    ensures (ChangedRow(i, new_[i]) in DiffFrom(old_, new_, from)) <==> |old_| != |new_| || old_[i] != new_[i]
    ensures forall row <- DiffFrom(old_, new_, from) :: from <= row.index < |new_| && row.content == new_[row.index]
    ensures var rows := DiffFrom(old_, new_, from);
      forall j, k :: 0 <= j < k < |rows| ==> rows[j].index < rows[k].index
    decreases |new_| - from
  {
    if from + 1 < |new_| { DiffFromIsExact(old_, new_, from + 1, if i == from then i + 1 else i); }
  }

  /** The rows of a delta are those that differ, or all where the numbers of lines do, with their new content, each
      once and in order. */
  lemma DiffIsExact(old_: seq<seq<Byte>>, new_: seq<seq<Byte>>)
    ensures var rows := Diff(old_, new_);
      && (forall i :: 0 <= i < |new_| ==>
            (ChangedRow(i, new_[i]) in rows <==> |old_| != |new_| || old_[i] != new_[i]))
      && (forall row <- rows :: row.index < |new_| && row.content == new_[row.index])
      && forall j, k :: 0 <= j < k < |rows| ==> rows[j].index < rows[k].index
  {
    forall i | 0 <= i < |new_|
      ensures ChangedRow(i, new_[i]) in Diff(old_, new_) <==> |old_| != |new_| || old_[i] != new_[i]
    {
      DiffFromIsExact(old_, new_, 0, i);
    }
    if new_ != [] { DiffFromIsExact(old_, new_, 0, 0); }
  }

  // ---------------------------------------------------------- byte encoders

  method EncodePayload(frame: Frame) returns (buffer: seq<Byte>)
    ensures buffer == EncPayload(frame)
  {
    buffer := [];
    match frame {
      case Delta(_, changed, cursor) =>
        buffer := PutU16(|changed|);
        for i := 0 to |changed|
          invariant buffer + EncRows(changed[i..]) == PutU16(|changed|) + EncRows(changed)
        {
          ghost var written, rest := buffer, changed[i..];
          buffer := buffer + PutU16(changed[i].index);
          buffer := buffer + PutU32(|changed[i].content|);
          buffer := buffer + changed[i].content;
          RowWritten(written, rest);
          assert rest[1..] == changed[i + 1..];
        }
        NothingLeft(buffer, EncRows(changed[|changed|..]));
      case Full(_, lines, cursor) =>
        for i := 0 to |lines|
          invariant buffer + EncLines(lines[i..]) == EncLines(lines)
        {
          ghost var written, rest := buffer, lines[i..];
          buffer := buffer + PutU32(|lines[i]|);
          buffer := buffer + lines[i];
          LineWritten(written, rest);
          assert rest[1..] == lines[i + 1..];
        }
        NothingLeft(buffer, EncLines(lines[|lines|..]));
    }
    ConcatAssoc(buffer, PutU32(|frame.cursor|), frame.cursor);
    buffer := buffer + PutU32(|frame.cursor|);
    buffer := buffer + frame.cursor;
  }

  lemma NothingLeft<T>(s: seq<T>, rest: seq<T>)
    requires rest == []
    ensures s + rest == s
  {
  }

  lemma RowWritten(written: seq<Byte>, rows: seq<ChangedRow>)
    requires rows != []
    ensures written + EncRows(rows)
         == written + PutU16(rows[0].index) + PutU32(|rows[0].content|) + rows[0].content + EncRows(rows[1..])
  {
    var index, length, content, rest :=
      PutU16(rows[0].index), PutU32(|rows[0].content|), rows[0].content, EncRows(rows[1..]);
    ConcatAssoc(written, index, length + content);
    ConcatAssoc(written + index, length, content);
    ConcatAssoc(written, EncRow(rows[0]), rest);
  }

  lemma LineWritten(written: seq<Byte>, lines: seq<seq<Byte>>)
    requires lines != []
    ensures written + EncLines(lines) == written + PutU32(|lines[0]|) + lines[0] + EncLines(lines[1..])
  {
    ConcatAssoc(written, PutU32(|lines[0]|), lines[0]);
    ConcatAssoc(written, EncString(lines[0]), EncLines(lines[1..]));
  }

  // Writes a field in place; everything around it keeps its value.
  method Put(buffer: array<Byte>, at: nat, field: seq<Byte>)
    requires at + |field| <= buffer.Length
    modifies buffer
    ensures buffer[..] == old(buffer[..at]) + field + old(buffer[at + |field|..])
  {
    for k := 0 to |field|
      invariant buffer[..] == old(buffer[..at]) + field[..k] + old(buffer[at + k..])
    {
      buffer[at + k] := field[k];
    }
  }

  // The header while it is being filled: the fields written so far, then zeros.
  ghost predicate Filled(header: seq<Byte>, written: seq<Byte>) {
    |header| == HEADER_SIZE && written <= header && forall k :: |written| <= k < |header| ==> header[k] == 0
  }

  method Append(header: array<Byte>, ghost written: seq<Byte>, at: nat, field: seq<Byte>)
    requires Filled(header[..], written) && at == |written| && at + |field| <= HEADER_SIZE
    modifies header
    ensures Filled(header[..], written + field)
  {
    Put(header, at, field);
  }

  method EncodeHeader(h: Header, compressed: bool, kind: Byte) returns (bytes: seq<Byte>)
    ensures bytes == EncHeader(h, compressed, kind)
  {
    var header := new Byte[HEADER_SIZE](_ => 0);
    ghost var written := [];
    Append(header, written, 0, [FRAME_VERSION]); written := [FRAME_VERSION];
    Append(header, written, 1, PutU16(h.rows)); written := written + PutU16(h.rows);
    Append(header, written, 3, PutU16(h.cols)); written := written + PutU16(h.cols);
    if h.capturedAt.Some? {
      Append(header, written, 5, PutU64(h.capturedAt.value));
    } else {
      ZeroTime(header[..], written);
    }
    written := written + EncTime(h.capturedAt);
    var flags: Byte := 0;
    if h.altScreen { flags := flags + 1; }
    if h.cursorVisible { flags := flags + 2; }
    if compressed { flags := flags + 4; }
    Append(header, written, 13, [flags]); written := written + [flags];
    Append(header, written, 14, PutU32(h.modeFlags)); written := written + PutU32(h.modeFlags);
    Append(header, written, 18, PutU32(h.sequence)); written := written + PutU32(h.sequence);
    Append(header, written, 22, PutU32(h.baseSequence)); written := written + PutU32(h.baseSequence);
    Append(header, written, 26, [kind]);
    bytes := header[..];
  }

  // A zero time leaves its eight bytes at zero.
  lemma ZeroTime(header: seq<Byte>, written: seq<Byte>)
    requires Filled(header, written) && |written| + 8 <= HEADER_SIZE
    ensures Filled(header, written + EncTime(None))
  {
    assert EncTime(None) == [0, 0, 0, 0, 0, 0, 0, 0];
  }

  method EncodeBytes(zip: Zip, frame: Frame, compression: bool) returns (bytes: seq<Byte>)
    ensures bytes == EncFrame(zip, frame, compression)
  {
    var payload := EncodePayload(frame);
    var compressed := false;
    if compression {
      var packed := Compress(zip, payload);
      if packed.Some? {
        payload := packed.value;
        compressed := true;
      }
    }
    var header := EncodeHeader(frame.header, compressed, KindByte(frame));
    bytes := header + payload;
  }

  method DiffRows(last: Option<Baseline>, s: Snapshot) returns (changed: seq<ChangedRow>)
    ensures last.Some? ==> changed == Diff(last.value.shot.lines, s.lines)
    ensures last.None? ==> changed == seq(|s.lines|, i requires 0 <= i < |s.lines| => ChangedRow(i, s.lines[i]))
  {
    changed := [];
    if last.None? || |last.value.shot.lines| != |s.lines| {
      for index := 0 to |s.lines|
        invariant changed == seq(index, i requires 0 <= i < index => ChangedRow(i, s.lines[i]))
        invariant last.Some? ==>
          changed + DiffFrom(last.value.shot.lines, s.lines, index) == Diff(last.value.shot.lines, s.lines)
      {
        changed := changed + [ChangedRow(index, s.lines[index])];
      }
    } else {
      for index := 0 to |s.lines|
        invariant changed + DiffFrom(last.value.shot.lines, s.lines, index)
               == Diff(last.value.shot.lines, s.lines)
      {
        if last.value.shot.lines[index] != s.lines[index] {
          changed := changed + [ChangedRow(index, s.lines[index])];
        }
      }
    }
  }

  method BaselineEquals(last: Option<Baseline>, s: Snapshot) returns (same: bool)
    requires last.Some? ==> |last.value.shot.lines| == last.value.shot.rows
    requires |s.lines| == s.rows
    ensures same <==> last.Some? && last.value.shot.(capturedAt := s.capturedAt) == s
  {
    if !CanDelta(last, s) {
      return false;
    }
    var shot := last.value.shot;
    if shot.cursorVisible != s.cursorVisible || shot.cursor != s.cursor || |shot.lines| != |s.lines| {
      return false;
    }
    for row := 0 to |shot.lines|
      invariant shot.lines[..row] == s.lines[..row]
    {
      if shot.lines[row] != s.lines[row] {
        return false;
      }
    }
    assert shot.lines == shot.lines[..|shot.lines|] == s.lines[..|s.lines|] == s.lines;
    same := true;
  }

  method SelectShorter(zip: Zip, delta: Frame, full: Frame, compression: bool) returns (selected: seq<Byte>)
    ensures selected == EncFrame(zip, Shorter(WireLink(zip), delta, full, compression), compression)
  {
    var fullFrame := EncodeBytes(zip, full, compression);
    selected := fullFrame;
    var deltaFrame := EncodeBytes(zip, delta, compression);
    if |deltaFrame| < |fullFrame| {
      selected := deltaFrame;
    }
  }

  /** One connection's memory of the last frame it encoded. */
  class SenderState {
    var last: Option<Baseline>
    var incrementalEnabled: bool

    constructor ()
      ensures last == None && incrementalEnabled
    {
      last := None;
      incrementalEnabled := true;
    }

    method SetIncrementalEnabled(enabled: bool) returns (changed: bool)
      modifies this`incrementalEnabled
      ensures incrementalEnabled == enabled
      ensures changed <==> old(incrementalEnabled) != enabled
    {
      changed := incrementalEnabled != enabled;
      incrementalEnabled := enabled;
    }

    /** Encodes the next frame; a missing or unchanged snapshot sends nothing and changes nothing. */
    method EncodeFrame(zip: Zip, snapshot: Option<Snapshot>, forceFull: bool, compressionEnabled: bool)
      returns (selected: seq<Byte>, sent: bool)
      requires snapshot.Some? ==> |snapshot.value.lines| == snapshot.value.rows
      requires last.Some? ==> |last.value.shot.lines| == last.value.shot.rows
      modifies this`last
      ensures snapshot.None? ==> !sent && last == old(last)
      ensures snapshot.Some? ==>
                var s := snapshot.value;
                var frame := Emit(WireLink(zip), old(last), incrementalEnabled, s, forceFull, compressionEnabled);
                && (sent <==> forceFull || old(last).None? || old(last).value.shot.(capturedAt := s.capturedAt) != s)
                && (sent <==> frame.Some?)
                && (sent ==> selected == EncFrame(zip, frame.value, compressionEnabled))
                && last == if sent then Some(Baseline(s, NextSequence(old(last)))) else old(last)
    {
      if snapshot.None? {
        return [], false;
      }
      var s := snapshot.value;
      if !forceFull {
        var same := BaselineEquals(last, s);
        if same {
          return [], false;
        }
      }
      var nextSequence := 1;
      if last.Some? {
        nextSequence := Wrap(last.value.sequence + 1);
      }
      selected := EncodeNext(zip, s, forceFull, nextSequence, compressionEnabled);
      last := Some(Baseline(s, nextSequence));
      sent := true;
    }

    // A delta where one is allowed and shorter, else a full frame.
    method EncodeNext(zip: Zip, s: Snapshot, forceFull: bool, nextSequence: nat, compressionEnabled: bool)
      returns (selected: seq<Byte>)
      requires nextSequence == NextSequence(last)
      ensures var frame := Choose(WireLink(zip), last, incrementalEnabled, s, forceFull, compressionEnabled);
              selected == EncFrame(zip, frame, compressionEnabled)
    {
      var full := FullFrame(s, nextSequence);
      if !forceFull && incrementalEnabled && CanDelta(last, s) {
        var changedRows := DiffRows(last, s);
        var delta := Delta(HeaderOf(s, nextSequence, last.value.sequence), changedRows, s.cursor);
        selected := SelectShorter(zip, delta, full, compressionEnabled);
      } else {
        selected := EncodeBytes(zip, full, compressionEnabled);
      }
    }
  }
}
