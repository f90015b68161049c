/** The driver's buffered segment writer. */
module SegmentWriter {
  import opened Bytes
  import opened Options
  import opened BigEndian
  import opened Cbor
  import opened SegmentFormat

  const LOG_BUF_SIZE: nat := 5 * 1024 * 1024

  // ---------------------------------------------------------------- encoding

  method EncPair(e: Encoder, key: nat, val: nat)
    requires e.Valid() && key < 24 && val < TWO64
    modifies e, e.buf
    ensures e.Valid() && (e.err <==> old(e.err) || old(e.pos) + |Pair(key, val)| > e.buf.Length)
    ensures !e.err ==> e.Out() == old(e.Out()) + Pair(key, val)
  {
    hide Head;
    e.EncUint(key);
    e.EncUint(val);
  }

  method EncTextPair(e: Encoder, key: nat, text: seq<byte>)
    requires e.Valid() && key < 24 && |text| < TWO64
    modifies e, e.buf
    ensures e.Valid() && (e.err <==> old(e.err) || old(e.pos) + |TextPair(key, text)| > e.buf.Length)
    ensures !e.err ==> e.Out() == old(e.Out()) + TextPair(key, text)
  {
    hide Head;
    e.EncUint(key);
    e.EncText(text);
  }

  /** What has been written so far, followed by x: the error tells whether it fits. */
  method EncCommon(e: Encoder, op: byte, r: Record)
    requires e.Valid() && InRange(r)
    modifies e, e.buf
    ensures e.Valid() && (e.err <==> old(e.err) || old(e.pos) + |Common(op, r)| > e.buf.Length)
    ensures !e.err ==> e.Out() == old(e.Out()) + Common(op, r)
  {
    hide Pair; hide TextPair;
    ghost var o := e.Out();
    EncTextPair(e, 1, [op]);
    EncPair(e, 2, r.ts);
    EncPair(e, 3, r.seqNo);
    EncPair(e, 4, r.block);
    EncPair(e, 5, r.length);
    Join5(o, TextPair(1, [op]), Pair(2, r.ts), Pair(3, r.seqNo), Pair(4, r.block), Pair(5, r.length));
  }

  lemma {:induction false} Join5(o: seq<byte>, a: seq<byte>, b: seq<byte>, c: seq<byte>, d: seq<byte>, e: seq<byte>)
    ensures o + a + b + c + d + e == o + (a + (b + (c + (d + e))))
  {}

  /** The head of a write entry, in a buffer of 128 bytes. It always fits. */
  method EncodeWrite(r: Record) returns (out: seq<byte>, ok: bool)
    requires InRange(r) && r.WriteRec?
    ensures ok && out == RecordHead(r)
  {
    hide Head; hide Common; hide Pair;
    RecordHeadSize(r);
    var e := new Encoder(128);
    e.EncMap(7);
    EncCommon(e, OP_WRITE, r);
    EncPair(e, 6, r.crc);
    e.EncUint(7);
    e.EncBytesHdr(|r.data|);
    Join5([], Head(5, 7), Common(OP_WRITE, r), Pair(6, r.crc), Head(0, 7), Head(2, |r.data|));
    ok := !e.err;
    out := e.buf[..e.pos];
  }

  /** A trim entry, in a buffer of 64 bytes. It always fits. */
  method EncodeTrim(r: Record) returns (out: seq<byte>, ok: bool)
    requires InRange(r) && r.TrimRec?
    ensures ok && out == RecordHead(r)
  {
    hide Head; hide Common;
    RecordHeadSize(r);
    var e := new Encoder(64);
    e.EncMap(5);
    EncCommon(e, OP_TRIM, r);
    ok := !e.err;
    out := e.buf[..e.pos];
  }

  lemma {:induction false} HeaderIs(h: Header)
    requires GoodHeader(h)
    ensures HeaderBytes(h) ==
      [] + Head(5, 5) + Pair(1, 2) + Pair(2, 4096) + TextPair(3, h.lbl) + Pair(4, h.deviceSize) + TextPair(5, h.path)
  {
    hide Head; hide Pair; hide TextPair;
    Join5(Head(5, 5), Pair(1, 2), Pair(2, 4096), TextPair(3, h.lbl), Pair(4, h.deviceSize), TextPair(5, h.path));
    assert [] + Head(5, 5) == Head(5, 5);
  }

  /** The header, in a buffer of 512 bytes. It always fits. */
  method EncodeHeader(h: Header) returns (out: seq<byte>, ok: bool)
    requires GoodHeader(h)
    ensures ok && out == HeaderBytes(h)
  {
    hide Head; hide Pair; hide TextPair; hide HeaderBytes;
    HeaderSize(h);
    HeaderIs(h);
    var e := new Encoder(512);
    e.EncMap(5);
    EncPair(e, 1, 2);
    EncPair(e, 2, 4096);
    EncTextPair(e, 3, h.lbl);
    EncPair(e, 4, h.deviceSize);
    EncTextPair(e, 5, h.path);
    ok := !e.err;
    out := e.buf[..e.pos];
  }

  // ---------------------------------------------------------------- the log

  datatype Segment = Segment(h: Header, recs: seq<Record>)

  /** A completed segment: a header and at least one record, all of them as bytes. */
  ghost predicate Complete(s: Segment, bytes: seq<byte>) {
    GoodHeader(s.h) && AllInRange(s.recs) && s.recs != [] && bytes == SegmentBytes(s.h, s.recs)
  }

  ghost predicate AllComplete(segs: seq<Segment>, files: seq<seq<byte>>) {
    |segs| == |files| && forall i | 0 <= i < |segs| :: Complete(segs[i], files[i])
  }

  ghost function Concat(segs: seq<Segment>): seq<Record> {
    if segs == [] then [] else Concat(segs[..|segs| - 1]) + segs[|segs| - 1].recs
  }

  /** What happens to the log: requests, flush requests and the age timer. The label is the one
      the clock would give a segment begun then. */
  datatype Event =
    | LoggedWrite(ts: nat, block: nat, length: nat, crc: nat, comp: seq<byte>, lbl: seq<byte>)
    | LoggedTrim(ts: nat, block: nat, length: nat, lbl: seq<byte>)
    | FlushOrTimer(lbl: seq<byte>)

  predicate GoodEvent(e: Event) {
    && |e.lbl| == 24
    && (e.LoggedWrite? ==>
          e.ts < TWO64 && e.block < TWO64 && e.length <= 0x20000 && e.crc < TWO32
          && |e.comp| <= e.length + e.length / 255 + 16)
    && (e.LoggedTrim? ==> e.ts < TWO64 && e.block < TWO64 && e.length < TWO32)
  }

  /** The log as values: the completed segments, and the label and records of the current one. */
  datatype LogState = LogState(done: seq<Segment>, lbl: seq<byte>, recs: seq<Record>)

  /** The device a log is of, and the size at which a segment is completed. */
  datatype Device = Device(size: nat, path: seq<byte>, maxSize: nat)

  ghost function SizeOf(d: Device, lbl: seq<byte>, recs: seq<Record>): nat {
    var h := Header(lbl, d.size, d.path);
    if GoodHeader(h) && AllInRange(recs) then |SegmentBytes(h, recs)| else 0
  }

  /** Completing the current segment, if it has a record; the next one gets label l. */
  ghost function Rotated(d: Device, s: LogState, l: seq<byte>): LogState {
    if s.recs == [] then s else LogState(s.done + [Segment(Header(s.lbl, d.size, d.path), s.recs)], l, [])
  }

  ghost function RotatedIfFull(d: Device, s: LogState, l: seq<byte>): LogState {
    if SizeOf(d, s.lbl, s.recs) >= d.maxSize then Rotated(d, s, l) else s
  }

  ghost function Count(s: LogState): nat { |Concat(s.done) + s.recs| }

  ghost function Next(d: Device, s: LogState, e: Event): LogState {
    match e
    case LoggedWrite(ts, block, length, crc, comp, l) =>
      if length == 0 then s
      else RotatedIfFull(d, s.(recs := s.recs + [WriteRec(ts, Count(s), block, length, crc, comp)]), l)
    case LoggedTrim(ts, block, length, l) =>
      RotatedIfFull(d, s.(recs := s.recs + [TrimRec(ts, Count(s), block, length)]), l)
    case FlushOrTimer(l) => Rotated(d, s, l)
  }

  /** The log after the events, from an empty one with label l. */
  ghost function LogOf(d: Device, l: seq<byte>, es: seq<Event>): LogState {
    if es == [] then LogState([], l, []) else Next(d, LogOf(d, l, es[..|es| - 1]), es[|es| - 1])
  }

  class Logger {
    const deviceSize: nat
    const path: seq<byte>
    const maxSize: nat
    var buf: seq<byte>
    var file: Option<seq<byte>>
    var lbl: seq<byte>
    var hasEntries: bool
    var seqNo: nat
    var files: seq<seq<byte>>
    ghost var recs: seq<Record>
    ghost var done: seq<Segment>

    /** What the current segment holds, on disk and in the buffer. */
    ghost function Stream(): seq<byte>
      reads this
    {
      (if file.Some? then file.value else []) + buf
    }

    ghost function H(): Header
      reads this
    {
      Header(lbl, deviceSize, path)
    }

    ghost function D(): Device { Device(deviceSize, path, maxSize) }

    ghost function S(): LogState
      reads this
    {
      LogState(done, lbl, recs)
    }

    /** Every record logged so far, in order. */
    ghost function Logged(): seq<Record>
      reads this
    {
      Concat(done) + recs
    }

    ghost predicate Valid()
      reads this
    {
      hide AllInRange; hide GoodHeader; hide SegmentBytes; hide Concat; hide AllComplete; hide Numbered;
      && |buf| <= LOG_BUF_SIZE && GoodHeader(H()) && AllInRange(recs) && Stream() == SegmentBytes(H(), recs)
      && (hasEntries <==> recs != []) && (file.Some? ==> hasEntries)
      && AllComplete(done, files) && Numbered(Logged()) && seqNo == |Logged()|
    }

    constructor (deviceSize: nat, path: seq<byte>, maxSize: nat, lbl: seq<byte>)
      requires deviceSize < TWO64 && |path| <= 255 && |lbl| == 24
      ensures Valid() && Logged() == [] && files == []
      ensures D() == Device(deviceSize, path, maxSize) && S() == LogState([], lbl, [])
    {
      this.deviceSize, this.path, this.maxSize := deviceSize, path, maxSize;
      file, buf, hasEntries, seqNo, files, recs, done := None, [], false, 0, [], [], [];
      this.lbl := lbl;
      new;
      hide SegmentBytes; hide AllInRange; hide GoodHeader;
      Begin(lbl);
    }

    /** lbd_log_flush: opens the file on the first flush. */
    method Flush()
      modifies `buf, `file
      ensures Stream() == old(Stream()) && buf == []
      ensures file.Some? <==> old(file).Some? || old(buf) != []
    {
      if |buf| == 0 {
        return;
      }
      if file.None? {
        file := Some([]);
      }
      file := Some(file.value + buf);
      buf := [];
    }

    /** lbd_log_buf_append: the buffer is never overrun. */
    method Append(data: seq<byte>)
      requires |buf| <= LOG_BUF_SIZE && |data| <= LOG_BUF_SIZE
      modifies `buf, `file
      ensures |buf| <= LOG_BUF_SIZE && Stream() == old(Stream()) + data
      ensures file.Some? ==> old(file).Some? || old(buf) != []
    {
      if |buf| + |data| > LOG_BUF_SIZE {
        Flush();
      }
      buf := buf + data;
    }

    /** lbd_begin_segment: a fresh buffer that holds the header. */
    method Begin(newLabel: seq<byte>)
      requires |newLabel| == 24 && deviceSize < TWO64 && |path| <= 255
      modifies `file, `buf, `hasEntries, `lbl, `recs
      ensures lbl == newLabel && GoodHeader(H()) && recs == [] && !hasEntries && file.None? && |buf| <= LOG_BUF_SIZE
      ensures Stream() == SegmentBytes(H(), [])
    {
      hide HeaderBytes;
      file, buf, hasEntries, recs, lbl := None, [], false, [], newLabel;
      var header, ok := EncodeHeader(Header(lbl, deviceSize, path));
      HeaderSize(H());
      Append(header);
    }

    /** lbd_rotate_segment: the segment is completed and a new one begun. */
    method Rotate(newLabel: seq<byte>)
      requires Valid() && |newLabel| == 24
      modifies `file, `buf, `hasEntries, `lbl, `recs, `files, `done
      ensures Valid() && Logged() == old(Logged()) && !hasEntries && S() == Rotated(D(), old(S()), newLabel)
      ensures !old(hasEntries) ==> Stream() == old(Stream())
    {
      hide SegmentBytes;
      if !hasEntries {
        return;
      }
      Flush();
      Nonempty(H(), recs);
      CompleteNext(done, files, Segment(H(), recs), file.value);
      files := files + [file.value];
      done := done + [Segment(H(), recs)];
      Begin(newLabel);
    }

    /** lbd_maybe_rotate_segment. */
    method MaybeRotate(newLabel: seq<byte>)
      requires Valid() && |newLabel| == 24
      modifies `file, `buf, `hasEntries, `lbl, `recs, `files, `done
      ensures Valid() && Logged() == old(Logged()) && S() == RotatedIfFull(D(), old(S()), newLabel)
    {
      hide SegmentBytes; hide AllInRange; hide GoodHeader; hide Rotated; hide AllComplete; hide Numbered; hide Concat;
      var fileSize := if file.Some? then |file.value| else 0;
      if fileSize + |buf| >= maxSize {
        Rotate(newLabel);
      }
    }

    /** Appends the encoded head of a record and its data. */
    method AppendRecord(head: seq<byte>, data: seq<byte>, ghost r: Record)
      requires Valid() && InRange(r) && r.seqNo == seqNo && head == RecordHead(r)
      requires data == (if r.WriteRec? then r.data else []) && |data| <= LOG_BUF_SIZE
      modifies `file, `buf, `hasEntries, `recs, `seqNo
      ensures Valid() && Logged() == old(Logged()) + [r] && S() == old(S()).(recs := old(recs) + [r])
    {
      hide SegmentBytes; hide RecordHead; hide RecordBytes; hide InRange; hide AllComplete; hide Numbered;
      hide AllInRange; hide Concat; hide GoodHeader;
      RecordHeadSize(r);
      RecordParts(r, head, data);
      OneMore(H(), recs, r);
      NumberedNext(Concat(done), recs, r);
      Nonempty(H(), recs);
      ghost var before := Stream();
      seqNo := seqNo + 1;
      Append(head);
      if data != [] {
        Append(data);
      }
      Assoc(before, head, data);
      hasEntries := true;
      recs := recs + [r];
    }

    /** lbd_log_write. Requests have at most 128 KiB, so the compressed data fit the buffer. */
    method LogWrite(ts: nat, block: nat, length: nat, crc: nat, comp: seq<byte>, newLabel: seq<byte>)
      requires Valid() && |newLabel| == 24 && seqNo < TWO64 && ts < TWO64 && block < TWO64 && length <= 0x20000
      requires crc < TWO32
      requires |comp| <= length + length / 255 + 16
      modifies this
      ensures Valid()
      ensures Logged() ==
        if length == 0 then old(Logged()) else old(Logged()) + [WriteRec(ts, old(seqNo), block, length, crc, comp)]
      ensures S() == Next(D(), old(S()), LoggedWrite(ts, block, length, crc, comp, newLabel))
    {
      hide SegmentBytes; hide RecordHead; hide RotatedIfFull;
      if length == 0 {
        return;
      }
      ghost var r := WriteRec(ts, seqNo, block, length, crc, comp);
      var head, ok := EncodeWrite(WriteRec(ts, seqNo, block, length, crc, comp));
      AppendRecord(head, comp, r);
      MaybeRotate(newLabel);
    }

    /** lbd_log_discard. */
    method LogDiscard(ts: nat, block: nat, length: nat, newLabel: seq<byte>)
      requires Valid() && |newLabel| == 24 && seqNo < TWO64 && ts < TWO64 && block < TWO64 && length < TWO32
      modifies this
      ensures Valid() && Logged() == old(Logged()) + [TrimRec(ts, old(seqNo), block, length)]
      ensures S() == Next(D(), old(S()), LoggedTrim(ts, block, length, newLabel))
    {
      hide SegmentBytes; hide RecordHead; hide RotatedIfFull;
      var head, ok := EncodeTrim(TrimRec(ts, seqNo, block, length));
      AppendRecord(head, [], TrimRec(ts, seqNo, block, length));
      MaybeRotate(newLabel);
    }

    /** lbd_finalize_log: everything logged is in completed segments. */
    method Finalize()
      requires Valid()
      modifies this
      ensures AllComplete(done, files) && Concat(done) == old(Logged()) && file.None?
      ensures done == Rotated(D(), old(S()), []).done
    {
      hide SegmentBytes;
      Nonempty(H(), recs);
      if hasEntries {
        Flush();
      }
      if file.None? {
        assert Concat(done) + recs == Concat(done);
        return;
      }
      if hasEntries {
        CompleteNext(done, files, Segment(H(), recs), file.value);
        files := files + [file.value];
        done := done + [Segment(H(), recs)];
      }
      file := None;
    }
  }

  lemma {:induction false} RecordParts(r: Record, head: seq<byte>, data: seq<byte>)
    requires InRange(r) && head == RecordHead(r) && data == if r.WriteRec? then r.data else []
    ensures RecordBytes(r) == head + data
  {}

  /** The segment with one more record. */
  lemma {:induction false} OneMore(h: Header, rs: seq<Record>, r: Record)
    requires GoodHeader(h) && AllInRange(rs) && InRange(r)
    ensures AllInRange(rs + [r]) && SegmentBytes(h, rs + [r]) == SegmentBytes(h, rs) + RecordBytes(r)
  {
    hide HeaderBytes; hide RecordBytes; hide InRange;
    assert (rs + [r])[..|rs|] == rs && (rs + [r])[|rs|] == r;
    Assoc(HeaderBytes(h), AllRecords(rs), RecordBytes(r));
  }

  lemma {:induction false} NumberedNext(a: seq<Record>, b: seq<Record>, r: Record)
    requires Numbered(a + b) && r.seqNo == |a + b|
    ensures a + (b + [r]) == a + b + [r] && Numbered(a + (b + [r]))
  {}

  ghost predicate Numbered(rs: seq<Record>) { forall i | 0 <= i < |rs| :: rs[i].seqNo == i }

  lemma {:induction false} Nonempty(h: Header, rs: seq<Record>)
    requires GoodHeader(h) && AllInRange(rs)
    ensures SegmentBytes(h, rs) != []
  {
    HeaderSize(h);
    hide HeaderBytes; hide AllRecords;
  }

  lemma {:induction false} CompleteNext(segs: seq<Segment>, files: seq<seq<byte>>, s: Segment, bytes: seq<byte>)
    requires AllComplete(segs, files) && Complete(s, bytes)
    ensures AllComplete(segs + [s], files + [bytes]) && Concat(segs + [s]) == Concat(segs) + s.recs
  {
    hide Complete;
    assert (segs + [s])[..|segs|] == segs;
  }

  // ---------------------------------------------------------------- runs

  /** The records a run must produce: one per operation, numbered in order. */
  function Expected(es: seq<Event>): seq<Record> {
    if es == [] then []
    else
      var before := Expected(es[..|es| - 1]);
      match es[|es| - 1]
      case LoggedWrite(ts, block, length, crc, comp, _) =>
        if length == 0 then before else before + [WriteRec(ts, |before|, block, length, crc, comp)]
      case LoggedTrim(ts, block, length, _) => before + [TrimRec(ts, |before|, block, length)]
      case FlushOrTimer(_) => before
  }

  /** Every completed segment can be read back: its header and exactly its records. */
  lemma {:induction false} CompletedReads(segs: seq<Segment>, files: seq<seq<byte>>, i: nat)
    requires AllComplete(segs, files) && i < |segs|
    ensures GoodHeader(segs[i].h) && segs[i].recs != []
    ensures ReadHeader(files[i]) ==
      Some(HeaderAt(HeaderFields(2, 4096, segs[i].h.lbl, segs[i].h.deviceSize, segs[i].h.path),
        |HeaderBytes(segs[i].h)|))
    ensures ReadRecords(files[i], |HeaderBytes(segs[i].h)|) == AllFields(segs[i].recs)
  {
    assert Complete(segs[i], files[i]);
    SegmentReads(files[i], segs[i].h, segs[i].recs);
    hide SegmentBytes; hide HeaderBytes; hide AllRecords; hide ReadHeader; hide ReadRecords; hide AllInRange;
  }

  /** The entries of a list of segment files, each read after its header. */
  function ReadLog(files: seq<seq<byte>>): seq<Fields> {
    if files == [] then []
    else
      var b := files[|files| - 1];
      ReadLog(files[..|files| - 1]) + match ReadHeader(b) case None => [] case Some(h) => ReadRecords(b, h.next)
  }

  lemma {:induction false} ReadLogIs(segs: seq<Segment>, files: seq<seq<byte>>)
    requires AllComplete(segs, files)
    ensures ReadLog(files) == AllFields(Concat(segs))
  {
    hide ReadHeader; hide ReadRecords; hide FieldsOf; hide Complete;
    if segs != [] {
      var n := |segs| - 1;
      ReadLogIs(segs[..n], files[..n]);
      CompletedReads(segs, files, n);
      AllFieldsAppend(Concat(segs[..n]), segs[n].recs);
    }
  }

  lemma {:induction false} AllFieldsAppend(a: seq<Record>, b: seq<Record>)
    ensures AllFields(a + b) == AllFields(a) + AllFields(b)
  {
    hide FieldsOf;
  }

  // ---------------------------------------------------------------- the header of each file

  /** The events that completed a segment. */
  ghost function Ends(d: Device, l: seq<byte>, es: seq<Event>): seq<nat> {
    if es == [] then []
    else
      var n := |es| - 1;
      Ends(d, l, es[..n]) + if |LogOf(d, l, es).done| > |LogOf(d, l, es[..n]).done| then [n] else []
  }

  /** The label of file i: the one the log began with, then the one of the event that completed
      the file before. */
  ghost function LabelOf(d: Device, l: seq<byte>, es: seq<Event>, i: nat): seq<byte>
    requires i <= |Ends(d, l, es)|
  {
    EndsBelow(d, l, es);
    if i == 0 then l else es[Ends(d, l, es)[i - 1]].lbl
  }

  lemma {:induction false} EndsBelow(d: Device, l: seq<byte>, es: seq<Event>)
    ensures forall i | 0 <= i < |Ends(d, l, es)| :: Ends(d, l, es)[i] < |es|
    ensures forall i, j | 0 <= i < j < |Ends(d, l, es)| :: Ends(d, l, es)[i] < Ends(d, l, es)[j]
  {
    hide LogOf;
    if es != [] { EndsBelow(d, l, es[..|es| - 1]); }
  }

  /** An event completes at most one segment, the current one, and then the next has its label. */
  lemma {:induction false} NextCompletes(d: Device, s: LogState, e: Event)
    ensures var t := Next(d, s, e);
      || (t.done == s.done && t.lbl == s.lbl)
      || (|t.done| == |s.done| + 1 && t.done[..|s.done|] == s.done && t.recs == [] && t.lbl == e.lbl
          && t.done[|s.done|].h == Header(s.lbl, d.size, d.path))
  {
    hide SizeOf; hide Concat;
  }

  /** Every segment has the device's size and path and its own label. */
  lemma {:induction false} Headers(d: Device, l: seq<byte>, es: seq<Event>)
    ensures var s := LogOf(d, l, es);
      && |Ends(d, l, es)| == |s.done| && s.lbl == LabelOf(d, l, es, |s.done|)
      && forall i | 0 <= i < |s.done| :: s.done[i].h == Header(LabelOf(d, l, es, i), d.size, d.path)
  {
    if es != [] {
      var n := |es| - 1;
      var init, e := es[..n], es[n];
      Headers(d, l, init);
      NextCompletes(d, LogOf(d, l, init), e);
      hide Next;
      var s, t := LogOf(d, l, init), LogOf(d, l, es);
      forall i | 0 <= i <= |s.done| ensures LabelOf(d, l, es, i) == LabelOf(d, l, init, i) { EndsBelow(d, l, init); }
    }
  }

  /** Segments are completed in time: the current one, if it has a record, is below the limit, and
      every completed one was, at the latest before its last record. */
  ghost predicate InTime(d: Device, s: LogState) {
    && (s.recs != [] ==> SizeOf(d, s.lbl, s.recs) < d.maxSize)
    && forall i | 0 <= i < |s.done| :: BelowBut(d, s.done[i])
  }

  ghost predicate BelowBut(d: Device, s: Segment) {
    || |s.recs| <= 1 || SizeOf(d, s.h.lbl, s.recs) < d.maxSize
    || SizeOf(d, s.h.lbl, s.recs[..|s.recs| - 1]) < d.maxSize
  }

  lemma {:induction false} SizesKept(d: Device, l: seq<byte>, es: seq<Event>)
    ensures InTime(d, LogOf(d, l, es))
  {
    if es != [] {
      var s, e := LogOf(d, l, es[..|es| - 1]), es[|es| - 1];
      SizesKept(d, l, es[..|es| - 1]);
      hide SizeOf; hide Concat;
      match e
      case LoggedWrite(ts, block, length, crc, comp, lbl) =>
        RotatedInTime(d, s, WriteRec(ts, Count(s), block, length, crc, comp), lbl);
      case LoggedTrim(ts, block, length, lbl) => RotatedInTime(d, s, TrimRec(ts, Count(s), block, length), lbl);
      case FlushOrTimer(lbl) =>
    }
  }

  lemma {:induction false} RotatedInTime(d: Device, s: LogState, r: Record, l: seq<byte>)
    requires InTime(d, s)
    ensures InTime(d, RotatedIfFull(d, s.(recs := s.recs + [r]), l))
  {
    hide SizeOf;
    assert (s.recs + [r])[..|s.recs|] == s.recs;
  }

  /** The segments of a run once the log is finalized. */
  ghost function Written(d: Device, l: seq<byte>, es: seq<Event>): seq<Segment> { Rotated(d, LogOf(d, l, es), []).done }

  lemma {:induction false} WrittenHeaders(d: Device, l: seq<byte>, es: seq<Event>, i: nat)
    requires i < |Written(d, l, es)|
    ensures i <= |Ends(d, l, es)| && Written(d, l, es)[i].h == Header(LabelOf(d, l, es, i), d.size, d.path)
  {
    hide LogOf; hide LabelOf; hide Ends;
    Headers(d, l, es);
  }

  /** File i begins with the header of the device and the label that is its own. */
  ghost predicate HeaderOf(file: seq<byte>, d: Device, l: seq<byte>, es: seq<Event>, i: nat) {
    && i <= |Ends(d, l, es)| && ReadHeader(file).Some?
    && ReadHeader(file).value.f == HeaderFields(2, 4096, LabelOf(d, l, es, i), d.size, d.path)
  }

  /** On every run, reading the completed segments gives exactly the logged operations, in order. */
  method Run(deviceSize: nat, path: seq<byte>, maxSize: nat, lbl: seq<byte>, es: seq<Event>)
    returns (files: seq<seq<byte>>, ghost segs: seq<Segment>)
    requires deviceSize < TWO64 && |path| <= 255 && |lbl| == 24 && |es| < TWO64
    requires forall i | 0 <= i < |es| :: GoodEvent(es[i])
    ensures ReadLog(files) == AllFields(Expected(es))
    ensures AllComplete(segs, files) && Concat(segs) == Expected(es)
    ensures segs == Written(Device(deviceSize, path, maxSize), lbl, es)
    ensures forall i: nat | i < |files| :: HeaderOf(files[i], Device(deviceSize, path, maxSize), lbl, es, i)
  {
    hide LogOf; hide Next; hide HeaderOf;
    hide ReadLog; hide AllFields; hide AllComplete; hide SegmentBytes; hide AllInRange; hide Numbered; hide GoodHeader;
    ghost var d := Device(deviceSize, path, maxSize);
    LogOfNone(d, lbl);
    var log := new Logger(deviceSize, path, maxSize, lbl);
    for i := 0 to |es|
      invariant log.Valid() && fresh(log) && log.Logged() == Expected(es[..i]) && log.seqNo <= i
      invariant log.D() == d && log.S() == LogOf(d, lbl, es[..i])
    {
      LogOfNext(d, lbl, es, i);
      assert es[..i + 1][..i] == es[..i] && GoodEvent(es[i]);
      match es[i]
      case LoggedWrite(ts, block, length, crc, comp, l) => log.LogWrite(ts, block, length, crc, comp, l);
      case LoggedTrim(ts, block, length, l) => log.LogDiscard(ts, block, length, l);
      case FlushOrTimer(l) => log.Rotate(l);
    }
    assert es[..|es|] == es;
    log.Finalize();
    files, segs := log.files, log.done;
    ReadLogIs(segs, files);
    FilesLabelled(d, lbl, es, segs, files);
  }

  lemma {:induction false} FilesLabelled(d: Device, lbl: seq<byte>, es: seq<Event>, segs: seq<Segment>,
                                         files: seq<seq<byte>>)
    requires AllComplete(segs, files) && segs == Written(d, lbl, es)
    ensures forall i: nat | i < |files| :: HeaderOf(files[i], d, lbl, es, i)
  {
    hide LogOf; hide LabelOf; hide Ends; hide Written;
    forall i: nat | i < |files| ensures HeaderOf(files[i], d, lbl, es, i) {
      WrittenHeaders(d, lbl, es, i);
      CompletedReads(segs, files, i);
    }
  }

  lemma {:induction false} LogOfNone(d: Device, l: seq<byte>)
    ensures LogOf(d, l, []) == LogState([], l, [])
  {
  }

  lemma {:induction false} LogOfNext(d: Device, l: seq<byte>, es: seq<Event>, i: nat)
    requires i < |es|
    ensures LogOf(d, l, es[..i + 1]) == Next(d, LogOf(d, l, es[..i]), es[i])
    ensures es[i].FlushOrTimer? ==> LogOf(d, l, es[..i + 1]) == Rotated(d, LogOf(d, l, es[..i]), es[i].lbl)
  {
    assert es[..i + 1][..i] == es[..i];
  }
}
