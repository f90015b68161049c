/** Log segments: a header map followed by one map per logged operation. */
module SegmentFormat {
  import opened Bytes
  import opened Options
  import opened BigEndian
  import opened Cbor

  const OP_WRITE: byte := 0x57
  const OP_TRIM: byte := 0x54

  /** A logged operation. A write carries its compressed data. */
  datatype Record =
    | WriteRec(ts: nat, seqNo: nat, block: nat, length: nat, crc: nat, data: seq<byte>)
    | TrimRec(ts: nat, seqNo: nat, block: nat, length: nat)

  /** The widths of the driver's variables. */
  predicate InRange(r: Record) {
    && r.ts < TWO64 && r.seqNo < TWO64 && r.block < TWO64 && r.length < TWO32
    && (r.WriteRec? ==> r.crc < TWO32 && |r.data| < TWO32)
  }

  /** A key and an unsigned value. */
  function Pair(key: nat, val: nat): seq<byte>
    requires key < 24 && val < TWO64
  {
    Head(0, key) + Head(0, val)
  }

  function TextPair(key: nat, text: seq<byte>): seq<byte>
    requires key < 24 && |text| < TWO64
  {
    Head(0, key) + (Head(3, |text|) + text)
  }

  /** The fields all records share. */
  function Common(op: byte, r: Record): seq<byte>
    requires InRange(r)
  {
    TextPair(1, [op]) + (Pair(2, r.ts) + (Pair(3, r.seqNo) + (Pair(4, r.block) + Pair(5, r.length))))
  }

  /** What is encoded into the temporary buffer; the data of a write follow it. */
  function RecordHead(r: Record): seq<byte>
    requires InRange(r)
  {
    match r
    case WriteRec(_, _, _, _, crc, data) =>
      Head(5, 7) + (Common(OP_WRITE, r) + (Pair(6, crc) + (Head(0, 7) + Head(2, |data|))))
    case TrimRec(_, _, _, _) => Head(5, 5) + Common(OP_TRIM, r)
  }

  function RecordBytes(r: Record): seq<byte>
    requires InRange(r)
  {
    RecordHead(r) + if r.WriteRec? then r.data else []
  }

  predicate AllInRange(rs: seq<Record>) { forall i | 0 <= i < |rs| :: InRange(rs[i]) }

  function AllRecords(rs: seq<Record>): seq<byte>
    requires AllInRange(rs)
  {
    if rs == [] then [] else AllRecords(rs[..|rs| - 1]) + RecordBytes(rs[|rs| - 1])
  }

  /** A segment's header. */
  datatype Header = Header(lbl: seq<byte>, deviceSize: nat, path: seq<byte>)

  /** Labels have 24 characters and paths fit their buffer. */
  predicate GoodHeader(h: Header) { |h.lbl| == 24 && h.deviceSize < TWO64 && |h.path| <= 255 }

  function HeaderBytes(h: Header): seq<byte>
    requires GoodHeader(h)
  {
    Head(5, 5) + (Pair(1, 2) + (Pair(2, 4096) + (TextPair(3, h.lbl) + (Pair(4, h.deviceSize) + TextPair(5, h.path)))))
  }

  // ---------------------------------------------------------------- layout

  lemma {:induction false} PairLayout(key: nat, val: nat)
    requires key < 24 && val < TWO64
    ensures Pair(key, val) == [key as byte] + Head(0, val)
  {
    HeadLayout(0, key);
    hide Head;
  }

  lemma {:induction false} TextPairLayout(key: nat, text: seq<byte>)
    requires key < 24 && |text| < TWO64
    ensures TextPair(key, text) == [key as byte] + (Head(3, |text|) + text)
  {
    HeadLayout(0, key);
    hide Head;
  }

  lemma {:induction false} HeaderNumbers()
    ensures Head(5, 5) == [0xA5] && Head(0, 2) == [2] && Head(0, 4096) == [0x19, 0x10, 0] && Head(3, 24) == [0x78, 24]
  {
    hide Head; hide BE;
    assert Head(5, 5) == [0xA5] by { HeadLayout(5, 5); }
    assert Head(0, 2) == [2] by { HeadLayout(0, 2); }
    assert Head(0, 4096) == [0x19, 0x10, 0] by { HeadLayout(0, 4096); }
    assert Head(3, 24) == [0x78, 24] by { HeadLayout(3, 24); }
  }

  /** A header, byte by byte: a map of five, with version 2 and blocks of 4096 bytes. */
  lemma {:induction false} HeaderLayout(h: Header)
    requires GoodHeader(h)
    ensures HeaderBytes(h) ==
      [0xA5] + (([1] + [2]) + (([2] + [0x19, 0x10, 0]) + (([3] + ([0x78, 24] + h.lbl)) +
      (([4] + Head(0, h.deviceSize)) + ([5] + (Head(3, |h.path|) + h.path))))))
  {
    hide Head; hide Pair; hide TextPair;
    HeaderNumbers();
    PairLayout(1, 2);
    PairLayout(2, 4096);
    TextPairLayout(3, h.lbl);
    PairLayout(4, h.deviceSize);
    TextPairLayout(5, h.path);
  }

  lemma {:induction false} CommonLayout(op: byte, r: Record)
    requires InRange(r)
    ensures Common(op, r) ==
      ([1] + ([0x61] + [op])) + (([2] + Head(0, r.ts)) + (([3] + Head(0, r.seqNo)) +
      (([4] + Head(0, r.block)) + ([5] + Head(0, r.length)))))
  {
    HeadLayout(3, 1);
    hide Head; hide Pair; hide TextPair;
    TextPairLayout(1, [op]);
    PairLayout(2, r.ts);
    PairLayout(3, r.seqNo);
    PairLayout(4, r.block);
    PairLayout(5, r.length);
  }

  /** A record, byte by byte: a map of seven for a write, its data last, of five for a trim. */
  lemma {:induction false} RecordLayout(r: Record)
    requires InRange(r)
    ensures r.WriteRec? ==>
      var tail := ([6] + Head(0, r.crc)) + ([7] + Head(2, |r.data|));
      RecordBytes(r) == [0xA7] + (Common('W' as byte, r) + tail) + r.data
    ensures r.TrimRec? ==> RecordBytes(r) == [0xA5] + Common('T' as byte, r)
  {
    HeadLayout(5, 7);
    HeadLayout(5, 5);
    HeadLayout(0, 7);
    hide Head; hide Common; hide Pair;
    if r.WriteRec? { PairLayout(6, r.crc); } else { assert RecordHead(r) + [] == RecordHead(r); }
  }

  // ---------------------------------------------------------------- sizes

  lemma {:induction false} HeadSize(major: nat, val: nat)
    requires major < 8 && val < TWO64
    ensures val < 24 ==> |Head(major, val)| == 1
    ensures val <= 0xFF ==> |Head(major, val)| <= 2
    ensures val <= 0xFFFF ==> |Head(major, val)| <= 3
    ensures val < TWO32 ==> |Head(major, val)| <= 5
    ensures |Head(major, val)| <= 9
  {}

  lemma {:induction false} CommonSize(op: byte, r: Record)
    requires InRange(r)
    ensures |Common(op, r)| <= 39
  {
    hide Head;
    HeadSize(0, 1); HeadSize(3, 1);
    HeadSize(0, 2); HeadSize(0, r.ts);
    HeadSize(0, 3); HeadSize(0, r.seqNo);
    HeadSize(0, 4); HeadSize(0, r.block);
    HeadSize(0, 5); HeadSize(0, r.length);
  }

  /** The temporary buffers of 128 and 64 bytes are large enough for every record. */
  lemma {:induction false} RecordHeadSize(r: Record)
    requires InRange(r)
    ensures r.WriteRec? ==> |RecordHead(r)| <= 52
    ensures r.TrimRec? ==> |RecordHead(r)| <= 40
  {
    hide Head; hide Common;
    HeadSize(5, 7); HeadSize(5, 5);
    if r.WriteRec? {
      CommonSize(OP_WRITE, r);
      HeadSize(0, 6); HeadSize(0, r.crc);
      HeadSize(0, 7); HeadSize(2, |r.data|);
    } else {
      CommonSize(OP_TRIM, r);
    }
  }

  /** The header fits its buffer of 512 bytes. */
  lemma {:induction false} HeaderSize(h: Header)
    requires GoodHeader(h)
    ensures 1 <= |HeaderBytes(h)| <= 302
  {
    hide Head;
    HeadSize(5, 5);
    HeadSize(0, 1); HeadSize(0, 2);
    HeadSize(0, 4096);
    HeadSize(0, 3); HeadSize(3, 24);
    HeadSize(0, 4); HeadSize(0, h.deviceSize);
    HeadSize(0, 5); HeadSize(3, |h.path|);
  }

  // ---------------------------------------------------------------- reading back

  /** What the log reader knows of an entry while it goes through its map. */
  datatype Fields = Fields(op: nat, ts: nat, seqNo: nat, block: nat, length: nat, crc: Option<nat>,
    data: Option<seq<byte>>)

  datatype FieldsAt = FieldsAt(f: Fields, next: nat)

  const NoFields: Fields := Fields(0, 0, 0, 0, 0, None, None)

  function WithUint(f: Fields, key: nat, val: nat): Fields {
    if key == 2 then f.(ts := val)
    else if key == 3 then f.(seqNo := val)
    else if key == 4 then f.(block := val)
    else if key == 5 then f.(length := val % TWO32)
    else f.(crc := Some(val % TWO32))
  }

  /** One key and its value: the known keys in any order, all others skipped. */
  function ReadPair(b: seq<byte>, p: nat, f: Fields): (r: Option<FieldsAt>)
    ensures r.Some? ==> p < r.value.next <= |b|
  {
    hide ReadHead; hide Skip;
    match ReadUint(b, p)
    case None => None
    case Some(k) =>
      if k.val == 1 then
        match ReadText(b, k.next, 4)
        case None => None
        case Some(t) => Some(FieldsAt(f.(op := if t.text == [] then 0 else t.text[0]), t.next))
      else if 2 <= k.val <= 6 then
        match ReadUint(b, k.next)
        case None => None
        case Some(v) => Some(FieldsAt(WithUint(f, k.val, v.val), v.next))
      else if k.val == 7 then
        match ReadHead(b, k.next)
        case None => None
        case Some(h) =>
          if h.major == 2 && h.next + h.val <= |b|
          then Some(FieldsAt(f.(data := Some(b[h.next..h.next + h.val])), h.next + h.val)) else None
      else
        match Skip(b, k.next)
        case None => None
        case Some(q) => Some(FieldsAt(f, q))
  }

  function ReadPairs(b: seq<byte>, p: nat, k: nat, f: Fields): (r: Option<FieldsAt>)
    requires p <= |b|
    ensures r.Some? ==> p <= r.value.next <= |b|
    decreases k
  {
    hide ReadPair;
    if k == 0 then Some(FieldsAt(f, p))
    else match ReadPair(b, p, f) case None => None case Some(x) => ReadPairs(b, x.next, k - 1, x.f)
  }

  /** The entry at p. */
  function ReadRecord(b: seq<byte>, p: nat): (r: Option<FieldsAt>)
    ensures r.Some? ==> p < r.value.next <= |b|
  {
    hide ReadHead; hide ReadPairs;
    match ReadHead(b, p)
    case None => None
    case Some(h) => if h.major == 5 then ReadPairs(b, h.next, h.val, NoFields) else None
  }

  /** All entries from p on, up to the end or the first one that cannot be read. */
  function ReadRecords(b: seq<byte>, p: nat): seq<Fields>
    decreases |b| - p
  {
    hide ReadRecord;
    match ReadRecord(b, p) case None => [] case Some(x) => [x.f] + ReadRecords(b, x.next)
  }

  function FieldsOf(r: Record): Fields {
    match r
    case WriteRec(ts, seqNo, block, length, crc, data) =>
      Fields(OP_WRITE, ts, seqNo, block, length, Some(crc), Some(data))
    case TrimRec(ts, seqNo, block, length) => Fields(OP_TRIM, ts, seqNo, block, length, None, None)
  }

  function AllFields(rs: seq<Record>): seq<Fields> { seq(|rs|, i requires 0 <= i < |rs| => FieldsOf(rs[i])) }

  lemma {:induction false} PairReads(b: seq<byte>, p: nat, key: nat, val: nat, f: Fields)
    requires 2 <= key <= 6 && val < TWO64 && At(b, p, Pair(key, val))
    ensures ReadPair(b, p, f) == Some(FieldsAt(WithUint(f, key, val), p + |Pair(key, val)|))
  {
    hide Head; hide ReadHead; hide Skip; hide At;
    AtParts(b, p, Head(0, key), Head(0, val));
    HeadRoundTrip(b, p, 0, key);
    HeadRoundTrip(b, p + |Head(0, key)|, 0, val);
  }

  lemma {:induction false} OpReads(b: seq<byte>, p: nat, op: byte, f: Fields)
    requires At(b, p, TextPair(1, [op]))
    ensures ReadPair(b, p, f) == Some(FieldsAt(f.(op := op), p + |TextPair(1, [op])|))
  {
    TextReads(b, p, 1, [op], 4);
    hide TextPair; hide ReadHead; hide Skip; hide At; hide ReadText;
  }

  lemma {:induction false} TextReads(b: seq<byte>, p: nat, key: nat, text: seq<byte>, cap: nat)
    requires key < 24 && |text| < TWO64 && cap > |text| && At(b, p, TextPair(key, text))
    ensures ReadUint(b, p) == Some(HeadAt(0, key, p + |Head(0, key)|))
    ensures ReadText(b, p + |Head(0, key)|, cap) == Some(TextAt(text, p + |TextPair(key, text)|))
  {
    hide Head; hide ReadHead; hide Skip;
    var x, y := Head(0, key), Head(3, |text|);
    AtParts(b, p, x, y + text);
    AtParts(b, p + |x|, y, text);
    AtSlice(b, p + |x| + |y|, text);
    HeadRoundTrip(b, p, 0, key);
    HeadRoundTrip(b, p + |x|, 3, |text|);
  }

  lemma {:induction false} DataReads(b: seq<byte>, p: nat, data: seq<byte>, f: Fields)
    requires |data| < TWO64 && At(b, p, Head(0, 7) + Head(2, |data|) + data)
    ensures ReadPair(b, p, f) == Some(FieldsAt(f.(data := Some(data)), p + |Head(0, 7) + Head(2, |data|) + data|))
  {
    hide Head; hide ReadHead; hide Skip;
    var x, y := Head(0, 7), Head(2, |data|);
    AtParts(b, p, x + y, data);
    AtSlice(b, p + |x + y|, data);
    AtParts(b, p, x, y);
    HeadRoundTrip(b, p, 0, 7);
    HeadRoundTrip(b, p + |x|, 2, |data|);
  }

  lemma {:induction false} PairsStep(b: seq<byte>, p: nat, k: nat, f: Fields, x: FieldsAt)
    requires p <= |b| && k > 0 && ReadPair(b, p, f) == Some(x)
    ensures x.next <= |b| && ReadPairs(b, p, k, f) == ReadPairs(b, x.next, k - 1, x.f)
  {
    hide ReadPair;
  }

  /** The shared fields of a record are read back. */
  lemma {:induction false} CommonReads(b: seq<byte>, p: nat, op: byte, r: Record, k: nat)
    requires InRange(r) && p <= |b| && k >= 5 && At(b, p, Common(op, r))
    ensures p + |Common(op, r)| <= |b|
    ensures ReadPairs(b, p, k, NoFields) ==
      ReadPairs(b, p + |Common(op, r)|, k - 5, Fields(op, r.ts, r.seqNo, r.block, r.length, None, None))
  {
    hide ReadPair; hide ReadPairs; hide Pair; hide TextPair; hide At;
    var a, c, d, e, g := TextPair(1, [op]), Pair(2, r.ts), Pair(3, r.seqNo), Pair(4, r.block), Pair(5, r.length);
    AtInside(b, p, Common(op, r));
    AtParts(b, p, a, c + (d + (e + g)));
    OpReads(b, p, op, NoFields);
    var f1 := NoFields.(op := op);
    PairsStep(b, p, k, NoFields, FieldsAt(f1, p + |a|));
    var p1 := p + |a|;
    AtParts(b, p1, c, d + (e + g));
    PairReads(b, p1, 2, r.ts, f1);
    var f2 := f1.(ts := r.ts);
    PairsStep(b, p1, k - 1, f1, FieldsAt(f2, p1 + |c|));
    var p2 := p1 + |c|;
    AtParts(b, p2, d, e + g);
    PairReads(b, p2, 3, r.seqNo, f2);
    var f3 := f2.(seqNo := r.seqNo);
    PairsStep(b, p2, k - 2, f2, FieldsAt(f3, p2 + |d|));
    var p3 := p2 + |d|;
    AtParts(b, p3, e, g);
    PairReads(b, p3, 4, r.block, f3);
    var f4 := f3.(block := r.block);
    PairsStep(b, p3, k - 3, f3, FieldsAt(f4, p3 + |e|));
    var p4 := p3 + |e|;
    PairReads(b, p4, 5, r.length, f4);
    var f5 := f4.(length := r.length);
    PairsStep(b, p4, k - 4, f4, FieldsAt(f5, p4 + |g|));
  }

  /** A record is read back from any stream that contains it. */
  lemma {:induction false} RecordReads(b: seq<byte>, p: nat, r: Record)
    requires InRange(r) && At(b, p, RecordBytes(r))
    ensures ReadRecord(b, p) == Some(FieldsAt(FieldsOf(r), p + |RecordBytes(r)|))
  {
    AtInside(b, p, RecordBytes(r));
    hide RecordBytes; hide ReadRecord; hide At;
    if r.WriteRec? { WriteReads(b, p, r); } else { TrimReads(b, p, r); }
  }

  lemma {:induction false} TrimReads(b: seq<byte>, p: nat, r: Record)
    requires InRange(r) && r.TrimRec? && At(b, p, RecordBytes(r)) && p + |RecordBytes(r)| <= |b|
    ensures ReadRecord(b, p) == Some(FieldsAt(FieldsOf(r), p + |RecordBytes(r)|))
  {
    hide Head; hide ReadHead; hide Common; hide At; hide ReadPairs; hide ReadPair; hide Pair;
    var h := Head(5, 5);
    PairsDone(b, p + |RecordBytes(r)|, FieldsOf(r));
    assert RecordBytes(r) == h + Common(OP_TRIM, r);
    AtParts(b, p, h, Common(OP_TRIM, r));
    AtInside(b, p, h);
    HeadRoundTrip(b, p, 5, 5);
    CommonReads(b, p + |h|, OP_TRIM, r, 5);
  }

  lemma {:induction false} WriteReads(b: seq<byte>, p: nat, r: Record)
    requires InRange(r) && r.WriteRec? && At(b, p, RecordBytes(r))
    ensures ReadRecord(b, p) == Some(FieldsAt(FieldsOf(r), p + |RecordBytes(r)|))
  {
    hide Head; hide ReadHead; hide Common; hide At; hide ReadPairs; hide ReadPair; hide Pair;
    var h, c, q, d := Head(5, 7), Common(OP_WRITE, r), Pair(6, r.crc), Head(0, 7) + Head(2, |r.data|) + r.data;
    WriteParts(h, c, q, Head(0, 7), Head(2, |r.data|), r.data);
    assert RecordBytes(r) == h + (c + (q + d));
    AtParts(b, p, h, c + (q + d));
    AtInside(b, p, h);
    HeadRoundTrip(b, p, 5, 7);
    AtParts(b, p + |h|, c, q + d);
    CommonReads(b, p + |h|, OP_WRITE, r, 7);
    var p1 := p + |h| + |c|;
    var f1 := Fields(OP_WRITE, r.ts, r.seqNo, r.block, r.length, None, None);
    AtParts(b, p1, q, d);
    PairReads(b, p1, 6, r.crc, f1);
    var f2 := f1.(crc := Some(r.crc));
    PairsStep(b, p1, 2, f1, FieldsAt(f2, p1 + |q|));
    var p2 := p1 + |q|;
    DataReads(b, p2, r.data, f2);
    var f3 := f2.(data := Some(r.data));
    PairsStep(b, p2, 1, f2, FieldsAt(f3, p2 + |d|));
    PairsDone(b, p2 + |d|, f3);
  }

  lemma {:induction false} PairsDone(b: seq<byte>, p: nat, f: Fields)
    requires p <= |b|
    ensures ReadPairs(b, p, 0, f) == Some(FieldsAt(f, p))
  {}

  lemma {:induction false} WriteParts(h: seq<byte>, c: seq<byte>, q: seq<byte>, x: seq<byte>, y: seq<byte>,
                                      data: seq<byte>)
    ensures h + (c + (q + (x + y))) + data == h + (c + (q + (x + y + data)))
  {}

  /** Every record of a stream is read back, in order, and nothing else. */
  lemma {:induction false} RecordsRead(b: seq<byte>, p: nat, rs: seq<Record>)
    requires AllInRange(rs) && p <= |b| && b[p..] == AllRecords(rs)
    ensures ReadRecords(b, p) == AllFields(rs)
    decreases |rs|
  {
    hide RecordBytes; hide ReadRecord; hide InRange;
    if rs == [] {
    } else {
      FirstRecord(rs);
      var first, rest := RecordBytes(rs[0]), AllRecords(rs[1..]);
      assert b[p..p + |first|] == b[p..][..|first|] == first;
      RecordReads(b, p, rs[0]);
      assert b[p + |first|..] == b[p..][|first|..] == rest;
      RecordsRead(b, p + |first|, rs[1..]);
    }
  }

  lemma {:induction false} FirstRecord(rs: seq<Record>)
    requires rs != [] && AllInRange(rs)
    ensures AllRecords(rs) == RecordBytes(rs[0]) + AllRecords(rs[1..])
    decreases |rs|
  {
    hide RecordBytes; hide InRange;
    var init, last := rs[..|rs| - 1], rs[|rs| - 1];
    if init != [] {
      FirstRecord(init);
      assert rs[1..][..|rs| - 2] == init[1..] && rs[1..][|rs| - 2] == last;
      Assoc(RecordBytes(rs[0]), AllRecords(init[1..]), RecordBytes(last));
    } else {
      assert rs[1..] == [];
    }
  }

  // ---------------------------------------------------------------- the header

  datatype HeaderFields = HeaderFields(version: nat, blockSize: nat, lbl: seq<byte>, deviceSize: nat, path: seq<byte>)

  datatype HeaderAt = HeaderAt(f: HeaderFields, next: nat)

  const NoHeader: HeaderFields := HeaderFields(0, 4096, [], 0, [])

  /** One key and its value of the header map. */
  function ReadHeaderPair(b: seq<byte>, p: nat, f: HeaderFields): (r: Option<HeaderAt>)
    ensures r.Some? ==> p < r.value.next <= |b|
  {
    hide ReadHead; hide Skip;
    match ReadUint(b, p)
    case None => None
    case Some(k) =>
      if k.val == 1 || k.val == 2 || k.val == 4 then
        match ReadUint(b, k.next)
        case None => None
        case Some(v) =>
          var g := if k.val == 1 then f.(version := v.val % TWO32)
            else if k.val == 2 then f.(blockSize := v.val % TWO32) else f.(deviceSize := v.val);
          Some(HeaderAt(g, v.next))
      else if k.val == 3 || k.val == 5 then
        match ReadText(b, k.next, if k.val == 3 then 32 else 256)
        case None => None
        case Some(t) => Some(HeaderAt(if k.val == 3 then f.(lbl := t.text) else f.(path := t.text), t.next))
      else
        match Skip(b, k.next)
        case None => None
        case Some(q) => Some(HeaderAt(f, q))
  }

  function ReadHeaderPairs(b: seq<byte>, p: nat, k: nat, f: HeaderFields): (r: Option<HeaderAt>)
    requires p <= |b|
    ensures r.Some? ==> p <= r.value.next <= |b|
    decreases k
  {
    hide ReadHeaderPair;
    if k == 0 then Some(HeaderAt(f, p))
    else match ReadHeaderPair(b, p, f) case None => None case Some(x) => ReadHeaderPairs(b, x.next, k - 1, x.f)
  }

  function ReadHeader(b: seq<byte>): (r: Option<HeaderAt>)
    ensures r.Some? ==> r.value.next <= |b|
  {
    hide ReadHead; hide ReadHeaderPairs;
    match ReadHead(b, 0)
    case None => None
    case Some(h) => if h.major == 5 then ReadHeaderPairs(b, h.next, h.val, NoHeader) else None
  }

  lemma {:induction false} HeaderPairReads(b: seq<byte>, p: nat, key: nat, val: nat, f: HeaderFields)
    requires (key == 1 || key == 2 || key == 4) && val < TWO64 && At(b, p, Pair(key, val))
    ensures ReadHeaderPair(b, p, f) == Some(HeaderAt(
      if key == 1 then f.(version := val % TWO32) else if key == 2 then f.(blockSize := val % TWO32)
        else f.(deviceSize := val), p + |Pair(key, val)|))
  {
    hide Head; hide ReadHead; hide Skip; hide At;
    AtParts(b, p, Head(0, key), Head(0, val));
    HeadRoundTrip(b, p, 0, key);
    HeadRoundTrip(b, p + |Head(0, key)|, 0, val);
  }

  lemma {:induction false} HeaderTextReads(b: seq<byte>, p: nat, key: nat, text: seq<byte>, f: HeaderFields)
    requires ((key == 3 && |text| < 32) || (key == 5 && |text| < 256)) && At(b, p, TextPair(key, text))
    ensures ReadHeaderPair(b, p, f) ==
      Some(HeaderAt(if key == 3 then f.(lbl := text) else f.(path := text), p + |TextPair(key, text)|))
  {
    TextReads(b, p, key, text, if key == 3 then 32 else 256);
    hide TextPair; hide ReadHead; hide Skip; hide At; hide ReadText;
  }

  lemma {:induction false} HeaderStep(b: seq<byte>, p: nat, k: nat, f: HeaderFields, x: HeaderAt)
    requires p <= |b| && k > 0 && ReadHeaderPair(b, p, f) == Some(x)
    ensures x.next <= |b| && ReadHeaderPairs(b, p, k, f) == ReadHeaderPairs(b, x.next, k - 1, x.f)
  {
    hide ReadHeaderPair;
  }

  /** The header is read back. */
  lemma {:induction false} HeaderReads(b: seq<byte>, h: Header)
    requires GoodHeader(h) && At(b, 0, HeaderBytes(h))
    ensures ReadHeader(b) == Some(HeaderAt(HeaderFields(2, 4096, h.lbl, h.deviceSize, h.path), |HeaderBytes(h)|))
  {
    hide ReadHeaderPair; hide ReadHeaderPairs; hide Pair; hide TextPair; hide At; hide Head; hide ReadHead;
    var m, v, z, l, d, q := Head(5, 5), Pair(1, 2), Pair(2, 4096), TextPair(3, h.lbl), Pair(4, h.deviceSize),
      TextPair(5, h.path);
    AtParts(b, 0, m, v + (z + (l + (d + q))));
    AtInside(b, 0, m);
    HeadRoundTrip(b, 0, 5, 5);
    var p1 := |m|;
    AtParts(b, p1, v, z + (l + (d + q)));
    HeaderPairReads(b, p1, 1, 2, NoHeader);
    var f1 := NoHeader.(version := 2);
    HeaderStep(b, p1, 5, NoHeader, HeaderAt(f1, p1 + |v|));
    var p2 := p1 + |v|;
    AtParts(b, p2, z, l + (d + q));
    HeaderPairReads(b, p2, 2, 4096, f1);
    HeaderStep(b, p2, 4, f1, HeaderAt(f1, p2 + |z|));
    var p3 := p2 + |z|;
    AtParts(b, p3, l, d + q);
    HeaderTextReads(b, p3, 3, h.lbl, f1);
    var f2 := f1.(lbl := h.lbl);
    HeaderStep(b, p3, 3, f1, HeaderAt(f2, p3 + |l|));
    var p4 := p3 + |l|;
    AtParts(b, p4, d, q);
    HeaderPairReads(b, p4, 4, h.deviceSize, f2);
    var f3 := f2.(deviceSize := h.deviceSize);
    HeaderStep(b, p4, 2, f2, HeaderAt(f3, p4 + |d|));
    var p5 := p4 + |d|;
    HeaderTextReads(b, p5, 5, h.path, f3);
    var f4 := f3.(path := h.path);
    HeaderStep(b, p5, 1, f3, HeaderAt(f4, p5 + |q|));
    HeaderDone(b, p5 + |q|, f4);
  }

  lemma {:induction false} HeaderDone(b: seq<byte>, p: nat, f: HeaderFields)
    requires p <= |b|
    ensures ReadHeaderPairs(b, p, 0, f) == Some(HeaderAt(f, p))
  {}

  // ---------------------------------------------------------------- segments

  function SegmentBytes(h: Header, rs: seq<Record>): seq<byte>
    requires GoodHeader(h) && AllInRange(rs)
  {
    HeaderBytes(h) + AllRecords(rs)
  }

  lemma {:induction false} Halves(x: seq<byte>, y: seq<byte>)
    ensures At(x + y, 0, x) && (x + y)[|x|..] == y
  {
    assert (x + y)[0..|x|] == x;
  }

  /** A segment is read back: its header, then exactly its records, in order. */
  lemma {:induction false} SegmentReads(b: seq<byte>, h: Header, rs: seq<Record>)
    requires GoodHeader(h) && AllInRange(rs) && b == SegmentBytes(h, rs)
    ensures ReadHeader(b) == Some(HeaderAt(HeaderFields(2, 4096, h.lbl, h.deviceSize, h.path), |HeaderBytes(h)|))
    ensures ReadRecords(b, |HeaderBytes(h)|) == AllFields(rs)
  {
    hide HeaderBytes; hide AllRecords; hide ReadHeader; hide ReadRecords; hide At; hide InRange; hide GoodHeader;
    hide AllFields;
    Halves(HeaderBytes(h), AllRecords(rs));
    HeaderReads(b, h);
    RecordsRead(b, |HeaderBytes(h)|, rs);
  }

  // ---------------------------------------------------------------- the log reader

  /** One pair of an entry's map, as the reader goes through it. */
  method DecodePair(d: Decoder, f: Fields) returns (ok: bool, g: Fields)
    requires d.Valid()
    modifies d
    ensures d.Valid() && (ok <==> ReadPair(d.data, old(d.pos), f).Some?)
    ensures ok ==> ReadPair(d.data, old(d.pos), f) == Some(FieldsAt(g, d.pos))
  {
    hide ReadHead; hide Skip;
    g := f;
    var key;
    ok, key := d.DecUint();
    if !ok {
      return;
    }
    if key == 1 {
      var text;
      ok, text := d.DecText(4);
      g := if text == [] then f.(op := 0) else f.(op := text[0]);
    } else if 2 <= key <= 6 {
      var val;
      ok, val := d.DecUint();
      g := WithUint(f, key, val);
    } else if key == 7 {
      var major, n;
      ok, major, n := d.DecHead();
      if !ok || major != 2 || d.pos + n > |d.data| {
        return false, f;
      }
      g := f.(data := Some(d.data[d.pos..d.pos + n]));
      d.pos := d.pos + n;
    } else {
      ok := d.SkipItem();
    }
  }

  /** One entry. */
  method DecodeRecord(d: Decoder) returns (ok: bool, f: Fields)
    requires d.Valid()
    modifies d
    ensures d.Valid() && (ok <==> ReadRecord(d.data, old(d.pos)).Some?)
    ensures ok ==> ReadRecord(d.data, old(d.pos)) == Some(FieldsAt(f, d.pos))
  {
    hide ReadHead; hide ReadPair;
    f := NoFields;
    var major, count;
    ok, major, count := d.DecHead();
    if !ok || major != 5 {
      return false, f;
    }
    ghost var from := d.pos;
    for i := 0 to count
      invariant d.Valid() && from <= d.pos
      invariant ReadPairs(d.data, from, count, NoFields) == ReadPairs(d.data, d.pos, count - i, f)
    {
      ok, f := DecodePair(d, f);
      if !ok {
        return;
      }
    }
    return true, f;
  }

  /** The entries of a log, up to its end or the first unreadable one. */
  method DecodeRecords(d: Decoder) returns (fs: seq<Fields>)
    requires d.Valid()
    modifies d
    ensures fs == ReadRecords(d.data, old(d.pos))
  {
    hide ReadRecord;
    fs := [];
    while true
      invariant d.Valid() && ReadRecords(d.data, old(d.pos)) == fs + ReadRecords(d.data, d.pos)
      decreases |d.data| - d.pos
    {
      ghost var p := d.pos;
      var ok, f := DecodeRecord(d);
      if !ok {
        return;
      }
      fs := fs + [f];
    }
  }
}
