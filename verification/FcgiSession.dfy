/**
 * The output side of one request as a state machine: two writers, STDOUT and STDERR, that buffer what is
 * put into them and share a connection.  FcgiWriter implements its steps; here its runs are studied.
 */
module FcgiSession {
  import opened Bytes
  import opened FcgiRecords

  datatype Which = Out | Err {
    function Type(): byte {
      if Out? then FCGI_STDOUT else FCGI_STDERR
    }
  }

  /** Room for content in a writer's buffer, which is a multiple of eight bytes and holds a header too. */
  type Capacity = n: int | 16 <= n <= 0xfff8 && n % 8 == 0 witness 16

  datatype Config = Config(id: RequestId, outCapacity: Capacity, errCapacity: Capacity) {
    function CapacityOf(w: Which): Capacity {
      if w.Out? then outCapacity else errCapacity
    }
  }

  /** One writer: bytes not yet sent, and whether it was closed or ever sent anything. */
  datatype Writer = Writer(pending: bytes, closed: bool, anything: bool)

  datatype Session = Session(log: seq<Record>, nWriters: int, appStatus: int, out: Writer, err: Writer) {
    function Get(w: Which): Writer {
      if w.Out? then out else err
    }

    function Set(w: Which, writer: Writer): Session {
      if w.Out? then this.(out := writer) else this.(err := writer)
    }
  }

  datatype Op =
    | Put(which: Which, s: bytes)
    | Flush(which: Which)
    | Close(which: Which)
    | SetStatus(which: Which, status: int)

  const Fresh := Writer([], false, false)
  const Initial := Session([], 2, 0, Fresh, Fresh)

  // ---------------------------------------------------------------- steps

  /** Content padded with zeros to a multiple of eight bytes. */
  function DataRecord(rtype: byte, id: RequestId, content: bytes): Record {
    Record(rtype, id, content, Zeros(AlignInt8(|content|) - |content|))
  }

  function EofRecord(rtype: byte, id: RequestId): Record {
    Record(rtype, id, [], [])
  }

  function EndRecord(id: RequestId, appStatus: int): Record {
    Record(FCGI_END_REQUEST, id, EndRequestBody(appStatus, FCGI_REQUEST_COMPLETE), [])
  }

  /** Records sent while `s` passes through a buffer that holds `pending`: one each time it overflows. */
  function PutRecords(rtype: byte, id: RequestId, capacity: Capacity, pending: bytes, s: bytes): seq<Record>
    requires |pending| <= capacity
    decreases |s|, |pending|
  {
    if |pending| + |s| <= capacity then []
    else
      var room := capacity - |pending|;
      [DataRecord(rtype, id, pending + s[..room])] + PutRecords(rtype, id, capacity, [], s[room..])
  }

  function PutRest(capacity: Capacity, pending: bytes, s: bytes): (r: bytes)
    requires |pending| <= capacity
    ensures |r| <= capacity
    decreases |s|, |pending|
  {
    if |pending| + |s| <= capacity then pending + s
    else PutRest(capacity, [], s[capacity - |pending|..])
  }

  /** Moving bytes into the room that is left does not change what will be sent. */
  lemma FillStep(rtype: byte, id: RequestId, capacity: Capacity, pending: bytes, s: bytes, m: nat)
    requires |pending| + m <= capacity && m <= |s|
    ensures PutRecords(rtype, id, capacity, pending, s) == PutRecords(rtype, id, capacity, pending + s[..m], s[m..])
    ensures PutRest(capacity, pending, s) == PutRest(capacity, pending + s[..m], s[m..])
  {
    if |pending| + |s| <= capacity {
      assert pending + s == pending + s[..m] + s[m..];
    } else {
      var room := capacity - |pending|;
      assert pending + s[..room] == pending + s[..m] + s[m..][..room - m];
      assert s[room..] == s[m..][room - m..];
    }
  }

  lemma NothingLeft(rtype: byte, id: RequestId, capacity: Capacity, pending: bytes)
    requires |pending| <= capacity
    ensures PutRecords(rtype, id, capacity, pending, []) == [] && PutRest(capacity, pending, []) == pending
  {
  }

  /** A full buffer with more to come is sent as it is. */
  lemma OverflowStep(rtype: byte, id: RequestId, capacity: Capacity, pending: bytes, s: bytes)
    requires |pending| == capacity && s != []
    ensures PutRecords(rtype, id, capacity, pending, s)
         == FlushRecords(rtype, id, pending) + PutRecords(rtype, id, capacity, [], s)
    ensures PutRest(capacity, pending, s) == PutRest(capacity, [], s)
  {
    assert pending + s[..0] == pending && s[0..] == s;
  }

  function FlushRecords(rtype: byte, id: RequestId, pending: bytes): seq<Record> {
    if pending == [] then [] else [DataRecord(rtype, id, pending)]
  }

  /** An end-of-stream record, unless this is STDERR and nothing was ever written to it. */
  function EofRecords(rtype: byte, id: RequestId, unused: bool): seq<Record> {
    if rtype == FCGI_STDERR && unused then [] else [EofRecord(rtype, id)]
  }

  function EndRecords(id: RequestId, appStatus: int, nWriters: int): seq<Record> {
    if nWriters == 1 then [EndRecord(id, appStatus)] else []
  }

  function CloseRecords(rtype: byte, id: RequestId, appStatus: int, nWriters: int, w: Writer): seq<Record> {
    FlushRecords(rtype, id, w.pending) + EofRecords(rtype, id, w.pending == [] && !w.anything)
    + EndRecords(id, appStatus, nWriters)
  }

  function Step(cfg: Config, s: Session, op: Op): Session
    requires forall w: Which :: |s.Get(w).pending| <= cfg.CapacityOf(w)
  {
    var w := s.Get(op.which);
    var rtype, capacity := op.which.Type(), cfg.CapacityOf(op.which);
    if op.SetStatus? then s.(appStatus := op.status)
    else if w.closed then s
    else
      match op
      case Put(which, str) =>
        var sent := PutRecords(rtype, cfg.id, capacity, w.pending, str);
        s.(log := s.log + sent)
         .Set(which, Writer(PutRest(capacity, w.pending, str), false, w.anything || sent != []))
      case Flush(which) =>
        s.(log := s.log + FlushRecords(rtype, cfg.id, w.pending))
         .Set(which, Writer([], false, w.anything || w.pending != []))
      case Close(which) =>
        var sent := CloseRecords(rtype, cfg.id, s.appStatus, s.nWriters, w);
        s.(log := s.log + sent, nWriters := s.nWriters - 1)
         .Set(which, Writer([], true, w.anything || sent != []))
  }

  function Run(cfg: Config, ops: seq<Op>): (s: Session)
    ensures forall w: Which :: |s.Get(w).pending| <= cfg.CapacityOf(w)
  {
    if ops == [] then Initial else Step(cfg, Run(cfg, ops[..|ops| - 1]), ops[|ops| - 1])
  }

  // ---------------------------------------------------------------- what a run should do

  predicate ClosedIn(ops: seq<Op>, w: Which) {
    Close(w) in ops
  }

  predicate Over(ops: seq<Op>) {
    ClosedIn(ops, Out) && ClosedIn(ops, Err)
  }

  /** The exit status that was set last before the request was over. */
  function EndStatus(ops: seq<Op>): int {
    if ops == [] then 0
    else
      var before, op := ops[..|ops| - 1], ops[|ops| - 1];
      if op.SetStatus? && !Over(before) then op.status else EndStatus(before)
  }

  /** The bytes put into a writer before it was closed. */
  function Accepted(ops: seq<Op>, w: Which): bytes {
    if ops == [] then []
    else
      var before, op := ops[..|ops| - 1], ops[|ops| - 1];
      Accepted(before, w) + if op.Put? && op.which == w && !ClosedIn(before, w) then op.s else []
  }

  /** The concatenated contents of the records of one type. */
  function DataOf(log: seq<Record>, rtype: byte): bytes {
    if log == [] then []
    else
      var r := log[|log| - 1];
      DataOf(log[..|log| - 1], rtype) + if r.rtype == rtype then r.content else []
  }

  /** How many records of one type, empty or not, the log holds. */
  function Count(log: seq<Record>, rtype: byte, empty: bool): nat {
    if log == [] then 0
    else
      var r := log[|log| - 1];
      Count(log[..|log| - 1], rtype, empty) + if r.rtype == rtype && (r.content == []) == empty then 1 else 0
  }

  /** A whole record of this request, a multiple of eight bytes long. */
  predicate WellFramed(cfg: Config, r: Record) {
    && r.Fits() && |EncodeRecord(r)| % 8 == 0 && |r.padding| < 8 && |r.content| <= 0xfff8
    && r.id == cfg.id
    && (r.rtype == FCGI_STDOUT || r.rtype == FCGI_STDERR || (r.rtype == FCGI_END_REQUEST && |r.content| == 8))
  }

  /** An empty record of a type is the last record of that type. */
  ghost predicate EofIsLast(log: seq<Record>, rtype: byte) {
    forall i, j | 0 <= i < j < |log| && log[i].rtype == rtype && log[i].content == [] :: log[j].rtype != rtype
  }

  /** Whether closing the writer owes the stream an end-of-stream record. */
  predicate OwesEof(ops: seq<Op>, w: Which) {
    ClosedIn(ops, w) && (w.Out? || Accepted(ops, w) != [])
  }

  ghost predicate WriterInvariant(cfg: Config, ops: seq<Op>, s: Session, w: Which) {
    var writer, rtype := s.Get(w), w.Type();
    && (writer.closed <==> ClosedIn(ops, w))
    && (writer.closed ==> writer.pending == [])
    && DataOf(s.log, rtype) + writer.pending == Accepted(ops, w)
    && (!writer.closed ==> (writer.anything <==> DataOf(s.log, rtype) != []))
    && Count(s.log, rtype, true) == (if OwesEof(ops, w) then 1 else 0)
    && EofIsLast(s.log, rtype)
  }

  ghost predicate Invariant(cfg: Config, ops: seq<Op>, s: Session) {
    && (forall r | r in s.log :: WellFramed(cfg, r))
    && WriterInvariant(cfg, ops, s, Out) && WriterInvariant(cfg, ops, s, Err)
    && s.nWriters == (if s.out.closed then 0 else 1) + (if s.err.closed then 0 else 1)
    && Count(s.log, FCGI_END_REQUEST, false) == (if s.nWriters == 0 then 1 else 0)
    && (s.nWriters != 0 ==> s.appStatus == EndStatus(ops))
    && (s.nWriters == 0 ==> s.log != [] && s.log[|s.log| - 1] == EndRecord(cfg.id, EndStatus(ops)))
  }

  // ---------------------------------------------------------------- appending to the log

  lemma {:induction false} DataOfAppend(a: seq<Record>, b: seq<Record>, rtype: byte)
    ensures DataOf(a + b, rtype) == DataOf(a, rtype) + DataOf(b, rtype)
  {
    if b == [] {
      assert a + b == a;
    } else {
      assert (a + b)[..|a + b| - 1] == a + b[..|b| - 1];
      DataOfAppend(a, b[..|b| - 1], rtype);
    }
  }

  lemma {:induction false} CountAppend(a: seq<Record>, b: seq<Record>, rtype: byte, empty: bool)
    ensures Count(a + b, rtype, empty) == Count(a, rtype, empty) + Count(b, rtype, empty)
  {
    if b == [] {
      assert a + b == a;
    } else {
      assert (a + b)[..|a + b| - 1] == a + b[..|b| - 1];
      CountAppend(a, b[..|b| - 1], rtype, empty);
    }
  }

  lemma {:induction false} CountNone(log: seq<Record>, rtype: byte, empty: bool)
    ensures Count(log, rtype, empty) == 0
       <==> (forall r | r in log :: r.rtype != rtype || (r.content == []) != empty)
  {
    if log != [] {
      var front, r := log[..|log| - 1], log[|log| - 1];
      CountNone(front, rtype, empty);
      assert log == front + [r];
    }
  }

  lemma {:induction false} DataOfNone(log: seq<Record>, rtype: byte)
    requires forall r | r in log :: r.rtype != rtype
    ensures DataOf(log, rtype) == []
  {
    if log != [] {
      DataOfNone(log[..|log| - 1], rtype);
    }
  }

  /** Records of other types leave a writer's view of the log alone. */
  lemma OthersAppended(log: seq<Record>, more: seq<Record>, rtype: byte)
    requires forall r | r in more :: r.rtype != rtype
    ensures DataOf(log + more, rtype) == DataOf(log, rtype)
    ensures forall empty :: Count(log + more, rtype, empty) == Count(log, rtype, empty)
    ensures EofIsLast(log, rtype) ==> EofIsLast(log + more, rtype)
  {
    DataOfAppend(log, more, rtype);
    DataOfNone(more, rtype);
    forall empty
      ensures Count(log + more, rtype, empty) == Count(log, rtype, empty)
    {
      CountAppend(log, more, rtype, empty);
      CountNone(more, rtype, empty);
    }
  }

  /** As long as a type has no empty record, records of that type may follow. */
  lemma OwnAppended(log: seq<Record>, more: seq<Record>, rtype: byte)
    requires Count(log, rtype, true) == 0 && EofIsLast(more, rtype)
    ensures EofIsLast(log + more, rtype)
  {
    CountNone(log, rtype, true);
    var all := log + more;
    forall i | 0 <= i < |log|
      ensures all[i].rtype != rtype || all[i].content != []
    {
      assert log[i] in log;
    }
    forall i, j | 0 <= i < j < |all| && all[i].rtype == rtype && all[i].content == []
      ensures all[j].rtype != rtype
    {
      assert all[i] == more[i - |log|] && all[j] == more[j - |log|];
    }
  }

  // ---------------------------------------------------------------- what a step sends

  /** Non-empty, well-framed records of one type. */
  ghost predicate DataRecords(cfg: Config, rtype: byte, sent: seq<Record>) {
    forall r | r in sent :: WellFramed(cfg, r) && r.rtype == rtype && r.content != []
  }

  lemma {:induction false} DataRecordsHaveNoEof(cfg: Config, rtype: byte, sent: seq<Record>)
    requires DataRecords(cfg, rtype, sent)
    ensures Count(sent, rtype, true) == 0 && EofIsLast(sent, rtype)
    ensures DataOf(sent, rtype) == [] <==> sent == []
  {
    CountNone(sent, rtype, true);
    if sent != [] {
      assert sent[|sent| - 1] in sent;
    }
  }

  lemma DataRecordFramed(cfg: Config, w: Which, content: bytes)
    requires 1 <= |content| <= 0xfff8
    ensures DataRecords(cfg, w.Type(), [DataRecord(w.Type(), cfg.id, content)])
    ensures DataOf([DataRecord(w.Type(), cfg.id, content)], w.Type()) == content
  {
    hide DataOf, EncodeRecord;
    var r := DataRecord(w.Type(), cfg.id, content);
    SingleRecord(cfg, r, w.Type(), true);
    DataRecordLength(w.Type(), cfg.id, content);
  }

  /** The padding fills the record up to a multiple of eight bytes. */
  lemma DataRecordLength(rtype: byte, id: RequestId, content: bytes)
    requires 1 <= |content| <= 0xfff8
    ensures var r := DataRecord(rtype, id, content);
            r.Fits() && |r.padding| < 8 && |EncodeRecord(r)| % 8 == 0
  {
    hide MakeHeader;
    assert |EncodeRecord(DataRecord(rtype, id, content))| == FCGI_HEADER_LEN + AlignInt8(|content|);
  }

  /** Nothing put is lost or reordered: what is sent and what stays buffered make up what there was. */
  lemma {:induction false} PutConserves(cfg: Config, w: Which, capacity: Capacity, pending: bytes, s: bytes)
    requires |pending| <= capacity
    ensures var sent := PutRecords(w.Type(), cfg.id, capacity, pending, s);
            && DataRecords(cfg, w.Type(), sent)
            && DataOf(sent, w.Type()) + PutRest(capacity, pending, s) == pending + s
    decreases |s|, |pending|
  {
    hide WellFramed, DataRecord, DataOf;
    var rtype := w.Type();
    if |pending| + |s| > capacity {
      var room := capacity - |pending|;
      var content, rest := pending + s[..room], s[room..];
      var more := PutRecords(rtype, cfg.id, capacity, [], rest);
      DataRecordFramed(cfg, w, content);
      PutConserves(cfg, w, capacity, [], rest);
      DataOfAppend([DataRecord(rtype, cfg.id, content)], more, rtype);
      calc {
        DataOf(PutRecords(rtype, cfg.id, capacity, pending, s), rtype) + PutRest(capacity, pending, s);
        (content + DataOf(more, rtype)) + PutRest(capacity, [], rest);
        content + (DataOf(more, rtype) + PutRest(capacity, [], rest));
        content + ([] + rest);
        pending + s;
      }
    } else {
      DataOfNone([], rtype);
    }
  }

  lemma FlushConserves(cfg: Config, w: Which, pending: bytes)
    requires |pending| <= 0xfff8
    ensures var sent := FlushRecords(w.Type(), cfg.id, pending);
            DataRecords(cfg, w.Type(), sent) && DataOf(sent, w.Type()) == pending
  {
    if pending != [] {
      DataRecordFramed(cfg, w, pending);
    }
  }

  lemma {:induction false} AcceptedStep(ops: seq<Op>, op: Op, w: Which)
    ensures Accepted(ops + [op], w)
         == Accepted(ops, w) + (if op.Put? && op.which == w && !ClosedIn(ops, w) then op.s else [])
    ensures ClosedIn(ops + [op], w) <==> ClosedIn(ops, w) || op == Close(w)
    ensures EndStatus(ops + [op]) == if op.SetStatus? && !Over(ops) then op.status else EndStatus(ops)
  {
    assert (ops + [op])[..|ops|] == ops;
  }

  // ---------------------------------------------------------------- every step keeps the invariant

  /** The session after a step of an open writer that sends `sent` and leaves `pending` behind. */
  function AfterData(s: Session, w: Which, sent: seq<Record>, pending: bytes): Session {
    s.(log := s.log + sent).Set(w, Writer(pending, false, s.Get(w).anything || sent != []))
  }

  /** Such a step moves data of one open writer on, and adds `extra` to it. */
  ghost predicate MovesData(cfg: Config, ops: seq<Op>, op: Op, s: Session, sent: seq<Record>, pending: bytes) {
    && Invariant(cfg, ops, s) && !s.Get(op.which).closed && !op.Close? && !op.SetStatus?
    && DataRecords(cfg, op.which.Type(), sent)
    && DataOf(sent, op.which.Type()) + pending == s.Get(op.which).pending + if op.Put? then op.s else []
  }

  lemma OwnAfterData(cfg: Config, ops: seq<Op>, op: Op, s: Session, sent: seq<Record>, pending: bytes)
    requires MovesData(cfg, ops, op, s, sent, pending)
    ensures WriterInvariant(cfg, ops + [op], AfterData(s, op.which, sent, pending), op.which)
  {
    hide WellFramed, Accepted, ClosedIn, DataOf, Count, EofIsLast, EndRecord, EndStatus, DataRecords;
    var w, rtype := op.which, op.which.Type();
    AcceptedStep(ops, op, w);
    DataRecordsHaveNoEof(cfg, rtype, sent);
    DataOfAppend(s.log, sent, rtype);
    CountAppend(s.log, sent, rtype, true);
    OwnAppended(s.log, sent, rtype);
    var data, extra := DataOf(s.log, rtype), if op.Put? then op.s else [];
    Associative(data, DataOf(sent, rtype), pending);
    Associative(data, s.Get(w).pending, extra);
  }

  /** The other writer notices nothing. */
  lemma OtherAfterData(cfg: Config, ops: seq<Op>, op: Op, s: Session, sent: seq<Record>, pending: bytes)
    requires MovesData(cfg, ops, op, s, sent, pending)
    ensures WriterInvariant(cfg, ops + [op], AfterData(s, op.which, sent, pending), if op.which.Out? then Err else Out)
  {
    hide WellFramed, Accepted, ClosedIn, DataOf, Count, EofIsLast, EndRecord, EndStatus;
    var other := if op.which.Out? then Err else Out;
    AcceptedStep(ops, op, other);
    OthersAppended(s.log, sent, other.Type());
  }

  /** A step that only sends data of one open writer. */
  lemma DataSent(cfg: Config, ops: seq<Op>, op: Op, s: Session, sent: seq<Record>, pending: bytes)
    requires MovesData(cfg, ops, op, s, sent, pending)
    ensures Invariant(cfg, ops + [op], AfterData(s, op.which, sent, pending))
  {
    hide WellFramed, WriterInvariant, Accepted, ClosedIn, DataOf, Count, EofIsLast, EndRecord, EndStatus;
    AcceptedStep(ops, op, Out);
    OwnAfterData(cfg, ops, op, s, sent, pending);
    OtherAfterData(cfg, ops, op, s, sent, pending);
    OthersAppended(s.log, sent, FCGI_END_REQUEST);
    OpenCountsIn(cfg, ops, s, op.which);
  }

  lemma OpenCountsIn(cfg: Config, ops: seq<Op>, s: Session, w: Which)
    requires Invariant(cfg, ops, s) && !s.Get(w).closed
    ensures s.nWriters != 0
  {
    hide WellFramed, WriterInvariant, Count;
  }

  lemma PutKeepsInvariant(cfg: Config, ops: seq<Op>, s: Session, w: Which, str: bytes)
    requires Invariant(cfg, ops, s) && !s.Get(w).closed
    requires forall w: Which :: |s.Get(w).pending| <= cfg.CapacityOf(w)
    ensures Invariant(cfg, ops + [Put(w, str)], Step(cfg, s, Put(w, str)))
  {
    hide Invariant, PutRecords, PutRest;
    var pending, capacity := s.Get(w).pending, cfg.CapacityOf(w);
    PutConserves(cfg, w, capacity, pending, str);
    DataSent(cfg, ops, Put(w, str), s, PutRecords(w.Type(), cfg.id, capacity, pending, str),
             PutRest(capacity, pending, str));
  }

  lemma FlushKeepsInvariant(cfg: Config, ops: seq<Op>, s: Session, w: Which)
    requires Invariant(cfg, ops, s) && !s.Get(w).closed
    requires forall w: Which :: |s.Get(w).pending| <= cfg.CapacityOf(w)
    ensures Invariant(cfg, ops + [Flush(w)], Step(cfg, s, Flush(w)))
  {
    hide Invariant;
    FlushConserves(cfg, w, s.Get(w).pending);
    DataSent(cfg, ops, Flush(w), s, FlushRecords(w.Type(), cfg.id, s.Get(w).pending), []);
  }

  /** A closed writer ignores everything. */
  lemma ClosedKeepsInvariant(cfg: Config, ops: seq<Op>, op: Op, s: Session)
    requires Invariant(cfg, ops, s) && s.Get(op.which).closed && !op.SetStatus?
    ensures Invariant(cfg, ops + [op], s)
  {
    hide WellFramed, Accepted, ClosedIn, DataOf, Count, EofIsLast, EndRecord, EndStatus;
    AcceptedStep(ops, op, Out);
    AcceptedStep(ops, op, Err);
  }

  /** Setting the exit status sends nothing. */
  lemma SetStatusKeepsInvariant(cfg: Config, ops: seq<Op>, s: Session, w: Which, status: int)
    requires Invariant(cfg, ops, s)
    ensures Invariant(cfg, ops + [SetStatus(w, status)], s.(appStatus := status))
  {
    hide WellFramed, Accepted, ClosedIn, DataOf, Count, EofIsLast, EndRecord, EndStatus;
    AcceptedStep(ops, SetStatus(w, status), Out);
    AcceptedStep(ops, SetStatus(w, status), Err);
  }

  lemma SingleRecord(cfg: Config, r: Record, rtype: byte, empty: bool)
    ensures DataOf([r], rtype) == if r.rtype == rtype then r.content else []
    ensures Count([r], rtype, empty) == if r.rtype == rtype && (r.content == []) == empty then 1 else 0
  {
    assert [r][..0] == [];
  }

  lemma TailRecordsFramed(cfg: Config, w: Which, appStatus: int)
    ensures WellFramed(cfg, EofRecord(w.Type(), cfg.id))
    ensures WellFramed(cfg, EndRecord(cfg.id, appStatus))
  {
  }

  /** What closing a writer may send: well-framed records of its own type, and the end of the request. */
  ghost predicate ClosingRecords(cfg: Config, rtype: byte, sent: seq<Record>) {
    forall r | r in sent :: WellFramed(cfg, r) && (r.rtype == rtype || r.rtype == FCGI_END_REQUEST)
  }

  /** The end-of-stream and end-of-request records that closing may add after the data. */
  lemma TailSends(cfg: Config, w: Which, unused: bool, appStatus: int, nWriters: int)
    ensures var rtype := w.Type();
            var eof, end := EofRecords(rtype, cfg.id, unused), EndRecords(cfg.id, appStatus, nWriters);
            && ClosingRecords(cfg, rtype, eof + end)
            && DataOf(eof + end, rtype) == []
            && Count(eof + end, rtype, true) == |eof|
            && Count(eof + end, FCGI_END_REQUEST, false) == |end|
            && EofIsLast(eof + end, rtype)
  {
    hide WellFramed, EndRequestBody, DataOf, Count;
    DataOfNone([], w.Type());
    var rtype := w.Type();
    var eof, end := EofRecords(rtype, cfg.id, unused), EndRecords(cfg.id, appStatus, nWriters);
    TailRecordsFramed(cfg, w, appStatus);
    DataOfAppend(eof, end, rtype);
    CountAppend(eof, end, rtype, true);
    CountAppend(eof, end, FCGI_END_REQUEST, false);
    SingleRecord(cfg, EofRecord(rtype, cfg.id), rtype, true);
    SingleRecord(cfg, EofRecord(rtype, cfg.id), FCGI_END_REQUEST, false);
    SingleRecord(cfg, EndRecord(cfg.id, appStatus), rtype, true);
    SingleRecord(cfg, EndRecord(cfg.id, appStatus), FCGI_END_REQUEST, false);
    CountNone([], rtype, true);
    CountNone([], FCGI_END_REQUEST, false);
  }

  /** The data that closing a writer sends before that. */
  lemma DataSends(cfg: Config, w: Which, pending: bytes)
    requires |pending| <= 0xfff8
    ensures var data, rtype := FlushRecords(w.Type(), cfg.id, pending), w.Type();
            && ClosingRecords(cfg, rtype, data) && DataOf(data, rtype) == pending
            && Count(data, rtype, true) == 0 && Count(data, FCGI_END_REQUEST, false) == 0
  {
    hide WellFramed, DataOf, Count, EofIsLast, FlushRecords;
    var data, rtype := FlushRecords(w.Type(), cfg.id, pending), w.Type();
    FlushConserves(cfg, w, pending);
    DataRecordsHaveNoEof(cfg, rtype, data);
    CountNone(data, FCGI_END_REQUEST, false);
  }

  /** Everything closing a writer sends: its data, then the tail. */
  lemma CloseSends(cfg: Config, w: Which, writer: Writer, appStatus: int, nWriters: int)
    requires |writer.pending| <= 0xfff8
    ensures var rtype := w.Type();
            var sent := CloseRecords(rtype, cfg.id, appStatus, nWriters, writer);
            && ClosingRecords(cfg, rtype, sent)
            && DataOf(sent, rtype) == writer.pending
            && Count(sent, rtype, true) == |EofRecords(rtype, cfg.id, writer.pending == [] && !writer.anything)|
            && Count(sent, FCGI_END_REQUEST, false) == (if nWriters == 1 then 1 else 0)
            && EofIsLast(sent, rtype)
  {
    hide WellFramed, EofIsLast, DataOf, Count, EndRecord, EofRecords, FlushRecords;
    var rtype := w.Type();
    var data := FlushRecords(rtype, cfg.id, writer.pending);
    var unused := writer.pending == [] && !writer.anything;
    var eof, end := EofRecords(rtype, cfg.id, unused), EndRecords(cfg.id, appStatus, nWriters);
    assert data + eof + end == data + (eof + end);
    DataSends(cfg, w, writer.pending);
    TailSends(cfg, w, unused, appStatus, nWriters);
    DataOfAppend(data, eof + end, rtype);
    CountAppend(data, eof + end, rtype, true);
    CountAppend(data, eof + end, FCGI_END_REQUEST, false);
    OwnAppended(data, eof + end, rtype);
  }

  /** The end of the request comes last. */
  lemma EndComesLast(cfg: Config, rtype: byte, writer: Writer, appStatus: int)
    ensures var sent := CloseRecords(rtype, cfg.id, appStatus, 1, writer);
            sent != [] && sent[|sent| - 1] == EndRecord(cfg.id, appStatus)
  {
    hide EndRecord, EofRecords, FlushRecords;
  }

  lemma CloseKeepsInvariant(cfg: Config, ops: seq<Op>, s: Session, w: Which)
    requires Invariant(cfg, ops, s) && !s.Get(w).closed
    requires forall w: Which :: |s.Get(w).pending| <= cfg.CapacityOf(w)
    ensures Invariant(cfg, ops + [Close(w)], Step(cfg, s, Close(w)))
  {
    hide WellFramed, Accepted, ClosedIn, DataOf, Count, EofIsLast, EndRecord, CloseRecords, EndStatus;
    var rtype := w.Type();
    var other := if w.Out? then Err else Out;
    var sent := CloseRecords(rtype, cfg.id, s.appStatus, s.nWriters, s.Get(w));
    AcceptedStep(ops, Close(w), Out);
    AcceptedStep(ops, Close(w), Err);
    CloseSends(cfg, w, s.Get(w), s.appStatus, s.nWriters);
    EndComesLast(cfg, rtype, s.Get(w), s.appStatus);
    DataOfAppend(s.log, sent, rtype);
    CountAppend(s.log, sent, rtype, true);
    CountAppend(s.log, sent, FCGI_END_REQUEST, false);
    OwnAppended(s.log, sent, rtype);
    OthersAppended(s.log, sent, other.Type());
    var t := Step(cfg, s, Close(w));
    assert t.log == s.log + sent;
    assert WriterInvariant(cfg, ops + [Close(w)], t, w);
    assert WriterInvariant(cfg, ops + [Close(w)], t, other);
  }

  /** The invariant holds after every run, whatever the interleaving of the two writers. */
  lemma {:induction false} RunKeepsInvariant(cfg: Config, ops: seq<Op>)
    ensures Invariant(cfg, ops, Run(cfg, ops))
  {
    if ops != [] {
      var before, op := ops[..|ops| - 1], ops[|ops| - 1];
      RunKeepsInvariant(cfg, before);
      assert ops == before + [op];
      StepKeepsInvariant(cfg, before, op);
    }
  }

  lemma StepKeepsInvariant(cfg: Config, ops: seq<Op>, op: Op)
    requires Invariant(cfg, ops, Run(cfg, ops))
    ensures Invariant(cfg, ops + [op], Step(cfg, Run(cfg, ops), op))
  {
    var s := Run(cfg, ops);
    if op.SetStatus? {
      SetStatusKeepsInvariant(cfg, ops, s, op.which, op.status);
    } else if s.Get(op.which).closed {
      ClosedKeepsInvariant(cfg, ops, op, s);
    } else {
      match op
      case Put(w, str) => PutKeepsInvariant(cfg, ops, s, w, str);
      case Flush(w) => FlushKeepsInvariant(cfg, ops, s, w);
      case Close(w) => CloseKeepsInvariant(cfg, ops, s, w);
      case SetStatus(_, _) =>
    }
  }

  // ---------------------------------------------------------------- main results

  /** The connection carries whole records, and they can be read back from its bytes. */
  lemma WireIsFramed(cfg: Config, ops: seq<Op>)
    ensures var log := Run(cfg, ops).log;
            && (forall r | r in log :: r.Fits() && WellFramed(cfg, r))
            && ParseRecords(EncodeRecords(log)) == Some(log)
            && |EncodeRecords(log)| % 8 == 0
  {
    RunKeepsInvariant(cfg, ops);
    var log := Run(cfg, ops).log;
    ParseOfEncode(log);
    WholeWords(cfg, log);
  }

  lemma {:induction false} WholeWords(cfg: Config, log: seq<Record>)
    requires forall r | r in log :: r.Fits() && WellFramed(cfg, r)
    ensures |EncodeRecords(log)| % 8 == 0
  {
    if log != [] {
      hide EncodeRecord;
      assert log[0] in log && WellFramed(cfg, log[0]);
      WholeWords(cfg, log[1..]);
      SumOfMultiples(|EncodeRecord(log[0])|, |EncodeRecords(log[1..])|);
    }
  }

  lemma SumOfMultiples(m: nat, n: nat)
    requires m % 8 == 0 && n % 8 == 0
    ensures (m + n) % 8 == 0
  {
  }

  /**
   * For every interleaving: each stream carries what was put into it before its close, in order, and
   * after the close nothing is held back; a stream ends at most once, and STDERR not at all if unused.
   */
  lemma StreamsCarryWhatWasPut(cfg: Config, ops: seq<Op>, w: Which)
    ensures var log, rtype := Run(cfg, ops).log, if w.Out? then 6 else 7;
            && DataOf(log, rtype) <= Accepted(ops, w)
            && (ClosedIn(ops, w) ==> DataOf(log, rtype) == Accepted(ops, w))
            && Count(log, rtype, true) == (if OwesEof(ops, w) then 1 else 0)
            && EofIsLast(log, rtype)
  {
    RunKeepsInvariant(cfg, ops);
  }

  /** A record of type 3 that says in its bytes that the request is complete, with an exit status. */
  predicate TellsEnd(r: Record, id: RequestId, status: int) {
    && r.rtype == 3 && r.id == id && |r.content| == 8 && r.padding == []
    && StatusOf(r.content) == status % 0x1_0000_0000 && r.content[4..] == [0, 0, 0, 0]
  }

  /**
   * The request ends exactly once, when the second writer closes; the end is the last record and carries
   * the exit status that was in force then.
   */
  lemma RequestEndsOnce(cfg: Config, ops: seq<Op>)
    ensures var log := Run(cfg, ops).log;
            && Count(log, 3, false) == (if Over(ops) then 1 else 0)
            && (Over(ops) ==> log != [] && TellsEnd(log[|log| - 1], cfg.id, EndStatus(ops)))
  {
    hide EndRequestBody;
    RunKeepsInvariant(cfg, ops);
    EndRequestBodyReadBack(EndStatus(ops), FCGI_REQUEST_COMPLETE);
  }

  /** The bytes of a whole response: one byte on each stream, and an exit status. */
  lemma SmallResponse(cfg: Config)
    ensures var log := Run(cfg, [Put(Out, [65]), Put(Err, [66]), SetStatus(Err, 258), Close(Out), Close(Err)]).log;
            var hi, lo := cfg.id / 0x100, cfg.id % 0x100;
            && (forall r | r in log :: r.Fits())
            && EncodeRecords(log)
               == [1, 6, hi, lo, 0, 1, 7, 0, 65, 0, 0, 0, 0, 0, 0, 0] + [1, 6, hi, lo, 0, 0, 0, 0]
                + [1, 7, hi, lo, 0, 1, 7, 0, 66, 0, 0, 0, 0, 0, 0, 0] + [1, 7, hi, lo, 0, 0, 0, 0]
                + [1, 3, hi, lo, 0, 8, 0, 0, 0, 0, 1, 2, 0, 0, 0, 0]
  {
    hide Run, EncodeRecord, EncodeRecords;
    var a, b := DataRecord(FCGI_STDOUT, cfg.id, [65]), DataRecord(FCGI_STDERR, cfg.id, [66]);
    var c, d := EofRecord(FCGI_STDOUT, cfg.id), EofRecord(FCGI_STDERR, cfg.id);
    SmallRun(cfg);
    SmallRecords(cfg.id);
    FiveRecords(a, c, b, d, EndRecord(cfg.id, 258));
  }

  lemma SmallRun(cfg: Config)
    ensures Run(cfg, [Put(Out, [65]), Put(Err, [66]), SetStatus(Err, 258), Close(Out), Close(Err)]).log
         == [DataRecord(FCGI_STDOUT, cfg.id, [65]), EofRecord(FCGI_STDOUT, cfg.id),
             DataRecord(FCGI_STDERR, cfg.id, [66]), EofRecord(FCGI_STDERR, cfg.id), EndRecord(cfg.id, 258)]
  {
    hide Run, DataRecord, EndRecord;
    var out, err := Writer([65], false, false), Writer([66], false, false);
    var ops := [Put(Out, [65]), Put(Err, [66]), SetStatus(Err, 258), Close(Out), Close(Err)];
    RunStep(cfg, ops, 0);
    RunStep(cfg, ops, 1);
    assert Run(cfg, ops[..2]) == Session([], 2, 0, out, err);
    RunStep(cfg, ops, 2);
    RunStep(cfg, ops, 3);
    RunStep(cfg, ops, 4);
    assert ops[..5] == ops;
  }

  lemma RunStep(cfg: Config, ops: seq<Op>, k: nat)
    requires k < |ops|
    ensures Run(cfg, ops[..k + 1]) == Step(cfg, Run(cfg, ops[..k]), ops[k])
    ensures Run(cfg, ops[..0]) == Initial
  {
    assert ops[..k + 1][..k] == ops[..k];
  }

  lemma SmallRecords(id: RequestId)
    ensures var hi, lo := id / 0x100, id % 0x100;
            && EncodeRecord(DataRecord(FCGI_STDOUT, id, [65])) == [1, 6, hi, lo, 0, 1, 7, 0, 65, 0, 0, 0, 0, 0, 0, 0]
            && EncodeRecord(DataRecord(FCGI_STDERR, id, [66])) == [1, 7, hi, lo, 0, 1, 7, 0, 66, 0, 0, 0, 0, 0, 0, 0]
            && EncodeRecord(EofRecord(FCGI_STDOUT, id)) == [1, 6, hi, lo, 0, 0, 0, 0]
            && EncodeRecord(EofRecord(FCGI_STDERR, id)) == [1, 7, hi, lo, 0, 0, 0, 0]
            && EncodeRecord(EndRecord(id, 258)) == [1, 3, hi, lo, 0, 8, 0, 0, 0, 0, 1, 2, 0, 0, 0, 0]
  {
  }

  lemma FiveRecords(a: Record, b: Record, c: Record, d: Record, e: Record)
    requires a.Fits() && b.Fits() && c.Fits() && d.Fits() && e.Fits()
    ensures forall r | r in [a, b, c, d, e] :: r.Fits()
    ensures EncodeRecords([a, b, c, d, e])
         == EncodeRecord(a) + EncodeRecord(b) + EncodeRecord(c) + EncodeRecord(d) + EncodeRecord(e)
  {
    hide EncodeRecord, EncodeRecords;
    OneRecord(a);
    OneRecord(b);
    OneRecord(c);
    OneRecord(d);
    OneRecord(e);
    EncodeAppend([a], [b]);
    EncodeAppend([a] + [b], [c]);
    EncodeAppend([a] + [b] + [c], [d]);
    EncodeAppend([a] + [b] + [c] + [d], [e]);
    assert [a] + [b] + [c] + [d] + [e] == [a, b, c, d, e];
  }

  lemma OneRecord(r: Record)
    requires r.Fits()
    ensures EncodeRecords([r]) == EncodeRecord(r)
  {
    assert [r][1..] == [];
  }

  /** Once the request is over, no operation sends anything. */
  lemma {:induction false} NothingAfterTheEnd(cfg: Config, ops: seq<Op>, more: seq<Op>)
    requires Over(ops)
    ensures Run(cfg, ops + more).log == Run(cfg, ops).log
  {
    if more == [] {
      assert ops + more == ops;
    } else {
      var front := ops + more[..|more| - 1];
      assert (ops + more)[..|ops + more| - 1] == front;
      NothingAfterTheEnd(cfg, ops, more[..|more| - 1]);
      RunKeepsInvariant(cfg, front);
      assert Close(Out) in front && Close(Err) in front;
    }
  }
}
