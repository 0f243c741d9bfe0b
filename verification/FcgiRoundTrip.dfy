/**
 * Writer and reader together: what one side of a connection sends, the other side delivers, whatever the
 * sizes of the reads; and a whole request, from its first record to the start of its standard input.
 */
module FcgiRoundTrip {
  import opened Bytes
  import opened FcgiRecords
  import opened FcgiStream
  import opened FcgiDelivery
  import opened FcgiParams
  import opened FcgiSession
  import FcgiWriter
  import FcgiReader

  // ---------------------------------------------------------------- runs up to the close of STDOUT

  /** The calls before the one that closes STDOUT. */
  function BeforeClose(ops: seq<Op>): seq<Op> {
    if ops == [] || ops[0] == Close(Out) then [] else [ops[0]] + BeforeClose(ops[1..])
  }

  function AfterClose(ops: seq<Op>): seq<Op>
    requires ClosedIn(ops, Out)
  {
    if ops[0] == Close(Out) then ops[1..] else AfterClose(ops[1..])
  }

  lemma {:induction false} SplitAtClose(ops: seq<Op>)
    requires ClosedIn(ops, Out)
    ensures ops == (BeforeClose(ops) + [Close(Out)]) + AfterClose(ops) && !ClosedIn(BeforeClose(ops), Out)
  {
    if ops[0] != Close(Out) {
      SplitAtClose(ops[1..]);
    }
  }

  /** What is put after the close does not count. */
  lemma {:induction false} AcceptedStops(ops: seq<Op>, more: seq<Op>)
    requires ClosedIn(ops, Out)
    ensures ClosedIn(ops + more, Out) && Accepted(ops + more, Out) == Accepted(ops, Out)
  {
    if more == [] {
      assert ops + more == ops;
    } else {
      var front := more[..|more| - 1];
      AcceptedStops(ops, front);
      assert ops + more == (ops + front) + [more[|more| - 1]];
      AcceptedStep(ops + front, more[|more| - 1], Out);
    }
  }

  /** A run only ever adds records. */
  lemma {:induction false} LogGrows(cfg: Config, ops: seq<Op>, more: seq<Op>)
    ensures Run(cfg, ops).log <= Run(cfg, ops + more).log
  {
    if more == [] {
      assert ops + more == ops;
    } else {
      var front, last := ops + more[..|more| - 1], more[|more| - 1];
      LogGrows(cfg, ops, more[..|more| - 1]);
      assert ops + more == front + [last];
      StepAppends(cfg, front, last);
    }
  }

  lemma StepAppends(cfg: Config, ops: seq<Op>, op: Op)
    ensures Run(cfg, ops).log <= Run(cfg, ops + [op]).log
  {
    hide PutRecords, PutRest, FlushRecords, CloseRecords;
    assert (ops + [op])[..|ops|] == ops;
  }

  /** A call that does not make STDERR send: it is not a flush or a close of bytes that are held back. */
  predicate HoldsBack(ops: seq<Op>, i: nat)
    requires i < |ops|
  {
    ops[i] == Flush(Err) || ops[i] == Close(Err) ==>
      ClosedIn(ops[..i], Err) || Accepted(ops[..i], Err) == []
  }

  /** By these calls STDERR sends nothing: what is put into it fits its buffer, and is not flushed out. */
  predicate Quiet(cfg: Config, ops: seq<Op>) {
    |Accepted(ops, Err)| <= cfg.errCapacity && forall i | 0 <= i < |ops| :: HoldsBack(ops, i)
  }

  /** Nothing is sent on STDERR before STDOUT is closed, as its caller can tell from the calls. */
  predicate StderrSilent(cfg: Config, ops: seq<Op>) {
    Quiet(cfg, BeforeClose(ops))
  }

  ghost predicate NoStderr(log: seq<Record>) {
    forall r | r in log :: r.rtype != FCGI_STDERR
  }

  lemma {:induction false} NoContentNoRecords(log: seq<Record>, rtype: byte)
    requires DataOf(log, rtype) == [] && Count(log, rtype, true) == 0
    ensures forall r | r in log :: r.rtype != rtype
  {
    if log != [] {
      var front, r := log[..|log| - 1], log[|log| - 1];
      NoContentNoRecords(front, rtype);
      assert log == front + [r];
    }
  }

  lemma QuietFront(cfg: Config, ops: seq<Op>, op: Op)
    ensures Quiet(cfg, ops + [op])
       <==> Quiet(cfg, ops) && |Accepted(ops + [op], Err)| <= cfg.errCapacity && HoldsBack(ops + [op], |ops|)
  {
    var all := ops + [op];
    AcceptedStep(ops, op, Err);
    assert all[..|ops|] == ops;
    forall i | 0 <= i < |ops|
      ensures HoldsBack(all, i) <==> HoldsBack(ops, i)
    {
      assert all[..i] == ops[..i];
    }
    if Quiet(cfg, all) {
      assert HoldsBack(all, |ops|);
      forall i | 0 <= i < |ops|
        ensures HoldsBack(ops, i)
      {
        assert HoldsBack(all, i);
      }
    }
  }

  /** What one more call leaves in the buffer of STDERR. */
  lemma PendingAfter(cfg: Config, ops: seq<Op>, op: Op)
    ensures var s := Run(cfg, ops);
            var w := s.err;
            && |w.pending| <= cfg.errCapacity
            && Run(cfg, ops + [op]).err.pending
               == if w.closed || op.which.Out? || op.SetStatus? then w.pending
                  else if op.Put? then PutRest(cfg.errCapacity, w.pending, op.s) else []
  {
    hide CloseRecords, FlushRecords, PutRecords, PutRest;
    assert (ops + [op])[..|ops|] == ops;
    var s := Run(cfg, ops);
    assert |s.Get(Err).pending| <= cfg.CapacityOf(Err);
  }

  /** A string stays whole in the buffer exactly when it fits. */
  lemma RestIsAllIff(capacity: Capacity, pending: bytes, str: bytes)
    requires |pending| <= capacity
    ensures PutRest(capacity, pending, str) == pending + str <==> |pending| + |str| <= capacity
  {
  }

  /** One more call, while all that was put into STDERR is held back: whether it still is. */
  lemma HeldBackStep(cfg: Config, ops: seq<Op>, op: Op)
    requires Run(cfg, ops).err.pending == Accepted(ops, Err)
    ensures Run(cfg, ops + [op]).err.pending == Accepted(ops + [op], Err)
       <==> |Accepted(ops + [op], Err)| <= cfg.errCapacity && HoldsBack(ops + [op], |ops|)
  {
    hide Accepted, ClosedIn, Run, PutRest;
    ClosedErr(cfg, ops);
    PendingAfter(cfg, ops, op);
    AcceptedStep(ops, op, Err);
    assert (ops + [op])[..|ops|] == ops;
    if op.Put? {
      RestIsAllIff(cfg.errCapacity, Accepted(ops, Err), op.s);
    }
  }

  lemma ClosedErr(cfg: Config, ops: seq<Op>)
    ensures Run(cfg, ops).err.closed <==> ClosedIn(ops, Err)
  {
    RunKeepsInvariant(cfg, ops);
  }

  /** Once something was sent on STDERR, less is held back than was put. */
  lemma SentStays(cfg: Config, ops: seq<Op>, op: Op)
    requires Run(cfg, ops).err.pending != Accepted(ops, Err)
    ensures Run(cfg, ops + [op]).err.pending != Accepted(ops + [op], Err)
  {
    hide Run, Accepted, DataOf, WellFramed, Count, ClosedIn;
    RunKeepsInvariant(cfg, ops);
    RunKeepsInvariant(cfg, ops + [op]);
    StepAppends(cfg, ops, op);
    var log, longer := Run(cfg, ops).log, Run(cfg, ops + [op]).log;
    assert longer == log + longer[|log|..];
    DataOfAppend(log, longer[|log|..], FCGI_STDERR);
  }

  lemma {:induction false} HeldBackIff(cfg: Config, ops: seq<Op>)
    ensures Run(cfg, ops).err.pending == Accepted(ops, Err) <==> Quiet(cfg, ops)
  {
    if ops != [] {
      var before, op := ops[..|ops| - 1], ops[|ops| - 1];
      assert ops == before + [op];
      HeldBackIff(cfg, before);
      QuietFront(cfg, before, op);
      if Run(cfg, before).err.pending == Accepted(before, Err) {
        HeldBackStep(cfg, before, op);
      } else {
        SentStays(cfg, before, op);
      }
    }
  }

  /** The calls tell whether anything is sent on STDERR. */
  lemma NoStderrIff(cfg: Config, ops: seq<Op>)
    ensures NoStderr(Run(cfg, ops).log) <==> Quiet(cfg, ops)
  {
    hide Run, Accepted, DataOf, WellFramed, Count, ClosedIn, Quiet, OwesEof;
    var log := Run(cfg, ops).log;
    RunKeepsInvariant(cfg, ops);
    HeldBackIff(cfg, ops);
    if NoStderr(log) {
      DataOfNone(log, FCGI_STDERR);
    } else if Quiet(cfg, ops) {
      NoEofOwed(cfg, ops);
      assert DataOf(log, FCGI_STDERR) == [];
      NoContentNoRecords(log, FCGI_STDERR);
      assert false;
    }
  }

  /** A STDERR that is closed with everything held back was never used. */
  lemma NoEofOwed(cfg: Config, ops: seq<Op>)
    requires Run(cfg, ops).err.pending == Accepted(ops, Err)
    ensures Count(Run(cfg, ops).log, FCGI_STDERR, true) == 0
  {
    RunKeepsInvariant(cfg, ops);
  }

  /** So it is, in particular, when nothing is put into STDERR by then. */
  lemma UnusedIsSilent(cfg: Config, ops: seq<Op>)
    requires Accepted(BeforeClose(ops), Err) == []
    ensures StderrSilent(cfg, ops)
  {
    var before := BeforeClose(ops);
    forall i | 0 <= i < |before|
      ensures HoldsBack(before, i)
    {
      AcceptedGrows(before, i);
    }
  }

  lemma {:induction false} AcceptedGrows(ops: seq<Op>, i: nat)
    requires i <= |ops|
    ensures Accepted(ops[..i], Err) <= Accepted(ops, Err)
    decreases |ops|
  {
    if i < |ops| {
      var before := ops[..|ops| - 1];
      AcceptedGrows(before, i);
      assert before[..i] == ops[..i];
    } else {
      assert ops[..i] == ops;
    }
  }

  /** One byte that is put into STDERR and flushed out before the close is enough to break it. */
  lemma FlushedStderrBreaks(cfg: Config)
    ensures !StderrSilent(cfg, [Put(Err, [65]), Flush(Err), Close(Out)])
  {
    var ops := [Put(Err, [65]), Flush(Err), Close(Out)];
    var before := [Put(Err, [65]), Flush(Err)];
    assert ops[1..] == [Flush(Err), Close(Out)] && ops[1..][1..] == [Close(Out)];
    assert BeforeClose(ops[1..][1..]) == [] && BeforeClose(ops[1..]) == [Flush(Err)] && BeforeClose(ops) == before;
    assert before[..1] == [Put(Err, [65])] && before[..1][..0] == [];
    assert Accepted(before[..1], Err) == [65];
    assert !HoldsBack(before, 1);
  }

  // ---------------------------------------------------------------- the records of STDOUT

  /** The records of an open STDOUT, perhaps mixed with those of STDERR. */
  ghost predicate OpenLog(id: RequestId, log: seq<Record>) {
    forall r | r in log :: r.Fits() && r.id == id
                           && (r.rtype == FCGI_STDERR || (r.rtype == FCGI_STDOUT && r.content != []))
  }

  lemma OpenStdout(cfg: Config, ops: seq<Op>)
    requires !ClosedIn(ops, Out)
    ensures OpenLog(cfg.id, Run(cfg, ops).log)
  {
    RunKeepsInvariant(cfg, ops);
    var s := Run(cfg, ops);
    CountNone(s.log, FCGI_STDOUT, true);
    CountNone(s.log, FCGI_END_REQUEST, false);
  }

  /** The records that closing adds: what is left, the empty record, and the end of the request. */
  lemma CloseAdds(cfg: Config, ops: seq<Op>)
    requires !ClosedIn(ops, Out)
    ensures var s := Run(cfg, ops);
            Run(cfg, ops + [Close(Out)]).log
            == s.log + FlushRecords(FCGI_STDOUT, cfg.id, s.out.pending) + [EofRecord(FCGI_STDOUT, cfg.id)]
               + EndRecords(cfg.id, s.appStatus, s.nWriters)
  {
    RunKeepsInvariant(cfg, ops);
    assert (ops + [Close(Out)])[..|ops|] == ops;
    var s := Run(cfg, ops);
    var flush, end := FlushRecords(FCGI_STDOUT, cfg.id, s.out.pending), EndRecords(cfg.id, s.appStatus, s.nWriters);
    assert s.log + (flush + [EofRecord(FCGI_STDOUT, cfg.id)] + end)
        == s.log + flush + [EofRecord(FCGI_STDOUT, cfg.id)] + end;
  }

  lemma KindOfOwn(id: RequestId, r: Record)
    requires r.Fits() && r.id == id != FCGI_NULL_REQUEST_ID
    ensures r.rtype == FCGI_STDOUT ==> KindOf(Expect(FCGI_STDOUT, id, true), r) == OwnStream
    ensures r.rtype == FCGI_STDERR ==> KindOf(Expect(FCGI_STDOUT, id, true), r) == Bad
  {
    HeaderFields(r.rtype, r.id, |r.content|, |r.padding|);
  }

  /** Records of STDOUT with content are delivered one after the other. */
  lemma {:induction false} DeliverOwn(id: RequestId, log: seq<Record>, more: seq<Record>, tail: bytes)
    requires id != FCGI_NULL_REQUEST_ID && OpenLog(id, log) && AllFit(more)
    requires forall r | r in log :: r.rtype != FCGI_STDERR
    ensures AllFit(log + more)
    ensures var x := Expect(FCGI_STDOUT, id, true);
            Deliver(x, log + more, tail, false)
            == Prepend(DataOf(log, FCGI_STDOUT), Deliver(x, more, tail, false))
  {
    hide KindOf, Headers, Deliver, DataOf;
    var x := Expect(FCGI_STDOUT, id, true);
    if log == [] {
      DataOfNone([], FCGI_STDOUT);
      assert log + more == more;
      var o := Deliver(x, more, tail, false);
      assert Prepend([], o) == o;
    } else {
      var r, rest := log[0], log[1..];
      assert r in log && log == [r] + rest && (log + more)[1..] == rest + more;
      KindOfOwn(id, r);
      DeliverOwn(id, rest, more, tail);
      DataOfFront(r, rest);
      PartsFit(log, more);
      DeliverOwnStep(x, log + more, tail);
      var o := Deliver(x, more, tail, false);
      assert r.content + (DataOf(rest, FCGI_STDOUT) + o.data) == r.content + DataOf(rest, FCGI_STDOUT) + o.data;
    }
  }

  lemma PartsFit(a: seq<Record>, b: seq<Record>)
    requires (forall r | r in a :: r.Fits()) && AllFit(b)
    ensures AllFit(a + b)
  {
  }

  lemma DataOfFront(r: Record, rest: seq<Record>)
    ensures DataOf([r] + rest, FCGI_STDOUT)
         == (if r.rtype == FCGI_STDOUT then r.content else []) + DataOf(rest, FCGI_STDOUT)
  {
    DataOfAppend([r], rest, FCGI_STDOUT);
    assert [r][..0] == [];
  }

  /** At the first record of STDERR the reader of STDOUT gives up. */
  lemma {:induction false} DeliverUntilStderr(id: RequestId, log: seq<Record>, more: seq<Record>, tail: bytes)
    requires id != FCGI_NULL_REQUEST_ID && OpenLog(id, log) && AllFit(more)
    requires exists r :: r in log && r.rtype == FCGI_STDERR
    ensures AllFit(log + more)
    ensures var o := Deliver(Expect(FCGI_STDOUT, id, true), log + more, tail, false);
            o.end == Failed && o.data <= DataOf(log, FCGI_STDOUT)
  {
    hide KindOf, Headers;
    var r, rest := log[0], log[1..];
    assert r in log && log == [r] + rest && (log + more)[1..] == rest + more;
    forall t | t in log + more
      ensures t.Fits()
    {
      assert t in log || t in more;
    }
    KindOfOwn(id, r);
    DataOfFront(r, rest);
    if r.rtype != FCGI_STDERR {
      DeliverUntilStderr(id, rest, more, tail);
    }
  }

  // ---------------------------------------------------------------- the round trip

  /**
   * For every run that closes STDOUT, whatever it does with STDERR: a reader of STDOUT delivers all that was
   * put before the close, and ends in order, if and only if nothing was sent on STDERR before; otherwise it
   * fails, having delivered a beginning of it.
   */
  lemma WriterThenReader(cfg: Config, ops: seq<Op>, tail: bytes)
    requires cfg.id != FCGI_NULL_REQUEST_ID && ClosedIn(ops, Out)
    ensures (forall r | r in Run(cfg, ops).log :: r.Fits())
    ensures var o := Headers(Expect(FCGI_STDOUT, cfg.id, true), EncodeRecords(Run(cfg, ops).log) + tail, false);
            && o.data <= Accepted(ops, Out)
            && (if StderrSilent(cfg, ops) then o.data == Accepted(ops, Out) && o.end.Eof? else o.end.Failed?)
  {
    hide Run, Accepted, Headers, WellFramed, StderrSilent, ClosedIn, Deliver, EncodeRecords;
    var log := Run(cfg, ops).log;
    WireIsFramed(cfg, ops);
    DeliverIsReading(Expect(FCGI_STDOUT, cfg.id, true), log, tail, false);
    DeliveredInAll(cfg, ops, tail);
  }

  lemma DeliveredInAll(cfg: Config, ops: seq<Op>, tail: bytes)
    requires cfg.id != FCGI_NULL_REQUEST_ID && ClosedIn(ops, Out) && AllFit(Run(cfg, ops).log)
    ensures var o := Deliver(Expect(FCGI_STDOUT, cfg.id, true), Run(cfg, ops).log, tail, false);
            && o.data <= Accepted(ops, Out)
            && (if StderrSilent(cfg, ops) then o.data == Accepted(ops, Out) && o.end.Eof? else o.end.Failed?)
  {
    hide Run, Accepted, ClosedIn, BeforeClose, AfterClose, Deliver;
    var until := BeforeClose(ops) + [Close(Out)];
    SplitAtClose(ops);
    assert ClosedIn(until, Out) by {
      AcceptedStep(BeforeClose(ops), Close(Out), Out);
    }
    AcceptedStops(until, AfterClose(ops));
    LogGrows(cfg, until, AfterClose(ops));
    NoStderrIff(cfg, BeforeClose(ops));
    var log := Run(cfg, ops).log;
    var later := log[|Run(cfg, until).log|..];
    assert log == Run(cfg, until).log + later;
    ReadClosed(cfg, BeforeClose(ops), later, tail);
  }

  /** And it ends right behind the empty record of STDOUT, with everything after it unread. */
  lemma ReaderStopsBehindStdout(cfg: Config, ops: seq<Op>, tail: bytes)
    requires cfg.id != FCGI_NULL_REQUEST_ID && ClosedIn(ops, Out) && StderrSilent(cfg, ops)
    requires AllFit(Run(cfg, ops).log)
    ensures var x, log := Expect(FCGI_STDOUT, cfg.id, true), Run(cfg, ops).log;
            var i, end := EofIndex(x, log), Headers(x, EncodeRecords(log) + tail, false).end;
            && i < |log| && AllFit(log[i + 1..]) && end.Eof?
            && end.rest == log[i].padding + (EncodeRecords(log[i + 1..]) + tail)
  {
    hide Run, Accepted, Headers, StderrSilent, ClosedIn, Deliver, EncodeRecords, EofIndex, Ends;
    var x, log := Expect(FCGI_STDOUT, cfg.id, true), Run(cfg, ops).log;
    DeliveredInAll(cfg, ops, []);
    EndsIff(x, log, false);
    StreamEndsAt(x, log, tail, false);
    DeliverIsReading(x, log, tail, false);
  }

  /** The records of the close, behind those of an open STDOUT. */
  lemma ReadClosed(cfg: Config, before: seq<Op>, later: seq<Record>, tail: bytes)
    requires cfg.id != FCGI_NULL_REQUEST_ID && !ClosedIn(before, Out)
    requires AllFit(Run(cfg, before + [Close(Out)]).log + later)
    ensures var silent := NoStderr(Run(cfg, before).log);
            var put := Accepted(before + [Close(Out)], Out);
            var log := Run(cfg, before + [Close(Out)]).log + later;
            var o := Deliver(Expect(FCGI_STDOUT, cfg.id, true), log, tail, false);
            o.data <= put && if silent then o.data == put && o.end.Eof? else o.end.Failed?
  {
    hide Run, Accepted, ClosedIn, WellFramed, DataOf, Deliver, EofRecord, EndRecords, FlushRecords;
    var s := Run(cfg, before);
    var flush, end := FlushRecords(FCGI_STDOUT, cfg.id, s.out.pending), EndRecords(cfg.id, s.appStatus, s.nWriters);
    var eof := EofRecord(FCGI_STDOUT, cfg.id);
    CloseAdds(cfg, before);
    OpenStdout(cfg, before);
    PutUntilClose(cfg, before);
    var all := Run(cfg, before + [Close(Out)]).log + later;
    if forall r | r in s.log :: r.rtype != FCGI_STDERR {
      assert all == (s.log + flush) + ([eof] + (end + later));
      FlushIsOpen(cfg, before);
      assert AllFit([eof] + (end + later)) by {
        PartFits(s.log + flush, [eof] + (end + later));
      }
      DeliverOwn(cfg.id, s.log + flush, [eof] + (end + later), tail);
      DeliverEof(cfg, end + later, tail);
    } else {
      var rest := flush + [eof] + end + later;
      assert all == s.log + rest;
      PartFits(s.log, rest);
      DeliverUntilStderr(cfg.id, s.log, rest, tail);
    }
  }

  lemma PartFits(a: seq<Record>, b: seq<Record>)
    requires AllFit(a + b)
    ensures AllFit(b)
  {
    forall r | r in b
      ensures r.Fits()
    {
      assert r in a + b;
    }
  }

  /** What the open stream has sent and still holds is what was put. */
  lemma PutUntilClose(cfg: Config, before: seq<Op>)
    requires !ClosedIn(before, Out)
    ensures var s := Run(cfg, before);
            && Accepted(before + [Close(Out)], Out) == DataOf(s.log, FCGI_STDOUT) + s.out.pending
            && DataOf(s.log, FCGI_STDOUT) <= Accepted(before + [Close(Out)], Out)
            && DataOf(s.log + FlushRecords(FCGI_STDOUT, cfg.id, s.out.pending), FCGI_STDOUT)
               == Accepted(before + [Close(Out)], Out)
  {
    hide DataOf, Accepted, ClosedIn, WellFramed, Count;
    RunKeepsInvariant(cfg, before);
    AcceptedStep(before, Close(Out), Out);
    var s := Run(cfg, before);
    FlushConserves(cfg, Out, s.out.pending);
    DataOfAppend(s.log, FlushRecords(FCGI_STDOUT, cfg.id, s.out.pending), FCGI_STDOUT);
  }

  lemma FlushIsOpen(cfg: Config, before: seq<Op>)
    requires !ClosedIn(before, Out)
    requires forall r | r in Run(cfg, before).log :: r.rtype != FCGI_STDERR
    ensures var s := Run(cfg, before);
            var log := s.log + FlushRecords(FCGI_STDOUT, cfg.id, s.out.pending);
            OpenLog(cfg.id, log) && forall r | r in log :: r.rtype != FCGI_STDERR
  {
    hide Run, DataOf;
    OpenStdout(cfg, before);
    assert |Run(cfg, before).Get(Out).pending| <= cfg.CapacityOf(Out);
    FlushConserves(cfg, Out, Run(cfg, before).out.pending);
  }

  lemma DeliverEof(cfg: Config, more: seq<Record>, tail: bytes)
    requires cfg.id != FCGI_NULL_REQUEST_ID && AllFit(more)
    ensures var o := Deliver(Expect(FCGI_STDOUT, cfg.id, true), [EofRecord(FCGI_STDOUT, cfg.id)] + more, tail, false);
            o == Outcome([], Eof(EncodeRecords(more) + tail, false))
  {
    hide KindOf;
    var eof := EofRecord(FCGI_STDOUT, cfg.id);
    KindOfOwn(cfg.id, eof);
    assert ([eof] + more)[1..] == more;
    assert [] + (EncodeRecords(more) + tail) == EncodeRecords(more) + tail;
  }

  /**
   * Both classes at work, for any calls, buffers and sizes of the reads: of what was put into STDOUT the first
   * `n` bytes are read, or all there are, unless STDERR got in between; never anything else.
   */
  method Echo(id: RequestId, ops: seq<Op>, outAligned: bool, errAligned: bool, n: nat, bufflen: nat)
    returns (str: bytes, failed: bool, ghost cfg: Config)
    requires id != FCGI_NULL_REQUEST_ID && ClosedIn(ops, Out) && 0 < bufflen
    ensures cfg.id == id && cfg.errCapacity == (if errAligned then 504 else 496) && str <= Accepted(ops, Out)
    ensures StderrSilent(cfg, ops) ==>
              !failed && str == Accepted(ops, Out)[..if n <= |Accepted(ops, Out)| then n else |Accepted(ops, Out)|]
    ensures !StderrSilent(cfg, ops) && |str| < n ==> failed
  {
    hide Run, ClosedIn, Accepted, Headers, FcgiReader.Stream.Coming, FcgiReader.Stream.From, EncodeRecords,
         StderrSilent, BeforeClose;
    var sender;
    sender, cfg := FcgiWriter.Serve(id, ops, outAligned, errAligned);
    WriterThenReader(cfg, ops, []);
    assert EncodeRecords(Run(cfg, ops).log) + [] == sender.wire;
    var receiver := new FcgiReader.Request(sender.wire, 0);
    receiver.requestId, receiver.isBeginProcessed := id, true;
    var reader := new FcgiReader.Stream(receiver, bufflen, FCGI_STDOUT);
    reader.FreshFuture();
    str := reader.GetStr(n);
    failed := reader.errno != 0;
  }

  // ---------------------------------------------------------------- a whole request

  /** The record that begins a request, section 5.1 of the FastCGI Specification 1.0. */
  function BeginRecord(id: RequestId, role: nat, flags: byte, padding: bytes): Record
    requires role <= 0xffff
  {
    Record(FCGI_BEGIN_REQUEST, id, [role / 0x100, role % 0x100, flags, 0, 0, 0, 0, 0], padding)
  }

  /** Any record that begins a request in this role, whatever its flags and its reserved bytes. */
  predicate Begins(r: Record, role: nat) {
    && r.Fits() && r.rtype == FCGI_BEGIN_REQUEST && r.id != FCGI_NULL_REQUEST_ID && |r.content| == BEGIN_BODY_LEN
    && (r.content[0] as int) * 0x100 + r.content[1] as int == role
  }

  /** Such a record is taken for a new request, and the reader stands at its padding. */
  lemma BeginIsAccepted(was: RequestId, r: Record, role: nat, rest: bytes)
    requires Begins(r, role)
    ensures Headers(Expect(0, was, false), EncodeRecord(r) + rest, false)
         == Outcome([], Began(r.id, r.content, |r.padding|, r.padding + rest))
  {
    hide Headers, MakeHeader, EncodeRecord;
    HeadersOfRecord(Expect(0, was, false), r, rest, false);
    HeaderFields(r.rtype, r.id, |r.content|, |r.padding|);
    assert r.content + r.padding + rest == r.content + (r.padding + rest);
    SplitAt(r.content, r.padding + rest);
  }

  /** The bytes of a request: the record that begins it, and the records behind. */
  function RequestBytes(begin: Record, records: seq<Record>, tail: bytes): bytes
    requires begin.Fits() && AllFit(records)
  {
    EncodeRecord(begin) + (EncodeRecords(records) + tail)
  }

  /** Bytes that cannot be taken for a header: padding that does not start like one. */
  predicate NoHeader(padding: bytes) {
    padding == [] || padding[0] != FCGI_VERSION_1
  }

  /** Where a header is expected, such padding is an error at once. */
  lemma PaddingIsRefused(x: Expect, padding: bytes, rest: bytes)
    requires padding != [] && NoHeader(padding)
    ensures Headers(x, padding + rest, false) == Outcome([], Failed)
  {
    assert (padding + rest)[0] == padding[0];
  }

  /** The parameters of a request as a server may send them, interleaved with records of other requests. */
  ghost predicate ParamsStream(id: RequestId, pairs: seq<Pair>, records: seq<Record>)
    requires AllFit(records) && forall p | p in pairs :: p.Encodable()
  {
    var x := Expect(FCGI_PARAMS, id, true);
    && Ends(x, records, false) && LosesNothing(x, records, false) && Clean(x, records, false)
    && OwnContent(x, records) == EncodePairs(pairs)
  }

  /** Decoding what such records deliver gives the pairs, and the reader stops at the padding of their end. */
  lemma ParamsAreRead(id: RequestId, pairs: seq<Pair>, records: seq<Record>, tail: bytes)
    requires AllFit(records) && forall p | p in pairs :: p.Encodable()
    requires ParamsStream(id, pairs, records)
    ensures var x := Expect(FCGI_PARAMS, id, true);
            var o, i := Headers(x, EncodeRecords(records) + tail, false), EofIndex(x, records);
            && i < |records| && AllFit(records[i + 1..])
            && ParseParams(o.data) == Parsed(EntriesOf(pairs), true)
            && o.end.Eof? && o.end.rest == records[i].padding + (EncodeRecords(records[i + 1..]) + tail)
  {
    hide Headers, EncodeRecords, Ends, LosesNothing, Clean, EofIndex, ParseParams, OwnContent;
    var x := Expect(FCGI_PARAMS, id, true);
    ReadingDeliversIff(x, records, tail);
    DeliverIsReading(x, records, tail, false);
    StreamEndsAt(x, records, tail, false);
    ParamsRoundTrip(pairs);
  }

  /** The first entry of the environment, for the three roles there are. */
  function RoleSetting(role: nat): bytes
    requires 1 <= role <= 3
  {
    Ascii("FCGI_ROLE=") + Ascii(match role case 1 => "RESPONDER" case 2 => "AUTHORIZER" case _ => "FILTER")
  }

  lemma KnownRole(role: nat)
    ensures FcgiReader.RoleEntry(role) == if 1 <= role <= 3 then Some(RoleSetting(role)) else None
  {
    hide Ascii;
    RoleLetters();
    if 1 <= role <= 3 {
      assert FcgiReader.RoleEntry(role).value == RoleSetting(role);
    }
  }

  lemma RoleLetters()
    ensures Ascii("FCGI_ROLE=") == [70, 67, 71, 73, 95, 82, 79, 76, 69, 61]
    ensures Ascii("RESPONDER") == [82, 69, 83, 80, 79, 78, 68, 69, 82]
    ensures Ascii("AUTHORIZER") == [65, 85, 84, 72, 79, 82, 73, 90, 69, 82]
    ensures Ascii("FILTER") == [70, 73, 76, 84, 69, 82]
  {
  }

  /** What a request that is sent as these records is accepted as, by the padding of its two turning points. */
  lemma RequestOutcome(was: RequestId, begin: Record, pairs: seq<Pair>, records: seq<Record>, tail: bytes, role: nat)
    requires 1 <= role <= 3 && Begins(begin, role)
    requires AllFit(records) && (forall p | p in pairs :: p.Encodable()) && ParamsStream(begin.id, pairs, records)
    ensures var i := EofIndex(Expect(FCGI_PARAMS, begin.id, true), records);
            && i < |records| && AllFit(records[i + 1..])
            && var entries := [RoleSetting(role)] + EntriesOf(pairs);
               var stdin := Headers(Expect(FCGI_STDIN, begin.id, true),
                                    records[i].padding + (EncodeRecords(records[i + 1..]) + tail), false);
               var accepted := FcgiReader.Accepted(was, RequestBytes(begin, records, tail));
               && (begin.padding == [] ==> accepted == FcgiReader.Whole(entries, stdin))
               && (begin.padding != [] && NoHeader(begin.padding) ==>
                     accepted == FcgiReader.CutShort([RoleSetting(role)]))
  {
    hide Headers, EncodeRecords, EncodeRecord, EofIndex, ParseParams, ParamsStream, FcgiReader.RoleEntry, RoleSetting;
    var behind := EncodeRecords(records) + tail;
    BeginIsAccepted(was, begin, role, behind);
    ParamsAreRead(begin.id, pairs, records, tail);
    KnownRole(role);
    if begin.padding == [] {
      assert [] + behind == behind;
    } else if NoHeader(begin.padding) {
      PaddingIsRefused(Expect(FCGI_PARAMS, begin.id, true), begin.padding, behind);
      ParseStep([]);
    }
  }

  /**
   * A request with parameters and a readable standard input is accepted as it was sent, with its role, its
   * name-value pairs in order and its standard input to come, if and only if neither the record that begins
   * it nor the one that ends its parameters is padded; for any padding that does not start like a header.
   */
  lemma AcceptedAsSentIff(was: RequestId, begin: Record, pairs: seq<Pair>, records: seq<Record>, tail: bytes,
                          role: nat)
    requires 1 <= role <= 3 && Begins(begin, role)
    requires AllFit(records) && (forall p | p in pairs :: p.Encodable()) && ParamsStream(begin.id, pairs, records)
    requires NoHeader(begin.padding) && pairs != []
    ensures var i := EofIndex(Expect(FCGI_PARAMS, begin.id, true), records);
            && i < |records| && AllFit(records[i + 1..])
            && var stdin := Headers(Expect(FCGI_STDIN, begin.id, true), EncodeRecords(records[i + 1..]) + tail, false);
               NoHeader(records[i].padding) && stdin.end.Eof? ==>
                 (FcgiReader.Accepted(was, RequestBytes(begin, records, tail))
                  == FcgiReader.Whole([RoleSetting(role)] + EntriesOf(pairs), stdin)
                  <==> begin.padding == [] && records[i].padding == [])
  {
    hide Headers, EncodeRecords, RequestBytes, EofIndex, ParamsStream, FcgiReader.RoleEntry, RoleSetting,
         FcgiReader.Accepted;
    RequestOutcome(was, begin, pairs, records, tail, role);
    var i := EofIndex(Expect(FCGI_PARAMS, begin.id, true), records);
    var behind := EncodeRecords(records[i + 1..]) + tail;
    if records[i].padding == [] {
      assert [] + behind == behind;
    } else if NoHeader(records[i].padding) {
      PaddingIsRefused(Expect(FCGI_STDIN, begin.id, true), records[i].padding, behind);
    }
  }

  /** Padding behind the record that begins a request costs it all its parameters: the role alone is left. */
  lemma PaddedBeginLosesParams(was: RequestId, id: RequestId, rest: bytes)
    requires id != FCGI_NULL_REQUEST_ID
    ensures var begin := BeginRecord(id, 1, 0, Zeros(8));
            FcgiReader.Accepted(was, EncodeRecord(begin) + rest)
            == FcgiReader.CutShort([RoleSetting(1)])
  {
    hide Headers, EncodeRecord, ParseParams, FcgiReader.RoleEntry, RoleSetting;
    var begin := BeginRecord(id, 1, 0, Zeros(8));
    BeginIsAccepted(was, begin, 1, rest);
    PaddingIsRefused(Expect(FCGI_PARAMS, id, true), Zeros(8), rest);
    ParseStep([]);
    KnownRole(1);
  }

  /** Padding behind the end of the parameters costs it its standard input. */
  lemma PaddedEndLosesStdin(was: RequestId, id: RequestId, rest: bytes)
    requires id != FCGI_NULL_REQUEST_ID
    ensures var records := [Record(FCGI_PARAMS, id, [], Zeros(8))];
            && AllFit(records)
            && FcgiReader.Accepted(was, RequestBytes(BeginRecord(id, 1, 0, []), records, rest))
               == FcgiReader.Whole([RoleSetting(1)], Outcome([], Failed))
  {
    hide Headers, EncodeRecords, RequestBytes, FcgiReader.RoleEntry, RoleSetting, FcgiReader.Accepted, EncodePairs;
    var begin, records := BeginRecord(id, 1, 0, []), [Record(FCGI_PARAMS, id, [], Zeros(8))];
    var x := Expect(FCGI_PARAMS, id, true);
    HeaderFields(FCGI_PARAMS, id, 0, 8);
    assert KindOf(x, records[0]) == OwnStream && EofIndex(x, records) == 0;
    assert EncodePairs([]) == [] by {
      NoPairs();
    }
    RequestOutcome(was, begin, [], records, rest, 1);
    PaddingIsRefused(Expect(FCGI_STDIN, id, true), Zeros(8), EncodeRecords(records[1..]) + rest);
    assert EntriesOf([]) == [];
    KnownRole(1);
    var role := RoleSetting(1);
    assert [role] + [] == [role];
  }

  lemma NoPairs()
    ensures EncodePairs([]) == []
  {
  }

  /**
   * What becomes of any records behind an unpadded begin of a request when the connection ends there: it is
   * accepted, if its role is known, exactly when the parameters delivered end behind a complete pair; whole
   * if the stream of parameters has ended by then, and cut short if not.
   */
  lemma AcceptanceIff(was: RequestId, begin: Record, role: nat, records: seq<Record>)
    requires Begins(begin, role) && begin.padding == [] && AllFit(records)
    ensures var x, a := Expect(FCGI_PARAMS, begin.id, true), FcgiReader.Accepted(was, RequestBytes(begin, records, []));
            var accepted := && 1 <= role <= 3
                            && ParseParams(Deliver(x, records, [], false).data).complete;
            && (a.Refused? <==> !accepted)
            && (a.Whole? <==> accepted && Ends(x, records, false))
            && (a.CutShort? <==> accepted && !Ends(x, records, false))
  {
    hide Headers, EncodeRecords, EncodeRecord, ParseParams, FcgiReader.RoleEntry, RoleSetting, Ends, Deliver;
    KnownRole(role);
    var x := Expect(FCGI_PARAMS, begin.id, true);
    BeginIsAccepted(was, begin, role, EncodeRecords(records) + []);
    assert [] + (EncodeRecords(records) + []) == EncodeRecords(records) + [];
    DeliverIsReading(x, records, [], false);
    EndsIff(x, records, false);
  }

  /**
   * A connection that breaks off behind some of the parameters, at the end of a pair, is accepted with those:
   * here behind a single record of them.
   */
  lemma BrokenOffIsAccepted(was: RequestId, id: RequestId, role: nat, flags: byte, pairs: seq<Pair>)
    requires 1 <= role <= 3 && id != FCGI_NULL_REQUEST_ID
    requires (forall p | p in pairs :: p.Encodable()) && 0 < |EncodePairs(pairs)| <= FCGI_MAX_LENGTH
    ensures var begin, params := BeginRecord(id, role, flags, []), Record(FCGI_PARAMS, id, EncodePairs(pairs), []);
            FcgiReader.Accepted(was, EncodeRecord(begin) + EncodeRecord(params))
            == FcgiReader.CutShort([RoleSetting(role)] + EntriesOf(pairs))
  {
    hide Headers, EncodeRecord, ParseParams, FcgiReader.RoleEntry, RoleSetting, EncodePairs, EntriesOf, Classify;
    var begin, params := BeginRecord(id, role, flags, []), Record(FCGI_PARAMS, id, EncodePairs(pairs), []);
    var x := Expect(FCGI_PARAMS, id, true);
    BeginIsAccepted(was, begin, role, EncodeRecord(params));
    assert [] + EncodeRecord(params) == EncodeRecord(params) == EncodeRecord(params) + [];
    assert KindOf(x, params) == OwnStream by {
      ParamsKind(params);
    }
    RecordStep(x, params, [], false);
    NothingFollows(x, false);
    ParamsRoundTrip(pairs);
    assert EncodePairs(pairs) + [] == EncodePairs(pairs);
    KnownRole(role);
  }

  lemma ParamsKind(r: Record)
    requires r.Fits() && r.rtype == FCGI_PARAMS && r.id != FCGI_NULL_REQUEST_ID
    ensures KindOf(Expect(FCGI_PARAMS, r.id, true), r) == OwnStream
  {
    HeaderFields(r.rtype, r.id, |r.content|, |r.padding|);
  }

  /** A request byte by byte: a responder's, with one parameter and one byte of standard input. */
  lemma SmallRequest(was: RequestId)
    ensures FcgiReader.Accepted(was, [1, 1, 0, 7, 0, 8, 0, 0, 0, 1, 0, 0, 0, 0, 0, 0]
                                     + ([1, 4, 0, 7, 0, 4, 0, 0, 1, 1, 65, 66]
                                        + ([1, 4, 0, 7, 0, 0, 0, 0]
                                           + ([1, 5, 0, 7, 0, 1, 0, 0, 67] + [1, 5, 0, 7, 0, 0, 0, 0]))))
         == FcgiReader.Whole([Ascii("FCGI_ROLE=RESPONDER"), Ascii("A=B")], Outcome([67], Eof([], false)))
  {
    hide Headers, EncodeRecord, ParseParams, FcgiReader.RoleEntry, RoleSetting, Ascii, Begins;
    var begin := BeginRecord(7, 1, 0, []);
    var params, paramsEnd := Record(FCGI_PARAMS, 7, [1, 1, 65, 66], []), Record(FCGI_PARAMS, 7, [], []);
    var stdin, stdinEnd := Record(FCGI_STDIN, 7, [67], []), Record(FCGI_STDIN, 7, [], []);
    SmallRecords();
    SmallParams();
    ResponderSetting();
    KnownRole(1);
    var d := EncodeRecord(stdin) + EncodeRecord(stdinEnd);
    var c := EncodeRecord(paramsEnd) + d;
    var b := EncodeRecord(params) + c;
    BeginIsAccepted(was, begin, 1, b);
    assert [] + b == b && [] + d == d;
    StreamOfOne(FCGI_PARAMS, params, paramsEnd, d);
    StreamOfOne(FCGI_STDIN, stdin, stdinEnd, []);
    assert EncodeRecord(stdinEnd) + [] == EncodeRecord(stdinEnd);
  }

  /** A stream of one record and its end, read from whatever follows. */
  lemma StreamOfOne(rtype: byte, r: Record, end: Record, rest: bytes)
    requires rtype != FCGI_BEGIN_REQUEST && r.rtype == end.rtype == rtype && r.id == end.id == 7
    requires r.Fits() && r.content != [] && end.content == end.padding == []
    ensures Headers(Expect(rtype, 7, true), EncodeRecord(r) + (EncodeRecord(end) + rest), false)
         == Outcome(r.content, Eof(rest, false))
  {
    hide Headers, EncodeRecord;
    var x := Expect(rtype, 7, true);
    HeaderFields(rtype, 7, |r.content|, |r.padding|);
    HeaderFields(rtype, 7, 0, 0);
    RecordStep(x, r, EncodeRecord(end) + rest, false);
    RecordStep(x, end, rest, false);
    assert [] + rest == rest && r.content + [] == r.content;
  }

  lemma SmallRecords()
    ensures EncodeRecord(BeginRecord(7, 1, 0, [])) == [1, 1, 0, 7, 0, 8, 0, 0, 0, 1, 0, 0, 0, 0, 0, 0]
    ensures EncodeRecord(Record(FCGI_PARAMS, 7, [1, 1, 65, 66], [])) == [1, 4, 0, 7, 0, 4, 0, 0, 1, 1, 65, 66]
    ensures EncodeRecord(Record(FCGI_PARAMS, 7, [], [])) == [1, 4, 0, 7, 0, 0, 0, 0]
    ensures EncodeRecord(Record(FCGI_STDIN, 7, [67], [])) == [1, 5, 0, 7, 0, 1, 0, 0, 67]
    ensures EncodeRecord(Record(FCGI_STDIN, 7, [], [])) == [1, 5, 0, 7, 0, 0, 0, 0]
    ensures Begins(BeginRecord(7, 1, 0, []), 1)
  {
  }

  lemma SmallParams()
    ensures ParseParams([1, 1, 65, 66]) == Parsed([Ascii("A=B")], true)
  {
    hide ParseParams, Ascii;
    var p := Pair([65], [66], false, false);
    assert EncodePairs([p]) == EncodePair(p) + [] == [1, 1, 65, 66];
    ParamsRoundTrip([p]);
    assert EntriesOf([p]) == [p.Entry()];
    assert p.Entry() == Ascii("A=B") by {
      AsciiOfThree();
    }
  }

  lemma AsciiOfThree()
    ensures [65] + Ascii("=") + [66] == Ascii("A=B")
  {
  }

  lemma ResponderSetting()
    ensures RoleSetting(1) == Ascii("FCGI_ROLE=RESPONDER")
  {
    hide Ascii;
    AsciiOfBoth("FCGI_ROLE=", "RESPONDER");
    assert "FCGI_ROLE=" + "RESPONDER" == "FCGI_ROLE=RESPONDER";
  }

  lemma AsciiOfBoth(a: string, b: string)
    ensures Ascii(a + b) == Ascii(a) + Ascii(b)
  {
  }

  /** The classes at work on a request without such padding. */
  method AcceptWhatWasSent(req: FcgiReader.Request, ghost begin: Record, ghost pairs: seq<Pair>,
                           ghost records: seq<Record>, ghost tail: bytes, ghost role: nat)
    returns (stream: FcgiReader.Stream, params: Params)
    requires !req.isBeginProcessed && 1 <= role <= 3 && Begins(begin, role)
    requires AllFit(records) && (forall p | p in pairs :: p.Encodable()) && ParamsStream(begin.id, pairs, records)
    requires req.rest == RequestBytes(begin, records, tail) && begin.padding == []
    modifies req
    ensures stream.Valid() && stream.req == req && !stream.isClosed && params.Valid()
    ensures params.Contents() == [RoleSetting(role)] + EntriesOf(pairs)
    ensures var i := EofIndex(Expect(FCGI_PARAMS, begin.id, true), records);
            && i < |records| && AllFit(records[i + 1..])
            && stream.Future() == Headers(Expect(FCGI_STDIN, begin.id, true),
                                          records[i].padding + (EncodeRecords(records[i + 1..]) + tail), false)
  {
    hide Headers, EncodeRecords, RequestBytes, EofIndex, ParamsStream, FcgiReader.Stream.Future, FcgiReader.Accepted;
    RequestOutcome(req.requestId, begin, pairs, records, tail, role);
    var ok;
    ok, stream, params := FcgiReader.AcceptRequest(req);
  }
}
