/**
 * The writing half of FCGX_Stream: a buffer with eight bytes reserved for the header of the record it
 * will become, and the re-entrant close that pushes raw records through the same buffer.
 */
module FcgiWriter {
  import opened Bytes
  import opened FcgiRecords
  import opened FcgiSession

  /** The part of FCGX_Request the writers share; `wire` is what the connection has received. */
  class Request {
    const requestId: RequestId
    var appStatus: int
    var nWriters: int
    var wire: bytes
    ghost var log: seq<Record>

    /** The connection has received exactly the records of the log. */
    ghost predicate Framed()
      reads this
    {
      (forall r | r in log :: r.Fits()) && wire == EncodeRecords(log)
    }

    constructor (requestId: RequestId, nWriters: int)
      ensures Framed() && log == [] && this.requestId == requestId && this.nWriters == nWriters && appStatus == 0
    {
      this.requestId := requestId;
      this.nWriters := nWriters;
      appStatus := 0;
      wire, log := [], [];
    }
  }

  lemma AppendFits(a: seq<Record>, b: seq<Record>)
    requires forall r | r in a :: r.Fits()
    requires forall r | r in b :: r.Fits()
    ensures forall r | r in a + b :: r.Fits()
    ensures EncodeRecords(a + b) == EncodeRecords(a) + EncodeRecords(b)
  {
    EncodeAppend(a, b);
  }

  lemma EncodeOne(r: Record)
    requires r.Fits()
    ensures EncodeRecords([r]) == EncodeRecord(r)
  {
    assert [r][1..] == [];
  }

  lemma EncodeNothing()
    ensures EncodeRecords([]) == []
  {
  }

  lemma EncodeEmpty(a: seq<Record>)
    requires forall r | r in a :: r.Fits()
    ensures EncodeRecords(a) == [] <==> a == []
  {
  }

  /** The closing records as the raw bytes that WriteCloseRecords builds. */
  lemma TailEncoded(rtype: byte, id: RequestId, unused: bool, appStatus: int, nWriters: int)
    ensures var eof, end := EofRecords(rtype, id, unused), EndRecords(id, appStatus, nWriters);
            && (forall r | r in eof + end :: r.Fits())
            && EncodeRecords(eof + end)
               == (if rtype == FCGI_STDERR && unused then [] else MakeHeader(rtype, id, 0, 0))
                + (if nWriters == 1 then
                     MakeHeader(FCGI_END_REQUEST, id, 8, 0) + EndRequestBody(appStatus, FCGI_REQUEST_COMPLETE)
                   else [])
  {
    var eof, end := EofRecords(rtype, id, unused), EndRecords(id, appStatus, nWriters);
    if eof != [] {
      EncodeOne(EofRecord(rtype, id));
    }
    if end != [] {
      EncodeOne(EndRecord(id, appStatus));
    }
    AppendFits(eof, end);
  }

  lemma SlicesBehind(s: bytes, from: nat, m: nat)
    requires from + m <= |s|
    ensures s[from..][..m] == s[from..from + m] && s[from..][m..] == s[from + m..]
  {
  }

  class Stream {
    const req: Request
    const rtype: byte
    const buff: array<byte>
    var wrNext: nat
    var stop: nat
    var isClosed: bool
    var wasFCloseCalled: bool
    var rawWrite: bool
    var isAnythingWritten: bool

    ghost predicate GoodBuffer() {
      24 <= buff.Length <= 0x10000 && buff.Length % 8 == 0
    }

    /** Between calls: open with the header space reserved, or closed with no room left. */
    ghost predicate Valid()
      reads this, req
    {
      && GoodBuffer() && req.Framed()
      && isClosed == wasFCloseCalled == rawWrite
      && (if isClosed then wrNext == stop <= buff.Length
          else FCGI_HEADER_LEN <= wrNext <= stop == buff.Length)
    }

    /** While closing: what is put goes out as it is, without a header. */
    ghost predicate Raw()
      reads this
    {
      GoodBuffer() && rawWrite && !isClosed && !wasFCloseCalled && wrNext <= stop == buff.Length
    }

    function Capacity(): int {
      buff.Length - FCGI_HEADER_LEN
    }

    ghost function State(): Writer
      requires Valid()
      reads this, buff, req
    {
      Writer(if isClosed then [] else buff[FCGI_HEADER_LEN..wrNext], isClosed, isAnythingWritten)
    }

    /** Everything sent, followed by everything in the buffer. */
    ghost function Output(): bytes
      requires wrNext <= buff.Length
      reads this, buff, req
    {
      req.wire + buff[..wrNext]
    }

    constructor (req: Request, bufflen: int, aligned: bool, rtype: byte)
      requires req.Framed()
      ensures Valid() && State() == Fresh && this.req == req && this.rtype == rtype && fresh(buff)
      ensures var wanted := if bufflen < 32 then 32 else if bufflen > 0x10000 then 0x10000 else bufflen;
              Capacity() == AlignInt8(wanted) - FCGI_HEADER_LEN - (if aligned then 0 else 8)
    {
      hide EncodeRecords;
      var size := AlignInt8(if bufflen < 32 then 32 else if bufflen > 0x10000 then 0x10000 else bufflen);
      size := if aligned then size else size - 8;
      buff := new byte[size](_ => 0);
      this.req, this.rtype := req, rtype;
      wrNext, stop := FCGI_HEADER_LEN, size;
      isClosed, wasFCloseCalled, rawWrite, isAnythingWritten := false, false, false, false;
    }

    /** write_it_all over OS_Write, which takes any positive number of the bytes it is given. */
    method WriteItAll(n: nat)
      requires n <= buff.Length
      modifies req`wire
      ensures req.wire == old(req.wire) + buff[..n]
    {
      var sent := 0;
      while sent < n
        invariant 0 <= sent <= n && req.wire == old(req.wire) + buff[..sent]
      {
        var wrote :| 1 <= wrote <= n - sent;
        req.wire := req.wire + buff[sent..sent + wrote];
        sent := sent + wrote;
      }
    }

    /** Copy as much of `str` as fits into the buffer. */
    method Fill(str: bytes) returns (m: nat)
      requires wrNext <= stop <= buff.Length
      modifies this`wrNext, buff
      ensures m == (if |str| < stop - old(wrNext) then |str| else stop - old(wrNext))
      ensures wrNext == old(wrNext) + m
      ensures buff[..wrNext] == old(buff[..wrNext]) + str[..m]
    {
      m := if |str| < stop - wrNext then |str| else stop - wrNext;
      forall i | 0 <= i < m {
        buff[wrNext + i] := str[i];
      }
      wrNext := wrNext + m;
    }

    /** Turn the buffered content into a padded record, header first; an empty buffer gives up its header. */
    method SealRecord()
      requires Valid() && !isClosed
      modifies this`wrNext, buff
      ensures wrNext <= buff.Length
      ensures var sent := FlushRecords(rtype, req.requestId, old(State()).pending);
              (forall r | r in sent :: r.Fits()) && buff[..wrNext] == EncodeRecords(sent)
    {
      hide EncodeRecords;
      ghost var pending := State().pending;
      EncodeNothing();
      var cLen := wrNext - FCGI_HEADER_LEN;
      if cLen > 0 {
        var eLen := AlignInt8(cLen);
        Pad(eLen - cLen, pending);
        Stamp(MakeHeader(rtype, req.requestId, cLen, eLen - cLen), pending + Zeros(eLen - cLen));
        EncodeOne(DataRecord(rtype, req.requestId, pending));
        Associative(MakeHeader(rtype, req.requestId, cLen, eLen - cLen), pending, Zeros(eLen - cLen));
      } else {
        wrNext := 0;
        assert buff[..0] == [];
      }
    }

    /** Zero the padding after the content. */
    method Pad(n: nat, ghost pending: bytes)
      requires FCGI_HEADER_LEN <= wrNext && wrNext + n <= buff.Length && buff[FCGI_HEADER_LEN..wrNext] == pending
      modifies this`wrNext, buff
      ensures wrNext == old(wrNext) + n && buff[FCGI_HEADER_LEN..wrNext] == pending + Zeros(n)
    {
      forall i | wrNext <= i < wrNext + n {
        buff[i] := 0;
      }
      wrNext := wrNext + n;
    }

    /** Fill in the header in front of the content and its padding. */
    method Stamp(header: bytes, ghost body: bytes)
      requires |header| == FCGI_HEADER_LEN <= wrNext <= buff.Length && buff[FCGI_HEADER_LEN..wrNext] == body
      modifies buff
      ensures buff[..wrNext] == header + body
    {
      forall i | 0 <= i < FCGI_HEADER_LEN {
        buff[i] := header[i];
      }
    }

    /**
     * EmptyBuffProc: seal the buffered content into a record, add the closing records if asked to, and
     * send the buffer.  FCGX_PutStr re-enters it while closing, when the buffer is sent as it is.
     */
    method EmptyBuffProc(doClose: bool)
      requires (Valid() && !isClosed) || (Raw() && !doClose)
      modifies this`wrNext, this`isAnythingWritten, this`rawWrite, buff, req`wire, req`log, req`nWriters
      ensures old(Raw()) ==>
                && Raw() && wrNext == 0 && req.wire == old(Output()) && req.log == old(req.log)
                && req.nWriters == old(req.nWriters)
                && isAnythingWritten == (old(isAnythingWritten) || old(wrNext) != 0)
      ensures !old(Raw()) && !doClose ==>
                && Valid() && State().pending == [] && !isClosed
                && req.log == old(req.log) + FlushRecords(rtype, req.requestId, old(State()).pending)
                && req.nWriters == old(req.nWriters)
                && isAnythingWritten == (old(isAnythingWritten) || old(State()).pending != [])
      ensures doClose ==>
                var sent := CloseRecords(rtype, req.requestId, req.appStatus, old(req.nWriters), old(State()));
                && Raw() && wrNext == 0 && req.Framed()
                && req.log == old(req.log) + sent
                && req.nWriters == old(req.nWriters) - 1
                && isAnythingWritten == (old(isAnythingWritten) || sent != [])
      decreases if doClose then 3 else 0, 0
    {
      hide EncodeRecords, DataRecord, EofRecords, EndRecords;
      ghost var raw := rawWrite;
      ghost var sent: seq<Record> := [];
      if !rawWrite {
        sent := FlushRecords(rtype, req.requestId, State().pending);
        SealRecord();
        EncodeEmpty(sent);
      }
      if doClose {
        ghost var tail := TailRecords(wrNext == 0 && !isAnythingWritten);
        WriteCloseRecords();
        AppendFits(sent, tail);
        ghost var flushed := sent;
        sent := sent + tail;
        Associative(old(req.wire), EncodeRecords(flushed), EncodeRecords(tail));
        assert sent == CloseRecords(rtype, req.requestId, req.appStatus, old(req.nWriters), old(State()));
      }
      SendBuffer();
      if !rawWrite {
        wrNext := wrNext + FCGI_HEADER_LEN;
      }
      if !raw {
        AppendFits(req.log, sent);
        EncodeEmpty(sent);
        req.log := req.log + sent;
      }
    }

    /** Send what is in the buffer, if anything. */
    method SendBuffer()
      requires wrNext <= buff.Length
      modifies this`wrNext, this`isAnythingWritten, req`wire
      ensures wrNext == 0 && req.wire == old(Output())
      ensures isAnythingWritten == (old(isAnythingWritten) || old(wrNext) != 0)
    {
      if wrNext != 0 {
        isAnythingWritten := true;
        WriteItAll(wrNext);
        wrNext := 0;
      } else {
        assert buff[..0] == [];
      }
    }

    ghost function TailRecords(unused: bool): seq<Record>
      reads req
    {
      EofRecords(rtype, req.requestId, unused) + EndRecords(req.requestId, req.appStatus, req.nWriters)
    }

    /** WriteCloseRecords: headers and bodies go through FCGX_PutStr as raw bytes. */
    method WriteCloseRecords()
      requires GoodBuffer() && !rawWrite && !isClosed && !wasFCloseCalled && wrNext <= stop == buff.Length
      modifies this`wrNext, this`isAnythingWritten, this`rawWrite, buff, req`wire, req`log, req`nWriters
      ensures Raw() && req.log == old(req.log) && req.nWriters == old(req.nWriters) - 1
      ensures var sent := old(TailRecords(wrNext == 0 && !isAnythingWritten));
              (forall r | r in sent :: r.Fits()) && Output() == old(Output()) + EncodeRecords(sent)
      ensures old(req.wire) <= req.wire
      ensures isAnythingWritten == (old(isAnythingWritten) || |old(req.wire)| < |req.wire|)
      decreases 2, 1
    {
      hide EncodeRecords, EncodeRecord, MakeHeader, EndRequestBody, EofRecords, EndRecords, Valid, State;
      TailEncoded(rtype, req.requestId, wrNext == 0 && !isAnythingWritten, req.appStatus, req.nWriters);
      ghost var output0 := Output();
      ghost var eof: bytes, end: bytes := [], [];
      assert output0 + [] == output0;
      rawWrite := true;
      if !(rtype == FCGI_STDERR && wrNext == 0 && !isAnythingWritten) {
        var header := MakeHeader(rtype, req.requestId, 0, 0);
        eof := header;
        PutRaw(header);
      }
      if req.nWriters == 1 {
        var body := EndRequestBody(req.appStatus, FCGI_REQUEST_COMPLETE);
        var endRequestRecord := MakeHeader(FCGI_END_REQUEST, req.requestId, |body|, 0) + body;
        end := endRequestRecord;
        PutRaw(endRequestRecord);
      }
      assert output0 + eof + [] == output0 + eof;
      Associative(output0, eof, end);
      req.nWriters := req.nWriters - 1;
    }

    /** FCGX_PutStr while closing. */
    method PutRaw(str: bytes)
      requires Raw()
      modifies this`wrNext, this`isAnythingWritten, this`rawWrite, buff, req`wire, req`log, req`nWriters
      ensures Raw() && Output() == old(Output()) + str && req.log == old(req.log) && req.nWriters == old(req.nWriters)
      ensures old(req.wire) <= req.wire
      ensures isAnythingWritten == (old(isAnythingWritten) || |old(req.wire)| < |req.wire|)
      decreases 2, 0
    {
      hide Output, Valid, State, EncodeRecords;
      var _ := PutStr(str);
    }

    /** FCGX_PutStr: fill, and empty the buffer whenever it is full and more is to come. */
    method PutStr(str: bytes) returns (r: int)
      requires Valid() || Raw()
      modifies this`wrNext, this`isAnythingWritten, this`rawWrite, buff, req`wire, req`log, req`nWriters
      ensures req.nWriters == old(req.nWriters)
      ensures old(Raw()) ==>
                && Raw() && Output() == old(Output()) + str && req.log == old(req.log) && r == |str|
                && old(req.wire) <= req.wire
                && isAnythingWritten == (old(isAnythingWritten) || |old(req.wire)| < |req.wire|)
      ensures old(Valid() && isClosed) ==>
                && Valid() && State() == old(State()) && req.log == old(req.log)
                && r == if str == [] then 0 else -1
      ensures old(Valid() && !isClosed) ==>
                var pending := old(State()).pending;
                var sent := PutRecords(rtype, req.requestId, Capacity(), pending, str);
                && Valid() && r == |str|
                && req.log == old(req.log) + sent
                && State() == Writer(PutRest(Capacity(), pending, str), false, old(isAnythingWritten) || sent != [])
      decreases 1
    {
      if |str| <= stop - wrNext {
        var _ := Fill(str);
        return |str|;
      }
      if isClosed {
        return EOF;
      }
      r := PutLong(str);
    }

    /** The general case of FCGX_PutStr. */
    method PutLong(str: bytes) returns (r: int)
      requires (Valid() && !isClosed) || Raw()
      requires stop - wrNext < |str|
      modifies this`wrNext, this`isAnythingWritten, this`rawWrite, buff, req`wire, req`log, req`nWriters
      ensures req.nWriters == old(req.nWriters) && r == |str|
      ensures old(Raw()) ==>
                && Raw() && Output() == old(Output()) + str && req.log == old(req.log)
                && old(req.wire) <= req.wire
                && isAnythingWritten == (old(isAnythingWritten) || |old(req.wire)| < |req.wire|)
      ensures !old(Raw()) ==>
                var pending := old(State()).pending;
                var sent := PutRecords(rtype, req.requestId, Capacity(), pending, str);
                && Valid()
                && req.log == old(req.log) + sent
                && State() == Writer(PutRest(Capacity(), pending, str), false, old(isAnythingWritten) || sent != [])
      decreases 0, 2
    {
      hide PutRecords, PutRest, FlushRecords, EncodeRecords;
      ghost var raw := Raw();
      ghost var pending0 := if raw then [] else State().pending;
      var bytesMoved := 0;
      while true
        invariant 0 <= bytesMoved <= |str| && req.nWriters == old(req.nWriters)
        invariant raw == Raw()
        invariant raw ==> RawProgress(old(req.wire), old(req.log), old(Output()), old(isAnythingWritten),
                                      str[..bytesMoved])
        invariant !raw ==> Valid() && !isClosed
                           && PutProgress(old(req.log), pending0, old(isAnythingWritten), str, str[bytesMoved..])
        invariant bytesMoved < |str|
        decreases |str| - bytesMoved, stop - wrNext == 0
      {
        if wrNext != stop {
          var m := FillSome(str, bytesMoved, raw, old(req.log), pending0, old(isAnythingWritten));
          bytesMoved := bytesMoved + m;
          if bytesMoved == |str| {
            assert str[..bytesMoved] == str && str[bytesMoved..] == [];
            if !raw {
              NothingLeft(rtype, req.requestId, Capacity(), State().pending);
            }
            return bytesMoved;
          }
        }
        Overflow(str, bytesMoved, raw, old(req.log), pending0, old(isAnythingWritten));
      }
    }

    method FillSome(str: bytes, moved: nat, ghost raw: bool, ghost log0: seq<Record>, ghost pending0: bytes,
                    ghost anything0: bool)
      returns (m: nat)
      requires moved < |str| && wrNext < stop && raw == Raw() && (!raw ==> Valid() && !isClosed)
      requires !raw ==> |pending0| <= Capacity() && PutProgress(log0, pending0, anything0, str, str[moved..])
      modifies this`wrNext, buff
      ensures 0 < m && moved + m <= |str| && (moved + m < |str| ==> wrNext == stop)
      ensures raw == Raw() && (!raw ==> Valid() && !isClosed)
      ensures Output() == old(Output()) + str[moved..moved + m]
      ensures !raw ==> PutProgress(log0, pending0, anything0, str, str[moved + m..])
    {
      hide PutRecords, PutRest, EncodeRecords, Output, State;
      ghost var rest := str[moved..];
      ghost var held := if raw then [] else State().pending;
      m := FillMore(str[moved..], raw);
      SlicesBehind(str, moved, m);
      if !raw {
        FillStep(rtype, req.requestId, Capacity(), held, rest, m);
      }
    }

    method FillMore(str: bytes, ghost raw: bool) returns (m: nat)
      requires str != [] && wrNext < stop && raw == Raw() && (!raw ==> Valid() && !isClosed)
      modifies this`wrNext, buff
      ensures 0 < m <= |str| && (m < |str| ==> wrNext == stop)
      ensures raw == Raw() && (!raw ==> Valid() && !isClosed)
      ensures Output() == old(Output()) + str[..m]
      ensures !raw ==>
                && State() == old(State()).(pending := old(State()).pending + str[..m])
                && |State().pending| <= Capacity() && |old(State()).pending| + m <= Capacity()
    {
      hide EncodeRecords;
      ghost var before := buff[..wrNext];
      m := Fill(str);
      if !raw {
        assert before[FCGI_HEADER_LEN..] + str[..m] == buff[..wrNext][FCGI_HEADER_LEN..];
      }
      assert req.wire + (before + str[..m]) == req.wire + before + str[..m];
    }

    /** The buffer is full and part of the string is left. */
    method Overflow(str: bytes, ghost moved: nat, ghost raw: bool, ghost log0: seq<Record>, ghost pending0: bytes,
                    ghost anything0: bool)
      requires moved < |str| && raw == Raw() && (!raw ==> Valid() && !isClosed) && wrNext == stop
      requires !raw ==> |pending0| <= Capacity() && PutProgress(log0, pending0, anything0, str, str[moved..])
      modifies this`wrNext, this`isAnythingWritten, this`rawWrite, buff, req`wire, req`log, req`nWriters
      ensures raw == Raw() && (!raw ==> Valid() && !isClosed) && wrNext < stop
      ensures req.nWriters == old(req.nWriters)
      ensures raw ==> Output() == old(Output()) && req.log == old(req.log) && isAnythingWritten
                      && |old(req.wire)| < |req.wire| && old(req.wire) <= req.wire
      ensures !raw ==> PutProgress(log0, pending0, anything0, str, str[moved..])
      decreases 0, 1
    {
      hide PutRecords, PutRest, EncodeRecords;
      ghost var left, log := str[moved..], req.log;
      ghost var held := if raw then [] else State().pending;
      EmptyBuffProc(false);
      if !raw {
        OverflowStep(rtype, req.requestId, Capacity(), held, left);
        ghost var flushed, more := FlushRecords(rtype, req.requestId, held),
                                   PutRecords(rtype, req.requestId, Capacity(), [], left);
        assert log + (flushed + more) == log + flushed + more;
      }
    }

    /** Part `moved` of a raw string has gone out or into the buffer. */
    ghost predicate RawProgress(wire0: bytes, log0: seq<Record>, output0: bytes, anything0: bool, moved: bytes)
      requires wrNext <= buff.Length
      reads this, buff, req
    {
      && Output() == output0 + moved && req.log == log0 && wire0 <= req.wire
      && isAnythingWritten == (anything0 || |wire0| < |req.wire|)
    }

    /** What is left of a string meets the same fate from the present state as the whole from the first. */
    ghost predicate PutProgress(log0: seq<Record>, pending0: bytes, anything0: bool, str: bytes, left: bytes)
      requires Valid() && !isClosed && |pending0| <= Capacity()
      reads this, buff, req
    {
      var now := State().pending;
      && log0 + PutRecords(rtype, req.requestId, Capacity(), pending0, str)
         == req.log + PutRecords(rtype, req.requestId, Capacity(), now, left)
      && PutRest(Capacity(), pending0, str) == PutRest(Capacity(), now, left)
      && isAnythingWritten == (anything0 || |log0| < |req.log|) && |log0| <= |req.log|
    }

    /** FCGX_PutChar. */
    method PutChar(c: byte) returns (r: int)
      requires Valid()
      modifies this`wrNext, this`isAnythingWritten, this`rawWrite, buff, req`wire, req`log, req`nWriters
      ensures Valid() && req.nWriters == old(req.nWriters)
      ensures old(isClosed) ==> State() == old(State()) && req.log == old(req.log) && r == -1
      ensures !old(isClosed) ==>
                var pending := old(State()).pending;
                var sent := PutRecords(rtype, req.requestId, Capacity(), pending, [c]);
                && r == c
                && req.log == old(req.log) + sent
                && State() == Writer(PutRest(Capacity(), pending, [c]), false, old(isAnythingWritten) || sent != [])
    {
      if wrNext == stop {
        if isClosed {
          return EOF;
        }
        OverflowStep(rtype, req.requestId, Capacity(), State().pending, [c]);
        EmptyBuffProc(false);
      }
      ghost var before := State().pending;
      buff[wrNext] := c;
      wrNext := wrNext + 1;
      assert State().pending == before + [c];
      r := c;
    }

    /** FCGX_FFlush. */
    method FFlush() returns (r: int)
      requires Valid()
      modifies this`wrNext, this`isAnythingWritten, this`rawWrite, buff, req`wire, req`log, req`nWriters
      ensures Valid() && r == 0 && req.nWriters == old(req.nWriters)
      ensures old(isClosed) ==> State() == old(State()) && req.log == old(req.log)
      ensures !old(isClosed) ==>
                var pending := old(State()).pending;
                && req.log == old(req.log) + FlushRecords(rtype, req.requestId, pending)
                && State() == Writer([], false, old(isAnythingWritten) || pending != [])
    {
      if !isClosed {
        EmptyBuffProc(false);
      }
      r := 0;
    }

    /** FCGX_FClose. */
    method FClose() returns (r: int)
      requires Valid()
      modifies this, buff, req`wire, req`log, req`nWriters
      ensures Valid() && isClosed && r == 0
      ensures old(isClosed) ==>
                State() == old(State()) && req.log == old(req.log) && req.nWriters == old(req.nWriters)
      ensures !old(isClosed) ==>
                var sent := CloseRecords(rtype, req.requestId, req.appStatus, old(req.nWriters), old(State()));
                && req.log == old(req.log) + sent
                && req.nWriters == old(req.nWriters) - 1
                && State() == Writer([], true, old(isAnythingWritten) || sent != [])
    {
      if !wasFCloseCalled {
        EmptyBuffProc(true);
        wasFCloseCalled := true;
        isClosed := true;
        stop := wrNext;
      }
      r := 0;
    }

    /** FCGX_SetExitStatus. */
    method SetExitStatus(status: int)
      modifies req`appStatus
      ensures req.appStatus == status
    {
      req.appStatus := status;
    }
  }

  /** The two streams of a request and their connection are in the state `s` of the session. */
  ghost predicate Represents(out: Stream, err: Stream, cfg: Config, s: Session)
    reads out, err, out.req, err.req, out.buff, err.buff
  {
    && out.req == err.req && out != err && out.buff != err.buff
    && out.Valid() && err.Valid()
    && out.rtype == Out.Type() && err.rtype == Err.Type()
    && cfg == Config(out.req.requestId, out.Capacity(), err.Capacity())
    && s == Session(out.req.log, out.req.nWriters, out.req.appStatus, out.State(), err.State())
  }

  /** One call on one of the two streams is one step of the session. */
  method Perform(out: Stream, err: Stream, op: Op, ghost cfg: Config, ghost s: Session)
    requires Represents(out, err, cfg, s)
    modifies out, err, out.buff, err.buff, out.req`wire, out.req`log, out.req`nWriters, out.req`appStatus
    ensures Represents(out, err, cfg, Step(cfg, s, op))
  {
    hide PutRecords, PutRest, FlushRecords, CloseRecords, EncodeRecords;
    var stream := if op.which.Out? then out else err;
    match op {
      case Put(_, str) => var _ := stream.PutStr(str);
      case Flush(_) => var _ := stream.FFlush();
      case Close(_) => var _ := stream.FClose();
      case SetStatus(_, status) => stream.SetExitStatus(status);
    }
  }

  /** The two writers that FCGX_Accept_r makes for a request, wherever the allocator puts their buffers. */
  method OpenWriters(id: RequestId, outAligned: bool, errAligned: bool)
    returns (out: Stream, err: Stream, ghost cfg: Config)
    ensures fresh(out) && fresh(err) && fresh(out.buff) && fresh(err.buff) && fresh(out.req)
    ensures cfg.id == id && Represents(out, err, cfg, Initial)
    ensures cfg.outCapacity == (if outAligned then 8184 else 8176)
    ensures cfg.errCapacity == (if errAligned then 504 else 496)
  {
    var req := new Request(id, 2);
    out := new Stream(req, 8192, outAligned, FCGI_STDOUT);
    err := new Stream(req, 512, errAligned, FCGI_STDERR);
    cfg := Config(id, out.Capacity(), err.Capacity());
  }

  /**
   * The output of one request, from the creation of its streams to the last call: the connection receives
   * exactly the records of the session's run.
   */
  method Serve(id: RequestId, ops: seq<Op>, outAligned: bool, errAligned: bool)
    returns (req: Request, ghost cfg: Config)
    ensures cfg.id == id && req.Framed() && req.log == Run(cfg, ops).log
    ensures cfg.outCapacity == (if outAligned then 8184 else 8176)
    ensures cfg.errCapacity == (if errAligned then 504 else 496)
  {
    hide Represents, Run, Step;
    var out, err;
    out, err, cfg := OpenWriters(id, outAligned, errAligned);
    req := out.req;
    RunSteps(cfg, ops, 0);
    for i := 0 to |ops|
      invariant fresh(out) && fresh(err) && fresh(out.buff) && fresh(err.buff) && fresh(req) && out.req == req
      invariant Represents(out, err, cfg, Run(cfg, ops[..i]))
    {
      RunSteps(cfg, ops, i);
      Perform(out, err, ops[i], cfg, Run(cfg, ops[..i]));
    }
    assert ops[..|ops|] == ops;
    Received(out, err, cfg, Run(cfg, ops));
  }

  lemma RunSteps(cfg: Config, ops: seq<Op>, i: nat)
    requires i <= |ops|
    ensures Run(cfg, ops[..0]) == Initial
    ensures i < |ops| ==> Run(cfg, ops[..i + 1]) == Step(cfg, Run(cfg, ops[..i]), ops[i])
  {
    assert ops[..0] == [];
    if i < |ops| {
      assert ops[..i + 1][..i] == ops[..i];
    }
  }

  lemma Received(out: Stream, err: Stream, cfg: Config, s: Session)
    requires Represents(out, err, cfg, s)
    ensures out.req.Framed() && out.req.log == s.log
  {
  }
}
