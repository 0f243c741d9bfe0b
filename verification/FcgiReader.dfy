/**
 * The reading half of FCGX_Stream: FillBuffProc and everything it re-enters while it interprets a header.
 * `Future` is the specification: what is buffered, followed by what FcgiStream says is still to come.
 */
module FcgiReader {
  import opened Bytes
  import opened FcgiRecords
  import opened FcgiStream
  import opened FcgiParams

  const FCGX_UNSUPPORTED_VERSION := -2
  const FCGX_PROTOCOL_ERROR := -3
  const FCGX_PARAMS_ERROR := -4

  /**
   * The connection and the request fields a reader uses; `rest` is what OS_Read has still to return before
   * the connection ends, in the error `readError` or, if that is 0, in order, and `answers` the records the
   * reader itself has sent.
   */
  class Request {
    const readError: nat
    var rest: bytes
    var requestId: RequestId
    var isBeginProcessed: bool
    var role: nat
    var answers: seq<Record>
    var keepConnection: bool

    constructor (rest: bytes, readError: nat)
      ensures this.rest == rest && this.readError == readError && requestId == 0 && !isBeginProcessed
      ensures role == 0 && !keepConnection && answers == []
    {
      this.rest, this.readError := rest, readError;
      requestId, isBeginProcessed, role, keepConnection, answers := 0, false, 0, false, [];
    }
  }

  /** The answer to a further request on a connection that is in use. */
  function CannotMultiplex(id: RequestId): (r: Record)
    ensures r == Record(3, id, [0, 0, 0, 0, 1, 0, 0, 0], [])
  {
    Record(FCGI_END_REQUEST, id, EndRequestBody(0, FCGI_CANT_MPX_CONN), [])
  }

  /** The answer to a management record of a type the library does not know. */
  function UnknownType(rtype: byte): (r: Record)
    ensures r == Record(11, 0, [rtype, 0, 0, 0, 0, 0, 0, 0], [])
  {
    Record(FCGI_UNKNOWN_TYPE, FCGI_NULL_REQUEST_ID, [rtype, 0, 0, 0, 0, 0, 0, 0], [])
  }

  /** What a header is answered with, whatever its record holds. */
  function AnswersTo(x: Expect, h: bytes): seq<Record>
    requires |h| == FCGI_HEADER_LEN
  {
    match Classify(x, h)
    case UnknownManagement => [UnknownType(h[1])]
    case Skipped => if h[1] == FCGI_BEGIN_REQUEST then [CannotMultiplex(RequestIdOf(h))] else []
    case _ => []
  }

  /** For each header, by its bytes: a further request and an unknown management record are answered, nothing else. */
  lemma AnswersIff(x: Expect, h: bytes)
    requires |h| == FCGI_HEADER_LEN
    ensures var id := (h[2] as int) * 0x100 + h[3] as int;
            var further := h[0] == 1 && h[1] == 1 && id != 0 && h[4] == 0 && h[5] == 8 && x.begun;
            var unknown := h[0] == 1 && h[1] != 1 && h[1] != 9 && id == 0;
            AnswersTo(x, h) == if further then [Record(3, id, [0, 0, 0, 0, 1, 0, 0, 0], [])]
                               else if unknown then [Record(11, 0, [h[1], 0, 0, 0, 0, 0, 0, 0], [])]
                               else []
  {
  }

  datatype Status = StreamRecord | Skip | BeginRecord | MgmtRecord | Error(code: int)

  /** How far one round of the loop of FillBuffProc came. */
  datatype Progress = Returned | Again | AtHeader

  /** A record as confined reading finds it: the bytes to come and what the header said of them. */
  datatype Place = Place(u: bytes, content: int, padding: nat, skip: bool)

  lemma TakenNothing(u: bytes)
    ensures u[0..] == u && [] + u == u
  {
  }

  /** What was asked for, or all there was, has been handed out. */
  lemma Delivered(now: Outcome, was: Outcome, str: bytes, n: nat)
    requires was.data == str + now.data && now.end == was.end
    requires |str| == n || (|str| < n && now.data == [])
    ensures var k := if n <= |was.data| then n else |was.data|;
            && k == |str| && str == was.data[..k]
            && now == Outcome(was.data[k..], was.end)
  {
    SplitAt(str, now.data);
  }

  lemma SlicesOf(s: bytes, from: nat, to: nat, n: nat)
    requires from + n <= to <= |s|
    ensures s[from..to][..n] == s[from..from + n] && s[from..to][n..] == s[from + n..to]
  {
  }

  lemma CutFront(a: bytes, b: bytes, n: nat)
    requires n <= |a|
    ensures (a + b)[..n] == a[..n] && (a + b)[n..] == a[n..] + b
  {
  }

  lemma PairSlices(d: bytes, used: nat, nameLen: nat, valueLen: nat)
    requires used + nameLen + valueLen <= |d|
    ensures d[used..][..nameLen] == d[used..used + nameLen]
    ensures d[used..][nameLen..][..valueLen] == d[used + nameLen..used + nameLen + valueLen]
    ensures d[used..][nameLen..][valueLen..] == d[used + nameLen + valueLen..]
  {
  }

  lemma TakenMore(u: bytes, a: nat, b: nat)
    requires a + b <= |u|
    ensures u[a..][b..] == u[a + b..]
  {
  }

  class Stream {
    const req: Request
    const buff: array<byte>
    var rdNext: nat
    var stop: nat
    var buffStop: nat
    var rtype: byte
    var isClosed: bool
    var errno: int
    var contentLen: nat
    var paddingLen: nat
    var skip: bool
    var eorStop: bool

    ghost predicate Valid()
      reads this
    {
      && 0 < buff.Length && rdNext <= buffStop <= buff.Length
      && (!isClosed ==> rdNext <= stop <= buffStop)
      && (errno != 0 ==> isClosed)
      && (isClosed && errno == 0 ==> contentLen == 0 && (eorStop ==> paddingLen == 0))
    }

    /** Bytes of the connection from buffer position `p` on. */
    ghost function From(p: nat): bytes
      requires p <= buffStop <= buff.Length
      reads this`buffStop, buff, req
    {
      buff[p..buffStop] + req.rest
    }

    ghost function Expecting(): Expect
      reads this`rtype, req
    {
      Expect(rtype, req.requestId, req.isBeginProcessed)
    }

    /** What is still to come from position `p`, none of it having been made available yet. */
    ghost function Coming(p: nat): Outcome
      requires p <= buffStop <= buff.Length
      reads this, buff, req
    {
      if eorStop then InRecord(From(p), contentLen, paddingLen, skip)
      else Ahead(Expecting(), From(p), contentLen, paddingLen, skip)
    }

    /** Everything the stream will deliver, and how it will end. */
    ghost function Future(): Outcome
      requires Valid()
      reads this, buff, req
    {
      if errno != 0 then Outcome([], Failed)
      else if isClosed then Outcome([], Eof(From(rdNext), skip))
      else Prepend(buff[rdNext..stop], Coming(stop))
    }

    constructor (req: Request, bufflen: nat, rtype: byte)
      requires 0 < bufflen
      ensures Valid() && !isClosed && !eorStop && errno == 0 && fresh(buff)
      ensures this.req == req && this.rtype == rtype && rdNext == stop && buff.Length == bufflen
      ensures From(rdNext) == req.rest && contentLen == 0 && paddingLen == 0 && !skip
    {
      buff := new byte[bufflen](_ => 0);
      this.req, this.rtype := req, rtype;
      rdNext, stop, buffStop := 0, 0, 0;
      isClosed, errno, contentLen, paddingLen, skip, eorStop := false, 0, 0, 0, false, false;
    }

    /** SetError keeps the first error. */
    method SetError(code: int)
      requires code != 0
      modifies this`errno, this`isClosed
      ensures isClosed && errno == if old(errno) == 0 then code else old(errno)
    {
      if errno == 0 {
        errno := code;
      }
      isClosed := true;
    }

    /** OS_Read: any positive number of bytes that are there; at the end 0, or -1 for an error. */
    method OsRead() returns (count: int)
      requires 0 < buff.Length
      modifies buff, req`rest
      ensures if old(req.rest) == [] then req.rest == [] && count == (if req.readError == 0 then 0 else -1)
              else 1 <= count <= buff.Length && buff[..count] + req.rest == old(req.rest)
    {
      if req.rest == [] {
        return if req.readError == 0 then 0 else -1;
      }
      count :| 1 <= count <= buff.Length && count <= |req.rest|;
      forall i | 0 <= i < count {
        buff[i] := req.rest[i];
      }
      req.rest := req.rest[count..];
    }

    /** Inside FillBuffProc, where `stop` means nothing. */
    ghost predicate Scanning()
      reads this
    {
      0 < buff.Length && rdNext <= buffStop <= buff.Length && !isClosed && errno == 0
    }

    /** What the scan will come to, `header` being the part of a header already collected. */
    ghost function Scan(header: bytes): Outcome
      requires Scanning()
      reads this, buff, req
    {
      if eorStop then InRecord(From(rdNext), contentLen, paddingLen, skip)
      else Ahead(Expecting(), header + From(rdNext), contentLen, paddingLen, skip)
    }

    /** The error that the end of the connection is reported as. */
    function EndCode(): int {
      if req.readError == 0 then FCGX_PROTOCOL_ERROR else req.readError
    }

    /** The read at the top of the loop: afterwards the buffer holds something, or `code` tells why not. */
    method Refill() returns (code: int)
      requires Scanning()
      modifies this`rdNext, this`buffStop, buff, req`rest
      ensures Scanning() && From(rdNext) == old(From(rdNext))
      ensures if code == 0 then rdNext < buffStop else From(rdNext) == [] && code == EndCode()
    {
      code := 0;
      if rdNext == buffStop {
        assert From(rdNext) == req.rest;
        var count := OsRead();
        if count <= 0 {
          return if count == 0 then FCGX_PROTOCOL_ERROR else req.readError;
        }
        rdNext, buffStop := 0, count;
        assert From(rdNext) == buff[..count] + req.rest;
      }
    }

    /** What a scan has come to behind the padding of a record: the end for confined reading, or a header. */
    ghost function AtEnd(): Outcome
      requires rdNext <= buffStop <= buff.Length
      reads this, buff, req
    {
      if eorStop then Outcome([], Eof(From(rdNext), skip)) else Headers(Expecting(), From(rdNext), skip)
    }

    lemma AtBoundary()
      requires Scanning() && contentLen == 0 && paddingLen == 0 && (eorStop ==> From(rdNext) != [])
      ensures Scan([]) == AtEnd()
    {
      hide Headers;
      AheadAtBoundary(Expecting(), From(rdNext), skip);
      TakenNothing(From(rdNext));
    }

    /** The bytes to come, cut within the buffer. */
    lemma Cut(count: nat)
      requires Scanning() && count <= buffStop - rdNext
      ensures var u := From(rdNext);
              && count <= |u| && [] + u == u && [] + u[count..] == u[count..]
              && u[..count] == buff[rdNext..rdNext + count] && u[count..] == From(rdNext + count)
    {
      var held := buff[rdNext..buffStop];
      CutFront(held, req.rest, count);
      assert held == buff[..][rdNext..buffStop];
      SlicesOf(buff[..], rdNext, buffStop, count);
      assert held[..count] == buff[rdNext..rdNext + count] && held[count..] == buff[rdNext + count..buffStop];
    }

    /** Content bytes to deliver: hand out all that are in the buffer. */
    method DeliverContent()
      requires Scanning() && rdNext < buffStop && 0 < contentLen && !skip
      modifies this`contentLen, this`stop
      ensures Valid() && !isClosed && rdNext < stop
      ensures Future() == old(Scan([])) && Future().data != []
      ensures contentLen + (stop - rdNext) == old(contentLen)
    {
      hide Ahead, InRecord, From;
      var count := if contentLen < buffStop - rdNext then contentLen else buffStop - rdNext;
      Cut(count);
      AheadCut(Expecting(), From(rdNext), contentLen, paddingLen, count);
      contentLen := contentLen - count;
      stop := rdNext + count;
      assert buff[rdNext..stop] != [];
    }

    /** Content bytes of a skipped record; the flag falls when the last of them is gone. */
    method SkipContent()
      requires Scanning() && rdNext < buffStop && 0 < contentLen && skip
      modifies this`contentLen, this`rdNext, this`skip
      ensures Scanning() && |From(rdNext)| < |old(From(rdNext))| && skip == (contentLen > 0)
      ensures old(Scan([])) == if contentLen > 0 || paddingLen > 0 then Scan([]) else AtEnd()
    {
      hide Ahead, InRecord, From;
      var count := if contentLen < buffStop - rdNext then contentLen else buffStop - rdNext;
      Cut(count);
      AheadSkip(Expecting(), From(rdNext), contentLen, paddingLen, count);
      contentLen := contentLen - count;
      rdNext := rdNext + count;
      if contentLen == 0 {
        skip := false;
        if paddingLen == 0 && !eorStop {
          AtBoundary();
        }
      }
    }

    method SkipPadding()
      requires Scanning() && contentLen == 0 && 0 < paddingLen
      modifies this`paddingLen, this`rdNext
      ensures Scanning() && |From(rdNext)| <= |old(From(rdNext))|
      ensures old(rdNext < buffStop) ==> |From(rdNext)| < |old(From(rdNext))|
      ensures old(Scan([])) == if paddingLen > 0 then Scan([]) else AtEnd()
    {
      hide Ahead, InRecord, From;
      var count := if paddingLen < buffStop - rdNext then paddingLen else buffStop - rdNext;
      Cut(count);
      AheadPad(Expecting(), From(rdNext), paddingLen, skip, count);
      paddingLen := paddingLen - count;
      rdNext := rdNext + count;
      if paddingLen == 0 && !eorStop {
        AtBoundary();
      }
    }

    /** The middle of the loop: content, then padding, of the current record. */
    method ConsumeRecord() returns (delivered: bool, again: bool)
      requires Scanning() && rdNext < buffStop
      modifies this`contentLen, this`paddingLen, this`rdNext, this`skip, this`stop
      ensures delivered ==>
                && Valid() && !isClosed && rdNext < stop && Future() == old(Scan([])) && Future().data != []
                && rdNext == old(rdNext) && contentLen + (stop - rdNext) == old(contentLen)
                && !old(skip) && !skip && paddingLen == old(paddingLen)
      ensures !delivered ==>
                && Scanning() && (contentLen == 0 || skip) && |From(rdNext)| <= |old(From(rdNext))|
                && (if again then |From(rdNext)| < |old(From(rdNext))| && Scan([]) == old(Scan([]))
                    else contentLen == 0 && paddingLen == 0 && old(Scan([])) == AtEnd())
      ensures old(contentLen == 0 && paddingLen == 0) ==>
                !delivered && !again && rdNext == old(rdNext) && skip == old(skip)
    {
      hide Ahead, InRecord;
      if contentLen == 0 && paddingLen == 0 {
        assert From(rdNext) != [];
        AtBoundary();
      }
      delivered, again := false, false;
      if contentLen > 0 {
        if !skip {
          DeliverContent();
          delivered := true;
          return;
        }
        SkipContent();
        if contentLen > 0 {
          again := true;
          return;
        }
      }
      if paddingLen > 0 {
        SkipPadding();
        again := paddingLen > 0;
      }
    }

    /** Header bytes: collect what the buffer has of the eight. */
    method CollectHeader(header: bytes) returns (more: bytes)
      requires Scanning() && !eorStop && |header| < FCGI_HEADER_LEN
      modifies this`rdNext
      ensures Scanning() && header <= more && |more| <= FCGI_HEADER_LEN
      ensures more + From(rdNext) == header + old(From(rdNext))
      ensures |more| < FCGI_HEADER_LEN ==> rdNext == buffStop
      ensures rdNext >= old(rdNext) && (old(rdNext < buffStop) ==> old(rdNext) < rdNext)
    {
      var count := if FCGI_HEADER_LEN - |header| < buffStop - rdNext then FCGI_HEADER_LEN - |header|
                   else buffStop - rdNext;
      ghost var u := From(rdNext);
      more := header + buff[rdNext..rdNext + count];
      rdNext := rdNext + count;
      assert u == buff[rdNext - count..rdNext] + From(rdNext);
    }

    /** The input ended in the middle of something: an error. */
    method FailAtEnd(code: int, ghost header: bytes)
      requires Scanning() && From(rdNext) == [] && code != 0
      requires |header| < FCGI_HEADER_LEN && (header != [] ==> !eorStop && contentLen == 0 && paddingLen == 0)
      modifies this`errno, this`isClosed
      ensures Valid() && isClosed && errno == code && Future() == old(Scan(header))
      ensures old(Scan(header)).data == [] && !old(Scan(header)).end.Began?
    {
      if header == [] {
        assert header + From(rdNext) == [];
      } else {
        assert header + From(rdNext) == header;
        AheadAtBoundary(Expecting(), header, skip);
      }
      SetError(code);
    }

    /** Confined reading stops after the padding of its record. */
    method StopAtRecordEnd()
      requires Scanning() && eorStop && contentLen == 0 && paddingLen == 0
      modifies this`stop, this`isClosed
      ensures Valid() && isClosed && stop == rdNext
      ensures Future() == old(AtEnd()) && Future().data == [] && !Future().end.Began?
    {
      stop := rdNext;
      isClosed := true;
    }

    /** The stream stands after the body of the record that began the request. */
    ghost predicate AtNewRequest(was: Outcome)
      requires rdNext <= buffStop <= buff.Length
      reads this, buff, req
    {
      && rdNext == stop && contentLen == 0 && !eorStop && !skip && req.isBeginProcessed
      && was.data == [] && was.end.Began? && was.end == Began(req.requestId, was.end.body, paddingLen, From(rdNext))
      && |was.end.body| == BEGIN_BODY_LEN
      && req.role == (was.end.body[0] as int) * 0x100 + was.end.body[1] as int
      && req.keepConnection == (was.end.body[2] % 2 == 1)
    }

    /** Outcomes of FillBuffProc: something to deliver, a closed stream, or a new request. */
    twostate predicate Filled(was: Outcome)
      requires Valid()
      reads this, buff, req
    {
      if isClosed then
        was.data == [] && !was.end.Began? && Future() == was
        && req.isBeginProcessed == old(req.isBeginProcessed)
      else if rdNext < stop then
        was.data != [] && Future() == was && req.isBeginProcessed == old(req.isBeginProcessed)
      else AtNewRequest(was) && !old(req.isBeginProcessed)
    }

    twostate predicate SameConfiguration()
      reads this, req
    {
      rtype == old(rtype) && eorStop == old(eorStop)
      && (eorStop ==> req.answers == old(req.answers))
      && (old(req.isBeginProcessed) || eorStop ==>
            req.requestId == old(req.requestId) && req.isBeginProcessed == old(req.isBeginProcessed))
    }

    /** `taken` bytes into the content of a record that confined reading found at `place`. */
    ghost predicate InPlace(place: Place, taken: nat)
      requires Valid() && !isClosed
      reads this, buff, req
    {
      && taken <= |place.u| && From(rdNext) == place.u[taken..]
      && taken + (stop - rdNext) + contentLen == place.content
      && paddingLen == place.padding && skip == place.skip
    }

    ghost function Here(): Place
      requires Valid() && !isClosed
      reads this, buff, req
    {
      Place(From(rdNext), stop - rdNext + contentLen, paddingLen, skip)
    }

    lemma HereIsInPlace()
      requires Valid() && !isClosed
      ensures InPlace(Here(), 0)
    {
    }

    method FillBuffProc()
      requires Valid() && !isClosed && rdNext == stop
      modifies this, buff, req
      ensures Valid() && SameConfiguration() && Filled(old(Future()))
      ensures isClosed || rdNext < stop || !old(req.isBeginProcessed)
      ensures eorStop && !isClosed ==> rdNext < stop && Here() == old(Here())
      decreases if eorStop then 0 else 1, 1
    {
      hide Headers, InRecord, Ahead, Future, AtNewRequest;
      ghost var was := Future();
      var header: bytes := [];
      ScanIsFuture();
      while true
        invariant Scanning() && SameConfiguration()
        invariant |header| < FCGI_HEADER_LEN && (header != [] ==> !eorStop && contentLen == 0 && paddingLen == 0)
        invariant Scan(header) == was
        invariant req.isBeginProcessed == old(req.isBeginProcessed) && req.requestId == old(req.requestId)
        invariant eorStop && contentLen != 0 && !skip ==>
                    (From(rdNext) == old(From(rdNext)) && contentLen == old(contentLen)
                     && paddingLen == old(paddingLen) && skip == old(skip))
        decreases |From(rdNext)|
      {
        var progress := PassRecord(header, was);
        match progress {
          case Returned => return;
          case Again =>
          case AtHeader =>
            var done;
            header, done := NextHeader(header, was);
            if done {
              return;
            }
        }
      }
    }

    /** The first part of the loop: fill the buffer, deliver or pass what is left of the current record. */
    method PassRecord(header: bytes, ghost was: Outcome) returns (progress: Progress)
      requires Scanning() && Scan(header) == was
      requires |header| < FCGI_HEADER_LEN && (header != [] ==> !eorStop && contentLen == 0 && paddingLen == 0)
      modifies this`contentLen, this`paddingLen, this`rdNext, this`skip, this`stop, this`buffStop, this`errno,
               this`isClosed, buff, req`rest
      ensures progress.Returned? ==>
                && Valid() && Filled(was) && (isClosed || rdNext < stop) && (errno == 0 || errno == EndCode())
                && (!isClosed ==> && From(rdNext) == old(From(rdNext)) && stop - rdNext + contentLen == old(contentLen)
                                  && paddingLen == old(paddingLen) && skip == old(skip) && !skip && 0 < old(contentLen))
      ensures progress.Again? ==>
                && Scanning() && Scan(header) == was && header == [] && (contentLen == 0 || skip)
                && |From(rdNext)| < |old(From(rdNext))|
      ensures progress.AtHeader? ==>
                && Scanning() && Scan(header) == was && !eorStop && contentLen == 0 && paddingLen == 0
                && |From(rdNext)| <= |old(From(rdNext))|
                && (|From(rdNext)| == |old(From(rdNext))| ==> rdNext < buffStop)
    {
      hide Headers, InRecord, Ahead;
      var code := Refill();
      if code != 0 {
        FailAtEnd(code, header);
        return Returned;
      }
      var delivered, again := ConsumeRecord();
      if delivered {
        return Returned;
      }
      if again {
        return Again;
      }
      if eorStop {
        StopAtRecordEnd();
        return Returned;
      }
      if header == [] {
        AtBoundary();
      }
      progress := AtHeader;
    }

    lemma ScanIsFuture()
      requires Valid() && !isClosed && rdNext == stop
      ensures Scan([]) == Future()
    {
      assert buff[rdNext..stop] == [] && [] + From(rdNext) == From(rdNext);
    }

    /** The last part of the loop: collect the header and, once it is complete, interpret it. */
    method NextHeader(header: bytes, ghost was: Outcome) returns (left: bytes, done: bool)
      requires Scanning() && !eorStop && contentLen == 0 && paddingLen == 0
      requires |header| < FCGI_HEADER_LEN && Scan(header) == was
      modifies this, buff, req
      ensures SameConfiguration() && |left| < FCGI_HEADER_LEN
      ensures done ==> Valid() && Filled(was) && (isClosed || rdNext < stop || !old(req.isBeginProcessed))
      ensures !done ==> && Scanning() && Scan(left) == was && (left != [] ==> contentLen == 0 && paddingLen == 0)
                        && |From(rdNext)| <= |old(From(rdNext))|
                        && (old(rdNext < buffStop) ==> |From(rdNext)| < |old(From(rdNext))|)
                        && req.isBeginProcessed == old(req.isBeginProcessed) && req.requestId == old(req.requestId)
      decreases 1, 0, 1
    {
      hide Headers, InRecord, Ahead;
      left := CollectHeader(header);
      done := false;
      if |left| == FCGI_HEADER_LEN {
        done := InterpretHeader(left, was);
        left := [];
      }
    }

    /** The header was interpreted and the record it announces is untouched. */
    ghost predicate AtContent(h: bytes, x: Expect, u: bytes, skip0: bool)
      requires |h| == FCGI_HEADER_LEN
      reads this`rdNext, this`stop, this`buffStop, this`errno, this`contentLen, this`paddingLen, this`skip,
            this`rtype, buff, req
    {
      && 0 < buff.Length && rdNext == stop <= buffStop <= buff.Length && errno == 0
      && From(rdNext) == u && Expecting() == x
      && contentLen == ContentLengthOf(h) && paddingLen == h[6] && skip == skip0
    }

    /** What ProcessHeader leaves behind, by the status it returns. */
    ghost predicate Processed(h: bytes, x: Expect, u: bytes, skip0: bool, status: Status)
      requires |h| == FCGI_HEADER_LEN
      reads this`rdNext, this`stop, this`buffStop, this`errno, this`contentLen, this`paddingLen, this`skip,
            this`rtype, buff, req
    {
      match status
      case Error(code) =>
        && code != 0 && 0 < buff.Length && rdNext <= buffStop <= buff.Length
        && AfterHeader(x, h, u, skip0) == Outcome([], Failed)
      case StreamRecord => AtContent(h, x, u, skip0) && Classify(x, h) == OwnStream
      case Skip => AtContent(h, x, u, skip0) && Classify(x, h) == Skipped
      case MgmtRecord =>
        || (AtContent(h, x, u, skip0) && Classify(x, h) == UnknownManagement)
        || (&& 0 < buff.Length && rdNext <= buffStop <= buff.Length && errno == 0 && Expecting() == x
            && contentLen == 0 && paddingLen == 0 && |From(rdNext)| <= |u|
            && AfterHeader(x, h, u, skip0) == Headers(x, From(rdNext), skip))
      case BeginRecord =>
        && 0 < buff.Length && rdNext == stop <= buffStop <= buff.Length && errno == 0
        && contentLen == 0 && paddingLen == h[6] && !skip && req.isBeginProcessed && !x.begun
        && BEGIN_BODY_LEN <= |u|
        && AfterHeader(x, h, u, skip0)
           == Outcome([], Began(req.requestId, u[..BEGIN_BODY_LEN], paddingLen, From(rdNext)))
        && req.role == (u[0] as int) * 0x100 + u[1] as int && req.keepConnection == (u[2] % 2 == 1)
    }

    /** The second half of the loop of FillBuffProc. */
    method InterpretHeader(header: bytes, ghost was: Outcome) returns (done: bool)
      requires Scanning() && !eorStop && contentLen == 0 && paddingLen == 0
      requires |header| == FCGI_HEADER_LEN && Scan(header) == was
      modifies this, buff, req
      ensures SameConfiguration()
      ensures done ==> Valid() && Filled(was) && (isClosed || rdNext < stop || !old(req.isBeginProcessed))
      ensures !done ==> Scanning() && Scan([]) == was && |From(rdNext)| <= |old(From(rdNext))|
                        && req.isBeginProcessed == old(req.isBeginProcessed) && req.requestId == old(req.requestId)
      decreases 1, 0, 0
    {
      hide Ahead, Headers, InRecord, AfterHeader, Classify, Future, Processed, AtNewRequest;
      ghost var x, u, skip0 := Expecting(), From(rdNext), skip;
      AheadAtBoundary(x, header + u, skip0);
      HeadersStep(x, header, u, skip0);
      eorStop := true;
      stop := rdNext;
      var status := ProcessHeader(header);
      eorStop := false;
      isClosed := false;
      if status.BeginRecord? {
        NewRequestProcessed(header, x, u, skip0);
        return true;
      }
      done := Dispatch(status, header, x, u, skip0);
    }

    lemma NewRequestProcessed(h: bytes, x: Expect, u: bytes, skip0: bool)
      requires |h| == FCGI_HEADER_LEN && Processed(h, x, u, skip0, BeginRecord) && !isClosed && !eorStop
      ensures Valid() && rdNext == stop && !x.begun && AtNewRequest(AfterHeader(x, h, u, skip0))
    {
      hide AfterHeader;
    }

    /** The switch on the status, but for a new request. */
    method Dispatch(status: Status, ghost h: bytes, ghost x: Expect, ghost u: bytes, ghost skip0: bool)
      returns (done: bool)
      requires |h| == FCGI_HEADER_LEN && !status.BeginRecord? && Processed(h, x, u, skip0, status)
      requires !eorStop && !isClosed
      modifies this`stop, this`isClosed, this`errno, this`skip
      ensures var was := AfterHeader(x, h, u, skip0);
              if done then Valid() && isClosed && Future() == was && was.data == [] && !was.end.Began?
              else Scanning() && Scan([]) == was && |From(rdNext)| <= |u| && Expecting() == x
      ensures status.Error? ==> errno == if old(errno) == 0 then status.code else old(errno)
    {
      hide Ahead, Headers, InRecord, AfterHeader, Classify, Future;
      AfterHeaderCases(x, h, u, skip0);
      AheadAtBoundary(x, From(rdNext), skip);
      TakenNothing(From(rdNext));
      done := false;
      match status {
        case StreamRecord =>
          if contentLen == 0 {
            MarkEof();
            return true;
          }
        case Skip =>
          skip := true;
        case MgmtRecord =>
        case Error(code) =>
          MarkError(code);
          return true;
      }
    }

    method MarkEof()
      requires 0 < buff.Length && rdNext <= buffStop <= buff.Length && errno == 0 && contentLen == 0 && !eorStop
      modifies this`stop, this`isClosed
      ensures Valid() && isClosed && stop == rdNext && Future() == Outcome([], Eof(From(rdNext), skip))
    {
      stop := rdNext;
      isClosed := true;
    }

    method MarkError(code: int)
      requires 0 < buff.Length && rdNext <= buffStop <= buff.Length && code != 0
      modifies this`errno, this`isClosed
      ensures Valid() && isClosed && Future() == Outcome([], Failed)
      ensures errno == if old(errno) == 0 then code else old(errno)
    {
      SetError(code);
    }

    method ProcessHeader(header: bytes) returns (status: Status)
      requires Valid() && !isClosed && eorStop && rdNext == stop && |header| == FCGI_HEADER_LEN
      modifies this, buff, req
      ensures rtype == old(rtype) && eorStop == old(eorStop)
      ensures Processed(header, old(Expecting()), old(From(rdNext)), old(skip), status)
      ensures !status.BeginRecord? ==> req.isBeginProcessed == old(req.isBeginProcessed)
      ensures !status.BeginRecord? && old(req.isBeginProcessed) ==> req.requestId == old(req.requestId)
      ensures req.answers == old(req.answers) + AnswersTo(old(Expecting()), header)
      ensures status.Error? ==> status.code == if header[0] == 1 then -3 else -2
      decreases 0, 12
    {
      if header[0] != FCGI_VERSION_1 {
        return Error(FCGX_UNSUPPORTED_VERSION);
      }
      var requestId := RequestIdOf(header);
      contentLen := ContentLengthOf(header);
      paddingLen := header[6];
      if header[1] == FCGI_BEGIN_REQUEST {
        status := ProcessBeginRecord(requestId, header, old(Expecting()));
        return;
      }
      if requestId == FCGI_NULL_REQUEST_ID {
        status := ProcessManagementRecord(header[1], header, old(Expecting()));
        return;
      }
      if requestId != req.requestId {
        return Skip;
      }
      if header[1] != rtype {
        return Error(FCGX_PROTOCOL_ERROR);
      }
      status := StreamRecord;
    }

    method ProcessBeginRecord(requestId: RequestId, ghost h: bytes, ghost x: Expect) returns (status: Status)
      requires Valid() && !isClosed && eorStop && |h| == FCGI_HEADER_LEN
      requires h[0] == FCGI_VERSION_1 && h[1] == FCGI_BEGIN_REQUEST && requestId == RequestIdOf(h)
      requires AtContent(h, x, From(rdNext), skip)
      modifies this, buff, req
      ensures rtype == old(rtype) && eorStop == old(eorStop)
      ensures Processed(h, x, old(From(rdNext)), old(skip), status)
      ensures !status.BeginRecord? ==> req.isBeginProcessed == old(req.isBeginProcessed)
      ensures !status.BeginRecord? && old(req.isBeginProcessed) ==> req.requestId == old(req.requestId)
      ensures req.answers == old(req.answers) + AnswersTo(x, h)
      ensures status.Error? ==> status.code == FCGX_PROTOCOL_ERROR
      decreases 0, 9
    {
      hide AfterHeader, Classify, Valid;
      NewRequestCases(x, h, From(rdNext), skip);
      if requestId == 0 || contentLen != BEGIN_BODY_LEN {
        return Error(FCGX_PROTOCOL_ERROR);
      }
      if req.isBeginProcessed {
        req.answers := req.answers + [CannotMultiplex(requestId)];
        return Skip;
      }
      req.requestId := requestId;
      var body := ReadBeginBody();
      if |body| != BEGIN_BODY_LEN {
        return Error(FCGX_PROTOCOL_ERROR);
      }
      req.keepConnection := body[2] % 2 == 1;
      req.role := (body[0] as int) * 0x100 + body[1] as int;
      req.isBeginProcessed := true;
      status := BeginRecord;
    }

    /** The body of a record that begins a request: all of its content, if it is there and not skipped. */
    method ReadBeginBody() returns (body: bytes)
      requires Valid() && !isClosed && eorStop && rdNext == stop && contentLen == BEGIN_BODY_LEN && errno == 0
      modifies this, buff, req
      ensures Valid() && SameConfiguration()
      ensures var u := old(From(rdNext));
              if old(skip) || |u| < BEGIN_BODY_LEN then |body| != BEGIN_BODY_LEN
              else
                && body == u[..BEGIN_BODY_LEN] && |body| == BEGIN_BODY_LEN
                && From(rdNext) == u[BEGIN_BODY_LEN..] && rdNext == stop
                && contentLen == 0 && paddingLen == old(paddingLen) && !skip && errno == 0 && !isClosed
      decreases 0, 8
    {
      ghost var u := From(rdNext);
      assert buff[rdNext..stop] == [];
      body := GetStr(BEGIN_BODY_LEN);
    }

    /** FCGI_GET_VALUES is read as parameters; other management records are answered unread. */
    method ProcessManagementRecord(htype: byte, ghost h: bytes, ghost x: Expect) returns (status: Status)
      requires Valid() && !isClosed && eorStop && |h| == FCGI_HEADER_LEN
      requires h[0] == FCGI_VERSION_1 && htype == h[1] != FCGI_BEGIN_REQUEST && RequestIdOf(h) == FCGI_NULL_REQUEST_ID
      requires AtContent(h, x, From(rdNext), skip)
      modifies this, buff, req
      ensures rtype == old(rtype) && eorStop == old(eorStop)
      ensures Processed(h, x, old(From(rdNext)), old(skip), status)
      ensures req.requestId == old(req.requestId) && req.isBeginProcessed == old(req.isBeginProcessed)
      ensures req.answers == old(req.answers) + AnswersTo(x, h)
      ensures status.Error? ==> status.code == FCGX_PROTOCOL_ERROR
      decreases 0, 11, 1
    {
      if htype == FCGI_GET_VALUES {
        status := ProcessGetValues(h, x);
      } else {
        req.answers := req.answers + [UnknownType(htype)];
        status := MgmtRecord;
      }
    }

    method ProcessGetValues(ghost h: bytes, ghost x: Expect) returns (status: Status)
      requires Valid() && !isClosed && eorStop && |h| == FCGI_HEADER_LEN && Classify(x, h) == GetValues
      requires AtContent(h, x, From(rdNext), skip)
      modifies this, buff, req
      ensures rtype == old(rtype) && eorStop == old(eorStop)
      ensures Processed(h, x, old(From(rdNext)), old(skip), status) && !status.BeginRecord?
      ensures req.requestId == old(req.requestId) && req.isBeginProcessed == old(req.isBeginProcessed)
      ensures req.answers == old(req.answers)
      ensures status.Error? ==> status.code == FCGX_PROTOCOL_ERROR
      decreases 0, 11, 0
    {
      hide Headers, InRecord, AfterHeader, Classify, Ahead, ParseParams;
      ghost var u := From(rdNext);
      GetValuesCase(x, h, u, skip);
      assert Future() == InRecord(u, ContentLengthOf(h), h[6], skip) by {
        assert buff[rdNext..stop] == [];
        assert Future().data == [] + InRecord(u, ContentLengthOf(h), h[6], skip).data;
      }
      var params := new Params(3);
      var _ := ReadParams(params);
      InRecordShrinks(u, ContentLengthOf(h), h[6], old(skip));
      if errno != 0 || contentLen != 0 {
        return Error(FCGX_PROTOCOL_ERROR);
      }
      status := MgmtRecord;
    }

    /** Hand out `m` of the bytes that are available. */
    method Take(m: nat) returns (str: bytes)
      requires Valid() && !isClosed && m <= stop - rdNext
      modifies this`rdNext
      ensures Valid() && |str| == m
      ensures old(Future()) == Prepend(str, Future())
      ensures From(rdNext) == old(From(rdNext))[m..] && rdNext == old(rdNext) + m
    {
      hide Ahead, InRecord;
      str := buff[rdNext..rdNext + m];
      assert buff[rdNext..stop] == str + buff[rdNext + m..stop];
      rdNext := rdNext + m;
    }

    method GetChar() returns (c: int)
      requires Valid() && (req.isBeginProcessed || eorStop)
      modifies this, buff, req
      ensures Valid() && SameConfiguration()
      ensures var was := old(Future());
              if was.data == [] then c == -1 && isClosed && Future() == was
              else c == was.data[0] && !isClosed && Future() == Outcome(was.data[1..], was.end)
      decreases if eorStop then 0 else 1, 5
    {
      hide Coming;
      if isClosed {
        return EOF;
      }
      if rdNext == stop {
        FillBuffProc();
        if isClosed {
          return EOF;
        }
      }
      assert Future().data[0] == buff[rdNext];
      var str := Take(1);
      c := str[0];
    }

    /** Up to `n` bytes; fewer only at the end of the stream. */
    method GetStr(n: nat) returns (str: bytes)
      requires Valid() && (req.isBeginProcessed || eorStop)
      modifies this, buff, req
      ensures Valid() && SameConfiguration()
      ensures var was := old(Future());
              var k := if n <= |was.data| then n else |was.data|;
              && str == was.data[..k] && Future() == Outcome(was.data[k..], was.end)
              && (k < n ==> isClosed)
      ensures old(!isClosed) && |str| == n ==> !isClosed && (eorStop ==> InPlace(old(Here()), n))
      decreases if eorStop then 0 else 1, 6
    {
      hide Future, Coming, InPlace, Here, From;
      str := [];
      if isClosed {
        ClosedIsEmpty();
        return;
      }
      ghost var was, place := Future(), Here();
      HereIsInPlace();
      if n == 0 {
        return;
      }
      while true
        invariant Valid() && SameConfiguration() && !isClosed && (req.isBeginProcessed || eorStop)
        invariant |str| < n && was.data == str + Future().data
        invariant Future().end == was.end
        invariant eorStop ==> InPlace(place, |str|)
        decreases n - |str|, rdNext == stop
      {
        if rdNext != stop {
          var m := if n - |str| < stop - rdNext then n - |str| else stop - rdNext;
          var more := TakeInPlace(m, place, |str|);
          str := str + more;
          if |str| == n {
            Delivered(Future(), was, str, n);
            return;
          }
        }
        FillInPlace(place, |str|);
        if isClosed {
          ClosedIsEmpty();
          Delivered(Future(), was, str, n);
          return;
        }
      }
    }

    method TakeInPlace(m: nat, ghost place: Place, ghost taken: nat) returns (str: bytes)
      requires Valid() && !isClosed && m <= stop - rdNext && (eorStop ==> InPlace(place, taken))
      modifies this`rdNext
      ensures Valid() && |str| == m && rdNext == old(rdNext) + m
      ensures old(Future()) == Prepend(str, Future())
      ensures eorStop ==> InPlace(place, taken + m)
    {
      hide Future, Coming;
      if eorStop {
        assert m <= |From(rdNext)|;
        TakenMore(place.u, taken, m);
      }
      str := Take(m);
    }

    method FillInPlace(ghost place: Place, ghost taken: nat)
      requires Valid() && !isClosed && rdNext == stop && (req.isBeginProcessed || eorStop)
      requires eorStop ==> InPlace(place, taken)
      modifies this, buff, req
      ensures Valid() && SameConfiguration() && (req.isBeginProcessed || eorStop) && (isClosed || rdNext < stop)
      ensures Future() == old(Future()) && (isClosed ==> old(Future()).data == [])
      ensures eorStop && !isClosed ==> InPlace(place, taken)
      decreases if eorStop then 0 else 1, 2
    {
      hide Future, Coming;
      FillBuffProc();
    }

    lemma ClosedIsEmpty()
      requires Valid() && isClosed
      ensures Future().data == []
    {
    }

    /** A length whose first byte has been read; -1 when the other three are missing. */
    method ReadLengthAfter(first: byte) returns (length: int)
      requires Valid() && (req.isBeginProcessed || eorStop)
      modifies this, buff, req
      ensures Valid() && SameConfiguration()
      ensures var was := old(Future());
              var d := [first] + was.data;
              match ReadLength(d)
              case None => length == -1 && Future().end == was.end
              case Some((n, used)) =>
                && length == n
                && Future() == Outcome(d[used..], was.end)
      decreases if eorStop then 0 else 1, 7
    {
      ghost var was := Future();
      ghost var d := [first] + was.data;
      length := first;
      if first >= 0x80 {
        var lenBuff := GetStr(3);
        if |lenBuff| != 3 {
          return -1;
        }
        length := ((first as int) - 0x80) * 0x1000000 + (lenBuff[0] as int) * 0x10000
                  + (lenBuff[1] as int) * 0x100 + lenBuff[2] as int;
        assert lenBuff == d[1..4] && d[4..] == was.data[3..];
      } else {
        assert d[1..] == was.data;
      }
    }

    /** Both lengths of a pair whose first byte has been read. */
    method ReadBothLengths(first: byte) returns (ok: bool, nameLen: int, valueLen: int)
      requires Valid() && (req.isBeginProcessed || eorStop)
      modifies this, buff, req
      ensures Valid() && SameConfiguration()
      ensures var was := old(Future());
              var d := [first] + was.data;
              match ReadLengths(d)
              case None => !ok && Future().end == was.end
              case Some((n, v, used)) =>
                ok && nameLen == n && valueLen == v && Future() == Outcome(d[used..], was.end)
      decreases if eorStop then 0 else 1, 8
    {
      hide ReadLength, Future, InPlace, Valid;
      ok, valueLen := false, 0;
      ghost var was := Future();
      ghost var d := [first] + was.data;
      nameLen := ReadLengthAfter(first);
      if nameLen < 0 {
        return;
      }
      ghost var d1 := Future().data;
      var c := GetChar();
      if c == EOF {
        return;
      }
      assert d1 == [c] + Future().data;
      valueLen := ReadLengthAfter(c);
      ok := valueLen >= 0;
    }

    /** The rest of a pair whose first byte has been read. */
    method ReadPair(first: byte) returns (ok: bool, nameValue: bytes)
      requires Valid() && (req.isBeginProcessed || eorStop)
      modifies this, buff, req
      ensures Valid() && SameConfiguration()
      ensures var was := old(Future());
              var d := [first] + was.data;
              match ReadLengths(d)
              case None => !ok && Future().end == was.end
              case Some((nameLen, valueLen, used)) =>
                var value, end := used + nameLen, used + nameLen + valueLen;
                if |d| < end then !ok && Future().end == was.end
                else
                  && ok && nameValue == d[used..value] + [EQUALS] + d[value..end]
                  && Future() == Outcome(d[end..], was.end)
      decreases if eorStop then 0 else 1, 9
    {
      hide ReadLengths, Future, InPlace, Valid;
      nameValue := [];
      var nameLen, valueLen;
      ok, nameLen, valueLen := ReadBothLengths(first);
      if !ok {
        return;
      }
      ghost var d2 := Future().data;
      ghost var d := [first] + old(Future()).data;
      if nameLen + valueLen <= |d2| {
        PairSlices(d, |d| - |d2|, nameLen, valueLen);
      }
      ok, nameValue := ReadNameAndValue(nameLen, valueLen);
    }

    /** Name and value of a pair whose lengths have been read. */
    method ReadNameAndValue(nameLen: nat, valueLen: nat) returns (ok: bool, nameValue: bytes)
      requires Valid() && (req.isBeginProcessed || eorStop)
      modifies this, buff, req
      ensures Valid() && SameConfiguration()
      ensures var was := old(Future());
              if |was.data| < nameLen + valueLen then !ok && Future().end == was.end
              else
                && ok && nameValue == was.data[..nameLen] + [EQUALS] + was.data[nameLen..][..valueLen]
                && Future() == Outcome(was.data[nameLen..][valueLen..], was.end)
      decreases if eorStop then 0 else 1, 7
    {
      hide Future, InPlace, Valid;
      ok, nameValue := false, [];
      var name := GetStr(nameLen);
      if |name| != nameLen {
        return;
      }
      var value := GetStr(valueLen);
      if |value| != valueLen {
        return;
      }
      ok, nameValue := true, name + [EQUALS] + value;
    }

    method FailParams()
      requires Valid()
      modifies this`errno, this`isClosed
      ensures Valid() && errno != 0 && (old(Future()).end.Eof? ==> errno == -4)
    {
      SetError(FCGX_PARAMS_ERROR);
    }

    /** ReadParams: every pair up to the end of the stream becomes an entry of the vector. */
    method ReadParams(params: Params) returns (r: int)
      requires Valid() && params.Valid() && (req.isBeginProcessed || eorStop)
      modifies this, buff, req, params, params.vec
      ensures Valid() && SameConfiguration() && params.Valid() && (params.vec == old(params.vec) || fresh(params.vec))
      ensures var was := old(Future());
              var parsed := ParseParams(was.data);
              && params.Contents() == old(params.Contents()) + parsed.entries
              && r == (if parsed.complete then 0 else -1)
              && (if parsed.complete then isClosed && Future() == Outcome([], was.end)
                  else errno != 0 && (was.end.Eof? ==> errno == -4))
      decreases if eorStop then 0 else 1, 10
    {
      hide ReadLengths, Future, InPlace, ParseParams, Valid, Params.Valid, Params.Contents;
      ghost var was := Future();
      ghost var entries := ParseParams(was.data).entries;
      while true
        invariant Valid() && SameConfiguration() && params.Valid() && (req.isBeginProcessed || eorStop)
        invariant params.vec == old(params.vec) || fresh(params.vec)
        invariant Future().end == was.end
        invariant ParseParams(was.data).complete == ParseParams(Future().data).complete
        invariant old(params.Contents()) + entries == params.Contents() + ParseParams(Future().data).entries
        decreases |Future().data|
      {
        ghost var d := Future().data;
        ParseStep(d);
        var nameLen := GetChar();
        if nameLen == EOF {
          return 0;
        }
        assert d != [];
        assert d == [nameLen] + Future().data;
        var ok, nameValue := ReadPair(nameLen);
        if !ok {
          FailParams();
          return -1;
        }
        ghost var contents := params.Contents();
        params.PutParam(nameValue);
        assert contents + ([nameValue] + ParseParams(Future().data).entries)
            == contents + [nameValue] + ParseParams(Future().data).entries;
      }
    }

    /**
     * SetReaderType: read another stream of the same request from where this one stands, at a record
     * boundary whatever padding was pending, and open again even after an error, which stays recorded.
     */
    method SetReaderType(streamType: byte)
      requires Valid()
      modifies this
      ensures rtype == streamType && !isClosed && !eorStop && !skip && contentLen == 0 && paddingLen == 0
      ensures rdNext == stop == old(rdNext) && buffStop == old(buffStop) && errno == old(errno)
      ensures errno == 0 ==> Valid() && Future() == Headers(Expecting(), From(rdNext), false)
    {
      hide Ahead, Headers;
      rtype := streamType;
      eorStop, skip, contentLen, paddingLen := false, false, 0, 0;
      stop := rdNext;
      isClosed := false;
      if errno == 0 {
        FreshFuture();
      }
    }

    lemma FreshFuture()
      requires Valid() && !isClosed && !eorStop && rdNext == stop && contentLen == 0 && paddingLen == 0 && !skip
      ensures Future() == Headers(Expecting(), From(rdNext), false)
    {
      hide Ahead, Headers;
      AheadAtBoundary(Expecting(), From(rdNext), false);
      assert buff[rdNext..stop] == [];
      assert [] + Headers(Expecting(), From(rdNext), false).data == Headers(Expecting(), From(rdNext), false).data;
    }

    /** The parameters of an accepted request, after which the stream is opened to read FCGI_STDIN. */
    method ReadEnvironment(params: Params) returns (r: int)
      requires Valid() && errno == 0 && params.Valid() && req.isBeginProcessed && !eorStop
      modifies this, buff, req, params, params.vec
      ensures params.Valid() && (params.vec == old(params.vec) || fresh(params.vec))
      ensures var environment := Headers(Expect(FCGI_PARAMS, old(req.requestId), true), old(From(rdNext)), false);
              var parsed := ParseParams(environment.data);
              && params.Contents() == old(params.Contents()) + parsed.entries
              && r == (if parsed.complete then 0 else -1)
              && (r == 0 ==>
                    !isClosed
                    && match environment.end
                       case Eof(rest, _) =>
                         && Valid() && errno == 0
                         && Future() == Headers(Expect(FCGI_STDIN, old(req.requestId), true), rest, false)
                       case _ =>
                         && errno != 0 && rtype == FCGI_STDIN && rdNext == stop
                         && contentLen == 0 && paddingLen == 0 && !skip && !eorStop)
    {
      hide Headers, Ahead, ParseParams, Coming;
      SetReaderType(FCGI_PARAMS);
      ghost var environment := Future();
      NeverBeginsAtHeader(Expecting(), From(rdNext), false);
      r := ReadParams(params);
      if r == 0 {
        assert environment.end.Eof? ==> environment.end == Eof(From(rdNext), skip);
        SetReaderType(FCGI_STDIN);
      }
    }
  }

  /** The FCGI_ROLE entry that heads the environment; None for a role the library does not know. */
  function RoleEntry(role: nat): Option<bytes> {
    match role
    case 1 => Some([70, 67, 71, 73, 95, 82, 79, 76, 69, 61, 82, 69, 83, 80, 79, 78, 68, 69, 82])
    case 2 => Some([70, 67, 71, 73, 95, 82, 79, 76, 69, 61, 65, 85, 84, 72, 79, 82, 73, 90, 69, 82])
    case 3 => Some([70, 67, 71, 73, 95, 82, 79, 76, 69, 61, 70, 73, 76, 84, 69, 82])
    case _ => None
  }

  /**
   * What one attempt at a request makes of the bytes on the connection.  It is accepted `Whole`, with its
   * environment and its standard input to come, or, when the parameters break off in an error between two
   * pairs, `CutShort` with those before.
   */
  datatype Acceptance = Refused | CutShort(entries: seq<bytes>) | Whole(entries: seq<bytes>, stdin: Outcome)

  /** The same once the record that begins the request has been read. */
  function AcceptedAs(role: nat, id: RequestId, u: bytes): Acceptance {
    var environment := Headers(Expect(FCGI_PARAMS, id, true), u, false);
    var parsed := ParseParams(environment.data);
    if RoleEntry(role).None? || !parsed.complete then Refused
    else
      var entries := [RoleEntry(role).value] + parsed.entries;
      match environment.end
      case Eof(rest, _) => Whole(entries, Headers(Expect(FCGI_STDIN, id, true), rest, false))
      case _ => CutShort(entries)
  }

  function Accepted(was: RequestId, u: bytes): Acceptance {
    match Headers(Expect(0, was, false), u, false)
    case Outcome(data, Began(id, body, _, rest)) =>
      if data == [] && |body| == BEGIN_BODY_LEN then
        AcceptedAs((body[0] as int) * 0x100 + body[1] as int, id, rest)
      else Refused
    case _ => Refused
  }

  /** The records up to and including the parameters, read by one attempt of FCGX_Accept_r. */
  method AcceptRequest(req: Request) returns (ok: bool, stream: Stream, params: Params)
    requires !req.isBeginProcessed
    modifies req
    ensures fresh(stream) && fresh(stream.buff) && fresh(params) && fresh(params.vec) && stream.req == req
    ensures stream.buff.Length == 8192
    ensures var acceptance := Accepted(old(req.requestId), old(req.rest));
            && ok == !acceptance.Refused?
            && (ok ==> !stream.isClosed && params.Valid() && params.Contents() == acceptance.entries)
            && (acceptance.Whole? ==> stream.Valid() && stream.errno == 0 && stream.Future() == acceptance.stdin)
            && (acceptance.CutShort? ==>
                  && stream.errno != 0 && stream.rtype == FCGI_STDIN && stream.rdNext == stream.stop
                  && stream.contentLen == 0 && stream.paddingLen == 0 && !stream.skip && !stream.eorStop)
  {
    hide Headers, Ahead, ParseParams, RoleEntry, Stream.Future, Stream.Coming, Stream.From;
    ok := false;
    stream := new Stream(req, 8192, 0);
    params := new Params(30);
    stream.FreshFuture();
    stream.FillBuffProc();
    if !req.isBeginProcessed {
      return;
    }
    var entry := RoleEntry(req.role);
    if entry.None? {
      return;
    }
    params.PutParam(entry.value);
    var r := stream.ReadEnvironment(params);
    ok := r >= 0;
  }
}
