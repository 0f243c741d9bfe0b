/**
 * What the reading half of a stream delivers, as a function of the bytes still to come on the connection
 * and of the record it is in: no mention of buffers or of how the bytes arrive.
 */
module FcgiStream {
  import opened Bytes
  import opened FcgiRecords
  import FcgiParams

  const BEGIN_BODY_LEN := 8

  /**
   * How the delivery ends: at the end of the stream, with the bytes that follow it and the skip flag; in
   * an error; or, before a request was accepted, at an FCGI_BEGIN_REQUEST record.
   */
  datatype End =
    | Eof(rest: bytes, skip: bool)
    | Failed
    | Began(id: RequestId, body: bytes, padding: nat, rest: bytes)

  datatype Outcome = Outcome(data: bytes, end: End)

  function Prepend(d: bytes, o: Outcome): Outcome {
    Outcome(d + o.data, o.end)
  }

  /** What the reader is waiting for. */
  datatype Expect = Expect(rtype: byte, id: RequestId, begun: bool)

  datatype Kind = Bad | NewRequest | Skipped | GetValues | UnknownManagement | OwnStream

  /** ProcessHeader and the checks at the top of ProcessBeginRecord. */
  function Classify(x: Expect, h: bytes): Kind
    requires |h| == FCGI_HEADER_LEN
  {
    if h[0] != FCGI_VERSION_1 then Bad
    else if h[1] == FCGI_BEGIN_REQUEST then
      if RequestIdOf(h) == 0 || ContentLengthOf(h) != BEGIN_BODY_LEN then Bad
      else if x.begun then Skipped
      else NewRequest
    else if RequestIdOf(h) == FCGI_NULL_REQUEST_ID then
      if h[1] == FCGI_GET_VALUES then GetValues else UnknownManagement
    else if RequestIdOf(h) != x.id then Skipped
    else if h[1] != x.rtype then Bad
    else OwnStream
  }

  /** The bytes of the current record that will be delivered. */
  function Deliverable(u: bytes, contentLen: nat, skip: bool): bytes {
    if skip then [] else if contentLen <= |u| then u[..contentLen] else u
  }

  /**
   * Reading confined to the current record, as while its header is being processed.  The end of the record
   * is noticed behind skipped content or padding, or else only once there is more to read.
   */
  function InRecord(u: bytes, contentLen: nat, paddingLen: nat, skip: bool): Outcome {
    var size := contentLen + paddingLen;
    Outcome(Deliverable(u, contentLen, skip),
            if |u| < size || (|u| == size && NeedsMore(contentLen, paddingLen, skip)) then Failed
            else Eof(u[size..], skip && contentLen == 0))
  }

  predicate NeedsMore(contentLen: nat, paddingLen: nat, skip: bool) {
    paddingLen == 0 && (contentLen == 0 || !skip)
  }

  /** Reading on from inside a record with `contentLen` bytes of content and `paddingLen` of padding left. */
  function Ahead(x: Expect, u: bytes, contentLen: nat, paddingLen: nat, skip: bool): Outcome
    decreases |u|, 1
  {
    var d := Deliverable(u, contentLen, skip);
    if |u| < contentLen + paddingLen then Outcome(d, Failed)
    else Prepend(d, Headers(x, u[contentLen + paddingLen..], skip && contentLen == 0))
  }

  /** Reading on from the boundary between two records. */
  function Headers(x: Expect, u: bytes, skip: bool): Outcome
    decreases |u|, 0
  {
    if |u| < FCGI_HEADER_LEN then Outcome([], Failed)
    else AfterHeader(x, u[..FCGI_HEADER_LEN], u[FCGI_HEADER_LEN..], skip)
  }

  /** Reading on after a header, `body` being the bytes that follow it. */
  function AfterHeader(x: Expect, h: bytes, body: bytes, skip: bool): Outcome
    requires |h| == FCGI_HEADER_LEN
    decreases |body|, 2
  {
    var contentLen, paddingLen := ContentLengthOf(h), h[6];
    match Classify(x, h)
    case Bad => Outcome([], Failed)
    case NewRequest =>
      if skip || |body| < BEGIN_BODY_LEN then Outcome([], Failed)
      else Outcome([], Began(RequestIdOf(h), body[..BEGIN_BODY_LEN], paddingLen, body[BEGIN_BODY_LEN..]))
    case Skipped => Ahead(x, body, contentLen, paddingLen, true)
    case GetValues =>
      var record := InRecord(body, contentLen, paddingLen, skip);
      if record.end.Eof? && FcgiParams.ParseParams(record.data).complete then
        Headers(x, record.end.rest, record.end.skip)
      else Outcome([], Failed)
    case UnknownManagement => Ahead(x, body, contentLen, paddingLen, skip)
    case OwnStream =>
      if contentLen == 0 then Outcome([], Eof(body, skip)) else Ahead(x, body, contentLen, paddingLen, skip)
  }

  // ---------------------------------------------------------------- reading a part first

  /** Inside a record the delivery can be cut anywhere. */
  lemma AheadCut(x: Expect, u: bytes, contentLen: nat, paddingLen: nat, count: nat)
    requires count <= contentLen && count <= |u|
    ensures Ahead(x, u, contentLen, paddingLen, false)
         == Prepend(u[..count], Ahead(x, u[count..], contentLen - count, paddingLen, false))
    ensures InRecord(u, contentLen, paddingLen, false)
         == Prepend(u[..count], InRecord(u[count..], contentLen - count, paddingLen, false))
  {
    var v := u[count..];
    assert Deliverable(u, contentLen, false) == u[..count] + Deliverable(v, contentLen - count, false);
    if contentLen + paddingLen <= |u| {
      assert u[contentLen + paddingLen..] == v[contentLen - count + paddingLen..];
    }
  }

  lemma AheadSkip(x: Expect, u: bytes, contentLen: nat, paddingLen: nat, count: nat)
    requires count <= contentLen && count <= |u|
    ensures var skip := count < contentLen || contentLen == 0;
            && Ahead(x, u, contentLen, paddingLen, true) == Ahead(x, u[count..], contentLen - count, paddingLen, skip)
            && InRecord(u, contentLen, paddingLen, true)
               == (if 0 < contentLen == count && paddingLen == 0 then Outcome([], Eof(u[count..], false))
                   else InRecord(u[count..], contentLen - count, paddingLen, skip))
  {
    var v := u[count..];
    if contentLen + paddingLen <= |u| {
      assert u[contentLen + paddingLen..] == v[contentLen - count + paddingLen..];
    }
  }

  lemma AheadPad(x: Expect, u: bytes, paddingLen: nat, skip: bool, count: nat)
    requires count <= paddingLen && count <= |u|
    ensures Ahead(x, u, 0, paddingLen, skip) == Ahead(x, u[count..], 0, paddingLen - count, skip)
    ensures InRecord(u, 0, paddingLen, skip)
         == (if 0 < paddingLen == count then Outcome([], Eof(u[count..], skip))
             else InRecord(u[count..], 0, paddingLen - count, skip))
  {
    var v := u[count..];
    if paddingLen <= |u| {
      assert u[paddingLen..] == v[paddingLen - count..];
    }
  }

  lemma HeadersStep(x: Expect, h: bytes, body: bytes, skip: bool)
    requires |h| == FCGI_HEADER_LEN
    ensures Headers(x, h + body, skip) == AfterHeader(x, h, body, skip)
  {
    assert (h + body)[..FCGI_HEADER_LEN] == h && (h + body)[FCGI_HEADER_LEN..] == body;
  }

  lemma AfterHeaderCases(x: Expect, h: bytes, body: bytes, skip: bool)
    requires |h| == FCGI_HEADER_LEN
    ensures var contentLen, paddingLen, kind := ContentLengthOf(h), h[6], Classify(x, h);
            && (kind == Skipped ==> AfterHeader(x, h, body, skip) == Ahead(x, body, contentLen, paddingLen, true))
            && (kind == UnknownManagement ==>
                  AfterHeader(x, h, body, skip) == Ahead(x, body, contentLen, paddingLen, skip))
            && (kind == OwnStream ==>
                  AfterHeader(x, h, body, skip)
                  == if contentLen == 0 then Outcome([], Eof(body, skip))
                     else Ahead(x, body, contentLen, paddingLen, skip))
  {
  }

  lemma NewRequestCases(x: Expect, h: bytes, body: bytes, skip: bool)
    requires |h| == FCGI_HEADER_LEN && h[0] == FCGI_VERSION_1 && h[1] == FCGI_BEGIN_REQUEST
    ensures var bad := RequestIdOf(h) == 0 || ContentLengthOf(h) != BEGIN_BODY_LEN;
            && (bad ==> Classify(x, h) == Bad && AfterHeader(x, h, body, skip) == Outcome([], Failed))
            && (!bad ==> Classify(x, h) == if x.begun then Skipped else NewRequest)
            && (!bad && !x.begun ==>
                  AfterHeader(x, h, body, skip)
                  == if skip || |body| < BEGIN_BODY_LEN then Outcome([], Failed)
                     else Outcome([], Began(RequestIdOf(h), body[..BEGIN_BODY_LEN], h[6], body[BEGIN_BODY_LEN..])))
  {
  }

  lemma InRecordShrinks(u: bytes, contentLen: nat, paddingLen: nat, skip: bool)
    ensures var o := InRecord(u, contentLen, paddingLen, skip);
            o.end.Eof? ==> |o.end.rest| <= |u|
  {
  }

  lemma GetValuesCase(x: Expect, h: bytes, body: bytes, skip: bool)
    requires |h| == FCGI_HEADER_LEN && Classify(x, h) == GetValues
    ensures var record := InRecord(body, ContentLengthOf(h), h[6], skip);
            AfterHeader(x, h, body, skip)
               == (if record.end.Eof? && FcgiParams.ParseParams(record.data).complete then
                     Headers(x, record.end.rest, record.end.skip)
                   else Outcome([], Failed))
  {
  }

  lemma AheadAtBoundary(x: Expect, u: bytes, skip: bool)
    ensures Ahead(x, u, 0, 0, skip) == Headers(x, u, skip)
    ensures InRecord(u, 0, 0, skip) == Outcome([], if u == [] then Failed else Eof(u, skip))
  {
    assert u[0..] == u;
  }

  /** Once a request is accepted, no further one is. */
  lemma {:induction false} NeverBeginsAgain(x: Expect, u: bytes, contentLen: nat, paddingLen: nat, skip: bool)
    requires x.begun
    ensures !Ahead(x, u, contentLen, paddingLen, skip).end.Began?
    decreases |u|, 1
  {
    if contentLen + paddingLen <= |u| {
      NeverBeginsAtHeader(x, u[contentLen + paddingLen..], skip && contentLen == 0);
    }
  }

  lemma {:induction false} NeverBeginsAtHeader(x: Expect, u: bytes, skip: bool)
    requires x.begun
    ensures !Headers(x, u, skip).end.Began?
    decreases |u|, 0
  {
    if FCGI_HEADER_LEN <= |u| {
      var h, body := u[..FCGI_HEADER_LEN], u[FCGI_HEADER_LEN..];
      var contentLen, paddingLen := ContentLengthOf(h), h[6];
      match Classify(x, h)
      case GetValues =>
        var record := InRecord(body, contentLen, paddingLen, skip);
        if record.end.Eof? {
          NeverBeginsAtHeader(x, record.end.rest, record.end.skip);
        }
      case Skipped => NeverBeginsAgain(x, body, contentLen, paddingLen, true);
      case UnknownManagement => NeverBeginsAgain(x, body, contentLen, paddingLen, skip);
      case OwnStream => NeverBeginsAgain(x, body, contentLen, paddingLen, skip);
      case Bad =>
      case NewRequest =>
    }
  }
}
