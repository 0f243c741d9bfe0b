/** FastCGI records (section 3.3 of the FastCGI Specification 1.0) as bytes on a connection. */
module FcgiRecords {
  import opened Bytes

  const EOF := -1

  const FCGI_VERSION_1 := 1
  const FCGI_HEADER_LEN := 8
  const FCGI_MAX_LENGTH := 0xffff
  const FCGI_NULL_REQUEST_ID := 0

  const FCGI_BEGIN_REQUEST := 1
  const FCGI_END_REQUEST := 3
  const FCGI_PARAMS := 4
  const FCGI_STDIN := 5
  const FCGI_STDOUT := 6
  const FCGI_STDERR := 7
  const FCGI_GET_VALUES := 9

  const FCGI_UNKNOWN_TYPE := 11

  const FCGI_REQUEST_COMPLETE := 0
  const FCGI_CANT_MPX_CONN := 1

  type RequestId = n: int | 0 <= n <= 0xffff

  datatype Record = Record(rtype: byte, id: RequestId, content: bytes, padding: bytes) {
    /** The lengths a header can express. */
    predicate Fits() {
      |content| <= FCGI_MAX_LENGTH && |padding| <= 0xff
    }
  }

  function MakeHeader(rtype: byte, id: RequestId, contentLength: nat, paddingLength: nat): (h: bytes)
    requires contentLength <= FCGI_MAX_LENGTH && paddingLength <= 0xff
    ensures |h| == FCGI_HEADER_LEN
  {
    [FCGI_VERSION_1, rtype, id / 0x100, id % 0x100, contentLength / 0x100, contentLength % 0x100, paddingLength, 0]
  }

  // Header fields, from the eight bytes of a header.

  function RequestIdOf(h: bytes): RequestId
    requires |h| == FCGI_HEADER_LEN
  {
    (h[2] as int) * 0x100 + h[3] as int
  }

  function ContentLengthOf(h: bytes): (n: nat)
    requires |h| == FCGI_HEADER_LEN
    ensures n <= FCGI_MAX_LENGTH
  {
    (h[4] as int) * 0x100 + h[5] as int
  }

  function EncodeRecord(r: Record): (s: bytes)
    requires r.Fits()
    ensures |s| == FCGI_HEADER_LEN + |r.content| + |r.padding|
  {
    MakeHeader(r.rtype, r.id, |r.content|, |r.padding|) + r.content + r.padding
  }

  function EncodeRecords(records: seq<Record>): bytes
    requires forall r | r in records :: r.Fits()
  {
    if records == [] then [] else EncodeRecord(records[0]) + EncodeRecords(records[1..])
  }

  /** Read a byte string as whole records; None when it is not a sequence of them. */
  function ParseRecords(s: bytes): Option<seq<Record>> {
    if s == [] then Some([])
    else if |s| < FCGI_HEADER_LEN || s[0] != FCGI_VERSION_1 then None
    else
      var h := s[..FCGI_HEADER_LEN];
      var body, end := FCGI_HEADER_LEN + ContentLengthOf(h), FCGI_HEADER_LEN + ContentLengthOf(h) + s[6];
      if |s| < end then None
      else
        match ParseRecords(s[end..])
        case None => None
        case Some(rest) =>
          Some([Record(s[1], RequestIdOf(h), s[FCGI_HEADER_LEN..body], s[body..end])] + rest)
  }

  lemma HeaderFields(rtype: byte, id: RequestId, contentLength: nat, paddingLength: nat)
    requires contentLength <= FCGI_MAX_LENGTH && paddingLength <= 0xff
    ensures var h := MakeHeader(rtype, id, contentLength, paddingLength);
            && h[0] == FCGI_VERSION_1 && h[1] == rtype && h[6] == paddingLength
            && RequestIdOf(h) == id && ContentLengthOf(h) == contentLength
  {
  }

  /** A record at the front of a byte string is found by reading its header. */
  lemma RecordAtFront(r: Record, rest: bytes)
    requires r.Fits()
    ensures var s, n := EncodeRecord(r) + rest, |r.content|;
            && s[..FCGI_HEADER_LEN] == MakeHeader(r.rtype, r.id, n, |r.padding|)
            && s[FCGI_HEADER_LEN..FCGI_HEADER_LEN + n] == r.content
            && s[FCGI_HEADER_LEN + n..|EncodeRecord(r)|] == r.padding
            && s[|EncodeRecord(r)|..] == rest
            && s[FCGI_HEADER_LEN..] == r.content + r.padding + rest
  {
  }

  /** Records can be read back from their bytes in exactly one way. */
  lemma {:induction false} ParseOfEncode(records: seq<Record>)
    requires forall r | r in records :: r.Fits()
    ensures ParseRecords(EncodeRecords(records)) == Some(records)
  {
    if records != [] {
      var r, rest := records[0], EncodeRecords(records[1..]);
      var s := EncodeRecord(r) + rest;
      RecordAtFront(r, rest);
      HeaderFields(r.rtype, r.id, |r.content|, |r.padding|);
      var h := s[..FCGI_HEADER_LEN];
      assert s[0] == h[0] && s[1] == h[1] && s[6] == h[6];
      ParseOfEncode(records[1..]);
      assert records == [r] + records[1..];
    }
  }

  lemma {:induction false} EncodeAppend(a: seq<Record>, b: seq<Record>)
    requires forall r | r in a + b :: r.Fits()
    ensures forall r | r in a :: r.Fits()
    ensures forall r | r in b :: r.Fits()
    ensures EncodeRecords(a + b) == EncodeRecords(a) + EncodeRecords(b)
  {
    assert forall r | r in a :: r in a + b;
    assert forall r | r in b :: r in a + b;
    if a == [] {
      assert a + b == b;
    } else {
      assert (a + b)[1..] == a[1..] + b;
      EncodeAppend(a[1..], b);
    }
  }

  /** MakeEndRequestBody. */
  function EndRequestBody(appStatus: int, protocolStatus: byte): (b: bytes)
    ensures |b| == 8
  {
    var u := appStatus % 0x1_0000_0000;
    [u / 0x1000000, u / 0x10000 % 0x100, u / 0x100 % 0x100, u % 0x100, protocolStatus, 0, 0, 0]
  }

  /** The exit status is read back from the first four bytes, as far as 32 bits hold it. */
  lemma EndRequestBodyReadBack(appStatus: int, protocolStatus: byte)
    ensures var b := EndRequestBody(appStatus, protocolStatus);
            && StatusOf(b) == appStatus % 0x1_0000_0000
            && b[4..] == [protocolStatus, 0, 0, 0]
  {
    Digits(appStatus % 0x1_0000_0000);
  }

  /** The number in the first four bytes, the most significant one first (section 5.5). */
  function StatusOf(b: bytes): nat
    requires 4 <= |b|
  {
    (b[0] as int) * 0x1000000 + (b[1] as int) * 0x10000 + (b[2] as int) * 0x100 + b[3] as int
  }

  /** The smallest multiple of 8 that is at least `n`. */
  function AlignInt8(n: nat): (r: nat)
    ensures n <= r < n + 8 && r % 8 == 0
  {
    (n + 7) / 8 * 8
  }
}
