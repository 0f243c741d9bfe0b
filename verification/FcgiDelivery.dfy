/**
 * Delivery seen from the records on the connection: which of their contents a reader delivers, for every
 * sequence of records, and what must hold for that to be the contents of its own records.
 */
module FcgiDelivery {
  import opened Bytes
  import opened FcgiRecords
  import opened FcgiStream
  import FcgiParams
  import FcgiSession

  function HeaderOf(r: Record): (h: bytes)
    requires r.Fits()
    ensures |h| == FCGI_HEADER_LEN
  {
    MakeHeader(r.rtype, r.id, |r.content|, |r.padding|)
  }

  function KindOf(x: Expect, r: Record): Kind
    requires r.Fits()
  {
    Classify(x, HeaderOf(r))
  }

  predicate AllFit(records: seq<Record>) {
    forall r | r in records :: r.Fits()
  }

  function Unless(skip: bool, content: bytes): bytes {
    if skip then [] else content
  }

  /**
   * The outcome of reading `records` and then `tail`.  A skipped record raises the skip flag, and only
   * content lowers it: after an empty one it is still up when the next record comes.
   */
  function Deliver(x: Expect, records: seq<Record>, tail: bytes, skip: bool): Outcome
    requires x.begun && AllFit(records)
  {
    if records == [] then Headers(x, tail, skip)
    else
      var r, rest := records[0], records[1..];
      match KindOf(x, r)
      case OwnStream =>
        if r.content == [] then Outcome([], Eof(r.padding + (EncodeRecords(rest) + tail), skip))
        else Prepend(Unless(skip, r.content), Deliver(x, rest, tail, false))
      case Skipped => Deliver(x, rest, tail, r.content == [])
      case GetValues =>
        if FcgiParams.ParseParams(Unless(skip, r.content)).complete then
          Deliver(x, rest, tail, skip && r.content == [])
        else Outcome([], Failed)
      case UnknownManagement =>
        Prepend(Unless(skip, r.content), Deliver(x, rest, tail, skip && r.content == []))
      case _ => Outcome([], Failed)
  }

  /** A whole record is passed by delivering its content, or not, and going on behind its padding. */
  lemma AheadOfRecord(x: Expect, content: bytes, padding: bytes, rest: bytes, skip: bool)
    ensures var u := content + padding + rest;
            && Ahead(x, u, |content|, |padding|, skip)
               == Prepend(Unless(skip, content), Headers(x, rest, skip && content == []))
            && InRecord(u, |content|, |padding|, skip).data == Unless(skip, content)
            && (InRecord(u, |content|, |padding|, skip).end == Eof(rest, skip && content == [])
                || (rest == [] && InRecord(u, |content|, |padding|, skip).end == Failed))
  {
    var u := content + padding + rest;
    assert u[..|content|] == content;
    assert u[|content| + |padding|..] == rest;
  }

  lemma HeadersOfRecord(x: Expect, r: Record, rest: bytes, skip: bool)
    requires r.Fits()
    ensures Headers(x, EncodeRecord(r) + rest, skip) == AfterHeader(x, HeaderOf(r), r.content + r.padding + rest, skip)
    ensures ContentLengthOf(HeaderOf(r)) == |r.content| && HeaderOf(r)[6] == |r.padding|
  {
    HeaderFields(r.rtype, r.id, |r.content|, |r.padding|);
    assert EncodeRecord(r) + rest == HeaderOf(r) + (r.content + r.padding + rest);
    HeadersStep(x, HeaderOf(r), r.content + r.padding + rest, skip);
  }

  /** Byte by byte or record by record, reading comes to the same, for every sequence of records. */
  lemma {:induction false} DeliverIsReading(x: Expect, records: seq<Record>, tail: bytes, skip: bool)
    requires x.begun && AllFit(records)
    ensures Headers(x, EncodeRecords(records) + tail, skip) == Deliver(x, records, tail, skip)
    decreases |records|
  {
    if records == [] {
      assert EncodeRecords(records) + tail == tail;
    } else {
      var r, rest := records[0], records[1..];
      var after := EncodeRecords(rest) + tail;
      assert EncodeRecords(records) + tail == EncodeRecord(r) + after;
      RecordStep(x, r, after, skip);
      DeliverIsReading(x, rest, tail, false);
      DeliverIsReading(x, rest, tail, true);
    }
  }

  lemma RecordStep(x: Expect, r: Record, after: bytes, skip: bool)
    requires x.begun && r.Fits()
    ensures Headers(x, EncodeRecord(r) + after, skip)
         == match KindOf(x, r)
            case OwnStream =>
              if r.content == [] then Outcome([], Eof(r.padding + after, skip))
              else Prepend(Unless(skip, r.content), Headers(x, after, false))
            case Skipped => Headers(x, after, r.content == [])
            case GetValues =>
              if FcgiParams.ParseParams(Unless(skip, r.content)).complete then
                Headers(x, after, skip && r.content == [])
              else Outcome([], Failed)
            case UnknownManagement =>
              Prepend(Unless(skip, r.content), Headers(x, after, skip && r.content == []))
            case _ => Outcome([], Failed)
  {
    hide Headers, Ahead, InRecord, Classify;
    HeadersOfRecord(x, r, after, skip);
    AheadOfRecord(x, r.content, r.padding, after, skip);
    AheadOfRecord(x, r.content, r.padding, after, true);
    AcceptedKinds(x, HeaderOf(r));
    if r.content == [] {
      assert r.content + r.padding + after == r.padding + after;
    }
    var o := Headers(x, after, r.content == []);
    assert Prepend([], o) == o;
    NothingFollows(x, skip && r.content == []);
  }

  lemma NothingFollows(x: Expect, skip: bool)
    ensures Headers(x, [], skip) == Outcome([], Failed)
  {
  }

  lemma AcceptedKinds(x: Expect, h: bytes)
    requires x.begun && |h| == FCGI_HEADER_LEN
    ensures Classify(x, h) != NewRequest
  {
  }

  // ---------------------------------------------------------------- what should be delivered

  /** The contents of the stream's own records up to its empty record. */
  function OwnContent(x: Expect, records: seq<Record>): bytes
    requires AllFit(records)
  {
    if records == [] then []
    else
      var r, rest := records[0], records[1..];
      if KindOf(x, r) != OwnStream then OwnContent(x, rest)
      else if r.content == [] then []
      else r.content + OwnContent(x, rest)
  }

  /**
   * The empty record of the stream is there, and up to it no record is refused and no FCGI_GET_VALUES that is
   * read is incomplete.
   */
  predicate Ends(x: Expect, records: seq<Record>, skip: bool)
    requires AllFit(records)
  {
    && records != []
    && var r, rest := records[0], records[1..];
       match KindOf(x, r)
       case OwnStream => r.content == [] || Ends(x, rest, false)
       case Skipped => Ends(x, rest, r.content == [])
       case GetValues =>
         FcgiParams.ParseParams(Unless(skip, r.content)).complete && Ends(x, rest, skip && r.content == [])
       case UnknownManagement => Ends(x, rest, skip && r.content == [])
       case _ => false
  }

  /** This is exactly when reading the records alone comes to a proper end of the stream. */
  lemma {:induction false} EndsIff(x: Expect, records: seq<Record>, skip: bool)
    requires x.begun && AllFit(records)
    ensures Ends(x, records, skip) <==> Deliver(x, records, [], skip).end.Eof?
    decreases |records|
  {
    hide Classify;
    if records == [] {
      NothingFollows(x, skip);
    } else {
      AcceptedKinds(x, HeaderOf(records[0]));
      EndsIff(x, records[1..], true);
      EndsIff(x, records[1..], false);
    }
  }

  /**
   * No record of the stream that has content comes while the skip flag of an empty skipped record is
   * still up, that is with nothing but empty records between them.
   */
  predicate LosesNothing(x: Expect, records: seq<Record>, skip: bool)
    requires AllFit(records)
  {
    records == []
    || var r, rest := records[0], records[1..];
       match KindOf(x, r)
       case OwnStream => r.content == [] || (!skip && LosesNothing(x, rest, false))
       case Skipped => LosesNothing(x, rest, r.content == [])
       case _ => LosesNothing(x, rest, skip && r.content == [])
  }

  /** No management record of an unknown type has content, except where a skip flag hides it. */
  predicate Clean(x: Expect, records: seq<Record>, skip: bool)
    requires AllFit(records)
  {
    records == []
    || var r, rest := records[0], records[1..];
       match KindOf(x, r)
       case OwnStream => r.content == [] || Clean(x, rest, false)
       case Skipped => Clean(x, rest, r.content == [])
       case UnknownManagement => (skip || r.content == []) && Clean(x, rest, skip && r.content == [])
       case _ => Clean(x, rest, skip && r.content == [])
  }

  /** Of a clean stream never more than its own content is delivered, and of one that loses nothing never less. */
  lemma {:induction false} DeliveredLength(x: Expect, records: seq<Record>, tail: bytes, skip: bool)
    requires x.begun && AllFit(records) && Ends(x, records, skip)
    ensures var o := Deliver(x, records, tail, skip);
            && o.end.Eof?
            && (Clean(x, records, skip) ==> |o.data| <= |OwnContent(x, records)|)
            && (LosesNothing(x, records, skip) ==> |OwnContent(x, records)| <= |o.data|)
    decreases |records|
  {
    hide Classify;
    AcceptedKinds(x, HeaderOf(records[0]));
    var r, rest := records[0], records[1..];
    if !(KindOf(x, r) == OwnStream && r.content == []) {
      DeliveredLength(x, rest, tail, NextSkip(x, r, skip));
    }
  }

  /** The skip flag behind a record. */
  function NextSkip(x: Expect, r: Record, skip: bool): bool
    requires r.Fits()
  {
    match KindOf(x, r)
    case OwnStream => false
    case Skipped => r.content == []
    case _ => skip && r.content == []
  }

  /** Of a clean stream, its own content is delivered exactly when no record of it meets the skip flag. */
  lemma {:induction false} DeliversUnlessLost(x: Expect, records: seq<Record>, tail: bytes, skip: bool)
    requires x.begun && AllFit(records) && Ends(x, records, skip) && Clean(x, records, skip)
    ensures Deliver(x, records, tail, skip).data == OwnContent(x, records) <==> LosesNothing(x, records, skip)
    decreases |records|
  {
    hide Classify;
    AcceptedKinds(x, HeaderOf(records[0]));
    var r, rest := records[0], records[1..];
    if !(KindOf(x, r) == OwnStream && r.content == []) {
      DeliversUnlessLost(x, rest, tail, NextSkip(x, r, skip));
      if KindOf(x, r) == OwnStream {
        DeliveredLength(x, rest, tail, false);
        SamePrefix(r.content, Deliver(x, rest, tail, false).data, OwnContent(x, rest));
      }
    }
  }

  /** Of a stream that loses nothing, its own content is delivered exactly when it is clean. */
  lemma {:induction false} DeliversIffClean(x: Expect, records: seq<Record>, tail: bytes, skip: bool)
    requires x.begun && AllFit(records) && Ends(x, records, skip) && LosesNothing(x, records, skip)
    ensures Deliver(x, records, tail, skip).data == OwnContent(x, records) <==> Clean(x, records, skip)
    decreases |records|
  {
    hide Classify;
    AcceptedKinds(x, HeaderOf(records[0]));
    var r, rest := records[0], records[1..];
    if !(KindOf(x, r) == OwnStream && r.content == []) {
      DeliversIffClean(x, rest, tail, NextSkip(x, r, skip));
      DeliveredLength(x, rest, tail, NextSkip(x, r, skip));
      if KindOf(x, r) == OwnStream {
        SamePrefix(r.content, Deliver(x, rest, tail, false).data, OwnContent(x, rest));
      }
    }
  }

  lemma SamePrefix(a: bytes, b: bytes, c: bytes)
    ensures a + b == a + c <==> b == c
  {
    if a + b == a + c {
      assert b == (a + b)[|a|..] && c == (a + c)[|a|..];
    }
  }

  /**
   * Reading, from the first byte: for every sequence of records in which the stream ends, the reader ends
   * properly too.  If no unknown management record has content, it delivers its own records' contents if
   * and only if none of them meets a skip flag; and if none does, if and only if no unknown management
   * record that is not skipped has content.
   */
  lemma ReadingDeliversIff(x: Expect, records: seq<Record>, tail: bytes)
    requires x.begun && AllFit(records) && Ends(x, records, false)
    ensures var o, own := Headers(x, EncodeRecords(records) + tail, false), OwnContent(x, records);
            && o.end.Eof?
            && (Clean(x, records, false) ==> (o.data == own <==> LosesNothing(x, records, false)))
            && (LosesNothing(x, records, false) ==> (o.data == own <==> Clean(x, records, false)))
  {
    DeliverIsReading(x, records, tail, false);
    DeliveredLength(x, records, tail, false);
    if Clean(x, records, false) {
      DeliversUnlessLost(x, records, tail, false);
    }
    if LosesNothing(x, records, false) {
      DeliversIffClean(x, records, tail, false);
    }
  }

  // For each record up to the end of the stream, whether its content, if any, is delivered, and whether it should.

  function DeliveredMarks(x: Expect, records: seq<Record>, skip: bool): (marks: seq<bool>)
    requires AllFit(records)
    ensures |marks| <= |records|
  {
    if records == [] then []
    else
      var r, rest := records[0], records[1..];
      match KindOf(x, r)
      case OwnStream => if r.content == [] then [] else [!skip] + DeliveredMarks(x, rest, false)
      case UnknownManagement => [!skip && r.content != []] + DeliveredMarks(x, rest, NextSkip(x, r, skip))
      case _ => [false] + DeliveredMarks(x, rest, NextSkip(x, r, skip))
  }

  function OwnMarks(x: Expect, records: seq<Record>): (marks: seq<bool>)
    requires AllFit(records)
    ensures |marks| <= |records|
  {
    if records == [] then []
    else if KindOf(x, records[0]) != OwnStream then [false] + OwnMarks(x, records[1..])
    else if records[0].content == [] then []
    else [true] + OwnMarks(x, records[1..])
  }

  /** The contents of the marked records. */
  function Marked(records: seq<Record>, marks: seq<bool>): bytes
    requires |marks| <= |records|
  {
    if marks == [] then []
    else (if marks[0] then records[0].content else []) + Marked(records[1..], marks[1..])
  }

  lemma {:induction false} MarksTell(x: Expect, records: seq<Record>, tail: bytes, skip: bool)
    requires x.begun && AllFit(records) && Ends(x, records, skip)
    ensures Deliver(x, records, tail, skip).data == Marked(records, DeliveredMarks(x, records, skip))
    ensures OwnContent(x, records) == Marked(records, OwnMarks(x, records))
    decreases |records|
  {
    hide Classify;
    AcceptedKinds(x, HeaderOf(records[0]));
    var r, rest := records[0], records[1..];
    if !(KindOf(x, r) == OwnStream && r.content == []) {
      MarksTell(x, rest, tail, NextSkip(x, r, skip));
    }
  }

  /** The records whose content is delivered are the stream's own if and only if both conditions hold. */
  lemma {:induction false} MarksAgreeIff(x: Expect, records: seq<Record>, skip: bool)
    requires x.begun && AllFit(records) && Ends(x, records, skip)
    ensures DeliveredMarks(x, records, skip) == OwnMarks(x, records)
       <==> LosesNothing(x, records, skip) && Clean(x, records, skip)
    decreases |records|
  {
    hide Classify;
    AcceptedKinds(x, HeaderOf(records[0]));
    var r, rest := records[0], records[1..];
    if !(KindOf(x, r) == OwnStream && r.content == []) {
      var next := NextSkip(x, r, skip);
      MarksAgreeIff(x, rest, next);
      SameTail(DeliveredMarks(x, records, skip), OwnMarks(x, records),
               DeliveredMarks(x, rest, next), OwnMarks(x, rest));
    }
  }

  lemma SameTail(a: seq<bool>, b: seq<bool>, s: seq<bool>, t: seq<bool>)
    requires a != [] && b != [] && a[1..] == s && b[1..] == t
    ensures a == b <==> a[0] == b[0] && s == t
  {
    assert a == [a[0]] + s && b == [b[0]] + t;
  }

  /**
   * Reading, record by record: what is delivered is the contents of some of the records, and these are
   * exactly the stream's own up to its end if and only if nothing is lost and nothing is added.
   */
  lemma ReadingDeliversOwnRecordsIff(x: Expect, records: seq<Record>, tail: bytes)
    requires x.begun && AllFit(records) && Ends(x, records, false)
    ensures var o, marks := Headers(x, EncodeRecords(records) + tail, false), DeliveredMarks(x, records, false);
            && o.end.Eof? && o.data == Marked(records, marks)
            && OwnContent(x, records) == Marked(records, OwnMarks(x, records))
            && (marks == OwnMarks(x, records) <==> LosesNothing(x, records, false) && Clean(x, records, false))
  {
    hide Headers, Ends, Clean, LosesNothing, Deliver;
    ReadingDeliversIff(x, records, tail);
    DeliverIsReading(x, records, tail, false);
    MarksTell(x, records, tail, false);
    MarksAgreeIff(x, records, false);
  }

  /** The first condition in terms of the records themselves. */
  lemma ReadingDeliversUnlessSwallowed(x: Expect, records: seq<Record>, tail: bytes)
    requires x.begun && AllFit(records) && Ends(x, records, false) && Clean(x, records, false)
    ensures Headers(x, EncodeRecords(records) + tail, false).data == OwnContent(x, records)
       <==> !exists i: nat, j: nat :: i < j < EofIndex(x, records) && Swallows(x, records, i, j)
  {
    hide Headers, Swallows, EofIndex, LosesNothing, OwnContent, Ends;
    ReadingDeliversIff(x, records, tail);
    LosesNothingIff(x, records, false);
  }

  /** The failing case at its smallest: an empty record of another request swallows the one after it. */
  lemma EmptyForeignRecordSwallows(tail: bytes)
    ensures var x := Expect(FCGI_STDIN, 1, true);
            var records := [Record(FCGI_STDIN, 2, [], []), Record(FCGI_STDIN, 1, [65], []),
                            Record(FCGI_STDIN, 1, [], [])];
            && AllFit(records) && Ends(x, records, false) && Clean(x, records, false)
            && OwnContent(x, records) == [65]
            && Headers(x, EncodeRecords(records) + tail, false).data == []
  {
    var x := Expect(FCGI_STDIN, 1, true);
    var records := [Record(FCGI_STDIN, 2, [], []), Record(FCGI_STDIN, 1, [65], []), Record(FCGI_STDIN, 1, [], [])];
    var last, lastTwo := records[2..], records[1..];
    assert lastTwo[1..] == last && last[1..] == [] && last[0] == records[2] && lastTwo[0] == records[1];
    assert KindOf(x, records[0]) == Skipped && KindOf(x, records[1]) == OwnStream && KindOf(x, records[2]) == OwnStream;
    assert OwnContent(x, last) == [] && Ends(x, last, false) && Deliver(x, last, tail, false).data == [];
    assert OwnContent(x, lastTwo) == [65] && Ends(x, lastTwo, true) && Deliver(x, lastTwo, tail, true).data == [];
    DeliverIsReading(x, records, tail, false);
  }

  /** The other failing case: content of a management record of an unknown type is delivered as the stream's. */
  lemma UnknownContentIsDelivered(tail: bytes)
    ensures var x := Expect(FCGI_STDIN, 1, true);
            var records := [Record(99, FCGI_NULL_REQUEST_ID, [65], []), Record(FCGI_STDIN, 1, [], [])];
            && AllFit(records) && Ends(x, records, false) && LosesNothing(x, records, false)
            && OwnContent(x, records) == []
            && Headers(x, EncodeRecords(records) + tail, false).data == [65]
  {
    var x := Expect(FCGI_STDIN, 1, true);
    var records := [Record(99, FCGI_NULL_REQUEST_ID, [65], []), Record(FCGI_STDIN, 1, [], [])];
    var last := records[1..];
    assert last[1..] == [] && last[0] == records[1];
    assert KindOf(x, records[0]) == UnknownManagement && KindOf(x, records[1]) == OwnStream;
    assert OwnContent(x, last) == [] && Ends(x, last, false) && Deliver(x, last, tail, false).data == [];
    DeliverIsReading(x, records, tail, false);
  }

  /** Skipped records that all have content never cost the stream anything. */
  lemma {:induction false} NonEmptySkipsLoseNothing(x: Expect, records: seq<Record>)
    requires AllFit(records)
    requires forall r | r in records :: KindOf(x, r) == Skipped ==> r.content != []
    ensures LosesNothing(x, records, false)
    decreases |records|
  {
    if records != [] {
      assert records[0] in records;
      NonEmptySkipsLoseNothing(x, records[1..]);
    }
  }

  // ---------------------------------------------------------------- where the stream ends

  /** Index of the record that ends the stream, or the number of records. */
  function EofIndex(x: Expect, records: seq<Record>): (i: nat)
    requires AllFit(records)
    ensures i <= |records|
  {
    if records == [] || (KindOf(x, records[0]) == OwnStream && records[0].content == []) then 0
    else 1 + EofIndex(x, records[1..])
  }

  // ---------------------------------------------------------------- which records are lost

  /** Record `j` belongs to the stream and has content, and nothing before it has any. */
  ghost predicate FirstContent(x: Expect, records: seq<Record>, j: nat)
    requires AllFit(records)
  {
    && j < |records| && KindOf(x, records[j]) == OwnStream && records[j].content != []
    && forall k | 0 <= k < j :: records[k].content == []
  }

  /** Record `j` of the stream meets the skip flag of the empty foreign record `i`. */
  ghost predicate Swallows(x: Expect, records: seq<Record>, i: nat, j: nat)
    requires AllFit(records)
  {
    && i < j < |records| && KindOf(x, records[i]) == Skipped && records[i].content == []
    && KindOf(x, records[j]) == OwnStream && records[j].content != []
    && forall k | i < k < j :: records[k].content == []
  }

  /** The same two for the records behind the first. */
  lemma OneFurther(x: Expect, records: seq<Record>, i: nat, j: nat)
    requires records != [] && AllFit(records)
    ensures var r, rest := records[0], records[1..];
            && (FirstContent(x, records, j + 1) <==> r.content == [] && FirstContent(x, rest, j))
            && (Swallows(x, records, i + 1, j + 1) <==> Swallows(x, rest, i, j))
            && (Swallows(x, records, 0, j + 1) <==>
                  KindOf(x, r) == Skipped && r.content == [] && FirstContent(x, rest, j))
  {
    hide KindOf;
    var rest := records[1..];
    assert forall k | 0 <= k < |rest| :: rest[k] == records[k + 1];
    assert forall k | 1 <= k < |records| :: records[k] == rest[k - 1];
  }

  ghost predicate NoneSwallowed(x: Expect, records: seq<Record>, n: nat)
    requires AllFit(records)
  {
    forall i: nat, j: nat | i < j < n :: !Swallows(x, records, i, j)
  }

  ghost predicate NoneFirst(x: Expect, records: seq<Record>, n: nat)
    requires AllFit(records)
  {
    forall j: nat | j < n :: !FirstContent(x, records, j)
  }

  lemma FirstShifted(x: Expect, records: seq<Record>, n: nat)
    requires records != [] && AllFit(records)
    ensures var r, rest := records[0], records[1..];
            NoneFirst(x, records, n + 1)
            <==> !(KindOf(x, r) == OwnStream && r.content != []) && (r.content == [] ==> NoneFirst(x, rest, n))
  {
    hide KindOf;
    var r, rest := records[0], records[1..];
    if NoneFirst(x, records, n + 1) {
      assert !FirstContent(x, records, 0);
      forall j: nat | j < n && r.content == []
        ensures !FirstContent(x, rest, j)
      {
        OneFurther(x, records, 0, j);
        assert !FirstContent(x, records, j + 1);
      }
    } else {
      var j: nat :| j < n + 1 && FirstContent(x, records, j);
      if j > 0 {
        OneFurther(x, records, 0, j - 1);
        assert r.content == [] && FirstContent(x, rest, j - 1);
      }
    }
  }

  lemma SwallowsShifted(x: Expect, records: seq<Record>, n: nat)
    requires records != [] && AllFit(records)
    ensures var r, rest := records[0], records[1..];
            NoneSwallowed(x, records, n + 1)
            <==> NoneSwallowed(x, rest, n)
                 && (KindOf(x, r) == Skipped && r.content == [] ==> NoneFirst(x, rest, n))
  {
    hide KindOf, FirstContent, Swallows;
    var r, rest := records[0], records[1..];
    if NoneSwallowed(x, records, n + 1) {
      forall i: nat, j: nat | i < j < n
        ensures !Swallows(x, rest, i, j)
      {
        OneFurther(x, records, i, j);
        assert !Swallows(x, records, i + 1, j + 1);
      }
      forall j: nat | j < n && KindOf(x, r) == Skipped && r.content == []
        ensures !FirstContent(x, rest, j)
      {
        OneFurther(x, records, 0, j);
        assert !Swallows(x, records, 0, j + 1);
      }
    } else {
      var i: nat, j: nat :| i < j < n + 1 && Swallows(x, records, i, j);
      if i > 0 {
        OneFurther(x, records, i - 1, j - 1);
        assert Swallows(x, rest, i - 1, j - 1);
      } else {
        OneFurther(x, records, 0, j - 1);
        assert FirstContent(x, rest, j - 1);
      }
    }
  }

  /** Nothing is lost exactly when no empty foreign record swallows one of the stream's before its end. */
  lemma {:induction false} LosesNothingIff(x: Expect, records: seq<Record>, skip: bool)
    requires x.begun && AllFit(records) && Ends(x, records, skip)
    ensures var n := EofIndex(x, records);
            LosesNothing(x, records, skip)
            <==> NoneSwallowed(x, records, n) && (skip ==> NoneFirst(x, records, n))
    decreases |records|
  {
    hide Classify, NoneFirst, NoneSwallowed;
    var r, rest := records[0], records[1..];
    AcceptedKinds(x, HeaderOf(r));
    if KindOf(x, r) == OwnStream && r.content == [] {
      NoneBeforeNothing(x, records);
    } else {
      FirstShifted(x, records, EofIndex(x, rest));
      SwallowsShifted(x, records, EofIndex(x, rest));
      LosesNothingIff(x, rest, NextSkip(x, r, skip));
    }
  }

  lemma NoneBeforeNothing(x: Expect, records: seq<Record>)
    requires AllFit(records)
    ensures NoneFirst(x, records, 0) && NoneSwallowed(x, records, 0)
  {
  }

  /** A record of the stream that has content is delivered. */
  lemma DeliverOwnStep(x: Expect, records: seq<Record>, tail: bytes)
    requires x.begun && AllFit(records) && records != []
    requires KindOf(x, records[0]) == OwnStream && records[0].content != []
    ensures Deliver(x, records, tail, false)
         == Prepend(records[0].content, Deliver(x, records[1..], tail, false))
  {
  }

  /** Whatever happens before, the stream ends behind the header of that record. */
  lemma {:induction false} StreamEndsAt(x: Expect, records: seq<Record>, tail: bytes, skip: bool)
    requires x.begun && AllFit(records) && Ends(x, records, skip)
    ensures var i, end := EofIndex(x, records), Deliver(x, records, tail, skip).end;
            && i < |records| && AllFit(records[i + 1..]) && end.Eof?
            && end.rest == records[i].padding + (EncodeRecords(records[i + 1..]) + tail)
    decreases |records|
  {
    hide Classify;
    var r, rest := records[0], records[1..];
    AcceptedKinds(x, HeaderOf(r));
    if !(KindOf(x, r) == OwnStream && r.content == []) {
      StreamEndsAt(x, rest, tail, NextSkip(x, r, skip));
      var i := EofIndex(x, rest);
      assert rest[i + 1..] == records[i + 2..] && rest[i] == records[i + 1];
    }
  }

  // ---------------------------------------------------------------- the repository's own writer

  /** Records of one stream only, the last of them its empty one. */
  lemma {:induction false} OwnStreamDelivered(x: Expect, records: seq<Record>, tail: bytes)
    requires x.begun && AllFit(records) && records != []
    requires forall r | r in records :: KindOf(x, r) == OwnStream && r.rtype == x.rtype
    requires forall i | 0 <= i < |records| :: records[i].content == [] <==> i == |records| - 1
    ensures var o := Deliver(x, records, tail, false);
            && o.data == FcgiSession.DataOf(records, x.rtype)
            && o.end == Eof(records[|records| - 1].padding + tail, false)
    decreases |records|
  {
    hide Classify;
    var r, rest := records[0], records[1..];
    assert r in records && [r] + rest == records;
    FcgiSession.DataOfAppend([r], rest, x.rtype);
    assert [r][..0] == [];
    assert FcgiSession.DataOf([r], x.rtype) == r.content;
    if |records| > 1 {
      forall i | 0 <= i < |rest|
        ensures rest[i].content == [] <==> i == |rest| - 1
      {
        assert rest[i] == records[i + 1];
      }
      OwnStreamDelivered(x, rest, tail);
    } else {
      assert rest == [] && EncodeRecords(rest) + tail == tail;
    }
  }
}
