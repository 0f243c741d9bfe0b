/**
 * What LZ4_compress makes of an input, without its table and its buffers: which earlier position is tried as a
 * match for which, and the sequences that follow.  Lz4Encoder computes it.
 */
module Lz4Greedy {
  import opened Bytes
  import opened Lz4Format

  const LZ4_64KLIMIT := 0x10000 + (MFLIMIT - 1)

  /** LZ4_compress64kCtx for small inputs, LZ4_compressCtx for the others. */
  datatype Variant = Small | Large {
    function TableSize(): nat {
      if Small? then 0x2000 else 0x1000
    }

    /** Number of values an entry can take: U16 or U32. */
    function EntryRange(): nat {
      if Small? then 0x10000 else 0x1_0000_0000
    }

    /** The position as the table stores it, truncated to the width of an entry. */
    function Entry(position: nat): nat {
      position % EntryRange()
    }

    function Hash(word: nat): (h: nat)
      ensures h < TableSize()
    {
      word * 2654435761 % 0x1_0000_0000 / (if Small? then 0x80000 else 0x100000)
    }

    /** The inputs the variant is chosen for. */
    predicate Accepts(size: nat) {
      if Small? then size < LZ4_64KLIMIT else size < 0x8000_0000
    }

    predicate TooFar(ip: nat, ref: nat) {
      Large? && ref < ip - MAX_DISTANCE
    }
  }

  function A16(s: bytes, p: nat): nat
    requires p + 2 <= |s|
  {
    s[p] as int + 0x100 * (s[p + 1] as int)
  }

  function A32(s: bytes, p: nat): nat
    requires p + 4 <= |s|
  {
    A16(s, p) + 0x10000 * A16(s, p + 2)
  }

  /** `n` bytes at `p` equal the `n` bytes `d` positions later. */
  predicate Same(s: bytes, p: nat, d: nat, n: nat) {
    && p + n + d <= |s|
    && forall i | p <= i < p + n :: s[i] == s[i + d]
  }

  lemma SameWord16(s: bytes, p: nat, q: nat)
    requires p <= q && q + 2 <= |s|
    ensures A16(s, p) == A16(s, q) <==> Same(s, p, q - p, 2)
  {
  }

  lemma SameWord32(s: bytes, p: nat, q: nat)
    requires p <= q && q + 4 <= |s|
    ensures A32(s, p) == A32(s, q) <==> Same(s, p, q - p, 4)
  {
    SameWord16(s, p, q);
    SameWord16(s, p + 2, q + 2);
    assert Same(s, p, q - p, 4) <==> Same(s, p, q - p, 2) && Same(s, p + 2, q - p, 2);
    HalvesOfWord(A16(s, p), A16(s, p + 2), A16(s, q), A16(s, q + 2));
  }

  lemma HalvesOfWord(a: nat, b: nat, c: nat, d: nat)
    requires a < 0x10000 && c < 0x10000
    ensures a + 0x10000 * b == c + 0x10000 * d <==> a == c && b == d
  {
  }

  /** Length of the longest common prefix of the bytes at `p` and the bytes at `q` up to `limit`. */
  function CommonPrefix(s: bytes, p: nat, q: nat, limit: nat): (n: nat)
    requires p <= q <= limit <= |s|
    ensures q + n <= limit
    decreases limit - q
  {
    if q == limit || s[p] != s[q] then 0 else 1 + CommonPrefix(s, p + 1, q + 1, limit)
  }

  /** It is common, and it is the longest. */
  lemma {:induction false} CommonPrefixIsLongest(s: bytes, p: nat, q: nat, limit: nat)
    requires p <= q <= limit <= |s|
    ensures var n := CommonPrefix(s, p, q, limit);
            && Same(s, p, q - p, n)
            && (q + n < limit ==> s[p + n] != s[q + n])
    decreases limit - q
  {
    if q < limit && s[p] == s[q] {
      CommonPrefixIsLongest(s, p + 1, q + 1, limit);
    }
  }

  lemma {:induction false} CommonPrefixSkip(s: bytes, p: nat, q: nat, limit: nat, k: nat)
    requires p <= q && q + k <= limit <= |s|
    requires Same(s, p, q - p, k)
    ensures CommonPrefix(s, p, q, limit) == k + CommonPrefix(s, p + k, q + k, limit)
    decreases k
  {
    if k > 0 {
      assert s[p] == s[q];
      CommonPrefixSkip(s, p + 1, q + 1, limit, k - 1);
    }
  }

  lemma CommonPrefixBelow(s: bytes, p: nat, q: nat, limit: nat, k: nat)
    requires p <= q && q + k <= limit <= |s|
    requires !Same(s, p, q - p, k)
    ensures CommonPrefix(s, p, q, limit) < k
  {
    CommonPrefixIsLongest(s, p, q, limit);
  }

  /** Four equal bytes at two distinct positions whose distance a match can express. */
  predicate Matching(s: bytes, ref: nat, ip: nat) {
    && ref < ip && ip + 4 <= |s| && ip - ref <= MAX_DISTANCE
    && Same(s, ref, ip - ref, MINMATCH)
  }

  lemma MatchingAhead(s: bytes, ref: nat, ip: nat, n: nat)
    requires ref < ip && ip - ref <= MAX_DISTANCE && MINMATCH <= n && Same(s, ref, ip - ref, n) && ip + n <= |s|
    ensures Matching(s, ref, ip)
  {
  }

  /** The two tests of the search and of its repetition behind a match, in either variant. */
  lemma TestsMatching(v: Variant, s: bytes, ref: nat, ip: nat)
    requires ref < ip && ip + MFLIMIT <= |s| && v.Accepts(|s|)
    ensures !v.TooFar(ip, ref) && A32(s, ref) == A32(s, ip) <==> Matching(s, ref, ip)
  {
    hide A32;
    SameWord32(s, ref, ip);
  }

  // ---------------------------------------------------------------- candidates

  /** The hash of the four bytes at a position. */
  function HashAt(v: Variant, s: bytes, p: nat): (h: nat)
    ensures h < v.TableSize()
  {
    if p + 4 <= |s| then v.Hash(A32(s, p)) else 0
  }

  /** Of the product with the four bytes, the first the least significant: the top 13 or 12 of its low 32 bits. */
  lemma HashIsTopBits(v: Variant, s: bytes, p: nat)
    requires p + 4 <= |s|
    ensures var word := (s[p] as int) + 0x100 * (s[p + 1] as int) + 0x1_0000 * (s[p + 2] as int)
                        + 0x100_0000 * (s[p + 3] as int);
            var product := word * 0x9e37_79b1;
            HashAt(v, s, p) == if v.Small? then product / 0x8_0000 % 0x2000 else product / 0x10_0000 % 0x1000
  {
    var product := A32(s, p) * 0x9e37_79b1;
    assert product / 0x8_0000 / 0x2000 == product / 0x1_0000_0000;
    assert product / 0x10_0000 / 0x1000 == product / 0x1_0000_0000;
  }

  ghost predicate Below(log: seq<nat>, bound: int) {
    forall i | 0 <= i < |log| :: log[i] < bound
  }

  /** The position that was stored last under a hash; at the start, 0. */
  function Latest(v: Variant, s: bytes, log: seq<nat>, h: nat): nat {
    if log == [] then 0
    else
      var front, p := log[..|log| - 1], log[|log| - 1];
      if HashAt(v, s, p) == h then p else Latest(v, s, front, h)
  }

  lemma StoreOne(v: Variant, s: bytes, log: seq<nat>, p: nat, h: nat)
    ensures Latest(v, s, log + [p], h) == if HashAt(v, s, p) == h then p else Latest(v, s, log, h)
  {
    hide HashAt;
    assert (log + [p])[..|log|] == log;
  }

  /** Position `i` of the log is the last one with a hash. */
  ghost predicate LastWith(v: Variant, s: bytes, log: seq<nat>, h: nat, i: nat) {
    && i < |log| && HashAt(v, s, log[i]) == h
    && forall j | i < j < |log| :: HashAt(v, s, log[j]) != h
  }

  /** The latest is the last one with that hash, and 0 if there is none. */
  lemma {:induction false} LatestIsLast(v: Variant, s: bytes, log: seq<nat>, h: nat)
    ensures (forall i | 0 <= i < |log| :: HashAt(v, s, log[i]) != h) ==> Latest(v, s, log, h) == 0
    ensures forall i: nat | LastWith(v, s, log, h, i) :: Latest(v, s, log, h) == log[i]
    ensures (exists i | 0 <= i < |log| :: HashAt(v, s, log[i]) == h) ==> exists i: nat :: LastWith(v, s, log, h, i)
  {
    hide HashAt;
    if log != [] {
      var front, p := log[..|log| - 1], log[|log| - 1];
      if HashAt(v, s, p) == h {
        assert LastWith(v, s, log, h, |log| - 1);
      } else {
        LatestIsLast(v, s, front, h);
        forall i: nat
          ensures LastWith(v, s, log, h, i) <==> LastWith(v, s, front, h, i)
        {
        }
      }
    }
  }

  lemma {:induction false} LatestBelow(v: Variant, s: bytes, log: seq<nat>, bound: int, h: nat)
    requires Below(log, bound) && 0 < bound
    ensures Latest(v, s, log, h) < bound
  {
    hide HashAt;
    if log != [] {
      LatestBelow(v, s, log[..|log| - 1], bound, h);
    }
  }

  // ---------------------------------------------------------------- one search

  /** The positions a search tries: 61 steps of one byte, then 64 of two, then 64 of three, and so on. */
  function Probe(from: nat, k: nat): (p: nat)
    ensures from <= p
  {
    if k == 0 then from else Probe(from, k - 1) + (66 + k) / 64
  }

  lemma {:induction false} FirstProbes(from: nat, k: nat)
    ensures k <= 61 ==> Probe(from, k) == from + k
    ensures 61 <= k <= 125 ==> Probe(from, k) == from + 61 + 2 * (k - 61)
    ensures 125 <= k <= 189 ==> Probe(from, k) == from + 189 + 3 * (k - 125)
  {
    if 0 < k {
      FirstProbes(from, k - 1);
    }
  }

  lemma {:induction false} ProbesGrow(from: nat, j: nat, k: nat)
    requires j < k
    ensures Probe(from, j) < Probe(from, k)
  {
    if j < k - 1 {
      ProbesGrow(from, j, k - 1);
    }
  }

  function Probes(from: nat, k: nat): seq<nat> {
    if k == 0 then [] else Probes(from, k - 1) + [Probe(from, k - 1)]
  }

  datatype Found = Found(ip: nat, ref: nat, log: seq<nat>)

  /**
   * The search from its `k`-th probe on, with the positions stored before it.  It gives up when the probe after
   * this one would be less than MFLIMIT bytes before the end.
   */
  function Search(v: Variant, s: bytes, log: seq<nat>, from: nat, k: nat): (r: Option<Found>)
    decreases |s| - Probe(from, k)
  {
    var p := Probe(from, k);
    if |s| < Probe(from, k + 1) + MFLIMIT then None
    else
      var c, more := Latest(v, s, log, HashAt(v, s, p)), log + [p];
      if Matching(s, c, p) then Some(Found(p, c, more)) else Search(v, s, more, from, k + 1)
  }

  lemma {:induction false} SearchFits(v: Variant, s: bytes, log: seq<nat>, from: nat, k: nat)
    ensures var r := Search(v, s, log, from, k);
            r.Some? ==>
              && from <= r.value.ip && r.value.ip + MFLIMIT < |s| && Matching(s, r.value.ref, r.value.ip)
              && (Below(log, Probe(from, k)) ==> Below(r.value.log, r.value.ip + 1))
    decreases |s| - Probe(from, k)
  {
    hide HashAt, Matching;
    var p := Probe(from, k);
    if Probe(from, k + 1) + MFLIMIT <= |s| && !Matching(s, Latest(v, s, log, HashAt(v, s, p)), p) {
      SearchFits(v, s, log + [p], from, k + 1);
    }
  }

  /** The `k`-th probe is made and finds a match at the position that was stored last with its hash. */
  ghost predicate Hit(v: Variant, s: bytes, log: seq<nat>, from: nat, k: nat) {
    && Probe(from, k + 1) + MFLIMIT <= |s|
    && Matching(s, Latest(v, s, log + Probes(from, k), HashAt(v, s, Probe(from, k))), Probe(from, k))
  }

  /** A search ends at the first probe that hits, and without success only if none does. */
  lemma SearchIsFirst(v: Variant, s: bytes, log: seq<nat>, from: nat)
    ensures match Search(v, s, log, from, 0)
            case None => forall k: nat :: !Hit(v, s, log, from, k)
            case Some(Found(ip, ref, more)) =>
              exists k: nat ::
                && Hit(v, s, log, from, k) && (forall j: nat | j < k :: !Hit(v, s, log, from, j))
                && ip == Probe(from, k) && more == log + Probes(from, k + 1)
                && ref == Latest(v, s, log + Probes(from, k), HashAt(v, s, ip))
  {
    hide HashAt, Matching, Hit, Probe, Search, Latest;
    assert log + Probes(from, 0) == log;
    FirstFrom(v, s, log, from, 0);
  }

  lemma {:induction false} FirstFrom(v: Variant, s: bytes, log: seq<nat>, from: nat, k: nat)
    ensures match Search(v, s, log + Probes(from, k), from, k)
            case None => forall j: nat | k <= j :: !Hit(v, s, log, from, j)
            case Some(Found(ip, ref, more)) =>
              exists i: nat | k <= i ::
                && Hit(v, s, log, from, i) && (forall j: nat | k <= j < i :: !Hit(v, s, log, from, j))
                && ip == Probe(from, i) && more == log + Probes(from, i + 1)
                && ref == Latest(v, s, log + Probes(from, i), HashAt(v, s, ip))
    decreases |s| - Probe(from, k)
  {
    hide HashAt, Matching, Latest, Probe;
    if |s| < Probe(from, k + 1) + MFLIMIT {
      forall j: nat | k <= j
        ensures !Hit(v, s, log, from, j)
      {
        if k < j {
          ProbesGrow(from, k + 1, j + 1);
        }
      }
    } else {
      assert log + Probes(from, k) + [Probe(from, k)] == log + Probes(from, k + 1);
      if !Hit(v, s, log, from, k) {
        ProbesGrow(from, k, k + 1);
        FirstFrom(v, s, log, from, k + 1);
      }
    }
  }

  // ---------------------------------------------------------------- the sequences

  /** Equal bytes before two positions, back to `anchor` for the second one. */
  function Back(s: bytes, ref: nat, ip: nat, anchor: nat): (n: nat)
    requires ref < ip <= |s| && anchor <= ip
    ensures n <= ref && n <= ip - anchor
    decreases ref
  {
    if anchor < ip && 0 < ref && s[ip - 1] == s[ref - 1] then 1 + Back(s, ref - 1, ip - 1, anchor) else 0
  }

  lemma SameMore(s: bytes, p: nat, d: nat, n: nat)
    requires Same(s, p, d, n) && p + n + d < |s| && s[p + n] == s[p + n + d]
    ensures Same(s, p, d, n + 1)
  {
  }

  /** The bytes before are equal, and none further back. */
  lemma {:induction false} BackIsLongest(s: bytes, ref: nat, ip: nat, anchor: nat)
    requires ref < ip <= |s| && anchor <= ip
    ensures var n := Back(s, ref, ip, anchor);
            && Same(s, ref - n, ip - ref, n)
            && (n < ref && anchor < ip - n ==> s[ip - n - 1] != s[ref - n - 1])
    decreases ref
  {
    assert Same(s, ref, ip - ref, 0);
    hide Same;
    if anchor < ip && 0 < ref && s[ip - 1] == s[ref - 1] {
      BackIsLongest(s, ref - 1, ip - 1, anchor);
      SameMore(s, ref - Back(s, ref, ip, anchor), ip - ref, Back(s, ref - 1, ip - 1, anchor));
    }
  }

  lemma BackMatches(s: bytes, ref: nat, ip: nat, anchor: nat)
    requires Matching(s, ref, ip) && anchor <= ip
    ensures var n := Back(s, ref, ip, anchor);
            Matching(s, ref - n, ip - n) && Same(s, ref - n, ip - ref, n + MINMATCH)
  {
    BackIsLongest(s, ref, ip, anchor);
  }

  lemma MatchIsLong(s: bytes, ref: nat, ip: nat)
    requires Matching(s, ref, ip) && ip + MFLIMIT <= |s|
    ensures ref < ip && MINMATCH <= CommonPrefix(s, ref, ip, |s| - LASTLITERALS)
  {
    CommonPrefixSkip(s, ref, ip, |s| - LASTLITERALS, MINMATCH);
  }

  /** The sequences from a search behind `anchor` on; the match found grows backwards over pending literals. */
  function FromSearch(v: Variant, s: bytes, log: seq<nat>, anchor: nat): seq<Sequence>
    requires anchor <= |s|
    decreases |s| - anchor, 2
  {
    match Search(v, s, log, anchor + 1, 0)
    case None => []
    case Some(Found(ip, ref, more)) =>
      SearchFits(v, s, log, anchor + 1, 0);
      BackMatches(s, ref, ip, anchor);
      var n := Back(s, ref, ip, anchor);
      FromMatch(v, s, more, anchor, ip - n, ref - n)
  }

  /** The sequences from a match on, which is as long as it can be up to the last literals. */
  function FromMatch(v: Variant, s: bytes, log: seq<nat>, anchor: nat, ip: nat, ref: nat): (r: seq<Sequence>)
    requires anchor <= ip && ip + MFLIMIT <= |s| && Matching(s, ref, ip)
    ensures r != [] && r[0].literals == s[anchor..ip] && r[0].offset == ip - ref
    decreases |s| - ip, 1
  {
    MatchIsLong(s, ref, ip);
    var length := CommonPrefix(s, ref, ip, |s| - LASTLITERALS);
    [Sequence(s[anchor..ip], ip - ref, length)] + BehindMatch(v, s, log, ip + length)
  }

  /** The sequences behind a match: none near the end, another match at once, or what a search leads to. */
  function BehindMatch(v: Variant, s: bytes, log: seq<nat>, ip: nat): seq<Sequence>
    requires 2 <= ip <= |s|
    decreases |s| - ip, 3
  {
    if |s| < ip + MFLIMIT then []
    else
      var ref := Latest(v, s, log + [ip - 2], HashAt(v, s, ip));
      var more := log + [ip - 2] + [ip];
      if Matching(s, ref, ip) then FromMatch(v, s, more, ip, ip, ref) else FromSearch(v, s, more, ip)
  }

  /** All sequences of an input. */
  function Greedy(v: Variant, s: bytes): seq<Sequence> {
    if |s| < MINLENGTH then [] else FromSearch(v, s, if v.Large? then [0] else [], 0)
  }

  // ---------------------------------------------------------------- what comes of it

  /** All bytes of the input are equal. */
  predicate AllEqual(s: bytes) {
    forall i | 0 <= i < |s| :: s[i] == s[0]
  }

  lemma {:induction false} EqualPrefix(s: bytes, p: nat, q: nat, limit: nat)
    requires AllEqual(s) && p <= q <= limit <= |s|
    ensures CommonPrefix(s, p, q, limit) == limit - q
    decreases limit - q
  {
    if q < limit {
      EqualPrefix(s, p + 1, q + 1, limit);
    }
  }

  /** Equal bytes become one literal and one match for all but the last five of them. */
  lemma EqualBytes(v: Variant, s: bytes)
    requires 14 <= |s| && AllEqual(s)
    ensures Greedy(v, s) == [Sequence([s[0]], 1, |s| - 6)]
  {
    hide HashAt;
    var log := if v.Large? then [0] else [];
    assert Probe(1, 0) == 1 && Probe(1, 1) == 2;
    LatestBelow(v, s, log, 1, HashAt(v, s, 1));
    assert Matching(s, 0, 1);
    assert Search(v, s, log, 1, 0) == Some(Found(1, 0, log + [1]));
    EqualPrefix(s, 0, 1, |s| - LASTLITERALS);
    assert s[0..1] == [s[0]];
    assert Back(s, 0, 1, 0) == 0 && BehindMatch(v, s, log + [1], |s| - 5) == [];
    assert FromMatch(v, s, log + [1], 0, 1, 0) == [Sequence([s[0]], 1, |s| - 6)] + [];
    assert Greedy(v, s) == FromSearch(v, s, log, 0);
  }

  /** Fourteen equal bytes and more take up at most 11 bytes and one for every 255 of them. */
  lemma EqualBytesSize(v: Variant, s: bytes, b: Block)
    requires 14 <= |s| && AllEqual(s)
    requires BlockContents(b) == s && b.sequences == Greedy(v, s)
    ensures |EncodeBlock(b)| <= |s| / 255 + 11
  {
    EqualBytes(v, s);
    OneSequence(b.sequences[0]);
  }

  lemma OneSequence(q: Sequence)
    ensures |Replay([q])| == |q.literals| + q.matchLen && EncodeSequences([q]) == EncodeSequence(q)
  {
    assert [q][..0] == [];
    assert EncodeSequences([q]) == [] + EncodeSequence(q);
  }

  lemma LastBytes(b: Block, s: bytes, n: nat)
    requires BlockContents(b) == s && |s| == |Replay(b.sequences)| + n
    ensures |b.last| == n && b.last == s[|s| - n..]
  {
  }

  /** Forty zeros, byte by byte. */
  lemma FortyZeros(v: Variant, b: Block)
    requires BlockContents(b) == Zeros(40) && b.sequences == Greedy(v, Zeros(40))
    ensures EncodeBlock(b) == [0x1f, 0, 1, 0, 0x0f, 0x50, 0, 0, 0, 0, 0]
  {
    hide Greedy, BlockContents, EncodeBlock, EncodeSequence, EncodeSequences, Replay;
    EqualBytes(v, Zeros(40));
    OneSequence(b.sequences[0]);
    LastBytes(b, Zeros(40), 5);
    assert Zeros(40)[35..] == [0, 0, 0, 0, 0];
    assert b == Block([Sequence([0], 1, 34)], [0, 0, 0, 0, 0]);
    FortyZerosBytes();
  }

  lemma FortyZerosBytes()
    ensures EncodeBlock(Block([Sequence([0], 1, 34)], [0, 0, 0, 0, 0]))
         == [0x1f, 0, 1, 0, 0x0f, 0x50, 0, 0, 0, 0, 0]
  {
    hide EncodeSequences, Replay;
    OneSequence(Sequence([0], 1, 34));
    assert LiteralPart([0], 30) == [0x1f, 0] && MatchPart(1, 30) == [1, 0, 15];
    assert LiteralPart([0, 0, 0, 0, 0], 0) == [0x50, 0, 0, 0, 0, 0];
  }

  /** When no four bytes occur again within reach, everything is literal. */
  lemma NothingRepeats(v: Variant, s: bytes)
    requires forall ref: nat, ip: nat :: !Matching(s, ref, ip)
    ensures Greedy(v, s) == []
  {
    if MINLENGTH <= |s| {
      SearchFits(v, s, if v.Large? then [0] else [], 1, 0);
    }
  }

  lemma MatchingHash(v: Variant, s: bytes, ref: nat, ip: nat)
    requires Matching(s, ref, ip)
    ensures HashAt(v, s, ref) == HashAt(v, s, ip)
  {
    SameWord32(s, ref, ip);
  }

  /** Other bytes with the hash of those at `ip`. */
  predicate Collides(v: Variant, s: bytes, p: nat, ip: nat) {
    p < ip && HashAt(v, s, p) == HashAt(v, s, ip) && !Same(s, p, ip - p, MINMATCH)
  }

  /** A search passes over bytes that are stored, and in reach, only when others with their hash came between. */
  lemma PassedOver(v: Variant, s: bytes, log: seq<nat>, ip: nat, i: nat)
    requires i < |log| && Matching(s, log[i], ip) && Below(log, ip)
    requires forall j, k | 0 <= j < k < |log| :: log[j] < log[k]
    requires !Matching(s, Latest(v, s, log, HashAt(v, s, ip)), ip)
    ensures exists j | i < j < |log| :: Collides(v, s, log[j], ip)
  {
    hide HashAt, Same;
    var h := HashAt(v, s, ip);
    MatchingHash(v, s, log[i], ip);
    LatestIsLast(v, s, log, h);
    var j: nat :| LastWith(v, s, log, h, j);
    assert i < j && Latest(v, s, log, h) == log[j];
    assert log[i] < log[j] < ip && Collides(v, s, log[j], ip);
  }
}
