/**
 * LZ4_compress: a greedy match finder over a hash table of positions.  The two C variants differ in the
 * width of a table entry, the size of the table and the distance test; `Variant` carries the difference.
 */
module Lz4Encoder {
  import opened Bytes
  import opened Lz4Format
  import opened Lz4Greedy
  import opened Lz4Copy
  import opened Lz4Word

  /** 1 << SKIPSTRENGTH, which is 6: so many attempts are made at one step width. */
  const ATTEMPTS_PER_STEP := 0x40

  // ---------------------------------------------------------------- comparing

  /** Match extension by 8-byte XOR, then 4, 2 and 1 byte: exactly the longest common prefix. */
  method CountMatch(source: array<byte>, ref0: nat, ip0: nat, matchlimit: nat) returns (len: nat)
    requires ref0 < ip0 <= matchlimit <= source.Length
    ensures len == CommonPrefix(source[..], ref0, ip0, matchlimit)
  {
    var ip, ref := ip0, ref0;
    while ip < matchlimit - (STEPSIZE - 1)
      invariant ip0 <= ip <= matchlimit && ip - ref == ip0 - ref0
      invariant CommonPrefix(source[..], ref0, ip0, matchlimit)
             == ip - ip0 + CommonPrefix(source[..], ref, ip, matchlimit)
    {
      var n := CompareWords(source, ref, ip, matchlimit);
      if n < STEPSIZE {
        return ip - ip0 + n;
      }
      ip, ref := ip + STEPSIZE, ref + STEPSIZE;
    }
    len := CountTail(source, ref, ip, matchlimit);
    len := ip - ip0 + len;
  }

  method CompareWords(source: array<byte>, ref: nat, ip: nat, matchlimit: nat) returns (n: nat)
    requires ref < ip && ip + STEPSIZE <= matchlimit <= source.Length
    ensures n <= STEPSIZE
    ensures CommonPrefix(source[..], ref, ip, matchlimit)
         == if n < STEPSIZE then n else n + CommonPrefix(source[..], ref + n, ip + n, matchlimit)
  {
    n := EqualLeadingBytes(source, ref, ip);
    WindowsToSame(source[..], ref, ip, n);
    CommonPrefixSkip(source[..], ref, ip, matchlimit, n);
  }

  lemma WindowsToSame(s: bytes, p: nat, q: nat, n: nat)
    requires p <= q && q + 8 <= |s| && n <= 8
    requires s[p..p + n] == s[q..q + n]
    ensures Same(s, p, q - p, n)
  {
    forall i | p <= i < p + n
      ensures s[i] == s[i + (q - p)]
    {
      assert s[i] == s[p..p + n][i - p] == s[q..q + n][i - p];
    }
  }

  method CountTail(source: array<byte>, ref0: nat, ip0: nat, matchlimit: nat) returns (len: nat)
    requires ref0 < ip0 <= matchlimit <= source.Length && matchlimit - STEPSIZE < ip0
    ensures len == CommonPrefix(source[..], ref0, ip0, matchlimit)
  {
    var four := TailWord(source, ref0, ip0, matchlimit);
    var two := TailHalfWord(source, ref0 + four, ip0 + four, matchlimit);
    len := four + two;
    if ip0 + len < matchlimit && source[ref0 + len] == source[ip0 + len] {
      len := len + 1;
    }
  }

  method TailWord(source: array<byte>, ref: nat, ip: nat, matchlimit: nat) returns (n: nat)
    requires ref < ip <= matchlimit <= source.Length && matchlimit - STEPSIZE < ip
    ensures ip + n <= matchlimit
    ensures CommonPrefix(source[..], ref, ip, matchlimit)
         == n + CommonPrefix(source[..], ref + n, ip + n, matchlimit) < n + 4
  {
    n := 0;
    if ip < matchlimit - 3 {
      SameWord32(source[..], ref, ip);
      if A32(source[..], ref) == A32(source[..], ip) {
        CommonPrefixSkip(source[..], ref, ip, matchlimit, 4);
        n := 4;
      } else {
        CommonPrefixBelow(source[..], ref, ip, matchlimit, 4);
      }
    }
  }

  method TailHalfWord(source: array<byte>, ref: nat, ip: nat, matchlimit: nat) returns (n: nat)
    requires ref < ip <= matchlimit <= source.Length && CommonPrefix(source[..], ref, ip, matchlimit) < 4
    ensures ip + n <= matchlimit
    ensures CommonPrefix(source[..], ref, ip, matchlimit)
         == n + CommonPrefix(source[..], ref + n, ip + n, matchlimit) < n + 2
  {
    n := 0;
    if ip < matchlimit - 1 {
      SameWord16(source[..], ref, ip);
      if A16(source[..], ref) == A16(source[..], ip) {
        CommonPrefixSkip(source[..], ref, ip, matchlimit, 2);
        n := 2;
      } else {
        CommonPrefixBelow(source[..], ref, ip, matchlimit, 2);
      }
    }
  }

  // ---------------------------------------------------------------- searching

  /** Every entry is the position stored last under its hash; all positions stored precede `bound`. */
  ghost predicate Entries(v: Variant, s: bytes, table: array<nat>, log: seq<nat>, bound: int)
    reads table
  {
    Below(log, bound) && forall h | 0 <= h < table.Length :: table[h] == Latest(v, s, log, h)
  }

  lemma EntryIsBelow(v: Variant, s: bytes, table: array<nat>, log: seq<nat>, bound: int, h: nat)
    requires Entries(v, s, table, log, bound) && h < table.Length && 0 < bound
    ensures table[h] == Latest(v, s, log, h) < bound
  {
    LatestBelow(v, s, log, bound, h);
  }

  lemma EntriesStillBelow(v: Variant, s: bytes, table: array<nat>, log: seq<nat>, bound: int, more: int)
    requires Entries(v, s, table, log, bound) && bound <= more
    ensures Entries(v, s, table, log, more)
  {
  }

  /** No position that is stored is truncated: the U16 table is only used where all of them fit. */
  lemma NeverTruncated(v: Variant, size: nat, p: nat)
    requires v.Accepts(size) && p + MFLIMIT <= size
    ensures v.Entry(p) == p
  {
  }

  /** Store a position under the hash of the bytes there. */
  method Store(v: Variant, source: array<byte>, table: array<nat>, h: nat, p: nat,
               ghost log: seq<nat>, ghost bound: int)
    requires v.Accepts(source.Length) && p + MFLIMIT <= source.Length && h < table.Length
    requires HashAt(v, source[..], p) == h && bound <= p + 1 && Entries(v, source[..], table, log, bound)
    modifies table
    ensures Entries(v, source[..], table, log + [p], p + 1) && table[h] == p
  {
    hide HashAt, Variant.Entry, Latest;
    NeverTruncated(v, source.Length, p);
    table[h] := v.Entry(p);
    forall k | 0 <= k < table.Length
      ensures table[k] == Latest(v, source[..], log + [p], k)
    {
      StoreOne(v, source[..], log, p, k);
    }
  }

  /** The search for a match: it makes the probes, and finds the match, or none, that it should. */
  method FindMatch(v: Variant, source: array<byte>, table: array<nat>, ip0: nat, ghost log0: seq<nat>)
    returns (found: bool, ip: nat, ref: nat, ghost log: seq<nat>)
    requires v.Accepts(source.Length) && table.Length == v.TableSize()
    requires 0 < ip0 && ip0 + 4 <= source.Length && Entries(v, source[..], table, log0, ip0)
    modifies table
    ensures Search(v, source[..], log0, ip0, 0) == if found then Some(Found(ip, ref, log)) else None
    ensures found ==> Entries(v, source[..], table, log, ip + 1)
  {
    hide Matching, Latest, Variant.Hash, A32;
    var mflimit := source.Length - MFLIMIT;
    var findMatchAttempts := ATTEMPTS_PER_STEP + 3;
    var forwardIp := ip0;
    var forwardH := v.Hash(A32(source[..], forwardIp));
    log := log0;
    ghost var k: nat := 0;
    while true
      invariant findMatchAttempts == ATTEMPTS_PER_STEP + 3 + k && forwardIp == Probe(ip0, k)
      invariant forwardIp + 4 <= source.Length
      invariant forwardH == HashAt(v, source[..], forwardIp)
      invariant Entries(v, source[..], table, log, forwardIp)
      invariant Search(v, source[..], log0, ip0, 0) == Search(v, source[..], log, ip0, k)
      decreases source.Length - forwardIp
    {
      var h := forwardH;
      var step := findMatchAttempts / ATTEMPTS_PER_STEP;
      findMatchAttempts := findMatchAttempts + 1;
      ip := forwardIp;
      forwardIp := ip + step;
      if mflimit < forwardIp {
        found, ref := false, 0;
        return;
      }
      forwardH := v.Hash(A32(source[..], forwardIp));
      EntryIsBelow(v, source[..], table, log, ip, h);
      ref := table[h];
      Store(v, source, table, h, ip, log, ip);
      TestsMatching(v, source[..], ref, ip);
      k, log := k + 1, log + [ip];
      if !v.TooFar(ip, ref) && A32(source[..], ref) == A32(source[..], ip) {
        found := true;
        return;
      }
    }
  }

  /** Extend the match backwards over bytes not yet emitted. */
  method CatchUp(source: array<byte>, anchor: nat, ip0: nat, ref0: nat) returns (ip: nat, ref: nat)
    requires anchor <= ip0 && Matching(source[..], ref0, ip0)
    ensures var n := Back(source[..], ref0, ip0, anchor);
            ip == ip0 - n && ref == ref0 - n
  {
    ip, ref := ip0, ref0;
    while anchor < ip && 0 < ref && source[ip - 1] == source[ref - 1]
      invariant anchor <= ip <= ip0 && ip0 - ip == ref0 - ref
      invariant ip0 - ip + Back(source[..], ref, ip, anchor) == Back(source[..], ref0, ip0, anchor)
    {
      ip, ref := ip - 1, ref - 1;
    }
  }

  // ---------------------------------------------------------------- emitting

  /** Run-length extension of a literal count: one 255 at a time. */
  method EmitLiteralExtension(dest: array<byte>, op0: nat, n: nat) returns (op: nat)
    requires op0 + n / 255 + 1 <= dest.Length
    modifies dest
    ensures op == op0 + n / 255 + 1
    ensures dest[..op] == old(dest[..op0]) + Extension(n)
  {
    op := op0;
    var len := n;
    while len > 254
      invariant 0 <= len <= n && op0 <= op && op + len / 255 == op0 + n / 255
      invariant dest[..op] + Extension(len) == old(dest[..op0]) + Extension(n)
    {
      op := EmitFull(dest, op, len);
      len := len - 255;
    }
    ghost var before := dest[..op];
    dest[op] := len;
    op := op + 1;
    assert dest[..op] == before + [len];
  }

  /** Run-length extension of a match length: two 255s at a time, then at most one more. */
  method EmitMatchExtension(dest: array<byte>, op0: nat, n: nat) returns (op: nat)
    requires op0 + n / 255 + 1 <= dest.Length
    modifies dest
    ensures op == op0 + n / 255 + 1
    ensures dest[..op] == old(dest[..op0]) + Extension(n)
  {
    op := op0;
    var len := n;
    while len > 509
      invariant 0 <= len <= n && op0 <= op && op + len / 255 == op0 + n / 255
      invariant dest[..op] + Extension(len) == old(dest[..op0]) + Extension(n)
    {
      op := EmitFull(dest, op, len);
      op := EmitFull(dest, op, len - 255);
      len := len - 510;
    }
    if len > 254 {
      op := EmitFull(dest, op, len);
      len := len - 255;
    }
    ghost var before := dest[..op];
    dest[op] := len;
    op := op + 1;
    assert dest[..op] == before + [len];
  }

  /** One 255 of the extension of `len`. */
  method EmitFull(dest: array<byte>, op: nat, len: nat) returns (next: nat)
    requires op < dest.Length && 255 <= len
    modifies dest
    ensures next == op + 1
    ensures dest[..next] + Extension(len - 255) == old(dest[..op]) + Extension(len)
  {
    ghost var before := dest[..op];
    dest[op] := 255;
    next := op + 1;
    assert dest[..next] == before + [255];
    assert before + [255] + Extension(len - 255) == before + ([255] + Extension(len - 255));
  }

  /** Token with its literal half set, and the extension of the literal length. */
  method EmitToken(dest: array<byte>, token: nat, length: nat) returns (op: nat)
    requires token + 2 + length / 255 <= dest.Length
    modifies dest
    ensures op == token + 1 + |LengthExtension(length)| <= dest.Length
    ensures dest[..op] == old(dest[..token]) + ([Token(length, 0)] + LengthExtension(length))
  {
    op := token + 1;
    ghost var before := dest[..token];
    if length >= RUN_MASK {
      dest[token] := RUN_MASK * 16;
      assert dest[..op] == before + [Token(length, 0)];
      op := EmitLiteralExtension(dest, op, length - RUN_MASK);
      assert before + [Token(length, 0)] + Extension(length - RUN_MASK)
          == before + ([Token(length, 0)] + Extension(length - RUN_MASK));
    } else {
      dest[token] := length * 16;
      assert dest[..op] == before + [Token(length, 0)];
      assert [Token(length, 0)] + LengthExtension(length) == [Token(length, 0)];
    }
  }

  /** Token, literal length and literals, the literals by a blind copy that overshoots. */
  method EmitLiterals(source: array<byte>, dest: array<byte>, anchor: nat, ip: nat, token: nat) returns (op: nat)
    requires source != dest && anchor <= ip && ip + MFLIMIT <= source.Length
    requires dest.Length >= CompressBound(source.Length) && 255 * token <= 256 * anchor
    modifies dest
    ensures 255 * op <= 256 * ip + 495 && op <= dest.Length
    ensures dest[..op] == old(dest[..token]) + LiteralPart(source[anchor..ip], 0)
  {
    hide Extension, Token, WildLength, CompressBound;
    var length := ip - anchor;
    LiteralsFit(source.Length, anchor, ip, token);
    op := EmitToken(dest, token, length);
    ghost var head := [Token(length, 0)] + LengthExtension(length);
    WildCopyLiterals(source, anchor, dest, op, length);
    op := op + length;
    assert LiteralPart(source[anchor..ip], 0) == head + source[anchor..ip];
    Associative(old(dest[..token]), head, source[anchor..ip]);
  }

  lemma LiteralsFit(size: nat, anchor: nat, ip: nat, token: nat)
    requires anchor <= ip && ip + MFLIMIT <= size && 255 * token <= 256 * anchor
    ensures var length := ip - anchor;
            var op := token + 1 + |LengthExtension(length)|;
            && token + 2 + length / 255 <= CompressBound(size)
            && anchor + WildLength(length) <= size && op + WildLength(length) <= CompressBound(size)
            && op + length <= CompressBound(size) && 255 * (op + length) <= 256 * ip + 495
  {
  }

  /** Setting the match half of the token completes the literal part. */
  lemma PatchToken(base: bytes, literals: bytes, rest: bytes, extra: nat)
    ensures 0 < |LiteralPart(literals, 0)|
    ensures var before := base + LiteralPart(literals, 0) + rest;
            && before[|base|] == Token(|literals|, 0)
            && before[|base| := Token(|literals|, extra)] == base + LiteralPart(literals, extra) + rest
  {
  }

  /** Offset, match length and token of the match found at `ip`. */
  method EmitMatch(source: array<byte>, dest: array<byte>, token: nat, op0: nat, ip0: nat, ref: nat,
                   ghost base: bytes, ghost literals: bytes)
    returns (op: nat, ip: nat)
    requires source != dest && Matching(source[..], ref, ip0) && ip0 + MFLIMIT <= source.Length
    requires dest.Length >= CompressBound(source.Length) && 255 * op0 <= 256 * ip0 + 495 && op0 <= dest.Length
    requires token == |base| && dest[..op0] == base + LiteralPart(literals, 0)
    modifies dest
    ensures ip == ip0 + CommonPrefix(source[..], ref, ip0, source.Length - LASTLITERALS)
    ensures ip0 + MINMATCH <= ip
    ensures op <= dest.Length
    ensures dest[..op] == base + EncodeSequence(Sequence(literals, ip0 - ref, ip - ip0))
  {
    hide LiteralPart, LengthExtension, EncodeSequence, Same;
    var matchlimit := source.Length - LASTLITERALS;
    op := EmitOffset(dest, op0, ip0 - ref);
    CommonPrefixSkip(source[..], ref, ip0, matchlimit, MINMATCH);
    var len := CountMatch(source, ref + MINMATCH, ip0 + MINMATCH, matchlimit);
    ip := ip0 + MINMATCH + len;
    MatchFits(source.Length, ip0, op, len);
    op := EmitMatchLength(dest, token, op, len, base, literals, LittleEndian16(ip0 - ref));
    EncodeSequenceParts(base, Sequence(literals, ip0 - ref, ip - ip0));
  }

  method EmitOffset(dest: array<byte>, op: nat, offset: Offset) returns (next: nat)
    requires op + 2 <= dest.Length
    modifies dest
    ensures next == op + 2 && dest[..next] == old(dest[..op]) + LittleEndian16(offset)
  {
    dest[op] := offset % 0x100;
    dest[op + 1] := offset / 0x100;
    next := op + 2;
  }

  lemma MatchFits(size: nat, ip: nat, op: nat, len: nat)
    requires 255 * op <= 256 * ip + 1005 && ip + MINMATCH + len + LASTLITERALS <= size
    ensures op + |LengthExtension(len)| <= CompressBound(size)
  {
  }

  lemma EncodeSequenceParts(base: bytes, s: Sequence)
    ensures var extra := s.matchLen - MINMATCH;
            base + LiteralPart(s.literals, extra) + (LittleEndian16(s.offset) + LengthExtension(extra))
            == base + EncodeSequence(s)
  {
  }

  method EmitMatchLength(dest: array<byte>, token: nat, op0: nat, len: nat,
                         ghost base: bytes, ghost literals: bytes, ghost rest: bytes)
    returns (op: nat)
    requires op0 + |LengthExtension(len)| <= dest.Length
    requires token == |base| && dest[..op0] == base + LiteralPart(literals, 0) + rest
    modifies dest
    ensures op == op0 + |LengthExtension(len)|
    ensures dest[..op] == base + LiteralPart(literals, len) + (rest + LengthExtension(len))
  {
    hide LiteralPart, Extension;
    ghost var before := dest[..op0];
    PatchToken(base, literals, rest, len);
    assert dest[token] == before[token] == Token(|literals|, 0);
    op := op0;
    if len >= ML_MASK {
      dest[token] := dest[token] + ML_MASK;
      assert dest[..op0] == before[token := Token(|literals|, len)];
      op := EmitMatchExtension(dest, op0, len - ML_MASK);
      Associative(base + LiteralPart(literals, len), rest, Extension(len - ML_MASK));
    } else {
      dest[token] := dest[token] + len;
      assert dest[..op0] == before[token := Token(|literals|, len)];
      assert rest + LengthExtension(len) == rest;
    }
  }

  // ---------------------------------------------------------------- the compressor

  /** The sequences emitted so far are conforming, and their encoding `out` replays the input up to `anchor`. */
  ghost predicate Progress(s: bytes, out: bytes, anchor: nat, sequences: seq<Sequence>) {
    && anchor <= |s|
    && out == EncodeSequences(sequences)
    && Replay(sequences) == s[..anchor]
    && (forall k | 0 <= k < |sequences| :: sequences[k].offset <= MatchStart(sequences, k))
    && (forall k | 0 <= k < |sequences| :: MatchStart(sequences, k) + MFLIMIT <= |s|)
    && (sequences != [] ==> anchor + LASTLITERALS <= |s|)
  }

  /** A match of equal bytes replays to the input up to its end. */
  lemma ReplayMatch(s: bytes, ref: nat, ip: nat, len: nat)
    requires ref < ip && ip + len <= |s| && Same(s, ref, ip - ref, len)
    ensures CopyBack(s[..ip], ip - ref, len) == s[..ip + len]
  {
    var r := s[..ip + len];
    forall i | ip <= i < |r|
      ensures r[i] == r[i - (ip - ref)]
    {
      assert s[i - (ip - ref)] == s[i];
    }
    assert r[..ip] == s[..ip];
    PeriodicIsCopyBack(s[..ip], ip - ref, len, r);
  }

  lemma ProgressStep(s: bytes, out: bytes, anchor: nat, sequences: seq<Sequence>, ip: nat, ref: nat, end: nat)
    requires Progress(s, out, anchor, sequences) && anchor <= ip
    requires Matching(s, ref, ip) && ip + MINMATCH <= end && Same(s, ref, ip - ref, end - ip)
    requires ip + MFLIMIT <= |s| && end + LASTLITERALS <= |s|
    ensures var q := Sequence(s[anchor..ip], ip - ref, end - ip);
            && Progress(s, EncodeSequences(sequences + [q]), end, sequences + [q])
            && out + EncodeSequence(q) == EncodeSequences(sequences + [q])
  {
    hide Replay, EncodeSequences, EncodeSequence, Same;
    var q := Sequence(s[anchor..ip], ip - ref, end - ip);
    var more := sequences + [q];
    AppendSequence(sequences, q);
    assert s[..anchor] + s[anchor..ip] == s[..ip];
    ReplayMatch(s, ref, ip, end - ip);
    forall k | 0 <= k < |more|
      ensures more[k].offset <= MatchStart(more, k) && MatchStart(more, k) + MFLIMIT <= |s|
    {
      if k < |sequences| {
        assert more[..k] == sequences[..k];
        assert MatchStart(more, k) == MatchStart(sequences, k);
      } else {
        assert more[..k] == sequences;
        assert MatchStart(more, k) == ip;
      }
    }
  }

  /** What follows a match: the end of the chunk, another match at once, or a fresh search. */
  datatype Next = Ended | Chained(ref: nat) | Searching

  /** Complete the sequence whose literals are already out. */
  method EmitSequence(source: array<byte>, dest: array<byte>, token: nat, op0: nat, ip0: nat, ref: nat,
                      ghost anchor: nat, ghost sequences0: seq<Sequence>, ghost s: bytes)
    returns (op: nat, ip: nat, ghost sequences: seq<Sequence>)
    requires source != dest && source[..] == s && dest.Length >= CompressBound(source.Length)
    requires op0 <= dest.Length && 255 * op0 <= 256 * ip0 + 495
    requires anchor <= ip0 && ip0 + MFLIMIT <= source.Length && Matching(s, ref, ip0)
    requires Progress(s, EncodeSequences(sequences0), anchor, sequences0)
    requires token == |EncodeSequences(sequences0)|
    requires dest[..op0] == EncodeSequences(sequences0) + LiteralPart(s[anchor..ip0], 0)
    modifies dest
    ensures ip == ip0 + CommonPrefix(s, ref, ip0, |s| - LASTLITERALS)
    ensures ip0 + MINMATCH <= ip && op <= dest.Length
    ensures sequences == sequences0 + [Sequence(s[anchor..ip0], ip0 - ref, ip - ip0)]
    ensures dest[..op] == EncodeSequences(sequences) && Progress(s, EncodeSequences(sequences), ip, sequences)
  {
    hide Progress, EncodeSequences, EncodeSequence, LiteralPart;
    ghost var base := EncodeSequences(sequences0);
    ghost var literals := s[anchor..ip0];
    op, ip := EmitMatch(source, dest, token, op0, ip0, ref, base, literals);
    CommonPrefixIsLongest(s, ref, ip0, |s| - LASTLITERALS);
    ProgressStep(s, base, anchor, sequences0, ip0, ref, ip);
    ghost var q := Sequence(literals, ip0 - ref, ip - ip0);
    sequences := sequences0 + [q];
  }

  /** Record two positions and look up the candidate for the current one. */
  method NextCandidate(v: Variant, source: array<byte>, table: array<nat>, ip: nat, ghost log: seq<nat>)
    returns (ref: nat)
    requires v.Accepts(source.Length) && table.Length == v.TableSize()
    requires 3 <= ip && ip + MFLIMIT <= source.Length && Entries(v, source[..], table, log, ip - 2)
    modifies table
    ensures ref == Latest(v, source[..], log + [ip - 2], HashAt(v, source[..], ip)) < ip
    ensures Entries(v, source[..], table, log + [ip - 2] + [ip], ip + 1)
  {
    hide A32, Variant.Hash, Entries;
    Store(v, source, table, v.Hash(A32(source[..], ip - 2)), ip - 2, log, ip - 2);
    var h := v.Hash(A32(source[..], ip));
    EntryIsBelow(v, source[..], table, log + [ip - 2], ip - 1, h);
    ref := table[h];
    Store(v, source, table, h, ip, log + [ip - 2], ip - 1);
  }

  /** The buffers a compression run works on: an input `s` that stays put, a large enough output, a table. */
  ghost predicate Buffers(v: Variant, source: array<byte>, dest: array<byte>, table: array<nat>, s: bytes)
    reads source
  {
    && source != dest && source[..] == s
    && v.Accepts(|s|) && table.Length == v.TableSize()
    && dest.Length >= CompressBound(|s|)
  }

  /** After a match: end of chunk, an immediate further match with an empty literal run, or a new search. */
  method AfterMatch(v: Variant, source: array<byte>, dest: array<byte>, table: array<nat>, op0: nat, ip: nat,
                    ghost s: bytes, ghost log: seq<nat>)
    returns (next: Next, op: nat)
    requires Buffers(v, source, dest, table, s) && op0 <= dest.Length
    requires 255 * op0 <= 256 * ip
    requires 3 <= ip <= |s| && Entries(v, s, table, log, ip - 2)
    modifies dest, table
    ensures op <= dest.Length
    ensures dest[..op] == old(dest[..op0]) + (if next.Chained? then [0] else [])
    ensures next.Ended? <==> |s| < ip + MFLIMIT
    ensures !next.Ended? ==> Entries(v, s, table, log + [ip - 2] + [ip], ip + 1)
    ensures !next.Ended? ==> var ref := Latest(v, s, log + [ip - 2], HashAt(v, s, ip));
                             next == if Matching(s, ref, ip) then Chained(ref) else Searching
    ensures next.Chained? ==> 255 * op <= 256 * ip + 495
  {
    hide Matching, Entries, A32, Latest, HashAt;
    next, op := Ended, op0;
    if source.Length - MFLIMIT < ip {
      return;
    }
    var ref := NextCandidate(v, source, table, ip, log);
    TestsMatching(v, s, ref, ip);
    if v.TooFar(ip, ref) || A32(source[..], ref) != A32(source[..], ip) {
      next := Searching;
      return;
    }
    next := Chained(ref);
    dest[op] := 0;
    op := op + 1;
  }

  /** A literal run is out and its match is known: `dest[..op]` ends in its token, length and literals. */
  ghost predicate MatchPending(s: bytes, out: bytes, anchor: nat, ip: nat, ref: nat, sequences: seq<Sequence>) {
    && anchor <= ip && ip + MFLIMIT <= |s| && Matching(s, ref, ip)
    && 255 * |out| <= 256 * ip + 495
    && Progress(s, EncodeSequences(sequences), anchor, sequences)
    && out == EncodeSequences(sequences) + LiteralPart(s[anchor..ip], 0)
  }

  lemma EmptyRunPending(s: bytes, ip: nat, ref: nat, sequences: seq<Sequence>)
    requires ip + MFLIMIT <= |s| && Matching(s, ref, ip)
    requires Progress(s, EncodeSequences(sequences), ip, sequences)
    requires 255 * |EncodeSequences(sequences)| <= 256 * ip
    ensures MatchPending(s, EncodeSequences(sequences) + [0], ip, ip, ref, sequences)
  {
    hide Progress, EncodeSequences, Replay, Matching;
    assert LiteralPart(s[ip..ip], 0) == [0];
  }

  lemma ProgressFits(s: bytes, anchor: nat, sequences: seq<Sequence>)
    requires Progress(s, EncodeSequences(sequences), anchor, sequences)
    ensures 255 * |EncodeSequences(sequences)| <= 256 * anchor
  {
    SequencesBound(sequences);
  }

  /** The `_next_match` loop: a match and every match that starts where the previous one ended. */
  method MatchChain(v: Variant, source: array<byte>, dest: array<byte>, table: array<nat>,
                    token0: nat, op0: nat, ip0: nat, ref0: nat,
                    ghost s: bytes, ghost anchor0: nat, ghost sequences0: seq<Sequence>, ghost log0: seq<nat>)
    returns (ended: bool, op: nat, ip: nat, ghost sequences: seq<Sequence>, ghost log: seq<nat>)
    requires Buffers(v, source, dest, table, s) && op0 <= dest.Length
    requires MatchPending(s, dest[..op0], anchor0, ip0, ref0, sequences0)
    requires token0 == |EncodeSequences(sequences0)|
    requires Entries(v, s, table, log0, ip0 + CommonPrefix(s, ref0, ip0, |s| - LASTLITERALS) - 2)
    modifies dest, table
    ensures ip0 < ip <= |s| && op <= dest.Length
    ensures dest[..op] == EncodeSequences(sequences) && Progress(s, EncodeSequences(sequences), ip, sequences)
    ensures !ended ==> ip + MFLIMIT <= |s| && Entries(v, s, table, log, ip + 1)
    ensures sequences0 + FromMatch(v, s, log0, anchor0, ip0, ref0)
         == sequences + if ended then [] else FromSearch(v, s, log, ip)
  {
    hide Progress, EncodeSequences, EncodeSequence, LiteralPart, CommonPrefix, Same, Matching, Entries, Latest,
         HashAt, FromMatch, BehindMatch, FromSearch;
    op, ip, ended := op0, ip0, false;
    var token: nat, ref: nat := token0, ref0;
    sequences, log := sequences0, log0;
    ghost var anchor: nat := anchor0;
    ghost var all := sequences0 + FromMatch(v, s, log0, anchor0, ip0, ref0);
    MatchIsLong(s, ref, ip);
    while true
      invariant source[..] == s && op <= dest.Length && ip0 <= ip && ref < ip
      invariant MatchPending(s, dest[..op], anchor, ip, ref, sequences)
      invariant token == |EncodeSequences(sequences)|
      invariant Entries(v, s, table, log, ip + CommonPrefix(s, ref, ip, |s| - LASTLITERALS) - 2)
      invariant sequences + FromMatch(v, s, log, anchor, ip, ref) == all
      decreases |s| - ip
    {
      FromMatchStep(v, s, log, anchor, ip, ref, sequences);
      op, ip, sequences := EmitSequence(source, dest, token, op, ip, ref, anchor, sequences, s);
      ProgressFits(s, ip, sequences);
      BehindMatchStep(v, s, log, ip);
      var next;
      token := op;
      next, op := AfterMatch(v, source, dest, table, op, ip, s, log);
      if !next.Ended? {
        log := log + [ip - 2] + [ip];
      }
      if !next.Chained? {
        ended := next.Ended?;
        return;
      }
      ref, anchor := next.ref, ip;
      EmptyRunPending(s, ip, ref, sequences);
      MatchIsLong(s, ref, ip);
      EntriesStillBelow(v, s, table, log, ip + 1, ip + CommonPrefix(s, ref, ip, |s| - LASTLITERALS) - 2);
    }
  }

  /** One sequence of those from a match on. */
  lemma FromMatchStep(v: Variant, s: bytes, log: seq<nat>, anchor: nat, ip: nat, ref: nat, sequences: seq<Sequence>)
    requires anchor <= ip && ip + MFLIMIT <= |s| && Matching(s, ref, ip)
    ensures var n := CommonPrefix(s, ref, ip, |s| - LASTLITERALS);
            && MINMATCH <= n
            && sequences + FromMatch(v, s, log, anchor, ip, ref)
               == sequences + [Sequence(s[anchor..ip], ip - ref, n)] + BehindMatch(v, s, log, ip + n)
  {
    hide BehindMatch, Matching;
    MatchIsLong(s, ref, ip);
  }

  lemma BehindMatchStep(v: Variant, s: bytes, log: seq<nat>, ip: nat)
    requires 2 <= ip <= |s|
    ensures BehindMatch(v, s, log, ip)
         == if |s| < ip + MFLIMIT then []
            else
              var ref, more := Latest(v, s, log + [ip - 2], HashAt(v, s, ip)), log + [ip - 2] + [ip];
              if Matching(s, ref, ip) then FromMatch(v, s, more, ip, ip, ref) else FromSearch(v, s, more, ip)
  {
    hide Matching, FromMatch, FromSearch;
  }

  /** The last literal run, copied by memcpy, closes the block. */
  method EmitLast(source: array<byte>, dest: array<byte>, op0: nat, anchor: nat, ghost sequences: seq<Sequence>)
    returns (op: nat)
    requires source != dest && dest.Length >= CompressBound(source.Length) && op0 <= dest.Length
    requires dest[..op0] == EncodeSequences(sequences)
    requires Progress(source[..], EncodeSequences(sequences), anchor, sequences)
    modifies dest
    ensures op <= dest.Length
    ensures ValidBlock(Block(sequences, source[anchor..]))
    ensures BlockContents(Block(sequences, source[anchor..])) == source[..]
    ensures dest[..op] == EncodeBlock(Block(sequences, source[anchor..]))
  {
    hide EncodeSequences, Progress, ValidBlock, BlockContents;
    ProgressFits(source[..], anchor, sequences);
    BlockOfProgress(source[..], anchor, sequences);
    assert source[..][anchor..] == source[anchor..];
    var lastRun := source.Length - anchor;
    ghost var head := [Token(lastRun, 0)] + LengthExtension(lastRun);
    op := EmitToken(dest, op0, lastRun);
    CopyLiterals(source, anchor, dest, op, lastRun);
    op := op + lastRun;
    assert source[anchor..] == source[anchor..anchor + lastRun];
    assert EncodeSequences(sequences) + head + source[anchor..]
        == EncodeSequences(sequences) + (head + source[anchor..]);
  }

  lemma BlockOfProgress(s: bytes, anchor: nat, sequences: seq<Sequence>)
    requires Progress(s, EncodeSequences(sequences), anchor, sequences)
    ensures anchor <= |s|
    ensures var b := Block(sequences, s[anchor..]);
            ValidBlock(b) && BlockContents(b) == s
  {
    hide EncodeSequences, Replay, MatchStart;
    assert s == s[..anchor] + s[anchor..];
  }

  /** The table of a run, in which the large variant has stored position 0. */
  method StartTable(v: Variant, source: array<byte>) returns (table: array<nat>, ghost log: seq<nat>)
    requires v.Accepts(source.Length) && MINLENGTH <= source.Length
    ensures fresh(table) && table.Length == v.TableSize()
    ensures log == (if v.Large? then [0] else []) && Entries(v, source[..], table, log, 1)
  {
    hide Variant.Hash, A32;
    table := new nat[v.TableSize()](_ => 0);
    log := [];
    if v.Large? {
      Store(v, source, table, v.Hash(A32(source[..], 0)), 0, log, 1);
      log := log + [0];
    }
  }

  /** LZ4_compressCtx and LZ4_compress64kCtx. */
  method CompressCtx(v: Variant, source: array<byte>, dest: array<byte>) returns (r: nat, ghost b: Block)
    requires source != dest && v.Accepts(source.Length) && dest.Length >= CompressBound(source.Length)
    modifies dest
    ensures ValidBlock(b) && BlockContents(b) == source[..] && b.sequences == Greedy(v, source[..])
    ensures r <= dest.Length && dest[..r] == EncodeBlock(b)
  {
    hide FromSearch, Progress, EncodeSequences, Entries, ValidBlock, BlockContents, EncodeBlock;
    var op: nat, anchor: nat := 0, 0;
    ghost var sequences: seq<Sequence> := [];
    ghost var s := source[..];
    assert dest[..0] == [];
    NoProgress(s);
    if MINLENGTH <= source.Length {
      op, anchor, sequences := MainLoop(v, source, dest, s);
    }
    r := EmitLast(source, dest, op, anchor, sequences);
    b := Block(sequences, source[anchor..]);
  }

  /** All sequences. */
  method MainLoop(v: Variant, source: array<byte>, dest: array<byte>, ghost s: bytes)
    returns (op: nat, anchor: nat, ghost sequences: seq<Sequence>)
    requires source != dest && source[..] == s && v.Accepts(|s|) && dest.Length >= CompressBound(|s|)
    requires MINLENGTH <= |s|
    modifies dest
    ensures op <= dest.Length && anchor <= |s| && dest[..op] == EncodeSequences(sequences)
    ensures Progress(s, EncodeSequences(sequences), anchor, sequences)
    ensures sequences == Greedy(v, s)
  {
    hide FromSearch, Progress, EncodeSequences, Entries, CompressBound;
    op, anchor, sequences := 0, 0, [];
    assert dest[..0] == [];
    NoProgress(s);
    ghost var log;
    var table;
    table, log := StartTable(v, source);
    var ip := 1;
    while true
      invariant source[..] == s && ip == anchor + 1 && ip + 4 <= |s| && op <= dest.Length
      invariant dest[..op] == EncodeSequences(sequences)
      invariant Progress(s, EncodeSequences(sequences), anchor, sequences)
      invariant Entries(v, s, table, log, ip)
      invariant sequences + FromSearch(v, s, log, anchor) == Greedy(v, s)
      decreases |s| - ip
    {
      var ended, found;
      found, ended, op, ip, sequences, log := SearchAndEmit(v, source, dest, table, op, ip, anchor, s, sequences, log);
      if !found {
        return;
      }
      anchor := ip;
      if ended {
        return;
      }
      ip := ip + 1;
    }
  }

  lemma NoProgress(s: bytes)
    ensures EncodeSequences([]) == [] && Progress(s, EncodeSequences([]), 0, [])
  {
  }

  /** One round of the main loop: find a match, extend it backwards, emit it and its chain. */
  method SearchAndEmit(v: Variant, source: array<byte>, dest: array<byte>, table: array<nat>,
                       op0: nat, ip0: nat, anchor: nat,
                       ghost s: bytes, ghost sequences0: seq<Sequence>, ghost log0: seq<nat>)
    returns (found: bool, ended: bool, op: nat, ip: nat, ghost sequences: seq<Sequence>, ghost log: seq<nat>)
    requires Buffers(v, source, dest, table, s) && op0 <= dest.Length
    requires ip0 == anchor + 1 && ip0 + 4 <= |s|
    requires dest[..op0] == EncodeSequences(sequences0)
    requires Progress(s, EncodeSequences(sequences0), anchor, sequences0) && Entries(v, s, table, log0, ip0)
    modifies dest, table
    ensures op <= dest.Length && ip <= |s|
    ensures dest[..op] == EncodeSequences(sequences)
    ensures Progress(s, EncodeSequences(sequences), if found then ip else anchor, sequences)
    ensures found ==> anchor < ip
    ensures found && !ended ==> ip + MFLIMIT <= |s| && Entries(v, s, table, log, ip + 1)
    ensures sequences0 + FromSearch(v, s, log0, anchor)
         == sequences + if found && !ended then FromSearch(v, s, log, ip) else []
  {
    hide Progress, EncodeSequences, LiteralPart, CommonPrefix, Entries, Same, FromMatch, Matching, Search, Back;
    op, ended, sequences := op0, false, sequences0;
    var ref;
    FromSearchStep(v, s, log0, anchor);
    found, ip, ref, log := FindMatch(v, source, table, ip0, log0);
    if !found {
      ip := anchor;
      return;
    }
    ghost var seen := ip + 1;
    ip, ref := CatchUp(source, anchor, ip, ref);
    CommonPrefixSkip(s, ref, ip, |s| - LASTLITERALS, seen + 3 - ip);
    EntriesStillBelow(v, s, table, log, seen, ip + CommonPrefix(s, ref, ip, |s| - LASTLITERALS) - 2);
    ProgressFits(s, anchor, sequences);
    var token := op;
    op := EmitLiterals(source, dest, anchor, ip, token);
    assert source[anchor..ip] == s[anchor..ip];
    ended, op, ip, sequences, log := MatchChain(v, source, dest, table, token, op, ip, ref, s, anchor, sequences, log);
  }

  /** What a search leads to: nothing, or a match grown backwards and what follows it. */
  lemma FromSearchStep(v: Variant, s: bytes, log: seq<nat>, anchor: nat)
    requires anchor <= |s|
    ensures match Search(v, s, log, anchor + 1, 0)
            case None => FromSearch(v, s, log, anchor) == []
            case Some(Found(ip, ref, more)) =>
              && anchor < ip && ip + MFLIMIT < |s| && Matching(s, ref, ip)
              && var n := Back(s, ref, ip, anchor);
                 && Matching(s, ref - n, ip - n) && Same(s, ref - n, ip - ref, n + MINMATCH)
                 && FromSearch(v, s, log, anchor) == FromMatch(v, s, more, anchor, ip - n, ref - n)
  {
    hide Matching, Search, FromMatch, Same, Back;
    SearchFits(v, s, log, anchor + 1, 0);
    match Search(v, s, log, anchor + 1, 0)
    case None =>
    case Some(Found(ip, ref, _)) => BackMatches(s, ref, ip, anchor);
  }

  /** LZ4_compress picks the variant by the size of the input. */
  method Compress(source: array<byte>, dest: array<byte>) returns (r: nat, ghost b: Block)
    requires source != dest && source.Length < 0x8000_0000 && dest.Length >= CompressBound(source.Length)
    modifies dest
    ensures ValidBlock(b) && BlockContents(b) == source[..]
    ensures b.sequences == Greedy(if source.Length < 65547 then Small else Large, source[..])
    ensures r <= dest.Length && dest[..r] == EncodeBlock(b)
    ensures 14 <= source.Length && AllEqual(source[..]) ==> r <= source.Length / 255 + 11
  {
    hide ValidBlock, BlockContents, EncodeBlock, Greedy;
    if source.Length < LZ4_64KLIMIT {
      r, b := CompressCtx(Small, source, dest);
    } else {
      r, b := CompressCtx(Large, source, dest);
    }
    if 14 <= source.Length && AllEqual(source[..]) {
      EqualBytesSize(if source.Length < 65547 then Small else Large, source[..], b);
    }
  }
}
