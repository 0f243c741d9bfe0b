/** Both decoders on the bytes of a valid block, whatever the size of the output buffer. */
module Lz4RoundTrip {
  import opened Bytes
  import opened Lz4Format
  import opened Lz4Copy
  import opened Lz4Decoder

  /** `part` is found in `src` at position `p`. */
  ghost predicate At(src: bytes, p: nat, part: bytes) {
    p + |part| <= |src| && src[p..p + |part|] == part
  }

  lemma AtSplit(src: bytes, p: nat, a: bytes, b: bytes)
    requires At(src, p, a + b)
    ensures At(src, p, a) && At(src, p + |a|, b)
  {
    var whole := src[p..p + |a + b|];
    assert src[p..p + |a|] == whole[..|a|];
    assert src[p + |a|..p + |a| + |b|] == whole[|a|..];
  }

  lemma {:induction false} ReadExtensionOf(src: bytes, p: nat, n: nat)
    requires At(src, p, Extension(n))
    ensures ReadExtension(src, p) == (n, p + |Extension(n)|, true)
    decreases n
  {
    assert src[p] == src[p..p + |Extension(n)|][0];
    if n >= 255 {
      AtSplit(src, p, [255], Extension(n - 255));
      ReadExtensionOf(src, p + 1, n - 255);
    }
  }

  lemma ReadLengthOf(src: bytes, p: nat, n: nat)
    requires p <= |src| && At(src, p, LengthExtension(n))
    ensures ReadLength(src, p, Nibble(n)) == (n, p + |LengthExtension(n)|, true)
  {
    if n >= 15 {
      ReadExtensionOf(src, p, n - 15);
    }
  }

  /** Where the bytes of sequence `k` start, and what has been output by then. */
  function Position(b: Block, k: nat): nat
    requires k <= |b.sequences|
  {
    |EncodeSequences(b.sequences[..k])|
  }

  function OutputAt(b: Block, k: nat): bytes
    requires k <= |b.sequences|
  {
    Replay(b.sequences[..k])
  }

  lemma SequenceLayout(b: Block, k: nat)
    requires k < |b.sequences|
    ensures At(EncodeBlock(b), Position(b, k), EncodeSequence(b.sequences[k]))
    ensures Position(b, k + 1) == Position(b, k) + |EncodeSequence(b.sequences[k])|
    ensures Position(b, k + 1) + 1 + |b.last| <= |EncodeBlock(b)|
  {
    EncodeStep(b.sequences, k);
    EncodePrefix(b.sequences, k + 1);
  }

  lemma LastLayout(b: Block)
    ensures At(EncodeBlock(b), Position(b, |b.sequences|), LiteralPart(b.last, 0))
    ensures |EncodeBlock(b)| == Position(b, |b.sequences|) + |LiteralPart(b.last, 0)|
    ensures BlockContents(b) == OutputAt(b, |b.sequences|) + b.last
  {
    assert b.sequences[..|b.sequences|] == b.sequences;
  }

  /** The token and the literals of a run, read back from the encoded bytes. */
  lemma LiteralPartRead(src: bytes, p: nat, literals: bytes, extra: nat)
    requires At(src, p, LiteralPart(literals, extra))
    ensures src[p] == Token(|literals|, extra)
    ensures src[p] / 16 == Nibble(|literals|) && src[p] % 16 == Nibble(extra)
    ensures var next := p + 1 + |LengthExtension(|literals|)|;
            && ReadLength(src, p + 1, src[p] / 16) == (|literals|, next, true)
            && At(src, next, literals)
            && next + |literals| == p + |LiteralPart(literals, extra)|
  {
    var n := |literals|;
    AtSplit(src, p, [Token(n, extra)] + LengthExtension(n), literals);
    AtSplit(src, p, [Token(n, extra)], LengthExtension(n));
    assert src[p] == src[p..p + 1][0];
    ReadLengthOf(src, p + 1, n);
  }

  /** The offset and the match length, read back from the encoded bytes. */
  lemma MatchPartRead(src: bytes, p: nat, offset: Offset, extra: nat)
    requires At(src, p, MatchPart(offset, extra))
    ensures 2 <= |MatchPart(offset, extra)|
    ensures p + 2 <= |src| && src[p] as int + 0x100 * (src[p + 1] as int) == offset
    ensures ReadLength(src, p + 2, Nibble(extra)) == (extra, p + |MatchPart(offset, extra)|, true)
  {
    AtSplit(src, p, LittleEndian16(offset), LengthExtension(extra));
    assert src[p] == src[p..p + 2][0] && src[p + 1] == src[p..p + 2][1];
    ReadLengthOf(src, p + 2, extra);
  }

  /** Input position after the literals of a sequence whose token is at `p`. */
  function AfterLiterals(p: nat, s: Sequence): nat {
    p + 1 + |LengthExtension(|s.literals|)| + |s.literals|
  }

  /** The literals of `s` are found at `p`, far enough from the end for the wild copy. */
  ghost predicate ReadsLiterals(src: bytes, p: nat, s: Sequence) {
    var lit, mid := p + 1 + |LengthExtension(|s.literals|)|, AfterLiterals(p, s);
    && p < |src| && mid + COPYLENGTH <= |src|
    && ReadLength(src, p + 1, src[p] / 16) == (|s.literals|, lit, true)
    && src[lit..mid] == s.literals
  }

  /** The match of `s`, whose token is at `p`, is found at `mid` and ends at `next`. */
  ghost predicate ReadsMatch(src: bytes, p: nat, mid: nat, s: Sequence, next: nat) {
    && p < mid && mid + 2 <= next <= |src|
    && src[mid] as int + 0x100 * (src[mid + 1] as int) == s.offset
    && ReadLength(src, mid + 2, src[p] % 16) == (s.matchLen - MINMATCH, next, true)
  }

  ghost predicate Reads(src: bytes, p: nat, s: Sequence, next: nat) {
    ReadsLiterals(src, p, s) && ReadsMatch(src, p, AfterLiterals(p, s), s, next)
  }

  lemma ReadsLiteralsOf(src: bytes, p: nat, s: Sequence)
    requires At(src, p, LiteralPart(s.literals, s.matchLen - MINMATCH))
    requires p + |LiteralPart(s.literals, s.matchLen - MINMATCH)| + COPYLENGTH <= |src|
    ensures ReadsLiterals(src, p, s)
    ensures src[p] % 16 == Nibble(s.matchLen - MINMATCH)
    ensures AfterLiterals(p, s) == p + |LiteralPart(s.literals, s.matchLen - MINMATCH)|
  {
    hide LiteralPart, LengthExtension, ReadLength;
    LiteralPartRead(src, p, s.literals, s.matchLen - MINMATCH);
  }

  lemma ReadsOf(src: bytes, p: nat, s: Sequence, next: nat)
    requires At(src, p, EncodeSequence(s)) && next == p + |EncodeSequence(s)|
    requires next + 1 + LASTLITERALS <= |src|
    ensures Reads(src, p, s, next)
  {
    hide LiteralPart, MatchPart, ReadLength, ReadsLiterals;
    var extra := s.matchLen - MINMATCH;
    AtSplit(src, p, LiteralPart(s.literals, extra), MatchPart(s.offset, extra));
    assert |MatchPart(s.offset, extra)| >= 2 by {
      MatchPartRead(src, p + |LiteralPart(s.literals, extra)|, s.offset, extra);
    }
    ReadsLiteralsOf(src, p, s);
    MatchPartRead(src, AfterLiterals(p, s), s.offset, extra);
  }

  lemma LiteralsOf(src: bytes, p: nat, s: Sequence, out: bytes, capacity: nat)
    requires ReadsLiterals(src, p, s) && |out| <= capacity && |s.literals| <= INT_MAX
    ensures var mid := AfterLiterals(p, s);
            Literals(src, p + 1, src[p], out, capacity)
            == if |out| + |s.literals| + COPYLENGTH <= capacity then Continue(mid, out + s.literals, true)
               else if |out| + |s.literals| <= capacity then Stop(Malformed(mid))
               else Stop(Malformed(mid - |s.literals|))
    ensures |out| + |s.literals| + COPYLENGTH <= capacity ==>
              TrustedLiterals(src, p + 1, src[p], out, capacity)
              == Continue(AfterLiterals(p, s), out + s.literals, true)
  {
  }

  lemma MatchOf(src: bytes, p: nat, mid: nat, s: Sequence, next: nat, out: bytes, capacity: nat)
    requires ReadsMatch(src, p, mid, s, next) && s.offset <= |out| <= capacity && s.matchLen <= INT_MAX
    ensures var copied := CopyBack(out, s.offset, s.matchLen);
            && Match(src, mid, src[p], out, capacity)
               == (if |copied| < capacity then Continue(next, copied, true)
                   else if |copied| == capacity then Stop(Decoded(next, copied, true))
                   else Stop(Malformed(next)))
            && TrustedMatch(src, mid, src[p], out, capacity) == Match(src, mid, src[p], out, capacity)
  {
  }

  lemma DecodeStep(src: bytes, p: nat, s: Sequence, next: nat, out: bytes, capacity: nat)
    requires Reads(src, p, s, next) && |out| <= capacity && s.offset <= |out| + |s.literals|
    requires |s.literals| <= INT_MAX && s.matchLen <= INT_MAX
    ensures |out| + |s.literals| + COPYLENGTH > capacity ==> DecodeFrom(src, p, out, capacity).Malformed?
    ensures |out| + |s.literals| + COPYLENGTH <= capacity ==>
              var copied := CopyBack(out + s.literals, s.offset, s.matchLen);
              DecodeFrom(src, p, out, capacity)
              == if |copied| < capacity then DecodeFrom(src, next, copied, capacity)
                 else if |copied| == capacity then Decoded(next, copied, true)
                 else Malformed(next)
  {
    LiteralsOf(src, p, s, out, capacity);
    if |out| + |s.literals| + COPYLENGTH <= capacity {
      MatchOf(src, p, AfterLiterals(p, s), s, next, out + s.literals, capacity);
    }
  }

  lemma DecodeTrustedStep(src: bytes, p: nat, s: Sequence, next: nat, out: bytes, osize: nat)
    requires Reads(src, p, s, next) && s.offset <= |out| + |s.literals|
    requires |out| + |s.literals| + s.matchLen < osize && |out| + |s.literals| + COPYLENGTH <= osize <= INT_MAX
    ensures DecodeTrusted(src, p, out, osize)
         == DecodeTrusted(src, next, CopyBack(out + s.literals, s.offset, s.matchLen), osize)
  {
    LiteralsOf(src, p, s, out, osize);
    MatchOf(src, p, AfterLiterals(p, s), s, next, out + s.literals, osize);
  }

  /** The end rules in the input: the literals of sequence `k` are followed by at least 8 encoded bytes. */
  lemma SequenceRead(b: Block, k: nat)
    requires ValidBlock(b) && k < |b.sequences|
    ensures Reads(EncodeBlock(b), Position(b, k), b.sequences[k], Position(b, k + 1))
  {
    SequenceLayout(b, k);
    ReadsOf(EncodeBlock(b), Position(b, k), b.sequences[k], Position(b, k + 1));
  }

  /** And in the output: at least 12 bytes follow its literals, and its match reaches back into the output. */
  lemma SequenceOutput(b: Block, k: nat)
    requires ValidBlock(b) && k < |b.sequences|
    ensures |OutputAt(b, k)| + |b.sequences[k].literals| + MFLIMIT <= |BlockContents(b)|
    ensures b.sequences[k].offset <= |OutputAt(b, k)| + |b.sequences[k].literals|
    ensures b.sequences[k].matchLen <= |BlockContents(b)|
    ensures OutputAt(b, k + 1)
         == CopyBack(OutputAt(b, k) + b.sequences[k].literals, b.sequences[k].offset, b.sequences[k].matchLen)
  {
    ReplayStep(b.sequences, k);
    OutputIsPrefix(b, k + 1);
    assert MatchStart(b.sequences, k) == |OutputAt(b, k)| + |b.sequences[k].literals|;
  }

  /** The last literal run: both decoders stop at it, and refuse it when it does not fit. */
  lemma LastStops(b: Block, capacity: nat)
    requires |OutputAt(b, |b.sequences|)| <= capacity && |BlockContents(b)| <= INT_MAX
    ensures var e, p, out := EncodeBlock(b), Position(b, |b.sequences|), OutputAt(b, |b.sequences|);
            && p < |e|
            && Literals(e, p + 1, e[p], out, capacity)
               == Stop(if |BlockContents(b)| <= capacity then Decoded(|e|, BlockContents(b), true)
                       else Malformed(|e| - |b.last|))
            && (|BlockContents(b)| == capacity ==>
                  TrustedLiterals(e, p + 1, e[p], out, capacity) == Stop(Decoded(|e|, BlockContents(b), true)))
  {
    hide EncodeBlock, EncodeSequences, Replay, LiteralPart, LengthExtension, ReadLength, BlockContents, Literals,
         TrustedLiterals;
    var e, p := EncodeBlock(b), Position(b, |b.sequences|);
    LastLayout(b);
    LiteralPartRead(e, p, b.last, 0);
    assert p < |e|;
    RunToTheEnd(e, p, b.last, OutputAt(b, |b.sequences|), capacity);
  }

  /** A literal run that ends with the input. */
  lemma RunToTheEnd(src: bytes, p: nat, literals: bytes, out: bytes, capacity: nat)
    requires p < |src| && |out| <= capacity && |literals| <= INT_MAX
    requires ReadLength(src, p + 1, src[p] / 16) == (|literals|, |src| - |literals|, true)
    requires |literals| <= |src| && src[|src| - |literals|..] == literals
    ensures Literals(src, p + 1, src[p], out, capacity)
         == Stop(if |out| + |literals| <= capacity then Decoded(|src|, out + literals, true)
                 else Malformed(|src| - |literals|))
    ensures |out| + |literals| == capacity ==>
              TrustedLiterals(src, p + 1, src[p], out, capacity) == Stop(Decoded(|src|, out + literals, true))
  {
    hide ReadLength;
    assert src[|src| - |literals|..|src|] == literals;
  }

  lemma LastRead(b: Block, capacity: nat)
    requires |OutputAt(b, |b.sequences|)| <= capacity && |BlockContents(b)| <= INT_MAX
    ensures var e, p, out := EncodeBlock(b), Position(b, |b.sequences|), OutputAt(b, |b.sequences|);
            && p < |e|
            && DecodeFrom(e, p, out, capacity)
               == (if |BlockContents(b)| <= capacity then Decoded(|e|, BlockContents(b), true)
                   else Malformed(|e| - |b.last|))
            && (|BlockContents(b)| == capacity ==>
                  DecodeTrusted(e, p, out, capacity) == Decoded(|e|, BlockContents(b), true))
  {
    hide EncodeBlock, Replay, BlockContents, Literals, TrustedLiterals, EncodeSequences;
    LastStops(b, capacity);
  }

  lemma OutputIsPrefix(b: Block, k: nat)
    requires k <= |b.sequences|
    ensures OutputAt(b, k) <= BlockContents(b)
    ensures k < |b.sequences| && ValidBlock(b) ==> |OutputAt(b, k + 1)| + LASTLITERALS <= |BlockContents(b)|
  {
    ReplayPrefix(b.sequences, k);
    if k < |b.sequences| {
      ReplayPrefix(b.sequences, k + 1);
    }
  }

  /** From sequence `k` on, a buffer that is large enough receives exactly the contents of the block. */
  lemma {:induction false} DecodeFromSequence(b: Block, k: nat, capacity: nat)
    requires ValidBlock(b) && k <= |b.sequences| && |BlockContents(b)| <= capacity && |BlockContents(b)| <= INT_MAX
    ensures |OutputAt(b, k)| <= capacity && Position(b, k) <= |EncodeBlock(b)|
    ensures DecodeFrom(EncodeBlock(b), Position(b, k), OutputAt(b, k), capacity)
         == Decoded(|EncodeBlock(b)|, BlockContents(b), true)
    decreases |b.sequences| - k
  {
    OutputIsPrefix(b, k);
    var e, p, out := EncodeBlock(b), Position(b, k), OutputAt(b, k);
    if k == |b.sequences| {
      LastRead(b, capacity);
    } else {
      var s, next := b.sequences[k], Position(b, k + 1);
      SequenceRead(b, k);
      SequenceOutput(b, k);
      DecodeStep(e, p, s, next, out, capacity);
      DecodeFromSequence(b, k + 1, capacity);
    }
  }

  /** A buffer that is too small never yields a size other than its capacity. */
  lemma {:induction false} DecodeFromSequenceShort(b: Block, k: nat, capacity: nat)
    requires ValidBlock(b) && k <= |b.sequences| && |OutputAt(b, k)| <= capacity < |BlockContents(b)| <= INT_MAX
    ensures Position(b, k) <= |EncodeBlock(b)|
    ensures match DecodeFrom(EncodeBlock(b), Position(b, k), OutputAt(b, k), capacity)
            case Decoded(_, out, _) => |out| == capacity && out <= BlockContents(b)
            case Malformed(_) => true
            case _ => false
    decreases |b.sequences| - k
  {
    OutputIsPrefix(b, k);
    var e, p, out := EncodeBlock(b), Position(b, k), OutputAt(b, k);
    if k == |b.sequences| {
      LastRead(b, capacity);
    } else {
      var s, next := b.sequences[k], Position(b, k + 1);
      SequenceRead(b, k);
      SequenceOutput(b, k);
      DecodeStep(e, p, s, next, out, capacity);
      OutputIsPrefix(b, k + 1);
      if |OutputAt(b, k + 1)| <= capacity {
        DecodeFromSequenceShort(b, k + 1, capacity);
      }
    }
  }

  /** The decoder that knows the original size reads exactly the block and restores its contents. */
  lemma {:induction false} DecodeTrustedSequence(b: Block, k: nat)
    requires ValidBlock(b) && k <= |b.sequences| && |BlockContents(b)| <= INT_MAX
    ensures |OutputAt(b, k)| <= |BlockContents(b)| && Position(b, k) <= |EncodeBlock(b)|
    ensures DecodeTrusted(EncodeBlock(b), Position(b, k), OutputAt(b, k), |BlockContents(b)|)
         == Decoded(|EncodeBlock(b)|, BlockContents(b), true)
    decreases |b.sequences| - k
  {
    OutputIsPrefix(b, k);
    var e, p, out := EncodeBlock(b), Position(b, k), OutputAt(b, k);
    if k == |b.sequences| {
      LastRead(b, |BlockContents(b)|);
    } else {
      var s, next := b.sequences[k], Position(b, k + 1);
      SequenceRead(b, k);
      SequenceOutput(b, k);
      DecodeTrustedStep(e, p, s, next, out, |BlockContents(b)|);
      DecodeTrustedSequence(b, k + 1);
    }
  }

  // ---------------------------------------------------------------- which branch ends the block

  /**
   * Both decoders take the branch of the last sequence, which copies the literals and stops, on exactly the
   * last sequence of a block: before it they go on with a match.
   */
  lemma LastBranchExactly(b: Block, k: nat, capacity: nat)
    requires ValidBlock(b) && k <= |b.sequences| && |BlockContents(b)| <= capacity && |BlockContents(b)| <= INT_MAX
    ensures var e, p, out := EncodeBlock(b), Position(b, k), OutputAt(b, k);
            && p < |e| && |out| <= capacity
            && (Literals(e, p + 1, e[p], out, capacity).Continue? <==> k < |b.sequences|)
            && (|BlockContents(b)| == capacity ==>
                  (TrustedLiterals(e, p + 1, e[p], out, capacity).Continue? <==> k < |b.sequences|))
  {
    hide EncodeBlock, Literals, TrustedLiterals, Replay, EncodeSequences, ReadsLiterals;
    var e, p, out := EncodeBlock(b), Position(b, k), OutputAt(b, k);
    if k == |b.sequences| {
      OutputIsPrefix(b, k);
      LastStops(b, capacity);
    } else {
      SequenceRead(b, k);
      SequenceOutput(b, k);
      ReadsInside(e, p, b.sequences[k]);
      LiteralsOf(e, p, b.sequences[k], out, capacity);
    }
  }

  lemma ReadsInside(src: bytes, p: nat, s: Sequence)
    requires ReadsLiterals(src, p, s)
    ensures p < |src|
  {
  }

  // ---------------------------------------------------------------- main results

  lemma DecodeOfEncode(b: Block, capacity: nat)
    requires ValidBlock(b) && |BlockContents(b)| <= INT_MAX
    ensures var r := DecodeFrom(EncodeBlock(b), 0, [], capacity);
            if |BlockContents(b)| <= capacity then
              r == Decoded(|EncodeBlock(b)|, BlockContents(b), true)
            else
              r.Malformed? || (r.Decoded? && |r.out| == capacity && r.out <= BlockContents(b))
  {
    assert b.sequences[..0] == [];
    if |BlockContents(b)| <= capacity {
      DecodeFromSequence(b, 0, capacity);
    } else {
      DecodeFromSequenceShort(b, 0, capacity);
    }
  }

  lemma DecodeTrustedOfEncode(b: Block)
    requires ValidBlock(b) && |BlockContents(b)| <= INT_MAX
    ensures DecodeTrusted(EncodeBlock(b), 0, [], |BlockContents(b)|)
         == Decoded(|EncodeBlock(b)|, BlockContents(b), true)
  {
    assert b.sequences[..0] == [];
    DecodeTrustedSequence(b, 0);
  }
}
