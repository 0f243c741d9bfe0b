/**
 * The LZ4 block format as both halves of the codec understand it: a list of sequences (a literal run
 * followed by a back reference) closed by a last literal run.  `Replay` gives a block its meaning, one
 * byte at a time; `EncodeBlock` gives it its bytes.
 */
module Lz4Format {
  import opened Bytes

  const MINMATCH := 4
  const COPYLENGTH := 8
  const LASTLITERALS := 5
  const MFLIMIT := COPYLENGTH + MINMATCH
  const MINLENGTH := MFLIMIT + 1
  const MAX_DISTANCE := 0xffff
  const RUN_MASK := 15
  const ML_MASK := 15

  type Offset = n: int | 1 <= n <= MAX_DISTANCE witness 1

  type MatchLength = n: int | MINMATCH <= n witness MINMATCH

  datatype Sequence = Sequence(literals: bytes, offset: Offset, matchLen: MatchLength)

  datatype Block = Block(sequences: seq<Sequence>, last: bytes)

  // ---------------------------------------------------------------- meaning

  /** The byte `offset` positions before the end of `out`; 0 when there is none. */
  function ByteBack(out: bytes, offset: nat): byte {
    if 1 <= offset <= |out| then out[|out| - offset] else 0
  }

  /** Copy `n` bytes from `offset` back, one at a time, so that the copy may read what it just wrote. */
  function CopyBack(out: bytes, offset: nat, n: nat): (r: bytes)
    ensures |r| == |out| + n
    ensures r[..|out|] == out
    ensures 1 <= offset <= |out| ==> forall i | |out| <= i < |r| :: r[i] == r[i - offset]
  {
    if n == 0 then out
    else
      var shorter := CopyBack(out, offset, n - 1);
      shorter + [ByteBack(shorter, offset)]
  }

  function Replay(sequences: seq<Sequence>): bytes {
    if sequences == [] then []
    else
      var s := sequences[|sequences| - 1];
      CopyBack(Replay(sequences[..|sequences| - 1]) + s.literals, s.offset, s.matchLen)
  }

  function BlockContents(b: Block): bytes {
    Replay(b.sequences) + b.last
  }

  /** Output position at which the match of sequence `k` starts. */
  function MatchStart(sequences: seq<Sequence>, k: nat): nat
    requires k < |sequences|
  {
    |Replay(sequences[..k])| + |sequences[k].literals|
  }

  /**
   * What a conforming encoder guarantees: every offset points inside the output produced so far, every
   * match starts at least MFLIMIT bytes before the end, and the last LASTLITERALS bytes are literals.
   */
  ghost predicate ValidBlock(b: Block) {
    && (forall k | 0 <= k < |b.sequences| :: b.sequences[k].offset <= MatchStart(b.sequences, k))
    && (forall k | 0 <= k < |b.sequences| :: MatchStart(b.sequences, k) + MFLIMIT <= |BlockContents(b)|)
    && (b.sequences != [] ==> |b.last| >= LASTLITERALS)
  }

  // ---------------------------------------------------------------- bytes

  /** A run-length extension: a 255 for every full 255, then the remainder. */
  function Extension(n: nat): (r: bytes)
    ensures |r| == n / 255 + 1
  {
    if n < 255 then [n] else [255] + Extension(n - 255)
  }

  function Nibble(n: nat): (r: nat)
    ensures r <= 15
  {
    if n < 15 then n else 15
  }

  function LengthExtension(n: nat): bytes {
    if n < 15 then [] else Extension(n - 15)
  }

  function Token(literalLen: nat, matchExtra: nat): byte {
    16 * Nibble(literalLen) + Nibble(matchExtra)
  }

  function LittleEndian16(n: int): (r: bytes)
    requires 0 <= n < 0x10000
    ensures |r| == 2 && r[0] as int + 0x100 * (r[1] as int) == n
  {
    [n % 0x100, n / 0x100]
  }

  /** Everything up to and including the literals of a sequence. */
  function LiteralPart(literals: bytes, matchExtra: nat): bytes {
    [Token(|literals|, matchExtra)] + LengthExtension(|literals|) + literals
  }

  function MatchPart(offset: Offset, matchExtra: nat): bytes {
    LittleEndian16(offset) + LengthExtension(matchExtra)
  }

  function EncodeSequence(s: Sequence): bytes {
    LiteralPart(s.literals, s.matchLen - MINMATCH) + MatchPart(s.offset, s.matchLen - MINMATCH)
  }

  function EncodeSequences(sequences: seq<Sequence>): bytes {
    if sequences == [] then []
    else EncodeSequences(sequences[..|sequences| - 1]) + EncodeSequence(sequences[|sequences| - 1])
  }

  function EncodeBlock(b: Block): bytes {
    EncodeSequences(b.sequences) + LiteralPart(b.last, 0)
  }

  function CompressBound(size: nat): nat {
    size + size / 255 + 16
  }

  // ---------------------------------------------------------------- lemmas

  /** A prefix that continues with period `offset` is what the byte-at-a-time copy produces. */
  lemma {:induction false} PeriodicIsCopyBack(out: bytes, offset: nat, n: nat, r: bytes)
    requires 1 <= offset <= |out|
    requires |r| == |out| + n && r[..|out|] == out
    requires forall i | |out| <= i < |r| :: r[i] == r[i - offset]
    ensures r == CopyBack(out, offset, n)
  {
    if n == 0 {
      assert r == r[..|out|];
    } else {
      var m := |r| - 1;
      var shorter := r[..m];
      assert shorter[..|out|] == out;
      PeriodicIsCopyBack(out, offset, n - 1, shorter);
      assert r[m] == shorter[m - offset];
      assert r == shorter + [r[m]];
    }
  }

  /** Replaying a prefix of the sequences gives a prefix of the output. */
  lemma {:induction false} ReplayPrefix(sequences: seq<Sequence>, k: nat)
    requires k <= |sequences|
    ensures Replay(sequences[..k]) <= Replay(sequences)
    decreases |sequences|
  {
    if k == |sequences| {
      assert sequences[..k] == sequences;
    } else {
      var front := sequences[..|sequences| - 1];
      ReplayPrefix(front, k);
      assert front[..k] == sequences[..k];
      assert Replay(front) <= Replay(sequences) by {
        var s := sequences[|sequences| - 1];
        var base := Replay(front) + s.literals;
        assert Replay(sequences)[..|base|] == base;
        assert Replay(front) == base[..|Replay(front)|];
      }
    }
  }

  /** One more sequence appends its literals and its match. */
  lemma ReplayStep(sequences: seq<Sequence>, k: nat)
    requires k < |sequences|
    ensures Replay(sequences[..k + 1])
         == CopyBack(Replay(sequences[..k]) + sequences[k].literals, sequences[k].offset, sequences[k].matchLen)
  {
    assert sequences[..k + 1][..k] == sequences[..k];
  }

  lemma EncodeStep(sequences: seq<Sequence>, k: nat)
    requires k < |sequences|
    ensures EncodeSequences(sequences[..k + 1]) == EncodeSequences(sequences[..k]) + EncodeSequence(sequences[k])
  {
    assert sequences[..k + 1][..k] == sequences[..k];
  }

  lemma AppendSequence(sequences: seq<Sequence>, q: Sequence)
    ensures EncodeSequences(sequences + [q]) == EncodeSequences(sequences) + EncodeSequence(q)
    ensures Replay(sequences + [q]) == CopyBack(Replay(sequences) + q.literals, q.offset, q.matchLen)
  {
    assert (sequences + [q])[..|sequences|] == sequences;
  }

  lemma {:induction false} EncodePrefix(sequences: seq<Sequence>, k: nat)
    requires k <= |sequences|
    ensures EncodeSequences(sequences[..k]) <= EncodeSequences(sequences)
    decreases |sequences|
  {
    if k == |sequences| {
      assert sequences[..k] == sequences;
    } else {
      var front := sequences[..|sequences| - 1];
      EncodePrefix(front, k);
      assert front[..k] == sequences[..k];
    }
  }

  /** Sequences never cost more than 256 encoded bytes for 255 bytes of output. */
  lemma {:induction false} SequencesBound(sequences: seq<Sequence>)
    ensures 255 * |EncodeSequences(sequences)| <= 256 * |Replay(sequences)|
  {
    if sequences != [] {
      var front := sequences[..|sequences| - 1];
      var s := sequences[|sequences| - 1];
      SequencesBound(front);
      assert |EncodeSequence(s)| == 3 + |LengthExtension(|s.literals|)| + |s.literals|
                                    + |LengthExtension(s.matchLen - MINMATCH)|;
    }
  }

  /** The worst case of LZ4_compressBound really is one. */
  lemma EncodedSizeBound(b: Block)
    ensures var n := |BlockContents(b)|;
            |EncodeBlock(b)| <= n + n / 255 + 16 == CompressBound(n)
  {
    SequencesBound(b.sequences);
    assert |LiteralPart(b.last, 0)| == 1 + |LengthExtension(|b.last|)| + |b.last|;
  }
}
