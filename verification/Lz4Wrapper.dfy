/** The compressor pair the rest of the system calls: one-shot compression, grow-and-retry decompression. */
module Lz4Wrapper {
  import opened Bytes
  import opened Lz4Format
  import opened Lz4Decoder
  import Lz4Encoder
  import Lz4Greedy
  import Lz4RoundTrip

  const GROWTH := 1024

  /** The loop test of lz4_decompress: an error, or a buffer that may have been too small. */
  predicate MustRetry(r: Outcome, capacity: nat) {
    !r.Decoded? || |r.out| == capacity
  }

  lemma LargerLiterals(src: bytes, ip: nat, token: byte, out: bytes, small: nat, large: nat)
    requires ip <= |src| && |out| <= small <= large
    ensures var r := Literals(src, ip, token, out, small);
            r.Continue? || r.outcome.Decoded? || r.outcome.Overflow? ==> Literals(src, ip, token, out, large) == r
  {
  }

  lemma LargerMatch(src: bytes, ip: nat, token: byte, out: bytes, small: nat, large: nat)
    requires ip + 2 <= |src| && |out| <= small <= large
    ensures var r := Match(src, ip, token, out, small);
            r.Continue? || r.outcome.Overflow? ==> Match(src, ip, token, out, large) == r
    ensures var r := Match(src, ip, token, out, small);
            r.Stop? && r.outcome.Decoded? ==> |r.outcome.out| == small
  {
  }

  /** What a buffer with room to spare received, every larger buffer receives. */
  lemma {:induction false} LargerBuffer(src: bytes, ip: nat, out: bytes, small: nat, large: nat)
    requires ip <= |src| && |out| <= small <= large
    requires var r := DecodeFrom(src, ip, out, small);
             r.Overflow? || (r.Decoded? && |r.out| < small)
    ensures DecodeFrom(src, ip, out, large) == DecodeFrom(src, ip, out, small)
    decreases |src| - ip
  {
    hide Literals, Match;
    if ip < |src| {
      LargerLiterals(src, ip + 1, src[ip], out, small, large);
      match Literals(src, ip + 1, src[ip], out, small)
      case Stop(_) =>
      case Continue(ip1, out1, _) =>
        LargerMatch(src, ip1, src[ip], out1, small, large);
        match Match(src, ip1, src[ip], out1, small)
        case Stop(_) =>
        case Continue(ip2, out2, _) => LargerBuffer(src, ip2, out2, small, large);
    }
  }

  // ---------------------------------------------------------------- room for any output

  /** A capacity with which no input of this size can run out of room: a byte stands for at most 255. */
  function Room(size: nat): nat {
    255 * size + MFLIMIT
  }

  /** What decoding comes to when there is room. */
  function Unlimited(src: bytes): Outcome {
    DecodeFrom(src, 0, [], Room(|src|))
  }

  lemma LiteralsAlike(src: bytes, ip: nat, token: byte, out: bytes, small: nat, large: nat)
    requires ip <= |src| && |out| + 255 * (|src| - ip) + 255 + MFLIMIT <= small <= large
    ensures Literals(src, ip, token, out, small) == Literals(src, ip, token, out, large)
    ensures var r := Literals(src, ip, token, out, small);
            && (r.Continue? ==> |r.out| + 255 * (|src| - r.ip) + 255 + MFLIMIT <= small)
            && (r.Stop? && r.outcome.Decoded? ==> |r.outcome.out| + MFLIMIT <= small)
  {
  }

  lemma MatchAlike(src: bytes, ip: nat, token: byte, out: bytes, small: nat, large: nat)
    requires ip + 2 <= |src| && |out| + 255 * (|src| - ip) + 255 + MFLIMIT <= small <= large
    ensures Match(src, ip, token, out, small) == Match(src, ip, token, out, large)
    ensures var r := Match(src, ip, token, out, small);
            && (r.Continue? ==> |r.out| + 255 * (|src| - r.ip) + MFLIMIT <= small)
            && (r.Stop? ==> !r.outcome.Decoded?)
  {
    ExtensionBound(src, ip + 2);
  }

  /** With enough room left, the capacity makes no difference to the outcome, whatever it is, and is not used up. */
  lemma {:induction false} RoomIsEnough(src: bytes, ip: nat, out: bytes, small: nat, large: nat)
    requires ip <= |src| && |out| + 255 * (|src| - ip) + MFLIMIT <= small <= large
    ensures DecodeFrom(src, ip, out, small) == DecodeFrom(src, ip, out, large)
    ensures var r := DecodeFrom(src, ip, out, small);
            r.Decoded? ==> |r.out| + MFLIMIT <= small
    decreases |src| - ip
  {
    hide Literals, Match;
    if ip < |src| {
      LiteralsAlike(src, ip + 1, src[ip], out, small, large);
      match Literals(src, ip + 1, src[ip], out, small)
      case Stop(_) =>
      case Continue(ip1, out1, _) =>
        MatchAlike(src, ip1, src[ip], out1, small, large);
        match Match(src, ip1, src[ip], out1, small)
        case Stop(_) =>
        case Continue(ip2, out2, _) => RoomIsEnough(src, ip2, out2, small, large);
    }
  }

  // ---------------------------------------------------------------- the least capacity that will do

  function Max(a: nat, b: nat): nat {
    if a < b then b else a
  }

  /**
   * The least capacity with which decoding from `ip` succeeds and leaves room: the size of the output and one,
   * and eight beyond the end of every literal run that a match follows.
   */
  function NeededFrom(src: bytes, ip: nat, out: bytes, large: nat): nat
    requires ip <= |src| && |out| <= large
    decreases |src| - ip
  {
    if ip == |src| then |out| + 1
    else
      match Literals(src, ip + 1, src[ip], out, large)
      case Stop(r) => if r.Decoded? then |r.out| + 1 else 0
      case Continue(ip1, out1, _) =>
        match Match(src, ip1, src[ip], out1, large)
        case Stop(_) => 0
        case Continue(ip2, out2, _) => Max(|out1| + COPYLENGTH, NeededFrom(src, ip2, out2, large))
  }

  function Needed(src: bytes): nat {
    NeededFrom(src, 0, [], Room(|src|))
  }

  lemma {:induction false} NeededBounds(src: bytes, ip: nat, out: bytes, large: nat)
    requires ip <= |src| && |out| <= large
    ensures var r, needed := DecodeFrom(src, ip, out, large), NeededFrom(src, ip, out, large);
            r.Decoded? && |r.out| < large ==> |out| <= |r.out| < needed <= |r.out| + COPYLENGTH
    decreases |src| - ip
  {
    hide Literals, Match;
    if ip < |src| {
      match Literals(src, ip + 1, src[ip], out, large)
      case Stop(_) =>
      case Continue(ip1, out1, _) =>
        StopsFull(src, ip1, src[ip], out1, large);
        match Match(src, ip1, src[ip], out1, large)
        case Stop(_) =>
        case Continue(ip2, out2, _) => NeededBounds(src, ip2, out2, large);
    }
  }

  /** A match only ends the output by filling it. */
  lemma StopsFull(src: bytes, ip: nat, token: byte, out: bytes, capacity: nat)
    requires ip + 2 <= |src| && |out| <= capacity
    ensures var r := Match(src, ip, token, out, capacity);
            r.Stop? && r.outcome.Decoded? ==> |r.outcome.out| == capacity
  {
  }

  /** Where the literals of an input end with room in the large buffer, a smaller one agrees or fails. */
  lemma SmallerLiterals(src: bytes, ip: nat, token: byte, out: bytes, small: nat, large: nat)
    requires ip <= |src| && |out| <= small <= large
    ensures match Literals(src, ip, token, out, large)
            case Continue(ip1, out1, _) =>
              var r := Literals(src, ip, token, out, small);
              if |out1| + COPYLENGTH <= small then r == Continue(ip1, out1, true) else r.Stop? && r.outcome.Malformed?
            case Stop(Decoded(at, all, _)) =>
              |all| + COPYLENGTH <= large ==>
                var r := Literals(src, ip, token, out, small);
                if |all| <= small then r == Stop(Decoded(at, all, true)) else r.Stop? && r.outcome.Malformed?
            case Stop(_) => true
  {
    hide ReadLength;
  }

  lemma SmallerMatch(src: bytes, ip: nat, token: byte, out: bytes, small: nat, large: nat)
    requires ip + 2 <= |src| && |out| <= small <= large
    ensures match Match(src, ip, token, out, large)
            case Continue(ip2, out2, defined) =>
              var r := Match(src, ip, token, out, small);
              if |out2| < small then r == Continue(ip2, out2, defined)
              else r.Stop? && (r.outcome.Malformed? || (r.outcome.Decoded? && |r.outcome.out| == small))
            case Stop(_) => true
  {
    hide ReadLength;
  }

  /** Any capacity up to a large enough one succeeds and leaves room exactly if it is at least the one needed. */
  lemma {:induction false} SmallerBuffer(src: bytes, ip: nat, out: bytes, small: nat, large: nat)
    requires ip <= |src| && |out| <= small <= large
    ensures var r := DecodeFrom(src, ip, out, large);
            r.Decoded? && |r.out| + COPYLENGTH <= large ==>
              (!MustRetry(DecodeFrom(src, ip, out, small), small) <==> NeededFrom(src, ip, out, large) <= small)
    decreases |src| - ip
  {
    hide Literals, Match;
    if ip < |src| {
      SmallerLiterals(src, ip + 1, src[ip], out, small, large);
      match Literals(src, ip + 1, src[ip], out, large)
      case Stop(_) =>
      case Continue(ip1, out1, _) =>
        StopsFull(src, ip1, src[ip], out1, large);
        match Match(src, ip1, src[ip], out1, large)
        case Stop(_) =>
        case Continue(ip2, out2, _) =>
          NeededBounds(src, ip2, out2, large);
          if |out1| + COPYLENGTH <= small {
            SmallerMatch(src, ip1, src[ip], out1, small, large);
            if |out2| < small {
              SmallerBuffer(src, ip2, out2, small, large);
            }
          }
    }
  }

  // ---------------------------------------------------------------- the retry loop

  /**
   * For every input, a try with any capacity either asks for another one or comes to what decoding with room
   * comes to; and it asks for another one exactly when the input does not decode at all or the capacity is
   * below the one needed.
   */
  lemma RetryIsSafe(src: bytes, capacity: nat)
    ensures var r := DecodeFrom(src, 0, [], capacity);
            && (!MustRetry(r, capacity) ==> r == Unlimited(src))
            && (!MustRetry(r, capacity) <==> Unlimited(src).Decoded? && Needed(src) <= capacity)
            && (r.Overflow? ==> Unlimited(src).Overflow?)
  {
    hide DecodeFrom, NeededFrom;
    var r := DecodeFrom(src, 0, [], capacity);
    RoomIsEnough(src, 0, [], Room(|src|), Room(|src|));
    if Unlimited(src).Decoded? {
      NeededBounds(src, 0, [], Room(|src|));
    }
    if Room(|src|) <= capacity {
      RoomIsEnough(src, 0, [], Room(|src|), capacity);
    } else {
      if r.Overflow? || !MustRetry(r, capacity) {
        LargerBuffer(src, 0, [], capacity, Room(|src|));
      }
      if Unlimited(src).Decoded? {
        SmallerBuffer(src, 0, [], capacity, Room(|src|));
      }
    }
  }

  /** The capacity of the try number `k`, counting from 0. */
  function Attempted(size: nat, k: nat): nat {
    size + size / 2 + k * 1024
  }

  /** The first capacity tried, growing from `alloclen`, that is at least the one needed. */
  function FirstFrom(alloclen: nat, needed: nat): (c: nat)
    ensures needed <= c && alloclen <= c <= Max(alloclen, needed + 1024 - 1)
    decreases needed - alloclen
  {
    if needed <= alloclen then alloclen else FirstFrom(alloclen + 1024, needed)
  }

  lemma {:induction false} FirstIsAttempted(alloclen: nat, needed: nat)
    ensures exists k: nat :: FirstFrom(alloclen, needed) == alloclen + k * 1024
    decreases needed - alloclen
  {
    if needed <= alloclen {
      assert alloclen == alloclen + 0 * 1024;
    } else {
      FirstIsAttempted(alloclen + 1024, needed);
      var k: nat :| FirstFrom(alloclen + 1024, needed) == alloclen + 1024 + k * 1024;
      assert FirstFrom(alloclen, needed) == alloclen + (k + 1) * 1024;
    }
  }

  lemma {:induction false} FirstIsLeast(alloclen: nat, needed: nat, k: nat)
    requires needed <= alloclen + k * 1024
    ensures FirstFrom(alloclen, needed) <= alloclen + k * 1024
    decreases k
  {
    if alloclen < needed {
      FirstIsLeast(alloclen + 1024, needed, k - 1);
    }
  }

  /** The capacity at which the retry loop ends. */
  function LastAttempt(src: bytes): nat {
    FirstFrom(Attempted(|src|, 0), Needed(src))
  }

  /** A try with a capacity that an int can hold ends the retry loop. */
  ghost predicate Ends(src: bytes, k: nat) {
    var capacity := Attempted(|src|, k);
    capacity <= INT_MAX && !MustRetry(DecodeFrom(src, 0, [], capacity), capacity)
  }

  /**
   * The retry loop finds a capacity that it can try and that ends it if and only if the input decodes with
   * room and the first capacity it comes to from the one needed on fits an int.
   */
  lemma RetryStopsIff(src: bytes)
    ensures (exists k: nat :: Ends(src, k)) <==> Unlimited(src).Decoded? && LastAttempt(src) <= INT_MAX
  {
    hide DecodeFrom, Unlimited, Needed;
    if k: nat :| Ends(src, k) {
      RetryIsSafe(src, Attempted(|src|, k));
      FirstIsLeast(Attempted(|src|, 0), Needed(src), k);
    }
    if Unlimited(src).Decoded? && LastAttempt(src) <= INT_MAX {
      FirstIsAttempted(Attempted(|src|, 0), Needed(src));
      var k: nat :| LastAttempt(src) == Attempted(|src|, 0) + k * 1024;
      RetryIsSafe(src, Attempted(|src|, k));
      assert Ends(src, k);
    }
  }

  const LONGEST_PACKED := 8421500

  /** Up to this size of the input no length overflows, and every input that decodes ends the loop. */
  lemma SmallInputsRetry(src: bytes)
    requires |src| <= LONGEST_PACKED
    ensures !Unlimited(src).Overflow?
    ensures Unlimited(src).Decoded? ==>
              && LastAttempt(src) <= Max(Attempted(|src|, 0), 255 * |src| + COPYLENGTH + 1024 - 1)
              && LastAttempt(src) <= INT_MAX
  {
    hide DecodeFrom, NeededFrom;
    SmallInputsFit(src, 0, [], Room(|src|));
    RoomIsEnough(src, 0, [], Room(|src|), Room(|src|));
    if Unlimited(src).Decoded? {
      NeededBounds(src, 0, [], Room(|src|));
    }
  }

  /** A truncated input, here a token that announces a literal which is missing, is refused at every capacity. */
  lemma TruncatedIsNeverEnough(capacity: nat)
    ensures MustRetry(DecodeFrom([0x10], 0, [], capacity), capacity)
  {
    assert ReadLength([0x10], 1, 1) == (1, 1, true);
  }

  /** Everything the compressor produces decodes to what was compressed. */
  lemma EncodedDecodes(b: Block)
    requires ValidBlock(b) && |BlockContents(b)| <= INT_MAX
    ensures Unlimited(EncodeBlock(b)) == Decoded(|EncodeBlock(b)|, BlockContents(b), true)
  {
    hide DecodeFrom, EncodeBlock, BlockContents;
    var e := EncodeBlock(b);
    var capacity := Room(|e|) + |BlockContents(b)|;
    Lz4RoundTrip.DecodeOfEncode(b, capacity);
    RoomIsEnough(e, 0, [], Room(|e|), capacity);
  }

  method Compress(input: array<byte>) returns (buffer: array<byte>, outlen: nat, ghost b: Block)
    requires CompressBound(input.Length) < 0x8000_0000
    ensures fresh(buffer) && outlen <= buffer.Length == input.Length + input.Length / 255 + 16
    ensures ValidBlock(b) && BlockContents(b) == input[..] && buffer[..outlen] == EncodeBlock(b)
    ensures 14 <= input.Length && Lz4Greedy.AllEqual(input[..]) ==> outlen <= input.Length / 255 + 11
  {
    var maxlen := CompressBound(input.Length);
    buffer := new byte[maxlen](_ => 0);
    outlen, b := Lz4Encoder.Compress(input, buffer);
  }

  /** `buffer[..n]` is what decoding comes to, in size, and in contents if no zero offset left them undefined. */
  ghost predicate Holds(buffer: array<byte>, n: int, src: bytes)
    requires Unlimited(src).Decoded?
    reads buffer
  {
    && 0 <= n == |Unlimited(src).out| <= buffer.Length
    && (Unlimited(src).defined ==> buffer[..n] == Unlimited(src).out)
  }

  /** lz4_decompress, for an input that ends its loop; `buffer` has the capacity of the last try. */
  method Decompress(input: array<byte>) returns (buffer: array<byte>, outlen: nat)
    requires Unlimited(input[..]).Decoded? && LastAttempt(input[..]) <= INT_MAX
    ensures fresh(buffer) && Holds(buffer, outlen, input[..]) && buffer.Length == LastAttempt(input[..])
  {
    hide Unlimited, Holds, Needed;
    ghost var needed := Needed(input[..]);
    var alloclen: Int32 := input.Length + input.Length / 2;
    var osize;
    buffer, osize := Attempt(input, alloclen);
    while osize < 0 || osize == alloclen
      invariant fresh(buffer) && buffer.Length == alloclen && 0 <= alloclen
      invariant FirstFrom(alloclen, needed) == LastAttempt(input[..])
      invariant if needed <= alloclen then 0 <= osize < alloclen && Holds(buffer, osize, input[..])
                else osize < 0 || osize == alloclen
      decreases needed - alloclen
    {
      alloclen := alloclen + GROWTH;
      buffer, osize := Attempt(input, alloclen);
    }
    outlen := osize;
  }

  method Attempt(input: array<byte>, alloclen: Int32) returns (buffer: array<byte>, osize: int)
    requires Unlimited(input[..]).Decoded? && 0 <= alloclen && input.Length <= INT_MAX
    ensures fresh(buffer) && buffer.Length == alloclen
    ensures if Needed(input[..]) <= alloclen then 0 <= osize < alloclen && Holds(buffer, osize, input[..])
            else osize < 0 || osize == alloclen
  {
    hide DecodeFrom, Unlimited, Needed;
    buffer := new byte[alloclen](_ => 0);
    RetryIsSafe(input[..], alloclen);
    osize := UncompressUnknownOutputSize(input, buffer);
  }

  /**
   * The pair registered as the compressor restores every input for which the capacities it tries fit an int;
   * they do whenever those for an input of the largest packed size would.
   */
  method CompressThenDecompress(input: array<byte>) returns (fits: bool, output: array<byte>, outlen: nat)
    requires CompressBound(input.Length) <= INT_MAX
    ensures fits ==> outlen <= output.Length && output[..outlen] == input[..]
    ensures Attempted(CompressBound(input.Length), 0) <= INT_MAX && input.Length + COPYLENGTH + 1024 <= INT_MAX ==>
              fits
  {
    var packed, packedLen, b := Compress(input);
    EncodedDecodes(b);
    EncodedSizeBound(b);
    var exact := new byte[packedLen](i requires 0 <= i < packedLen reads packed => packed[i]);
    assert exact[..] == packed[..packedLen];
    EncodedAttempt(b);
    fits, output, outlen := LastAttempt(exact[..]) <= INT_MAX, exact, 0;
    if fits {
      output, outlen := Decompress(exact);
    }
  }

  lemma EncodedAttempt(b: Block)
    requires ValidBlock(b) && |BlockContents(b)| <= INT_MAX
    ensures var e := EncodeBlock(b);
            LastAttempt(e) <= Max(Attempted(|e|, 0), |BlockContents(b)| + COPYLENGTH + 1024 - 1)
  {
    hide DecodeFrom, NeededFrom, EncodeBlock, BlockContents;
    var e := EncodeBlock(b);
    EncodedDecodes(b);
    RoomIsEnough(e, 0, [], Room(|e|), Room(|e|));
    NeededBounds(e, 0, [], Room(|e|));
  }
}
