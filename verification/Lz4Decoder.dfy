/** LZ4_uncompress and LZ4_uncompress_unknownOutputSize, and what they make of an encoded block. */
module Lz4Decoder {
  import opened Bytes
  import opened Lz4Format
  import opened Lz4Copy

  /**
   * Result of decoding.  `Malformed` carries the input position the C functions return negated.
   * `Overrun` is reached when LZ4_uncompress, which does not know the size of its input, would read past it,
   * and `Overflow` when a length would pass the range of the int that it is added up in.
   * A match with offset 0 copies what the output buffer held before: zeros stand for those bytes, and the
   * output counts as not `defined`; positions and sizes do not depend on them.
   */
  datatype Outcome = Decoded(ip: nat, out: bytes, defined: bool) | Malformed(at: nat) | Overrun | Overflow

  /** One half of a decoding step: go on from `ip` with `out` written, or stop. */
  datatype Step = Continue(ip: nat, out: bytes, defined: bool) | Stop(outcome: Outcome)

  /** What follows bytes that are not defined. */
  function Taint(r: Outcome, defined: bool): Outcome {
    if r.Decoded? && !defined then r.(defined := false) else r
  }

  // ---------------------------------------------------------------- specification

  /** Sum of a run of extension bytes, the position after it, and whether a byte below 255 ended it. */
  function ReadExtension(src: bytes, ip: nat): (r: (nat, nat, bool))
    requires ip <= |src|
    ensures ip <= r.1 <= |src|
    decreases |src| - ip
  {
    if ip == |src| then (0, ip, false)
    else if src[ip] == 255 then
      var (n, next, ended) := ReadExtension(src, ip + 1);
      (255 + n, next, ended)
    else (src[ip], ip + 1, true)
  }

  function ReadLength(src: bytes, ip: nat, nibble: nat): (r: (nat, nat, bool))
    requires ip <= |src|
    ensures ip <= r.1 <= |src|
  {
    if nibble == 15 then
      var (n, next, ended) := ReadExtension(src, ip);
      (15 + n, next, ended)
    else (nibble, ip, true)
  }

  /** The literal run after `token`, for the decoder that knows its input size. */
  function Literals(src: bytes, ip: nat, token: byte, out: bytes, capacity: nat): (r: Step)
    requires ip <= |src| && |out| <= capacity
    ensures r.Continue? ==> ip <= r.ip <= |src| - COPYLENGTH && out <= r.out && |r.out| <= capacity - COPYLENGTH
    ensures r.Continue? ==> r.defined
    ensures r.Stop? ==> Sound(src, ip, out, capacity, r.outcome) && !r.outcome.Overrun?
  {
    var (length, lit, _) := ReadLength(src, ip, token / 16);
    if length > INT_MAX then Stop(Overflow)
    else if |out| + length > capacity - COPYLENGTH || lit + length > |src| - COPYLENGTH then
      if |out| + length > capacity || lit + length > |src| then Stop(Malformed(lit))
      else if lit + length < |src| then Stop(Malformed(lit + length))
      else Stop(Decoded(lit + length, out + src[lit..lit + length], true))
    else Continue(lit + length, out + src[lit..lit + length], true)
  }

  /** The output once `n` bytes of a match are copied. */
  function MatchBytes(out: bytes, offset: nat, n: nat): (r: bytes)
    requires offset <= |out|
    ensures |r| == |out| + n && out <= r
  {
    if offset == 0 then out + Zeros(n) else CopyBack(out, offset, n)
  }

  /** The match that follows a literal run; both decoders treat it alike. */
  function Match(src: bytes, ip: nat, token: byte, out: bytes, capacity: nat): (r: Step)
    requires ip + 2 <= |src| && |out| <= capacity
    ensures r.Continue? ==> ip < r.ip <= |src| && out <= r.out && |r.out| < capacity
    ensures r.Stop? ==> Sound(src, ip, out, capacity, r.outcome) && !r.outcome.Overrun?
  {
    var offset := src[ip] as int + 0x100 * (src[ip + 1] as int);
    if offset > |out| then Stop(Malformed(ip + 2))
    else
      var (extra, next, _) := ReadLength(src, ip + 2, token % 16);
      if extra > INT_MAX then Stop(Overflow)
      else if |out| + MINMATCH + extra > capacity then Stop(Malformed(next))
      else
        var n := MINMATCH + extra;
        var copied := MatchBytes(out, offset, n);
        if |copied| == capacity then Stop(Decoded(next, copied, offset != 0)) else Continue(next, copied, offset != 0)
  }

  /** The cases of a match, by its offset and by what follows it. */
  lemma MatchCases(src: bytes, ip: nat, token: byte, out: bytes, capacity: nat)
    requires ip + 2 <= |src| && |out| <= capacity
    ensures var offset := src[ip] as int + 0x100 * (src[ip + 1] as int);
            var (extra, next, _) := ReadLength(src, ip + 2, token % 16);
            var n, r := MINMATCH + extra, Match(src, ip, token, out, capacity);
            && (offset > |out| ==> r == Stop(Malformed(ip + 2)))
            && (offset <= |out| && extra > INT_MAX ==> r == Stop(Overflow))
            && (offset <= |out| && extra <= INT_MAX && |out| + n > capacity ==> r == Stop(Malformed(next)))
            && (offset <= |out| && extra <= INT_MAX && |out| + n <= capacity ==>
                  var copied := MatchBytes(out, offset, n);
                  r == if |copied| == capacity then Stop(Decoded(next, copied, offset != 0))
                       else Continue(next, copied, offset != 0))
  {
    hide ReadLength, MatchBytes;
  }

  ghost predicate Sound(src: bytes, ip: nat, out: bytes, capacity: nat, r: Outcome) {
    match r
    case Decoded(at, all, _) => ip <= at <= |src| && out <= all && |all| <= capacity
    case Malformed(at) => ip <= at <= |src|
    case _ => true
  }

  /** LZ4_uncompress_unknownOutputSize from input position `ip`, with `out` already written. */
  function DecodeFrom(src: bytes, ip: nat, out: bytes, capacity: nat): (r: Outcome)
    requires ip <= |src| && |out| <= capacity
    ensures Sound(src, ip, out, capacity, r) && !r.Overrun?
    ensures r.Malformed? ==> ip < r.at
    decreases |src| - ip
  {
    if ip == |src| then Decoded(ip, out, true)
    else
      match Literals(src, ip + 1, src[ip], out, capacity)
      case Stop(r) => r
      case Continue(ip1, out1, _) =>
        match Match(src, ip1, src[ip], out1, capacity)
        case Stop(r) => r
        case Continue(ip2, out2, defined) => Taint(DecodeFrom(src, ip2, out2, capacity), defined)
  }

  // ---------------------------------------------------------------- LZ4_uncompress_unknownOutputSize

  method ReadLengthBounded(source: array<byte>, ip: nat, nibble: nat) returns (length: Int32, next: nat)
    requires ip <= source.Length && nibble <= 15 && ReadLength(source[..], ip, nibble).0 <= INT_MAX
    ensures (length, next) == (ReadLength(source[..], ip, nibble).0, ReadLength(source[..], ip, nibble).1)
  {
    length, next := nibble, ip;
    if length == RUN_MASK {
      var s := 255;
      while next < source.Length && s == 255
        invariant ip <= next <= source.Length
        invariant 15 <= length
        invariant s == 255 ==> 15 + ReadExtension(source[..], ip).0 == length + ReadExtension(source[..], next).0
        invariant s == 255 ==> ReadExtension(source[..], ip).1 == ReadExtension(source[..], next).1
        invariant s != 255 ==> ReadExtension(source[..], ip).0 + 15 == length && ReadExtension(source[..], ip).1 == next
      {
        s := source[next];
        next := next + 1;
        length := length + s;
      }
    }
  }

  /** The buffers hold what `step` says, its output only if it is defined and was `known` before. */
  ghost predicate Agrees(step: Step, stopped: bool, ip: nat, dest: array<byte>, op: nat, r: int, known: bool)
    reads dest
  {
    && op <= dest.Length
    && match step
       case Continue(ip', out, defined) =>
         !stopped && ip == ip' && op == |out| && (known && defined ==> dest[..op] == out)
       case Stop(Decoded(ip', out, defined)) =>
         stopped && ip == ip' && r == op == |out| && (known && defined ==> dest[..op] == out)
       case Stop(Malformed(at)) => stopped && r == -(at as int)
       case Stop(Overrun) => false
       case Stop(Overflow) => false
  }

  method LiteralsBounded(source: array<byte>, ip0: nat, token: byte, dest: array<byte>, op0: nat,
                         ghost out: bytes, ghost known: bool)
    returns (stopped: bool, ip: nat, op: nat, r: int)
    requires source != dest && ip0 <= source.Length && op0 <= dest.Length
    requires |out| == op0 && (known ==> dest[..op0] == out)
    requires Literals(source[..], ip0, token, out, dest.Length) != Stop(Overflow)
    modifies dest
    ensures if stopped then -source.Length <= r <= dest.Length
            else ip0 <= ip <= source.Length - COPYLENGTH && op <= dest.Length - COPYLENGTH
    ensures Agrees(Literals(source[..], ip0, token, out, dest.Length), stopped, ip, dest, op, r, known)
  {
    hide ReadLength, ReadExtension;
    var length;
    length, ip := ReadLengthBounded(source, ip0, token / 16);
    stopped, op, r := true, op0, -(ip as int);
    var cpy := op + length;
    assert dest[..][..op] == dest[..op];
    if dest.Length - COPYLENGTH < cpy || source.Length - COPYLENGTH < ip + length {
      if dest.Length < cpy {
        return;
      }
      if source.Length < ip + length {
        return;
      }
      CopyLiterals(source, ip, dest, op, length);
      assert source[..][ip..ip + length] == source[ip..ip + length];
      op := op + length;
      ip := ip + length;
      r := if ip < source.Length then -(ip as int) else op;
    } else {
      WildCopyLiterals(source, ip, dest, op, length);
      assert source[..][ip..ip + length] == source[ip..ip + length];
      stopped, ip, op := false, ip + length, cpy;
    }
  }

  method MatchBounded(source: array<byte>, ip0: nat, token: byte, dest: array<byte>, op0: nat,
                      ghost out: bytes, ghost known: bool)
    returns (stopped: bool, ip: nat, op: nat, r: int)
    requires source != dest && ip0 + 2 <= source.Length && op0 + COPYLENGTH <= dest.Length
    requires |out| == op0 && (known ==> dest[..op0] == out)
    requires Match(source[..], ip0, token, out, dest.Length) != Stop(Overflow)
    modifies dest
    ensures ip0 < ip <= source.Length && op <= dest.Length
    ensures stopped ==> -source.Length <= r <= dest.Length
    ensures Agrees(Match(source[..], ip0, token, out, dest.Length), stopped, ip, dest, op, r, known)
  {
    hide Match, ReadLength, CopyBack, ReadExtension;
    MatchCases(source[..], ip0, token, out, dest.Length);
    var offset := source[ip0] as int + 0x100 * (source[ip0 + 1] as int);
    ip := ip0 + 2;
    stopped, op, r := true, op0, -(ip as int);
    if op < offset {
      return;
    }
    var length;
    length, ip := ReadLengthBounded(source, ip, token % 16);
    var ok := CopyMatch(dest, op, offset, MINMATCH + length);
    if !ok {
      r := -(ip as int);
      return;
    }
    op := op + MINMATCH + length;
    stopped, r := op == dest.Length, op;
  }

  method UncompressUnknownOutputSize(source: array<byte>, dest: array<byte>) returns (r: int)
    requires source != dest && source.Length <= INT_MAX && dest.Length <= INT_MAX
    requires DecodeFrom(source[..], 0, [], dest.Length) != Overflow
    modifies dest
    ensures -source.Length <= r <= dest.Length
    ensures match DecodeFrom(source[..], 0, [], dest.Length)
            case Decoded(_, out, defined) => r == |out| && (defined ==> dest[..r] == out)
            case Malformed(at) => r == -(at as int)
            case Overrun => false
            case Overflow => false
  {
    hide Literals, Match;
    var ip, op := 0, 0;
    ghost var out: bytes, known := [], true;
    while ip < source.Length
      invariant 0 <= ip <= source.Length && 0 <= op <= dest.Length
      invariant |out| == op && (known ==> dest[..op] == out)
      invariant DecodeFrom(source[..], 0, [], dest.Length)
             == Taint(DecodeFrom(source[..], ip, out, dest.Length), known)
      decreases source.Length - ip
    {
      var token := source[ip];
      var stopped;
      ghost var literals := Literals(source[..], ip + 1, token, out, dest.Length);
      stopped, ip, op, r := LiteralsBounded(source, ip + 1, token, dest, op, out, known);
      if stopped {
        return;
      }
      ghost var found := Match(source[..], ip, token, literals.out, dest.Length);
      stopped, ip, op, r := MatchBounded(source, ip, token, dest, op, literals.out, known);
      if stopped {
        return;
      }
      out, known := found.out, known && found.defined;
    }
    r := op;
  }

  // ---------------------------------------------------------------- LZ4_uncompress

  /** The literal run after `token`, for the decoder that trusts its input and knows its output size. */
  function TrustedLiterals(src: bytes, ip: nat, token: byte, out: bytes, osize: nat): (r: Step)
    requires ip <= |src| && |out| <= osize
    ensures r.Continue? ==> ip <= r.ip <= |src| && out <= r.out && |r.out| <= osize - COPYLENGTH && r.defined
    ensures r.Stop? ==> Sound(src, ip, out, osize, r.outcome)
  {
    var (length, lit, ended) := ReadLength(src, ip, token / 16);
    if !ended then Stop(Overrun)
    else if length > INT_MAX then Stop(Overflow)
    else if |out| + length > osize - COPYLENGTH then
      if |out| + length > osize then Stop(Malformed(lit))
      else if lit + length > |src| then Stop(Overrun)
      else Stop(Decoded(lit + length, out + src[lit..lit + length], true))
    else if lit + WildLength(length) > |src| then Stop(Overrun)
    else Continue(lit + length, out + src[lit..lit + length], true)
  }

  function TrustedMatch(src: bytes, ip: nat, token: byte, out: bytes, osize: nat): (r: Step)
    requires ip <= |src| && |out| <= osize
    ensures r.Continue? ==> ip < r.ip <= |src| && out <= r.out && |r.out| < osize
    ensures r.Stop? ==> Sound(src, ip, out, osize, r.outcome)
  {
    if ip + 2 > |src| then Stop(Overrun)
    else if src[ip] as int + 0x100 * (src[ip + 1] as int) <= |out| && !ReadLength(src, ip + 2, token % 16).2 then
      Stop(Overrun)
    else Match(src, ip, token, out, osize)
  }

  /** LZ4_uncompress from input position `ip`, with `out` already written. */
  function DecodeTrusted(src: bytes, ip: nat, out: bytes, osize: nat): (r: Outcome)
    requires ip <= |src| && |out| <= osize
    ensures Sound(src, ip, out, osize, r)
    ensures r.Malformed? ==> ip < r.at
    decreases |src| - ip
  {
    if ip == |src| then Overrun
    else
      match TrustedLiterals(src, ip + 1, src[ip], out, osize)
      case Stop(r) => r
      case Continue(ip1, out1, _) =>
        match TrustedMatch(src, ip1, src[ip], out1, osize)
        case Stop(r) => r
        case Continue(ip2, out2, defined) => Taint(DecodeTrusted(src, ip2, out2, osize), defined)
  }

  /** LZ4_uncompress answers the number of input bytes read, or a negated input position. */
  ghost predicate Answers(outcome: Outcome, dest: array<byte>, r: int, known: bool)
    reads dest
  {
    match outcome
    case Decoded(ip, out, defined) =>
      r == ip && |out| <= dest.Length && (known && defined ==> dest[..|out|] == out)
    case Malformed(at) => r == -(at as int)
    case Overrun => false
    case Overflow => false
  }

  ghost predicate AgreesTrusted(step: Step, stopped: bool, ip: nat, dest: array<byte>, op: nat, r: int, known: bool)
    reads dest
  {
    match step
    case Continue(ip', out, defined) =>
      !stopped && ip == ip' && op == |out| <= dest.Length && (known && defined ==> dest[..op] == out)
    case Stop(o) => stopped && Answers(o, dest, r, known)
  }

  method ReadLengthTrusted(source: array<byte>, ip: nat, nibble: nat) returns (length: Int32, next: nat)
    requires ip <= source.Length && nibble <= 15
    requires ReadLength(source[..], ip, nibble).2 && ReadLength(source[..], ip, nibble).0 <= INT_MAX
    ensures (length, next, true) == ReadLength(source[..], ip, nibble)
  {
    length, next := nibble, ip;
    if length == RUN_MASK {
      while source[next] == 255
        invariant ip <= next < source.Length
        invariant ReadExtension(source[..], next).2 && 15 <= length
        invariant 15 + ReadExtension(source[..], ip).0 == length + ReadExtension(source[..], next).0
        invariant ReadExtension(source[..], ip).1 == ReadExtension(source[..], next).1
        decreases source.Length - next
      {
        next := next + 1;
        length := length + 255;
      }
      length := length + source[next];
      next := next + 1;
    }
  }

  method LiteralsTrusted(source: array<byte>, ip0: nat, token: byte, dest: array<byte>, op0: nat,
                         ghost out: bytes, ghost known: bool)
    returns (stopped: bool, ip: nat, op: nat, r: int)
    requires source != dest && ip0 <= source.Length && op0 <= dest.Length
    requires |out| == op0 && (known ==> dest[..op0] == out)
    requires TrustedLiterals(source[..], ip0, token, out, dest.Length) !in {Stop(Overrun), Stop(Overflow)}
    modifies dest
    ensures AgreesTrusted(TrustedLiterals(source[..], ip0, token, out, dest.Length), stopped, ip, dest, op, r, known)
  {
    hide ReadLength, ReadExtension;
    var length;
    length, ip := ReadLengthTrusted(source, ip0, token / 16);
    stopped, op, r := true, op0, -(ip as int);
    var cpy := op + length;
    assert dest[..][..op] == dest[..op];
    if dest.Length - COPYLENGTH < cpy {
      if dest.Length < cpy {
        return;
      }
      CopyLiterals(source, ip, dest, op, length);
      assert source[..][ip..ip + length] == source[ip..ip + length];
      op, ip := op + length, ip + length;
      r := ip;
    } else {
      WildCopyLiterals(source, ip, dest, op, length);
      assert source[..][ip..ip + length] == source[ip..ip + length];
      stopped, ip, op := false, ip + length, cpy;
    }
  }

  method MatchTrusted(source: array<byte>, ip0: nat, token: byte, dest: array<byte>, op0: nat,
                      ghost out: bytes, ghost known: bool)
    returns (stopped: bool, ip: nat, op: nat, r: int)
    requires source != dest && ip0 <= source.Length && op0 + COPYLENGTH <= dest.Length
    requires |out| == op0 && (known ==> dest[..op0] == out)
    requires TrustedMatch(source[..], ip0, token, out, dest.Length) !in {Stop(Overrun), Stop(Overflow)}
    modifies dest
    ensures AgreesTrusted(TrustedMatch(source[..], ip0, token, out, dest.Length), stopped, ip, dest, op, r, known)
  {
    hide Match, ReadLength, CopyBack, ReadExtension;
    MatchCases(source[..], ip0, token, out, dest.Length);
    var offset := source[ip0] as int + 0x100 * (source[ip0 + 1] as int);
    ip := ip0 + 2;
    stopped, op, r := true, op0, -(ip as int);
    if op < offset {
      return;
    }
    var length;
    length, ip := ReadLengthTrusted(source, ip, token % 16);
    var ok := CopyMatch(dest, op, offset, MINMATCH + length);
    if !ok {
      r := -(ip as int);
      return;
    }
    op := op + MINMATCH + length;
    stopped, r := op == dest.Length, ip;
  }

  method Uncompress(source: array<byte>, dest: array<byte>) returns (r: int)
    requires source != dest && source.Length <= INT_MAX && dest.Length <= INT_MAX
    requires DecodeTrusted(source[..], 0, [], dest.Length) != Overrun
    requires DecodeTrusted(source[..], 0, [], dest.Length) != Overflow
    modifies dest
    ensures Answers(DecodeTrusted(source[..], 0, [], dest.Length), dest, r, true)
  {
    hide TrustedLiterals, TrustedMatch;
    var ip, op := 0, 0;
    ghost var out: bytes, known := [], true;
    while true
      invariant 0 <= ip <= source.Length && 0 <= op <= dest.Length
      invariant |out| == op && (known ==> dest[..op] == out)
      invariant DecodeTrusted(source[..], 0, [], dest.Length)
             == Taint(DecodeTrusted(source[..], ip, out, dest.Length), known)
      decreases source.Length - ip
    {
      var token := source[ip];
      var stopped;
      ghost var literals := TrustedLiterals(source[..], ip + 1, token, out, dest.Length);
      stopped, ip, op, r := LiteralsTrusted(source, ip + 1, token, dest, op, out, known);
      if stopped {
        return;
      }
      ghost var found := TrustedMatch(source[..], ip, token, literals.out, dest.Length);
      stopped, ip, op, r := MatchTrusted(source, ip, token, dest, op, literals.out, known);
      if stopped {
        return;
      }
      out, known := found.out, known && found.defined;
    }
  }

  // ---------------------------------------------------------------- when lengths fit an int

  const LONGEST_INPUT := 8421505

  /** A byte of a run-length extension adds at most 255. */
  lemma {:induction false} ExtensionBound(src: bytes, ip: nat)
    requires ip <= |src|
    ensures var (n, next, _) := ReadExtension(src, ip); n <= 255 * (next - ip)
    decreases |src| - ip
  {
    if ip < |src| && src[ip] == 255 {
      ExtensionBound(src, ip + 1);
    }
  }

  lemma LengthFits(src: bytes, ip: nat, nibble: nat)
    requires ip <= |src| < ip + LONGEST_INPUT && nibble <= 15
    ensures ReadLength(src, ip, nibble).0 <= INT_MAX
  {
    ExtensionBound(src, ip);
  }

  /** On inputs up to this size neither decoder ever adds up a length beyond the range of an int. */
  lemma {:induction false} SmallInputsFit(src: bytes, ip: nat, out: bytes, capacity: nat)
    requires ip <= |src| <= LONGEST_INPUT && |out| <= capacity
    ensures DecodeFrom(src, ip, out, capacity) != Overflow && DecodeTrusted(src, ip, out, capacity) != Overflow
    decreases |src| - ip
  {
    hide ReadLength, ReadExtension, Match;
    if ip < |src| {
      LengthFits(src, ip + 1, src[ip] / 16);
      var bounded := Literals(src, ip + 1, src[ip], out, capacity);
      var trusted := TrustedLiterals(src, ip + 1, src[ip], out, capacity);
      if bounded.Continue? {
        SmallMatchFits(src, bounded.ip, src[ip], bounded.out, capacity);
        var found := Match(src, bounded.ip, src[ip], bounded.out, capacity);
        if found.Continue? {
          SmallInputsFit(src, found.ip, found.out, capacity);
        }
      }
      if trusted.Continue? && trusted.ip + 2 <= |src| {
        SmallMatchFits(src, trusted.ip, src[ip], trusted.out, capacity);
        var found := TrustedMatch(src, trusted.ip, src[ip], trusted.out, capacity);
        if found.Continue? {
          SmallInputsFit(src, found.ip, found.out, capacity);
        }
      }
    }
  }

  lemma SmallMatchFits(src: bytes, ip: nat, token: byte, out: bytes, capacity: nat)
    requires ip + 2 <= |src| <= LONGEST_INPUT && |out| <= capacity
    ensures Match(src, ip, token, out, capacity) != Stop(Overflow)
  {
    LengthFits(src, ip + 2, token % 16);
  }

  /** A token that announces an extended literal length, and `n` bytes that extend it. */
  function LongLength(n: nat): bytes {
    [0xf0] + seq(n, _ => 255)
  }

  lemma {:induction false} ReadFullBytes(src: bytes, ip: nat)
    requires ip <= |src| && forall i | ip <= i < |src| :: src[i] == 255
    ensures ReadExtension(src, ip) == (255 * (|src| - ip), |src|, false)
    decreases |src| - ip
  {
    if ip < |src| {
      ReadFullBytes(src, ip + 1);
    }
  }

  /** One byte more is too much: of the inputs of this form, exactly the longer ones overflow the length. */
  lemma LongLengthOverflowsIff(n: nat, capacity: nat)
    ensures DecodeFrom(LongLength(n), 0, [], capacity) == Overflow <==> |LongLength(n)| > LONGEST_INPUT
  {
    hide ReadExtension;
    ReadFullBytes(LongLength(n), 1);
    assert LongLength(n)[0] == 0xf0;
  }
}
