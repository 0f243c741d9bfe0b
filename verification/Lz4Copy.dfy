/**
 * The copy loops of the decompressors.  Literals are copied in strides of eight bytes that overshoot;
 * matches are copied the same way after a correction that first moves the source of the copy back to a
 * multiple of the offset that is at least as long as a stride.
 */
module Lz4Copy {
  import opened Bytes
  import opened Lz4Format

  const STEPSIZE := 8

  /** `cur` extends `base`, and every byte past `base` repeats the byte `offset` positions before it. */
  ghost predicate Repeats(base: bytes, offset: nat, cur: bytes) {
    && 1 <= offset <= |base|
    && base <= cur
    && forall i | |base| <= i < |cur| :: cur[i] == cur[i - offset]
  }

  /** Distance kept between source and destination once the first eight bytes are copied. */
  function Stride(offset: nat): nat {
    if offset < STEPSIZE then [4, 8, 8, 9, 8, 10, 12, 14][offset] else offset
  }

  lemma {:induction false} RepeatsBack(base: bytes, offset: nat, cur: bytes, j: nat, k: nat)
    requires Repeats(base, offset, cur)
    requires j < |cur|
    requires k > 0 ==> |base| <= j - (k - 1) * offset
    ensures k * offset <= j
    ensures cur[j] == cur[j - k * offset]
  {
    if k > 0 {
      assert k > 1 ==> (k - 2) * offset + offset == (k - 1) * offset;
      RepeatsBack(base, offset, cur, j, k - 1);
      assert (k - 1) * offset + offset == k * offset;
    }
  }

  /** Copying `width` bytes from a distance that is a multiple of the offset keeps the repetition. */
  lemma StrideRepeats(base: bytes, offset: nat, cur: bytes, k: nat, width: nat)
    requires Repeats(base, offset, cur)
    requires 1 <= k && width <= k * offset <= |cur|
    requires |base| <= |cur| + offset - k * offset
    ensures Repeats(base, offset, cur + cur[|cur| - k * offset..|cur| - k * offset + width])
  {
    var from := |cur| - k * offset;
    var r := cur + cur[from..from + width];
    forall i | |base| <= i < |r|
      ensures r[i] == r[i - offset]
    {
      if |cur| <= i < |cur| + offset {
        assert (k - 1) * offset + offset == k * offset;
        assert k > 1 ==> (k - 2) * offset + offset == (k - 1) * offset;
        RepeatsBack(base, offset, cur, i - offset, k - 1);
      }
    }
  }

  lemma StrideIsMultiple(offset: nat)
    requires 1 <= offset
    ensures exists k {:trigger k * offset} :: 1 <= k && Stride(offset) == k * offset
    ensures STEPSIZE <= Stride(offset) <= offset + STEPSIZE
  {
    if offset < STEPSIZE {
      var k := [0, 8, 4, 3, 2, 2, 2, 2][offset];
      assert Stride(offset) == k * offset;
    } else {
      assert Stride(offset) == 1 * offset;
    }
  }

  /** Once eight bytes are in place, any further stride of at most eight bytes keeps the repetition. */
  lemma NextStrideRepeats(base: bytes, offset: nat, cur: bytes, width: nat)
    requires Repeats(base, offset, cur)
    requires |base| + STEPSIZE <= |cur| && width <= STEPSIZE
    ensures STEPSIZE <= Stride(offset) <= |cur|
    ensures Repeats(base, offset, cur + cur[|cur| - Stride(offset)..|cur| - Stride(offset) + width])
  {
    StrideIsMultiple(offset);
    var k :| 1 <= k && Stride(offset) == k * offset;
    StrideRepeats(base, offset, cur, k, width);
  }

  lemma SliceOfPrefix(a: array<byte>, n: nat, lo: nat, hi: nat)
    requires lo <= hi <= n <= a.Length
    ensures a[..n][lo..hi] == a[lo..hi]
  {
  }

  /** Unaligned word copy: all `width` bytes are read before any is written. */
  method CopyWord(a: array<byte>, to: nat, from: nat, width: nat)
    requires to + width <= a.Length && from + width <= a.Length
    modifies a
    ensures a[..to] == old(a[..to])
    ensures a[..to + width] == old(a[..to]) + old(a[from..from + width])
  {
    forall i | 0 <= i < width {
      a[to + i] := a[from + i];
    }
  }

  /** memcpy of the last literal run. */
  method CopyLiterals(source: array<byte>, ip: nat, dest: array<byte>, op: nat, length: nat)
    requires source != dest && ip + length <= source.Length && op + length <= dest.Length
    modifies dest
    ensures dest[..op + length] == old(dest[..op]) + source[ip..ip + length]
  {
    forall i | 0 <= i < length {
      dest[op + i] := source[ip + i];
    }
  }

  /** LZ4_COPYPACKET from the input. */
  method StrideFrom(source: array<byte>, ip: nat, dest: array<byte>, op: nat)
    requires source != dest && ip + STEPSIZE <= source.Length && op + STEPSIZE <= dest.Length
    modifies dest
    ensures dest[..op + STEPSIZE] == old(dest[..op]) + source[ip..ip + STEPSIZE]
  {
    forall i | 0 <= i < STEPSIZE {
      dest[op + i] := source[ip + i];
    }
  }

  /** LZ4_WILDCOPY of literals: strides of eight from the input, overshooting `len`. */
  method WildCopyLiterals(source: array<byte>, ip: nat, dest: array<byte>, op: nat, len: nat)
    requires source != dest
    requires ip + WildLength(len) <= source.Length && op + WildLength(len) <= dest.Length
    modifies dest
    ensures dest[..op + len] == old(dest[..op]) + source[ip..ip + len]
  {
    hide WildLength;
    var done: nat, more := 0, true;
    ghost var strides: nat := 0;
    StrideFits(len, 0);
    while more
      invariant if more then done + STEPSIZE <= WildLength(len) else len <= done
      invariant done == STEPSIZE * strides
      invariant op + done <= dest.Length && ip + done <= source.Length
      invariant dest[..op + done] == old(dest[..op]) + source[ip..ip + done]
      decreases more, len - done
    {
      StrideFrom(source, ip + done, dest, op + done);
      SliceGrows(source[..], ip, done, STEPSIZE);
      done, strides := done + STEPSIZE, strides + 1;
      more := done < len;
      if more {
        StrideFits(len, strides);
      }
    }
    CutSlices(old(dest[..op]), source[..], ip, len, done);
    SliceOfPrefix(dest, op + done, 0, op + len);
  }

  lemma StrideFits(len: nat, strides: nat)
    requires STEPSIZE * strides < len || strides == 0
    ensures STEPSIZE * strides + STEPSIZE <= WildLength(len)
  {
  }

  lemma SliceGrows(s: bytes, from: nat, n: nat, more: nat)
    requires from + n + more <= |s|
    ensures s[from..from + n + more] == s[from..from + n] + s[from + n..from + n + more]
  {
  }

  lemma CutSlices(a: bytes, s: bytes, from: nat, n: nat, more: nat)
    requires n <= more && from + more <= |s|
    ensures (a + s[from..from + more])[0..|a| + n] == a + s[from..from + n]
  {
  }

  /** Bytes touched by the do-while of LZ4_WILDCOPY for a run of `len` bytes. */
  function WildLength(len: nat): nat {
    if len == 0 then STEPSIZE else (len + STEPSIZE - 1) / STEPSIZE * STEPSIZE
  }

  lemma WildLengthIsLeast(len: nat)
    ensures var r := WildLength(len);
            r % 8 == 0 && if len == 0 then r == 8 else len <= r < len + 8
  {
  }

  /** Distance corrections for overlapping copies, looked up by the offset when it is below STEPSIZE. */
  function Dec(offset: nat): int
    requires offset < STEPSIZE
  {
    [0, 3, 2, 3, 0, 0, 0, 0][offset]
  }

  function Dec2(offset: nat): int
    requires offset < STEPSIZE
  {
    [0, 0, 0, -1, 0, 1, 2, 3][offset]
  }

  /** The two corrections together bring the source back to the stride distance. */
  lemma CorrectionsAddUp(offset: nat)
    requires offset < STEPSIZE
    ensures 0 <= Dec(offset) <= 4 && Dec(0) == 0 && Dec2(0) == 0
    ensures 0 <= Dec(offset) + Dec2(offset)
    ensures 0 < offset ==> 4 <= offset + Dec(offset) <= 4 + offset
    ensures 0 < offset ==> offset + Dec(offset) + (STEPSIZE - 4) + Dec2(offset) == Stride(offset) <= STEPSIZE + offset
  {
  }

  /**
   * The first eight bytes of a match at `op`, `offset` bytes after its source.  Returns the advanced
   * `op` and the corrected position to go on copying from.  An offset of 0 copies unspecified bytes.
   */
  method StartMatch(dest: array<byte>, op: nat, offset: nat) returns (next: nat, ref: nat)
    requires offset <= op && op + STEPSIZE <= dest.Length
    modifies dest
    ensures next == op + STEPSIZE && ref + 4 <= next
    ensures offset > 0 ==> ref == next - Stride(offset) && Repeats(old(dest[..op]), offset, dest[..next])
  {
    if offset < STEPSIZE {
      next, ref := StartShortMatch(dest, op, offset);
    } else {
      ghost var base := dest[..op];
      ref := op - offset;
      StrideRepeats(base, offset, base, 1, STEPSIZE);
      SliceOfPrefix(dest, op, ref, ref + STEPSIZE);
      CopyWord(dest, op, ref, STEPSIZE);
      next, ref := op + STEPSIZE, ref + STEPSIZE;
    }
  }

  /** The overlapping case: four single bytes, then one 4-byte word from a corrected distance. */
  method StartShortMatch(dest: array<byte>, op: nat, offset: nat) returns (next: nat, ref: nat)
    requires offset < STEPSIZE && offset <= op && op + STEPSIZE <= dest.Length
    modifies dest
    ensures next == op + STEPSIZE && ref + 4 <= next
    ensures offset > 0 ==> ref == next - Stride(offset) && Repeats(old(dest[..op]), offset, dest[..next])
  {
    hide Dec, Dec2, Stride, Repeats;
    CorrectionsAddUp(offset);
    ghost var base := dest[..op];
    var dec2 := Dec2(offset);
    FourSingles(dest, op, offset);
    next, ref := op + 4, op - offset + 4;
    ref := ref - Dec(offset);
    ghost var four := dest[..next];
    if offset > 0 {
      ShortOffsetWord(base, offset, four);
      SliceOfPrefix(dest, next, ref, ref + 4);
    }
    CopyWord(dest, next, ref, 4);
    next := next + (STEPSIZE - 4);
    ref := ref - dec2;
  }

  method FourSingles(dest: array<byte>, op: nat, offset: nat)
    requires offset <= op && op + 4 <= dest.Length
    modifies dest
    ensures offset > 0 ==> Repeats(old(dest[..op]), offset, dest[..op + 4])
  {
    var ref := op - offset;
    dest[op] := dest[ref];
    dest[op + 1] := dest[ref + 1];
    dest[op + 2] := dest[ref + 2];
    dest[op + 3] := dest[ref + 3];
  }

  /** The 4-byte word copied after the first correction reads from a multiple of the offset. */
  lemma ShortOffsetWord(base: bytes, offset: nat, four: bytes)
    requires 1 <= offset < STEPSIZE && |four| == |base| + 4
    requires Repeats(base, offset, four)
    ensures var d := offset + Dec(offset);
            d <= |four| && Repeats(base, offset, four + four[|four| - d..|four| - d + 4])
  {
    var k := [0, 4, 2, 2, 1, 1, 1, 1][offset];
    assert k * offset == offset + Dec(offset);
    StrideRepeats(base, offset, four, k, 4);
  }

  /** LZ4_SECURECOPY within the output: strides of eight until `end` is reached or passed. */
  method SecureCopy(dest: array<byte>, op: nat, ref: nat, end: int, ghost base: bytes, ghost offset: nat)
    returns (next: nat, from: nat)
    requires ref < op && op <= dest.Length
    requires op < end ==> end + STEPSIZE <= dest.Length + 1
    requires offset > 0 ==> MidMatch(base, offset, dest[..op], ref)
    modifies dest
    ensures op <= next <= dest.Length && next - from == op - ref && from < next
    ensures next == op || next < end + STEPSIZE
    ensures end <= next
    ensures dest[..op] == old(dest[..op])
    ensures offset > 0 ==> MidMatch(base, offset, dest[..next], from)
  {
    hide Repeats, Stride;
    next, from := op, ref;
    while next < end
      invariant op <= next <= dest.Length && next - from == op - ref && from < next
      invariant next == op || next < end + STEPSIZE
      invariant dest[..op] == old(dest[..op])
      invariant offset > 0 ==> MidMatch(base, offset, dest[..next], from)
    {
      ghost var before := dest[..next];
      if offset > 0 {
        NextStrideRepeats(base, offset, before, STEPSIZE);
        SliceOfPrefix(dest, next, from, from + STEPSIZE);
      }
      CopyWord(dest, next, from, STEPSIZE);
      assert before[..op] == old(dest[..op]);
      assert dest[..op] == dest[..next][..op];
      next, from := next + STEPSIZE, from + STEPSIZE;
    }
  }

  /** A match of which `cur` has been written so far, to be continued by copying from `ref`. */
  ghost predicate MidMatch(base: bytes, offset: nat, cur: bytes, ref: int) {
    && Repeats(base, offset, cur)
    && |base| + STEPSIZE <= |cur|
    && ref == |cur| - Stride(offset)
  }

  /** The byte loop that finishes a match inside the last eight bytes of the output. */
  method TailCopy(dest: array<byte>, op: nat, ref: nat, cpy: nat, ghost base: bytes, ghost offset: nat)
    returns (next: nat)
    requires ref < op <= dest.Length && cpy <= dest.Length
    requires offset > 0 ==> MidMatch(base, offset, dest[..op], ref)
    modifies dest
    ensures op <= next <= dest.Length && cpy <= next
    ensures dest[..op] == old(dest[..op])
    ensures offset > 0 ==> Repeats(base, offset, dest[..next])
  {
    next := op;
    var from := ref;
    while next < cpy
      invariant op <= next <= dest.Length && 0 <= from && next - from == op - ref
      invariant dest[..op] == old(dest[..op])
      invariant offset > 0 ==> MidMatch(base, offset, dest[..next], from)
    {
      ghost var before := dest[..next];
      if offset > 0 {
        NextStrideRepeats(base, offset, before, 1);
        SliceOfPrefix(dest, next, from, from + 1);
      }
      dest[next] := dest[from];
      assert dest[..next] == before;
      assert offset > 0 ==> dest[..next + 1] == before + before[from..from + 1];
      next, from := next + 1, from + 1;
    }
  }

  /**
   * A whole match: first eight bytes, bounds test, then strides or strides and a byte tail.  Whatever the
   * offset, the bytes below the end of the match are those of the byte-at-a-time copy.
   */
  method CopyMatch(dest: array<byte>, op: nat, offset: nat, matchLen: nat) returns (ok: bool)
    requires offset <= op && op + COPYLENGTH <= dest.Length && MINMATCH <= matchLen
    modifies dest
    ensures ok <==> op + matchLen <= dest.Length
    ensures ok && offset > 0 ==> dest[..op + matchLen] == CopyBack(old(dest[..op]), offset, matchLen)
  {
    ghost var base := dest[..op];
    var next, ref := StartMatch(dest, op, offset);
    var length := matchLen - MINMATCH;
    var cpy := next + length - (STEPSIZE - 4);
    if dest.Length - COPYLENGTH < cpy {
      if dest.Length < cpy {
        return false;
      }
      next, ref := SecureCopy(dest, next, ref, dest.Length - COPYLENGTH, base, offset);
      next := TailCopy(dest, next, ref, cpy, base, offset);
    } else {
      next, ref := SecureCopy(dest, next, ref, cpy, base, offset);
    }
    if offset > 0 {
      assert dest[..cpy] == dest[..next][..cpy];
      PeriodicIsCopyBack(base, offset, matchLen, dest[..cpy]);
    }
    ok := true;
  }
}
