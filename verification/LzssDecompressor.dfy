/** The decompressor: a ring, a shift register of flags, and an output buffer. */
module LzssDecompressor {
  import opened Basics
  import opened LzssConstants
  import opened LzssStream
  import opened LzssPacking

  /**
   * The flag register after a shift: `left` flags of the group in its low bits, and above them the
   * ones of the high byte that count them.
   */
  ghost predicate Register(flags: nat, bits: nat, left: nat) {
    left <= GROUP && bits < Pow2(left) && flags == bits + 255 * Pow2(left)
  }

  /** (flags & 0x100) == 0 */
  predicate UsedUp(flags: nat) {
    flags / 256 % 2 == 0
  }

  /** Bit 8 of the register is clear exactly when the eight flags are used up. */
  lemma RegisterCounts(flags: nat, bits: nat, left: nat)
    requires Register(flags, bits, left)
    ensures UsedUp(flags) <==> left == 0
    ensures left > 0 ==> (IsLiteral(flags) <==> IsLiteral(bits)) && Register(Shifted(flags), Shifted(bits), left - 1)
  {
    Pow2Values();
    if left > 0 {
      var p := Pow2(left - 1);
      assert Pow2(left) == 2 * p;
      assert flags == bits + 2 * (255 * p);
    }
  }

  /** A flag byte with its high byte of ones is a full register. */
  lemma RegisterFull(c: byte)
    ensures Register(c + 0xFF00, c, GROUP)
  {
    Pow2Values();
  }

  /** The register at the top of the loop, before its shift; it starts as zero. */
  ghost predicate Waiting(flags: nat, bits: nat, left: nat) {
    (flags == 0 && bits == 0 && left == 0) || Register(Shifted(flags), bits, left)
  }

  lemma RegisterEmpty(flags: nat, bits: nat)
    requires Waiting(flags, bits, 0)
    ensures UsedUp(Shifted(flags))
  {
    if flags != 0 { RegisterCounts(Shifted(flags), bits, 0); }
  }

  /** The output so far, in the buffer and in the ring whose next cell is r. */
  ghost predicate Holds(dst: seq<byte>, count: int, ring: seq<byte>, r: int, junk: seq<byte>, out: seq<byte>) {
    && count == |out| && out <= dst
    && r == Cell(|out|) && RingHolds(ring, junk, out)
  }

  /** Sends a byte to the output and to the ring. */
  method Emit(dst: array<byte>, count: nat, textBuf: array<byte>, r: int, c: byte, ghost junk: seq<byte>,
              ghost out: seq<byte>)
    returns (count': nat, r': int)
    requires dst != textBuf && Holds(dst[..], count, textBuf[..], r, junk, out) && count < dst.Length
    modifies dst, textBuf
    ensures Holds(dst[..], count', textBuf[..], r', junk, out + [c])
    ensures forall x | count' <= x < dst.Length :: dst[x] == old(dst[x])
  {
    dst[count] := c;
    count' := count + 1;
    textBuf[r] := c;
    r' := (r + 1) % N;
    RingStep(old(textBuf[..]), textBuf[..], junk, out, c);
    CellStep(|out|);
  }

  /** Replays n bytes from cell i on; the copy may run into the bytes it has just written. */
  method Replay(dst: array<byte>, count: nat, textBuf: array<byte>, r: int, i: int, n: nat, ghost junk: seq<byte>,
                ghost out: seq<byte>)
    returns (count': nat, r': int)
    requires dst != textBuf && Holds(dst[..], count, textBuf[..], r, junk, out)
    requires 0 <= i < N && n <= N && count + n <= dst.Length
    modifies dst, textBuf
    ensures Holds(dst[..], count', textBuf[..], r', junk, CopyFrom(junk, out, Latest(|out|, i), n))
    ensures forall x | count' <= x < dst.Length :: dst[x] == old(dst[x])
  {
    count', r' := count, r;
    ghost var a, o := Latest(|out|, i), out;
    for k := 0 to n
      invariant Holds(dst[..], count', textBuf[..], r', junk, o) && |o| == |out| + k
      invariant CopyFrom(junk, o, a + k, n - k) == CopyFrom(junk, out, a, n)
      invariant forall x | count' <= x < dst.Length :: dst[x] == old(dst[x])
    {
      hide RingHolds, At, Cell, Latest;
      CellOffset(a, k);
      RingRead(textBuf[..], junk, o, a + k);
      var c := textBuf[(i + k) % N];
      count', r' := Emit(dst, count', textBuf, r', c, junk, o);
      o := o + [c];
    }
  }

  /** With `out` written and the source read up to k, the units still to read make up the rest of `total`. */
  ghost predicate Decoding(junk: seq<byte>, out: seq<byte>, src: seq<byte>, k: nat, bits: nat, left: nat,
                           total: seq<byte>) {
    |junk| == F && k <= |src| && Expand(junk, out, ParseAt(src, k, bits, left)) == total
  }

  lemma DecodeRefill(junk: seq<byte>, out: seq<byte>, src: seq<byte>, k: nat, bits: nat, total: seq<byte>)
    requires Decoding(junk, out, src, k, bits, 0, total)
    ensures if k < |src| then Decoding(junk, out, src, k + 1, src[k], GROUP, total) else out == total
  {
    if k == |src| { ExpandNothing(junk, out); }
  }

  lemma DecodeLiteral(junk: seq<byte>, out: seq<byte>, src: seq<byte>, k: nat, bits: nat, left: nat, total: seq<byte>)
    requires Decoding(junk, out, src, k, bits, left, total) && left > 0 && IsLiteral(bits)
    ensures if k < |src| then
        Decoding(junk, out + [src[k]], src, k + 1, Shifted(bits), left - 1, total) && |out| < |total|
      else out == total
  {
    var us := ParseAt(src, k, bits, left);
    if k == |src| {
      ExpandNothing(junk, out);
    } else {
      ExpandFirst(junk, out, us);
      assert us[1..] == ParseAt(src, k + 1, Shifted(bits), left - 1);
    }
  }

  lemma DecodePair(junk: seq<byte>, out: seq<byte>, src: seq<byte>, k: nat, bits: nat, left: nat, total: seq<byte>)
    requires Decoding(junk, out, src, k, bits, left, total) && left > 0 && !IsLiteral(bits)
    ensures if k + 1 < |src| then
        var i, n := PairPosition(src[k], src[k + 1]), PairLength(src[k + 1]);
        && |out| + n <= |total|
        && Decoding(junk, CopyFrom(junk, out, Latest(|out|, i), n), src, k + 2, Shifted(bits), left - 1, total)
      else out == total
  {
    var us := ParseAt(src, k, bits, left);
    if k + 1 >= |src| {
      ExpandNothing(junk, out);
    } else {
      hide PairPosition, PairLength, Latest;
      ExpandFirst(junk, out, us);
      assert us[0] == Pair(src[k], src[k + 1]);
      assert us[1..] == ParseAt(src, k + 2, Shifted(bits), left - 1);
    }
  }

  /** A ring of blanks, but for F cells that hold what happened to be there. */
  method NewRing() returns (textBuf: array<byte>, ghost junk: seq<byte>)
    ensures fresh(textBuf) && textBuf.Length == N + F - 1
    ensures |junk| == F && RingHolds(textBuf[..], junk, [])
  {
    textBuf := new byte[N + F - 1];
    for i := 0 to N - F
      invariant forall x | 0 <= x < i :: textBuf[x] == SPACE
    {
      textBuf[i] := SPACE;
    }
    junk := textBuf[N - F..N];
  }

  /**
   * Writes what any source decodes to, whatever the uninitialised cells of the ring hold, and reads
   * the source to its end.
   */
  method Decompress(dst: array<byte>, src: seq<byte>) returns (count: nat, ghost junk: seq<byte>, ghost read: nat)
    requires TotalLength(Parse(src)) <= dst.Length
    modifies dst
    ensures |junk| == F
    ensures count == |Decoded(src, junk)| <= dst.Length && dst[..count] == Decoded(src, junk)
    ensures dst[count..] == old(dst[count..]) && read == |src|
  {
    hide UsedUp, Shifted, IsLiteral, PairPosition, PairLength, Expand, ParseAt, RingHolds, Pow2, CopyFrom, Latest, At,
      Register;
    var textBuf;
    textBuf, junk := NewRing();
    var r := N - F;
    var flags: nat, k: nat := 0, 0;
    count := 0;
    ghost var out: seq<byte>, bits: nat, left: nat := [], 0, 0;
    ghost var total := Decoded(src, junk);
    while true
      invariant k <= |src| && Waiting(flags, bits, left)
      invariant Holds(dst[..], count, textBuf[..], r, junk, out)
      invariant Decoding(junk, out, src, k, bits, left, total)
      invariant forall x | count <= x < dst.Length :: dst[x] == old(dst[x])
      decreases |src| - k
    {
      hide Cell, Decoded, Decoding;
      if left > 0 {
        RegisterCounts(Shifted(flags), bits, left);
      } else {
        RegisterEmpty(flags, bits);
        DecodeRefill(junk, out, src, k, bits, total);
      }
      flags := Shifted(flags);
      if UsedUp(flags) {
        if k == |src| {
          break;
        }
        flags := src[k] as int + 0xFF00;
        bits, left := src[k], GROUP;
        RegisterFull(src[k]);
        RegisterCounts(flags, bits, left);
        k := k + 1;
      }
      if IsLiteral(flags) {
        DecodeLiteral(junk, out, src, k, bits, left, total);
        if k == |src| {
          break;
        }
        var c := src[k];
        k := k + 1;
        count, r := Emit(dst, count, textBuf, r, c, junk, out);
        out := out + [c];
      } else {
        DecodePair(junk, out, src, k, bits, left, total);
        if k == |src| {
          break;
        }
        var i: int := src[k];
        k := k + 1;
        if k == |src| {
          break;
        }
        var j: int := src[k];
        k := k + 1;
        i, j := PairPosition(i, j), PairLength(j);
        count, r := Replay(dst, count, textBuf, r, i, j, junk, out);
        out := CopyFrom(junk, out, Latest(|out|, i), j);
      }
      bits, left := Shifted(bits), left - 1;
    }
    read := k;
  }
}
