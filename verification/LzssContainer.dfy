/** The archive around the compressed stream: a header of big-endian fields, padding, a checksum. */
module LzssContainer {
  import opened Basics
  import opened LzssConstants
  import opened LzssStream
  import opened LzssPacking
  import opened LzssUnits
  import LzssCompressor
  import LzssDecompressor
  import Adler32

  const COMP_SIGNATURE := 0x636F6D70
  const LZSS_SIGNATURE := 0x6C7A7373

  /** Size of the header: five fields of four bytes and 0x16C bytes of padding. */
  const HEADER := 384

  // Offsets of the fields.
  const SIGNATURE := 0
  const COMPRESSION_TYPE := 4
  const CHECKSUM := 8
  const LENGTH_UNCOMPRESSED := 12
  const LENGTH_COMPRESSED := 16
  const PADDING := 20

  /** Number of values of a uint32_t. */
  const TWO32 := 0x1_0000_0000

  /** A size passed as an int32_t: the number in its range that differs by a multiple of 2 to the 32nd. */
  function Int32(n: nat): (v: int)
    ensures -0x8000_0000 <= v < 0x8000_0000 && (n - v) % 0x1_0000_0000 == 0
  {
    var v := n % TWO32;
    if v < 0x8000_0000 then v else v - TWO32
  }

  // ---------- big-endian fields ----------

  /** ntohl of the four bytes at offset `at`. */
  function Field(b: seq<byte>, at: nat): (v: nat)
    requires at + 4 <= |b|
    ensures v < TWO32
  {
    b[at] as int * 0x100_0000 + b[at + 1] as int * 0x1_0000 + b[at + 2] as int * 0x100 + b[at + 3] as int
  }

  /** htonl into the four bytes at offset `at`. */
  method SetField(b: array<byte>, at: nat, v: nat)
    requires at + 4 <= b.Length && v < TWO32
    modifies b
    ensures Field(b[..], at) == v
    ensures forall x | 0 <= x < b.Length && !(at <= x < at + 4) :: b[x] == old(b[x])
  {
    b[at] := v / 0x100_0000;
    b[at + 1] := v / 0x1_0000 % 0x100;
    b[at + 2] := v / 0x100 % 0x100;
    b[at + 3] := v % 0x100;
    Digits(v);
  }

  lemma Digits(v: nat)
    requires v < TWO32
    ensures v == v / 0x100_0000 * 0x100_0000 + v / 0x1_0000 % 0x100 * 0x1_0000 + v / 0x100 % 0x100 * 0x100 + v % 0x100
    ensures v / 0x100_0000 < 256
  {
    var q := v / 0x100;
    var r := q / 0x100;
    assert v / 0x1_0000 == r;
    assert v / 0x100_0000 == r / 0x100;
  }

  // ---------- archives ----------

  /** The code in an archive. */
  function Payload(archive: seq<byte>): seq<byte>
    requires HEADER <= |archive| && HEADER + Field(archive, LENGTH_COMPRESSED) <= |archive|
  {
    archive[HEADER..HEADER + Field(archive, LENGTH_COMPRESSED)]
  }

  /** An archive of the text x with that checksum, possibly with bytes behind the code. */
  ghost predicate IsArchive(archive: seq<byte>, x: seq<byte>, checksum: nat) {
    && HEADER <= |archive| && HEADER + Field(archive, LENGTH_COMPRESSED) <= |archive|
    && Field(archive, SIGNATURE) == COMP_SIGNATURE
    && Field(archive, COMPRESSION_TYPE) == LZSS_SIGNATURE
    && Field(archive, CHECKSUM) == checksum
    && Field(archive, LENGTH_UNCOMPRESSED) == |x|
    && (forall k | PADDING <= k < HEADER :: archive[k] == 0)
    && (forall junk: seq<byte> | |junk| == F :: Decoded(Payload(archive), junk) == x)
  }

  /** An archive of the text x. */
  ghost predicate IsArchiveOf(archive: seq<byte>, x: seq<byte>) {
    IsArchive(archive, x, Adler32.Checksum(x))
  }

  /** Four letters, a byte each. */
  predicate Spells(b: seq<byte>, letters: string)
    requires |b| == |letters| == 4
  {
    forall k | 0 <= k < 4 :: b[k] == letters[k] as int
  }

  /** A number of four bytes, the most significant one first. */
  function BigEndian(b: seq<byte>): int
    requires |b| == 4
  {
    ((b[0] as int * 256 + b[1]) * 256 + b[2]) * 256 + b[3]
  }

  /** What stands where in an archive, byte by byte. */
  lemma Layout(archive: seq<byte>, x: seq<byte>)
    requires IsArchiveOf(archive, x)
    ensures |archive| >= 384 && Spells(archive[..4], "comp") && Spells(archive[4..8], "lzss")
    ensures BigEndian(archive[8..12]) == Adler32.Checksum(x)
    ensures BigEndian(archive[12..16]) == |x|
    ensures (forall k | 20 <= k < 384 :: archive[k] == 0)
    ensures var n := BigEndian(archive[16..20]);
      && 0 <= n <= |archive| - 384
      && forall junk: seq<byte> | |junk| == F :: Decoded(archive[384..384 + n], junk) == x
  {
    hide Adler32.Checksum, Decoded;
    FourBytes(archive, 0);
    FourBytes(archive, 4);
    FourBytes(archive, 8);
    FourBytes(archive, 12);
    FourBytes(archive, 16);
    SignatureLetters(archive[..4], archive[4..8]);
  }

  lemma FourBytes(b: seq<byte>, at: nat)
    requires at + 4 <= |b|
    ensures BigEndian(b[at..at + 4]) == Field(b, at)
  {
    var c := b[at..at + 4];
    assert c[0] == b[at] && c[1] == b[at + 1] && c[2] == b[at + 2] && c[3] == b[at + 3];
  }

  lemma SignatureLetters(b: seq<byte>, c: seq<byte>)
    requires |b| == |c| == 4 && BigEndian(b) == COMP_SIGNATURE && BigEndian(c) == LZSS_SIGNATURE
    ensures Spells(b, "comp") && Spells(c, "lzss")
  {
  }

  /** Only the header and the code count: whatever fills the rest, it is an archive of the same text. */
  lemma PadIgnored(archive: seq<byte>, archive': seq<byte>, x: seq<byte>)
    requires IsArchiveOf(archive, x)
    requires var n := HEADER + Field(archive, LENGTH_COMPRESSED); n <= |archive'| && archive'[..n] == archive[..n]
    ensures IsArchiveOf(archive', x)
  {
    var n := HEADER + Field(archive, LENGTH_COMPRESSED);
    assert forall k | 0 <= k < n :: archive'[k] == archive'[..n][k] && archive[k] == archive[..n][k];
    assert Payload(archive') == Payload(archive);
  }

  /** An archive is an archive of one text only. */
  lemma ArchiveUnique(archive: seq<byte>, x: seq<byte>, y: seq<byte>)
    requires IsArchiveOf(archive, x) && IsArchiveOf(archive, y)
    ensures x == y
  {
    var junk: seq<byte> := seq(F, _ => 0);
    assert Decoded(Payload(archive), junk) == x;
  }

  /** Writes the header in front of n bytes of code. */
  method WriteHeader(outbuff: array<byte>, checksum: nat, insize: nat, n: nat)
    requires HEADER <= outbuff.Length && checksum < TWO32 && insize < TWO32 && n < TWO32
    modifies outbuff
    ensures Field(outbuff[..], SIGNATURE) == COMP_SIGNATURE && Field(outbuff[..], COMPRESSION_TYPE) == LZSS_SIGNATURE
    ensures Field(outbuff[..], CHECKSUM) == checksum && Field(outbuff[..], LENGTH_UNCOMPRESSED) == insize
    ensures Field(outbuff[..], LENGTH_COMPRESSED) == n
    ensures forall k | PADDING <= k < HEADER :: outbuff[k] == 0
    ensures forall k | HEADER <= k < outbuff.Length :: outbuff[k] == old(outbuff[k])
  {
    SetField(outbuff, SIGNATURE, COMP_SIGNATURE);
    SetField(outbuff, COMPRESSION_TYPE, LZSS_SIGNATURE);
    SetField(outbuff, CHECKSUM, checksum);
    SetField(outbuff, LENGTH_UNCOMPRESSED, insize);
    SetField(outbuff, LENGTH_COMPRESSED, n);
    forall k | PADDING <= k < HEADER {
      outbuff[k] := 0;
    }
  }

  /** The code of n >= 384 bytes of text leaves room for the header and for rounding up to 16. */
  lemma RoomToRound(n: int, size: int)
    requires HEADER <= n && 0 <= size <= LzssCompressor.Bound(n)
    ensures HEADER + size + 16 <= 2 * n + HEADER
  {
  }

  /**
   * An archive is its header and its code, rounded up to 16, and the code of n bytes of text takes no more
   * than one byte in eight more than the text, and no less than 17 for every 144.
   */
  ghost predicate HasSize(archive: seq<byte>, n: nat)
    requires HEADER <= |archive|
  {
    var size := Field(archive, LENGTH_COMPRESSED);
    && 384 + size <= |archive| < 384 + size + 16 && |archive| % 16 == 0
    && size <= n + (n + 7) / 8 && 17 * n <= 144 * size
  }

  /** What the buffer holds once the header is in front of the code. */
  ghost predicate Headed(out: seq<byte>, n: nat, x: seq<byte>, checksum: nat) {
    && HEADER + n <= |out| && |x| < TWO32
    && Field(out, SIGNATURE) == COMP_SIGNATURE && Field(out, COMPRESSION_TYPE) == LZSS_SIGNATURE
    && Field(out, CHECKSUM) == checksum && Field(out, LENGTH_UNCOMPRESSED) == |x|
    && Field(out, LENGTH_COMPRESSED) == n
    && forall k | PADDING <= k < HEADER :: out[k] == 0
  }

  /** A header with the right fields and right code behind it make an archive, cut off anywhere behind the code. */
  lemma MakeArchive(before: seq<byte>, out: seq<byte>, outsize: nat, n: nat, x: seq<byte>, checksum: nat)
    requires Headed(out, n, x, checksum) && HEADER + n <= outsize <= |out| == |before|
    requires forall k | HEADER <= k < |out| :: out[k] == before[k]
    requires forall junk: seq<byte> | |junk| == F :: Decoded(before[HEADER..HEADER + n], junk) == x
    ensures IsArchive(out[..outsize], x, checksum)
    ensures n <= LzssCompressor.Bound(|x|) && outsize < HEADER + n + 16 && outsize % 16 == 0 ==>
      HasSize(out[..outsize], |x|)
  {
    hide Decoded;
    var archive := out[..outsize];
    assert forall k | 0 <= k < outsize :: archive[k] == out[k];
    assert Payload(archive) == before[HEADER..HEADER + n];
    DecodedBound(before[HEADER..HEADER + n], seq(F, _ => 0));
  }

  /** The text that is compressed: its length is passed on in 32 bits. */
  function Passed(inbuff: seq<byte>): (x: seq<byte>)
    ensures |x| < TWO32
  {
    inbuff[..|inbuff| % TWO32]
  }

  /** The text that is summed up: its length is passed on as an int32_t, and if negative taken for zero. */
  function Summed(inbuff: seq<byte>): seq<byte> {
    var n := Int32(|inbuff|);
    inbuff[..if n < 0 then 0 else n]
  }

  /** The size of the buffer, passed on in 32 bits, has room for any code of the text. */
  predicate RoomLeft(inbuff: seq<byte>) {
    LzssCompressor.Bound(|Passed(inbuff)|) <= (2 * |inbuff| + HEADER) % TWO32
  }

  lemma AllPassed(inbuff: seq<byte>)
    requires 2 * |inbuff| + HEADER < TWO32
    ensures Passed(inbuff) == inbuff == Summed(inbuff)
    ensures HEADER <= |inbuff| ==> RoomLeft(inbuff)
  {
  }

  /** The buffer always has room for the header and the code, rounded up. */
  lemma SizesPassed(inbuff: seq<byte>)
    requires HEADER <= |inbuff|
    ensures |Passed(inbuff)| == |inbuff| % TWO32
    ensures 0 <= LzssCompressor.Bound(|Passed(inbuff)|)
    ensures HEADER + LzssCompressor.Bound(|Passed(inbuff)|) + 16 <= 2 * |inbuff| + HEADER
    ensures RoomLeft(inbuff) <==> LzssCompressor.Bound(|Passed(inbuff)|) <= (2 * |inbuff| + HEADER) % TWO32
    ensures Int32(|inbuff|) <= |inbuff|
    ensures Summed(inbuff) == inbuff[..if Int32(|inbuff|) < 0 then 0 else Int32(|inbuff|)]
  {
    RoomToRound(|inbuff|, LzssCompressor.Bound(|Passed(inbuff)|));
  }

  /**
   * Compresses a text of at least 384 bytes into a new archive.  Sizes past 32 bits are cut off where
   * they are passed on; below that the result is an archive of the text.  There is always an archive if
   * what is left of the size of the buffer has room for any code of the text.
   */
  method LzssCompress(inbuff: seq<byte>) returns (result: int, outbuff: array?<byte>, outsize: nat)
    ensures result == 0 || result == -1
    ensures |inbuff| < HEADER || Passed(inbuff) == [] ==> result == -1
    ensures HEADER <= |inbuff| && Passed(inbuff) != [] && RoomLeft(inbuff) ==> result == 0
    ensures result == 0 ==>
      (HEADER <= |inbuff| && outbuff != null && fresh(outbuff) && HEADER <= outsize <= outbuff.Length
       && IsArchive(outbuff[..outsize], Passed(inbuff), Adler32.Checksum(Summed(inbuff)))
       && HasSize(outbuff[..outsize], |Passed(inbuff)|))
    ensures HEADER <= |inbuff| && 2 * |inbuff| + HEADER < TWO32 ==>
      (result == 0 && IsArchiveOf(outbuff[..outsize], inbuff) && HasSize(outbuff[..outsize], |inbuff|))
  {
    hide IsArchive, HasSize, Decoded, UnitsOk, TotalLength, Pack, Adler32.Checksum, LzssCompressor.Bound, RoomLeft,
      Passed, Summed;
    if 2 * |inbuff| + HEADER < TWO32 { AllPassed(inbuff); }
    var insize := |inbuff|;
    if insize < HEADER {
      return -1, null, 0;
    }
    SizesPassed(inbuff);
    outsize := insize * 2 + HEADER;
    outbuff := new byte[outsize];
    var end, us := LzssCompressor.Compress(outbuff, HEADER, outsize % TWO32, Passed(inbuff));
    if end.None? {
      return -1, outbuff, outsize;
    }
    outsize := Finish(inbuff, outbuff, end.value);
    result := 0;
  }

  /** Rounds up where the code ends, and puts the header in front of it. */
  method Finish(inbuff: seq<byte>, outbuff: array<byte>, end: nat) returns (outsize: nat)
    requires HEADER <= |inbuff| && HEADER <= end && end + 16 <= outbuff.Length && end - HEADER < TWO32
    requires end - HEADER <= LzssCompressor.Bound(|Passed(inbuff)|)
    requires forall junk: seq<byte> | |junk| == F :: Decoded(outbuff[HEADER..end], junk) == Passed(inbuff)
    modifies outbuff
    ensures HEADER <= outsize <= outbuff.Length
    ensures IsArchive(outbuff[..outsize], Passed(inbuff), Adler32.Checksum(Summed(inbuff)))
    ensures HasSize(outbuff[..outsize], |Passed(inbuff)|)
  {
    hide IsArchive, HasSize, Decoded, Field, Adler32.Checksum, LzssCompressor.Bound, Passed, Summed, Int32;
    SizesPassed(inbuff);
    var insize := |inbuff|;
    outsize := end;
    if outsize % 16 != 0 {
      outsize := outsize + (16 - outsize % 16);
    }
    ghost var before := outbuff[..];
    assert before[HEADER..end] == outbuff[HEADER..end];
    var checksum := Adler32.Lzadler32(inbuff, Int32(insize));
    WriteHeader(outbuff, checksum, insize % TWO32, end - HEADER);
    MakeArchive(before, outbuff[..], outsize, end - HEADER, Passed(inbuff), checksum);
  }

  /** Accepts data in which either signature is right. */
  method IsFileCompressed(inbuff: seq<byte>) returns (result: int)
    requires COMPRESSION_TYPE + 4 <= |inbuff|
    ensures result ==
      if Field(inbuff, SIGNATURE) == COMP_SIGNATURE || Field(inbuff, COMPRESSION_TYPE) == LZSS_SIGNATURE then 0 else -1
  {
    if Field(inbuff, SIGNATURE) != COMP_SIGNATURE && Field(inbuff, COMPRESSION_TYPE) != LZSS_SIGNATURE {
      return -1;
    }
    return 0;
  }

  /** Data that LzssDecompress takes for an archive. */
  predicate Accepted(inbuff: seq<byte>) {
    && HEADER <= |inbuff|
    && (Field(inbuff, SIGNATURE) == COMP_SIGNATURE || Field(inbuff, COMPRESSION_TYPE) == LZSS_SIGNATURE)
  }

  /** The lengths in the header keep to the data and to the text: the caller must be able to rely on them. */
  predicate LengthsHold(inbuff: seq<byte>)
    requires HEADER <= |inbuff|
  {
    && HEADER + Field(inbuff, LENGTH_COMPRESSED) <= |inbuff|
    && TotalLength(Parse(Payload(inbuff))) <= Field(inbuff, LENGTH_UNCOMPRESSED)
  }

  /**
   * What a caller can check in the header: the second length holds for every code of the first one
   * exactly when there is room for the most text so much code can stand for.  At 144 bytes for every 17
   * there always is.
   */
  lemma HeaderDecides(compressed: nat, uncompressed: nat)
    ensures (forall s: seq<byte> | |s| == compressed :: TotalLength(Parse(s)) <= uncompressed)
      <==> Most(compressed, 0) <= uncompressed
    ensures 144 * compressed <= 17 * uncompressed ==> Most(compressed, 0) <= uncompressed
    ensures compressed % 17 == 0 ==> (Most(compressed, 0) <= uncompressed <==> 144 * compressed <= 17 * uncompressed)
  {
    RoomForAny(compressed, uncompressed);
    MostGroups(compressed);
  }

  lemma HeaderSuffices(inbuff: seq<byte>)
    requires HEADER <= |inbuff| && HEADER + Field(inbuff, LENGTH_COMPRESSED) <= |inbuff|
    requires 144 * Field(inbuff, LENGTH_COMPRESSED) <= 17 * Field(inbuff, LENGTH_UNCOMPRESSED)
    ensures LengthsHold(inbuff)
  {
    hide Field, Parse, TotalLength, Most;
    HeaderDecides(Field(inbuff, LENGTH_COMPRESSED), Field(inbuff, LENGTH_UNCOMPRESSED));
  }

  /** An archive of one literal whose header promises no text at all. */
  function ShortArchive(): (b: seq<byte>)
    ensures |b| == HEADER + 2
  {
    seq(HEADER + 2, i requires 0 <= i < HEADER + 2 =>
      if i == 0 then 0x63 else if i == 1 then 0x6F else if i == 2 then 0x6D else if i == 3 then 0x70
      else if i == LENGTH_COMPRESSED + 3 then 2
      else if i == HEADER then 1
      else 0)
  }

  /** It is accepted, and its code does not fit the buffer it asks for. */
  lemma ShortArchiveOverruns()
    ensures Accepted(ShortArchive()) && !LengthsHold(ShortArchive())
  {
    var b := ShortArchive();
    assert Field(b, SIGNATURE) == COMP_SIGNATURE;
    assert Field(b, LENGTH_COMPRESSED) == 2 && Field(b, LENGTH_UNCOMPRESSED) == 0;
    var s := Payload(b);
    assert |s| == 2 && s[0] == 1 && s[1] == 0;
    assert ParseAt(s, 2, 0, 7) == [];
    assert ParseAt(s, 1, 1, 8) == [Literal(0)] + [];
    assert Parse(s) == [Literal(0)];
  }

  /**
   * Decodes the code of an archive to the front of a new buffer of the length in the header.  The
   * checksum is compared and the outcome dropped: a mismatch fails nothing.
   */
  method LzssDecompress(inbuff: seq<byte>)
    returns (result: int, outbuff: array?<byte>, outsize: nat, ghost junk: seq<byte>, ghost matches: bool)
    requires Accepted(inbuff) ==> LengthsHold(inbuff)
    ensures result == if Accepted(inbuff) then 0 else -1
    ensures Accepted(inbuff) ==>
      (outbuff != null && fresh(outbuff) && |junk| == F
       && outsize == outbuff.Length == Field(inbuff, LENGTH_UNCOMPRESSED)
       && |Decoded(Payload(inbuff), junk)| <= outsize
       && outbuff[..|Decoded(Payload(inbuff), junk)|] == Decoded(Payload(inbuff), junk)
       && (matches <==> Field(inbuff, CHECKSUM) == Adler32.Checksum(Summed(outbuff[..]))))
  {
    hide Decoded, Parse, TotalLength, Field, Adler32.Checksum;
    junk, matches := [], false;
    if |inbuff| < HEADER {
      return -1, null, 0, [], false;
    }
    var compressed := IsFileCompressed(inbuff);
    if compressed == -1 {
      return -1, null, 0, [], false;
    }
    outsize := Field(inbuff, LENGTH_UNCOMPRESSED);
    outbuff := new byte[outsize];
    var count;
    ghost var read;
    var src := inbuff[HEADER..HEADER + Field(inbuff, LENGTH_COMPRESSED)];
    count, junk, read := LzssDecompressor.Decompress(outbuff, src);
    var checksum := Adler32.Lzadler32(outbuff[..], Int32(outsize));
    if Field(inbuff, CHECKSUM) != checksum {
      matches := false;
    } else {
      matches := true;
    }
    assert outbuff[..outsize] == outbuff[..];
    result := 0;
  }

  /** What LzssDecompress makes of an archive of x: x itself, with the right checksum. */
  lemma ArchiveHolds(archive: seq<byte>, x: seq<byte>)
    requires IsArchiveOf(archive, x)
    ensures Accepted(archive) && LengthsHold(archive)
    ensures forall junk: seq<byte> | |junk| == F :: Decoded(Payload(archive), junk) == x
  {
    var junk: seq<byte> := seq(F, _ => 0);
    assert Decoded(Payload(archive), junk) == x;
  }

  /** Compressing and decompressing gives the text back, and the checksums agree. */
  method RoundTrip(x: seq<byte>) returns (y: seq<byte>, ghost matches: bool)
    requires HEADER <= |x| && 2 * |x| + HEADER < TWO32
    ensures y == x && matches
  {
    hide IsArchiveOf, Accepted, LengthsHold;
    var result, outbuff, outsize := LzssCompress(x);
    ghost var archive := outbuff[..outsize];
    ArchiveHolds(archive, x);
    ArchiveFields(archive, x);
    var result', outbuff', outsize', junk, matches' := LzssDecompress(outbuff[..outsize]);
    y := outbuff'[..outsize'];
    matches := matches';
    assert y == outbuff'[..];
  }

  lemma ArchiveFields(archive: seq<byte>, x: seq<byte>)
    requires IsArchiveOf(archive, x)
    ensures HEADER <= |archive| && HEADER + Field(archive, LENGTH_COMPRESSED) <= |archive|
    ensures Field(archive, CHECKSUM) == Adler32.Checksum(x) && Field(archive, LENGTH_UNCOMPRESSED) == |x|
  {
  }
}
