/** Images on which the scan for sections does not go forward. */
module Img3Counterexamples {
  import opened Basics
  import opened Img3Sections
  import opened Img3Scan
  import opened Img3FileInterface

  // ---------- images made of headers ----------

  /** A uint32_t in memory, low byte first. */
  function Bytes(v: nat): (b: seq<byte>)
    requires v < TWO32
    ensures |b| == 4 && Word(b, 0) == v
  {
    var q := v / 0x100;
    var r := q / 0x100;
    [v % 0x100, q % 0x100, r % 0x100, r / 0x100]
  }

  /** The header of a section. */
  datatype Header = Header(magic: nat, totalLength: nat, dataLength: nat)
  {
    predicate Valid() {
      magic < TWO32 && totalLength < TWO32 && dataLength < TWO32
    }

    function Memory(): (b: seq<byte>)
      requires Valid()
      ensures |b| == HEADER
    {
      Bytes(magic) + Bytes(totalLength) + Bytes(dataLength)
    }
  }

  function Image(hs: seq<Header>): (mem: seq<byte>)
    requires forall h <- hs :: h.Valid()
    ensures |mem| == HEADER * |hs|
  {
    if hs == [] then []
    else
      assert hs[0].Valid();
      hs[0].Memory() + Image(hs[1..])
  }

  lemma MemoryWords(mem: seq<byte>, at: nat, h: Header)
    requires h.Valid() && at + HEADER <= |mem| && mem[at..at + HEADER] == h.Memory()
    ensures Word(mem, at) == h.magic && Word(mem, at + 4) == h.totalLength && Word(mem, at + 8) == h.dataLength
  {
    hide Word, Bytes;
    var b := h.Memory();
    WordSlice(b, 0, Bytes(h.magic), 0);
    WordSlice(b, 4, Bytes(h.totalLength), 0);
    WordSlice(b, 8, Bytes(h.dataLength), 0);
    WordSlice(mem, at, b, 0);
    WordSlice(mem, at, b, 4);
    WordSlice(mem, at, b, 8);
  }

  lemma {:induction false} ImageSlice(hs: seq<Header>, i: nat)
    requires (forall h <- hs :: h.Valid()) && i < |hs|
    ensures Image(hs)[HEADER * i..HEADER * i + HEADER] == hs[i].Memory()
    decreases i
  {
    var mem, first := Image(hs), hs[0].Memory();
    if i > 0 {
      ImageSlice(hs[1..], i - 1);
      var at := HEADER * (i - 1);
      assert mem[HEADER + at..HEADER + at + HEADER] == mem[HEADER..][at..at + HEADER];
    }
  }

  /** The header at the start of an image and the empty sections behind it. */
  lemma ImageWords(hs: seq<Header>, i: nat)
    requires (forall h <- hs :: h.Valid()) && i < |hs|
    ensures var mem, at := Image(hs), HEADER * i;
      && Word(mem, at) == hs[i].magic && Word(mem, at + 4) == hs[i].totalLength && Word(mem, at + 8) == hs[i].dataLength
  {
    hide Word, Image, Bytes, Header.Memory;
    var mem, at := Image(hs), HEADER * i;
    assert at + HEADER <= |mem|;
    ImageSlice(hs, i);
    MemoryWords(mem, at, hs[i]);
  }

  /** A section without data, and where the scan goes on from it. */
  lemma EmptySection(hs: seq<Header>, i: nat)
    requires (forall h <- hs :: h.Valid()) && i < |hs| && hs[i].magic == CERT_MAGIC && hs[i].dataLength == 0
    ensures var mem, at := Image(hs), HEADER * i;
      && MayRead(mem, at) && IsInner(Word(mem, at)) && Word(mem, at + 4) == hs[i].totalLength
      && Next(mem, at) == (at + hs[i].totalLength) % TWO32
  {
    hide Word, Image;
    ImageWords(hs, i);
  }

  lemma ImageHeaderRead(hs: seq<Header>)
    requires (forall h <- hs :: h.Valid()) && hs != []
    requires hs[0] == Header(MAGIC, HEADER * |hs|, HEADER * |hs| - HEADER)
    ensures var mem := Image(hs);
      Readable(mem, 0) && IsImage(mem, |mem|) && HeaderLength(SectionAt(mem, 0)) == HEADER
  {
    hide Word, Image;
    ImageWords(hs, 0);
  }

  // ---------- the images ----------

  /** An image with a section of length zero. */
  const ZeroHeaders := [Header(MAGIC, 24, 12), Header(CERT_MAGIC, 0, 0)]

  /** The scan may read all it reads, and never leaves the section without a length. */
  lemma ZeroImageSpins()
    ensures var mem := Image(ZeroHeaders);
      && Readable(mem, 0) && IsImage(mem, |mem|) && HeaderLength(SectionAt(mem, 0)) == HEADER
      && ReadsAll(mem, HEADER, |mem|) && !Ends(mem, HEADER, |mem|)
  {
    hide Word, Image, TypeOf, Next, MayRead;
    var mem := Image(ZeroHeaders);
    ImageHeaderRead(ZeroHeaders);
    EmptySection(ZeroHeaders, 1);
    Stuck(mem, HEADER, |mem|);
    forall k: nat, o: nat | Meets(mem, HEADER, |mem|, k, o) ensures MayRead(mem, o) {
      Stays(mem, HEADER, |mem|, k, o);
    }
  }

  lemma {:induction false} Stays(mem: seq<byte>, off: nat, end: nat, k: nat, o: nat)
    requires MayRead(mem, off) && Next(mem, off) == off && Meets(mem, off, end, k, o)
    ensures o == off
    decreases k
  {
    if k > 0 { Stays(mem, off, end, k - 1, o); }
  }

  /** An image of two sections, the second of a length that leads back to the first. */
  const WrapHeaders := [Header(MAGIC, 36, 24), Header(CERT_MAGIC, 12, 0), Header(CERT_MAGIC, TWO32 - 12, 0)]

  /** Every section has a length, and still the scan goes round. */
  lemma WrapImageSpins()
    ensures var mem := Image(WrapHeaders);
      && Readable(mem, 0) && IsImage(mem, |mem|) && HeaderLength(SectionAt(mem, 0)) == HEADER
      && Word(mem, 16) > 0 && Word(mem, 28) > 0 && !Ends(mem, HEADER, |mem|)
  {
    hide Word, Image, TypeOf, Next, MayRead;
    var mem := Image(WrapHeaders);
    ImageHeaderRead(WrapHeaders);
    EmptySection(WrapHeaders, 1);
    EmptySection(WrapHeaders, 2);
    assert Meets(mem, 12, 36, 0, 12);
    assert Meets(mem, 24, 36, 1, 12);
    assert Meets(mem, 12, 36, 2, 12);
    forall k: nat ensures !EndsWithin(mem, 12, 36, k) {
      ComesBack(mem, 12, 36, 2, k);
    }
  }

  /** An image of two sections, the second of a length that leads back into the first, and from there to the end. */
  const BackHeaders := [
    Header(MAGIC, 48, 36), Header(CERT_MAGIC, 24, 0), Header(CERT_MAGIC, 24, 0), Header(CERT_MAGIC, TWO32 - 12, 0)
  ]

  /** A section that wraps need not keep the scan from ending; but then what is inside a section is listed. */
  lemma BackImageEnds()
    ensures var mem := Image(BackHeaders);
      && Readable(mem, 0) && IsImage(mem, |mem|) && HeaderLength(SectionAt(mem, 0)) == HEADER
      && MayRead(mem, 12) && MayRead(mem, 24) && MayRead(mem, 36)
      && Ends(mem, HEADER, |mem|) && Scan(mem, HEADER, |mem|) == Here(mem, 12) + Here(mem, 36) + Here(mem, 24)
      && Here(mem, 24) != []
  {
    hide Word, Image, TypeOf, Next, MayRead, Scan;
    var mem := Image(BackHeaders);
    ImageHeaderRead(BackHeaders);
    EmptySection(BackHeaders, 1);
    EmptySection(BackHeaders, 2);
    EmptySection(BackHeaders, 3);
    assert EndsWithin(mem, 48, 48, 0);
    assert EndsWithin(mem, 24, 48, 1);
    assert EndsWithin(mem, 36, 48, 2);
    assert EndsWithin(mem, 12, 48, 3);
    ScanIs(mem, 12, 48, 3);
    assert ScanWithin(mem, 24, 48, 1) == Here(mem, 24);
    assert ScanWithin(mem, 36, 48, 2) == Here(mem, 36) + Here(mem, 24);
    assert Here(mem, 12) + (Here(mem, 36) + Here(mem, 24)) == Here(mem, 12) + Here(mem, 36) + Here(mem, 24);
  }
}
