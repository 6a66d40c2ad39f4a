/** Sections of an img3 image: their headers, their data, and the bytes they are made of. */
module Img3Sections {
  import opened Basics

  const MAGIC := 0x496D6733
  const DATA_MAGIC := 0x44415441
  const VERS_MAGIC := 0x56455253
  const SEPO_MAGIC := 0x5345504F
  const SCEP_MAGIC := 0x53434550
  const BORD_MAGIC := 0x424F5244
  const BDID_MAGIC := 0x42444944
  const SHSH_MAGIC := 0x53485348
  const CERT_MAGIC := 0x43455254
  const KBAG_MAGIC := 0x4B424147
  const TYPE_MAGIC := 0x54595045
  const SDOM_MAGIC := 0x53444F4D
  const PROD_MAGIC := 0x50524F44
  const CHIP_MAGIC := 0x43484950
  const ECID_MAGIC := 0x45434944

  /** Size of the header every section starts with. */
  const HEADER := 12

  /** Number of values of a uint32_t. */
  const TWO32 := 0x1_0000_0000

  datatype SectionType =
    | BASE | CERT | DATA | KBAG | SEPO | SHSH | TYPE | SDOM | PROD | CHIP | ECID | VERS | SCEP | BORD | BDID | UNKNOWN

  function TypeOf(magic: nat): SectionType {
    if magic == MAGIC then BASE
    else if magic == DATA_MAGIC then DATA
    else if magic == VERS_MAGIC then VERS
    else if magic == SEPO_MAGIC then SEPO
    else if magic == SCEP_MAGIC then SCEP
    else if magic == BORD_MAGIC then BORD
    else if magic == BDID_MAGIC then BDID
    else if magic == SHSH_MAGIC then SHSH
    else if magic == CERT_MAGIC then CERT
    else if magic == KBAG_MAGIC then KBAG
    else if magic == TYPE_MAGIC then TYPE
    else if magic == SDOM_MAGIC then SDOM
    else if magic == PROD_MAGIC then PROD
    else if magic == CHIP_MAGIC then CHIP
    else if magic == ECID_MAGIC then ECID
    else UNKNOWN
  }

  /** The four letters that stand for a type, as the format writes them. */
  function Letters(t: SectionType): (s: string)
    requires t != UNKNOWN
    ensures |s| == 4
  {
    match t
    case BASE => "Img3"
    case CERT => "CERT"
    case DATA => "DATA"
    case KBAG => "KBAG"
    case SEPO => "SEPO"
    case SHSH => "SHSH"
    case TYPE => "TYPE"
    case SDOM => "SDOM"
    case PROD => "PROD"
    case CHIP => "CHIP"
    case ECID => "ECID"
    case VERS => "VERS"
    case SCEP => "SCEP"
    case BORD => "BORD"
    case BDID => "BDID"
  }

  /** Four letters as a number, first letter most significant. */
  function LettersWord(s: string): int
    requires |s| == 4
  {
    s[0] as int * 0x100_0000 + s[1] as int * 0x1_0000 + s[2] as int * 0x100 + s[3] as int
  }

  /** A magic number is of a type exactly when it spells the letters of the type. */
  lemma TypeSpellsLetters(magic: nat, t: SectionType)
    requires t != UNKNOWN
    ensures TypeOf(magic) == t <==> magic == LettersWord(Letters(t))
  {
  }

  /** A section inside an image: a known one other than the image header. */
  predicate IsInner(magic: nat) {
    TypeOf(magic) != BASE && TypeOf(magic) != UNKNOWN
  }

  /** The magic number spells the letters of a kind of section there can be inside an image. */
  ghost predicate SpellsInner(magic: nat) {
    exists t :: t != BASE && t != UNKNOWN && magic == LettersWord(Letters(t))
  }

  /** The scan stops at all fourteen kinds, and at nothing else. */
  lemma InnerKinds(magic: nat)
    ensures IsInner(magic) <==> SpellsInner(magic)
  {
    hide TypeOf, Letters, LettersWord;
    if IsInner(magic) {
      TypeSpellsLetters(magic, TypeOf(magic));
    }
    forall t | t != BASE && t != UNKNOWN && magic == LettersWord(Letters(t)) ensures IsInner(magic) {
      TypeSpellsLetters(magic, t);
    }
  }

  /** A uint32_t as the machine reads it, low byte first. */
  function Word(mem: seq<byte>, at: nat): (v: nat)
    requires at + 4 <= |mem|
    ensures v < TWO32
  {
    mem[at] as int + mem[at + 1] as int * 0x100 + mem[at + 2] as int * 0x1_0000 + mem[at + 3] as int * 0x100_0000
  }

  /** A section as recorded: its header, a copy of its data if it has any, and where it starts. */
  datatype Section = Section(magic: nat, totalLength: nat, dataLength: nat, data: Option<seq<byte>>, original: nat)

  /** Where the data of a section starts: right behind the header, or so that it ends the section. */
  function DataOffset(magic: nat, totalLength: nat, dataLength: nat): nat {
    if magic == DATA_MAGIC then HEADER else (totalLength - dataLength) % TWO32
  }

  /** The memory ParseSection reads at `at` is there. */
  predicate Readable(mem: seq<byte>, at: nat) {
    && at + 4 <= |mem|
    && (TypeOf(Word(mem, at)) != UNKNOWN ==> at + HEADER <= |mem|)
    && (IsInner(Word(mem, at)) && Word(mem, at + 8) != 0 ==>
          at + DataOffset(Word(mem, at), Word(mem, at + 4), Word(mem, at + 8)) + Word(mem, at + 8) <= |mem|)
  }

  /** The section at `at`, if there is a known one. */
  function SectionAt(mem: seq<byte>, at: nat): Section
    requires Readable(mem, at) && TypeOf(Word(mem, at)) != UNKNOWN
  {
    var magic, total, size := Word(mem, at), Word(mem, at + 4), Word(mem, at + 8);
    var from := at + DataOffset(magic, total, size);
    Section(magic, total, size, if IsInner(magic) && size != 0 then Some(mem[from..from + size]) else None, at)
  }

  lemma SectionFields(mem: seq<byte>, at: nat)
    requires Readable(mem, at) && TypeOf(Word(mem, at)) != UNKNOWN
    ensures SectionAt(mem, at).original == at && SectionAt(mem, at).totalLength == Word(mem, at + 4)
  {
  }

  // ---------- well-formed images ----------

  /** The bytes of one section: a known header whose lengths fit the bytes. */
  ghost predicate IsBlob(b: seq<byte>) {
    && HEADER <= |b| < TWO32 && SpellsInner(Word(b, 0))
    && Word(b, 4) == |b| && HEADER + Word(b, 8) <= |b|
  }

  function Concat(bs: seq<seq<byte>>): seq<byte> {
    if bs == [] then [] else bs[0] + Concat(bs[1..])
  }

  /** The data of a section's bytes. */
  function BlobData(b: seq<byte>): Option<seq<byte>>
    requires IsBlob(b)
  {
    var size := Word(b, 8);
    if size == 0 then None
    else if Word(b, 0) == LettersWord("DATA") then Some(b[HEADER..HEADER + size])
    else Some(b[|b| - size..])
  }

  /** The sections that the bytes bs are, put one behind the other from offset `off` on. */
  ghost function SectionsOf(bs: seq<seq<byte>>, off: nat): seq<Section>
    requires forall b <- bs :: IsBlob(b)
  {
    if bs == [] then []
    else
      assert IsBlob(bs[0]);
      [Section(Word(bs[0], 0), |bs[0]|, Word(bs[0], 8), BlobData(bs[0]), off)] + SectionsOf(bs[1..], off + |bs[0]|)
  }

  lemma Slice(mem: seq<byte>, off: nat, n: nat, from: nat, size: nat)
    requires off + n <= |mem| && from + size <= n
    ensures mem[off..off + n][from..from + size] == mem[off + from..off + from + size]
  {
    var u, v := mem[off..off + n][from..from + size], mem[off + from..off + from + size];
    assert |u| == |v| && forall k | 0 <= k < size :: u[k] == mem[off + (from + k)] && v[k] == mem[(off + from) + k];
  }

  lemma WordSlice(mem: seq<byte>, off: nat, b: seq<byte>, k: nat)
    requires k + 4 <= |b| && off + |b| <= |mem| && mem[off..off + |b|] == b
    ensures Word(mem, off + k) == Word(b, k)
  {
    var c := mem[off..off + |b|];
    assert forall j | k <= j < k + 4 :: mem[off + j] == c[j];
  }

  lemma IsDataMagic()
    ensures DATA_MAGIC == LettersWord("DATA")
  {
  }

  lemma BlobAt(mem: seq<byte>, off: nat, b: seq<byte>)
    requires IsBlob(b) && off + |b| <= |mem| && mem[off..off + |b|] == b
    ensures Readable(mem, off) && IsInner(Word(mem, off)) && Word(mem, off + 4) == |b|
    ensures SectionAt(mem, off) == Section(Word(b, 0), |b|, Word(b, 8), BlobData(b), off)
  {
    hide TypeOf, Word, SpellsInner;
    InnerKinds(Word(b, 0));
    IsDataMagic();
    WordSlice(mem, off, b, 0);
    WordSlice(mem, off, b, 4);
    WordSlice(mem, off, b, 8);
    var size := Word(b, 8);
    var from := DataOffset(Word(b, 0), |b|, size);
    assert from == if Word(b, 0) == DATA_MAGIC then HEADER else |b| - size;
    Slice(mem, off, |b|, from, size);
    assert Word(b, 0) != DATA_MAGIC ==> b[from..from + size] == b[|b| - size..];
  }
}
