/** The list of sections of an img3 image, and the parser that fills it. */
module Img3FileInterface {
  import opened Basics
  import opened Img3Sections
  import opened Img3Scan

  class FileSection {
    var magic: nat
    var totalLength: nat
    var dataLength: nat
    var data: Option<seq<byte>>
    var original: nat

    constructor ()
      ensures magic == 0 && totalLength == 0 && dataLength == 0 && data == None
    {
      magic, totalLength, dataLength, data, original := 0, 0, 0, None, 0;
    }

    function Value(): Section
      reads this
    {
      Section(magic, totalLength, dataLength, data, original)
    }

    function GetSectionType(): SectionType
      reads this
    {
      TypeOf(magic)
    }

    /** Records the section at `at`; data of any other kind leaves the header as it is. */
    method ParseSection(mem: seq<byte>, at: nat) returns (result: int)
      requires Readable(mem, at)
      modifies this
      ensures result == if TypeOf(Word(mem, at)) != UNKNOWN then 0 else -1
      ensures result == 0 ==> Value() == SectionAt(mem, at)
      ensures result == -1 ==> Value() == old(Value()).(data := None)
    {
      hide TypeOf, Word;
      var word := Word(mem, at);
      if TypeOf(word) == BASE {
        magic, totalLength, dataLength := word, Word(mem, at + 4), Word(mem, at + 8);
        original := at;
        data := None;
      } else if word == DATA_MAGIC {
        IsData();
        magic, totalLength, dataLength := word, Word(mem, at + 4), Word(mem, at + 8);
        original := at;
        if dataLength != 0 {
          var dataOffset := HEADER;
          data := Some(mem[at + dataOffset..at + dataOffset + dataLength]);
        } else {
          data := None;
        }
      } else if IsInner(word) {
        magic, totalLength, dataLength := word, Word(mem, at + 4), Word(mem, at + 8);
        original := at;
        if dataLength != 0 {
          var dataOffset := (totalLength - dataLength) % TWO32;
          data := Some(mem[at + dataOffset..at + dataOffset + dataLength]);
        } else {
          data := None;
        }
      } else {
        data := None;
        return -1;
      }
      return 0;
    }
  }

  lemma IsBase()
    ensures TypeOf(MAGIC) == BASE && !IsInner(MAGIC)
  {
  }

  lemma IsData()
    ensures TypeOf(DATA_MAGIC) == DATA
  {
  }

  ghost function Values(ss: seq<FileSection>): (vs: seq<Section>)
    reads ss
    ensures |vs| == |ss| && forall i | 0 <= i < |ss| :: vs[i] == ss[i].Value()
  {
    if ss == [] then [] else Values(ss[..|ss| - 1]) + [ss[|ss| - 1].Value()]
  }

  lemma ValuesAppend(ss: seq<FileSection>, s: FileSection)
    ensures Values(ss + [s]) == Values(ss) + [s.Value()]
  {
    assert (ss + [s])[..|ss|] == ss;
  }

  /** The length of the image header, from where the scan starts. */
  function HeaderLength(s: Section): nat {
    (s.totalLength - s.dataLength) % TWO32
  }

  /** The memory starts with an image header that gives its length right. */
  predicate IsImage(mem: seq<byte>, fileLength: nat)
    requires Readable(mem, 0)
  {
    TypeOf(Word(mem, 0)) == BASE && Word(mem, 4) == fileLength
  }

  /** The first letters of an image, as they are in memory. */
  lemma ImageBegins(mem: seq<byte>, fileLength: nat)
    requires Readable(mem, 0) && IsImage(mem, fileLength)
    ensures mem[0] == '3' as int && mem[1] == 'g' as int && mem[2] == 'm' as int && mem[3] == 'I' as int
    ensures |mem| >= 12
    ensures mem[4] as int + 256 * (mem[5] as int + 256 * (mem[6] as int + 256 * mem[7] as int)) == fileLength
  {
  }

  /** What ParseFile is allowed to run on: everything it reads is there, and its scan ends. */
  ghost predicate Parsable(mem: seq<byte>, fileLength: nat) {
    && Readable(mem, 0)
    && (IsImage(mem, fileLength) ==> Ends(mem, HeaderLength(SectionAt(mem, 0)), fileLength))
  }

  lemma SectionHeader(mem: seq<byte>, at: nat)
    requires Readable(mem, at) && TypeOf(Word(mem, at)) != UNKNOWN
    ensures SectionAt(mem, at).magic == Word(mem, at) && SectionAt(mem, at).totalLength == Word(mem, at + 4)
  {
  }

  /** What the checks of the first section decide. */
  lemma ImageHeader(mem: seq<byte>, fileLength: nat)
    requires Readable(mem, 0)
    ensures 4 <= |mem|
    ensures TypeOf(Word(mem, 0)) == UNKNOWN ==> !IsImage(mem, fileLength)
    ensures TypeOf(Word(mem, 0)) != UNKNOWN ==>
      var s := SectionAt(mem, 0);
      IsImage(mem, fileLength) <==> TypeOf(s.magic) == BASE && s.totalLength == fileLength
  {
  }

  /** What the test of a magic number decides. */
  lemma HereIs(mem: seq<byte>, off: nat)
    requires MayRead(mem, off)
    ensures off + 4 <= |mem|
    ensures IsInner(Word(mem, off)) ==> Readable(mem, off) && TypeOf(Word(mem, off)) != UNKNOWN
    ensures Here(mem, off) == if IsInner(Word(mem, off)) then [SectionAt(mem, off)] else []
    ensures Next(mem, off) == (off + if IsInner(Word(mem, off)) then Word(mem, off + 4) else 1) % TWO32
  {
  }

  class FileInterface {
    var sections: seq<FileSection>

    constructor ()
      ensures sections == []
    {
      sections := [];
    }

    /** Adds the known section at `at` to the list. */
    method Record(mem: seq<byte>, at: nat) returns (totalLength: nat)
      requires Readable(mem, at) && TypeOf(Word(mem, at)) != UNKNOWN
      modifies this
      ensures Values(sections) == old(Values(sections)) + [SectionAt(mem, at)]
      ensures exists s :: fresh(s) && sections == old(sections) + [s]
      ensures totalLength == Word(mem, at + 4)
    {
      hide TypeOf, Word, DataOffset, SectionAt, Values, Readable;
      var newSection := new FileSection();
      var parsed := newSection.ParseSection(mem, at);
      // A known magic number always parses.
      assert parsed == 0;
      SectionHeader(mem, at);
      ValuesAppend(sections, newSection);
      sections := sections + [newSection];
      totalLength := newSection.totalLength;
    }

    /** Fills the list with the image header and all that the scan behind it finds. */
    method ParseFile(mem: seq<byte>, fileLength: nat) returns (result: int)
      requires fileLength < TWO32
      requires fileLength != 0 ==> Parsable(mem, fileLength)
      modifies this
      ensures result == if fileLength != 0 && IsImage(mem, fileLength) then 0 else -1
      ensures result == 0 ==>
        Values(sections) == [SectionAt(mem, 0)] + Scan(mem, HeaderLength(SectionAt(mem, 0)), fileLength)
      ensures result == -1 ==> sections == if fileLength == 0 then old(sections) else []
      ensures result == 0 ==> forall s <- sections :: fresh(s)
      ensures Recovered(mem, fileLength, result == 0, Values(sections))
      ensures result == 0 ==> AllHaveData(sections)
    {
      hide TypeOf, Word, DataOffset, SectionAt, Scan, ScanWithin, Here, Next, MayRead, IsInner, Values, Readable,
        IsImage,
        Recovered, HasItsData, AllHaveData;
      if fileLength == 0 || !IsImage(mem, fileLength) { OthersRecovered(mem, fileLength); }
      if fileLength == 0 {
        return -1;
      }
      ImageHeader(mem, fileLength);
      sections := [];
      var newSection := new FileSection();
      var parsed := newSection.ParseSection(mem, 0);
      if parsed != 0 {
        return -1;
      }
      if newSection.GetSectionType() != BASE {
        return -1;
      }
      var totalImg3Length := newSection.totalLength;
      if totalImg3Length != fileLength {
        return -1;
      }
      ValuesAppend([], newSection);
      sections := sections + [newSection];
      var currOffset: nat := (newSection.totalLength - newSection.dataLength) % TWO32;
      ghost var vals, found := [SectionAt(mem, 0)], Scan(mem, currOffset, fileLength);
      ghost var all := vals + found;
      ghost var left: nat :| EndsWithin(mem, currOffset, fileLength, left);
      assert Values(sections) == vals;
      while currOffset < totalImg3Length
        invariant EndsWithin(mem, currOffset, fileLength, left)
        invariant forall s <- sections :: fresh(s)
        invariant Values(sections) == vals && vals + Scan(mem, currOffset, fileLength) == all
        decreases left
      {
        ScanStep(mem, currOffset, fileLength);
        HereIs(mem, currOffset);
        vals := vals + Here(mem, currOffset);
        if IsInner(Word(mem, currOffset)) {
          var total := Record(mem, currOffset);
          currOffset := (currOffset + total) % TWO32;
        } else {
          currOffset := (currOffset + 1) % TWO32;
        }
        left := left - 1;
      }
      ScanStep(mem, currOffset, fileLength);
      WellFormedRecovered(mem, fileLength);
      ListHasData(mem, fileLength);
      ValuesHaveData(sections);
      return 0;
    }

    /** All sections of a type, in order: those at the places `at` of the list, and at no others. */
    method GetSection(section: SectionType) returns (allSections: seq<FileSection>, ghost at: seq<nat>)
      ensures |allSections| == |at| && (forall k, l | 0 <= k < l < |at| :: at[k] < at[l])
      ensures forall k | 0 <= k < |at| ::
        at[k] < |sections| && allSections[k] == sections[at[k]] && TypeOf(sections[at[k]].magic) == section
      ensures forall i: nat | i < |sections| && TypeOf(sections[i].magic) == section :: i in at
    {
      hide TypeOf;
      allSections, at := [], [];
      for i := 0 to |sections|
        invariant |allSections| == |at| && (forall k, l | 0 <= k < l < |at| :: at[k] < at[l])
        invariant forall k | 0 <= k < |at| ::
          at[k] < i && allSections[k] == sections[at[k]] && TypeOf(sections[at[k]].magic) == section
        invariant forall j: nat | j < i && TypeOf(sections[j].magic) == section :: j in at
      {
        if sections[i].GetSectionType() == section {
          allSections, at := allSections + [sections[i]], at + [i];
        }
      }
    }

    /** The data of the first section of a type, if there is one with data. */
    method GetSectionData(section: SectionType) returns (data: Option<seq<byte>>)
      ensures forall i | IsFirst(sections, section, i) :: data == sections[i].data
      ensures (forall s <- sections :: TypeOf(s.magic) != section) ==> data == None
    {
      hide TypeOf;
      for i := 0 to |sections|
        invariant forall j | 0 <= j < i :: TypeOf(sections[j].magic) != section
      {
        if sections[i].GetSectionType() == section {
          return sections[i].data;
        }
      }
      return None;
    }

    /** The data length of the first section of a type, or zero. */
    method GetSectionDataLength(section: SectionType) returns (length: nat)
      ensures forall i | IsFirst(sections, section, i) :: length == sections[i].dataLength
      ensures (forall s <- sections :: TypeOf(s.magic) != section) ==> length == 0
    {
      hide TypeOf;
      for i := 0 to |sections|
        invariant forall j | 0 <= j < i :: TypeOf(sections[j].magic) != section
      {
        if sections[i].GetSectionType() == section {
          return sections[i].dataLength;
        }
      }
      return 0;
    }
  }

  /** The section at place i is the first of its type. */
  ghost predicate IsFirst(ss: seq<FileSection>, t: SectionType, i: int)
    reads ss
  {
    0 <= i < |ss| && TypeOf(ss[i].magic) == t && forall j | 0 <= j < i :: TypeOf(ss[j].magic) != t
  }

  // ---------- data and their length ----------

  /** The copy of the data is as long as the header says; only the image header has a length and no copy. */
  ghost predicate HasItsData(s: Section) {
    TypeOf(s.magic) != BASE ==>
      match s.data
      case Some(d) => |d| == s.dataLength > 0
      case None => s.dataLength == 0
  }

  lemma SectionHasData(mem: seq<byte>, at: nat)
    requires Readable(mem, at) && TypeOf(Word(mem, at)) != UNKNOWN
    ensures HasItsData(SectionAt(mem, at))
  {
    hide TypeOf, DataOffset, Word;
  }

  /** So is it with every section a scan lists. */
  lemma {:induction false} ScanHasData(mem: seq<byte>, off: nat, end: nat, k: nat)
    requires EndsWithin(mem, off, end, k)
    ensures forall s <- ScanWithin(mem, off, end, k) :: HasItsData(s)
    decreases k
  {
    hide TypeOf, DataOffset, Word, Next, HasItsData, SectionAt;
    if off < end {
      ScanHasData(mem, Next(mem, off), end, k - 1);
      if IsInner(Word(mem, off)) { SectionHasData(mem, off); }
    }
  }

  lemma ListHasData(mem: seq<byte>, fileLength: nat)
    requires Parsable(mem, fileLength) && IsImage(mem, fileLength)
    ensures forall s <- [SectionAt(mem, 0)] + Scan(mem, HeaderLength(SectionAt(mem, 0)), fileLength) :: HasItsData(s)
  {
    hide TypeOf, DataOffset, Word, HasItsData, SectionAt, ScanWithin, EndsWithin;
    var start := HeaderLength(SectionAt(mem, 0));
    var k: nat :| EndsWithin(mem, start, fileLength, k);
    ScanIs(mem, start, fileLength, k);
    ScanHasData(mem, start, fileLength, k);
    SectionHasData(mem, 0);
  }

  ghost predicate AllHaveData(ss: seq<FileSection>)
    reads ss
  {
    forall s <- ss :: HasItsData(s.Value())
  }

  lemma ValuesHaveData(ss: seq<FileSection>)
    requires forall v <- Values(ss) :: HasItsData(v)
    ensures AllHaveData(ss)
  {
    hide HasItsData;
    forall s | s in ss ensures HasItsData(s.Value()) {
      var i :| 0 <= i < |ss| && ss[i] == s;
      assert Values(ss)[i] == s.Value() && Values(ss)[i] in Values(ss);
    }
  }

  lemma {:induction false} FirstOrNone(ss: seq<FileSection>, t: SectionType, from: nat) returns (i: nat)
    requires from <= |ss| && forall j | 0 <= j < from :: TypeOf(ss[j].magic) != t
    ensures if i == |ss| then forall s <- ss :: TypeOf(s.magic) != t else IsFirst(ss, t, i)
    decreases |ss| - from
  {
    hide TypeOf;
    if from == |ss| || TypeOf(ss[from].magic) == t {
      i := from;
    } else {
      i := FirstOrNone(ss, t, from + 1);
    }
  }

  /** The data section of a file: its data, with their length; nothing if the file has none. */
  method RetrieveData(fileInterface: FileInterface, mem: seq<byte>, fileLength: nat)
    returns (encryptedData: Option<seq<byte>>, encryptedDataLength: nat, ghost first: nat)
    requires fileLength < TWO32 && (fileLength != 0 ==> Parsable(mem, fileLength))
    modifies fileInterface
    ensures encryptedData.Some? ==> |encryptedData.value| == encryptedDataLength > 0
    ensures encryptedData.Some? ==> fileLength != 0 && IsImage(mem, fileLength)
    ensures encryptedData.Some? ==> IsFirst(fileInterface.sections, DATA, first)
    ensures encryptedData.Some? ==> encryptedData == fileInterface.sections[first].data
    ensures fileLength != 0 && IsImage(mem, fileLength) && encryptedData.None? ==>
      forall i | IsFirst(fileInterface.sections, DATA, i) :: fileInterface.sections[i].dataLength == 0
  {
    hide TypeOf, DataOffset, Word, SectionAt, Scan, Readable, IsImage, Recovered, Parsable, Values;
    first := 0;
    var result := fileInterface.ParseFile(mem, fileLength);
    if result != 0 {
      return None, 0, 0;
    }
    first := FirstOrNone(fileInterface.sections, DATA, 0);
    encryptedData := fileInterface.GetSectionData(DATA);
    if encryptedData == None {
      return None, 0, 0;
    }
    encryptedDataLength := fileInterface.GetSectionDataLength(DATA);
    if encryptedDataLength == 0 {
      return None, 0, 0;
    }
  }

  // ---------- whole images ----------

  /**
   * The bytes of an image: an image header that counts the whole image, and the bytes of sections
   * behind it, the length of the header being what its two lengths differ by.
   */
  ghost predicate IsWellFormed(mem: seq<byte>, head: nat, bs: seq<seq<byte>>) {
    && HEADER <= head <= |mem| < TWO32 && (forall b <- bs :: IsBlob(b))
    && Word(mem, 0) == MAGIC && Word(mem, 4) == |mem| && Word(mem, 8) == |mem| - head
    && mem[head..] == Concat(bs)
  }

  /** The image header as recorded: its data are the sections behind it, and it has no copy of them. */
  function ImageHeaderOf(mem: seq<byte>, head: nat): Section
    requires head <= |mem|
  {
    Section(MAGIC, |mem|, |mem| - head, None, 0)
  }

  /** A well-formed image parses to its header and exactly its sections, in order. */
  lemma WellFormedParses(mem: seq<byte>, head: nat, bs: seq<seq<byte>>)
    requires IsWellFormed(mem, head, bs)
    ensures Parsable(mem, |mem|) && IsImage(mem, |mem|)
    ensures HeaderLength(SectionAt(mem, 0)) == head && SectionAt(mem, 0) == ImageHeaderOf(mem, head)
    ensures Scan(mem, head, |mem|) == SectionsOf(bs, head)
  {
    hide Word, TypeOf, Scannable, Scan, IsBlob, Ends;
    IsBase();
    assert mem[head..|mem|] == mem[head..];
    ScanRecovers(mem, head, |mem|, bs);
  }

  /** If the image is well-formed, it is found to be one, and ss are its header and exactly its sections. */
  ghost predicate Recovered(mem: seq<byte>, fileLength: nat, found: bool, ss: seq<Section>) {
    forall head: nat, bs | fileLength == |mem| && IsWellFormed(mem, head, bs) ::
      found && ss == [ImageHeaderOf(mem, head)] + SectionsOf(bs, head)
  }

  lemma WellFormedRecovered(mem: seq<byte>, fileLength: nat)
    requires Parsable(mem, fileLength) && IsImage(mem, fileLength)
    ensures Recovered(mem, fileLength, true,
      [SectionAt(mem, 0)] + Scan(mem, HeaderLength(SectionAt(mem, 0)), fileLength))
  {
    hide Word, TypeOf, Scan, Ends;
    forall head: nat, bs | fileLength == |mem| && IsWellFormed(mem, head, bs)
      ensures [SectionAt(mem, 0)] + Scan(mem, HeaderLength(SectionAt(mem, 0)), fileLength)
        == [ImageHeaderOf(mem, head)] + SectionsOf(bs, head)
    {
      WellFormedParses(mem, head, bs);
    }
  }

  lemma OthersRecovered(mem: seq<byte>, fileLength: nat)
    requires fileLength != 0 ==> Readable(mem, 0) && !IsImage(mem, fileLength)
    ensures forall ss :: Recovered(mem, fileLength, false, ss)
  {
    hide Word, TypeOf;
    IsBase();
  }

  /**
   * On any image on which the scan goes forward, extents are disjoint and increasing, and every section
   * header is listed or lies inside a listed section.
   */
  lemma ParsedImage(mem: seq<byte>, fileLength: nat, o: nat)
    requires fileLength < TWO32 && Readable(mem, 0) && IsImage(mem, fileLength)
    requires Scannable(mem, HeaderLength(SectionAt(mem, 0)), fileLength)
    ensures Parsable(mem, fileLength)
    ensures var start := HeaderLength(SectionAt(mem, 0));
      var ss := Scan(mem, start, fileLength);
      && Listed(mem, start, fileLength, ss)
      && (start <= o < fileLength && o + 4 <= |mem| && IsInner(Word(mem, o)) ==> Inside(ss, o))
  {
    var start := HeaderLength(SectionAt(mem, 0));
    ScanListed(mem, start, fileLength);
    if start <= o < fileLength && o + 4 <= |mem| && IsInner(Word(mem, o)) {
      ScanMissesNothing(mem, start, fileLength, o);
    }
  }
}
