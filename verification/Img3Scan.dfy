/** The scan of an img3 image for its sections: exactly when it ends, and what it then has listed. */
module Img3Scan {
  import opened Basics
  import opened Img3Sections

  /** The scan may read what it reads at `off`. */
  predicate MayRead(mem: seq<byte>, off: nat) {
    off + 4 <= |mem| && (IsInner(Word(mem, off)) ==> Readable(mem, off))
  }

  /** The offset the scan goes on from, a uint32_t: behind the section at `off`, or one byte on. */
  function Next(mem: seq<byte>, off: nat): (next: nat)
    requires MayRead(mem, off)
    ensures next < TWO32
  {
    (off + if IsInner(Word(mem, off)) then Word(mem, off + 4) else 1) % TWO32
  }

  /** The section the scan lists at `off`, if there is one. */
  function Here(mem: seq<byte>, off: nat): seq<Section>
    requires MayRead(mem, off)
  {
    if IsInner(Word(mem, off)) then [SectionAt(mem, off)] else []
  }

  predicate EndsWithin(mem: seq<byte>, off: nat, end: nat, k: nat)
    decreases k
  {
    off >= end || (MayRead(mem, off) && k > 0 && EndsWithin(mem, Next(mem, off), end, k - 1))
  }

  /** The scan from `off` to `end` ends, and may read all it reads. */
  ghost predicate Ends(mem: seq<byte>, off: nat, end: nat) {
    exists k: nat :: EndsWithin(mem, off, end, k)
  }

  function ScanWithin(mem: seq<byte>, off: nat, end: nat, k: nat): seq<Section>
    requires EndsWithin(mem, off, end, k)
    decreases k
  {
    if off >= end then [] else Here(mem, off) + ScanWithin(mem, Next(mem, off), end, k - 1)
  }

  /** What the scan finds. */
  ghost function Scan(mem: seq<byte>, off: nat, end: nat): seq<Section>
    requires Ends(mem, off, end)
  {
    var k: nat :| EndsWithin(mem, off, end, k);
    ScanWithin(mem, off, end, k)
  }

  lemma {:induction false} ScanWithinSame(mem: seq<byte>, off: nat, end: nat, k: nat, n: nat)
    requires EndsWithin(mem, off, end, k) && EndsWithin(mem, off, end, n)
    ensures ScanWithin(mem, off, end, k) == ScanWithin(mem, off, end, n)
    decreases k
  {
    hide MayRead, Next, Here;
    if off < end { ScanWithinSame(mem, Next(mem, off), end, k - 1, n - 1); }
  }

  lemma ScanIs(mem: seq<byte>, off: nat, end: nat, k: nat)
    requires EndsWithin(mem, off, end, k)
    ensures Ends(mem, off, end) && Scan(mem, off, end) == ScanWithin(mem, off, end, k)
  {
    hide EndsWithin, ScanWithin;
    var n: nat :| EndsWithin(mem, off, end, n) && Scan(mem, off, end) == ScanWithin(mem, off, end, n);
    ScanWithinSame(mem, off, end, k, n);
  }

  /** The scan, unfolded once. */
  lemma ScanStep(mem: seq<byte>, off: nat, end: nat)
    requires Ends(mem, off, end)
    ensures off >= end ==> Scan(mem, off, end) == []
    ensures off < end ==>
      && MayRead(mem, off) && Ends(mem, Next(mem, off), end)
      && Scan(mem, off, end) == Here(mem, off) + Scan(mem, Next(mem, off), end)
  {
    hide MayRead, Next, Here;
    var k: nat :| EndsWithin(mem, off, end, k);
    ScanIs(mem, off, end, k);
    if off < end { ScanIs(mem, Next(mem, off), end, k - 1); }
  }

  lemma ScanBack(mem: seq<byte>, off: nat, end: nat)
    requires off < end && MayRead(mem, off) && Ends(mem, Next(mem, off), end)
    ensures Ends(mem, off, end)
  {
    hide MayRead, Next;
    var k: nat :| EndsWithin(mem, Next(mem, off), end, k);
    assert EndsWithin(mem, off, end, k + 1);
  }

  // ---------- exactly when a scan ends ----------

  /** After k steps the scan stands at o. */
  predicate Meets(mem: seq<byte>, off: nat, end: nat, k: nat, o: nat)
    decreases k
  {
    off < end && if k == 0 then o == off else MayRead(mem, off) && Meets(mem, Next(mem, off), end, k - 1, o)
  }

  /** Wherever the scan comes, it may read what it reads there. */
  ghost predicate ReadsAll(mem: seq<byte>, off: nat, end: nat) {
    forall k: nat, o: nat | Meets(mem, off, end, k, o) :: MayRead(mem, o)
  }

  /** The scan comes to no offset twice. */
  ghost predicate NoneTwice(mem: seq<byte>, off: nat, end: nat) {
    forall i: nat, j: nat, o: nat | i < j && Meets(mem, off, end, i, o) :: !Meets(mem, off, end, j, o)
  }

  lemma {:induction false} MeetsOn(mem: seq<byte>, off: nat, end: nat, i: nat, o: nat, d: nat, p: nat)
    requires Meets(mem, off, end, i, o)
    ensures o < end && (Meets(mem, off, end, i + d, p) <==> Meets(mem, o, end, d, p))
    decreases i
  {
    hide MayRead, Next;
    if i > 0 { MeetsOn(mem, Next(mem, off), end, i - 1, o, d, p); }
  }

  /** Where a scan that ends comes, it may read, and it ends from there in the steps that are left. */
  lemma {:induction false} MeetsEnds(mem: seq<byte>, off: nat, end: nat, k: nat, i: nat, o: nat)
    requires EndsWithin(mem, off, end, k) && Meets(mem, off, end, i, o)
    ensures i < k && o < end && MayRead(mem, o) && EndsWithin(mem, o, end, k - i)
    decreases i
  {
    hide MayRead, Next;
    if i > 0 { MeetsEnds(mem, Next(mem, off), end, k - 1, i - 1, o); }
  }

  /** A scan that comes back to where it was goes on for ever. */
  lemma {:induction false} ComesBack(mem: seq<byte>, o: nat, end: nat, d: nat, k: nat)
    requires d > 0 && Meets(mem, o, end, d, o)
    ensures !EndsWithin(mem, o, end, k)
    decreases k
  {
    if EndsWithin(mem, o, end, k) {
      MeetsEnds(mem, o, end, k, d, o);
      ComesBack(mem, o, end, d, k - d);
    }
  }

  /** A scan that has not ended after n steps stands somewhere. */
  lemma {:induction false} StandsSomewhere(mem: seq<byte>, off: nat, end: nat, n: nat) returns (o: nat)
    requires ReadsAll(mem, off, end) && !EndsWithin(mem, off, end, n)
    ensures Meets(mem, off, end, n, o) && o < end
    decreases n
  {
    hide MayRead, Next;
    assert Meets(mem, off, end, 0, off);
    if n == 0 {
      o := off;
    } else {
      ReadsOn(mem, off, end);
      o := StandsSomewhere(mem, Next(mem, off), end, n - 1);
    }
  }

  lemma ReadsOn(mem: seq<byte>, off: nat, end: nat)
    requires ReadsAll(mem, off, end) && off < end
    ensures MayRead(mem, off) && ReadsAll(mem, Next(mem, off), end)
  {
    hide MayRead, Next;
    assert Meets(mem, off, end, 0, off);
    forall k: nat, o: nat | Meets(mem, Next(mem, off), end, k, o) ensures MayRead(mem, o) {
      assert Meets(mem, off, end, k + 1, o);
    }
  }

  lemma {:induction false} EndsLonger(mem: seq<byte>, off: nat, end: nat, k: nat, n: nat)
    requires EndsWithin(mem, off, end, k) && k <= n
    ensures EndsWithin(mem, off, end, n)
    decreases k
  {
    hide MayRead, Next;
    if off < end { EndsLonger(mem, Next(mem, off), end, k - 1, n - 1); }
  }

  ghost predicate MetBefore(mem: seq<byte>, off: nat, end: nat, n: nat, o: nat) {
    o < end && exists k: nat :: k < n && Meets(mem, off, end, k, o)
  }

  lemma MetBeforeStep(mem: seq<byte>, off: nat, end: nat, n: nat, o: nat)
    ensures MetBefore(mem, off, end, n, o) ==> MetBefore(mem, off, end, n + 1, o)
    ensures o < end && Meets(mem, off, end, n, o) ==> MetBefore(mem, off, end, n + 1, o)
    ensures NoneTwice(mem, off, end) && Meets(mem, off, end, n, o) ==> !MetBefore(mem, off, end, n, o)
  {
  }

  /** A scan that has not ended after n steps has stood at n + 1 different offsets. */
  lemma {:induction false} Visited(mem: seq<byte>, off: nat, end: nat, n: nat) returns (seen: set<nat>)
    requires ReadsAll(mem, off, end) && NoneTwice(mem, off, end) && !EndsWithin(mem, off, end, n)
    ensures |seen| == n + 1 && forall o <- seen :: MetBefore(mem, off, end, n + 1, o)
    decreases n
  {
    hide EndsWithin, Meets, MetBefore, ReadsAll, NoneTwice;
    var before: set<nat> := {};
    if n > 0 {
      if EndsWithin(mem, off, end, n - 1) { EndsLonger(mem, off, end, n - 1, n); }
      before := Visited(mem, off, end, n - 1);
    }
    var o := StandsSomewhere(mem, off, end, n);
    MetBeforeStep(mem, off, end, n, o);
    seen := before + {o};
    forall p | p in seen ensures MetBefore(mem, off, end, n + 1, p) {
      MetBeforeStep(mem, off, end, n, p);
    }
  }

  lemma {:induction false} Bounded(seen: set<nat>, end: nat)
    requires forall o <- seen :: o < end
    ensures |seen| <= end
    decreases end
  {
    if end == 0 {
      assert seen == {};
    } else {
      Bounded(seen - {end - 1}, end - 1);
      assert seen <= (seen - {end - 1}) + {end - 1};
      if end - 1 in seen { assert seen == (seen - {end - 1}) + {end - 1}; }
    }
  }

  /**
   * On any memory the scan ends exactly when it may read wherever it comes and comes to no offset twice,
   * and then it ends within as many steps as there are offsets.
   */
  lemma EndsExactly(mem: seq<byte>, off: nat, end: nat)
    ensures Ends(mem, off, end) <==> ReadsAll(mem, off, end) && NoneTwice(mem, off, end)
    ensures Ends(mem, off, end) <==> EndsWithin(mem, off, end, end)
  {
    hide EndsWithin, Meets, MayRead;
    forall k: nat | EndsWithin(mem, off, end, k) ensures ReadsAll(mem, off, end) && NoneTwice(mem, off, end) {
      forall i: nat, o: nat | Meets(mem, off, end, i, o) ensures MayRead(mem, o) {
        MeetsEnds(mem, off, end, k, i, o);
      }
      forall i: nat, j: nat, o: nat | i < j && Meets(mem, off, end, i, o) ensures !Meets(mem, off, end, j, o) {
        MeetsEnds(mem, off, end, k, i, o);
        MeetsOn(mem, off, end, i, o, j - i, o);
        if Meets(mem, o, end, j - i, o) { ComesBack(mem, o, end, j - i, k - i); }
      }
    }
    if ReadsAll(mem, off, end) && NoneTwice(mem, off, end) && !EndsWithin(mem, off, end, end) {
      var seen := Visited(mem, off, end, end);
      forall o | o in seen ensures o < end {
        assert MetBefore(mem, off, end, end + 1, o);
      }
      Bounded(seen, end);
    }
  }

  // ---------- scans that only go forward ----------

  /** No section the scan comes to has an end past what a uint32_t offset can hold. */
  ghost predicate NoneWraps(mem: seq<byte>, off: nat, end: nat) {
    forall k: nat, o: nat | Meets(mem, off, end, k, o) && MayRead(mem, o) && IsInner(Word(mem, o)) ::
      o + Word(mem, o + 4) < TWO32
  }

  /**
   * The scan from `off` to `end` meets only sections that can be read, that have a length, and whose
   * end a uint32_t offset can hold.
   */
  ghost predicate Scannable(mem: seq<byte>, off: nat, end: nat)
    decreases end - off
  {
    off < end ==>
      && off + 4 <= |mem|
      && if IsInner(Word(mem, off)) then
           && Readable(mem, off) && Word(mem, off + 4) > 0 && off + Word(mem, off + 4) < TWO32
           && Scannable(mem, off + Word(mem, off + 4), end)
         else
           Scannable(mem, off + 1, end)
  }

  /** Where a scan that goes forward comes next. */
  lemma NextForward(mem: seq<byte>, off: nat, end: nat)
    requires Scannable(mem, off, end) && off < end < TWO32
    ensures MayRead(mem, off) && off < Next(mem, off) && Scannable(mem, Next(mem, off), end)
    ensures Next(mem, off) == off + if IsInner(Word(mem, off)) then Word(mem, off + 4) else 1
  {
    hide TypeOf, DataOffset, Word;
  }

  lemma {:induction false} ScannableEnds(mem: seq<byte>, off: nat, end: nat)
    requires Scannable(mem, off, end) && end < TWO32
    ensures Ends(mem, off, end)
    decreases end - off
  {
    hide MayRead, Next, Scannable, IsInner, Word;
    if off < end {
      NextForward(mem, off, end);
      ScannableEnds(mem, Next(mem, off), end);
      ScanBack(mem, off, end);
    } else {
      assert EndsWithin(mem, off, end, 0);
    }
  }

  lemma {:induction false} ScannableForward(mem: seq<byte>, off: nat, end: nat, k: nat, o: nat)
    requires Scannable(mem, off, end) && end < TWO32 && Meets(mem, off, end, k, o)
    ensures o < end && Scannable(mem, o, end)
    decreases k
  {
    hide MayRead, Next, Scannable, IsInner, Word;
    if k > 0 {
      NextForward(mem, off, end);
      ScannableForward(mem, Next(mem, off), end, k - 1, o);
    }
  }

  /** A section without a length keeps the scan where it is. */
  lemma Stuck(mem: seq<byte>, off: nat, end: nat)
    requires off < end < TWO32 && MayRead(mem, off) && IsInner(Word(mem, off)) && Word(mem, off + 4) == 0
    ensures !Ends(mem, off, end)
  {
    hide MayRead, IsInner, Word;
    forall k: nat ensures !EndsWithin(mem, off, end, k) {
      assert Meets(mem, Next(mem, off), end, 0, off);
      ComesBack(mem, off, end, 1, k);
    }
  }

  lemma {:induction false} EndsForward(mem: seq<byte>, off: nat, end: nat, k: nat)
    requires EndsWithin(mem, off, end, k) && NoneWraps(mem, off, end) && end < TWO32
    ensures Scannable(mem, off, end)
    decreases k
  {
    hide TypeOf, Word;
    if off < end {
      assert Meets(mem, off, end, 0, off);
      var next := Next(mem, off);
      forall i: nat, o: nat | Meets(mem, next, end, i, o) && MayRead(mem, o) && IsInner(Word(mem, o))
        ensures o + Word(mem, o + 4) < TWO32
      {
        assert Meets(mem, off, end, i + 1, o);
      }
      EndsForward(mem, next, end, k - 1);
      if IsInner(Word(mem, off)) && Word(mem, off + 4) == 0 { Stuck(mem, off, end); }
    }
  }

  /**
   * Without a section that wraps, the scan ends exactly when every section it comes to has a length.
   */
  lemma ForwardExactly(mem: seq<byte>, off: nat, end: nat)
    requires end < TWO32
    ensures Scannable(mem, off, end) <==> Ends(mem, off, end) && NoneWraps(mem, off, end)
  {
    hide Scannable, TypeOf, Word, EndsWithin, Meets;
    if Scannable(mem, off, end) {
      ScannableEnds(mem, off, end);
      forall k: nat, o: nat | Meets(mem, off, end, k, o) && MayRead(mem, o) && IsInner(Word(mem, o))
        ensures o + Word(mem, o + 4) < TWO32
      {
        ScannableForward(mem, off, end, k, o);
        NotWrapping(mem, o, end);
      }
    }
    forall k: nat | EndsWithin(mem, off, end, k) && NoneWraps(mem, off, end) ensures Scannable(mem, off, end) {
      EndsForward(mem, off, end, k);
    }
  }

  lemma NotWrapping(mem: seq<byte>, off: nat, end: nat)
    requires Scannable(mem, off, end) && off < end && MayRead(mem, off) && IsInner(Word(mem, off))
    ensures off + Word(mem, off + 4) < TWO32
  {
  }

  // ---------- what a scan lists ----------

  /** Listed in order, apart from each other, each one a section of the memory. */
  ghost predicate Listed(mem: seq<byte>, off: nat, end: nat, ss: seq<Section>) {
    && (forall i | 0 <= i < |ss| ::
          off <= ss[i].original < end && Readable(mem, ss[i].original) && IsInner(Word(mem, ss[i].original))
          && ss[i] == SectionAt(mem, ss[i].original) && ss[i].totalLength > 0)
    && (forall i, j | 0 <= i < j < |ss| :: ss[i].original + ss[i].totalLength <= ss[j].original)
  }

  /** Offset o lies in a listed section, its first byte included. */
  ghost predicate Inside(ss: seq<Section>, o: nat) {
    exists i :: 0 <= i < |ss| && ss[i].original <= o < ss[i].original + ss[i].totalLength
  }

  /** The scan of a memory on which it goes forward, unfolded once. */
  lemma ScanForward(mem: seq<byte>, off: nat, end: nat)
    requires Scannable(mem, off, end) && end < TWO32
    ensures Ends(mem, off, end)
    ensures off >= end ==> Scan(mem, off, end) == []
    ensures off < end ==> off + 4 <= |mem|
    ensures off < end && IsInner(Word(mem, off)) ==>
      var next := off + Word(mem, off + 4);
      && Readable(mem, off) && off < next && Scannable(mem, next, end) && Ends(mem, next, end)
      && SectionAt(mem, off).original == off && SectionAt(mem, off).totalLength == next - off
      && Scan(mem, off, end) == [SectionAt(mem, off)] + Scan(mem, next, end)
    ensures off < end && !IsInner(Word(mem, off)) ==>
      && Scannable(mem, off + 1, end) && Ends(mem, off + 1, end) && Scan(mem, off, end) == Scan(mem, off + 1, end)
  {
    hide Scan, SectionAt, DataOffset, Ends;
    ScannableEnds(mem, off, end);
    ScanStep(mem, off, end);
    if off < end {
      NextForward(mem, off, end);
      if IsInner(Word(mem, off)) { SectionFields(mem, off); }
    }
  }

  lemma {:induction false} ScanListed(mem: seq<byte>, off: nat, end: nat)
    requires Scannable(mem, off, end) && end < TWO32
    ensures Ends(mem, off, end) && Listed(mem, off, end, Scan(mem, off, end))
    decreases end - off
  {
    hide TypeOf, DataOffset, SectionAt, Word, Scannable, Scan, Ends;
    ScanForward(mem, off, end);
    if off < end {
      if IsInner(Word(mem, off)) {
        var next := off + Word(mem, off + 4);
        ScanListed(mem, next, end);
        ListedMore(mem, off, end, Scan(mem, next, end));
      } else {
        ScanListed(mem, off + 1, end);
      }
    }
  }

  lemma ListedMore(mem: seq<byte>, off: nat, end: nat, rest: seq<Section>)
    requires off < end && Readable(mem, off) && IsInner(Word(mem, off)) && Word(mem, off + 4) > 0
    requires Listed(mem, off + Word(mem, off + 4), end, rest)
    ensures Listed(mem, off, end, [SectionAt(mem, off)] + rest)
  {
    hide TypeOf, DataOffset, SectionAt, Word;
    SectionFields(mem, off);
    var s := SectionAt(mem, off);
    forall i, j | 0 <= i < j < |[s] + rest|
      ensures ([s] + rest)[i].original + ([s] + rest)[i].totalLength <= ([s] + rest)[j].original
    {
      assert ([s] + rest)[j] == rest[j - 1];
      if i > 0 { assert ([s] + rest)[i] == rest[i - 1]; }
    }
  }

  /** Every section header the scan range holds is listed, unless it lies inside a listed section. */
  lemma {:induction false} ScanMissesNothing(mem: seq<byte>, off: nat, end: nat, o: nat)
    requires Scannable(mem, off, end) && end < TWO32
    requires off <= o < end && o + 4 <= |mem| && IsInner(Word(mem, o))
    ensures Ends(mem, off, end) && Inside(Scan(mem, off, end), o)
    decreases end - off
  {
    hide TypeOf, DataOffset, SectionAt, Word, Scannable, Scan, Ends;
    ScanForward(mem, off, end);
    var ss := Scan(mem, off, end);
    if IsInner(Word(mem, off)) {
      var next := off + Word(mem, off + 4);
      if o < next {
        assert ss[0] == SectionAt(mem, off);
      } else {
        ScanMissesNothing(mem, next, end, o);
        var rest := Scan(mem, next, end);
        var i :| 0 <= i < |rest| && rest[i].original <= o < rest[i].original + rest[i].totalLength;
        assert ss[i + 1] == rest[i];
      }
    } else {
      ScanMissesNothing(mem, off + 1, end, o);
    }
  }

  // ---------- what any scan lists ----------

  /** ss lists the section at o. */
  ghost predicate Lists(mem: seq<byte>, ss: seq<Section>, o: nat) {
    Readable(mem, o) && TypeOf(Word(mem, o)) != UNKNOWN && SectionAt(mem, o) in ss
  }

  /**
   * Whether it goes forward or wraps, a scan that ends lists exactly the sections at the offsets it
   * comes to.
   */
  lemma {:induction false} ScanMeets(mem: seq<byte>, off: nat, end: nat, k: nat)
    requires EndsWithin(mem, off, end, k)
    ensures forall i: nat, o: nat | Meets(mem, off, end, i, o) && MayRead(mem, o) && IsInner(Word(mem, o)) ::
      Lists(mem, ScanWithin(mem, off, end, k), o)
    ensures forall s <- ScanWithin(mem, off, end, k) ::
      IsMet(mem, off, end, s)
    decreases k
  {
    hide Word, SectionAt, Readable, Next;
    if off < end {
      var next, all := Next(mem, off), ScanWithin(mem, off, end, k);
      ScanMeets(mem, next, end, k - 1);
      forall i: nat, o: nat | Meets(mem, off, end, i, o) && MayRead(mem, o) && IsInner(Word(mem, o))
        ensures Lists(mem, all, o)
      {
        if i == 0 {
          assert SectionAt(mem, off) in Here(mem, off);
        } else {
          assert Meets(mem, next, end, i - 1, o);
          assert Lists(mem, ScanWithin(mem, next, end, k - 1), o);
        }
      }
      forall s <- all ensures IsMet(mem, off, end, s) {
        if s in Here(mem, off) {
          SectionFields(mem, off);
          assert Meets(mem, off, end, 0, off);
        } else {
          assert IsMet(mem, next, end, s);
          var i: nat :| Meets(mem, next, end, i, s.original);
          assert Meets(mem, off, end, i + 1, s.original);
        }
      }
    }
  }

  /** A section at an offset the scan comes to. */
  ghost predicate IsMet(mem: seq<byte>, off: nat, end: nat, s: Section) {
    && (exists i: nat :: Meets(mem, off, end, i, s.original))
    && MayRead(mem, s.original) && IsInner(Word(mem, s.original)) && s == SectionAt(mem, s.original)
  }

  // ---------- well-formed images ----------

  /** The scan recovers exactly the sections an image was put together from. */
  lemma {:induction false} ScanRecovers(mem: seq<byte>, off: nat, end: nat, bs: seq<seq<byte>>)
    requires forall b <- bs :: IsBlob(b)
    requires off + |Concat(bs)| == end <= |mem| && end < TWO32 && mem[off..end] == Concat(bs)
    ensures Scannable(mem, off, end) && Ends(mem, off, end) && Scan(mem, off, end) == SectionsOf(bs, off)
    decreases |bs|
  {
    hide IsInner, Readable, SectionAt, Word, Scan, Ends;
    if bs != [] {
      var b, rest := bs[0], bs[1..];
      assert IsBlob(b);
      assert Concat(bs) == b + Concat(rest);
      assert mem[off..off + |b|] == b by { assert mem[off..off + |b|] == mem[off..end][..|b|]; }
      assert mem[off + |b|..end] == Concat(rest) by { assert mem[off + |b|..end] == mem[off..end][|b|..]; }
      BlobAt(mem, off, b);
      ScanRecovers(mem, off + |b|, end, rest);
    }
    ScanForward(mem, off, end);
  }
}
