/** What the compressor promises of the units it emits, and why they decode to the text. */
module LzssUnits {
  import opened Basics
  import opened LzssConstants
  import opened LzssStream
  import opened LzssPacking
  import opened LzssMatching

  /**
   * A right choice of unit at offset `at`: it stands for the text that follows; a pair reads only
   * cells that hold text or blanks, and no part of the text in the window would have made a longer one.
   */
  ghost predicate UnitOk(src: seq<byte>, at: int, u: Unit) {
    && u.Valid() && 0 <= at && at + u.Length() <= |src|
    && (u.Literal? ==> u.value == src[at])
    && (u.Copy? ==> Repeats(src, Latest(at, u.position), at, u.length))
    && NoLonger(src, at, if u.Copy? then u.length else THRESHOLD)
  }

  /**
   * As long as no blank in front of the text has left the trees, a run of blanks is sent as a pair: the
   * right unit there stands for all of it, up to F.
   */
  lemma BlanksPaired(src: seq<byte>, at: int, u: Unit, c: int)
    requires UnitOk(src, at, u) && at <= N - 2 * F
    requires THRESHOLD < c <= F && at + c <= |src| && forall k | at <= k < at + c :: src[k] == SPACE
    ensures u.Copy? && c <= u.length
  {
    hide Latest;
    var b := -F;
    forall k | 0 <= k < c ensures SameByte(src, b, at, k) {
      FrontByte(src, b + k);
    }
    assert Repeats(src, b, at, c);
  }

  /** Eighteen blanks are one pair. */
  lemma EighteenBlanks(src: seq<byte>, us: seq<Unit>)
    requires |src| == 18 && (forall k | 0 <= k < 18 :: src[k] == ' ' as int)
    requires UnitsOk(src, us) && TotalLength(us) == |src|
    ensures |us| == 1 && us[0].Copy? && us[0].length == 18
  {
    hide UnitOk;
    assert us != [];
    assert TotalLength(us[..0]) == 0;
    assert UnitOk(src, 0, us[0]);
    BlanksPaired(src, 0, us[0], 18);
    UnitValid(src, 0, us[0]);
    if us[1..] != [] {
      assert us[1..][0] == us[1];
      UnitValid(src, TotalLength(us[..1]), us[1]);
      CodesSize(us[1..]);
    }
  }

  /** Every unit is a right choice where it stands. */
  ghost predicate UnitsOk(src: seq<byte>, us: seq<Unit>) {
    && (forall u <- us :: u.Valid())
    && forall k | 0 <= k < |us| :: UnitOk(src, TotalLength(us[..k]), us[k])
  }

  lemma UnitValid(src: seq<byte>, at: int, u: Unit)
    requires UnitOk(src, at, u)
    ensures u.Valid()
  {
  }

  lemma UnitsAppend(src: seq<byte>, us: seq<Unit>, u: Unit)
    requires UnitsOk(src, us) && UnitOk(src, TotalLength(us), u)
    ensures UnitsOk(src, us + [u])
    ensures TotalLength(us + [u]) == TotalLength(us) + u.Length()
  {
    hide UnitOk, TotalLength;
    TotalLengthAppend(us, u);
    UnitValid(src, TotalLength(us), u);
    var vs := us + [u];
    forall k | 0 <= k < |vs| ensures UnitOk(src, TotalLength(vs[..k]), vs[k]) {
      if k < |us| {
        assert vs[..k] == us[..k];
      } else {
        assert vs[..k] == us;
      }
    }
  }

  /** A pair that repeats what is there already reproduces the text, even where it overlaps itself. */
  lemma {:induction false} CopyReproduces(junk: seq<byte>, src: seq<byte>, a: int, at: int, n: nat)
    requires |junk| == F && 0 <= at && Repeats(src, a, at, n)
    ensures -N <= a < |src[..at]| && CopyFrom(junk, src[..at], a, n) == src[..at + n]
    decreases n
  {
    if n > 0 {
      assert SameByte(src, a, at, 0);
      assert src[..at] + [src[at]] == src[..at + 1];
      var a', at' := a + 1, at + 1;
      forall k | 0 <= k < n - 1 ensures SameByte(src, a', at', k) {
        assert SameByte(src, a, at, k + 1);
      }
      CopyReproduces(junk, src, a', at', n - 1);
    }
  }

  /** Right units decode to the text they stand for, whatever the decoder's ring held before. */
  lemma {:induction false} UnitsReproduce(junk: seq<byte>, src: seq<byte>, us: seq<Unit>)
    requires |junk| == F && UnitsOk(src, us)
    ensures 0 <= TotalLength(us) <= |src| && Expand(junk, [], us) == src[..TotalLength(us)]
    decreases |us|
  {
    hide Latest, CopyFrom, Repeats, NoLonger;
    if us != [] {
      var vs, u := us[..|us| - 1], us[|us| - 1];
      assert us == vs + [u];
      forall k | 0 <= k < |vs| ensures UnitOk(src, TotalLength(vs[..k]), vs[k]) {
        assert vs[..k] == us[..k] && us[k] == vs[k];
      }
      UnitsReproduce(junk, src, vs);
      var at := TotalLength(vs);
      assert us[..|us| - 1] == vs;
      assert UnitOk(src, at, u);
      ExpandAppend(junk, [], vs, u);
      TotalLengthAppend(vs, u);
      if u.Copy? {
        CopyReproduces(junk, src, Latest(at, u.position), at, u.length);
      } else {
        assert src[..at] + [src[at]] == src[..at + 1];
      }
    }
  }

  /**
   * The round trip: the packed code of right units for the whole text decodes to the text, for every
   * content of the cells the decoder does not initialise.
   */
  lemma RoundTrip(src: seq<byte>, us: seq<Unit>, junk: seq<byte>)
    requires |junk| == F && UnitsOk(src, us) && TotalLength(us) == |src|
    ensures Decoded(Pack(us), junk) == src
  {
    ParsePack(us);
    UnitsReproduce(junk, src, us);
    assert src[..|src|] == src;
  }

  /** The unit the match fields at `at` call for. */
  function Choose(src: seq<byte>, at: int, length: int, position: int): (u: Unit)
    requires 0 <= at < |src|
  {
    var m := if length > |src| - at then |src| - at else length;
    if m <= THRESHOLD then Literal(src[at]) else Copy(position, m)
  }

  lemma ChooseOk(src: seq<byte>, at: int, length: int, position: int)
    requires 0 <= at < |src| && MatchAt(src, at, length, position)
    ensures UnitOk(src, at, Choose(src, at, length, position))
  {
    var u := Choose(src, at, length, position);
    forall b, c | Repeats(src, b, at, c) && at + F - N <= Oldest(src, b) && c <= F
      ensures c <= if u.Copy? then u.length else THRESHOLD
    {
    }
  }
}
