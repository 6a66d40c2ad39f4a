/** The byte format of a compressed stream: groups of a flag byte and the code of up to eight units. */
module LzssPacking {
  import opened Basics
  import opened LzssConstants
  import opened LzssStream

  /** The units of one flag byte. */
  const GROUP := 8

  // ---------- writing ----------

  /**
   * The code of a unit.  A pair holds the low byte of the position, then its high four bits next to
   * the length, less the shortest length worth a pair.
   */
  function Code(u: Unit): (r: seq<byte>)
    requires u.Valid()
    ensures |r| == u.CodeSize()
  {
    match u
    case Literal(c) => [c]
    case Copy(p, n) => [p % 256, p / 256 * 16 + (n - (THRESHOLD + 1))]
  }

  function Codes(us: seq<Unit>): seq<byte>
    requires forall u <- us :: u.Valid()
  {
    if us == [] then []
    else
      assert us[0] in us;
      Code(us[0]) + Codes(us[1..])
  }

  /** Bit k is set when unit k is a literal. */
  function Flags(us: seq<Unit>): nat {
    if us == [] then 0 else (if us[0].Literal? then 1 else 0) + 2 * Flags(us[1..])
  }

  function Pow2(k: nat): (r: nat)
    ensures r >= 1
  {
    if k == 0 then 1 else 2 * Pow2(k - 1)
  }

  lemma {:induction false} FlagsBound(us: seq<Unit>)
    ensures Flags(us) < Pow2(|us|)
  {
    if us != [] {
      FlagsBound(us[1..]);
    }
  }

  lemma Pow2Values()
    ensures Pow2(0) == 1 && Pow2(1) == 2 && Pow2(2) == 4 && Pow2(3) == 8 && Pow2(4) == 16
    ensures Pow2(5) == 32 && Pow2(6) == 64 && Pow2(7) == 128 && Pow2(8) == 256
  {
    assert Pow2(2) == 2 * Pow2(1);
    assert Pow2(4) == 2 * Pow2(3);
    assert Pow2(6) == 2 * Pow2(5);
    assert Pow2(8) == 2 * Pow2(7);
  }

  lemma {:induction false} Pow2Monotone(i: nat, j: nat)
    requires i <= j
    ensures Pow2(i) <= Pow2(j)
  {
    if i < j {
      Pow2Monotone(i, j - 1);
    }
  }

  function PackGroup(us: seq<Unit>): (r: seq<byte>)
    requires |us| <= GROUP && forall u <- us :: u.Valid()
  {
    FlagsBound(us);
    Pow2Monotone(|us|, GROUP);
    Pow2Values();
    [Flags(us)] + Codes(us)
  }

  function Pack(us: seq<Unit>): seq<byte>
    requires forall u <- us :: u.Valid()
    decreases |us|
  {
    if us == [] then []
    else if |us| <= GROUP then PackGroup(us)
    else PackGroup(us[..GROUP]) + Pack(us[GROUP..])
  }

  /** A unit more at the end: one more flag bit and its code. */
  lemma {:induction false} FlagsAppend(us: seq<Unit>, u: Unit)
    ensures Flags(us + [u]) == Flags(us) + (if u.Literal? then Pow2(|us|) else 0)
  {
    if us == [] {
      assert [] + [u] == [u] && [u][1..] == [];
    } else {
      assert (us + [u])[1..] == us[1..] + [u];
      FlagsAppend(us[1..], u);
    }
  }

  lemma {:induction false} CodesAppend(us: seq<Unit>, u: Unit)
    requires u.Valid() && forall v <- us :: v.Valid()
    ensures Codes(us + [u]) == Codes(us) + Code(u)
  {
    if us == [] {
      assert [] + [u] == [u];
      assert [u][1..] == [];
      assert Codes([]) == [];
      assert Codes([u]) == Code(u) + [] == [] + Code(u);
    } else {
      assert us[0] in us;
      assert (us + [u])[1..] == us[1..] + [u];
      CodesAppend(us[1..], u);
      assert Code(us[0]) + (Codes(us[1..]) + Code(u)) == Code(us[0]) + Codes(us[1..]) + Code(u);
    }
  }

  /** Whole groups can be written before what follows them. */
  lemma {:induction false} PackAppend(us: seq<Unit>, g: seq<Unit>)
    requires |us| % GROUP == 0 && (forall u <- us :: u.Valid()) && (forall u <- g :: u.Valid())
    ensures forall u <- us + g :: u.Valid()
    ensures Pack(us + g) == Pack(us) + Pack(g)
    decreases |us|
  {
    hide PackGroup;
    if us == [] {
      assert us + g == g;
    } else if |us| == GROUP {
      assert (us + g)[..GROUP] == us && (us + g)[GROUP..] == g;
      if g == [] { assert us + g == us; }
    } else {
      var (a, b) := (us[..GROUP], us[GROUP..]);
      PackAppend(b, g);
      assert (us + g)[..GROUP] == a && (us + g)[GROUP..] == b + g;
    }
  }

  // ---------- reading ----------

  /** flags >>= 1 */
  function Shifted(flags: nat): nat {
    flags / 2
  }

  /** flags & 1 */
  predicate IsLiteral(flags: nat) {
    flags % 2 == 1
  }

  /** The position in a pair of bytes: the low byte, and the high four bits of the other. */
  function PairPosition(i: int, j: int): (p: int)
    requires 0 <= i < 256 && 0 <= j < 256
    ensures 0 <= p < N
  {
    i + j / 16 * 256
  }

  /** The length in a pair of bytes. */
  function PairLength(j: int): (n: int)
    requires 0 <= j < 256
    ensures THRESHOLD < n <= F
  {
    j % 16 + THRESHOLD + 1
  }

  function Pair(i: byte, j: byte): (u: Unit)
    ensures u.Valid() && u.Copy?
  {
    Copy(PairPosition(i, j), PairLength(j))
  }

  /**
   * The units read from offset i on, with `left` units of the current group to come, their flags in
   * the low bits of `flags`.  A unit whose code the source ends in is dropped.
   */
  function ParseAt(s: seq<byte>, i: nat, flags: nat, left: nat): (us: seq<Unit>)
    requires i <= |s|
    ensures forall u <- us :: u.Valid()
    decreases |s| - i, left
  {
    if left == 0 then
      if i < |s| then ParseAt(s, i + 1, s[i], GROUP) else []
    else if IsLiteral(flags) then
      if i < |s| then [Literal(s[i])] + ParseAt(s, i + 1, Shifted(flags), left - 1) else []
    else
      if i + 1 < |s| then [Pair(s[i], s[i + 1])] + ParseAt(s, i + 2, Shifted(flags), left - 1) else []
  }

  function Parse(s: seq<byte>): (us: seq<Unit>)
    ensures forall u <- us :: u.Valid()
  {
    ParseAt(s, 0, 0, 0)
  }

  /** What the decompressor makes of any source, `junk` being the cells it does not initialise. */
  function Decoded(s: seq<byte>, junk: seq<byte>): seq<byte>
    requires |junk| == F
  {
    Expand(junk, [], Parse(s))
  }

  lemma PairCode(u: Unit)
    requires u.Valid() && u.Copy?
    ensures Pair(Code(u)[0], Code(u)[1]) == u
  {
  }

  lemma ParseUnit(s: seq<byte>, i: nat, u: Unit, flags: nat, left: nat)
    requires u.Valid() && left > 0 && IsLiteral(flags) == u.Literal?
    requires i + u.CodeSize() <= |s| && s[i..i + u.CodeSize()] == Code(u)
    ensures ParseAt(s, i, flags, left) == [u] + ParseAt(s, i + u.CodeSize(), Shifted(flags), left - 1)
  {
    assert s[i] == s[i..i + u.CodeSize()][0];
    if u.Copy? {
      assert s[i + 1] == s[i..i + u.CodeSize()][1];
      PairCode(u);
    }
  }

  lemma TwoParts(s: seq<byte>, i: nat, c: seq<byte>, d: seq<byte>)
    requires i + |c + d| <= |s| && s[i..i + |c + d|] == c + d
    ensures s[i..i + |c|] == c && s[i + |c|..i + |c| + |d|] == d
  {
    assert s[i..i + |c|] == (c + d)[..|c|];
    assert s[i + |c|..i + |c| + |d|] == (c + d)[|c|..];
  }

  /** The flags and codes of a group read back as its units. */
  lemma {:induction false} ParseGroup(s: seq<byte>, i: nat, us: seq<Unit>, left: nat)
    requires (forall u <- us :: u.Valid()) && |us| <= left
    requires i + |Codes(us)| <= |s| && s[i..i + |Codes(us)|] == Codes(us)
    ensures ParseAt(s, i, Flags(us), left) == us + ParseAt(s, i + |Codes(us)|, 0, left - |us|)
    decreases |us|
  {
    hide ParseAt, Code;
    if us == [] {
      assert us + ParseAt(s, i, 0, left) == ParseAt(s, i, 0, left);
    } else {
      var u, rest := us[0], us[1..];
      assert u in us;
      var c, d := Code(u), Codes(rest);
      assert Codes(us) == c + d && |c| == u.CodeSize();
      TwoParts(s, i, c, d);
      ParseUnit(s, i, u, Flags(us), left);
      ParseGroup(s, i + |c|, rest, left - 1);
      assert us == [u] + rest;
    }
  }

  lemma ParseFlags(s: seq<byte>, i: nat)
    requires i < |s|
    ensures ParseAt(s, i, 0, 0) == ParseAt(s, i + 1, s[i], GROUP)
  {
  }

  lemma ParseNothing(s: seq<byte>, left: nat)
    ensures ParseAt(s, |s|, 0, left) == []
  {
  }

  lemma {:induction false} ParsePackAt(s: seq<byte>, i: nat, us: seq<Unit>)
    requires (forall u <- us :: u.Valid()) && i <= |s| && s[i..] == Pack(us)
    ensures ParseAt(s, i, 0, 0) == us
    decreases |us|
  {
    hide Flags, Codes, PackGroup, Pack, ParseAt;
    if us == [] {
      PackFirst(us);
      ParseNothing(s, 0);
    } else {
      var g := if |us| <= GROUP then us else us[..GROUP];
      var rest := us[|g|..];
      assert us == g + rest;
      var size := 1 + |Codes(g)|;
      PackFirst(us);
      PackedGroup(s, i, g, Pack(rest));
      ParseFlags(s, i);
      ParseGroup(s, i + 1, g, GROUP);
      if |us| > GROUP {
        ParsePackAt(s, i + size, rest);
      } else {
        PackFirst(rest);
        ParseNothing(s, GROUP - |g|);
      }
    }
  }

  lemma PackFirst(us: seq<Unit>)
    requires forall u <- us :: u.Valid()
    ensures us == [] ==> Pack(us) == []
    ensures var g := if |us| <= GROUP then us else us[..GROUP];
      us != [] ==> Pack(us) == PackGroup(g) + Pack(us[|g|..])
  {
    hide PackGroup;
  }

  /** Where the parts of a group are. */
  lemma PackedGroup(s: seq<byte>, i: nat, g: seq<Unit>, rest: seq<byte>)
    requires |g| <= GROUP && (forall u <- g :: u.Valid()) && i <= |s| && s[i..] == PackGroup(g) + rest
    ensures var size := 1 + |Codes(g)|;
      i + size <= |s| && s[i] == Flags(g) && s[i + 1..i + size] == Codes(g) && s[i + size..] == rest
  {
    hide Flags, Codes;
    var size := 1 + |Codes(g)|;
    assert |s[i..]| == size + |rest|;
    assert s[i] == s[i..][0];
    assert s[i + 1..i + size] == s[i..][1..size];
    assert s[i + size..] == s[i..][size..];
  }

  /** Packing loses nothing: reading what was written gives the units back, and nothing more. */
  lemma ParsePack(us: seq<Unit>)
    requires forall u <- us :: u.Valid()
    ensures Parse(Pack(us)) == us
  {
    ParsePackAt(Pack(us), 0, us);
  }

  // ---------- sizes ----------

  lemma {:induction false} CodesSize(us: seq<Unit>)
    requires forall u <- us :: u.Valid()
    ensures |us| <= TotalLength(us) && |Codes(us)| <= TotalLength(us)
  {
    if us != [] {
      assert us[0] in us;
      CodesSize(us[1..]);
    }
  }

  lemma {:induction false} CodesSplit(us: seq<Unit>, k: nat)
    requires (forall u <- us :: u.Valid()) && k <= |us|
    ensures |Codes(us)| == |Codes(us[..k])| + |Codes(us[k..])|
  {
    if k > 0 {
      assert us[0] in us;
      CodesSplit(us[1..], k - 1);
      assert us[..k][1..] == us[1..][..k - 1] && us[k..] == us[1..][k - 1..];
    }
  }

  /** A flag byte for every eight units begun, and the codes. */
  lemma {:induction false} PackSize(us: seq<Unit>)
    requires forall u <- us :: u.Valid()
    ensures |Pack(us)| == (|us| + GROUP - 1) / GROUP + |Codes(us)|
    decreases |us|
  {
    if |us| > GROUP {
      PackSize(us[GROUP..]);
      CodesSplit(us, GROUP);
    }
  }

  /** Code for n bytes of text takes at most one byte in eight more than the text. */
  lemma PackBound(us: seq<Unit>)
    requires forall u <- us :: u.Valid()
    ensures |Pack(us)| <= TotalLength(us) + (TotalLength(us) + 7) / 8
  {
    PackSize(us);
    CodesSize(us);
  }

  /** No source decodes to more than 144 bytes for 17: eight longest pairs under one flag byte. */
  lemma {:induction false} ParseBound(s: seq<byte>, i: nat, flags: nat, left: nat)
    requires i <= |s|
    ensures 17 * TotalLength(ParseAt(s, i, flags, left)) <= 144 * (|s| - i) + 18 * left
    decreases |s| - i, left
  {
    if left == 0 {
      if i < |s| { ParseBound(s, i + 1, s[i], GROUP); }
    } else if IsLiteral(flags) {
      if i < |s| {
        ParseBound(s, i + 1, Shifted(flags), left - 1);
        var rest := ParseAt(s, i + 1, Shifted(flags), left - 1);
        assert ([Literal(s[i])] + rest)[1..] == rest;
      }
    } else {
      if i + 1 < |s| {
        ParseBound(s, i + 2, Shifted(flags), left - 1);
        var rest := ParseAt(s, i + 2, Shifted(flags), left - 1);
        assert ([Pair(s[i], s[i + 1])] + rest)[1..] == rest;
      }
    }
  }

  lemma DecodedBound(s: seq<byte>, junk: seq<byte>)
    requires |junk| == F
    ensures 17 * |Decoded(s, junk)| <= 144 * |s|
  {
    ParseBound(s, 0, 0, 0);
  }

  /** The most text that n bytes of code can stand for, with `left` units of the current group to come. */
  function Most(n: nat, left: nat): nat
    decreases n, left
  {
    if n == 0 then 0
    else if left == 0 then Most(n - 1, GROUP)
    else if n == 1 then 1
    else F + Most(n - 2, left - 1)
  }

  /** A byte of code more stands for at most 17 bytes of text more. */
  lemma {:induction false} MostStep(n: nat, left: nat)
    ensures Most(n, left) <= Most(n + 1, left) <= Most(n, left) + F - 1
    decreases n, left
  {
    if left == 0 {
      if n > 0 { MostStep(n - 1, GROUP); }
    } else if n >= 2 {
      MostStep(n - 2, left - 1);
    }
  }

  /** No source stands for more text. */
  lemma {:induction false} ParseMost(s: seq<byte>, i: nat, flags: nat, left: nat)
    requires i <= |s|
    ensures TotalLength(ParseAt(s, i, flags, left)) <= Most(|s| - i, left)
    decreases |s| - i, left
  {
    hide IsLiteral, Shifted, PairLength, PairPosition;
    if left == 0 {
      if i < |s| { ParseMost(s, i + 1, s[i], GROUP); }
    } else if IsLiteral(flags) {
      if i < |s| {
        var rest := ParseAt(s, i + 1, Shifted(flags), left - 1);
        ParseMost(s, i + 1, Shifted(flags), left - 1);
        assert ([Literal(s[i])] + rest)[1..] == rest;
        if i + 1 < |s| { MostStep(|s| - i - 2, left - 1); }
      }
    } else if i + 1 < |s| {
      var rest := ParseAt(s, i + 2, Shifted(flags), left - 1);
      ParseMost(s, i + 2, Shifted(flags), left - 1);
      assert ([Pair(s[i], s[i + 1])] + rest)[1..] == rest;
    }
  }

  /** Code that stands for that much, behind whatever comes before it. */
  ghost predicate Attains(flags: nat, t: seq<byte>, left: nat, total: int) {
    forall p: seq<byte> :: TotalLength(ParseAt(p + t, |p|, flags, left)) == total
  }

  lemma {:induction false} MostAttained(n: nat, left: nat) returns (flags: nat, t: seq<byte>)
    requires left <= GROUP
    ensures |t| == n && flags < Pow2(left) && Attains(flags, t, left, Most(n, left))
    decreases n, left
  {
    hide Attains, ParseAt, TotalLength;
    if n == 0 {
      flags, t := 0, [];
      NothingAttains(left);
    } else if left == 0 {
      flags, t := MostAttained(n - 1, GROUP);
      Pow2Values();
      FlagsAttain(flags, t, Most(n - 1, GROUP));
      flags, t := 0, [flags] + t;
    } else if n == 1 {
      flags, t := 1, [0];
      Pow2Monotone(1, left);
      LiteralAttains(left);
    } else {
      flags, t := MostAttained(n - 2, left - 1);
      PairAttains(flags, t, left, Most(n - 2, left - 1));
      flags, t := 2 * flags, [0, 15] + t;
    }
  }

  lemma NothingAttains(left: nat)
    ensures Attains(0, [], left, 0)
  {
    forall p: seq<byte> ensures TotalLength(ParseAt(p + [], |p|, 0, left)) == 0 {
      assert p + [] == p;
    }
  }

  lemma FlagsAttain(f: nat, t: seq<byte>, total: int)
    requires f < 256 && Attains(f, t, GROUP, total)
    ensures Attains(0, [f] + t, 0, total)
  {
    hide ParseAt, TotalLength;
    forall p: seq<byte> ensures TotalLength(ParseAt(p + ([f] + t), |p|, 0, 0)) == total {
      var s := p + ([f] + t);
      assert s == (p + [f]) + t && s[|p|] == f;
      ParseFlags(s, |p|);
      assert TotalLength(ParseAt((p + [f]) + t, |p + [f]|, f, GROUP)) == total;
    }
  }

  lemma LiteralAttains(left: nat)
    requires left > 0
    ensures Attains(1, [0], left, 1)
  {
    forall p: seq<byte> ensures TotalLength(ParseAt(p + [0], |p|, 1, left)) == 1 {
      var s := p + [0];
      assert ParseAt(s, |p| + 1, 0, left - 1) == [];
      assert ParseAt(s, |p|, 1, left) == [Literal(0)] + [];
    }
  }

  lemma PairAttains(f: nat, t: seq<byte>, left: nat, total: int)
    requires left > 0 && Attains(f, t, left - 1, total)
    ensures Attains(2 * f, [0, 15] + t, left, F + total)
  {
    forall p: seq<byte> ensures TotalLength(ParseAt(p + ([0, 15] + t), |p|, 2 * f, left)) == F + total {
      PairFirst(p, t, f, left);
      assert TotalLength(ParseAt((p + [0, 15]) + t, |p + [0, 15]|, f, left - 1)) == total;
    }
  }

  lemma PairFirst(p: seq<byte>, rest: seq<byte>, f: nat, left: nat)
    requires left > 0
    ensures TotalLength(ParseAt(p + ([0, 15] + rest), |p|, 2 * f, left))
      == F + TotalLength(ParseAt((p + [0, 15]) + rest, |p + [0, 15]|, f, left - 1))
  {
    var s := p + ([0, 15] + rest);
    assert s == (p + [0, 15]) + rest;
    assert s[|p|] == 0 && s[|p| + 1] == 15;
    var us := ParseAt(s, |p| + 2, f, left - 1);
    assert ParseAt(s, |p|, 2 * f, left) == [Pair(0, 15)] + us;
    assert ([Pair(0, 15)] + us)[1..] == us;
  }

  /**
   * Text of a given length has room for what any n bytes of code stand for exactly when it has room for
   * the most they can.
   */
  lemma RoomForAny(n: nat, room: int)
    ensures (forall s: seq<byte> | |s| == n :: TotalLength(Parse(s)) <= room) <==> Most(n, 0) <= room
  {
    hide ParseAt, TotalLength;
    forall s: seq<byte> | |s| == n ensures TotalLength(Parse(s)) <= Most(n, 0) {
      ParseMost(s, 0, 0, 0);
    }
    var flags, t := MostAttained(n, 0);
    assert [] + t == t;
    assert Pow2(0) == 1;
    assert TotalLength(ParseAt([] + t, 0, flags, 0)) == Most(n, 0);
    assert TotalLength(Parse(t)) == Most(n, 0);
  }

  /** It is 144 bytes for every 17 of code, and less for what is left over. */
  lemma {:induction false} MostGroups(n: nat)
    ensures 17 * Most(n, 0) <= 144 * n
    ensures n % 17 == 0 ==> 17 * Most(n, 0) == 144 * n
    decreases n
  {
    if n >= 17 {
      MostGroups(n - 17);
      MostPairs(n - 1, GROUP);
    } else if n > 0 {
      MostSmall(n - 1, GROUP);
    }
  }

  lemma {:induction false} MostPairs(n: nat, left: nat)
    requires 2 * left <= n
    ensures Most(n, left) == F * left + Most(n - 2 * left, 0)
    decreases left
  {
    if left > 0 { MostPairs(n - 2, left - 1); }
  }

  lemma {:induction false} MostSmall(n: nat, left: nat)
    requires n <= 2 * left
    ensures Most(n, left) <= 9 * n
    decreases n
  {
    if n >= 2 { MostSmall(n - 2, left - 1); }
  }
}
