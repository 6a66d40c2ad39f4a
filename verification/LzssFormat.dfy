/** What particular code means, in numbers and letters. */
module LzssFormat {
  import opened Basics
  import opened LzssConstants
  import opened LzssStream
  import opened LzssPacking

  /** A copy from the blanks in front of the text. */
  lemma {:induction false} CopyBlanks(junk: seq<byte>, out: seq<byte>, a: int, n: nat)
    requires |junk| == F && F - N <= a < |out| && a + n <= 0
    ensures CopyFrom(junk, out, a, n) == out + seq(n, _ => 32)
    decreases n
  {
    if n > 0 {
      CopyBlanks(junk, out + [32], a + 1, n - 1);
      assert out + [32] + seq(n - 1, _ => 32) == out + seq(n, _ => 32);
    }
  }

  lemma OneUnit(junk: seq<byte>, out: seq<byte>, u: Unit)
    requires |junk| == F && u.Valid()
    ensures Expand(junk, out, [u]) == Apply(junk, out, u)
  {
    assert [u] == [] + [u];
    ExpandAppend(junk, out, [], u);
    ExpandNothing(junk, out);
  }

  lemma PairAlone(i: byte, j: byte)
    ensures Parse([0, i, j]) == [Pair(i, j)]
  {
    var s := [0, i, j];
    assert ParseAt(s, 3, 0, 7) == [];
    assert ParseAt(s, 1, 0, 8) == [Pair(i, j)] + [];
  }

  /** A first pair that reads cells the ring starts with decodes to blanks. */
  lemma BlankPair(i: byte, j: byte, junk: seq<byte>)
    requires |junk| == 18 && i + j / 16 * 256 + j % 16 + 3 <= 4078
    ensures Decoded([0, i, j], junk) == seq(j % 16 + 3, _ => ' ' as int)
  {
    hide ParseAt, Parse, CopyFrom, Expand;
    PairAlone(i, j);
    OneUnit(junk, [], Pair(i, j));
    var p := PairPosition(i, j);
    assert Latest(0, p) == p - 4078;
    CopyBlanks(junk, [], p - 4078, PairLength(j));
  }

  /** Two letters and a pair that repeats them from where the text began. */
  lemma SamplePair(junk: seq<byte>)
    requires |junk| == 18
    ensures Decoded([0x03, 0x61, 0x62, 0xEE, 0xF1], junk) == [0x61, 0x62, 0x61, 0x62, 0x61, 0x62]
  {
    hide ParseAt, Flags, Codes, CopyFrom, Expand, Latest;
    var us := [Literal(0x61), Literal(0x62), Copy(4078, 4)];
    SamplePacked();
    ParsePack(us);
    var out: seq<byte> := [0x61, 0x62];
    OneUnit(junk, [], us[0]);
    ExpandAppend(junk, [], [us[0]], us[1]);
    ExpandAppend(junk, [], [us[0], us[1]], us[2]);
    assert [us[0]] + [us[1]] == [us[0], us[1]];
    assert [us[0], us[1]] + [us[2]] == us;
    assert Expand(junk, [], [us[0]]) == [0x61];
    assert Expand(junk, [], [us[0], us[1]]) == out;
    assert Latest(2, 4078) == 0 by { LatestUnique(2, 0); assert Cell(0) == 4078; }
    SampleCopied(junk);
  }

  lemma SamplePacked()
    ensures Pack([Literal(0x61), Literal(0x62), Copy(4078, 4)]) == [0x03, 0x61, 0x62, 0xEE, 0xF1]
  {
    var u, v, w := Literal(0x61), Literal(0x62), Copy(4078, 4);
    assert [u, v, w] == [u] + [v] + [w] && [u] == [] + [u];
    assert Code(w) == [0xEE, 0xF1];
    FlagsAppend([], u);
    FlagsAppend([u], v);
    FlagsAppend([u] + [v], w);
    CodesAppend([], u);
    CodesAppend([u], v);
    CodesAppend([u] + [v], w);
    Pow2Values();
  }

  lemma SampleCopied(junk: seq<byte>)
    requires |junk| == F
    ensures CopyFrom(junk, [0x61, 0x62], 0, 4) == [0x61, 0x62, 0x61, 0x62, 0x61, 0x62]
  {
    var a: seq<byte> := [0x61, 0x62];
    assert a + [0x61] == [0x61, 0x62, 0x61];
    assert a + [0x61] + [0x62] == [0x61, 0x62, 0x61, 0x62];
    assert a + [0x61] + [0x62] + [0x61] == [0x61, 0x62, 0x61, 0x62, 0x61];
    assert CopyFrom(junk, [0x61, 0x62, 0x61, 0x62, 0x61], 3, 1) == [0x61, 0x62, 0x61, 0x62, 0x61] + [0x62];
    assert CopyFrom(junk, [0x61, 0x62, 0x61, 0x62], 2, 2) == [0x61, 0x62, 0x61, 0x62, 0x61, 0x62];
    assert CopyFrom(junk, [0x61, 0x62, 0x61], 1, 3) == [0x61, 0x62, 0x61, 0x62, 0x61, 0x62];
  }

  // ---------- code that is cut short ----------

  /** The last byte taken away. */
  function Cut(s: seq<byte>): seq<byte>
    requires s != []
  {
    s[..|s| - 1]
  }

  lemma {:induction false} ParseCutAt(s: seq<byte>, i: nat, flags: nat, left: nat)
    requires i < |s|
    ensures ParseAt(Cut(s), i, flags, left) <= ParseAt(s, i, flags, left)
    ensures |ParseAt(s, i, flags, left)| <= |ParseAt(Cut(s), i, flags, left)| + 1
    decreases |s| - i, left
  {
    hide IsLiteral, Shifted, PairLength, PairPosition;
    var c := Cut(s);
    if i + 1 == |s| {
      assert ParseAt(c, i, flags, left) == [];
      LastByte(s, flags, left);
    } else if left == 0 {
      ParseCutAt(s, i + 1, s[i], GROUP);
    } else if IsLiteral(flags) {
      ParseCutAt(s, i + 1, Shifted(flags), left - 1);
    } else if i + 2 < |s| {
      ParseCutAt(s, i + 2, Shifted(flags), left - 1);
    } else {
      assert ParseAt(c, i, flags, left) == [];
      assert ParseAt(s, i + 2, Shifted(flags), left - 1) == [];
    }
  }

  /** One byte of code makes no more than one unit. */
  lemma LastByte(s: seq<byte>, flags: nat, left: nat)
    requires s != []
    ensures |ParseAt(s, |s| - 1, flags, left)| <= 1
  {
    hide IsLiteral, Shifted, PairLength, PairPosition;
    forall f: nat, l: nat ensures ParseAt(s, |s|, f, l) == [] {
    }
  }

  /** Code that a byte is taken from loses the last of its units at most, and no other changes. */
  lemma ParseCut(s: seq<byte>)
    requires s != []
    ensures Parse(Cut(s)) <= Parse(s) && |Parse(s)| <= |Parse(Cut(s))| + 1
  {
    ParseCutAt(s, 0, 0, 0);
  }
}
