/**
 * The strings the search trees compare: the F bytes of the text buffer that start at a ring position.
 */
module LzssWindow {
  import opened Basics
  import opened LzssConstants

  /** A byte string as a numeral in base 256, first byte most significant. */
  ghost function Numeral(w: seq<byte>): nat {
    if w == [] then 0 else Numeral(w[..|w| - 1]) * 256 + w[|w| - 1]
  }

  /** Numerals of equal length compare as the strings do, byte by byte. */
  lemma {:induction false} NumeralOrder(u: seq<byte>, v: seq<byte>, c: nat)
    requires |u| == |v| && c < |u| && u[..c] == v[..c]
    ensures u[c] < v[c] ==> Numeral(u) < Numeral(v)
  {
    var m := |u| - 1;
    if c < m {
      assert u[..m][..c] == u[..c] && v[..m][..c] == v[..c];
      NumeralOrder(u[..m], v[..m], c);
    } else {
      assert u[..m] == v[..m];
    }
  }

  /** The text buffer has the F-1 bytes of its mirror tail behind the ring. */
  ghost predicate IsText(t: seq<byte>) {
    |t| == N + F - 1
  }

  ghost function Window(t: seq<byte>, x: int): seq<byte>
    requires IsText(t) && 0 <= x < N
  {
    t[x..x + F]
  }

  ghost function Key(t: seq<byte>, x: int): nat
    requires IsText(t) && 0 <= x < N
  {
    Numeral(Window(t, x))
  }

  /** The keys of all positions: the labels the forest is ordered by. */
  ghost function Keys(t: seq<byte>): (k: seq<int>)
    requires IsText(t)
    ensures |k| == N && forall x | 0 <= x < N :: k[x] == Key(t, x)
  {
    seq(N, x requires 0 <= x < N => Key(t, x))
  }

  /** The root of the tree a position belongs in: the one of its first byte. */
  ghost function Homes(t: seq<byte>): (h: seq<int>)
    requires IsText(t)
    ensures |h| == N && forall x | 0 <= x < N :: h[x] == N + 1 + t[x]
  {
    seq(N, x requires 0 <= x < N => N + 1 + t[x])
  }

  /** Length of the common prefix of two strings of equal length, whose first i bytes agree. */
  ghost function SharedFrom(u: seq<byte>, v: seq<byte>, i: nat): (c: nat)
    requires |u| == |v| && i <= |u|
    ensures i <= c <= |u|
    ensures forall k | i <= k < c :: u[k] == v[k]
    ensures c < |u| ==> u[c] != v[c]
    decreases |u| - i
  {
    if i == |u| || u[i] != v[i] then i else SharedFrom(u, v, i + 1)
  }

  ghost function Shared(u: seq<byte>, v: seq<byte>): (c: nat)
    requires |u| == |v|
    ensures c <= |u|
    ensures forall k | 0 <= k < c :: u[k] == v[k]
    ensures c < |u| ==> u[c] != v[c]
  {
    SharedFrom(u, v, 0)
  }

  /** Length of the common prefix of the windows of two positions. */
  ghost function Common(t: seq<byte>, x: int, y: int): (c: nat)
    requires IsText(t) && 0 <= x < N && 0 <= y < N
    ensures c <= F
  {
    Shared(Window(t, x), Window(t, y))
  }

  lemma SharedOrder(u: seq<byte>, v: seq<byte>)
    requires |u| == |v|
    ensures var c := Shared(u, v);
      && (c == |u| <==> Numeral(u) == Numeral(v))
      && (c < |u| ==> (Numeral(u) < Numeral(v) <==> u[c] < v[c]))
  {
    var c := Shared(u, v);
    assert u[..c] == v[..c];
    if c < |u| {
      NumeralOrder(u, v, c);
      NumeralOrder(v, u, c);
    } else {
      assert u == v;
    }
  }

  lemma SharedBetween(u: seq<byte>, v: seq<byte>, w: seq<byte>)
    requires |u| == |v| == |w|
    requires Numeral(u) <= Numeral(v) <= Numeral(w) || Numeral(w) <= Numeral(v) <= Numeral(u)
    ensures Shared(u, w) <= Shared(v, w)
  {
    SharedOrder(v, w);
    SharedOrder(u, v);
  }

  /** The first difference of two windows decides their order; without one the keys are equal. */
  lemma KeyOrder(t: seq<byte>, x: int, y: int)
    requires IsText(t) && 0 <= x < N && 0 <= y < N
    ensures var c := Common(t, x, y);
      && (c == F <==> Key(t, x) == Key(t, y))
      && (c < F ==> (Key(t, x) < Key(t, y) <==> t[x + c] < t[y + c]))
  {
    SharedOrder(Window(t, x), Window(t, y));
  }

  lemma CommonEnds(t: seq<byte>, x: int, y: int)
    requires IsText(t) && 0 <= x < N && 0 <= y < N
    ensures Common(t, x, y) < F ==> t[x + Common(t, x, y)] != t[y + Common(t, x, y)]
  {
  }

  /**
   * A key between two others shares at least as much with the farther one as they share with each
   * other: what a search leaves behind on the other side of a node cannot match better than the node.
   */
  lemma Between(t: seq<byte>, x: int, y: int, z: int)
    requires IsText(t) && 0 <= x < N && 0 <= y < N && 0 <= z < N
    requires Key(t, x) <= Key(t, y) <= Key(t, z) || Key(t, z) <= Key(t, y) <= Key(t, x)
    ensures Common(t, x, z) <= Common(t, y, z)
  {
    SharedBetween(Window(t, x), Window(t, y), Window(t, z));
  }

  /** Windows and first bytes of positions whose window holds no changed cell stay as they are. */
  lemma UntouchedKey(t: seq<byte>, t': seq<byte>, x: int)
    requires IsText(t) && IsText(t') && 0 <= x < N
    requires forall k | x <= k < x + F :: t[k] == t'[k]
    ensures Keys(t)[x] == Keys(t')[x] && Homes(t)[x] == Homes(t')[x]
  {
    assert Window(t, x) == Window(t', x);
  }
}
