/**
 * The compressor's sliding window in stream terms: which bytes its text buffer holds, which offsets
 * its trees index, and what the match found at a position says about the stream.
 */
module LzssMatching {
  import opened Basics
  import opened LzssConstants
  import opened LzssWindow
  import opened LzssStream

  /** The compressor clears its buffer before use. */
  function Zeros(): (z: seq<byte>)
    ensures |z| == F
  {
    seq(F, _ => 0)
  }

  /** The mirror tail repeats the start of the ring, as far as text has reached it. */
  ghost predicate Mirrored(t: seq<byte>, end: int)
    requires IsText(t)
  {
    forall x | N <= x < N + F - 1 && Latest(end, x - N) >= 0 :: t[x] == t[x - N]
  }

  /** The buffer holds the first `pos` bytes of the text: it is a decoder's ring that is ahead. */
  ghost predicate Loaded(t: seq<byte>, src: seq<byte>, pos: int) {
    && IsText(t) && 0 <= pos <= |src|
    && RingHolds(t, Zeros(), src[..pos])
    && Mirrored(t, pos)
  }

  /** Loading a byte: the next cell, and its mirror cell if it has one. */
  lemma LoadStep(t: seq<byte>, t': seq<byte>, src: seq<byte>, pos: int)
    requires Loaded(t, src, pos) && pos < |src| && IsText(t')
    requires forall x | 0 <= x < |t| :: t'[x] == if x % N == Cell(pos) then src[pos] else t[x]
    ensures Loaded(t', src, pos + 1)
  {
    assert forall x | 0 <= x < N :: x % N == x;
    RingStep(t, t', Zeros(), src[..pos], src[pos]);
    assert src[..pos] + [src[pos]] == src[..pos + 1];
    forall x | N <= x < N + F - 1 && Latest(pos + 1, x - N) >= 0 ensures t'[x] == t'[x - N] {
      assert x % N == x - N;
      LatestStep(pos, x - N);
    }
  }

  /** The byte k behind offset a: read straight on in the buffer, or in the mirror tail past its end. */
  lemma WindowText(t: seq<byte>, src: seq<byte>, pos: int, a: int, k: int)
    requires Loaded(t, src, pos) && 0 <= k < F
    requires -F <= a && pos - N <= a + k < pos
    ensures t[Cell(a) + k] == t[(Cell(a) + k) % N] == At(Zeros(), src, a + k)
  {
    hide At, Latest, RingHolds;
    CellOffset(a, k);
    RingRead(t, Zeros(), src[..pos], a + k);
    LatestUnique(pos, a + k);
    PrefixByte(src, pos, a + k);
    var x := Cell(a) + k;
    if x >= N {
      BehindEnd(a, k);
      assert x % N == x - N;
      assert t[x] == t[x - N];
    } else {
      assert x % N == x;
    }
  }

  lemma PrefixByte(src: seq<byte>, pos: int, a: int)
    requires 0 <= pos <= |src| && -N <= a < pos
    ensures At(Zeros(), src[..pos], a) == At(Zeros(), src, a)
  {
  }

  /** No window that reaches the mirror tail does so before the text. */
  lemma BehindEnd(a: int, k: int)
    requires -F <= a && 0 <= k < F && Cell(a) + k >= N
    ensures a + k >= 0
  {
  }

  lemma WindowByte(t: seq<byte>, src: seq<byte>, pos: int, at: int, k: int)
    requires Loaded(t, src, pos) && 0 <= k < F && 0 <= at && at + k < pos <= at + F
    ensures t[Cell(at) + k] == src[at + k]
  {
    WindowText(t, src, pos, at, k);
  }

  /**
   * At a unit boundary the decoder's ring holds the text before `at`, the compressor's buffer is up to
   * F bytes ahead: they agree wherever a pair may start, on the N-F cells behind the next one.
   */
  lemma RingsAgree(t: seq<byte>, ring: seq<byte>, junk: seq<byte>, src: seq<byte>, at: int, pos: int, a: int)
    requires Loaded(t, src, pos) && at <= pos <= at + F && 0 <= at
    requires RingHolds(ring, junk, src[..at])
    requires at + F - N <= a < at
    ensures ring[Cell(a)] == t[Cell(a)]
  {
    RingRead(t, Zeros(), src[..pos], a);
    RingRead(ring, junk, src[..at], a);
  }

  // ---------- the offsets in the trees ----------

  /** Every node is the cell of an offset from lo on, none before the F blanks in front of the text. */
  ghost predicate Spans(nodes: set<int>, lo: int, end: int) {
    forall x <- nodes :: 0 <= x < N && Latest(end, x) >= lo && Latest(end, x) >= -F
  }

  /** The F bytes from offset b on, in front of the text, are blanks, those of the text included. */
  ghost predicate AllBlank(src: seq<byte>, b: int) {
    -F <= b < 0 && F + b <= |src| && forall k | 0 <= k < F + b :: src[k] == SPACE
  }

  /**
   * The oldest offset that can stand for b.  The F strings in front of the text go into the trees last cell
   * first, so that of the strings of nothing but blanks the oldest takes the place of all others.
   */
  ghost function Oldest(src: seq<byte>, b: int): int {
    if AllBlank(src, b) then -F else b
  }

  /** A node stands for offset b: it has the same window, and is old only as far as it must be. */
  ghost predicate StandsFor(t: seq<byte>, src: seq<byte>, end: int, b: int, y: int)
    requires IsText(t)
  {
    0 <= y < N && Latest(end, y) >= Oldest(src, b) && Key(t, y) == Key(t, Cell(b))
  }

  ghost predicate Covered(t: seq<byte>, nodes: set<int>, src: seq<byte>, end: int, b: int)
    requires IsText(t)
  {
    exists y :: y in nodes && StandsFor(t, src, end, b, y)
  }

  /** Every offset of the text or of the F blanks in front of it has a node that stands for it. */
  ghost predicate Covers(t: seq<byte>, nodes: set<int>, src: seq<byte>, lo: int, end: int)
    requires IsText(t)
  {
    forall b {:trigger Covered(t, nodes, src, end, b)} | -F <= b < end && lo <= Oldest(src, b) ::
      Covered(t, nodes, src, end, b)
  }

  /** Buffer and trees, with the offsets lo..end in the trees and `pos` bytes read. */
  ghost predicate Tracks(t: seq<byte>, nodes: set<int>, src: seq<byte>, lo: int, end: int, pos: int) {
    && Loaded(t, src, pos)
    && Spans(nodes, lo, end) && Covers(t, nodes, src, lo, end)
  }

  /** The cell about to be read into, or given up at the end of the text, is that of the oldest offset. */
  lemma OldestLeaves(t: seq<byte>, nodes: set<int>, src: seq<byte>, at: int, pos: int)
    requires Tracks(t, nodes, src, at + F - N, at + 1, pos)
    ensures Tracks(t, nodes - {Cell(at + F)}, src, at + 1 + F - N, at + 1, pos)
  {
    assert IsText(t);
    hide Latest, Key, Loaded;
    var s := Cell(at + F);
    CellPeriod(at + F - N);
    LatestUnique(at + 1, at + F - N);
    forall b {:trigger Covered(t, nodes - {s}, src, at + 1, b)} | -F <= b < at + 1 && at + 1 + F - N <= Oldest(src, b)
      ensures Covered(t, nodes - {s}, src, at + 1, b)
    {
      assert Covered(t, nodes, src, at + 1, b);
      var y :| y in nodes && StandsFor(t, src, at + 1, b, y);
      assert y in nodes - {s};
    }
  }

  /** The windows of the offsets that stay do not reach the cell about to be read into. */
  lemma WindowAvoids(at: int, a: int, k: int)
    requires at + F - N < a <= at && 0 <= k < F
    ensures (Cell(a) + k) % N != Cell(at + F)
  {
    CellOffset(a, k);
    CellPeriod(at + F - N);
    hide Cell, Latest;
    LatestUnique(at + F, a + k);
    LatestUnique(at + F, at + F - N);
  }

  /** So reading a byte into that cell changes no key of theirs. */
  lemma KeyKept(t: seq<byte>, t': seq<byte>, at: int, a: int)
    requires IsText(t) && IsText(t') && at + F - N < a <= at
    requires forall x | 0 <= x < |t| && x % N != Cell(at + F) :: t'[x] == t[x]
    ensures Keys(t')[Cell(a)] == Keys(t)[Cell(a)] && Homes(t')[Cell(a)] == Homes(t)[Cell(a)]
  {
    forall x | Cell(a) <= x < Cell(a) + F ensures t[x] == t'[x] {
      WindowAvoids(at, a, x - Cell(a));
    }
    UntouchedKey(t, t', Cell(a));
  }

  lemma KeysKept(t: seq<byte>, t': seq<byte>, nodes: set<int>, at: int)
    requires IsText(t) && IsText(t') && Spans(nodes, at + 1 + F - N, at + 1)
    requires forall x | 0 <= x < |t| && x % N != Cell(at + F) :: t'[x] == t[x]
    ensures forall x <- nodes :: 0 <= x < N && Keys(t')[x] == Keys(t)[x] && Homes(t')[x] == Homes(t)[x]
  {
    forall x <- nodes ensures 0 <= x < N && Keys(t')[x] == Keys(t)[x] && Homes(t')[x] == Homes(t)[x] {
      KeyKept(t, t', at, Latest(at + 1, x));
    }
  }

  /** Reading the next byte into the freed cell: the trees still index what they indexed. */
  lemma TracksLoad(t: seq<byte>, t': seq<byte>, nodes: set<int>, src: seq<byte>, at: int)
    requires at + F < |src| && Tracks(t, nodes, src, at + 1 + F - N, at + 1, at + F) && IsText(t')
    requires forall x | 0 <= x < |t| :: t'[x] == if x % N == Cell(at + F) then src[at + F] else t[x]
    ensures Tracks(t', nodes, src, at + 1 + F - N, at + 1, at + F + 1)
  {
    LoadStep(t, t', src, at + F);
    KeysKept(t, t', nodes, at);
    hide Cell, Latest, Key, Loaded;
    forall b {:trigger Covered(t', nodes, src, at + 1, b)} | -F <= b < at + 1 && at + 1 + F - N <= Oldest(src, b)
      ensures Covered(t', nodes, src, at + 1, b)
    {
      assert Covered(t, nodes, src, at + 1, b);
      var y :| y in nodes && StandsFor(t, src, at + 1, b, y);
      KeyKept(t, t', at, b);
      assert Keys(t')[y] == Keys(t)[y];
      assert StandsFor(t', src, at + 1, b, y);
    }
  }

  // ---------- what a match means ----------

  ghost predicate SameByte(src: seq<byte>, a: int, at: int, k: int) {
    0 <= at + k < |src| && -N <= a + k < |src| && At(Zeros(), src, a + k) == src[at + k]
  }

  /** Bytes a..a+n of the stream, blanks in front of it included, repeat at offset `at`. */
  ghost predicate Repeats(src: seq<byte>, a: int, at: int, n: int) {
    && at + F - N <= a < at && -F <= a && 0 <= n && at + n <= |src|
    && forall k | 0 <= k < n :: SameByte(src, a, at, k)
  }

  /**
   * Nothing in the window, text or the F blanks in front of it, shares more than n bytes, F at most, with
   * what follows `at`; strings of nothing but blanks count until the oldest of them leaves.
   */
  ghost predicate NoLonger(src: seq<byte>, at: int, n: int) {
    forall b, c | Repeats(src, b, at, c) && at + F - N <= Oldest(src, b) && c <= F :: c <= n
  }

  /** The match fields at offset `at`, the match cut off where the text ends. */
  ghost predicate MatchAt(src: seq<byte>, at: int, length: int, position: int)
    requires 0 <= at <= |src|
  {
    && 0 <= length <= F
    && (length > 0 ==>
          && 0 <= position < N
          && Repeats(src, Latest(at, position), at, if at + length <= |src| then length else |src| - at))
    && NoLonger(src, at, length)
  }

  /** A node's window shares `length` bytes with that of `at`: so do the stream bytes. */
  lemma MatchRepeats(t: seq<byte>, nodes: set<int>, src: seq<byte>, at: int, pos: int, length: int, position: int)
    requires Tracks(t, nodes, src, at + F - N, at, pos) && 0 <= at < pos <= at + F && (pos == at + F || pos == |src|)
    requires position in nodes && length == Common(t, position, Cell(at))
    ensures Repeats(src, Latest(at, position), at, if at + length <= |src| then length else |src| - at)
  {
    hide Cell, Latest, Key, At, RingHolds, Mirrored, Covers, Shared;
    var a, n := Latest(at, position), if at + length <= |src| then length else |src| - at;
    assert IsText(t);
    var u, v := Window(t, position), Window(t, Cell(at));
    forall k | 0 <= k < n ensures SameByte(src, a, at, k) {
      WindowText(t, src, pos, a, k);
      WindowByte(t, src, pos, at, k);
      assert u[k] == v[k];
    }
  }

  /** A repetition shows in the windows. */
  lemma RepeatCommon(t: seq<byte>, src: seq<byte>, at: int, pos: int, b: int, c: int)
    requires Loaded(t, src, pos) && 0 <= at < pos <= at + F && (pos == at + F || pos == |src|)
    requires Repeats(src, b, at, c) && c <= F
    ensures c <= Common(t, Cell(b), Cell(at))
  {
    var u, v := Window(t, Cell(b)), Window(t, Cell(at));
    hide Cell, Latest, Key, RingHolds, Loaded;
    forall k | 0 <= k < c ensures u[k] == v[k] {
      WindowText(t, src, pos, b, k);
      WindowText(t, src, pos, at, k);
      assert SameByte(src, b, at, k);
    }
  }

  lemma SameKeyCommon(t: seq<byte>, x: int, y: int, z: int)
    requires IsText(t) && 0 <= x < N && 0 <= y < N && 0 <= z < N && Key(t, x) == Key(t, y)
    ensures Common(t, x, z) == Common(t, y, z)
  {
    SharedOrder(Window(t, x), Window(t, y));
    assert Window(t, x) == Window(t, y);
  }

  /** A bound over the trees is a bound over what the window holds. */
  lemma MatchLongest(t: seq<byte>, nodes: set<int>, src: seq<byte>, at: int, pos: int, length: int)
    requires Tracks(t, nodes, src, at + F - N, at, pos) && 0 <= at < pos <= at + F && (pos == at + F || pos == |src|)
    requires forall x <- nodes :: 0 <= x < N && Common(t, x, Cell(at)) <= length
    ensures NoLonger(src, at, length)
  {
    assert IsText(t);
    hide Cell, Latest, Key, Loaded, SameByte;
    forall b, c | Repeats(src, b, at, c) && at + F - N <= Oldest(src, b) && c <= F ensures c <= length {
      RepeatCommon(t, src, at, pos, b, c);
      assert Covered(t, nodes, src, at, b);
      var y :| y in nodes && StandsFor(t, src, at, b, y);
      SameKeyCommon(t, y, Cell(b), Cell(at));
    }
  }

  /** The cell of the next offset is free. */
  lemma NextIsFree(nodes: set<int>, at: int)
    requires Spans(nodes, at + F - N, at)
    ensures Cell(at) !in nodes
  {
    CellPeriod(at - N);
    LatestUnique(at, at - N);
  }

  /** Inserting offset `at`, at most a node with the same window having left for it. */
  lemma TracksInsert(t: seq<byte>, nodes: set<int>, nodes': set<int>, src: seq<byte>, at: int, pos: int)
    requires Tracks(t, nodes, src, at + F - N, at, pos) && 0 <= at
    requires Cell(at) in nodes' && nodes' <= nodes + {Cell(at)}
    requires forall y <- nodes :: 0 <= y < N && (y in nodes' || Key(t, y) == Key(t, Cell(at)))
    ensures Tracks(t, nodes', src, at + F - N, at + 1, pos)
  {
    var r := Cell(at);
    forall x <- nodes' ensures 0 <= x < N && Latest(at + 1, x) >= at + F - N && Latest(at + 1, x) >= -F {
      LatestStep(at, x);
    }
    LatestStep(at, r);
    hide Cell, Latest, Key, Loaded;
    forall b {:trigger Covered(t, nodes', src, at + 1, b)} | -F <= b < at + 1 && at + F - N <= Oldest(src, b)
      ensures Covered(t, nodes', src, at + 1, b)
    {
      if b == at {
        assert StandsFor(t, src, at + 1, b, r);
      } else {
        assert Covered(t, nodes, src, at, b);
        var y :| y in nodes && StandsFor(t, src, at, b, y);
        LatestStep(at, y);
        if y in nodes' {
          assert StandsFor(t, src, at + 1, b, y);
        } else {
          assert StandsFor(t, src, at + 1, b, r);
        }
      }
    }
  }

  // ---------- the strings in front of the text ----------

  /** Of the strings begun in the blanks, only strings of nothing but blanks are the same. */
  lemma SameBlanks(t: seq<byte>, x: int, y: int)
    requires IsText(t) && N - 2 * F <= x < y < N - F && Key(t, x) == Key(t, y)
    requires forall k | N - 2 * F <= k < N - F :: t[k] == SPACE
    ensures forall k | y <= k < y + F :: t[k] == SPACE
  {
    SharedOrder(Window(t, x), Window(t, y));
    assert Window(t, x) == Window(t, y);
    BlankOn(t, x, y, y + F);
  }

  lemma {:induction false} BlankOn(t: seq<byte>, x: int, y: int, end: int)
    requires IsText(t) && 0 <= x < y < N && y <= end <= y + F && Window(t, x) == Window(t, y)
    requires forall k | x <= k < y :: t[k] == SPACE
    ensures forall k | x <= k < end :: t[k] == SPACE
    decreases end - y
  {
    if y < end {
      BlankOn(t, x, y, end - 1);
      var k := end - 1 - y;
      assert Window(t, x)[k] == t[x + k] && Window(t, y)[k] == t[y + k];
    }
  }

  /** Blanks in the buffer are blanks in the stream: cells no text has reached hold none. */
  lemma BlankText(t: seq<byte>, src: seq<byte>, b: int)
    requires Loaded(t, src, if F <= |src| then F else |src|) && -F <= b < 0
    requires forall k | N - F + b <= k < N + b :: t[k] == SPACE
    ensures AllBlank(src, b)
  {
    var pos := if F <= |src| then F else |src|;
    hide At;
    forall k | 0 <= k < F + b && k < pos ensures src[k] == SPACE {
      WindowText(t, src, pos, 0, k);
      FrontByte(src, k);
    }
    if |src| < F + b { UnreachedCell(t, src); }
  }

  lemma FrontByte(src: seq<byte>, k: int)
    requires -N <= k < |src|
    ensures At(Zeros(), src, k) == if k >= 0 then src[k] else if k >= F - N then SPACE else 0
  {
  }

  lemma UnreachedCell(t: seq<byte>, src: seq<byte>)
    requires Loaded(t, src, |src|) && |src| < F
    ensures t[N - F + |src|] == 0
  {
    RingRead(t, Zeros(), src[..|src|], |src| - N);
    CellPeriod(|src| - N);
  }

  /** The string at b has a node: itself or, for nothing but blanks, one in front of it. */
  ghost predicate FrontCovered(t: seq<byte>, nodes: set<int>, b: int)
    requires IsText(t) && -F <= b < 0
  {
    exists y :: y in nodes && N - 2 * F <= y < N - F && Key(t, y) == Key(t, N - F + b)
      && (N - F + b <= y || forall k | N - F + b <= k < N + b :: t[k] == SPACE)
  }

  /** One string more: of those before it only one that is the same can have left for it. */
  lemma FrontInsert(t: seq<byte>, src: seq<byte>, pos: int, nodes: set<int>, nodes': set<int>, i: int)
    requires Loaded(t, src, pos) && 0 <= pos <= F && 1 <= i <= F
    requires N - F - i in nodes'
    requires forall y <- nodes :: N - F - i < y < N - F && (y in nodes' || Key(t, y) == Key(t, N - F - i))
    requires forall b {:trigger FrontCovered(t, nodes, b)} | -i < b < 0 :: FrontCovered(t, nodes, b)
    ensures forall b {:trigger FrontCovered(t, nodes', b)} | -i <= b < 0 :: FrontCovered(t, nodes', b)
  {
    hide RingHolds, Mirrored, Key;
    var x := N - F - i;
    forall b {:trigger FrontCovered(t, nodes', b)} | -i <= b < 0 ensures FrontCovered(t, nodes', b) {
      if b > -i {
        assert FrontCovered(t, nodes, b);
        var y :| y in nodes && N - 2 * F <= y < N - F && Key(t, y) == Key(t, N - F + b)
          && (N - F + b <= y || forall k | N - F + b <= k < N + b :: t[k] == SPACE);
        if y !in nodes' {
          FrontBlank(t, src, pos, x, N - F + b);
          assert x in nodes' && Key(t, x) == Key(t, N - F + b);
        }
      }
    }
  }

  lemma FrontBlank(t: seq<byte>, src: seq<byte>, pos: int, x: int, y: int)
    requires Loaded(t, src, pos) && 0 <= pos <= F && N - 2 * F <= x < y < N - F && Key(t, x) == Key(t, y)
    ensures forall k | y <= k < y + F :: t[k] == SPACE
  {
    forall k | N - 2 * F <= k < N - F ensures t[k] == SPACE {
      FrontCell(t, src, pos, k);
    }
    SameBlanks(t, x, y);
  }

  /** All F strings in front of the text are in the trees. */
  lemma FrontCovers(t: seq<byte>, src: seq<byte>, nodes: set<int>)
    requires Loaded(t, src, if F <= |src| then F else |src|)
    requires forall x <- nodes :: N - 2 * F <= x < N - F
    requires forall b {:trigger FrontCovered(t, nodes, b)} | -F <= b < 0 :: FrontCovered(t, nodes, b)
    ensures Tracks(t, nodes, src, F - N, 0, if F <= |src| then F else |src|)
  {
    hide RingHolds, Mirrored, Key;
    forall x <- nodes ensures 0 <= x < N && Latest(0, x) == x - (N - F) {
      FrontLatest(x);
    }
    forall b {:trigger Covered(t, nodes, src, 0, b)} | -F <= b < 0 ensures Covered(t, nodes, src, 0, b) {
      assert FrontCovered(t, nodes, b);
      var y :| y in nodes && N - 2 * F <= y < N - F && Key(t, y) == Key(t, N - F + b)
        && (N - F + b <= y || forall k | N - F + b <= k < N + b :: t[k] == SPACE);
      FrontLatest(N - F + b);
      if y < N - F + b { BlankText(t, src, b); }
      assert StandsFor(t, src, 0, b, y);
    }
  }

  lemma FrontLatest(x: int)
    requires N - 2 * F <= x < N - F
    ensures Cell(x - (N - F)) == x && Latest(0, x) == x - (N - F)
  {
    LatestUnique(0, x - (N - F));
  }

  /** Before any text is read on, the cells in front of it hold blanks. */
  lemma FrontCell(t: seq<byte>, src: seq<byte>, pos: int, x: int)
    requires Loaded(t, src, pos) && 0 <= pos <= F && N - 2 * F <= x < N - F
    ensures t[x] == SPACE
  {
    RingRead(t, Zeros(), src[..pos], x - (N - F));
    assert Cell(x - (N - F)) == x;
  }
}
