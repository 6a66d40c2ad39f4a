/**
 * What a compressed stream means, without rings: units that append to a growing output, a copy
 * reading from the output itself or from what the ring held before the first byte.
 */
module LzssStream {
  import opened Basics
  import opened LzssConstants

  datatype Unit =
    | Literal(value: byte)
    | Copy(position: int, length: int)
  {
    /** A unit two bytes of code can hold. */
    predicate Valid() {
      Copy? ==> 0 <= position < N && THRESHOLD < length <= F
    }

    /** The number of bytes the unit stands for. */
    function Length(): int {
      if Copy? then length else 1
    }

    /** The number of bytes of code of the unit, without its flag. */
    function CodeSize(): int {
      if Copy? then 2 else 1
    }
  }

  // ---------- stream offsets and ring cells ----------

  /** The ring cell that holds the byte at stream offset a; offset 0 goes to cell N-F. */
  function Cell(a: int): (x: int)
    ensures 0 <= x < N
  {
    (a + N - F) % N
  }

  /** The last offset before `end` whose byte cell x holds: the N offsets before `end` fill the ring. */
  function Latest(end: int, x: int): (a: int)
    requires 0 <= x < N
    ensures end - N <= a < end && Cell(a) == x
  {
    end - N + (x + F - end) % N
  }

  lemma LatestUnique(end: int, a: int)
    requires end - N <= a < end
    ensures Latest(end, Cell(a)) == a
  {
  }

  /** One more byte changes what its own cell holds, and no other. */
  lemma LatestStep(end: int, x: int)
    requires 0 <= x < N
    ensures Latest(end + 1, x) == if x == Cell(end) then end else Latest(end, x)
  {
    if x == Cell(end) {
      LatestUnique(end + 1, end);
    } else {
      LatestUnique(end + 1, Latest(end, x));
    }
  }

  /** The ring advances by one cell a byte. */
  lemma CellStep(a: int)
    ensures Cell(a + 1) == (Cell(a) + 1) % N
  {
    var q := (a + N - F) / N;
    assert a + N - F == q * N + Cell(a);
  }

  lemma CellOffset(a: int, k: int)
    ensures Cell(a + k) == (Cell(a) + k) % N
  {
    var q := (a + N - F) / N;
    assert a + N - F == q * N + Cell(a);
  }

  lemma CellPeriod(a: int)
    ensures Cell(a + N) == Cell(a)
  {
  }

  /**
   * The byte at offset a: the text for a >= 0, blanks for the N-F cells the ring starts with, and
   * `junk`, what the last F cells held before, further back.
   */
  function At(junk: seq<byte>, text: seq<byte>, a: int): byte
    requires |junk| == F && -N <= a < |text|
  {
    if a >= 0 then text[a] else if a >= F - N then SPACE else junk[a + N]
  }

  /** A ring that holds the last N bytes of the stream `text`. */
  ghost predicate RingHolds(ring: seq<byte>, junk: seq<byte>, text: seq<byte>) {
    && |ring| >= N && |junk| == F
    && forall x | 0 <= x < N :: ring[x] == At(junk, text, Latest(|text|, x))
  }

  lemma RingRead(ring: seq<byte>, junk: seq<byte>, text: seq<byte>, a: int)
    requires RingHolds(ring, junk, text) && |text| - N <= a < |text|
    ensures ring[Cell(a)] == At(junk, text, a)
  {
    LatestUnique(|text|, a);
  }

  /** Storing a byte in the next cell keeps the ring up to date. */
  lemma RingStep(ring: seq<byte>, ring': seq<byte>, junk: seq<byte>, text: seq<byte>, c: byte)
    requires RingHolds(ring, junk, text) && |ring'| == |ring|
    requires forall x | 0 <= x < N :: ring'[x] == if x == Cell(|text|) then c else ring[x]
    ensures RingHolds(ring', junk, text + [c])
  {
    forall x | 0 <= x < N ensures ring'[x] == At(junk, text + [c], Latest(|text| + 1, x)) {
      LatestStep(|text|, x);
    }
  }

  // ---------- decoding ----------

  /** Appends n bytes, each read n' = 0, 1, ... behind the previous one starting at offset a. */
  function CopyFrom(junk: seq<byte>, out: seq<byte>, a: int, n: nat): (r: seq<byte>)
    requires |junk| == F && -N <= a < |out|
    ensures |r| == |out| + n && out <= r
    decreases n
  {
    if n == 0 then out
    else
      assert out <= out + [At(junk, out, a)];
      CopyFrom(junk, out + [At(junk, out, a)], a + 1, n - 1)
  }

  function Apply(junk: seq<byte>, out: seq<byte>, u: Unit): (r: seq<byte>)
    requires |junk| == F && u.Valid()
    ensures |r| == |out| + u.Length() && out <= r
  {
    match u
    case Literal(c) => out + [c]
    case Copy(p, n) => CopyFrom(junk, out, Latest(|out|, p), n)
  }

  function Expand(junk: seq<byte>, out: seq<byte>, us: seq<Unit>): (r: seq<byte>)
    requires |junk| == F && forall u <- us :: u.Valid()
    ensures |r| == |out| + TotalLength(us) && out <= r
    decreases |us|
  {
    if us == [] then out
    else
      assert us[0] in us;
      Expand(junk, Apply(junk, out, us[0]), us[1..])
  }

  function TotalLength(us: seq<Unit>): int {
    if us == [] then 0 else us[0].Length() + TotalLength(us[1..])
  }

  lemma ExpandNothing(junk: seq<byte>, out: seq<byte>)
    requires |junk| == F
    ensures Expand(junk, out, []) == out
  {
  }

  lemma ExpandFirst(junk: seq<byte>, out: seq<byte>, us: seq<Unit>)
    requires |junk| == F && us != [] && forall u <- us :: u.Valid()
    ensures us[0].Valid() && Expand(junk, out, us) == Expand(junk, Apply(junk, out, us[0]), us[1..])
    ensures |out| + us[0].Length() <= |Expand(junk, out, us)|
  {
    assert us[0] in us;
  }

  lemma {:induction false} ExpandAppend(junk: seq<byte>, out: seq<byte>, us: seq<Unit>, u: Unit)
    requires |junk| == F && u.Valid() && forall v <- us :: v.Valid()
    ensures Expand(junk, out, us + [u]) == Apply(junk, Expand(junk, out, us), u)
    decreases |us|
  {
    if us == [] {
      assert [] + [u] == [u];
      assert Expand(junk, Apply(junk, out, u), []) == Apply(junk, out, u);
    } else {
      assert us[0] in us;
      assert (us + [u])[1..] == us[1..] + [u];
      ExpandAppend(junk, Apply(junk, out, us[0]), us[1..], u);
    }
  }

  lemma {:induction false} TotalLengthAppend(us: seq<Unit>, u: Unit)
    ensures TotalLength(us + [u]) == TotalLength(us) + u.Length()
  {
    if us != [] {
      assert (us + [u])[1..] == us[1..] + [u];
      TotalLengthAppend(us[1..], u);
    }
  }
}
