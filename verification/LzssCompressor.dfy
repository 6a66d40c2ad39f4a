/** The compressor: it slides its window over the text, picks units, and packs them into the output. */
module LzssCompressor {
  import opened Basics
  import opened LzssConstants
  import opened LzssForest
  import opened LzssWindow
  import opened LzssStream
  import opened LzssPacking
  import opened LzssMatching
  import opened LzssUnits
  import opened LzssEncodeState

  // ---------- the sliding window ----------

  ghost predicate Indexed(sp: EncodeState, src: seq<byte>, lo: int, end: int, pos: int)
    reads sp`sub, sp.lchild, sp.rchild, sp.parent, sp.textBuf
  {
    sp.Valid() && Tracks(sp.Text(), sp.Nodes(), src, lo, end, pos)
  }

  /** How far the text has been read when offset `at` is next: F bytes ahead, or to the end. */
  function ReadTo(src: seq<byte>, at: int): int {
    if at + F <= |src| then at + F else |src|
  }

  /** The trees and the buffer at offset `at`, whatever the match fields hold by now. */
  ghost predicate Standing(sp: EncodeState, src: seq<byte>, at: int)
    reads sp`sub, sp.lchild, sp.rchild, sp.parent, sp.textBuf
  {
    0 <= at < |src| && Indexed(sp, src, at + F - N, at + 1, ReadTo(src, at))
  }

  /** The state at a unit boundary: offset `at` is in the trees and its match has been found. */
  ghost predicate Following(sp: EncodeState, src: seq<byte>, at: int)
    reads sp, sp.lchild, sp.rchild, sp.parent, sp.textBuf
  {
    Standing(sp, src, at) && MatchAt(src, at, sp.matchLength, sp.matchPosition)
  }

  /** Puts offset `at`, whose cell is r, into the trees and finds its match. */
  method Insert(sp: EncodeState, r: int, ghost src: seq<byte>, ghost at: int)
    requires 0 <= at < |src| && r == Cell(at) && Indexed(sp, src, at + F - N, at, ReadTo(src, at))
    modifies sp, sp.lchild, sp.rchild, sp.parent
    ensures Following(sp, src, at)
  {
    hide Cell, Latest, Loaded, Key, Spans, Covers, Window;
    ghost var t, nodes, pos := sp.Text(), sp.Nodes(), ReadTo(src, at);
    NextIsFree(nodes, at);
    sp.InsertNode(r);
    TracksInsert(t, nodes, sp.Nodes(), src, at, pos);
    MatchLongest(t, nodes, src, at, pos, sp.matchLength);
    if sp.matchLength > 0 {
      MatchRepeats(t, nodes, src, at, pos, sp.matchLength, sp.matchPosition);
    }
  }

  /** Replaces the oldest byte of the window by the next of the text, and moves on by one. */
  method ReadNext(sp: EncodeState, c: byte, s: int, r: int, ghost src: seq<byte>, ghost at: int)
    returns (s': int, r': int)
    requires Standing(sp, src, at) && at + F < |src| && c == src[at + F]
    requires s == Cell(at + F) && r == Cell(at)
    modifies sp, sp.lchild, sp.rchild, sp.parent, sp.textBuf
    ensures Following(sp, src, at + 1) && s' == Cell(at + 1 + F) && r' == Cell(at + 1)
  {
    hide Cell, Latest, Loaded, Key, Spans, Covers, Window, MatchAt;
    OldestLeaves(sp.Text(), sp.Nodes(), src, at, at + F);
    sp.DeleteNode(s);
    ghost var t, nodes, f := sp.Text(), sp.Nodes(), sp.Links();
    sp.textBuf[s] := c;
    if s < F - 1 {
      sp.textBuf[s + N] := c;
    }
    TracksLoad(t, sp.Text(), nodes, src, at);
    KeysKept(t, sp.Text(), nodes, at);
    OnlyLiveCounts(f, f, Keys(t), Homes(t), Keys(sp.Text()), Homes(sp.Text()));
    s' := (s + 1) % N;
    r' := (r + 1) % N;
    CellStep(at + F);
    CellStep(at);
    Insert(sp, r', src, at + 1);
  }

  /** Past the end of the text: drops the oldest offset, and moves on by one while there is text. */
  method GiveUp(sp: EncodeState, len: int, s: int, r: int, ghost src: seq<byte>, ghost at: int)
    returns (len': int, s': int, r': int)
    requires Standing(sp, src, at) && |src| <= at + F && len == |src| - at
    requires s == Cell(at + F) && r == Cell(at)
    modifies sp, sp.lchild, sp.rchild, sp.parent
    ensures at + 1 < |src| ==> Following(sp, src, at + 1)
    ensures len' == |src| - (at + 1) && s' == Cell(at + 1 + F) && r' == Cell(at + 1)
  {
    hide Cell, Latest, Loaded, Key, Spans, Covers, Window, MatchAt;
    OldestLeaves(sp.Text(), sp.Nodes(), src, at, |src|);
    sp.DeleteNode(s);
    s' := (s + 1) % N;
    r' := (r + 1) % N;
    CellStep(at + F);
    CellStep(at);
    len' := len - 1;
    if len' != 0 {
      Insert(sp, r', src, at + 1);
    }
  }

  /** A cleared buffer holds no text yet. */
  lemma Cleared(t: seq<byte>, src: seq<byte>)
    requires t == seq(N + F - 1, i => if i < N - F then SPACE else 0)
    ensures Loaded(t, src, 0)
  {
    assert src[..0] == [];
  }

  /** Reads the first F bytes of the text, or all of it, into the last F cells of the ring. */
  method Fill(sp: EncodeState, src: seq<byte>, r: int) returns (len: int)
    requires sp.Valid() && sp.Nodes() == {} && Loaded(sp.Text(), src, 0) && r == N - F
    modifies sp.textBuf
    ensures sp.Valid() && sp.Nodes() == {} && len == ReadTo(src, 0) && Loaded(sp.Text(), src, len)
  {
    len := 0;
    while len < F && len < |src|
      invariant 0 <= len <= F && len <= |src|
      invariant sp.Valid() && sp.Nodes() == {} && Loaded(sp.Text(), src, len)
    {
      hide Loaded, Key, Latest;
      ghost var t, f := sp.Text(), sp.Links();
      assert Cell(len) == r + len;
      sp.textBuf[r + len] := src[len];
      LoadStep(t, sp.Text(), src, len);
      AnyLabels(f, Keys(t), Homes(t), Keys(sp.Text()), Homes(sp.Text()));
      len := len + 1;
    }
  }

  /** Puts the F strings that begin in the blanks in front of the text into the trees, last cell first. */
  method InsertBlanks(sp: EncodeState, r: int, ghost src: seq<byte>)
    requires sp.Valid() && sp.Nodes() == {} && r == N - F && Loaded(sp.Text(), src, ReadTo(src, 0))
    modifies sp, sp.lchild, sp.rchild, sp.parent
    ensures Indexed(sp, src, F - N, 0, ReadTo(src, 0))
  {
    hide Cell, Latest, Loaded, Key, FrontCovered, Spans, Covers;
    ghost var t := sp.Text();
    for i := 1 to F + 1
      invariant sp.Valid() && sp.Text() == t
      invariant forall x <- sp.Nodes() :: r - i < x < r
      invariant forall b {:trigger FrontCovered(t, sp.Nodes(), b)} | -i < b < 0 :: FrontCovered(t, sp.Nodes(), b)
    {
      ghost var nodes := sp.Nodes();
      sp.InsertNode(r - i);
      FrontInsert(t, src, ReadTo(src, 0), nodes, sp.Nodes(), i);
    }
    FrontCovers(t, src, sp.Nodes());
  }

  /** The state before the first unit. */
  method Begin(src: seq<byte>) returns (sp: EncodeState, len: int, s: int, r: int)
    requires src != []
    ensures fresh(sp) && fresh(sp.lchild) && fresh(sp.rchild) && fresh(sp.parent) && fresh(sp.textBuf)
    ensures Following(sp, src, 0) && len == ReadTo(src, 0) && s == Cell(F) && r == Cell(0)
  {
    sp := new EncodeState.InitState();
    s, r := 0, N - F;
    Cleared(sp.Text(), src);
    len := Fill(sp, src, r);
    InsertBlanks(sp, r, src);
    Insert(sp, r, src, 0);
  }

  /** Moves the window on over the n bytes of a unit, reading ahead while there is text to read. */
  method Advance(sp: EncodeState, n: int, src: seq<byte>, k: int, len: int, s: int, r: int, ghost at: int)
    returns (k': int, len': int, s': int, r': int)
    requires Standing(sp, src, at) && 1 <= n <= len
    requires k == ReadTo(src, at) && len == k - at && s == Cell(at + F) && r == Cell(at)
    modifies sp, sp.lchild, sp.rchild, sp.parent, sp.textBuf
    ensures at + n < |src| ==> Following(sp, src, at + n)
    ensures k' == ReadTo(src, at + n) && len' == k' - (at + n) && s' == Cell(at + n + F) && r' == Cell(at + n)
  {
    hide Cell, Indexed, MatchAt;
    k', len', s', r' := k, len, s, r;
    var i := 0;
    while i < n && k' < |src|
      invariant 0 <= i <= n && k' == ReadTo(src, at + i) && len' == k' - (at + i)
      invariant s' == Cell(at + i + F) && r' == Cell(at + i)
      invariant Standing(sp, src, at + i) && (i > 0 ==> Following(sp, src, at + i))
    {
      s', r' := ReadNext(sp, src[k'], s', r', src, at + i);
      k' := k' + 1;
      i := i + 1;
    }
    while i < n
      invariant 0 <= i <= n && k' == ReadTo(src, at + i) && len' == k' - (at + i)
      invariant s' == Cell(at + i + F) && r' == Cell(at + i)
      invariant i < n ==> k' == |src|
      invariant at + i < |src| ==> Standing(sp, src, at + i)
      invariant at + i < |src| && i > 0 ==> Following(sp, src, at + i)
    {
      len', s', r' := GiveUp(sp, len', s', r', src, at + i);
      i := i + 1;
    }
  }

  // ---------- packing the units ----------

  /** The code buffer holds the group g: its flags and codes, and the mask of the next flag. */
  ghost predicate Grouped(code: seq<byte>, ptr: int, mask: int, g: seq<Unit>) {
    && |g| <= GROUP && (forall u <- g :: u.Valid())
    && |code| == 17 && 1 <= ptr <= 17 && code[..ptr] == PackGroup(g)
    && mask == (if |g| == GROUP then 0 else Pow2(|g|))
  }

  lemma GroupRoom(g: seq<Unit>)
    requires |g| <= GROUP && forall u <- g :: u.Valid()
    ensures |PackGroup(g)| <= 1 + 2 * |g|
  {
    CodesRoom(g);
  }

  lemma {:induction false} CodesRoom(g: seq<Unit>)
    requires forall u <- g :: u.Valid()
    ensures |g| <= |Codes(g)| <= 2 * |g|
  {
    if g != [] {
      assert g[0] in g;
      CodesRoom(g[1..]);
    }
  }

  /** A unit joins the group: its flag is or-ed in under the mask, its code appended. */
  lemma GroupAppend(code: seq<byte>, ptr: int, mask: int, g: seq<Unit>, u: Unit, code': seq<byte>)
    requires Grouped(code, ptr, mask, g) && |g| < GROUP && u.Valid() && |code'| == 17
    requires ptr + u.CodeSize() <= 17
    requires code'[0] == code[0] + (if u.Literal? then mask else 0)
    requires code'[1..ptr] == code[1..ptr] && code'[ptr..ptr + u.CodeSize()] == Code(u)
    ensures Grouped(code', ptr + u.CodeSize(), mask * 2 % 256, g + [u])
  {
    hide PackGroup, Code, Pow2;
    GroupBytes(code, ptr, mask, g, u, code');
    NextMask(g, u, mask);
  }

  lemma GroupBytes(code: seq<byte>, ptr: int, mask: int, g: seq<Unit>, u: Unit, code': seq<byte>)
    requires |g| < GROUP && (forall v <- g :: v.Valid()) && u.Valid() && mask == Pow2(|g|)
    requires |code| == 17 && 1 <= ptr <= 17 && code[..ptr] == PackGroup(g) && |code'| == 17
    requires ptr + u.CodeSize() <= 17
    requires code'[0] == code[0] + (if u.Literal? then mask else 0)
    requires code'[1..ptr] == code[1..ptr] && code'[ptr..ptr + u.CodeSize()] == Code(u)
    ensures forall v <- g + [u] :: v.Valid()
    ensures code'[..ptr + u.CodeSize()] == PackGroup(g + [u])
  {
    hide Flags, Codes, Code, Pow2, PackGroup;
    GroupParts(code, ptr, g);
    Parts(code', ptr, ptr + u.CodeSize());
    PackGroupAppend(g, u, code'[0]);
  }

  lemma PackGroupAppend(g: seq<Unit>, u: Unit, flags: byte)
    requires |g| < GROUP && (forall v <- g :: v.Valid()) && u.Valid()
    requires flags == Flags(g) + (if u.Literal? then Pow2(|g|) else 0)
    ensures forall v <- g + [u] :: v.Valid()
    ensures PackGroup(g + [u]) == [flags] + Codes(g) + Code(u)
  {
    hide Flags, Codes, Code, Pow2, PackGroup;
    FlagsAppend(g, u);
    CodesAppend(g, u);
    PackGroupIs(g + [u]);
    assert Flags(g + [u]) == flags;
    assert [flags] + (Codes(g) + Code(u)) == [flags] + Codes(g) + Code(u);
  }

  lemma PackGroupIs(g: seq<Unit>)
    requires |g| <= GROUP && forall v <- g :: v.Valid()
    ensures Flags(g) < 256 && PackGroup(g) == [Flags(g)] + Codes(g)
  {
    FlagsBound(g);
    Pow2Monotone(|g|, GROUP);
    Pow2Values();
  }

  lemma Parts(code: seq<byte>, ptr: int, n: int)
    requires 1 <= ptr <= n <= |code|
    ensures code[..n] == [code[0]] + code[1..ptr] + code[ptr..n]
  {
  }

  lemma GroupParts(code: seq<byte>, ptr: int, g: seq<Unit>)
    requires |g| <= GROUP && (forall v <- g :: v.Valid())
    requires 1 <= ptr <= |code| && code[..ptr] == PackGroup(g)
    ensures code[0] == Flags(g) && code[1..ptr] == Codes(g)
  {
    hide Flags, Codes;
    assert code[..ptr][0] == code[0];
    assert code[..ptr][1..] == code[1..ptr];
    assert PackGroup(g)[1..] == Codes(g);
  }

  lemma NextMask(g: seq<Unit>, u: Unit, mask: int)
    requires |g| < GROUP && mask == Pow2(|g|)
    ensures mask * 2 % 256 == if |g + [u]| == GROUP then 0 else Pow2(|g + [u]|)
  {
    Pow2Values();
    if |g| < 7 { Pow2Monotone(|g| + 1, 7); }
  }

  /** The flag bit of the next unit is free. */
  lemma MaskFree(code: seq<byte>, ptr: int, mask: int, g: seq<Unit>)
    requires Grouped(code, ptr, mask, g) && |g| < GROUP
    ensures 0 < mask && code[0] < mask && code[0] as int + mask < 256 && ptr + 2 <= 17
  {
    FlagsBound(g);
    Pow2Values();
    Pow2Monotone(|g| + 1, GROUP);
    assert code[..ptr][0] == Flags(g);
    GroupRoom(g);
  }

  /** Puts the unit for a match of that length and position into the code buffer. */
  method AddUnit(codeBuf: array<byte>, ptr: int, mask: int, letter: byte, length: int, position: int,
                 ghost g: seq<Unit>)
    returns (ptr': int, mask': int)
    requires Grouped(codeBuf[..], ptr, mask, g) && |g| < GROUP
    requires length > THRESHOLD ==> 0 <= position < N && length <= F
    modifies codeBuf
    ensures Grouped(codeBuf[..], ptr', mask',
      g + [if length <= THRESHOLD then Literal(letter) else Copy(position, length)])
  {
    MaskFree(codeBuf[..], ptr, mask, g);
    ghost var u := if length <= THRESHOLD then Literal(letter) else Copy(position, length);
    ghost var code := codeBuf[..];
    if length <= THRESHOLD {
      codeBuf[0] := codeBuf[0] as int + mask;
      codeBuf[ptr] := letter;
      ptr' := ptr + 1;
    } else {
      codeBuf[ptr] := position % 256;
      codeBuf[ptr + 1] := position / 256 * 16 + (length - (THRESHOLD + 1));
      ptr' := ptr + 2;
    }
    mask' := mask * 2 % 256;
    GroupAppend(code, ptr, mask, g, u, codeBuf[..]);
  }

  /** Sends the code buffer to the output, as long as there is room before `limit`. */
  method Send(dst: array<byte>, d: int, limit: int, codeBuf: array<byte>, ptr: int) returns (d': int, ok: bool)
    requires dst != codeBuf && 1 <= ptr <= codeBuf.Length && 0 <= d <= dst.Length
    requires d + ptr <= dst.Length || limit <= dst.Length
    modifies dst
    ensures ok == (d + ptr <= limit)
    ensures ok ==> d' == d + ptr && d' <= dst.Length && dst[d..d'] == codeBuf[..ptr]
    ensures forall x | 0 <= x < dst.Length && !(d <= x < d + ptr) :: dst[x] == old(dst[x])
  {
    d', ok := d, true;
    for i := 0 to ptr
      invariant d' == d + i && d' <= dst.Length
      invariant i > 0 ==> d + i <= limit
      invariant forall x | d <= x < d + i && x < dst.Length :: dst[x] == codeBuf[x - d]
      invariant forall x | 0 <= x < dst.Length && !(d <= x < d + i) :: dst[x] == old(dst[x])
    {
      if d' < limit {
        dst[d'] := codeBuf[i];
        d' := d' + 1;
      } else {
        ok := false;
        return;
      }
    }
  }

  /** The most code n bytes of text can take. */
  function Bound(n: int): int {
    n + (n + 7) / 8
  }

  /**
   * The output so far: whole groups of the units `sent` from `start` to d, the group g in the code
   * buffer, together right units for the text before `at`.
   */
  ghost predicate Coding(out: seq<byte>, start: int, d: int, code: seq<byte>, ptr: int, mask: int,
                         src: seq<byte>, sent: seq<Unit>, g: seq<Unit>, at: int) {
    && UnitsOk(src, sent + g) && TotalLength(sent + g) == at <= |src|
    && |sent| % GROUP == 0 && Grouped(code, ptr, mask, g)
    && (forall u <- sent :: u.Valid())
    && 0 <= start <= d <= |out| && out[start..d] == Pack(sent)
  }

  lemma CodingStart(out: seq<byte>, start: int, code: seq<byte>, src: seq<byte>)
    requires 0 <= start <= |out| && |code| == 17 && code[0] == 0
    ensures Coding(out, start, start, code, 1, 1, src, [], [], 0)
    ensures UnitsOk(src, []) && Pack([]) == [] && |Pack([])| <= Bound(|src|)
  {
    assert code[..1] == [0] + [];
    var none: seq<Unit> := [];
    assert none + none == none;
  }

  /** What the code buffer will bring the output to. */
  lemma CodingSize(out: seq<byte>, start: int, d: int, code: seq<byte>, ptr: int, mask: int,
                   src: seq<byte>, sent: seq<Unit>, g: seq<Unit>, at: int)
    requires Coding(out, start, d, code, ptr, mask, src, sent, g, at)
    ensures UnitsOk(src, sent + g) && |Pack(sent + g)| <= Bound(|src|) && TotalLength(sent + g) == at
    ensures 1 <= ptr <= 17 && 0 <= start <= d <= |out| && (ptr > 1 <==> g != [])
    ensures d + (if g == [] then 0 else ptr) == start + |Pack(sent + g)|
    ensures mask == 0 <==> |g| == GROUP
    ensures g == [] ==> out[start..d] == Pack(sent + g)
  {
    assert forall u <- g :: u.Valid();
    PackAppend(sent, g);
    if g == [] { assert sent + g == sent; }
    PackBound(sent + g);
    CodesRoom(g);
  }

  /** The code buffer has been sent. */
  lemma CodingSent(out: seq<byte>, out': seq<byte>, start: int, d: int, d': int, code: seq<byte>, ptr: int, mask: int,
                   src: seq<byte>, sent: seq<Unit>, g: seq<Unit>, at: int)
    requires Coding(out, start, d, code, ptr, mask, src, sent, g, at) && g != [] && |out'| == |out|
    requires d' == d + ptr <= |out| && (forall x | 0 <= x < d :: out'[x] == out[x]) && out'[d..d'] == code[..ptr]
    ensures out'[start..d'] == Pack(sent + g)
  {
    assert forall u <- g :: u.Valid();
    PackAppend(sent, g);
    assert out'[start..d'] == out'[start..d] + out'[d..d'];
    assert out'[start..d] == out[start..d];
  }

  /** After a whole group the code buffer starts afresh. */
  lemma CodingFresh(out: seq<byte>, out': seq<byte>, start: int, d: int, d': int, code: seq<byte>, ptr: int, mask: int,
                    src: seq<byte>, sent: seq<Unit>, g: seq<Unit>, at: int, code': seq<byte>)
    requires Coding(out, start, d, code, ptr, mask, src, sent, g, at) && |g| == GROUP && |out'| == |out|
    requires d' == d + ptr <= |out| && (forall x | 0 <= x < d :: out'[x] == out[x]) && out'[d..d'] == code[..ptr]
    requires |code'| == 17 && code'[0] == 0
    ensures Coding(out', start, d', code', 1, 1, src, sent + g, [], at)
  {
    CodingSent(out, out', start, d, d', code, ptr, mask, src, sent, g, at);
    CodingSize(out, start, d, code, ptr, mask, src, sent, g, at);
    assert sent + g + [] == sent + g;
    assert Flags([]) == 0 && Codes([]) == [];
    assert code'[..1] == [0] + [];
  }

  /** The output when the text is used up. */
  lemma CodingDone(out: seq<byte>, start: int, d: int, src: seq<byte>, us: seq<Unit>)
    requires UnitsOk(src, us) && TotalLength(us) == |src|
    requires 0 <= start <= d <= |out| && out[start..d] == Pack(us)
    ensures forall junk: seq<byte> | |junk| == F :: Decoded(out[start..d], junk) == src
  {
    forall junk: seq<byte> | |junk| == F ensures Decoded(out[start..d], junk) == src {
      RoundTrip(src, us, junk);
    }
  }

  /** A unit has been added. */
  lemma CodingAdded(out: seq<byte>, start: int, d: int, code: seq<byte>, ptr: int, mask: int,
                    src: seq<byte>, sent: seq<Unit>, g: seq<Unit>, at: int,
                    u: Unit, code': seq<byte>, ptr': int, mask': int)
    requires Coding(out, start, d, code, ptr, mask, src, sent, g, at) && UnitOk(src, at, u)
    requires Grouped(code', ptr', mask', g + [u])
    ensures Coding(out, start, d, code', ptr', mask', src, sent, g + [u], at + u.Length())
  {
    UnitsAppend(src, sent + g, u);
    assert sent + (g + [u]) == sent + g + [u];
  }

  /** The unit the match found at offset `at` leads to. */
  lemma PickOk(sp: EncodeState, src: seq<byte>, at: int)
    requires Following(sp, src, at)
    ensures UnitOk(src, at, Choose(src, at, sp.matchLength, sp.matchPosition))
    ensures sp.matchLength <= F && (sp.matchLength > 0 ==> 0 <= sp.matchPosition < N)
    ensures sp.textBuf.Length == N + F - 1 && 0 <= Cell(at) < N && sp.textBuf[Cell(at)] == src[at]
  {
    ChooseOk(src, at, sp.matchLength, sp.matchPosition);
    WindowByte(sp.Text(), src, ReadTo(src, at), at, 0);
  }

  lemma CodingCode(out: seq<byte>, start: int, d: int, code: seq<byte>, ptr: int, mask: int,
                   src: seq<byte>, sent: seq<Unit>, g: seq<Unit>, at: int)
    requires Coding(out, start, d, code, ptr, mask, src, sent, g, at)
    ensures Grouped(code, ptr, mask, g) && |code| == 17
  {
  }

  /** Chooses the unit at offset `at` by the match found there and puts it into the code buffer. */
  method Pick(sp: EncodeState, codeBuf: array<byte>, ptr: int, mask: int, len: int, r: int,
              ghost src: seq<byte>, ghost at: int, ghost out: seq<byte>, ghost start: int, ghost d: int,
              ghost sent: seq<Unit>, ghost g: seq<Unit>)
    returns (ptr': int, mask': int, ghost u: Unit)
    requires Following(sp, src, at) && len == ReadTo(src, at) - at && r == Cell(at)
    requires Coding(out, start, d, codeBuf[..], ptr, mask, src, sent, g, at) && |g| < GROUP
    requires codeBuf != sp.textBuf && codeBuf as object !in {sp.lchild as object, sp.rchild, sp.parent}
    modifies sp`matchLength, codeBuf
    ensures Standing(sp, src, at)
    ensures Coding(out, start, d, codeBuf[..], ptr', mask', src, sent, g + [u], at + u.Length())
    ensures sp.matchLength == u.Length() && 1 <= u.Length() <= len
  {
    hide Cell, Indexed, UnitOk, UnitsOk, TotalLength, Pack, Grouped, MatchAt;
    PickOk(sp, src, at);
    CodingCode(out, start, d, codeBuf[..], ptr, mask, src, sent, g, at);
    u := Choose(src, at, sp.matchLength, sp.matchPosition);
    ghost var code := codeBuf[..];
    // The match may be spuriously long near the end of the text.
    if sp.matchLength > len {
      sp.matchLength := len;
    }
    ptr', mask' := AddUnit(codeBuf, ptr, mask, sp.textBuf[r], sp.matchLength, sp.matchPosition, g);
    if sp.matchLength <= THRESHOLD {
      sp.matchLength := 1;
    }
    CodingAdded(out, start, d, code, ptr, mask, src, sent, g, at, u, codeBuf[..], ptr', mask');
  }

  /**
   * Compresses the text into dst[start..start + dstlen].  It fails on the empty text, and when the
   * code of the units chosen does not fit; otherwise what it leaves decodes to the text, for every
   * content of the cells a decoder does not initialise, and the units are the longest there are.
   */
  method Compress(dst: array<byte>, start: int, dstlen: int, src: seq<byte>)
    returns (end: Option<int>, ghost us: seq<Unit>)
    requires 0 <= start <= dst.Length && 0 <= dstlen
    requires start + dstlen <= dst.Length || start + Bound(|src|) <= dst.Length
    modifies dst
    ensures UnitsOk(src, us) && |Pack(us)| <= Bound(|src|)
    ensures end.None? <==> src == [] || dstlen < |Pack(us)|
    ensures end.Some? ==> TotalLength(us) == |src|
    ensures end.Some? ==> start <= end.value <= dst.Length && dst[start..end.value] == Pack(us)
    ensures end.Some? ==> forall junk: seq<byte> | |junk| == F :: Decoded(dst[start..end.value], junk) == src
    ensures forall x | 0 <= x < dst.Length && !(start <= x < start + |Pack(us)|) :: dst[x] == old(dst[x])
  {
    hide Cell, Coding, Following, Standing, Indexed, MatchAt, UnitsOk, TotalLength, Pack, PackGroup, Grouped, Decoded,
      Bound;
    us := [];
    if src == [] {
      CodingStart(dst[..], start, seq(17, _ => 0), src);
      return None, [];
    }
    var limit := start + dstlen;
    var codeBuf := new byte[17](_ => 0);
    var ptr, mask, d := 1, 1, start;
    ghost var sent: seq<Unit>, g: seq<Unit>, at := [], [], 0;
    CodingStart(dst[..], start, codeBuf[..], src);
    var sp, len, s, r := Begin(src);
    var k := len;
    while len > 0
      invariant k == ReadTo(src, at) && len == k - at && s == Cell(at + F) && r == Cell(at)
      invariant 0 <= at <= |src| && (at < |src| ==> Following(sp, src, at))
      invariant Coding(dst[..], start, d, codeBuf[..], ptr, mask, src, sent, g, at) && |g| < GROUP
      invariant us == sent + g && d <= dst.Length && (d <= limit || d == start)
      invariant forall x | 0 <= x < dst.Length && !(start <= x < d) :: dst[x] == old(dst[x])
      invariant fresh(sp) && fresh(sp.lchild) && fresh(sp.rchild) && fresh(sp.parent) && fresh(sp.textBuf)
      invariant codeBuf != sp.textBuf && codeBuf as object !in {sp.lchild as object, sp.rchild, sp.parent}
        && codeBuf.Length == 17
      decreases |src| - at
    {
      ghost var u;
      ptr, mask, u := Pick(sp, codeBuf, ptr, mask, len, r, src, at, dst[..], start, d, sent, g);
      g, us := g + [u], us + [u];
      ghost var at' := at + u.Length();
      CodingSize(dst[..], start, d, codeBuf[..], ptr, mask, src, sent, g, at');
      assert us == sent + g;
      if mask == 0 {
        ghost var out, code := dst[..], codeBuf[..];
        var d', ok := Send(dst, d, limit, codeBuf, ptr);
        if !ok {
          return None, us;
        }
        codeBuf[0] := 0;
        CodingFresh(out, dst[..], start, d, d', code, ptr, mask, src, sent, g, at', codeBuf[..]);
        sent, g := us, [];
        ptr, mask, d := 1, 1, d';
      }
      k, len, s, r := Advance(sp, sp.matchLength, src, k, len, s, r, at);
      at := at';
    }
    CodingSize(dst[..], start, d, codeBuf[..], ptr, mask, src, sent, g, at);
    if ptr > 1 {
      ghost var out := dst[..];
      var d', ok := Send(dst, d, limit, codeBuf, ptr);
      if !ok {
        return None, us;
      }
      CodingSent(out, dst[..], start, d, d', codeBuf[..], ptr, mask, src, sent, g, at);
      d := d';
    }
    CodingDone(dst[..], start, d, src, us);
    end := Some(d);
  }
}
