/**
 * Pairing opening and closing tags: what one closing tag is paired with, and the state this works on.
 * A tag is its name and its number in the document.
 */
module HtmlTags {
  import opened Basics

  datatype Tag = Tag(name: string, id: nat)

  /** Listed by strictly increasing number. */
  ghost predicate Sorted(ts: seq<Tag>) {
    forall i, j | 0 <= i < j < |ts| :: ts[i].id < ts[j].id
  }

  ghost function Elems(ts: seq<Tag>): set<Tag> {
    set t | t in ts
  }

  /** The tags of a name, in order. */
  function ByName(ts: seq<Tag>, name: string): (r: seq<Tag>)
    ensures forall t :: t in r <==> t in ts && t.name == name
  {
    if ts == [] then []
    else
      var last := ts[|ts| - 1];
      assert ts == ts[..|ts| - 1] + [last];
      ByName(ts[..|ts| - 1], name) + if last.name == name then [last] else []
  }

  /** The list without the first tag of that number. */
  function RemoveId(ts: seq<Tag>, id: nat): seq<Tag> {
    if ts == [] then []
    else if ts[0].id == id then ts[1..]
    else [ts[0]] + RemoveId(ts[1..], id)
  }

  lemma {:induction false} ByNameSorted(ts: seq<Tag>, name: string)
    requires Sorted(ts)
    ensures Sorted(ByName(ts, name))
  {
    if ts != [] {
      var init, last := ts[..|ts| - 1], ts[|ts| - 1];
      ByNameSorted(init, name);
      var r := ByName(init, name);
      forall i | 0 <= i < |r| ensures r[i].id < last.id {
        assert r[i] in init;
      }
    }
  }

  lemma {:induction false} RemoveIdElems(ts: seq<Tag>, t: Tag)
    requires Sorted(ts) && t in ts
    ensures Elems(RemoveId(ts, t.id)) == Elems(ts) - {t}
  {
    var rest := ts[1..];
    assert ts == [ts[0]] + rest;
    assert forall i | 0 <= i < |rest| :: ts[0].id < rest[i].id;
    if ts[0].id == t.id {
      assert ts[0] == t;
      assert t !in rest;
    } else {
      assert t in rest;
      RemoveIdElems(rest, t);
      var r := RemoveId(rest, t.id);
      forall x ensures x in Elems([ts[0]] + r) <==> x in Elems(ts) - {t} {
        assert x in Elems(r) <==> x in Elems(rest) - {t};
      }
    }
  }

  lemma {:induction false} RemoveIdSorted(ts: seq<Tag>, t: Tag)
    requires Sorted(ts) && t in ts
    ensures Sorted(RemoveId(ts, t.id)) && Elems(RemoveId(ts, t.id)) == Elems(ts) - {t}
  {
    RemoveIdElems(ts, t);
    if ts[0].id != t.id {
      var rest := ts[1..];
      assert ts == [ts[0]] + rest;
      RemoveIdSorted(rest, t);
      var r := RemoveId(rest, t.id);
      forall i | 0 <= i < |r| ensures ts[0].id < r[i].id {
        assert r[i] in Elems(r);
        assert r[i] in rest;
      }
    }
  }

  lemma {:induction false} RemoveIdMultiset(ts: seq<Tag>, t: Tag)
    requires Sorted(ts) && t in ts
    ensures multiset(RemoveId(ts, t.id)) == multiset(ts) - multiset{t}
  {
    var rest := ts[1..];
    assert ts == [ts[0]] + rest;
    assert multiset(ts) == multiset{ts[0]} + multiset(rest);
    if ts[0].id == t.id {
      assert ts[0] == t;
    } else {
      assert t in rest;
      RemoveIdMultiset(rest, t);
    }
  }

  // ---------- the partner of a closing tag ----------

  /** The last opening tag of the name before c. */
  ghost predicate LastBefore(os: set<Tag>, o: Tag, c: Tag) {
    && o in os && o.name == c.name && o.id < c.id
    && (forall p <- os :: p.name == c.name && p.id < c.id ==> p.id <= o.id)
  }

  /** An opening tag of the name is still to come after c. */
  ghost predicate MoreAfter(os: set<Tag>, c: Tag) {
    exists p :: p in os && p.name == c.name && p.id > c.id
  }

  ghost predicate OnlyOne(os: set<Tag>, o: Tag) {
    forall p <- os :: p.name == o.name ==> p == o
  }

  /**
   * What the code pairs c with: the last opening tag of the name before it, but only if one comes
   * after c too or if it is the only one.
   */
  ghost predicate Pairs(os: set<Tag>, o: Tag, c: Tag) {
    LastBefore(os, o, c) && (MoreAfter(os, c) || OnlyOne(os, o))
  }

  /** The search through the opening tags of the name, from the k-th on. */
  function Partner(os: seq<Tag>, c: Tag, k: nat): Option<Tag>
    requires k <= |os|
    decreases |os| - k
  {
    if k == |os| then None
    else if os[k].id > c.id then if k == 0 then None else Some(os[k - 1])
    else if |os| == 1 then Some(os[k])
    else Partner(os, c, k + 1)
  }

  lemma {:induction false} PartnerFrom(os: seq<Tag>, c: Tag, k: nat)
    requires Sorted(os) && (forall o <- os :: o.name == c.name && o.id != c.id) && k <= |os|
    requires forall i | 0 <= i < k :: os[i].id < c.id
    requires |os| == 1 ==> k == 0
    ensures match Partner(os, c, k)
      case Some(o) => Pairs(Elems(os), o, c)
      case None => forall o :: !Pairs(Elems(os), o, c)
    decreases |os| - k
  {
    if k == |os| {
      if |os| >= 2 { assert os[0] != os[1] && os[0] in Elems(os) && os[1] in Elems(os); }
    } else {
      assert os[k] in os;
      if os[k].id > c.id {
        assert os[k] in Elems(os);
        if k > 0 {
          assert os[k - 1] in Elems(os);
        }
      } else if |os| > 1 {
        PartnerFrom(os, c, k + 1);
      }
    }
  }

  // ---------- the state ----------

  datatype State = State(opens: seq<Tag>, closes: seq<Tag>, pairs: seq<(Tag, Tag)>)

  /** One closing tag: paired if the code finds it a partner, left where it is if not. */
  function Step(st: State, c: Tag): State {
    match Partner(ByName(st.opens, c.name), c, 0)
    case Some(o) => State(RemoveId(st.opens, o.id), RemoveId(st.closes, c.id), st.pairs + [(o, c)])
    case None => st
  }

  /** The closing tags cs one after the other. */
  function Pass(st: State, cs: seq<Tag>): State
    decreases |cs|
  {
    if cs == [] then st else Pass(Step(st, cs[0]), cs[1..])
  }

  /** One call of CombineTags: all closing tags of the name of the first one. */
  function Combine(st: State): State {
    if st.opens == [] || st.closes == [] then st
    else Pass(st, ByName(st.closes, st.closes[0].name))
  }

  /** The two lists are sorted and share no number. */
  ghost predicate Valid(st: State) {
    && Sorted(st.opens) && Sorted(st.closes)
    && (forall o, c | o in st.opens && c in st.closes :: o.id != c.id)
  }

  /** c has been paired with o. */
  ghost predicate Paired(st: State, c: Tag, o: Tag, st': State) {
    && o in st.opens && c in st.closes && Pairs(Elems(st.opens), o, c)
    && Elems(st'.opens) == Elems(st.opens) - {o}
    && Elems(st'.closes) == Elems(st.closes) - {c}
    && multiset(st'.opens) == multiset(st.opens) - multiset{o}
    && multiset(st'.closes) == multiset(st.closes) - multiset{c}
    && st'.pairs == st.pairs + [(o, c)]
  }

  /** A step either pairs c, or finds no partner and changes nothing. */
  lemma StepPairs(st: State, c: Tag) returns (paired: bool, o: Tag)
    requires Valid(st) && c in st.closes
    ensures Valid(Step(st, c))
    ensures paired ==> Paired(st, c, o, Step(st, c))
    ensures !paired ==> Step(st, c) == st && forall p :: !Pairs(Elems(st.opens), p, c)
  {
    var os := ByName(st.opens, c.name);
    ByNameSorted(st.opens, c.name);
    PartnerFrom(os, c, 0);
    ByNamePairs(st.opens, c);
    o := c;
    match Partner(os, c, 0) {
      case Some(p) =>
        paired, o := true, p;
        RemoveIdSorted(st.opens, o);
        RemoveIdSorted(st.closes, c);
        RemoveIdMultiset(st.opens, o);
        RemoveIdMultiset(st.closes, c);
        assert forall x :: x in Step(st, c).opens <==> x in Elems(Step(st, c).opens);
        assert forall x :: x in Step(st, c).closes <==> x in Elems(Step(st, c).closes);
      case None =>
        paired := false;
    }
  }

  /** Tags of other names do not matter. */
  lemma ByNamePairs(os: seq<Tag>, c: Tag)
    ensures forall o :: Pairs(Elems(ByName(os, c.name)), o, c) <==> Pairs(Elems(os), o, c)
  {
    var a, b := Elems(ByName(os, c.name)), Elems(os);
    forall o ensures Pairs(a, o, c) <==> Pairs(b, o, c) {
      if MoreAfter(b, c) {
        var p :| p in b && p.name == c.name && p.id > c.id;
        assert p in a;
      }
      if LastBefore(b, o, c) { assert o in a; }
    }
  }
}
