/** The parser's lists of tags: filling them, pairing them, and sorting the pairs. */
module HtmlParser {
  import opened Basics
  import opened HtmlTags
  import opened HtmlPairing
  import opened HtmlMatching
  import opened HtmlEnding
  import opened HtmlSorting
  import HtmlNumbering

  class Parser {
    var openingTags: seq<Tag>
    var closingTags: seq<Tag>
    var completeTags: seq<(Tag, Tag)>
    var sortedTags: seq<(Tag, Tag)>
    var numberOfTags: nat

    ghost function Lists(): State
      reads this
    {
      State(openingTags, closingTags, completeTags)
    }

    /**
     * Tags are numbered in the order they come, no number twice; the lists keep that order, and what is
     * in the list of pairs nests.
     */
    ghost predicate Numbered()
      reads this
    {
      HtmlNumbering.Numbered(Lists(), numberOfTags)
    }

    constructor ()
      ensures Numbered() && Lists() == State([], [], []) && sortedTags == []
    {
      openingTags, closingTags, completeTags, sortedTags, numberOfTags := [], [], [], [], 0;
      HtmlNumbering.FirstNumbered();
    }

    /** A tag that opens, or one complete in itself, which is a pair with itself. */
    method AddOpeningTag(name: string, complete: bool)
      requires Numbered()
      modifies this
      ensures Numbered() && numberOfTags == old(numberOfTags) + 1 && sortedTags == old(sortedTags)
      ensures var t := Tag(name, old(numberOfTags));
        Lists() == if complete then old(Lists()).(pairs := old(completeTags) + [(t, t)])
                   else old(Lists()).(opens := old(openingTags) + [t])
    {
      hide HtmlNumbering.Numbered;
      var node := Tag(name, numberOfTags);
      HtmlNumbering.CompleteNumbered(Lists(), node);
      HtmlNumbering.OpeningNumbered(Lists(), node);
      numberOfTags := numberOfTags + 1;
      if complete {
        completeTags := completeTags + [(node, node)];
      } else {
        openingTags := openingTags + [node];
      }
    }

    method AddClosingTag(name: string)
      requires Numbered()
      modifies this
      ensures Numbered() && numberOfTags == old(numberOfTags) + 1 && sortedTags == old(sortedTags)
      ensures Lists() == old(Lists()).(closes := old(closingTags) + [Tag(name, old(numberOfTags))])
    {
      hide HtmlNumbering.Numbered;
      var node := Tag(name, numberOfTags);
      HtmlNumbering.ClosingNumbered(Lists(), node);
      numberOfTags := numberOfTags + 1;
      closingTags := closingTags + [node];
    }

    method RemoveOpeningTag(tagId: nat)
      modifies this`openingTags
      ensures openingTags == RemoveId(old(openingTags), tagId)
    {
      for i := 0 to |openingTags|
        invariant openingTags == old(openingTags)
        invariant RemoveId(openingTags, tagId) == openingTags[..i] + RemoveId(openingTags[i..], tagId)
      {
        if openingTags[i].id == tagId {
          openingTags := openingTags[..i] + openingTags[i + 1..];
          return;
        }
      }
    }

    method RemoveClosingTag(tagId: nat)
      modifies this`closingTags
      ensures closingTags == RemoveId(old(closingTags), tagId)
    {
      for i := 0 to |closingTags|
        invariant closingTags == old(closingTags)
        invariant RemoveId(closingTags, tagId) == closingTags[..i] + RemoveId(closingTags[i..], tagId)
      {
        if closingTags[i].id == tagId {
          closingTags := closingTags[..i] + closingTags[i + 1..];
          return;
        }
      }
    }

    method GetAllOpeningTagsByName(tagName: string) returns (allTags: seq<Tag>)
      ensures allTags == ByName(openingTags, tagName)
    {
      allTags := [];
      for i := 0 to |openingTags|
        invariant allTags == ByName(openingTags[..i], tagName)
      {
        assert openingTags[..i + 1][..i] == openingTags[..i];
        if openingTags[i].name == tagName {
          allTags := allTags + [openingTags[i]];
        }
      }
      assert openingTags[..|openingTags|] == openingTags;
    }

    method GetAllClosingTagsByName(tagName: string) returns (allTags: seq<Tag>)
      ensures allTags == ByName(closingTags, tagName)
    {
      allTags := [];
      for i := 0 to |closingTags|
        invariant allTags == ByName(closingTags[..i], tagName)
      {
        assert closingTags[..i + 1][..i] == closingTags[..i];
        if closingTags[i].name == tagName {
          allTags := allTags + [closingTags[i]];
        }
      }
      assert closingTags[..|closingTags|] == closingTags;
    }

    /** The search of one closing tag through the opening tags of its name, and the pairing it leads to. */
    method PairOne(closingTag: Tag)
      modifies this`openingTags, this`closingTags, this`completeTags
      ensures Lists() == Step(old(Lists()), closingTag)
    {
      var openingTagsOfType := GetAllOpeningTagsByName(closingTag.name);
      var prevOpeningTag: Option<Tag> := None;
      for k := 0 to |openingTagsOfType|
        invariant Lists() == old(Lists())
        invariant prevOpeningTag == if k == 0 then None else Some(openingTagsOfType[k - 1])
        invariant Partner(openingTagsOfType, closingTag, 0) == Partner(openingTagsOfType, closingTag, k)
      {
        var currOpeningTag := openingTagsOfType[k];
        if currOpeningTag.id > closingTag.id {
          if prevOpeningTag == None {
            return;
          }
          completeTags := completeTags + [(prevOpeningTag.value, closingTag)];
          RemoveOpeningTag(prevOpeningTag.value.id);
          RemoveClosingTag(closingTag.id);
          return;
        } else if |openingTagsOfType| == 1 {
          completeTags := completeTags + [(currOpeningTag, closingTag)];
          RemoveOpeningTag(currOpeningTag.id);
          RemoveClosingTag(closingTag.id);
          return;
        }
        prevOpeningTag := Some(currOpeningTag);
      }
    }

    /** Pairs the closing tags of the name of the first one; tells whether opening tags are left. */
    method CombineTags() returns (result: int)
      requires openingTags == [] || closingTags != []
      modifies this`openingTags, this`closingTags, this`completeTags
      ensures Lists() == Combine(old(Lists()))
      ensures result == if openingTags == [] then 0 else 1
      ensures old(Numbered()) ==> Numbered()
    {
      hide HtmlNumbering.Numbered;
      if Numbered() { HtmlNumbering.CombineNumbered(Lists(), numberOfTags); }
      if |openingTags| == 0 {
        return 0;
      }
      var node := closingTags[0];
      var closingTagsOfType := GetAllClosingTagsByName(node.name);
      for i := 0 to |closingTagsOfType|
        invariant Pass(Lists(), closingTagsOfType[i..]) == Combine(old(Lists()))
      {
        assert closingTagsOfType[i..][1..] == closingTagsOfType[i + 1..];
        PairOne(closingTagsOfType[i]);
      }
      if |openingTags| == 0 {
        return 0;
      }
      return 1;
    }

    /** The loop over CombineTags: it ends with all opening tags paired, each with the closing tag that closes it. */
    method PairAllTags()
      requires Numbered() && WillEnd(State(openingTags, closingTags, []))
      modifies this`openingTags, this`closingTags, this`completeTags
      ensures Numbered() && openingTags == []
      ensures Elems(closingTags) == old(Idle(State(openingTags, closingTags, [])))
      ensures old(completeTags) <= completeTags
      ensures Matching(PairSet(completeTags[|old(completeTags)|..]), Elems(old(openingTags)),
        Elems(old(closingTags)) - Elems(closingTags))
    {
      hide Matching, PairSet, Safe, Valid, Run, WillEnd, Useful, Combine, HtmlNumbering.Numbered;
      HtmlNumbering.NumberedBelow(Lists(), numberOfTags);
      ghost var st, base := State(openingTags, closingTags, []), completeTags;
      ghost var k: nat, now := 0, st;
      RunNothing(st, base);
      var result := 1;
      while result > 0
        invariant now == Run(st, k) && Valid(now) && WillEnd(now) && Idle(now) == Idle(st)
          && Lists() == After(base, now)
        invariant result > 0 || openingTags == []
        invariant Numbered()
        decreases result, |openingTags|
      {
        if now.opens == [] {
          CombineNothing(now);
        } else {
          CombineEnds(now);
          IdleStays(now);
        }
        CombineAfter(base, now);
        RunStep(st, k);
        now, k := Combine(now), k + 1;
        result := CombineTags();
      }
      IdleLeft(now);
      UnpairedSafe(st);
      RunPairs(st, k);
      assert completeTags[|base|..] == now.pairs;
    }

    /** The first of the complete tags with the least number. */
    method FirstLeast() returns (currMin: nat)
      requires completeTags != []
      ensures currMin < |completeTags|
      ensures forall k | 0 <= k < |completeTags| :: completeTags[currMin].0.id <= completeTags[k].0.id
      ensures forall k | 0 <= k < currMin :: completeTags[currMin].0.id < completeTags[k].0.id
    {
      var minTagId := completeTags[0].0.id;
      currMin := 0;
      for i := 0 to |completeTags|
        invariant currMin < |completeTags| && (currMin < i || i == 0 == currMin)
          && minTagId == completeTags[currMin].0.id
        invariant forall k | 0 <= k < i :: minTagId <= completeTags[k].0.id
        invariant forall k | 0 <= k < currMin :: minTagId < completeTags[k].0.id
      {
        if completeTags[i].0.id < minTagId {
          minTagId := completeTags[i].0.id;
          currMin := i;
        }
      }
    }

    /** Moves the first pair with the least number behind the sorted ones. */
    method MoveFirstLeast() returns (ghost m: nat)
      requires completeTags != []
      modifies this`completeTags, this`sortedTags
      ensures m < |old(completeTags)|
      ensures forall k | 0 <= k < |old(completeTags)| :: old(completeTags)[m].0.id <= old(completeTags)[k].0.id
      ensures sortedTags == old(sortedTags) + [old(completeTags)[m]]
      ensures completeTags == old(completeTags)[..m] + old(completeTags)[m + 1..]
    {
      var currMin := FirstLeast();
      m := currMin;
      var currNodes := completeTags[currMin];
      sortedTags := sortedTags + [currNodes];
      completeTags := completeTags[..currMin] + completeTags[currMin + 1..];
    }

    /** Moves the pairs, least number first, behind the sorted ones, until as many are sorted as there were to sort. */
    method SortTagsById()
      requires |sortedTags| <= |completeTags|
      modifies this`completeTags, this`sortedTags
      ensures |sortedTags| == |old(completeTags)| && old(sortedTags) <= sortedTags
      ensures multiset(sortedTags) + multiset(completeTags) == multiset(old(sortedTags)) + multiset(old(completeTags))
      ensures Ascending(sortedTags[|old(sortedTags)|..])
      ensures Below(sortedTags[|old(sortedTags)|..], completeTags)
      ensures old(sortedTags) == [] && (old(Numbered()) || DistinctFirsts(old(completeTags))) ==>
        completeTags == [] && multiset(sortedTags) == multiset(old(completeTags)) && StrictlyAscending(sortedTags)
      ensures old(sortedTags) == [] && old(Numbered()) ==> Numbered()
    {
      hide Ascending, Below, Divided, DistinctFirsts, StrictlyAscending, HtmlNumbering.Numbered;
      HtmlNumbering.SortingNumbered(Lists(), numberOfTags);
      var listSize := |completeTags|;
      ghost var base, all, moved := sortedTags, completeTags, [];
      assert base + moved == base;
      NoneMoved(completeTags);
      while |sortedTags| != listSize
        invariant sortedTags == base + moved && |sortedTags| <= listSize
        invariant |moved| + |completeTags| == listSize
        invariant Ascending(moved) && Below(moved, completeTags) && Divided(all, moved, completeTags)
        decreases listSize - |sortedTags|
      {
        ghost var rest := completeTags;
        ghost var m := MoveFirstLeast();
        MoveLeast(all, moved, rest, m);
        assert base + moved + [rest[m]] == base + (moved + [rest[m]]);
        moved := moved + [rest[m]];
      }
      assert sortedTags[|base|..] == moved;
      DividedBehind(base, all, moved, completeTags);
      if base == [] && DistinctFirsts(all) {
        assert sortedTags == moved;
        SortedStrictly(moved, all);
      }
    }

    /** Pairing and then sorting: what was paired and what was complete in itself, strictly in order. */
    method PairAndSort() returns (ghost made: seq<(Tag, Tag)>)
      requires Numbered() && sortedTags == [] && WillEnd(State(openingTags, closingTags, []))
      modifies this`openingTags, this`closingTags, this`completeTags, this`sortedTags
      ensures Numbered() && openingTags == [] && completeTags == []
      ensures Elems(closingTags) == old(Idle(State(openingTags, closingTags, [])))
      ensures Matching(PairSet(made), Elems(old(openingTags)), Elems(old(closingTags)) - Elems(closingTags))
      ensures multiset(sortedTags) == multiset(old(completeTags)) + multiset(made)
      ensures StrictlyAscending(sortedTags)
    {
      hide Matching, PairSet, Idle, WillEnd, StrictlyAscending, DistinctFirsts, HtmlNumbering.Numbered;
      ghost var base := completeTags;
      PairAllTags();
      made := completeTags[|base|..];
      assert completeTags == base + made;
      SortTagsById();
    }
  }
}
