/** The concrete cases exercised by the repository's unit tests, stated as
    lemmas about the model. */
module Scenarios {
  import opened Outcomes
  import opened Trees
  import opened TreeLists
  import opened Frequency
  import opened Huffman

  /** `[a, b, c, ...]` as a cons list. */
  function FromSeq(s: seq<HTree>): (l: HTList)
    ensures Elems(l) == s
  {
    if |s| == 0 then Empty else HTLNode(s[0], FromSeq(s[1..]))
  }

  lemma CntFreqScenario()
    ensures var f := CntFreq("aaaAAA8");
      f['a' as int] == 3 && f['A' as int] == 3 && f['8' as int] == 1
  {
    var s := "aaaAAA8";
    var m := multiset(s);
    assert m == multiset{'a', 'a', 'a', 'A', 'A', 'A', '8'};
    assert m['a'] == 3 && m['A'] == 3 && m['8'] == 1;
  }

  lemma CntFreqAbsentScenario()
    ensures forall c :: 0 <= c < AlphabetSize && (c as char) !in "aaaAAA8" ==> CntFreq("aaaAAA8")[c] == 0
    ensures forall c :: 0 <= c < AlphabetSize ==> CntFreq("")[c] == 0
  {
  }

  lemma TreeLtScenario()
    ensures TreeLt(HLeaf(5, 'a'), HLeaf(10, 'b')) && !TreeLt(HLeaf(10, 'b'), HLeaf(5, 'a'))
    ensures TreeLt(HLeaf(10, 'a'), HLeaf(10, 'b')) && !TreeLt(HLeaf(10, 'b'), HLeaf(10, 'a'))
    ensures TreeLt(HLeaf(5, 'z'), HNode(10, 'a', HLeaf(5, 'a'), HLeaf(5, 'b')))
    ensures !TreeLt(HLeaf(10, 'a'), HLeaf(10, 'a'))
  {
  }

  lemma ListScenario()
    ensures var l := FromSeq([HLeaf(3, 'a'), HLeaf(5, 'b'), HLeaf(14, 'c'), HLeaf(8, 'd'), HLeaf(4, ' ')]);
      && ListLen(l) == 5
      && ListRef(l, 2) == Ok(HLeaf(14, 'c'))
      && ListRef(l, 5) == Err(IndexOutOfBounds)
    ensures ListLen(Empty) == 0
  {
  }

  lemma InsertScenario()
    ensures TreeListInsert(FromSeq([HLeaf(6, ' '), HLeaf(7, 'a')]), HLeaf(13, ' '))
         == FromSeq([HLeaf(6, ' '), HLeaf(7, 'a'), HLeaf(13, ' ')])
    ensures TreeListInsert(FromSeq([HLeaf(7, 'a'), HLeaf(13, ' ')]), HLeaf(6, ' '))
         == FromSeq([HLeaf(6, ' '), HLeaf(7, 'a'), HLeaf(13, ' ')])
  {
  }

  lemma SortScenario()
    ensures InitialTreeSort(FromSeq([HLeaf(3, 'a'), HLeaf(5, 'b'), HLeaf(14, 'c'), HLeaf(8, 'd'), HLeaf(4, ' ')]))
         == FromSeq([HLeaf(3, 'a'), HLeaf(4, ' '), HLeaf(5, 'b'), HLeaf(8, 'd'), HLeaf(14, 'c')])
  {
  }

  lemma CoalesceOnceScenario()
    ensures var r := CoalesceOnce(FromSeq([HLeaf(3, 'a'), HLeaf(4, 'b'), HLeaf(10, 'c')]));
      r.Ok? && r.value.tree.count == 7 && r.value.rest.tree.count == 10
    ensures CoalesceOnce(FromSeq([HLeaf(3, 'a')])) == Err(TooFewElements)
  {
    var l := FromSeq([HLeaf(3, 'a'), HLeaf(4, 'b'), HLeaf(10, 'c')]);
    assert l == HTLNode(HLeaf(3, 'a'), HTLNode(HLeaf(4, 'b'), HTLNode(HLeaf(10, 'c'), Empty)));
  }

  lemma CoalesceAllScenario()
    ensures var r := CoalesceAll(FromSeq([HLeaf(3, 'a'), HLeaf(4, 'b'), HLeaf(10, 'c')]));
      r.Some? && r.value.HNode? && r.value.count == 17 && r.value.character == 'a'
    ensures CoalesceAll(Empty) == None
  {
    var s := [HLeaf(3, 'a'), HLeaf(4, 'b'), HLeaf(10, 'c')];
    assert s[1..][1..] == [HLeaf(10, 'c')];
    assert TotalCount(s) == 17;
    assert LowestChar(s) == 'a';
  }

  /** Even the empty string yields a tree: a node of count 0 over all 256 zero-count leaves. */
  lemma EmptyStringScenario()
    ensures StringToHTree("").Some?
    ensures StringToHTree("").value.count == 0
  {
  }
}
