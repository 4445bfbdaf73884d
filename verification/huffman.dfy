/** The Huffman construction pipeline: the 256-leaf base list, the greedy
    merge of the two front trees, and `string_to_HTree`, which composes
    counting, listing, sorting and merging. */
module Huffman {
  import opened Outcomes
  import opened Trees
  import opened TreeLists
  import opened Frequency

  /** The leaves for code points 0..n-1, in order. */
  function LeavesUpTo(freq: seq<int>, n: nat): (s: seq<HTree>)
    requires n <= AlphabetSize <= |freq|
  {
    seq(n, i requires 0 <= i < n => HLeaf(freq[i], i as char))
  }

  /** The loop of `base_tree_list` after it has prepended the leaves for
      code points `n - 1` down to 0 onto `acc`. */
  function PrependLeaves(freq: seq<int>, n: nat, acc: HTList): (r: HTList)
    requires n <= AlphabetSize <= |freq|
    ensures Elems(r) == LeavesUpTo(freq, n) + Elems(acc)
  {
    if n == 0 then
      assert LeavesUpTo(freq, n) + Elems(acc) == Elems(acc);
      acc
    else
      var leaf := HLeaf(freq[n - 1], (n - 1) as char);
      var r := PrependLeaves(freq, n - 1, HTLNode(leaf, acc));
      assert LeavesUpTo(freq, n) == LeavesUpTo(freq, n - 1) + [leaf];
      assert Elems(r) == LeavesUpTo(freq, n - 1) + ([leaf] + Elems(acc));
      r
  }

  /** `base_tree_list`: one leaf per code point, in code-point order, carrying
      that code point's count (zero counts included). */
  function BaseTreeList(freq: seq<int>): (l: HTList)
    requires |freq| >= AlphabetSize
    ensures |Elems(l)| == AlphabetSize
    ensures forall i :: 0 <= i < AlphabetSize ==> Elems(l)[i] == HLeaf(freq[i], i as char)
  {
    var l := PrependLeaves(freq, AlphabetSize, Empty);
    assert Elems(l) == LeavesUpTo(freq, AlphabetSize) + [];
    l
  }

  /** Looking up position `i` of the base list gives the leaf for code point
      `i`; any other position is out of bounds. */
  lemma BaseTreeListRef(freq: seq<int>, i: int)
    requires |freq| >= AlphabetSize
    ensures 0 <= i < AlphabetSize ==> ListRef(BaseTreeList(freq), i) == Ok(HLeaf(freq[i], i as char))
    ensures !(0 <= i < AlphabetSize) ==> ListRef(BaseTreeList(freq), i) == Err(IndexOutOfBounds)
  {
  }

  lemma {:induction false} TotalCountIsSum(s: seq<HTree>, xs: seq<int>)
    requires |s| == |xs|
    requires forall i :: 0 <= i < |s| ==> s[i].count == xs[i]
    ensures TotalCount(s) == Sum(xs)
  {
    if |s| > 0 {
      TotalCountIsSum(s[1..], xs[1..]);
    }
  }

  lemma {:induction false} LeafBagOfLeaves(s: seq<HTree>)
    requires forall i :: 0 <= i < |s| ==> s[i].HLeaf?
    ensures LeafBag(s) == multiset(s)
  {
    if |s| > 0 {
      LeafBagOfLeaves(s[1..]);
      assert s == [s[0]] + s[1..];
    }
  }

  /** The base list's total count is the histogram's sum, its trees are
      exactly its leaves, all well formed, and its lowest character is code point 0. */
  lemma BaseTreeListSummaries(freq: seq<int>)
    requires |freq| >= AlphabetSize
    ensures TotalCount(Elems(BaseTreeList(freq))) == Sum(freq[..AlphabetSize])
    ensures LeafBag(Elems(BaseTreeList(freq))) == multiset(Elems(BaseTreeList(freq)))
    ensures AllWellFormed(Elems(BaseTreeList(freq)))
    ensures LowestChar(Elems(BaseTreeList(freq))) == 0 as char
  {
    var s := Elems(BaseTreeList(freq));
    TotalCountIsSum(s, freq[..AlphabetSize]);
    LeafBagOfLeaves(s);
    LowestCharIsLowest(s);
    assert s[0].character == 0 as char;
  }

  /** `coalesce_once`: merge the two front trees and insert the merged tree
      into the rest; a list with fewer than two trees is an error. */
  function CoalesceOnce(l: HTList): (r: Result<HTList>)
    ensures r.Err? <==> |Elems(l)| < 2
    ensures r.Err? ==> r.error == TooFewElements
    ensures r.Ok? ==> |Elems(r.value)| == |Elems(l)| - 1
    ensures r.Ok? ==>
      multiset(Elems(r.value)) == multiset(Elems(l)[2..]) + multiset{CoalesceHelper(Elems(l)[0], Elems(l)[1])}
    ensures r.Ok? && Sorted(Elems(l)) ==> Sorted(Elems(r.value))
  {
    if l.Empty? || l.rest.Empty? then Err(TooFewElements)
    else
      var merged := CoalesceHelper(l.tree, l.rest.tree);
      assert Elems(l)[2..] == Elems(l.rest.rest);
      SortedCons(l.tree, Elems(l.rest));
      SortedCons(l.rest.tree, Elems(l.rest.rest));
      Ok(TreeListInsert(l.rest.rest, merged))
  }

  /** One merge keeps the list's total count. */
  lemma CoalesceOnceTotal(l: HTList)
    requires |Elems(l)| >= 2
    ensures TotalCount(Elems(CoalesceOnce(l).value)) == TotalCount(Elems(l))
  {
    var a, b, rest := l.tree, l.rest.tree, l.rest.rest;
    TreeListInsertTotal(rest, CoalesceHelper(a, b));
    SummariesCons(a, Elems(l.rest));
    SummariesCons(b, Elems(rest));
  }

  /** One merge keeps the list's leaves. */
  lemma CoalesceOnceLeaves(l: HTList)
    requires |Elems(l)| >= 2
    ensures LeafBag(Elems(CoalesceOnce(l).value)) == LeafBag(Elems(l))
  {
    var a, b, rest := l.tree, l.rest.tree, l.rest.rest;
    TreeListInsertLeaves(rest, CoalesceHelper(a, b));
    CoalesceHelperSummarises(a, b);
    SummariesCons(a, Elems(l.rest));
    SummariesCons(b, Elems(rest));
  }

  /** One merge keeps the list's lowest character. */
  lemma CoalesceOnceLowest(l: HTList)
    requires |Elems(l)| >= 2
    ensures LowestChar(Elems(CoalesceOnce(l).value)) == LowestChar(Elems(l))
  {
    var a, b, rest := l.tree, l.rest.tree, l.rest.rest;
    assert Elems(l) == [a] + ([b] + Elems(rest));
    assert CoalesceOnce(l).value == TreeListInsert(rest, CoalesceHelper(a, b));
    LowestCharOfMerge(a, b, Elems(rest), Elems(CoalesceOnce(l).value));
  }

  lemma LowestCharOfMerge(a: HTree, b: HTree, tail: seq<HTree>, after: seq<HTree>)
    requires multiset(after) == multiset(tail) + multiset{CoalesceHelper(a, b)}
    ensures |after| > 0
    ensures LowestChar(after) == LowestChar([a] + ([b] + tail))
  {
    var merged := CoalesceHelper(a, b);
    assert |after| > 0 && LowestChar(after) == LowestChar(tail + [merged]) by {
      assert multiset(tail + [merged]) == multiset(after);
      LowestCharPermutation(tail + [merged], after);
    }
    LowestCharMergedLast(a, b, tail);
  }

  lemma LowestCharMergedLast(a: HTree, b: HTree, tail: seq<HTree>)
    ensures LowestChar(tail + [CoalesceHelper(a, b)]) == LowestChar([a] + ([b] + tail))
  {
    var merged := CoalesceHelper(a, b);
    if |tail| == 0 {
      calc {
        LowestChar(tail + [merged]);
        { assert tail + [merged] == [merged]; }
        LowestChar([merged]);
        Min(a.character, b.character);
        { assert [b] + tail == [b]; SummariesCons(a, [b]); }
        LowestChar([a] + ([b] + tail));
      }
    } else {
      calc {
        LowestChar(tail + [merged]);
        { LowestCharAppend(tail, [merged]); }
        Min(LowestChar(tail), Min(a.character, b.character));
        Min(a.character, Min(b.character, LowestChar(tail)));
        { SummariesCons(b, tail); }
        Min(a.character, LowestChar([b] + tail));
        { SummariesCons(a, [b] + tail); }
        LowestChar([a] + ([b] + tail));
      }
    }
  }

  /** One merge of well-formed trees leaves only well-formed trees. */
  lemma CoalesceOnceWellFormed(l: HTList)
    requires |Elems(l)| >= 2
    ensures AllWellFormed(Elems(l)) ==> AllWellFormed(Elems(CoalesceOnce(l).value))
  {
    if AllWellFormed(Elems(l)) {
      var a, b, rest := l.tree, l.rest.tree, l.rest.rest;
      assert a == Elems(l)[0] && b == Elems(l)[1];
      assert forall t :: t in Elems(rest) ==> t in Elems(l);
      CoalesceHelperSummarises(a, b);
      AllWellFormedPermutation(Elems(rest), Elems(CoalesceOnce(l).value), multiset{CoalesceHelper(a, b)});
    }
  }

  /** `coalesce_all`: merge until one tree is left. No tree for the empty
      list, the tree itself for a one-tree list, otherwise a node whose count
      is the total count and whose character is the lowest character of the
      list, with all the list's leaves. */
  function CoalesceAll(l: HTList): (r: Option<HTree>)
    ensures r.None? <==> l.Empty?
    ensures l.HTLNode? && l.rest.Empty? ==> r == Some(l.tree)
    ensures |Elems(l)| >= 2 ==> r.Some? && r.value.HNode?
    ensures r.Some? ==> r.value.count == TotalCount(Elems(l))
    ensures r.Some? ==> r.value.character == LowestChar(Elems(l))
    ensures r.Some? ==> multiset(Leaves(r.value)) == LeafBag(Elems(l))
    ensures r.Some? && AllWellFormed(Elems(l)) ==> WellFormed(r.value)
    decreases |Elems(l)|
  {
    if l.Empty? then None
    else if l.rest.Empty? then
      assert Elems(l) == [l.tree];
      SummariesCons(l.tree, []);
      Some(l.tree)
    else
      var l' := CoalesceOnce(l).value;
      CoalesceOnceTotal(l);
      CoalesceOnceLeaves(l);
      CoalesceOnceLowest(l);
      CoalesceOnceWellFormed(l);
      if l'.HTLNode? && l'.rest.Empty? then
        assert Elems(l') == [l'.tree];
        assert l'.tree in multiset(Elems(l'));
        CoalesceAll(l')
      else
        CoalesceAll(l')
  }

  /** The sorted base list of a histogram: its total count is the number of
      counted characters, its trees are its 256 leaves, all well formed, and
      its lowest character is code point 0. */
  lemma SortedBaseList(s: string)
    ensures var l := InitialTreeSort(BaseTreeList(CntFreq(s)));
      && TotalCount(Elems(l)) == |Bytes(s)|
      && LeafBag(Elems(l)) == multiset(Elems(BaseTreeList(CntFreq(s))))
      && AllWellFormed(Elems(l))
      && LowestChar(Elems(l)) == 0 as char
  {
    var freqs := CntFreq(s);
    var treeList := BaseTreeList(freqs);
    var sorted := InitialTreeSort(treeList);
    CntFreqSum(s);
    assert freqs[..AlphabetSize] == freqs;
    BaseTreeListSummaries(freqs);
    InitialTreeSortTotal(treeList);
    InitialTreeSortLeaves(treeList);
    LowestCharPermutation(Elems(treeList), Elems(sorted));
    AllWellFormedPermutation(Elems(treeList), Elems(sorted), multiset{});
  }

  /** `string_to_HTree`: histogram, base list, sort, merge. Because the base
      list always holds all 256 leaves, there is always a tree, and it is a node:
      its count is the number of characters with code point 0..255, its
      character is code point 0, and its leaves are the 256 histogram leaves. */
  function StringToHTree(s: string): (r: Option<HTree>)
    ensures r.Some? && r.value.HNode?
    ensures r.value.count == |Bytes(s)|
    ensures r.value.character == 0 as char
    ensures WellFormed(r.value)
    ensures |Leaves(r.value)| == AlphabetSize
    ensures forall c: char :: c as int < AlphabetSize ==> HLeaf(multiset(s)[c], c) in Leaves(r.value)
  {
    var freqs := CntFreq(s);
    var treeList := BaseTreeList(freqs);
    var sortedTreeList := InitialTreeSort(treeList);
    SortedBaseList(s);
    var r := CoalesceAll(sortedTreeList);
    HistogramLeaves(s, r.value, Elems(treeList));
    r
  }

  lemma HistogramLeaves(s: string, t: HTree, base: seq<HTree>)
    requires base == Elems(BaseTreeList(CntFreq(s)))
    requires multiset(Leaves(t)) == multiset(base)
    ensures |Leaves(t)| == AlphabetSize
    ensures forall c: char :: c as int < AlphabetSize ==> HLeaf(multiset(s)[c], c) in Leaves(t)
  {
    assert |Leaves(t)| == |multiset(Leaves(t))| == |base|;
    forall c: char | c as int < AlphabetSize
      ensures HLeaf(multiset(s)[c], c) in Leaves(t)
    {
      var i := c as int;
      assert base[i] == HLeaf(multiset(s)[c], c);
      assert base[i] in multiset(Leaves(t));
    }
  }
}
