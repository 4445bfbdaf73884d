/** Huffman trees (`HLeaf` / `HNode`), the `tree_lt` order between them,
    and the merge of two trees into one (`coalesce_helper`). */
module Trees {

  /** A Huffman tree. Every tree carries an occurrence count and a character:
      for a leaf, the symbol and how often it occurs; for a node, the sum of
      its children's counts and the smaller of their characters. Characters are
      single Python characters, compared by code point. */
  datatype HTree =
    | HLeaf(count: int, character: char)
    | HNode(count: int, character: char, left: HTree, right: HTree)

  /** Python's `min` on two one-character strings. */
  function Min(a: char, b: char): char
  {
    if a <= b then a else b
  }

  /** `tree_lt`: a smaller count wins; equal counts fall back to the character. */
  predicate TreeLt(a: HTree, b: HTree)
  {
    if a.count < b.count then true
    else if a.count == b.count then a.character < b.character
    else false
  }

  /** `tree_lt` is a strict order: irreflexive, asymmetric and transitive. */
  lemma TreeLtIsStrictOrder()
    ensures forall a: HTree :: !TreeLt(a, a)
    ensures forall a: HTree, b: HTree :: TreeLt(a, b) ==> !TreeLt(b, a)
    ensures forall a: HTree, b: HTree, c: HTree :: TreeLt(a, b) && TreeLt(b, c) ==> TreeLt(a, c)
  {
  }

  /** Two trees are incomparable under `tree_lt` exactly when they agree on
      both count and character, so the order is total on those two keys. */
  lemma TreeLtTies(a: HTree, b: HTree)
    ensures !TreeLt(a, b) && !TreeLt(b, a) <==> a.count == b.count && a.character == b.character
  {
  }

  /** "Not less than" is transitive, which lets adjacent sortedness extend to all pairs. */
  lemma NotTreeLtTransitive(a: HTree, b: HTree, c: HTree)
    requires !TreeLt(b, a) && !TreeLt(c, b)
    ensures !TreeLt(c, a)
  {
  }

  /** The leaves of a tree, left to right. */
  function Leaves(t: HTree): (ls: seq<HTree>)
    ensures |ls| > 0
    ensures forall i :: 0 <= i < |ls| ==> ls[i].HLeaf?
  {
    match t
    case HLeaf(_, _) => [t]
    case HNode(_, _, l, r) => Leaves(l) + Leaves(r)
  }

  /** A tree built only by merging: every node's count is the sum of its
      children's counts and its character the smaller of theirs. */
  predicate WellFormed(t: HTree)
  {
    match t
    case HLeaf(_, _) => true
    case HNode(n, c, l, r) =>
      && n == l.count + r.count
      && c == Min(l.character, r.character)
      && WellFormed(l)
      && WellFormed(r)
  }

  /** The sum of the counts of a sequence of trees. */
  function TotalCount(s: seq<HTree>): int
  {
    if |s| == 0 then 0 else s[0].count + TotalCount(s[1..])
  }

  /** The smallest character among a non-empty sequence of trees. */
  function LowestChar(s: seq<HTree>): char
    requires |s| > 0
  {
    if |s| == 1 then s[0].character else Min(s[0].character, LowestChar(s[1..]))
  }

  /** `LowestChar` is the character of some tree of the sequence and no tree has a smaller one. */
  lemma {:induction false} LowestCharIsLowest(s: seq<HTree>)
    requires |s| > 0
    ensures exists i :: 0 <= i < |s| && s[i].character == LowestChar(s)
    ensures forall i :: 0 <= i < |s| ==> LowestChar(s) <= s[i].character
  {
    if |s| > 1 {
      LowestCharIsLowest(s[1..]);
      assert forall i :: 1 <= i < |s| ==> s[i] == s[1..][i - 1];
      var j :| 0 <= j < |s[1..]| && s[1..][j].character == LowestChar(s[1..]);
      if s[0].character <= LowestChar(s[1..]) {
        assert s[0].character == LowestChar(s);
      } else {
        assert s[j + 1].character == LowestChar(s);
      }
    } else {
      assert s[0].character == LowestChar(s);
    }
  }

  /** Reordering a sequence does not change its lowest character. */
  lemma LowestCharPermutation(s: seq<HTree>, s': seq<HTree>)
    requires |s| > 0
    requires multiset(s) == multiset(s')
    ensures |s'| > 0
    ensures LowestChar(s) == LowestChar(s')
  {
    assert s[0] in multiset(s');
    LowestCharIsLowest(s);
    LowestCharIsLowest(s');
    var i :| 0 <= i < |s| && s[i].character == LowestChar(s);
    var j :| 0 <= j < |s'| && s'[j].character == LowestChar(s');
    assert s[i] in multiset(s');
    var i' :| 0 <= i' < |s'| && s'[i'] == s[i];
    assert s'[j] in multiset(s);
    var j' :| 0 <= j' < |s| && s[j'] == s'[j];
  }

  /** All the leaves of a sequence of trees, as a multiset. */
  function LeafBag(s: seq<HTree>): multiset<HTree>
  {
    if |s| == 0 then multiset{} else multiset(Leaves(s[0])) + LeafBag(s[1..])
  }

  /** How the three summaries of a sequence extend by one tree at the front. */
  lemma SummariesCons(h: HTree, s: seq<HTree>)
    ensures TotalCount([h] + s) == h.count + TotalCount(s)
    ensures LeafBag([h] + s) == multiset(Leaves(h)) + LeafBag(s)
    ensures |s| > 0 ==> LowestChar([h] + s) == Min(h.character, LowestChar(s))
  {
    assert ([h] + s)[1..] == s;
  }

  lemma {:induction false} TotalCountAppend(a: seq<HTree>, b: seq<HTree>)
    ensures TotalCount(a + b) == TotalCount(a) + TotalCount(b)
    decreases |a|
  {
    if |a| == 0 {
      assert a + b == b;
    } else {
      assert (a + b)[1..] == a[1..] + b;
      TotalCountAppend(a[1..], b);
    }
  }

  lemma {:induction false} LowestCharAppend(a: seq<HTree>, b: seq<HTree>)
    requires |a| > 0 && |b| > 0
    ensures LowestChar(a + b) == Min(LowestChar(a), LowestChar(b))
  {
    var ab := a + b;
    LowestCharIsLowest(ab);
    LowestCharIsLowest(a);
    LowestCharIsLowest(b);
    var m, ma, mb := LowestChar(ab), LowestChar(a), LowestChar(b);
    var i :| 0 <= i < |a| && a[i].character == ma;
    var j :| 0 <= j < |b| && b[j].character == mb;
    assert ab[i] == a[i];
    assert ab[|a| + j] == b[j];
    assert m <= ma && m <= mb;
    var k :| 0 <= k < |ab| && ab[k].character == m;
    if k < |a| {
      assert ab[k] == a[k];
      assert ma <= m;
    } else {
      assert ab[k] == b[k - |a|];
      assert mb <= m;
    }
  }

  /** A well-formed tree's count is the total of its leaves' counts and its
      character is the lowest character among its leaves. */
  lemma {:induction false} WellFormedSummarises(t: HTree)
    requires WellFormed(t)
    ensures t.count == TotalCount(Leaves(t))
    ensures t.character == LowestChar(Leaves(t))
  {
    match t
    case HLeaf(_, _) =>
    case HNode(_, _, l, r) =>
      WellFormedSummarises(l);
      WellFormedSummarises(r);
      TotalCountAppend(Leaves(l), Leaves(r));
      LowestCharAppend(Leaves(l), Leaves(r));
  }

  /** `coalesce_helper`: one new node over the two given trees. */
  function CoalesceHelper(a: HTree, b: HTree): HTree
  {
    HNode(a.count + b.count, Min(a.character, b.character), a, b)
  }

  /** Merging keeps both trees' leaves, left then right; merging two
      well-formed trees gives a well-formed tree, whose count and character
      therefore summarise all of its leaves. */
  lemma CoalesceHelperSummarises(a: HTree, b: HTree)
    ensures Leaves(CoalesceHelper(a, b)) == Leaves(a) + Leaves(b)
    ensures WellFormed(a) && WellFormed(b) ==>
      && WellFormed(CoalesceHelper(a, b))
      && CoalesceHelper(a, b).count == TotalCount(Leaves(a) + Leaves(b))
      && CoalesceHelper(a, b).character == LowestChar(Leaves(a) + Leaves(b))
  {
    if WellFormed(a) && WellFormed(b) {
      WellFormedSummarises(CoalesceHelper(a, b));
    }
  }
}
