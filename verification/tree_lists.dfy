/** The cons list of Huffman trees (`HTLNode` / `None`) with its length,
    indexing, ordered insertion and insertion sort. */
module TreeLists {
  import opened Outcomes
  import opened Trees

  /** `HTList`: `Empty` is Python's `None`, `HTLNode` one cons cell. */
  datatype HTList = Empty | HTLNode(tree: HTree, rest: HTList)

  /** The trees of a list, front to back. */
  function Elems(l: HTList): seq<HTree>
  {
    match l
    case Empty => []
    case HTLNode(t, r) => [t] + Elems(r)
  }

  /** `list_len`: the number of cons cells. */
  function ListLen(l: HTList): (n: nat)
    ensures n == |Elems(l)|
  {
    match l
    case Empty => 0
    case HTLNode(_, r) => 1 + ListLen(r)
  }

  /** `list_ref`: the tree at position `idx`, or the "index out of bounds"
      error once the list runs out (which is also where a negative index ends up). */
  function ListRef(l: HTList, idx: int): (r: Result<HTree>)
    ensures r.Ok? <==> 0 <= idx < |Elems(l)|
    ensures r.Ok? ==> r.value == Elems(l)[idx]
    ensures r.Err? ==> r.error == IndexOutOfBounds
  {
    match l
    case Empty => Err(IndexOutOfBounds)
    case HTLNode(t, rest) => if idx == 0 then Ok(t) else ListRef(rest, idx - 1)
  }

  /** Sorted in the sense the Python code keeps: no tree is `tree_lt` its predecessor. */
  predicate Sorted(s: seq<HTree>)
  {
    forall i :: 0 < i < |s| ==> !TreeLt(s[i], s[i - 1])
  }

  /** Every tree of the sequence is well formed. */
  predicate AllWellFormed(s: seq<HTree>)
  {
    forall t :: t in s ==> WellFormed(t)
  }

  lemma SortedCons(h: HTree, s: seq<HTree>)
    ensures Sorted([h] + s) <==> Sorted(s) && (|s| > 0 ==> !TreeLt(s[0], h))
  {
    var hs := [h] + s;
    assert forall i :: 0 < i < |hs| ==> hs[i] == s[i - 1];
    if Sorted(hs) {
      forall i | 0 < i < |s|
        ensures !TreeLt(s[i], s[i - 1])
      {
        assert hs[i + 1] == s[i] && hs[i] == s[i - 1];
      }
      if |s| > 0 {
        assert hs[1] == s[0] && hs[0] == h;
      }
    }
  }

  lemma {:induction false} SortedPair(s: seq<HTree>, i: int, j: int)
    requires Sorted(s)
    requires 0 <= i <= j < |s|
    ensures !TreeLt(s[j], s[i])
    decreases j - i
  {
    if i < j {
      SortedPair(s, i, j - 1);
      NotTreeLtTransitive(s[i], s[j - 1], s[j]);
    }
  }

  /** Adjacent sortedness is the same as sortedness of every pair. */
  lemma SortedIsPairwise(s: seq<HTree>)
    ensures Sorted(s) <==> forall i, j :: 0 <= i < j < |s| ==> !TreeLt(s[j], s[i])
  {
    if Sorted(s) {
      forall i, j | 0 <= i < j < |s|
        ensures !TreeLt(s[j], s[i])
      {
        SortedPair(s, i, j);
      }
    }
  }

  /** `tree_list_insert`: a new list with `t` placed before the first tree it
      is `tree_lt` to, that is after every tree it is not smaller than. */
  function TreeListInsert(l: HTList, t: HTree): (r: HTList)
    ensures r.HTLNode?
    ensures |Elems(r)| == |Elems(l)| + 1
    ensures multiset(Elems(r)) == multiset(Elems(l)) + multiset{t}
    ensures r.tree == t || (l.HTLNode? && r.tree == l.tree)
    ensures Sorted(Elems(l)) ==> Sorted(Elems(r))
  {
    match l
    case Empty => HTLNode(t, Empty)
    case HTLNode(h, rest) =>
      if TreeLt(t, h) then
        TreeLtIsStrictOrder();
        SortedCons(t, Elems(l));
        HTLNode(t, l)
      else
        var r' := TreeListInsert(rest, t);
        SortedCons(h, Elems(rest));
        SortedCons(h, Elems(r'));
        HTLNode(h, r')
  }

  /** `t` lands at position `k` of `s`, everything else keeping its order,
      with no tree before `k` greater than `t` and the tree at `k` greater than `t`. */
  ghost predicate InsertedAt(s: seq<HTree>, t: HTree, k: int, r: seq<HTree>)
  {
    && 0 <= k <= |s|
    && r == s[..k] + [t] + s[k..]
    && (forall j :: 0 <= j < k ==> !TreeLt(t, s[j]))
    && (k < |s| ==> TreeLt(t, s[k]))
  }

  /** Where `tree_list_insert` puts the new tree: the rest of the list is
      unchanged and in order, and `t` goes after any tree with the same count
      and character. */
  lemma {:induction false} TreeListInsertPlacement(l: HTList, t: HTree)
    ensures exists k :: InsertedAt(Elems(l), t, k, Elems(TreeListInsert(l, t)))
  {
    match l
    case Empty =>
      assert Elems(TreeListInsert(l, t)) == [t];
      assert InsertedAt(Elems(l), t, 0, Elems(TreeListInsert(l, t)));
    case HTLNode(h, rest) =>
      if TreeLt(t, h) {
        assert Elems(l)[0] == h;
        assert Elems(TreeListInsert(l, t)) == [t] + Elems(l);
        InsertedAtFront(Elems(l), t);
      } else {
        TreeListInsertPlacement(rest, t);
        var k :| InsertedAt(Elems(rest), t, k, Elems(TreeListInsert(rest, t)));
        InsertedAtCons(h, Elems(rest), t, k, Elems(TreeListInsert(rest, t)));
        assert InsertedAt(Elems(l), t, k + 1, Elems(TreeListInsert(l, t)));
      }
  }

  lemma InsertedAtFront(s: seq<HTree>, t: HTree)
    requires |s| > 0 && TreeLt(t, s[0])
    ensures InsertedAt(s, t, 0, [t] + s)
  {
    assert s[..0] == [] && s[0..] == s;
  }

  lemma InsertedAtCons(h: HTree, s: seq<HTree>, t: HTree, k: int, r: seq<HTree>)
    requires InsertedAt(s, t, k, r) && !TreeLt(t, h)
    ensures InsertedAt([h] + s, t, k + 1, [h] + r)
  {
    var hs := [h] + s;
    calc {
      [h] + r;
      [h] + (s[..k] + [t] + s[k..]);
      ([h] + s[..k]) + [t] + s[k..];
      { assert hs[..k + 1] == [h] + s[..k]; assert hs[k + 1..] == s[k..]; }
      hs[..k + 1] + [t] + hs[k + 1..];
    }
    forall j | 0 <= j < k + 1
      ensures !TreeLt(t, hs[j])
    {
      if j > 0 {
        assert hs[j] == s[j - 1];
      }
    }
    if k + 1 < |hs| {
      assert hs[k + 1] == s[k];
    }
  }

  /** Insertion adds `t`'s count to the total count of the list. */
  lemma {:induction false} TreeListInsertTotal(l: HTList, t: HTree)
    ensures TotalCount(Elems(TreeListInsert(l, t))) == TotalCount(Elems(l)) + t.count
  {
    match l
    case Empty =>
      assert Elems(TreeListInsert(l, t)) == [t] + [];
      SummariesCons(t, []);
    case HTLNode(h, rest) =>
      if TreeLt(t, h) {
        assert Elems(TreeListInsert(l, t)) == [t] + Elems(l);
        SummariesCons(t, Elems(l));
      } else {
        var r' := TreeListInsert(rest, t);
        TreeListInsertTotal(rest, t);
        assert Elems(TreeListInsert(l, t)) == [h] + Elems(r');
        SummariesCons(h, Elems(r'));
        SummariesCons(h, Elems(rest));
      }
  }

  /** Insertion adds `t`'s leaves to the leaves of the list. */
  lemma {:induction false} TreeListInsertLeaves(l: HTList, t: HTree)
    ensures LeafBag(Elems(TreeListInsert(l, t))) == LeafBag(Elems(l)) + multiset(Leaves(t))
  {
    var T := multiset(Leaves(t));
    match l
    case Empty =>
      assert Elems(TreeListInsert(l, t)) == [t] + [];
      SummariesCons(t, []);
    case HTLNode(h, rest) =>
      if TreeLt(t, h) {
        calc {
          LeafBag(Elems(TreeListInsert(l, t)));
          { assert Elems(TreeListInsert(l, t)) == [t] + Elems(l); }
          LeafBag([t] + Elems(l));
          { SummariesCons(t, Elems(l)); }
          T + LeafBag(Elems(l));
        }
      } else {
        var r' := TreeListInsert(rest, t);
        var H := multiset(Leaves(h));
        calc {
          LeafBag(Elems(TreeListInsert(l, t)));
          { assert Elems(TreeListInsert(l, t)) == [h] + Elems(r'); }
          LeafBag([h] + Elems(r'));
          { SummariesCons(h, Elems(r')); }
          H + LeafBag(Elems(r'));
          { TreeListInsertLeaves(rest, t); }
          H + (LeafBag(Elems(rest)) + T);
          (H + LeafBag(Elems(rest))) + T;
          { SummariesCons(h, Elems(rest)); }
          LeafBag(Elems(l)) + T;
        }
      }
  }

  /** Insertion lowers the lowest character of the list to `t`'s if that is smaller. */
  lemma TreeListInsertLowest(l: HTList, t: HTree)
    ensures LowestChar(Elems(TreeListInsert(l, t)))
         == if l.Empty? then t.character else Min(LowestChar(Elems(l)), t.character)
  {
    var s := Elems(l) + [t];
    assert multiset(s) == multiset(Elems(l)) + multiset{t};
    LowestCharPermutation(s, Elems(TreeListInsert(l, t)));
    if l.Empty? {
      assert s == [t];
    } else {
      LowestCharAppend(Elems(l), [t]);
    }
  }

  /** `initial_tree_sort`: insertion sort, each tree inserted into the sorted rest. */
  function InitialTreeSort(l: HTList): (r: HTList)
    ensures |Elems(r)| == |Elems(l)|
    ensures multiset(Elems(r)) == multiset(Elems(l))
    ensures Sorted(Elems(r))
  {
    match l
    case Empty => Empty
    case HTLNode(h, rest) => TreeListInsert(InitialTreeSort(rest), h)
  }

  /** Sorting keeps the total count of the list. */
  lemma {:induction false} InitialTreeSortTotal(l: HTList)
    ensures TotalCount(Elems(InitialTreeSort(l))) == TotalCount(Elems(l))
  {
    match l
    case Empty =>
    case HTLNode(h, rest) =>
      InitialTreeSortTotal(rest);
      TreeListInsertTotal(InitialTreeSort(rest), h);
      SummariesCons(h, Elems(rest));
  }

  /** Sorting keeps the leaves of the list. */
  lemma {:induction false} InitialTreeSortLeaves(l: HTList)
    ensures LeafBag(Elems(InitialTreeSort(l))) == LeafBag(Elems(l))
  {
    match l
    case Empty =>
    case HTLNode(h, rest) =>
      InitialTreeSortLeaves(rest);
      TreeListInsertLeaves(InitialTreeSort(rest), h);
      SummariesCons(h, Elems(rest));
  }

  /** A permutation of well-formed trees holds only well-formed trees. */
  lemma AllWellFormedPermutation(s: seq<HTree>, s': seq<HTree>, extra: multiset<HTree>)
    requires multiset(s') == multiset(s) + extra
    requires AllWellFormed(s)
    requires forall t :: t in extra ==> WellFormed(t)
    ensures AllWellFormed(s')
  {
    forall t | t in s'
      ensures WellFormed(t)
    {
      assert t in multiset(s');
    }
  }
}
