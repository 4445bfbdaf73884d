# Huffman tree construction, modelled in Dafny

This project models the Huffman-tree construction pipeline of `main.py`:

1. `cnt_freq` counts a 256-entry character histogram.
2. `base_tree_list` turns the histogram into a cons list of 256 leaves, one per code point.
3. `tree_lt`, `tree_list_insert` and `initial_tree_sort` insertion-sort that list by count, then by character.
4. `coalesce_helper`, `coalesce_once` and `coalesce_all` merge the two front trees until one tree is left.
5. `string_to_HTree` composes these steps.

The Python dataclasses `HLeaf`/`HNode` become the datatype `Trees.HTree`.
The cons list `HTLNode`/`None` becomes `TreeLists.HTList` (`Empty` for `None`).
Python characters are Dafny `char`s, compared by code point as Python compares one-character strings.
Occurrence counts are `int`, as annotated in the source.
The `ValueError`s raised by `list_ref` and `coalesce_once` become `Outcomes.Result.Err` values carrying the source's messages.
The `None` returned by `coalesce_all` for an empty list becomes `Outcomes.Option.None`.

Every list operation is related to `TreeLists.Elems`, the sequence of trees a list holds.
Three summaries of a sequence of trees carry the pipeline's invariants:
- `TotalCount`: the sum of the counts.
- `LowestChar`: the smallest character.
- `LeafBag`: the multiset of all leaves.
`WellFormed` says that every node's count is the sum of its children's counts and its character is the smaller of theirs.
`WellFormedSummarises` shows that such a tree's count and character summarise its leaves.

One behaviour of the code is easy to miss, and the model follows it.
`base_tree_list` always creates all 256 leaves, including zero-count ones (main.py:90-96).
So `string_to_HTree` returns a tree for every input, the empty string included; it is never an absent tree.
Its root is always a node whose character is code point 0.
Its count is the number of input characters with code point at most 255, which is 0 for the empty string.
Likewise, "root count equals input length" holds for all inputs whose characters are all at most 255, not only non-empty ones.

Modules: `Outcomes` (outcomes.dfy), `Trees` (trees.dfy), `TreeLists` (tree_lists.dfy), `Frequency` (frequency.dfy), `Huffman` (huffman.dfy), and `Scenarios` (scenarios.dfy, the cases of the repository's unit tests).

## Model

| member | source | states |
|---|---|---|
| Trees.TreeLtIsStrictOrder | main.py:51-60 | `tree_lt` is irreflexive, asymmetric and transitive over all trees |
| Trees.TreeLtTies | main.py:51-60 | two trees are incomparable exactly when they have equal count and equal character, so a smaller count wins and equal counts fall back to the character |
| Trees.WellFormedSummarises | main.py:124-127 | in a tree built only by merging, the root count is the total of the leaf counts and the root character is the lowest leaf character |
| Trees.CoalesceHelperSummarises | main.py:124-127 | the merged node has the leaves of the first tree followed by those of the second; merging two well-formed trees gives a well-formed tree whose count is their leaves' total and whose character is their leaves' lowest |
| TreeLists.ListLen | main.py:64-69 | the length is the number of trees in the list |
| TreeLists.ListRef | main.py:73-81 | succeeds exactly when 0 <= idx < length and then returns the idx-th tree; otherwise fails with "index out of bounds", negative indices included |
| TreeLists.SortedIsPairwise | main.py:101-111 | "no tree is `tree_lt` its predecessor" is equivalent to "no later tree is `tree_lt` any earlier one" |
| TreeLists.TreeListInsert | main.py:101-111 | the result is one longer, holds exactly the old trees plus `t`, starts with `t` or the old head, and is sorted when the input is sorted |
| TreeLists.TreeListInsertPlacement | main.py:101-111 | the result is the old list with `t` spliced in at some position k, with no earlier tree greater than `t` and the tree at k greater than `t`; so `t` goes after trees equal to it and the rest keep their order |
| TreeLists.TreeListInsertTotal | main.py:101-111 | insertion adds `t`'s count to the list's total count |
| TreeLists.TreeListInsertLeaves | main.py:101-111 | insertion adds `t`'s leaves to the list's leaves |
| TreeLists.TreeListInsertLowest | main.py:101-111 | after insertion the lowest character is the smaller of the old lowest and `t`'s character |
| TreeLists.InitialTreeSort | main.py:114-120 | the result has the same length, is a permutation of the input, and is sorted |
| TreeLists.InitialTreeSortTotal | main.py:114-120 | sorting keeps the total count |
| TreeLists.InitialTreeSortLeaves | main.py:114-120 | sorting keeps the multiset of leaves |
| Frequency.CntFreq | main.py:36-44 | the histogram has 256 entries and entry c is the number of occurrences of code point c; characters above 255 have no entry |
| Frequency.CntFreqSum | main.py:36-44 | the entries add up to the number of input characters with code point at most 255 |
| Frequency.CntFreqSumOfByteText | main.py:36-44 | when every character is at most 255, the entries add up to the input length |
| Huffman.PrependLeaves | main.py:88-96 | after the loop has run down to code point 0, the list holds the leaves for code points 0..n-1, in order, in front of the accumulated list |
| Huffman.BaseTreeList | main.py:87-98 | the list has 256 trees and tree i is the leaf with count freq[i] and character chr(i) |
| Huffman.BaseTreeListRef | main.py:233-258 | `list_ref` on the base list returns the leaf of code point i for 0 <= i < 256 and is out of bounds elsewhere |
| Huffman.BaseTreeListSummaries | main.py:87-98 | the base list's total count is the histogram's sum, its leaves are its own trees, all well formed, and its lowest character is chr(0) |
| Huffman.CoalesceOnce | main.py:133-139 | fails with "List must have at least 2 elements" exactly when fewer than two trees; otherwise the result is one shorter, holds the rest plus the merge of the two front trees, and stays sorted |
| Huffman.CoalesceOnceTotal | main.py:133-139 | one merge keeps the total count |
| Huffman.CoalesceOnceLeaves | main.py:133-139 | one merge keeps the multiset of leaves |
| Huffman.CoalesceOnceLowest | main.py:133-139 | one merge keeps the lowest character |
| Huffman.CoalesceOnceWellFormed | main.py:133-139 | one merge of well-formed trees leaves only well-formed trees |
| Huffman.CoalesceAll | main.py:143-148 | no tree for the empty list; the tree itself for a one-tree list; otherwise a node whose count is the list's total count, whose character is its lowest character, whose leaves are all the list's leaves, and which is well formed when the list's trees are |
| Huffman.SortedBaseList | main.py:152-156 | the sorted base list of a text has total count equal to the counted characters, exactly the 256 histogram leaves, only well-formed trees, and lowest character chr(0) |
| Huffman.StringToHTree | main.py:152-157 | for every text there is a tree; it is a well-formed node with count equal to the number of characters at most 255 and character chr(0); its 256 leaves are the leaves (count of c, c) for every code point c below 256 |
| Scenarios.CntFreqScenario | main.py:217-222 | the histogram of "aaaAAA8" has 3 at 'a', 3 at 'A' and 1 at '8' |
| Scenarios.CntFreqAbsentScenario | main.py:213-223 | every other entry of that histogram is 0, and the empty string gives all zeros |
| Scenarios.TreeLtScenario | main.py:296-318 | the comparisons of the `tree_lt` test, including a leaf against a node and identical trees |
| Scenarios.ListScenario | main.py:225-231 | the length and indexing cases of the list tests, plus an out-of-bounds index |
| Scenarios.InsertScenario | main.py:260-269 | both insertion cases of the insertion test |
| Scenarios.SortScenario | main.py:271-272 | the first sorting case of the sorting test |
| Scenarios.CoalesceOnceScenario | main.py:275-282 | merging [3a, 4b, 10c] gives counts 7 then 10; a one-tree list is refused |
| Scenarios.CoalesceAllScenario | main.py:284-294 | merging [3a, 4b, 10c] to the end gives a node of count 17 and character 'a'; the empty list gives no tree |
| Scenarios.EmptyStringScenario | main.py:151-157 | the empty string still yields a tree, of count 0 |

## Left out

- The `unittest` class and the `__main__` entry (main.py:160-322) are test scaffolding. Their cases appear only as the `Scenarios` lemmas.
- `sys.setrecursionlimit` (main.py:6) sets the interpreter's stack depth and has no meaning in the model.
- The unreachable `return htree` after the match in `list_ref` (main.py:83) names an undefined variable and can never run.
- Huffman.BaseTreeList: requires a histogram of at least 256 entries. On a shorter list Python raises an uncaught `IndexError` at `list[i]`; the model does not represent that crash. Entries beyond 256 are ignored, as in the source.
- Python strings may hold lone surrogate code points, which Dafny's `char` cannot. Those characters are above 255, so `cnt_freq` skips them and nothing observable is lost.
- `tree_lt` compares characters with `<` on strings and `coalesce_helper` uses `min` on strings. Both are modelled for one-character strings only, which is all the pipeline ever creates.
- Nothing is proved about optimality of the resulting code lengths; the source states no such property.
- The code-table builder and the bit packer are not part of this model: no such code is in `main.py`.
- The source's promise that `tree_list_insert` does not mutate its input needs no proof: the model's lists are immutable values.
