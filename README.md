# dict-set: a verified model of the Aho–Corasick dictionary

The `dict-set` crate keeps a set of words in a trie (`DictSet`) and turns it
into an Aho–Corasick automaton. `link_suffixes` gives every node its
failure link, and `search` then reports every occurrence of every word in a
text in one pass. Its queue and stack are one singly linked list
(`LinkedList`).

The model has nine modules:

- `Wrappers`: `Option` and `Result`.
- `LinkedLists` (linked_list.dfy): `LinkedList` is a class with `head`, `tail`
  and `size` over heap cells (`ListNode`). The ghost `Contents` lists the data
  from head to tail. Methods change the cells in place, as `push`, `pop`,
  `append` and `clear` do.
- `DictNodes` (dict_node.dfy): the node record `DictNode`, its `Word` output,
  and the error enum.
- `Tries` (trie.dfy): the nodes live in an arena, a sequence indexed by node
  number, with the root at 0.
  - A child is an index in the node's map; `parent` and `suffix` links are
    optional indices.
  - `Find`, `Path`, `IsWord` and `WordSet` say what the trie spells.
  - `Valid` is the invariant every operation keeps.
- `TrieInsert` and `TrieRemove` (trie_insert.dfy, trie_remove.dfy): `insert`,
  `insert_all` and `remove` as functions on the arena, with their properties.
  They also hold the intended removal (see Findings).
- `AhoCorasick` (aho_corasick.dfy): the reference definitions.
  - `ExpectedSuffix` defines the failure link of a node: the longest proper
    suffix of its path that the trie spells.
  - `LinkedArena` is the arena after `link_suffixes`.
  - `Matches` lists what `search` reports: for each position of the text, the
    words ending there, longest first.
  - Lemmas tie the failure-link walks to these definitions.
- `SuffixLinks` (suffix_links.dfy): the invariants of the breadth-first pass
  of `link_suffixes`.
- `DictSets` (dict_set.dfy): `DictSet` is a class with the fields `nodes`
  (the arena) and `count`. Each method of the Rust `impl DictSet` is proved
  equal to the function that specifies it. `search` has two such functions:
  `Matches` once the trie is linked, and `UnlinkedMatches` before
  `link_suffixes` has given any node a failure link. On a trie changed
  after linking, only the soundness of its reports is proved (see Left out).
  - A Rust method with several loops is split into one Dafny method per loop
    or loop body: `Descend`, `Trace`, `Prune`, `LinkRootChildren`,
    `LinkNext`, `Turn`, `Advance`, `FallBack`, `ReportChain`.

Every path below is relative to the repository root.

## Model

| member | source | states |
|---|---|---|
| LinkedLists.ListNode.constructor | src/linked_list/node.rs:15-17 | a new cell holds the data and has no successor |
| LinkedLists.LinkedList.constructor | src/linked_list/list.rs:13-15 | a new list is valid and empty: no head, no tail, size 0 |
| LinkedLists.LinkedList.IsEmpty | src/linked_list/list.rs:16-18 | the list is empty exactly when it holds no elements |
| LinkedLists.LinkedList.Len | src/linked_list/list.rs:19-21 | the size field is the number of elements held |
| LinkedLists.LinkedList.IsFull | src/linked_list/list.rs:83-85 | a linked list is never full |
| LinkedLists.LinkedList.Peek | src/linked_list/list.rs:41-46 | `None` on an empty list, otherwise the first element; nothing changes |
| LinkedLists.LinkedList.Push | src/linked_list/list.rs:22-30 | the element goes in front of the old contents; size grows by one; the tail stays unless the list was empty; the cells still form one chain |
| LinkedLists.LinkedList.Pop | src/linked_list/list.rs:31-40 | on an empty list `None` and no change; otherwise the first element is returned and removed, size drops by one, and head and tail are cleared when the list becomes empty |
| LinkedLists.LinkedList.Append | src/linked_list/list.rs:47-56 | the element goes after the old contents and size grows by one; the cells still form one chain |
| LinkedLists.LinkedList.Clear | src/linked_list/list.rs:57-61 | the list becomes empty and valid |
| LinkedLists.LinkedList.Offer | src/linked_list/list.rs:113-115 | `Queue::offer` appends at the back |
| LinkedLists.LinkedList.Poll | src/linked_list/list.rs:116-118 | `Queue::poll` takes from the front, `None` when empty |
| LinkedLists.StackIsLifo | src/linked_list/list.rs:79-98 | on any valid list, `pop` after `push(x)` returns `x` and restores the old contents |
| LinkedLists.QueueIsFifo | src/linked_list/list.rs:100-119 | after `offer(x)` on any queue holding `c`, polling returns the elements of `c` in order, then `x`, and leaves the queue empty |
| DictNodes.DictNode.New | src/dict/node.rs:32-40 | a new node has the given state, output `No`, no parent or suffix link, and no children |
| DictNodes.DictNode.Root | src/dict/node.rs:44-48 | the root has state NUL, output `Root`, no links and no children |
| DictNodes.DictNode.GetChild | src/dict/node.rs:63-68 | the child for `c` exactly when the node has one, `None` otherwise |
| DictNodes.DictNode.GetChildren | src/dict/node.rs:69-71 | the set of the node's children: the values of its map, no more and no less |
| DictNodes.DictNode.WithChild | src/dict/node.rs:61 | inserting into the child map sets the entry for `c` and keeps every other entry and field |
| DictNodes.DictNode.TryParent | src/dict/node.rs:130-140 | `ParseWeakError` exactly when there is no parent link, otherwise the parent |
| DictNodes.DictNode.TrySuffix | src/dict/node.rs:141-151 | `ParseWeakError` exactly when there is no failure link, otherwise its target |
| Tries.Empty | src/dict/dict_set.rs:33-38 | the trie of the root alone is valid, spells only the empty string, holds no word and has no failure link |
| Tries.AddChild | src/dict/node.rs:58-62 | one new node, state `c`, output `No`, no children, whose parent is `p`; `p` gains the entry `c` and keeps its other entries; no other node changes |
| Tries.ValidAddChild | src/dict/dict_set.rs:53-54 | adding a child keeps the trie valid and the new node's path is the parent's path plus `c` |
| Tries.FindAddChild | src/dict/dict_set.rs:53-56 | after adding the child `c` of `p`, exactly one more string is spelled, `Path(p) + [c]`, and it leads to the new node |
| Tries.RemoveChild | src/dict/dict_set.rs:90-93 | removing the entry `c` of `p` changes that one entry and no other node |
| Tries.ValidRemoveChild | src/dict/dict_set.rs:90-93 | removing an entry keeps the trie valid and changes no parent or suffix link |
| Tries.FindRemoveEdge | src/dict/dict_set.rs:90-93 | after the edge is removed, the strings through it are no longer spelled and every other descent is unchanged |
| Tries.WordSetIsWords | src/dict/dict_set.rs:159-164 | the set of words is exactly the strings whose node has output `Yes` |
| TrieInsert.Walk | src/dict/dict_set.rs:49-59 | the descent along `w` that adds missing children keeps the trie valid and ends at the node of `w` |
| TrieInsert.WalkFacts | src/dict/dict_set.rs:49-59 | the descent only adds spellings along `w`; when `w` is already spelled, it changes nothing |
| TrieInsert.WalkWords | src/dict/dict_set.rs:49-59 | the descent marks and unmarks no word |
| TrieInsert.Mark | src/dict/dict_set.rs:60-65 | setting output `Yes(w)` on the node of `w` adds exactly the word `w`, with no descent changed and no failure link added |
| TrieInsert.Insert | src/dict/dict_set.rs:48-66 | afterwards the words are the old ones plus `w` (if `w` is non-empty) and the spelled strings grow by the prefixes of `w`; the counter flag is set exactly when `w` is new and non-empty; otherwise nothing changes; a trie without failure links keeps none |
| TrieInsert.InsertWordSet | src/dict/dict_set.rs:60-65 | the set of words grows by `w` exactly when the counter is incremented, so its size grows by that increment |
| TrieInsert.InsertIdempotent | src/dict/dict_set.rs:48-66 | inserting a word twice equals inserting it once, with no second increment; inserting the empty word changes nothing |
| TrieInsert.InsertAll | src/dict/dict_set.rs:67-71 | folding `insert` over the words keeps the trie valid, and keeps a trie without failure links without them |
| TrieInsert.InsertAllWords | src/dict/dict_set.rs:67-71 | after `insert_all(ws)`, the words are the old ones and the non-empty members of `ws` |
| TrieInsert.InsertAllCount | src/dict/dict_set.rs:67-71 | the counter grows by the number of distinct non-empty new words, which is also how much the set of words grows |
| TrieInsert.BuildCount | src/dict/dict_set.rs:39-47 | for `aho_corasick(ws)`, `word_count` is the number of distinct non-empty words of `ws`, which equals the size of the set of words |
| TrieRemove.PathStack | src/dict/dict_set.rs:76-83 | the stack pushed while descending `w` has one entry per character |
| TrieRemove.PathStackPop | src/dict/dict_set.rs:87-88 | popping the stack of `w[..j]` yields the node of `w[..j]`, whose parent is the node of `w[..j - 1]`, and leaves the stack of `w[..j - 1]` |
| TrieRemove.Unmark | src/dict/dict_set.rs:84-85 | setting output `No` on node `k` removes exactly the word of `k`, changes no descent and adds no failure link |
| TrieRemove.PruneDepth | src/dict/dict_set.rs:87-96 | the prune loop stops at the deepest position whose parent is the root or a word, and at none deeper |
| TrieRemove.Cut | src/dict/dict_set.rs:87-96 | removing the edge into the node of `w[..d]` unspells exactly the strings with prefix `w[..d]` and removes exactly the words among them; no failure link is added |
| TrieRemove.Remove | src/dict/dict_set.rs:72-100 | `DictSetError` with no change when `w` is not spelled; `Ok` with no change when it is spelled but is not a word; for a word, `Ok` and `w` is no longer a word; no word, no spelling and no failure link is ever added |
| TrieRemove.RemoveInner | src/dict/dict_set.rs:84-86 | a word whose node has children only loses its mark: the same strings are spelled and only `w` stops being a word |
| TrieRemove.RemovePruned | src/dict/dict_set.rs:86-96 | for a word whose node has no children, the removal is the cut at the prune depth: it unspells every string with prefix `w[..d]` and drops every word among them |
| TrieRemove.LosesSibling | src/dict/dict_set.rs:87-96 | when the prune loop reaches depth one, every word sharing `w`'s first character is lost |
| TrieRemove.RemoveLosesSibling | src/dict/dict_set.rs:87-96 | in the dictionary {"abc", "abd"}, removing "abc" also removes "abd" |
| TrieRemove.RemovePrefixOk | src/dict/dict_set.rs:84-99 | in the dictionary {"ab"}, removing the non-word "a" returns `Ok` |
| TrieRemove.RemoveKeepsCount | src/dict/dict_set.rs:84-98 | inserting "a" into the empty trie increments the counter, and removing "a" then leaves no word; `DictSets.DictSet.Remove` keeps the counter as it was |
| TrieRemove.CutDepth | src/dict/dict_set.rs:87-96 | the corrected prune loop also stops at a parent with more than one child: the deepest such position, and none deeper |
| TrieRemove.CutKeepsWords | src/dict/dict_set.rs:87-96 | cutting at the corrected depth below an unmarked leaf keeps every word |
| TrieRemove.WordSetWithout | src/dict/dict_set.rs:84-85 | losing exactly the word `w` removes `w` from the set of words and shrinks it by one |
| TrieRemove.DropWord | src/dict/dict_set.rs:72-100 | the intended removal of a word: exactly `w` stops being a word and nothing new is spelled |
| TrieRemove.RemoveIntended | src/dict/dict_set.rs:72-100 | the intended `remove`: `DictSetError` and no change for a non-word; for a word, `Ok`, only `w` is lost, and the counter drops by one, so a counter equal to the number of words stays equal |
| AhoCorasick.LeastIn | src/dict/dict_set.rs:113-121 | the first position `j >= k` whose suffix the trie spells, so `s[j..]` is the longest such suffix |
| AhoCorasick.ExpectedSuffix | src/dict/dict_set.rs:110-121 | the failure link of a reachable node is a reachable node whose path is a proper suffix of the node's path; for a child of the root, it is the root |
| AhoCorasick.ExpectedLongest | src/dict/dict_set.rs:110-121 | no longer proper suffix of the node's path is spelled in the trie |
| AhoCorasick.LinkedArena | src/dict/dict_set.rs:101-127 | after linking, every reachable non-root node has its expected failure link; shape and outputs are unchanged; the root and detached nodes are untouched |
| AhoCorasick.LinkedWords | src/dict/dict_set.rs:101-127 | linking changes no word and not the set of words |
| AhoCorasick.Chain | src/dict/dict_set.rs:138-143 | the failure chain from a reachable node begins at the node and ends at the root |
| AhoCorasick.ChainShrinks | src/dict/dict_set.rs:138-143 | the paths along the chain get strictly shorter, so the report loop ends after at most `|path| + 1` nodes |
| AhoCorasick.ChainLive | src/dict/dict_set.rs:138-143 | every node on the chain is a reachable node of the arena |
| AhoCorasick.ChainSuffixes | src/dict/dict_set.rs:138-143 | every node on the chain spells a suffix of the start node's path |
| AhoCorasick.ChainComplete | src/dict/dict_set.rs:138-143 | the chain passes through the node of every suffix of the start node's path that the trie spells |
| AhoCorasick.FirstExt | src/dict/dict_set.rs:131-136 | the first position from which the suffix extended by `c` is spelled, with none spelled before it |
| AhoCorasick.Target | src/dict/dict_set.rs:131-136 | the fall-back target is spelled in the trie (or is empty) and is the longest spelled extension by `c` of a suffix |
| AhoCorasick.SearchFallExit | src/dict/dict_set.rs:131-136 | where the fall-back loop of `search` stops, the node taken (the child along `c`, or the root) is the node of the target |
| AhoCorasick.LongestSuffix | src/dict/dict_set.rs:129-136 | the longest suffix of the text read so far that the trie spells |
| AhoCorasick.LongestStep | src/dict/dict_set.rs:130-136 | reading one more character moves the longest spelled suffix to the fall-back target from the old one |
| AhoCorasick.FallBackStep | src/dict/dict_set.rs:131-133 | following a failure link moves to a node that spells a strictly shorter suffix of the text read so far; once linked, from a node without a child `c`, no suffix extending by `c` is passed over |
| AhoCorasick.StepTarget | src/dict/dict_set.rs:134-136 | taking the child along `c`, or staying at the root, yields a node that spells a suffix of the text plus `c`; once linked, it is the node of the fall-back target |
| AhoCorasick.RootHitExists | src/dict/dict_set.rs:130-136 | the unlinked search reaches a child of the root exactly when some character read so far labels one |
| AhoCorasick.WordReport | src/dict/dict_set.rs:139-141 | a word node reports its word ending at the current position; any other node reports nothing |
| AhoCorasick.ChainReportsAt | src/dict/dict_set.rs:137-143 | once linked, walking the chain from a node reports exactly the words among the suffixes of the text inside that node's path, longest first |
| AhoCorasick.ChainReportsLongest | src/dict/dict_set.rs:137-143 | once linked, the walk from the node of the longest spelled suffix reports exactly the words ending at the current position |
| AhoCorasick.ChainNext | src/dict/dict_set.rs:138-142 | one step of the report loop: a node's reports are its own word followed by the reports of its failure link; a node without a link reports only its word; once linked, every reachable node has a reachable link |
| AhoCorasick.MatchesLongest | src/dict/dict_set.rs:137-143 | the words ending at a position all start within the longest suffix spelled in the trie |
| AhoCorasick.ReportLink | src/dict/dict_set.rs:138-143 | a node's own report followed by its failure link's reports equals the reports of the suffixes inside its path |
| AhoCorasick.MatchesFromSound | src/dict/dict_set.rs:138-143 | each report at a position is a word of the trie that is a suffix of the text read so far, starting at or after the given offset |
| AhoCorasick.MatchesFromComplete | src/dict/dict_set.rs:138-143 | each word that is such a suffix is reported, at its start |
| AhoCorasick.MatchesFromOrder | src/dict/dict_set.rs:138-143 | the reports at one position come by strictly increasing start, that is, longest first |
| AhoCorasick.MatchesSnoc | src/dict/dict_set.rs:130-144 | reading one more character appends exactly the reports ending at the new position |
| AhoCorasick.MatchesSound | src/dict/dict_set.rs:128-146 | each report of a search is a word that occurs in the text at the reported offset |
| AhoCorasick.MatchesComplete | src/dict/dict_set.rs:128-146 | each occurrence of each word in the text is reported at its offset |
| AhoCorasick.MatchesOrder | src/dict/dict_set.rs:128-146 | reports come by increasing end position and, at the same end, longest first |
| AhoCorasick.MatchesWordsOnly | src/dict/dict_set.rs:128-146 | the reports depend only on the set of words |
| AhoCorasick.OffsetAsWritten | src/dict/dict_set.rs:140 | `i - len + 1` on an unsigned integer fails exactly when the word is longer than `i`; otherwise the start plus the length is `i + 1` |
| AhoCorasick.Offset | src/dict/dict_set.rs:140 | the intended start offset: the occurrence ends at index `i` |
| AhoCorasick.OffsetOverflowsAtStart | src/dict/dict_set.rs:140 | every occurrence starting at offset 0 overflows as written, e.g. "he" read at index 1 of "hers" |
| AhoCorasick.OffsetAgrees | src/dict/dict_set.rs:140 | in every other case, the offset as written is the intended one |
| SuffixLinks.PartialValid | src/dict/dict_set.rs:116-121 | linking any set of reachable nodes keeps the trie valid and keeps its shape, outputs and paths |
| SuffixLinks.PartialStep | src/dict/dict_set.rs:117-120 | linking one more node is one assignment of its failure link |
| SuffixLinks.PartialAll | src/dict/dict_set.rs:110-125 | once every reachable non-root node is linked, the arena is the linked arena |
| SuffixLinks.DoneBound | src/dict/dict_set.rs:110 | fewer nodes are linked than exist, which bounds the poll loop |
| SuffixLinks.PolledHead | src/dict/dict_set.rs:110-111 | the polled node's parent is already linked, and so is every node shallower than it |
| SuffixLinks.HeadShallowest | src/dict/dict_set.rs:110 | the head of the queue is among the shallowest queued nodes, and no queued node is more than one level deeper |
| SuffixLinks.FrontierStep | src/dict/dict_set.rs:110-124 | polling the head and queueing its children keeps the breadth-first invariant |
| SuffixLinks.LinkTurn | src/dict/dict_set.rs:110-124 | a turn of the poll loop links exactly one new node and keeps the invariant |
| SuffixLinks.RootStart | src/dict/dict_set.rs:104 | before the root loop, nothing is linked, every child of the root is pending and the queue is empty |
| SuffixLinks.RootPick | src/dict/dict_set.rs:104-105 | the child of the root picked next is a real node, not yet linked, and moving it to the linked set keeps the split of the root's children |
| SuffixLinks.RootStep | src/dict/dict_set.rs:104-109 | linking a child of the root and queueing its children keeps the invariant of the root loop |
| SuffixLinks.RootFinish | src/dict/dict_set.rs:104-110 | once every child of the root is linked, the state is the poll loop's invariant |
| SuffixLinks.FrontierStart | src/dict/dict_set.rs:104-110 | after the root loop, the poll loop's breadth-first invariant holds |
| SuffixLinks.FallInvStart | src/dict/dict_set.rs:111 | the inner loop starts at the parent's failure link, with nothing passed over |
| SuffixLinks.FallInvStep | src/dict/dict_set.rs:113-115 | following a failure link from a node without a child `c` passes over no suffix that extends by `c` |
| SuffixLinks.FallInvExit | src/dict/dict_set.rs:116-121 | where the inner loop stops, the child along `c` (or the root) is the expected failure link of the polled node |
| SuffixLinks.LinkFinish | src/dict/dict_set.rs:125-126 | when the queue is empty, every reachable node is linked and the arena is the linked arena |
| DictSets.OfferChildren | src/dict/dict_set.rs:122-124 | the queue grows by the node's children, each once, in some order |
| DictSets.QueueRootChild | src/dict/dict_set.rs:106-108 | queueing the children of a child of the root keeps the root-loop invariant |
| DictSets.DictSet.constructor | src/dict/dict_set.rs:33-38 | a new set is the trie of the root alone with counter 0 and no words |
| DictSets.DictSet.AhoCorasick | src/dict/dict_set.rs:39-44 | the result is always `Ok`: a fresh set whose arena is the linked arena of `insert_all(ws)` on the empty trie and whose counter is the number of increments `insert_all` made |
| DictSets.DictSet.WordCount | src/dict/dict_set.rs:45-47 | the counter, which is never less than the number of words |
| DictSets.DictSet.Insert | src/dict/dict_set.rs:48-66 | the new state is `TrieInsert.Insert` of the old one, and the counter grows exactly when a new word is marked |
| DictSets.DictSet.Descend | src/dict/dict_set.rs:49-59 | the descent loop computes `TrieInsert.Walk` |
| DictSets.DictSet.InsertAll | src/dict/dict_set.rs:67-71 | the new state is `TrieInsert.InsertAll` of the old one |
| DictSets.DictSet.Remove | src/dict/dict_set.rs:72-100 | the new arena and the result are `TrieRemove.Remove` of the old arena; the counter is unchanged |
| DictSets.DictSet.Trace | src/dict/dict_set.rs:73-83 | the descent reports whether `w` is spelled; if so, it ends at the node of `w` and the stack holds the path nodes, deepest on top |
| DictSets.DictSet.Prune | src/dict/dict_set.rs:86-96 | the prune loop leaves the arena cut at the prune depth |
| DictSets.DictSet.LinkSuffixes | src/dict/dict_set.rs:101-127 | the result is `Ok` and the arena is the linked arena of the old one |
| DictSets.DictSet.LinkRootChildren | src/dict/dict_set.rs:104-109 | after the root loop, the children of the root are linked to the root, and the queue holds their children, ready for the poll loop |
| DictSets.DictSet.LinkRootChild | src/dict/dict_set.rs:105-108 | one child of the root is linked and its children queued; the loop state is kept |
| DictSets.DictSet.SetRootLink | src/dict/dict_set.rs:105 | a child of the root gets the root, its expected failure link |
| DictSets.DictSet.LinkNext | src/dict/dict_set.rs:110-124 | one turn of the poll loop links the head of the queue and keeps the loop state |
| DictSets.DictSet.LinkHead | src/dict/dict_set.rs:110-121 | the polled node gets its expected failure link; the rest of the queue stays |
| DictSets.DictSet.FailureTarget | src/dict/dict_set.rs:111-121 | the inner loop computes the expected failure link of the polled node |
| DictSets.DictSet.Search | src/dict/dict_set.rs:128-146 | every report occurs in the text; once linked, the result is `Ok` and the reports are exactly `Matches(text)`; on an unlinked trie, the search fails exactly when some character of the text labels a child of the root, and the reports are exactly `UnlinkedMatches(text)` |
| DictSets.DictSet.Turn | src/dict/dict_set.rs:130-143 | every report occurs in the text; once linked, one character moves the search to the node of the longest spelled suffix of the text so far and reports exactly the words ending there; unlinked, it fails exactly when the root has a child for the character, reporting that child's one-character word if it is a word, and otherwise stays at the root and reports nothing |
| DictSets.DictSet.Advance | src/dict/dict_set.rs:131-136 | the new node spells a suffix of the old path plus `c`; once linked, it is the node of the fall-back target; unlinked, it is the root's child for `c` if there is one and the root otherwise |
| DictSets.DictSet.FallBack | src/dict/dict_set.rs:131-133 | the loop stops at the root or at a node with a child `c` that spells a suffix of the old path; once linked, it never fails and its child along `c` (or the root) is the node of the fall-back target; unlinked, it stays at the root |
| DictSets.DictSet.ReportChain | src/dict/dict_set.rs:137-143 | the report loop reports the chain's words, each an occurrence; once linked, exactly the words ending at `i`, longest first; unlinked, it fails exactly when it starts below the root |
| DictSets.AdvanceText | src/dict/dict_set.rs:130-136 | the node reached after character `i` spells a suffix of `text[..i + 1]`; once linked, the longest one the trie spells |
| DictSets.UnlinkedTurn | src/dict/dict_set.rs:130-143 | before linking, a turn fails exactly when the root has a child for the character, and reports that child's one-character word if it is a word; otherwise it stays at the root and reports nothing |
| DictSets.UnlinkedReport | src/dict/dict_set.rs:137-143 | before linking, the report loop from the node `advance` reached reports the one-character word of the root's child for the character, if there is such a word, and nothing else |
| DictSets.UnlinkedChild | src/dict/dict_set.rs:137-143 | before linking, the report loop from a child of the root reports that child's word, a word of one character ending the text read, and then finds no failure link |
| AhoCorasick.UnlinkedMatchesSkip | src/dict/dict_set.rs:130-136 | before linking, when none of the first `i` characters labels a child of the root, the reports of the whole text are those from position `i` on |
| AhoCorasick.UnlinkedMatchesAt | src/dict/dict_set.rs:128-146 | before linking, `search` reports at most once: a one-character word that occurs at the first character labelling a child of the root; it reports nothing exactly when that child is not a word or there is no such character |
| DictSets.DictSet.ReportWord | src/dict/dict_set.rs:139-141 | a word node reports its word at the offset where it starts, an occurrence in the text; any other node reports nothing |
| DictSets.DictSet.Contains | src/dict/dict_set.rs:147-166 | true exactly when the string is a word; never for the empty string |

## Left out

- DictSets.DictSet.ReportWord: the start offset is `i + 1 - |w|` in characters (`Offset`). That is the release-build value of `i - word.len() + 1` at dict_set.rs:140. The debug-build panic for an occurrence starting at 0 is not modelled (see Findings). Nor is the fact that `len()` counts UTF-8 bytes, which makes the crate's offset differ for words with non-ASCII characters.
- DictSets.DictSet.Search: after `remove`, the model's arena keeps the dropped nodes, unreachable, and failure links into them still lead somewhere. In the crate, such a `Weak` link no longer upgrades. `try_suffix` then yields `Ok(None)` (node.rs:145), and the next `try_as_ref()?` fails with `ParseNodeError`. In the model, such a search neither stops nor fails there.
- DictSets.DictSet.Search: on a trie changed after `link_suffixes` (an `insert` or `remove` without relinking), the contract states only that every report is an occurrence in the text. It says nothing about which reports are made or when the search fails.
- DictNodes.Error: `ParseNodeError` is never produced. It comes from `try_as_ref`/`try_as_mut` on a `None` pointer (src/dict/node.rs:77-95, src/linked_list/node.rs:23-40), and an arena index always names a node.
- DictSets.DictSet.Insert: `count` is an unbounded natural. The `usize` increment at dict_set.rs:62 would overflow after 2^64 insertions.
- LinkedLists.LinkedList.Push: `size` is an unbounded natural, so the `usize` increments of `push` and `append` never overflow.
- DictSets.OfferChildren: `HashMap` iteration order is unspecified in Rust. The model picks the next child with `:|`, and the contracts of `OfferChildren` and `DictSets.DictSet.LinkRootChildren` hold for every order.
- DictSets.DictSet.Search: the `on_match` callback is not a parameter. The calls it would receive are returned, in order, as `reported`.
- Tries.AddChild: the new child's parent is always the node that gains the child. node.rs:58 takes the parent as an argument, but its only caller (dict_set.rs:54) passes that same node.
- DictSets.DictSet.Remove: the `?` paths of `remove` (`try_as_ref`, `try_as_mut`, `try_parent`) cannot fail on a valid trie, so the model reads the fields directly. Its only error is `DictSetError`.
- DictSets.DictSet.LinkSuffixes: the `?` paths of `link_suffixes` (`try_as_mut`, `try_downgrade`, `try_parent`, `try_suffix`) cannot fail, because each failure link read belongs to a shallower node that is already linked. The model reads the fields directly and always returns `Ok`. `search` keeps its error path.
- The `Rc`/`RefCell`/`Weak` pointers are replaced by arena indices. Reference counting, borrow checks at run time and the freeing of dropped nodes are not modelled.
- `is_word` is called in dict_set.rs but is not defined in node.rs. It is modelled as "the output is `Yes`".
- `display` (dict_set.rs:167-184, list.rs:64-77) and src/main.rs print to the terminal and are not modelled.
- `new_ptr` and `get_children_mut` (src/dict/node.rs:41-43, 72-74) only allocate or iterate, and `try_upgrade` (src/dict/node.rs:97-110) is called only by `display`; they are not modelled. The error types, their `Display` impls and the `Stack`/`Queue` trait declarations (src/adt) hold no logic of their own; the trait methods are modelled directly on `LinkedList`.
- `Clone` of list data: the elements are values, so a clone is the element itself.

## Findings

| source | as written | input that shows it | evidently intended | confidence | as-written member | corrected member |
|---|---|---|---|---|---|---|
| src/dict/dict_set.rs:87-96 | the prune loop stops only at a parent that is the root or a word, then cuts the edge into the popped node, even when the path it cuts is shared by another word | dictionary {"abc", "abd"}, `remove("abc")`: the loop passes "ab" and "a" and cuts the root's edge 'a', so "abd" is lost | also stop at a parent with more than one child, so that no other word is lost | not executed | TrieRemove.RemoveLosesSibling | TrieRemove.CutKeepsWords |
| src/dict/dict_set.rs:84-98 | `remove` never decrements `count`, which `insert` increments for each new word | `insert("a")` then `remove("a")`: no word is left, but `word_count()` is 1 | decrement the counter when a word is removed, so that `word_count` stays the number of words | not executed | TrieRemove.RemoveKeepsCount | TrieRemove.RemoveIntended |
| src/dict/dict_set.rs:84-99 | a spelled string that is not a word falls through to `Ok(())` | dictionary {"ab"}, `remove("a")` returns `Ok(())` | report `DictSetError` for anything that is not a word | not executed | TrieRemove.RemovePrefixOk | TrieRemove.RemoveIntended |
| src/dict/dict_set.rs:140 | `i - word.len() + 1` on `usize` subtracts before adding | text "hers", word "he": at `i = 1`, `1 - 2` underflows, which panics in a debug build | `i + 1 - word.len()`, the same value without the underflow; `DictSets.DictSet.Search` uses only this form | not executed | AhoCorasick.OffsetOverflowsAtStart | AhoCorasick.OffsetAgrees |
