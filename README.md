# Anagram engine — a Dafny model

This project models the core of `dfh.anagrams`, a Java program that finds
every multi-word anagram of a phrase within a dictionary. It models these parts:

- **Character table** (`CharMap`). Each character of the dictionary maps to a dense
  index from 1 up to n, with more frequent characters first. Index 0 is reserved
  for characters the table does not know.
- **Character counts** (`CharCount`). The letters of a phrase become a
  multiset over those indices, with a running total.
- **Trie** (`TrieNode`, `Trie`). The translated dictionary words are stored in a
  trie. A depth-first search lists every word that can be taken out of a
  count, as a `PartialEvaluation`: the word's letters plus the letters left over.
- **Walker** (`TrieWalker`). Starting from the phrase's count, the walker caches,
  for every count it reaches, the single-word steps out of that count. It then
  grows a tree of word buckets breadth first. Each bucket whose count is used up
  adds its words, sorted, to a de-duplicated set ordered by a list comparator.
- **Result sinks** (`AnagramStower` and its three subclasses), and the pure
  helpers of the command-line front end: plural labels, the elapsed-time
  report, and joining the arguments into a phrase.

Values carry the specifications: `Bag` for a count, `Partial` for a partial
evaluation, `TrieNode` for the trie. The classes whose fields the source
updates in place (`CharCount`, `CharMap`, `PartialEvaluation`, `Trie`,
`TrieWalker`, `WordBucket`, the stowers) are proved against those values.

The main results:

- The table's two translations are inverse to each other.
- The trie search is sound and complete: it yields every dictionary word that
  fits in the count, exactly once.
- The pruning step keeps at least one candidate whenever any candidate has a
  letter.
- The walk terminates. Its measure is a potential, the sum of `(B+1)^total` over
  the queue, where `B` bounds the number of dictionary words. After the walk,
  every cached step leads to a count that is either done or cached.
- `collect` terminates, returns a strictly ascending list of word lists, and every
  list in it is the sorted spelling of a chain of cached steps that uses the
  phrase's letters exactly. Conversely, every such chain has its sorted
  spelling in the result.

Files (one module each):

| file | module | source |
|---|---|---|
| optional.dfy | Optional | the source's `null` results |
| char_count.dfy | CharCounts | CharCount.java |
| char_map.dfy | CharMaps | CharMap.java |
| partial_evaluation.dfy | PartialEvaluations | PartialEvaluation.java |
| trie_node.dfy | TrieNodes | TrieNode.java |
| trie.dfy | Tries | Trie.java |
| list_order.dfy | ListOrder | the list comparator and `String.compareTo` |
| prune.dfy | Pruning | the pruning step of `TrieWalker.walk` |
| trie_walker.dfy | TrieWalkers | TrieWalker.java |
| stowers.dfy | Stowers | AnagramStower.java and its three subclasses |
| anagramizer.dfy | Anagramizer | the pure helpers of Anagramizer.java |

Where the model departs from the source:

- `Trie.java` builds its table with `new CharMap()` and calls `cm.freeze()`. `CharMap.java`
  has neither a no-argument constructor nor `freeze`. The model therefore takes a
  finished `CharMap` as a constructor parameter.
- `UniqStower.java` declares `implements AnagramStower`, but `AnagramStower` is an abstract class. The model
  treats it as a subclass, like the other two.

## Model

| member | source | states |
|---|---|---|
| CharCounts.DoneIffNoneLeft | src/dfh/anagrams/CharCount.java:33-35 | for a well-formed count, `done()` (total zero) holds exactly when every count is zero |
| CharCounts.IncreaseValid | src/dfh/anagrams/CharCount.java:44-52 | incrementing keeps the total equal to the sum of the counts and raises it by one |
| CharCounts.DecreaseValid | src/dfh/anagrams/CharCount.java:61-69 | decrementing a positive count keeps every count non-negative and the total equal to the sum, and lowers the total by one |
| CharCounts.DecreaseUndoesIncrease | src/dfh/anagrams/CharCount.java:44-69 | `dec(i)` after `inc(i)` restores the count |
| CharCounts.IncreaseAllIsPlus | src/dfh/anagrams/CharCount.java:44-52 | incrementing once per letter of a word adds the word's occurrences of each index to its count |
| CharCounts.DecreaseAllIsMinus | src/dfh/anagrams/CharCount.java:61-69 | decrementing once per letter succeeds exactly when the word fits in the count, and then subtracts its occurrences |
| CharCounts.IncreaseThenDecreaseAll | src/dfh/anagrams/CharCount.java:44-69 | adding a word's letters and then taking them out again gives back the original count |
| CharCounts.DecrementedTo | src/dfh/anagrams/CharCount.java:118-127 | the listed indices are exactly those below `n` that are positive here and smaller in the other count, in ascending order |
| CharCounts.DecrementedAfterMinus | src/dfh/anagrams/CharCount.java:118-127 | after a word is taken out of a count, the decremented indices are exactly the word's letters |
| CharCounts.CharCount.constructor | src/dfh/anagrams/CharCount.java:20-22 | a fresh count of the given width, all zero, total zero |
| CharCounts.CharCount.Adopt | src/dfh/anagrams/CharCount.java:28-31 | the private constructor adopts the given array and total |
| CharCounts.CharCount.Dup | src/dfh/anagrams/CharCount.java:24-26 | the copy has an equal value and a fresh array |
| CharCounts.CharCount.Inc | src/dfh/anagrams/CharCount.java:44-52 | fails, changing nothing, exactly when the index is past the table; otherwise increments it; the total stays the sum |
| CharCounts.CharCount.Dec | src/dfh/anagrams/CharCount.java:61-69 | fails, changing nothing, exactly when the count is zero; otherwise decrements it; the total stays the sum |
| CharCounts.CharCount.Equals | src/dfh/anagrams/CharCount.java:75-89 | true exactly for a non-null count with the same total and the same count at every index of the receiver |
| CharCounts.CharCount.HashCode | src/dfh/anagrams/CharCount.java:91-97 | the hash is computed on the first call and returned unchanged after that |
| CharCounts.CharCount.CharSet | src/dfh/anagrams/CharCount.java:102-111 | the set of indices with a positive count |
| CharCounts.CharCount.Decremented | src/dfh/anagrams/CharCount.java:118-127 | the loop yields the indices positive here and smaller in the other count, in ascending order |
| CharMaps.Wrap32 | src/dfh/anagrams/CharMap.java:26 | Java `int` arithmetic stays in 32 bits and leaves in-range values unchanged |
| CharMaps.InsertByFrequency | src/dfh/anagrams/CharMap.java:15-16 | one insertion step adds exactly the new character to the list |
| CharMaps.InsertKeepsSorted | src/dfh/anagrams/CharMap.java:15-16 | inserting keeps the list sorted by descending frequency |
| CharMaps.SortByFrequency | src/dfh/anagrams/CharMap.java:14-16 | the sorted key list is a permutation of the input, ordered by descending frequency |
| CharMaps.KeyList | src/dfh/anagrams/CharMap.java:14 | the list holds every key of the map exactly once |
| CharMaps.SortedKeys | src/dfh/anagrams/CharMap.java:14-16 | the keys, each once, sorted by descending frequency |
| CharMaps.CodeRange | src/dfh/anagrams/CharMap.java:17-24 | the minimum and maximum character codes of the list; `MAX_VALUE` and `MIN_VALUE` for an empty list |
| CharMaps.FillTables | src/dfh/anagrams/CharMap.java:27-32 | entry `i` of the reverse table is the `i`-th character and points back to `i`; slot 0 holds the null character |
| CharMaps.FilledTables | src/dfh/anagrams/CharMap.java:25-32 | the filled tables number exactly the map's characters 1..n in frequency order, and the two tables are inverse |
| CharMaps.BuildTables | src/dfh/anagrams/CharMap.java:13-33 | the whole constructor body yields tables with those properties, every forward entry a valid reverse index |
| CharMaps.CharMap.constructor | src/dfh/anagrams/CharMap.java:13-33 | the table built from a frequency map satisfies the table invariant for that map |
| CharMaps.CharMap.CharToInt | src/dfh/anagrams/CharMap.java:60-67 | the result is always an index of the reverse table (0 outside the code range) |
| CharMaps.CharMap.CharToIntSpec | src/dfh/anagrams/CharMap.java:60-67 | a character maps to a non-zero index exactly when it is in the table, and that index leads back to it |
| CharMaps.CharMap.IntToCharSpec | src/dfh/anagrams/CharMap.java:89-94 | every index 1..n gives a table character that translates back to the same index |
| CharMaps.CharMap.Translate | src/dfh/anagrams/CharMap.java:35-44 | the loop applies `charToInt` at every position |
| CharMaps.CharMap.TranslateBack | src/dfh/anagrams/CharMap.java:46-54 | the loop applies `intToChar` at every position |
| CharMaps.CharMap.TranslationRoundTrip | src/dfh/anagrams/CharMap.java:35-54 | a word of known characters translates to indices in 1..n and back to itself |
| CharMaps.CharMap.SpellingRoundTrip | src/dfh/anagrams/CharMap.java:35-54 | indices in 1..n spell a word of known characters that translates back to them |
| CharMaps.CharMap.RoundTrip | src/dfh/anagrams/CharMap.java:60-94 | `intToChar` after `charToInt` is the identity on table characters, and the reverse is the identity on 1..n |
| CharMaps.CharMap.MoreFrequentFirst | src/dfh/anagrams/CharMap.java:15-31 | a strictly more frequent character gets a smaller index |
| CharMaps.CharMap.IndicesAreOneToN | src/dfh/anagrams/CharMap.java:27-32 | table characters map into 1..n, every index in 1..n is a table character, and n is the number of characters |
| CharMaps.CharMap.KnownIffTranslated | src/dfh/anagrams/CharMap.java:75-87 | no character of a word translates to 0 exactly when every character is in the table |
| CharMaps.CharMap.CharacterCountSpec | src/dfh/anagrams/CharMap.java:75-87 | a count exists exactly for words of known characters; it is well formed, has the word's length as total and n+1 slots, and counts each index's occurrences in the translation |
| CharMaps.CharMap.CharacterCount | src/dfh/anagrams/CharMap.java:75-87 | null exactly when some character is unknown; otherwise a fresh count equal to the counting function |
| PartialEvaluations.StartSpec | src/dfh/anagrams/PartialEvaluation.java:38-41 | a fresh evaluation is valid, has taken no letters, and starts from the given count |
| PartialEvaluations.Extend | src/dfh/anagrams/PartialEvaluation.java:53-62 | `add(i)` gives null exactly when no `i` is left; otherwise the word grows by `i` and the leftover loses one `i` |
| PartialEvaluations.ExtendKeepsOrigin | src/dfh/anagrams/PartialEvaluation.java:53-62 | the letters taken plus the letters left stay the same; so does `n + total` |
| PartialEvaluations.Trimmed | src/dfh/anagrams/PartialEvaluation.java:74-80 | after freezing, the buffer is exactly as long as the letters taken |
| PartialEvaluations.TrimmedSpec | src/dfh/anagrams/PartialEvaluation.java:74-80 | freezing keeps the letters and the leftover, leaves a frozen value alone, and is idempotent |
| PartialEvaluations.FrozenCharSet | src/dfh/anagrams/PartialEvaluation.java:29-36 | after freezing, the character set is exactly the set of letters taken |
| PartialEvaluations.PartialEvaluation.constructor | src/dfh/anagrams/PartialEvaluation.java:38-41 | a fresh evaluation with its own copy of the count, equal to the start value |
| PartialEvaluations.PartialEvaluation.Copy | src/dfh/anagrams/PartialEvaluation.java:43-47 | the private constructor copies the buffer and the count into fresh arrays |
| PartialEvaluations.PartialEvaluation.Dup | src/dfh/anagrams/PartialEvaluation.java:49-51 | an unfrozen copy that shares no array with the receiver |
| PartialEvaluations.PartialEvaluation.Add | src/dfh/anagrams/PartialEvaluation.java:53-62 | null exactly when no `i` is left; otherwise a fresh valid evaluation equal to `Extend`; the receiver is unchanged |
| PartialEvaluations.PartialEvaluation.Freeze | src/dfh/anagrams/PartialEvaluation.java:74-80 | the new value is the trimmed old one; the cached set is dropped the first time only |
| PartialEvaluations.PartialEvaluation.CharSet | src/dfh/anagrams/PartialEvaluation.java:29-36 | the set of values in the buffer, cached after the first call |
| PartialEvaluations.PartialEvaluation.Translate | src/dfh/anagrams/PartialEvaluation.java:64-69 | the spelling of the buffer on the first call, the cached string after that |
| TrieNodes.BlankSpellsNothing | src/dfh/anagrams/TrieNode.java:6-8 | a new node holds no word |
| TrieNodes.AddShape | src/dfh/anagrams/TrieNode.java:17-35 | at the end of the word the node becomes terminal; otherwise the child array grows to hold the index, the child exists, and the other children are unchanged |
| TrieNodes.AddSpells | src/dfh/anagrams/TrieNode.java:17-35 | after `add(t, i)`, the node holds exactly its old words plus the suffix `t[i..]` |
| TrieNodes.AddKeepsInvariants | src/dfh/anagrams/TrieNode.java:17-35 | adding keeps the trie uncached and its indices bounded |
| TrieNodes.LiveSpec | src/dfh/anagrams/TrieNode.java:60-78 | the jump list holds exactly the indices of non-null children, in ascending order |
| TrieNodes.CountLive | src/dfh/anagrams/TrieNode.java:62-67 | the counting loop gives the length of the jump list |
| TrieNodes.BuildJumpList | src/dfh/anagrams/TrieNode.java:68-74 | the fill loop builds the jump list |
| TrieNodes.JumpListOf | src/dfh/anagrams/TrieNode.java:60-78 | `jumpList()` returns the jump list and caches it in the node |
| TrieNodes.JumpListSpec | src/dfh/anagrams/TrieNode.java:60-78 | on a well-formed node, the cached or computed list is ascending and names only existing children |
| TrieNodes.CoherentJumpList | src/dfh/anagrams/TrieNode.java:60-78 | on a coherent node, the jump list is exactly the non-null children |
| TrieNodes.CachedJumpListGoesStale | src/dfh/anagrams/TrieNode.java:17-35 | a child added after the jump list was cached is missing from the list |
| TrieNodes.Subtree | src/dfh/anagrams/TrieNode.java:49-55 | the subtree at `i` holds exactly the words that follow `i`; with no subtree, no word starts with `i` |
| TrieNodes.ComputeSize | src/dfh/anagrams/TrieNode.java:37-43 | the number of nodes in the trie |
| TrieNodes.SizeCountsTerminals | src/dfh/anagrams/TrieNode.java:37-47 | there are no more terminal nodes than nodes |
| TrieNodes.EnumerateUnfold | src/dfh/anagrams/TrieNode.java:80-90 | the search yields the current evaluation if the node is terminal, then the results below each child of the jump list, in order |
| TrieNodes.EnumerateSound | src/dfh/anagrams/TrieNode.java:80-90 | every result extends the start evaluation by a word of the subtree, from the same original count |
| TrieNodes.EnumerateComplete | src/dfh/anagrams/TrieNode.java:80-90 | every word of the subtree that fits in the leftover is found |
| TrieNodes.EnumerateDistinct | src/dfh/anagrams/TrieNode.java:80-90 | no word is found twice |
| TrieNodes.EnumerateBounded | src/dfh/anagrams/TrieNode.java:80-90 | there are no more results than terminal nodes |
| TrieNodes.EnumerateKeepsWidth | src/dfh/anagrams/TrieNode.java:80-90 | every result is valid, unfrozen, and as wide as the start |
| TrieNodes.AllSingleWords | src/dfh/anagrams/TrieNode.java:80-90 | the recursive method appends exactly the search results to the list |
| TrieNodes.AllSingleWordsKids | src/dfh/anagrams/TrieNode.java:84-89 | the loop over the jump list appends the results below each child |
| TrieNodes.AllSingleWordsBelow | src/dfh/anagrams/TrieNode.java:85-88 | one child: nothing when `add(i)` fails, the child's results otherwise |
| Tries.UncoveredSpec | src/dfh/anagrams/Trie.java:47-54 | an index is still uncovered exactly when it is present in the count and no candidate decremented it |
| Tries.UncoveredShrinks | src/dfh/anagrams/Trie.java:47-54 | scanning more candidates never uncovers an index, so the early `break` is sound |
| Tries.KeptSpec | src/dfh/anagrams/Trie.java:55-61 | the filter keeps all candidates or none; it keeps them frozen with their letters and leftover; what it keeps covers every present index; it keeps none when an index is uncovered |
| Tries.CoversAll | src/dfh/anagrams/Trie.java:47-54 | the scan reports full coverage exactly when no index is uncovered |
| Tries.FreezeAll | src/dfh/anagrams/Trie.java:56-58 | every candidate is frozen |
| Tries.Trie.constructor | src/dfh/anagrams/Trie.java:13-15 | an empty valid trie holding the given table and normalizer |
| Tries.Trie.AddWord | src/dfh/anagrams/Trie.java:17-23 | the dictionary gains the translation of the normalized word, unless normalizing leaves it empty |
| Tries.Trie.Translate | src/dfh/anagrams/Trie.java:29-31 | the spelling of an index sequence |
| Tries.Trie.CharacterCount | src/dfh/anagrams/Trie.java:33-35 | null exactly when the normalized phrase has an unknown character; otherwise its count |
| Tries.Trie.Size | src/dfh/anagrams/Trie.java:65-67 | the number of nodes |
| Tries.Trie.Candidates | src/dfh/anagrams/Trie.java:45 | every candidate of the search from the root is valid and as wide as the count |
| Tries.Trie.CandidatesSound | src/dfh/anagrams/Trie.java:45 | every candidate spells a dictionary word, and its letters plus its leftover make up the count |
| Tries.Trie.CandidatesComplete | src/dfh/anagrams/Trie.java:45 | every dictionary word that fits in the count is a candidate exactly once |
| Tries.Trie.AllSingleWordsFromCharacterCount | src/dfh/anagrams/Trie.java:44-63 | all the candidates, frozen, if together they decrement every present character; otherwise none |
| ListOrder.StringCompareZero | src/dfh/anagrams/TrieWalker.java:144-145 | `compareTo` is zero exactly on equal strings |
| ListOrder.StringCompareAntisymmetric | src/dfh/anagrams/TrieWalker.java:144-145 | swapping the arguments flips the sign |
| ListOrder.StringCompareTransitive | src/dfh/anagrams/TrieWalker.java:144-145 | the string order is transitive |
| ListOrder.ListCompareZero | src/dfh/anagrams/TrieWalker.java:131-151 | the list comparator is zero exactly on equal lists |
| ListOrder.PrefixFirst | src/dfh/anagrams/TrieWalker.java:134-143 | a proper prefix comes first |
| ListOrder.FirstDifferenceDecides | src/dfh/anagrams/TrieWalker.java:144-148 | the first differing word decides the order |
| ListOrder.ListCompareAntisymmetric | src/dfh/anagrams/TrieWalker.java:131-151 | swapping the arguments flips the sign |
| ListOrder.ListCompareTransitive | src/dfh/anagrams/TrieWalker.java:131-151 | the list order is transitive |
| ListOrder.Compare | src/dfh/anagrams/TrieWalker.java:131-151 | the comparator's loop computes the lexicographic order |
| ListOrder.SetInsertElements | src/dfh/anagrams/TrieWalker.java:158 | adding to the ordered set adds exactly the new list, growing the set only if the list is new |
| ListOrder.SetInsertAscending | src/dfh/anagrams/TrieWalker.java:158 | the set stays strictly ascending |
| ListOrder.SetInsertPresent | src/dfh/anagrams/TrieWalker.java:158 | adding a list already present changes nothing |
| ListOrder.InsertStringSpec | src/dfh/anagrams/TrieWalker.java:115 | one insertion step keeps the words sorted and adds exactly the new word |
| ListOrder.SortStringsSpec | src/dfh/anagrams/TrieWalker.java:115 | sorting the words yields a sorted permutation |
| Pruning.HoldingSpec | src/dfh/anagrams/TrieWalker.java:182-187 | an index's tally is positive exactly when some candidate's character set contains it, and never exceeds the number of candidates |
| Pruning.CountCharSets | src/dfh/anagrams/TrieWalker.java:182-187 | the counting loops give every index its tally |
| Pruning.Best | src/dfh/anagrams/TrieWalker.java:188-197 | the chosen index has the least positive tally, and is the lowest such index; it is 0 when no tally is positive |
| Pruning.BestUnique | src/dfh/anagrams/TrieWalker.java:188-197 | that choice is unique |
| Pruning.BestExists | src/dfh/anagrams/TrieWalker.java:188-197 | that choice always exists |
| Pruning.Prune | src/dfh/anagrams/TrieWalker.java:198-203 | the removal loop keeps exactly the survivors, in order |
| Pruning.SurvivorsSpec | src/dfh/anagrams/TrieWalker.java:198-203 | a candidate survives exactly when its character set contains the chosen index; the list does not grow |
| Pruning.Contained | src/dfh/anagrams/TrieWalker.java:198-203 | some candidate survives whenever the chosen index has a positive tally |
| Pruning.PruneKeepsSome | src/dfh/anagrams/TrieWalker.java:182-203 | if some candidate has a letter, pruning keeps at least one candidate |
| TrieWalkers.PendingSpec | src/dfh/anagrams/TrieWalker.java:205-211 | the queued counts are leftovers that are neither done nor cached, and every leftover is done, cached or queued |
| TrieWalkers.QueueShrinks | src/dfh/anagrams/TrieWalker.java:171-215 | replacing a count by fewer than `B` smaller counts lowers the potential |
| TrieWalkers.PendingShrinks | src/dfh/anagrams/TrieWalker.java:205-211 | queueing the leftovers of one expansion lowers the potential |
| TrieWalkers.StepClosed | src/dfh/anagrams/TrieWalker.java:172-211 | after a step, every leftover in the cache is still done, cached or queued |
| TrieWalkers.WordBucket.constructor | src/dfh/anagrams/TrieWalker.java:93-95 | a root bucket with no word, no parent and no size cached |
| TrieWalkers.WordBucket.Child | src/dfh/anagrams/TrieWalker.java:119-123 | a bucket one level below its parent, holding the word and the evaluation's leftover |
| TrieWalkers.WordBucket.Size | src/dfh/anagrams/TrieWalker.java:97-106 | the number of words from the bucket up to the root; the caches hold only that depth |
| TrieWalkers.WordBucket.Gather | src/dfh/anagrams/TrieWalker.java:110-114 | the walk up the parents collects the bucket's words |
| TrieWalkers.WordBucket.Dump | src/dfh/anagrams/TrieWalker.java:108-117 | the words on the path to the root, sorted: a sorted permutation |
| TrieWalkers.WordBucket.Fill | src/dfh/anagrams/TrieWalker.java:119-124 | a fresh child holding the evaluation's spelling and leftover |
| TrieWalkers.TrieWalker.constructor | src/dfh/anagrams/TrieWalker.java:43-46 | an empty cache and queue over the trie |
| TrieWalkers.TrieWalker.ExpansionSpec | src/dfh/anagrams/TrieWalker.java:179-203 | a job caches fewer than `B` entries, each a frozen dictionary word taken out of the count |
| TrieWalkers.TrieWalker.Expand | src/dfh/anagrams/TrieWalker.java:179-203 | the job body computes the pruned candidate list |
| TrieWalkers.TrieWalker.Enqueue | src/dfh/anagrams/TrieWalker.java:205-211 | queues each leftover that is neither done nor cached |
| TrieWalkers.TrieWalker.StepKeepsGood | src/dfh/anagrams/TrieWalker.java:172-211 | one job keeps the walker's invariant |
| TrieWalkers.TrieWalker.Step | src/dfh/anagrams/TrieWalker.java:172-211 | one job caches the expansion of the head of the queue, queues its new leftovers, keeps the invariant, and lowers the potential |
| TrieWalkers.TrieWalker.Walk | src/dfh/anagrams/TrieWalker.java:169-221 | the walk terminates with an empty queue, keeps every old key, and caches every count that was queued |
| TrieWalkers.TrieWalker.ValidSettled | src/dfh/anagrams/TrieWalker.java:169-221 | after the walk, every cached step leaves a smaller count that is done or cached |
| TrieWalkers.TrieWalker.Harvest | src/dfh/anagrams/TrieWalker.java:157-158 | a finished bucket adds exactly one derived anagram to the ordered set, after which every complete chain is covered by the set or the rest of the queue |
| TrieWalkers.TrieWalker.Sprout | src/dfh/anagrams/TrieWalker.java:159-162 | an unfinished bucket queues one reached child per cached step |
| TrieWalkers.TrieWalker.Bud | src/dfh/anagrams/TrieWalker.java:161 | one child is fresh, reached, and holds the step's leftover |
| TrieWalkers.TrieWalker.CollectStep | src/dfh/anagrams/TrieWalker.java:155-164 | one turn keeps the queue reached, the set ascending and derived, and every complete chain covered by the set or the queue, and lowers the potential |
| TrieWalkers.TrieWalker.Collect | src/dfh/anagrams/TrieWalker.java:127-167 | terminates; the result is strictly ascending, each list is the sorted spelling of a chain of cached steps that uses up the base count, and every such chain has its sorted spelling in the result |
| TrieWalkers.TrieWalker.CoveredHarvest | src/dfh/anagrams/TrieWalker.java:157-158 | adding a done bucket's words covers every complete chain through that bucket, because nothing is cached under a done count |
| TrieWalkers.TrieWalker.CoveredSprout | src/dfh/anagrams/TrieWalker.java:159-162 | queueing the children of an unfinished bucket keeps every complete chain through it covered by a child |
| TrieWalkers.TrieWalker.ThroughDone | src/dfh/anagrams/TrieWalker.java:157-158 | a chain through a done bucket is that bucket's own chain |
| TrieWalkers.TrieWalker.GoesOnFromLive | src/dfh/anagrams/TrieWalker.java:157-162 | a chain goes on past a count only when that count is not done |
| TrieWalkers.TrieWalker.ThroughKid | src/dfh/anagrams/TrieWalker.java:159-162 | a complete chain through an unfinished bucket runs through the child made for its next step |
| TrieWalkers.ChainStep | src/dfh/anagrams/TrieWalker.java:159-162 | every step of a chain is cached under the count its prefix leaves |
| TrieWalkers.TrieWalker.Anagrams | src/dfh/anagrams/TrieWalker.java:73-85 | empty, changing nothing, when the phrase has an unknown character; otherwise the phrase's count is cached after the walk, and the result is ascending, derived from it, and holds every anagram derivable from it |
| TrieWalkers.TrieWalker.EvaluationsRemove | src/dfh/anagrams/TrieWalker.java:65-71 | the sum over the cache does not depend on the order of the keys |
| TrieWalkers.TrieWalker.EvaluationsBound | src/dfh/anagrams/TrieWalker.java:65-71 | with at most `k` entries per key, the sum is at most `k` times the number of keys |
| TrieWalkers.TrieWalker.EvaluationsWithinDictionary | src/dfh/anagrams/TrieWalker.java:65-71 | no key holds more entries than there are dictionary words |
| TrieWalkers.TrieWalker.NumberCharacterCounts | src/dfh/anagrams/TrieWalker.java:61-63 | the number of cached counts |
| TrieWalkers.TrieWalker.NumberPartialEvaluations | src/dfh/anagrams/TrieWalker.java:65-71 | the loop sums the list lengths over the cache |
| TrieWalkers.TrieWalker.Size | src/dfh/anagrams/TrieWalker.java:53-59 | the same sum |
| Stowers.SpacedLine | src/dfh/anagrams/PassThroughStower.java:16-20 | the printing loop writes each word followed by a space |
| Stowers.WordsOfSpaced | src/dfh/anagrams/PassThroughStower.java:16-20 | if no word contains a space, the printed line splits back into the words |
| Stowers.JoinedThenSpace | src/dfh/anagrams/SortedUniqStower.java:53-61 | the two line formats differ only by the trailing space |
| Stowers.WordsOfJoined | src/dfh/anagrams/SortedUniqStower.java:53-61 | the single-spaced line also splits back into the words |
| Stowers.JoinedLast | src/dfh/anagrams/SortedUniqStower.java:53-61 | the words before the last, each followed by a space, then the last word, form the single-spaced line |
| Stowers.PrintJoined | src/dfh/anagrams/SortedUniqStower.java:53-61 | the inner loop prints one single-spaced line, and nothing for an empty list |
| Stowers.AnagramStower.constructor | src/dfh/anagrams/AnagramStower.java:8-22 | the default test never says stop; not finished; nothing printed |
| Stowers.AnagramStower.SetTest | src/dfh/anagrams/AnagramStower.java:14-16 | replaces the test |
| Stowers.AnagramStower.Finished | src/dfh/anagrams/AnagramStower.java:24-26 | from now on `done()` holds |
| Stowers.PassThroughStower.constructor | src/dfh/anagrams/PassThroughStower.java:7-11 | no lines, count zero |
| Stowers.PassThroughStower.Handle | src/dfh/anagrams/PassThroughStower.java:14-23 | when the test says stop, nothing happens; otherwise one line is printed and counted; the count always equals the lines printed |
| Stowers.PassThroughStower.Done | src/dfh/anagrams/PassThroughStower.java:26-29 | runs the callback, then flushes |
| Stowers.PassThroughStower.Size | src/dfh/anagrams/PassThroughStower.java:32-34 | the number of lines printed |
| Stowers.UniqStower.constructor | src/dfh/anagrams/UniqStower.java:32-41 | an empty ordered set |
| Stowers.UniqStower.Cmp | src/dfh/anagrams/UniqStower.java:11-31 | zero exactly on equal lists; negative exactly when the first list comes first |
| Stowers.UniqStower.Handle | src/dfh/anagrams/UniqStower.java:44-46 | always adds the list to the set, which stays strictly ascending; it grows only for a new list |
| Stowers.UniqStower.Size | src/dfh/anagrams/UniqStower.java:35-37 | the number of distinct lists handled |
| Stowers.UniqStower.Done | src/dfh/anagrams/UniqStower.java:49-59 | runs the callback, prints every list once in ascending order with a space after each word, then flushes |
| Stowers.SortedUniqStower.constructor | src/dfh/anagrams/SortedUniqStower.java:11-36 | an empty ordered set |
| Stowers.SortedUniqStower.Cmp | src/dfh/anagrams/SortedUniqStower.java:15-35 | the same order as the walker's comparator |
| Stowers.SortedUniqStower.Handle | src/dfh/anagrams/SortedUniqStower.java:44-47 | when the test says stop, nothing changes; otherwise adds the list as in UniqStower |
| Stowers.SortedUniqStower.Size | src/dfh/anagrams/SortedUniqStower.java:39-41 | the number of distinct lists accepted |
| Stowers.SortedUniqStower.Done | src/dfh/anagrams/SortedUniqStower.java:50-64 | runs the callback, prints each non-empty list once in ascending order with single spaces, then flushes |
| Anagramizer.ToInt | src/dfh/anagrams/Anagramizer.java:172 | Java's `(int)` cast keeps the value modulo 2^32, in the `int` range |
| Anagramizer.InflectSpec | src/dfh/anagrams/Anagramizer.java:175-181 | the label is the bare word exactly for a count of one, and the word plus `s` otherwise |
| Anagramizer.InflectLongWraps | src/dfh/anagrams/Anagramizer.java:171-173 | the cast makes 2^32+1 singular |
| Anagramizer.InflectLongAgrees | src/dfh/anagrams/Anagramizer.java:171-173 | the corrected version agrees with the source on every count in the `int` range |
| Anagramizer.JavaRem | src/dfh/anagrams/Anagramizer.java:136-141 | Java's `%` pairs with truncating division, and the remainder takes the dividend's sign |
| Anagramizer.SplitSpec | src/dfh/anagrams/Anagramizer.java:134-141 | the hours, minutes, seconds and milliseconds add back up to the elapsed time; each unit below hours stays below the next; all take the sign of the total |
| Anagramizer.ReportTiming | src/dfh/anagrams/Anagramizer.java:133-169 | the report of the elapsed time |
| Anagramizer.PrintBreakdown | src/dfh/anagrams/Anagramizer.java:142-168 | the printing branches produce the report for the breakdown |
| Anagramizer.ReportPrints | src/dfh/anagrams/Anagramizer.java:143-167 | a unit is printed exactly when it or a larger unit is positive; milliseconds only alongside a larger unit |
| Anagramizer.PrintedCascades | src/dfh/anagrams/Anagramizer.java:151-167 | once a unit is printed, every smaller unit is printed too |
| Anagramizer.SeparatorOnce | src/dfh/anagrams/Anagramizer.java:143-161 | the `;` appears once, right after the total, when hours, minutes or seconds are printed, and never otherwise |
| Anagramizer.TrimSpec | src/dfh/anagrams/Anagramizer.java:60 | `trim()` drops only characters up to the space, at both ends, and leaves none at either end |
| Anagramizer.JoinPhrase | src/dfh/anagrams/Anagramizer.java:56-60 | the phrase is each argument followed by a space, trimmed |
| Anagramizer.PhraseOfSolidArgs | src/dfh/anagrams/Anagramizer.java:56-60 | for arguments with no surrounding blanks, the phrase is the arguments separated by single spaces |

## Left out

- I/O: the print streams are modelled as sequences of events (lines, the callback having run, the flush). The command-line parser, reading the dictionary file, and `main`'s own printing and `printf` formatting are not modelled.
- The clock: `reportTiming` takes the elapsed milliseconds as a parameter instead of reading `System.currentTimeMillis`.
- Concurrency: the thread pool runs each job at once and `flush` does nothing. The `synchronized` blocks and the concurrent queue are therefore sequential, and the outer `while (true)` of `walk` is a single drain of the queue.
- Hooks: the `beforeWalk`, `beforeCollect` and `afterCollect` callbacks are not modelled. They only print progress.
- The normalizer: the trie takes it as a function parameter. The regular expression and the lower-casing in `main` are not modelled.
- `CharCounts.CharCount.HashCode`: `Arrays.hashCode` is a parameter, because only its caching matters to the model.
- Characters are Dafny `char` values. UTF-16 surrogate pairs and Unicode properties are not modelled.
- Counts are unbounded integers. A count or total overflowing 32 bits would need a phrase of more than 2^31 letters.
- `CharMaps.CharMap.constructor`: the frequency map gives each character its frequency (the `[0]` entry of the source's `int[]`). The order in which the map lists its keys before sorting is left unspecified. The comparator `b - a` cannot overflow for non-negative frequencies, which the constructor requires.
- `CharMaps.CharMap.TranslateBack`: `intern()` is not modelled, since it does not change the string's value.
- `Tries.Trie.AllSingleWordsFromCharacterCount`: the method returns the list instead of filling the caller's list. The closing `((ArrayList<?>) list).trimToSize()` is treated as a no-op. As written, the walker passes a `LinkedList` (src/dfh/anagrams/TrieWalker.java:176), so that cast (src/dfh/anagrams/Trie.java:62) would throw `ClassCastException` on every call the walker makes. The model does not capture that failure.
- `TrieNodes.JumpListOf`: the node is a value. The cached jump list is returned with the node, and the enumeration, size and trie do not write it back. Before the first `jumpList()` call a node computes the list from its children, which is what the cache holds later. `CachedJumpListGoesStale` shows that adding a word after caching breaks this, which the source avoids by finishing the dictionary first.
- `PartialEvaluations.PartialEvaluation.CharSet`: the source builds a `TreeSet`, and the model builds a `set`. Iteration over the hash and tree sets (the pruning tally, the cache sum) takes elements in an unspecified order (`Pick`).
- `Pruning.Prune`: removal through the iterator is modelled as a filter that keeps the survivors in order.
- `TrieWalkers.TrieWalker.Collect`: the ghost `bound` parameter exists only for the termination measure.
- `TrieWalkers.TrieWalker.Walk`: the `longestWord` argument is unused by the source and is not modelled.
- `TrieWalkers.TrieWalker.Size`: delegates to `NumberPartialEvaluations`. The two have identical bodies in the source.
- `CharCounts.CharCount.Equals`: requires the other array to be at least as long when the totals agree. The source would throw instead of comparing a shorter array; every count in one walker has the same width.
- `CharCounts.CharCount.Decremented`: requires the other array to be at least as long. The source reads past a shorter array only at a positive count, which would throw.
- `CharCounts.CharCount.Inc`: takes a natural number. A negative index would throw in the source.
- `Stowers.UniqStower.Handle`: always inserts, as written. Unlike the other two stowers, the source does not consult the test here.
- Anagramizer `inflect(String, long)` is modelled with the cast in `InflectLongAsWritten`. The report uses the corrected `InflectLong` (see Findings).
- `Anagramizer.ReportTiming`: the report labels the total and each amount with the corrected `InflectLong`, not the cast of the source (see Findings). The labels differ from the source's only for counts that the `int` cast maps to 1, such as 2^32+1; `InflectLongAgrees` shows they agree on every count in the `int` range.
- `Anagramizer.PrintBreakdown`: the same corrected `InflectLong` labels as `ReportTiming`, with the same difference from the source.
- `Stowers.AnagramStower.SetTest`: the test is a pure `() -> bool` that reads no state. A test that reads the sink or other mutable state (for example a size against a limit) cannot be expressed, and the test's answer cannot change during a run.

## Findings

| source | as written | input that shows it | evidently intended | confidence | as-written member | corrected member |
|---|---|---|---|---|---|---|
| src/dfh/anagrams/Anagramizer.java:171-173 | `inflect(word, long n)` casts `n` to `int` before comparing with 1 | an elapsed time of 2^32+1 ms (about 49.7 days) is cast to 1 and labelled "millisecond" | singular only for exactly one | not executed | Anagramizer.InflectLongWraps | Anagramizer.InflectLongAgrees |
