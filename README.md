# Apriori frequent-itemset miner — a verified Dafny model

This project models the mining core of `Assignment1/apriori.py`, a level-wise
Apriori miner. The model covers five pieces:

- **Transaction builder.** It turns each record into a set of items and collects the seed 1-itemsets.
- **Support counter.** It counts every candidate itemset against every transaction into a shared frequency table (`freqSet`). It then keeps the candidates whose support reaches `minSupport`.
- **Self-join candidate generator.** `joinSet` returns every union of two members of a level that has exactly k items.
- **Level loop.** It alternates join and count until a level comes out empty. It retains each non-empty frequent level in `largeSet`, records a `(k, candidates, survivors)` triple per level, and reports every retained itemset with its support.
- **Closed-itemset variant.** It runs the same loop. After each level k is counted, it re-examines level k-1 and reports the itemsets that no superset in level k matches in count.

Items are a type parameter `T`. An itemset is a `set<T>` and the transaction
list is a `seq<set<T>>`. The frequency table is a `map<set<T>, nat>`; reading a
missing key gives 0, as with the source's `defaultdict(int)`. Each counting pass
receives the table and returns it updated. The loops are imperative methods
with loop invariants. Each method is proved against specification functions:

- `Count(I, txs)` is the number of transactions containing `I`.
- `IsFrequent` means the count is positive and `count / |txs| >= minSupport`.
- `FrequentLevel(txs, minSupport, k)` is the set of frequent k-itemsets.
- `IsClosed(I, txs)` means no proper superset of `I` has the same count.

The main results:

- **Level step (`Join.LevelStep`).** Pruning the self-join of frequent level k-1 gives exactly frequent level k. So `RunApriori` reports exactly the non-empty frequent itemsets, each once, with support `count / |txs|`.
- **Closure (`Closure.ClosedAgainstNextIffClosed`).** For a frequent itemset, checking only the next frequent level is equivalent to checking every proper superset. Suppose some superset further up has an equal count. Adding any one of its extra items then gives a superset one level up with the same count, and that superset is frequent. So `RunAprioriClosed` reports exactly the closed frequent itemsets. Comparing against the next level alone misses none.
- **Termination.** No frequent itemset has more items than occur in the database. So the level loop stops after at most that many levels (`Counting.FrequentLevelEmptyBeyond`).

Support is computed in exact real arithmetic: `(count as real) / (total as real) >= minSupport`.

An empty transaction list does not raise an error. The counting pass finds no
containing transaction, so the local table stays empty and no division is
reached. Every level is therefore empty, and both miners return no itemsets.
`RunApriori` returns the single triple `(1, 0, 0)`. A stricter design would
reject empty input with an `InvalidInput` error. The model follows the code
(`Assignment1/apriori.py:30-37`, `:87`, `:125`) and has no error path.

## Model

| member | source | states |
|---|---|---|
| Counting.CountIsContaining | Assignment1/apriori.py:29-33 | the count of an itemset is the number of transaction positions whose transaction contains it |
| Counting.CountPositiveIff | Assignment1/apriori.py:30-33 | the count is positive exactly when some transaction contains the itemset |
| Counting.CountAntiMonotone | Assignment1/apriori.py:31-32 | if I is a subset of J then J's count is at most I's count |
| Counting.SeedsCharacterized | Assignment1/apriori.py:54-55 | a seed 1-itemset is exactly a singleton with a positive count |
| Counting.SeedsAppend | Assignment1/apriori.py:51-55 | appending a transaction adds exactly the singletons of its items to the seeds |
| Counting.MeetsMinSupportCrossMultiplied | Assignment1/apriori.py:35-36 | the threshold `count / total >= minSupport` holds iff `count >= minSupport * total`, for total > 0 |
| Counting.MeetsMinSupportMonotone | Assignment1/apriori.py:35-36 | a larger count over the same list meets the threshold whenever a smaller one does |
| Counting.FrequentAntiMonotone | Assignment1/apriori.py:31-37 | every subset of a frequent itemset is frequent (the Apriori principle) |
| Counting.FrequentWithinItems | Assignment1/apriori.py:87-98 | a frequent itemset consists of database items, so its size is at most the number of distinct items |
| Counting.InFrequentLevel | Assignment1/apriori.py:92-95 | level k holds exactly the frequent itemsets of size k |
| Counting.LevelOne | Assignment1/apriori.py:80-82 | pruning the seeds gives exactly the frequent 1-itemsets |
| Counting.FrequentLevelEmptyBeyond | Assignment1/apriori.py:87-98 | every level beyond the number of distinct items is empty, which bounds the loop |
| Counting.EmptyLevelIsFinal | Assignment1/apriori.py:87 | once level j is empty, every frequent itemset has fewer than j items |
| Join.JoinSet | Assignment1/apriori.py:41-45 | every generated candidate has exactly `length` items |
| Join.JoinOfDistinct | Assignment1/apriori.py:41-45 | joining a level of (length-1)-itemsets: each candidate is the union of two distinct members, both proper subsets of it |
| Join.JoinComplete | Assignment1/apriori.py:41-45 | a (k+1)-set whose k-subsets are all members is generated |
| Join.LevelStep | Assignment1/apriori.py:90-94 | pruning the self-join of frequent level k-1 gives exactly frequent level k (no frequent itemset is missed) |
| Join.SurvivorsBounded | Assignment1/apriori.py:90-95 | a frequent level never has more members than its candidate level |
| Closure.ClosedAgainstNextIffClosed | Assignment1/apriori.py:133-141 | for a frequent itemset, no equal-count superset in the next frequent level iff no equal-count proper superset at all |
| Closure.TopLevelClosed | Assignment1/apriori.py:133-141 | every frequent itemset whose next level is empty is closed, so the last non-empty level is reported in full |
| Apriori.ItemSetTransactionList | Assignment1/apriori.py:48-56 | one transaction per record, in record order, each the record's item set; the item set is exactly the singletons of the items that occur |
| Apriori.ItemsWithMinSupport | Assignment1/apriori.py:24-38 | returns exactly the candidates that occur and reach minSupport (none for an empty list); each candidate's count is added to the table; every other entry and key is unchanged |
| Apriori.CountCandidates | Assignment1/apriori.py:27-33 | the shared table gains each candidate's count; the local table holds exactly the candidates with a positive count, each at its count |
| Apriori.CountCandidate | Assignment1/apriori.py:30-33 | one candidate's count is added to both tables; a key appears only if some transaction contains the candidate |
| Apriori.PruneByMinSupport | Assignment1/apriori.py:34-37 | keeps exactly the local-table entries whose count / total reaches minSupport |
| Apriori.GetSupport | Assignment1/apriori.py:59-61 | support times the list length is the table count; it lies in [0, 1] when the count does not exceed the list length |
| Apriori.IsClosedAgainst | Assignment1/apriori.py:135-139 | true iff no member of the next level is a superset with an equal table count |
| Apriori.AssembleItems | Assignment1/apriori.py:102-104 | lists exactly the frequent itemsets of sizes 1..depth, each once, each with support count / total |
| Apriori.TableAfterSeeds | Assignment1/apriori.py:81 | after the first pass the table is exact for frequent 1-itemsets and empty for larger itemsets |
| Apriori.TableAfterLevel | Assignment1/apriori.py:92-94 | after counting level k the table is exact for frequent itemsets of sizes 1..k and empty above k |
| Apriori.ExpectedStats | Assignment1/apriori.py:84 | the statistics after n levels have one triple per level |
| Apriori.ExpectedStatsAt | Assignment1/apriori.py:84-96 | triple i is (i+1, candidates counted at level i+1, size of frequent level i+1) |
| Apriori.CandidatesBound | Assignment1/apriori.py:80-95 | a level never keeps more itemsets than it counted |
| Apriori.StatsEntryBound | Assignment1/apriori.py:91-96 | each recorded triple has survivors equal to the frequent level size and at most its candidates |
| Apriori.StatsShape | Assignment1/apriori.py:79-98 | in a run that stopped at the first empty level n, every triple has survivors <= candidates, every triple before n has survivors > 0, and the last has 0 |
| Apriori.FirstLevel | Assignment1/apriori.py:79-84 | the first pass yields frequent level 1, no larger than the seeds, and a table exact below size 2 |
| Apriori.NextLevel | Assignment1/apriori.py:89-96 | one pass yields the join of level k-1 as candidates and frequent level k as survivors, records the triple for k, and extends the exact table to size k |
| Apriori.Levels | Assignment1/apriori.py:89 | the retained levels after n passes number n |
| Apriori.LevelsAt | Assignment1/apriori.py:89 | retained level j is frequent level j |
| Apriori.RetainedLevelFrequent | Assignment1/apriori.py:89 | every member of retained level j has j items and support at least minSupport |
| Apriori.MineLevels | Assignment1/apriori.py:79-98 | the loop stops at the first empty level, after at most the number of distinct items; it retains exactly the non-empty levels in order, with an exact table and the expected statistics |
| Apriori.RunApriori | Assignment1/apriori.py:65-105 | reports exactly the non-empty frequent itemsets, each once, with support count / total; the statistics run from level 1 to the first empty level; empty input gives no items and the triple (1, 0, 0) |
| ClosedMiner.ClosureTestDecides | Assignment1/apriori.py:134-141 | with the table exact, the test of a level-(k-1) itemset against frequent level k decides closedness |
| ClosedMiner.TableAntiMonotone | Assignment1/apriori.py:137 | the table never gives a level-k itemset more than a level-(k-1) itemset it contains |
| ClosedMiner.AppendClosed | Assignment1/apriori.py:133-142 | appends each itemset of frequent level k-1 exactly when it is closed, with its support, keeping the list free of repeats |
| ClosedMiner.RunAprioriClosed | Assignment1/apriori.py:108-149 | reports exactly the non-empty closed frequent itemsets, each once, with support count / total; empty input gives none |

## Left out

- `Assignment1/fpgrowth.py` is not part of this model. It delegates the mining to an external library, and the rest of it is file I/O.
- File reading (`dataFromFile`), result printing and writing, and the command-line entry point are not modelled. They are I/O and option parsing. Records are passed in directly as a `seq<seq<T>>`.
- The timing with `time.time()`, the returned `exec_time` and the progress `print` calls are not modelled. They are environment effects, so both miners return only their mining results.
- `subsets` is not modelled because nothing calls it.
- Supports and thresholds use exact reals, not IEEE doubles. A support that rounds across `minSupport` in floating point can be classified differently.
- Python's iteration order over sets and dictionaries is not modelled. Each loop picks its next element with `:|`, so the proofs hold for every order. The order of the reported list is left unspecified within a level.
- An itemset is reported as a set, not as the `tuple(item)` the source builds. Within a tuple the item order is Python's set order.
- `largeSet` is a sequence indexed by level minus one, not a dictionary keyed by level. Level j is at position j-1.
- The frequency table and the result lists are passed by value and returned, not mutated in place through shared references. No other code shares them.
- Apriori.GetSupport: reading `freqSet[item]` on a `defaultdict` inserts a 0 entry for a missing key. The model's read does not. The read only happens for itemsets whose count is already in the table.
