/** The level-wise Apriori miner: building the transaction list, counting and
    pruning one candidate level, and the two mining loops (all frequent
    itemsets, and closed frequent itemsets).

    The frequency table is a `defaultdict(int)` shared by every counting pass;
    here it is a `map<set<T>, nat>` handed to each pass and handed back updated. */
module Apriori {
  import opened Counting
  import opened Join
  import opened Closure

  /** Reading the frequency table: a missing key reads as 0. */
  function Lookup<T>(freqSet: map<set<T>, nat>, I: set<T>): nat
  {
    if I in freqSet then freqSet[I] else 0
  }

  /** One transaction per record, in record order: the record's items as a set. */
  function Transactions<T>(records: seq<seq<T>>): seq<set<T>>
  {
    if records == [] then [] else Transactions(records[..|records| - 1]) + [ToSet(records[|records| - 1])]
  }

  /** `frozenset(record)`: the distinct items of a record. */
  function ToSet<T>(record: seq<T>): set<T>
  {
    set x | x in record
  }

  /** The itemsets named in a list of (itemset, support) results. */
  function ItemsetsOf<T>(results: seq<(set<T>, real)>): set<set<T>>
  {
    set p | p in results :: p.0
  }

  lemma NoItemsets<T>(results: seq<(set<T>, real)>)
    requires ItemsetsOf(results) == {}
    ensures results == []
  {
    assert results != [] ==> results[0].0 in ItemsetsOf(results);
  }

  /** No itemset is reported twice. */
  predicate Distinct<T>(results: seq<(set<T>, real)>)
  {
    forall a, b :: 0 <= a < b < |results| ==> results[a].0 != results[b].0
  }

  /** One `iteration_stats` triple: level, candidates before pruning, survivors. */
  datatype LevelStats = LevelStats(k: nat, beforePruning: nat, afterPruning: nat)

  /** Builds the transaction list and the seed 1-itemsets from the records. */
  method ItemSetTransactionList<T>(records: seq<seq<T>>) returns (itemSet: set<set<T>>, transactionList: seq<set<T>>)
    ensures transactionList == Transactions(records)
    ensures itemSet == Seeds(transactionList)
  {
    transactionList := [];
    itemSet := {};
    var r := 0;
    assert Seeds(transactionList) == {};
    while r < |records|
      invariant 0 <= r <= |records|
      invariant transactionList == Transactions(records[..r])
      invariant itemSet == Seeds(transactionList)
    {
      var transaction := ToSet(records[r]);
      ghost var before := transactionList;
      transactionList := transactionList + [transaction];
      var rest := transaction;
      while rest != {}
        invariant rest <= transaction
        invariant itemSet == Seeds(before) + (set x | x in transaction - rest :: {x})
        decreases rest
      {
        var item :| item in rest;
        itemSet := itemSet + {{item}};
        rest := rest - {item};
      }
      SeedsAppend(before, transaction);
      assert records[..r + 1][..r] == records[..r];
      r := r + 1;
    }
    assert records[..r] == records;
  }

  /** Counts every candidate of `itemSet` against every transaction, adding the
      counts into `freqSet`, and returns the candidates that reach `minSupport`. */
  method ItemsWithMinSupport<T>(itemSet: set<set<T>>, transactionList: seq<set<T>>, minSupport: real, freqSet: map<set<T>, nat>)
    returns (kept: set<set<T>>, freqSet': map<set<T>, nat>)
    ensures kept == set I | I in itemSet && IsFrequent(I, transactionList, minSupport)
    ensures forall I :: Lookup(freqSet', I) == Lookup(freqSet, I) + (if I in itemSet then Count(I, transactionList) else 0)
    ensures forall I :: I in freqSet' <==> I in freqSet || (I in itemSet && Count(I, transactionList) > 0)
    ensures transactionList == [] ==> kept == {}
  {
    var localSet;
    freqSet', localSet := CountCandidates(itemSet, transactionList, freqSet);
    kept := PruneByMinSupport(localSet, |transactionList|, minSupport);
  }

  /** The counting loop: every candidate's count is added to the shared table
      and recorded in a fresh local table, which gets a key only for a
      candidate contained in some transaction. */
  method CountCandidates<T>(itemSet: set<set<T>>, transactionList: seq<set<T>>, freqSet: map<set<T>, nat>)
    returns (freqSet': map<set<T>, nat>, localSet: map<set<T>, nat>)
    ensures forall I :: Lookup(freqSet', I) == Lookup(freqSet, I) + (if I in itemSet then Count(I, transactionList) else 0)
    ensures forall I :: I in freqSet' <==> I in freqSet || (I in itemSet && Count(I, transactionList) > 0)
    ensures forall I :: I in localSet <==> I in itemSet && Count(I, transactionList) > 0
    ensures forall I :: I in localSet ==> localSet[I] == Count(I, transactionList)
  {
    freqSet' := freqSet;
    localSet := map[];
    var todo := itemSet;
    ghost var done: set<set<T>> := {};
    while todo != {}
      invariant done + todo == itemSet && done !! todo
      invariant forall I :: Lookup(freqSet', I) == Lookup(freqSet, I) + (if I in done then Count(I, transactionList) else 0)
      invariant forall I :: I in freqSet' <==> I in freqSet || (I in done && Count(I, transactionList) > 0)
      invariant forall I :: I in localSet <==> I in done && Count(I, transactionList) > 0
      invariant forall I :: Lookup(localSet, I) == (if I in done then Count(I, transactionList) else 0)
      decreases todo
    {
      var item :| item in todo;
      freqSet', localSet := CountCandidate(item, transactionList, freqSet', localSet);
      todo := todo - {item};
      done := done + {item};
    }
  }

  /** The inner counting loop for one candidate: both tables gain one for every
      transaction containing `item`; a key first appears at its first increment. */
  method CountCandidate<T>(item: set<T>, transactionList: seq<set<T>>, freqSet: map<set<T>, nat>, localSet: map<set<T>, nat>)
    returns (freqSet': map<set<T>, nat>, localSet': map<set<T>, nat>)
    ensures Count(item, transactionList) == 0 ==> freqSet' == freqSet && localSet' == localSet
    ensures Count(item, transactionList) > 0 ==>
      && freqSet' == freqSet[item := Lookup(freqSet, item) + Count(item, transactionList)]
      && localSet' == localSet[item := Lookup(localSet, item) + Count(item, transactionList)]
  {
    freqSet', localSet' := freqSet, localSet;
    var j := 0;
    while j < |transactionList|
      invariant 0 <= j <= |transactionList|
      invariant Count(item, transactionList[..j]) == 0 ==> freqSet' == freqSet && localSet' == localSet
      invariant Count(item, transactionList[..j]) > 0 ==>
        && freqSet' == freqSet[item := Lookup(freqSet, item) + Count(item, transactionList[..j])]
        && localSet' == localSet[item := Lookup(localSet, item) + Count(item, transactionList[..j])]
    {
      if item <= transactionList[j] {
        freqSet' := freqSet'[item := Lookup(freqSet', item) + 1];
        localSet' := localSet'[item := Lookup(localSet', item) + 1];
      }
      assert transactionList[..j + 1][..j] == transactionList[..j];
      j := j + 1;
    }
    assert transactionList[..|transactionList|] == transactionList;
  }

  /** The pruning loop: keeps the counted itemsets whose support
      count / total reaches `minSupport`. */
  method PruneByMinSupport<T>(localSet: map<set<T>, nat>, total: nat, minSupport: real) returns (kept: set<set<T>>)
    requires forall I :: I in localSet ==> 0 < localSet[I] <= total
    ensures kept == set I | I in localSet && MeetsMinSupport(localSet[I], total, minSupport)
  {
    kept := {};
    var pending := localSet.Keys;
    while pending != {}
      invariant pending <= localSet.Keys
      invariant kept == set I | I in localSet.Keys - pending && MeetsMinSupport(localSet[I], total, minSupport)
      decreases pending
    {
      var item :| item in pending;
      var count := localSet[item];
      var support := (count as real) / (total as real);
      if support >= minSupport {
        kept := kept + {item};
      }
      pending := pending - {item};
    }
  }

  /** The support of `item` read from the frequency table. */
  function GetSupport<T>(item: set<T>, freqSet: map<set<T>, nat>, transactionList: seq<set<T>>): (support: real)
    requires |transactionList| > 0
    ensures support * (|transactionList| as real) == Lookup(freqSet, item) as real
    ensures 0.0 <= support
    ensures Lookup(freqSet, item) <= |transactionList| ==> support <= 1.0
  {
    (Lookup(freqSet, item) as real) / (|transactionList| as real)
  }

  /** The closure test of one itemset against the next frequent level: false as
      soon as a superset with the same table count is met. */
  method IsClosedAgainst<T>(item: set<T>, currentCSet: set<set<T>>, freqSet: map<set<T>, nat>) returns (isClosed: bool)
    ensures isClosed <==> forall S :: S in currentCSet && item <= S ==> Lookup(freqSet, item) != Lookup(freqSet, S)
  {
    isClosed := true;
    var rest := currentCSet;
    while rest != {}
      invariant rest <= currentCSet
      invariant isClosed
      invariant forall S :: S in currentCSet - rest && item <= S ==> Lookup(freqSet, item) != Lookup(freqSet, S)
      decreases rest
    {
      var superSet :| superSet in rest;
      if item <= superSet && Lookup(freqSet, item) == Lookup(freqSet, superSet) {
        isClosed := false;
        break;
      }
      rest := rest - {superSet};
    }
  }

  /** Lists every itemset of the retained levels 1..depth, in level order,
      each with its support read from the frequency table. */
  method AssembleItems<T(!new)>(largeSet: seq<set<set<T>>>, depth: nat, freqSet: map<set<T>, nat>,
                          transactionList: seq<set<T>>, minSupport: real)
    returns (items: seq<(set<T>, real)>)
    requires largeSet == Levels(transactionList, minSupport, depth)
    requires TableCounts(freqSet, transactionList, minSupport, depth)
    ensures forall I :: I in ItemsetsOf(items) <==> 1 <= |I| <= depth && IsFrequent(I, transactionList, minSupport)
    ensures forall p :: p in items ==> IsFrequent(p.0, transactionList, minSupport) && p.1 == SupportOf(p.0, transactionList)
    ensures Distinct(items)
  {
    items := [];
    var key := 1;
    while key <= depth
      invariant 1 <= key <= depth + 1
      invariant forall I :: I in ItemsetsOf(items) <==> 1 <= |I| < key && IsFrequent(I, transactionList, minSupport)
      invariant forall p :: p in items ==> IsFrequent(p.0, transactionList, minSupport) && p.1 == SupportOf(p.0, transactionList)
      invariant Distinct(items)
    {
      LevelsAt(transactionList, minSupport, depth, key);
      var value := largeSet[key - 1];
      var rest := value;
      while rest != {}
        invariant rest <= value
        invariant forall I :: I in ItemsetsOf(items) <==> (1 <= |I| < key && IsFrequent(I, transactionList, minSupport)) || I in value - rest
        invariant forall p :: p in items ==> IsFrequent(p.0, transactionList, minSupport) && p.1 == SupportOf(p.0, transactionList)
        invariant Distinct(items)
        decreases rest
      {
        var item :| item in rest;
        InFrequentLevel(item, transactionList, minSupport, key);
        var pair := (item, GetSupport(item, freqSet, transactionList));
        assert item !in ItemsetsOf(items);
        assert forall a :: 0 <= a < |items| ==> items[a].0 in ItemsetsOf(items);
        items := items + [pair];
        rest := rest - {item};
      }
      forall I ensures I in value <==> |I| == key && IsFrequent(I, transactionList, minSupport) {
        InFrequentLevel(I, transactionList, minSupport, key);
      }
      key := key + 1;
    }
  }

  /** The frequency table holds the exact count of every frequent itemset of
      size 1..k-1 and nothing for itemsets of size k or more. */
  ghost predicate TableExactBelow<T(!new)>(freqSet: map<set<T>, nat>, txs: seq<set<T>>, minSupport: real, k: nat)
  {
    && (forall I :: |I| >= k ==> Lookup(freqSet, I) == 0)
    && TableCounts(freqSet, txs, minSupport, k - 1)
  }

  /** The frequency table holds the exact count of every frequent itemset of size 1..n. */
  ghost predicate TableCounts<T(!new)>(freqSet: map<set<T>, nat>, txs: seq<set<T>>, minSupport: real, n: int)
  {
    forall I :: IsFrequent(I, txs, minSupport) && 1 <= |I| <= n ==> Lookup(freqSet, I) == Count(I, txs)
  }

  /** Counting the seeds into an empty table makes it exact below size 2. */
  lemma TableAfterSeeds<T(!new)>(freqSet: map<set<T>, nat>, txs: seq<set<T>>, minSupport: real)
    requires forall I :: Lookup(freqSet, I) == (if I in Seeds(txs) then Count(I, txs) else 0)
    ensures TableExactBelow(freqSet, txs, minSupport, 2)
  {
    forall I ensures |I| >= 2 ==> Lookup(freqSet, I) == 0 {
      SeedsCharacterized(I, txs);
    }
    forall I | IsFrequent(I, txs, minSupport) && 1 <= |I| < 2 ensures Lookup(freqSet, I) == Count(I, txs) {
      SeedsCharacterized(I, txs);
    }
  }

  /** Counting the level-k candidates into a table exact below k makes it exact below k+1. */
  lemma TableAfterLevel<T(!new)>(freqSet: map<set<T>, nat>, freqSet': map<set<T>, nat>, txs: seq<set<T>>, minSupport: real, k: nat)
    requires k >= 2 && TableExactBelow(freqSet, txs, minSupport, k)
    requires forall I :: Lookup(freqSet', I) == Lookup(freqSet, I)
               + (if I in JoinSet(FrequentLevel(txs, minSupport, k - 1), k) then Count(I, txs) else 0)
    ensures TableExactBelow(freqSet', txs, minSupport, k + 1)
  {
    var candidates := JoinSet(FrequentLevel(txs, minSupport, k - 1), k);
    LevelStep(txs, minSupport, k);
    forall I | IsFrequent(I, txs, minSupport) && |I| == k ensures I in candidates {
      InFrequentLevel(I, txs, minSupport, k);
      assert I in FrequentLevel(txs, minSupport, k);
    }
  }

  /** Candidates counted at level k: the seeds at level 1, the self-join of
      frequent level k-1 afterwards. */
  function CandidateCount<T>(txs: seq<set<T>>, minSupport: real, k: nat): nat
  {
    if k <= 1 then |Seeds(txs)| else |JoinSet(FrequentLevel(txs, minSupport, k - 1), k)|
  }

  /** The triple recorded for level k: (k, candidates, survivors). */
  function StatsOf<T>(txs: seq<set<T>>, minSupport: real, k: nat): LevelStats
  {
    LevelStats(k, CandidateCount(txs, minSupport, k), |FrequentLevel(txs, minSupport, k)|)
  }

  /** The sequence [f(1), ..., f(n)]. */
  function Tabulate<X>(f: nat -> X, n: nat): (s: seq<X>)
    ensures |s| == n
  {
    if n == 0 then [] else Tabulate(f, n - 1) + [f(n)]
  }

  /** Entry i of the tabulation is f at i + 1. */
  lemma {:induction false} TabulateAt<X>(f: nat -> X, n: nat, i: nat)
    requires i < n
    ensures Tabulate(f, n)[i] == f(i + 1)
  {
    if i < n - 1 {
      TabulateAt(f, n - 1, i);
    }
  }

  /** `iteration_stats` after levels 1..n: one (k, candidates, survivors) triple per level. */
  function ExpectedStats<T>(txs: seq<set<T>>, minSupport: real, n: nat): (stats: seq<LevelStats>)
    ensures |stats| == n
  {
    Tabulate(k => StatsOf(txs, minSupport, k), n)
  }

  /** Each recorded triple names its level, its candidates and its survivors. */
  lemma ExpectedStatsAt<T>(txs: seq<set<T>>, minSupport: real, n: nat, i: nat)
    requires i < n
    ensures ExpectedStats(txs, minSupport, n)[i] == StatsOf(txs, minSupport, i + 1)
  {
    TabulateAt(k => StatsOf(txs, minSupport, k), n, i);
  }

  /** Recording level n extends the statistics of levels 1..n-1 by its triple. */
  lemma ExpectedStatsSnoc<T>(txs: seq<set<T>>, minSupport: real, n: nat)
    requires n >= 1
    ensures ExpectedStats(txs, minSupport, n) == ExpectedStats(txs, minSupport, n - 1) + [StatsOf(txs, minSupport, n)]
  {
  }

  /** A frequent level never outnumbers its candidates. */
  lemma CandidatesBound<T>(txs: seq<set<T>>, minSupport: real, k: nat)
    requires k >= 1
    ensures |FrequentLevel(txs, minSupport, k)| <= CandidateCount(txs, minSupport, k)
  {
    if k == 1 {
      LevelOne(txs, minSupport);
      SubsetCard(FrequentLevel(txs, minSupport, 1), Seeds(txs));
    } else {
      SurvivorsBounded(txs, minSupport, k);
    }
  }

  /** No level keeps more itemsets than it counted. */
  lemma StatsEntryBound<T>(txs: seq<set<T>>, minSupport: real, n: nat, i: nat)
    requires i < n
    ensures ExpectedStats(txs, minSupport, n)[i].afterPruning == |FrequentLevel(txs, minSupport, i + 1)|
    ensures ExpectedStats(txs, minSupport, n)[i].afterPruning <= ExpectedStats(txs, minSupport, n)[i].beforePruning
  {
    ExpectedStatsAt(txs, minSupport, n, i);
    CandidatesBound(txs, minSupport, i + 1);
  }

  /** The statistics of a run whose level n was the first empty one:
      no level keeps more than it counted, every level before n keeps
      something, and level n keeps nothing. */
  lemma StatsShape<T>(txs: seq<set<T>>, minSupport: real, n: nat)
    requires n >= 1
    requires forall j :: 1 <= j < n ==> FrequentLevel(txs, minSupport, j) != {}
    requires FrequentLevel(txs, minSupport, n) == {}
    ensures forall i :: 0 <= i < n ==>
      ExpectedStats(txs, minSupport, n)[i].afterPruning <= ExpectedStats(txs, minSupport, n)[i].beforePruning
    ensures forall i :: 0 <= i < n - 1 ==> ExpectedStats(txs, minSupport, n)[i].afterPruning > 0
    ensures ExpectedStats(txs, minSupport, n)[n - 1].afterPruning == 0
  {
    var stats := ExpectedStats(txs, minSupport, n);
    forall i | 0 <= i < n
      ensures stats[i].afterPruning <= stats[i].beforePruning
      ensures i < n - 1 ==> stats[i].afterPruning > 0
    {
      StatsEntryBound(txs, minSupport, n, i);
    }
    StatsEntryBound(txs, minSupport, n, n - 1);
  }

  /** The first pass: count the seed 1-itemsets into an empty table and prune. */
  method FirstLevel<T(!new)>(itemSet: set<set<T>>, transactionList: seq<set<T>>, minSupport: real)
    returns (oneCSet: set<set<T>>, freqSet: map<set<T>, nat>)
    requires itemSet == Seeds(transactionList)
    ensures oneCSet == FrequentLevel(transactionList, minSupport, 1)
    ensures |oneCSet| <= |itemSet|
    ensures TableExactBelow(freqSet, transactionList, minSupport, 2)
  {
    oneCSet, freqSet := ItemsWithMinSupport(itemSet, transactionList, minSupport, map[]);
    LevelOne(transactionList, minSupport);
    SubsetCard(oneCSet, itemSet);
    TableAfterSeeds(freqSet, transactionList, minSupport);
  }

  /** One pass of the level loop after level k-1: self-join the frequent level
      k-1 into the level-k candidates, count them into the table and prune. */
  method NextLevel<T(!new)>(currentLSet: set<set<T>>, k: nat, transactionList: seq<set<T>>, minSupport: real,
                            freqSet: map<set<T>, nat>)
    returns (candidates: set<set<T>>, currentCSet: set<set<T>>, freqSet': map<set<T>, nat>)
    requires k >= 2
    requires currentLSet == FrequentLevel(transactionList, minSupport, k - 1)
    requires TableExactBelow(freqSet, transactionList, minSupport, k)
    ensures candidates == JoinSet(FrequentLevel(transactionList, minSupport, k - 1), k)
    ensures currentCSet == FrequentLevel(transactionList, minSupport, k)
    ensures |currentCSet| <= |candidates|
    ensures LevelStats(k, |candidates|, |currentCSet|) == StatsOf(transactionList, minSupport, k)
    ensures TableExactBelow(freqSet', transactionList, minSupport, k + 1)
  {
    candidates := JoinSet(currentLSet, k);
    currentCSet, freqSet' := ItemsWithMinSupport(candidates, transactionList, minSupport, freqSet);
    TableAfterLevel(freqSet, freqSet', transactionList, minSupport, k);
    LevelStep(transactionList, minSupport, k);
    SurvivorsBounded(transactionList, minSupport, k);
  }

  /** The retained levels `largeSet` after n levels: frequent levels 1..n,
      level j at position j-1. */
  function Levels<T>(txs: seq<set<T>>, minSupport: real, n: nat): (levels: seq<set<set<T>>>)
    ensures |levels| == n
  {
    if n == 0 then [] else Levels(txs, minSupport, n - 1) + [FrequentLevel(txs, minSupport, n)]
  }

  lemma {:induction false} LevelsAt<T>(txs: seq<set<T>>, minSupport: real, n: nat, j: nat)
    requires 1 <= j <= n
    ensures Levels(txs, minSupport, n)[j - 1] == FrequentLevel(txs, minSupport, j)
  {
    if j < n {
      LevelsAt(txs, minSupport, n - 1, j);
    }
  }

  /** Every itemset retained at level j has j items and support at least minSupport. */
  lemma RetainedLevelFrequent<T>(txs: seq<set<T>>, minSupport: real, depth: nat, j: nat, I: set<T>)
    requires 1 <= j <= depth
    requires I in Levels(txs, minSupport, depth)[j - 1]
    ensures |I| == j && Count(I, txs) > 0
    ensures |txs| > 0 && SupportOf(I, txs) >= minSupport
  {
    LevelsAt(txs, minSupport, depth, j);
    InFrequentLevel(I, txs, minSupport, j);
  }

  /** The first pass and the level loop: counts level after level until a
      frequent level comes out empty, retaining every non-empty one. */
  method MineLevels<T(!new)>(itemSet: set<set<T>>, transactionList: seq<set<T>>, minSupport: real)
    returns (largeSet: seq<set<set<T>>>, depth: nat, freqSet: map<set<T>, nat>, iterationStats: seq<LevelStats>)
    requires itemSet == Seeds(transactionList)
    ensures largeSet == Levels(transactionList, minSupport, depth)
    ensures forall j :: 1 <= j <= depth ==> FrequentLevel(transactionList, minSupport, j) != {}
    ensures FrequentLevel(transactionList, minSupport, depth + 1) == {}
    ensures depth <= |Items(transactionList)|
    ensures TableCounts(freqSet, transactionList, minSupport, depth)
    ensures iterationStats == ExpectedStats(transactionList, minSupport, depth + 1)
  {
    largeSet := [];
    iterationStats := [];

    var k := 1;
    var numBeforePruning := |itemSet|;
    var oneCSet;
    oneCSet, freqSet := FirstLevel(itemSet, transactionList, minSupport);
    var numAfterPruning := |oneCSet|;
    var currentLSet := oneCSet;
    iterationStats := iterationStats + [LevelStats(k, numBeforePruning, numAfterPruning)];

    k := 2;
    while currentLSet != {}
      invariant 2 <= k <= |Items(transactionList)| + 2
      invariant currentLSet == FrequentLevel(transactionList, minSupport, k - 1)
      invariant largeSet == Levels(transactionList, minSupport, k - 2)
      invariant forall j :: 1 <= j <= k - 2 ==> FrequentLevel(transactionList, minSupport, j) != {}
      invariant TableExactBelow(freqSet, transactionList, minSupport, k)
      invariant iterationStats == ExpectedStats(transactionList, minSupport, k - 1)
      decreases |Items(transactionList)| + 2 - k
    {
      if k - 1 > |Items(transactionList)| {
        FrequentLevelEmptyBeyond(transactionList, minSupport, k - 1);
      }
      largeSet := largeSet + [currentLSet];
      var currentCSet;
      currentLSet, currentCSet, freqSet := NextLevel(currentLSet, k, transactionList, minSupport, freqSet);
      numBeforePruning := |currentLSet|;
      numAfterPruning := |currentCSet|;
      ExpectedStatsSnoc(transactionList, minSupport, k);
      iterationStats := iterationStats + [LevelStats(k, numBeforePruning, numAfterPruning)];
      currentLSet := currentCSet;
      k := k + 1;
    }
    depth := k - 2;
  }

  /** Mines every frequent itemset level by level until a level comes out empty. */
  method RunApriori<T(!new)>(records: seq<seq<T>>, minSupport: real)
    returns (items: seq<(set<T>, real)>, iterationStats: seq<LevelStats>)
    ensures forall I :: I in ItemsetsOf(items) <==> I != {} && IsFrequent(I, Transactions(records), minSupport)
    ensures forall p :: p in items ==> IsFrequent(p.0, Transactions(records), minSupport)
                                       && p.1 == SupportOf(p.0, Transactions(records))
    ensures Distinct(items)
    ensures 1 <= |iterationStats| <= |Items(Transactions(records))| + 1
    ensures iterationStats == ExpectedStats(Transactions(records), minSupport, |iterationStats|)
    ensures forall j :: 1 <= j < |iterationStats| ==> FrequentLevel(Transactions(records), minSupport, j) != {}
    ensures FrequentLevel(Transactions(records), minSupport, |iterationStats|) == {}
    ensures records == [] ==> items == [] && iterationStats == [LevelStats(1, 0, 0)]
  {
    var itemSet, transactionList := ItemSetTransactionList(records);
    var largeSet, depth, freqSet;
    largeSet, depth, freqSet, iterationStats := MineLevels(itemSet, transactionList, minSupport);
    forall I | IsFrequent(I, transactionList, minSupport) ensures |I| <= depth {
      EmptyLevelIsFinal(transactionList, minSupport, depth + 1, I);
    }
    items := AssembleItems(largeSet, depth, freqSet, transactionList, minSupport);
    if records == [] {
      assert Seeds(transactionList) == {};
      NoItemsets(items);
    }
  }
}
