/** The closed-itemset variant of the level-wise miner: the same counting
    passes, plus a closure pass over each finished level that keeps the
    itemsets no counted superset one level up matches in count. */
module ClosedMiner {
  import opened Counting
  import opened Join
  import opened Closure
  import opened Apriori

  /** With the table exact for levels 1..k, the test against frequent level k
      of an itemset of frequent level k-1 decides closedness. */
  lemma ClosureTestDecides<T(!new)>(item: set<T>, freqSet: map<set<T>, nat>, txs: seq<set<T>>, minSupport: real, k: nat)
    requires k >= 2
    requires item in FrequentLevel(txs, minSupport, k - 1)
    requires TableExactBelow(freqSet, txs, minSupport, k + 1)
    ensures (forall S :: S in FrequentLevel(txs, minSupport, k) && item <= S ==> Lookup(freqSet, item) != Lookup(freqSet, S))
            <==> IsClosed(item, txs)
  {
    InFrequentLevel(item, txs, minSupport, k - 1);
    forall S | S in FrequentLevel(txs, minSupport, k) ensures Lookup(freqSet, S) == Count(S, txs) {
      InFrequentLevel(S, txs, minSupport, k);
    }
    ClosedAgainstNextIffClosed(item, txs, minSupport);
  }

  /** The table never gives an itemset of level k more than a level-(k-1)
      itemset it contains: the counts compared by the closure test can only
      be equal or decreasing. */
  lemma TableAntiMonotone<T(!new)>(I: set<T>, S: set<T>, freqSet: map<set<T>, nat>, txs: seq<set<T>>, minSupport: real, k: nat)
    requires k >= 2
    requires TableExactBelow(freqSet, txs, minSupport, k + 1)
    requires I in FrequentLevel(txs, minSupport, k - 1) && S in FrequentLevel(txs, minSupport, k) && I <= S
    ensures Lookup(freqSet, S) <= Lookup(freqSet, I)
  {
    InFrequentLevel(I, txs, minSupport, k - 1);
    InFrequentLevel(S, txs, minSupport, k);
    CountAntiMonotone(I, S, txs);
  }

  /** The closure pass over frequent level k-1 once level k is counted: each
      itemset is appended with its support exactly when it is closed. */
  method AppendClosed<T(!new)>(level: set<set<T>>, currentCSet: set<set<T>>, k: nat, freqSet: map<set<T>, nat>,
                               transactionList: seq<set<T>>, minSupport: real, closedSet: seq<(set<T>, real)>)
    returns (closedSet': seq<(set<T>, real)>)
    requires k >= 2
    requires level == FrequentLevel(transactionList, minSupport, k - 1)
    requires currentCSet == FrequentLevel(transactionList, minSupport, k)
    requires TableExactBelow(freqSet, transactionList, minSupport, k + 1)
    requires forall I :: I in ItemsetsOf(closedSet) ==> |I| < k - 1
    requires Distinct(closedSet)
    ensures forall I :: I in ItemsetsOf(closedSet') <==>
              I in ItemsetsOf(closedSet)
              || (|I| == k - 1 && IsFrequent(I, transactionList, minSupport) && IsClosed(I, transactionList))
    ensures forall p :: p in closedSet' ==>
              p in closedSet || (IsFrequent(p.0, transactionList, minSupport) && p.1 == SupportOf(p.0, transactionList))
    ensures Distinct(closedSet')
  {
    closedSet' := closedSet;
    var rest := level;
    while rest != {}
      invariant rest <= level
      invariant forall I :: I in ItemsetsOf(closedSet') <==>
                  I in ItemsetsOf(closedSet) || (I in level - rest && IsClosed(I, transactionList))
      invariant forall p :: p in closedSet' ==>
                  p in closedSet || (IsFrequent(p.0, transactionList, minSupport) && p.1 == SupportOf(p.0, transactionList))
      invariant Distinct(closedSet')
      decreases rest
    {
      var item :| item in rest;
      InFrequentLevel(item, transactionList, minSupport, k - 1);
      var isClosed := IsClosedAgainst(item, currentCSet, freqSet);
      ClosureTestDecides(item, freqSet, transactionList, minSupport, k);
      if isClosed {
        assert item !in ItemsetsOf(closedSet');
        assert forall a :: 0 <= a < |closedSet'| ==> closedSet'[a].0 in ItemsetsOf(closedSet');
        closedSet' := closedSet' + [(item, GetSupport(item, freqSet, transactionList))];
      }
      rest := rest - {item};
    }
    forall I ensures I in level <==> |I| == k - 1 && IsFrequent(I, transactionList, minSupport) {
      InFrequentLevel(I, transactionList, minSupport, k - 1);
    }
  }

  /** Mines the closed frequent itemsets: a frequent itemset is reported, with
      its support, exactly when no proper superset occurs in as many transactions. */
  method RunAprioriClosed<T(!new)>(records: seq<seq<T>>, minSupport: real)
    returns (closedSet: seq<(set<T>, real)>)
    ensures forall I :: I in ItemsetsOf(closedSet) <==>
              I != {} && IsFrequent(I, Transactions(records), minSupport) && IsClosed(I, Transactions(records))
    ensures forall p :: p in closedSet ==> IsFrequent(p.0, Transactions(records), minSupport)
                                           && p.1 == SupportOf(p.0, Transactions(records))
    ensures Distinct(closedSet)
    ensures records == [] ==> closedSet == []
  {
    var itemSet, transactionList := ItemSetTransactionList(records);
    var largeSet: seq<set<set<T>>> := [];
    closedSet := [];

    var k := 1;
    var oneCSet, freqSet := FirstLevel(itemSet, transactionList, minSupport);
    var currentLSet := oneCSet;

    k := 2;
    while currentLSet != {}
      invariant 2 <= k <= |Items(transactionList)| + 2
      invariant |largeSet| == k - 2
      invariant currentLSet == FrequentLevel(transactionList, minSupport, k - 1)
      invariant TableExactBelow(freqSet, transactionList, minSupport, k)
      invariant forall I :: I in ItemsetsOf(closedSet) <==>
                  1 <= |I| < k - 1 && IsFrequent(I, transactionList, minSupport) && IsClosed(I, transactionList)
      invariant forall p :: p in closedSet ==>
                  IsFrequent(p.0, transactionList, minSupport) && p.1 == SupportOf(p.0, transactionList)
      invariant Distinct(closedSet)
      decreases |Items(transactionList)| + 2 - k
    {
      if k - 1 > |Items(transactionList)| {
        FrequentLevelEmptyBeyond(transactionList, minSupport, k - 1);
      }
      largeSet := largeSet + [currentLSet];
      var currentCSet;
      currentLSet, currentCSet, freqSet := NextLevel(currentLSet, k, transactionList, minSupport, freqSet);
      closedSet := AppendClosed(largeSet[k - 2], currentCSet, k, freqSet, transactionList, minSupport, closedSet);
      currentLSet := currentCSet;
      k := k + 1;
    }
    forall I | IsFrequent(I, transactionList, minSupport) ensures |I| < k - 1 {
      EmptyLevelIsFinal(transactionList, minSupport, k - 1, I);
    }
    if records == [] {
      NoItemsets(closedSet);
    }
  }
}
