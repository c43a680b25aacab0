/** Closed frequent itemsets. */
module Closure {
  import opened Counting

  /** No proper superset has the same count. */
  ghost predicate IsClosed<T(!new)>(I: set<T>, txs: seq<set<T>>)
  {
    forall J :: I < J ==> Count(J, txs) != Count(I, txs)
  }

  /** The test run on each finished level: no itemset of the next frequent
      level contains `I` with an equal count. */
  ghost predicate ClosedAgainstNext<T(!new)>(I: set<T>, txs: seq<set<T>>, minSupport: real)
  {
    forall J :: J in FrequentLevel(txs, minSupport, |I| + 1) && I <= J ==> Count(J, txs) != Count(I, txs)
  }

  /** For a frequent itemset, comparing with the next level only is the same as
      comparing with every proper superset: an equal-count superset further up
      forces an equal-count, hence frequent, superset one level up. */
  lemma ClosedAgainstNextIffClosed<T(!new)>(I: set<T>, txs: seq<set<T>>, minSupport: real)
    requires IsFrequent(I, txs, minSupport)
    ensures ClosedAgainstNext(I, txs, minSupport) <==> IsClosed(I, txs)
  {
    if ClosedAgainstNext(I, txs, minSupport) && !IsClosed(I, txs) {
      var J :| I < J && Count(J, txs) == Count(I, txs);
      assert J - I != {};
      var x :| x in J - I;
      var M := I + {x};
      CountAntiMonotone(I, M, txs);
      CountAntiMonotone(M, J, txs);
      assert |M| == |I| + 1;
      MeetsMinSupportMonotone(Count(I, txs), Count(M, txs), |txs|, minSupport);
      InFrequentLevel(M, txs, minSupport, |I| + 1);
      assert false;
    }
    if IsClosed(I, txs) {
      forall J | J in FrequentLevel(txs, minSupport, |I| + 1) && I <= J ensures Count(J, txs) != Count(I, txs) {
        InFrequentLevel(J, txs, minSupport, |I| + 1);
        assert I != J by {
          assert |J| != |I|;
        }
      }
    }
  }

  /** Every frequent itemset whose next level is empty is closed. */
  lemma TopLevelClosed<T(!new)>(I: set<T>, txs: seq<set<T>>, minSupport: real)
    requires IsFrequent(I, txs, minSupport)
    requires FrequentLevel(txs, minSupport, |I| + 1) == {}
    ensures IsClosed(I, txs)
  {
    ClosedAgainstNextIffClosed(I, txs, minSupport);
  }
}
