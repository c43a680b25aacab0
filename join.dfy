/** Candidate generation by self-join of a frequent level. */
module Join {
  import opened Counting

  /** All unions of two members of `itemSet` that have exactly `length` items
      (a set, so a union reached from several pairs appears once). */
  function JoinSet<T>(itemSet: set<set<T>>, length: int): (r: set<set<T>>)
    ensures forall U :: U in r ==> |U| == length
  {
    set i, j | i in itemSet && j in itemSet && |i + j| == length :: i + j
  }

  /** Joining itemsets of size length-1: every candidate is the union of two
      distinct members, each a proper subset of it. */
  lemma JoinOfDistinct<T>(itemSet: set<set<T>>, length: int, U: set<T>) returns (i: set<T>, j: set<T>)
    requires forall I :: I in itemSet ==> |I| == length - 1
    requires U in JoinSet(itemSet, length)
    ensures i in itemSet && j in itemSet && i != j
    ensures i < U && j < U && U == i + j
  {
    i, j :| i in itemSet && j in itemSet && |i + j| == length && U == i + j;
    assert |i| == length - 1 && |j| == length - 1 && |U| == length;
    assert i != U && j != U;
  }

  /** A set of size k+1 all of whose k-subsets are in `itemSet` is generated by the join. */
  lemma JoinComplete<T>(itemSet: set<set<T>>, k: nat, U: set<T>)
    requires k >= 1 && |U| == k + 1
    requires forall x :: x in U ==> U - {x} in itemSet
    ensures U in JoinSet(itemSet, k + 1)
  {
    var a :| a in U;
    assert |U - {a}| == k;
    var b :| b in U - {a};
    assert (U - {a}) + (U - {b}) == U;
  }

  /** The Apriori level step: pruning the self-join of frequent level k-1 gives
      exactly frequent level k, so no frequent itemset is ever missed. */
  lemma LevelStep<T>(txs: seq<set<T>>, minSupport: real, k: nat)
    requires k >= 2
    ensures (set I | I in JoinSet(FrequentLevel(txs, minSupport, k - 1), k) && IsFrequent(I, txs, minSupport))
            == FrequentLevel(txs, minSupport, k)
  {
    var prev := FrequentLevel(txs, minSupport, k - 1);
    forall I ensures I in JoinSet(prev, k) && IsFrequent(I, txs, minSupport) <==> I in FrequentLevel(txs, minSupport, k) {
      InFrequentLevel(I, txs, minSupport, k);
      if I in FrequentLevel(txs, minSupport, k) {
        forall x | x in I ensures I - {x} in prev {
          FrequentAntiMonotone(I - {x}, I, txs, minSupport);
          InFrequentLevel(I - {x}, txs, minSupport, k - 1);
        }
        JoinComplete(prev, k - 1, I);
      }
    }
  }

  /** A frequent level never outnumbers the candidate level it was pruned from. */
  lemma SurvivorsBounded<T>(txs: seq<set<T>>, minSupport: real, k: nat)
    requires k >= 2
    ensures |FrequentLevel(txs, minSupport, k)| <= |JoinSet(FrequentLevel(txs, minSupport, k - 1), k)|
  {
    LevelStep(txs, minSupport, k);
    SubsetCard(FrequentLevel(txs, minSupport, k), JoinSet(FrequentLevel(txs, minSupport, k - 1), k));
  }
}
