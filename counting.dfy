/** Support counting over a transaction database.
    Items are values of a type parameter T; an itemset is a `set<T>` and the
    transaction list is a `seq<set<T>>` (one frozen set per record). */
module Counting {

  /** Number of transactions in `txs` of which `I` is a subset
      (the test `item.issubset(transaction)` of the counting loop). */
  function Count<T>(I: set<T>, txs: seq<set<T>>): (c: nat)
    ensures c <= |txs|
  {
    if txs == [] then 0
    else Count(I, txs[..|txs| - 1]) + (if I <= txs[|txs| - 1] then 1 else 0)
  }

  /** The positions of the transactions that contain `I`. */
  function Containing<T>(I: set<T>, txs: seq<set<T>>): set<nat>
  {
    set i: nat | i < |txs| && I <= txs[i]
  }

  /** Count is the number of indices i with I <= txs[i]. */
  lemma {:induction false} CountIsContaining<T>(I: set<T>, txs: seq<set<T>>)
    ensures Count(I, txs) == |Containing(I, txs)|
  {
    if txs != [] {
      var n := |txs| - 1;
      CountIsContaining(I, txs[..n]);
      var prev := Containing(I, txs[..n]);
      assert forall i: nat :: i in prev <==> i < n && I <= txs[i] by {
        forall i: nat | i < n ensures txs[..n][i] == txs[i] { }
      }
      if I <= txs[n] {
        assert Containing(I, txs) == prev + {n};
      } else {
        assert Containing(I, txs) == prev;
      }
    }
  }

  /** Some transaction contains `I` exactly when its count is positive. */
  lemma {:induction false} CountPositiveIff<T>(I: set<T>, txs: seq<set<T>>)
    ensures Count(I, txs) > 0 <==> exists i :: 0 <= i < |txs| && I <= txs[i]
  {
    if txs != [] {
      var n := |txs| - 1;
      CountPositiveIff(I, txs[..n]);
      if Count(I, txs[..n]) > 0 {
        var i :| 0 <= i < n && I <= txs[..n][i];
        assert I <= txs[i];
      } else if !(I <= txs[n]) {
        forall i | 0 <= i < |txs| ensures !(I <= txs[i]) {
          if i < n {
            assert txs[..n][i] == txs[i];
          }
        }
      }
    }
  }

  /** Anti-monotonicity: a larger itemset is contained in no more transactions. */
  lemma {:induction false} CountAntiMonotone<T>(I: set<T>, J: set<T>, txs: seq<set<T>>)
    requires I <= J
    ensures Count(J, txs) <= Count(I, txs)
  {
    if txs != [] {
      CountAntiMonotone(I, J, txs[..|txs| - 1]);
    }
  }

  /** Every item occurring in some transaction. */
  function Items<T>(txs: seq<set<T>>): set<T>
  {
    set i, x | 0 <= i < |txs| && x in txs[i] :: x
  }

  /** The seed 1-itemsets: one singleton per item occurring in some transaction. */
  function Seeds<T>(txs: seq<set<T>>): set<set<T>>
  {
    set i, x | 0 <= i < |txs| && x in txs[i] :: {x}
  }

  lemma SubsetCard<T>(A: set<T>, B: set<T>)
    requires A <= B
    ensures |A| <= |B|
  {
    assert B == A + (B - A);
  }

  lemma SingletonOf<T>(I: set<T>) returns (x: T)
    requires |I| == 1
    ensures I == {x}
  {
    x :| x in I;
    assert |I - {x}| == 0;
  }

  /** The seeds are exactly the singletons contained in at least one transaction. */
  lemma SeedsCharacterized<T>(I: set<T>, txs: seq<set<T>>)
    ensures I in Seeds(txs) <==> |I| == 1 && Count(I, txs) > 0
  {
    CountPositiveIff(I, txs);
    if |I| == 1 && Count(I, txs) > 0 {
      var x := SingletonOf(I);
      var i :| 0 <= i < |txs| && I <= txs[i];
      assert x in txs[i];
    }
  }

  /** The threshold test `float(count) / len(transactionList) >= minSupport`,
      in exact real arithmetic; a count over an empty list never meets it. */
  predicate MeetsMinSupport(count: nat, total: nat, minSupport: real)
  {
    total > 0 && (count as real) / (total as real) >= minSupport
  }

  /** The threshold is the cross-multiplied comparison count >= minSupport * total. */
  lemma MeetsMinSupportCrossMultiplied(count: nat, total: nat, minSupport: real)
    requires total > 0
    ensures MeetsMinSupport(count, total, minSupport) <==> count as real >= minSupport * (total as real)
  {
    var t := total as real;
    assert (count as real) / t * t == count as real;
    if (count as real) / t >= minSupport {
      assert (count as real) / t * t >= minSupport * t;
    } else {
      assert (count as real) / t * t < minSupport * t;
    }
  }

  /** A larger count over the same list meets the threshold whenever a smaller one does. */
  lemma MeetsMinSupportMonotone(c1: nat, c2: nat, total: nat, minSupport: real)
    requires c1 <= c2
    ensures MeetsMinSupport(c1, total, minSupport) ==> MeetsMinSupport(c2, total, minSupport)
  {
    if total > 0 {
      MeetsMinSupportCrossMultiplied(c1, total, minSupport);
      MeetsMinSupportCrossMultiplied(c2, total, minSupport);
    }
  }

  /** An itemset kept by the pruning step: it occurs in some transaction
      (only such itemsets get a `localSet` entry) and its support reaches minSupport. */
  predicate IsFrequent<T>(I: set<T>, txs: seq<set<T>>, minSupport: real)
  {
    Count(I, txs) > 0 && MeetsMinSupport(Count(I, txs), |txs|, minSupport)
  }

  /** Every subset of a frequent itemset is frequent (the Apriori principle). */
  lemma FrequentAntiMonotone<T>(I: set<T>, J: set<T>, txs: seq<set<T>>, minSupport: real)
    requires I <= J && IsFrequent(J, txs, minSupport)
    ensures IsFrequent(I, txs, minSupport)
  {
    CountAntiMonotone(I, J, txs);
    MeetsMinSupportMonotone(Count(J, txs), Count(I, txs), |txs|, minSupport);
  }

  /** A frequent itemset consists of items of the database, so it is no larger than the item universe. */
  lemma FrequentWithinItems<T>(I: set<T>, txs: seq<set<T>>, minSupport: real)
    requires IsFrequent(I, txs, minSupport)
    ensures I <= Items(txs) && |I| <= |Items(txs)|
  {
    CountPositiveIff(I, txs);
    var i :| 0 <= i < |txs| && I <= txs[i];
    assert forall x :: x in I ==> x in txs[i];
    SubsetCard(I, Items(txs));
  }

  /** The frequent itemsets of size k: what level k of the miner must produce. */
  function FrequentLevel<T>(txs: seq<set<T>>, minSupport: real, k: nat): set<set<T>>
  {
    set I | I <= Items(txs) && |I| == k && IsFrequent(I, txs, minSupport)
  }

  lemma InFrequentLevel<T>(I: set<T>, txs: seq<set<T>>, minSupport: real, k: nat)
    ensures I in FrequentLevel(txs, minSupport, k) <==> |I| == k && IsFrequent(I, txs, minSupport)
  {
    if IsFrequent(I, txs, minSupport) {
      FrequentWithinItems(I, txs, minSupport);
    }
  }

  /** Pruning the seeds yields exactly the frequent 1-itemsets. */
  lemma LevelOne<T>(txs: seq<set<T>>, minSupport: real)
    ensures (set I | I in Seeds(txs) && IsFrequent(I, txs, minSupport)) == FrequentLevel(txs, minSupport, 1)
  {
    forall I ensures I in Seeds(txs) && IsFrequent(I, txs, minSupport) <==> I in FrequentLevel(txs, minSupport, 1) {
      SeedsCharacterized(I, txs);
      InFrequentLevel(I, txs, minSupport, 1);
    }
  }

  /** No itemset larger than the item universe is frequent: the level loop is bounded. */
  lemma FrequentLevelEmptyBeyond<T>(txs: seq<set<T>>, minSupport: real, k: nat)
    requires k > |Items(txs)|
    ensures FrequentLevel(txs, minSupport, k) == {}
  {
    forall I | I in FrequentLevel(txs, minSupport, k) ensures false {
      FrequentWithinItems(I, txs, minSupport);
    }
  }

  /** Once a level has no frequent itemset, no larger itemset is frequent either. */
  lemma EmptyLevelIsFinal<T>(txs: seq<set<T>>, minSupport: real, j: nat, I: set<T>)
    requires FrequentLevel(txs, minSupport, j) == {}
    requires IsFrequent(I, txs, minSupport)
    ensures |I| < j
  {
    if |I| >= j {
      var S := SubsetOfSize(I, j);
      FrequentAntiMonotone(S, I, txs, minSupport);
      InFrequentLevel(S, txs, minSupport, j);
    }
  }

  lemma SubsetOfSize<T>(I: set<T>, j: nat) returns (S: set<T>)
    requires j <= |I|
    ensures S <= I && |S| == j
    decreases |I|
  {
    if j == |I| {
      S := I;
    } else {
      var x :| x in I;
      S := SubsetOfSize(I - {x}, j);
    }
  }

  /** Appending a transaction adds the singletons of its items to the seeds. */
  lemma SeedsAppend<T>(txs: seq<set<T>>, t: set<T>)
    ensures Seeds(txs + [t]) == Seeds(txs) + (set x | x in t :: {x})
  {
    var both := txs + [t];
    forall I | I in Seeds(both) ensures I in Seeds(txs) + (set x | x in t :: {x}) {
      var i, x :| 0 <= i < |both| && x in both[i] && I == {x};
      if i < |txs| {
        assert x in txs[i];
      }
    }
    forall I | I in Seeds(txs) ensures I in Seeds(both) {
      var i, x :| 0 <= i < |txs| && x in txs[i] && I == {x};
      assert x in both[i];
    }
    forall x | x in t ensures {x} in Seeds(both) {
      assert x in both[|txs|];
    }
  }

  /** The support fraction count / |txs| of an itemset, in exact arithmetic. */
  function SupportOf<T>(I: set<T>, txs: seq<set<T>>): real
    requires |txs| > 0
  {
    (Count(I, txs) as real) / (|txs| as real)
  }
}
