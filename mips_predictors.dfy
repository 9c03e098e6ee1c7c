/** The older predictors of the MIPS simulator (bpred_mips). Their `gtagged`,
    `bimodal` and `lookup_impl` are the same code as the newer ones and are
    modelled by `Predictors.GTagged`, `Predictors.Bimodal` and
    `BranchPredictor.LookupImpl`; only `gshare` differs: it xors the whole
    history into the index without folding it, and keeps no mispredict map. */
module MipsPredictors {
  import opened Bits
  import opened BranchPredictor
  import Predictors

  class GShare {
    const lgPhtEntries: nat
    const pht: array<Counter2>
    const stats: BranchStats

    /** The table has 2^lg entries; no mispredict is ever entered in a map. */
    ghost predicate Valid()
      reads this, stats
    {
      && stats.Valid()
      && stats.mispredicted == []
      && lgPhtEntries < 32
      && pht.Length == Pow2(lgPhtEntries)
    }

    /** `new twobit_counter_array(1U << lg)`. */
    constructor (lgPhtEntries: nat)
      requires lgPhtEntries < 32
      ensures Valid() && fresh(pht) && fresh(stats)
      ensures this.lgPhtEntries == lgPhtEntries
      ensures forall i | 0 <= i < pht.Length :: pht[i] == 0
      ensures stats.nBranches == 0 && stats.nMispredicts == 0
    {
      this.lgPhtEntries := lgPhtEntries;
      pht := new Counter2[Pow2(lgPhtEntries)](_ => 0);
      stats := new BranchStats();
    }

    /** `predict` (const): the counter at `((addr >> 2) ^ h) & (2^lg - 1)`. */
    function Predict(addr: uint32, history: uint64): (r: Prediction)
      requires Valid()
      reads this, stats, pht
      ensures r.idx == XorIndex(addr, history, lgPhtEntries) && r.idx < pht.Length
      ensures r.taken <==> Taken(pht[r.idx])
    {
      var idx := XorIndex(addr, history, lgPhtEntries);
      Prediction(Taken(pht[idx]), idx)
    }

    /** Only the low lg bits of the history reach the index: histories that agree
        there give the same prediction. */
    lemma PredictLowHistoryBits(addr: uint32, h1: uint64, h2: uint64)
      requires Valid() && h1 % Pow2(lgPhtEntries) == h2 % Pow2(lgPhtEntries)
      ensures Predict(addr, h1) == Predict(addr, h2)
    {
      XorIndexLowBits(addr, h1, lgPhtEntries);
      XorIndexLowBits(addr, h2, lgPhtEntries);
    }

    /** For a history below 2^16 the folding of the newer gshare changes nothing:
        both versions pick the same entry of a table of the same size. */
    lemma SameIndexAsFolded(addr: uint32, history: uint64)
      requires Valid() && history < 0x1_0000
      ensures Predict(addr, history).idx == XorIndex(addr, Predictors.Fold(history), lgPhtEntries)
    {
      Predictors.FoldShortHistory(history);
    }

    /** `update`: the counter at idx steps towards the outcome and the branch is
        counted; there is no map to update. */
    method Update(addr: uint32, idx: uint64, prediction: bool, taken: bool)
      requires Valid() && idx < pht.Length
      modifies pht, stats
      ensures Valid()
      ensures pht[..] == old(pht[..])[idx := Step(old(pht[idx]), taken)]
      ensures stats.Counted(prediction, taken)
      ensures stats.mispredictMap == old(stats.mispredictMap)
    {
      UpdateCounter(pht, idx, taken);
      stats.Count(prediction, taken);
    }
  }
}
