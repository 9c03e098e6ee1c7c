/** The predictors of the simulator: `uberhistory`, `gshare`, `gtagged` and
    `bimodal`. The global branch history register is a parameter of `Predict`
    (its integer value); each predictor keeps its statistics in a `BranchStats`. */
module Predictors {
  import opened Bits
  import opened BranchPredictor

  // ---------------------------------------------------------------------------
  // uberhistory

  /** One entry of the `uberhistory` history table: the last branch address seen
      under this history, whether the entry was ever used, and its counter. */
  datatype HistoryEntry = HistoryEntry(pc: uint32, v: bool, p: uint8)

  /** A predictor indexed by the history alone, one counter per history value. */
  class UberHistory {
    const lgHistoryEntries: nat
    const historyTable: array<HistoryEntry>
    const stats: BranchStats

    /** The table has 2^lg entries, every counter holds a two-bit value, and every
        mispredict is entered in the map. */
    ghost predicate Valid()
      reads this, stats, historyTable
    {
      && stats.Valid()
      && |stats.mispredicted| == stats.nMispredicts
      && historyTable.Length == Pow2(lgHistoryEntries)
      && forall i | 0 <= i < historyTable.Length :: historyTable[i].p < 4
    }

    /** `new entry[1UL<<lg]` cleared with `memset`. */
    constructor (lgHistoryEntries: nat)
      requires lgHistoryEntries < 64
      ensures Valid() && fresh(historyTable) && fresh(stats)
      ensures this.lgHistoryEntries == lgHistoryEntries
      ensures forall i | 0 <= i < historyTable.Length :: historyTable[i] == HistoryEntry(0, false, 0)
      ensures stats.nBranches == 0 && stats.nMispredicts == 0 && stats.mispredictMap == map[]
    {
      this.lgHistoryEntries := lgHistoryEntries;
      historyTable := new HistoryEntry[Pow2(lgHistoryEntries)](_ => HistoryEntry(0, false, 0));
      stats := new BranchStats();
    }

    /** `predict`: the entry at `h() % 2^lg`; taken when its counter is above 1. */
    function Predict(addr: uint32, history: uint64): (r: Prediction)
      requires Valid()
      reads this, stats, historyTable
      ensures r.idx == history % Pow2(lgHistoryEntries) && r.idx < historyTable.Length
      ensures r.taken <==> historyTable[r.idx].p > 1
    {
      DivModLe(history, Pow2(lgHistoryEntries));
      var idx := history % Pow2(lgHistoryEntries);
      Prediction(historyTable[idx].p > 1, idx)
    }

    /** The branch address plays no part in the prediction. */
    lemma PredictIgnoresAddress(a1: uint32, a2: uint32, history: uint64)
      requires Valid()
      ensures Predict(a1, history) == Predict(a2, history)
    {
    }

    /** `update`: the entry records the branch address, becomes valid, and its
        counter takes one saturating step towards the outcome (through the
        `next_t`/`next_nt` tables); then the branch is counted, and a mispredict is
        entered in the map. */
    method Update(addr: uint32, idx: uint64, prediction: bool, taken: bool)
      requires Valid() && idx < historyTable.Length
      modifies historyTable, stats
      ensures Valid()
      ensures historyTable[..] == old(historyTable[..])[idx := HistoryEntry(addr, true, Step(old(historyTable[idx].p), taken))]
      ensures stats.Counted(prediction, taken)
      ensures stats.mispredicted == old(stats.mispredicted) + (if prediction != taken then [addr] else [])
    {
      var e := historyTable[idx];
      AndLowMask(e.p, 2);
      var q := BitAnd(e.p, 3);
      NextTablesAreStep(q);
      var p := if taken then NextT[q] else NextNt[q];
      historyTable[idx] := HistoryEntry(addr, true, p);
      stats.CountAndMap(addr, prediction, taken);
    }
  }

  // ---------------------------------------------------------------------------
  // gshare

  /** The history folded to 16 bits: the two 32-bit halves xor-ed, then the two
      16-bit halves of that. */
  function Fold(history: uint64): (f: nat)
    ensures f < 0x1_0000
  {
    FoldSteps(history);
    var f := BitXor(history / 0x1_0000_0000, BitAnd(history, 0xFFFF_FFFF));
    BitXor(f / 0x1_0000, BitAnd(f, 0xFFFF))
  }

  /** The masks of the two folding steps keep the low halves, and each step
      halves the width. */
  lemma FoldSteps(history: uint64)
    ensures var hi, lo := history / 0x1_0000_0000, history % 0x1_0000_0000;
      var f := BitXor(hi, BitAnd(history, 0xFFFF_FFFF));
      && hi < 0x1_0000_0000 && BitAnd(history, 0xFFFF_FFFF) == lo
      && f == BitXor(hi, lo) < 0x1_0000_0000
      && BitAnd(f, 0xFFFF) == f % 0x1_0000
      && BitXor(f / 0x1_0000, BitAnd(f, 0xFFFF)) < 0x1_0000
  {
    Pow2Of32();
    var hi, lo := history / 0x1_0000_0000, history % 0x1_0000_0000;
    DivBelow(history, 0x1_0000_0000, 0x1_0000_0000);
    AndLowMask(history, 32);
    XorBound(hi, lo, 32);
    var f := BitXor(hi, lo);
    Pow2Of16();
    AndLowMask(f, 16);
    DivBelow(f, 0x1_0000, 0x1_0000);
    XorBound(f / 0x1_0000, f % 0x1_0000, 16);
  }

  /** The folded history is the xor of the four 16-bit chunks of the history. */
  lemma FoldChunks(history: uint64)
    ensures var hi, lo := history / 0x1_0000_0000, history % 0x1_0000_0000;
      Fold(history) == BitXor(BitXor(hi / 0x1_0000, lo / 0x1_0000), BitXor(hi % 0x1_0000, lo % 0x1_0000))
  {
    var hi, lo := history / 0x1_0000_0000, history % 0x1_0000_0000;
    FoldSteps(history);
    Pow2Of16();
    XorSplit(hi, lo, 16);
  }

  /** A history below 2^16 folds to itself. */
  lemma FoldShortHistory(history: uint64)
    requires history < 0x1_0000
    ensures Fold(history) == history
  {
    FoldChunks(history);
    XorZero(0);
    XorZero(history);
  }

  /** gshare: a table of 2^lg two-bit counters indexed by the word address xor-ed
      with the folded history. */
  class GShare {
    const lgPhtEntries: nat
    const pht: array<Counter2>
    const stats: BranchStats

    /** The table has 2^lg entries and every mispredict is entered in the map. */
    ghost predicate Valid()
      reads this, stats
    {
      && stats.Valid()
      && |stats.mispredicted| == stats.nMispredicts
      && lgPhtEntries < 32
      && pht.Length == Pow2(lgPhtEntries)
    }

    /** `new twobit_counter_array(1U << lg)`. */
    constructor (lgPhtEntries: nat)
      requires lgPhtEntries < 32
      ensures Valid() && fresh(pht) && fresh(stats)
      ensures this.lgPhtEntries == lgPhtEntries
      ensures forall i | 0 <= i < pht.Length :: pht[i] == 0
      ensures stats.nBranches == 0 && stats.nMispredicts == 0 && stats.mispredictMap == map[]
    {
      this.lgPhtEntries := lgPhtEntries;
      pht := new Counter2[Pow2(lgPhtEntries)](_ => 0);
      stats := new BranchStats();
    }

    /** `predict`: the counter at `((addr >> 2) ^ fold(h)) & (2^lg - 1)`. */
    function Predict(addr: uint32, history: uint64): (r: Prediction)
      requires Valid()
      reads this, stats, pht
      ensures r.idx == XorIndex(addr, Fold(history), lgPhtEntries) && r.idx < pht.Length
      ensures r.taken <==> Taken(pht[r.idx])
    {
      var idx := XorIndex(addr, Fold(history), lgPhtEntries);
      Prediction(Taken(pht[idx]), idx)
    }

    /** With an empty history the index is the word address cut to lg bits. */
    lemma PredictNoHistory(addr: uint32)
      requires Valid()
      ensures Predict(addr, 0).idx == WordIndex(addr, lgPhtEntries)
    {
      FoldShortHistory(0);
      XorIndexNoHistory(addr, lgPhtEntries);
    }

    /** `update`: the counter at idx steps towards the outcome; the branch is
        counted, and a mispredict is entered in the map. */
    method Update(addr: uint32, idx: uint64, prediction: bool, taken: bool)
      requires Valid() && idx < pht.Length
      modifies pht, stats
      ensures Valid()
      ensures pht[..] == old(pht[..])[idx := Step(old(pht[idx]), taken)]
      ensures stats.Counted(prediction, taken)
      ensures stats.mispredicted == old(stats.mispredicted) + (if prediction != taken then [addr] else [])
    {
      UpdateCounter(pht, idx, taken);
      stats.CountAndMap(addr, prediction, taken);
    }
  }

  // ---------------------------------------------------------------------------
  // gtagged

  /** `(addr >> 2) | ((h & (2^32 - 1)) << 32)`: the word address in the low half,
      the low 32 bits of the history in the high half. */
  function TagKey(addr: uint32, history: uint64): (key: uint64)
    ensures key == addr / 4 + (history % 0x1_0000_0000) * 0x1_0000_0000
  {
    Pow2Of32();
    AndLowMask(history, 32);
    LowPartBound(history % 0x1_0000_0000, 0x1_0000_0000, 0x1_0000_0000, addr / 4);
    var high := BitAnd(history, 0x1_0000_0000 - 1) * 0x1_0000_0000;
    DivModUnique(high, 0x1_0000_0000, BitAnd(history, 0x1_0000_0000 - 1), 0);
    OrCommutes(addr / 4, high);
    OrDisjointAdd(high, addr / 4, 32);
    BitOr(addr / 4, high)
  }

  /** The key splits back into its two parts, so two branches share a key exactly
      when their word addresses and the low 32 bits of their histories agree. */
  lemma TagKeyParts(addr: uint32, history: uint64)
    ensures TagKey(addr, history) / 0x1_0000_0000 == history % 0x1_0000_0000
    ensures TagKey(addr, history) % 0x1_0000_0000 == addr / 4
  {
    DivModUnique(TagKey(addr, history), 0x1_0000_0000, history % 0x1_0000_0000, addr / 4);
  }

  lemma TagKeyInjective(a1: uint32, h1: uint64, a2: uint32, h2: uint64)
    ensures TagKey(a1, h1) == TagKey(a2, h2) <==> a1 / 4 == a2 / 4 && h1 % 0x1_0000_0000 == h2 % 0x1_0000_0000
  {
    TagKeyParts(a1, h1);
    TagKeyParts(a2, h2);
  }

  /** Every counter of a gtagged table holds a two-bit value. */
  ghost predicate TwoBitEntries(m: map<uint64, uint8>)
  {
    forall k | k in m :: m[k] < 4
  }

  /** A key predicts taken once it has a counter above 1; an unseen key predicts
      not taken. */
  predicate PredictsTaken(m: map<uint64, uint8>, key: uint64)
  {
    key in m && m[key] > 1
  }

  /** The table after one training at key: `pht[idx]` creates the entry as 0, and
      it steps towards the outcome. */
  function Train(m: map<uint64, uint8>, key: uint64, taken: bool): (r: map<uint64, uint8>)
    requires TwoBitEntries(m)
    ensures TwoBitEntries(r)
  {
    m[key := Step(if key in m then m[key] else 0, taken)]
  }

  /** From an unseen key, one taken outcome is not enough: the branch predicts
      taken only after the second. */
  lemma TwoTakenToPredictTaken(m: map<uint64, uint8>, key: uint64)
    requires TwoBitEntries(m) && key !in m
    ensures !PredictsTaken(m, key)
    ensures !PredictsTaken(Train(m, key, true), key)
    ensures PredictsTaken(Train(Train(m, key, true), key, true), key)
  {
  }

  /** Training one key leaves every other key as it was. */
  lemma TrainOtherKeys(m: map<uint64, uint8>, key: uint64, taken: bool, other: uint64)
    requires TwoBitEntries(m) && other != key
    ensures other in Train(m, key, taken) <==> other in m
    ensures other in m ==> Train(m, key, taken)[other] == m[other]
  {
  }

  /** gtagged: a map from the history:address key to a two-bit counter. */
  class GTagged {
    var pht: map<uint64, uint8>
    const stats: BranchStats

    /** Counters hold two-bit values; the mispredict map is never used. */
    ghost predicate Valid()
      reads this, stats
    {
      stats.Valid() && stats.mispredicted == [] && TwoBitEntries(pht)
    }

    constructor ()
      ensures Valid() && fresh(stats)
      ensures pht == map[]
      ensures stats.nBranches == 0 && stats.nMispredicts == 0
    {
      pht := map[];
      stats := new BranchStats();
    }

    /** `predict`: the key of address and history; taken when the key has been
        trained to a counter above 1. */
    function Predict(addr: uint32, history: uint64): (r: Prediction)
      requires Valid()
      reads this, stats
      ensures r.idx == TagKey(addr, history)
      ensures r.taken == PredictsTaken(pht, r.idx)
    {
      var key := TagKey(addr, history);
      if key !in pht then Prediction(false, key) else Prediction(pht[key] > 1, key)
    }

    /** `update`: the counter at the key, created as 0, steps towards the outcome;
        the branch is counted. */
    method Update(addr: uint32, idx: uint64, prediction: bool, taken: bool)
      requires Valid()
      modifies this, stats
      ensures Valid()
      ensures pht == Train(old(pht), idx, taken)
      ensures stats.Counted(prediction, taken)
      ensures stats.mispredictMap == old(stats.mispredictMap)
    {
      var e: uint8 := if idx in pht then pht[idx] else 0;
      if taken {
        e := if e == 3 then 3 else e + 1;
      } else {
        e := if e == 0 then 0 else e - 1;
      }
      pht := pht[idx := e];
      stats.Count(prediction, taken);
    }
  }

  // ---------------------------------------------------------------------------
  // bimodal

  /** The choice counter is left alone exactly when its bias disagreed with the
      outcome but the table it selected predicted the outcome. */
  predicate ChoiceKept(choice: Counter2, selected: Counter2, taken: bool)
  {
    Taken(choice) != taken && Taken(selected) == taken
  }

  /** bimodal: a choice table indexed by the word address selects, per branch,
      one of two direction tables indexed by the word address xor-ed with the
      history. */
  class Bimodal {
    const lgCPhtEntries: nat
    const lgPhtEntries: nat
    const cPht: array<Counter2>
    const tPht: array<Counter2>
    const ntPht: array<Counter2>
    const stats: BranchStats

    /** Three separate tables of the configured sizes; the mispredict map is never
        used. */
    ghost predicate Valid()
      reads this, stats
    {
      && stats.Valid()
      && stats.mispredicted == []
      && lgCPhtEntries < 32 && lgPhtEntries < 32
      && cPht.Length == Pow2(lgCPhtEntries)
      && tPht.Length == Pow2(lgPhtEntries) && ntPht.Length == Pow2(lgPhtEntries)
      && cPht != tPht && cPht != ntPht && tPht != ntPht
    }

    constructor (lgCPhtEntries: nat, lgPhtEntries: nat)
      requires lgCPhtEntries < 32 && lgPhtEntries < 32
      ensures Valid() && fresh(cPht) && fresh(tPht) && fresh(ntPht) && fresh(stats)
      ensures this.lgCPhtEntries == lgCPhtEntries && this.lgPhtEntries == lgPhtEntries
      ensures forall i | 0 <= i < cPht.Length :: cPht[i] == 0
      ensures forall i | 0 <= i < tPht.Length :: tPht[i] == 0
      ensures forall i | 0 <= i < ntPht.Length :: ntPht[i] == 0
      ensures stats.nBranches == 0 && stats.nMispredicts == 0
    {
      this.lgCPhtEntries := lgCPhtEntries;
      this.lgPhtEntries := lgPhtEntries;
      cPht := new Counter2[Pow2(lgCPhtEntries)](_ => 0);
      ntPht := new Counter2[Pow2(lgPhtEntries)](_ => 0);
      tPht := new Counter2[Pow2(lgPhtEntries)](_ => 0);
      stats := new BranchStats();
    }

    /** `predict`: when the choice counter of the branch is below 2 the not-taken
        table decides, otherwise the taken table; the history is not folded. */
    function Predict(addr: uint32, history: uint64): (r: Prediction)
      requires Valid()
      reads this, stats, cPht, tPht, ntPht
      ensures r.idx == XorIndex(addr, history, lgPhtEntries) && r.idx < tPht.Length
      ensures var choice := cPht[WordIndex(addr, lgCPhtEntries)];
        r.taken == if choice < 2 then Taken(ntPht[r.idx]) else Taken(tPht[r.idx])
    {
      var c := WordIndex(addr, lgCPhtEntries);
      var idx := XorIndex(addr, history, lgPhtEntries);
      if cPht[c] < 2 then Prediction(ntPht[idx] > 1, idx) else Prediction(tPht[idx] > 1, idx)
    }

    /** With the prediction made on the same state, the choice counter is kept
        exactly when the prediction was right although the choice's bias was
        wrong. */
    lemma ChoiceKeptWhenRightDespiteBias(addr: uint32, history: uint64, taken: bool)
      requires Valid()
      ensures var r := Predict(addr, history);
        var choice := cPht[WordIndex(addr, lgCPhtEntries)];
        var selected := if choice < 2 then ntPht[r.idx] else tPht[r.idx];
        ChoiceKept(choice, selected, taken) <==> r.taken == taken && Taken(choice) != taken
    {
    }

    /** `update`: only the table the choice counter selects is trained; the choice
        counter is trained unless `ChoiceKept`; the branch is counted. */
    method Update(addr: uint32, idx: uint64, prediction: bool, taken: bool)
      requires Valid() && idx < tPht.Length
      modifies cPht, tPht, ntPht, stats
      ensures Valid()
      ensures var c := WordIndex(addr, lgCPhtEntries);
        var useNt := old(cPht[c]) < 2;
        && ntPht[..] == (if useNt then old(ntPht[..])[idx := Step(old(ntPht[idx]), taken)] else old(ntPht[..]))
        && tPht[..] == (if useNt then old(tPht[..]) else old(tPht[..])[idx := Step(old(tPht[idx]), taken)])
      ensures var c := WordIndex(addr, lgCPhtEntries);
        var selected := if old(cPht[c]) < 2 then old(ntPht[idx]) else old(tPht[idx]);
        cPht[..] == if ChoiceKept(old(cPht[c]), selected, taken) then old(cPht[..])
          else old(cPht[..])[c := Step(old(cPht[c]), taken)]
      ensures stats.Counted(prediction, taken)
      ensures stats.mispredictMap == old(stats.mispredictMap)
    {
      var c := WordIndex(addr, lgCPhtEntries);
      if cPht[c] < 2 {
        if !(taken && ntPht[idx] > 1) {
          UpdateCounter(cPht, c, taken);
        }
        UpdateCounter(ntPht, idx, taken);
      } else {
        if !(!taken && tPht[idx] < 2) {
          UpdateCounter(cPht, c, taken);
        }
        UpdateCounter(tPht, idx, taken);
      }
      stats.Count(prediction, taken);
    }
  }
}
