/** What every branch predictor shares (`branch_predictor`): the kinds of predictor
    and their names, the branch and mispredict statistics, the two-bit saturating
    counters the prediction tables hold, and the history/address hashes. */
module BranchPredictor {
  import opened Bits

  // ---------------------------------------------------------------------------
  // Predictor kinds

  /** `bpred_impl`, enumerators in the order `BPRED_IMPL_LIST` lists them. */
  datatype BpredImpl = Unknown | Gshare | Bimodal | Gtagged | Uberhistory | Tage

  /** The enumerators in declaration order. */
  const Impls: seq<BpredImpl> := [Unknown, Gshare, Bimodal, Gtagged, Uberhistory, Tage]

  /** `#X`: the name the list macro gives each enumerator. */
  function Name(k: BpredImpl): string
  {
    match k
    case Unknown => "unknown"
    case Gshare => "gshare"
    case Bimodal => "bimodal"
    case Gtagged => "gtagged"
    case Uberhistory => "uberhistory"
    case Tage => "tage"
  }

  /** The underlying value of an enumerator: its position in the list. */
  function Ordinal(k: BpredImpl): (n: nat)
    ensures n < |Impls| && Impls[n] == k
  {
    match k
    case Unknown => 0
    case Gshare => 1
    case Bimodal => 2
    case Gtagged => 3
    case Uberhistory => 4
    case Tage => 5
  }

  /** `bpred_impl_map`: every enumerator under its name. */
  const ImplMap: map<string, BpredImpl> := map[
    "unknown" := Unknown, "gshare" := Gshare, "bimodal" := Bimodal,
    "gtagged" := Gtagged, "uberhistory" := Uberhistory, "tage" := Tage]

  /** The kinds are exactly the six listed, each once: the enumerator values are
      0 to 5 and no two kinds share a name. */
  lemma KindsListed()
    ensures |Impls| == 6
    ensures forall i, j | 0 <= i < j < |Impls| :: Impls[i] != Impls[j] && Name(Impls[i]) != Name(Impls[j])
    ensures forall k: BpredImpl :: Ordinal(k) < 6
  {
    forall i, j | 0 <= i < j < |Impls| ensures Impls[i] != Impls[j] && Name(Impls[i]) != Name(Impls[j]) {
      assert Ordinal(Impls[i]) == i && Ordinal(Impls[j]) == j;
      NameInjective(Impls[i], Impls[j]);
    }
  }

  lemma NameInjective(a: BpredImpl, b: BpredImpl)
    requires a != b
    ensures Name(a) != Name(b)
  {
    assert |Name(a)| != |Name(b)| || Name(a)[0] != Name(b)[0];
  }

  /** The map holds exactly the names of the kinds. */
  lemma ImplMapNames(name: string)
    ensures name in ImplMap <==> exists k: BpredImpl :: Name(k) == name
    ensures name in ImplMap ==> Name(ImplMap[name]) == name
  {
    if name in ImplMap {
      var k := ImplMap[name];
      if name == "unknown" {
        assert k == Unknown;
      } else if name == "gshare" {
        assert k == Gshare;
      } else if name == "bimodal" {
        assert k == Bimodal;
      } else if name == "gtagged" {
        assert k == Gtagged;
      } else if name == "uberhistory" {
        assert k == Uberhistory;
      } else {
        assert k == Tage;
      }
      assert Name(k) == name;
    }
  }

  /** `lookup_impl`: the kind with the given name, and `unknown` when no kind has it. */
  function LookupImpl(name: string): (k: BpredImpl)
    ensures Name(k) == name || (k == Unknown && forall j: BpredImpl :: Name(j) != name)
  {
    ImplMapNames(name);
    if name in ImplMap then ImplMap[name] else Unknown
  }

  /** Looking up the name of a kind gives the kind back. */
  lemma LookupName(k: BpredImpl)
    ensures LookupImpl(Name(k)) == k
  {
    var r := LookupImpl(Name(k));
    if r != k {
      NameInjective(r, k);
    }
  }

  // ---------------------------------------------------------------------------
  // Two-bit saturating counters

  /** One entry of a `twobit_counter_array`. */
  type Counter2 = c: nat | c < 4

  /** A counter predicts taken in its upper half. */
  predicate Taken(c: Counter2)
  {
    c > 1
  }

  /** One training step: towards 3 on a taken outcome, towards 0 on a not-taken one,
      staying put at either end. This is what `gtagged::update` does to its entries;
      it is the assumed behaviour of `twobit_counter_array::update`. */
  function Step(c: Counter2, taken: bool): Counter2
  {
    if taken then (if c == 3 then 3 else c + 1) else (if c == 0 then 0 else c - 1)
  }

  /** `next_t` and `next_nt` of `uberhistory::update`. */
  const NextT: seq<Counter2> := [1, 2, 3, 3]
  const NextNt: seq<Counter2> := [0, 0, 1, 2]

  /** The transition tables are exactly the saturating step. */
  lemma NextTablesAreStep(c: Counter2)
    ensures NextT[c] == Step(c, true) && NextNt[c] == Step(c, false)
  {
  }

  /** Hysteresis: two outcomes in a row in the same direction make any counter
      predict that direction, while a saturated counter keeps its prediction after
      one contrary outcome. */
  lemma StepHysteresis(c: Counter2, taken: bool)
    ensures Taken(Step(Step(c, taken), taken)) == taken
    ensures Taken(Step(if taken then 0 else 3, taken)) != taken
  {
  }

  /** An update moves the counter one step towards the outcome, never away. */
  lemma StepTowards(c: Counter2, taken: bool)
    ensures taken ==> c <= Step(c, taken) <= c + 1
    ensures !taken ==> c - 1 <= Step(c, taken) <= c
    ensures Step(c, taken) == c <==> (taken && c == 3) || (!taken && c == 0)
  {
  }

  /** `twobit_counter_array::update` on one entry. */
  method UpdateCounter(pht: array<Counter2>, idx: nat, taken: bool)
    requires idx < pht.Length
    modifies pht
    ensures pht[..] == old(pht[..])[idx := Step(old(pht[idx]), taken)]
  {
    pht[idx] := Step(pht[idx], taken);
  }

  // ---------------------------------------------------------------------------
  // Indices

  /** What `predict` reports: the prediction and, through its reference
      parameter, the table index `update` is later given. */
  datatype Prediction = Prediction(taken: bool, idx: uint64)

  /** `(addr >> 2) & ((1 << lg) - 1)`: the word address cut to lg bits. */
  function WordIndex(addr: uint32, lg: nat): (idx: uint32)
    requires lg < 32
    ensures idx == (addr / 4) % Pow2(lg) && idx < Pow2(lg)
  {
    AndLowMask(addr / 4, lg);
    DivModLe(addr / 4, Pow2(lg));
    BitAnd(addr / 4, Pow2(lg) - 1)
  }

  /** `((addr >> 2) ^ h) & ((1 << lg) - 1)`: the word address xor-ed with the
      history, cut to lg bits. */
  function XorIndex(addr: uint32, history: uint64, lg: nat): (idx: uint64)
    requires lg < 64
    ensures idx < Pow2(lg)
  {
    Pow2Of64();
    XorBound(addr / 4, history, 64);
    AndLowMask(BitXor(addr / 4, history), lg);
    DivModLe(BitXor(addr / 4, history), Pow2(lg));
    BitAnd(BitXor(addr / 4, history), Pow2(lg) - 1)
  }

  /** Only the low lg bits of the address word and of the history matter: the index
      is the xor of those. */
  lemma XorIndexLowBits(addr: uint32, history: uint64, lg: nat)
    requires lg < 64
    ensures XorIndex(addr, history, lg) == BitXor((addr / 4) % Pow2(lg), history % Pow2(lg))
  {
    XorLowBits(addr / 4, history, lg);
  }

  /** With an empty history the index is the word address cut to lg bits. */
  lemma XorIndexNoHistory(addr: uint32, lg: nat)
    requires lg < 32
    ensures XorIndex(addr, 0, lg) == WordIndex(addr, lg)
  {
    XorZero(addr / 4);
  }

  // ---------------------------------------------------------------------------
  // Statistics

  /** `mispredict_map[addr]++`: a missing entry is created as 0 and incremented. */
  function Bump(m: map<uint32, nat>, addr: uint32): map<uint32, nat>
  {
    m[addr := (if addr in m then m[addr] else 0) + 1]
  }

  /** The map the increments build from a list of mispredicted branch addresses. */
  function Counts(log: seq<uint32>): map<uint32, nat>
  {
    if log == [] then map[] else Bump(Counts(log[..|log| - 1]), log[|log| - 1])
  }

  /** The map counts occurrences: an address is in it exactly when it occurs in
      the list, and then with the number of times it occurs. */
  lemma {:induction false} CountsMeaning(log: seq<uint32>)
    ensures forall a :: a in Counts(log) <==> a in log
    ensures forall a :: a in Counts(log) ==> Counts(log)[a] == multiset(log)[a] >= 1
  {
    if log != [] {
      var t, x := log[..|log| - 1], log[|log| - 1];
      assert log == t + [x];
      CountsMeaning(t);
    }
  }

  /** The statistics of `branch_predictor`: `n_branches`, `n_mispredicts` and
      `mispredict_map`. The ghost `mispredicted` lists, in order, the addresses
      whose mispredicts were entered in the map. */
  class BranchStats {
    var nBranches: nat
    var nMispredicts: nat
    var mispredictMap: map<uint32, nat>
    ghost var mispredicted: seq<uint32>

    /** At most every branch is mispredicted, and the map counts the listed
        mispredicts. */
    ghost predicate Valid()
      reads this
    {
      && nMispredicts <= nBranches
      && |mispredicted| <= nMispredicts
      && mispredictMap == Counts(mispredicted)
    }

    /** `branch_predictor(icnt)`: no branches seen yet. */
    constructor ()
      ensures Valid()
      ensures nBranches == 0 && nMispredicts == 0 && mispredictMap == map[] && mispredicted == []
    {
      nBranches, nMispredicts, mispredictMap := 0, 0, map[];
      mispredicted := [];
    }

    /** `getMap`: the mispredict counts per branch address. Every entry is at
        least one, and the entries add up to the mispredicts listed. */
    function GetMap(): (m: map<uint32, nat>)
      requires Valid()
      reads this
      ensures forall a :: a in m <==> a in mispredicted
      ensures forall a :: a in m ==> m[a] == multiset(mispredicted)[a] >= 1
    {
      CountsMeaning(mispredicted);
      mispredictMap
    }

    /** The counting every `update` ends with: one more branch, and one more
        mispredict when the prediction was wrong. */
    twostate predicate Counted(prediction: bool, taken: bool)
      reads this
    {
      && nBranches == old(nBranches) + 1
      && nMispredicts == old(nMispredicts) + (if prediction != taken then 1 else 0)
    }

    /** `n_branches++; n_mispredicts += (prediction != taken);` */
    method Count(prediction: bool, taken: bool)
      requires Valid()
      modifies this
      ensures Valid() && Counted(prediction, taken)
      ensures mispredictMap == old(mispredictMap) && mispredicted == old(mispredicted)
    {
      nBranches := nBranches + 1;
      nMispredicts := nMispredicts + (if prediction != taken then 1 else 0);
    }

    /** The counting of `uberhistory` and `gshare`, which also enter a mispredict
        in the map: `n_branches++; if (mispredict) { n_mispredicts++;
        mispredict_map[addr]++; }` */
    method CountAndMap(addr: uint32, prediction: bool, taken: bool)
      requires Valid()
      modifies this
      ensures Valid() && Counted(prediction, taken)
      ensures mispredicted == old(mispredicted) + (if prediction != taken then [addr] else [])
      ensures mispredictMap == if prediction != taken then Bump(old(mispredictMap), addr) else old(mispredictMap)
    {
      nBranches := nBranches + 1;
      if prediction != taken {
        nMispredicts := nMispredicts + 1;
        mispredictMap := Bump(mispredictMap, addr);
        mispredicted := mispredicted + [addr];
        assert mispredicted[..|mispredicted| - 1] == old(mispredicted);
      }
    }
  }
}
