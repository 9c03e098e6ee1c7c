/** The parts of the `tage` predictor whose code is given: its table geometry,
    the pc hash, the history length it asks for, and the clearing of an entry. */
module Tage {
  import opened Bits
  import opened BranchPredictor

  /** `n_tables` */
  const NTables: nat := 3

  /** `table_lengths`: the history lengths of the tagged tables, longest first. */
  const TableLengths: seq<nat> := [256, 128, 64]

  /** `pc_hash`: `(pc >> 2) & ((1 << 12) - 1)`, the word address cut to 12 bits. */
  function PcHash(pc: uint32): (r: nat)
    ensures r == (pc / 4) % 4096 && r < 4096
  {
    assert Pow2(12) == 4096 by {
      Pow2Add(2, 2);
      Pow2Add(4, 4);
      Pow2Add(4, 8);
    }
    AndLowMask(pc / 4, 12);
    BitAnd(pc / 4, 4096 - 1)
  }

  /** `needed_history_length`: 0 for every predictor but tage, which needs the
      history of its longest table. */
  function NeededHistoryLength(k: BpredImpl): (n: nat)
    ensures k != Tage ==> n == 0
    ensures k == Tage ==> n == 256 && forall i | 0 <= i < NTables :: TableLengths[i] <= n
  {
    if k == Tage then TableLengths[0] else 0
  }

  /** A 2-bit and a 12-bit bit-field. */
  type Field2 = x: nat | x < 4
  type Field12 = x: nat | x < 4096

  /** `tage_entry`: the bit-fields `pred : 2`, `useful : 2` and `tag : 12`. */
  class TageEntry {
    var pred: Field2
    var useful: Field2
    var tag: Field12

    /** The model's own: `tage_entry` declares no constructor, so a fresh entry is
        taken to start cleared, as after `clear`. */
    constructor ()
      ensures pred == 0 && useful == 0 && tag == 0
    {
      pred, useful, tag := 0, 0, 0;
    }

    /** `clear`: all three fields become 0. */
    method Clear()
      modifies this
      ensures pred == 0 && useful == 0 && tag == 0
    {
      pred := 0;
      useful := 0;
      tag := 0;
    }
  }
}
