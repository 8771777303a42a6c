/** Runs of consecutive numbers as sets. */
module Ranges {
  ghost function Range(at: nat, len: nat): set<nat> {
    if len == 0 then {} else Range(at, len - 1) + {at + len - 1}
  }

  lemma {:induction false} RangeHas(at: nat, len: nat)
    ensures forall b: nat :: b in Range(at, len) <==> at <= b < at + len
  {
    if len > 0 {
      RangeHas(at, len - 1);
    }
  }

  lemma {:induction false} RangeSize(at: nat, len: nat)
    ensures |Range(at, len)| == len
  {
    if len > 0 {
      RangeSize(at, len - 1);
      RangeHas(at, len - 1);
    }
  }
}
