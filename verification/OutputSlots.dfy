/** Equal slots of an output buffer, one per thread, after a first part of fixed size
    (src/packet/packet.wgsl:241, src/processor/http.wgsl:171). */
module OutputSlots {
  import opened Bits

  /** `first + index * stride` */
  function SlotBase(first: nat, stride: nat, i: nat): nat {
    if i == 0 then first else SlotBase(first, stride, i - 1) + stride
  }

  lemma {:induction false} SlotBaseIs(first: nat, stride: nat, i: nat)
    ensures SlotBase(first, stride, i) == first + i * stride
  {
    if i > 0 {
      SlotBaseIs(first, stride, i - 1);
      MulDistributes(stride, i - 1, 1);
    }
  }

  lemma {:induction false} SlotsAscend(first: nat, stride: nat, i: nat, j: nat)
    requires i <= j
    ensures first <= SlotBase(first, stride, i) <= SlotBase(first, stride, j)
  {
    if i < j {
      SlotsAscend(first, stride, i, j - 1);
    } else if i > 0 {
      SlotsAscend(first, stride, i - 1, i - 1);
    }
  }

  method SlotStart(first: nat, stride: nat, i: nat) returns (base: nat)
    ensures base == SlotBase(first, stride, i)
  {
    SlotBaseIs(first, stride, i);
    base := first + i * stride;
  }
}
