/** Raw vectors as stored: little-endian IEEE 754 components, all of them finite. */
module RawVector {
  import opened Prelude
  import opened Bytes

  datatype Element = F32 | F16 {
    function Size(): nat {
      if F32? then 4 else 2
    }

    /** An exponent field of all ones encodes an infinity or a NaN. */
    predicate FiniteBits(bits: nat) {
      if F32? then bits / 0x80_0000 % 0x100 != 0xff else bits / 0x400 % 0x20 != 0x1f
    }
  }

  /** `validate_raw_vector_bytes`. */
  predicate VectorAccepted(vector: seq<u8>, element: Element) {
    && |vector| % element.Size() == 0
    && var components := DecodeAll(vector, element.Size());
       forall i :: 0 <= i < |components| ==> element.FiniteBits(components[i])
  }

  /** A component is finite unless its exponent is all ones, whatever its sign and fraction. */
  lemma FiniteMeans(sign: nat, exponent: nat, fraction: nat)
    requires sign < 2
    ensures exponent < 0x100 && fraction < 0x80_0000 ==>
              (F32.FiniteBits(sign * 0x8000_0000 + exponent * 0x80_0000 + fraction) <==> exponent != 0xff)
    ensures exponent < 0x20 && fraction < 0x400 ==>
              (F16.FiniteBits(sign * 0x8000 + exponent * 0x400 + fraction) <==> exponent != 0x1f)
  {
    if exponent < 0x100 && fraction < 0x80_0000 {
      assert (sign * 0x8000_0000 + exponent * 0x80_0000 + fraction) / 0x80_0000 == sign * 0x100 + exponent;
    }
    if exponent < 0x20 && fraction < 0x400 {
      assert (sign * 0x8000 + exponent * 0x400 + fraction) / 0x400 == sign * 0x20 + exponent;
    }
  }

  lemma WholeComponents(n: nat, element: Element)
    ensures n * element.Size() % element.Size() == 0
  {
    if element.F32? {
      assert n * 4 % 4 == 0;
    } else {
      assert n * 2 % 2 == 0;
    }
  }

  /** A stored vector is accepted if and only if all its components are finite. */
  lemma StoredVectorAccepted(components: seq<nat>, element: Element)
    requires forall i :: 0 <= i < |components| ==> components[i] < Pow256(element.Size())
    ensures VectorAccepted(EncodeAll(components, element.Size()), element) <==>
            forall i :: 0 <= i < |components| ==> element.FiniteBits(components[i])
  {
    DecodeEncodeAll(components, element.Size());
    WholeComponents(|components|, element);
  }
}
