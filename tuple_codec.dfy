/**
 * The tuple key codec: packs a (component index, entity index) pair into one
 * scalar key of the state map and unpacks it again. The component index takes
 * the upper 8 bits and the entity index the lower 24 bits of a 32-bit key.
 */
module TupleCodec {
  import opened Outcomes

  /** Component indices must stay below 2^8. */
  const ComponentLimit: nat := 0x100
  /** Entity indices must stay below 2^24. */
  const EntityLimit: nat := 0x100_0000
  /** Every packed key stays below 2^32. */
  const KeyLimit: nat := 0x1_0000_0000

  predicate InRange(component: nat, entity: nat) {
    component < ComponentLimit && entity < EntityLimit
  }

  /** A scalar that the codec can produce. */
  predicate IsKey(key: nat) {
    key < KeyLimit
  }

  function Pack(component: nat, entity: nat): (r: Result<nat>)
    ensures r.Success? <==> InRange(component, entity)
    ensures r.Failure? ==> r.error == RangeError
    ensures r.Success? ==> IsKey(r.value) && Unpack(r.value) == (component, entity)
  {
    if InRange(component, entity) then Success(component * EntityLimit + entity)
    else Failure(RangeError)
  }

  function Unpack(key: nat): (r: (nat, nat))
    ensures IsKey(key) ==> InRange(r.0, r.1)
  {
    (key / EntityLimit, key % EntityLimit)
  }

  /** Every key the codec can produce is the packing of what it unpacks to. */
  lemma PackUnpack(key: nat)
    requires IsKey(key)
    ensures Pack(Unpack(key).0, Unpack(key).1) == Success(key)
  {
  }

  /** Two keys that unpack to the same pair are the same key. */
  lemma UnpackInjective(k1: nat, k2: nat)
    requires Unpack(k1) == Unpack(k2)
    ensures k1 == k2
  {
  }

  /** No two distinct pairs in range pack to the same key. */
  lemma PackInjective(c1: nat, e1: nat, c2: nat, e2: nat)
    requires InRange(c1, e1) && InRange(c2, e2)
    requires Pack(c1, e1) == Pack(c2, e2)
    ensures c1 == c2 && e1 == e2
  {
  }

  /** Keys are ordered component-major: by component index, then by entity index. */
  lemma PackOrder(c1: nat, e1: nat, c2: nat, e2: nat)
    requires InRange(c1, e1) && InRange(c2, e2)
    ensures Pack(c1, e1).value < Pack(c2, e2).value <==> c1 < c2 || (c1 == c2 && e1 < e2)
  {
  }
}
