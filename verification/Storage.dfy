/** Solidity's storage mappings. */
module Storage {
  /** A storage mapping: every key reads 0 until written, and 0 is never kept, so two
      mappings that read alike are equal. */
  type Mapping = m: map<nat, nat> | forall k :: k in m ==> m[k] != 0

  function Read(m: Mapping, k: nat): nat {
    if k in m then m[k] else 0
  }

  function Write(m: Mapping, k: nat, v: nat): (r: Mapping)
    ensures forall j: nat :: Read(r, j) == if j == k then v else Read(m, j)
  {
    if v == 0 then m - {k} else m[k := v]
  }

  lemma MappingExtensional(m: Mapping, n: Mapping)
    requires forall k: nat :: Read(m, k) == Read(n, k)
    ensures m == n
  {
    forall k: nat
      ensures k in m <==> k in n
      ensures k in m ==> m[k] == n[k]
    {
      assert Read(m, k) == Read(n, k);
    }
  }
}
