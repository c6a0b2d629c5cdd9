/**
 * The credential hasher (bcrypt in the system) as an uninterpreted pair of
 * functions: `hash` turns a plaintext password into a digest and `verify`
 * compares a plaintext against a digest. Nothing is assumed about them except
 * what `Sound` states.
 */
module Credentials {

  datatype Hasher = Hasher(hash: string -> string, verify: (string, string) -> bool)

  /**
   * The axioms of a password hasher: a password verifies against its own
   * digest, a digest of `p` verifies no other password, and a digest is never
   * the plaintext itself.
   */
  ghost predicate Sound(h: Hasher) {
    && (forall p :: h.verify(p, h.hash(p)))
    && (forall p, q :: h.verify(q, h.hash(p)) ==> q == p)
    && (forall p :: h.hash(p) != p)
  }

  /** A fixed tag, standing in for bcrypt's "$2a$06$" header with cost 6. */
  const Tag: string := "$2a$06$"

  /** A deterministic hasher that meets the axioms; it shows they are consistent. */
  const Witness: Hasher := Hasher(p => Tag + p, (q, d) => d == Tag + q)

  lemma WitnessIsSound()
    ensures Sound(Witness)
  {
    forall p, q | Witness.verify(q, Witness.hash(p))
      ensures q == p
    {
      assert Tag + q == Tag + p;
      assert q == (Tag + q)[|Tag|..];
      assert p == (Tag + p)[|Tag|..];
    }
    forall p
      ensures Witness.hash(p) != p
    {
      assert |Witness.hash(p)| == |Tag| + |p|;
    }
  }
}
