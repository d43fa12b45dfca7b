/** Values the calf primary and worker pass around. Digests, keys and peer ids are
    32-byte strings in the source; only their equality matters, so they are numbers here. */
module Types {
  import Collections

  /** 2^32, 2^64 and 2^256 */
  const U32: nat := 0x1_0000_0000
  const U64: nat := 0x1_0000_0000_0000_0000
  const U256: nat := 0x1_0000_0000_0000_0000_0000_0000_0000_0000_0000_0000_0000_0000_0000_0000_0000_0000

  type Digest = nat
  type PublicKey = nat
  type PeerId = nat

  datatype Option<+T> = None | Some(value: T)

  /** calf/src/types/vote.rs */
  datatype Vote = Vote(authority: PublicKey, signature: nat)

  /** calf/src/types/block_header.rs */
  datatype BlockHeader = BlockHeader(
    author: PublicKey, round: nat, timestamp: nat, digests: seq<Digest>, certificatesIds: seq<Digest>)

  /** calf/src/types/certificate.rs */
  datatype Certificate =
    | Dummy
    | Genesis(seed: Digest)
    | Derived(author: PublicKey, certRound: nat, votes: seq<Vote>, headerHash: Digest, parentList: seq<Digest>)
  {
    function Round(): nat {
      if Derived? then certRound else 0
    }

    /** parents_as_hex: a set, so repeated list entries collapse. */
    function Parents(): set<Digest> {
      if Derived? then Collections.Elements(parentList) else {}
    }

    /** parents_number: the length of the list, repeats included. */
    function ParentsNumber(): nat {
      if Derived? then |parentList| else 0
    }

    /** id: the digest, except that a dummy has the all-zero id. */
    function Id(digest: Certificate -> Digest): Digest {
      if Dummy? then 0 else digest(this)
    }
  }
}
