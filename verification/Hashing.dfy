/**
 SHA-256 as the transparency subsystem uses it: one function over inputs that carry a
 domain tag.  The tags, the NUL byte after them and the fixed width of a digest make the
 byte encoding injective, so an input is a datatype value with one constructor per tag.
 Nothing is assumed about the function; every security statement of the other modules
 returns, as computed data, two distinct inputs with one digest when it does not hold.
 */
module Hashing {

  const HEX_DIGITS: string := "0123456789abcdef"
  const DIGEST_LENGTH: nat := 64

  // app/report_integrity.py, is_valid_sha256_digest
  predicate IsSha256Digest(s: string) {
    |s| == DIGEST_LENGTH && forall i | 0 <= i < |s| :: s[i] in HEX_DIGITS
  }

  type Digest = s: string | IsSha256Digest(s)
    witness seq(DIGEST_LENGTH, _ => '0')

  type Key = string  // the raw bytes of an Ed25519 public key

  datatype HashInput =
    | EmptyInput
    | LeafInput(entryHash: Digest)
    | NodeInput(left: Digest, right: Digest)
    | EntryInput(canonical: string)

  datatype Hasher = Hasher(of: HashInput -> Digest)

  function LeafHash(h: Hasher, entryHash: Digest): Digest {
    h.of(LeafInput(entryHash))
  }

  function NodeHash(h: Hasher, left: Digest, right: Digest): Digest {
    h.of(NodeInput(left, right))
  }

  datatype Collision = Collision(first: HashInput, second: HashInput)

  /** Two different hash inputs with the same digest. */
  predicate IsCollision(h: Hasher, c: Collision) {
    c.first != c.second && h.of(c.first) == h.of(c.second)
  }
}
