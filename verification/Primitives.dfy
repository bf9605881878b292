/** Hashes and pointers, of which only the identity matters. */
module Primitives {

  type Hash = nat

  const NULL_HASH: Hash := 0

  /** A block index entry; std::map nodes never move, so a key stands for a pointer. */
  type BlockPtr = nat

  const NIL: BlockPtr := 0
}
