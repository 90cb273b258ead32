/** The memory record shared by the memory store and its consolidation. */
module MemoryTypes {
  import opened Base

  type Vector = seq<real>

  datatype Kind = ShortTerm | LongTerm | Episodic | Semantic

  datatype Memory = Memory(
    id: Bytes,
    agentID: Bytes,
    workspaceID: Bytes,
    kind: Kind,
    content: Bytes,
    embedding: Vector,
    metadata: map<Bytes, Bytes>,
    createdAt: int,
    version: nat,
    expiresAt: Option<int>)
  {
    predicate Expired(now: int) {
      expiresAt.Some? && expiresAt.value <= now
    }
  }
}
