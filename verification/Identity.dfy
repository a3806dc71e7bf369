/** Participants, endpoints and their addresses. */
module Identity {
  import opened Wire

  type Prefix = p: Bytes | |p| == 12 witness [0, 0, 0, 0, 0, 0, 0, 0, 0, 0, 0, 0]

  datatype RawGuid = Guid(prefix: Bytes, entity: Bytes)

  /** A participant prefix of 12 bytes and an entity id of 4. */
  type Guid = g: RawGuid | |g.prefix| == 12 && |g.entity| == 4
    witness Guid([0, 0, 0, 0, 0, 0, 0, 0, 0, 0, 0, 0], [0, 0, 0, 0])

  const ZERO_GUID: Guid := Guid([0, 0, 0, 0, 0, 0, 0, 0, 0, 0, 0, 0], [0, 0, 0, 0])

  datatype Locator = Locator(kind: int, port: nat, address: Bytes)

  const INVALID: int := -1
  const UDPV4: int := 1
  const UDPV6: int := 2

  /** The locator can be sent to. */
  predicate Reachable(l: Locator)
  {
    l.kind == UDPV4 || l.kind == UDPV6
  }

  lemma ReachableExact(l: Locator)
    ensures Reachable(l) <==> l.kind == 1 || l.kind == 2
  {
  }
}
