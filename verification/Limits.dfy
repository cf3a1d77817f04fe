/** The size limits of Gossip V1 (internal/gossipv1/protocol.go). */
module GossipLimits {
  const MAX_FRAME: nat := 0x10_0000
  const MAX_PREVIEW: nat := 64
  const MAX_WANT: nat := 256
  const MAX_TRANSFER: nat := 32
  const MAX_TRANSFER_BYTES: nat := 524288
  const MAX_RECEIPT: nat := 32
  const MAX_RELAY_INGEST: nat := 256
}
