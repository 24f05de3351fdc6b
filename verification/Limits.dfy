/** The resource limits of the decoders (crates/compact-core/src/limits.rs). */
module Limits {
  const MAX_DECODED_BYTES: nat := 256 * 1024 * 1024
  const MAX_DECODED_VALUES: nat := 16 * 1024 * 1024
  const MAX_COLLECTION_ENTRIES: nat := 1_000_000
  const MAX_ENCODED_BLOCK_BYTES: nat := 256 * 1024 * 1024
  const MAX_STREAM_BLOCKS: nat := 1_000_000
  const MAX_PARALLEL_WORKERS: nat := 256
}
