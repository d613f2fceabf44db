# ParallelHash128 streaming engine, modelled in Dafny

This project models a Rust implementation of ParallelHash (section 6 of NIST SP
800-185, the 128-bit variant) and proves properties of the model. It covers two
parts of the Rust code.

- The integer encoders `left_encode` and `right_encode` of `src/utils.rs`. They
  implement section 2.3.1 of SP 800-185. They are modelled in `utils.dfy`,
  module `Utils`.
- The ParallelHash hasher of `src/parallel_hash.rs`. It has an outer cSHAKE128
  context, a block counter, a block size and at most one buffered partial leaf
  (`IncompleteState`). Calls to `update` cut the input into `block_size` leaves;
  `finalize` flushes the partial leaf and absorbs two length encodings. This part
  is modelled in `parallel_hash.dfy`, module `ParallelHashing`.

The cSHAKE128 primitive comes from an outside crate, so `cshake.dfy` (module
`CShake`) treats it as opaque:

- A `Context` records its function name, its customization string and every
  byte absorbed so far.
- `Absorb` appends bytes to the context.
- Squeezing is a value of type `Xof`: any function from a context and a length
  `n` that returns exactly `n` bytes. The hasher is built over such a function,
  which its caller supplies.

Both Rust files change state in place, and the model keeps that form.

- The encoders `LeftEncode` and `RightEncode` are methods on a 9-byte `array`.
  They follow the Rust steps: write `to_be_bytes` (`CopyBigEndian`, at any
  offset with room for eight bytes), scan for zero bytes (`CountLeadingZeros`,
  over any range of the array), store the count byte. They return the start
  index `i` of the slice `b[i..]` that the Rust function returns.
- The slice is proved equal to a pure function, `LeftEncoding` or
  `RightEncoding`. Those are defined from `Digits`, the minimal big-endian bytes
  of the value, with their count in front or behind. So the code's
  scan-and-slice is proved to compute the minimal encoding.
- The hasher is the class `ParallelHash`, with the Rust struct's fields.
  `Update` is proved to change those fields exactly as the function `Updated`
  describes, and its helper `AbsorbInputBlocks` exactly as `AbsorbFullBlocks`
  does. `Finalize` is proved to write exactly the bytes `Finalized` describes.
  These functions work on `Engine`, a value that holds the same fields.
  Two ghost fields sit beside the real ones:
  - `message` records every byte ever delivered to `Update`;
  - `spent` models `finalize` taking `self` by value.

The model follows the code as written. It departs from SP 800-185 in three
places; a fourth point shows where the two encoders differ on zero.

- **A completed partial leaf is never absorbed.** Input can complete a
  buffered partial block. `update` then reads that leaf's 32-byte digest and
  counts the block, but it never absorbs the digest into the outer context
  (src/parallel_hash.rs:55-58). `finalize`, by contrast, does absorb the digest
  when it flushes a partial leaf (src/parallel_hash.rs:107). So the context that `finalize` squeezes
  depends on how the message is split across `update` calls; the digests then
  differ too, as far as cSHAKE128 is collision resistant. Section 6 of
  SP 800-185 absorbs the digest of every block, so the result should not depend
  on the split. `CompletedLeafDropped` states the dropped digest for any input
  that completes the block: the outer context gains only the digests of the
  complete chunks after it.
  `SplitChangesOuterContext` works through an example:
  - block size 5, message "msg to hash";
  - one call versus calls of 3, 2, 1, 4 and 1 bytes;
  - the two end in different outer contexts and squeeze different contexts.
  Only the block accounting is proved independent of the split
  (`SplitIndependentAccounting`).
- **A block size of 0 is not rejected** (src/parallel_hash.rs:32-42). SP 800-185
  requires the block size `B` to be positive. The code's first later `update`
  would then divide by zero.
  The constructors require `0 < blockSize`.
- **`right_encode(0)` is `[0x00]`.** The zero scan covers all eight bytes
  (src/utils.rs:12), so zero gets no data byte. Section 2.3.1 of SP 800-185
  gives `00 01`. This shows up in the digest of an empty message
  (`EmptyMessageDigest`).
- **`left_encode(0)` is `[0x01, 0x00]`.** This agrees with section 2.3.1. Its
  zero scan covers only seven bytes (src/utils.rs:4), so zero keeps one data
  byte; the contrast with `right_encode(0)` is what matters.

## Model

| member | source | states |
|---|---|---|
| `Utils.LeadingZerosMeaning` | src/utils.rs:4 | the `take_while` count is the length of the all-zero prefix: every byte before it is 0 and the byte at it, if any, is not |
| `Utils.LeadingZerosUnique` | src/utils.rs:4 | conversely, any `n` with a zero prefix of length `n` followed by a nonzero byte or the end is the count |
| `Utils.CountLeadingZeros` | src/utils.rs:4 | the scan over `b[lo..hi]` returns exactly `LeadingZeros(b[lo..hi])`, reading the buffer only |
| `Utils.CopyBigEndian` | src/utils.rs:3 | `copy_from_slice(&val.to_be_bytes())` writes the 8 big-endian bytes at the offset and leaves every other byte of the buffer as it was |
| `Utils.Digits` | src/utils.rs:3-5 | the minimal big-endian bytes of a nonzero value start with a nonzero byte |
| `Utils.DigitsPadded` | src/utils.rs:3 | below 256^width, the `width` big-endian bytes are the minimal bytes with zero bytes in front, and there are at most `width` minimal bytes |
| `Utils.DigitsFit` | src/utils.rs:3 | a `u64` has at most 8 minimal big-endian bytes, so the count byte fits in a `u8` |
| `Utils.DigitsValue` | src/utils.rs:3 | the minimal big-endian bytes denote the value |
| `Utils.LeftScan` | src/utils.rs:3-6 | the scan over the first seven bytes of `to_be_bytes` stops at index `i <= 7`; the count byte `8 - i` followed by the bytes from `i` on is exactly `LeftEncoding(val)` |
| `Utils.RightScan` | src/utils.rs:11-14 | the scan over all eight bytes stops at `i`; the bytes from `i` on followed by the count byte `8 - i` are exactly `RightEncoding(val)` |
| `Utils.LeftEncode` | src/utils.rs:2-7 | writes only the caller's 9-byte buffer: `b[1..]` gets the big-endian bytes, then `b[i]` gets `8 - i` with `i <= 7`; the returned suffix `b[i..]` is `LeftEncoding(val)`: the count of data bytes, then the minimal big-endian bytes, or `01 00` for zero |
| `Utils.RightEncode` | src/utils.rs:10-15 | writes only the caller's 9-byte buffer: `b[..8]` gets the big-endian bytes and `b[8]` gets `8 - i` with `i <= 8`; the returned suffix `b[i..]` is `RightEncoding(val)`: the minimal big-endian bytes, then their count |
| `Utils.LeftEncodingMeaning` | src/utils.rs:2-7 | `left_encode` returns 2 to 9 bytes; the first byte is the number of bytes after it; those bytes denote `val` in big-endian; the first of them is nonzero unless `val == 0`; `val == 0` exactly when the result is `[1, 0]` |
| `Utils.RightEncodingMeaning` | src/utils.rs:10-15 | `right_encode` returns 1 to 9 bytes; the last byte is the number of bytes before it; those bytes denote `val` in big-endian with no leading zero byte; `val == 0` exactly when the result is `[0]` |
| `Utils.EncodingVectors` | src/utils.rs:2-15 | `left_encode(450000) = 03 06 DD D0`, `right_encode(450000) = 06 DD D0 03`, `left_encode(0) = 01 00`, `right_encode(0) = 00` |
| `Utils.SameDataBytes` | src/utils.rs:2-15 | for a nonzero value, `left_encode` and `right_encode` carry the same data bytes, the minimal big-endian bytes, and the same count byte; only its position differs |
| `Utils.LeftDecodeRoundTrip` | src/utils.rs:2-7 | a left encoding at the front of any byte string decodes to `val` and its own length |
| `Utils.LeftDecodePrefix` | src/utils.rs:2-7 | the same, for any byte string that the left encoding is a prefix of |
| `Utils.RightDecodeRoundTrip` | src/utils.rs:10-15 | a right encoding at the end of any byte string decodes to `val` and its own length |
| `ParallelHashing.LeafDigest` | src/parallel_hash.rs:72-80 | a leaf digest is exactly 32 bytes, squeezed from a fresh context with empty function name and customization, whatever output length is finally requested |
| `ParallelHashing.LeafDigests` | src/parallel_hash.rs:69-80 | the digests of the complete chunks of the input take 32 bytes per chunk, `32 * (len / block_size)` in all |
| `ParallelHashing.LeafDigestsInOrder` | src/parallel_hash.rs:69-86 | for whole chunks followed by a shorter tail, the absorbed bytes are each chunk's own 32-byte digest, in chunk order; the tail contributes nothing |
| `ParallelHashing.LeafDigestsIgnoreTail` | src/parallel_hash.rs:69-71 | a tail shorter than a block after whole blocks adds no leaf digest |
| `ParallelHashing.AbsorbFullBlocks` | src/parallel_hash.rs:69-97 | the chunk loop and tail buffering leave a well-formed engine: a tail, if any, is shorter than a block; same block size and domain; `blocks` never decreases; the outer context is only extended |
| `ParallelHashing.FullBlocksShape` | src/parallel_hash.rs:69-97 | the chunk loop absorbs exactly the digests of the complete chunks, counts `len / block_size` blocks, and leaves a partial leaf exactly when `len % block_size != 0` |
| `ParallelHashing.Updated` | src/parallel_hash.rs:46-98 | `update` keeps a held partial leaf well formed (`0 < absorbed < block_size`, a leaf context holding exactly `absorbed` bytes); keeps the block size, function name and customization; never decreases `blocks`; only appends to the outer context |
| `ParallelHashing.Fed` | src/parallel_hash.rs:46-98 | a sequence of `update` calls keeps the same invariants: well-formed partial leaf, same block size and domain, outer context only extended |
| `ParallelHashing.Flushed` | src/parallel_hash.rs:102-109 | `finalize`'s flush leaves no partial block, counts one more block exactly when one was held, keeps the domain and only extends the outer context |
| `ParallelHashing.Finalized` | src/parallel_hash.rs:100-117 | `finalize` produces exactly `output.len()` bytes |
| `ParallelHashing.InitialAccounts` | src/parallel_hash.rs:36-41 | a new hasher has consumed the empty message: `blocks == 0` and no partial block |
| `ParallelHashing.UpdatedAccounts` | src/parallel_hash.rs:46-98 | one `update` keeps the block accounting: afterwards `blocks`, the partial block's presence, its `absorbed` and its bytes match the longer message |
| `ParallelHashing.FullBlocksAccounts` | src/parallel_hash.rs:69-97 | the full-block loop and tail buffering keep the block accounting |
| `ParallelHashing.PartialGrowsAccounts` | src/parallel_hash.rs:59-64 | input too short to complete the partial block is absorbed into it, and the accounting still holds |
| `ParallelHashing.FedAccounts` | src/parallel_hash.rs:46-98 | any sequence of `update` calls keeps the block accounting for the concatenated input |
| `ParallelHashing.BlockAccounting` | src/parallel_hash.rs:50-96 | after updates delivering `T` bytes in all: `blocks == T / block_size`; a partial block exists iff `T % block_size != 0`; it then holds `absorbed == T % block_size`, the last `T % block_size` bytes of the message |
| `ParallelHashing.SplitIndependentAccounting` | src/parallel_hash.rs:50-96 | two splits of the same message give equal `blocks` and equal partial blocks |
| `ParallelHashing.EmptyUpdate` | src/parallel_hash.rs:49-97 | `update` with empty input leaves `blocks`, the partial block and the outer context unchanged |
| `ParallelHashing.CompletedLeafDropped` | src/parallel_hash.rs:51-97 | input that completes the partial block counts it and drops the partial leaf, but the outer context gains only the digests of the complete chunks after it, with `blocks` and the new partial block to match; exact completion leaves the outer context as it was |
| `ParallelHashing.NoFullChunkKeepsState` | src/parallel_hash.rs:49-97 | input that leaves no complete chunk after completing the partial block leaves the outer context unchanged |
| `ParallelHashing.ScenarioWhole` | src/parallel_hash.rs:69-86 | "msg to hash" with block size 5 in one call absorbs the digests of its two complete chunks, in order |
| `ParallelHashing.ScenarioPieces` | src/parallel_hash.rs:49-86 | the same bytes as calls of 3, 2, 1, 4 and 1 bytes leave the outer context as created |
| `ParallelHashing.SplitChangesOuterContext` | src/parallel_hash.rs:51-86 | the two deliveries agree on `blocks == 2` and on the partial block, but their outer contexts differ by 64 absorbed bytes, and so do the contexts their `finalize` calls squeeze |
| `ParallelHashing.FinalizeAbsorbs` | src/parallel_hash.rs:100-117 | `finalize` absorbs, in order: the digest of the buffered tail (if any); `right_encode` of the block count `ceil(len / block_size)`; `right_encode(8 * output.len())`. The domain is unchanged |
| `ParallelHashing.ExactBlocksCounted` | src/parallel_hash.rs:69-86 | a message of exactly `k` blocks in one call leaves no partial block, and `finalize` encodes exactly `k` blocks |
| `ParallelHashing.EmptyMessageDigest` | src/parallel_hash.rs:100-117 | with no update, the digest is the squeeze of "ParallelHash", the customization, `left_encode(block_size)`, the single byte `00` and `right_encode(8 * output.len())` |
| `ParallelHashing.FinalContextDomain` | src/parallel_hash.rs:32-42 | whatever the updates, the context `finalize` squeezes keeps the function name "ParallelHash", the customization, and `left_encode(block_size)` at the front; decoding that prefix gives back the block size |
| `ParallelHashing.DomainSeparated` | src/parallel_hash.rs:32-35 | the same updates under a different customization or block size reach `finalize` with a different outer context |
| `ParallelHashing.OuterContext` | src/parallel_hash.rs:33-35 | the outer context has function name "ParallelHash", the caller's customization, and `left_encode(block_size)` as the only absorbed bytes |
| `ParallelHashing.ParallelHash.constructor` | src/parallel_hash.rs:28-30 | `new(block_size)` builds the same hasher as `new_with_custom_string(&[], block_size)` |
| `ParallelHashing.ParallelHash.WithCustomString` | src/parallel_hash.rs:32-42 | the outer context has absorbed exactly `left_encode(block_size)`; `blocks == 0`; no partial block |
| `ParallelHashing.ParallelHash.Update` | src/parallel_hash.rs:46-98 | the fields change exactly as `Updated` says; the message grows by the input; the hasher stays valid |
| `ParallelHashing.ParallelHash.AbsorbInputBlocks` | src/parallel_hash.rs:69-97 | the chunk loop absorbs one leaf digest per complete chunk, in order, and counts each; a shorter tail opens a new partial leaf. Its precondition says no partial block is held at the `assert!` of line 90, and `Update` establishes it on every path |
| `ParallelHashing.ParallelHash.FlushPartialBlock` | src/parallel_hash.rs:102-109 | the fields change exactly as `Flushed` says: a held leaf's 32-byte digest is absorbed and counted |
| `ParallelHashing.ParallelHash.AbsorbLengths` | src/parallel_hash.rs:111-114 | the outer context absorbs `right_encode(blocks)`, then `right_encode(8 * output.len())`, each made in a fresh 9-byte buffer; nothing else changes |
| `ParallelHashing.ParallelHash.Finalize` | src/parallel_hash.rs:100-117 | writes into `output` exactly `Finalized` of the hasher's fields, with both length encodings made through 9-byte buffers; the hasher is then spent |

## Left out

- The cSHAKE128 / Keccak primitive (`sha3` and `digest` crates). Squeezing is
  an opaque, caller-supplied function with exact output length. Absorbing is
  appending.
- The one-shot nature of a squeeze: the primitive forbids absorbing after
  `finalize_xof`. Here squeezing is a pure function of the context.
- `src/main.rs` is not part of this model. It prints demonstration hex digests,
  and its encoders copy `src/utils.rs`.
- The `Hasher` trait itself (src/utils.rs:17-23). Its two operations are
  `ParallelHash.Update` and `ParallelHash.Finalize`.
- Parallel leaf computation. The code computes leaves sequentially, so there is
  nothing concurrent to model.
- Rejection of `block_size == 0`. The code has no such check. The constructors
  require `0 < blockSize`.
- `usize` and `u64` widths:
  - `blocks` is an unbounded `nat`, so `blocks += 1` never overflows;
  - `Finalize` requires `blocks + 1` and `8 * output.len()` to fit in `u64`;
  - the constructors require `block_size` to fit in `u64`.
- ParallelHashing.ParallelHash.Finalize: it does not leave the hasher valid. It
  marks the hasher spent instead, because the Rust `finalize` consumes `self`.
- Call-boundary independence of the final digest. It does not hold for this
  code: `SplitChangesOuterContext` proves that the squeezed contexts differ.
  The squeeze is opaque, so different digests follow only from cSHAKE128's
  collision resistance. Only the block accounting is split independent.
- Sensitivity of the final digest itself to the customization and block size.
  The squeeze is opaque, so `DomainSeparated` states it for the context that is
  squeezed.
