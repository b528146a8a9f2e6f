# packetcrypt-sys in Dafny

A model of the Rust half of `packetcrypt-sys`, the binding crate behind the
PacketCrypt announcement and block proof-of-work validators. The model covers
the code that reads and builds bytes:

- the field accessors of an announcement: version, soft nonce, hard nonce,
  work bits, parent block height, content hash and signing key. They exist
  both as free functions and as methods of `PacketCryptAnn`;
- the header-and-proof buffer that `check_block_work` builds in place. It is
  80 header bytes, 4 zero bytes, `low_nonce` little-endian, then four
  1024-byte announcement slots, 4184 bytes in all;
- the mapping from the C validators' return code to `Ok(hash)` or one of the
  errors `INVAL`, `INVAL_ITEM4`, `INSUF_POW`, `SOFT_NONCE_HIGH`, `UNKNOWN`.
  `check_block_work` and `check_ann` both use it.

Files:

- `bytes.dfy`, module `Bytes`: `u8`, `u32` and `i32` as integer subset
  types. Also `from_le_bytes`/`to_le_bytes`, two's-complement casts, the
  wrapping `<< 8`, and `Put`, which is what `copy_from_slice` leaves in a
  buffer.
- `announce.dfy`, module `Announce`: the accessors, pure functions over
  `seq<Byte>`, and the datatype `PacketCryptAnn`.
- `validate.dfy`, module `Validate`: the buffer assembly, an imperative
  method over a local `array<Byte>` proved equal to the function
  `HeaderAndProof`. Also the result-code mapping, `CheckBlockWork` and
  `CheckAnn`.

The C routines `Validate_powOnly` and `Validate_checkAnn` cannot be seen, so
each is a function-typed parameter. It takes the bytes handed to it and
returns some code and some 32-byte `hashout`. `CheckBlockWork` states that
it gives that function exactly the assembled buffer `HeaderAndProof(header,
low_nonce, anns)`.

Facts about the Rust code that the model makes explicit:

- The header-and-proof buffer is `80 + 8 + 1024 * 4` = 4184 bytes.
- Fewer than four announcements are not rejected on the Rust side: the
  slots without an announcement stay zero.
- More than four announcements are accepted, and only the first four are
  used.
- The soft nonce holds bytes 0, 1 and 2 in bits 8..31, so the version byte
  (byte 0) is in bits 8..15, and byte 3 is shifted out.

## Model

| member | source | states |
|---|---|---|
| `Bytes.U32LeRoundTrip` | packetcrypt-sys/src/lib.rs:82 | decoding the little-endian bytes of any u32 gives back that u32 |
| `Bytes.U32LeInverse` | packetcrypt-sys/src/lib.rs:35-40 | encoding the u32 decoded from any 4 bytes gives back those bytes, so decoding is injective |
| `Bytes.I32LeRoundTrip` | packetcrypt-sys/src/lib.rs:41-43 | decoding the two's-complement little-endian bytes of any i32, negative ones included, gives it back |
| `Bytes.I32LeInverse` | packetcrypt-sys/src/lib.rs:41-43 | encoding the i32 decoded from any 4 bytes gives back those bytes |
| `Bytes.MinusOneIsAllOnes` | packetcrypt-sys/src/lib.rs:62-64 | -1 encodes as four 0xff bytes, and four 0xff bytes decode as -1 |
| `Bytes.Put` | packetcrypt-sys/src/lib.rs:81-85 | `copy_from_slice` into `off..off+len` keeps the length, puts the source bytes in that range and leaves every other byte as it was |
| `Announce.HardNonce` | packetcrypt-sys/src/lib.rs:35-37 | the result is the u32 whose little-endian encoding is bytes 4..8; needs at least 8 bytes |
| `Announce.WorkBits` | packetcrypt-sys/src/lib.rs:38-40 | the result is the u32 whose little-endian encoding is bytes 8..12; needs at least 12 bytes |
| `Announce.ParentBlockHeight` | packetcrypt-sys/src/lib.rs:41-43 | the result is the i32 whose two's-complement little-endian encoding is bytes 12..16; needs at least 16 bytes |
| `Announce.PacketCryptAnn.Version` | packetcrypt-sys/src/lib.rs:50-52 | byte 0 of the announcement; `FieldsRoundTrip` proves a version written at offset 0 is read back, and `SoftNonceCarriesVersion` that it is bits 8..15 of the soft nonce |
| `Announce.PacketCryptAnn.SoftNonce` | packetcrypt-sys/src/lib.rs:53-55 | the result is 256 times the little-endian value of bytes 0, 1 and 2: the wrapping u32 shift drops byte 3 |
| `Announce.PacketCryptAnn.HardNonce` | packetcrypt-sys/src/lib.rs:56-58 | the result is the u32 whose little-endian encoding is bytes 4..8 |
| `Announce.PacketCryptAnn.WorkBits` | packetcrypt-sys/src/lib.rs:59-61 | the result is the u32 whose little-endian encoding is bytes 8..12 |
| `Announce.PacketCryptAnn.ParentBlockHeight` | packetcrypt-sys/src/lib.rs:62-64 | the result is the i32 whose two's-complement encoding is bytes 12..16 |
| `Announce.PacketCryptAnn.ContentHash` | packetcrypt-sys/src/lib.rs:65-67 | exactly 32 bytes, byte i being byte 24+i of the announcement; needs at least 56 bytes |
| `Announce.PacketCryptAnn.SigningKey` | packetcrypt-sys/src/lib.rs:68-70 | exactly 32 bytes, byte i being byte 56+i of the announcement; needs at least 88 bytes |
| `Announce.SoftNonceLowByteZero` | packetcrypt-sys/src/lib.rs:53-55 | the low 8 bits of the soft nonce are always zero |
| `Announce.SoftNonceIgnoresByte3` | packetcrypt-sys/src/lib.rs:53-55 | changing byte 3 does not change the soft nonce |
| `Announce.SoftNonceCarriesVersion` | packetcrypt-sys/src/lib.rs:50-55 | bits 8..15 of the soft nonce are the version byte |
| `Announce.AccessorsAgree` | packetcrypt-sys/src/lib.rs:35-64 | the free `hard_nonce`, `work_bits` and `parent_block_height` return what the `PacketCryptAnn` methods return on the same bytes |
| `Announce.HardNonceRoundTrip` | packetcrypt-sys/src/lib.rs:56-58 | any u32 written little-endian at 4..8 of any buffer is read back by both hard-nonce accessors |
| `Announce.WorkBitsRoundTrip` | packetcrypt-sys/src/lib.rs:59-61 | any u32 written little-endian at 8..12 is read back by both work-bits accessors |
| `Announce.ParentBlockHeightRoundTrip` | packetcrypt-sys/src/lib.rs:62-64 | any i32 written at 12..16 is read back by both parent-height accessors |
| `Announce.HashAndKeyDisjoint` | packetcrypt-sys/src/lib.rs:65-70 | content hash followed by signing key is exactly bytes 24..88; writing either field is read back and leaves the other unchanged |
| `Announce.FieldsRoundTrip` | packetcrypt-sys/src/lib.rs:50-64 | version, hard nonce, work bits and parent height written together at their offsets are all read back unchanged |
| `Announce.ExampleAnnouncement` | packetcrypt-sys/src/lib.rs:35-64 | a zeroed 1024-byte announcement holding version 1, hard nonce 0xDEADBEEF, work bits 0x1d00ffff and height -1 reads back those values through both kinds of accessor |
| `Validate.HeaderAndProof` | packetcrypt-sys/src/lib.rs:80 | the assembled buffer is 80 + 8 + 4 * 1024 = 4184 bytes long |
| `Validate.SlotsAt` | packetcrypt-sys/src/lib.rs:83-86 | byte j of slot i lies at offset 1024 * i + j of the slot area |
| `Validate.SlotsPadding` | packetcrypt-sys/src/lib.rs:80-86 | slots beyond the supplied announcements are zero bytes |
| `Validate.SlotsAgree` | packetcrypt-sys/src/lib.rs:83 | the slot area depends only on the slots' contents |
| `Validate.HeaderAndNonceLayout` | packetcrypt-sys/src/lib.rs:80-82 | bytes 0..80 are the header, 80..84 are zero, 84..88 are `low_nonce` little-endian and decode back to it |
| `Validate.SlotPlacement` | packetcrypt-sys/src/lib.rs:83-86 | for i < 4, bytes 88+1024i..88+1024(i+1) are announcement i when one was supplied and all zero otherwise |
| `Validate.ExtraAnnsIgnored` | packetcrypt-sys/src/lib.rs:83 | with more than four announcements the buffer equals the one built from the first four |
| `Validate.ZeroOutsideWrites` | packetcrypt-sys/src/lib.rs:80-86 | every byte outside the header, the nonce and the supplied slots is zero |
| `Validate.CopyInto` | packetcrypt-sys/src/lib.rs:81-85 | after the copy the array is its old content with the source written at the offset |
| `Validate.AssembleHeaderAndProof` | packetcrypt-sys/src/lib.rs:80-86 | the zero-filled array, filled by the header copy, the nonce copy and the slot loop, equals `HeaderAndProof(header, low_nonce, anns)`; the header must be 80 bytes |
| `Validate.FromCode` | packetcrypt-sys/src/lib.rs:98-105 | Ok exactly when the code is 0, and then carrying `hashout`; codes 1..4 exactly give INVAL, INVAL_ITEM4, INSUF_POW, SOFT_NONCE_HIGH; every other code exactly gives UNKNOWN (the same match is at lines 123-130) |
| `Validate.ValidateError.Text` | packetcrypt-sys/src/lib.rs:100-104 | the error string of each error: INVAL, INVAL_ITEM4, INSUF_POW, SOFT_NONCE_HIGH, UNKNOWN (the same strings are at lines 125-129); `ErrorTextsDistinct` proves no two errors share a string |
| `Validate.ErrorTextsDistinct` | packetcrypt-sys/src/lib.rs:100-104 | the five error strings are pairwise different, so the string identifies the error |
| `Validate.CheckBlockWork` | packetcrypt-sys/src/lib.rs:73-106 | the validator is given the assembled buffer, the share target and the coinbase; the result is Ok exactly when the validator's code is 0, the hash is then the validator's `hashout`, and otherwise the error is the one for that code |
| `Validate.CheckAnn` | packetcrypt-sys/src/lib.rs:108-131 | the validator is given the announcement's bytes and the parent block hash; Ok exactly on code 0 with the validator's `hashout`, otherwise the error for the code |

## Left out

- `Validate_powOnly` and `Validate_checkAnn` (C, reached through FFI): their hashing and difficulty checks cannot be seen. Each is a parameter returning an arbitrary code and hash.
- `ValidateCtx` with its `Default` and `Drop` implementations: these create and free an opaque foreign pointer and have no content to model. `CheckAnn` takes no context.
- `init`: initialises the sodiumoxide library, which is external.
- `util::aligned_bytes`: it only changes memory alignment, so it is treated as the identity on content. The assembled buffer and the coinbase go to the validator unchanged.
- The `difficulty` module: it is not part of this model.
- The unit test `basic_test`: it only checks a string conversion behind FFI.
- `check_block_work` panics when the header is not 80 bytes. That is a precondition of `AssembleHeaderAndProof` and `CheckBlockWork`, not an error result.
- Accessors on a too-short buffer panic in Rust. Each accessor's length bound is a precondition.
- Rejecting fewer than four announcements, the slot-4 item-kind rule, soft-nonce epoch limits and the comparison of hash against target all happen in the C validator, if anywhere. They are not modelled.
- `res as i32`: the C routines return a C `int`, which is 32 bits wide, so the cast is the identity. The model takes the code as an unbounded integer; every value outside 0..4 maps to UNKNOWN. The generated `bindings.rs` that declares these routines is not part of this model.
- Memory layout, the pointer casts to `PacketCrypt_HeaderAndProof_t` and friends, and the `bytes::Bytes` reference counting are not modelled. Announcement bytes are a plain `seq<Byte>`.
