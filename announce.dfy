/** The fixed-offset fields of a PacketCrypt announcement, read straight
    out of its bytes with no validation. Every read needs the buffer to
    reach the end of its field; a shorter buffer makes the Rust code panic,
    so here it is a precondition.

      offset  0      version (u8)
      offset  0..4   soft nonce: little-endian u32 shifted left 8
      offset  4..8   hard nonce (u32)
      offset  8..12  work bits (u32, compact difficulty)
      offset 12..16  parent block height (i32)
      offset 24..56  content hash (32 bytes)
      offset 56..88  signing key (32 bytes) */
module Announce {
  import opened Bytes

  // The free accessors, which take any byte slice.

  /** `hard_nonce`: bytes 4..8 as a little-endian u32. */
  function HardNonce(bytes: seq<Byte>): (r: U32)
    requires |bytes| >= 8
    ensures U32ToLe(r) == bytes[4..8]
  {
    U32LeInverse(bytes[4..8]);
    U32FromLe(bytes[4..8])
  }

  /** `work_bits`: bytes 8..12 as a little-endian u32. */
  function WorkBits(bytes: seq<Byte>): (r: U32)
    requires |bytes| >= 12
    ensures U32ToLe(r) == bytes[8..12]
  {
    U32LeInverse(bytes[8..12]);
    U32FromLe(bytes[8..12])
  }

  /** `parent_block_height`: bytes 12..16 as a little-endian two's-complement i32. */
  function ParentBlockHeight(bytes: seq<Byte>): (r: I32)
    requires |bytes| >= 16
    ensures I32ToLe(r) == bytes[12..16]
  {
    I32LeInverse(bytes[12..16]);
    I32FromLe(bytes[12..16])
  }

  /** `PacketCryptAnn`: an announcement held as its bytes. Its methods read
      the same fields as the free accessors, from their own copy of the code. */
  datatype PacketCryptAnn = PacketCryptAnn(bytes: seq<Byte>)
  {
    /** The format version, byte 0. */
    function Version(): Byte
      requires |bytes| >= 1
    {
      bytes[0]
    }

    /** The soft nonce: bytes 0..4 as a little-endian u32, shifted left 8
        in u32 arithmetic, so byte 3 is shifted out and bytes 0..3 land in
        bits 8..31. */
    function SoftNonce(): (r: U32)
      requires |bytes| >= 4
      ensures r == 0x100 * (bytes[0] as int + 0x100 * bytes[1] as int + 0x1_0000 * bytes[2] as int)
    {
      var low: int := bytes[0] as int + 0x100 * bytes[1] as int + 0x1_0000 * bytes[2] as int;
      assert U32FromLe(bytes[..4]) * 0x100 == low * 0x100 + 0x1_0000_0000 * bytes[3] as int;
      Shl8(U32FromLe(bytes[..4]))
    }

    function HardNonce(): (r: U32)
      requires |bytes| >= 8
      ensures U32ToLe(r) == bytes[4..8]
    {
      U32LeInverse(bytes[4..8]);
      U32FromLe(bytes[4..8])
    }

    function WorkBits(): (r: U32)
      requires |bytes| >= 12
      ensures U32ToLe(r) == bytes[8..12]
    {
      U32LeInverse(bytes[8..12]);
      U32FromLe(bytes[8..12])
    }

    function ParentBlockHeight(): (r: I32)
      requires |bytes| >= 16
      ensures I32ToLe(r) == bytes[12..16]
    {
      I32LeInverse(bytes[12..16]);
      I32FromLe(bytes[12..16])
    }

    /** The 32-byte content hash at 24..56. */
    function ContentHash(): (r: seq<Byte>)
      requires |bytes| >= 56
      ensures |r| == 32
      ensures forall i :: 0 <= i < 32 ==> r[i] == bytes[24 + i]
    {
      bytes[24..56]
    }

    /** The 32-byte signing key at 56..88. */
    function SigningKey(): (r: seq<Byte>)
      requires |bytes| >= 88
      ensures |r| == 32
      ensures forall i :: 0 <= i < 32 ==> r[i] == bytes[56 + i]
    {
      bytes[56..88]
    }
  }

  // Properties of the soft nonce.

  /** The low byte of the soft nonce is always zero. */
  lemma SoftNonceLowByteZero(ann: PacketCryptAnn)
    requires |ann.bytes| >= 4
    ensures ann.SoftNonce() % 0x100 == 0
  {
  }

  /** Byte 3 is shifted out: two buffers that differ only there have the
      same soft nonce. */
  lemma SoftNonceIgnoresByte3(ann: PacketCryptAnn, b: Byte)
    requires |ann.bytes| >= 4
    ensures PacketCryptAnn(ann.bytes[3 := b]).SoftNonce() == ann.SoftNonce()
  {
  }

  /** The version byte is bits 8..15 of the soft nonce. */
  lemma SoftNonceCarriesVersion(ann: PacketCryptAnn)
    requires |ann.bytes| >= 4
    ensures ann.SoftNonce() / 0x100 % 0x100 == ann.Version()
  {
  }

  // The free accessors and the methods agree.

  /** `PacketCryptAnn`'s methods return what the free accessors return on its bytes. */
  lemma AccessorsAgree(ann: PacketCryptAnn)
    requires |ann.bytes| >= 16
    ensures ann.HardNonce() == HardNonce(ann.bytes)
    ensures ann.WorkBits() == WorkBits(ann.bytes)
    ensures ann.ParentBlockHeight() == ParentBlockHeight(ann.bytes)
  {
  }

  // Writing a field and reading it back.

  /** A u32 written little-endian at 4..8 is read back by `hard_nonce`. */
  lemma HardNonceRoundTrip(buf: seq<Byte>, v: U32)
    requires |buf| >= 8
    ensures HardNonce(Put(buf, 4, U32ToLe(v))) == v
    ensures PacketCryptAnn(Put(buf, 4, U32ToLe(v))).HardNonce() == v
  {
  }

  /** A u32 written little-endian at 8..12 is read back by `work_bits`. */
  lemma WorkBitsRoundTrip(buf: seq<Byte>, v: U32)
    requires |buf| >= 12
    ensures WorkBits(Put(buf, 8, U32ToLe(v))) == v
    ensures PacketCryptAnn(Put(buf, 8, U32ToLe(v))).WorkBits() == v
  {
  }

  /** An i32, negative or not, written in two's complement at 12..16 is read
      back by `parent_block_height`. */
  lemma ParentBlockHeightRoundTrip(buf: seq<Byte>, x: I32)
    requires |buf| >= 16
    ensures ParentBlockHeight(Put(buf, 12, I32ToLe(x))) == x
    ensures PacketCryptAnn(Put(buf, 12, I32ToLe(x))).ParentBlockHeight() == x
  {
  }

  /** Content hash and signing key are the two adjacent, disjoint 32-byte
      ranges 24..56 and 56..88: writing one leaves the other as it was. */
  lemma HashAndKeyDisjoint(buf: seq<Byte>, hash: seq<Byte>, key: seq<Byte>)
    requires |buf| >= 88 && |hash| == 32 && |key| == 32
    ensures PacketCryptAnn(buf).ContentHash() + PacketCryptAnn(buf).SigningKey() == buf[24..88]
    ensures PacketCryptAnn(Put(buf, 24, hash)).ContentHash() == hash
    ensures PacketCryptAnn(Put(buf, 24, hash)).SigningKey() == PacketCryptAnn(buf).SigningKey()
    ensures PacketCryptAnn(Put(buf, 56, key)).SigningKey() == key
    ensures PacketCryptAnn(Put(buf, 56, key)).ContentHash() == PacketCryptAnn(buf).ContentHash()
  {
  }

  /** `buf` with version, hard nonce, work bits and parent block height
      written at their offsets. */
  function WithFields(buf: seq<Byte>, version: Byte, hardNonce: U32, workBits: U32, height: I32): (r: seq<Byte>)
    requires |buf| >= 16
    ensures |r| == |buf|
  {
    Put(Put(Put(Put(buf, 0, [version]), 4, U32ToLe(hardNonce)), 8, U32ToLe(workBits)), 12, I32ToLe(height))
  }

  /** Fields written at their documented offsets are read back unchanged
      by the accessors. */
  lemma FieldsRoundTrip(buf: seq<Byte>, version: Byte, hardNonce: U32, workBits: U32, height: I32)
    requires |buf| >= 16
    ensures var ann := PacketCryptAnn(WithFields(buf, version, hardNonce, workBits, height));
      && ann.Version() == version
      && ann.HardNonce() == hardNonce
      && ann.WorkBits() == workBits
      && ann.ParentBlockHeight() == height
  {
    var b1 := Put(buf, 0, [version]);
    var b2 := Put(b1, 4, U32ToLe(hardNonce));
    var b3 := Put(b2, 8, U32ToLe(workBits));
    var b4 := Put(b3, 12, I32ToLe(height));
    HardNonceRoundTrip(b1, hardNonce);
    WorkBitsRoundTrip(b2, workBits);
    ParentBlockHeightRoundTrip(b3, height);
    assert b4[4..8] == b2[4..8];
    assert b4[8..12] == b3[8..12];
  }

  /** Version 1, hard nonce 0xDEADBEEF, work bits 0x1d00ffff and parent
      height -1 in a zeroed 1024-byte announcement are read back as such. */
  lemma ExampleAnnouncement()
    ensures var ann := PacketCryptAnn(WithFields(Zeros(1024), 1, 0xDEAD_BEEF, 0x1d00_ffff, -1));
      && ann.Version() == 1
      && ann.HardNonce() == 0xDEAD_BEEF
      && HardNonce(ann.bytes) == 0xDEAD_BEEF
      && ann.WorkBits() == 0x1d00_ffff
      && WorkBits(ann.bytes) == 0x1d00_ffff
      && ann.ParentBlockHeight() == -1
      && ParentBlockHeight(ann.bytes) == -1
  {
    FieldsRoundTrip(Zeros(1024), 1, 0xDEAD_BEEF, 0x1d00_ffff, -1);
    AccessorsAgree(PacketCryptAnn(WithFields(Zeros(1024), 1, 0xDEAD_BEEF, 0x1d00_ffff, -1)));
  }
}
