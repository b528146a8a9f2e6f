/** `check_block_work` and `check_ann`: the Rust side of the two validators.
    `check_block_work` assembles the header-and-proof buffer in place and
    hands it to the C routine `Validate_powOnly`; `check_ann` hands one
    announcement to `Validate_checkAnn`. Both turn the C return code into a
    `Result`. The C routines are not visible, so each is a function-typed
    parameter that returns some code and some 32-byte hash. */
module Validate {
  import opened Bytes
  import Announce

  const HeaderLen := 80
  const NonceOffset := 84
  const AnnsOffset := 88
  const AnnLen := 1024
  const MaxAnns := 4
  /** `80 + 8 + (1024 * 4)` */
  const HapLen := 80 + 8 + 1024 * 4

  /** A `[u8; 1024]` announcement buffer. */
  type AnnBuf = s: seq<Byte> | |s| == 1024 witness Zeros(1024)

  /** A `[u8; 32]` hash. */
  type Hash = s: seq<Byte> | |s| == 32 witness Zeros(32)

  // The header-and-proof buffer.

  /** What slot `i` of the buffer holds: announcement `i` if one was
      supplied, otherwise the zeros it was initialised with. */
  function Slot(anns: seq<AnnBuf>, i: nat): AnnBuf
  {
    if i < |anns| then anns[i] else Zeros(AnnLen)
  }

  /** Slots 0..n, one after the other. */
  function Slots(anns: seq<AnnBuf>, n: nat): (s: seq<Byte>)
    ensures |s| == AnnLen * n
  {
    if n == 0 then [] else Slots(anns, n - 1) + Slot(anns, n - 1)
  }

  /** The buffer `check_block_work` hands to `Validate_powOnly`: the header,
      four zero bytes, `low_nonce` little-endian, then four announcement slots. */
  function HeaderAndProof(header: seq<Byte>, lowNonce: U32, anns: seq<AnnBuf>): (hap: seq<Byte>)
    requires |header| == HeaderLen
    ensures |hap| == HapLen
  {
    header + Zeros(4) + U32ToLe(lowNonce) + Slots(anns, MaxAnns)
  }

  /** Byte `j` of slot `i` sits at `1024 * i + j` of the slots. */
  lemma {:induction false} SlotsAt(anns: seq<AnnBuf>, n: nat, i: nat, j: nat)
    requires i < n && j < AnnLen
    ensures Slots(anns, n)[AnnLen * i + j] == Slot(anns, i)[j]
  {
    if i < n - 1 {
      SlotsAt(anns, n - 1, i, j);
    }
  }

  /** Slots past the last supplied announcement are zeros. */
  lemma {:induction false} SlotsPadding(anns: seq<AnnBuf>, i: nat, n: nat)
    requires |anns| <= i <= n
    ensures Slots(anns, i) + Zeros(AnnLen * (n - i)) == Slots(anns, n)
  {
    if i < n {
      SlotsPadding(anns, i, n - 1);
      assert Zeros(AnnLen * (n - i)) == Zeros(AnnLen * (n - 1 - i)) + Slot(anns, n - 1);
    }
  }

  /** Two announcement lists that agree on the first `n` slots give the
      same first `n` slots. */
  lemma {:induction false} SlotsAgree(anns: seq<AnnBuf>, others: seq<AnnBuf>, n: nat)
    requires forall i :: 0 <= i < n ==> Slot(anns, i) == Slot(others, i)
    ensures Slots(anns, n) == Slots(others, n)
  {
    if n > 0 {
      SlotsAgree(anns, others, n - 1);
    }
  }

  /** The header occupies 0..80, bytes 80..84 are zero and `low_nonce` is
      at 84..88 little-endian. */
  lemma HeaderAndNonceLayout(header: seq<Byte>, lowNonce: U32, anns: seq<AnnBuf>)
    requires |header| == HeaderLen
    ensures HeaderAndProof(header, lowNonce, anns)[..HeaderLen] == header
    ensures HeaderAndProof(header, lowNonce, anns)[HeaderLen..NonceOffset] == Zeros(4)
    ensures HeaderAndProof(header, lowNonce, anns)[NonceOffset..AnnsOffset] == U32ToLe(lowNonce)
    ensures U32FromLe(HeaderAndProof(header, lowNonce, anns)[NonceOffset..AnnsOffset]) == lowNonce
  {
  }

  /** Slot `i` at `88 + 1024 * i` holds announcement `i` for each of the
      first four supplied, and zeros when fewer were supplied. */
  lemma SlotPlacement(header: seq<Byte>, lowNonce: U32, anns: seq<AnnBuf>, i: nat)
    requires |header| == HeaderLen && i < MaxAnns
    ensures var slot := HeaderAndProof(header, lowNonce, anns)[AnnsOffset + AnnLen * i..AnnsOffset + AnnLen * (i + 1)];
      && (i < |anns| ==> slot == anns[i])
      && (|anns| <= i ==> slot == Zeros(AnnLen))
  {
    var hap := HeaderAndProof(header, lowNonce, anns);
    var slot := hap[AnnsOffset + AnnLen * i..AnnsOffset + AnnLen * (i + 1)];
    forall j | 0 <= j < AnnLen
      ensures slot[j] == Slot(anns, i)[j]
    {
      SlotsAt(anns, MaxAnns, i, j);
    }
    assert slot == Slot(anns, i);
  }

  /** Announcements beyond the fourth are ignored. */
  lemma ExtraAnnsIgnored(header: seq<Byte>, lowNonce: U32, anns: seq<AnnBuf>)
    requires |header| == HeaderLen && |anns| > MaxAnns
    ensures HeaderAndProof(header, lowNonce, anns) == HeaderAndProof(header, lowNonce, anns[..MaxAnns])
  {
    SlotsAgree(anns, anns[..MaxAnns], MaxAnns);
  }

  /** Every byte outside the header, the nonce and the supplied slots is zero. */
  lemma ZeroOutsideWrites(header: seq<Byte>, lowNonce: U32, anns: seq<AnnBuf>, k: nat)
    requires |header| == HeaderLen && k < HapLen
    requires !(k < HeaderLen)
    requires !(NonceOffset <= k < AnnsOffset)
    requires !(AnnsOffset <= k < AnnsOffset + AnnLen * |anns|)
    ensures HeaderAndProof(header, lowNonce, anns)[k] == 0
  {
    if k >= AnnsOffset {
      var i := (k - AnnsOffset) / AnnLen;
      var j := (k - AnnsOffset) % AnnLen;
      assert k - AnnsOffset == AnnLen * i + j;
      SlotsAt(anns, MaxAnns, i, j);
    }
  }

  /** `n` zero bytes are `a` zero bytes followed by `n - a` more. */
  lemma ZerosSplit(a: nat, n: nat)
    requires a <= n
    ensures Zeros(n) == Zeros(a) + Zeros(n - a)
  {
  }

  /** Copying `y` over the zeros that follow `x` leaves `x`, `y`, then the
      rest of the zeros. */
  lemma PutOverZeros(x: seq<Byte>, y: seq<Byte>, n: nat)
    requires |y| <= n
    ensures Put(x + Zeros(n), |x|, y) == x + y + Zeros(n - |y|)
  {
  }

  /** The zeroed buffer after the header and `low_nonce` are copied in. */
  lemma AssemblyStart(header: seq<Byte>, lowNonce: U32)
    requires |header| == HeaderLen
    ensures Put(Put(Zeros(HapLen), 0, header), NonceOffset, U32ToLe(lowNonce))
         == header + Zeros(4) + U32ToLe(lowNonce) + Zeros(AnnLen * MaxAnns)
  {
  }

  /** Copying announcement `i` into the first zero slot fills slot `i`. */
  lemma AssemblyStep(prefix: seq<Byte>, anns: seq<AnnBuf>, i: nat)
    requires i < |anns| && i < MaxAnns
    ensures Put(prefix + Slots(anns, i) + Zeros(AnnLen * (MaxAnns - i)), |prefix| + AnnLen * i, anns[i])
         == prefix + Slots(anns, i + 1) + Zeros(AnnLen * (MaxAnns - (i + 1)))
  {
  }

  /** Once the announcements run out, the remaining zero slots are the empty ones. */
  lemma AssemblyDone(prefix: seq<Byte>, anns: seq<AnnBuf>, i: nat)
    requires i <= MaxAnns && (i == MaxAnns || i == |anns|)
    ensures prefix + Slots(anns, i) + Zeros(AnnLen * (MaxAnns - i)) == prefix + Slots(anns, MaxAnns)
  {
    if i < MaxAnns {
      SlotsPadding(anns, i, MaxAnns);
      assert prefix + Slots(anns, i) + Zeros(AnnLen * (MaxAnns - i))
          == prefix + (Slots(anns, i) + Zeros(AnnLen * (MaxAnns - i)));
    } else {
      assert Slots(anns, i) + Zeros(0) == Slots(anns, i);
    }
  }

  /** `hap[off..off + src.len()].copy_from_slice(src)`. */
  method CopyInto(a: array<Byte>, off: nat, src: seq<Byte>)
    requires off + |src| <= a.Length
    modifies a
    ensures a[..] == Put(old(a[..]), off, src)
  {
    forall k | 0 <= k < |src| {
      a[off + k] := src[k];
    }
    assert a[..] == old(a[..])[..off] + src + old(a[..])[off + |src|..];
  }

  /** The assembly in `check_block_work`: zero-fill the buffer, copy the
      header to the front, copy `low_nonce` to 84..88, then copy the
      announcements, at most four, each into its slot. */
  method AssembleHeaderAndProof(header: seq<Byte>, lowNonce: U32, anns: seq<AnnBuf>) returns (hap: seq<Byte>)
    requires |header| == HeaderLen
    ensures hap == HeaderAndProof(header, lowNonce, anns)
  {
    var buf := new Byte[HapLen](_ => 0);
    assert buf[..] == Zeros(HapLen);
    CopyInto(buf, 0, header);
    CopyInto(buf, NonceOffset, U32ToLe(lowNonce));
    ghost var prefix := header + Zeros(4) + U32ToLe(lowNonce);
    AssemblyStart(header, lowNonce);
    assert buf[..] == prefix + Slots(anns, 0) + Zeros(AnnLen * MaxAnns);
    var i := 0;
    while i < |anns| && i < MaxAnns
      invariant 0 <= i <= MaxAnns && i <= |anns|
      invariant buf.Length == HapLen
      invariant buf[..] == prefix + Slots(anns, i) + Zeros(AnnLen * (MaxAnns - i))
    {
      CopyInto(buf, AnnsOffset + i * AnnLen, anns[i]);
      AssemblyStep(prefix, anns, i);
      i := i + 1;
    }
    AssemblyDone(prefix, anns, i);
    hap := buf[..];
  }

  // The result codes.

  /** The error strings `check_block_work` and `check_ann` return. */
  datatype ValidateError = Inval | InvalItem4 | InsufPow | SoftNonceHigh | Unknown
  {
    function Text(): string
    {
      match this
      case Inval => "INVAL"
      case InvalItem4 => "INVAL_ITEM4"
      case InsufPow => "INSUF_POW"
      case SoftNonceHigh => "SOFT_NONCE_HIGH"
      case Unknown => "UNKNOWN"
    }
  }

  /** `Result<[u8; 32], &'static str>`, with the string as a `ValidateError`. */
  datatype Result = Ok(hash: Hash) | Err(error: ValidateError)

  /** What a C validator gives back: its return code and the 32 bytes it
      left in `hashout`. */
  datatype NativeOutcome = NativeOutcome(code: int, hashout: Hash)

  /** The `match res as i32` shared by `check_block_work` and `check_ann`. */
  function FromCode(code: int, hashout: Hash): (r: Result)
    ensures r.Ok? <==> code == 0
    ensures r.Ok? ==> r.hash == hashout
    ensures r == Err(Inval) <==> code == 1
    ensures r == Err(InvalItem4) <==> code == 2
    ensures r == Err(InsufPow) <==> code == 3
    ensures r == Err(SoftNonceHigh) <==> code == 4
    ensures r == Err(Unknown) <==> (code < 0 || 4 < code)
  {
    if code == 0 then Ok(hashout)
    else if code == 1 then Err(Inval)
    else if code == 2 then Err(InvalItem4)
    else if code == 3 then Err(InsufPow)
    else if code == 4 then Err(SoftNonceHigh)
    else Err(Unknown)
  }

  /** Each error is reported under its own string. */
  lemma ErrorTextsDistinct(e1: ValidateError, e2: ValidateError)
    ensures e1.Text() == e2.Text() <==> e1 == e2
  {
  }

  /** `check_block_work`: on code 0 the hash `Validate_powOnly` wrote for the
      assembled buffer, otherwise the error for its code. */
  method CheckBlockWork(header: seq<Byte>, lowNonce: U32, shareTarget: U32, anns: seq<AnnBuf>,
                        coinbase: seq<Byte>, powOnly: (seq<Byte>, U32, seq<Byte>) -> NativeOutcome)
    returns (r: Result)
    requires |header| == HeaderLen
    ensures var out := powOnly(HeaderAndProof(header, lowNonce, anns), shareTarget, coinbase);
      && (r.Ok? <==> out.code == 0)
      && (r.Ok? ==> r.hash == out.hashout)
      && r == FromCode(out.code, out.hashout)
  {
    var hap := AssembleHeaderAndProof(header, lowNonce, anns);
    var out := powOnly(hap, shareTarget, coinbase);
    r := FromCode(out.code, out.hashout);
  }

  /** `check_ann`: on code 0 the hash `Validate_checkAnn` wrote for the
      announcement's bytes and the parent block hash, otherwise the error
      for its code. */
  function CheckAnn(ann: Announce.PacketCryptAnn, parentBlockHash: Hash,
                    checkAnn: (seq<Byte>, Hash) -> NativeOutcome): (r: Result)
    ensures var out := checkAnn(ann.bytes, parentBlockHash);
      && (r.Ok? <==> out.code == 0)
      && (r.Ok? ==> r.hash == out.hashout)
      && r == FromCode(out.code, out.hashout)
  {
    var out := checkAnn(ann.bytes, parentBlockHash);
    FromCode(out.code, out.hashout)
  }
}
