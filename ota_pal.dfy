/** The OTA platform abstraction layer header (Common/ota_pal/ota_pal.h): the 32-bit status word made
    of an 8-bit main code and a 24-bit sub code, the main status values, the image states and the
    signature record. */
module OtaPal {
  import opened Wrappers

  /** OTA_PAL_ERR_MASK: the low 24 bits carry the platform-specific sub code. */
  const ERR_MASK: bv32 := 0xff_ffff
  /** OTA_PAL_SUB_BITS: the main code sits above the 24 sub-code bits. */
  const SUB_BITS: bv32 := 24

  /** OTA_PAL_MAIN_ERR: the main code, the top 8 bits of the word. */
  function MainErr(err: bv32): (r: bv32)
    ensures r < 256
    ensures r == err / 0x100_0000
  {
    err >> SUB_BITS
  }

  /** OTA_PAL_SUB_ERR: the sub code, the low 24 bits of the word. */
  function SubErr(err: bv32): (r: bv32)
    ensures r < 0x100_0000
    ensures r == err % 0x100_0000
  {
    err & ERR_MASK
  }

  /** OTA_PAL_COMBINE_ERR: main code shifted into the top byte (bits above 32 are lost, as in the
      unsigned C shift), or-ed with the sub code of `sub`. */
  function CombineErr(main: bv32, sub: bv32): (r: bv32)
    ensures r == (main % 256) * 0x100_0000 + sub % 0x100_0000
  {
    (main << SUB_BITS) | SubErr(sub)
  }

  /** Joining a main code below 256 with any word and splitting again gives back the main code and
      the sub code of that word. */
  lemma CombineThenSplit(main: bv32, sub: bv32)
    requires main < 256
    ensures MainErr(CombineErr(main, sub)) == main
    ensures SubErr(CombineErr(main, sub)) == SubErr(sub)
  {
  }

  /** Every status word is the combination of its own main and sub codes. */
  lemma SplitThenCombine(err: bv32)
    ensures CombineErr(MainErr(err), SubErr(err)) == err
  {
  }

  /** OtaPalStatusValues: the main status codes. */
  datatype MainStatus =
    | Success
    | Uninitialized
    | OutOfMemory
    | NullFileContext
    | SignatureCheckFailed
    | RxFileCreateFailed
    | RxFileTooLarge
    | BootInfoCreateFailed
    | BadSignerCert
    | BadImageState
    | AbortFailed
    | RejectFailed
    | CommitFailed
    | ActivateFailed
    | FileAbort
    | FileClose

  /** The numeric value the enumeration gives each main status. */
  function Code(s: MainStatus): (r: bv32)
    ensures r < 16
    ensures r == 0 <==> s == Success
  {
    match s
    case Success => 0
    case Uninitialized => 1
    case OutOfMemory => 2
    case NullFileContext => 3
    case SignatureCheckFailed => 4
    case RxFileCreateFailed => 5
    case RxFileTooLarge => 6
    case BootInfoCreateFailed => 7
    case BadSignerCert => 8
    case BadImageState => 9
    case AbortFailed => 10
    case RejectFailed => 11
    case CommitFailed => 12
    case ActivateFailed => 13
    case FileAbort => 14
    case FileClose => 15
  }

  /** The main status a main-code value stands for, if any. */
  function Decode(c: bv32): (r: Option<MainStatus>)
    ensures r.Some? <==> c < 16
    ensures r.Some? ==> Code(r.value) == c
  {
    if c == 0 then Some(Success)
    else if c == 1 then Some(Uninitialized)
    else if c == 2 then Some(OutOfMemory)
    else if c == 3 then Some(NullFileContext)
    else if c == 4 then Some(SignatureCheckFailed)
    else if c == 5 then Some(RxFileCreateFailed)
    else if c == 6 then Some(RxFileTooLarge)
    else if c == 7 then Some(BootInfoCreateFailed)
    else if c == 8 then Some(BadSignerCert)
    else if c == 9 then Some(BadImageState)
    else if c == 10 then Some(AbortFailed)
    else if c == 11 then Some(RejectFailed)
    else if c == 12 then Some(CommitFailed)
    else if c == 13 then Some(ActivateFailed)
    else if c == 14 then Some(FileAbort)
    else if c == 15 then Some(FileClose)
    else None
  }

  /** The sixteen codes are distinct: decoding a status's code gives the status back. */
  lemma CodeDistinct(s: MainStatus, t: MainStatus)
    ensures Decode(Code(s)) == Some(s)
    ensures Code(s) == Code(t) ==> s == t
  {
    match s
    case Success =>
    case Uninitialized =>
    case OutOfMemory =>
    case NullFileContext =>
    case SignatureCheckFailed =>
    case RxFileCreateFailed =>
    case RxFileTooLarge =>
    case BootInfoCreateFailed =>
    case BadSignerCert =>
    case BadImageState =>
    case AbortFailed =>
    case RejectFailed =>
    case CommitFailed =>
    case ActivateFailed =>
    case FileAbort =>
    case FileClose =>
  }

  /** A status word built from a main status and any sub code: the main code reads back as that
      status, because every code fits the 8-bit main field. */
  function StatusWord(s: MainStatus, sub: bv32): (r: bv32)
    ensures Decode(MainErr(r)) == Some(s)
    ensures SubErr(r) == SubErr(sub)
    ensures r == 0 <==> s == Success && SubErr(sub) == 0
  {
    CodeDistinct(s, s);
    CombineThenSplit(Code(s), sub);
    CombineErr(Code(s), sub)
  }

  /** OtaImageState_t. */
  datatype ImageState = Unknown | Testing | Accepted | Rejected | Aborted

  function ImageStateValue(s: ImageState): (r: int)
    ensures 0 <= r <= LAST_IMAGE_STATE
  {
    match s
    case Unknown => 0
    case Testing => 1
    case Accepted => 2
    case Rejected => 3
    case Aborted => 4
  }

  /** OtaLastImageState is OtaImageStateAborted. */
  const LAST_IMAGE_STATE: int := 4

  /** The image state an enumeration value denotes; values outside 0..OtaLastImageState denote none. */
  function ImageStateOf(v: int): (r: Option<ImageState>)
    ensures r.Some? <==> 0 <= v <= LAST_IMAGE_STATE
    ensures r.Some? ==> ImageStateValue(r.value) == v
  {
    if v == 0 then Some(Unknown)
    else if v == 1 then Some(Testing)
    else if v == 2 then Some(Accepted)
    else if v == 3 then Some(Rejected)
    else if v == 4 then Some(Aborted)
    else None
  }

  lemma ImageStateRoundTrip(s: ImageState)
    ensures ImageStateOf(ImageStateValue(s)) == Some(s)
    ensures ImageStateValue(Aborted) == LAST_IMAGE_STATE
  {
  }

  /** otaPal_SetPlatformImageState as its doc comment constrains it: an out-of-range state is answered
      with OtaPalBadImageState and no sub code; for a valid state the answer is the platform's own
      (`platform`, not modelled further). */
  function SetPlatformImageState(eState: int, platform: bv32): (r: bv32)
    ensures !(0 <= eState <= LAST_IMAGE_STATE) ==> Decode(MainErr(r)) == Some(BadImageState) && SubErr(r) == 0
    ensures 0 <= eState <= LAST_IMAGE_STATE ==> r == platform
  {
    if ImageStateOf(eState).None? then StatusWord(BadImageState, 0) else platform
  }

  /** kOTA_MaxSignatureSize: 3072-bit RSA signatures. */
  const MAX_SIGNATURE_SIZE: int := 384

  /** Sig_t: a 16-bit size and a fixed data area of kOTA_MaxSignatureSize bytes. */
  datatype Sig = Sig(size: uint16, data: seq<bv8>)

  /** uint16_t. */
  type uint16 = x: int | 0 <= x < 0x1_0000

  predicate ValidSig(sig: Sig)
  {
    |sig.data| == MAX_SIGNATURE_SIZE && sig.size <= MAX_SIGNATURE_SIZE
  }

  /** The signature bytes a Sig_t holds: the first `size` bytes of its data area. */
  function SignatureBytes(sig: Sig): (r: seq<bv8>)
    requires ValidSig(sig)
    ensures |r| == sig.size <= MAX_SIGNATURE_SIZE
    ensures r <= sig.data
  {
    sig.data[..sig.size]
  }
}
