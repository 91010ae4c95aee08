/** The alternative PAL header (Common/ota_pal/new_ota.h): the same error-word helpers, status
    constants numbered 0xe0..0xee instead of 1..15, the image states and the signature record.
    Its numbering is kept apart from the one in OtaPal. */
module NewOta {
  import OtaPal

  /** OTA_PAL_MAIN_ERR as this header defines it. */
  function MainErr(err: bv32): (r: bv32)
    ensures r < 256
    ensures r == OtaPal.MainErr(err)
  {
    err >> 24
  }

  /** OTA_PAL_SUB_ERR as this header defines it. */
  function SubErr(err: bv32): (r: bv32)
    ensures r < 0x100_0000
    ensures r == OtaPal.SubErr(err)
  {
    err & 0xff_ffff
  }

  /** OTA_PAL_COMBINE_ERR as this header defines it. */
  function CombineErr(main: bv32, sub: bv32): (r: bv32)
    ensures r == OtaPal.CombineErr(main, sub)
  {
    (main << 24) | SubErr(sub)
  }

  lemma CombineThenSplit(main: bv32, sub: bv32)
    requires main < 256
    ensures MainErr(CombineErr(main, sub)) == main
    ensures SubErr(CombineErr(main, sub)) == SubErr(sub)
  {
    OtaPal.CombineThenSplit(main, sub);
  }

  /** The status constants of this header. */
  datatype Status =
    | Success
    | Uninitialized
    | OutOfMemory
    | NullFileContext
    | SignatureCheckFailed
    | RxFileCreateFailed
    | RxFileTooLarge
    | BootInfoCreateFailed
    | BadSignerCert
    | BadImageState
    | AbortFailed
    | RejectFailed
    | CommitFailed
    | ActivateFailed
    | FileAbort
    | FileClose

  function Code(s: Status): (r: bv32)
  {
    match s
    case Success => 0x0
    case Uninitialized => 0xe0
    case OutOfMemory => 0xe1
    case NullFileContext => 0xe2
    case SignatureCheckFailed => 0xe3
    case RxFileCreateFailed => 0xe4
    case RxFileTooLarge => 0xe5
    case BootInfoCreateFailed => 0xe6
    case BadSignerCert => 0xe7
    case BadImageState => 0xe8
    case AbortFailed => 0xe9
    case RejectFailed => 0xea
    case CommitFailed => 0xeb
    case ActivateFailed => 0xec
    case FileAbort => 0xed
    case FileClose => 0xee
  }

  /** Success is 0 and every other constant lies in 0xe0..0xee, so all of them fit the 8-bit main
      field and survive a combine/split with any sub code. */
  lemma CodeRange(s: Status, sub: bv32)
    ensures Code(s) == 0 <==> s == Success
    ensures s != Success ==> 0xe0 <= Code(s) <= 0xee
    ensures MainErr(CombineErr(Code(s), sub)) == Code(s)
  {
    assert Code(s) < 256;
    CombineThenSplit(Code(s), sub);
  }

  /** The fifteen failure constants are distinct: each is 0xe0 plus its position in the list. */
  function FailureIndex(s: Status): (r: nat)
    requires s != Success
    ensures r < 15
    ensures Code(s) as int == 0xe0 + r
  {
    match s
    case Uninitialized => 0
    case OutOfMemory => 1
    case NullFileContext => 2
    case SignatureCheckFailed => 3
    case RxFileCreateFailed => 4
    case RxFileTooLarge => 5
    case BootInfoCreateFailed => 6
    case BadSignerCert => 7
    case BadImageState => 8
    case AbortFailed => 9
    case RejectFailed => 10
    case CommitFailed => 11
    case ActivateFailed => 12
    case FileAbort => 13
    case FileClose => 14
  }

  lemma CodeInjective(s: Status, t: Status)
    requires Code(s) == Code(t)
    ensures s == t
  {
    if s != Success && t != Success {
      assert FailureIndex(s) == FailureIndex(t);
      match s
      case Uninitialized =>
      case OutOfMemory =>
      case NullFileContext =>
      case SignatureCheckFailed =>
      case RxFileCreateFailed =>
      case RxFileTooLarge =>
      case BootInfoCreateFailed =>
      case BadSignerCert =>
      case BadImageState =>
      case AbortFailed =>
      case RejectFailed =>
      case CommitFailed =>
      case ActivateFailed =>
      case FileAbort =>
      case FileClose =>
    }
  }

  /** OtaImageState_t: this header declares the same five states with the same values as
      ota_pal.h, so the model shares OtaPal.ImageState. */
  type ImageState = OtaPal.ImageState

  /** kOTA_MaxSignatureSize and Sig_t are declared here exactly as in ota_pal.h. */
  const MAX_SIGNATURE_SIZE: int := OtaPal.MAX_SIGNATURE_SIZE
  type Sig = OtaPal.Sig

  /** A signature record whose size fits the data area. */
  function MakeSig(bytes: seq<bv8>): (r: Sig)
    requires |bytes| <= MAX_SIGNATURE_SIZE
    ensures OtaPal.ValidSig(r)
    ensures OtaPal.SignatureBytes(r) == bytes
  {
    OtaPal.Sig(|bytes|, bytes + seq(MAX_SIGNATURE_SIZE - |bytes|, _ => 0))
  }
}
