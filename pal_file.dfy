/** A stand-in for the OTA PAL receive-file functions declared in Common/ota_pal/ota_pal.h
    (otaPal_CreateFileForRx, otaPal_WriteBlock, otaPal_CloseFile). Their implementations are not
    part of this model; the stand-in keeps what the doc comments promise and takes the platform's
    answers from constants fixed when the file object is made. */
module PalFile {

  /** int16_t, the result type of otaPal_WriteBlock. */
  type int16 = x: int | -0x8000 <= x < 0x8000

  /** uint32_t, the type of OtaFileContext_t.fileSize. */
  type uint32 = x: int | 0 <= x < 0x1_0000_0000

  /** Flash content after erasing. */
  const ERASED: bv8 := 0xff

  /** One call into the PAL and the answer it gave. */
  datatype PalCall =
    | Create(fileSize: uint32, status: bv32)
    | Write(offset: nat, data: seq<bv8>, written: int16)
    | Close(status: bv32)

  function Min(a: int, b: int): int { if a < b then a else b }

  /** The count otaPal_WriteBlock reports when the platform is willing to write `grant` bytes (or
      fails with the negative code `grant`): as its doc comment says, either a negative error or
      the number of bytes written, which is never more than the block nor more than fits the
      partition from `offset` on. */
  function WriteAnswer(grant: int, offset: nat, len: nat, capacity: nat): (r: int16)
    ensures r < 0 <==> grant < 0
    ensures r >= 0 ==> r <= len
    ensures r > 0 ==> offset + r <= capacity
    ensures grant >= len && offset + len <= capacity && len < 0x8000 ==> r == len
  {
    if grant < 0 then (if grant < -0x8000 then -0x8000 else grant)
    else Min(Min(Min(grant, len), if offset <= capacity then capacity - offset else 0), 0x7fff)
  }

  /** `img` with `bytes` stored from `offset` on. */
  function Patch(img: seq<bv8>, offset: nat, bytes: seq<bv8>): (r: seq<bv8>)
    requires offset + |bytes| <= |img|
    ensures |r| == |img|
    ensures forall i :: 0 <= i < |img| && !(offset <= i < offset + |bytes|) ==> r[i] == img[i]
    ensures forall i :: 0 <= i < |bytes| ==> r[offset + i] == bytes[i]
  {
    img[..offset] + bytes + img[offset + |bytes|..]
  }

  /** What one PAL call does to the partition `img`: a successful create erases it, a write stores
      the bytes it reports written, anything else leaves it as it was. */
  function Step(img: seq<bv8>, c: PalCall): (r: seq<bv8>)
    ensures |r| == |img|
    ensures c.Create? && c.status == 0 ==> forall i :: 0 <= i < |r| ==> r[i] == ERASED
    ensures c.Close? || (c.Create? && c.status != 0) || (c.Write? && c.written <= 0) ==> r == img
  {
    match c
    case Create(_, status) => if status == 0 then seq(|img|, _ => ERASED) else img
    case Write(offset, data, written) =>
      if 0 < written <= |data| && offset + written <= |img| then Patch(img, offset, data[..written])
      else img
    case Close(_) => img
  }

  /** The order the doc comments ask of the caller: otaPal_WriteBlock and otaPal_CloseFile are
      only reached once otaPal_CreateFileForRx has succeeded (`open`). */
  predicate CallOrder(calls: seq<PalCall>, open: bool)
    ensures !open && calls != [] && !calls[0].Create? ==> !CallOrder(calls, open)
    ensures CallOrder(calls, open) && 2 <= |calls| && calls[0].Create? && calls[0].status != 0 ==>
              calls[1].Create?
  {
    if calls == [] then true
    else match calls[0]
      case Create(_, status) => CallOrder(calls[1..], status == 0)
      case Write(_, _, _) => open && CallOrder(calls[1..], open)
      case Close(_) => open && CallOrder(calls[1..], false)
  }

  class FlashFile {
    /** What the platform answers to otaPal_CreateFileForRx and otaPal_CloseFile. */
    const createAnswer: bv32
    const closeAnswer: bv32
    /** How many bytes the platform is willing to write on the call made at position k of the
        call log (negative: an error code). */
    const grant: nat -> int
    /** The receive partition. */
    const image: array<bv8>
    /** file_context.fileSize as the last create saw it. */
    var fileSize: uint32
    /** Every PAL call made on this file, in order. */
    var calls: seq<PalCall>

    constructor (capacity: nat, createAnswer: bv32, closeAnswer: bv32, grant: nat -> int)
      ensures this.createAnswer == createAnswer && this.closeAnswer == closeAnswer
      ensures this.grant == grant
      ensures fresh(image) && image.Length == capacity
      ensures calls == []
      ensures forall i :: 0 <= i < capacity ==> image[i] == ERASED
    {
      this.createAnswer := createAnswer;
      this.closeAnswer := closeAnswer;
      this.grant := grant;
      image := new bv8[capacity](_ => ERASED);
      fileSize := 0;
      calls := [];
    }

    /** otaPal_CreateFileForRx: on success the partition is erased, since an earlier image may still
        be stored there. */
    method CreateFileForRx(size: uint32) returns (status: bv32)
      modifies this`fileSize, this`calls, image
      ensures image[..] == Step(old(image[..]), Create(size, status))
      ensures status == createAnswer
      ensures fileSize == size
      ensures calls == old(calls) + [Create(size, status)]
      ensures status == 0 ==> forall i :: 0 <= i < image.Length ==> image[i] == ERASED
      ensures status != 0 ==> image[..] == old(image[..])
    {
      fileSize := size;
      status := createAnswer;
      if status == 0 {
        var i := 0;
        while i < image.Length
          modifies image
          invariant 0 <= i <= image.Length
          invariant forall j :: 0 <= j < i ==> image[j] == ERASED
        {
          image[i] := ERASED;
          i := i + 1;
        }
      }
      calls := calls + [Create(size, status)];
      if status == 0 {
        assert image[..] == seq(image.Length, _ => ERASED);
      }
    }

    /** otaPal_WriteBlock: returns the number of bytes written from `offset` on, or a negative
        error code, in which case nothing is written. */
    method WriteBlock(offset: nat, data: seq<bv8>) returns (written: int16)
      modifies this`calls, image
      ensures written == WriteAnswer(grant(|old(calls)|), offset, |data|, image.Length)
      ensures written < 0 || written <= |data|
      ensures calls == old(calls) + [Write(offset, data, written)]
      ensures written > 0 ==> image[..] == Patch(old(image[..]), offset, data[..written])
      ensures written <= 0 ==> image[..] == old(image[..])
      ensures image[..] == Step(old(image[..]), Write(offset, data, written))
    {
      written := WriteAnswer(grant(|calls|), offset, |data|, image.Length);
      if written > 0 {
        Store(offset, data[..written]);
      }
      calls := calls + [Write(offset, data, written)];
    }

    /** Programming `bytes` into the partition from `offset` on, one byte at a time. */
    method Store(offset: nat, bytes: seq<bv8>)
      requires offset + |bytes| <= image.Length
      modifies image
      ensures image[..] == Patch(old(image[..]), offset, bytes)
    {
      var i := 0;
      while i < |bytes|
        invariant 0 <= i <= |bytes|
        invariant forall j :: 0 <= j < image.Length ==>
                    image[j] == if offset <= j < offset + i then bytes[j - offset] else old(image[j])
      {
        image[offset + i] := bytes[i];
        i := i + 1;
      }
      assert image[..] == Patch(old(image[..]), offset, bytes);
    }

    /** otaPal_CloseFile: authenticates and closes the file; the answer is the platform's. */
    method CloseFile() returns (status: bv32)
      modifies this`calls
      ensures status == closeAnswer
      ensures calls == old(calls) + [Close(status)]
    {
      status := closeAnswer;
      calls := calls + [Close(status)];
    }
  }
}
