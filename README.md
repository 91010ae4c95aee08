# Firmware update download and command handling of the STM32 U585 IoTConnect demo

This project models, in Dafny, the small sequential pieces of the IoTConnect firmware for the
B-U585I-IOT02A board in which there is logic to state precisely:

- **The HTTPS over-the-air download** (`iotc_ota_fw_download` in `iotc_https_ota.c`). It first asks
  for byte range 0-0 and reads the total size from the `Content-Range` answer, `bytes 0-0/<N>`
  (section 14.4 of RFC 9110). It then fetches the image in 4096-byte inclusive ranges (section 14.1.2
  of RFC 9110), writing each one to flash through the OTA platform layer (PAL). A network error on a
  chunk after the first reconnects and resends the same range, at most 30 times. Any other failure
  ends the download with -1, and so does a short write. A progress line is logged on every 30th
  chunk, with the percentage computed in 32-bit `int` arithmetic as the code computes it. The TLS/HTTP client is an oracle (class `HttpsOta.HttpsLink`: the answer to the k-th send),
  and the PAL file is a class holding the receive partition as an array (`PalFile.FlashFile`).
  `HttpsOta.Download` is the imperative loop. It is proved equal to the functional specification
  `HttpsOta.DownloadSpec`, and the lemmas about that specification state the tiling, the retry
  budget, the write check, the progress lines and the early exits.
- **The cloud-to-device OTA message** (`on_c2d_message`, `copy_until_char`): pulling the
  `"url":"…"` and `"fileName":"…"` values out of the payload into their fixed buffers. A copy
  either ends at the closing quote with a NUL, or runs to the end of the payload and leaves the
  characters unterminated, or would run past its buffer.
- **The PAL headers** `ota_pal.h` and `new_ota.h`. These cover the 8-bit main / 24-bit sub status
  packing on `bv32`, the two status numberings (kept apart), the image states, the signature record
  and the doc-comment contracts of the file functions.
- **The four command handlers**, written as pure decisions plus small classes for the LEDs, the
  packet sender and the bounded ack queue:
  - `iotc_process_cmd_str` (`commands.c`);
  - `on_command` / `command_status` of the ntz application;
  - `on_command` / `command_status` of the common application;
  - the MQTT subscribe task (`mqtt_subscribe_task.c`): payload truncation, the inverted ack, the
    copy-then-enqueue hand-off into the 5-message ack queue, the topic-length checks and the
    consumer loop body.

Module layout: `CString` (C string helpers: `strstr`, `strcasestr`, `strlen`), `Wrappers`; `ChunkPlan`,
`ContentRange`, `HttpsOta`, `C2dOta` for `iotc_https_ota.c`; `OtaPal`, `NewOta`, `PalFile` for the PAL
headers; `App`, `Commands`, `NtzApp`, `CommonApp`, `MqttSubscribe` for the command handlers.

The model follows the code in these points, which a reader of the OTA flow might expect otherwise:

- A network error is retried only on the chunks after the first: a network error on the range
  starting at byte 0 ends the download.
- The results of `otaPal_CloseFile`, which checks the signature, and of `otaPal_CreateFileForRx` are
  only logged. The download returns 0 once every chunk is written.
- No firmware version is compared before the download.
- A fatal download error is only returned as -1. What the caller of `iotc_ota_fw_download` does with
  it is not part of this model.

## Model

| member | source | states |
|---|---|---|
| HttpsOta.SetupRequest | Middleware/IoTConnect/iotc-awsrtos-sdk-placeholder/iotc_https_ota.c:36-44 | the request points at the verb, host and path; each length is that string's `strlen`; the keep-alive flag is set |
| ContentRange.ParseContentRange | Middleware/IoTConnect/iotc-awsrtos-sdk-placeholder/iotc_https_ota.c:134-168 | an absent or empty value fails with NoLength, and one longer than DATA_BYTE_SIZE_CHAR_MAX (18) with TooLong, before any scan; otherwise the size is what `sscanf("bytes 0-0/%d")` reads from the text up to its first NUL, and NotANumber exactly when that scan fails |
| ContentRange.ProbeRoundTrip | Middleware/IoTConnect/iotc-awsrtos-sdk-placeholder/iotc_https_ota.c:162-168 | `bytes 0-0/` followed by the decimal rendering of any n below 10^8 probes to exactly n |
| ContentRange.ProbeExample | Middleware/IoTConnect/iotc-awsrtos-sdk-placeholder/iotc_https_ota.c:18-20 | `bytes 0-0/12345` probes to 12345 |
| ContentRange.ProbeWithoutSpace | Middleware/IoTConnect/iotc-awsrtos-sdk-placeholder/iotc_https_ota.c:165 | the format's space matches zero whitespace too, so `bytes0-0/<n>` gives the same size |
| ContentRange.ProbeNegative | Middleware/IoTConnect/iotc-awsrtos-sdk-placeholder/iotc_https_ota.c:165-173 | `%d` accepts a sign: `bytes 0-0/-<n>` passes the probe with size -n |
| ContentRange.ProbeFitsInt32 | Middleware/IoTConnect/iotc-awsrtos-sdk-placeholder/iotc_https_ota.c:155-165 | every accepted size lies strictly between -10^9 and 10^9, so it fits the `int data_length` |
| ContentRange.ScanIntBound | Middleware/IoTConnect/iotc-awsrtos-sdk-placeholder/iotc_https_ota.c:165 | a `%d` scan over at most nine characters yields a value strictly between -10^9 and 10^9 |
| ContentRange.ScanInt | Middleware/IoTConnect/iotc-awsrtos-sdk-placeholder/iotc_https_ota.c:165 | `%d` fails at the end of the text and on a character that is no space, sign or digit, and reads a non-negative number when a digit comes first |
| ContentRange.AfterLiteral | Middleware/IoTConnect/iotc-awsrtos-sdk-placeholder/iotc_https_ota.c:165 | the literal part of the format matched, `%d` starts at position 9 or later, within the text |
| ContentRange.Scan | Middleware/IoTConnect/iotc-awsrtos-sdk-placeholder/iotc_https_ota.c:165 | a text that does not start with `bytes` is refused, and every accepted one is at least ten characters long |
| ContentRange.ParseAsWritten | Middleware/IoTConnect/iotc-awsrtos-sdk-placeholder/iotc_https_ota.c:148-168 | the unterminated copy reads the same as the terminated one when the value is refused before the copy, holds a NUL itself, or the stale stack starts with a NUL |
| ContentRange.StrncpyReadsOn | Middleware/IoTConnect/iotc-awsrtos-sdk-placeholder/iotc_https_ota.c:164-165 | a probe `bytes 0-0/<n>` gives n from a terminated copy, but 10n + d as written when a stale digit d and then a NUL follow in the buffer |
| ChunkPlan.Plan | Middleware/IoTConnect/iotc-awsrtos-sdk-placeholder/iotc_https_ota.c:184-188 | a size of zero or less gives no chunk |
| ChunkPlan.PlanShape | Middleware/IoTConnect/iotc-awsrtos-sdk-placeholder/iotc_https_ota.c:184-202 | there are ceil(N/4096) ranges; range i is `[4096 i, min(4096 (i+1), N) - 1]`; ranges are non-empty and contiguous, the first starts at 0 and the last ends at N-1 |
| ChunkPlan.PlanCovers | Middleware/IoTConnect/iotc-awsrtos-sdk-placeholder/iotc_https_ota.c:184-202 | every byte below N lies in exactly one range, the one at index b / 4096 |
| ChunkPlan.PlanFromAfter | Middleware/IoTConnect/iotc-awsrtos-sdk-placeholder/iotc_https_ota.c:184 | every range planned from `data_start` starts at or after it and below N |
| ChunkPlan.PlanFromClosedForm | Middleware/IoTConnect/iotc-awsrtos-sdk-placeholder/iotc_https_ota.c:184-188 | the plan from chunk k holds ceil((N - 4096 k)/4096) ranges, the i-th being the chunk at 4096 (k + i) |
| ChunkPlan.Percent | Middleware/IoTConnect/iotc-awsrtos-sdk-placeholder/iotc_https_ota.c:244 | the intended percentage of a chunk inside the image, `data_start * 100 / N` in exact arithmetic, lies in 0..99; the code logs it only while the product fits an int (see PercentAsWrittenBelowOverflow and Finding 1) |
| ChunkPlan.PercentRoundsDown | Middleware/IoTConnect/iotc-awsrtos-sdk-placeholder/iotc_https_ota.c:244 | the percentage is `data_start * 100 / N` rounded down |
| ChunkPlan.Wrap32 | Middleware/IoTConnect/iotc-awsrtos-sdk-placeholder/iotc_https_ota.c:244 | a product wrapped to 32 bits lies in the int range and is unchanged when it already fits |
| ChunkPlan.CDiv | Middleware/IoTConnect/iotc-awsrtos-sdk-placeholder/iotc_https_ota.c:244 | C division by a positive number agrees with Euclidean division on non-negative operands and gives no positive quotient for a negative one |
| ChunkPlan.PercentAsWrittenBelowOverflow | Middleware/IoTConnect/iotc-awsrtos-sdk-placeholder/iotc_https_ota.c:244 | the 32-bit expression agrees with the true percentage whenever `data_start * 100` fits in an int |
| ChunkPlan.ProgressOverflow | Middleware/IoTConnect/iotc-awsrtos-sdk-placeholder/iotc_https_ota.c:243-248 | for a 30 000 000-byte image, chunk 5249 (a logged one) starts at 21 499 904, whose true percentage 71 is logged as -71 |
| HttpsOta.Int16 | Middleware/IoTConnect/iotc-awsrtos-sdk-placeholder/iotc_https_ota.c:251-257 | the `int16_t` result of the write lies in the 16-bit range and keeps any in-range count |
| HttpsOta.UInt32 | Middleware/IoTConnect/iotc-awsrtos-sdk-placeholder/iotc_https_ota.c:173 | the `(uint32_t)` cast keeps every non-negative 32-bit size |
| HttpsOta.HttpsLink.constructor | Middleware/IoTConnect/iotc-awsrtos-sdk-placeholder/iotc_https_ota.c:52-84 | a fresh link has made no send and no reconnect |
| HttpsOta.HttpsLink.Send | Middleware/IoTConnect/iotc-awsrtos-sdk-placeholder/iotc_https_ota.c:210-217 | a send records its range and returns the oracle's answer for that send |
| HttpsOta.HttpsLink.Reconnect | Middleware/IoTConnect/iotc-awsrtos-sdk-placeholder/iotc_https_ota.c:226-236 | a disconnect-and-connect adds one reconnect |
| HttpsOta.FetchChunk | Middleware/IoTConnect/iotc-awsrtos-sdk-placeholder/iotc_https_ota.c:208-241 | the `do … while` retry loop sends and reconnects exactly as the recursive Fetch says, starting from 30 tries |
| HttpsOta.FetchShape | Middleware/IoTConnect/iotc-awsrtos-sdk-placeholder/iotc_https_ota.c:208-241 | one chunk takes between 1 and tries+1 sends, all of the same range, with a reconnect between consecutive ones; every send but the last met a network error; the first chunk is sent once; the loop ends in a network error only on the first chunk or after the whole budget; it yields a body exactly when the last send succeeded, and then that body |
| HttpsOta.RetryBudget | Middleware/IoTConnect/iotc-awsrtos-sdk-placeholder/iotc_https_ota.c:208-241 | on a chunk after the first, the loop spends all 31 sends and still fails with a network error exactly when all of those 31 sends meet one; it then yields no body after 30 reconnects |
| HttpsOta.DownloadChunk | Middleware/IoTConnect/iotc-awsrtos-sdk-placeholder/iotc_https_ota.c:185-260 | one iteration of the `for` loop changes the link, the file and the progress lines exactly as ChunkPass says, with the 32-bit percentage of line 244, and goes on exactly when ChunkPass does, with its counter |
| HttpsOta.ReceiveImage | Middleware/IoTConnect/iotc-awsrtos-sdk-placeholder/iotc_https_ota.c:177-274 | create, the chunk loop and close end in the state and return code that Receive gives, the progress lines holding the 32-bit percentages |
| HttpsOta.Download | Middleware/IoTConnect/iotc-awsrtos-sdk-placeholder/iotc_https_ota.c:46-275 | the whole download (return code, sends, reconnects, PAL calls, progress lines with their 32-bit percentages, partition contents) is what DownloadSpec gives for the link's and the file's answers |
| HttpsOta.DownloadEarlyExit | Middleware/IoTConnect/iotc-awsrtos-sdk-placeholder/iotc_https_ota.c:52-168 | no PAL call is made exactly when allocation, configuration, connection or the initial range header fail, or when the probe is refused; the download then returns -1 after at most the one size request, with no progress and the partition untouched |
| HttpsOta.DownloadReceives | Middleware/IoTConnect/iotc-awsrtos-sdk-placeholder/iotc_https_ota.c:170-274 | after a good probe: create with the size cast to `uint32_t`, then the chunk loop from 0, then close only when every chunk succeeded |
| HttpsOta.DownloadSends | Middleware/IoTConnect/iotc-awsrtos-sdk-placeholder/iotc_https_ota.c:111-124 | the first request is the range 0-0; every later one is a range of the plan, in non-decreasing order |
| HttpsOta.ChunksSends | Middleware/IoTConnect/iotc-awsrtos-sdk-placeholder/iotc_https_ota.c:184-261 | the loop returns 0 or -1, only appends sends, and every range it sends belongs to the plan from its start |
| HttpsOta.ChunksSendInOrder | Middleware/IoTConnect/iotc-awsrtos-sdk-placeholder/iotc_https_ota.c:184-261 | the loop's sends never go back to an earlier range |
| HttpsOta.ChunksWrites | Middleware/IoTConnect/iotc-awsrtos-sdk-placeholder/iotc_https_ota.c:249-260 | the k-th write is at the k-th range's start; the loop returns 0 exactly when it made one write per range and each wrote the whole body |
| HttpsOta.DownloadWrites | Middleware/IoTConnect/iotc-awsrtos-sdk-placeholder/iotc_https_ota.c:177-274 | the PAL calls are a create, then writes at the plan's offsets in turn; the result is 0 exactly when every planned chunk was written in full, and then a close follows; a -1 leaves at most one write per range and no close |
| HttpsOta.LinesClosedForm | Middleware/IoTConnect/iotc-awsrtos-sdk-placeholder/iotc_https_ota.c:243-248 | starting from counter c, k completed chunks log (c+k)/30 lines, line q being the 32-bit `data_start * 100 / N` at the first byte of chunk 30q+29-c |
| HttpsOta.ChunksProgress | Middleware/IoTConnect/iotc-awsrtos-sdk-placeholder/iotc_https_ota.c:243-248 | the loop makes at most one PAL call per planned range, and the lines it logs are exactly the progress lines, with their 32-bit percentages, of the chunks it wrote |
| HttpsOta.ChunksLines | Middleware/IoTConnect/iotc-awsrtos-sdk-placeholder/iotc_https_ota.c:184-261 | the loop makes at most one write per range of the plan from its start, and logs a line for each written chunk that finds the counter at 29, holding the 32-bit percentage at that chunk |
| HttpsOta.LinesFromPlan | Middleware/IoTConnect/iotc-awsrtos-sdk-placeholder/iotc_https_ota.c:184-248 | the lines of the first k passes from `data_start` are the Lines of the first k ranges of the plan |
| HttpsOta.LinesInRange | Middleware/IoTConnect/iotc-awsrtos-sdk-placeholder/iotc_https_ota.c:243-244 | for an image of at most 21 474 836 bytes the product cannot wrap: line q is the exact percentage at chunk 30q+29-c and lies in 0..99 |
| HttpsOta.DownloadProgressExact | Middleware/IoTConnect/iotc-awsrtos-sdk-placeholder/iotc_https_ota.c:162-248 | after a good probe of at most 21 474 836 bytes, line q of the download is the exact percentage at the first byte of chunk 30q+29 of the plan, in 0..99 |
| HttpsOta.ChunksAlike | Middleware/IoTConnect/iotc-awsrtos-sdk-placeholder/iotc_https_ota.c:184-261 | the loop's return code, sends and progress do not depend on what create or close returned |
| HttpsOta.DownloadIgnoresPalStatus | Middleware/IoTConnect/iotc-awsrtos-sdk-placeholder/iotc_https_ota.c:177-180 | the return code, the sends, the progress and the number of PAL calls are the same whatever create and close return |
| HttpsOta.DownloadCallOrder | Middleware/IoTConnect/iotc-awsrtos-sdk-placeholder/iotc_https_ota.c:177-270 | the calls follow the PAL order (write and close only on a file whose create succeeded) exactly when create succeeded or nothing followed it |
| HttpsOta.DownloadNonPositiveSize | Middleware/IoTConnect/iotc-awsrtos-sdk-placeholder/iotc_https_ota.c:183-274 | a probed size of zero or less requests no chunk: just create and close, and the result is 0 |
| C2dOta.Reach | Middleware/IoTConnect/iotc-awsrtos-sdk-placeholder/iotc_https_ota.c:308-321 | copy_until_char writes up to and including the terminator, or the whole source (at least one cell) when there is none |
| C2dOta.CopyUntilChar | Middleware/IoTConnect/iotc-awsrtos-sdk-placeholder/iotc_https_ota.c:308-321 | the result is true exactly when the terminator occurs; `target` then holds the prefix before it and a NUL; otherwise it holds the whole source and no terminator; cells past the written ones are unchanged |
| C2dOta.Extract | Middleware/IoTConnect/iotc-awsrtos-sdk-placeholder/iotc_https_ota.c:308-321 | the copy bounded by its buffer (Finding 3's correction) yields a value shorter than the buffer, free of terminator and NUL, that is the source's prefix before its terminator; it yields none exactly when there is no terminator or the copy does not fit |
| C2dOta.CopyBounded | Middleware/IoTConnect/iotc-awsrtos-sdk-placeholder/iotc_https_ota.c:308-321 | the bounded copy into an array yields Extract's value, NUL-terminated in the buffer, and an empty string when that value is none |
| C2dOta.BoundedAgrees | Middleware/IoTConnect/iotc-awsrtos-sdk-placeholder/iotc_https_ota.c:308-321 | when the copy fits, the bounded copy finds the terminator exactly when copy_until_char does and yields the same prefix |
| C2dOta.CopyOutcome | Middleware/IoTConnect/iotc-awsrtos-sdk-placeholder/iotc_https_ota.c:308-321 | the copy overflows exactly when copy_until_char would write past the buffer; otherwise it is terminated exactly when the terminator occurs, holding the prefix before it (shorter than the buffer, free of the terminator, the bounded copy's value), and unterminated with the whole source otherwise |
| C2dOta.CopyValue | Middleware/IoTConnect/iotc-awsrtos-sdk-placeholder/iotc_https_ota.c:308-321 | copy_until_char on a fixed buffer: a terminated value is followed by a NUL; an unterminated copy leaves every source character and no NUL (a NUL in cell 0 for an empty source); cells past the copy keep their contents; on an overflow the buffer holds the empty string |
| C2dOta.ExtractRoundTrip | Middleware/IoTConnect/iotc-awsrtos-sdk-placeholder/iotc_https_ota.c:308-321 | a value followed by a quote and any rest is extracted back exactly when it fits |
| C2dOta.QuotedValue | Middleware/IoTConnect/iotc-awsrtos-sdk-placeholder/iotc_https_ota.c:308-321 | a source whose text starts with a quoted value reaches just past that value, and the copy is that value, terminated, when it fits, and an overflow otherwise |
| C2dOta.CopyOverflow | Middleware/IoTConnect/iotc-awsrtos-sdk-placeholder/iotc_https_ota.c:308-321 | a quoted value at least as long as the buffer makes copy_until_char write past the buffer, an overflow |
| C2dOta.FileNameOverflow | Middleware/IoTConnect/iotc-awsrtos-sdk-placeholder/iotc_https_ota.c:343-352 | a 100-character file name writes 101 cells into `file_name_buff[100]` |
| C2dOta.C2dSpec | Middleware/IoTConnect/iotc-awsrtos-sdk-placeholder/iotc_https_ota.c:322-354 | a NULL payload is ignored; a payload without `"url":"` is an ordinary command; otherwise the event holds the copy of the URL into `url_buff` (terminated values at most MAX_URL_LEN long), and a copy of the file name exactly when `"fileName":"` is present (terminated values shorter than 100) |
| C2dOta.OnC2dMessage | Middleware/IoTConnect/iotc-awsrtos-sdk-placeholder/iotc_https_ota.c:322-354 | the handler yields C2dSpec's event; `url_buff` holds the URL and a NUL when the closing quote is there, the URL's characters without a NUL when it is not, an empty string on an overflow, and keeps its other cells; it is untouched when there is no OTA |
| C2dOta.CopyUrl | Middleware/IoTConnect/iotc-awsrtos-sdk-placeholder/iotc_https_ota.c:332-341 | the URL is copied from just after the first `"url":"` into `url_buff`, with the buffer contents CopyValue gives |
| C2dOta.CopyFileName | Middleware/IoTConnect/iotc-awsrtos-sdk-placeholder/iotc_https_ota.c:343-352 | a file name is copied exactly when `"fileName":"` occurs, from just after its first occurrence into the 100 cells of `file_name_buff` |
| C2dOta.After | Middleware/IoTConnect/iotc-awsrtos-sdk-placeholder/iotc_https_ota.c:332-349 | the text after the first occurrence of a key is a suffix of the message, preceded by the key |
| C2dOta.UrlRoundTrip | Middleware/IoTConnect/iotc-awsrtos-sdk-placeholder/iotc_https_ota.c:332-341 | `"url":"` + u + `"` + rest yields the URL u, terminated, exactly when u fits MAX_URL_LEN, and an overflow otherwise |
| C2dOta.UrlUnterminated | Middleware/IoTConnect/iotc-awsrtos-sdk-placeholder/iotc_https_ota.c:312-341 | a payload that ends before the URL's closing quote leaves the URL's characters unterminated in `url_buff` when they fit its 2001 cells, and overflows otherwise |
| C2dOta.FileNameRoundTrip | Middleware/IoTConnect/iotc-awsrtos-sdk-placeholder/iotc_https_ota.c:343-352 | a payload naming a URL and then `"fileName":"` + f + `"` yields the file name f, terminated, exactly when it is shorter than 100, and an overflow otherwise |
| CString.Find | Middleware/IoTConnect/iotc-awsrtos-sdk-placeholder/iotc_https_ota.c:332 | `strstr`: the first position where the pattern matches, or -1 when it matches nowhere |
| CString.ContainsIff | Common/app/commands.c:31 | a pattern is found exactly when it matches at some position |
| CString.Lower | Common/app/commands.c:31-49 | the case-folded string has the same length, with every letter lowered |
| CString.ContainsImpliesIgnoreCase | Common/app/commands.c:31-49 | a lower-case pattern found by `strstr` is found by `strcasestr` too |
| CString.Str | Middleware/IoTConnect/iotc-awsrtos-sdk-placeholder/iotc_https_ota.c:165 | a buffer read as a C string: its longest NUL-free prefix, followed in the buffer by a NUL when shorter |
| CString.IndexOf | Middleware/IoTConnect/iotc-awsrtos-sdk-placeholder/iotc_https_ota.c:312-318 | the first index of a character, or the length when it does not occur |
| OtaPal.MainErr | Common/ota_pal/ota_pal.h:155 | OTA_PAL_MAIN_ERR is the top 8 bits, `err >> 24`, always below 256 |
| OtaPal.SubErr | Common/ota_pal/ota_pal.h:153-156 | OTA_PAL_SUB_ERR is the low 24 bits, `err & 0xffffff`, always below 2^24 |
| OtaPal.CombineErr | Common/ota_pal/ota_pal.h:157 | OTA_PAL_COMBINE_ERR places the low 8 bits of main above the 24 sub bits |
| OtaPal.CombineThenSplit | Common/ota_pal/ota_pal.h:155-157 | for a main code below 256, splitting a combined word gives back main and the sub code's low 24 bits |
| OtaPal.SplitThenCombine | Common/ota_pal/ota_pal.h:155-157 | every 32-bit word is the combination of its main and sub parts |
| OtaPal.Code | Common/ota_pal/ota_pal.h:49-67 | the sixteen main codes are below 16, and only success is 0 |
| OtaPal.Decode | Common/ota_pal/ota_pal.h:49-67 | a number names a main status exactly when it is below 16, and that status has this code |
| OtaPal.CodeDistinct | Common/ota_pal/ota_pal.h:49-67 | the codes are distinct and decode back to their status |
| OtaPal.StatusWord | Common/ota_pal/ota_pal.h:155-157 | a status word carries its main status in the top bits and the sub code below, and is 0 exactly for success with sub code 0 |
| OtaPal.ImageStateOf | Common/ota_pal/ota_pal.h:77-86 | a value names an image state exactly when it is in 0..OtaLastImageState |
| OtaPal.ImageStateRoundTrip | Common/ota_pal/ota_pal.h:77-86 | every image state's value names it back, and OtaLastImageState is the aborted state's value, 4 |
| OtaPal.SetPlatformImageState | Common/ota_pal/ota_pal.h:263-285 | a state outside 0..4 yields OtaPalBadImageState with no sub code; a valid one yields the platform's answer |
| OtaPal.SignatureBytes | Common/ota_pal/ota_pal.h:92-96 | a valid signature's bytes are `size` many, at most kOTA_MaxSignatureSize (384), taken from its data |
| NewOta.MainErr | Common/ota_pal/new_ota.h:121 | the same top-8-bit expression as in ota_pal.h, below 256 |
| NewOta.SubErr | Common/ota_pal/new_ota.h:122 | the same low-24-bit expression as in ota_pal.h, below 2^24 |
| NewOta.CombineErr | Common/ota_pal/new_ota.h:123 | the same combination as in ota_pal.h |
| NewOta.CombineThenSplit | Common/ota_pal/new_ota.h:121-123 | for a main code below 256, splitting a combined word gives back main and the sub code's low 24 bits |
| NewOta.CodeRange | Common/ota_pal/new_ota.h:19-34 | success is the only 0; every other status is in 0xe0..0xee; each survives as the main code of a combined word |
| NewOta.FailureIndex | Common/ota_pal/new_ota.h:20-34 | the fifteen failure statuses are 0xe0 + i for i in 0..14 |
| NewOta.CodeInjective | Common/ota_pal/new_ota.h:19-34 | no two statuses share a value |
| NewOta.MakeSig | Common/ota_pal/new_ota.h:57-64 | any signature of at most 384 bytes makes a valid Sig_t holding exactly those bytes |
| PalFile.WriteAnswer | Common/ota_pal/ota_pal.h:217-239 | otaPal_WriteBlock returns a negative error or a count no larger than the block and within the partition; a willing platform writes the whole block |
| PalFile.Patch | Common/ota_pal/ota_pal.h:217-239 | writing a block changes exactly its bytes of the partition |
| PalFile.Step | Common/ota_pal/ota_pal.h:160-239 | a call keeps the partition's size; a successful create erases it; close, a failed create and a write that reports nothing written leave it as it was |
| PalFile.CallOrder | Common/ota_pal/ota_pal.h:190-226 | a write or close before any successful create breaks the order, and after a failed create only another create may follow |
| PalFile.FlashFile.constructor | Common/ota_pal/ota_pal.h:160-188 | a new receive partition is erased and no PAL call has been made |
| PalFile.FlashFile.CreateFileForRx | Common/ota_pal/ota_pal.h:160-188 | create records the file size and the call; a successful one erases the partition, a failed one leaves it |
| PalFile.FlashFile.WriteBlock | Common/ota_pal/ota_pal.h:217-239 | a write returns WriteAnswer's count, records the call and stores exactly the bytes it reports written at the offset |
| PalFile.FlashFile.CloseFile | Common/ota_pal/ota_pal.h:190-215 | close returns the platform's answer and records the call |
| App.Apply | Common/app/commands.c:66-86 | switching an LED sets just that LED to the requested state; Keep changes nothing |
| App.Leds.On | Common/app/commands.c:69 | BSP_LED_On lights one LED and keeps the other |
| App.Leds.Off | Common/app/commands.c:71 | BSP_LED_Off turns one LED off and keeps the other |
| App.PacketSink.SendPacket | Projects/b_u585i_iot02a_ntz/Src/app/iotconnect_app.c:270 | a sent packet is appended to the packets sent so far |
| App.Packets | Projects/b_u585i_iot02a_ntz/Src/app/iotconnect_app.c:262-270 | no ack string sends nothing, an ack string sends exactly itself once |
| App.CommandStatus | Projects/b_u585i_iot02a_ntz/Src/app/iotconnect_app.c:259-272 | command_status sends nothing for a NULL ack and the ack exactly once otherwise |
| Commands.ActionOf | Common/app/commands.c:31-58 | only an LED command with "on" or "off" changes an LED, and it changes the one it names to that state |
| Commands.StatusOf | Common/app/commands.c:27-58 | `status` is 0 for a ping or an LED switch and -1 for an LED command with neither "on" nor "off" or an unrecognised command |
| Commands.LedDecision | Common/app/commands.c:33-54 | an LED command switches its LED exactly when it contains "on" or "off", on exactly when it contains "on"; otherwise it is invalid for that LED |
| Commands.Classify | Common/app/commands.c:31-58 | a command is a ping exactly when it names ping, unrecognised exactly when it names none of the three, and otherwise acts on red exactly when it names red; a switch turns its LED on exactly when the command contains "on" |
| Commands.SetLedRed | Common/app/commands.c:66-73 | only the red LED changes, to exactly `on` |
| Commands.SetLedGreen | Common/app/commands.c:79-86 | only the green LED changes, to exactly `on` |
| Commands.ProcessCmdStr | Common/app/commands.c:25-60 | the LEDs end as the branch chosen says, and 0 is returned whatever the computed status |
| Commands.FirstMatchWins | Common/app/commands.c:31-58 | the branches are tried as ping, led-red, led-green; only the first match acts; a command is unrecognised exactly when it names none of them |
| Commands.LedRule | Common/app/commands.c:33-54 | an LED command with "on" lights the LED, even with "off" present; "off" alone turns it off; with neither nothing changes and status is -1 |
| Commands.OnlyNamedLedChanges | Common/app/commands.c:31-58 | a ping, an invalid LED command and an unrecognised command leave both LEDs; an LED command leaves the other LED |
| Commands.CaseInsensitive | Common/app/commands.c:31-49 | commands and names that agree once lower-cased are classified alike |
| Commands.LowerCaseAlike | Common/app/commands.c:31-49 | lower-casing a command does not change its branch |
| NtzApp.NtzReply | Projects/b_u585i_iot02a_ntz/Src/app/iotconnect_app.c:223-252 | a NULL command acks failure named "?" with "Internal error"; a command naming led-red or led-green (red first) switches that LED on exactly when it contains "on" and acks success with "OK"; any other acks failure with "Not implemented" and keeps the LEDs |
| NtzApp.OnCommand | Projects/b_u585i_iot02a_ntz/Src/app/iotconnect_app.c:217-253 | NULL event data changes nothing and sends nothing; otherwise the LEDs end as NtzReply says and its ack goes through command_status |
| NtzApp.RedBeforeGreen | Projects/b_u585i_iot02a_ntz/Src/app/iotconnect_app.c:228-237 | a command naming both LEDs switches only the red one |
| NtzApp.OffUnlessOn | Projects/b_u585i_iot02a_ntz/Src/app/iotconnect_app.c:229-241 | an LED command without "on" turns its LED off, even with no state named at all |
| NtzApp.CaseMatters | Projects/b_u585i_iot02a_ntz/Src/app/iotconnect_app.c:228-229 | "led-red ON" turns the red LED off here but on in iotc_process_cmd_str, which ignores case |
| CommonApp.CommonReply | Common/app/iotconnect_app.c:262-269 | a present command acks success with "OK"; a NULL one acks failure named "?" with "Internal error"; no LED is touched |
| CommonApp.OnCommand | Common/app/iotconnect_app.c:256-313 | NULL event data sends nothing; otherwise CommonReply's ack goes through command_status, sent once when the library made one |
| MqttSubscribe.IncomingPublish | Common/app/mqtt_subscribe_task.c:226-247 | the buffer holds the first min(len, 255) payload bytes and then a NUL; the event string is a prefix of the payload, shorter than 256, and that whole prefix when the payload has no NUL |
| MqttSubscribe.MqttReply | Common/app/mqtt_subscribe_task.c:206-221 | the ack is inverted: a present command acks failure with "Not implemented", a NULL one acks success with "command did something"; no LED changes |
| MqttSubscribe.CommandStatusAsWritten | Common/app/mqtt_subscribe_task.c:192-201 | a present ack is queued as its string; a NULL ack reaches `strlen` and is undefined |
| MqttSubscribe.CommandStatusSpec | Common/app/mqtt_subscribe_task.c:192-201 | with the NULL check: a NULL ack sends nothing, a present one is queued |
| MqttSubscribe.NullAck | Common/app/mqtt_subscribe_task.c:192-201 | the two agree on every present ack and differ on the NULL one |
| MqttSubscribe.AckQueue.constructor | Common/app/mqtt_subscribe_task.c:304-308 | a new ack queue is empty, owns no buffer and has published nothing |
| MqttSubscribe.AckQueue.SendMessage | Common/app/mqtt_subscribe_task.c:155-178 | a failed allocation returns -1 and queues nothing; otherwise a fresh buffer holding the string and its NUL is queued at the back, and a full queue (5 messages) returns errQUEUE_FULL with the copy freed; the queue never holds more than 5 |
| MqttSubscribe.AckQueue.ConsumeOne | Common/app/mqtt_subscribe_task.c:361-376 | the oldest message is removed, published once to the ack topic as its string, and freed |
| MqttSubscribe.CommandStatus | Common/app/mqtt_subscribe_task.c:183-201 | with the NULL check, an ack is queued as a copy exactly when it is present, allocation works and the queue has room; otherwise nothing changes |
| MqttSubscribe.HandOff | Common/app/mqtt_subscribe_task.c:155-178 | a message queued on an empty queue is published as the same string, and its buffer is freed |
| MqttSubscribe.Snprintf | Common/app/mqtt_subscribe_task.c:313-338 | snprintf returns the whole text's length and leaves a prefix shorter than the buffer, the whole text exactly when it fits |
| MqttSubscribe.SubTopic | Common/app/mqtt_subscribe_task.c:63-65 | the subscribe topic is a NUL-free `iot/` + the device id + `/cmd`, 8 characters longer than the id |
| MqttSubscribe.AckTopic | Common/app/mqtt_subscribe_task.c:71 | the ack topic is NUL-free and 30 characters longer than the device id and the telemetry cd together |
| MqttSubscribe.Rejected | Common/app/mqtt_subscribe_task.c:323-338 | a length that passes the check is in 1..256; with the strict check exactly 1..255 passes |
| MqttSubscribe.TaskSetup | Common/app/mqtt_subscribe_task.c:304-338 | the task goes on only with its queue, the device id and the cd; each buffer then holds a prefix of its topic, shorter than 256; with the strict check each holds its whole topic |
| MqttSubscribe.SetupAsWritten | Common/app/mqtt_subscribe_task.c:320-338 | when the check as written lets the task go on, the ack buffer holds the ack topic or the ack topic without its last character |
| MqttSubscribe.SetupSpec | Common/app/mqtt_subscribe_task.c:320-338 | when the strict check lets the task go on, both buffers hold their whole topics |
| MqttSubscribe.SetupReady | Common/app/mqtt_subscribe_task.c:304-338 | with the strict check, the task goes on exactly when the queue exists, both settings are there and the ack topic fits its buffer; then both buffers hold their whole topics |
| MqttSubscribe.SetupAsWrittenReady | Common/app/mqtt_subscribe_task.c:304-338 | as written, the task goes on exactly when the queue exists, both settings are there and the ack topic has at most 256 characters; the subscribe topic is then whole, and the ack buffer holds the ack topic's first 255 characters at most, the whole topic exactly when it is shorter than 256 |
| MqttSubscribe.StartTask | Common/app/mqtt_subscribe_task.c:279-376 | a queue is made exactly when the set-up as written goes on; it is fresh and empty, and the consumer publishes on the ack topic the set-up formatted |
| MqttSubscribe.AckTopicCut | Common/app/mqtt_subscribe_task.c:335-338 | a 256-character ack topic passes the check as written with its last character cut, and stops under the strict check |

## Left out

- `iotc_ota_fw_apply`: a platform reset with no result. The PAL activation and reset it relies on
  (`otaPal_ActivateNewImage`, `otaPal_ResetDevice`) and `otaPal_AcceptImage` / `otaPal_RejectImage`
  have no behaviour in the headers beyond their status codes.
- The TLS and HTTP client (`mbedtls_transport_*`, `HTTPClient_*`): foreign libraries. The link's
  constants and answers stand in for them: whether allocation, configuration and connection succeed,
  whether the range headers fit the header buffer, and the status, `Content-Range` value and body of
  each send. Header contents and request bytes are not modelled.
- The status of the size request is only logged in the code; only its `Content-Range` value matters,
  and only that is used.
- `vTaskDelay` backoffs and settle delays, and every log line except the download's progress
  percentages, which are kept as the values the code computes: timing and output only. This
  includes the "Ack Publish to" line, which prints the subscribe topic.
- Freeing the transport context and the response after the loop: memory only.
- The probe's `strncpy` leaves `data_length_buffer` unterminated. `ContentRange.ParseContentRange`
  models the terminated copy. The code as written is `ContentRange.ParseAsWritten`, with the stale
  stack contents as a parameter (see Findings).
- `on_c2d_message` writes `payload[payloadLength] = 0`, one past the payload: the model works on the
  payload as a string and reads it up to its first NUL.
- `on_c2d_message` only logs the URL and the file name; `file_name_buff` is local to it, so its
  only lasting effect is the contents of `url_buff`. `C2dOta.C2dSpec` returns what the copies
  left, for the lemmas about them.
- C2dOta.CopyValue: where `copy_until_char` would write past its buffer (a value at least as long
  as the buffer, Finding 3), the C code's out-of-bounds writes are not modelled; the model
  leaves the empty string in the buffer instead and reports an overflow.
- The command names IOTC_CMD_PING, IOTC_CMD_LED_RED and IOTC_CMD_LED_GREEN are defined in
  `iotconnect_app.h`, which is not part of this model, so `Commands.Names` is a parameter.
- The iotcl library calls (`iotcl_clone_command`, `iotcl_create_ack_string_and_destroy_event`,
  `iotcl_process_event`) are parameters: the cloned command as an option and the ack string as a
  function of status and message.
- The common `on_command` never frees its cloned command in the active branch: memory only.
- The MQTT agent publish, task notifications, the subscribe retry loop and FreeRTOS queue blocking:
  concurrency and library calls. The queue's 10-tick send timeout is an immediate refusal when full,
  and the consumer's `portMAX_DELAY` receive is `MqttSubscribe.AckQueue.ConsumeOne` on a non-empty
  queue. Reading the device id and the telemetry cd are the `Option` parameters of the set-up.
- MqttSubscribe.AckQueue.ConsumeOne: the publish result is only logged, so every dequeued message
  counts as published. A NULL message, which only `mqttcore_send_message` could queue and never
  does, is not modelled.
- `subscribe_to_c2d_topic` and `is_mqtt_connected` in `iotc_https_ota.c`: MQTT agent plumbing.
- Sensor tasks, telemetry JSON and board bring-up: sensor I/O and library serialisation.
- PalFile.FlashFile.WriteBlock: the partition size and the platform's willingness to write stand in
  for the flash driver, so the count it returns is any the doc comment allows, not a particular
  driver's.
- HttpsOta.DownloadEarlyExit: the initial range header stands for both `HTTPClient_InitializeRequestHeaders`
  and `HTTPClient_AddRangeHeader`, as one answer of the oracle.

## Findings

| source | as written | input that shows it | evidently intended | confidence | as-written member | corrected member |
|---|---|---|---|---|---|---|
| Middleware/IoTConnect/iotc-awsrtos-sdk-placeholder/iotc_https_ota.c:244 | `data_start * 100 / data_length` is computed in 32-bit `int` | a 30 000 000-byte image (8 digits pass the 18-character guard): at chunk 5249, `data_start` is 21 499 904 and the product wraps, so -71 is logged instead of 71 | the true percentage, in 0..99 | not executed | ChunkPlan.ProgressOverflow | ChunkPlan.PercentRoundsDown |
| Middleware/IoTConnect/iotc-awsrtos-sdk-placeholder/iotc_https_ota.c:164 | `strncpy` copies exactly the value's characters and no terminator into the uninitialised `data_length_buffer` | `bytes 0-0/123` with a stale `4` and then a NUL after it in the buffer probes to 1234 | `sscanf` reads only the value | not executed | ContentRange.StrncpyReadsOn | ContentRange.ProbeRoundTrip |
| Middleware/IoTConnect/iotc-awsrtos-sdk-placeholder/iotc_https_ota.c:343-352 | the file name is copied with `copy_until_char` into `file_name_buff[100]` with no bound | a `"fileName":"` value of 100 characters makes the copy write 101 cells | a copy bounded by the buffer, refusing a value that does not fit | not executed | C2dOta.FileNameOverflow | C2dOta.ExtractRoundTrip |
| Common/app/mqtt_subscribe_task.c:323 | a formatted topic length is rejected only when `> 256`, yet snprintf into 256 cells has already cut a 256-character topic | a 220-character device id and a 6-character cd give an ack topic of exactly 256 characters; acks then go to the topic without its last character | reject a length of 256 or more | not executed | MqttSubscribe.AckTopicCut | MqttSubscribe.SetupReady |
| Common/app/mqtt_subscribe_task.c:196-199 | `command_status` passes the ack to `iotconnect_sdk_send_packet` without the NULL check the other variants make | an event for which the library makes no ack (NULL) reaches `strlen(NULL)` | send nothing for a NULL ack | not executed | MqttSubscribe.NullAck | MqttSubscribe.CommandStatus |
