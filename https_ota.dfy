/** iotc_ota_fw_download (iotc_https_ota.c): fetch a firmware image over HTTPS in byte-range chunks
    and hand each chunk to the OTA PAL. The TLS transport and the HTTP client are an HttpsLink whose
    answers are fixed in advance; the PAL is a PalFile.FlashFile. */
module HttpsOta {
  import opened Wrappers
  import ContentRange
  import opened ChunkPlan
  import PalFile
  import CString

  /** RESPONSE_BUFFER_LENGTH: a body never exceeds the static response buffer. */
  const RESPONSE_BUFFER_LENGTH: int := DATA_CHUNK_SIZE + 2048

  /** tries_remaining starts at 30: up to 30 reconnects, so 31 sends, per chunk. */
  const TRIES: nat := 30

  /** The progress line is logged when the counter reaches 29, i.e. on every 30th chunk. */
  const PROGRESS_PERIOD: nat := 30

  type Body = b: seq<bv8> | |b| <= RESPONSE_BUFFER_LENGTH

  /** The HTTPStatus_t values the loop tells apart. */
  datatype HttpStatus = HttpSuccess | HttpNetworkError | HttpOtherError

  /** What HTTPClient_Send leaves behind: its status, the Content-Range header HTTPClient_ReadHeader
      finds (None: absent) and the body. */
  datatype Response = Response(status: HttpStatus, contentRange: Option<string>, body: Body)

  /** The request fields setup_request fills in: each string with its `strlen`, and whether the
      keep-alive flag is set. */
  datatype RequestInfo = RequestInfo(verb: string, verbLen: nat, host: string, hostLen: nat,
                                     path: string, pathLen: nat, keepAlive: bool)

  /** setup_request: the request points at the given strings, each length is the string's length
      up to its NUL (the whole string when it has none), and the connection is kept alive. */
  function SetupRequest(verb: string, host: string, path: string): (r: RequestInfo)
    ensures r.verb == verb && r.host == host && r.path == path && r.keepAlive
    ensures r.verbLen <= |verb| && r.verb[..r.verbLen] == CString.Str(verb)
    ensures r.hostLen <= |host| && r.host[..r.hostLen] == CString.Str(host)
    ensures r.pathLen <= |path| && r.path[..r.pathLen] == CString.Str(path)
    ensures CString.NUL !in verb + host + path ==> r.verbLen == |verb| && r.hostLen == |host| && r.pathLen == |path|
  {
    RequestInfo(verb, |CString.Str(verb)|, host, |CString.Str(host)|, path, |CString.Str(path)|, true)
  }

  /** `(int16_t) n`: two's complement truncation to 16 bits. */
  function Int16(x: int): (r: int)
    ensures -0x8000 <= r < 0x8000
    ensures -0x8000 <= x < 0x8000 ==> r == x
  {
    (x + 0x8000) % 0x1_0000 - 0x8000
  }

  /** `(uint32_t) data_length`. */
  function UInt32(x: int): (r: PalFile.uint32)
    ensures 0 <= x < 0x1_0000_0000 ==> r == x
  {
    x % 0x1_0000_0000
  }

  /** The network context and HTTP client of one download. */
  class HttpsLink {
    /** Whether mbedtls_transport_allocate, mbedtls_transport_configure and the first
        mbedtls_transport_connect succeed. */
    const allocateOk: bool
    const configureOk: bool
    const connectOk: bool
    /** Whether HTTPClient_InitializeRequestHeaders and HTTPClient_AddRangeHeader succeed for a
        request of this range in the header buffer. */
    const headersFit: Range -> bool
    /** The answer to the k-th HTTPClient_Send, counting from 0. */
    const respond: nat -> Response
    /** The ranges sent so far, in order. */
    var sends: seq<Range>
    /** How many times the transport was disconnected and connected again. */
    var reconnects: nat

    constructor (allocateOk: bool, configureOk: bool, connectOk: bool,
                 headersFit: Range -> bool, respond: nat -> Response)
      ensures this.allocateOk == allocateOk && this.configureOk == configureOk && this.connectOk == connectOk
      ensures this.headersFit == headersFit && this.respond == respond
      ensures sends == [] && reconnects == 0
    {
      this.allocateOk := allocateOk;
      this.configureOk := configureOk;
      this.connectOk := connectOk;
      this.headersFit := headersFit;
      this.respond := respond;
      sends := [];
      reconnects := 0;
    }

    /** HTTPClient_Send of a GET for `rg`. */
    method Send(rg: Range) returns (resp: Response)
      modifies this`sends
      ensures resp == respond(|old(sends)|)
      ensures sends == old(sends) + [rg]
    {
      resp := respond(|sends|);
      sends := sends + [rg];
    }

    /** mbedtls_transport_disconnect followed by mbedtls_transport_connect, whose status is not
        looked at. */
    method Reconnect()
      modifies this`reconnects
      ensures reconnects == old(reconnects) + 1
    {
      reconnects := reconnects + 1;
    }
  }

  /** The link's log after the retry loop of one chunk, and the body it got (None: the download
      gives up with -1). */
  datatype Fetched = Fetched(sends: seq<Range>, reconnects: nat, body: Option<Body>)

  /** The `do … while (http_status == HTTPNetworkError)` loop for range `rg` with `tries` reconnects
      left, when `sends` have been made so far: a network error on a range that does not start at
      byte 0 reconnects and sends again while tries remain; any other failure ends the download. */
  function Fetch(rg: Range, tries: nat, sends: seq<Range>, reconnects: nat, respond: nat -> Response): Fetched
    decreases tries
  {
    var resp := respond(|sends|);
    var sent := sends + [rg];
    if rg.first != 0 && resp.status == HttpNetworkError then
      if tries == 0 then Fetched(sent, reconnects, None)
      else Fetch(rg, tries - 1, sent, reconnects + 1, respond)
    else if resp.status != HttpSuccess then Fetched(sent, reconnects, None)
    else Fetched(sent, reconnects, Some(resp.body))
  }

  /** Everything a download leaves behind: the link's log, the PAL's call log, the logged progress
      percentages and the partition's content. */
  datatype Obs = Obs(sends: seq<Range>, reconnects: nat, calls: seq<PalFile.PalCall>,
                     progress: seq<int>, image: seq<bv8>)

  datatype Outcome = Outcome(rc: int, obs: Obs)

  /** The answers of the environment, taken from the link and the file, and the reconnect budget
      of a chunk (TRIES in every download). */
  datatype Env = Env(allocateOk: bool, configureOk: bool, connectOk: bool,
                     headersFit: Range -> bool, respond: nat -> Response,
                     createAnswer: bv32, closeAnswer: bv32, grant: nat -> int, tries: nat)

  /** One PAL call and its effect on the observation. */
  function Call(o: Obs, c: PalFile.PalCall): Obs
  {
    o.(calls := o.calls + [c], image := PalFile.Step(o.image, c))
  }

  /** What one pass of the chunk loop does: Stop ends the download with -1, Next goes on to the next
      chunk with the new progress counter. */
  datatype Pass = Stop(obs: Obs) | Next(ctr: nat, obs: Obs)

  /** One pass of the chunk loop at `data_start == start` with `progress_ctr == ctr`, for an image of
      `n` bytes: the range headers, the retry loop, the progress line and the write check. */
  function ChunkPass(n: int, start: nat, ctr: nat, o: Obs, env: Env): Pass
    requires start < n
  {
    var rg := ChunkAt(start, n);
    if !env.headersFit(rg) then Stop(o)
    else
      var f := Fetch(rg, env.tries, o.sends, o.reconnects, env.respond);
      var o1 := o.(sends := f.sends, reconnects := f.reconnects);
      if f.body.None? then Stop(o1)
      else
        var body := f.body.value;
        var logNow := ctr % PROGRESS_PERIOD == PROGRESS_PERIOD - 1;
        var o2 := if logNow then o1.(progress := o1.progress + [PercentAsWritten(start, n)]) else o1;
        var w := PalFile.WriteAnswer(env.grant(|o2.calls|), start, |body|, |o2.image|);
        var o3 := Call(o2, PalFile.Write(start, body, w));
        if w != Int16(|body|) then Stop(o3)
        else Next(if logNow then 0 else ctr + 1, o3)
  }

  /** The chunk loop from `data_start == start` on. */
  function Chunks(n: int, start: nat, ctr: nat, o: Obs, env: Env): Outcome
    decreases n - start
  {
    if start >= n then Outcome(0, o)
    else match ChunkPass(n, start, ctr, o, env)
      case Stop(o1) => Outcome(-1, o1)
      case Next(c, o1) => Chunks(n, start + DATA_CHUNK_SIZE, c, o1, env)
  }

  /** The whole download, from a fresh link and a file no call has been made on yet whose partition
      holds `image`. */
  function DownloadSpec(env: Env, image: seq<bv8>): Outcome
  {
    var o0 := Obs([], 0, [], [], image);
    if !env.allocateOk || !env.configureOk || !env.connectOk then Outcome(-1, o0)
    else if !env.headersFit(Range(0, 0)) then Outcome(-1, o0)
    else
      var o1 := o0.(sends := [Range(0, 0)]);
      match ContentRange.ParseContentRange(env.respond(0).contentRange)
      case Failed(_) => Outcome(-1, o1)
      case Size(n) => Receive(n, o1, env)
  }

  /** The download once the size `n` is known: create the receive file (its status is only logged),
      run the chunk loop, and on its success close the file (its status is only logged too). */
  function Receive(n: int, o: Obs, env: Env): Outcome
  {
    var r := Chunks(n, 0, 0, Call(o, PalFile.Create(UInt32(n), env.createAnswer)), env);
    if r.rc != 0 then r else Outcome(0, Call(r.obs, PalFile.Close(env.closeAnswer)))
  }

  function EnvOf(link: HttpsLink, file: PalFile.FlashFile): Env
  {
    Env(link.allocateOk, link.configureOk, link.connectOk, link.headersFit, link.respond,
        file.createAnswer, file.closeAnswer, file.grant, TRIES)
  }

  /** The observation as the link and the file hold it. */
  ghost function Observe(link: HttpsLink, file: PalFile.FlashFile, progress: seq<int>): Obs
    reads link, file, file.image
  {
    Obs(link.sends, link.reconnects, file.calls, progress, file.image[..])
  }

  /** The retry loop of one chunk. */
  method FetchChunk(link: HttpsLink, rg: Range) returns (body: Option<Body>)
    modifies link
    ensures Fetched(link.sends, link.reconnects, body) ==
            Fetch(rg, TRIES, old(link.sends), old(link.reconnects), link.respond)
  {
    var tries := TRIES;
    while true
      invariant Fetch(rg, TRIES, old(link.sends), old(link.reconnects), link.respond) ==
                Fetch(rg, tries, link.sends, link.reconnects, link.respond)
      decreases tries
    {
      var resp := link.Send(rg);
      if rg.first != 0 && resp.status == HttpNetworkError {
        if tries == 0 {
          return None;
        }
        link.Reconnect();
        tries := tries - 1;
      } else if resp.status != HttpSuccess {
        return None;
      } else {
        return Some(resp.body);
      }
    }
  }

  /** iotc_ota_fw_download. Returns its result and the percentages of the progress lines it logs. */
  method Download(link: HttpsLink, file: PalFile.FlashFile) returns (rc: int, progress: seq<int>)
    requires link.sends == [] && link.reconnects == 0
    requires file.calls == []
    modifies link, file, file.image
    ensures Outcome(rc, Observe(link, file, progress)) == DownloadSpec(EnvOf(link, file), old(file.image[..]))
  {
    progress := [];
    ghost var env := EnvOf(link, file);
    if !link.allocateOk || !link.configureOk || !link.connectOk {
      return -1, progress;
    }
    if !link.headersFit(Range(0, 0)) {
      return -1, progress;
    }
    var probe := link.Send(Range(0, 0));
    var size := ContentRange.ParseContentRange(probe.contentRange);
    if size.Failed? {
      return -1, progress;
    }
    assert Observe(link, file, []) == Obs([Range(0, 0)], 0, [], [], old(file.image[..]));
    rc, progress := ReceiveImage(link, file, size.n);
  }

  /** The part of iotc_ota_fw_download after the probe. */
  method ReceiveImage(link: HttpsLink, file: PalFile.FlashFile, n: int) returns (rc: int, progress: seq<int>)
    modifies link, file, file.image
    ensures Outcome(rc, Observe(link, file, progress)) == Receive(n, old(Observe(link, file, [])), EnvOf(link, file))
  {
    progress := [];
    ghost var env := EnvOf(link, file);
    var createStatus := file.CreateFileForRx(UInt32(n));
    ghost var spec := Chunks(n, 0, 0, Observe(link, file, progress), env);
    var ctr: nat := 0;
    var start: nat := 0;
    while start < n
      invariant spec == Chunks(n, start, ctr, Observe(link, file, progress), env)
      decreases n - start
    {
      var next;
      next, ctr, progress := DownloadChunk(link, file, n, start, ctr, progress);
      if !next {
        return -1, progress;
      }
      start := start + DATA_CHUNK_SIZE;
    }
    var closeStatus := file.CloseFile();
    return 0, progress;
  }

  /** The body of the chunk loop. */
  method DownloadChunk(link: HttpsLink, file: PalFile.FlashFile, n: int, start: nat, ctr: nat, progress: seq<int>)
    returns (next: bool, ctr': nat, progress': seq<int>)
    requires start < n
    modifies link, file, file.image
    ensures var p := ChunkPass(n, start, ctr, old(Observe(link, file, progress)), EnvOf(link, file));
            Observe(link, file, progress') == p.obs && (next <==> p.Next?) && (next ==> ctr' == p.ctr)
  {
    progress' := progress;
    ctr' := ctr;
    var rg := ChunkAt(start, n);
    if !link.headersFit(rg) {
      return false, ctr', progress';
    }
    var body := FetchChunk(link, rg);
    if body.None? {
      return false, ctr', progress';
    }
    if ctr % PROGRESS_PERIOD == PROGRESS_PERIOD - 1 {
      progress' := progress' + [PercentAsWritten(start, n)];
      ctr' := 0;
    } else {
      ctr' := ctr + 1;
    }
    var written := file.WriteBlock(start, body.value);
    if written != Int16(|body.value|) {
      return false, ctr', progress';
    }
    next := true;
  }

  /** The retry policy. The loop sends `rg` once more on every pass, so the log grows by one to
      `tries + 1` copies of `rg`, with one reconnect between consecutive sends. Every answer but the
      last was a network error; the last one is not, or the budget is spent. A range at byte 0 is
      sent once whatever the answer. The chunk succeeds exactly when the last answer did, and then
      its body is that answer's body. */
  lemma {:induction false} FetchShape(rg: Range, tries: nat, sends: seq<Range>, reconnects: nat, respond: nat -> Response)
    ensures var f := Fetch(rg, tries, sends, reconnects, respond);
            && |sends| < |f.sends| <= |sends| + tries + 1
            && f.sends[..|sends|] == sends
            && (forall j :: |sends| <= j < |f.sends| ==> f.sends[j] == rg)
            && f.reconnects == reconnects + (|f.sends| - |sends| - 1)
            && (rg.first == 0 ==> |f.sends| == |sends| + 1)
            && (forall j :: |sends| <= j < |f.sends| - 1 ==> respond(j).status == HttpNetworkError)
            && (respond(|f.sends| - 1).status == HttpNetworkError ==>
                  rg.first == 0 || |f.sends| == |sends| + tries + 1)
            && (f.body.Some? <==> respond(|f.sends| - 1).status == HttpSuccess)
            && (f.body.Some? ==> f.body.value == respond(|f.sends| - 1).body)
    decreases tries
  {
    var resp := respond(|sends|);
    var sent := sends + [rg];
    if rg.first != 0 && resp.status == HttpNetworkError && tries != 0 {
      FetchShape(rg, tries - 1, sent, reconnects + 1, respond);
      var f := Fetch(rg, tries - 1, sent, reconnects + 1, respond);
      assert f.sends[..|sends|] == f.sends[..|sent|][..|sends|];
      assert f.sends[|sends|] == sent[|sends|];
    }
  }

  /** Thirty reconnects at most: a chunk after the first is sent 31 times when, and only when, every
      answer is a network error, and then the download gives up. */
  lemma RetryBudget(rg: Range, sends: seq<Range>, reconnects: nat, respond: nat -> Response)
    requires rg.first != 0
    ensures var f := Fetch(rg, TRIES, sends, reconnects, respond);
            (|f.sends| == |sends| + TRIES + 1 && respond(|f.sends| - 1).status == HttpNetworkError) <==>
            (forall j :: |sends| <= j <= |sends| + TRIES ==> respond(j).status == HttpNetworkError)
    ensures var f := Fetch(rg, TRIES, sends, reconnects, respond);
            (forall j :: |sends| <= j <= |sends| + TRIES ==> respond(j).status == HttpNetworkError) ==>
            f.body.None? && f.reconnects == reconnects + TRIES
  {
    FetchShape(rg, TRIES, sends, reconnects, respond);
  }

  /** One pass sends the chunk's range one or more times (none when its headers do not fit) and
      nothing else. */
  lemma PassSends(n: int, start: nat, ctr: nat, o: Obs, env: Env)
    requires start < n
    ensures var p := ChunkPass(n, start, ctr, o, env);
            && |o.sends| <= |p.obs.sends| && p.obs.sends[..|o.sends|] == o.sends
            && (forall j :: |o.sends| <= j < |p.obs.sends| ==> p.obs.sends[j] == ChunkAt(start, n))
            && (p.Next? ==> |o.sends| < |p.obs.sends|)
  {
    var rg := ChunkAt(start, n);
    if env.headersFit(rg) {
      FetchShape(rg, env.tries, o.sends, o.reconnects, env.respond);
    }
  }

  /** Chunks one step at a time. */
  lemma ChunksStep(n: int, start: nat, ctr: nat, o: Obs, env: Env)
    requires start < n
    ensures var p := ChunkPass(n, start, ctr, o, env);
            Chunks(n, start, ctr, o, env) ==
              if p.Stop? then Outcome(-1, p.obs) else Chunks(n, start + DATA_CHUNK_SIZE, p.ctr, p.obs, env)
  {
  }

  /** The chunk loop only sends ranges of the plan, and returns 0 or -1. */
  lemma {:induction false} ChunksSends(n: int, start: nat, ctr: nat, o: Obs, env: Env)
    ensures Chunks(n, start, ctr, o, env).rc in {0, -1}
    ensures var s := Chunks(n, start, ctr, o, env).obs.sends;
            |o.sends| <= |s| && s[..|o.sends|] == o.sends
    ensures var s := Chunks(n, start, ctr, o, env).obs.sends;
            forall j :: |o.sends| <= j < |s| ==> s[j] in PlanFrom(start, n)
    decreases n - start
  {
    if start < n {
      var rg := ChunkAt(start, n);
      assert PlanFrom(start, n) == [rg] + PlanFrom(start + DATA_CHUNK_SIZE, n);
      var p := ChunkPass(n, start, ctr, o, env);
      PassSends(n, start, ctr, o, env);
      ChunksStep(n, start, ctr, o, env);
      if p.Next? {
        var o1 := p.obs;
        ChunksSends(n, start + DATA_CHUNK_SIZE, p.ctr, o1, env);
        var s := Chunks(n, start + DATA_CHUNK_SIZE, p.ctr, o1, env).obs.sends;
        assert s[..|o.sends|] == s[..|o1.sends|][..|o.sends|];
        forall j | |o.sends| <= j < |s|
          ensures s[j] in PlanFrom(start, n)
        {
          if j < |o1.sends| {
            assert s[j] == o1.sends[j];
          }
        }
      }
    }
  }

  /** The chunk loop sends the ranges in increasing order: a range is sent again only while it is
      being retried, and never after a later one. */
  lemma {:induction false} ChunksSendInOrder(n: int, start: nat, ctr: nat, o: Obs, env: Env)
    ensures var s := Chunks(n, start, ctr, o, env).obs.sends;
            forall i, j :: |o.sends| <= i <= j < |s| ==> s[i].first <= s[j].first
    decreases n - start
  {
    if start < n {
      var p := ChunkPass(n, start, ctr, o, env);
      PassSends(n, start, ctr, o, env);
      ChunksStep(n, start, ctr, o, env);
      if p.Next? {
        var o1 := p.obs;
        ChunksSendInOrder(n, start + DATA_CHUNK_SIZE, p.ctr, o1, env);
        ChunksSends(n, start + DATA_CHUNK_SIZE, p.ctr, o1, env);
        PlanFromAfter(start + DATA_CHUNK_SIZE, n);
        var s := Chunks(n, start + DATA_CHUNK_SIZE, p.ctr, o1, env).obs.sends;
        assert forall j :: |o.sends| <= j < |o1.sends| ==> s[j] == o1.sends[j];
        assert forall j :: |o.sends| <= j < |o1.sends| ==> s[j].first == start;
        assert forall j :: |o1.sends| <= j < |s| ==> start < s[j].first;
      }
    }
  }

  /** A write the chunk check accepts: otaPal_WriteBlock reported the whole body written. */
  predicate Complete(c: PalFile.PalCall)
  {
    c.Write? && c.written == |c.data|
  }

  /** One pass writes at most once, at `start`, and only the body of the answer that ended the retry
      loop with success, sent for the chunk's range. */
  lemma PassWrite(n: int, start: nat, ctr: nat, o: Obs, env: Env)
    requires start < n
    ensures var p := ChunkPass(n, start, ctr, o, env);
            && |o.sends| <= |p.obs.sends| && p.obs.sends[..|o.sends|] == o.sends
            && (p.obs.calls == o.calls ||
                (|o.sends| < |p.obs.sends| && p.obs.sends[|p.obs.sends| - 1] == ChunkAt(start, n) &&
                 var resp := env.respond(|p.obs.sends| - 1);
                 resp.status == HttpSuccess &&
                 exists w :: p.obs.calls == o.calls + [PalFile.Write(start, resp.body, w)]))
            && (p.Next? ==> |p.obs.calls| == |o.calls| + 1 && Complete(p.obs.calls[|o.calls|]))
            && (p.Stop? && |p.obs.calls| == |o.calls| + 1 ==> !Complete(p.obs.calls[|o.calls|]))
  {
    var rg := ChunkAt(start, n);
    if env.headersFit(rg) {
      FetchShape(rg, env.tries, o.sends, o.reconnects, env.respond);
    }
  }

  /** The chunk loop writes the chunks of the plan in order, each at its range's first byte; every
      write but the last was complete; and it returns 0 exactly when every chunk of the plan was
      written completely. */
  lemma {:induction false} ChunksWrites(n: int, start: nat, ctr: nat, o: Obs, env: Env)
    ensures var c := Chunks(n, start, ctr, o, env).obs.calls;
            |o.calls| <= |c| && c[..|o.calls|] == o.calls
    ensures var c := Chunks(n, start, ctr, o, env).obs.calls;
            WritesPlan(c[|o.calls|..], PlanFrom(start, n))
    ensures var r := Chunks(n, start, ctr, o, env);
            var w := r.obs.calls[|o.calls|..];
            r.rc == 0 <==> |w| == |PlanFrom(start, n)| && AllComplete(w)
    decreases n - start
  {
    if start < n {
      var rest := PlanFrom(start + DATA_CHUNK_SIZE, n);
      assert PlanFrom(start, n) == [ChunkAt(start, n)] + rest;
      var p := ChunkPass(n, start, ctr, o, env);
      PassWrite(n, start, ctr, o, env);
      ChunksStep(n, start, ctr, o, env);
      if p.Next? {
        var o1 := p.obs;
        ChunksWrites(n, start + DATA_CHUNK_SIZE, p.ctr, o1, env);
        var c := Chunks(n, start + DATA_CHUNK_SIZE, p.ctr, o1, env).obs.calls;
        var x := o1.calls[|o.calls|];
        Extend(o.calls, x, o1.calls, c);
        WritesStep(x, c[|o1.calls|..], ChunkAt(start, n), rest);
      } else {
        var w := p.obs.calls[|o.calls|..];
        assert w == [] || w == [p.obs.calls[|o.calls|]];
      }
    }
  }

  /** `w` are writes at the first bytes of the first ranges of `plan`, in order, all but the last
      complete. */
  predicate WritesPlan(w: seq<PalFile.PalCall>, plan: seq<Range>)
  {
    && |w| <= |plan|
    && (forall i :: 0 <= i < |w| ==> w[i].Write? && w[i].offset == plan[i].first)
    && (forall i :: 0 <= i < |w| - 1 ==> Complete(w[i]))
  }

  predicate AllComplete(w: seq<PalFile.PalCall>)
  {
    forall i :: 0 <= i < |w| ==> Complete(w[i])
  }

  /** WritesPlan, one complete write at a time. */
  lemma WritesStep(x: PalFile.PalCall, w: seq<PalFile.PalCall>, rg: Range, rest: seq<Range>)
    requires x.Write? && x.offset == rg.first && Complete(x) && WritesPlan(w, rest)
    ensures WritesPlan([x] + w, [rg] + rest)
    ensures (|[x] + w| == |[rg] + rest| && AllComplete([x] + w)) <==> (|w| == |rest| && AllComplete(w))
  {
    var w' := [x] + w;
    var plan := [rg] + rest;
    forall i | 0 < i < |w'|
      ensures w'[i] == w[i - 1] && plan[i] == rest[i - 1]
    {
    }
    if AllComplete(w') {
      forall i | 0 <= i < |w| ensures Complete(w[i]) {
        assert w[i] == w'[i + 1];
      }
    }
    if AllComplete(w) {
      forall i | 0 <= i < |w'| ensures Complete(w'[i]) {
        if i > 0 { assert w'[i] == w[i - 1]; }
      }
    }
  }

  /** A log that grew by `x` and then by more calls. */
  lemma Extend(before: seq<PalFile.PalCall>, x: PalFile.PalCall, mid: seq<PalFile.PalCall>, after: seq<PalFile.PalCall>)
    requires mid == before + [x] && |mid| <= |after| && after[..|mid|] == mid
    ensures |before| <= |after| && after[..|before|] == before
    ensures after[|before|..] == [x] + after[|mid|..]
  {
    assert after[..|before|] == mid[..|before|];
    assert after[|before|..] == after[|before|..|mid|] + after[|mid|..];
  }

  /** One pass logs a progress line exactly when it got a body and the counter stood at 29, and
      then restarts the counter; otherwise the counter moves on by one. */
  lemma PassProgress(n: int, start: nat, ctr: nat, o: Obs, env: Env)
    requires start < n
    ensures var p := ChunkPass(n, start, ctr, o, env);
            var logged := |p.obs.calls| == |o.calls| + 1 && ctr % PROGRESS_PERIOD == PROGRESS_PERIOD - 1;
            && (|p.obs.calls| == |o.calls| || |p.obs.calls| == |o.calls| + 1)
            && p.obs.progress == o.progress + (if logged then [PercentAsWritten(start, n)] else [])
            && (p.Next? ==> |p.obs.calls| == |o.calls| + 1)
            && (p.Next? ==> p.ctr == if ctr % PROGRESS_PERIOD == PROGRESS_PERIOD - 1 then 0 else ctr + 1)
  {
  }

  /** The percentages the chunk loop logs for `chunks`, the ranges that got a body in this order,
      when the counter starts at `ctr`: a line at every chunk that finds the counter at 29. */
  function Lines(ctr: nat, chunks: seq<Range>, n: int): seq<int>
    requires chunks == [] || n > 0
    decreases |chunks|
  {
    if chunks == [] then []
    else if ctr % PROGRESS_PERIOD == PROGRESS_PERIOD - 1 then [PercentAsWritten(chunks[0].first, n)] + Lines(0, chunks[1..], n)
    else Lines(ctr + 1, chunks[1..], n)
  }

  /** With the counter below 30, a line is logged for every 30th chunk counting on from the
      counter, and line q reports the percentage at the first byte of chunk 30 q + 29 - ctr. */
  lemma {:induction false} LinesClosedForm(ctr: nat, chunks: seq<Range>, n: int)
    requires ctr < PROGRESS_PERIOD
    requires chunks == [] || n > 0
    ensures |Lines(ctr, chunks, n)| == (ctr + |chunks|) / PROGRESS_PERIOD
    ensures forall q :: 0 <= q < |Lines(ctr, chunks, n)| ==>
              var i := PROGRESS_PERIOD * q + PROGRESS_PERIOD - 1 - ctr;
              0 <= i < |chunks| && Lines(ctr, chunks, n)[q] == PercentAsWritten(chunks[i].first, n)
    decreases |chunks|
  {
    if chunks != [] {
      var rest := chunks[1..];
      var l := Lines(ctr, chunks, n);
      if ctr == PROGRESS_PERIOD - 1 {
        LinesClosedForm(0, rest, n);
        var later := Lines(0, rest, n);
        assert l == [PercentAsWritten(chunks[0].first, n)] + later;
        assert |l| == 1 + |rest| / PROGRESS_PERIOD;
        assert (ctr + |chunks|) / PROGRESS_PERIOD == 1 + |rest| / PROGRESS_PERIOD;
        forall q | 0 < q < |l|
          ensures l[q] == PercentAsWritten(chunks[PROGRESS_PERIOD * q].first, n)
        {
          assert l[q] == later[q - 1];
          assert rest[PROGRESS_PERIOD * (q - 1) + PROGRESS_PERIOD - 1] == chunks[PROGRESS_PERIOD * q];
        }
      } else {
        LinesClosedForm(ctr + 1, rest, n);
        assert l == Lines(ctr + 1, rest, n);
        forall q | 0 <= q < |l|
          ensures l[q] == PercentAsWritten(chunks[PROGRESS_PERIOD * q + PROGRESS_PERIOD - 1 - ctr].first, n)
        {
          assert rest[PROGRESS_PERIOD * q + PROGRESS_PERIOD - 1 - (ctr + 1)] ==
                 chunks[PROGRESS_PERIOD * q + PROGRESS_PERIOD - 1 - ctr];
        }
      }
    }
  }

  /** The lines the chunk loop logs when its first `k` passes from `start` on get a body: the
      percentage at `start` when the counter stands at 29, and so on from the next chunk. */
  function LinesFrom(ctr: nat, start: nat, k: nat, n: int): seq<int>
    decreases k
  {
    if k == 0 || start >= n then []
    else
      var logNow := ctr % PROGRESS_PERIOD == PROGRESS_PERIOD - 1;
      (if logNow then [PercentAsWritten(start, n)] else []) +
        LinesFrom(if logNow then 0 else ctr + 1, start + DATA_CHUNK_SIZE, k - 1, n)
  }

  /** LinesFrom are the Lines of the first `k` ranges of the plan. */
  lemma {:induction false} LinesFromPlan(ctr: nat, start: nat, k: nat, n: int)
    requires k <= |PlanFrom(start, n)|
    ensures PlanFrom(start, n)[..k] == [] || n > 0
    ensures LinesFrom(ctr, start, k, n) == Lines(ctr, PlanFrom(start, n)[..k], n)
    decreases k
  {
    if k > 0 {
      var rest := PlanFrom(start + DATA_CHUNK_SIZE, n);
      assert PlanFrom(start, n) == [ChunkAt(start, n)] + rest;
      var chunks := PlanFrom(start, n)[..k];
      assert chunks[0] == ChunkAt(start, n) && chunks[1..] == rest[..k - 1];
      var next := if ctr % PROGRESS_PERIOD == PROGRESS_PERIOD - 1 then 0 else ctr + 1;
      LinesFromPlan(next, start + DATA_CHUNK_SIZE, k - 1, n);
    }
  }

  lemma ConcatAssoc(a: seq<int>, b: seq<int>, c: seq<int>)
    ensures (a + b) + c == a + (b + c)
  {
  }

  /** The chunk loop from `start` on makes one PAL call per pass that got a body, at most one per
      range of the plan, and logs the LinesFrom of those passes. */
  lemma {:induction false} ChunksLines(n: int, start: nat, ctr: nat, o: Obs, env: Env)
    ensures var r := Chunks(n, start, ctr, o, env);
            0 <= |r.obs.calls| - |o.calls| <= |PlanFrom(start, n)|
    ensures var r := Chunks(n, start, ctr, o, env);
            r.obs.progress == o.progress + LinesFrom(ctr, start, |r.obs.calls| - |o.calls|, n)
    decreases n - start
  {
    if start < n {
      var p := ChunkPass(n, start, ctr, o, env);
      assert |PlanFrom(start, n)| == 1 + |PlanFrom(start + DATA_CHUNK_SIZE, n)|;
      PassProgress(n, start, ctr, o, env);
      ChunksStep(n, start, ctr, o, env);
      if p.Next? {
        ChunksLines(n, start + DATA_CHUNK_SIZE, p.ctr, p.obs, env);
        LinesCombine(n, start, ctr, o, p.obs, p.ctr, Chunks(n, start + DATA_CHUNK_SIZE, p.ctr, p.obs, env).obs);
      } else {
        var next := if ctr % PROGRESS_PERIOD == PROGRESS_PERIOD - 1 then 0 else ctr + 1;
        LinesCombine(n, start, ctr, o, p.obs, next, p.obs);
      }
    }
  }

  /** The lines of one pass that got its body, followed by the lines of the passes after it. */
  lemma LinesCombine(n: int, start: nat, ctr: nat, o: Obs, o1: Obs, ctr1: nat, r: Obs)
    requires start < n
    requires var logged := |o1.calls| == |o.calls| + 1 && ctr % PROGRESS_PERIOD == PROGRESS_PERIOD - 1;
             && (|o1.calls| == |o.calls| || |o1.calls| == |o.calls| + 1)
             && o1.progress == o.progress + (if logged then [PercentAsWritten(start, n)] else [])
    requires |o1.calls| == |o.calls| + 1 ==> ctr1 == if ctr % PROGRESS_PERIOD == PROGRESS_PERIOD - 1 then 0 else ctr + 1
    requires |o1.calls| <= |r.calls|
    requires r.progress == o1.progress + LinesFrom(ctr1, start + DATA_CHUNK_SIZE, |r.calls| - |o1.calls|, n)
    requires |o1.calls| == |o.calls| ==> r == o1
    ensures r.progress == o.progress + LinesFrom(ctr, start, |r.calls| - |o.calls|, n)
  {
    var k := |r.calls| - |o1.calls|;
    if |o1.calls| == |o.calls| + 1 {
      var logged := if ctr % PROGRESS_PERIOD == PROGRESS_PERIOD - 1 then [PercentAsWritten(start, n)] else [];
      assert LinesFrom(ctr, start, k + 1, n) == logged + LinesFrom(ctr1, start + DATA_CHUNK_SIZE, k, n);
      ConcatAssoc(o.progress, logged, LinesFrom(ctr1, start + DATA_CHUNK_SIZE, k, n));
    }
  }

  /** The progress lines of the chunk loop from `start` on are the Lines of the chunks that got a
      body, which are the first ones of the plan. */
  lemma ChunksProgress(n: int, start: nat, ctr: nat, o: Obs, env: Env)
    ensures var r := Chunks(n, start, ctr, o, env);
            0 <= |r.obs.calls| - |o.calls| <= |PlanFrom(start, n)|
    ensures var r := Chunks(n, start, ctr, o, env);
            && (PlanFrom(start, n)[..|r.obs.calls| - |o.calls|] == [] || n > 0)
            && r.obs.progress == o.progress + Lines(ctr, PlanFrom(start, n)[..|r.obs.calls| - |o.calls|], n)
  {
    ChunksLines(n, start, ctr, o, env);
    var r := Chunks(n, start, ctr, o, env);
    LinesFromPlan(ctr, start, |r.obs.calls| - |o.calls|, n);
  }

  /** For an image of at most EXACT_PERCENT_SIZE bytes the product cannot wrap: every line is the
      exact percentage at the first byte of its chunk, and lies in 0..99. */
  lemma LinesInRange(ctr: nat, chunks: seq<Range>, n: int)
    requires ctr < PROGRESS_PERIOD && n <= EXACT_PERCENT_SIZE
    requires forall i :: 0 <= i < |chunks| ==> 0 <= chunks[i].first < n
    ensures chunks == [] || n > 0
    ensures forall q :: 0 <= q < |Lines(ctr, chunks, n)| ==>
              var i := PROGRESS_PERIOD * q + PROGRESS_PERIOD - 1 - ctr;
              && 0 <= i < |chunks|
              && Lines(ctr, chunks, n)[q] == Percent(chunks[i].first, n)
              && 0 <= Lines(ctr, chunks, n)[q] < 100
  {
    if chunks != [] {
      assert 0 <= chunks[0].first < n;
    }
    LinesClosedForm(ctr, chunks, n);
    var l := Lines(ctr, chunks, n);
    forall q | 0 <= q < |l|
      ensures var i := PROGRESS_PERIOD * q + PROGRESS_PERIOD - 1 - ctr;
              0 <= i < |chunks| && l[q] == Percent(chunks[i].first, n) && 0 <= l[q] < 100
    {
      var i := PROGRESS_PERIOD * q + PROGRESS_PERIOD - 1 - ctr;
      assert 0 <= i < |chunks| && l[q] == PercentAsWritten(chunks[i].first, n);
      PercentAsWrittenBelowOverflow(chunks[i].first, n);
    }
  }

  /** Every range of the plan lies in the image. */
  lemma PlanBounds(start: nat, n: int)
    ensures forall i :: 0 <= i < |PlanFrom(start, n)| ==> 0 <= PlanFrom(start, n)[i].first < n
  {
    var plan := PlanFrom(start, n);
    PlanFromAfter(start, n);
    forall i | 0 <= i < |plan|
      ensures 0 <= plan[i].first < n
    {
      assert plan[i] in plan;
    }
  }

  /** The PAL is reached, by a create, exactly when the transport is set up, the probe's headers
      fit and the probe yields a size; in every other case the download returns -1 having sent at
      most the probe, logged nothing and left the partition as it was. */
  lemma DownloadEarlyExit(env: Env, image: seq<bv8>)
    ensures var r := DownloadSpec(env, image);
            r.obs.calls != [] <==>
              env.allocateOk && env.configureOk && env.connectOk && env.headersFit(Range(0, 0)) &&
              ContentRange.ParseContentRange(env.respond(0).contentRange).Size?
    ensures var r := DownloadSpec(env, image);
            r.obs.calls == [] ==>
              r.rc == -1 && |r.obs.sends| <= 1 && r.obs.reconnects == 0 && r.obs.progress == [] &&
              r.obs.image == image
  {
    if env.allocateOk && env.configureOk && env.connectOk && env.headersFit(Range(0, 0)) {
      match ContentRange.ParseContentRange(env.respond(0).contentRange)
      case Failed(_) =>
      case Size(n) =>
        var o1 := Obs([Range(0, 0)], 0, [], [], image);
        var o2 := Call(o1, PalFile.Create(UInt32(n), env.createAnswer));
        ChunksWrites(n, 0, 0, o2, env);
    }
  }

  /** Once the size n is known, the download is the reception of n bytes after the probe. */
  lemma DownloadReceives(env: Env, image: seq<bv8>)
    requires env.allocateOk && env.configureOk && env.connectOk && env.headersFit(Range(0, 0))
    requires ContentRange.ParseContentRange(env.respond(0).contentRange).Size?
    ensures var n := ContentRange.ParseContentRange(env.respond(0).contentRange).n;
            var o := Call(Obs([Range(0, 0)], 0, [], [], image), PalFile.Create(UInt32(n), env.createAnswer));
            var r := Chunks(n, 0, 0, o, env);
            DownloadSpec(env, image) == if r.rc != 0 then r else Outcome(0, Call(r.obs, PalFile.Close(env.closeAnswer)))
  {
  }

  /** Line q of `lines` is the exact percentage at the first byte of chunk 30 q + 29 of the plan
      for an image of `n` bytes, and lies in 0..99. */
  predicate ExactProgress(lines: seq<int>, n: int)
  {
    forall q :: 0 <= q < |lines| ==>
      var i := PROGRESS_PERIOD * q + PROGRESS_PERIOD - 1;
      && i < |Plan(n)| && 0 <= Plan(n)[i].first < n
      && lines[q] == Percent(Plan(n)[i].first, n)
      && 0 <= lines[q] < 100
  }

  /** For an image of at most EXACT_PERCENT_SIZE bytes, the download logs the exact percentages
      of every 30th chunk of the plan: the 32-bit product of the code does not wrap there. */
  lemma DownloadProgressExact(env: Env, image: seq<bv8>)
    requires env.allocateOk && env.configureOk && env.connectOk && env.headersFit(Range(0, 0))
    requires ContentRange.ParseContentRange(env.respond(0).contentRange).Size?
    requires ContentRange.ParseContentRange(env.respond(0).contentRange).n <= EXACT_PERCENT_SIZE
    ensures ExactProgress(DownloadSpec(env, image).obs.progress,
                          ContentRange.ParseContentRange(env.respond(0).contentRange).n)
  {
    var n := ContentRange.ParseContentRange(env.respond(0).contentRange).n;
    var o := Call(Obs([Range(0, 0)], 0, [], [], image), PalFile.Create(UInt32(n), env.createAnswer));
    assert DownloadSpec(env, image).obs.progress == Chunks(n, 0, 0, o, env).obs.progress by {
      DownloadReceives(env, image);
    }
    assert o.progress == [];
    ReceiveExact(n, o, env);
  }

  /** DownloadProgressExact for the chunk loop alone. */
  lemma ReceiveExact(n: int, o: Obs, env: Env)
    requires o.progress == [] && n <= EXACT_PERCENT_SIZE
    ensures ExactProgress(Chunks(n, 0, 0, o, env).obs.progress, n)
  {
    ReceiveLines(n, o, env);
    var r := Chunks(n, 0, 0, o, env);
    PlanLinesExact(n, |r.obs.calls| - |o.calls|, r.obs.progress);
  }

  /** ChunksProgress for the whole loop, started with nothing logged. */
  lemma ReceiveLines(n: int, o: Obs, env: Env)
    requires o.progress == []
    ensures var r := Chunks(n, 0, 0, o, env);
            var k := |r.obs.calls| - |o.calls|;
            && 0 <= k <= |Plan(n)| && (Plan(n)[..k] == [] || n > 0)
            && r.obs.progress == Lines(0, Plan(n)[..k], n)
  {
    ChunksProgress(n, 0, 0, o, env);
    var r := Chunks(n, 0, 0, o, env);
    LinesOfPlan(n, |r.obs.calls| - |o.calls|, o.progress, r.obs.progress);
  }

  /** ChunksProgress's conclusion for the whole plan, on plain values. */
  lemma LinesOfPlan(n: int, k: int, before: seq<int>, after: seq<int>)
    requires 0 <= k <= |PlanFrom(0, n)| && (PlanFrom(0, n)[..k] == [] || n > 0)
    requires before == [] && after == before + Lines(0, PlanFrom(0, n)[..k], n)
    ensures 0 <= k <= |Plan(n)| && (Plan(n)[..k] == [] || n > 0) && after == Lines(0, Plan(n)[..k], n)
  {
    assert Plan(n) == PlanFrom(0, n);
    assert before + Lines(0, PlanFrom(0, n)[..k], n) == Lines(0, PlanFrom(0, n)[..k], n);
  }

  /** LinesInRange for the first `k` ranges of the plan. */
  lemma PlanLinesExact(n: int, k: nat, lines: seq<int>)
    requires n <= EXACT_PERCENT_SIZE && k <= |Plan(n)| && (Plan(n)[..k] == [] || n > 0)
    requires lines == Lines(0, Plan(n)[..k], n)
    ensures ExactProgress(lines, n)
  {
    var chunks := Plan(n)[..k];
    PlanBounds(0, n);
    LinesInRange(0, chunks, n);
    forall q | 0 <= q < |lines|
      ensures var i := PROGRESS_PERIOD * q + PROGRESS_PERIOD - 1;
              && i < |Plan(n)| && 0 <= Plan(n)[i].first < n
              && lines[q] == Percent(Plan(n)[i].first, n)
              && 0 <= lines[q] < 100
    {
      var i := PROGRESS_PERIOD * q + PROGRESS_PERIOD - 1;
      assert lines[q] == Lines(0, chunks, n)[q] == Percent(chunks[i].first, n);
      assert chunks[i] == Plan(n)[i];
    }
  }

  /** Once the size n is known, the probe range 0-0 is the first request and every later one is a
      range of Plan(n), in increasing order. */
  lemma DownloadSends(env: Env, image: seq<bv8>)
    requires env.allocateOk && env.configureOk && env.connectOk && env.headersFit(Range(0, 0))
    requires ContentRange.ParseContentRange(env.respond(0).contentRange).Size?
    ensures var n := ContentRange.ParseContentRange(env.respond(0).contentRange).n;
            var s := DownloadSpec(env, image).obs.sends;
            && |s| >= 1 && s[0] == Range(0, 0)
            && (forall j :: 1 <= j < |s| ==> s[j] in Plan(n))
            && (forall i, j :: 1 <= i <= j < |s| ==> s[i].first <= s[j].first)
  {
    var n := ContentRange.ParseContentRange(env.respond(0).contentRange).n;
    var o := Call(Obs([Range(0, 0)], 0, [], [], image), PalFile.Create(UInt32(n), env.createAnswer));
    DownloadReceives(env, image);
    ChunksSends(n, 0, 0, o, env);
    ChunksSendInOrder(n, 0, 0, o, env);
    var s := Chunks(n, 0, 0, o, env).obs.sends;
    assert s[..1] == [Range(0, 0)];
    assert s[0] == s[..1][0];
  }

  /** Once the size n is known, the first PAL call creates the file with size `(uint32_t) n`; the
      result is 0 or -1, and it is 0 exactly when every chunk of the plan was written completely,
      each at its range's first byte, in which case the file is closed last. */
  lemma DownloadWrites(env: Env, image: seq<bv8>)
    requires env.allocateOk && env.configureOk && env.connectOk && env.headersFit(Range(0, 0))
    requires ContentRange.ParseContentRange(env.respond(0).contentRange).Size?
    ensures var n := ContentRange.ParseContentRange(env.respond(0).contentRange).n;
            var r := DownloadSpec(env, image);
            var c := r.obs.calls;
            && r.rc in {0, -1}
            && |c| >= 1 && c[0] == PalFile.Create(UInt32(n), env.createAnswer)
            && (forall i :: 1 <= i < |c| && i <= |Plan(n)| ==> c[i].Write? && c[i].offset == Plan(n)[i - 1].first)
            && (r.rc == 0 <==>
                  |c| == |Plan(n)| + 2 && (forall i :: 1 <= i <= |Plan(n)| ==> Complete(c[i])))
            && (r.rc == 0 ==> c[|c| - 1] == PalFile.Close(env.closeAnswer))
            && (r.rc == -1 ==> |c| <= |Plan(n)| + 1)
  {
    var n := ContentRange.ParseContentRange(env.respond(0).contentRange).n;
    var create := PalFile.Create(UInt32(n), env.createAnswer);
    var o := Call(Obs([Range(0, 0)], 0, [], [], image), create);
    DownloadReceives(env, image);
    ChunksSends(n, 0, 0, o, env);
    ChunksWrites(n, 0, 0, o, env);
    var r := Chunks(n, 0, 0, o, env);
    var c := r.obs.calls;
    assert c[..1] == [create];
    assert c[0] == c[..1][0];
    assert forall i :: 1 <= i < |c| ==> c[i] == c[1..][i - 1];
    if r.rc == 0 {
      var c' := c + [PalFile.Close(env.closeAnswer)];
      assert forall i :: 0 <= i < |c| ==> c'[i] == c[i];
    }
  }

  /** Two observations the chunk loop cannot tell apart: it looks at the number of PAL calls made
      and the size of the partition, never at the calls' answers or the partition's bytes. */
  predicate Alike(o: Obs, o': Obs)
  {
    o.sends == o'.sends && o.reconnects == o'.reconnects && o.progress == o'.progress &&
    |o.calls| == |o'.calls| && |o.image| == |o'.image|
  }

  /** Two environments that differ at most in the answers to otaPal_CreateFileForRx and
      otaPal_CloseFile. */
  ghost predicate SameNetwork(env: Env, env': Env)
  {
    env' == env.(createAnswer := env'.createAnswer, closeAnswer := env'.closeAnswer)
  }

  lemma PassAlike(n: int, start: nat, ctr: nat, o: Obs, o': Obs, env: Env, env': Env)
    requires start < n && Alike(o, o') && SameNetwork(env, env')
    ensures var p := ChunkPass(n, start, ctr, o, env);
            var p' := ChunkPass(n, start, ctr, o', env');
            p.Next? == p'.Next? && (p.Next? ==> p.ctr == p'.ctr) && Alike(p.obs, p'.obs)
  {
  }

  /** The chunk loop runs the same way whatever the PAL answered to the create. */
  lemma {:induction false} ChunksAlike(n: int, start: nat, ctr: nat, o: Obs, o': Obs, env: Env, env': Env)
    requires Alike(o, o') && SameNetwork(env, env')
    ensures var r := Chunks(n, start, ctr, o, env);
            var r' := Chunks(n, start, ctr, o', env');
            r.rc == r'.rc && Alike(r.obs, r'.obs)
    decreases n - start
  {
    if start < n {
      PassAlike(n, start, ctr, o, o', env, env');
      ChunksStep(n, start, ctr, o, env);
      ChunksStep(n, start, ctr, o', env');
      var p := ChunkPass(n, start, ctr, o, env);
      var p' := ChunkPass(n, start, ctr, o', env');
      if p.Next? {
        ChunksAlike(n, start + DATA_CHUNK_SIZE, p.ctr, p.obs, p'.obs, env, env');
      }
    }
  }

  /** The statuses of otaPal_CreateFileForRx and otaPal_CloseFile are only logged: whatever they
      are, the download returns the same code after the same requests and progress lines. */
  lemma DownloadIgnoresPalStatus(env: Env, image: seq<bv8>, createAnswer: bv32, closeAnswer: bv32)
    ensures var r := DownloadSpec(env, image);
            var r' := DownloadSpec(env.(createAnswer := createAnswer, closeAnswer := closeAnswer), image);
            r.rc == r'.rc && r.obs.sends == r'.obs.sends && r.obs.progress == r'.obs.progress &&
            |r.obs.calls| == |r'.obs.calls|
  {
    var env' := env.(createAnswer := createAnswer, closeAnswer := closeAnswer);
    if env.allocateOk && env.configureOk && env.connectOk && env.headersFit(Range(0, 0)) {
      match ContentRange.ParseContentRange(env.respond(0).contentRange)
      case Failed(_) =>
      case Size(n) =>
        var o1 := Obs([Range(0, 0)], 0, [], [], image);
        var o := Call(o1, PalFile.Create(UInt32(n), env.createAnswer));
        var o' := Call(o1, PalFile.Create(UInt32(n), createAnswer));
        DownloadReceives(env, image);
        DownloadReceives(env', image);
        ChunksAlike(n, 0, 0, o, o', env, env');
    }
  }

  /** Every call after a create is a write, so the order of the PAL calls is that of the calls
      after them, with the file open. */
  lemma {:induction false} CallOrderAfterWrites(c: seq<PalFile.PalCall>, k: nat, open: bool)
    requires k <= |c| && forall i :: 0 <= i < k ==> c[i].Write?
    ensures PalFile.CallOrder(c, open) == ((open || k == 0) && PalFile.CallOrder(c[k..], open))
    decreases k
  {
    if k > 0 {
      CallOrderAfterWrites(c[1..], k - 1, open);
      assert c[1..][k - 1..] == c[k..];
      assert c[0].Write?;
      assert PalFile.CallOrder(c, open) == (open && PalFile.CallOrder(c[1..], open));
    } else {
      assert c[k..] == c;
    }
  }

  /** A create, then writes, then possibly a close: in order exactly when the create succeeded or
      nothing follows it. */
  lemma CreateWritesClose(c: seq<PalFile.PalCall>, m: nat, closed: bool)
    requires |c| >= 1 && c[0].Create?
    requires forall i :: 1 <= i < |c| && i <= m ==> c[i].Write?
    requires closed ==> |c| == m + 2 && c[|c| - 1].Close?
    requires !closed ==> |c| <= m + 1
    ensures PalFile.CallOrder(c, false) <==> c[0].status == 0 || |c| == 1
  {
    var tail := c[1..];
    var k := if closed then |tail| - 1 else |tail|;
    assert forall i :: 0 <= i < k ==> tail[i] == c[i + 1];
    var open := c[0].status == 0;
    assert PalFile.CallOrder(c, false) == PalFile.CallOrder(tail, open);
    CallOrderAfterWrites(tail, k, open);
    if closed {
      assert tail[k..] == [c[|c| - 1]];
      assert PalFile.CallOrder(tail[k..], open) == open;
    } else {
      assert tail[k..] == [];
    }
  }

  /** The doc comments of the PAL ask that blocks be written and the file closed only after the file
      was created successfully. The download keeps to that order exactly when the create succeeds
      or nothing follows it: after a failed create it still writes the chunks and closes the file. */
  lemma DownloadCallOrder(env: Env, image: seq<bv8>)
    requires env.allocateOk && env.configureOk && env.connectOk && env.headersFit(Range(0, 0))
    requires ContentRange.ParseContentRange(env.respond(0).contentRange).Size?
    ensures var c := DownloadSpec(env, image).obs.calls;
            PalFile.CallOrder(c, false) <==> env.createAnswer == 0 || |c| == 1
  {
    var n := ContentRange.ParseContentRange(env.respond(0).contentRange).n;
    DownloadWrites(env, image);
    var r := DownloadSpec(env, image);
    CreateWritesClose(r.obs.calls, |Plan(n)|, r.rc == 0);
  }

  /** A size of zero or below, which the probe lets through when the header carries a sign, gives
      an empty plan: the file is created with the size wrapped to 32 bits and closed at once, and
      the download reports success. */
  lemma DownloadNonPositiveSize(env: Env, image: seq<bv8>)
    requires env.allocateOk && env.configureOk && env.connectOk && env.headersFit(Range(0, 0))
    requires ContentRange.ParseContentRange(env.respond(0).contentRange).Size?
    requires ContentRange.ParseContentRange(env.respond(0).contentRange).n <= 0
    ensures var n := ContentRange.ParseContentRange(env.respond(0).contentRange).n;
            var r := DownloadSpec(env, image);
            r.rc == 0 && r.obs.sends == [Range(0, 0)] && r.obs.progress == [] &&
            r.obs.calls == [PalFile.Create(UInt32(n), env.createAnswer), PalFile.Close(env.closeAnswer)]
  {
    DownloadReceives(env, image);
  }
}
