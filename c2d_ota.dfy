/** The cloud-to-device handler of the HTTPS OTA component (iotc_https_ota.c): `on_c2d_message` looks
    for the `"url":"` and `"fileName":"` keys of an OTA command and copies each value, up to its
    closing quote, with `copy_until_char`. */
module C2dOta {
  import opened Wrappers
  import CString

  const JSON_OBJ_URL: string := "\"url\":\""
  const JSON_OBJ_FILENAME: string := "\"fileName\":\""
  const QUOTE: char := '"'

  /** MAX_URL_LEN: url_buff holds MAX_URL_LEN + 1 characters. */
  const MAX_URL_LEN: nat := 2000

  /** file_name_buff holds 100 characters. */
  const FILE_NAME_LEN: nat := 100

  function Max(a: int, b: int): int { if a < b then b else a }

  /** How many cells of the target `copy_until_char` writes, from target[0] on: up to and including
      the terminator, or every character of the source when there is none (and target[0] at least). */
  function Reach(source: string, terminator: char): (r: nat)
    ensures r >= 1
    ensures var s := CString.Str(source);
            terminator in s ==> r == CString.IndexOf(s, terminator) + 1
    ensures var s := CString.Str(source);
            terminator !in s ==> r == Max(1, |s|)
  {
    var s := CString.Str(source);
    var k := CString.IndexOf(s, terminator);
    if k < |s| then k + 1 else Max(1, |s|)
  }

  /** `copy_until_char` as written: copies the characters of `source` (up to its NUL) into `target`
      until `terminator`, which it replaces by a NUL, and says whether it met the terminator. Without
      one the copy is left unterminated. It has no bound of its own: the target must have room for
      Reach cells, which the callers in `on_c2d_message` do not check. */
  method CopyUntilChar(target: array<char>, source: string, terminator: char) returns (found: bool)
    requires Reach(source, terminator) <= target.Length
    modifies target
    ensures var s := CString.Str(source);
            found <==> terminator in s
    ensures var s := CString.Str(source);
            var k := CString.IndexOf(s, terminator);
            found ==> target[..k + 1] == s[..k] + [CString.NUL]
    ensures var s := CString.Str(source);
            !found ==> target[..Max(1, |s|)] == if s == [] then [CString.NUL] else s
    ensures forall j :: Reach(source, terminator) <= j < target.Length ==> target[j] == old(target[j])
  {
    var s := CString.Str(source);
    found := CopyChars(target, s, terminator);
  }

  /** The loop of `copy_until_char`, over the `strlen(source)` characters `s`. */
  method CopyChars(target: array<char>, s: string, terminator: char) returns (found: bool)
    requires (if terminator in s then CString.IndexOf(s, terminator) + 1 else Max(1, |s|)) <= target.Length
    modifies target
    ensures found <==> terminator in s
    ensures found ==> var k := CString.IndexOf(s, terminator);
                      target[..k + 1] == s[..k] + [CString.NUL]
    ensures !found ==> target[..Max(1, |s|)] == if s == [] then [CString.NUL] else s
    ensures forall j :: (if found then CString.IndexOf(s, terminator) + 1 else Max(1, |s|)) <= j < target.Length ==>
              target[j] == old(target[j])
  {
    target[0] := CString.NUL;
    var i := 0;
    while i < |s|
      invariant 0 <= i <= |s|
      invariant forall j :: 0 <= j < i ==> s[j] != terminator
      invariant forall j :: 0 <= j < i ==> target[j] == s[j]
      invariant i == 0 ==> target[0] == CString.NUL
      invariant forall j :: Max(1, i) <= j < target.Length ==> target[j] == old(target[j])
    {
      if s[i] == terminator {
        target[i] := CString.NUL;
        assert CString.IndexOf(s, terminator) == i;
        assert target[..i + 1] == s[..i] + [CString.NUL];
        return true;
      }
      target[i] := s[i];
      i := i + 1;
    }
    assert terminator !in s;
    if s != [] {
      assert target[..|s|] == s;
    }
    return false;
  }

  /** The value a bounded copy hands back: the characters of `source` before `terminator`, when the
      terminator is there and the value and its NUL fit `capacity` cells. */
  function Extract(source: string, terminator: char, capacity: nat): (r: Option<string>)
    ensures r.Some? ==> |r.value| < capacity && terminator !in r.value && CString.NUL !in r.value
    ensures r.Some? ==> r.value + [terminator] <= CString.Str(source)
    ensures r.None? <==> terminator !in CString.Str(source) || Reach(source, terminator) > capacity
  {
    var s := CString.Str(source);
    var k := CString.IndexOf(s, terminator);
    if k < |s| && k < capacity then
      assert s[..k] + [terminator] == s[..k + 1];
      Some(s[..k])
    else None
  }

  /** `copy_until_char` with the bound the callers need: it writes no cell past the target, and when
      the terminator is missing or the value does not fit it leaves the empty string. The value it
      hands back is the one now in the target (StrOfTerminated reads it back). */
  method CopyBounded(target: array<char>, source: string, terminator: char) returns (value: Option<string>)
    requires target.Length >= 1
    modifies target
    ensures value == Extract(source, terminator, target.Length)
    ensures value.Some? ==> target[..|value.value| + 1] == value.value + [CString.NUL]
    ensures value.None? ==> target[0] == CString.NUL
  {
    var s := CString.Str(source);
    target[0] := CString.NUL;
    var i := 0;
    while i < |s| && i < target.Length
      invariant 0 <= i <= |s| && i <= target.Length
      invariant forall j :: 0 <= j < i ==> s[j] != terminator
      invariant forall j :: 0 <= j < i ==> target[j] == s[j]
    {
      if s[i] == terminator {
        target[i] := CString.NUL;
        assert CString.IndexOf(s, terminator) == i;
        assert target[..i + 1] == s[..i] + [CString.NUL];
        return Some(s[..i]);
      }
      target[i] := s[i];
      i := i + 1;
    }
    assert CString.IndexOf(s, terminator) >= i;
    target[0] := CString.NUL;
    return None;
  }

  /** Where the bound does not bite, the two copies agree: a value that fits is found by both. */
  lemma BoundedAgrees(source: string, terminator: char, capacity: nat)
    requires Reach(source, terminator) <= capacity
    ensures Extract(source, terminator, capacity).Some? <==> terminator in CString.Str(source)
    ensures terminator in CString.Str(source) ==>
              Extract(source, terminator, capacity).value ==
                CString.Str(source)[..CString.IndexOf(CString.Str(source), terminator)]
  {
  }

  /** What `copy_until_char` leaves in a target of `capacity` cells: the value before the
      terminator, then a NUL (Terminated); every character of the source and no NUL after them
      (Unterminated); or Overflow, when the copy would run past the target. There the C code writes
      out of bounds; the model keeps to the bounded copy, which leaves the empty string. */
  datatype Copied = Terminated(value: string) | Unterminated(chars: string) | Overflow

  /** The outcome of copying `source` up to `terminator` into `capacity` cells. */
  function CopyOutcome(source: string, terminator: char, capacity: nat): (r: Copied)
    ensures r.Overflow? <==> Reach(source, terminator) > capacity
    ensures r.Terminated? <==> terminator in CString.Str(source) && Reach(source, terminator) <= capacity
    ensures r.Terminated? ==> r.value + [terminator] <= CString.Str(source) && terminator !in r.value
    ensures r.Terminated? ==> |r.value| < capacity
    ensures r.Unterminated? ==> r.chars == CString.Str(source) && terminator !in r.chars
    ensures r.Terminated? <==> Extract(source, terminator, capacity).Some?
    ensures r.Terminated? ==> Extract(source, terminator, capacity) == Some(r.value)
  {
    var s := CString.Str(source);
    var k := CString.IndexOf(s, terminator);
    if Reach(source, terminator) > capacity then Overflow
    else if k < |s| then
      assert s[..k] + [terminator] == s[..k + 1];
      Terminated(s[..k])
    else Unterminated(s)
  }

  /** `copy_until_char` on a target of fixed size: the copy as written whenever it fits, and the
      bounded copy when it would overflow. */
  method CopyValue(target: array<char>, source: string, terminator: char) returns (c: Copied)
    requires target.Length >= 1
    modifies target
    ensures c == CopyOutcome(source, terminator, target.Length)
    ensures c.Terminated? ==> target[..|c.value| + 1] == c.value + [CString.NUL]
    ensures c.Terminated? ==> forall j :: |c.value| + 1 <= j < target.Length ==> target[j] == old(target[j])
    ensures c.Unterminated? ==> target[..Max(1, |c.chars|)] == if c.chars == [] then [CString.NUL] else c.chars
    ensures c.Unterminated? ==> forall j :: Max(1, |c.chars|) <= j < target.Length ==> target[j] == old(target[j])
    ensures c.Overflow? ==> target[0] == CString.NUL
  {
    var s := CString.Str(source);
    if Reach(source, terminator) <= target.Length {
      var found := CopyUntilChar(target, source, terminator);
      if found {
        c := Terminated(s[..CString.IndexOf(s, terminator)]);
        assert |c.value| + 1 == Reach(source, terminator);
      } else {
        c := Unterminated(s);
        assert Max(1, |s|) == Reach(source, terminator);
      }
    } else {
      var value := CopyBounded(target, source, terminator);
      c := Overflow;
    }
  }

  /** A value without quotes or NULs, followed by its closing quote, comes back whole from the
      bounded copy when it is shorter than the capacity. */
  lemma {:induction false} ExtractRoundTrip(v: string, rest: string, capacity: nat)
    requires QUOTE !in v && CString.NUL !in v && |v| < capacity
    ensures Extract(v + [QUOTE] + rest, QUOTE, capacity) == Some(v)
  {
    StrKeeps(v + [QUOTE], rest);
    QuotedValue(v + [QUOTE] + rest, v, capacity);
  }

  /** The copy of a C string that starts with a quote-free `v` and a quote. */
  lemma QuotedValue(source: string, v: string, capacity: nat)
    requires QUOTE !in v
    requires |v| < |CString.Str(source)| && CString.Str(source)[..|v| + 1] == v + [QUOTE]
    ensures Reach(source, QUOTE) == |v| + 1
    ensures Extract(source, QUOTE, capacity) == if |v| < capacity then Some(v) else None
    ensures CopyOutcome(source, QUOTE, capacity) == if |v| < capacity then Terminated(v) else Overflow
  {
    var s := CString.Str(source);
    IndexOfPrefix(s, v, QUOTE);
  }

  /** Str keeps a NUL-free prefix. */
  lemma {:induction false} StrKeeps(p: string, rest: string)
    requires CString.NUL !in p
    ensures |p| <= |CString.Str(p + rest)| && CString.Str(p + rest)[..|p|] == p
    decreases |p|
  {
    if p != [] {
      assert (p + rest)[1..] == p[1..] + rest;
      assert p[0] != CString.NUL;
      StrKeeps(p[1..], rest);
    }
  }

  lemma IndexOfPrefix(s: string, v: string, c: char)
    requires c !in v && |v| < |s| && s[..|v| + 1] == v + [c]
    ensures CString.IndexOf(s, c) == |v|
    ensures s[..|v|] == v
  {
    assert s[|v|] == c;
    assert forall j :: 0 <= j < |v| ==> s[j] == v[j];
    assert s[..|v|] == s[..|v| + 1][..|v|];
  }

  /** The overflow: a value of `capacity` characters or more, closed by its quote, makes the copy as
      written reach past a target of `capacity` cells, as file_name_buff (100) and url_buff (2001)
      are for the values of `"fileName":"` and `"url":"`. */
  lemma CopyOverflow(v: string, rest: string, capacity: nat)
    requires QUOTE !in v && CString.NUL !in v && |v| >= capacity
    ensures Reach(v + [QUOTE] + rest, QUOTE) > capacity
    ensures Extract(v + [QUOTE] + rest, QUOTE, capacity).None?
    ensures CopyOutcome(v + [QUOTE] + rest, QUOTE, capacity) == Overflow
  {
    StrKeeps(v + [QUOTE], rest);
    QuotedValue(v + [QUOTE] + rest, v, capacity);
  }

  /** A file name of a hundred characters is one the copy as written cannot hold. */
  lemma FileNameOverflow()
    ensures var name := seq(FILE_NAME_LEN, _ => 'a');
            Reach(name + [QUOTE] + "}", QUOTE) == FILE_NAME_LEN + 1
  {
    var name := seq(FILE_NAME_LEN, _ => 'a');
    StrKeeps(name + [QUOTE], "}");
    QuotedValue(name + [QUOTE] + "}", name, FILE_NAME_LEN);
  }

  /** What `on_c2d_message` makes of a message: no publish info; a plain command (no `"url":"`); or
      an OTA command with what the copy of the URL left in url_buff and, when the file-name key is
      there, what the copy of the file name left in file_name_buff. */
  datatype C2dEvent =
    | NoInfo
    | Command
    | Ota(url: Copied, fileName: Option<Copied>)

  /** The text after the first occurrence of `key` in `msg`, where the handler starts its copy. */
  function After(msg: string, key: string): (r: string)
    requires CString.Contains(msg, key)
    ensures |key| + |r| <= |msg| && msg[|msg| - |r| - |key|..] == key + r
  {
    var at := CString.Find(msg, key);
    assert msg[at..at + |key|] == key;
    assert msg[at..] == key + msg[at + |key|..];
    msg[at + |key|..]
  }

  /** The copy the handler makes of the value after the first occurrence of `key` in `msg`. */
  function ValueAfter(msg: string, key: string, capacity: nat): Copied
    requires CString.Contains(msg, key)
  {
    CopyOutcome(After(msg, key), QUOTE, capacity)
  }

  /** `on_c2d_message` for the payload `payload` (None: no publish info). The handler terminates
      the payload after its last character, so the searches see it up to its first NUL. */
  function C2dSpec(payload: Option<string>): (r: C2dEvent)
    ensures payload.None? <==> r == NoInfo
    ensures payload.Some? ==> (r == Command <==> !CString.Contains(CString.Str(payload.value), JSON_OBJ_URL))
    ensures r.Ota? ==> (r.fileName.Some? <==> CString.Contains(CString.Str(payload.value), JSON_OBJ_FILENAME))
    ensures r.Ota? && r.url.Terminated? ==> |r.url.value| <= MAX_URL_LEN
    ensures r.Ota? && r.fileName.Some? && r.fileName.value.Terminated? ==> |r.fileName.value.value| < FILE_NAME_LEN
  {
    match payload
    case None => NoInfo
    case Some(p) =>
      var msg := CString.Str(p);
      if !CString.Contains(msg, JSON_OBJ_URL) then Command
      else
        var url := ValueAfter(msg, JSON_OBJ_URL, MAX_URL_LEN + 1);
        if !CString.Contains(msg, JSON_OBJ_FILENAME) then Ota(url, None)
        else Ota(url, Some(ValueAfter(msg, JSON_OBJ_FILENAME, FILE_NAME_LEN)))
  }

  /** `on_c2d_message`, with url_buff, the global the URL is copied into: the value and a NUL when
      the closing quote is there, the characters without a NUL when it is not, the empty string on
      an overflow; the cells past the copy keep what they held. The file name goes to a buffer of
      its own that is only logged. */
  method OnC2dMessage(urlBuff: array<char>, payload: Option<string>) returns (ev: C2dEvent)
    requires urlBuff.Length == MAX_URL_LEN + 1
    modifies urlBuff
    ensures ev == C2dSpec(payload)
    ensures ev.Ota? && ev.url.Terminated? ==> urlBuff[..|ev.url.value| + 1] == ev.url.value + [CString.NUL]
    ensures ev.Ota? && ev.url.Terminated? ==>
              forall j :: |ev.url.value| + 1 <= j < urlBuff.Length ==> urlBuff[j] == old(urlBuff[j])
    ensures ev.Ota? && ev.url.Unterminated? ==>
              urlBuff[..Max(1, |ev.url.chars|)] == if ev.url.chars == [] then [CString.NUL] else ev.url.chars
    ensures ev.Ota? && ev.url.Unterminated? ==>
              forall j :: Max(1, |ev.url.chars|) <= j < urlBuff.Length ==> urlBuff[j] == old(urlBuff[j])
    ensures ev.Ota? && ev.url.Overflow? ==> urlBuff[0] == CString.NUL
    ensures !ev.Ota? ==> urlBuff[..] == old(urlBuff[..])
  {
    if payload.None? {
      return NoInfo;
    }
    var msg := CString.Str(payload.value);
    var at := CString.Find(msg, JSON_OBJ_URL);
    if at == -1 {
      return Command;
    }
    var url := CopyUrl(urlBuff, msg);
    var name := CopyFileName(msg);
    return Ota(url, name);
  }

  /** The first half of the handler once `"url":"` is found: the copy into url_buff. */
  method CopyUrl(urlBuff: array<char>, msg: string) returns (url: Copied)
    requires urlBuff.Length == MAX_URL_LEN + 1 && CString.Contains(msg, JSON_OBJ_URL)
    modifies urlBuff
    ensures url == ValueAfter(msg, JSON_OBJ_URL, MAX_URL_LEN + 1)
    ensures url.Terminated? ==> urlBuff[..|url.value| + 1] == url.value + [CString.NUL]
    ensures url.Terminated? ==> forall j :: |url.value| + 1 <= j < urlBuff.Length ==> urlBuff[j] == old(urlBuff[j])
    ensures url.Unterminated? ==> urlBuff[..Max(1, |url.chars|)] == if url.chars == [] then [CString.NUL] else url.chars
    ensures url.Unterminated? ==> forall j :: Max(1, |url.chars|) <= j < urlBuff.Length ==> urlBuff[j] == old(urlBuff[j])
    ensures url.Overflow? ==> urlBuff[0] == CString.NUL
  {
    var at := CString.Find(msg, JSON_OBJ_URL);
    url := CopyValue(urlBuff, msg[at + |JSON_OBJ_URL|..], QUOTE);
  }

  /** The second half: the search for `"fileName":"` and the copy into file_name_buff, a buffer of
      the handler's own. */
  method CopyFileName(msg: string) returns (name: Option<Copied>)
    ensures name.Some? <==> CString.Contains(msg, JSON_OBJ_FILENAME)
    ensures name.Some? ==> name.value == ValueAfter(msg, JSON_OBJ_FILENAME, FILE_NAME_LEN)
  {
    var fileNameBuff := new char[FILE_NAME_LEN];
    var fn := CString.Find(msg, JSON_OBJ_FILENAME);
    if fn == -1 {
      return None;
    }
    var copied := CopyValue(fileNameBuff, msg[fn + |JSON_OBJ_FILENAME|..], QUOTE);
    return Some(copied);
  }

  /** A buffer that starts with a NUL-free value and a NUL holds that value as a C string. */
  lemma StrOfTerminated(buf: seq<char>, v: string)
    requires CString.NUL !in v && |v| < |buf| && buf[..|v| + 1] == v + [CString.NUL]
    ensures CString.Str(buf) == v
  {
    assert buf[|v|] == buf[..|v| + 1][|v|];
    CString.StrCut(buf, |v|);
    assert buf[..|v|] == buf[..|v| + 1][..|v|];
  }

  /** An OTA command whose payload starts with the URL key: the URL comes back whole when it is
      free of quotes and NULs and at most MAX_URL_LEN long, and is refused when longer. */
  lemma UrlRoundTrip(url: string, rest: string)
    requires QUOTE !in url && CString.NUL !in url
    ensures var ev := C2dSpec(Some(JSON_OBJ_URL + url + [QUOTE] + rest));
            ev.Ota? && (ev.url == if |url| <= MAX_URL_LEN then Terminated(url) else Overflow)
  {
    var full := JSON_OBJ_URL + url + [QUOTE];
    var msg := CString.Str(full + rest);
    StrKeeps(full, rest);
    KeyValuePrefix(msg, JSON_OBJ_URL, url);
    assert CString.MatchesAt(msg, JSON_OBJ_URL, 0);
    QuotedValue(msg[|JSON_OBJ_URL|..], url, MAX_URL_LEN + 1);
  }

  /** An OTA command that ends before the URL's closing quote, the URL key first occurring right
      after `pre`: the handler copies every character of the URL into url_buff and no NUL after
      them, as long as they fit its MAX_URL_LEN + 1 cells. */
  lemma UrlUnterminated(pre: string, url: string)
    requires CString.NUL !in pre && QUOTE !in url && CString.NUL !in url
    requires CString.Find(pre + JSON_OBJ_URL, JSON_OBJ_URL) == |pre|
    ensures var ev := C2dSpec(Some(pre + JSON_OBJ_URL + url));
            ev.Ota? && ev.url == if |url| <= MAX_URL_LEN + 1 then Unterminated(url) else Overflow
  {
    var head := pre + JSON_OBJ_URL;
    var msg := head + url;
    assert CString.NUL !in msg by {
      assert forall i :: 0 <= i < |msg| ==> msg[i] == (if i < |head| then head[i] else url[i - |head|]);
    }
    assert CString.Str(msg) == msg;
    FindExtend(head, msg, JSON_OBJ_URL);
    assert After(msg, JSON_OBJ_URL) == url;
    assert CString.Str(url) == url;
  }

  /** An OTA command whose file-name key first occurs right after `pre`: the file name comes back
      whole when it is free of quotes and NULs and shorter than file_name_buff, and is refused when
      it is longer. */
  lemma FileNameRoundTrip(pre: string, name: string, rest: string)
    requires CString.NUL !in pre && QUOTE !in name && CString.NUL !in name
    requires CString.Contains(pre, JSON_OBJ_URL)
    requires CString.Find(pre + JSON_OBJ_FILENAME, JSON_OBJ_FILENAME) == |pre|
    ensures var ev := C2dSpec(Some(pre + JSON_OBJ_FILENAME + name + [QUOTE] + rest));
            ev.Ota? && ev.fileName == Some(if |name| < FILE_NAME_LEN then Terminated(name) else Overflow)
  {
    var full := pre + JSON_OBJ_FILENAME + name + [QUOTE];
    StrKeeps(full, rest);
    FileNameValue(CString.Str(full + rest), pre, name);
  }

  /** The searches and the copy on a message that starts with `pre`, the file-name key, the name
      and its closing quote. */
  lemma FileNameValue(msg: string, pre: string, name: string)
    requires CString.NUL !in msg && QUOTE !in name
    requires var full := pre + JSON_OBJ_FILENAME + name + [QUOTE];
             |full| <= |msg| && msg[..|full|] == full
    requires CString.Contains(pre, JSON_OBJ_URL)
    requires CString.Find(pre + JSON_OBJ_FILENAME, JSON_OBJ_FILENAME) == |pre|
    ensures CString.Contains(msg, JSON_OBJ_URL) && CString.Contains(msg, JSON_OBJ_FILENAME)
    ensures ValueAfter(msg, JSON_OBJ_FILENAME, FILE_NAME_LEN) ==
              if |name| < FILE_NAME_LEN then Terminated(name) else Overflow
  {
    var head := pre + JSON_OBJ_FILENAME;
    KeyValuePrefix(msg, head, name);
    FileNameKeys(msg, pre, head);
    ValueAt(msg, JSON_OBJ_FILENAME, |pre|, name, FILE_NAME_LEN);
  }

  /** The value after a key found at `at`, followed by its closing quote. */
  lemma ValueAt(msg: string, key: string, at: nat, v: string, capacity: nat)
    requires CString.Find(msg, key) == at
    requires CString.NUL !in msg && QUOTE !in v
    requires at + |key| + |v| + 1 <= |msg| && msg[at + |key|..][..|v| + 1] == v + [QUOTE]
    ensures CString.Contains(msg, key)
    ensures ValueAfter(msg, key, capacity) == if |v| < capacity then Terminated(v) else Overflow
  {
    var source := msg[at + |key|..];
    NulFreeSuffix(msg, at + |key|);
    assert CString.Str(source)[..|v| + 1] == v + [QUOTE];
    QuotedValue(source, v, capacity);
    assert msg[CString.Find(msg, key) + |key|..] == source;
  }

  /** A suffix of a NUL-free string is its own C string. */
  lemma NulFreeSuffix(msg: string, a: nat)
    requires a <= |msg| && CString.NUL !in msg
    ensures CString.NUL !in msg[a..] && CString.Str(msg[a..]) == msg[a..]
  {
    forall i | 0 <= i < |msg| - a
      ensures msg[a..][i] != CString.NUL
    {
      assert msg[a..][i] == msg[a + i];
    }
  }

  /** Both keys are found in a message that starts with `pre` and the file-name key, the latter
      right after `pre`. */
  lemma FileNameKeys(msg: string, pre: string, head: string)
    requires head == pre + JSON_OBJ_FILENAME
    requires |head| <= |msg| && msg[..|head|] == head
    requires CString.Contains(pre, JSON_OBJ_URL)
    requires CString.Find(head, JSON_OBJ_FILENAME) == |pre|
    ensures CString.Contains(msg, JSON_OBJ_URL)
    ensures CString.Find(msg, JSON_OBJ_FILENAME) == |pre|
  {
    assert head[..|pre|] == pre;
    ContainsExtend(pre, head, msg, JSON_OBJ_URL);
    FindExtend(head, msg, JSON_OBJ_FILENAME);
  }

  /** A key found in `pre` is still found once `pre` is extended to `head` and then to `msg`. */
  lemma ContainsExtend(pre: string, head: string, msg: string, pat: string)
    requires |pre| <= |head| && head[..|pre|] == pre
    requires |head| <= |msg| && msg[..|head|] == head
    requires CString.Contains(pre, pat)
    ensures CString.Contains(msg, pat)
  {
    FindExtend(pre, head, pat);
    FindExtend(head, msg, pat);
  }

  /** A message that starts with `head`, a value and its closing quote. */
  lemma KeyValuePrefix(msg: string, head: string, v: string)
    requires |head + v + [QUOTE]| <= |msg| && msg[..|head + v + [QUOTE]|] == head + v + [QUOTE]
    ensures msg[..|head|] == head
    ensures msg[|head|..][..|v| + 1] == v + [QUOTE]
  {
    var full := head + v + [QUOTE];
    assert msg[..|head|] == full[..|head|];
    assert msg[|head|..][..|v| + 1] == full[|head|..];
  }

  /** A first match that lies inside a prefix is the first match of the whole string. */
  lemma FindExtend(head: string, s: string, pat: string)
    requires |head| <= |s| && s[..|head|] == head
    requires CString.Find(head, pat) != -1
    ensures CString.Find(s, pat) == CString.Find(head, pat)
  {
    var k := CString.Find(head, pat);
    assert CString.MatchesAt(head, pat, k);
    SliceOfPrefix(head, s, k, k + |pat|);
    forall j | 0 <= j < k
      ensures !CString.MatchesAt(s, pat, j)
    {
      assert !CString.MatchesAt(head, pat, j);
      SliceOfPrefix(head, s, j, j + |pat|);
    }
    assert CString.MatchesAt(s, pat, k);
  }

  /** A slice inside a prefix is the same slice of the whole string. */
  lemma SliceOfPrefix(head: string, s: string, a: nat, b: nat)
    requires a <= b <= |head| <= |s| && s[..|head|] == head
    ensures s[a..b] == head[a..b]
  {
    forall i | 0 <= i < b - a
      ensures s[a..b][i] == head[a..b][i]
    {
      assert s[a + i] == s[..|head|][a + i];
    }
  }
}
