/**
 The stream that writes an upstream reply to the cache file and on to the client. The
 spec is an automaton over single bytes; the stream class implements it with one method
 for a byte and one for a block.
 */
module CacheWriter {
  import opened Text
  import CacheProtocol

  datatype Mode = StatusLine | Headers | Skip | CopyBody | Updated | Junk

  /** What a reply is judged by: the client, the request, the clocks and the configuration. */
  datatype Request = Request(
    http1: bool,                 // the client speaks HTTP/1 and wants headers
    ifModSince: int,             // nonzero for a conditional request
    curTime: int,                // start of the request
    now: int,                    // time(2) at the end of the headers
    margin: int,                 // cache_time_margin
    parseTime: string -> int,    // parse_http_time
    timeToLive: int -> int)      // by last-modified factor or default expiry

  datatype Writer = Writer(
    mode: Mode, status: int,
    buf: string,                 // the line being collected
    headerBuf: seq<string>,      // collected header lines, newest first
    file: string, output: string,
    connected: bool,             // the client is still there
    contentCount: nat,
    expires: int, lastModified: int, contentLength: int)

  const BUF_SIZE := 256

  const EXPIRES_LINE := "Expires: Will-be-filled-out-by-cache-proxy\r\n"

  const Initial := Writer(StatusLine, 0, "", [], "", "", true, 0, 0, 0, 0)

  // ---- The automaton ----

  function Sent(w: Writer, s: string): Writer {
    if w.connected then w.(output := w.output + s) else w
  }

  function Append(w: Writer, line: string): Writer {
    w.(headerBuf := [line] + w.headerBuf, buf := "")
  }

  function AppendAndClear(w: Writer): Writer { Append(w, CString(w.buf)) }

  function Discarded(w: Writer): Writer { w.(headerBuf := []) }

  /** The header lines in their original order: the list is newest first. */
  function DoIt(list: seq<string>): string {
    if list == [] then "" else DoIt(list[1..]) + list[0]
  }

  function Flushed(w: Writer): Writer {
    if !w.connected then Discarded(w)
    else
      var all := DoIt(w.headerBuf);
      Discarded(Sent(if w.mode.Junk? then w else w.(file := w.file + all), all))
  }

  function GetStatus(s: string): int {
    if |s| < 5 || s[..5] != "HTTP/" || ' ' !in s then -1
    else
      var rest := SkipBlanks(s[IndexOf(s, ' ')..]);
      if rest == "" then -1 else Atoi(rest)
  }

  function SkipBlanks(s: string): string {
    if s != "" && (s[0] == ' ' || s[0] == '\t') then SkipBlanks(s[1..]) else s
  }

  /** A conditional request falls back on the old last-modified time. */
  function LastModifiedOr(rq: Request, lastModified: int): int {
    if lastModified == 0 && rq.ifModSince != 0 then rq.ifModSince else lastModified
  }

  /** Does figure_out_expires find a document with these times worth caching? */
  predicate WorthCaching(rq: Request, expires: int, lastModified: int) {
    expires != 0 || rq.timeToLive(LastModifiedOr(rq, lastModified)) > rq.margin
  }

  function FigureOutExpires(rq: Request, w: Writer): Writer {
    var lm := if w.expires != 0 then w.lastModified else LastModifiedOr(rq, w.lastModified);
    if !WorthCaching(rq, w.expires, w.lastModified) then w.(lastModified := lm)
    else w.(
      expires := if w.expires != 0 then w.expires else rq.now + rq.timeToLive(lm),
      lastModified := if lm != 0 then lm else rq.now)
  }

  predicate Judged(rq: Request, status: int) {
    status == 200 || (status == 304 && rq.ifModSince != 0)
  }

  /** If the buffer was full before the line ended, the rest of the line is skipped. */
  function AfterLine(w: Writer, ch: char): Writer { if ch == LF then w else w.(mode := Skip) }

  function EndOfStatusLine(rq: Request, w: Writer, ch: char): Writer {
    var status := GetStatus(CString(w.buf));
    AfterLine(AppendAndClear(
      if Judged(rq, status) then w.(status := status, mode := Headers)
      else Sent(w.(status := status, mode := Junk), w.buf)), ch)
  }

  function EndOfHeaders(rq: Request, w: Writer): Writer {
    if w.status == 304 then Discarded(FigureOutExpires(rq, w).(mode := Updated))
    else if w.status == 200 then
      var worth := WorthCaching(rq, w.expires, w.lastModified);
      var v := AppendAndClear(FigureOutExpires(rq, w).(mode := if worth then CopyBody else Junk));
      if rq.http1 then Flushed(v) else Discarded(v)
    else w
  }

  const EXPIRES := "expires:"
  const LAST_MODIFIED := "last-modified:"
  const CONTENT_LENGTH := "content-length:"

  predicate IsExpires(line: string) { StartsWithNoCase(line, EXPIRES) }

  /** An Expires line whose time is as good as past. */
  predicate ExpiresAtOnce(rq: Request, line: string) {
    IsExpires(line) && rq.parseTime(line[8..]) <= rq.curTime + rq.margin
  }

  function EndOfHeader(rq: Request, w: Writer, ch: char): Writer {
    var line := CString(w.buf);
    if ExpiresAtOnce(rq, line) then
      Flushed(AppendAndClear(w.(expires := rq.parseTime(line[8..]), mode := Junk)))
    else AfterLine(AppendAndClear(HeaderRead(rq, w, line)), ch)
  }

  /** An Expires line is replaced; what the others say is noted. */
  function HeaderRead(rq: Request, w: Writer, line: string): Writer {
    if IsExpires(line) then Append(w.(expires := rq.parseTime(line[8..])), EXPIRES_LINE)
    else if StartsWithNoCase(line, LAST_MODIFIED) then w.(lastModified := rq.parseTime(line[14..]))
    else if StartsWithNoCase(line, CONTENT_LENGTH) then w.(contentLength := Atoi(line[15..]))
    else w
  }

  predicate IsBlank(line: string) { line != "" && (line[0] == CR || line[0] == LF) }

  /** A line has ended, or fills the buffer. */
  function EndOfLoad(rq: Request, w: Writer, ch: char): Writer {
    if w.mode.StatusLine? then EndOfStatusLine(rq, w, ch)
    else if IsBlank(w.buf) then EndOfHeaders(rq, w)
    else EndOfHeader(rq, w, ch)
  }

  function Put(rq: Request, w: Writer, ch: char): Writer {
    match w.mode
    case Skip => Sent(w.(file := w.file + [ch], mode := if ch == LF then Headers else Skip), [ch])
    case CopyBody => Sent(w.(file := w.file + [ch], contentCount := w.contentCount + 1), [ch])
    case Junk => Sent(w.(contentCount := w.contentCount + 1), [ch])
    case Updated => w
    case _ =>
      var v := w.(buf := w.buf + [ch]);
      if ch != LF && |v.buf| < BUF_SIZE then v else EndOfLoad(rq, v, ch)
  }

  function PutAll(rq: Request, w: Writer, s: string): Writer
    decreases |s|
  {
    if s == "" then w else PutAll(rq, Put(rq, w, s[0]), s[1..])
  }

  lemma {:induction false} PutAllAppend(rq: Request, w: Writer, a: string, b: string)
    ensures PutAll(rq, w, a + b) == PutAll(rq, PutAll(rq, w, a), b)
    decreases |a|
  {
    hide Put;
    if a == "" {
      assert a + b == b;
    } else {
      assert (a + b)[1..] == a[1..] + b;
      PutAllAppend(rq, Put(rq, w, a[0]), a[1..], b);
    }
  }

  lemma PutOne(rq: Request, w: Writer, ch: char)
    ensures PutAll(rq, w, [ch]) == Put(rq, w, ch)
  {
    assert [ch][1..] == "";
  }

  // ---- Calls ----

  /** What the upstream side may call; a block also finds out that the client has left. */
  datatype Call = Char(ch: char) | Block(data: string, sigpipe: bool)

  function Left(w: Writer): Writer { w.(connected := false) }

  function AfterCall(rq: Request, w: Writer, c: Call): Writer {
    match c
    case Char(ch) => Put(rq, w, ch)
    case Block(data, sigpipe) => PutAll(rq, if sigpipe then Left(w) else w, data)
  }

  function AfterCalls(rq: Request, w: Writer, calls: seq<Call>): Writer
    decreases |calls|
  {
    if calls == [] then w else AfterCalls(rq, AfterCall(rq, w, calls[0]), calls[1..])
  }

  function Bytes(calls: seq<Call>): string {
    if calls == [] then "" else (match calls[0] case Char(ch) => [ch] case Block(data, _) => data) + Bytes(calls[1..])
  }

  predicate ClientStays(calls: seq<Call>) {
    forall c :: c in calls ==> c.Block? ==> !c.sigpipe
  }

  lemma {:induction false} CallsAreBytes(rq: Request, w: Writer, calls: seq<Call>)
    requires ClientStays(calls) || !w.connected
    ensures AfterCalls(rq, w, calls) == PutAll(rq, w, Bytes(calls))
    decreases |calls|
  {
    hide Put;
    if calls == [] {
    } else {
      var c := calls[0];
      var data := match c case Char(ch) => [ch] case Block(data, _) => data;
      if c.Char? { PutOne(rq, w, c.ch); }
      assert AfterCall(rq, w, c) == PutAll(rq, w, data);
      if !w.connected { StaysAway(rq, w, data); }
      CallsAreBytes(rq, AfterCall(rq, w, c), calls[1..]);
      PutAllAppend(rq, w, data, Bytes(calls[1..]));
    }
  }

  lemma {:induction false} StaysAway(rq: Request, w: Writer, s: string)
    ensures PutAll(rq, w, s).connected == w.connected
    decreases |s|
  {
    if s == "" {
    } else {
      assert Put(rq, w, s[0]).connected == w.connected;
      hide Put;
      StaysAway(rq, Put(rq, w, s[0]), s[1..]);
    }
  }

  /**
   However the bytes are cut into calls, and whichever of them are made one by one: the writer
   ends up the same, as long as the client stays.
   */
  lemma ChunkingDoesNotMatter(rq: Request, w: Writer, calls: seq<Call>, others: seq<Call>)
    requires Bytes(calls) == Bytes(others) && ClientStays(calls) && ClientStays(others)
    ensures AfterCalls(rq, w, calls) == AfterCalls(rq, w, others)
  {
    CallsAreBytes(rq, w, calls);
    CallsAreBytes(rq, w, others);
  }

  lemma {:induction false} AfterCallsAppend(rq: Request, w: Writer, a: seq<Call>, b: seq<Call>)
    ensures AfterCalls(rq, w, a + b) == AfterCalls(rq, AfterCalls(rq, w, a), b)
    decreases |a|
  {
    hide AfterCall;
    if a == [] {
      assert a + b == b;
    } else {
      assert (a + b)[1..] == a[1..] + b;
      AfterCallsAppend(rq, AfterCall(rq, w, a[0]), a[1..], b);
    }
  }

  /** When the client leaves, only the number of bytes that came before that matters. */
  lemma LeavingSplitsTheBytes(rq: Request, w: Writer, before: seq<Call>, data: string, behind: seq<Call>)
    requires ClientStays(before)
    ensures AfterCalls(rq, w, before + [Block(data, true)] + behind) ==
      PutAll(rq, Left(PutAll(rq, w, Bytes(before))), data + Bytes(behind))
  {
    hide Put;
    var here := [Block(data, true)];
    CallsAreBytes(rq, w, before);
    var v := Left(PutAll(rq, w, Bytes(before)));
    AfterCallsAppend(rq, w, before + here, behind);
    AfterCallsAppend(rq, w, before, here);
    assert here[1..] == [];
    StaysAway(rq, v, data);
    CallsAreBytes(rq, PutAll(rq, v, data), behind);
    PutAllAppend(rq, v, data, Bytes(behind));
  }

  // ---- Lines ----

  predicate IsLine(s: string) { s != "" && s[|s| - 1] == LF && LF !in s[..|s| - 1] }

  predicate IsHeader(s: string) { IsLine(s) && !IsBlank(s) }

  /** What is taken for a line: up to its end, or as much as fills the buffer. */
  predicate IsLoad(s: string) {
    0 < |s| <= BUF_SIZE && LF !in s[..|s| - 1] && (s[|s| - 1] == LF || |s| == BUF_SIZE)
  }

  /** The part of a line that is taken. */
  function Taken(line: string): string { if |line| <= BUF_SIZE then line else line[..BUF_SIZE] }

  /** The part of a line that no longer fits the buffer. */
  function Spilled(line: string): string { line[|Taken(line)|..] }

  /** The header line as the cache keeps it. */
  function Kept(line: string): string {
    var s := CString(Taken(line));
    if IsExpires(s) then EXPIRES_LINE else s
  }

  function KeptAll(headers: seq<string>): string {
    if headers == [] then "" else KeptAll(headers[..|headers| - 1]) + Kept(headers[|headers| - 1])
  }

  function SpilledAll(lines: seq<string>): string {
    if lines == [] then "" else SpilledAll(lines[..|lines| - 1]) + Spilled(lines[|lines| - 1])
  }

  /** What the last header line of that name says. */
  function LastValue(headers: seq<string>, name: string): Option<string> {
    if headers == [] then None
    else
      var n := |headers| - 1;
      ValueOr(CString(Taken(headers[n])), name, LastValue(headers[..n], name))
  }

  function ValueOr(s: string, name: string, before: Option<string>): Option<string> {
    if StartsWithNoCase(s, name) then Some(s[|name|..]) else before
  }

  /** The time the last of these header lines gives, 0 if there is none. */
  function TimeIn(rq: Request, headers: seq<string>, name: string): int {
    match LastValue(headers, name) case None => 0 case Some(s) => rq.parseTime(s)
  }

  /** The length the server announces, 0 if it does not. */
  function AnnouncedLength(headers: seq<string>): int {
    match LastValue(headers, CONTENT_LENGTH) case None => 0 case Some(s) => Atoi(s)
  }

  /** Is a document with these header lines worth caching? */
  predicate Worth(rq: Request, headers: seq<string>) {
    WorthCaching(rq, TimeIn(rq, headers, EXPIRES), TimeIn(rq, headers, LAST_MODIFIED))
  }

  /** Up to the end of a load a line is only collected. */
  lemma {:induction false} LineIsCollected(rq: Request, w: Writer, s: string)
    requires (w.mode.StatusLine? || w.mode.Headers?) && LF !in s && |w.buf| + |s| < BUF_SIZE
    ensures PutAll(rq, w, s) == w.(buf := w.buf + s)
    decreases |s|
  {
    hide EndOfLoad;
    if s == "" {
      assert w.buf + s == w.buf;
    } else {
      LineIsCollected(rq, Put(rq, w, s[0]), s[1..]);
      assert w.buf + [s[0]] + s[1..] == w.buf + s;
    }
  }

  lemma LoadIsPut(rq: Request, w: Writer, s: string)
    requires (w.mode.StatusLine? || w.mode.Headers?) && w.buf == "" && IsLoad(s)
    ensures PutAll(rq, w, s) == EndOfLoad(rq, w.(buf := s), s[|s| - 1])
  {
    hide EndOfLoad;
    var init, ch := s[..|s| - 1], s[|s| - 1];
    assert s == init + [ch];
    PutAllAppend(rq, w, init, [ch]);
    LineIsCollected(rq, w, init);
    assert w.buf + init == init;
    PutOne(rq, w.(buf := init), ch);
  }

  /** The rest of a line that is too long goes straight to the file and to the client. */
  lemma {:induction false} SpillIsPassed(rq: Request, w: Writer, s: string)
    requires w.mode.Skip? && IsLine(s)
    ensures PutAll(rq, w, s) == Sent(w.(file := w.file + s, mode := Headers), s)
    decreases |s|
  {
    hide EndOfLoad;
    var v := Put(rq, w, s[0]);
    if |s| == 1 {
      assert s == [LF];
      PutOne(rq, w, LF);
    } else {
      var t := s[1..];
      assert s[0] == s[..|s| - 1][0];
      assert t[..|t| - 1] == s[..|s| - 1][1..];
      SpillIsPassed(rq, v, t);
      assert s == [s[0]] + t;
      ByteIsCopied(w.file, s);
      ByteIsCopied(w.output, s);
    }
  }

  lemma ByteIsCopied(s: string, body: string)
    requires body != ""
    ensures s + [body[0]] + body[1..] == s + body
  {
  }

  /** A copied body: every byte counts, and goes to the file and to the client. */
  lemma {:induction false} BodyIsCopied(rq: Request, w: Writer, body: string)
    requires w.mode.CopyBody? || w.mode.Junk?
    ensures PutAll(rq, w, body) == Sent(
      w.(file := if w.mode.CopyBody? then w.file + body else w.file,
         contentCount := w.contentCount + |body|), body)
    decreases |body|
  {
    if body == "" {
      assert w.file + body == w.file;
      assert w.output + body == w.output;
    } else {
      var v := Put(rq, w, body[0]);
      assert body == [body[0]] + body[1..];
      assert v.mode == w.mode && v.contentCount == w.contentCount + 1;
      BodyIsCopied(rq, v, body[1..]);
      ByteIsCopied(w.file, body);
      ByteIsCopied(w.output, body);
    }
  }

  lemma {:induction false} UpdatedIgnores(rq: Request, w: Writer, s: string)
    requires w.mode.Updated?
    ensures PutAll(rq, w, s) == w
    decreases |s|
  {
    if s == "" {
    } else {
      UpdatedIgnores(rq, w, s[1..]);
    }
  }

  // ---- The head of a reply ----

  /** A whole line that is taken, and then its rest. */
  lemma LineInParts(rq: Request, w: Writer, line: string)
    requires (w.mode.StatusLine? || w.mode.Headers?) && w.buf == "" && IsLine(line)
    ensures var s := Taken(line);
      && IsLoad(s) && (|line| <= BUF_SIZE <==> s[|s| - 1] == LF)
      && PutAll(rq, w, line) == PutAll(rq, EndOfLoad(rq, w.(buf := s), s[|s| - 1]), Spilled(line))
      && (|line| > BUF_SIZE ==> IsLine(Spilled(line)))
  {
    hide EndOfLoad, Put;
    var s := Taken(line);
    assert line == s + Spilled(line);
    PrefixHasNoLF(line, |s|);
    LoadIsPut(rq, w, s);
    PutAllAppend(rq, w, s, Spilled(line));
  }

  lemma PrefixHasNoLF(line: string, k: nat)
    requires IsLine(line) && 0 < k <= |line|
    ensures LF !in line[..k - 1] && (k < |line| ==> line[k - 1] != LF && IsLine(line[k..]))
    ensures k == |line| ==> line[..k] == line
  {
    var init := line[..|line| - 1];
    assert forall i :: 0 <= i < |init| ==> init[i] == line[i];
    if k < |line| {
      assert line[k..][..|line| - k - 1] == init[k..];
    }
  }

  /** Writer w between two lines of the head: nothing but the ends of lines too long has gone out. */
  predicate Collecting(w: Writer) { w.mode.Headers? && w.buf == "" && w.contentCount == 0 }

  /** Writer v is writer w after it took a line. */
  predicate Collected(w: Writer, v: Writer, kept: string, spilled: string) {
    && Collecting(v) && v.connected == w.connected
    && DoIt(v.headerBuf) == DoIt(w.headerBuf) + kept
    && v.file == w.file + spilled
    && v.output == if w.connected then w.output + spilled else w.output
  }

  /** Whether a line is replaced or kept, an empty one in front of it does not show. */
  lemma KeptLineIsAppended(line: string, list: seq<string>)
    ensures DoIt([line] + list) == DoIt(list) + line
    ensures DoIt([""] + ([line] + list)) == DoIt(list) + line
  {
    DoItAppend(line, list);
    DoItAppend("", [line] + list);
    assert DoIt(list) + line + "" == DoIt(list) + line;
  }

  lemma DoItAppend(line: string, list: seq<string>)
    ensures DoIt([line] + list) == DoIt(list) + line
  {
    assert ([line] + list)[1..] == list;
  }

  lemma FieldNamesDiffer(s: string)
    ensures !(StartsWithNoCase(s, EXPIRES) && StartsWithNoCase(s, LAST_MODIFIED))
    ensures !(StartsWithNoCase(s, EXPIRES) && StartsWithNoCase(s, CONTENT_LENGTH))
    ensures !(StartsWithNoCase(s, LAST_MODIFIED) && StartsWithNoCase(s, CONTENT_LENGTH))
  {
    if s != "" {
      var c := ToLower(s[0]);
      assert StartsWithNoCase(s, EXPIRES) ==> LowerCase(s[..8])[0] == c == 'e';
      assert StartsWithNoCase(s, LAST_MODIFIED) ==> LowerCase(s[..14])[0] == c == 'l';
      assert StartsWithNoCase(s, CONTENT_LENGTH) ==> LowerCase(s[..15])[0] == c == 'c';
    }
  }

  lemma HeaderReadFrame(rq: Request, w: Writer, line: string)
    ensures var v := HeaderRead(rq, w, line);
      v == w.(buf := v.buf, headerBuf := v.headerBuf, expires := v.expires,
              lastModified := v.lastModified, contentLength := v.contentLength)
    ensures var v := HeaderRead(rq, w, line);
      if IsExpires(line) then v.buf == "" && v.headerBuf == [EXPIRES_LINE] + w.headerBuf
      else v.buf == w.buf && v.headerBuf == w.headerBuf
  {
    hide IsExpires, StartsWithNoCase;
  }

  lemma HeaderReadKeeps(rq: Request, w: Writer)
    requires |w.buf| <= BUF_SIZE
    ensures var line := CString(w.buf);
      var v := AppendAndClear(HeaderRead(rq, w, line));
      && DoIt(v.headerBuf) == DoIt(w.headerBuf) + Kept(w.buf)
      && v == w.(buf := "", headerBuf := v.headerBuf, expires := v.expires,
                 lastModified := v.lastModified, contentLength := v.contentLength)
  {
    var line := CString(w.buf);
    assert CString("") == "" && Taken(w.buf) == w.buf;
    HeaderReadFrame(rq, w, line);
    hide HeaderRead, DoIt, CString, IsExpires;
    KeptLineIsAppended(Kept(w.buf), w.headerBuf);
  }

  lemma HeaderReadNotes(rq: Request, w: Writer, line: string)
    ensures var v := AppendAndClear(HeaderRead(rq, w, line));
      && v.expires == (if IsExpires(line) then rq.parseTime(line[8..]) else w.expires)
      && v.lastModified == (if StartsWithNoCase(line, LAST_MODIFIED) then rq.parseTime(line[14..]) else w.lastModified)
      && v.contentLength == if StartsWithNoCase(line, CONTENT_LENGTH) then Atoi(line[15..]) else w.contentLength
  {
    FieldNamesDiffer(line);
  }

  lemma LoadIsKept(rq: Request, w: Writer, s: string, ch: char)
    requires Collecting(w) && s != "" && !IsBlank(s) && !ExpiresAtOnce(rq, CString(s))
    ensures EndOfLoad(rq, w.(buf := s), ch) ==
      AfterLine(AppendAndClear(HeaderRead(rq, w.(buf := s), CString(s))), ch)
  {
    hide ExpiresAtOnce, HeaderRead;
  }

  lemma HeaderIsCollected(rq: Request, w: Writer, line: string)
    requires Collecting(w) && IsHeader(line) && !ExpiresAtOnce(rq, CString(Taken(line)))
    ensures Collected(w, PutAll(rq, w, line), Kept(line), Spilled(line))
    ensures var v, s := PutAll(rq, w, line), CString(Taken(line));
      && v.status == w.status
      && v.expires == (if IsExpires(s) then rq.parseTime(s[8..]) else w.expires)
      && v.lastModified == (if StartsWithNoCase(s, LAST_MODIFIED) then rq.parseTime(s[14..]) else w.lastModified)
      && v.contentLength == if StartsWithNoCase(s, CONTENT_LENGTH) then Atoi(s[15..]) else w.contentLength
  {
    hide EndOfLoad, Put, ExpiresAtOnce, IsExpires, StartsWithNoCase, IsLine, HeaderRead, AppendAndClear, CString;
    LineInParts(rq, w, line);
    var s := Taken(line);
    LoadIsKept(rq, w, s, s[|s| - 1]);
    HeaderReadKeeps(rq, w.(buf := s));
    HeaderReadNotes(rq, w.(buf := s), CString(s));
    var u := EndOfLoad(rq, w.(buf := s), s[|s| - 1]);
    if |line| <= BUF_SIZE {
      assert Spilled(line) == "";
    } else {
      SpillIsPassed(rq, u, Spilled(line));
    }
  }

  /** The status that is read off a status line. */
  function StatusOf(line: string): int { GetStatus(CString(Taken(line))) }

  /** The header lines of a reply, up to but not including the blank line. */
  function KeptHead(status: string, headers: seq<string>): string { CString(Taken(status)) + KeptAll(headers) }

  function SpilledHead(status: string, headers: seq<string>): string { Spilled(status) + SpilledAll(headers) }

  /** What the header lines make of the writer. */
  ghost predicate Gathered(rq: Request, connected: bool, v: Writer, status: string, headers: seq<string>) {
    && Collecting(v) && v.connected == connected && v.status == StatusOf(status)
    && DoIt(v.headerBuf) == KeptHead(status, headers)
    && v.file == SpilledHead(status, headers)
    && v.output == (if connected then SpilledHead(status, headers) else "")
    && v.expires == TimeIn(rq, headers, EXPIRES)
    && v.lastModified == TimeIn(rq, headers, LAST_MODIFIED)
    && v.contentLength == AnnouncedLength(headers)
  }

  /** The head of a reply that is looked at to its end. */
  predicate GoodHead(rq: Request, status: string, headers: seq<string>) {
    && IsLine(status) && Judged(rq, StatusOf(status))
    && forall h :: h in headers ==> IsHeader(h) && !ExpiresAtOnce(rq, CString(Taken(h)))
  }

  /** The state of the writer when all header lines are in. */
  function AtBlank(rq: Request, connected: bool, status: string, headers: seq<string>): Writer {
    PutAll(rq, Initial.(connected := connected), status + Concat(headers))
  }

  lemma StatusLoadIsKept(rq: Request, w: Writer, s: string, ch: char)
    requires w.mode.StatusLine? && Judged(rq, GetStatus(CString(s)))
    ensures EndOfLoad(rq, w.(buf := s), ch) ==
      w.(mode := if ch == LF then Headers else Skip, status := GetStatus(CString(s)),
         headerBuf := [CString(s)] + w.headerBuf, buf := "")
  {
    hide GetStatus, CString;
  }

  lemma StatusLineIsCollected(rq: Request, connected: bool, status: string)
    requires IsLine(status) && Judged(rq, StatusOf(status))
    ensures Gathered(rq, connected, PutAll(rq, Initial.(connected := connected), status), status, [])
  {
    hide EndOfLoad, Put, GetStatus, CString, IsLine;
    var w, s := Initial.(connected := connected), Taken(status);
    LineInParts(rq, w, status);
    StatusLoadIsKept(rq, w, s, s[|s| - 1]);
    DoItAppend(CString(s), []);
    if |status| <= BUF_SIZE {
      assert Spilled(status) == "";
    } else {
      SpillIsPassed(rq, EndOfLoad(rq, w.(buf := s), s[|s| - 1]), Spilled(status));
    }
  }

  lemma HeadersAppend(headers: seq<string>, line: string)
    ensures KeptAll(headers + [line]) == KeptAll(headers) + Kept(line)
    ensures SpilledAll(headers + [line]) == SpilledAll(headers) + Spilled(line)
    ensures forall name ::
      LastValue(headers + [line], name) == ValueOr(CString(Taken(line)), name, LastValue(headers, name))
  {
    assert (headers + [line])[..|headers|] == headers;
  }

  lemma GatherOneMore(rq: Request, connected: bool, u: Writer, v: Writer, status: string, headers: seq<string>,
                      line: string)
    requires Gathered(rq, connected, u, status, headers)
    requires Collected(u, v, Kept(line), Spilled(line))
    requires var s := CString(Taken(line));
      && v.status == u.status
      && v.expires == (if IsExpires(s) then rq.parseTime(s[8..]) else u.expires)
      && v.lastModified == (if StartsWithNoCase(s, LAST_MODIFIED) then rq.parseTime(s[14..]) else u.lastModified)
      && v.contentLength == if StartsWithNoCase(s, CONTENT_LENGTH) then Atoi(s[15..]) else u.contentLength
    ensures Gathered(rq, connected, v, status, headers + [line])
  {
    HeadersAppend(headers, line);
    hide Kept, Spilled, CString, Taken, KeptAll, SpilledAll, LastValue, GetStatus, StartsWithNoCase, Atoi;
    Reassociate(CString(Taken(status)), KeptAll(headers), Kept(line));
    Reassociate(Spilled(status), SpilledAll(headers), Spilled(line));
  }

  lemma Reassociate(a: string, b: string, c: string)
    ensures a + b + c == a + (b + c)
  {
  }

  lemma {:induction false} HeadIsCollected(rq: Request, connected: bool, status: string, headers: seq<string>)
    requires GoodHead(rq, status, headers)
    ensures Gathered(rq, connected, AtBlank(rq, connected, status, headers), status, headers)
    decreases |headers|
  {
    hide Put, Gathered, Taken, CString, ExpiresAtOnce, GetStatus;
    var w := Initial.(connected := connected);
    if headers == [] {
      assert status + Concat(headers) == status;
      StatusLineIsCollected(rq, connected, status);
    } else {
      var n := |headers| - 1;
      var init, line := headers[..n], headers[n];
      assert headers == init + [line];
      assert line in headers;
      HeadIsCollected(rq, connected, status, init);
      ConcatAppend(init, line);
      Reassociate(status, Concat(init), line);
      PutAllAppend(rq, w, status + Concat(init), line);
      LastHeader(rq, connected, AtBlank(rq, connected, status, init), status, init, line);
    }
  }

  lemma LastHeader(rq: Request, connected: bool, u: Writer, status: string, headers: seq<string>, line: string)
    requires Gathered(rq, connected, u, status, headers)
    requires IsHeader(line) && !ExpiresAtOnce(rq, CString(Taken(line)))
    ensures Gathered(rq, connected, PutAll(rq, u, line), status, headers + [line])
  {
    hide Put, ExpiresAtOnce, Taken, CString, KeptHead, SpilledHead, TimeIn, AnnouncedLength, StatusOf, Kept, Spilled;
    HeaderIsCollected(rq, u, line);
    GatherOneMore(rq, connected, u, PutAll(rq, u, line), status, headers, line);
  }

  // ---- What comes out ----

  /** The blank line, or as much of it as fills the buffer. */
  predicate EndsHeaders(blank: string) { IsLoad(blank) && IsBlank(blank) }

  /** The writer after a whole reply. */
  function Reply(rq: Request, connected: bool, status: string, headers: seq<string>, blank: string,
                 body: string): Writer
  {
    PutAll(rq, Initial.(connected := connected), status + Concat(headers) + blank + body)
  }

  lemma ReplyInParts(rq: Request, connected: bool, status: string, headers: seq<string>, blank: string, body: string)
    ensures Reply(rq, connected, status, headers, blank, body) ==
      PutAll(rq, PutAll(rq, AtBlank(rq, connected, status, headers), blank), body)
  {
    hide Put;
    var w := Initial.(connected := connected);
    PutAllAppend(rq, w, status + Concat(headers) + blank, body);
    PutAllAppend(rq, w, status + Concat(headers), blank);
  }

  /** The blank line of a status 200 sends the headers on their way. */
  lemma BlankEnds(rq: Request, v: Writer, blank: string)
    requires Collecting(v) && v.status == 200 && EndsHeaders(blank)
    ensures var w := PutAll(rq, v, blank);
      var all := DoIt(v.headerBuf) + CString(blank);
      var worth := WorthCaching(rq, v.expires, v.lastModified);
      && w.mode == (if worth then CopyBody else Junk)
      && w.contentCount == 0 && w.connected == v.connected && w.contentLength == v.contentLength
      && w.file == v.file + (if worth && rq.http1 && v.connected then all else "")
      && w.output == v.output + (if rq.http1 && v.connected then all else "")
  {
    LoadIsPut(rq, v, blank);
    DoItAppend(CString(blank), v.headerBuf);
    hide WorthCaching, CString, DoIt, PutAll, Put, LastModifiedOr;
    assert v.file + "" == v.file && v.output + "" == v.output;
  }

  /** The headers and the body, as an HTTP/1 client gets them. */
  function WholeReply(status: string, headers: seq<string>, blank: string, body: string): string {
    KeptHead(status, headers) + CString(blank) + body
  }

  /** What is copied: with the headers, or the body only. */
  function Copied(whole: bool, status: string, headers: seq<string>, blank: string, body: string): string {
    if whole then WholeReply(status, headers, blank, body) else body
  }

  /**
   A reply with status 200. If it is worth caching, the file and
   a client of HTTP/1 both get what is kept of the header lines in order (Expires rewritten), the
   blank line and exactly the body. Before all that comes what did not fit the line buffer.
   */
  lemma ReplyIsCopied(rq: Request, connected: bool, status: string, headers: seq<string>, blank: string, body: string)
    requires GoodHead(rq, status, headers) && StatusOf(status) == 200 && EndsHeaders(blank)
    ensures var w := Reply(rq, connected, status, headers, blank, body);
      var s := SpilledHead(status, headers) + Copied(rq.http1 && connected, status, headers, blank, body);
      && w.mode == (if Worth(rq, headers) then CopyBody else Junk)
      && w.contentCount == |body| && w.contentLength == AnnouncedLength(headers)
      && w.file == (if Worth(rq, headers) then s else SpilledHead(status, headers))
      && w.output == if connected then s else ""
  {
    hide Put, PutAll, StatusOf, IsLoad, IsBlank, DoIt, WorthCaching, KeptHead, SpilledHead, TimeIn, AnnouncedLength,
      CString;
    ReplyInParts(rq, connected, status, headers, blank, body);
    HeadIsCollected(rq, connected, status, headers);
    var v := AtBlank(rq, connected, status, headers);
    BlankEnds(rq, v, blank);
    BodyIsCopied(rq, PutAll(rq, v, blank), body);
    var spilled, all := SpilledHead(status, headers), KeptHead(status, headers) + CString(blank);
    Reassociate(spilled, all, body);
    assert spilled + "" == spilled;
  }

  /** Cached for an HTTP/1 client: the file and the client get the same. */
  lemma CachedReply(rq: Request, status: string, headers: seq<string>, blank: string, body: string)
    requires GoodHead(rq, status, headers) && StatusOf(status) == 200 && EndsHeaders(blank)
    requires Worth(rq, headers) && rq.http1
    ensures var w := Reply(rq, true, status, headers, blank, body);
      && w.mode.CopyBody? && w.contentCount == |body|
      && w.file == w.output == SpilledHead(status, headers) + WholeReply(status, headers, blank, body)
  {
    hide Put, PutAll, StatusOf, IsLoad, IsBlank, WorthCaching, KeptHead, SpilledHead, CString;
    ReplyIsCopied(rq, true, status, headers, blank, body);
  }

  /** Not worth caching: the client gets what it would get otherwise, and the body does not reach the file. */
  lemma UncachedReply(rq: Request, connected: bool, status: string, headers: seq<string>, blank: string, body: string)
    requires GoodHead(rq, status, headers) && StatusOf(status) == 200 && EndsHeaders(blank)
    requires !Worth(rq, headers)
    ensures var w := Reply(rq, connected, status, headers, blank, body);
      var s := SpilledHead(status, headers);
      && w.mode.Junk? && w.contentCount == |body| && w.file == s
      && w.output == if !connected then ""
                     else s + Copied(rq.http1, status, headers, blank, body)
  {
    hide Put, PutAll, StatusOf, IsLoad, IsBlank, WorthCaching, KeptHead, SpilledHead, CString;
    ReplyIsCopied(rq, connected, status, headers, blank, body);
  }

  predicate IsShort(line: string) { |line| <= BUF_SIZE && '\0' !in line }

  /** Short lines without NULs are kept as they are, but for Expires, and nothing spills. */
  lemma {:induction false} ShortLinesAreKept(headers: seq<string>)
    requires forall h :: h in headers ==> IsShort(h)
    ensures SpilledAll(headers) == ""
    ensures (forall h :: h in headers ==> !IsExpires(h)) ==> KeptAll(headers) == Concat(headers)
  {
    hide IsExpires;
    if headers == [] {
    } else {
      var n := |headers| - 1;
      assert headers == headers[..n] + [headers[n]];
      ConcatAppend(headers[..n], headers[n]);
      assert headers[n] in headers;
      CStringWhole(headers[n]);
      ShortLinesAreKept(headers[..n]);
    }
  }

  /** With short lines and no Expires the client gets the reply byte for byte, and the file does if it is worth it. */
  lemma PlainReplyIsExact(rq: Request, status: string, headers: seq<string>, blank: string, body: string)
    requires GoodHead(rq, status, headers) && StatusOf(status) == 200 && EndsHeaders(blank) && rq.http1
    requires IsShort(status) && IsShort(blank) && forall h :: h in headers ==> IsShort(h) && !IsExpires(h)
    ensures var w, input := Reply(rq, true, status, headers, blank, body), status + Concat(headers) + blank + body;
      w.output == input && w.file == if Worth(rq, headers) then input else ""
  {
    hide Put, PutAll, Reply, StatusOf, IsLoad, WorthCaching, IsExpires, KeptAll, SpilledAll, CString, GoodHead;
    ReplyIsCopied(rq, true, status, headers, blank, body);
    ShortLinesAreKept(headers);
    CStringWhole(status);
    CStringWhole(blank);
    assert SpilledHead(status, headers) == "";
    assert KeptHead(status, headers) == status + Concat(headers);
    NothingInFront(status + Concat(headers) + blank + body);
  }

  lemma NothingInFront(s: string)
    ensures "" + s == s
  {
  }

  /** A conditional request answered by 304: nothing goes out, whatever follows the headers. */
  lemma NotModifiedReply(rq: Request, connected: bool, status: string, headers: seq<string>, blank: string,
                         body: string)
    requires GoodHead(rq, status, headers) && StatusOf(status) == 304 && EndsHeaders(blank)
    ensures var w, s := Reply(rq, connected, status, headers, blank, body), SpilledHead(status, headers);
      && w.mode.Updated? && w.contentCount == 0
      && w.file == s && w.output == if connected then s else ""
  {
    hide Put, StatusOf, SpilledHead, KeptHead, TimeIn, AnnouncedLength, WorthCaching, CString;
    ReplyInParts(rq, connected, status, headers, blank, body);
    HeadIsCollected(rq, connected, status, headers);
    LoadIsPut(rq, AtBlank(rq, connected, status, headers), blank);
    UpdatedIgnores(rq, PutAll(rq, AtBlank(rq, connected, status, headers), blank), body);
  }

  /** A head that does not end: all that has come so far stays in the buffer and is lost. */
  lemma UnfinishedReply(rq: Request, connected: bool, status: string, headers: seq<string>, part: string)
    requires GoodHead(rq, status, headers) && LF !in part && |part| < BUF_SIZE
    ensures var w := PutAll(rq, Initial.(connected := connected), status + Concat(headers) + part);
      var s := SpilledHead(status, headers);
      w.mode.Headers? && w.file == s && w.output == if connected then s else ""
  {
    hide Put, StatusOf, SpilledHead, KeptHead, TimeIn, AnnouncedLength;
    HeadIsCollected(rq, connected, status, headers);
    PutAllAppend(rq, Initial.(connected := connected), status + Concat(headers), part);
    LineIsCollected(rq, AtBlank(rq, connected, status, headers), part);
  }

  /** A reply that expires at once is passed on byte by byte from there, and never cached. */
  lemma ExpiredReply(rq: Request, connected: bool, status: string, headers: seq<string>, line: string, rest: string)
    requires GoodHead(rq, status, headers) && IsLoad(line) && !IsBlank(line) && ExpiresAtOnce(rq, CString(line))
    ensures var w := PutAll(rq, Initial.(connected := connected), status + Concat(headers) + line + rest);
      var s := SpilledHead(status, headers);
      && w.mode.Junk? && w.file == s
      && w.output == if connected then s + (KeptHead(status, headers) + CString(line) + rest) else ""
  {
    hide Put, PutAll, StatusOf, KeptHead, SpilledHead, TimeIn, AnnouncedLength, ExpiresAtOnce, CString, IsLoad,
      IsBlank, DoIt;
    ReplyInParts(rq, connected, status, headers, line, rest);
    HeadIsCollected(rq, connected, status, headers);
    var v := AtBlank(rq, connected, status, headers);
    ExpiresEndsHeaders(rq, v, line);
    BodyIsCopied(rq, PutAll(rq, v, line), rest);
    Reassociate(SpilledHead(status, headers), KeptHead(status, headers) + CString(line), rest);
  }

  /** A time in the past ends the collecting: what has come so far goes out. */
  lemma ExpiresEndsHeaders(rq: Request, v: Writer, line: string)
    requires Collecting(v) && IsLoad(line) && !IsBlank(line) && ExpiresAtOnce(rq, CString(line))
    ensures var w := PutAll(rq, v, line);
      && w.mode.Junk? && w.file == v.file && w.connected == v.connected
      && w.output == if v.connected then v.output + (DoIt(v.headerBuf) + CString(line)) else v.output
  {
    LoadIsPut(rq, v, line);
    DoItAppend(CString(line), v.headerBuf);
    hide ExpiresAtOnce, CString, DoIt, Put, PutAll;
  }

  // ---- Replies of another status ----

  /** As much of a reply as the status is read from. */
  function FirstLoad(s: string): string {
    var lf := IndexOf(s, LF);
    if lf < |s| && lf < BUF_SIZE then s[..lf + 1] else Taken(s)
  }

  lemma OtherStatus(rq: Request, s: string)
    requires IsLoad(s) && !Judged(rq, GetStatus(CString(s)))
    ensures var w := PutAll(rq, Initial, s);
      && w.mode == (if s[|s| - 1] == LF then Junk else Skip)
      && w.file == "" && w.contentCount == 0 && w.connected && w.output == s
  {
    LoadIsPut(rq, Initial, s);
    hide GetStatus, CString, Put, PutAll;
    assert "" + s == s;
  }

  lemma PutGrowsFile(rq: Request, w: Writer, ch: char)
    ensures |Put(rq, w, ch).file| >= |w.file|
  {
    hide CString, GetStatus, DoIt, IsExpires, StartsWithNoCase, WorthCaching, Atoi;
  }

  lemma {:induction false} FileOnlyGrows(rq: Request, w: Writer, s: string)
    ensures |PutAll(rq, w, s).file| >= |w.file|
    decreases |s|
  {
    if s == "" {
    } else {
      PutGrowsFile(rq, w, s[0]);
      hide Put;
      FileOnlyGrows(rq, Put(rq, w, s[0]), s[1..]);
    }
  }

  /** Shorter than a line and not ended: it is never sent, whatever it is. */
  lemma ShortReplyIsLost(rq: Request, connected: bool, s: string)
    requires LF !in s && |s| < BUF_SIZE
    ensures var w := PutAll(rq, Initial.(connected := connected), s);
      w.mode.StatusLine? && w.output == "" && w.file == ""
  {
    LineIsCollected(rq, Initial.(connected := connected), s);
  }

  /** From where the buffer is full, the line goes to the file, too. */
  lemma LongFirstLineReachesFile(rq: Request, s: string)
    requires |s| > BUF_SIZE && LF !in s[..BUF_SIZE] && !Judged(rq, GetStatus(CString(s[..BUF_SIZE])))
    ensures PutAll(rq, Initial, s).file != ""
  {
    hide GetStatus, CString, EndOfLoad;
    var load, ch, rest := s[..BUF_SIZE], s[BUF_SIZE], s[BUF_SIZE + 1..];
    assert s == load + ([ch] + rest);
    OtherStatus(rq, load);
    var w := PutAll(rq, Initial, load);
    PutAllAppend(rq, Initial, load, [ch] + rest);
    PutAllAppend(rq, w, [ch], rest);
    PutOne(rq, w, ch);
    FileOnlyGrows(rq, Put(rq, w, ch), rest);
  }

  lemma OtherReplyPasses(rq: Request, load: string, rest: string)
    requires IsLoad(load) && load[|load| - 1] == LF && !Judged(rq, GetStatus(CString(load)))
    ensures var w := PutAll(rq, Initial, load + rest);
      w.mode.Junk? && w.contentCount == |rest| && w.output == load + rest && w.file == ""
  {
    hide GetStatus, CString, Put;
    OtherStatus(rq, load);
    PutAllAppend(rq, Initial, load, rest);
    BodyIsCopied(rq, PutAll(rq, Initial, load), rest);
  }

  /**
   Any other status: the client gets the exact upstream bytes and the file gets nothing, if and
   only if the first line ends within the buffer or the reply just fills it.
   */
  lemma OtherReply(rq: Request, s: string)
    requires s != "" && !Judged(rq, GetStatus(CString(FirstLoad(s))))
    ensures var w := PutAll(rq, Initial, s);
      (w.output == s && w.file == "") <==> LF in Taken(s) || |s| == BUF_SIZE
  {
    hide GetStatus, CString, Put;
    var lf, load := IndexOf(s, LF), FirstLoad(s);
    if lf < |s| && lf < BUF_SIZE {
      assert Taken(s)[lf] == LF;
      assert load[..|load| - 1] == s[..lf];
      assert s == load + s[lf + 1..];
      OtherReplyPasses(rq, load, s[lf + 1..]);
    } else if |s| < BUF_SIZE {
      assert s[..lf] == s;
      ShortReplyIsLost(rq, true, s);
    } else {
      assert forall i :: 0 <= i < BUF_SIZE ==> s[i] == s[..lf][i];
      if |s| == BUF_SIZE {
        assert s[..BUF_SIZE] == s;
        OtherStatus(rq, s);
      } else {
        LongFirstLineReachesFile(rq, s);
      }
    }
  }

  // ---- What becomes of the file ----

  /** What cache_free does with the lock file. */
  function Outcome(w: Writer): CacheProtocol.Ending {
    if w.mode.CopyBody? && !(w.contentLength > 0 && w.contentCount != w.contentLength) then
      CacheProtocol.Complete
    else if w.mode.Updated? then
      CacheProtocol.NotModified
    else
      CacheProtocol.Abandoned
  }

  /** The file is moved into place if it is worth caching and has the length the server announced, if it did. */
  lemma CommittedBodyIsWhole(rq: Request, connected: bool, status: string, headers: seq<string>, blank: string,
                             body: string)
    requires GoodHead(rq, status, headers) && StatusOf(status) == 200 && EndsHeaders(blank)
    ensures Outcome(Reply(rq, connected, status, headers, blank, body)).Complete? <==>
      Worth(rq, headers) && (AnnouncedLength(headers) <= 0 || AnnouncedLength(headers) == |body|)
  {
    hide Put, PutAll, StatusOf, IsLoad, IsBlank, WorthCaching, KeptHead, SpilledHead, CString, AnnouncedLength;
    ReplyIsCopied(rq, connected, status, headers, blank, body);
  }

  // ---- When the client leaves ----

  predicate InHead(m: Mode) { m.StatusLine? || m.Headers? || m.Skip? }

  lemma {:induction false} HeadIsLeftForGood(rq: Request, w: Writer, s: string)
    requires !InHead(w.mode)
    ensures PutAll(rq, w, s).mode == w.mode
    decreases |s|
  {
    hide EndOfLoad;
    if s == "" {
    } else {
      HeadIsLeftForGood(rq, Put(rq, w, s[0]), s[1..]);
    }
  }

  /** Without a client what has been sent to it no longer matters. */
  lemma {:induction false} OutputIsIgnored(rq: Request, w: Writer, s: string, o: string)
    requires !w.connected
    ensures PutAll(rq, w.(output := o), s) == PutAll(rq, w, s).(output := o)
    decreases |s|
  {
    if s == "" {
    } else {
      PutIgnoresOutput(rq, w, s[0], o);
      StaysAway(rq, w, [s[0]]);
      PutOne(rq, w, s[0]);
      hide Put;
      OutputIsIgnored(rq, Put(rq, w, s[0]), s[1..], o);
    }
  }

  function With(w: Writer, connected: bool, output: string): Writer { w.(connected := connected, output := output) }

  lemma ExpiryIgnoresClient(rq: Request, w: Writer, c: bool, o: string)
    ensures FigureOutExpires(rq, With(w, c, o)) == With(FigureOutExpires(rq, w), c, o)
  {
  }

  lemma HeaderReadIgnoresClient(rq: Request, w: Writer, line: string, c: bool, o: string)
    ensures HeaderRead(rq, With(w, c, o), line) == With(HeaderRead(rq, w, line), c, o)
  {
    hide IsExpires, StartsWithNoCase, Atoi;
  }

  lemma EndOfHeadersIgnoresOutput(rq: Request, w: Writer, o: string)
    requires !w.connected
    ensures EndOfHeaders(rq, w.(output := o)) == EndOfHeaders(rq, w).(output := o)
  {
    ExpiryIgnoresClient(rq, w, false, o);
    assert With(w, false, o) == w.(output := o);
    hide FigureOutExpires, CString, DoIt;
  }

  lemma EndOfHeaderIgnoresOutput(rq: Request, w: Writer, ch: char, o: string)
    requires !w.connected
    ensures EndOfHeader(rq, w.(output := o), ch) == EndOfHeader(rq, w, ch).(output := o)
  {
    HeaderReadIgnoresClient(rq, w, CString(w.buf), false, o);
    assert With(w, false, o) == w.(output := o);
    hide HeaderRead, CString, DoIt, StartsWithNoCase;
  }

  lemma EndOfStatusLineIgnoresOutput(rq: Request, w: Writer, ch: char, o: string)
    requires !w.connected
    ensures EndOfStatusLine(rq, w.(output := o), ch) == EndOfStatusLine(rq, w, ch).(output := o)
  {
    hide CString, GetStatus;
  }

  lemma EndOfLoadIgnoresOutput(rq: Request, w: Writer, ch: char, o: string)
    requires !w.connected
    ensures EndOfLoad(rq, w.(output := o), ch) == EndOfLoad(rq, w, ch).(output := o)
  {
    EndOfStatusLineIgnoresOutput(rq, w, ch, o);
    EndOfHeadersIgnoresOutput(rq, w, o);
    EndOfHeaderIgnoresOutput(rq, w, ch, o);
    hide EndOfStatusLine, EndOfHeaders, EndOfHeader;
  }

  lemma PutIgnoresOutput(rq: Request, w: Writer, ch: char, o: string)
    requires !w.connected
    ensures Put(rq, w.(output := o), ch) == Put(rq, w, ch).(output := o)
  {
    EndOfLoadIgnoresOutput(rq, w.(buf := w.buf + [ch]), ch, o);
    hide EndOfLoad;
  }

  lemma EndOfHeaderIsQuiet(rq: Request, w: Writer, ch: char)
    requires InHead(EndOfHeader(rq, w, ch).mode)
    ensures EndOfHeader(rq, Left(w), ch) == Left(EndOfHeader(rq, w, ch)).(output := w.output)
  {
    HeaderReadIgnoresClient(rq, w, CString(w.buf), false, w.output);
    assert With(w, false, w.output) == Left(w);
    assert HeaderRead(rq, w, CString(w.buf)).output == w.output;
    hide HeaderRead, CString, DoIt, StartsWithNoCase;
  }

  lemma QuietPut(rq: Request, w: Writer, ch: char)
    requires InHead(Put(rq, w, ch).mode)
    ensures Put(rq, Left(w), ch) == Left(Put(rq, w, ch)).(output := w.output)
  {
    var v := w.(buf := w.buf + [ch]);
    if w.mode.Headers? && !IsBlank(v.buf) && InHead(EndOfHeader(rq, v, ch).mode) {
      EndOfHeaderIsQuiet(rq, v, ch);
    }
    if w.mode.Headers? && IsBlank(v.buf) {
      hide CString, DoIt, FigureOutExpires, WorthCaching;
      assert InHead(EndOfHeaders(rq, v).mode) ==> EndOfHeaders(rq, v) == v && EndOfHeaders(rq, Left(v)) == Left(v);
    }
    hide EndOfHeaders, EndOfHeader, CString, GetStatus;
  }

  /** As long as the head lasts, all that depends on the client is what is sent to it. */
  lemma {:induction false} HeadDoesNotNeedClient(rq: Request, w: Writer, s: string)
    requires InHead(PutAll(rq, w, s).mode)
    ensures PutAll(rq, Left(w), s) == Left(PutAll(rq, w, s)).(output := w.output)
    decreases |s|
  {
    hide Put;
    if s == "" {
    } else {
      var v, rest := Put(rq, w, s[0]), s[1..];
      if InHead(v.mode) {
        QuietPut(rq, w, s[0]);
        HeadDoesNotNeedClient(rq, v, rest);
        OutputIsIgnored(rq, Left(v), rest, w.output);
      } else {
        HeadIsLeftForGood(rq, v, rest);
      }
    }
  }

  lemma HeadLasts(rq: Request, status: string, headers: seq<string>, blank: string, k: nat)
    requires GoodHead(rq, status, headers) && EndsHeaders(blank)
    requires k < |status + Concat(headers) + blank|
    ensures InHead(PutAll(rq, Initial, (status + Concat(headers) + blank)[..k]).mode)
  {
    hide Put, Gathered, GoodHead;
    var head, part := status + Concat(headers) + blank, blank[..|blank| - 1];
    var most := status + Concat(headers) + part;
    UnfinishedReply(rq, true, status, headers, part);
    assert most == head[..k] + most[k..];
    PutAllAppend(rq, Initial, head[..k], most[k..]);
    var w := PutAll(rq, Initial, head[..k]);
    if !InHead(w.mode) {
      HeadIsLeftForGood(rq, w, most[k..]);
    }
  }

  /** The client leaves before the head has ended: as if it had never been there, but for what it has got. */
  lemma LeavingEarly(rq: Request, status: string, headers: seq<string>, blank: string, body: string, k: nat)
    requires GoodHead(rq, status, headers) && EndsHeaders(blank)
    requires k < |status + Concat(headers) + blank|
    ensures var input := status + Concat(headers) + blank + body;
      var v := PutAll(rq, Initial, input[..k]);
      PutAll(rq, Left(v), input[k..]) == Reply(rq, false, status, headers, blank, body).(output := v.output)
  {
    hide Put, GoodHead, EndsHeaders;
    var head, input := status + Concat(headers) + blank, status + Concat(headers) + blank + body;
    assert input[..k] == head[..k];
    assert input == input[..k] + input[k..];
    HeadLasts(rq, status, headers, blank, k);
    HeadDoesNotNeedClient(rq, Initial, input[..k]);
    var v := PutAll(rq, Initial, input[..k]);
    var u := PutAll(rq, Left(Initial), input[..k]);
    StaysAway(rq, Left(Initial), input[..k]);
    OutputIsIgnored(rq, u, input[k..], v.output);
    PutAllAppend(rq, Left(Initial), input[..k], input[k..]);
  }

  /** The client leaves during the body: the file gets the rest all the same. */
  lemma LeavingLate(rq: Request, status: string, headers: seq<string>, blank: string, body: string, j: nat)
    requires GoodHead(rq, status, headers) && StatusOf(status) == 200 && EndsHeaders(blank) && j <= |body|
    ensures var v := Reply(rq, true, status, headers, blank, body[..j]);
      var w := PutAll(rq, Left(v), body[j..]);
      var u := Reply(rq, true, status, headers, blank, body);
      && w.mode == u.mode && w.file == u.file && w.contentCount == u.contentCount
      && w.contentLength == u.contentLength && w.output == v.output
  {
    hide Put, PutAll, Reply, StatusOf, IsLoad, IsBlank, Worth, SpilledHead, Copied, AnnouncedLength, GoodHead;
    ReplyIsCopied(rq, true, status, headers, blank, body[..j]);
    ReplyIsCopied(rq, true, status, headers, blank, body);
    var v := Reply(rq, true, status, headers, blank, body[..j]);
    BodyIsCopied(rq, Left(v), body[j..]);
    assert body[..j] + body[j..] == body;
    CopiedAppend(rq.http1, status, headers, blank, body[..j], body[j..]);
  }

  lemma CopiedAppend(whole: bool, status: string, headers: seq<string>, blank: string, a: string, b: string)
    ensures var s := SpilledHead(status, headers);
      s + Copied(whole, status, headers, blank, a) + b == s + Copied(whole, status, headers, blank, a + b)
  {
    hide KeptHead, SpilledHead, CString;
    Regroup(SpilledHead(status, headers), KeptHead(status, headers) + CString(blank), a, b);
  }

  lemma Regroup(a: string, b: string, c: string, d: string)
    ensures a + (b + c) + d == a + (b + (c + d)) && a + c + d == a + (c + d)
  {
    Reassociate(a, b + c, d);
    Reassociate(b, c, d);
    Reassociate(a, c, d);
  }

  /**
   A reply worth caching whose client leaves after k bytes. The outcome is the same, but the
   header lines are in the file if and only if the client speaks HTTP/1 and leaves behind
   the end of the headers.
   */
  lemma LeavingLosesHeaders(rq: Request, status: string, headers: seq<string>, blank: string, body: string, k: nat)
    requires GoodHead(rq, status, headers) && StatusOf(status) == 200 && EndsHeaders(blank) && Worth(rq, headers)
    requires k <= |status + Concat(headers) + blank + body|
    ensures var input := status + Concat(headers) + blank + body;
      var w := PutAll(rq, Left(PutAll(rq, Initial, input[..k])), input[k..]);
      var late := k >= |status + Concat(headers) + blank|;
      && Outcome(w) == Outcome(Reply(rq, true, status, headers, blank, body))
      && w.file == SpilledHead(status, headers) + Copied(rq.http1 && late, status, headers, blank, body)
  {
    hide Put, PutAll, StatusOf, IsLoad, IsBlank, Worth, KeptHead, SpilledHead, CString, AnnouncedLength, GoodHead;
    var head := status + Concat(headers) + blank;
    var input := head + body;
    ReplyIsCopied(rq, true, status, headers, blank, body);
    if k < |head| {
      LeavingEarly(rq, status, headers, blank, body, k);
      ReplyIsCopied(rq, false, status, headers, blank, body);
    } else {
      var j := k - |head|;
      assert input[..k] == head + body[..j] && input[k..] == body[j..];
      LeavingLate(rq, status, headers, blank, body, j);
    }
  }

  // ---- When the buffer is too small ----

  /** There is room for one more byte and the NUL behind it. */
  predicate Room(w: Writer) { w.mode.StatusLine? || w.mode.Headers? ==> |w.buf| <= BUF_SIZE }

  /** There is room whenever a byte comes. */
  predicate Fits(rq: Request, w: Writer, s: string)
    decreases |s|
  {
    s == "" || (Room(w) && Fits(rq, Put(rq, w, s[0]), s[1..]))
  }

  /** A status for which the end of the headers does something. */
  predicate EndsSomehow(status: int) { status == 200 || status == 304 }

  /** Behind the first line every line is cleared. */
  predicate IsCleared(w: Writer) {
    !w.mode.StatusLine? && (w.mode.Headers? || w.mode.Skip? ==> |w.buf| < BUF_SIZE && EndsSomehow(w.status))
  }

  /** What the room in the buffer depends on. */
  predicate SameLine(w: Writer, v: Writer) {
    && w.mode == v.mode && w.status == v.status && w.buf == v.buf
    && w.expires == v.expires && w.lastModified == v.lastModified
  }

  lemma FlushedLine(w: Writer)
    ensures SameLine(Flushed(w), w)
  {
  }

  lemma EndStaysCleared(rq: Request, w: Writer)
    requires w.mode.Headers? && EndsSomehow(w.status)
    ensures IsCleared(EndOfHeaders(rq, w))
  {
    hide CString, DoIt, WorthCaching, Flushed;
    forall x: Writer ensures SameLine(Flushed(x), x) { FlushedLine(x); }
  }

  lemma HeaderStaysCleared(rq: Request, w: Writer, ch: char)
    requires w.mode.Headers? && EndsSomehow(w.status)
    ensures IsCleared(EndOfHeader(rq, w, ch))
  {
    hide CString, IsExpires, StartsWithNoCase, Atoi, ExpiresAtOnce, Flushed;
    forall x: Writer ensures SameLine(Flushed(x), x) { FlushedLine(x); }
  }

  lemma StaysCleared(rq: Request, w: Writer, ch: char)
    requires IsCleared(w)
    ensures IsCleared(Put(rq, w, ch))
  {
    hide EndOfHeader, EndOfHeaders;
    if w.mode.Headers? {
      EndStaysCleared(rq, w.(buf := w.buf + [ch]));
      HeaderStaysCleared(rq, w.(buf := w.buf + [ch]), ch);
    }
  }

  lemma {:induction false} ClearedFits(rq: Request, w: Writer, s: string)
    requires IsCleared(w)
    ensures Fits(rq, w, s)
    decreases |s|
  {
    if s == "" {
    } else {
      StaysCleared(rq, w, s[0]);
      hide Put;
      ClearedFits(rq, Put(rq, w, s[0]), s[1..]);
    }
  }

  /** A blank line, at the end of the headers, that is not cleared; nor is anything behind it. */
  lemma {:induction false} StuckFitsIff(rq: Request, w: Writer, s: string)
    requires w.mode.Headers? && !EndsSomehow(w.status) && IsBlank(w.buf) && |w.buf| <= BUF_SIZE + 1
    ensures Fits(rq, w, s) <==> |w.buf| + |s| <= BUF_SIZE + 1
    decreases |s|
  {
    if s == "" {
    } else {
      var v := w.(buf := w.buf + [s[0]]);
      assert Put(rq, w, s[0]) == v;
      hide Put;
      if |w.buf| <= BUF_SIZE {
        StuckFitsIff(rq, v, s[1..]);
      }
    }
  }

  /** The text behind the first line end. */
  function BehindLine(s: string): (t: string)
    ensures |t| < |s| || s == t == ""
  {
    if s == "" then "" else if s[0] == LF then s[1..] else BehindLine(s[1..])
  }

  lemma {:induction false} BehindLineOf(line: string, s: string)
    requires LF !in line
    ensures BehindLine(line + s) == BehindLine(s) && BehindLine(line) == ""
  {
    if line == "" {
      assert line + s == s;
    } else {
      assert (line + s)[1..] == line[1..] + s;
      BehindLineOf(line[1..], s);
    }
  }

  /**
   The header lines of a status that is not looked at: they fit unless there is a blank line with more
   text from there on than the buffer has room for, before any line that ends it all.
   */
  predicate LinesFit(rq: Request, t: string)
    decreases |t|
  {
    t == "" || (
      if IsBlank(t) then |t| <= BUF_SIZE + 1
      else ExpiresAtOnce(rq, CString(FirstLoad(t))) || LinesFit(rq, BehindLine(t)))
  }

  /** A line of such headers, as far as it has been collected, and what comes. */
  lemma {:induction false} LinesFitIff(rq: Request, w: Writer, s: string)
    requires (w.mode.Headers? || w.mode.Skip?) && !EndsSomehow(w.status)
    requires LF !in w.buf && |w.buf| < BUF_SIZE && !IsBlank(w.buf) && (w.mode.Skip? ==> w.buf == "")
    ensures Fits(rq, w, s) <==> LinesFit(rq, if w.mode.Skip? then BehindLine(s) else w.buf + s)
    decreases |s|
  {
    hide ExpiresAtOnce, CString, FirstLoad, Put, Fits, LinesFit, BehindLine;
    if s == "" {
      NothingFits(rq, w);
    } else {
      var ch, rest := s[0], s[1..];
      var v, line := Put(rq, w, ch), w.buf + [ch];
      FitsStep(rq, w, s);
      SkipOne(rq, w, ch);
      assert w.buf + s == line + rest && "" + rest == rest && "" + ([ch] + rest) == s;
      BehindLoad("", ch, rest);
      if w.mode.Skip? {
        LinesFitIff(rq, v, rest);
      } else {
        HeaderByte(rq, w, ch);
        if IsBlank(line) {
          StuckFitsIff(rq, v, rest);
          BlankLineFits(rq, line + rest);
        } else if ch != LF && |line| < BUF_SIZE {
          LinesFitIff(rq, v, rest);
        } else {
          HeaderLineFits(rq, w.buf, ch, rest);
          if ExpiresAtOnce(rq, CString(line)) {
            ClearedFits(rq, v, rest);
          } else {
            LinesFitIff(rq, v, rest);
          }
        }
      }
    }
  }

  lemma NothingFits(rq: Request, w: Writer)
    requires LF !in w.buf && !IsBlank(w.buf)
    ensures Fits(rq, w, "") && LinesFit(rq, BehindLine("")) && LinesFit(rq, w.buf + "")
  {
    BehindLineOf(w.buf, "");
    assert w.buf + "" == w.buf;
  }

  lemma FitsStep(rq: Request, w: Writer, s: string)
    requires s != "" && Room(w)
    ensures Fits(rq, w, s) <==> Fits(rq, Put(rq, w, s[0]), s[1..])
  {
  }

  lemma BlankLineFits(rq: Request, t: string)
    requires IsBlank(t)
    ensures LinesFit(rq, t) <==> |t| <= BUF_SIZE + 1
  {
  }

  /** A header line that has ended or fills the buffer. */
  lemma HeaderLineFits(rq: Request, line: string, ch: char, rest: string)
    requires LF !in line && |line| < BUF_SIZE && !IsBlank(line + [ch]) && (ch == LF || |line| + 1 == BUF_SIZE)
    ensures LinesFit(rq, line + [ch] + rest) <==>
      ExpiresAtOnce(rq, CString(line + [ch])) || LinesFit(rq, if ch == LF then rest else BehindLine(rest))
  {
    var t := line + [ch] + rest;
    assert t == line + ([ch] + rest) && t[0] == (line + [ch])[0];
    FirstLoadOf(line, ch, rest);
    BehindLoad(line, ch, rest);
    hide ExpiresAtOnce, CString, FirstLoad, BehindLine;
  }

  /** Behind a load that ends with or without its line. */
  lemma BehindLoad(line: string, ch: char, rest: string)
    requires LF !in line
    ensures BehindLine(line + ([ch] + rest)) == if ch == LF then rest else BehindLine(rest)
  {
    BehindLineOf(line, [ch] + rest);
    assert ([ch] + rest)[1..] == rest;
  }

  /** One byte of a header line of a status that is not looked at. */
  lemma HeaderByte(rq: Request, w: Writer, ch: char)
    requires w.mode.Headers? && !EndsSomehow(w.status) && |w.buf| < BUF_SIZE && !IsBlank(w.buf)
    ensures var v, line := Put(rq, w, ch), w.buf + [ch];
      if IsBlank(line) || (ch != LF && |line| < BUF_SIZE) then v == w.(buf := line)
      else if ExpiresAtOnce(rq, CString(line)) then v.mode.Junk?
      else v.mode == (if ch == LF then Headers else Skip) && v.buf == "" && v.status == w.status
  {
    hide CString, DoIt, IsExpires, StartsWithNoCase, WorthCaching, Atoi, ExpiresAtOnce;
  }

  lemma SkipOne(rq: Request, w: Writer, ch: char)
    ensures w.mode.Skip? ==>
      var v := Put(rq, w, ch);
      v.mode == (if ch == LF then Headers else Skip) && v.buf == w.buf && v.status == w.status
  {
  }

  /**
   Is the end of the first line in sight, or its status one for which the headers end somehow, or do
   the lines behind it fit?
   */
  predicate FirstLineFits(rq: Request, s: string) {
    LF in FirstLoad(s) || EndsSomehow(GetStatus(CString(FirstLoad(s)))) || LinesFit(rq, BehindLine(s))
  }

  lemma FirstLoadOf(line: string, ch: char, rest: string)
    requires LF !in line && |line| < BUF_SIZE && (ch == LF || |line| + 1 == BUF_SIZE)
    ensures FirstLoad(line + ([ch] + rest)) == line + [ch]
  {
    var s := line + ([ch] + rest);
    if ch == LF {
      IndexOfFirst(line, LF, rest);
      assert s == line + [LF] + rest;
      assert s[..|line| + 1] == line + [ch];
    } else {
      var lf := IndexOf(s, LF);
      assert s[..|line|] == line;
      assert s[..BUF_SIZE] == line + [ch];
    }
  }

  lemma StatusByte(rq: Request, w: Writer, ch: char)
    requires w.mode.StatusLine? && |w.buf| < BUF_SIZE
    ensures var v, line := Put(rq, w, ch), w.buf + [ch];
      if ch != LF && |line| < BUF_SIZE then v == w.(buf := line)
      else if ch == LF || EndsSomehow(GetStatus(CString(line))) then IsCleared(v)
      else v.mode.Skip? && v.buf == "" && !EndsSomehow(v.status)
  {
    hide CString, GetStatus;
  }

  /** Exactly when the buffer suffices for all that comes. */
  lemma {:induction false} FitsIff(rq: Request, w: Writer, s: string)
    requires w.mode.StatusLine? && LF !in w.buf && |w.buf| < BUF_SIZE
    ensures Fits(rq, w, s) <==> FirstLineFits(rq, w.buf + s)
    decreases |s|
  {
    hide GetStatus, CString, FirstLoad, LinesFit, Put;
    if s == "" {
      BehindLineOf(w.buf, s);
      assert w.buf + s == w.buf;
      assert LinesFit(rq, "") by { NoLinesFit(rq); }
    } else {
      var ch, rest := s[0], s[1..];
      var v, line := Put(rq, w, ch), w.buf + [ch];
      assert w.buf + s == line + rest && w.buf + s == w.buf + ([ch] + rest);
      StatusByte(rq, w, ch);
      if ch != LF && |line| < BUF_SIZE {
        FitsIff(rq, v, rest);
      } else {
        FirstLoadOf(w.buf, ch, rest);
        if ch == LF || EndsSomehow(GetStatus(CString(line))) {
          ClearedFits(rq, v, rest);
        } else {
          LinesFitIff(rq, v, rest);
          BehindLoad(w.buf, ch, rest);
        }
      }
    }
  }

  lemma NoLinesFit(rq: Request)
    ensures LinesFit(rq, "")
  {
  }

  lemma {:induction false} FitsAppend(rq: Request, w: Writer, a: string, b: string)
    requires Fits(rq, w, a + b)
    ensures Fits(rq, w, a) && Fits(rq, PutAll(rq, w, a), b)
    decreases |a|
  {
    hide Put;
    if a == "" {
      assert a + b == b;
    } else {
      assert (a + b)[1..] == a[1..] + b;
      FitsAppend(rq, Put(rq, w, a[0]), a[1..], b);
    }
  }

  lemma SameHeader(rq: Request, w: Writer, v: Writer, ch: char)
    requires SameLine(w, v)
    ensures SameLine(EndOfHeader(rq, w, ch), EndOfHeader(rq, v, ch))
  {
    var line := CString(w.buf);
    hide CString, DoIt, IsExpires, StartsWithNoCase, Atoi, ExpiresAtOnce;
    assert SameLine(HeaderRead(rq, w, line), HeaderRead(rq, v, line));
    hide HeaderRead;
  }

  lemma StaySame(rq: Request, w: Writer, v: Writer, ch: char)
    requires SameLine(w, v)
    ensures SameLine(Put(rq, w, ch), Put(rq, v, ch))
  {
    hide EndOfHeader, EndOfHeaders, EndOfStatusLine;
    var line := w.buf + [ch];
    if w.mode.Headers? {
      SameHeader(rq, w.(buf := line), v.(buf := line), ch);
      SameEnd(rq, w.(buf := line), v.(buf := line));
    } else if w.mode.StatusLine? {
      SameStatusLine(rq, w.(buf := line), v.(buf := line), ch);
    }
  }

  lemma SameEnd(rq: Request, w: Writer, v: Writer)
    requires SameLine(w, v)
    ensures SameLine(EndOfHeaders(rq, w), EndOfHeaders(rq, v))
  {
    hide CString, DoIt, Flushed;
    forall x: Writer ensures SameLine(Flushed(x), x) { FlushedLine(x); }
  }

  lemma SameStatusLine(rq: Request, w: Writer, v: Writer, ch: char)
    requires SameLine(w, v)
    ensures SameLine(EndOfStatusLine(rq, w, ch), EndOfStatusLine(rq, v, ch))
  {
    hide CString, GetStatus;
  }

  lemma {:induction false} SameFits(rq: Request, w: Writer, v: Writer, s: string)
    requires SameLine(w, v) && Fits(rq, w, s)
    ensures Fits(rq, v, s)
    decreases |s|
  {
    if s == "" {
    } else {
      StaySame(rq, w, v, s[0]);
      hide Put;
      SameFits(rq, Put(rq, w, s[0]), Put(rq, v, s[0]), s[1..]);
    }
  }

  lemma CallFits(rq: Request, w: Writer, c: Call, more: seq<Call>)
    requires Fits(rq, w, Bytes([c] + more))
    ensures Fits(rq, w, Bytes([c])) && Fits(rq, AfterCall(rq, w, c), Bytes(more))
  {
    hide Put, Fits;
    assert ([c] + more)[1..] == more && [c][1..] == [];
    var data := match c case Char(ch) => [ch] case Block(data, _) => data;
    assert Bytes([c]) == data;
    FitsAppend(rq, w, data, Bytes(more));
    match c
    case Char(ch) => PutOne(rq, w, ch);
    case Block(_, sigpipe) =>
      if sigpipe {
        SameFits(rq, w, Left(w), data + Bytes(more));
        FitsAppend(rq, Left(w), data, Bytes(more));
      }
  }

  lemma PlaceholderHasNoNul()
    ensures '\0' !in EXPIRES_LINE
  {
  }

  lemma {:induction false} LinesHaveNoNul(list: seq<string>)
    requires forall line :: line in list ==> '\0' !in line
    ensures '\0' !in DoIt(list)
  {
    if list == [] {
    } else {
      LinesHaveNoNul(list[1..]);
    }
  }

  /** The recursion to the oldest line, which comes first; each is copied behind those before it. */
  method Fill(buffer: array<char>, list: seq<string>) returns (myPlace: nat)
    requires |DoIt(list)| < buffer.Length && buffer[0] == '\0'
    modifies buffer
    ensures myPlace == |DoIt(list)| && buffer[..myPlace] == DoIt(list) && buffer[myPlace] == '\0'
    decreases |list|
  {
    if |list| == 0 {
      return 0;
    }
    myPlace := Fill(buffer, list[1..]);
    ghost var before := buffer[..myPlace];
    forall i | 0 <= i < |list[0]| {
      buffer[myPlace + i] := list[0][i];
    }
    buffer[myPlace + |list[0]|] := '\0';
    assert buffer[..myPlace] == before;
    ghost var copied := buffer[myPlace..myPlace + |list[0]|];
    assert forall i :: 0 <= i < |list[0]| ==> buffer[myPlace + i] == list[0][i];
    assert forall i :: 0 <= i < |list[0]| ==> copied[i] == buffer[myPlace + i];
    assert copied == list[0];
    myPlace := myPlace + |list[0]|;
  }

  class Stream {
    const rq: Request
    var mode: Mode
    var status: int
    const buf: array<char>
    var end: nat
    var headerBuf: seq<string>
    var headerBufSize: nat
    var file: string
    var output: string
    var connected: bool
    var contentCount: nat
    var expires: int
    var lastModified: int
    var contentLength: int

    constructor (rq: Request)
      ensures Valid() && fresh(buf) && this.rq == rq && View() == Initial
    {
      this.rq := rq;
      mode, status := StatusLine, 0;
      buf := new char[BUF_SIZE + 2](_ => '\0');
      end, headerBuf, headerBufSize := 0, [], 0;
      file, output, connected := "", "", true;
      contentCount, expires, lastModified, contentLength := 0, 0, 0, 0;
    }

    ghost predicate Valid()
      reads this, buf
    {
      && buf.Length == BUF_SIZE + 2 && end <= BUF_SIZE + 1 && buf[end] == '\0'
      && headerBufSize == |DoIt(headerBuf)| && forall line :: line in headerBuf ==> '\0' !in line
    }

    ghost function View(): Writer
      reads this, buf
      requires end <= buf.Length
    {
      Writer(mode, status, buf[..end], headerBuf, file, output, connected,
             contentCount, expires, lastModified, contentLength)
    }

    /** The buffer as a C string is what has been collected. */
    lemma BufferIsLine()
      requires Valid()
      ensures CString(buf[..]) == CString(buf[..end])
    {
      CStringStops(buf[..], end);
    }

    method BufAppendAndClear()
      requires Valid()
      modifies this`headerBuf, this`headerBufSize, this`end, buf
      ensures Valid() && View() == AppendAndClear(old(View()))
    {
      BufferIsLine();
      var stuff := CString(buf[..]);
      CStringHasNoNul(buf[..]);
      headerBuf := [stuff] + headerBuf;
      headerBufSize := headerBufSize + |stuff|;
      end := 0;
      buf[0] := '\0';
    }

    /** The line goes to the list in another form. */
    method BufReplace(line: string)
      requires Valid() && '\0' !in line
      modifies this`headerBuf, this`headerBufSize, this`end, buf
      ensures Valid() && View() == Append(old(View()), line)
    {
      headerBuf := [line] + headerBuf;
      headerBufSize := headerBufSize + |line|;
      end := 0;
      buf[0] := '\0';
    }

    method BufDump()
      requires Valid()
      modifies this`output
      ensures Valid() && View() == Sent(old(View()), old(View()).buf)
    {
      if connected {
        output := output + buf[..end];
      }
    }

    method BufDiscard()
      requires Valid()
      modifies this`headerBuf, this`headerBufSize
      ensures Valid() && View() == Discarded(old(View()))
    {
      headerBuf := [];
      headerBufSize := 0;
    }

    method BufFlush()
      requires Valid()
      modifies this`file, this`output, this`headerBuf, this`headerBufSize
      ensures Valid() && View() == Flushed(old(View()))
    {
      if connected {
        var buffer := new char[headerBufSize + 1];
        buffer[0] := '\0';
        var place := Fill(buffer, headerBuf);
        CStringStops(buffer[..], place);
        LinesHaveNoNul(headerBuf);
        CStringWhole(DoIt(headerBuf));
        if !mode.Junk? {
          file := file + CString(buffer[..]);
        }
        output := output + CString(buffer[..]);
      }
      BufDiscard();
    }

    method FigureOut() returns (ok: bool)
      requires Valid()
      modifies this`expires, this`lastModified
      ensures Valid() && View() == FigureOutExpires(rq, old(View()))
      ensures ok == WorthCaching(rq, old(expires), old(lastModified))
    {
      if expires == 0 {
        if lastModified == 0 && rq.ifModSince != 0 {
          lastModified := rq.ifModSince;
        }
        var ttl := rq.timeToLive(lastModified);
        if ttl > rq.margin {
          expires := rq.now + ttl;
        } else {
          return false;
        }
      }
      if lastModified == 0 {
        lastModified := rq.now;
      }
      return true;
    }

    /** The line just completed ends the headers. */
    method HeadersEnd()
      requires Valid() && mode.Headers?
      modifies this, buf
      ensures Valid() && View() == EndOfHeaders(rq, old(View()))
    {
      if status == 304 {
        var _ := FigureOut();
        mode := Updated;
        BufDiscard();
      } else if status == 200 {
        var ok := FigureOut();
        mode := if ok then CopyBody else Junk;
        BufAppendAndClear();
        if rq.http1 {
          BufFlush();
        } else {
          BufDiscard();
        }
      }
    }

    /** What a header line says that does not end it all. */
    method ReadHeader(line: string)
      requires Valid() && mode.Headers?
      modifies this, buf
      ensures Valid() && View() == HeaderRead(rq, old(View()), line)
    {
      hide CString, DoIt, LowerCase, Atoi;
      if IsExpires(line) {
        expires := rq.parseTime(line[8..]);
        PlaceholderHasNoNul();
        BufReplace(EXPIRES_LINE);
      } else if StartsWithNoCase(line, "last-modified:") {
        lastModified := rq.parseTime(line[14..]);
      } else if StartsWithNoCase(line, "content-length:") {
        contentLength := Atoi(line[15..]);
      }
    }

    method HeaderEnds(ch: char)
      requires Valid() && mode.Headers?
      modifies this, buf
      ensures Valid() && View() == EndOfHeader(rq, old(View()), ch)
    {
      hide CString, DoIt, LowerCase, HeaderRead, Atoi;
      BufferIsLine();
      var line := CString(buf[..]);
      if IsExpires(line) && rq.parseTime(line[8..]) <= rq.curTime + rq.margin {
        expires := rq.parseTime(line[8..]);
        mode := Junk;
        BufAppendAndClear();
        BufFlush();
        return;
      }
      ReadHeader(line);
      if ch != LF {
        mode := Skip;
      }
      BufAppendAndClear();
    }

    method StatusLineEnds(ch: char)
      requires Valid() && mode.StatusLine?
      modifies this, buf
      ensures Valid() && View() == EndOfStatusLine(rq, old(View()), ch)
    {
      hide CString, GetStatus, DoIt;
      BufferIsLine();
      status := GetStatus(CString(buf[..]));
      if status != 200 && (status != 304 || rq.ifModSince == 0) {
        mode := Junk;
        BufDump();
      } else {
        mode := Headers;
      }
      if ch != LF {
        mode := Skip;
      }
      BufAppendAndClear();
    }

    /** A line has ended, or fills the buffer. */
    method LoadEnds(ch: char)
      requires Valid() && end > 0 && (mode.StatusLine? || mode.Headers?)
      modifies this, buf
      ensures Valid() && View() == EndOfLoad(rq, old(View()), ch)
    {
      hide EndOfStatusLine, EndOfHeaders, EndOfHeader, CString, GetStatus;
      if mode.StatusLine? {
        StatusLineEnds(ch);
      } else if buf[0] == CR || buf[0] == LF {
        HeadersEnd();
      } else {
        HeaderEnds(ch);
      }
    }

    method PutChar(ch: char)
      requires Valid() && Room(View())
      modifies this, buf
      ensures Valid() && View() == Put(rq, old(View()), ch)
    {
      hide EndOfLoad, CString, GetStatus, DoIt;
      if mode.CopyBody? || mode.Junk? {
        contentCount := contentCount + 1;
      }
      if mode.Skip? && ch == LF {
        mode := Headers;
        file := file + [ch];
        if connected { output := output + [ch]; }
      } else if mode.Skip? || mode.CopyBody? {
        file := file + [ch];
        if connected { output := output + [ch]; }
      } else if mode.Junk? {
        if connected { output := output + [ch]; }
      } else if !mode.Updated? {
        buf[end] := ch;
        buf[end + 1] := '\0';
        end := end + 1;
        assert buf[..end] == old(buf[..end]) + [ch];
        if ch == LF || end >= BUF_SIZE {
          LoadEnds(ch);
        }
      }
    }

    /** Byte by byte up to the end of the headers. */
    method PutHead(b: string) returns (cur: nat)
      requires Valid() && Fits(rq, View(), b)
      modifies this, buf
      ensures Valid() && cur <= |b| && (cur < |b| ==> !InHead(mode))
      ensures PutAll(rq, View(), b[cur..]) == PutAll(rq, old(View()), b)
    {
      hide Put;
      cur := 0;
      assert b[0..] == b;
      while cur < |b| && !mode.CopyBody? && !mode.Updated? && !mode.Junk?
        invariant cur <= |b| && Valid()
        invariant Fits(rq, View(), b[cur..])
        invariant PutAll(rq, View(), b[cur..]) == PutAll(rq, old(View()), b)
      {
        PutChar(b[cur]);
        assert b[cur..][1..] == b[cur + 1..];
        cur := cur + 1;
      }
    }

    /** A block: byte by byte up to the end of the headers, the rest in one piece. */
    method Write(b: string, sigpipe: bool)
      requires Valid() && Fits(rq, View(), b)
      modifies this, buf
      ensures Valid() && View() == AfterCall(rq, old(View()), Block(b, sigpipe))
    {
      hide Put, Fits, Judged, DoIt;
      if sigpipe {
        SameFits(rq, View(), Left(View()), b);
        connected := false;
      }
      ghost var w := View();
      if mode.Updated? {
        UpdatedIgnores(rq, w, b);
        return;
      }
      if mode.Junk? {
        BodyIsCopied(rq, w, b);
        if connected { output := output + b; }
        contentCount := contentCount + |b|;
        return;
      }
      var cur := PutHead(b);
      var rest := b[cur..];
      if |rest| > 0 {
        if mode.Updated? {
          UpdatedIgnores(rq, View(), rest);
        } else {
          BodyIsCopied(rq, View(), rest);
          if mode.CopyBody? {
            file := file + rest;
          }
          if connected { output := output + rest; }
          contentCount := contentCount + |rest|;
        }
      }
    }

    method Perform(c: Call)
      requires Valid() && Fits(rq, View(), Bytes([c]))
      modifies this, buf
      ensures Valid() && View() == AfterCall(rq, old(View()), c)
    {
      hide Put, PutAll;
      assert [c][1..] == [];
      match c
      case Char(ch) =>
        assert Bytes([c]) == [ch];
        PutChar(ch);
      case Block(data, sigpipe) =>
        assert Bytes([c]) == data;
        Write(data, sigpipe);
    }

    /** Whatever calls the upstream side makes, in whatever order. */
    method Receive(calls: seq<Call>)
      requires Valid() && Fits(rq, View(), Bytes(calls))
      modifies this, buf
      ensures Valid() && View() == AfterCalls(rq, old(View()), calls)
      ensures ClientStays(calls) ==> View() == PutAll(rq, old(View()), Bytes(calls))
    {
      hide Put, PutAll, Fits;
      ghost var w := View();
      var i := 0;
      assert calls[0..] == calls;
      while i < |calls|
        invariant i <= |calls| && Valid()
        invariant Fits(rq, View(), Bytes(calls[i..]))
        invariant AfterCalls(rq, View(), calls[i..]) == AfterCalls(rq, w, calls)
      {
        ghost var v, c, more := View(), calls[i], calls[i + 1..];
        assert calls[i..][1..] == more && calls[i..] == [c] + more;
        CallFits(rq, v, c, more);
        Perform(calls[i]);
        i := i + 1;
      }
      if ClientStays(calls) {
        CallsAreBytes(rq, w, calls);
      }
    }
  }
}
