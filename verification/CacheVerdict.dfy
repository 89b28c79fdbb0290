/**
 Which upstream replies end up in the cache, and with which times, in terms of the text of the reply.
 */
module CacheVerdict {
  import opened Text
  import opened CacheWriter
  import CacheInfo

  // ---- The text of a line ----

  /** What is looked at of a line: the first 256 bytes, up to a NUL. */
  function Looked(line: string): string {
    var s := if |line| <= 256 then line else line[..256];
    s[..IndexOf(s, '\0')]
  }

  lemma LookedIsTaken(line: string)
    ensures CString(Taken(line)) == Looked(line)
  {
    CStringIsBeforeNul(Taken(line));
  }

  /** Does the line begin with this field name, in any case? */
  predicate Says(line: string, name: string) {
    |Looked(line)| >= |name| && Spells(Looked(line)[..|name|], name)
  }

  function Said(line: string, name: string): string
    requires Says(line, name)
  {
    Looked(line)[|name|..]
  }

  lemma SaysIsStart(line: string, name: string)
    requires IsSmall(name)
    ensures StartsWithNoCase(CString(Taken(line)), name) <==> Says(line, name)
  {
    LookedIsTaken(line);
    var s := Looked(line);
    if |s| >= |name| { SpellsIff(s[..|name|], name); }
  }

  /** Behind which field name the last line with that name says what. */
  function LastSaid(headers: seq<string>, name: string): Option<string> {
    if headers == [] then None
    else
      var line := headers[|headers| - 1];
      if Says(line, name) then Some(Said(line, name)) else LastSaid(headers[..|headers| - 1], name)
  }

  lemma {:induction false} LastSaidIsValue(headers: seq<string>, name: string)
    requires IsSmall(name)
    ensures LastValue(headers, name) == LastSaid(headers, name)
  {
    if headers == [] {
    } else {
      LastSaidIsValue(headers[..|headers| - 1], name);
      SaysIsStart(headers[|headers| - 1], name);
      LookedIsTaken(headers[|headers| - 1]);
    }
  }

  /** The time that the last of the lines gives, 0 if there is none. */
  function LastTime(rq: Request, headers: seq<string>, name: string): int {
    match LastSaid(headers, name) case None => 0 case Some(s) => rq.parseTime(s)
  }

  function LastLength(headers: seq<string>): int {
    match LastSaid(headers, "content-length:") case None => 0 case Some(s) => Atoi(s)
  }

  // ---- Numbers ----

  lemma {:induction false} SpaceIsSkipped(gap: string, s: string)
    requires (forall i :: 0 <= i < |gap| ==> IsSpace(gap[i])) && (s == "" || !IsSpace(s[0]))
    ensures SkipSpace(gap + s) == s
  {
    if gap == "" {
      assert gap + s == s;
    } else {
      assert (gap + s)[1..] == gap[1..] + s;
      SpaceIsSkipped(gap[1..], s);
    }
  }

  /** A number behind white space, up to the first character that is no digit. */
  lemma NumberIsRead(gap: string, n: nat, rest: string)
    requires (forall i :: 0 <= i < |gap| ==> IsSpace(gap[i])) && (rest == "" || !IsDigit(rest[0]))
    ensures Atoi(gap + (CacheInfo.DecimalNat(n) + rest)) == n
  {
    var s := CacheInfo.DecimalNat(n) + rest;
    FirstIsDigit(n);
    assert s[0] == CacheInfo.DecimalNat(n)[0];
    SpaceIsSkipped(gap, s);
    CacheInfo.DigitsOfDecimal(n, rest);
  }

  lemma {:induction false} FirstIsDigit(n: nat)
    ensures CacheInfo.DecimalNat(n) != "" && IsDigit(CacheInfo.DecimalNat(n)[0])
  {
    if n < 10 {
    } else {
      FirstIsDigit(n / 10);
    }
  }

  // ---- The status line ----

  lemma {:induction false} BlanksAreSkipped(gap: string, s: string)
    requires (forall i :: 0 <= i < |gap| ==> gap[i] == ' ' || gap[i] == '\t')
    requires s == "" || (s[0] != ' ' && s[0] != '\t')
    ensures CacheWriter.SkipBlanks(gap + s) == s
  {
    if gap == "" {
      assert gap + s == s;
    } else {
      assert (gap + s)[1..] == gap[1..] + s;
      BlanksAreSkipped(gap[1..], s);
    }
  }

  /** A status line with a code of three digits. */
  lemma StatusIsRead(line: string, version: string, gap: string, a: nat, b: nat, c: nat, rest: string)
    requires ' ' !in version && a < 10 && b < 10 && c < 10 && (rest == "" || !IsDigit(rest[0]))
    requires forall i :: 0 <= i < |gap| ==> gap[i] == ' ' || gap[i] == '\t'
    requires Looked(line) == "HTTP/" + version + " " +
      (gap + (['0' + a as char, '0' + b as char, '0' + c as char] + rest))
    ensures StatusOf(line) == 100 * a + 10 * b + c
  {
    var code := ['0' + a as char, '0' + b as char, '0' + c as char] + rest;
    LookedIsTaken(line);
    CodeIsRead(a, b, c, rest);
    assert code[0] == '0' + a as char;
    hide Atoi, Looked, CString, Taken;
    CodeIsFound(version, gap, code);
  }

  lemma CodeIsFound(version: string, gap: string, code: string)
    requires ' ' !in version && code != "" && code[0] != ' ' && code[0] != '\t'
    requires forall i :: 0 <= i < |gap| ==> gap[i] == ' ' || gap[i] == '\t'
    ensures GetStatus("HTTP/" + version + " " + (gap + code)) == Atoi(code)
  {
    hide Atoi, IndexOf;
    var start := "HTTP/" + version;
    var s := start + " " + (gap + code);
    IndexOfFirst(start, ' ', gap + code);
    assert s == start + [' '] + (gap + code);
    assert s[..5] == "HTTP/" && s[|start|] == ' ' && s[|start|..] == (" " + gap) + code;
    BlanksAreSkipped(" " + gap, code);
  }

  lemma CodeIsRead(a: nat, b: nat, c: nat, rest: string)
    requires a < 10 && b < 10 && c < 10 && (rest == "" || !IsDigit(rest[0]))
    ensures Atoi(['0' + a as char, '0' + b as char, '0' + c as char] + rest) == 100 * a + 10 * b + c
  {
    var s := ['0' + a as char, '0' + b as char, '0' + c as char] + rest;
    assert s[1..][0] == '0' + b as char && s[1..][1..][0] == '0' + c as char && s[1..][1..][1..] == rest;
    assert Digits(rest, 100 * a + 10 * b + c) == 100 * a + 10 * b + c;
    assert Digits(s[1..][1..], 10 * a + b) == 100 * a + 10 * b + c;
    assert Digits(s[1..], a) == 100 * a + 10 * b + c;
  }

  /** A first line of any other kind has no status. */
  lemma NoStatusIsRead(line: string)
    requires !("HTTP/" <= Looked(line)) || ' ' !in Looked(line)
    ensures StatusOf(line) == -1
  {
    LookedIsTaken(line);
    var s := Looked(line);
    assert |s| >= 5 && s[..5] == "HTTP/" ==> "HTTP/" <= s;
  }

  // ---- The verdict ----

  /** A header line: it ends with its only line end, and is not the end of the headers. */
  predicate IsHeaderLine(line: string) {
    line != "" && line[|line| - 1] == LF && LF !in line[..|line| - 1] && line[0] != CR && line[0] != LF
  }

  /** The end of the headers. */
  predicate IsHeaderEnd(blank: string) {
    0 < |blank| <= 256 && (blank[0] == CR || blank[0] == LF) && LF !in blank[..|blank| - 1] &&
    (blank[|blank| - 1] == LF || |blank| == 256)
  }

  /** The line gives a time that is past, or nearly so. */
  predicate IsPast(rq: Request, line: string) {
    Says(line, "expires:") && rq.parseTime(Said(line, "expires:")) <= rq.curTime + rq.margin
  }

  lemma PastExpiresAtOnce(rq: Request, line: string)
    ensures ExpiresAtOnce(rq, CString(Taken(line))) <==> IsPast(rq, line)
  {
    SaysIsStart(line, "expires:");
    LookedIsTaken(line);
  }

  /** Header lines none of which gives a past time. */
  predicate AreHeaders(rq: Request, headers: seq<string>) {
    forall h :: h in headers ==> IsHeaderLine(h) && !IsPast(rq, h)
  }

  lemma HeadIsGood(rq: Request, status: string, headers: seq<string>, blank: string)
    requires IsLine(status) && AreHeaders(rq, headers) && IsHeaderEnd(blank)
    requires StatusOf(status) == 200 || (StatusOf(status) == 304 && rq.ifModSince != 0)
    ensures GoodHead(rq, status, headers) && EndsHeaders(blank)
  {
    forall h | h in headers ensures IsHeader(h) && !ExpiresAtOnce(rq, CString(Taken(h))) {
      assert IsHeaderLine(h);
      PastExpiresAtOnce(rq, h);
    }
    hide StatusOf, ExpiresAtOnce, CString, Taken, IsPast;
  }

  /** The last-modified time that counts for how long the document may be kept. */
  function ModifiedTime(rq: Request, headers: seq<string>): int {
    var t := LastTime(rq, headers, "last-modified:");
    if t == 0 && rq.ifModSince != 0 then rq.ifModSince else t
  }

  /** There is a time in the headers, or else the lifetime found for it exceeds the margin. */
  predicate LivesLongEnough(rq: Request, headers: seq<string>) {
    LastTime(rq, headers, "expires:") != 0 || rq.timeToLive(ModifiedTime(rq, headers)) > rq.margin
  }

  lemma WorthInWords(rq: Request, headers: seq<string>)
    ensures Worth(rq, headers) <==> LivesLongEnough(rq, headers)
    ensures TimeIn(rq, headers, EXPIRES) == LastTime(rq, headers, "expires:")
    ensures TimeIn(rq, headers, LAST_MODIFIED) == LastTime(rq, headers, "last-modified:")
    ensures AnnouncedLength(headers) == LastLength(headers)
  {
    hide LastSaid, LastValue, Atoi;
    NamesAreSmall();
    LastSaidIsValue(headers, "expires:");
    LastSaidIsValue(headers, "last-modified:");
    LastSaidIsValue(headers, "content-length:");
  }

  lemma NamesAreSmall()
    ensures IsSmall("expires:") && IsSmall("last-modified:") && IsSmall("content-length:")
  {
  }

  /**
   A reply with status 200 is committed to the cache if and only if its last Expires line gives a time, or
   the lifetime found for its last Last-Modified time, or else for that of the request, exceeds the margin;
   and its last Content-Length, if it gives one, is the length of the body.
   */
  lemma CommittedIff(rq: Request, connected: bool, status: string, headers: seq<string>, blank: string, body: string)
    requires IsLine(status) && StatusOf(status) == 200 && AreHeaders(rq, headers) && IsHeaderEnd(blank)
    ensures var w := Reply(rq, connected, status, headers, blank, body);
      var length := LastLength(headers);
      && (Outcome(w).Complete? <==> LivesLongEnough(rq, headers) && (length <= 0 || length == |body|))
      && (!Outcome(w).Complete? ==> Outcome(w).Abandoned?)
  {
    hide StatusOf, Reply, AreHeaders, IsHeaderEnd, Worth, LivesLongEnough, LastLength, AnnouncedLength, TimeIn,
      LastTime, GoodHead, EndsHeaders, SpilledHead, Copied;
    HeadIsGood(rq, status, headers, blank);
    WorthInWords(rq, headers);
    ReplyIsCopied(rq, connected, status, headers, blank, body);
  }

  // ---- The times that are noted ----

  /** The times of the writer behind the headers, if it goes on caching. */
  ghost predicate TimesAre(rq: Request, w: Writer, headers: seq<string>) {
    var expires, modified := LastTime(rq, headers, "expires:"), LastTime(rq, headers, "last-modified:");
    var known := if expires != 0 then modified else ModifiedTime(rq, headers);
    && w.expires == (if expires != 0 then expires else rq.now + rq.timeToLive(known))
    && w.lastModified == if known != 0 then known else rq.now
  }

  lemma {:induction false} CopyingKeepsTimes(rq: Request, w: Writer, s: string)
    requires w.mode.CopyBody? || w.mode.Updated?
    ensures var v := PutAll(rq, w, s); v.expires == w.expires && v.lastModified == w.lastModified && v.mode == w.mode
    decreases |s|
  {
    if s == "" {
    } else {
      var v := Put(rq, w, s[0]);
      assert v.mode == w.mode && v.expires == w.expires && v.lastModified == w.lastModified;
      hide Put;
      CopyingKeepsTimes(rq, v, s[1..]);
    }
  }

  lemma BlankNotesTimes(rq: Request, v: Writer, headers: seq<string>)
    requires v.expires == LastTime(rq, headers, "expires:")
    requires v.lastModified == LastTime(rq, headers, "last-modified:")
    requires v.status == 200 || v.status == 304
    requires LivesLongEnough(rq, headers)
    ensures var w := EndOfHeaders(rq, v);
      TimesAre(rq, w, headers) && w.mode == if v.status == 200 then CopyBody else Updated
  {
    hide LastTime, CString, DoIt;
  }

  /**
   For a reply that is kept, be it a new version or a "304 Not modified": the expiry time noted is that of the
   last Expires line, or else the time now and the lifetime; the last-modified time is that of the last
   such line, or else that of the request, or else the time now.
   */
  lemma TimesNoted(rq: Request, connected: bool, status: string, headers: seq<string>, blank: string, body: string)
    requires IsLine(status) && AreHeaders(rq, headers) && IsHeaderEnd(blank)
    requires StatusOf(status) == 200 || (StatusOf(status) == 304 && rq.ifModSince != 0)
    requires LivesLongEnough(rq, headers)
    ensures TimesAre(rq, Reply(rq, connected, status, headers, blank, body), headers)
  {
    hide StatusOf, AreHeaders, IsHeaderEnd, LivesLongEnough, AnnouncedLength, TimeIn, LastTime, GoodHead, PutAll, Put,
      SpilledHead, KeptHead, TimesAre, IsLoad, IsBlank;
    HeadIsGood(rq, status, headers, blank);
    WorthInWords(rq, headers);
    ReplyInParts(rq, connected, status, headers, blank, body);
    HeadIsCollected(rq, connected, status, headers);
    var v := AtBlank(rq, connected, status, headers);
    LoadIsPut(rq, v, blank);
    BlankNotesTimes(rq, v.(buf := blank), headers);
    CopyingKeepsTimes(rq, PutAll(rq, v, blank), body);
    TimesDependOnTwo(rq, PutAll(rq, v, blank), PutAll(rq, PutAll(rq, v, blank), body), headers);
  }

  lemma TimesDependOnTwo(rq: Request, w: Writer, v: Writer, headers: seq<string>)
    requires TimesAre(rq, w, headers) && v.expires == w.expires && v.lastModified == w.lastModified
    ensures TimesAre(rq, v, headers)
  {
  }

  /** A "304 Not modified" is one only for a conditional request. */
  lemma NotModifiedIff(rq: Request, connected: bool, status: string, headers: seq<string>, blank: string, body: string)
    requires IsLine(status) && StatusOf(status) == 304 && AreHeaders(rq, headers) && IsHeaderEnd(blank)
    requires |status| <= 256
    ensures Outcome(Reply(rq, connected, status, headers, blank, body)).NotModified? <==> rq.ifModSince != 0
  {
    hide StatusOf, AreHeaders, IsHeaderEnd, GoodHead, EndsHeaders, SpilledHead, PutAll, Put, TimeIn, AnnouncedLength;
    if rq.ifModSince != 0 {
      HeadIsGood(rq, status, headers, blank);
      NotModifiedReply(rq, connected, status, headers, blank, body);
    } else {
      OtherEndsInJunk(rq, connected, status, Concat(headers) + blank + body);
      assert status + Concat(headers) + blank + body == status + (Concat(headers) + blank + body);
    }
  }

  /** Any other status: the reply is passed on, and never cached. */
  lemma OtherEndsInJunk(rq: Request, connected: bool, status: string, rest: string)
    requires IsLine(status) && |status| <= 256
    requires StatusOf(status) != 200 && (StatusOf(status) != 304 || rq.ifModSince == 0)
    ensures var w := PutAll(rq, Initial.(connected := connected), status + rest);
      && w.mode.Junk? && w.file == "" && w.contentCount == |rest|
      && w.output == if connected then status + rest else ""
  {
    hide StatusOf, PutAll, Put, EndOfLoad;
    var w0 := Initial.(connected := connected);
    LoadIsPut(rq, w0, status);
    StatusEndsInJunk(rq, w0, status);
    PutAllAppend(rq, w0, status, rest);
    var v := PutAll(rq, w0, status);
    assert v.output == if connected then status else "" by { assert "" + status == status; }
    BodyIsCopied(rq, v, rest);
  }

  lemma StatusEndsInJunk(rq: Request, w: Writer, status: string)
    requires IsLine(status) && |status| <= 256 && w.mode.StatusLine?
    requires StatusOf(status) != 200 && (StatusOf(status) != 304 || rq.ifModSince == 0)
    ensures var v := EndOfLoad(rq, w.(buf := status), LF);
      && v.mode.Junk? && v.file == w.file && v.contentCount == w.contentCount && v.connected == w.connected
      && v.output == if w.connected then w.output + status else w.output
  {
    hide CString, GetStatus;
  }
}
