/**
 When a "304 Not modified" is sent, and how a cached reply is filled out, in terms of the header lines.
 */
module HeaderVerdict {
  import opened Text
  import opened HeaderFilters

  // ---- If-Modified-Since ----

  /** A line ends with its only line end. */
  predicate IsLine(s: string) { s != "" && s[|s| - 1] == '\n' && '\n' !in s[..|s| - 1] }

  predicate AreLines(lines: seq<string>) { forall l :: l in lines ==> IsLine(l) }

  predicate IsModifiedLine(line: string) {
    |line| >= 14 && Spells(line[..13], "last-modified") && line[13] == ':'
  }

  /** The time of a line is known and not past the limit; it is read from the text that begins there. */
  predicate GivesOldTime(q: Since, text: string) {
    q.parseTime(text) != 0 && q.parseTime(text) <= q.limit
  }

  predicate IsOldLine(q: Since, lines: seq<string>, i: nat)
    requires i < |lines|
  {
    IsModifiedLine(lines[i]) && GivesOldTime(q, lines[i][14..] + Concat(lines[i + 1..]))
  }

  /** Some colon at or behind the place m is that of such a line. */
  ghost predicate FoundBehind(q: Since, s: string, m: nat) { exists p :: m <= p < |s| && OldEnoughAt(q, s, p) }

  lemma FieldInWords(s: string, p: nat)
    requires p < |s|
    ensures FieldEndsAt(s, p) <==> p >= 13 && Spells(s[p - 13..p], "last-modified") && (p == 13 || s[p - 14] == '\n')
  {
    if p >= 13 { SpellsIff(s[p - 13..p], "last-modified"); }
  }

  lemma NameHasNoLineEnd(t: string, i: nat)
    requires Spells(t, "last-modified") && i < |t|
    ensures t[i] != '\n'
  {
    assert SameLetter(t[i], "last-modified"[i]);
  }

  lemma InsideLine(line: string, i: nat)
    requires IsLine(line) && i < |line| - 1
    ensures line[i] != '\n'
  {
    assert line[..|line| - 1][i] == line[i];
  }

  lemma NoFieldInside(line: string, rest: string, p: nat)
    requires IsLine(line) && p < |line| && p != 13
    ensures !FieldEndsAt(line + rest, p)
  {
    var s := line + rest;
    FieldInWords(s, p);
    if p >= 14 {
      InsideLine(line, p - 14);
      hide FieldEndsAt, Spells;
      assert s[p - 14] == line[p - 14];
    }
  }

  /** A field in the first line begins that line. */
  lemma FieldInLine(line: string, rest: string)
    requires IsLine(line) && |line| > 13 && (line + rest)[13] == ':'
    ensures FieldEndsAt(line + rest, 13) <==> IsModifiedLine(line)
  {
    FieldInWords(line + rest, 13);
    hide FieldEndsAt, Spells;
    assert (line + rest)[13 - 13..13] == line[..13];
  }

  /** A field behind the first line does not depend on it. */
  lemma FieldBehindLine(line: string, rest: string, p: nat)
    requires IsLine(line) && |line| <= p < |line + rest|
    ensures FieldEndsAt(line + rest, p) <==> FieldEndsAt(rest, p - |line|)
  {
    var s, k := line + rest, p - |line|;
    FieldInWords(s, p);
    FieldInWords(rest, k);
    hide FieldEndsAt, Spells;
    if k >= 13 {
      assert s[p - 13..p] == rest[k - 13..k];
    } else if p >= 13 {
      var name := s[p - 13..p];
      assert name[13 - 1 - k] == s[|line| - 1] == '\n';
      if Spells(name, "last-modified") { NameHasNoLineEnd(name, 13 - 1 - k); }
    }
  }

  lemma OldBehindLine(q: Since, line: string, rest: string, p: nat)
    requires IsLine(line) && |line| <= p < |line + rest|
    ensures OldEnoughAt(q, line + rest, p) <==> OldEnoughAt(q, rest, p - |line|)
  {
    FieldBehindLine(line, rest, p);
    hide FieldEndsAt;
    assert (line + rest)[p + 1..] == rest[p - |line| + 1..];
  }

  lemma OldInLine(q: Since, line: string, rest: string, p: nat)
    requires IsLine(line) && p < |line|
    ensures OldEnoughAt(q, line + rest, p) <==> p == 13 && IsModifiedLine(line) && GivesOldTime(q, line[14..] + rest)
  {
    var s := line + rest;
    if p != 13 {
      NoFieldInside(line, rest, p);
    } else {
      if s[13] == ':' { FieldInLine(line, rest); }
      hide FieldEndsAt, Spells;
      assert s[14..] == line[14..] + rest && s[13] == line[13];
    }
  }

  lemma FoundInTwo(q: Since, line: string, rest: string)
    requires IsLine(line)
    ensures FoundBehind(q, line + rest, 0) <==>
      (IsModifiedLine(line) && GivesOldTime(q, line[14..] + rest)) || FoundBehind(q, rest, 0)
    ensures FoundBehind(q, line + rest, |line|) <==> FoundBehind(q, rest, 0)
    ensures FoundBehind(q, line + rest, |line| - 1 + 12) <==> FoundBehind(q, rest, 0)
  {
    hide OldEnoughAt, IsModifiedLine, GivesOldTime;
    var s := line + rest;
    forall p | 0 <= p < |line|
      ensures OldEnoughAt(q, s, p) <==> p == 13 && IsModifiedLine(line) && GivesOldTime(q, line[14..] + rest)
    {
      OldInLine(q, line, rest, p);
    }
    forall k | 0 <= k < |rest| ensures OldEnoughAt(q, s, k + |line|) <==> OldEnoughAt(q, rest, k) {
      OldBehindLine(q, line, rest, k + |line|);
    }
    LongEnough(line);
    forall k | 0 <= k < |rest| && OldEnoughAt(q, rest, k) ensures k >= 13 && OldEnoughAt(q, s, k + |line|) {
      OldIsBehindName(q, rest, k);
    }
    forall p | |line| <= p < |s| && OldEnoughAt(q, s, p) ensures OldEnoughAt(q, rest, p - |line|) {
      OldBehindLine(q, line, rest, p);
    }
    if IsModifiedLine(line) && GivesOldTime(q, line[14..] + rest) { assert OldEnoughAt(q, s, 13); }
  }

  lemma LongEnough(line: string)
    ensures IsModifiedLine(line) ==> |line| >= 14
  {
  }

  lemma OldIsBehindName(q: Since, s: string, p: nat)
    requires p < |s| && OldEnoughAt(q, s, p)
    ensures p >= 13
  {
    FieldInWords(s, p);
  }

  ghost predicate SomeOldLine(q: Since, lines: seq<string>) {
    exists i :: 0 <= i < |lines| && IsOldLine(q, lines, i)
  }

  lemma SomeOldStep(q: Since, lines: seq<string>)
    requires lines != []
    ensures SomeOldLine(q, lines) <==> IsOldLine(q, lines, 0) || SomeOldLine(q, lines[1..])
  {
    forall i | 0 <= i < |lines| - 1 ensures IsOldLine(q, lines[1..], i) <==> IsOldLine(q, lines, i + 1) {
      assert lines[1..][i + 1..] == lines[i + 1 + 1..];
    }
    hide IsOldLine;
    if i :| 0 <= i < |lines| && IsOldLine(q, lines, i) {
      if i > 0 { assert IsOldLine(q, lines[1..], i - 1); }
    }
  }

  lemma {:induction false} FoundIffOldLine(q: Since, lines: seq<string>)
    requires AreLines(lines)
    ensures FoundBehind(q, Concat(lines), 0) <==> SomeOldLine(q, lines)
    decreases |lines|
  {
    if lines == [] {
    } else {
      var line, rest := lines[0], lines[1..];
      assert line in lines && forall l :: l in rest ==> l in lines;
      FoundIffOldLine(q, rest);
      FoundInTwo(q, line, Concat(rest));
      SomeOldStep(q, lines);
      hide FoundBehind, SomeOldLine;
    }
  }

  lemma LineEndIsFirst(line: string, rest: string)
    requires IsLine(line)
    ensures IndexOf(line + rest, '\n') == |line| - 1
  {
    var init := line[..|line| - 1];
    IndexOfFirst(init, '\n', rest);
    assert init + ['\n'] + rest == line + rest;
  }

  /** Which headers make the stream decide that nothing is newer: those behind the first line count. */
  lemma NotModifiedInLines(q: Since, first: string, lines: seq<string>)
    requires IsLine(first) && AreLines(lines)
    ensures NotModified(q, first + Concat(lines)) <==> 1 + |Concat(lines)| > 20 && SomeOldLine(q, lines)
  {
    LineEndIsFirst(first, Concat(lines));
    FoundInTwo(q, first, Concat(lines));
    FoundIffOldLine(q, lines);
    hide OldEnoughAt, SomeOldLine;
    var s := first + Concat(lines);
    assert FoundBehind(q, s, |first| - 1 + 12) <==> exists p :: |first| - 1 + 12 <= p < |s| && OldEnoughAt(q, s, p);
  }

  // ---- The reply of the stream ----

  predicate IsTextLine(line: string) { IsLine(line) && line[0] != '\r' && line[0] != '\n' }

  /** Lines of which only the last is nothing but a line end. */
  predicate IsHead(first: string, lines: seq<string>) {
    && IsTextLine(first) && '\0' !in first && '\0' !in Concat(lines)
    && lines != [] && lines[|lines| - 1] in ["\n", "\r\n"]
    && forall i :: 0 <= i < |lines| - 1 ==> IsTextLine(lines[i])
  }

  lemma HeadRuns(first: string, lines: seq<string>)
    requires IsHead(first, lines)
    ensures Run(1, first + Concat(lines)) == 2
  {
    var n := |lines| - 1;
    var texts, blank := lines[..n], lines[n];
    TextLineRuns(1, first);
    forall h | h in texts ensures CacheWriter.IsHeader(h) {
      var i :| 0 <= i < n && texts[i] == h;
      assert IsTextLine(lines[i]);
    }
    TextLinesRun(texts);
    assert lines == texts + [blank];
    ConcatAppend(texts, blank);
    RunAppend(1, first, Concat(texts));
    RunAppend(1, first + Concat(texts), blank);
    Reassociate(first, Concat(texts), blank);
    BlankLineRuns(blank);
  }

  /** The headers end no sooner than their last line. */
  lemma HeadIsAll(first: string, lines: seq<string>, body: string)
    requires IsHead(first, lines)
    ensures var head := first + Concat(lines);
      Run(1, head + body) == 2 && HeaderLength(1, head + body) == |head|
  {
    var n := |lines| - 1;
    var texts, blank := lines[..n], lines[n];
    HeadRuns(first, lines);
    var head := first + Concat(lines);
    RunAppend(1, head, body);
    FinalIsFinal(2, body);
    HeaderLengthAppend(1, head, body);
    forall h | h in texts ensures CacheWriter.IsHeader(h) {
      var i :| 0 <= i < n && texts[i] == h;
      assert IsTextLine(lines[i]);
    }
    NotBeforeBlank(first, texts, blank);
    assert lines == texts + [blank];
    ConcatAppend(texts, blank);
    Reassociate(first, Concat(texts), blank);
  }

  lemma NotBeforeBlank(first: string, texts: seq<string>, blank: string)
    requires CacheWriter.IsHeader(first) && blank in ["\n", "\r\n"]
    requires forall h :: h in texts ==> CacheWriter.IsHeader(h)
    ensures HeaderLength(1, first + Concat(texts) + blank) == |first + Concat(texts) + blank|
  {
    var text := first + Concat(texts);
    TextLineRuns(1, first);
    TextLinesRun(texts);
    RunAppend(1, first, Concat(texts));
    AllIsHeader(1, text);
    HeaderLengthAppend(1, text, blank);
    BlankIsHeader(blank);
  }

  lemma {:induction false} AllIsHeader(state: nat, s: string)
    requires Run(state, s) < 2
    ensures HeaderLength(state, s) == |s|
    decreases |s|
  {
    if s == "" {
    } else {
      if state >= 2 { FinalIsFinal(state, s); }
      AllIsHeader(Step(state, s[0]), s[1..]);
    }
  }

  lemma BlankIsHeader(blank: string)
    requires blank in ["\n", "\r\n"]
    ensures HeaderLength(1, blank) == |blank|
  {
    if blank == "\r\n" {
      assert blank[1..] == "\n" && "\n"[1..] == "";
      assert HeaderLength(1, "\n") == 1;
    } else {
      assert blank[1..] == "";
    }
  }

  /**
   A reply is replaced by a 304 exactly if, behind its first line, some Last-Modified line gives a known time
   that is no later than the limit, and there are at least twenty bytes of headers. Then the other header
   lines follow the new first line, and the body is dropped; otherwise all is passed on.
   */
  lemma RepliesNotModifiedIff(q: Since, first: string, lines: seq<string>, body: string)
    requires IsHead(first, lines)
    ensures var s := first + Concat(lines) + body;
      ImsPutAll(q, Ims(EOL, "", ""), s).sink ==
        if |Concat(lines)| >= 20 && SomeOldLine(q, lines) then "HTTP/1.0 304 Not modified\r\n" + Concat(lines) else s
  {
    hide Run, HeaderLength, ImsPutAll, NotModified, Concat, SomeOldLine, IsHead;
    var head := first + Concat(lines);
    HeadIsAll(first, lines, body);
    HeadIsPlain(first, lines);
    ImsOutput(q, head + body);
    assert (head + body)[..|head|] == head;
    NotModifiedInLines(q, first, lines);
    assert head[|first|..] == Concat(lines);
  }

  lemma HeadIsPlain(first: string, lines: seq<string>)
    requires IsHead(first, lines)
    ensures IsLine(first) && AreLines(lines)
    ensures CString(first + Concat(lines)) == first + Concat(lines)
    ensures AfterFirstLine(first + Concat(lines)) == |first|
  {
    forall l | l in lines ensures IsLine(l) {
      var i :| 0 <= i < |lines| && lines[i] == l;
    }
    CStringWhole(first + Concat(lines));
    LineEndIsFirst(first, Concat(lines));
  }

  // ---- The expiry time of a cached reply ----

  const PLACEHOLDER := "Expires: Will-be-filled-out-by-cache-proxy\r\n"

  predicate AreSpaces(s: string) { forall i :: 0 <= i < |s| ==> s[i] == ' ' }

  /** What stands in place of the placeholder line. */
  predicate IsFilledLine(line: string, expires: int, timestr: string) {
    if expires == 0 then line == "X-Proxy-Notice: Expiry checking disabled. \r\n"
    else
      && |timestr| <= 33 && |line| == 9 + 33 + 2 && line[..9] == "Expires: " && timestr <= line[9..]
      && AreSpaces(line[9 + |timestr|..42]) && line[42..] == "\r\n"
  }

  lemma {:induction false} PaddingIsSpaces(t: string)
    requires |t| <= 33
    ensures |Padded(t)| == 33 && t <= Padded(t) && AreSpaces(Padded(t)[|t|..])
    decreases 33 - |t|
  {
    if |t| == 33 {
    } else {
      PaddingIsSpaces(t + [' ']);
    }
  }

  lemma LineIsFilled(expires: int, timestr: string)
    requires |timestr| <= 33
    ensures IsFilledLine(FillIn(expires, timestr) + "\r\n", expires, timestr)
  {
    if expires != 0 {
      PaddingIsSpaces(timestr);
      var pad := Padded(timestr);
      hide Padded;
      var line := "Expires: " + pad + "\r\n";
      assert line[9..] == pad + "\r\n" && line[9 + |timestr|..42] == pad[|timestr|..];
    }
  }

  lemma {:induction false} CStringOfTwo(a: string, b: string)
    requires '\0' !in a
    ensures CString(a + b) == a + CString(b)
  {
    if a == "" {
      assert a + b == b;
    } else {
      assert (a + b)[1..] == a[1..] + b;
      CStringOfTwo(a[1..], b);
    }
  }

  /** The first placeholder in the first load is replaced, and nothing else. */
  lemma PlaceholderIsFilled(before: string, behind: string, rest: seq<string>, expires: int, timestr: string)
    returns (line: string)
    requires |timestr| <= 33 && '\0' !in before
    requires forall j :: 0 <= j < |before| ==> !OccursAt(before + PLACEHOLDER + behind, PLACEHOLDER, j)
    ensures IsFilledLine(line, expires, timestr)
    ensures FilledFile([before + PLACEHOLDER + behind] + rest, expires, timestr) ==
      before + line + behind + Concat(rest)
  {
    line := FillIn(expires, timestr) + "\r\n";
    LineIsFilled(expires, timestr);
    var s := before + PLACEHOLDER + behind;
    NoNulInPlaceholder();
    FirstIsFound(before, PLACEHOLDER, behind);
    assert s[..|before|] == before && s[|before| + |PLACEHOLDER|..] == behind;
    assert ([s] + rest)[1..] == rest;
    hide FillIn, Find, CString, IsFilledLine;
    assert Filled(s, expires, timestr) == before + FillIn(expires, timestr) + [CR, LF] + behind;
    assert before + FillIn(expires, timestr) + [CR, LF] == before + line;
  }

  /** The first occurrence of a text in front of any NUL. */
  lemma FirstIsFound(before: string, p: string, behind: string)
    requires '\0' !in before && '\0' !in p
    requires forall j :: 0 <= j < |before| ==> !OccursAt(before + p + behind, p, j)
    ensures Find(CString(before + p + behind), p) == |before|
  {
    var s := before + p + behind;
    CStringOfTwo(before + p, behind);
    CStringIsPrefix(s);
    var t := CString(s);
    assert t == before + p + CString(behind);
    hide CString;
    assert t[|before|..|before| + |p|] == p;
    assert OccursAt(t, p, |before|);
    forall j | 0 <= j < |before| ensures !OccursAt(t, p, j) {
      if OccursAt(t, p, j) { OccursInWhole(t, s, p, j); }
    }
  }

  lemma OccursInWhole(t: string, s: string, p: string, j: int)
    requires t <= s && OccursAt(t, p, j)
    ensures OccursAt(s, p, j)
  {
    assert s[j..j + |p|] == t[j..j + |p|];
  }

  lemma NoNulInPlaceholder()
    ensures '\0' !in PLACEHOLDER
  {
  }

  /** Without a placeholder, in front of the first NUL, the file is sent as it is. */
  lemma NothingIsFilled(chunks: seq<string>, expires: int, timestr: string)
    requires chunks != [] ==>
      forall j :: !OccursAt(chunks[0][..IndexOf(chunks[0], '\0')], PLACEHOLDER, j)
    ensures FilledFile(chunks, expires, timestr) == Concat(chunks)
  {
    if chunks != [] {
      var s := chunks[0];
      CStringIsBeforeNul(s);
      var t := CString(s);
      hide CString, FillIn;
      assert Find(t, EXPIRES_LINE) < 0;
    }
  }
}
