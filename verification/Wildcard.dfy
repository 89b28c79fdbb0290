/**
 Wildcard patterns: a pattern is parsed into segments, a string is matched by a
 backtracking search that returns what the wildcards stand for, and the captures are put
 into another pattern. Matching is case-sensitive.
 */
module Wildcard {
  import opened Text

  /** A text, and whether a wildcard stands before it. A pattern is a list of them. */
  datatype Segment = Segment(wild: bool, text: string)

  type Pattern = seq<Segment>

  /** What one wildcard stands for; the end of a match carries no text. */
  type Captures = seq<Option<string>>

  // ---- Parsing ----

  /** The last segment: there is none after a plain text that is empty. */
  function LastSegment(wild: bool, buf: string): Pattern {
    if wild || buf != "" then [Segment(wild, buf)] else []
  }

  function ParseFrom(s: string, wild: bool, buf: string): Pattern
    decreases |s|
  {
    if s == "" then LastSegment(wild, buf)
    else if s[0] == '\\' then
      if |s| == 1 then LastSegment(wild, buf + ['\n']) else ParseFrom(s[2..], wild, buf + [s[1]])
    else if s[0] == '*' then
      (if buf != "" then [Segment(wild, buf)] else []) + ParseFrom(s[1..], true, "")
    else ParseFrom(s[1..], wild, buf + [s[0]])
  }

  function Parse(s: string): Pattern { ParseFrom(s, false, "") }

  /** Only the first segment can be plain, and only a wild last one can have no text. */
  predicate WellFormed(p: Pattern) {
    && (forall i :: 1 <= i < |p| ==> p[i].wild)
    && (forall i :: 0 <= i < |p| ==> p[i].text != "" || (p[i].wild && i == |p| - 1))
  }

  lemma {:induction false} ParseFromIsWellFormed(s: string, wild: bool, buf: string)
    ensures var p := ParseFrom(s, wild, buf);
      WellFormed(p) && (wild ==> p != [] && p[0].wild)
    decreases |s|
  {
    if s == "" {
    } else if s[0] == '\\' {
      if |s| > 1 { ParseFromIsWellFormed(s[2..], wild, buf + [s[1]]); }
    } else if s[0] == '*' {
      ParseFromIsWellFormed(s[1..], true, "");
    } else {
      ParseFromIsWellFormed(s[1..], wild, buf + [s[0]]);
    }
  }

  lemma ParseIsWellFormed(s: string)
    ensures WellFormed(Parse(s))
  {
    ParseFromIsWellFormed(s, false, "");
  }

  /** What the next character does. */
  lemma ParseStep(s: string, wild: bool, buf: string)
    ensures s == "" ==> ParseFrom(s, wild, buf) == LastSegment(wild, buf)
    ensures |s| == 1 && s[0] == '\\' ==> ParseFrom(s, wild, buf) == LastSegment(wild, buf + ['\n'])
    ensures |s| > 1 && s[0] == '\\' ==> ParseFrom(s, wild, buf) == ParseFrom(s[2..], wild, buf + [s[1]])
    ensures s != "" && s[0] == '*' ==>
      ParseFrom(s, wild, buf) == (if buf != "" then [Segment(wild, buf)] else []) + ParseFrom(s[1..], true, "")
    ensures s != "" && s[0] != '\\' && s[0] != '*' ==>
      ParseFrom(s, wild, buf) == ParseFrom(s[1..], wild, buf + [s[0]])
  {
  }

  method NewPattern(str: string) returns (p: Pattern)
    ensures p == Parse(str)
  {
    hide ParseFrom;
    var buf := new char[|str| + 1];
    var cur, dest := 0, 0;
    var wild := false;
    p := [];
    assert str[0..] == str;
    while cur < |str|
      invariant cur <= |str| && dest <= cur
      invariant p + ParseFrom(str[cur..], wild, buf[..dest]) == Parse(str)
      decreases |str| - cur
    {
      ghost var rest := str[cur..];
      ParseStep(rest, wild, buf[..dest]);
      if str[cur] == '\\' {
        cur := cur + 1;
        if cur < |str| {
          buf[dest] := str[cur];
          assert rest[2..] == str[cur + 1..];
        } else {
          buf[dest] := '\n';
          dest := dest + 1;
          assert buf[..dest] == buf[..dest - 1] + ['\n'];
          break;
        }
      } else if str[cur] == '*' {
        if dest > 0 {
          p := p + [Segment(wild, buf[..dest])];
        }
        dest := 0;
        cur := cur + 1;
        wild := true;
        assert rest[1..] == str[cur..];
        assert buf[..0] == "";
        continue;
      } else {
        buf[dest] := str[cur];
        assert rest[1..] == str[cur + 1..];
      }
      assert buf[..dest + 1] == buf[..dest] + [buf[dest]];
      dest := dest + 1;
      cur := cur + 1;
    }
    ParseStep(str[cur..], wild, buf[..dest]);
    if wild || dest > 0 {
      p := p + [Segment(wild, buf[..dest])];
    }
  }

  /** A text as it is written in a pattern. */
  function Escaped(s: string): string {
    if s == "" then ""
    else (if s[0] == '*' || s[0] == '\\' then ['\\', s[0]] else [s[0]]) + Escaped(s[1..])
  }

  function Written(p: Pattern): string {
    if p == [] then "" else (if p[0].wild then "*" else "") + Escaped(p[0].text) + Written(p[1..])
  }

  lemma EscapedOne(text: string, rest: string)
    requires text != ""
    ensures var s, tail := Escaped(text) + rest, Escaped(text[1..]) + rest;
      if text[0] == '*' || text[0] == '\\' then |s| > 1 && s[0] == '\\' && s[1] == text[0] && s[2..] == tail
      else s != "" && s[0] == text[0] && s[1..] == tail
  {
    var head := if text[0] == '*' || text[0] == '\\' then ['\\', text[0]] else [text[0]];
    var e := Escaped(text[1..]);
    assert Escaped(text) + rest == head + (e + rest);
    assert (head + (e + rest))[|head|..] == e + rest;
  }

  lemma EscapedStep(text: string, rest: string, wild: bool, buf: string)
    requires text != ""
    ensures ParseFrom(Escaped(text) + rest, wild, buf) == ParseFrom(Escaped(text[1..]) + rest, wild, buf + [text[0]])
  {
    EscapedOne(text, rest);
  }

  lemma {:induction false} EscapedIsRead(text: string, rest: string, wild: bool, buf: string)
    ensures ParseFrom(Escaped(text) + rest, wild, buf) == ParseFrom(rest, wild, buf + text)
    decreases |text|
  {
    if text == "" {
      assert Escaped(text) + rest == rest;
      assert buf + text == buf;
    } else {
      EscapedStep(text, rest, wild, buf);
      EscapedIsRead(text[1..], rest, wild, buf + [text[0]]);
      assert buf + [text[0]] + text[1..] == buf + text;
    }
  }

  /** Parsing undoes writing, for every pattern that can be parsed at all. */
  lemma {:induction false} ParseUndoesWriting(p: Pattern, wild: bool, buf: string)
    requires WellFormed(p) && forall i :: 0 <= i < |p| ==> p[i].wild
    ensures ParseFrom(Written(p), wild, buf) == (if p == [] then LastSegment(wild, buf)
      else (if buf != "" then [Segment(wild, buf)] else []) + p)
    decreases |p|
  {
    hide Written, Escaped;
    if p == [] {
      NothingWritten();
    } else {
      var rest := Escaped(p[0].text) + Written(p[1..]);
      StarWritten(p);
      StarIsRead(rest, wild, buf);
      hide ParseFrom;
      EscapedIsRead(p[0].text, Written(p[1..]), true, "");
      assert "" + p[0].text == p[0].text;
      ParseUndoesWriting(p[1..], true, p[0].text);
      assert p == [p[0]] + p[1..];
    }
  }

  lemma NothingWritten()
    ensures Written([]) == ""
  {
  }

  lemma StarWritten(p: Pattern)
    requires p != [] && p[0].wild
    ensures Written(p) == "*" + (Escaped(p[0].text) + Written(p[1..]))
  {
  }

  lemma StarIsRead(rest: string, wild: bool, buf: string)
    ensures ParseFrom("*" + rest, wild, buf) ==
      (if buf != "" then [Segment(wild, buf)] else []) + ParseFrom(rest, true, "")
  {
    assert ("*" + rest)[1..] == rest;
  }

  lemma WriteThenParse(p: Pattern)
    requires WellFormed(p)
    ensures Parse(Written(p)) == p
  {
    if p == [] || p[0].wild {
      ParseUndoesWriting(p, false, "");
    } else {
      WritePlainHead(p);
    }
  }

  lemma TailIsWild(p: Pattern)
    requires WellFormed(p) && p != []
    ensures WellFormed(p[1..]) && forall i :: 0 <= i < |p[1..]| ==> p[1..][i].wild
    ensures p[1..] == [] && !p[0].wild ==> p == LastSegment(false, p[0].text)
  {
  }

  lemma WritePlainHead(p: Pattern)
    requires WellFormed(p) && p != [] && !p[0].wild
    ensures Parse(Written(p)) == p
  {
    var text, rest := p[0].text, p[1..];
    EscapedIsRead(text, Written(rest), false, "");
    TailIsWild(p);
    assert rest == [] ==> p == LastSegment(false, text) && ParseFrom(Written(rest), false, text) == p;
    hide ParseFrom, WellFormed, Escaped;
    assert "" + text == text && "" + Escaped(text) == Escaped(text);
    assert p == [Segment(false, text)] + rest;
    ParseUndoesWriting(rest, false, text);
  }

  // ---- Matching ----

  /** User directories are only matched by a text that says so. */
  predicate IsUserDir(s: string) { "/~" <= s || "file:/~" <= s }

  function Match(pat: Pattern, act: string): Option<Captures>
    decreases |pat|, |act| + 1
  {
    if pat == [] then
      if act == "" then Some([None]) else None
    else
      var seg, udir := pat[0], IsUserDir(act);
      if !seg.wild then
        if !(seg.text <= act) || (udir && !IsUserDir(seg.text)) then None
        else Match(pat[1..], act[|seg.text|..])
      else if seg.text == "" && !udir then Some([Some(act)])
      else if udir && !IsUserDir(seg.text) then None
      else Search(pat, act, Find(act, seg.text))
  }

  /** Try the text of the first segment at `cur`, and then from behind it. */
  function Search(pat: Pattern, act: string, cur: int): Option<Captures>
    requires pat != [] && pat[0].text != ""
    requires cur >= -1 && (cur >= 0 ==> OccursAt(act, pat[0].text, cur))
    decreases |pat|, if cur < 0 then 0 else |act| - cur
  {
    if cur < 0 then None
    else
      var text := pat[0].text;
      match Match(pat[1..], act[cur + |text|..])
      case Some(m) => Some([Some(act[..cur])] + m)
      case None => Search(pat, act, Next(act, text, cur))
  }

  /** Where the search goes on: the first occurrence behind the one at `cur`. */
  function Next(act: string, text: string, cur: nat): (i: int)
    requires OccursAt(act, text, cur)
    ensures i >= -1 && (i >= 0 ==> OccursAt(act, text, i) && i >= cur + |text|)
    ensures forall j :: j >= cur + |text| && OccursAt(act, text, j) ==> 0 <= i <= j
  {
    var rest := act[cur + |text|..];
    var n := Find(rest, text);
    assert forall j :: j >= cur + |text| && OccursAt(act, text, j) ==> OccursAt(rest, text, j - cur - |text|) by {
      forall j | j >= cur + |text| && OccursAt(act, text, j) ensures OccursAt(rest, text, j - cur - |text|) {
        assert rest[j - cur - |text|..j - cur] == act[j..j + |text|];
      }
    }
    if n < 0 then -1
    else
      assert act[cur + |text| + n..cur + |text| + n + |text|] == rest[n..n + |text|];
      cur + |text| + n
  }

  method DoMatch(pat: Pattern, act: string) returns (r: Option<Captures>)
    ensures r == Match(pat, act)
    decreases |pat|, 1
  {
    if pat == [] {
      return if act == "" then Some([None]) else None;
    }
    var udir := IsUserDir(act);
    if !pat[0].wild {
      if !(pat[0].text <= act) || (udir && !IsUserDir(pat[0].text)) {
        return None;
      }
      r := DoMatch(pat[1..], act[|pat[0].text|..]);
    } else if pat[0].text == "" && !udir {
      return Some([Some(act)]);
    } else if udir && !IsUserDir(pat[0].text) {
      return None;
    } else {
      r := DoSearch(pat, act);
    }
  }

  /** The search loop: try each occurrence of the text that does not overlap the one before. */
  method DoSearch(pat: Pattern, act: string) returns (r: Option<Captures>)
    requires pat != [] && pat[0].text != ""
    ensures r == Search(pat, act, Find(act, pat[0].text))
    decreases |pat|, 0
  {
    var len := |pat[0].text|;
    var cur := Find(act, pat[0].text);
    ghost var found := Search(pat, act, cur);
    while cur >= 0
      invariant cur >= -1 && (cur >= 0 ==> OccursAt(act, pat[0].text, cur))
      invariant Search(pat, act, cur) == found
      decreases if cur < 0 then 0 else |act| - cur
    {
      var m := DoMatch(pat[1..], act[cur + len..]);
      if m.Some? {
        r := Some([Some(act[..cur])] + m.value);
        return;
      }
      cur := Next(act, pat[0].text, cur);
    }
    r := None;
  }

  // ---- Replacing ----

  function CaptureText(c: Option<string>): string { if c.Some? then c.value else "" }

  function Replace(eqv: Pattern, m: Captures): string {
    if eqv == [] then ""
    else if eqv[0].wild && m != [] then CaptureText(m[0]) + eqv[0].text + Replace(eqv[1..], m[1..])
    else eqv[0].text + Replace(eqv[1..], m)
  }

  /** Copy a string into a buffer, as strcpy does, and return where it ends. */
  method CopyInto(a: array<char>, at: nat, s: string) returns (end: nat)
    requires at + |s| <= a.Length
    modifies a
    ensures end == at + |s| && a[..end] == old(a[..at]) + s
  {
    for k := 0 to |s|
      invariant a[..at + k] == old(a[..at]) + s[..k]
    {
      a[at + k] := s[k];
      assert a[..at + k + 1] == a[..at + k] + [s[k]];
    }
    end := at + |s|;
    assert s[..|s|] == s;
  }

  /** The room a replacement needs, with its terminator. */
  method ReplacedLength(eqv: Pattern, matches: Captures) returns (len: nat)
    ensures len == |Replace(eqv, matches)| + 1
  {
    len := 1;
    var t, w := 0, matches;
    assert eqv[0..] == eqv;
    while t < |eqv|
      invariant t <= |eqv|
      invariant len + |Replace(eqv[t..], w)| == 1 + |Replace(eqv, matches)|
    {
      assert eqv[t..][1..] == eqv[t + 1..];
      if eqv[t].wild && w != [] {
        len := len + |CaptureText(w[0])|;
        w := w[1..];
      }
      len := len + |eqv[t].text|;
      t := t + 1;
    }
  }

  /** Write what a wildcard stands for, if there is a capture left, and the text behind it. */
  method PutSegment(ret: array<char>, at: nat, seg: Segment, w: Captures) returns (end: nat, rest: Captures)
    requires at + (if seg.wild && w != [] then |CaptureText(w[0])| else 0) + |seg.text| <= ret.Length
    modifies ret
    ensures end == at + (if seg.wild && w != [] then |CaptureText(w[0])| else 0) + |seg.text|
    ensures ret[..end] == old(ret[..at]) + (if seg.wild && w != [] then CaptureText(w[0]) else "") + seg.text
    ensures rest == if seg.wild && w != [] then w[1..] else w
  {
    end, rest := at, w;
    if seg.wild && w != [] {
      end := CopyInto(ret, end, CaptureText(w[0]));
      rest := w[1..];
    }
    end := CopyInto(ret, end, seg.text);
  }

  /** First the length is added up, then exactly that much is written. */
  method DoReplace(eqv: Pattern, matches: Captures) returns (ret: array<char>)
    ensures fresh(ret) && ret.Length == |Replace(eqv, matches)| + 1
    ensures ret[..ret.Length - 1] == Replace(eqv, matches)
  {
    var len := ReplacedLength(eqv, matches);
    ret := new char[len](_ => '\0');
    ghost var all := Replace(eqv, matches);
    var cur, t, w := 0, 0, matches;
    assert eqv[0..] == eqv;
    while t < |eqv|
      invariant 0 <= t <= |eqv| && 0 <= cur <= |all| && ret.Length == |all| + 1
      invariant ret[..cur] + Replace(eqv[t..], w) == all
    {
      assert eqv[t..][1..] == eqv[t + 1..];
      CopiedSoFar(eqv[t..], w, ret[..cur], all);
      cur, w := PutSegment(ret, cur, eqv[t], w);
      t := t + 1;
    }
    assert eqv[t..] == [] && ret[..cur] + "" == all;
  }

  /** What one segment adds to the text written so far. */
  lemma CopiedSoFar(eqv: Pattern, m: Captures, before: string, all: string)
    requires eqv != [] && before + Replace(eqv, m) == all
    ensures var wild := eqv[0].wild && m != [];
      var done := before + (if wild then CaptureText(m[0]) else "") + eqv[0].text;
      && done + Replace(eqv[1..], if wild then m[1..] else m) == all
      && |before| + (if wild then |CaptureText(m[0])| else 0) + |eqv[0].text| <= |all|
  {
  }

  /** Match against a pattern; with an equivalent, map to it. */
  function MatchPattern(pat: Pattern, eqv: Pattern, act: string): Option<string> {
    if pat == [] then None
    else match Match(pat, act)
      case None => None
      case Some(m) => Some(if eqv == [] then act else Replace(eqv, m))
  }

  /** Where the part of a matched string begins that the first wildcard stands for. */
  function FirstWild(pat: Pattern, act: string): Option<nat> {
    if pat == [] then None
    else if pat[0].wild then Some(0)
    else if |pat| > 1 then Some(|pat[0].text|)
    else None
  }
}
