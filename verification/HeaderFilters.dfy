/**
 The streams that look for the end of the headers: HEAD cuts the reply there, BODY counts
 what follows, If-Modified-Since judges what precedes, and a cached file is split there.
 All of them run the same little automaton, byte by byte or block by block.
 */
module HeaderFilters {
  import opened Text
  import CacheWriter

  // ---- The boundary between headers and body ----

  /** Consecutive line ends seen, CRs ignored; 2 is the end of the headers and final. */
  function Step(state: nat, c: char): nat {
    if state >= 2 then state
    else if c == LF then state + 1
    else if c == CR then state
    else 0
  }

  function Run(state: nat, s: string): nat
    decreases |s|
  {
    if s == "" then state else Run(Step(state, s[0]), s[1..])
  }

  /** How much of s belongs to the headers, all of it if they do not end. */
  function HeaderLength(state: nat, s: string): (n: nat)
    ensures n <= |s|
    decreases |s|
  {
    if state >= 2 || s == "" then 0 else 1 + HeaderLength(Step(state, s[0]), s[1..])
  }

  /** s ends in LF CR* LF. */
  ghost predicate EndsHeaders(s: string) {
    s != "" && s[|s| - 1] == LF && AtLineStart(s[..|s| - 1])
  }

  /** s ends in LF CR*. */
  ghost predicate AtLineStart(s: string) {
    exists k :: 0 <= k < |s| && s[k] == LF && forall j :: k < j < |s| ==> s[j] == CR
  }

  lemma {:induction false} RunAppend(state: nat, a: string, b: string)
    ensures Run(state, a + b) == Run(Run(state, a), b)
    decreases |a|
  {
    if a == "" {
      assert a + b == b;
    } else {
      assert (a + b)[1..] == a[1..] + b;
      RunAppend(Step(state, a[0]), a[1..], b);
    }
  }

  lemma {:induction false} FinalIsFinal(state: nat, s: string)
    requires state >= 2
    ensures Run(state, s) == state
    decreases |s|
  {
    if s == "" {
    } else {
      FinalIsFinal(state, s[1..]);
    }
  }

  /** The headers of a + b: those of a, and if they do not end there, more of b. */
  lemma {:induction false} HeaderLengthAppend(state: nat, a: string, b: string)
    ensures HeaderLength(state, a + b) == HeaderLength(state, a) + HeaderLength(Run(state, a), b)
    ensures Run(state, a) < 2 ==> HeaderLength(state, a) == |a|
    decreases |a|
  {
    if a == "" {
      assert a + b == b;
    } else if state >= 2 {
      FinalIsFinal(state, a);
    } else {
      assert (a + b)[1..] == a[1..] + b;
      HeaderLengthAppend(Step(state, a[0]), a[1..], b);
    }
  }

  lemma LineStartAppend(s: string, c: char)
    ensures AtLineStart(s + [c]) <==> c == LF || (c == CR && AtLineStart(s))
  {
    var t := s + [c];
    if c == LF {
      assert t[|s|] == LF;
    } else if c == CR && AtLineStart(s) {
      var k :| 0 <= k < |s| && s[k] == LF && forall j :: k < j < |s| ==> s[j] == CR;
      assert t[k] == LF;
    }
    if AtLineStart(t) {
      var k :| 0 <= k < |t| && t[k] == LF && forall j :: k < j < |t| ==> t[j] == CR;
      if k < |s| {
        assert s[k] == LF && t[|s|] == c;
        assert forall j :: k < j < |s| ==> t[j] == s[j];
      }
    }
  }

  /** The automaton decides what the definition says, on every input. */
  lemma {:induction false} AutomatonMeaning(s: string)
    ensures Run(0, s) <= 2
    ensures Run(0, s) == 2 <==> exists n :: 0 <= n <= |s| && EndsHeaders(s[..n])
    ensures Run(0, s) < 2 ==> (Run(0, s) == 1 <==> AtLineStart(s))
    decreases |s|
  {
    if s == "" {
    } else {
      var init, c := s[..|s| - 1], s[|s| - 1];
      assert s == init + [c];
      AutomatonMeaning(init);
      RunAppend(0, init, [c]);
      assert [c][1..] == "";
      assert Run(Run(0, init), [c]) == Step(Run(0, init), c);
      LineStartAppend(init, c);
      assert EndsHeaders(s) <==> c == LF && AtLineStart(init);
      assert s[..|s|] == s;
      forall n | 0 <= n < |s| ensures s[..n] == init[..n] { }
      if Run(0, init) == 2 {
        var n :| 0 <= n <= |init| && EndsHeaders(init[..n]);
        assert EndsHeaders(s[..n]);
      }
      if n :| 0 <= n <= |s| && EndsHeaders(s[..n]) {
        assert n < |s| ==> EndsHeaders(init[..n]);
      }
    }
  }

  /** The headers end at the shortest prefix that ends in LF CR* LF. */
  lemma HeaderLengthMeaning(s: string)
    ensures var n := HeaderLength(0, s);
      if exists m :: 0 <= m <= |s| && EndsHeaders(s[..m])
      then EndsHeaders(s[..n]) && forall m :: 0 <= m < n ==> !EndsHeaders(s[..m])
      else n == |s|
  {
    var n := HeaderLength(0, s);
    assert s == s[..n] + s[n..];
    HeaderLengthAppend(0, s[..n], s[n..]);
    AutomatonMeaning(s);
    HeaderLengthAppend(0, s, "");
    assert s + "" == s;
    forall m | 0 <= m < n ensures !EndsHeaders(s[..m]) {
      NoShorterEnd(s, m);
    }
    if Run(0, s) == 2 {
      HeaderLengthIsFinal(0, s);
      AutomatonMeaning(s[..n]);
      var m :| 0 <= m <= n && EndsHeaders(s[..n][..m]);
      assert s[..n][..m] == s[..m];
    }
  }

  lemma NoShorterEnd(s: string, m: nat)
    requires m < HeaderLength(0, s)
    ensures !EndsHeaders(s[..m])
  {
    AutomatonMeaning(s[..m]);
    assert s[..m][..m] == s[..m];
    ShorterIsNotFinal(0, s, m);
  }

  lemma {:induction false} ShorterIsNotFinal(state: nat, s: string, m: nat)
    requires m < HeaderLength(state, s)
    ensures Run(state, s[..m]) < 2
    decreases |s|
  {
    if m == 0 {
    } else {
      ShorterIsNotFinal(Step(state, s[0]), s[1..], m - 1);
      assert s[..m][1..] == s[1..][..m - 1];
    }
  }

  lemma {:induction false} HeaderLengthIsFinal(state: nat, s: string)
    requires state <= 2 && Run(state, s) == 2
    ensures Run(state, s[..HeaderLength(state, s)]) == 2
    decreases |s|
  {
    if state < 2 && s != "" {
      HeaderLengthIsFinal(Step(state, s[0]), s[1..]);
      var n := HeaderLength(state, s);
      assert s[..n][1..] == s[1..][..n - 1];
    } else if state >= 2 {
      assert s[..0] == "";
    }
  }

  // ---- Calls ----

  /** The source of a stream may call it for one character or for a block. */
  datatype Call = Char(c: char) | Block(data: string)

  function Data(call: Call): string {
    match call case Char(c) => [c] case Block(data) => data
  }

  function Bytes(calls: seq<Call>): string {
    if calls == [] then "" else Data(calls[0]) + Bytes(calls[1..])
  }

  lemma {:induction false} BytesAppend(calls: seq<Call>, call: Call)
    ensures Bytes(calls + [call]) == Bytes(calls) + Data(call)
  {
    hide Data;
    var all := calls + [call];
    if calls == [] {
      assert all[1..] == [];
      assert Data(call) + "" == Data(call) && "" + Data(call) == Data(call);
    } else {
      assert all[1..] == calls[1..] + [call];
      BytesAppend(calls[1..], call);
      assert Data(calls[0]) + (Bytes(calls[1..]) + Data(call)) == Data(calls[0]) + Bytes(calls[1..]) + Data(call);
    }
  }

  lemma NothingBehindFinal(state: nat, s: string)
    ensures state >= 2 ==> HeaderLength(state, s) == 0
  {
  }

  /** What is passed and what is counted of two pieces in a row. */
  lemma CutAnywhere(state: nat, a: string, b: string)
    ensures Run(state, a + b) == Run(Run(state, a), b)
    ensures (a + b)[..HeaderLength(state, a + b)]
      == a[..HeaderLength(state, a)] + b[..HeaderLength(Run(state, a), b)]
    ensures |a + b| - HeaderLength(state, a + b)
      == (|a| - HeaderLength(state, a)) + (|b| - HeaderLength(Run(state, a), b))
  {
    hide Run, HeaderLength;
    RunAppend(state, a, b);
    HeaderLengthAppend(state, a, b);
    NothingBehindFinal(Run(state, a), b);
    TakeOfConcat(a, b, HeaderLength(state, a), HeaderLength(Run(state, a), b));
  }

  lemma RunOfNothing(state: nat)
    ensures Run(state, "") == state && HeaderLength(state, "") == 0
  {
  }

  lemma Reassociate(a: string, b: string, c: string)
    ensures a + b + c == a + (b + c)
  {
  }

  lemma TakeOfConcat(a: string, b: string, n: nat, m: nat)
    requires n <= |a| && m <= |b| && (n == |a| || m == 0)
    ensures (a + b)[..n + m] == a[..n] + b[..m]
  {
  }

  // ---- The HEAD stream ----

  class HeadStream {
    var state: nat
    var sink: string

    constructor ()
      ensures state == 0 && sink == ""
    {
      state, sink := 0, "";
    }

    method PutChar(c: char)
      modifies this
      ensures state == Run(old(state), [c])
      ensures sink == old(sink) + [c][..HeaderLength(old(state), [c])]
    {
      assert [c][1..] == "";
      assert [c][..1] == [c];
      if state >= 2 {
        assert sink + [c][..0] == sink;
        return;
      }
      if c == LF {
        state := state + 1;
      } else if c != CR {
        state := 0;
      }
      sink := sink + [c];
    }

    method PutBlock(b: string)
      modifies this
      ensures state == Run(old(state), b)
      ensures sink == old(sink) + b[..HeaderLength(old(state), b)]
    {
      var i := 0;
      ghost var s0 := state;
      while i < |b| && state < 2
        invariant i <= |b| && state == Run(s0, b[..i])
        invariant HeaderLength(s0, b[..i]) == i
        invariant sink == old(sink) + b[..i]
      {
        HeaderLengthAppend(s0, b[..i], [b[i]]);
        RunAppend(s0, b[..i], [b[i]]);
        assert b[..i + 1] == b[..i] + [b[i]];
        assert [b[i]][1..] == "";
        PutChar(b[i]);
        i := i + 1;
      }
      assert b == b[..i] + b[i..];
      RunAppend(s0, b[..i], b[i..]);
      HeaderLengthAppend(s0, b[..i], b[i..]);
      if state >= 2 {
        FinalIsFinal(state, b[i..]);
      }
    }

    method Perform(call: Call)
      modifies this
      ensures state == Run(old(state), Data(call))
      ensures sink == old(sink) + Data(call)[..HeaderLength(old(state), Data(call))]
    {
      match call
      case Char(c) => PutChar(c);
      case Block(data) => PutBlock(data);
    }

    /** Whatever calls are made: the headers of all that came are passed, and nothing else. */
    method Receive(calls: seq<Call>)
      modifies this
      ensures state == Run(old(state), Bytes(calls))
      ensures sink == old(sink) + Bytes(calls)[..HeaderLength(old(state), Bytes(calls))]
    {
      hide Run, HeaderLength, Data;
      ghost var s0 := state;
      var i := 0;
      RunOfNothing(s0);
      assert Bytes(calls[..0]) == "" && sink + "" == sink;
      while i < |calls|
        invariant i <= |calls| && state == Run(s0, Bytes(calls[..i]))
        invariant sink == old(sink) + Bytes(calls[..i])[..HeaderLength(s0, Bytes(calls[..i]))]
      {
        ghost var a, d := Bytes(calls[..i]), Data(calls[i]);
        assert calls[..i + 1] == calls[..i] + [calls[i]];
        BytesAppend(calls[..i], calls[i]);
        CutAnywhere(s0, a, d);
        Perform(calls[i]);
        Reassociate(old(sink), a[..HeaderLength(s0, a)], d[..HeaderLength(Run(s0, a), d)]);
        i := i + 1;
      }
      assert calls[..i] == calls;
    }
  }

  // ---- The BODY stream ----

  class BodyStream {
    var state: nat
    var length: nat
    var sink: string

    constructor ()
      ensures state == 0 && length == 0 && sink == ""
    {
      state, length, sink := 0, 0, "";
    }

    method PutChar(c: char)
      modifies this
      ensures state == Run(old(state), [c]) && sink == old(sink) + [c]
      ensures length == old(length) + 1 - HeaderLength(old(state), [c])
    {
      assert [c][1..] == "";
      if state >= 2 {
        length := length + 1;
      } else if c == LF {
        state := state + 1;
      } else if c != CR {
        state := 0;
      }
      sink := sink + [c];
    }

    method PutBlock(b: string)
      modifies this
      ensures state == Run(old(state), b) && sink == old(sink) + b
      ensures length == old(length) + |b| - HeaderLength(old(state), b)
    {
      var i := 0;
      var l := |b|;
      ghost var s0 := state;
      while state < 2 && l > 0
        invariant i <= |b| && l == |b| - i && state == Run(s0, b[..i])
        invariant HeaderLength(s0, b[..i]) == i
        invariant sink == old(sink) + b[..i] && length == old(length)
        decreases l
      {
        HeaderLengthAppend(s0, b[..i], [b[i]]);
        RunAppend(s0, b[..i], [b[i]]);
        assert b[..i + 1] == b[..i] + [b[i]];
        assert [b[i]][1..] == "";
        PutChar(b[i]);
        i, l := i + 1, l - 1;
      }
      assert b == b[..i] + b[i..];
      RunAppend(s0, b[..i], b[i..]);
      HeaderLengthAppend(s0, b[..i], b[i..]);
      if l > 0 {
        FinalIsFinal(state, b[i..]);
        length := length + l;
        sink := sink + b[i..];
      }
    }

    method Perform(call: Call)
      modifies this
      ensures state == Run(old(state), Data(call)) && sink == old(sink) + Data(call)
      ensures length == old(length) + |Data(call)| - HeaderLength(old(state), Data(call))
    {
      match call
      case Char(c) => PutChar(c);
      case Block(data) => PutBlock(data);
    }

    /** Whatever calls are made: all that came is passed, and what is behind the headers is counted. */
    method Receive(calls: seq<Call>)
      modifies this
      ensures state == Run(old(state), Bytes(calls)) && sink == old(sink) + Bytes(calls)
      ensures length == old(length) + |Bytes(calls)| - HeaderLength(old(state), Bytes(calls))
    {
      hide Run, HeaderLength, Data;
      ghost var s0 := state;
      var i := 0;
      RunOfNothing(s0);
      assert Bytes(calls[..0]) == "" && sink + "" == sink;
      while i < |calls|
        invariant i <= |calls| && state == Run(s0, Bytes(calls[..i]))
        invariant sink == old(sink) + Bytes(calls[..i])
        invariant length == old(length) + |Bytes(calls[..i])| - HeaderLength(s0, Bytes(calls[..i]))
      {
        ghost var a, d := Bytes(calls[..i]), Data(calls[i]);
        assert calls[..i + 1] == calls[..i] + [calls[i]];
        BytesAppend(calls[..i], calls[i]);
        CutAnywhere(s0, a, d);
        Perform(calls[i]);
        Reassociate(old(sink), a, d);
        i := i + 1;
      }
      assert calls[..i] == calls;
    }
  }

  // ---- The If-Modified-Since stream ----

  datatype ImsState = EOL | LINE | BODY | JUNK

  const NOT_MODIFIED := "HTTP/1.0 304 Not modified\r\n"
  const FIELD := "last-modified"

  /** The limit of the request, and how times are read. */
  datatype Since = Since(limit: int, parseTime: string -> int)

  /** Does a Last-Modified field name end before the colon at p? */
  predicate FieldEndsAt(s: string, p: nat)
    requires p < |s|
  {
    p >= |FIELD| && LowerCase(s[p - |FIELD|..p]) == FIELD && (p == |FIELD| || s[p - |FIELD| - 1] == LF)
  }

  /** Is the colon at p that of a Last-Modified field that is no later than the limit? */
  predicate OldEnoughAt(q: Since, s: string, p: nat)
    requires p < |s|
  {
    && s[p] == ':' && FieldEndsAt(s, p)
    && q.parseTime(s[p + 1..]) != 0 && q.parseTime(s[p + 1..]) <= q.limit
  }

  /** Do the headers, judged from their second line on, say that nothing is newer? */
  predicate NotModified(q: Since, headers: string) {
    var mime := IndexOf(headers, LF);
    |headers| - mime > 20 && exists p :: mime + 12 <= p < |headers| && OldEnoughAt(q, headers, p)
  }

  datatype Ims = Ims(state: ImsState, buffer: string, sink: string)

  /** The headers are searched, and sent, as a C string; the whole reply is passed as it is. */
  function Decided(q: Since, m: Ims): Ims {
    var headers := CString(m.buffer);
    if NotModified(q, headers) then
      m.(state := JUNK, sink := m.sink + NOT_MODIFIED + headers[AfterFirstLine(headers)..])
    else
      m.(state := BODY, sink := m.sink + m.buffer)
  }

  function AfterFirstLine(s: string): (n: nat)
    ensures n <= |s|
  {
    if IndexOf(s, LF) < |s| then IndexOf(s, LF) + 1 else |s|
  }

  function ImsPut(q: Since, m: Ims, c: char): Ims {
    if m.state.JUNK? then m
    else if m.state.BODY? then m.(sink := m.sink + [c])
    else
      var n := m.(buffer := m.buffer + [c]);
      if c == LF then (if m.state.EOL? then Decided(q, n) else n.(state := EOL))
      else if c == CR then n
      else n.(state := LINE)
  }

  function ImsPutAll(q: Since, m: Ims, s: string): Ims
    decreases |s|
  {
    if s == "" then m else ImsPutAll(q, ImsPut(q, m, s[0]), s[1..])
  }

  lemma {:induction false} ImsAppend(q: Since, m: Ims, a: string, b: string)
    ensures ImsPutAll(q, m, a + b) == ImsPutAll(q, ImsPutAll(q, m, a), b)
    decreases |a|
  {
    if a == "" {
      assert a + b == b;
    } else {
      assert (a + b)[1..] == a[1..] + b;
      ImsAppend(q, ImsPut(q, m, a[0]), a[1..], b);
    }
  }

  /** The state of the stream as a number of line ends seen: it starts at a line start. */
  function LineEnds(state: ImsState): nat {
    match state case LINE => 0 case EOL => 1 case _ => 2
  }

  /** Up to the end of the headers the stream keeps everything and says nothing. */
  lemma {:induction false} ImsCollects(q: Since, m: Ims, s: string)
    requires (m.state.EOL? || m.state.LINE?) && Run(LineEnds(m.state), s) < 2
    ensures var n := ImsPutAll(q, m, s);
      n.buffer == m.buffer + s && n.sink == m.sink && LineEnds(n.state) == Run(LineEnds(m.state), s)
    decreases |s|
  {
    if s == "" {
      assert m.buffer + s == m.buffer;
    } else {
      var n := ImsPut(q, m, s[0]);
      if Step(LineEnds(m.state), s[0]) >= 2 {
        FinalIsFinal(Step(LineEnds(m.state), s[0]), s[1..]);
      }
      ImsCollects(q, n, s[1..]);
      assert m.buffer + [s[0]] + s[1..] == m.buffer + s;
    }
  }

  lemma {:induction false} ImsPasses(q: Since, m: Ims, s: string)
    requires m.state.BODY? || m.state.JUNK?
    ensures ImsPutAll(q, m, s) == if m.state.BODY? then m.(sink := m.sink + s) else m
    decreases |s|
  {
    if s == "" {
      assert m.sink + s == m.sink;
    } else {
      ImsPasses(q, ImsPut(q, m, s[0]), s[1..]);
      assert m.sink + [s[0]] + s[1..] == m.sink + s;
    }
  }

  /**
   The stream outputs its whole input, or the 304 line and the remaining header lines up to the
   first NUL; but a reply whose headers never end is swallowed. The boundary is the one HEAD finds
   behind a line end.
   */
  lemma ImsOutput(q: Since, s: string)
    ensures var n := HeaderLength(1, s);
      var m, headers := ImsPutAll(q, Ims(EOL, "", ""), s), CString(s[..n]);
      if Run(1, s) < 2 then
        m.sink == "" && m.buffer == s
      else if NotModified(q, headers) then
        m.state.JUNK? && m.sink == NOT_MODIFIED + headers[AfterFirstLine(headers)..]
      else
        m.state.BODY? && m.sink == s
    ensures HeaderLength(0, [LF] + s) == 1 + HeaderLength(1, s)
  {
    hide HeaderLength, Run, NotModified, ImsPutAll, ImsPut, CString, AfterFirstLine, LineEnds;
    BehindLineEnd(s);
    if Run(1, s) < 2 {
      StillCollecting(q, s);
    } else {
      RunIsAtMostTwo(1, s);
      ImsDecides(q, s);
      NothingBefore(q, s, HeaderLength(1, s));
    }
  }

  lemma BehindLineEnd(s: string)
    ensures HeaderLength(0, [LF] + s) == 1 + HeaderLength(1, s)
  {
    assert ([LF] + s)[1..] == s;
  }

  lemma StillCollecting(q: Since, s: string)
    requires Run(1, s) < 2
    ensures var m := ImsPutAll(q, Ims(EOL, "", ""), s); m.sink == "" && m.buffer == s
  {
    ImsCollects(q, Ims(EOL, "", ""), s);
    assert "" + s == s;
  }

  /** What is decided with nothing sent before. */
  lemma NothingBefore(q: Since, s: string, n: nat)
    requires n <= |s|
    ensures var d, headers := Decided(q, Ims(EOL, s[..n], "")), CString(s[..n]);
      if NotModified(q, headers) then d.state.JUNK? && d.sink == NOT_MODIFIED + headers[AfterFirstLine(headers)..]
      else d.state.BODY? && d.sink + s[n..] == s
  {
    hide NotModified, CString, AfterFirstLine;
    assert "" + NOT_MODIFIED == NOT_MODIFIED && "" + s[..n] == s[..n] && s[..n] + s[n..] == s;
  }

  lemma ImsDecides(q: Since, s: string)
    requires Run(1, s) == 2
    ensures var n := HeaderLength(1, s);
      var d := Decided(q, Ims(EOL, s[..n], ""));
      ImsPutAll(q, Ims(EOL, "", ""), s) == if d.state.BODY? then d.(sink := d.sink + s[n..]) else d
    ensures s[..HeaderLength(1, s)] + s[HeaderLength(1, s)..] == s
  {
    var n := HeaderLength(1, s);
    ImsReachesBoundary(q, s);
    BoundaryDecides(q, s);
    ImsPasses(q, ImsPut(q, Ims(EOL, s[..n - 1], ""), LF), s[n..]);
  }

  /** The LF that completes the headers makes the stream decide. */
  lemma BoundaryDecides(q: Since, s: string)
    requires Run(1, s) == 2
    ensures var n := HeaderLength(1, s);
      n > 0 && ImsPut(q, Ims(EOL, s[..n - 1], ""), LF) == Decided(q, Ims(EOL, s[..n], ""))
  {
    var n := HeaderLength(1, s);
    HeadersEndInLF(1, s);
    assert s[..n] == s[..n - 1] + [LF];
  }

  lemma ImsReachesBoundary(q: Since, s: string)
    requires Run(1, s) == 2
    ensures var n := HeaderLength(1, s);
      n > 0 && ImsPutAll(q, Ims(EOL, "", ""), s) == ImsPutAll(q, ImsPut(q, Ims(EOL, s[..n - 1], ""), LF), s[n..])
  {
    var m0 := Ims(EOL, "", "");
    var n := HeaderLength(1, s);
    HeadersEndInLF(1, s);
    var init, rest := s[..n - 1], s[n..];
    assert s == init + ([LF] + rest);
    ImsAppend(q, m0, init, [LF] + rest);
    ImsCollects(q, m0, init);
    assert "" + init == init;
    assert ([LF] + rest)[1..] == rest;
  }

  lemma {:induction false} RunIsAtMostTwo(state: nat, s: string)
    requires state <= 2
    ensures Run(state, s) <= 2
    decreases |s|
  {
    if s == "" {
    } else {
      RunIsAtMostTwo(Step(state, s[0]), s[1..]);
    }
  }

  /** The byte that completes the headers is a LF, right behind a line end. */
  lemma {:induction false} HeadersEndInLF(state: nat, s: string)
    requires state < 2 && Run(state, s) == 2
    ensures var n := HeaderLength(state, s);
      n > 0 && s[n - 1] == LF && Run(state, s[..n - 1]) == 1
    decreases |s|
  {
    var t := Step(state, s[0]);
    if t < 2 {
      HeadersEndInLF(t, s[1..]);
      var n := HeaderLength(t, s[1..]);
      assert s[..n][1..] == s[1..][..n - 1];
    } else {
      assert HeaderLength(t, s[1..]) == 0;
      assert s[..0] == "";
    }
  }

  /** The stream counts line ends as HEAD does. */
  lemma {:induction false} ImsAutomaton(q: Since, m: Ims, s: string)
    ensures LineEnds(ImsPutAll(q, m, s).state) == Run(LineEnds(m.state), s)
    decreases |s|
  {
    hide NotModified;
    if s == "" {
    } else {
      assert LineEnds(ImsPut(q, m, s[0]).state) == Step(LineEnds(m.state), s[0]);
      ImsAutomaton(q, ImsPut(q, m, s[0]), s[1..]);
    }
  }

  /** The buffer grows by what belongs to the headers. */
  lemma {:induction false} ImsKeepsHeaders(q: Since, m: Ims, s: string)
    ensures |ImsPutAll(q, m, s).buffer| == |m.buffer| + HeaderLength(LineEnds(m.state), s)
    decreases |s|
  {
    hide NotModified;
    if s == "" {
    } else {
      assert LineEnds(ImsPut(q, m, s[0]).state) == Step(LineEnds(m.state), s[0]);
      ImsKeepsHeaders(q, ImsPut(q, m, s[0]), s[1..]);
    }
  }

  const IMS_BUF_SIZE := 8096

  class ImsStream {
    const q: Since
    var state: ImsState
    const buffer: array<char>
    var index: nat
    var sink: string

    constructor (q: Since)
      ensures Valid() && fresh(buffer) && this.q == q && View() == Ims(EOL, "", "")
    {
      this.q := q;
      state, index, sink := EOL, 0, "";
      buffer := new char[IMS_BUF_SIZE](_ => '\0');
    }

    ghost predicate Valid()
      reads this
    {
      buffer.Length == IMS_BUF_SIZE && index < IMS_BUF_SIZE
    }

    ghost function View(): Ims
      reads this, buffer
      requires Valid()
    {
      Ims(state, buffer[..index], sink)
    }

    /** Look for a Last-Modified field at every colon behind the first line. */
    method ScanFields(s: string) returns (isOld: bool)
      ensures isOld <==> NotModified(q, s)
    {
      var mime := IndexOf(s, LF);
      if mime < |s| && |s| - mime > 20 {
        var p := mime + 12;
        while p < |s|
          invariant mime + 12 <= p
          invariant forall r :: mime + 12 <= r < p && r < |s| ==> !OldEnoughAt(q, s, r)
        {
          if s[p] == ':' && FieldEndsAt(s, p) {
            var t := q.parseTime(s[p + 1..]);
            if t != 0 && t <= q.limit {
              assert OldEnoughAt(q, s, p);
              return true;
            }
          }
          p := p + 1;
        }
      }
      return false;
    }

    method Decide()
      requires Valid() && !state.JUNK? && !state.BODY? && buffer[index] == '\0'
      modifies this`state, this`sink
      ensures Valid() && View() == Decided(q, old(View()))
    {
      var s := CString(buffer[..]);
      CStringStops(buffer[..], index);
      assert buffer[..][..index] == buffer[..index];
      var isOld := ScanFields(s);
      hide NotModified, CString;
      if isOld {
        state := JUNK;
        sink := sink + NOT_MODIFIED;
        sink := sink + s[AfterFirstLine(s)..];
      } else {
        state := BODY;
        sink := sink + buffer[..index];
      }
    }

    method PutChar(c: char)
      requires Valid() && (state.JUNK? || state.BODY? || index + 1 < IMS_BUF_SIZE)
      modifies this, buffer
      ensures Valid() && View() == ImsPut(q, old(View()), c)
      ensures index == old(index) + HeaderLength(LineEnds(old(state)), [c])
      ensures LineEnds(state) == Step(LineEnds(old(state)), c)
    {
      assert [c][1..] == "";
      if state.JUNK? {
        return;
      }
      if state.BODY? {
        sink := sink + [c];
        return;
      }
      buffer[index] := c;
      index := index + 1;
      assert buffer[..index] == old(buffer[..index]) + [c];
      if c == LF {
        if state.EOL? {
          buffer[index] := '\0';
          Decide();
        } else {
          state := EOL;
        }
      } else if c != CR {
        state := LINE;
      }
    }

    method PutBlock(b: string)
      requires Valid() && index + HeaderLength(LineEnds(state), b) < IMS_BUF_SIZE
      modifies this, buffer
      ensures Valid() && View() == ImsPutAll(q, old(View()), b)
    {
      ghost var m := View();
      if state.JUNK? {
        ImsPasses(q, m, b);
        return;
      }
      var i := 0;
      assert b[0..] == b;
      while !state.BODY? && !state.JUNK? && i < |b|
        invariant i <= |b| && Valid()
        invariant index + HeaderLength(LineEnds(state), b[i..]) < IMS_BUF_SIZE
        invariant ImsPutAll(q, View(), b[i..]) == ImsPutAll(q, m, b)
        decreases |b| - i
      {
        assert b[i..][1..] == b[i + 1..];
        assert [b[i]][1..] == "";
        PutChar(b[i]);
        i := i + 1;
      }
      if state.BODY? {
        ImsPasses(q, View(), b[i..]);
        sink := sink + b[i..];
      } else if state.JUNK? {
        ImsPasses(q, View(), b[i..]);
      }
    }

    method Perform(call: Call)
      requires Valid() && index + HeaderLength(LineEnds(state), Data(call)) < IMS_BUF_SIZE
      modifies this, buffer
      ensures Valid() && View() == ImsPutAll(q, old(View()), Data(call))
      ensures index == old(index) + HeaderLength(LineEnds(old(state)), Data(call))
      ensures LineEnds(state) == Run(LineEnds(old(state)), Data(call))
    {
      match call
      case Char(c) =>
        assert [c][1..] == "";
        PutChar(c);
      case Block(data) =>
        ghost var m := View();
        ImsAutomaton(q, m, data);
        ImsKeepsHeaders(q, m, data);
        PutBlock(data);
    }

    /** Whatever calls are made, if the headers fit the buffer. */
    method Receive(calls: seq<Call>)
      requires Valid() && index + HeaderLength(LineEnds(state), Bytes(calls)) < IMS_BUF_SIZE
      modifies this, buffer
      ensures Valid() && View() == ImsPutAll(q, old(View()), Bytes(calls))
    {
      hide Run, HeaderLength, Data, LineEnds, ImsPut;
      ghost var m, s0 := View(), LineEnds(state);
      var i := 0;
      assert calls[0..] == calls;
      while i < |calls|
        invariant i <= |calls| && Valid()
        invariant index + HeaderLength(LineEnds(state), Bytes(calls[i..])) < IMS_BUF_SIZE
        invariant ImsPutAll(q, View(), Bytes(calls[i..])) == ImsPutAll(q, m, Bytes(calls))
      {
        ghost var v, d, more := View(), Data(calls[i]), Bytes(calls[i + 1..]);
        assert calls[i..][1..] == calls[i + 1..];
        assert Bytes(calls[i..]) == d + more;
        HeaderLengthAppend(LineEnds(state), d, more);
        ImsAppend(q, v, d, more);
        Perform(calls[i]);
        i := i + 1;
      }
    }
  }

  // ---- Sending a cached file ----

  const EXPIRES_LINE := CacheWriter.EXPIRES_LINE
  const NAME := "Expires: "
  const NOTICE := "X-Proxy-Notice: Expiry checking disabled. "
  const TIME_LEN := 33

  /** A time as http_time prints it: it fits the place kept for it, and is on one line. */
  predicate IsTime(t: string) { |t| <= TIME_LEN && CR !in t && LF !in t }

  function Padded(t: string): (r: string)
    ensures |t| <= TIME_LEN ==> |r| == TIME_LEN
    decreases TIME_LEN - |t|
  {
    if |t| < TIME_LEN then Padded(t + [' ']) else t
  }

  /** What replaces the placeholder line, without its line end. */
  function FillIn(expires: int, timestr: string): string {
    if expires != 0 then NAME + Padded(timestr) else NOTICE
  }

  /** The first buffer load with the expiry time in place of the placeholder, if that is there. */
  function Filled(s: string, expires: int, timestr: string): string {
    var e := Find(CString(s), EXPIRES_LINE);
    if e < 0 || e + |EXPIRES_LINE| > |s| then s
    else s[..e] + FillIn(expires, timestr) + [CR, LF] + s[e + |EXPIRES_LINE|..]
  }

  predicate OneLine(s: string) { CR !in s && LF !in s }

  lemma {:induction false} PaddedIsOneLine(t: string)
    requires IsTime(t)
    ensures OneLine(Padded(t))
    decreases TIME_LEN - |t|
  {
    if |t| >= TIME_LEN {
    } else {
      PaddedIsOneLine(t + [' ']);
    }
  }

  lemma FillInFits(expires: int, timestr: string)
    requires IsTime(timestr)
    ensures OneLine(FillIn(expires, timestr)) && |FillIn(expires, timestr)| == |EXPIRES_LINE| - 2
  {
    hide Padded;
    PaddedIsOneLine(timestr);
    NameIsOneLine();
    NoticeIsOneLine();
    OneLineAppend(NAME, Padded(timestr));
    hide OneLine;
  }

  lemma NameIsOneLine()
    ensures OneLine(NAME) && |NAME| + TIME_LEN == |EXPIRES_LINE| - 2
  {
  }

  lemma NoticeIsOneLine()
    ensures OneLine(NOTICE) && |NOTICE| == |NAME| + TIME_LEN
  {
  }

  lemma OneLineAppend(a: string, b: string)
    requires OneLine(a) && OneLine(b)
    ensures OneLine(a + b)
  {
  }

  lemma PlaceholderIsOneLine()
    ensures OneLine(EXPIRES_LINE[..|EXPIRES_LINE| - 2]) && EXPIRES_LINE[|EXPIRES_LINE| - 2..] == [CR, LF]
  {
    var s := EXPIRES_LINE;
    assert forall i :: 0 <= i < |s| - 2 ==> s[i] != CR && s[i] != LF;
  }

  lemma {:induction false} CStringIsPrefix(s: string)
    ensures CString(s) <= s
  {
    if s == "" || s[0] == '\0' {
    } else {
      CStringIsPrefix(s[1..]);
    }
  }

  /** On one line of text the automaton forgets what it has seen. */
  lemma {:induction false} OneLineResets(state: nat, s: string)
    requires OneLine(s) && s != "" && state < 2
    ensures Run(state, s) == 0 && HeaderLength(state, s) == |s|
    decreases |s|
  {
    if |s| == 1 {
      assert s[1..] == "";
    } else {
      OneLineResets(Step(state, s[0]), s[1..]);
    }
  }

  /** Three pieces in a row. */
  lemma RunThrough(a: string, m: string, b: string)
    ensures var st := Run(0, a);
      && Run(0, a + m + b) == Run(Run(st, m), b)
      && HeaderLength(0, a + m + b) == HeaderLength(0, a) + HeaderLength(st, m) + HeaderLength(Run(st, m), b)
  {
    hide Run, HeaderLength;
    RunAppend(0, a + m, b);
    RunAppend(0, a, m);
    HeaderLengthAppend(0, a + m, b);
    HeaderLengthAppend(0, a, m);
  }

  lemma OneLineSteps(state: nat, was: string, now: string)
    requires |was| == |now| > 0 && OneLine(was) && OneLine(now)
    ensures Run(state, was) == Run(state, now) && HeaderLength(state, was) == HeaderLength(state, now)
  {
    if state < 2 {
      OneLineResets(state, was);
      OneLineResets(state, now);
    } else {
      FinalIsFinal(state, was);
      FinalIsFinal(state, now);
    }
  }

  /** Replacing text inside one line by as much other text moves no boundary. */
  lemma SameBoundary(a: string, was: string, now: string, b: string)
    requires |was| == |now| > 0 && OneLine(was) && OneLine(now)
    ensures |a + was + b| == |a + now + b|
    ensures HeaderLength(0, a + was + b) == HeaderLength(0, a + now + b)
    ensures Run(0, a + was + b) == Run(0, a + now + b)
  {
    RunThrough(a, was, b);
    RunThrough(a, now, b);
    OneLineSteps(Run(0, a), was, now);
  }

  /** Replacing the text of a line that occurs at e. */
  lemma ReplaceKeepsBoundary(s: string, rest: string, e: nat, was: string, text: string)
    requires |was| == |text| > 0 && OneLine(was) && OneLine(text)
    requires e + |was| + 2 <= |s| && s[e..e + |was| + 2] == was + [CR, LF]
    ensures var f := s[..e] + text + [CR, LF] + s[e + |was| + 2..];
      |f| == |s| && HeaderLength(0, f + rest) == HeaderLength(0, s + rest)
  {
    var tail := [CR, LF] + s[e + |was| + 2..];
    var f := s[..e] + text + [CR, LF] + s[e + |was| + 2..];
    assert s == s[..e] + s[e..e + |was| + 2] + s[e + |was| + 2..];
    assert s == s[..e] + was + tail;
    assert f == s[..e] + text + tail;
    SameBoundary(s[..e], was, text, tail + rest);
    assert s + rest == s[..e] + was + (tail + rest);
    assert f + rest == s[..e] + text + (tail + rest);
  }

  /** The fill-in preserves the length of the file and the place where its headers end. */
  lemma FillInKeepsBoundary(s: string, rest: string, expires: int, timestr: string)
    requires IsTime(timestr)
    ensures var f := Filled(s, expires, timestr);
      |f| == |s| && HeaderLength(0, f + rest) == HeaderLength(0, s + rest)
  {
    hide HeaderLength, Run, CString, OneLine, FillIn;
    var line := EXPIRES_LINE;
    var e := Find(CString(s), line);
    CStringIsPrefix(s);
    if e >= 0 && e + |line| <= |s| {
      FillInFits(expires, timestr);
      PlaceholderIsOneLine();
      var n := |line|;
      var was := line[..n - 2];
      assert line == was + [CR, LF];
      assert s[e..e + n] == CString(s)[e..e + n];
      ReplaceKeepsBoundary(s, rest, e, was, FillIn(expires, timestr));
    }
  }

  /** The file as it is sent: the expiry time goes into the first buffer load. */
  function FilledFile(chunks: seq<string>, expires: int, timestr: string): string {
    if chunks == [] then "" else Filled(chunks[0], expires, timestr) + Concat(chunks[1..])
  }

  /** How far the scan for the end of the headers has come. */
  datatype Scan = Scan(headers: bool, flag: bool, headerLength: nat, contentLength: nat)

  /** The scan has seen exactly the text `sent`. */
  ghost predicate HasSeen(v: Scan, sent: string) {
    && (if v.headers then Run(0, sent) == (if v.flag then 1 else 0) && v.contentLength == 0 else Run(0, sent) == 2)
    && v.headerLength == HeaderLength(0, sent) && v.headerLength + v.contentLength == |sent|
  }

  /** Send a cached file; the expiry time goes into the first buffer load. */
  method LoadCacheToStream(chunks: seq<string>, http1: bool, expires: int, timestr: string)
    returns (sink: string, headerLength: nat, contentLength: nat)
    requires IsTime(timestr)
    ensures headerLength == HeaderLength(0, Concat(chunks))
    ensures headerLength + contentLength == |Concat(chunks)| == |FilledFile(chunks, expires, timestr)|
    ensures sink == FilledFile(chunks, expires, timestr)[if http1 then 0 else headerLength..]
  {
    var loads := chunks;
    if chunks != [] {
      var first := Filled(chunks[0], expires, timestr);
      loads := [first] + chunks[1..];
      assert loads[1..] == chunks[1..];
      FillInKeepsBoundary(chunks[0], Concat(chunks[1..]), expires, timestr);
    }
    sink, headerLength, contentLength := SendLoads(loads, http1);
  }

  lemma OneMoreLoad(loads: seq<string>, k: nat)
    requires k < |loads|
    ensures Concat(loads[..k + 1]) == Concat(loads[..k]) + loads[k]
  {
    assert loads[..k + 1] == loads[..k] + [loads[k]];
    ConcatAppend(loads[..k], loads[k]);
  }

  /** Send buffer load by buffer load, with or without the headers. */
  method SendLoads(loads: seq<string>, http1: bool)
    returns (sink: string, headerLength: nat, contentLength: nat)
    ensures headerLength == HeaderLength(0, Concat(loads))
    ensures headerLength + contentLength == |Concat(loads)|
    ensures sink == Concat(loads)[if http1 then 0 else headerLength..]
  {
    hide HeaderLength, Run, HasSeen, Concat;
    sink := "";
    var v := Scan(true, false, 0, 0);
    ghost var sent := "";
    NothingSeen();
    AllOrNothing(loads);
    for k := 0 to |loads|
      invariant sent == Concat(loads[..k]) && HasSeen(v, sent)
      invariant v.headerLength <= |sent| && sink == sent[if http1 then 0 else v.headerLength..]
    {
      var piece;
      v, piece := SendBuffer(loads[k], http1, v, sent);
      sink := sink + piece;
      OneMoreLoad(loads, k);
      sent := sent + loads[k];
    }
    headerLength, contentLength := v.headerLength, v.contentLength;
    LengthsSeen(v, sent);
  }

  lemma NothingSeen()
    ensures HasSeen(Scan(true, false, 0, 0), "")
  {
  }

  lemma AllOrNothing(loads: seq<string>)
    ensures Concat(loads[..0]) == "" && Concat(loads[..|loads|]) == Concat(loads)
  {
    assert loads[..|loads|] == loads;
  }

  lemma LengthsSeen(v: Scan, sent: string)
    requires HasSeen(v, sent)
    ensures v.headerLength == HeaderLength(0, sent) && v.headerLength + v.contentLength == |sent|
  {
  }

  /** Scan one buffer load as long as the headers last, and send what is to be sent of it. */
  method SendBuffer(buffer: string, http1: bool, v: Scan, ghost before: string) returns (w: Scan, piece: string)
    requires HasSeen(v, before)
    ensures HasSeen(w, before + buffer) && v.headerLength <= |before| && w.headerLength <= |before + buffer|
    ensures before[if http1 then 0 else v.headerLength..] + piece
      == (before + buffer)[if http1 then 0 else w.headerLength..]
  {
    HeaderLengthAppend(0, before, buffer);
    RunAppend(0, before, buffer);
    if v.headers {
      w := v;
      ghost var st := Run(0, before);
      assert HeaderLength(st, buffer[..0]) == 0;
      var i := 0;
      while i < |buffer|
        invariant i <= |buffer| && w.headers && w.contentLength == 0
        invariant Run(st, buffer[..i]) == (if w.flag then 1 else 0)
        invariant w.headerLength == |before| + i
      {
        ScanOne(st, buffer, i);
        w := w.(headerLength := w.headerLength + 1);
        if w.flag {
          if buffer[i] == LF {
            w := w.(headers := false, contentLength := |buffer| - i - 1);
            break;
          } else if buffer[i] != CR {
            w := w.(flag := false);
          }
        } else if buffer[i] == LF {
          w := w.(flag := true);
        }
        i := i + 1;
      }
      if w.headers {
        assert buffer[..i] == buffer;
        HeaderLengthAppend(st, buffer, "");
      }
      piece := if http1 then buffer else if w.headers then "" else buffer[i + 1..];
    } else {
      FinalIsFinal(2, buffer);
      w := v.(contentLength := v.contentLength + |buffer|);
      piece := buffer;
    }
  }

  /** One byte of a buffer load, seen by the automaton. */
  lemma ScanOne(state: nat, s: string, i: nat)
    requires i < |s| && Run(state, s[..i]) < 2
    ensures Run(state, s[..i + 1]) == Step(Run(state, s[..i]), s[i])
    ensures Run(state, s[..i + 1]) == 2 ==> Run(state, s) == 2 && HeaderLength(state, s) == i + 1
  {
    assert s[..i + 1] == s[..i] + [s[i]];
    assert [s[i]][1..] == "";
    RunAppend(state, s[..i], [s[i]]);
    HeaderLengthAppend(state, s[..i], [s[i]]);
    assert s == s[..i + 1] + s[i + 1..];
    RunAppend(state, s[..i + 1], s[i + 1..]);
    HeaderLengthAppend(state, s[..i + 1], s[i + 1..]);
    if Run(state, s[..i + 1]) == 2 {
      FinalIsFinal(2, s[i + 1..]);
    }
  }

  // ---- The cache writer's boundary ----

  /** A line that begins like text leaves the automaton at a line start. */
  lemma TextLineRuns(state: nat, line: string)
    requires CacheWriter.IsHeader(line) && state < 2
    ensures Run(state, line) == 1
  {
    var init := line[..|line| - 1];
    assert line == init + [LF];
    RunAppend(state, init, [LF]);
    assert [LF][1..] == "";
    RestOfLine(0, init[1..]);
    assert Step(state, init[0]) == 0;
  }

  lemma {:induction false} RestOfLine(state: nat, s: string)
    requires LF !in s && state <= 1
    ensures Run(state, s) == if forall i :: 0 <= i < |s| ==> s[i] == CR then state else 0
    decreases |s|
  {
    if s == "" {
    } else {
      RestOfLine(Step(state, s[0]), s[1..]);
      assert forall i :: 1 <= i < |s| ==> s[i] == s[1..][i - 1];
    }
  }

  lemma {:induction false} TextLinesRun(headers: seq<string>)
    requires forall h :: h in headers ==> CacheWriter.IsHeader(h)
    ensures Run(1, Concat(headers)) == 1
  {
    if headers == [] {
    } else {
      TextLineRuns(1, headers[0]);
      RunAppend(1, headers[0], Concat(headers[1..]));
      TextLinesRun(headers[1..]);
    }
  }

  /**
   The cache writer ends the headers at the first line that begins with CR or LF. HEAD ends
   them there, too, if and only if there is nothing on that line but CRs.
   */
  lemma WriterAgreesWithHead(status: string, headers: seq<string>, blank: string)
    requires CacheWriter.IsHeader(status) && CacheWriter.IsLine(blank) && CacheWriter.IsBlank(blank)
    requires forall h :: h in headers ==> CacheWriter.IsHeader(h)
    ensures Run(0, status + Concat(headers)) == 1
    ensures Run(0, status + Concat(headers) + blank) == 2 <==>
      forall i :: 0 <= i < |blank| - 1 ==> blank[i] == CR
  {
    TextLineRuns(0, status);
    TextLinesRun(headers);
    RunAppend(0, status, Concat(headers));
    RunAppend(0, status + Concat(headers), blank);
    BlankLineRuns(blank);
  }

  lemma BlankLineRuns(blank: string)
    requires CacheWriter.IsLine(blank)
    ensures Run(1, blank) == 2 <==> forall i :: 0 <= i < |blank| - 1 ==> blank[i] == CR
  {
    var init := blank[..|blank| - 1];
    assert blank == init + [LF];
    RunAppend(1, init, [LF]);
    RestOfLine(1, init);
    LineEndRuns(Run(1, init));
  }

  lemma LineEndRuns(state: nat)
    ensures Run(state, [LF]) == Step(state, LF)
  {
    assert [LF][1..] == "";
  }
}
