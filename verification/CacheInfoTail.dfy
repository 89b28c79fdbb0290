/**
 An info log whose last line is not terminated: what becomes of an entry that is appended to
 it. The entry is joined to the end of that line, as far as fgets has not cut it off.
 */
module CacheInfoTail {
  import opened Text
  import opened CacheInfo

  /** As many characters as fgets takes at once: one less than the buffer has. */
  const LOAD := 255

  /** The characters of five numbers at their longest. */
  const FIELDS_LEN := 105

  function LineStart(s: string): (n: nat)
    ensures n <= |s| && LF !in s[n..] && EndsInLine(s[..n])
  {
    if s == "" || s[|s| - 1] == LF then |s|
    else
      var n := LineStart(s[..|s| - 1]);
      assert s[n..] == s[..|s| - 1][n..] + [s[|s| - 1]];
      assert s[..|s| - 1][..n] == s[..n];
      n
  }

  /** The place where fgets will stop last before it meets what comes next. */
  function LastStop(s: string): (n: nat)
    ensures LineStart(s) <= n <= |s| && |s| - n < LOAD
  {
    |s| - (|s| - LineStart(s)) % LOAD
  }

  /** What fgets will read together with the beginning of what comes next. */
  function Torn(s: string): string { s[LastStop(s)..] }

  predicate AllSpace(s: string) { forall i :: 0 <= i < |s| ==> IsSpace(s[i]) }

  /** Nothing is left over, or white space that leaves room for any entry of that name. */
  predicate TailIsClean(s: string, name: string) {
    var t := Torn(s);
    t == "" || (AllSpace(t) && |t| + |name| + FIELDS_LEN <= LOAD)
  }

  // ---- Where fgets stops ----

  lemma {:induction false} WholeLinesStandAlone(u: string, b: string)
    requires EndsInLine(u)
    ensures Lines(u + b) == Lines(u) + Lines(b)
    decreases |u|
  {
    if u == "" {
      assert u + b == b;
    } else {
      var n, t := LineLength(u), u + b;
      TakesSameLine(u, b);
      assert t[..n] == u[..n];
      assert t[n..] == u[n..] + b;
      WholeLinesStandAlone(u[n..], b);
    }
  }

  lemma {:induction false} NoLineEnd(v: string, b: string)
    requires LF !in v
    ensures IndexOf(v + b, LF) >= |v|
  {
    if v == "" {
      assert v + b == b;
    } else {
      assert (v + b)[1..] == v[1..] + b;
      NoLineEnd(v[1..], b);
    }
  }

  lemma LongLineIsCut(v: string, b: string)
    requires LF !in v && |v| >= LOAD
    ensures LineLength(v + b) == LOAD
  {
    NoLineEnd(v, b);
  }

  lemma Reassociate<T>(a: seq<T>, b: seq<T>, c: seq<T>)
    ensures a + (b + c) == a + b + c
  {
  }

  lemma {:induction false} FullLoadsStandAlone(v: string, b: string, loads: nat)
    requires LF !in v && |v| == loads * LOAD
    ensures Lines(v + b) == Lines(v) + Lines(b)
    decreases loads
  {
    if loads == 0 {
      assert v + b == b;
    } else {
      LoadIsTaken(v, b);
      LoadIsTaken(v, "");
      assert v + "" == v && v[LOAD..] + "" == v[LOAD..];
      assert LF !in v[LOAD..] by {
        assert forall i :: 0 <= i < |v[LOAD..]| ==> v[LOAD..][i] == v[LOAD + i];
      }
      FullLoadsStandAlone(v[LOAD..], b, loads - 1);
      Reassociate([v[..LOAD]], Lines(v[LOAD..]), Lines(b));
    }
  }

  lemma LoadIsTaken(v: string, b: string)
    requires LF !in v && |v| >= LOAD
    ensures Lines(v + b) == [v[..LOAD]] + Lines(v[LOAD..] + b)
  {
    LongLineIsCut(v, b);
    assert (v + b)[..LOAD] == v[..LOAD];
    assert (v + b)[LOAD..] == v[LOAD..] + b;
  }

  lemma {:induction false} ParsedConcat(a: seq<string>, b: seq<string>)
    ensures Parsed(a + b) == Parsed(a) + Parsed(b)
  {
    if a == [] {
      assert a + b == b;
    } else {
      var all := a + b;
      assert all[1..] == a[1..] + b && all[0] == a[0];
      ParsedConcat(a[1..], b);
      assert RecordIn(a[0]) + (Parsed(a[1..]) + Parsed(b)) == RecordIn(a[0]) + Parsed(a[1..]) + Parsed(b);
    }
  }

  lemma LinesSplit(u: string, v: string, b: string, loads: nat)
    requires EndsInLine(u) && LF !in v && |v| == loads * LOAD
    ensures Lines(u + (v + b)) == Lines(u + v) + Lines(b)
  {
    WholeLinesStandAlone(u, v + b);
    WholeLinesStandAlone(u, v);
    FullLoadsStandAlone(v, b, loads);
    Reassociate(Lines(u), Lines(v), Lines(b));
  }

  /** From the start of the last line to the last stop there are only full loads without a line end. */
  lemma LoadsToLastStop(s: string) returns (loads: nat)
    ensures var n, k := LineStart(s), LastStop(s);
      |s[n..k]| == loads * LOAD && LF !in s[n..k]
  {
    var n, k := LineStart(s), LastStop(s);
    loads := (|s| - n) / LOAD;
    assert k - n == loads * LOAD;
    assert s[n..k] == s[n..][..k - n];
  }

  lemma CutAtStop(s: string, more: string, n: nat, k: nat)
    requires n <= k <= |s|
    ensures s + more == s[..n] + (s[n..k] + (s[k..] + more)) && s[..k] == s[..n] + s[n..k]
  {
  }

  /** Up to the last stop the log is read as if nothing came behind it. */
  lemma SplitAtLastStop(s: string, more: string)
    ensures Records(s + more) == Records(s[..LastStop(s)]) + Records(Torn(s) + more)
  {
    var n, k := LineStart(s), LastStop(s);
    var loads := LoadsToLastStop(s);
    hide LineStart, LastStop, Lines, Parsed;
    CutAtStop(s, more, n, k);
    LinesSplit(s[..n], s[n..k], Torn(s) + more, loads);
    ParsedConcat(Lines(s[..n] + s[n..k]), Lines(Torn(s) + more));
  }

  lemma TornHasNoLineEnd(s: string)
    ensures LF !in Torn(s) && |Torn(s)| < LOAD
  {
    var n := LineStart(s);
    assert forall i :: 0 <= i < |Torn(s)| ==> Torn(s)[i] == s[n..][LastStop(s) - n + i];
  }

  lemma TwoLines(a: string, b: string)
    requires LF !in a && LF !in b && |a| == LOAD && |b| < LOAD
    ensures Lines(a + (b + [LF])) == [a, b + [LF]]
  {
    var y := a + (b + [LF]);
    LongLineIsCut(a, b + [LF]);
    OneLine(b);
    assert y[..LOAD] == a && y[LOAD..] == b + [LF];
  }

  /** A text with one LF, at its end, that is longer than what fgets takes at once. */
  lemma CutInTwo(x: string)
    requires LF !in x && LOAD <= |x| < 2 * LOAD
    ensures Lines(x + [LF]) == [x[..LOAD], x[LOAD..] + [LF]]
  {
    TwoLines(x[..LOAD], x[LOAD..]);
    assert x + [LF] == x[..LOAD] + (x[LOAD..] + [LF]);
  }

  lemma OneLine(x: string)
    requires LF !in x && |x| < LOAD
    ensures Lines(x + [LF]) == [x + [LF]]
  {
    IndexOfFirst(x, LF, "");
    var y := x + [LF];
    assert y + "" == y && LineLength(y) == |y|;
    assert y[..|y|] == y && y[|y|..] == "";
  }

  // ---- White space around a record ----

  lemma {:induction false} SpaceIsSkipped(t: string, y: string)
    requires AllSpace(t)
    ensures SkipSpace(t + y) == SkipSpace(y)
  {
    if t == "" {
      assert t + y == y;
    } else {
      assert (t + y)[1..] == t[1..] + y;
      SpaceIsSkipped(t[1..], y);
    }
  }

  lemma SpaceInFront(t: string, y: string)
    requires AllSpace(t)
    ensures ParseLine(t + y) == ParseLine(y)
  {
    SpaceIsSkipped(t, y);
  }

  lemma {:induction false} SkipSpaceBehind(y: string)
    ensures SkipSpace(y + [LF]) == if SkipSpace(y) == "" then "" else SkipSpace(y) + [LF]
  {
    if y == "" {
      assert ([LF] + "")[1..] == "" && y + [LF] == [LF];
    } else {
      assert (y + [LF])[1..] == y[1..] + [LF];
      if IsSpace(y[0]) { SkipSpaceBehind(y[1..]); }
    }
  }

  lemma {:induction false} DigitRunBehind(u: string, b: string)
    requires b == "" || !IsDigit(b[0])
    ensures DigitRun(u + b) == DigitRun(u)
  {
    if u == "" {
      assert u + b == b;
    } else {
      assert (u + b)[1..] == u[1..] + b;
      DigitRunBehind(u[1..], b);
    }
  }

  lemma {:induction false} DigitsBehind(u: string, b: string, n: int)
    requires b == "" || !IsDigit(b[0])
    ensures Digits(u + b, n) == Digits(u, n)
    decreases |u|
  {
    if u == "" {
      assert u + b == b;
    } else {
      assert (u + b)[1..] == u[1..] + b;
      if IsDigit(u[0]) { DigitsBehind(u[1..], b, 10 * n + (u[0] - '0') as int); }
    }
  }

  lemma {:induction false} SkipSpaceBefore(a: string, b: string)
    requires SkipSpace(a) != ""
    ensures SkipSpace(a + b) == SkipSpace(a) + b
  {
    assert (a + b)[1..] == a[1..] + b;
    if !IsSpace(a[0]) {
    } else {
      SkipSpaceBefore(a[1..], b);
    }
  }

  lemma DigitsEnd(u: string, b: string)
    requires b == "" || !IsDigit(b[0])
    ensures DigitRun(u + b) == DigitRun(u) && Digits(u + b, 0) == Digits(u, 0)
    ensures (u + b)[DigitRun(u)..] == u[DigitRun(u)..] + b
  {
    DigitRunBehind(u, b);
    DigitsBehind(u, b, 0);
  }

  /** A number that has begun does not depend on what stands behind its digits. */
  lemma NumberBehind(a: string, b: string)
    requires SkipSpace(a) != "" && (b == "" || !IsDigit(b[0]))
    ensures ScanLong(a + b).Some? <==> ScanLong(a).Some?
    ensures ScanLong(a).Some? ==>
      ScanLong(a + b).value.0 == ScanLong(a).value.0 && ScanLong(a + b).value.1 == ScanLong(a).value.1 + b
  {
    hide SkipSpace, DigitRun, Digits;
    SkipSpaceBefore(a, b);
    var t := SkipSpace(a);
    if t[0] == '-' || t[0] == '+' {
      assert (t + b)[1..] == t[1..] + b;
      DigitsEnd(t[1..], b);
    } else {
      DigitsEnd(t, b);
    }
  }

  lemma NumberInFrontOfLF(a: string)
    ensures ScanLong(a + [LF]).Some? <==> ScanLong(a).Some?
    ensures ScanLong(a).Some? ==>
      ScanLong(a + [LF]).value.0 == ScanLong(a).value.0 && ScanLong(a + [LF]).value.1 == ScanLong(a).value.1 + [LF]
  {
    if SkipSpace(a) == "" {
      SkipSpaceBehind(a);
    } else {
      NumberBehind(a, [LF]);
    }
  }

  lemma {:induction false} NumbersInFrontOfLF(a: string, k: nat)
    ensures ScanLongs(a + [LF], k) == ScanLongs(a, k)
    decreases k
  {
    hide ScanLong;
    if k == 0 {
    } else {
      NumberInFrontOfLF(a);
      if ScanLong(a).Some? { NumbersInFrontOfLF(ScanLong(a).value.1, k - 1); }
    }
  }

  lemma {:induction false} NameRunBehind(u: string, b: string)
    requires b == "" || IsSpace(b[0])
    ensures NameRun(u + b) == NameRun(u)
  {
    if u == "" {
      assert u + b == b;
    } else {
      assert (u + b)[1..] == u[1..] + b;
      NameRunBehind(u[1..], b);
    }
  }

  /** The line end makes no difference to sscanf. */
  lemma LineEndIsIgnored(y: string)
    ensures ParseLine(y + [LF]) == ParseLine(y)
  {
    SkipSpaceBehind(y);
    var t := SkipSpace(y);
    if t != "" {
      var k := NameRun(t);
      NameRunBehind(t, [LF]);
      assert (t + [LF])[..k] == t[..k] && (t + [LF])[k..] == t[k..] + [LF];
      NumbersInFrontOfLF(t[k..], 5);
    }
  }

  // ---- Behind a clean tail ----

  /** A record as it is written, without its line end. */
  function Written(r: Record): string { r.name + Fields(Values(r)) }

  lemma TextOfRecord(r: Record)
    requires Storable(r)
    ensures Line(r) == Written(r) + [LF] && LF !in Written(r) && |Written(r)| <= |r.name| + FIELDS_LEN
    ensures ParseLine(Written(r)) == Some(r)
  {
    FieldsAreShort(Values(r));
    LineRoundTrip(r);
    LineEndIsIgnored(Written(r));
  }

  lemma RecordsOfOne(line: string)
    ensures Parsed([line]) == RecordIn(line)
  {
    assert [line][1..] == [];
    assert RecordIn(line) + [] == RecordIn(line);
  }

  lemma RecordsOfTwo(a: string, b: string)
    ensures Parsed([a, b]) == RecordIn(a) + RecordIn(b)
  {
    assert [a, b] == [a] + [b];
    ParsedConcat([a], [b]);
    RecordsOfOne(a);
    RecordsOfOne(b);
  }

  lemma NothingOnEmptyLine(x: string)
    requires AllSpace(x)
    ensures RecordIn(x) == []
  {
    SpaceIsSkipped(x, "");
    assert x + "" == x;
  }

  /** Behind white space that leaves room for it the entry is read as it was written. */
  lemma EntryBehindSpace(t: string, r: Record)
    requires Storable(r) && AllSpace(t) && LF !in t && |t| + |Written(r)| <= LOAD
    ensures Records(t + Line(r)) == [r] && Records(t) == []
  {
    hide Storable, Written, Fields, ParseLine, Parsed;
    TextOfRecord(r);
    SpaceInFront(t, Written(r));
    var x := t + Written(r);
    assert t + Line(r) == x + [LF];
    assert LF !in x;
    LineEndIsIgnored(x);
    if |x| < LOAD {
      OneLine(x);
      RecordsOfOne(x + [LF]);
    } else {
      CutInTwo(x);
      assert x[..LOAD] == x && x[LOAD..] + [LF] == [LF];
      NothingOnEmptyLine([LF]);
      RecordsOfTwo(x, [LF]);
    }
    NothingIsRead(t);
  }

  lemma {:induction false} NothingIsRead(t: string)
    requires AllSpace(t)
    ensures Records(t) == []
    decreases |t|
  {
    if t == "" {
    } else {
      var n := LineLength(t);
      NothingOnEmptyLine(t[..n]);
      NothingIsRead(t[n..]);
    }
  }

  /** Appending to a log with a clean tail adds exactly the record. */
  lemma CleanTailAddsRecord(s: string, r: Record)
    requires Storable(r) && (Torn(s) == "" || (AllSpace(Torn(s)) && |Torn(s)| + |Written(r)| <= LOAD))
    ensures Records(s + Line(r)) == Records(s) + [r]
  {
    SplitAtLastStop(s, Line(r));
    SplitAtLastStop(s, "");
    CleanTailIsOver(s, r);
    hide Records, LastStop, Torn, Line, Written, Storable, AllSpace;
    assert s + "" == s && Torn(s) + "" == Torn(s);
    var before := Records(s[..LastStop(s)]);
    assert before + [] == before;
  }

  lemma CleanTailIsOver(s: string, r: Record)
    requires Storable(r) && (Torn(s) == "" || (AllSpace(Torn(s)) && |Torn(s)| + |Written(r)| <= LOAD))
    ensures Records(Torn(s) + Line(r)) == [r] && Records(Torn(s)) == []
  {
    TornHasNoLineEnd(s);
    LineAlone(r);
    hide Records, LastStop, Torn, Line, Written, Storable, AllSpace;
    if Torn(s) != "" {
      EntryBehindSpace(Torn(s), r);
    } else {
      assert "" + Line(r) == Line(r);
    }
  }

  lemma LineAlone(r: Record)
    requires Storable(r)
    ensures Records(Line(r)) == [r] && Records("") == []
  {
    NothingInNoText();
    hide Records, Line, Storable;
    AppendAddsRecord("", r);
    assert "" + Line(r) == Line(r);
  }

  // ---- Behind any other tail ----

  /** The smallest number, which takes the most characters. */
  const LEAST := -LONG_LIMIT

  predicate LongestNumber(d: int) { LEAST <= d <= LEAST + 2 }

  /** A record whose numbers are as long as they can be; d tells several of them apart. */
  function Probe(name: string, d: int): Record { Record(name, d, LEAST, LEAST, LEAST, LEAST) }

  lemma {:induction false} DecimalLength(n: nat, k: nat)
    requires Pow10(k) <= n < Pow10(k + 1)
    ensures |DecimalNat(n)| == k + 1
  {
    if k == 0 {
    } else {
      DecimalLength(n / 10, k - 1);
    }
  }

  lemma LongestField(d: int)
    requires LongestNumber(d)
    ensures |Field(d)| == 21
  {
    assert Pow10(5) == 100_000;
    assert Pow10(10) == 100_000 * Pow10(5);
    assert Pow10(15) == 100_000 * Pow10(10);
    assert Pow10(18) == 1_000 * Pow10(15);
    assert Pow10(19) == 10 * Pow10(18);
    DecimalLength(-d, 18);
  }

  lemma ProbeIsLong(name: string, d: int)
    requires IsFileName(name) && LongestNumber(d)
    ensures Storable(Probe(name, d)) && |Written(Probe(name, d))| == |name| + FIELDS_LEN
  {
    LongestField(d);
    LongestField(LEAST);
    FourFields();
    var vs := Values(Probe(name, d));
    assert Fields(vs) == Field(d) + Fields(vs[1..]);
    assert vs[1..] == [LEAST, LEAST, LEAST, LEAST];
  }

  lemma FourFields()
    ensures |Fields([LEAST, LEAST, LEAST, LEAST])| == 4 * |Field(LEAST)|
  {
    var a, b, c, d := [LEAST], [LEAST, LEAST], [LEAST, LEAST, LEAST], [LEAST, LEAST, LEAST, LEAST];
    assert a[1..] == [] && b[1..] == a && c[1..] == b && d[1..] == c;
    assert |Fields(a)| == |Field(LEAST)|;
    assert |Fields(b)| == |Field(LEAST)| + |Fields(a)|;
    assert |Fields(c)| == |Field(LEAST)| + |Fields(b)|;
  }

  lemma NoNumberOnEmptyLine(k: nat)
    requires k > 0
    ensures ScanLongs([LF], k).None?
  {
    var t: string := [LF];
    assert t[1..] == "";
    assert SkipSpace(t) == SkipSpace("") == "";
    assert ScanLong(t).None?;
  }

  lemma NumberThenNone(n: int, rest: string, k: nat)
    requires IsLong(n) && rest != "" && IsSpace(rest[0]) && k > 0 && ScanLongs(rest, k - 1).None?
    ensures ScanLongs(Field(n) + rest, k).None?
  {
    FieldIsRead(n, rest);
  }

  lemma {:induction false} TooFewNumbers(ns: seq<int>, k: nat)
    requires |ns| < k && forall n :: n in ns ==> IsLong(n)
    ensures ScanLongs(Fields(ns) + [LF], k).None?
    decreases k
  {
    hide ScanLong, ScanLongs, Decimal;
    if ns == [] {
      assert Fields(ns) + [LF] == [LF];
      NoNumberOnEmptyLine(k);
    } else {
      FieldsOneMore(ns);
      FieldsBeginWithSpace(ns[1..]);
      TooFewNumbers(ns[1..], k - 1);
      NumberThenNone(ns[0], Fields(ns[1..]) + [LF], k);
    }
  }

  lemma DecimalHasNoSpace(n: int)
    requires IsLong(n)
    ensures forall i :: 0 <= i < |Decimal(n)| ==> !IsSpace(Decimal(n)[i])
    ensures Decimal(n) != "" && (forall i :: 1 <= i < |Decimal(n)| ==> IsDigit(Decimal(n)[i]))
    ensures n >= 0 ==> IsDigit(Decimal(n)[0])
  {
    LongFitsInDigits(n);
    DecimalIsDigits(if n < 0 then -n else n, 19);
  }

  lemma WordIsScanned(word: string, rest: string)
    requires word != "" && (forall i :: 0 <= i < |word| ==> !IsSpace(word[i])) && (rest == "" || IsSpace(rest[0]))
    ensures ScanName(word + rest) == Some((word, rest))
  {
    NameRunEnds(word, rest);
    var s := word + rest;
    assert s[0] == word[0] && s[..|word|] == word && s[|word|..] == rest;
  }

  lemma EndOfField(n: int, rest: string, c: nat)
    requires IsLong(n) && c < |Field(n)| && rest != "" && IsSpace(rest[0]) && ScanLongs(rest, 5).None?
    ensures ParseLine((Field(n) + rest)[c..]).None?
  {
    hide ScanLongs, Decimal, NameRun, ScanName, IsSpace;
    DecimalHasNoSpace(n);
    var word := if c == 0 then Decimal(n) else Decimal(n)[c - 1..];
    WordIsScanned(word, rest);
    NothingBehindWord(word, rest);
    hide ParseLine;
    if c == 0 {
      assert (Field(n) + rest)[c..] == "\t" + (word + rest);
      TabInFront(word + rest);
    } else {
      assert (Field(n) + rest)[c..] == word + rest;
    }
  }

  lemma NothingBehindWord(word: string, rest: string)
    requires ScanName(word + rest) == Some((word, rest)) && ScanLongs(rest, 5).None?
    ensures ParseLine(word + rest).None?
  {
    hide ScanName, ScanLongs;
  }

  lemma TabInFront(y: string)
    ensures ParseLine("\t" + y) == ParseLine(y)
  {
    SpaceInFront("\t", y);
  }

  /** The end of a line of numbers is no record: there are not enough of them behind the first word. */
  lemma {:induction false} EndOfFields(ns: seq<int>, c: nat)
    requires |ns| <= 5 && c <= |Fields(ns)| && forall n :: n in ns ==> IsLong(n)
    ensures ParseLine((Fields(ns) + [LF])[c..]).None?
    decreases |ns|
  {
    hide ParseLine, ScanLongs, Field;
    if ns == [] {
      assert (Fields(ns) + [LF])[c..] == [LF];
      NothingOnEmptyLine([LF]);
    } else {
      FieldsOneMore(ns);
      var f, rest := Field(ns[0]), Fields(ns[1..]) + [LF];
      if c < |f| {
        FieldsBeginWithSpace(ns[1..]);
        TooFewNumbers(ns[1..], 5);
        EndOfField(ns[0], rest, c);
      } else {
        assert (f + rest)[c..] == rest[c - |f|..];
        EndOfFields(ns[1..], c - |f|);
      }
    }
  }

  lemma NameOfLine(line: string)
    ensures ParseLine(line).Some? ==> ScanName(line).Some? && ParseLine(line).value.name == ScanName(line).value.0
  {
    hide ScanName, ScanLongs;
  }

  lemma EndOfName(r: Record, c: nat)
    requires Storable(r) && 0 < c < |r.name|
    ensures ScanName(r.name[c..] + (Fields(Values(r)) + [LF])) == Some((r.name[c..], Fields(Values(r)) + [LF]))
  {
    FieldsBeginWithSpace(Values(r));
    hide Fields;
    WordIsScanned(r.name[c..], Fields(Values(r)) + [LF]);
  }

  lemma EndInName(r: Record, c: nat)
    requires Storable(r) && 0 < c < |r.name|
    ensures var line := r.name[c..] + (Fields(Values(r)) + [LF]);
      ParseLine(line).Some? ==> ParseLine(line).value.name != r.name
  {
    EndOfName(r, c);
    NameOfLine(r.name[c..] + (Fields(Values(r)) + [LF]));
    hide Storable, ScanName, ParseLine, Fields;
    assert |r.name[c..]| < |r.name|;
  }

  lemma EndInNumbers(r: Record, c: nat)
    requires Storable(r) && c <= |Fields(Values(r))|
    ensures ParseLine((Fields(Values(r)) + [LF])[c..]).None?
  {
    hide ParseLine, Fields;
    EndOfFields(Values(r), c);
  }

  /** What is left of an entry when its beginning has been cut off is not read under its name. */
  lemma EndOfEntry(r: Record, c: nat)
    requires Storable(r) && 0 < c <= |Written(r)|
    ensures ParseLine(Written(r)[c..] + [LF]).Some? ==> ParseLine(Written(r)[c..] + [LF]).value.name != r.name
  {
    hide Storable, ParseLine, Fields;
    EndOfText(r.name, Fields(Values(r)), c);
    if c < |r.name| {
      EndInName(r, c);
    } else {
      EndInNumbers(r, c - |r.name|);
    }
  }

  lemma EndOfText(name: string, fs: string, c: nat)
    requires c <= |name + fs|
    ensures (name + fs)[c..] + [LF] == if c < |name| then name[c..] + (fs + [LF]) else (fs + [LF])[c - |name|..]
  {
  }

  /** The first number of a line, behind its first word. */
  function FirstNumber(line: string): int {
    var w := SkipSpace(line);
    match ScanLong(w[NameRun(w)..])
    case None => 0
    case Some((n, _)) => n
  }

  lemma FirstNumberIsLoadDelay(line: string)
    requires ParseLine(line).Some?
    ensures ParseLine(line).value.loadDelay == FirstNumber(line)
  {
  }

  lemma {:induction false} EndsInWord(s: string)
    requires s != "" && !IsSpace(s[|s| - 1])
    ensures SkipSpace(s) != ""
  {
    if !IsSpace(s[0]) {
    } else {
      EndsInWord(s[1..]);
    }
  }

  lemma {:induction false} SkipSpaceIsSuffix(s: string)
    ensures |SkipSpace(s)| <= |s| && s[|s| - |SkipSpace(s)|..] == SkipSpace(s)
  {
    if s == "" || !IsSpace(s[0]) {
    } else {
      SkipSpaceIsSuffix(s[1..]);
    }
  }

  /**
   Where an entry is joined to other text, its name comes too late: either the name is not
   read as the name, or the first number is one that the entry's numbers have no part in.
   */
  lemma NameComesTooLate(t: string, name: string, b: string)
    requires SkipSpace(t) != "" && IsFileName(name) && b != "" && b[0] == '\t'
    ensures ParseLine(t + name + b).Some? && ParseLine(t + name + b).value.name == name ==>
      ParseLine(t + name + b).value.loadDelay == FirstNumber(t + name)
  {
    var p, x := t + name, SkipSpace(t);
    SkipSpaceBefore(t, name);
    SkipSpaceBefore(p, b);
    var w := SkipSpace(p);
    var k := NameRun(w);
    NameRunBehind(w, b);
    LineInWords(p + b);
    hide SkipSpace, ParseLine;
    CutBehind(w, b, k);
    if k < |w| {
      NumberBeforeEnd(x, name, k, b);
    } else {
      assert w[..k] == w && |w| > |name|;
    }
  }

  lemma CutBehind(w: string, b: string, k: nat)
    requires k <= |w|
    ensures (w + b)[..k] == w[..k] && (w + b)[k..] == w[k..] + b
  {
  }

  lemma LineInWords(line: string)
    ensures var w := SkipSpace(line);
      var k := NameRun(w);
      ParseLine(line).Some? ==>
        && ParseLine(line).value.name == w[..k] && ScanLong(w[k..]).Some?
        && ParseLine(line).value.loadDelay == ScanLong(w[k..]).value.0
  {
    hide SkipSpace, NameRun, ScanLong;
  }

  /** A name that ends behind the first word does not change the first number there. */
  lemma NumberBeforeEnd(x: string, name: string, k: nat, b: string)
    requires IsFileName(name) && k < |x + name| && b != "" && b[0] == '\t'
    ensures var u := (x + name)[k..];
      && (ScanLong(u + b).Some? <==> ScanLong(u).Some?)
      && (ScanLong(u).Some? ==> ScanLong(u + b).value.0 == ScanLong(u).value.0)
  {
    var u := (x + name)[k..];
    assert u[|u| - 1] == name[|name| - 1];
    EndsInWord(u);
    hide ScanLong;
    NumberBehind(u, b);
  }

  // ---- Numbers that are cut off ----

  lemma PowerStep(k: nat, n: nat, d: nat)
    requires k > 0 && d < 10
    ensures (10 * n + d + 1) * Pow10(k - 1) <= (n + 1) * Pow10(k)
  {
    var p := Pow10(k - 1);
    assert Pow10(k) == 10 * p;
    assert (10 * n + d + 1) * p <= (10 * n + 10) * p;
  }

  lemma {:induction false} DigitsAreBounded(s: string, n: nat)
    requires forall i :: 0 <= i < |s| ==> IsDigit(s[i])
    ensures 0 <= Digits(s, n) < (n + 1) * Pow10(|s|)
    decreases |s|
  {
    if s == "" {
    } else {
      var d := (s[0] - '0') as int;
      DigitsAreBounded(s[1..], 10 * n + d);
      PowerStep(|s|, n, d);
    }
  }

  lemma {:induction false} PowersGrow(j: nat, k: nat)
    requires j <= k
    ensures Pow10(j) <= Pow10(k)
  {
    if j >= k {
    } else {
      PowersGrow(j, k - 1);
    }
  }

  lemma PowerIsSmall()
    ensures Pow10(18) == 1_000_000_000_000_000_000
  {
    assert Pow10(5) == 100_000;
    assert Pow10(10) == 100_000 * Pow10(5);
    assert Pow10(15) == 100_000 * Pow10(10);
    assert Pow10(18) == 1_000 * Pow10(15);
  }

  /** Fewer digits than the longest numbers have do not reach as far down. */
  lemma FewDigits(u: string)
    requires |u| <= 18 && forall i :: 0 <= i < |u| ==> IsDigit(u[i])
    ensures 0 - Digits(u, 0) > LEAST + 2
  {
    DigitsAreBounded(u, 0);
    PowersGrow(|u|, 18);
    PowerIsSmall();
  }

  lemma NoDigitsNoNumber(e: nat)
    requires e <= 2
    ensures ScanLong("\t-"[..e]).None?
  {
    if e == 0 {
      assert "\t-"[..e] == "";
    } else if e == 1 {
      assert "\t-"[..e] == "\t" && "\t"[1..] == "";
    } else {
      assert "\t-"[..e] == "\t" + "-" && "-"[1..] == "";
      ScanSkipsTab("-");
    }
  }

  lemma LongestText(d: int)
    requires LongestNumber(d)
    ensures |Field(d)| == 21 && Field(d) == "\t-" + DecimalNat(-d)
    ensures var ds := DecimalNat(-d);
      forall i :: 0 <= i < |ds| ==> IsDigit(ds[i])
  {
    LongestField(d);
    LongFitsInDigits(d);
    DecimalIsDigits(-d, 19);
  }

  lemma FewDigitsBehindSign(u: string)
    requires 0 < |u| <= 18 && forall i :: 0 <= i < |u| ==> IsDigit(u[i])
    ensures ScanLong("\t-" + u).Some? && ScanLong("\t-" + u).value.0 > LEAST + 2
  {
    assert "\t-" + u == "\t" + ("-" + u);
    ScanSkipsTab("-" + u);
    ScanNegative(u);
    FewDigits(u);
  }

  /** The beginning of one of the longest numbers is not read as that number. */
  lemma BeginningOfLongest(d: int, e: nat)
    requires LongestNumber(d) && e < |Field(d)|
    ensures ScanLong(Field(d)[..e]).Some? ==> ScanLong(Field(d)[..e]).value.0 != d
  {
    LongestText(d);
    var ds := DecimalNat(-d);
    if e <= 2 {
      assert Field(d)[..e] == "\t-"[..e];
      NoDigitsNoNumber(e);
    } else {
      assert Field(d)[..e] == "\t-" + ds[..e - 2];
      FewDigitsBehindSign(ds[..e - 2]);
    }
  }

  lemma FieldAlone(n: int, g: string)
    requires IsLong(n) && (g == "" || g[0] == '\t')
    ensures ScanLong(Field(n) + g).Some? && ScanLong(Field(n) + g).value.0 == n && ScanLong(Field(n) + g).value.1 == g
  {
    var f := Field(n);
    FieldIsRead(n, [LF]);
    NumberInFrontOfLF(f);
    DecimalHasNoSpace(n);
    assert f[|f| - 1] == Decimal(n)[|Decimal(n)| - 1];
    EndsInWord(f);
    NumberBehind(f, g);
    assert "" + g == g;
  }

  lemma FieldsStartWithTab(ns: seq<int>, e: nat)
    requires e <= |Fields(ns)|
    ensures Fields(ns)[..e] == "" || Fields(ns)[..e][0] == '\t'
  {
  }

  /** If the last number is cut off the numbers are not read back. */
  lemma {:induction false} CutNumbers(ns: seq<int>, e: nat)
    requires (forall n :: n in ns ==> LongestNumber(n)) && e < |Fields(ns)|
    ensures ScanLongs(Fields(ns)[..e], |ns|) != Some(ns)
    decreases |ns|
  {
    hide ScanLong, Field, Decimal;
    var f, more := Field(ns[0]), Fields(ns[1..]);
    assert ns[0] in ns;
    if e < |f| {
      assert Fields(ns)[..e] == f[..e];
      BeginningOfLongest(ns[0], e);
    } else {
      var g := more[..e - |f|];
      assert Fields(ns)[..e] == f + g;
      FieldsStartWithTab(ns[1..], e - |f|);
      FieldAlone(ns[0], g);
      CutNumbers(ns[1..], e - |f|);
      NumbersAfterFirst(f + g, ns);
    }
  }

  lemma NumbersAfterFirst(s: string, ns: seq<int>)
    requires ns != [] && ScanLong(s).Some? && ScanLongs(ScanLong(s).value.1, |ns| - 1) != Some(ns[1..])
    ensures ScanLongs(s, |ns|) != Some(ns)
  {
    var more := ScanLongs(ScanLong(s).value.1, |ns| - 1);
    if more.Some? {
      assert ([ScanLong(s).value.0] + more.value)[1..] == more.value;
    }
  }

  lemma NameAlone(name: string, g: string)
    requires IsFileName(name) && (g == "" || g[0] == '\t')
    ensures ScanName(name + g) == Some((name, g))
  {
    WordIsScanned(name, g);
  }

  lemma BeginningOfName(name: string, c: nat)
    requires IsFileName(name) && c <= |name|
    ensures ParseLine(name[..c]).None?
  {
    if c > 0 {
      NameAlone(name[..c], "");
      assert name[..c] + "" == name[..c];
    }
  }

  lemma NumbersDecide(rest: string, r: Record)
    requires ScanName(r.name + rest) == Some((r.name, rest))
    ensures ScanLongs(rest, 5) != Some(Values(r)) ==> ParseLine(r.name + rest) != Some(r)
  {
    if ParseLine(r.name + rest) == Some(r) {
      assert ScanLongs(rest, 5).value == Values(r);
    }
  }

  /** An entry of the longest numbers is not read back when its end is cut off. */
  lemma BeginningOfProbe(name: string, d: int, c: nat)
    requires IsFileName(name) && LongestNumber(d) && c < |Written(Probe(name, d))|
    ensures ParseLine(Written(Probe(name, d))[..c]) != Some(Probe(name, d))
  {
    var p := Probe(name, d);
    var fs := Fields(Values(p));
    if c <= |name| {
      assert Written(p)[..c] == name[..c];
      BeginningOfName(name, c);
    } else {
      var e := c - |name|;
      assert Written(p)[..c] == name + fs[..e];
      FieldsStartWithTab(Values(p), e);
      NameAlone(name, fs[..e]);
      CutNumbers(Values(p), e);
      NumbersDecide(fs[..e], p);
    }
  }

  // ---- The condition is exact ----

  /** The first line that fgets returns of an entry behind a torn line. */
  function FirstLoad(t: string, r: Record): string {
    var x := t + Written(r);
    if |x| <= LOAD then x else x[..LOAD]
  }

  lemma RecordsOfShortLine(x: string)
    requires LF !in x && |x| < LOAD
    ensures Records(x + [LF]) == RecordIn(x)
  {
    OneLine(x);
    LineEndIsIgnored(x);
    hide Lines, ParseLine, Parsed;
    RecordsOfOne(x + [LF]);
  }

  lemma RecordsOfLongLine(x: string)
    requires LF !in x && LOAD <= |x| < 2 * LOAD
    ensures Records(x + [LF]) == RecordIn(x[..LOAD]) + RecordIn(x[LOAD..] + [LF])
  {
    hide Lines, RecordIn, Parsed;
    CutInTwo(x);
    RecordsOfTwo(x[..LOAD], x[LOAD..] + [LF]);
  }

  /** The entry ends up on that line, apart from what is never read under its name. */
  lemma EntryIsJoined(t: string, r: Record) returns (rest: seq<Record>)
    requires LF !in t && |t| < LOAD && Storable(r)
    ensures Records(t + Line(r)) == RecordIn(FirstLoad(t, r)) + rest
    ensures forall q :: q in rest ==> q.name != r.name
  {
    TextOfRecord(r);
    assert |Written(r)| <= LOAD;
    hide ParseLine, Storable, Written, Line, Records;
    var x := t + Written(r);
    assert t + Line(r) == x + [LF];
    if |x| < LOAD {
      RecordsOfShortLine(x);
      rest := [];
    } else {
      RecordsOfLongLine(x);
      FirstLoadOfLong(t, Written(r));
      EndOfEntry(r, LOAD - |t|);
      rest := RecordIn(x[LOAD..] + [LF]);
    }
  }

  lemma FirstLoadOfLong(t: string, w: string)
    requires |t| < LOAD <= |t + w|
    ensures (t + w)[LOAD..] == w[LOAD - |t|..]
    ensures |t + w| == LOAD ==> (t + w)[..LOAD] == t + w
  {
  }

  lemma {:induction false} OnlySpaceIsSkipped(t: string)
    requires SkipSpace(t) == ""
    ensures AllSpace(t)
  {
    if t == "" {
    } else {
      OnlySpaceIsSkipped(t[1..]);
      assert forall i :: 1 <= i < |t| ==> t[i] == t[1..][i - 1];
    }
  }

  /** What is on the first line before the numbers of the entry. */
  function BeforeNumbers(t: string, name: string): string {
    var x := t + name;
    if |x| <= LOAD then x else x[..LOAD]
  }

  lemma TextThenFields(t: string, name: string, d: int, e: nat)
    requires SkipSpace(t) != "" && IsFileName(name) && LongestNumber(d) && 0 < e <= |Fields(Values(Probe(name, d)))|
    requires d != FirstNumber(t + name)
    ensures ParseLine(t + name + Fields(Values(Probe(name, d)))[..e]) != Some(Probe(name, d))
  {
    FieldsStartWithTab(Values(Probe(name, d)), e);
    NameComesTooLate(t, name, Fields(Values(Probe(name, d)))[..e]);
  }

  lemma TextAlone(line: string, name: string, d: int)
    requires d != FirstNumber(line)
    ensures ParseLine(line) != Some(Probe(name, d))
  {
    if ParseLine(line).Some? {
      FirstNumberIsLoadDelay(line);
    }
  }

  /** The first load of two texts in a row: the first load of one, and some of the other if there is room. */
  lemma FirstLoadOfTwo(x: string, fs: string) returns (e: nat)
    ensures e <= |fs|
    ensures (if |x + fs| <= LOAD then x + fs else (x + fs)[..LOAD]) ==
      (if |x| <= LOAD then x else x[..LOAD]) + fs[..e]
    ensures fs != "" ==> (e > 0 <==> |x| < LOAD)
  {
    e := if |x| >= LOAD then 0 else if |x| + |fs| <= LOAD then |fs| else LOAD - |x|;
    if |x| >= LOAD {
      assert (x + fs)[..LOAD] == x[..LOAD] && fs[..e] == "";
      assert |x| == LOAD ==> x[..LOAD] == x;
    } else {
      assert |x + fs| > LOAD ==> (x + fs)[..LOAD] == x + fs[..e];
    }
  }

  /** How much of the entry's numbers is on the first line, if any. */
  lemma FirstLoadText(t: string, r: Record) returns (e: nat)
    requires |t| < LOAD
    ensures e <= |Fields(Values(r))| && FirstLoad(t, r) == BeforeNumbers(t, r.name) + Fields(Values(r))[..e]
    ensures Fields(Values(r)) != "" ==> (e > 0 <==> |t + r.name| < LOAD)
  {
    hide Fields, Values;
    assert t + Written(r) == t + r.name + Fields(Values(r));
    e := FirstLoadOfTwo(t + r.name, Fields(Values(r)));
  }

  lemma TextInFront(t: string, name: string, d: int)
    requires SkipSpace(t) != "" && |t| < LOAD && IsFileName(name) && LongestNumber(d)
    requires d != FirstNumber(BeforeNumbers(t, name))
    ensures ParseLine(FirstLoad(t, Probe(name, d))) != Some(Probe(name, d))
  {
    var r := Probe(name, d);
    ProbeIsLong(name, d);
    var e := FirstLoadText(t, r);
    if e > 0 {
      TextThenFields(t, name, d, e);
    } else {
      assert FirstLoad(t, r) == BeforeNumbers(t, name);
      TextAlone(BeforeNumbers(t, name), name, d);
    }
  }

  lemma SpaceTooLong(t: string, name: string, d: int)
    requires AllSpace(t) && |t| < LOAD < |t| + |name| + FIELDS_LEN && IsFileName(name) && LongestNumber(d)
    ensures ParseLine(FirstLoad(t, Probe(name, d))) != Some(Probe(name, d))
  {
    var r := Probe(name, d);
    ProbeIsLong(name, d);
    var c := LOAD - |t|;
    assert FirstLoad(t, r) == t + Written(r)[..c];
    SpaceInFront(t, Written(r)[..c]);
    BeginningOfProbe(name, d, c);
  }

  lemma {:induction false} LookupPassesOver(a: seq<Record>, b: seq<Record>, name: string)
    requires forall q :: q in b ==> q.name != name
    ensures Lookup(a + b, name) == Lookup(a, name)
    decreases |b|
  {
    if b == [] {
      assert a + b == a;
    } else {
      var n := |b| - 1;
      assert (a + b)[..|a + b| - 1] == a + b[..n];
      LookupPassesOver(a, b[..n], name);
    }
  }

  lemma LookupOfLine(a: seq<Record>, line: string, name: string)
    ensures Lookup(a + RecordIn(line), name) ==
      if ParseLine(line).Some? && ParseLine(line).value.name == name then ParseLine(line) else Lookup(a, name)
  {
    if ParseLine(line).Some? {
      assert (a + RecordIn(line))[..|a|] == a;
    } else {
      assert a + RecordIn(line) == a;
    }
  }

  lemma JoinedLookup(s: string, r: Record)
    requires Storable(r)
    ensures var line := ParseLine(FirstLoad(Torn(s), r));
      Lookup(Records(s + Line(r)), r.name) ==
        if line.Some? && line.value.name == r.name then line else Lookup(Records(s[..LastStop(s)]), r.name)
  {
    TornHasNoLineEnd(s);
    SplitAtLastStop(s, Line(r));
    var before, line := Records(s[..LastStop(s)]), FirstLoad(Torn(s), r);
    var rest := EntryIsJoined(Torn(s), r);
    Reassociate(before, RecordIn(line), rest);
    LookupPassesOver(before + RecordIn(line), rest, r.name);
    LookupOfLine(before, line, r.name);
  }

  function OtherNumber(a: int, b: int): (d: int)
    ensures LongestNumber(d) && d != a && d != b
  {
    if a != LEAST && b != LEAST then LEAST else if a != LEAST + 1 && b != LEAST + 1 then LEAST + 1 else LEAST + 2
  }

  /** Behind a tail that is not clean some entry of the name is lost. */
  lemma UncleanTailLosesEntry(s: string, name: string) returns (r: Record)
    requires IsFileName(name) && !TailIsClean(s, name)
    ensures Storable(r) && r.name == name && Lookup(Records(s + Line(r)), name) != Some(r)
  {
    var t, earlier := Torn(s), Lookup(Records(s[..LastStop(s)]), name);
    var taken := FirstNumber(BeforeNumbers(t, name));
    var d := OtherNumber(taken, if earlier.Some? then earlier.value.loadDelay else taken);
    r := Probe(name, d);
    ProbeIsLong(name, d);
    TornHasNoLineEnd(s);
    if SkipSpace(t) == "" {
      OnlySpaceIsSkipped(t);
      SpaceTooLong(t, name, d);
    } else {
      TextInFront(t, name, d);
    }
    JoinedLookup(s, r);
  }

  /** After writing an entry behind a clean tail its own lookup finds it, and no other lookup changes. */
  lemma CleanTailThenLookup(s: string, r: Record, name: string)
    requires Storable(r) && TailIsClean(s, r.name)
    ensures Lookup(Records(s + Line(r)), name) == if name == r.name then Some(r) else Lookup(Records(s), name)
  {
    TextOfRecord(r);
    CleanTailAddsRecord(s, r);
    assert (Records(s) + [r])[..|Records(s)|] == Records(s);
  }

  ghost predicate EveryEntryIsFound(s: string, name: string) {
    forall r :: Storable(r) && r.name == name ==> Lookup(Records(s + Line(r)), name) == Some(r)
  }

  /** For any log: every entry of a name that is appended will be found exactly if the tail is clean for it. */
  lemma EntriesAreFoundIffTailIsClean(s: string, name: string)
    requires IsFileName(name)
    ensures EveryEntryIsFound(s, name) <==> TailIsClean(s, name)
  {
    if TailIsClean(s, name) {
      forall r | Storable(r) && r.name == name ensures Lookup(Records(s + Line(r)), name) == Some(r) {
        CleanTailThenLookup(s, r, name);
      }
    } else {
      var r := UncleanTailLosesEntry(s, name);
    }
  }
}
