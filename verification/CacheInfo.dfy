/**
 The .cache_info files: one line for each record, always appended, the last one counts.
 A line is the file name and five times, separated by tabs.
 */
module CacheInfo {
  import opened Text

  datatype Record = Record(
    name: string,
    loadDelay: int, lastChecked: int, expires: int, maxUnused: int, lastModified: int)

  const INFO_LINE_LEN := 256
  const LONG_LIMIT := 0x8000_0000_0000_0000

  predicate IsLong(n: int) { -LONG_LIMIT <= n < LONG_LIMIT }

  // ---- Numbers ----

  function DigitChar(d: int): char
    requires 0 <= d < 10
  {
    '0' + (d as char)
  }

  function DecimalNat(n: nat): string {
    if n < 10 then [DigitChar(n)] else DecimalNat(n / 10) + [DigitChar(n % 10)]
  }

  /** What %ld prints. */
  function Decimal(n: int): string { if n < 0 then "-" + DecimalNat(-n) else DecimalNat(n) }

  function Pow10(k: nat): nat { if k == 0 then 1 else 10 * Pow10(k - 1) }

  lemma {:induction false} DecimalIsDigits(n: nat, k: nat)
    requires k > 0 && n < Pow10(k)
    ensures 0 < |DecimalNat(n)| <= k
    ensures forall i :: 0 <= i < |DecimalNat(n)| ==> IsDigit(DecimalNat(n)[i])
    decreases n
  {
    if n < 10 {
    } else {
      DecimalIsDigits(n / 10, k - 1);
    }
  }

  lemma {:induction false} DigitsOfDecimal(n: nat, t: string)
    ensures Digits(DecimalNat(n) + t, 0) == Digits(t, n)
  {
    if n < 10 {
      assert (DecimalNat(n) + t)[1..] == t;
    } else {
      var d := [DigitChar(n % 10)];
      assert DecimalNat(n) + t == DecimalNat(n / 10) + (d + t);
      DigitsOfDecimal(n / 10, d + t);
      assert (d + t)[1..] == t;
    }
  }

  function DigitRun(s: string): (k: nat)
    ensures k <= |s| && forall i :: 0 <= i < k ==> IsDigit(s[i])
    ensures k < |s| ==> !IsDigit(s[k])
  {
    if s != "" && IsDigit(s[0]) then 1 + DigitRun(s[1..]) else 0
  }

  // ---- sscanf ----

  /** %s: skip white space, then take everything up to the next. */
  function ScanName(s: string): Option<(string, string)> {
    var t := SkipSpace(s);
    var k := NameRun(t);
    if k == 0 then None else Some((t[..k], t[k..]))
  }

  function NameRun(s: string): (k: nat)
    ensures k <= |s| && forall i :: 0 <= i < k ==> !IsSpace(s[i])
    ensures k < |s| ==> IsSpace(s[k])
  {
    if s != "" && !IsSpace(s[0]) then 1 + NameRun(s[1..]) else 0
  }

  /** %ld: skip white space, then take a sign and at least one digit. */
  function ScanLong(s: string): Option<(int, string)> {
    var t := SkipSpace(s);
    var signed := t != "" && (t[0] == '-' || t[0] == '+');
    var u := if signed then t[1..] else t;
    var k := DigitRun(u);
    if k == 0 then None
    else Some((if signed && t[0] == '-' then 0 - Digits(u, 0) else Digits(u, 0), u[k..]))
  }

  /** k numbers in a row. */
  function ScanLongs(s: string, k: nat): (r: Option<seq<int>>)
    ensures r.Some? ==> |r.value| == k
    decreases k
  {
    if k == 0 then Some([])
    else match ScanLong(s)
      case None => None
      case Some((n, t)) =>
        match ScanLongs(t, k - 1)
        case None => None
        case Some(ns) => Some([n] + ns)
  }

  /** A line counts only if all six conversions succeed. */
  function ParseLine(line: string): Option<Record> {
    match ScanName(line)
    case None => None
    case Some((name, rest)) =>
      match ScanLongs(rest, 5)
      case None => None
      case Some(ns) => Some(Record(name, ns[0], ns[1], ns[2], ns[3], ns[4]))
  }

  // ---- One record as a line ----

  function Field(n: int): string { "\t" + Decimal(n) }

  function Fields(ns: seq<int>): string {
    if ns == [] then "" else Field(ns[0]) + Fields(ns[1..])
  }

  function Values(r: Record): (ns: seq<int>)
    ensures |ns| == 5
  {
    [r.loadDelay, r.lastChecked, r.expires, r.maxUnused, r.lastModified]
  }

  function Line(r: Record): string { r.name + Fields(Values(r)) + [LF] }

  /** The last component of a cache file name has at most 64 characters, its slash included. */
  predicate IsFileName(s: string) {
    0 < |s| < 64 && forall i :: 0 <= i < |s| ==> !IsSpace(s[i]) && s[i] != '\0' && s[i] != LF
  }

  predicate Storable(r: Record) {
    IsFileName(r.name) && forall n :: n in Values(r) ==> IsLong(n)
  }

  lemma LongFitsInDigits(n: int)
    requires IsLong(n)
    ensures (if n < 0 then -n else n) < Pow10(19)
  {
    assert Pow10(5) == 100_000;
    assert Pow10(10) == 100_000 * Pow10(5);
    assert Pow10(15) == 100_000 * Pow10(10);
    assert Pow10(19) == 10_000 * Pow10(15);
  }

  lemma FieldFits(n: int)
    requires IsLong(n)
    ensures |Field(n)| <= 21 && LF !in Field(n)
  {
    LongFitsInDigits(n);
    DecimalIsDigits(if n < 0 then -n else n, 19);
  }

  lemma {:induction false} DigitRunEnds(ds: string, rest: string)
    requires forall i :: 0 <= i < |ds| ==> IsDigit(ds[i])
    requires rest == "" || !IsDigit(rest[0])
    ensures DigitRun(ds + rest) == |ds|
  {
    if ds == "" {
      assert ds + rest == rest;
    } else {
      assert (ds + rest)[1..] == ds[1..] + rest;
      DigitRunEnds(ds[1..], rest);
    }
  }

  lemma {:induction false} NameRunEnds(name: string, rest: string)
    requires forall i :: 0 <= i < |name| ==> !IsSpace(name[i])
    requires rest == "" || IsSpace(rest[0])
    ensures NameRun(name + rest) == |name|
  {
    if name == "" {
      assert name + rest == rest;
    } else {
      assert (name + rest)[1..] == name[1..] + rest;
      NameRunEnds(name[1..], rest);
    }
  }

  lemma DigitsAreRead(m: nat, rest: string)
    requires m < Pow10(19) && rest != "" && IsSpace(rest[0])
    ensures var ds := DecimalNat(m);
      var u := ds + rest;
      ds != "" && IsDigit(u[0]) && DigitRun(u) == |ds| && Digits(u, 0) == m && u[|ds|..] == rest
  {
    DecimalIsDigits(m, 19);
    DigitRunEnds(DecimalNat(m), rest);
    DigitsOfDecimal(m, rest);
  }

  lemma ScanSkipsTab(t: string)
    requires t != "" && !IsSpace(t[0])
    ensures ScanLong(['\t'] + t) == ScanLong(t)
  {
    assert (['\t'] + t)[1..] == t;
  }

  /** What follows a minus sign. */
  lemma SignIsKept(u: string)
    ensures SkipSpace(['-'] + u) == ['-'] + u && (['-'] + u)[1..] == u
    ensures u != "" && IsDigit(u[0]) ==> DigitRun(u) > 0
  {
  }

  lemma ScanNegative(u: string)
    requires u != "" && IsDigit(u[0])
    ensures ScanLong(['-'] + u) == Some((0 - Digits(u, 0), u[DigitRun(u)..]))
  {
    hide Digits, DigitRun, SkipSpace;
    SignIsKept(u);
  }

  lemma FieldText(n: int, rest: string)
    ensures n < 0 ==> Field(n) + rest == ['\t'] + (['-'] + (DecimalNat(-n) + rest))
    ensures n >= 0 ==> Field(n) + rest == ['\t'] + (DecimalNat(n) + rest)
  {
  }

  lemma NaturalIsRead(n: nat, rest: string)
    requires IsLong(n) && rest != "" && IsSpace(rest[0])
    ensures ScanLong(DecimalNat(n) + rest) == Some((n, rest))
  {
    hide Digits, DigitRun, DecimalNat, Pow10;
    LongFitsInDigits(n);
    DigitsAreRead(n, rest);
  }

  lemma NegativeIsRead(n: int, rest: string)
    requires IsLong(n) && rest != "" && IsSpace(rest[0]) && n < 0
    ensures ScanLong(['-'] + (DecimalNat(-n) + rest)) == Some((n, rest))
  {
    var u := DecimalNat(-n) + rest;
    assert u != "" && IsDigit(u[0]) && Digits(u, 0) == -n && u[DigitRun(u)..] == rest by {
      LongFitsInDigits(n);
      DigitsAreRead(-n, rest);
    }
    hide DecimalNat, DigitRun, Digits;
    ScanNegative(u);
  }

  lemma TabbedNatural(n: nat, rest: string)
    requires IsLong(n) && rest != "" && IsSpace(rest[0])
    ensures ScanLong(['\t'] + (DecimalNat(n) + rest)) == ScanLong(DecimalNat(n) + rest)
  {
    LongFitsInDigits(n);
    DigitsAreRead(n, rest);
    ScanSkipsTab(DecimalNat(n) + rest);
  }

  /** A number is read back, whatever stands behind it that is white space. */
  lemma FieldIsRead(n: int, rest: string)
    requires IsLong(n) && rest != "" && IsSpace(rest[0])
    ensures ScanLong(Field(n) + rest) == Some((n, rest))
  {
    FieldText(n, rest);
    if n < 0 {
      NegativeIsRead(n, rest);
      ScanSkipsTab(['-'] + (DecimalNat(-n) + rest));
    } else {
      NaturalIsRead(n, rest);
      TabbedNatural(n, rest);
    }
  }

  lemma FieldsAreRead(n: int, rest: string, k: nat, ns: seq<int>)
    requires IsLong(n) && rest != "" && IsSpace(rest[0])
    requires ScanLongs(rest, k).Some? && ScanLongs(rest, k).value == ns
    ensures ScanLongs(Field(n) + rest, k + 1).Some? && ScanLongs(Field(n) + rest, k + 1).value == [n] + ns
  {
    FieldIsRead(n, rest);
  }

  lemma NameIsRead(name: string, rest: string)
    requires IsFileName(name) && rest != "" && IsSpace(rest[0])
    ensures ScanName(name + rest) == Some((name, rest))
  {
    NameRunEnds(name, rest);
    var s := name + rest;
    assert s[0] == name[0];
    assert s[..|name|] == name && s[|name|..] == rest;
  }

  lemma {:induction false} FieldsAreShort(ns: seq<int>)
    requires forall n :: n in ns ==> IsLong(n)
    ensures LF !in Fields(ns) && |Fields(ns)| <= 21 * |ns|
  {
    if ns == [] {
    } else {
      FieldFits(ns[0]);
      FieldsAreShort(ns[1..]);
    }
  }

  lemma FieldsOneMore(ns: seq<int>)
    requires ns != []
    ensures Fields(ns) + [LF] == Field(ns[0]) + (Fields(ns[1..]) + [LF])
  {
  }

  lemma FieldsBeginWithSpace(ns: seq<int>)
    ensures IsSpace((Fields(ns) + [LF])[0])
  {
    if ns != [] { FieldsOneMore(ns); }
  }

  ghost predicate ReadsAs(s: string, ns: seq<int>) { ScanLongs(s, |ns|) == Some(ns) }

  lemma FieldsStep(ns: seq<int>)
    requires ns != [] && IsLong(ns[0]) && ReadsAs(Fields(ns[1..]) + [LF], ns[1..])
    ensures ReadsAs(Fields(ns) + [LF], ns)
  {
    FieldsOneMore(ns);
    FieldsBeginWithSpace(ns[1..]);
    FieldsAreRead(ns[0], Fields(ns[1..]) + [LF], |ns| - 1, ns[1..]);
    assert ns == [ns[0]] + ns[1..];
  }

  lemma {:induction false} FieldsRoundTrip(ns: seq<int>)
    requires forall n :: n in ns ==> IsLong(n)
    ensures ReadsAs(Fields(ns) + [LF], ns)
  {
    if ns == [] {
    } else {
      FieldsRoundTrip(ns[1..]);
      FieldsStep(ns);
    }
  }

  lemma LineIsParsed(r: Record)
    requires Storable(r)
    ensures ParseLine(Line(r)) == Some(r)
  {
    var rest := Fields(Values(r)) + [LF];
    FieldsRoundTrip(Values(r));
    FieldsBeginWithSpace(Values(r));
    assert Line(r) == r.name + rest;
    NameIsRead(r.name, rest);
  }

  lemma LineFits(r: Record)
    requires Storable(r)
    ensures LF !in r.name + Fields(Values(r)) && |Line(r)| < INFO_LINE_LEN
  {
    FieldsAreShort(Values(r));
  }

  /** Every record that can be stored is read back from its line, and the line fits the buffer. */
  lemma LineRoundTrip(r: Record)
    requires Storable(r)
    ensures ParseLine(Line(r)) == Some(r)
    ensures |Line(r)| < INFO_LINE_LEN && forall rest :: LineLength(Line(r) + rest) == |Line(r)|
  {
    LineIsParsed(r);
    LineFits(r);
    forall rest ensures LineLength(Line(r) + rest) == |Line(r)| {
      IndexOfFirst(r.name + Fields(Values(r)), LF, rest);
    }
  }

  /** A line as it stands in the log. */
  lemma LineInWords(r: Record)
    ensures Line(r) == r.name +
      ("\t" + Decimal(r.loadDelay) + ("\t" + Decimal(r.lastChecked) + ("\t" + Decimal(r.expires) +
      ("\t" + Decimal(r.maxUnused) + ("\t" + Decimal(r.lastModified)))))) + "\n"
  {
    var ns := Values(r);
    assert Fields(ns[1..][1..][1..][1..][1..]) == "";
    assert Fields(ns[1..][1..][1..][1..]) == Field(ns[4]) + "" == Field(ns[4]);
    assert Fields(ns[1..][1..][1..]) == Field(ns[3]) + Fields(ns[1..][1..][1..][1..]);
    assert Fields(ns[1..][1..]) == Field(ns[2]) + Fields(ns[1..][1..][1..]);
    assert Fields(ns[1..]) == Field(ns[1]) + Fields(ns[1..][1..]);
  }

  lemma ExampleNumbers()
    ensures Decimal(0) == "0" && Decimal(790) == "790" && Decimal(-2) == "-2"
    ensures Decimal(30) == "30" && Decimal(456) == "456"
  {
    assert DecimalNat(7) == "7" && DecimalNat(79) == "79" && DecimalNat(790) == "790";
    assert DecimalNat(4) == "4" && DecimalNat(45) == "45" && DecimalNat(456) == "456";
    assert DecimalNat(3) == "3" && DecimalNat(30) == "30";
  }

  lemma ExampleLine()
    ensures Line(Record("a", 0, 790, -2, 30, 456)) == "a\t0\t790\t-2\t30\t456\n"
  {
    hide Decimal, Line;
    LineInWords(Record("a", 0, 790, -2, 30, 456));
    ExampleNumbers();
  }

  // ---- The file ----

  /** What fgets takes: up to and including a LF, but at most what fits the buffer. */
  function LineLength(s: string): (n: nat)
    ensures n <= |s| && (s != "" ==> n > 0)
  {
    var lf := IndexOf(s, LF);
    if lf + 1 < INFO_LINE_LEN && lf < |s| then lf + 1
    else if |s| < INFO_LINE_LEN then |s|
    else INFO_LINE_LEN - 1
  }

  /** With a buffer of 256 bytes fgets takes a line of at most 255 whole, and else the first 255 bytes. */
  lemma LineLengthInWords(line: string, rest: string)
    requires '\n' !in line
    ensures |line| < 255 ==> LineLength(line + "\n" + rest) == |line| + 1 && LineLength(line) == |line|
    ensures |line| >= 255 ==> LineLength(line + rest) == 255
  {
    IndexOfFirst(line, '\n', rest);
    assert line + ['\n'] + rest == line + "\n" + rest;
    assert forall i :: 0 <= i < |line| ==> (line + rest)[i] == line[i];
  }

  /** A file as fgets cuts it up. */
  function Lines(s: string): seq<string>
    decreases |s|
  {
    if s == "" then [] else [s[..LineLength(s)]] + Lines(s[LineLength(s)..])
  }

  function RecordIn(line: string): seq<Record> {
    match ParseLine(line) case None => [] case Some(r) => [r]
  }

  /** Lines that are no records are skipped. */
  function Parsed(lines: seq<string>): seq<Record> {
    if lines == [] then [] else RecordIn(lines[0]) + Parsed(lines[1..])
  }

  function Records(s: string): seq<Record> { Parsed(Lines(s)) }

  predicate EndsInLine(s: string) { s == "" || s[|s| - 1] == LF }

  /** A line at the end of a file of whole lines is read as a line of its own. */
  lemma {:induction false} AppendAddsLine(s: string, line: string)
    requires EndsInLine(s) && line != "" && LineLength(line) == |line|
    ensures Lines(s + line) == Lines(s) + [line]
    decreases |s|
  {
    if s == "" {
      assert s + line == line && line[..|line|] == line;
    } else {
      var n, t := LineLength(s), s + line;
      TakesSameLine(s, line);
      assert t[..n] == s[..n];
      assert t[n..] == s[n..] + line;
      AppendAddsLine(s[n..], line);
    }
  }

  lemma {:induction false} ParsedAppend(lines: seq<string>, line: string)
    ensures Parsed(lines + [line]) == Parsed(lines) + RecordIn(line)
  {
    var all := lines + [line];
    if lines == [] {
      assert all[1..] == [] && all[0] == line;
      assert RecordIn(line) + [] == RecordIn(line);
    } else {
      assert all[1..] == lines[1..] + [line] && all[0] == lines[0];
      ParsedAppend(lines[1..], line);
      assert RecordIn(all[0]) + (Parsed(lines[1..]) + RecordIn(line)) ==
        RecordIn(lines[0]) + Parsed(lines[1..]) + RecordIn(line);
    }
  }

  lemma AppendAddsRecord(s: string, r: Record)
    requires EndsInLine(s) && Storable(r)
    ensures Records(s + Line(r)) == Records(s) + [r]
  {
    LineRoundTrip(r);
    assert Line(r) + "" == Line(r);
    AppendAddsLine(s, Line(r));
    ParsedAppend(Lines(s), Line(r));
  }

  /** Text behind a whole line does not change where fgets stops. */
  lemma TakesSameLine(s: string, more: string)
    requires s != "" && EndsInLine(s)
    ensures LineLength(s + more) == LineLength(s)
  {
    assert s[|s| - 1] in s;
    IndexOfInPrefix(s, LF, more);
  }

  // ---- Looking up ----

  /** The last record of a file counts. */
  function Lookup(recs: seq<Record>, name: string): Option<Record> {
    if recs == [] then None
    else if recs[|recs| - 1].name == name then Some(recs[|recs| - 1])
    else Lookup(recs[..|recs| - 1], name)
  }

  lemma LookupOneMore(recs: seq<Record>, k: nat, name: string)
    requires k < |recs|
    ensures Lookup(recs[..k + 1], name) ==
      if recs[k].name == name then Some(recs[k]) else Lookup(recs[..k], name)
  {
    assert recs[..k + 1][..k] == recs[..k];
  }

  predicate IsLastOf(recs: seq<Record>, name: string, i: int) {
    0 <= i < |recs| && recs[i].name == name && forall j :: i < j < |recs| ==> recs[j].name != name
  }

  /** The record that is found is the last of its name, and there is none only if there is no such record. */
  lemma {:induction false} LookupIsLast(recs: seq<Record>, name: string)
    ensures forall i :: IsLastOf(recs, name, i) ==> Lookup(recs, name) == Some(recs[i])
    ensures (forall j :: 0 <= j < |recs| ==> recs[j].name != name) <==> Lookup(recs, name).None?
  {
    if recs == [] {
    } else {
      var init := recs[..|recs| - 1];
      LookupIsLast(init, name);
      forall i | IsLastOf(recs, name, i) ensures Lookup(recs, name) == Some(recs[i]) {
        assert i < |recs| - 1 ==> IsLastOf(init, name, i);
      }
      assert forall j :: 0 <= j < |init| ==> init[j] == recs[j];
    }
  }

  /** After writing an entry its own lookup finds it, and no other lookup changes. */
  lemma WriteEntryThenLookup(s: string, r: Record, name: string)
    requires EndsInLine(s) && Storable(r)
    ensures Lookup(Records(s + Line(r)), name) == if name == r.name then Some(r) else Lookup(Records(s), name)
  {
    AppendAddsRecord(s, r);
    assert (Records(s) + [r])[..|Records(s)|] == Records(s);
  }

  /** A file of entries only ends in a whole line, so the next entry is found, too. */
  lemma EntriesEndInLine(s: string, r: Record)
    ensures EndsInLine(s + Line(r))
  {
    assert (s + Line(r))[|s + Line(r)| - 1] == Line(r)[|Line(r)| - 1];
  }

  /** A file to which records have been written one by one. */
  function LogText(recs: seq<Record>): string {
    if recs == [] then "" else LogText(recs[..|recs| - 1]) + Line(recs[|recs| - 1])
  }

  /** All of them are read back, in order. */
  lemma {:induction false} LogTextIsRead(recs: seq<Record>)
    requires forall r :: r in recs ==> Storable(r)
    ensures Records(LogText(recs)) == recs && EndsInLine(LogText(recs))
  {
    hide Records, Line, Storable;
    if recs == [] {
      NothingInNoText();
    } else {
      var init, r := recs[..|recs| - 1], recs[|recs| - 1];
      assert recs == init + [r] && r in recs;
      LogTextIsRead(init);
      AppendAddsRecord(LogText(init), r);
      EntriesEndInLine(LogText(init), r);
    }
  }

  lemma NothingInNoText()
    ensures Records("") == []
  {
  }

  /** Behind a name that was cut off, the entry is read under another name and is not found under its own. */
  lemma TornLineRenamesEntry(s: string, torn: string, r: Record)
    requires EndsInLine(s) && torn != "" && Storable(r.(name := torn + r.name))
    ensures Records(s + (torn + Line(r))) == Records(s) + [r.(name := torn + r.name)]
    ensures Lookup(Records(s + (torn + Line(r))), r.name) == Lookup(Records(s), r.name)
  {
    var glued := r.(name := torn + r.name);
    GluedLine(torn, r);
    AppendAddsRecord(s, glued);
    WriteEntryThenLookup(s, glued, r.name);
  }

  lemma GluedLine(torn: string, r: Record)
    ensures torn + Line(r) == Line(r.(name := torn + r.name))
  {
    hide Fields, Values;
    assert Values(r.(name := torn + r.name)) == Values(r) by { NameIsNoValue(r, torn + r.name); }
    var rest := Fields(Values(r));
    assert torn + (r.name + rest + [LF]) == torn + r.name + rest + [LF];
  }

  lemma NameIsNoValue(r: Record, name: string)
    ensures Values(r.(name := name)) == Values(r)
  {
  }

  /** An open .cache_info file; `todo` is what is still to be read. */
  class Reader {
    const text: string
    var pos: nat
    ghost var todo: seq<Record>

    constructor (text: string)
      ensures Valid() && todo == Records(text)
    {
      this.text := text;
      pos := 0;
      todo := Records(text);
      new;
      assert text[0..] == text;
    }

    ghost predicate Valid()
      reads this
    {
      pos <= |text| && todo == Records(text[pos..])
    }

    /** The next record, skipping lines that are none. */
    method Next() returns (r: Option<Record>)
      requires Valid()
      modifies this
      ensures Valid()
      ensures old(todo) == (match r case None => [] case Some(rec) => [rec] + todo)
    {
      while pos < |text|
        invariant Valid() && todo == old(todo)
        decreases |text| - pos
      {
        var rest := text[pos..];
        var n := LineLength(rest);
        r := ParseLine(rest[..n]);
        pos := pos + n;
        assert text[pos..] == rest[n..];
        assert Lines(rest)[1..] == Lines(text[pos..]);
        todo := Records(text[pos..]);
        if r.Some? {
          return;
        }
      }
      r := None;
    }
  }

  /** Read the whole file: whatever comes last for the name is the answer. */
  method InfoFor(text: string, name: string) returns (r: Option<Record>)
    ensures r == Lookup(Records(text), name)
  {
    var fp := new Reader(text);
    ghost var recs := fp.todo;
    r := LastFor(fp, name);
  }

  /** Go through the records of an open file. */
  method LastFor(fp: Reader, name: string) returns (r: Option<Record>)
    requires fp.Valid()
    modifies fp
    ensures r == Lookup(old(fp.todo), name)
  {
    r := None;
    ghost var recs, seen := fp.todo, 0;
    var next := fp.Next();
    while next.Some?
      invariant fp.Valid()
      invariant seen <= |recs| && recs[seen..] == (match next case None => [] case Some(rec) => [rec] + fp.todo)
      invariant r == Lookup(recs[..seen], name)
      decreases |recs| - seen
    {
      if next.value.name == name {
        r := next;
      }
      LookupOneMore(recs, seen, name);
      assert recs[seen + 1..] == recs[seen..][1..];
      seen := seen + 1;
      next := fp.Next();
    }
    assert recs[..seen] == recs;
  }
}
