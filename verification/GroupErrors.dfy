/**
 What the parser of group files makes of text that is not a group definition: which items it
 refuses or takes without their addresses, and what it passes over.
 */
module GroupErrors {
  import opened Text
  import opened Lexer
  import opened GroupParser
  import opened GroupText

  // ---- The token that is read, and its text ----

  lemma {:induction false} BlanksInFront(s: string) returns (gap: string)
    ensures s == gap + SkipBlanks(s) && GapOk(gap, false)
  {
    if s == "" || !IsBlank(s[0]) {
      gap := "";
    } else {
      gap := BlanksInFront(s[1..]);
      gap := [s[0]] + gap;
    }
  }

  /** A token as it is read: its text stands behind white space. */
  ghost predicate IsRead(text: string, i: LexItem, s1: LexState, p: Placed) {
    && text == p.gap + TokText(p.tok) + s1.input && TokItem(p.tok) == i && i != LexNone
    && (p.tok.Word? ==> NameOk(p.tok.text, true) && s1.buffer == p.tok.text)
  }

  lemma Glue(gap: string, t: string, n: nat)
    requires n <= |t|
    ensures gap + t == gap + t[..n] + t[n..]
  {
  }

  /** What the lexer does when the slot is free. */
  lemma ReadItemOf(s: LexState)
    requires s.pushed == LexNone
    ensures var t, r := SkipBlanks(s.input), ReadItem(s);
      if t == "" then r.0 == LexEof && r.1.input == ""
      else if WordLength(t) == 0 then r.0 == Punctuation(t[0]) && r.1.input == t[1..]
      else r.0 == WordItem(t[..WordLength(t)]) && r.1.input == t[WordLength(t)..] && r.1.buffer == t[..WordLength(t)]
  {
  }

  lemma TokenIsRead(s: LexState) returns (p: Placed)
    requires s.pushed == LexNone && ReadItem(s).0 != LexEof
    ensures IsRead(s.input, ReadItem(s).0, ReadItem(s).1, p) && GapOk(p.gap, false)
  {
    var gap := BlanksInFront(s.input);
    var t := SkipBlanks(s.input);
    var n := WordLength(t);
    ReadItemOf(s);
    hide ReadItem, SkipBlanks, WordLength, GapOk, IsRead;
    var s1 := ReadItem(s).1;
    if n == 0 {
      p := Placed(gap, Punct(t[0]));
      PunctInFront(gap, t, s1);
    } else {
      p := Placed(gap, Word(t[..n]));
      WordInFront(gap, t, n, s1);
    }
  }

  lemma PunctInFront(gap: string, t: string, s1: LexState)
    requires t != "" && Punctuation(t[0]) != LexNone && s1.input == t[1..]
    ensures IsRead(gap + t, Punctuation(t[0]), s1, Placed(gap, Punct(t[0])))
  {
    assert t[..1] == [t[0]];
    Glue(gap, t, 1);
  }

  lemma WordInFront(gap: string, t: string, n: nat, s1: LexState)
    requires 0 < n <= |t| && forall i :: 0 <= i < n ==> !IsDelimiter(t[i])
    requires s1.input == t[n..] && s1.buffer == t[..n]
    ensures IsRead(gap + t, WordItem(t[..n]), s1, Placed(gap, Word(t[..n])))
  {
    Glue(gap, t, n);
  }

  lemma PunctIsRead(text: string, i: LexItem, s1: LexState, p: Placed)
    requires IsRead(text, i, s1, p)
    ensures i == LexItemSep ==> p.tok == Comma
    ensures i == LexCloseParen ==> p.tok == Punct(')')
    ensures i == LexRecSep ==> p.tok == Newline
  {
  }

  lemma GapGrows(text: string, s1: LexState, p: Placed, i: LexItem, s2: LexState, q: Placed)
    requires IsRead(text, LexRecSep, s1, p) && GapOk(p.gap, false)
    requires IsRead(s1.input, i, s2, q) && GapOk(q.gap, true)
    ensures var r := Placed(p.gap + [LF] + q.gap, q.tok);
      IsRead(text, i, s2, r) && GapOk(r.gap, true)
  {
    PunctIsRead(text, LexRecSep, s1, p);
    assert p.gap + [LF] + (q.gap + TokText(q.tok) + s2.input) == p.gap + [LF] + q.gap + TokText(q.tok) + s2.input;
  }

  lemma {:induction false} TokenPastLines(s: LexState) returns (p: Placed)
    requires s.pushed == LexNone && ReadPastLines(s).0 != LexEof
    ensures IsRead(s.input, ReadPastLines(s).0, ReadPastLines(s).1, p) && GapOk(p.gap, true)
    decreases Weight(s)
  {
    hide ReadItem, IsRead;
    var (i, s1) := ReadItem(s);
    p := TokenIsRead(s);
    if i != LexRecSep {
    } else {
      var q := TokenPastLines(s1);
      GapGrows(s.input, s1, p, ReadPastLines(s1).0, ReadPastLines(s1).1, q);
      p := Placed(p.gap + [LF] + q.gap, q.tok);
    }
  }

  lemma NothingIsRead(s: LexState)
    requires s.pushed == LexNone && ReadItem(s).0 == LexEof
    ensures GapOk(s.input, true) && ReadItem(s).1.input == ""
  {
    var gap := BlanksInFront(s.input);
    assert s.input == gap;
  }

  lemma {:induction false} NothingPastLines(s: LexState)
    requires s.pushed == LexNone && ReadPastLines(s).0 == LexEof
    ensures GapOk(s.input, true) && ReadPastLines(s).1.input == ""
    decreases Weight(s)
  {
    hide ReadItem, IsRead, GapOk;
    var (i, s1) := ReadItem(s);
    if i == LexEof {
      NothingIsRead(s);
    } else {
      var p := TokenIsRead(s);
      NothingPastLines(s1);
      LineEndInGap(s.input, s1, p);
    }
  }

  lemma LineEndInGap(text: string, s1: LexState, p: Placed)
    requires IsRead(text, LexRecSep, s1, p) && GapOk(p.gap, false) && GapOk(s1.input, true)
    ensures GapOk(text, true)
  {
    PunctIsRead(text, LexRecSep, s1, p);
    assert text == p.gap + [LF] + s1.input;
  }

  // ---- Lists that can be read ----

  /** Names in any layout, behind the parenthesis that opens their list, and what follows the list. */
  ghost predicate Spells(text: string, templates: bool, names: seq<string>, ps: seq<Placed>, more: string) {
    && PartOk(List(names), templates) && Toks(ps) == [Word(names[0])] + NamesTail(names[1..], [])
    && GapsOk(ps, false) && text == Spell(ps) + more
  }

  ghost predicate IsSpelledList(text: string, templates: bool) {
    exists names: seq<string>, ps: seq<Placed>, more: string :: Spells(text, templates, names, ps, more)
  }

  lemma ReadBack(s: LexState, i: LexItem)
    requires s.pushed == LexNone && i != LexNone
    ensures ReadItem(PutBack(s, i)) == (i, s)
  {
  }

  lemma FirstName(s: LexState, templates: bool, names: seq<string>, ps: seq<Placed>, more: string)
    requires s.pushed == LexNone && Spells(s.input, templates, names, ps, more)
    ensures var (j, s1) := ReadItem(s);
      && IsName(j, templates) && s1.buffer == names[0] && ps != [] && At(s1, ps[1..], more)
      && Toks(ps[1..]) == NamesTail(names[1..], []) && Sound(ps[1..], false)
  {
    var tail := NamesTail(names[1..], []);
    NamesTailOk(names[1..], []);
    WordThenOk(names[0], tail);
    assert ([Word(names[0])] + tail)[1..] == tail && Toks(ps)[0] == ps[0].tok;
    hide NamesTail;
    ReadTok(s, ps, more);
    SoundTail(ps, false);
    WordIsName(names[0], templates);
  }

  lemma SpelledListIsRead(s: LexState, templates: bool, names: seq<string>, ps: seq<Placed>, more: string)
    requires s.pushed == LexNone && Spells(s.input, templates, names, ps, more)
    ensures var p := ParsePart(PutBack(s, LexOpenParen), templates);
      p.value == Some(Reverse(names)) && p.rest.input == more
  {
    FirstName(s, templates, names, ps, more);
    ReadBack(s, LexOpenParen);
    hide ReadItem, NamesTail, NameOk, GapsOk, ToksOk;
    var qs := NamesParse(ReadItem(s).1, templates, [], names, [], ps[1..], more);
    assert qs == [];
    assert Reverse(names) + [] == Reverse(names) && Spell(qs) + more == more;
  }

  lemma TextIsRead(text: string, i: LexItem, s1: LexState, p: Placed)
    requires IsRead(text, i, s1, p)
    ensures text == p.gap + TokText(p.tok) + s1.input
  {
  }

  lemma NameIsRead(text: string, i: LexItem, s1: LexState, p: Placed, templates: bool)
    requires IsRead(text, i, s1, p) && IsName(i, templates)
    ensures p.tok.Word? && NameOk(p.tok.text, templates)
  {
  }

  /** A comma and a name in a list. */
  lemma CommaAndName(s: LexState, templates: bool) returns (p: Placed, q: Placed)
    requires s.pushed == LexNone && ReadItem(s).0 == LexItemSep
    requires IsName(ReadPastLines(ReadItem(s).1).0, templates)
    ensures var s2 := ReadPastLines(ReadItem(s).1).1;
      s.input == p.gap + TokText(p.tok) + (q.gap + TokText(q.tok) + s2.input)
    ensures p.tok == Comma && q.tok.Word? && NameOk(q.tok.text, templates) && GapOk(p.gap, false) && GapOk(q.gap, true)
  {
    var (i, s1) := ReadItem(s);
    var (j, s2) := ReadPastLines(s1);
    hide ReadItem, ReadPastLines;
    p := TokenIsRead(s);
    PunctIsRead(s.input, i, s1, p);
    q := TokenPastLines(s1);
    NameIsRead(s1.input, j, s2, q, templates);
  }

  /** What is read as the rest of a list is spelled as one. */
  lemma {:induction false} NamesAreSpelled(s: LexState, templates: bool, acc: seq<string>)
    returns (names: seq<string>, ps: seq<Placed>)
    requires s.pushed == LexNone && ParseNames(s, templates, acc).value.Some?
    ensures forall i :: 0 <= i < |names| ==> NameOk(names[i], templates)
    ensures Toks(ps) == NamesTail(names, []) && GapsOk(ps, false)
    ensures s.input == Spell(ps) + ParseNames(s, templates, acc).rest.input
    decreases Weight(s)
  {
    hide ReadItem, ReadPastLines, NameOk, GapOk;
    var (i, s1) := ReadItem(s);
    if i == LexCloseParen {
      var p := TokenIsRead(s);
      PunctIsRead(s.input, i, s1, p);
      names, ps := [], [p];
    } else {
      var s2 := ReadPastLines(s1).1;
      var p, q := CommaAndName(s, templates);
      var more := ParseNames(s2, templates, [s.buffer] + acc).rest.input;
      names, ps := NamesAreSpelled(s2, templates, [s.buffer] + acc);
      hide ParseNames;
      SpellTwo(p, q, ps, more);
      names, ps := [q.tok.text] + names, [p, q] + ps;
    }
  }

  lemma SpellTwo(p: Placed, q: Placed, ps: seq<Placed>, more: string)
    ensures var all := [p, q] + ps;
      && Toks(all) == [p.tok, q.tok] + Toks(ps)
      && Spell(all) + more == p.gap + TokText(p.tok) + (q.gap + TokText(q.tok) + (Spell(ps) + more))
      && (GapOk(p.gap, false) && GapOk(q.gap, AllowsLines(p.tok)) && GapsOk(ps, AllowsLines(q.tok)) ==>
          GapsOk(all, false))
  {
    var all := [p, q] + ps;
    assert all[1..] == [q] + ps && all[1..][1..] == ps;
  }

  lemma SpellOne(p: Placed, ps: seq<Placed>, more: string, lines: bool)
    ensures var all := [p] + ps;
      && Toks(all) == [p.tok] + Toks(ps)
      && Spell(all) + more == p.gap + TokText(p.tok) + (Spell(ps) + more)
      && (GapOk(p.gap, lines) && GapsOk(ps, AllowsLines(p.tok)) ==> GapsOk(all, lines))
  {
    var all := [p] + ps;
    assert all[1..] == ps;
  }

  lemma SpelledInParts(text: string, templates: bool, p: Placed, rest: string, names: seq<string>, ps: seq<Placed>,
                       more: string)
    requires text == p.gap + TokText(p.tok) + rest && rest == Spell(ps) + more && GapOk(p.gap, false)
    requires p.tok.Word? && NameOk(p.tok.text, templates)
    requires (forall i :: 0 <= i < |names| ==> NameOk(names[i], templates)) && Toks(ps) == NamesTail(names, [])
    requires GapsOk(ps, false)
    ensures IsSpelledList(text, templates)
  {
    hide NameOk, NamesTail;
    SpellOne(p, ps, more, false);
    var all := [p.tok.text] + names;
    assert all[1..] == names;
    assert Spells(text, templates, all, [p] + ps, more);
  }

  lemma ReadListIsSpelled(s: LexState, templates: bool)
    requires s.pushed == LexNone && ParsePart(PutBack(s, LexOpenParen), templates).value.Some?
    ensures IsSpelledList(s.input, templates)
  {
    hide ReadItem, ParseNames, NameOk, NamesTail, GapsOk, GapOk, Spell, Toks, IsSpelledList, IsRead, TokText;
    ReadBack(s, LexOpenParen);
    var (j, s1) := ReadItem(s);
    var p := TokenIsRead(s);
    NameIsRead(s.input, j, s1, p, templates);
    TextIsRead(s.input, j, s1, p);
    var names, ps := NamesAreSpelled(s1, templates, []);
    SpelledInParts(s.input, templates, p, s1.input, names, ps, ParseNames(s1, templates, []).rest.input);
  }

  /** A list in parentheses is read if and only if it is spelled as one. */
  lemma ListIsReadIffSpelled(s: LexState, templates: bool)
    requires s.pushed == LexNone
    ensures ParsePart(PutBack(s, LexOpenParen), templates).value.Some? <==> IsSpelledList(s.input, templates)
  {
    hide ParsePart, Spells;
    if ParsePart(PutBack(s, LexOpenParen), templates).value.Some? {
      ReadListIsSpelled(s, templates);
    }
    if IsSpelledList(s.input, templates) {
      var names, ps, more :| Spells(s.input, templates, names, ps, more);
      SpelledListIsRead(s, templates, names, ps, more);
    }
  }

  // ---- Lists that cannot be read ----

  /**
   These are tokens of a list up to a bad one, the last, that cannot stand there; or all of them
   are good and the text ends before the list does. A name is due at first, and behind a comma.
   */
  predicate BreaksOff(ps: seq<Placed>, bad: bool, nameDue: bool, templates: bool) {
    if ps == [] then !bad
    else
      var t := ps[0].tok;
      if nameDue && t.Word? && NameOk(t.text, templates) then BreaksOff(ps[1..], bad, false, templates)
      else if !nameDue && t == Comma then BreaksOff(ps[1..], bad, true, templates)
      else bad && |ps| == 1 && (!nameDue ==> t != Punct(')'))
  }

  /** The text up to where the list breaks off, and what the parser leaves of the text behind it. */
  ghost predicate BreaksAt(text: string, templates: bool, nameDue: bool, lines: bool, ps: seq<Placed>, bad: bool,
                           more: string, left: string) {
    && BreaksOff(ps, bad, nameDue, templates) && GapsOk(ps, lines) && text == Spell(ps) + more
    && (if bad then left == SkipLine(more) else left == "" && GapOk(more, true))
  }

  /** The list breaks off at the first token. */
  lemma BreaksHere(text: string, i: LexItem, s1: LexState, p: Placed, templates: bool, nameDue: bool, lines: bool)
    requires IsRead(text, i, s1, p) && GapOk(p.gap, lines)
    requires if nameDue then !IsName(i, templates) else i != LexItemSep && i != LexCloseParen
    ensures BreaksAt(text, templates, nameDue, lines, [p], true, s1.input, SkipLine(s1.input))
  {
    SpellOne(p, [], s1.input, lines);
    assert [p][1..] == [] && Spell([]) + s1.input == s1.input;
  }

  /** The text is over. */
  lemma BreaksAtEnd(text: string, templates: bool, nameDue: bool, lines: bool)
    requires GapOk(text, true)
    ensures BreaksAt(text, templates, nameDue, lines, [], false, text, "")
  {
    assert Spell([]) + text == text;
  }

  /** The list breaks off behind the first token. */
  lemma BreaksLater(text: string, p: Placed, rest: string, templates: bool, nameDue: bool, lines: bool,
                    ps: seq<Placed>, bad: bool, more: string, left: string)
    requires text == p.gap + TokText(p.tok) + rest && GapOk(p.gap, lines)
    requires if nameDue then p.tok.Word? && NameOk(p.tok.text, templates) else p.tok == Comma
    requires BreaksAt(rest, templates, !nameDue, AllowsLines(p.tok), ps, bad, more, left)
    ensures BreaksAt(text, templates, nameDue, lines, [p] + ps, bad, more, left)
  {
    SpellOne(p, ps, more, lines);
    assert ([p] + ps)[1..] == ps;
  }

  /** Where a name is due, perhaps on another line. */
  lemma NameIsMissing(s: LexState, templates: bool) returns (ps: seq<Placed>, bad: bool, more: string)
    requires s.pushed == LexNone && !IsName(ReadPastLines(s).0, templates)
    ensures BreaksAt(s.input, templates, true, true, ps, bad, more, SkipLine(ReadPastLines(s).1.input))
  {
    hide ReadItem, BreaksAt, IsRead, ReadPastLines;
    var (j, s1) := ReadPastLines(s);
    if j == LexEof {
      NothingPastLines(s);
      ps, bad, more := [], false, s.input;
      BreaksAtEnd(s.input, templates, true, true);
    } else {
      var p := TokenPastLines(s);
      ps, bad, more := [p], true, s1.input;
      BreaksHere(s.input, j, s1, p, templates, true, true);
    }
  }

  /** Where any other token is due. */
  lemma TokenIsBad(s: LexState, templates: bool, nameDue: bool) returns (ps: seq<Placed>, bad: bool, more: string)
    requires s.pushed == LexNone
    requires var i := ReadItem(s).0;
      if nameDue then !IsName(i, templates) else i != LexItemSep && i != LexCloseParen
    ensures BreaksAt(s.input, templates, nameDue, false, ps, bad, more, SkipLine(ReadItem(s).1.input))
  {
    hide ReadItem, BreaksAt, IsRead;
    var (i, s1) := ReadItem(s);
    if i == LexEof {
      NothingIsRead(s);
      ps, bad, more := [], false, s.input;
      BreaksAtEnd(s.input, templates, nameDue, false);
    } else {
      var p := TokenIsRead(s);
      ps, bad, more := [p], true, s1.input;
      BreaksHere(s.input, i, s1, p, templates, nameDue, false);
    }
  }

  lemma {:induction false} NamesBreakOff(s: LexState, templates: bool, acc: seq<string>)
    returns (ps: seq<Placed>, bad: bool, more: string)
    requires s.pushed == LexNone && ParseNames(s, templates, acc).value.None?
    ensures BreaksAt(s.input, templates, false, false, ps, bad, more, ParseNames(s, templates, acc).rest.input)
    decreases Weight(s)
  {
    hide ReadItem, ReadPastLines, BreaksAt, IsRead, NameOk, GapOk, SkipLine, TokText;
    var (i, s1) := ReadItem(s);
    var left := ParseNames(s, templates, acc).rest.input;
    if i != LexItemSep {
      ps, bad, more := TokenIsBad(s, templates, false);
    } else {
      var (j, s2) := ReadPastLines(s1);
      var p := TokenIsRead(s);
      PunctIsRead(s.input, i, s1, p);
      if !IsName(j, templates) {
        ps, bad, more := NameIsMissing(s1, templates);
      } else {
        var q := TokenPastLines(s1);
        NameIsRead(s1.input, j, s2, q, templates);
        ps, bad, more := NamesBreakOff(s2, templates, [s.buffer] + acc);
        TextIsRead(s1.input, j, s2, q);
        BreaksLater(s1.input, q, s2.input, templates, true, true, ps, bad, more, left);
        ps := [q] + ps;
      }
      TextIsRead(s.input, i, s1, p);
      BreaksLater(s.input, p, s1.input, templates, false, false, ps, bad, more, left);
      ps := [p] + ps;
    }
  }

  /** A list that cannot be read breaks off, and the rest of that line is passed over. */
  lemma ListBreaksOff(s: LexState, templates: bool) returns (ps: seq<Placed>, bad: bool, more: string)
    requires s.pushed == LexNone && !IsSpelledList(s.input, templates)
    ensures var r := ParsePart(PutBack(s, LexOpenParen), templates);
      r.value.None? && BreaksAt(s.input, templates, true, false, ps, bad, more, r.rest.input)
  {
    ListIsReadIffSpelled(s, templates);
    ReadBack(s, LexOpenParen);
    hide ReadItem, BreaksAt, IsRead, NameOk, GapOk, SkipLine, TokText, ParseNames, IsSpelledList;
    var (j, s1) := ReadItem(s);
    if IsName(j, templates) {
      var p := TokenIsRead(s);
      NameIsRead(s.input, j, s1, p, templates);
      ps, bad, more := NamesBreakOff(s1, templates, []);
      TextIsRead(s.input, j, s1, p);
      BreaksLater(s.input, p, s1.input, templates, true, false, ps, bad, more,
                  ParseNames(s1, templates, []).rest.input);
      ps := [p] + ps;
    } else {
      ps, bad, more := TokenIsBad(s, templates, true);
    }
  }

  // ---- Malformed address parts ----

  /** The text behind the sign is a list that cannot be read. */
  ghost predicate LosesAddresses(text: string) {
    var t := SkipBlanks(text);
    t != "" && t[0] == '(' && !IsSpelledList(t[1..], true)
  }

  /** Behind the sign there is nothing an address part could begin with. */
  predicate LacksAddresses(text: string) {
    var t := SkipBlanks(text);
    t == "" || (IsDelimiter(t[0]) && t[0] != '(')
  }

  /** The first token by the first character. */
  lemma FirstCharacter(s: LexState)
    requires s.pushed == LexNone
    ensures var t, r := SkipBlanks(s.input), ReadItem(s);
      && (r.0 == LexOpenParen <==> t != "" && t[0] == '(')
      && (r.0 == LexItemSep <==> t != "" && t[0] == ',')
      && (r.0 == LexRecSep <==> t != "" && t[0] == LF)
      && (r.0 == LexEof <==> t == "")
      && (IsName(r.0, true) <==> t != "" && !IsDelimiter(t[0]))
      && (t != "" && IsDelimiter(t[0]) ==> r.1 == s.(input := t[1..]))
  {
  }

  /** A single name is always taken. */
  lemma SingleNameParses(s: LexState, k: LexItem)
    requires s.pushed == LexNone && IsName(k, true)
    ensures ParsePart(PutBack(s, k), true) == Parsed(Some([s.buffer]), s)
  {
  }

  /** The address part is read, or lost, or lacking, by the text behind the sign. */
  lemma AddressPart(s: LexState)
    requires s.pushed == LexNone
    ensures var (k, s1) := ReadItem(s);
      var r := ParsePart(PutBack(s1, k), true);
      && (LacksAddresses(s.input) <==> k != LexOpenParen && !IsName(k, true))
      && (LosesAddresses(s.input) <==> k == LexOpenParen && r.value.None?)
      && (k == LexOpenParen ==> s1.input == SkipBlanks(s.input)[1..])
      && (IsName(k, true) ==> r.value.Some?)
  {
    FirstCharacter(s);
    var (k, s1) := ReadItem(s);
    if k == LexOpenParen {
      ListIsReadIffSpelled(s1, true);
    } else if IsName(k, true) {
      SingleNameParses(s1, k);
    }
  }

  /**
   What becomes of an item with an address part. It is taken without its addresses, so that its
   users are admitted from anywhere, exactly if it has users and behind the sign there is a
   parenthesis with anything but the text of a list behind it; it is refused exactly if nothing like
   an address follows, or if there are no users either. Otherwise it has the addresses that are given.
   */
  lemma MalformedAddressesAdmitAll(s: LexState)
    requires ParseUsers(s).1 == LexAtSign
    ensures var users, text, item := ParseUsers(s).0, ParseUsers(s).2.input, ParseItem(s).value;
      && (item == Some(ItemText(users, None)) <==> LosesAddresses(text) && users.Some?)
      && (item.None? <==> LacksAddresses(text) || (LosesAddresses(text) && users.None?))
      && (item.Some? ==> item.value.users == users)
  {
    hide ReadItem, ParsePart, LosesAddresses, LacksAddresses;
    AddressPart(ParseUsers(s).2);
  }

  /** The item is one that has lost its addresses. */
  ghost predicate IsLost(s: LexState) {
    var (users, j, s2) := ParseUsers(s);
    users.Some? && j == LexAtSign && LosesAddresses(s2.input)
  }

  /**
   For users in any layout, and whatever stands behind the parenthesis: they are admitted from everywhere
   if and only if that is not the text of a list.
   */
  lemma UserOfLostList(s: LexState, users: Part, ps: seq<Placed>, rest: string)
    requires PartOk(users, false) && Toks(ps) == PartToks(users, [Punct('@'), Punct('(')])
    requires GapsOk(ps, false) && At(s, ps, rest)
    ensures var item := ParseItem(s).value;
      && item.Some? && item.value.users == Some(PartText(users))
      && (item.value.addresses.None? <==> !IsSpelledList(rest, true))
    ensures IsLost(s) <==> !IsSpelledList(rest, true)
  {
    var tail := [Punct('@'), Punct('(')];
    assert tail[1..] == [Punct('(')] && tail[1..][1..] == [];
    PunctThenOk('(', []);
    assert [Punct('(')] + [] == [Punct('(')];
    PunctThenOk('@', [Punct('(')]);
    assert [Punct('@')] + [Punct('(')] == tail;
    var qs := UsersBeforeSign(s, users, ps, rest);
    var s2 := ParseUsers(s).2;
    ParenthesisFollows(s2, qs, rest);
    hide ReadItem, ParseUsers, ParseItem, IsSpelledList, SkipBlanks, PartText, At, Sound;
    MalformedAddressesAdmitAll(s);
  }

  lemma UsersBeforeSign(s: LexState, users: Part, ps: seq<Placed>, rest: string) returns (qs: seq<Placed>)
    requires var tail := [Punct('@'), Punct('(')];
      PartOk(users, false) && ToksOk(tail) && Toks(ps) == PartToks(users, tail)
    requires GapsOk(ps, false) && At(s, ps, rest)
    ensures ParseUsers(s).0 == Some(PartText(users)) && ParseUsers(s).1 == LexAtSign
    ensures At(ParseUsers(s).2, qs, rest) && Toks(qs) == [Punct('(')] && Sound(qs, false)
  {
    hide ReadItem, GapsOk, ToksOk, PartToks, PartOk, PartText;
    var tail := [Punct('@'), Punct('(')];
    UsersAreNext(s, users, tail, ps, rest);
    var (i, s1) := ReadItem(s);
    ReadBack(s1, i);
    var us := PartParses(PutBack(s1, i), false, users, tail, ps, rest);
    hide ParsePart;
    assert tail == [Punct('@')] + [Punct('(')];
    ReadPunct(ParsePart(PutBack(s1, i), false).rest, us, rest, '@', [Punct('(')]);
    qs := us[1..];
  }

  lemma UsersAreNext(s: LexState, users: Part, tail: seq<Tok>, ps: seq<Placed>, rest: string)
    requires PartOk(users, false) && ToksOk(tail) && tail != [] && tail[0].Punct?
    requires Toks(ps) == PartToks(users, tail) && GapsOk(ps, false) && At(s, ps, rest)
    ensures Next(s, ps, rest) && Sound(ps[1..], AllowsLines(ps[0].tok))
    ensures ReadItem(s).0 == LexAlphStr || ReadItem(s).0 == LexOpenParen
  {
    PartToksOk(users, false, tail);
    PartFirst(users, false, tail);
    hide PartToks, PartOk;
    assert Toks(ps)[0] == ps[0].tok;
    ReadTok(s, ps, rest);
    SoundTail(ps, false);
  }

  lemma ParenthesisFollows(s: LexState, qs: seq<Placed>, rest: string)
    requires At(s, qs, rest) && Toks(qs) == [Punct('(')] && Sound(qs, false)
    ensures var t := SkipBlanks(s.input);
      t != "" && t[0] == '(' && t[1..] == rest
  {
    assert [Punct('(')] == [Punct('(')] + [];
    ReadPunct(s, qs, rest, '(', []);
    FirstCharacter(s);
    assert Spell(qs[1..]) + rest == rest;
  }

  // ---- What is passed over ----

  lemma {:induction false} LineWithBlanks(s: string)
    ensures SkipLine(SkipBlanks(s)) == SkipLine(s)
  {
    if s == "" || !IsBlank(s[0]) {
    } else {
      LineWithBlanks(s[1..]);
    }
  }

  lemma {:induction false} LineWithWord(word: string, s: string)
    requires forall i :: 0 <= i < |word| ==> !IsDelimiter(word[i])
    ensures SkipLine(word + s) == SkipLine(s)
  {
    if word == "" {
      assert word + s == s;
    } else {
      assert (word + s)[1..] == word[1..] + s;
      LineWithWord(word[1..], s);
    }
  }

  /** Whatever the first token of a line is, passing over the rest passes over the line. */
  lemma LineOfToken(s: LexState)
    requires s.pushed == LexNone
    ensures var (i, s1) := ReadItem(s);
      SkipLine(s.input) == if i == LexRecSep then s1.input else SkipLine(s1.input)
  {
    LineWithBlanks(s.input);
    var t := SkipBlanks(s.input);
    var n := WordLength(t);
    if n > 0 {
      assert t == t[..n] + t[n..];
      LineWithWord(t[..n], t[n..]);
    }
  }

  /** The definition from an item on, behind those that have been read. */
  function DefFrom(s: LexState, items: seq<ItemText>): Parsed<seq<ItemText>> {
    var q := ParseItemList(s, items);
    if q.value.None? then q
    else
      var (i, s1) := ReadItem(q.rest);
      Parsed(q.value, if i == LexRecSep then s1 else PassError(s1))
  }

  /** Where the list of an item that has lost its addresses breaks off, the rest of the line is passed over. */
  lemma LostListEndsLine(s: LexState) returns (ps: seq<Placed>, bad: bool, more: string)
    requires IsLost(s)
    ensures var list, rest := SkipBlanks(ParseUsers(s).2.input)[1..], ParseItem(s).rest;
      rest.pushed == LexNone && BreaksAt(list, true, true, false, ps, bad, more, rest.input)
  {
    hide ReadItem, BreaksAt, IsSpelledList;
    var s2 := ParseUsers(s).2;
    AddressPart(s2);
    ps, bad, more := ListBreaksOff(ReadItem(s2).1, true);
  }

  /**
   Behind an item that has lost its addresses, the parser is on another line. If that does not begin
   with a comma, the definition ends and the line is passed over, whatever is on it; nothing is lost
   only if it is empty. If it does, the definition goes on behind the comma.
   */
  lemma LostListTakesNextLine(s: LexState, items: seq<ItemText>)
    requires IsLost(s)
    ensures var item, rest := ParseItem(s).value, ParseItem(s).rest;
      var t, items' := SkipBlanks(rest.input), [item.value] + items;
      && item == Some(ItemText(ParseUsers(s).0, None)) && rest.pushed == LexNone
      && (t == "" || t[0] != ',' ==>
            var d := DefFrom(s, items);
            d.value == Some(items') && d.rest.input == SkipLine(rest.input) && d.rest.pushed == LexNone)
      && (t != "" && t[0] == ',' ==>
            var (j, s2) := ReadPastLines(rest.(input := t[1..]));
            DefFrom(s, items) == DefFrom(PutBack(s2, j), items'))
    ensures DefFrom(s, []) == ParseGroupDef(s)
  {
    hide ReadItem, ReadPastLines, ParseUsers, ParseItem, SkipBlanks, SkipLine, LosesAddresses, BreaksAt, Weight;
    var ps, bad, more := LostListEndsLine(s);
    MalformedAddressesAdmitAll(s);
    LineBehind(ParseItem(s).rest);
  }

  /** The token behind an item, read, pushed back and read again. */
  lemma LineBehind(s: LexState)
    requires s.pushed == LexNone
    ensures var (i, s1) := ReadItem(s);
      && ReadItem(PutBack(s1, i)) == (i, s1)
      && (if i == LexRecSep then s1 else PassError(s1)).input == SkipLine(s.input)
      && var t := SkipBlanks(s.input);
        (i == LexItemSep <==> t != "" && t[0] == ',') && (i == LexItemSep ==> s1 == s.(input := t[1..]))
  {
    FirstCharacter(s);
    LineOfToken(s);
    ReadBack(ReadItem(s).1, ReadItem(s).0);
  }

  // ---- The slot that is left full ----

  /** Where an item begins that is refused, if there is one in the definition. */
  function RefusedItem(s: LexState): Option<LexState>
    decreases Weight(s)
  {
    var q := ParseItem(s);
    if q.value.None? then Some(s)
    else
      var (i, s1) := ReadItem(q.rest);
      if i != LexItemSep then None
      else
        var (j, s2) := ReadPastLines(s1);
        RefusedItem(PutBack(s2, j))
  }

  /** An item that is refused leaves the slot full if and only if it has no address part. */
  lemma RefusedItemSlot(s: LexState)
    requires ParseItem(s).value.None?
    ensures ParseUsers(s).0.Some? ==> ParseUsers(s).1 == LexAtSign
    ensures ParseItem(s).rest.pushed == if ParseUsers(s).1 == LexAtSign then LexNone else ParseUsers(s).1
  {
    hide ParseUsers, ParsePart;
  }

  lemma {:induction false} ListIsRefused(s: LexState, items: seq<ItemText>)
    ensures var q := ParseItemList(s, items);
      && (q.value.None? <==> RefusedItem(s).Some?)
      && (q.value.None? ==>
            var p := ParseItem(RefusedItem(s).value);
            p.value.None? && q.rest == p.rest)
    decreases Weight(s)
  {
    hide ParseItem, ReadItem, ReadPastLines;
    var q := ParseItem(s);
    if q.value.None? || ReadItem(q.rest).0 != LexItemSep {
    } else {
      var (j, s2) := ReadPastLines(ReadItem(q.rest).1);
      ListIsRefused(PutBack(s2, j), [q.value.value] + items);
    }
  }

  /**
   A definition fails exactly if one of its items is refused, and it leaves the slot of the lexer
   full exactly if that item has no address part: then with the token behind its user part.
   */
  lemma SlotIsFullIff(s: LexState)
    ensures var d, f := ParseGroupDef(s), RefusedItem(s);
      && (d.value.None? <==> f.Some?)
      && (d.rest.pushed != LexNone <==> f.Some? && ParseUsers(f.value).1 != LexAtSign)
      && (d.rest.pushed != LexNone ==> d.rest.pushed == ParseUsers(f.value).1 && ParseUsers(f.value).0.None?)
  {
    ListIsRefused(s, []);
    hide ParseItem, ReadItem, RefusedItem, ParseItemList;
    if RefusedItem(s).Some? {
      RefusedItemSlot(RefusedItem(s).value);
    }
  }

  lemma {:induction false} LineIsPassedOver(line: string, rest: string)
    requires LF !in line
    ensures SkipLine(line + [LF] + rest) == rest
  {
    if line == "" {
      assert line + [LF] + rest == [LF] + rest;
    } else {
      assert (line + [LF] + rest)[1..] == line[1..] + [LF] + rest;
      LineIsPassedOver(line[1..], rest);
    }
  }

  lemma EmptyItem(s: LexState, s1: LexState)
    requires ReadItem(s) == (LexRecSep, s1)
    ensures ParseGroupDef(s) == Parsed(None, PassError(PutBack(s1, LexRecSep)))
  {
    hide ReadItem, PassError;
  }

  /**
   An empty definition leaves its line end pushed back, and the error handling passes over
   the line behind it instead.
   */
  lemma EmptyDefinitionPassesOverNextLine(line: string, rest: string)
    requires LF !in line
    ensures ParseGroupDef(LexState([LF] + line + [LF] + rest, "", LexNone)) ==
      Parsed(None, LexState(rest, "", LexRecSep))
  {
    var s := LexState([LF] + line + [LF] + rest, "", LexNone);
    assert s.input[1..] == line + [LF] + rest;
    LineIsPassedOver(line, rest);
    EmptyItem(s, LexState(line + [LF] + rest, "", LexNone));
  }
}
