/**
 The text of a group file and what the parser makes of it: whatever the white space, and
 with line ends after any comma, it reads back the definitions, with each list reversed.
 */
module GroupText {
  import opened Text
  import opened Lexer
  import opened GroupParser

  // ---- Definitions as they are written ----

  /** A single name, or names in parentheses. */
  datatype Part = Single(name: string) | List(names: seq<string>)

  /** [user_part] ['@' address_part] */
  datatype ItemForm = ItemForm(users: Option<Part>, addresses: Option<Part>)

  /** group_name ':' item { ',' item } */
  datatype DeclForm = DeclForm(name: string, items: seq<ItemForm>)

  predicate NameOk(name: string, templates: bool) {
    name != "" && (forall i :: 0 <= i < |name| ==> !IsDelimiter(name[i])) && (templates || '*' !in name)
  }

  predicate PartOk(p: Part, templates: bool) {
    match p
    case Single(name) => NameOk(name, templates)
    case List(names) => names != [] && forall i :: 0 <= i < |names| ==> NameOk(names[i], templates)
  }

  predicate ItemOk(it: ItemForm) {
    && (it.users.Some? || it.addresses.Some?)
    && (it.users.Some? ==> PartOk(it.users.value, false))
    && (it.addresses.Some? ==> PartOk(it.addresses.value, true))
  }

  predicate DeclOk(d: DeclForm) {
    NameOk(d.name, false) && d.items != [] && forall i :: 0 <= i < |d.items| ==> ItemOk(d.items[i])
  }

  // ---- Tokens ----

  datatype Tok = Word(text: string) | Punct(c: char)

  function TokText(t: Tok): string { if t.Word? then t.text else [t.c] }

  function TokItem(t: Tok): LexItem { if t.Word? then WordItem(t.text) else Punctuation(t.c) }

  const Comma := Punct(',')
  const Newline := Punct(LF)

  /** The tokens of a form, in front of those that follow it. */
  function NamesTail(names: seq<string>, tail: seq<Tok>): seq<Tok> {
    if names == [] then [Punct(')')] + tail else [Comma, Word(names[0])] + NamesTail(names[1..], tail)
  }

  function PartToks(p: Part, tail: seq<Tok>): seq<Tok>
    requires p.List? ==> p.names != []
  {
    match p
    case Single(name) => [Word(name)] + tail
    case List(names) => [Punct('('), Word(names[0])] + NamesTail(names[1..], tail)
  }

  function AddressToks(addresses: Option<Part>, tail: seq<Tok>): seq<Tok>
    requires addresses.Some? ==> PartOk(addresses.value, true)
  {
    if addresses.None? then tail else [Punct('@')] + PartToks(addresses.value, tail)
  }

  function ItemToks(it: ItemForm, tail: seq<Tok>): seq<Tok>
    requires ItemOk(it)
  {
    if it.users.None? then AddressToks(it.addresses, tail)
    else PartToks(it.users.value, AddressToks(it.addresses, tail))
  }

  function ListToks(items: seq<ItemForm>, tail: seq<Tok>): seq<Tok>
    requires items != [] && forall i :: 0 <= i < |items| ==> ItemOk(items[i])
  {
    if |items| == 1 then ItemToks(items[0], tail)
    else ItemToks(items[0], [Comma] + ListToks(items[1..], tail))
  }

  function DeclToks(d: DeclForm, tail: seq<Tok>): seq<Tok>
    requires DeclOk(d)
  {
    [Word(d.name), Punct(':')] + ListToks(d.items, [Newline] + tail)
  }

  function FileToks(ds: seq<DeclForm>): seq<Tok>
    requires forall i :: 0 <= i < |ds| ==> DeclOk(ds[i])
  {
    if ds == [] then [] else DeclToks(ds[0], FileToks(ds[1..]))
  }

  // ---- Layout ----

  /** A token with the white space in front of it. */
  datatype Placed = Placed(gap: string, tok: Tok)

  function Toks(ps: seq<Placed>): seq<Tok> {
    if ps == [] then [] else [ps[0].tok] + Toks(ps[1..])
  }

  function Spell(ps: seq<Placed>): string {
    if ps == [] then "" else ps[0].gap + TokText(ps[0].tok) + Spell(ps[1..])
  }

  /** White space; line ends only where they are ignored. */
  predicate GapOk(gap: string, lines: bool) {
    forall i :: 0 <= i < |gap| ==> IsBlank(gap[i]) || (lines && gap[i] == LF)
  }

  /** Line ends are ignored after a comma, and empty lines after a line end. */
  predicate AllowsLines(t: Tok) { t == Comma || t == Newline }

  predicate GapsOk(ps: seq<Placed>, lines: bool) {
    ps == [] || (GapOk(ps[0].gap, lines) && GapsOk(ps[1..], AllowsLines(ps[0].tok)))
  }

  /** Strings are well-formed, and after each there is punctuation. */
  predicate ToksOk(ts: seq<Tok>) {
    ts == [] || (
      && (if ts[0].Word? then NameOk(ts[0].text, true) && |ts| > 1 && ts[1].Punct? else Punctuation(ts[0].c) != LexNone)
      && ToksOk(ts[1..]))
  }

  ghost predicate Sound(ps: seq<Placed>, lines: bool) { GapsOk(ps, lines) && ToksOk(Toks(ps)) }

  // ---- What is read back ----

  function Reverse<T>(s: seq<T>): (r: seq<T>)
    ensures |r| == |s| && forall i :: 0 <= i < |s| ==> r[i] == s[|s| - 1 - i]
  {
    if s == [] then [] else Reverse(s[1..]) + [s[0]]
  }

  function PartText(p: Part): seq<string> {
    match p
    case Single(name) => [name]
    case List(names) => Reverse(names)
  }

  function OptPartText(p: Option<Part>): Option<seq<string>> { if p.None? then None else Some(PartText(p.value)) }

  function ItemTextOf(it: ItemForm): ItemText { ItemText(OptPartText(it.users), OptPartText(it.addresses)) }

  function ItemTextsOf(items: seq<ItemForm>): seq<ItemText> {
    if items == [] then [] else [ItemTextOf(items[0])] + ItemTextsOf(items[1..])
  }

  function DeclTextOf(d: DeclForm): DefText { DefText(d.name, Reverse(ItemTextsOf(d.items))) }

  function DeclTextsOf(ds: seq<DeclForm>): seq<DefText> {
    if ds == [] then [] else [DeclTextOf(ds[0])] + DeclTextsOf(ds[1..])
  }

  // ---- One token ----

  /** The text of the tokens is what is to be read, and nothing has been pushed back. */
  ghost predicate At(s: LexState, ps: seq<Placed>, more: string) {
    s.pushed == LexNone && s.input == Spell(ps) + more
  }

  /** The first of the tokens is what the lexer gives next, pushed back or not. */
  ghost predicate Next(s: LexState, ps: seq<Placed>, more: string) {
    && ps != []
    && var (i, s1) := ReadItem(s);
      i == TokItem(ps[0].tok) && At(s1, ps[1..], more) && (ps[0].tok.Word? ==> s1.buffer == ps[0].tok.text)
  }

  lemma {:induction false} BlanksAreSkipped(gap: string, s: string)
    requires GapOk(gap, false) && (s == "" || !IsBlank(s[0]))
    ensures SkipBlanks(gap + s) == s
  {
    if gap == "" {
      assert gap + s == s;
    } else {
      assert (gap + s)[1..] == gap[1..] + s;
      BlanksAreSkipped(gap[1..], s);
    }
  }

  lemma PunctuationFollows(ps: seq<Placed>, more: string, lines: bool)
    requires ps != [] && GapOk(ps[0].gap, lines) && ps[0].tok.Punct? && Punctuation(ps[0].tok.c) != LexNone
    ensures Spell(ps) + more != "" && IsDelimiter((Spell(ps) + more)[0])
  {
    var rest := Spell(ps[1..]) + more;
    assert Spell(ps) + more == ps[0].gap + ([ps[0].tok.c] + rest);
    if ps[0].gap != "" {
      assert (Spell(ps) + more)[0] == ps[0].gap[0];
    }
  }

  lemma ReadTok(s: LexState, ps: seq<Placed>, more: string)
    requires At(s, ps, more) && ps != [] && Sound(ps, false)
    ensures Next(s, ps, more)
  {
    var p, rest := ps[0], Spell(ps[1..]) + more;
    assert s.input == p.gap + (TokText(p.tok) + rest);
    assert Toks(ps)[1..] == Toks(ps[1..]);
    BlanksAreSkipped(p.gap, TokText(p.tok) + rest);
    if p.tok.Word? {
      assert ps[1..] != [] && ps[1..][0].tok == Toks(ps[1..])[0];
      assert GapsOk(ps[1..], AllowsLines(p.tok)) && ToksOk(Toks(ps[1..]));
      PunctuationFollows(ps[1..], more, AllowsLines(p.tok));
      WordGrows(p.tok.text, rest);
      assert (p.tok.text + rest)[..|p.tok.text|] == p.tok.text;
      assert (p.tok.text + rest)[|p.tok.text|..] == rest;
    } else {
      assert ([p.tok.c] + rest)[1..] == rest;
    }
  }

  /** White space and line ends are read over. */
  lemma {:induction false} GapIsReadOver(s: LexState, gap: string, rest: string)
    requires s.pushed == LexNone && s.input == gap + rest && GapOk(gap, true)
    ensures ReadPastLines(s) == ReadPastLines(s.(input := rest))
    decreases |gap|
  {
    if gap == "" {
      assert s.input == rest;
    } else {
      assert s.input[1..] == gap[1..] + rest;
      GapIsReadOver(s.(input := gap[1..] + rest), gap[1..], rest);
    }
  }

  lemma ReadTokPastLines(s: LexState, ps: seq<Placed>, more: string)
    requires At(s, ps, more) && ps != [] && Sound(ps, true) && ps[0].tok != Newline
    ensures var (i, s1) := ReadPastLines(s);
      i == TokItem(ps[0].tok) && Next(PutBack(s1, i), ps, more) && At(s1, ps[1..], more)
      && (ps[0].tok.Word? ==> s1.buffer == ps[0].tok.text)
  {
    var qs := WithoutGap(ps, more);
    assert At(s.(input := Spell(qs) + more), qs, more);
    GapIsReadOver(s, ps[0].gap, Spell(qs) + more);
    ReadTok(s.(input := Spell(qs) + more), qs, more);
    hide ReadItem, ReadPastLines, GapOk, GapsOk, ToksOk, Toks, Spell;
    NoLineEnd(s.(input := Spell(qs) + more), qs, more);
  }

  lemma NoLineEnd(s: LexState, qs: seq<Placed>, more: string)
    requires Next(s, qs, more) && qs[0].tok != Newline
    ensures ReadPastLines(s) == ReadItem(s)
    ensures Next(PutBack(ReadItem(s).1, ReadItem(s).0), qs, more)
  {
    var (i, s1) := ReadItem(s);
    assert i != LexRecSep;
    hide ReadItem;
  }

  /** The same tokens, without the white space in front of them. */
  lemma WithoutGap(ps: seq<Placed>, more: string) returns (qs: seq<Placed>)
    requires ps != [] && Sound(ps, true)
    ensures qs == [Placed("", ps[0].tok)] + ps[1..] && qs[1..] == ps[1..] && Sound(qs, false)
    ensures Spell(ps) + more == ps[0].gap + (Spell(qs) + more)
  {
    qs := [Placed("", ps[0].tok)] + ps[1..];
    assert qs[1..] == ps[1..] && Toks(qs) == Toks(ps);
  }

  // ---- From the tokens of a form to its value ----

  lemma SoundTail(ps: seq<Placed>, lines: bool)
    requires ps != [] && Sound(ps, lines)
    ensures Sound(ps[1..], AllowsLines(ps[0].tok)) && Toks(ps)[1..] == Toks(ps[1..])
    ensures |Toks(ps)| == 1 + |Toks(ps[1..])| && ps[0].tok == Toks(ps)[0]
  {
  }

  lemma WordIsName(name: string, templates: bool)
    requires NameOk(name, templates)
    ensures IsName(WordItem(name), templates)
  {
  }

  lemma {:induction false} ReverseOnto<T>(s: seq<T>, acc: seq<T>)
    requires s != []
    ensures Reverse(s[1..]) + ([s[0]] + acc) == Reverse(s) + acc
  {
  }

  /** One punctuation mark. */
  lemma ReadPunct(s: LexState, ps: seq<Placed>, more: string, c: char, tail: seq<Tok>)
    requires At(s, ps, more) && Sound(ps, false) && Toks(ps) == [Punct(c)] + tail
    ensures ps != [] && ReadItem(s).0 == Punctuation(c) && At(ReadItem(s).1, ps[1..], more)
    ensures Toks(ps[1..]) == tail && Sound(ps[1..], AllowsLines(Punct(c)))
  {
    assert ([Punct(c)] + tail)[1..] == tail;
    ReadTok(s, ps, more);
    SoundTail(ps, false);
  }

  /** A name after a comma, perhaps on another line. */
  lemma ReadNameAfterComma(s: LexState, ps: seq<Placed>, more: string, name: string, tail: seq<Tok>)
    requires At(s, ps, more) && Sound(ps, true) && Toks(ps) == [Word(name)] + tail
    ensures var (i, s1) := ReadPastLines(s);
      ps != [] && i == WordItem(name) && s1.buffer == name && At(s1, ps[1..], more)
    ensures Toks(ps[1..]) == tail && Sound(ps[1..], false)
  {
    assert ([Word(name)] + tail)[1..] == tail;
    ReadTokPastLines(s, ps, more);
    SoundTail(ps, true);
  }

  /** The rest of a list in parentheses, whose first name has been read. */
  lemma {:induction false} NamesParse(s: LexState, templates: bool, acc: seq<string>, names: seq<string>,
                                      tail: seq<Tok>, ps: seq<Placed>, more: string)
    returns (qs: seq<Placed>)
    requires names != [] && PartOk(List(names), templates) && s.buffer == names[0]
    requires At(s, ps, more) && Sound(ps, false) && Toks(ps) == NamesTail(names[1..], tail)
    ensures var p := ParseNames(s, templates, acc);
      p.value == Some(Reverse(names) + acc) && At(p.rest, qs, more)
    ensures Toks(qs) == tail && Sound(qs, false)
    decreases |names|
  {
    hide WordLength, SkipBlanks, PassError, GapsOk, ToksOk;
    if |names| == 1 {
      ReadPunct(s, ps, more, ')', tail);
      qs := ps[1..];
      assert Reverse(names) + acc == [names[0]] + acc;
    } else {
      var tail1 := NamesTail(names[2..], tail);
      assert names[1..][1..] == names[2..];
      assert Toks(ps) == [Comma] + ([Word(names[1])] + tail1);
      ReadPunct(s, ps, more, ',', [Word(names[1])] + tail1);
      ReadNameAfterComma(ReadItem(s).1, ps[1..], more, names[1], tail1);
      WordIsName(names[1], templates);
      qs := NamesParse(ReadPastLines(ReadItem(s).1).1, templates, [names[0]] + acc, names[1..], tail, ps[1..][1..],
          more);
      ReverseOnto(names, acc);
    }
  }

  lemma {:induction false} PartParses(s: LexState, templates: bool, p: Part, tail: seq<Tok>, ps: seq<Placed>,
                                      more: string)
    returns (qs: seq<Placed>)
    requires PartOk(p, templates) && Next(s, ps, more) && Toks(ps) == PartToks(p, tail)
    requires ps != [] && Sound(ps[1..], AllowsLines(ps[0].tok))
    ensures var r := ParsePart(s, templates);
      r.value == Some(PartText(p)) && At(r.rest, qs, more)
    ensures Toks(qs) == tail && Sound(qs, false)
  {
    hide WordLength, SkipBlanks, PassError, GapsOk, ToksOk;
    assert ps[0].tok == Toks(ps)[0] && Toks(ps)[1..] == Toks(ps[1..]);
    var s1 := ReadItem(s).1;
    if p.Single? {
      WordIsName(p.name, templates);
      qs := ps[1..];
    } else {
      var ps1 := ps[1..];
      ReadTok(s1, ps1, more);
      SoundTail(ps1, false);
      WordIsName(p.names[0], templates);
      assert Toks(ps1) == [Word(p.names[0])] + NamesTail(p.names[1..], tail);
      qs := NamesParse(ReadItem(s1).1, templates, [], p.names, tail, ps1[1..], more);
      assert Reverse(p.names) + [] == Reverse(p.names);
    }
  }

  // ---- Items ----

  /** What may follow an item. */
  predicate EndsItem(tail: seq<Tok>) { tail != [] && (tail[0] == Comma || tail[0] == Newline) }

  /** The first token of a form decides which part the parser looks for. */
  lemma PartFirst(p: Part, templates: bool, tail: seq<Tok>)
    requires PartOk(p, templates)
    ensures var t := PartToks(p, tail);
      && t != [] && !AllowsLines(t[0])
      && (if p.Single? then TokItem(t[0]) == WordItem(p.name) else TokItem(t[0]) == LexOpenParen)
      && (!templates ==> TokItem(t[0]) == LexAlphStr || TokItem(t[0]) == LexOpenParen)
  {
  }

  /** The address part of an item, when the token in front of it has been read. */
  lemma AddressParses(users: Option<seq<string>>, j: LexItem, s: LexState, p: Part, tail: seq<Tok>, ps: seq<Placed>,
                      more: string)
    returns (qs: seq<Placed>)
    requires PartOk(p, true) && EndsItem(tail) && At(s, ps, more) && Sound(ps, false) && Toks(ps) == PartToks(p, tail)
    ensures var (k, s1) := ReadItem(s);
      && (k == LexAlphStr || k == LexTmplStr || k == LexOpenParen)
      && var a := ParsePart(PutBack(s1, k), true);
        a.value == Some(PartText(p)) && At(a.rest, qs, more)
    ensures Toks(qs) == tail && Sound(qs, false)
  {
    PartFirst(p, true, tail);
    ReadTok(s, ps, more);
    SoundTail(ps, false);
    var (k, s1) := ReadItem(s);
    qs := PartParses(PutBack(s1, k), true, p, tail, ps, more);
  }

  /** The user part of an item, if any, and the token behind it. */
  lemma UsersParse(s: LexState, it: ItemForm, tail: seq<Tok>, ps: seq<Placed>, more: string) returns (qs: seq<Placed>)
    requires ItemOk(it) && EndsItem(tail) && Next(s, ps, more) && Toks(ps) == ItemToks(it, tail)
    requires Sound(ps[1..], AllowsLines(ps[0].tok)) && !AllowsLines(ps[0].tok)
    ensures var (users, j, s2) := ParseUsers(s);
      users == OptPartText(it.users) && qs != [] && j == TokItem(qs[0].tok) && At(s2, qs[1..], more)
    ensures Toks(qs) == AddressToks(it.addresses, tail) && Sound(qs[1..], AllowsLines(qs[0].tok))
  {
    assert ps[0].tok == Toks(ps)[0];
    if it.users.None? {
      qs := ps;
    } else {
      var rest := AddressToks(it.addresses, tail);
      PartFirst(it.users.value, false, rest);
      var (i, s1) := ReadItem(s);
      qs := PartParses(PutBack(s1, i), false, it.users.value, rest, ps, more);
      ReadTok(ParsePart(PutBack(s1, i), false).rest, qs, more);
      SoundTail(qs, false);
    }
  }

  /** An item; the next token is then the one behind it, pushed back or not. */
  lemma ItemParses(s: LexState, it: ItemForm, tail: seq<Tok>, ps: seq<Placed>, more: string) returns (qs: seq<Placed>)
    requires ItemOk(it) && EndsItem(tail) && Next(s, ps, more) && Toks(ps) == ItemToks(it, tail)
    requires Sound(ps[1..], AllowsLines(ps[0].tok)) && !AllowsLines(ps[0].tok)
    ensures ParseItem(s).value == Some(ItemTextOf(it)) && Next(ParseItem(s).rest, qs, more)
    ensures Toks(qs) == tail && Sound(qs[1..], true)
  {
    hide WordLength, SkipBlanks, PassError, GapsOk, ToksOk;
    var us := UsersParse(s, it, tail, ps, more);
    var (users, j, s2) := ParseUsers(s);
    assert us[0].tok == Toks(us)[0] && Toks(us)[1..] == Toks(us[1..]);
    if it.addresses.None? {
      qs := us;
    } else {
      assert Toks(us) == [Punct('@')] + PartToks(it.addresses.value, tail);
      qs := AddressParses(users, j, s2, it.addresses.value, tail, us[1..], more);
      ItemIsMade(s, it, qs, more);
      SoundTail(qs, false);
    }
  }

  /** An item with an address part ends with it. */
  lemma ItemIsMade(s: LexState, it: ItemForm, qs: seq<Placed>, more: string)
    requires it.addresses.Some? && qs != [] && Sound(qs, false)
    requires var (users, j, s2) := ParseUsers(s);
      users == OptPartText(it.users) && j == LexAtSign &&
      var (k, s3) := ReadItem(s2);
      (k == LexAlphStr || k == LexTmplStr || k == LexOpenParen) &&
      var a := ParsePart(PutBack(s3, k), true);
      a.value == Some(PartText(it.addresses.value)) && At(a.rest, qs, more)
    ensures ParseItem(s).value == Some(ItemTextOf(it)) && Next(ParseItem(s).rest, qs, more)
  {
    var (users, j, s2) := ParseUsers(s);
    var (k, s3) := ReadItem(s2);
    ReadTok(ParsePart(PutBack(s3, k), true).rest, qs, more);
  }

  lemma ItemFirst(it: ItemForm, tail: seq<Tok>)
    requires ItemOk(it)
    ensures ItemToks(it, tail) != [] && !AllowsLines(ItemToks(it, tail)[0])
  {
  }

  /** The comma behind an item, and the first token of the next item, perhaps on another line. */
  lemma NextItem(s: LexState, items: seq<ItemForm>, tail: seq<Tok>, ps: seq<Placed>, more: string)
    requires items != [] && forall i :: 0 <= i < |items| ==> ItemOk(items[i])
    requires Next(s, ps, more) && Toks(ps) == [Comma] + ListToks(items, tail) && Sound(ps[1..], true)
    ensures var (i, s1) := ReadItem(s);
      var (j, s2) := ReadPastLines(s1);
      i == LexItemSep && Next(PutBack(s2, j), ps[1..], more)
    ensures Toks(ps[1..]) == ListToks(items, tail) && ps[1..] != []
    ensures Sound(ps[1..][1..], AllowsLines(ps[1..][0].tok))
  {
    assert ps[0].tok == Toks(ps)[0] && Toks(ps)[1..] == Toks(ps[1..]);
    var qs := ps[1..];
    ItemFirst(items[0], if |items| == 1 then tail else [Comma] + ListToks(items[1..], tail));
    assert qs[0].tok == Toks(qs)[0];
    ReadTokPastLines(ReadItem(s).1, qs, more);
    SoundTail(qs, true);
  }

  lemma {:induction false} ListParses(s: LexState, items: seq<ItemForm>, acc: seq<ItemText>, tail: seq<Tok>,
                                      ps: seq<Placed>, more: string)
    returns (qs: seq<Placed>)
    requires items != [] && forall i :: 0 <= i < |items| ==> ItemOk(items[i])
    requires Next(s, ps, more) && Toks(ps) == ListToks(items, [Newline] + tail)
      && Sound(ps[1..], AllowsLines(ps[0].tok))
    ensures var p := ParseItemList(s, acc);
      p.value == Some(Reverse(ItemTextsOf(items)) + acc) && Next(p.rest, qs, more)
    ensures Toks(qs) == [Newline] + tail && Sound(qs[1..], true)
    decreases |items|
  {
    var it := items[0];
    var tail1 := if |items| == 1 then [Newline] + tail else [Comma] + ListToks(items[1..], [Newline] + tail);
    ItemFirst(it, tail1);
    assert ps[0].tok == Toks(ps)[0];
    qs := ItemParses(s, it, tail1, ps, more);
    FirstIsLast(items, acc);
    if |items| == 1 {
      EndOfList(s, acc, it, qs, more);
    } else {
      NextItem(ParseItem(s).rest, items[1..], [Newline] + tail, qs, more);
      var (j, s2) := ReadPastLines(ReadItem(ParseItem(s).rest).1);
      qs := ListParses(PutBack(s2, j), items[1..], [ItemTextOf(it)] + acc, tail, qs[1..], more);
    }
  }

  lemma FirstIsLast(items: seq<ItemForm>, acc: seq<ItemText>)
    requires items != []
    ensures Reverse(ItemTextsOf(items)) + acc == Reverse(ItemTextsOf(items[1..])) + ([ItemTextOf(items[0])] + acc)
    ensures |items| == 1 ==> Reverse(ItemTextsOf(items)) + acc == [ItemTextOf(items[0])] + acc
  {
    ReverseOnto(ItemTextsOf(items), acc);
    assert ItemTextsOf(items)[1..] == ItemTextsOf(items[1..]);
  }

  lemma EndOfList(s: LexState, acc: seq<ItemText>, it: ItemForm, qs: seq<Placed>, more: string)
    requires ParseItem(s).value == Some(ItemTextOf(it)) && Next(ParseItem(s).rest, qs, more) && qs[0].tok == Newline
    ensures var p := ParseItemList(s, acc);
      p.value == Some([ItemTextOf(it)] + acc) && Next(p.rest, qs, more)
  {
  }

  // ---- Definitions and files ----

  /** A definition and the line end behind it; the slot of the lexer is free afterwards. */
  lemma DefParses(s: LexState, items: seq<ItemForm>, tail: seq<Tok>, ps: seq<Placed>,
                  more: string)
    returns (qs: seq<Placed>)
    requires items != [] && forall i :: 0 <= i < |items| ==> ItemOk(items[i])
    requires At(s, ps, more) && Sound(ps, false) && Toks(ps) == ListToks(items, [Newline] + tail)
    ensures ParseGroupDef(s).value == Some(Reverse(ItemTextsOf(items))) && At(ParseGroupDef(s).rest, qs, more)
    ensures Toks(qs) == tail && Sound(qs, true)
  {
    ItemFirst(items[0], if |items| == 1 then [Newline] + tail else [Comma] + ListToks(items[1..], [Newline] + tail));
    ReadTok(s, ps, more);
    SoundTail(ps, false);
    var rs := ListParses(s, items, [], tail, ps, more);
    assert rs[0].tok == Toks(rs)[0] && Toks(rs)[1..] == Toks(rs[1..]);
    assert Reverse(ItemTextsOf(items)) + [] == Reverse(ItemTextsOf(items));
    qs := rs[1..];
  }

  /** The name of a group and the colon behind it. */
  lemma HeadParses(s: LexState, name: string, list: seq<Tok>, ps: seq<Placed>, more: string) returns (qs: seq<Placed>)
    requires NameOk(name, false) && At(s, ps, more) && Sound(ps, true)
    requires Toks(ps) == [Word(name)] + ([Punct(':')] + list)
    ensures var (i, s1) := ReadPastLines(s);
      var (j, s2) := ReadItem(s1);
      i == LexAlphStr && s1.buffer == name && j == LexFieldSep && At(s2, qs, more)
    ensures Toks(qs) == list && Sound(qs, false)
  {
    ReadNameAfterComma(s, ps, more, name, [Punct(':')] + list);
    ReadPunct(ReadPastLines(s).1, ps[1..], more, ':', list);
    qs := ps[1..][1..];
  }

  lemma DeclParses(s: LexState, d: DeclForm, tail: seq<Tok>, ps: seq<Placed>, more: string) returns (qs: seq<Placed>)
    requires DeclOk(d) && At(s, ps, more) && Sound(ps, true) && Toks(ps) == DeclToks(d, tail)
    ensures ParseGroupDecl(s).value == Some(DeclTextOf(d)) && At(ParseGroupDecl(s).rest, qs, more)
    ensures Toks(qs) == tail && Sound(qs, true)
  {
    var list := ListToks(d.items, [Newline] + tail);
    assert DeclToks(d, tail) == [Word(d.name)] + ([Punct(':')] + list);
    var rs := HeadParses(s, d.name, list, ps, more);
    var s2 := ReadItem(ReadPastLines(s).1).1;
    qs := DefParses(s2, d.items, tail, rs, more);
    DeclIsMade(s, d.name, Reverse(ItemTextsOf(d.items)));
  }

  lemma DeclIsMade(s: LexState, name: string, items: seq<ItemText>)
    requires ReadPastLines(s).0 == LexAlphStr && ReadPastLines(s).1.buffer == name
    requires ReadItem(ReadPastLines(s).1).0 == LexFieldSep
    requires ParseGroupDef(ReadItem(ReadPastLines(s).1).1).value == Some(items)
    ensures ParseGroupDecl(s) == Parsed(Some(DefText(name, items)), ParseGroupDef(ReadItem(ReadPastLines(s).1).1).rest)
  {
  }

  /** Nothing but white space is left: there is no further definition. */
  lemma NothingParses(s: LexState)
    requires s.pushed == LexNone && GapOk(s.input, true)
    ensures ParseGroupDecl(s).value.None?
  {
    assert s.input == s.input + "";
    GapIsReadOver(s, s.input, "");
  }

  lemma {:induction false} FileParses(s: LexState, ds: seq<DeclForm>, acc: seq<DefText>, ps: seq<Placed>, more: string)
    requires (forall i :: 0 <= i < |ds| ==> DeclOk(ds[i])) && GapOk(more, true)
    requires At(s, ps, more) && Sound(ps, true) && Toks(ps) == FileToks(ds)
    ensures ParseGroupFile(s, acc) == Reverse(DeclTextsOf(ds)) + acc
    decreases |ds|
  {
    if ds == [] {
      assert ps == [] && s.input == more;
      NothingParses(s);
      assert Reverse(DeclTextsOf(ds)) + acc == acc;
    } else {
      var qs := DeclParses(s, ds[0], FileToks(ds[1..]), ps, more);
      FileParses(ParseGroupDecl(s).rest, ds[1..], [DeclTextOf(ds[0])] + acc, qs, more);
      ReverseOnto(DeclTextsOf(ds), acc);
      assert DeclTextsOf(ds)[1..] == DeclTextsOf(ds[1..]);
    }
  }

  lemma PunctThenOk(c: char, rest: seq<Tok>)
    requires Punctuation(c) != LexNone && ToksOk(rest)
    ensures ToksOk([Punct(c)] + rest)
  {
    assert ([Punct(c)] + rest)[1..] == rest;
  }

  lemma WordThenOk(name: string, rest: seq<Tok>)
    requires NameOk(name, true) && ToksOk(rest) && rest != [] && rest[0].Punct?
    ensures ToksOk([Word(name)] + rest)
  {
    assert ([Word(name)] + rest)[1..] == rest;
  }

  lemma {:induction false} NamesTailOk(names: seq<string>, tail: seq<Tok>)
    requires ToksOk(tail) && forall i :: 0 <= i < |names| ==> NameOk(names[i], true)
    ensures ToksOk(NamesTail(names, tail)) && NamesTail(names, tail) != [] && NamesTail(names, tail)[0].Punct?
  {
    if names == [] {
      PunctThenOk(')', tail);
    } else {
      var rest := NamesTail(names[1..], tail);
      NamesTailOk(names[1..], tail);
      WordThenOk(names[0], rest);
      PunctThenOk(',', [Word(names[0])] + rest);
      assert NamesTail(names, tail) == [Comma] + ([Word(names[0])] + rest);
    }
  }

  lemma PartToksOk(p: Part, templates: bool, tail: seq<Tok>)
    requires PartOk(p, templates) && ToksOk(tail) && tail != [] && tail[0].Punct?
    ensures ToksOk(PartToks(p, tail))
  {
    match p
    case Single(name) =>
      WordThenOk(name, tail);
    case List(names) =>
      var rest := NamesTail(names[1..], tail);
      NamesTailOk(names[1..], tail);
      WordThenOk(names[0], rest);
      PunctThenOk('(', [Word(names[0])] + rest);
      assert PartToks(p, tail) == [Punct('(')] + ([Word(names[0])] + rest);
  }

  lemma ItemToksOk(it: ItemForm, tail: seq<Tok>)
    requires ItemOk(it) && ToksOk(tail) && tail != [] && tail[0].Punct?
    ensures ToksOk(ItemToks(it, tail))
  {
    var rest := AddressToks(it.addresses, tail);
    if it.addresses.Some? {
      PartToksOk(it.addresses.value, true, tail);
      PunctThenOk('@', PartToks(it.addresses.value, tail));
    }
    if it.users.Some? {
      PartToksOk(it.users.value, false, rest);
    }
  }

  lemma {:induction false} ListToksOk(items: seq<ItemForm>, tail: seq<Tok>)
    requires items != [] && (forall i :: 0 <= i < |items| ==> ItemOk(items[i])) && ToksOk(tail) && tail != []
      && tail[0].Punct?
    ensures ToksOk(ListToks(items, tail))
  {
    if |items| == 1 {
      ItemToksOk(items[0], tail);
    } else {
      ListToksOk(items[1..], tail);
      PunctThenOk(',', ListToks(items[1..], tail));
      ItemToksOk(items[0], [Comma] + ListToks(items[1..], tail));
    }
  }

  lemma {:induction false} FileToksOk(ds: seq<DeclForm>)
    requires forall i :: 0 <= i < |ds| ==> DeclOk(ds[i])
    ensures ToksOk(FileToks(ds))
  {
    if ds == [] {
    } else {
      FileToksOk(ds[1..]);
      var d, rest := ds[0], FileToks(ds[1..]);
      var list := ListToks(d.items, [Newline] + rest);
      PunctThenOk(LF, rest);
      ListToksOk(d.items, [Newline] + rest);
      PunctThenOk(':', list);
      WordThenOk(d.name, [Punct(':')] + list);
      assert DeclToks(d, rest) == [Word(d.name)] + ([Punct(':')] + list);
    }
  }

  /**
   Whatever way a group file is laid out, with any white space in front of any token, with
   line ends after any comma and empty lines between definitions, parsing gives back all
   its definitions, with every list reversed.
   */
  lemma ParsingUndoesPrinting(ds: seq<DeclForm>, ps: seq<Placed>, end: string)
    requires (forall i :: 0 <= i < |ds| ==> DeclOk(ds[i])) && Toks(ps) == FileToks(ds)
    requires GapsOk(ps, true) && GapOk(end, true)
    ensures ParseGroupFile(LexState(Spell(ps) + end, "", LexNone), []) == Reverse(DeclTextsOf(ds))
  {
    FileToksOk(ds);
    FileParses(LexState(Spell(ps) + end, "", LexNone), ds, [], ps, end);
    assert Reverse(DeclTextsOf(ds)) + [] == Reverse(DeclTextsOf(ds));
  }

  /** The layout does not matter. */
  lemma LayoutDoesNotMatter(ds: seq<DeclForm>, ps: seq<Placed>, qs: seq<Placed>)
    requires (forall i :: 0 <= i < |ds| ==> DeclOk(ds[i])) && Toks(ps) == Toks(qs) == FileToks(ds)
    requires GapsOk(ps, true) && GapsOk(qs, true)
    ensures ParseGroupFile(LexState(Spell(ps), "", LexNone), []) == ParseGroupFile(LexState(Spell(qs), "", LexNone), [])
  {
    assert Spell(ps) + "" == Spell(ps) && Spell(qs) + "" == Spell(qs);
    ParsingUndoesPrinting(ds, ps, "");
    ParsingUndoesPrinting(ds, qs, "");
  }
}
