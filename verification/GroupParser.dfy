/**
 The parser of group definitions. What it makes of its input is given by functions over the
 state of the lexer; lists come out newest first, because they are built by prepending.
 */
module GroupParser {
  import opened Text
  import opened Lexer

  // ---- What the parser makes of its input ----

  /** One item of a definition: who, and from where; a missing list admits all. */
  datatype ItemText = ItemText(users: Option<seq<string>>, addresses: Option<seq<string>>)

  datatype DefText = DefText(name: string, items: seq<ItemText>)

  datatype Parsed<T> = Parsed(value: Option<T>, rest: LexState)

  /** Read over line ends. */
  function ReadPastLines(s: LexState): (r: (LexItem, LexState))
    ensures r.0 != LexNone && r.0 != LexRecSep && r.1.pushed == LexNone
    ensures Weight(r.1) <= Weight(s) - if IsReal(r.0) then 1 else 0
    decreases Weight(s)
  {
    var r := ReadItem(s);
    if r.0 == LexRecSep then ReadPastLines(r.1) else r
  }

  /** User names have no wildcards, addresses may. */
  predicate IsName(item: LexItem, templates: bool) {
    item == LexAlphStr || (templates && item == LexTmplStr)
  }

  function Failed<T>(s: LexState): (p: Parsed<T>)
    ensures Weight(p.rest) <= Weight(s) && p.rest.pushed == s.pushed
  {
    Parsed(None, PassError(s))
  }

  /** A single name, or a list of names in parentheses. */
  function ParsePart(s: LexState, templates: bool): (p: Parsed<seq<string>>)
    ensures Weight(p.rest) <= Weight(s) && p.rest.pushed == LexNone
  {
    var (i, s1) := ReadItem(s);
    if IsName(i, templates) then Parsed(Some([s1.buffer]), s1)
    else if i != LexOpenParen then Failed(s1)
    else
      var (j, s2) := ReadItem(s1);
      if IsName(j, templates) then ParseNames(s2, templates, []) else Failed(s2)
  }

  /** The names of a list, the first of which has just been read. */
  function ParseNames(s: LexState, templates: bool, names: seq<string>): (p: Parsed<seq<string>>)
    requires s.pushed == LexNone
    ensures Weight(p.rest) <= Weight(s) && p.rest.pushed == LexNone
    decreases Weight(s)
  {
    var names' := [s.buffer] + names;
    var (i, s1) := ReadItem(s);
    if i == LexItemSep then
      var (j, s2) := ReadPastLines(s1);
      if IsName(j, templates) then ParseNames(s2, templates, names') else Failed(s2)
    else if i == LexCloseParen then Parsed(Some(names'), s1)
    else Failed(s1)
  }

  /** The user part of an item, if there is one, and the token behind it. */
  function ParseUsers(s: LexState): (r: (Option<seq<string>>, LexItem, LexState))
    ensures r.2.pushed == LexNone && Weight(r.2) <= Weight(s) - if IsReal(r.1) then 1 else 0
  {
    var (i, s1) := ReadItem(s);
    if i == LexAlphStr || i == LexOpenParen then
      var u := ParsePart(PutBack(s1, i), false);
      var (j, s2) := ReadItem(u.rest);
      (u.value, j, s2)
    else
      (None, i, s1)
  }

  /** An item; the token behind it is pushed back unless an address part ends it. */
  function ParseItem(s: LexState): (p: Parsed<ItemText>)
    ensures Weight(p.rest) <= Weight(s)
  {
    var (users, j, s2) := ParseUsers(s);
    if j == LexAtSign then
      var (k, s3) := ReadItem(s2);
      if k == LexAlphStr || k == LexTmplStr || k == LexOpenParen then
        var a := ParsePart(PutBack(s3, k), true);
        MakeItem(users, a.value, a.rest)
      else
        Failed(s3)
    else
      MakeItem(users, None, PutBack(s2, j))
  }

  function MakeItem(users: Option<seq<string>>, addresses: Option<seq<string>>, s: LexState): (p: Parsed<ItemText>)
    ensures Weight(p.rest) <= Weight(s) && p.rest.pushed == s.pushed
  {
    if users.None? && addresses.None? then Failed(s) else Parsed(Some(ItemText(users, addresses)), s)
  }

  function ParseItemList(s: LexState, items: seq<ItemText>): (p: Parsed<seq<ItemText>>)
    ensures Weight(p.rest) <= Weight(s)
    decreases Weight(s)
  {
    var q := ParseItem(s);
    if q.value.None? then Parsed(None, q.rest)
    else
      var items' := [q.value.value] + items;
      var (i, s1) := ReadItem(q.rest);
      if i != LexItemSep then Parsed(Some(items'), PutBack(s1, i))
      else
        var (j, s2) := ReadPastLines(s1);
        ParseItemList(PutBack(s2, j), items')
  }

  /** A definition; after one the slot of the lexer is free. */
  function ParseGroupDef(s: LexState): (p: Parsed<seq<ItemText>>)
    ensures Weight(p.rest) <= Weight(s) && (p.value.Some? ==> p.rest.pushed == LexNone)
  {
    var q := ParseItemList(s, []);
    if q.value.None? then q
    else
      var (i, s1) := ReadItem(q.rest);
      Parsed(q.value, if i == LexRecSep then s1 else PassError(s1))
  }

  function ParseGroupDecl(s: LexState): (p: Parsed<DefText>)
    ensures Weight(p.rest) <= Weight(s) && (p.value.Some? ==> Weight(p.rest) < Weight(s) && p.rest.pushed == LexNone)
  {
    var (i, s1) := ReadPastLines(s);
    if i != LexAlphStr then Parsed(None, if i == LexEof then s1 else PassError(s1))
    else
      var (j, s2) := ReadItem(s1);
      if j != LexFieldSep then Failed(s2)
      else
        var q := ParseGroupDef(s2);
        Parsed(if q.value.None? then None else Some(DefText(s1.buffer, q.value.value)), q.rest)
  }

  /** All definitions up to the first that is in error, newest first. */
  function ParseGroupFile(s: LexState, defs: seq<DefText>): seq<DefText>
    decreases Weight(s)
  {
    var q := ParseGroupDecl(s);
    if q.value.None? then defs else ParseGroupFile(q.rest, [q.value.value] + defs)
  }

  // ---- The parser's own data ----

  /** A name in a list; a user name may turn out to be that of a group. */
  class Ref {
    const name: string
    var translation: GroupDef?

    constructor (name: string)
      ensures this.name == name && translation == null
    {
      this.name := name;
      translation := null;
    }
  }

  datatype Item = Item(userDefList: Option<seq<Ref>>, addressDefList: Option<seq<Ref>>)

  class GroupDef {
    var groupName: Option<string>       // set by the reader of a group file only
    const itemList: seq<Item>

    constructor (itemList: seq<Item>)
      ensures this.itemList == itemList && groupName == None
    {
      this.itemList := itemList;
      groupName := None;
    }
  }

  function Names(refs: seq<Ref>): (ns: seq<string>)
    ensures |ns| == |refs| && forall i :: 0 <= i < |refs| ==> ns[i] == refs[i].name
  {
    seq(|refs|, i requires 0 <= i < |refs| => refs[i].name)
  }

  function OptNames(refs: Option<seq<Ref>>): Option<seq<string>> {
    if refs.Some? then Some(Names(refs.value)) else None
  }

  function TextOf(it: Item): ItemText { ItemText(OptNames(it.userDefList), OptNames(it.addressDefList)) }

  function TextsOf(items: seq<Item>): (ts: seq<ItemText>)
    ensures |ts| == |items| && forall i :: 0 <= i < |items| ==> ts[i] == TextOf(items[i])
  {
    seq(|items|, i requires 0 <= i < |items| => TextOf(items[i]))
  }

  function RefsIn(refs: Option<seq<Ref>>): set<Ref> {
    if refs.Some? then set r | r in refs.value else {}
  }

  /** The references of an item list that can be translated. */
  function UserRefs(items: seq<Item>): (rs: set<Ref>)
    ensures forall i :: 0 <= i < |items| ==> RefsIn(items[i].userDefList) <= rs
  {
    if items == [] then {} else RefsIn(items[0].userDefList) + UserRefs(items[1..])
  }

  /** The references of an item. */
  function ItemRefs(it: Item): set<Ref> { RefsIn(it.userDefList) + RefsIn(it.addressDefList) }

  function AllRefs(items: seq<Item>): set<Ref> {
    if items == [] then {} else ItemRefs(items[0]) + AllRefs(items[1..])
  }

  lemma NamesGrow(ref: Ref, refs: seq<Ref>)
    ensures Names([ref] + refs) == [ref.name] + Names(refs)
    ensures (set r | r in [ref] + refs) == {ref} + (set r | r in refs)
  {
  }

  lemma ListGrows(item: Item, items: seq<Item>)
    ensures TextsOf([item] + items) == [TextOf(item)] + TextsOf(items)
    ensures AllRefs([item] + items) == ItemRefs(item) + AllRefs(items)
  {
    assert ([item] + items)[1..] == items;
  }

  // ---- The parser ----

  method LexPastLines(fp: Scanner) returns (lexItem: LexItem)
    modifies fp
    ensures (lexItem, fp.State()) == ReadPastLines(old(fp.State()))
  {
    lexItem := fp.Lex();
    while lexItem == LexRecSep
      invariant ReadPastLines(old(fp.State())) ==
        if lexItem == LexRecSep then ReadPastLines(fp.State()) else (lexItem, fp.State())
      decreases Weight(fp.State()), if lexItem == LexRecSep then 1 else 0
    {
      lexItem := fp.Lex();
    }
  }

  /** The rest of a list in parentheses, when its first name has been read. */
  method ParseNamesOf(fp: Scanner, templates: bool) returns (defList: Option<seq<Ref>>)
    requires fp.lexPushedBack == LexNone
    modifies fp
    ensures ParseNames(old(fp.State()), templates, []) == Parsed(OptNames(defList), fp.State())
    ensures fresh(RefsIn(defList))
  {
    var refs: seq<Ref> := [];
    var lexItem;
    ghost var all := ParseNames(fp.State(), templates, []);
    assert Names(refs) == [];
    while true
      invariant fresh(set r | r in refs) && fp.lexPushedBack == LexNone
      invariant all == ParseNames(fp.State(), templates, Names(refs))
      decreases Weight(fp.State())
    {
      var ref := new Ref(fp.lexBuffer);
      NamesGrow(ref, refs);
      refs := [ref] + refs;
      lexItem := fp.Lex();
      if lexItem != LexItemSep {
        break;
      }
      lexItem := LexPastLines(fp);
      if !IsName(lexItem, templates) {
        fp.SyntaxError();
        return None;
      }
    }
    if lexItem != LexCloseParen {
      fp.SyntaxError();
      return None;
    }
    return Some(refs);
  }

  method ParsePartOf(fp: Scanner, templates: bool) returns (defList: Option<seq<Ref>>)
    modifies fp
    ensures ParsePart(old(fp.State()), templates) == Parsed(OptNames(defList), fp.State())
    ensures fresh(RefsIn(defList))
  {
    var lexItem := fp.Lex();
    if IsName(lexItem, templates) {
      var ref := new Ref(fp.lexBuffer);
      assert Names([ref]) == [ref.name];
      return Some([ref]);
    }
    if lexItem == LexOpenParen {
      lexItem := fp.Lex();
      if IsName(lexItem, templates) {
        defList := ParseNamesOf(fp, templates);
        return;
      }
    }
    fp.SyntaxError();
    return None;
  }

  method ParseUsersOf(fp: Scanner) returns (userDefList: Option<seq<Ref>>, lexItem: LexItem)
    modifies fp
    ensures ParseUsers(old(fp.State())) == (OptNames(userDefList), lexItem, fp.State())
    ensures fresh(RefsIn(userDefList))
  {
    userDefList := None;
    lexItem := fp.Lex();
    if lexItem == LexAlphStr || lexItem == LexOpenParen {
      fp.Unlex(lexItem);
      userDefList := ParsePartOf(fp, false);
      lexItem := fp.Lex();
    }
  }

  method ParseItemOf(fp: Scanner) returns (item: Option<Item>)
    modifies fp
    ensures ParseItem(old(fp.State())) == Parsed(if item.None? then None else Some(TextOf(item.value)), fp.State())
    ensures item.Some? ==> fresh(ItemRefs(item.value))
  {
    var addressDefList := None;
    var userDefList, lexItem := ParseUsersOf(fp);
    if lexItem == LexAtSign {
      lexItem := fp.Lex();
      if lexItem == LexAlphStr || lexItem == LexTmplStr || lexItem == LexOpenParen {
        fp.Unlex(lexItem);
        addressDefList := ParsePartOf(fp, true);
      } else {
        fp.SyntaxError();
        return None;
      }
    } else {
      fp.Unlex(lexItem);
    }
    if userDefList.None? && addressDefList.None? {
      fp.SyntaxError();
      return None;
    }
    return Some(Item(userDefList, addressDefList));
  }

  method ParseItemListOf(fp: Scanner) returns (list: Option<seq<Item>>)
    modifies fp
    ensures ParseItemList(old(fp.State()), []) ==
      Parsed(if list.None? then None else Some(TextsOf(list.value)), fp.State())
    ensures list.Some? ==> fresh(AllRefs(list.value))
  {
    hide ParseItem, ReadItem, ReadPastLines;
    var items: seq<Item> := [];
    ghost var all := ParseItemList(fp.State(), []);
    assert TextsOf(items) == [];
    while true
      invariant fresh(AllRefs(items)) && all == ParseItemList(fp.State(), TextsOf(items))
      decreases Weight(fp.State())
    {
      var item := ParseItemOf(fp);
      if item.None? {
        return None;
      }
      ListGrows(item.value, items);
      items := [item.value] + items;
      var lexItem := fp.Lex();
      if lexItem != LexItemSep {
        fp.Unlex(lexItem);
        return Some(items);
      }
      lexItem := LexPastLines(fp);
      fp.Unlex(lexItem);
    }
  }

  method ParseGroupDefOf(fp: Scanner) returns (groupDef: GroupDef?)
    modifies fp
    ensures ParseGroupDef(old(fp.State())) ==
      Parsed(if groupDef == null then None else Some(TextsOf(groupDef.itemList)), fp.State())
    ensures groupDef != null ==> fresh(groupDef) && fresh(AllRefs(groupDef.itemList)) && groupDef.groupName == None
  {
    var itemList := ParseItemListOf(fp);
    if itemList.None? {
      return null;
    }
    groupDef := new GroupDef(itemList.value);
    var lexItem := fp.Lex();
    if lexItem != LexRecSep {
      fp.SyntaxError();
    }
  }

  function DefOf(name: string, g: GroupDef): DefText { DefText(name, TextsOf(g.itemList)) }

  method ParseGroupDeclOf(fp: Scanner) returns (groupDef: GroupDef?)
    modifies fp
    ensures groupDef != null ==> fresh(groupDef) && fresh(AllRefs(groupDef.itemList)) && groupDef.groupName.Some?
    ensures ParseGroupDecl(old(fp.State())) ==
      Parsed(if groupDef == null then None else Some(DefOf(groupDef.groupName.value, groupDef)), fp.State())
  {
    var lexItem := LexPastLines(fp);
    if lexItem != LexAlphStr {
      if lexItem != LexEof {
        fp.SyntaxError();
      }
      return null;
    }
    var groupName := fp.lexBuffer;
    lexItem := fp.Lex();
    if lexItem != LexFieldSep {
      fp.SyntaxError();
      return null;
    }
    groupDef := ParseGroupDefOf(fp);
    if groupDef == null {
      return null;
    }
    groupDef.groupName := Some(groupName);
  }
}
