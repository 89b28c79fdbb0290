/**
 Whom a group file admits, in terms of the names and addresses that stand in it, and the
 reason given to the others.
 */
module GroupVerdict {
  import opened Text
  import opened GroupParser
  import opened GroupAccess
  import Wildcard
  import WildcardLanguage
  import WildcardVerdict

  // ---- Names ----

  /** The names for everybody who has given a user name. */
  predicate NamesUsers(name: string) { Spells(name, "users") || Spells(name, "all") || name == "*" }

  /** The names for everybody. */
  predicate NamesAnybody(name: string) {
    Spells(name, "anybody") || Spells(name, "anyone") || Spells(name, "anonymous")
  }

  /** Not the name of a group. */
  predicate NoGroup(name: string, defs: seq<DefText>) {
    forall d :: d in defs ==> d.name != name
  }

  /** Whom a name admits that is not that of a group. */
  predicate UserAdmits(name: string, user: Option<string>) {
    || NamesAnybody(name)
    || (user.Some? && user.value != "" && (user.value == name || NamesUsers(name)))
  }

  lemma NameInWords(older: seq<DefText>, name: string, who: Who)
    requires NoGroup(name, older)
    ensures NameAdmits(older, name, who) <==> UserAdmits(name, who.user)
  {
    SpellsIff(name, "users");
    SpellsIff(name, "all");
    SpellsIff(name, "*");
    SpellsIff(name, "anybody");
    SpellsIff(name, "anyone");
    SpellsIff(name, "anonymous");
    hide Spells, LowerCase;
    assert Spells(name, "*") <==> name == "*" by {
      if Spells(name, "*") { assert name == [name[0]]; }
    }
    NotFoundInFront(name, older, []);
    assert older + [] == older;
  }

  lemma {:induction false} NotFoundInFront(name: string, newer: seq<DefText>, older: seq<DefText>)
    requires NoGroup(name, newer)
    ensures FindDef(newer + older, name) == |newer| + FindDef(older, name)
  {
    if newer == [] {
      assert newer + older == older;
    } else {
      assert newer[0] in newer && (newer + older)[1..] == newer[1..] + older;
      NotFoundInFront(name, newer[1..], older);
    }
  }

  /** A group that admits whoever goes by a name, from anywhere. */
  function GroupFor(group: string, name: string): DefText {
    DefText(group, [ItemText(Some([name]), None)])
  }

  lemma AdmitsItsName(group: string, name: string, older: seq<DefText>, who: Who)
    ensures Check([GroupFor(group, name)] + older, who).reason == HtaaOk <==> NameAdmits(older, name, who)
  {
    var defs := [GroupFor(group, name)] + older;
    var item := ItemText(Some([name]), None);
    assert defs[1..] == older && defs[0].items == [item];
    CheckDecidesMembership(defs, who);
    hide NameAdmits;
    var names := item.users.value;
    assert names[0] == name;
    assert ItemAdmits(older, item, who) <==> NameAdmits(older, names[0], who);
    assert Member(defs, who) <==> ItemAdmits(older, defs[0].items[0], who);
  }

  /** The name of a user admits exactly that user. */
  lemma UserNameAdmitsUser(group: string, name: string, older: seq<DefText>, who: Who)
    requires NoGroup(name, older) && !NamesUsers(name) && !NamesAnybody(name)
    ensures Check([GroupFor(group, name)] + older, who).reason == HtaaOk <==> name != "" && who.user == Some(name)
  {
    AdmitsItsName(group, name, older, who);
    NameInWords(older, name, who);
  }

  /** "Users", "All" and "*" admit whoever has given a user name; "Anybody", "Anyone" and "Anonymous" all. */
  lemma ReservedNamesAdmitMany(group: string, name: string, older: seq<DefText>, who: Who)
    requires NoGroup(name, older)
    ensures NamesUsers(name) ==>
      (Check([GroupFor(group, name)] + older, who).reason == HtaaOk <==> who.user.Some? && who.user.value != "")
    ensures NamesAnybody(name) ==> Check([GroupFor(group, name)] + older, who).reason == HtaaOk
  {
    AdmitsItsName(group, name, older, who);
    NameInWords(older, name, who);
    assert NamesUsers(name) ==> |name| <= 5;
    assert NamesAnybody(name) ==> |name| >= 6;
  }

  lemma GroupIsFound(name: string, newer: seq<DefText>, older: seq<DefText>, who: Who)
    requires NoGroup(name, newer) && older != [] && older[0].name == name
    ensures NameAdmits(newer + older, name, who) <==> Member(older, who)
  {
    NotFoundInFront(name, newer, older);
    hide Member;
    assert (newer + older)[|newer|..] == older;
  }

  /** The name of an older group admits the members of the newest of these. */
  lemma GroupNameAdmitsMembers(group: string, name: string, newer: seq<DefText>, older: seq<DefText>, who: Who)
    requires NoGroup(name, newer) && older != [] && older[0].name == name
    ensures Check([GroupFor(group, name)] + (newer + older), who).reason == HtaaOk <==>
      Check(older, who).reason == HtaaOk
  {
    hide Member, NameAdmits, Check, NoGroup;
    GroupIsFound(name, newer, older, who);
    AdmitsItsName(group, name, newer + older, who);
    CheckDecidesMembership(older, who);
  }

  // ---- Addresses ----

  /** The mask stands for the name of the host, in small letters, or for its number. */
  ghost predicate Denotes(mask: string, who: Who) {
    || (who.ipName.Some? && WildcardLanguage.Lang(Wildcard.Parse(mask), LowerCase(who.ipName.value), false))
    || (who.ipNumber.Some? && WildcardLanguage.Lang(Wildcard.Parse(mask), who.ipNumber.value, false))
  }

  /** Host names and numbers have no "/~" in them. */
  ghost predicate IsHost(who: Who) {
    && (who.ipName.Some? ==> WildcardLanguage.NoUserDirIn(LowerCase(who.ipName.value)))
    && (who.ipNumber.Some? ==> WildcardLanguage.NoUserDirIn(who.ipNumber.value))
  }

  lemma MaskDenotes(mask: string, who: Who)
    requires WildcardLanguage.LastBorderless(Wildcard.Parse(mask)) && IsHost(who) && Wildcard.Parse(mask) != []
    ensures IpMaskMatch(mask, who) <==> Denotes(mask, who)
  {
    Wildcard.ParseIsWellFormed(mask);
    hide WildcardLanguage.Lang, WildcardLanguage.LastBorderless, WildcardLanguage.NoUserDirIn, Wildcard.Match,
      Wildcard.WellFormed;
    var pat := Wildcard.Parse(mask);
    if who.ipName.Some? { WildcardLanguage.MatchDecidesFiles(pat, LowerCase(who.ipName.value)); }
    if who.ipNumber.Some? { WildcardLanguage.MatchDecidesFiles(pat, who.ipNumber.value); }
  }

  /** A group for everybody who comes from an address of a list. */
  function GroupFrom(group: string, masks: seq<string>): DefText {
    DefText(group, [ItemText(None, Some(masks))])
  }

  lemma AdmitsFromMasks(group: string, masks: seq<string>, older: seq<DefText>, who: Who)
    ensures Check([GroupFrom(group, masks)] + older, who).reason == HtaaOk <==>
      exists i :: 0 <= i < |masks| && IpMaskMatch(masks[i], who)
  {
    var defs := [GroupFrom(group, masks)] + older;
    var item := ItemText(None, Some(masks));
    assert defs[1..] == older && defs[0].items == [item];
    CheckDecidesMembership(defs, who);
    hide IpMaskMatch;
    assert ItemAdmits(older, item, who) <==> AddressOk(item.addresses, who);
    assert Member(defs, who) <==> ItemAdmits(older, defs[0].items[0], who);
  }

  /** An address mask admits exactly the hosts whose name or number it stands for. */
  lemma MaskAdmitsHosts(group: string, mask: string, older: seq<DefText>, who: Who)
    requires WildcardLanguage.LastBorderless(Wildcard.Parse(mask)) && IsHost(who) && mask != ""
    ensures Check([GroupFrom(group, [mask])] + older, who).reason == HtaaOk <==> Denotes(mask, who)
  {
    AdmitsFromMasks(group, [mask], older, who);
    hide IpMaskMatch, Denotes, IsHost;
    MaskIsSomething(mask);
    MaskDenotes(mask, who);
    assert [mask][0] == mask;
  }

  /** A mask without a star admits the host of that name or number; the name is taken in small letters. */
  lemma PlainMaskAdmitsHost(group: string, mask: string, older: seq<DefText>, who: Who)
    requires WildcardVerdict.IsPlain(mask) && mask != ""
    ensures Check([GroupFrom(group, [mask])] + older, who).reason == HtaaOk <==>
      who.ipNumber == Some(mask) || (who.ipName.Some? && mask == Small(who.ipName.value))
  {
    AdmitsFromMasks(group, [mask], older, who);
    assert [mask][0] == mask;
    if who.ipName.Some? {
      WildcardVerdict.PlainMatchesItself(mask, LowerCase(who.ipName.value));
      SmallIsLower(who.ipName.value);
    }
    if who.ipNumber.Some? { WildcardVerdict.PlainMatchesItself(mask, who.ipNumber.value); }
  }

  /** Capital letters made small. */
  function Small(s: string): string {
    seq(|s|, i requires 0 <= i < |s| => if 'A' <= s[i] <= 'Z' then s[i] - 'A' + 'a' else s[i])
  }

  lemma SmallIsLower(s: string)
    ensures Small(s) == LowerCase(s)
  {
  }

  lemma MaskIsSomething(mask: string)
    requires mask != ""
    ensures Wildcard.Parse(mask) != []
  {
    ParsedIsSomething(mask, false, "");
  }

  lemma {:induction false} ParsedIsSomething(s: string, wild: bool, buf: string)
    requires s != "" || wild || buf != ""
    ensures Wildcard.ParseFrom(s, wild, buf) != []
    decreases |s|
  {
    if s == "" {
    } else if s[0] == '\\' {
      if |s| > 1 { ParsedIsSomething(s[2..], wild, buf + [s[1]]); }
    } else if s[0] == '*' {
      ParsedIsSomething(s[1..], true, "");
    } else {
      ParsedIsSomething(s[1..], wild, buf + [s[0]]);
    }
  }

  // ---- The reason ----

  /** The last of the names that is that of a group, as the position of this group. */
  function LastGroup(older: seq<DefText>, names: seq<string>): (r: Option<nat>)
    ensures r.Some? ==> r.value < |older|
  {
    if names == [] then None
    else
      var n := |names| - 1;
      var k := FindDef(older, names[n]);
      if k < |older| then Some(k) else LastGroup(older, names[..n])
  }

  /** No item can be used from this address, or the last that can mentions groups, and the last of these is shut. */
  ghost predicate Shut(older: seq<DefText>, items: seq<ItemText>, who: Who)
    decreases |older|, |items|
  {
    items == [] || (
      var n := |items| - 1;
      if !AddressOk(items[n].addresses, who) then Shut(older, items[..n], who)
      else
        && items[n].users.Some?
        && var g := LastGroup(older, items[n].users.value);
        g.Some? && Shut(older[g.value + 1..], older[g.value].items, who))
  }

  /**
   What is said to be wrong with the address: the last item cannot be used from there, and what comes
   before it is shut; or it can be used, and so it is with the last group it mentions.
   */
  ghost predicate Blamed(older: seq<DefText>, items: seq<ItemText>, who: Who)
    decreases |older|, |items|
  {
    items != [] && (
      var n := |items| - 1;
      if !AddressOk(items[n].addresses, who) then Shut(older, items[..n], who)
      else
        && items[n].users.Some?
        && var g := LastGroup(older, items[n].users.value);
        g.Some? && Blamed(older[g.value + 1..], older[g.value].items, who))
  }

  lemma {:induction false} NamesInTwo(older: seq<DefText>, a: seq<string>, b: seq<string>, who: Who, v: Verdict)
    requires v.reason != HtaaOk
    ensures var w := CheckNames(older, a, who, v);
      CheckNames(older, a + b, who, v) == if w.reason == HtaaOk then w else CheckNames(older, b, who, w)
    decreases |a|
  {
    hide Check, IsUser;
    if a == [] {
      assert a + b == b;
    } else {
      assert (a + b)[1..] == a[1..] + b;
      var k := FindDef(older, a[0]);
      var w := if k < |older| then Check(older[k..], who) else v;
      if w.reason != HtaaOk { NamesInTwo(older, a[1..], b, who, w); }
    }
  }

  lemma {:induction false} ItemsInTwo(older: seq<DefText>, a: seq<ItemText>, b: seq<ItemText>, who: Who, v: Verdict)
    requires v.reason != HtaaOk
    ensures var w := CheckItems(older, a, who, v);
      CheckItems(older, a + b, who, v) == if w.reason == HtaaOk then w else CheckItems(older, b, who, w)
    decreases |a|
  {
    hide CheckNames, AddressMatches;
    if a == [] {
      assert a + b == b;
    } else {
      assert (a + b)[1..] == a[1..] + b;
      if !AddressMatches(a[0].addresses, who) {
        ItemsInTwo(older, a[1..], b, who, if v.poss then v else v.(reason := HtaaIpMask));
      } else if a[0].users.Some? {
        var w := CheckNames(older, a[0].users.value, who, v.(poss := true));
        if w.reason != HtaaOk { ItemsInTwo(older, a[1..], b, who, w); }
      }
    }
  }

  /** One more name: a group overwrites what was found so far. */
  lemma LastName(older: seq<DefText>, names: seq<string>, who: Who, v: Verdict)
    requires names != [] && v.reason != HtaaOk && CheckNames(older, names, who, v).reason != HtaaOk
    ensures var n := |names| - 1;
      var w, k := CheckNames(older, names[..n], who, v), FindDef(older, names[n]);
      && w.reason != HtaaOk
      && CheckNames(older, names, who, v) == if k < |older| then Check(older[k..], who) else w
  {
    hide Check, IsUser;
    var n := |names| - 1;
    NamesInTwo(older, names[..n], [names[n]], who, v);
    assert names == names[..n] + [names[n]];
    assert [names[n]][1..] == [];
  }

  lemma {:induction false} LastGroupDecides(older: seq<DefText>, names: seq<string>, who: Who, v: Verdict)
    requires v.reason != HtaaOk && CheckNames(older, names, who, v).reason != HtaaOk
    ensures var g := LastGroup(older, names);
      CheckNames(older, names, who, v) == if g.Some? then Check(older[g.value..], who) else v
    decreases |names|
  {
    if names == [] {
    } else {
      LastName(older, names, who, v);
      hide CheckNames, Check;
      LastGroupDecides(older, names[..|names| - 1], who, v);
    }
  }

  /** One more item. */
  lemma LastItem(older: seq<DefText>, items: seq<ItemText>, who: Who, v: Verdict)
    requires items != [] && v.reason != HtaaOk && CheckItems(older, items, who, v).reason != HtaaOk
    ensures var n := |items| - 1;
      var w, it := CheckItems(older, items[..n], who, v), items[n];
      && w.reason != HtaaOk
      && (AddressOk(it.addresses, who) ==> it.users.Some?)
      && CheckItems(older, items, who, v) ==
        if !AddressOk(it.addresses, who) then (if w.poss then w else w.(reason := HtaaIpMask))
        else CheckNames(older, it.users.value, who, w.(poss := true))
  {
    var n := |items| - 1;
    var it := items[n];
    if it.addresses.Some? { InListIsExists(it.addresses.value, who); }
    assert AddressMatches(it.addresses, who) <==> AddressOk(it.addresses, who);
    hide CheckNames, AddressMatches, AddressOk;
    ItemsInTwo(older, items[..n], [it], who, v);
    assert items == items[..n] + [it];
    assert [it][1..] == [];
  }

  lemma {:induction false} ItemsGiveReason(older: seq<DefText>, items: seq<ItemText>, who: Who)
    requires CheckItems(older, items, who, Verdict(HtaaNotMember, false)).reason != HtaaOk
    ensures var w := CheckItems(older, items, who, Verdict(HtaaNotMember, false));
      && (!w.poss <==> Shut(older, items, who))
      && (!w.poss && w.reason == HtaaIpMask <==> Blamed(older, items, who))
    decreases |older|, |items|
  {
    if items == [] {
    } else {
      var n := |items| - 1;
      var it, v := items[n], Verdict(HtaaNotMember, false);
      var w := CheckItems(older, items[..n], who, v);
      LastItem(older, items, who, v);
      hide AddressOk, LastGroup, CheckNames;
      ItemsGiveReason(older, items[..n], who);
      if AddressOk(it.addresses, who) {
        LastGroupDecides(older, it.users.value, who, w.(poss := true));
        var g := LastGroup(older, it.users.value);
        if g.Some? {
          assert older[g.value..][1..] == older[g.value + 1..] && older[g.value..][0] == older[g.value];
          ItemsGiveReason(older[g.value + 1..], older[g.value].items, who);
        }
      }
    }
  }

  /** For which groups and clients the address is given as the reason; the others are told they are no members. */
  lemma ReasonIsAddressIff(defs: seq<DefText>, who: Who)
    requires defs != []
    ensures var reason := Check(defs, who).reason;
      && (reason == HtaaIpMask <==> !Member(defs, who) && Blamed(defs[1..], defs[0].items, who))
      && (reason == HtaaNotMember <==> !Member(defs, who) && !Blamed(defs[1..], defs[0].items, who))
  {
    CheckDecidesMembership(defs, who);
    var w := CheckItems(defs[1..], defs[0].items, who, Verdict(HtaaNotMember, false));
    if w.reason != HtaaOk { ItemsGiveReason(defs[1..], defs[0].items, who); }
    hide CheckItems, Member, Blamed, Shut;
  }

  /** No item of the list mentions a group. */
  predicate MentionsNoGroup(items: seq<ItemText>, older: seq<DefText>) {
    forall item :: item in items && item.users.Some? ==>
      forall name :: name in item.users.value ==> NoGroup(name, older)
  }

  /** Some item can be used from this address. */
  ghost predicate SomeAddressOk(items: seq<ItemText>, who: Who) {
    exists i :: 0 <= i < |items| && AddressOk(items[i].addresses, who)
  }

  lemma {:induction false} NoGroupIsLast(older: seq<DefText>, names: seq<string>)
    requires forall name :: name in names ==> NoGroup(name, older)
    ensures LastGroup(older, names).None?
  {
    if names == [] {
    } else {
      var n := |names| - 1;
      NotFoundInFront(names[n], older, []);
      assert older + [] == older;
      NoGroupIsLast(older, names[..n]);
    }
  }

  lemma {:induction false} ShutIff(older: seq<DefText>, items: seq<ItemText>, who: Who)
    requires MentionsNoGroup(items, older)
    ensures Shut(older, items, who) <==> !SomeAddressOk(items, who)
    ensures Blamed(older, items, who) <==> items != [] && !SomeAddressOk(items, who)
    decreases |items|
  {
    if items == [] {
    } else {
      var n := |items| - 1;
      var it, rest := items[n], items[..n];
      assert it in items && forall item :: item in rest ==> item in items;
      hide AddressOk;
      if it.users.Some? { NoGroupIsLast(older, it.users.value); }
      ShutIff(older, rest, who);
      assert SomeAddressOk(items, who) <==> AddressOk(it.addresses, who) || SomeAddressOk(rest, who) by {
        if i :| 0 <= i < |rest| && AddressOk(rest[i].addresses, who) { assert items[i] == rest[i]; }
        if i :| 0 <= i < |items| && AddressOk(items[i].addresses, who) { assert i < n ==> rest[i] == items[i]; }
      }
    }
  }

  /**
   In a group that mentions no other, the address is given as the reason exactly if there are items
   and none of them can be used from there.
   */
  lemma ReasonWithoutGroups(defs: seq<DefText>, who: Who)
    requires defs != [] && MentionsNoGroup(defs[0].items, defs[1..]) && !Member(defs, who)
    ensures Check(defs, who).reason ==
      if defs[0].items != [] && !SomeAddressOk(defs[0].items, who) then HtaaIpMask else HtaaNotMember
  {
    ReasonIsAddressIff(defs, who);
    ShutIff(defs[1..], defs[0].items, who);
    hide Check, Member, Blamed, Shut, SomeAddressOk;
  }

  /**
   With groups inside groups it is not so: the inner check forgets what the outer one had found. Eve comes
   from where joe may, but is told that it is her address.
   */
  lemma InnerCheckForgets()
    ensures var club := DefText("club", [ItemText(Some(["joe"]), Some(["1.2.3.4"]))]);
      var staff := DefText("staff", [ItemText(Some(["joe"]), None), ItemText(Some(["club"]), None)]);
      var who := Who(Some("eve"), Some("5.6.7.8"), None);
      SomeAddressOk(staff.items, who) && Check([staff, club], who).reason == HtaaIpMask
  {
    var joe := ItemText(Some(["joe"]), Some(["1.2.3.4"]));
    var club := DefText("club", [joe]);
    var anyJoe, inner := ItemText(Some(["joe"]), None), ItemText(Some(["club"]), None);
    var staff := DefText("staff", [anyJoe, inner]);
    var who := Who(Some("eve"), Some("5.6.7.8"), None);
    var older := [club];
    assert AddressOk(staff.items[0].addresses, who);
    WildcardVerdict.PlainMatchesItself("1.2.3.4", "5.6.7.8");
    assert !IpMaskMatch("1.2.3.4", who);
    hide IpMaskMatch;
    var v := Verdict(HtaaNotMember, false);
    assert ["1.2.3.4"][1..] == [] && !AddressMatches(joe.addresses, who);
    assert [joe][1..] == [] && CheckItems([], [joe], who, v) == Verdict(HtaaIpMask, false);
    assert [club][1..] == [] && Check([club], who) == Verdict(HtaaIpMask, false);
    assert CheckNames(older, ["club"], who, Verdict(HtaaNotMember, true)) == Verdict(HtaaIpMask, false) by {
      assert FindDef(older, "club") == 0 && older[0..] == older && ["club"][1..] == [];
    }
    assert CheckNames(older, ["joe"], who, Verdict(HtaaNotMember, true)) == Verdict(HtaaNotMember, true) by {
      assert FindDef(older, "joe") == 1 && ["joe"][1..] == [];
      OtherUser("joe", "eve");
    }
    assert [inner][1..] == [];
    assert CheckItems(older, [inner], who, Verdict(HtaaNotMember, true)) == Verdict(HtaaIpMask, false);
    assert [anyJoe, inner][1..] == [inner];
    assert CheckItems(older, staff.items, who, v) == Verdict(HtaaIpMask, false);
    assert [staff, club][1..] == older;
  }

  lemma OtherUser(name: string, user: string)
    requires name == "joe" && user != name
    ensures !IsUser(name, Some(user))
  {
    assert |LowerCase(name)| == 3 && LowerCase(name)[0] == 'j';
  }
}
