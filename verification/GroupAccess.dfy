/**
 Group files: each group is resolved against the groups before it, and membership follows
 the references.
 */
module GroupAccess {
  import opened Text
  import opened Lexer
  import opened GroupParser
  import W = Wildcard

  // ---- Who belongs to a group ----

  datatype Who = Who(user: Option<string>, ipNumber: Option<string>, ipName: Option<string>)

  /** The position of the newest group of a name; the length of the list if there is none. */
  function FindDef(defs: seq<DefText>, name: string): (k: nat)
    ensures k <= |defs| && (k < |defs| ==> defs[k].name == name)
    ensures forall j :: 0 <= j < k ==> defs[j].name != name
  {
    if defs == [] || defs[0].name == name then 0 else 1 + FindDef(defs[1..], name)
  }

  predicate IpMaskMatch(mask: string, who: Who) {
    || (who.ipName.Some? && W.MatchPattern(W.Parse(mask), [], LowerCase(who.ipName.value)).Some?)
    || (who.ipNumber.Some? && W.MatchPattern(W.Parse(mask), [], who.ipNumber.value).Some?)
  }

  /** The connection comes from an address of the list; no list admits all. */
  ghost predicate AddressOk(addresses: Option<seq<string>>, who: Who) {
    addresses.None? || exists i :: 0 <= i < |addresses.value| && IpMaskMatch(addresses.value[i], who)
  }

  predicate Same(name: string, lower: string) { LowerCase(name) == lower }

  /** A name that is not that of a group: a user, or one of the names for many users. */
  predicate IsUser(name: string, user: Option<string>) {
    || (user.Some? && user.value != "" &&
          (name == user.value || Same(name, "users") || Same(name, "all") || Same(name, "*")))
    || Same(name, "anybody") || Same(name, "anyone") || Same(name, "anonymous")
  }

  /** The first group of the list admits whom one of its items admits. */
  ghost predicate Member(defs: seq<DefText>, who: Who)
    decreases |defs|, 0
  {
    defs != [] && exists i :: 0 <= i < |defs[0].items| && ItemAdmits(defs[1..], defs[0].items[i], who)
  }

  /** An item admits who comes from one of its addresses and is under one of its names. */
  ghost predicate ItemAdmits(older: seq<DefText>, item: ItemText, who: Who)
    decreases |older|, 2
  {
    && AddressOk(item.addresses, who)
    && (item.users.None? || exists j :: 0 <= j < |item.users.value| && NameAdmits(older, item.users.value[j], who))
  }

  /** A name of an older group stands for its members, with its own addresses. */
  ghost predicate NameAdmits(older: seq<DefText>, name: string, who: Who)
    decreases |older|, 1
  {
    var k := FindDef(older, name);
    if k < |older| then Member(older[k..], who) else IsUser(name, who.user)
  }

  // ---- Resolving references ----

  ghost predicate Named(groups: seq<GroupDef>)
    reads groups
  {
    forall k :: 0 <= k < |groups| ==> groups[k].groupName.Some?
  }

  ghost function View(groups: seq<GroupDef>): (defs: seq<DefText>)
    requires Named(groups)
    reads groups
    ensures |defs| == |groups|
    ensures forall k :: 0 <= k < |groups| ==> defs[k] == DefOf(groups[k].groupName.value, groups[k])
  {
    seq(|groups|, k requires 0 <= k < |groups| && groups[k].groupName.Some? reads groups =>
      DefOf(groups[k].groupName.value, groups[k]))
  }

  ghost function FoundIn(groups: seq<GroupDef>, name: string): GroupDef?
    requires Named(groups)
    reads groups
  {
    var k := FindDef(View(groups), name);
    if k < |groups| then groups[k] else null
  }

  method FindGroupDef(groupList: seq<GroupDef>, groupName: string) returns (groupDef: GroupDef?)
    requires Named(groupList)
    ensures groupDef == FoundIn(groupList, groupName)
  {
    ghost var defs := View(groupList);
    assert defs[0..] == defs;
    for cur := 0 to |groupList|
      invariant FindDef(defs, groupName) == cur + FindDef(defs[cur..], groupName)
    {
      if groupList[cur].groupName == Some(groupName) {
        return groupList[cur];
      }
      assert defs[cur..][1..] == defs[cur + 1..];
    }
    return null;
  }

  /** Each user name is linked to the newest of the groups that has that name, if any. */
  ghost predicate Resolved(refs: set<Ref>, groups: seq<GroupDef>)
    requires Named(groups)
    reads refs, groups
  {
    forall r :: r in refs ==> r.translation == FoundIn(groups, r.name)
  }

  method ResolveGroupReferences(groupDef: GroupDef, groupDefList: seq<GroupDef>)
    requires Named(groupDefList)
    modifies UserRefs(groupDef.itemList)
    ensures Resolved(UserRefs(groupDef.itemList), groupDefList)
  {
    hide FoundIn;
    var items := groupDef.itemList;
    ghost var seen: set<Ref> := {};
    for i := 0 to |items|
      invariant Resolved(seen, groupDefList) && seen <= UserRefs(items)
      invariant forall k :: 0 <= k < i ==> RefsIn(items[k].userDefList) <= seen
    {
      if items[i].userDefList.Some? {
        ResolveList(items[i].userDefList.value, groupDefList);
        seen := seen + RefsIn(items[i].userDefList);
      }
    }
    SeenTogether(items, seen);
  }

  method ResolveList(refs: seq<Ref>, groupDefList: seq<GroupDef>)
    requires Named(groupDefList)
    modifies refs
    ensures Resolved((set r | r in refs), groupDefList)
  {
    for j := 0 to |refs|
      invariant forall k :: 0 <= k < j ==> refs[k].translation == FoundIn(groupDefList, refs[k].name)
    {
      refs[j].translation := FindGroupDef(groupDefList, refs[j].name);
    }
  }

  lemma {:induction false} SeenTogether(items: seq<Item>, seen: set<Ref>)
    requires forall k :: 0 <= k < |items| ==> RefsIn(items[k].userDefList) <= seen
    ensures UserRefs(items) <= seen
  {
    if items == [] {
    } else {
      assert forall k :: 0 <= k < |items[1..]| ==> items[1..][k] == items[k + 1];
      SeenTogether(items[1..], seen);
    }
  }

  function RefsOfAll(groups: seq<GroupDef>): set<Ref> {
    if groups == [] then {} else UserRefs(groups[0].itemList) + RefsOfAll(groups[1..])
  }

  /** Every group is resolved against the groups behind it in the list, which are older. */
  ghost predicate Linked(groups: seq<GroupDef>)
    reads groups, RefsOfAll(groups)
  {
    groups == [] || (
      && groups[0].groupName.Some? && Named(groups[1..])
      && Resolved(UserRefs(groups[0].itemList), groups[1..])
      && Linked(groups[1..]))
  }

  lemma {:induction false} LinkedIsNamed(groups: seq<GroupDef>)
    requires Linked(groups)
    ensures Named(groups)
  {
    if groups == [] {
    } else {
      assert forall k :: 1 <= k < |groups| ==> groups[k] == groups[1..][k - 1];
    }
  }

  /** From any group on, the list is linked. */
  lemma {:induction false} LinkedFrom(groups: seq<GroupDef>, k: nat)
    requires Linked(groups) && k <= |groups|
    ensures Linked(groups[k..])
  {
    if k == 0 {
    } else {
      LinkedFrom(groups[1..], k - 1);
      assert groups[1..][k - 1..] == groups[k..];
    }
  }

  lemma {:induction false} UserRefsExist(items: seq<Item>)
    ensures forall r :: r in UserRefs(items) ==> allocated(r)
  {
    if items == [] {
    } else {
      UserRefsExist(items[1..]);
    }
  }

  lemma {:induction false} RefsExist(groups: seq<GroupDef>)
    ensures forall r :: r in RefsOfAll(groups) ==> allocated(r)
  {
    if groups == [] {
    } else {
      UserRefsExist(groups[0].itemList);
      RefsExist(groups[1..]);
    }
  }

  lemma LinkedMore(g: GroupDef, groups: seq<GroupDef>)
    requires Linked(groups) && Named(groups) && g.groupName.Some? && Resolved(UserRefs(g.itemList), groups)
    ensures Linked([g] + groups) && Named([g] + groups)
    ensures View([g] + groups) == [DefOf(g.groupName.value, g)] + View(groups)
    ensures RefsOfAll([g] + groups) == UserRefs(g.itemList) + RefsOfAll(groups)
  {
    assert ([g] + groups)[1..] == groups;
  }

  lemma {:induction false} UserRefsAreRefs(items: seq<Item>)
    ensures UserRefs(items) <= AllRefs(items)
  {
    if items == [] {
    } else {
      UserRefsAreRefs(items[1..]);
    }
  }

  /** Resolve a group against the list as it is, then put it in front. */
  method AddGroupDef(groupDefList: seq<GroupDef>, groupDef: GroupDef) returns (list: seq<GroupDef>)
    requires Linked(groupDefList) && Named(groupDefList) && groupDef.groupName.Some?
    requires UserRefs(groupDef.itemList) !! RefsOfAll(groupDefList)
    modifies UserRefs(groupDef.itemList)
    ensures list == [groupDef] + groupDefList && Linked(list) && Named(list)
    ensures View(list) == [DefOf(groupDef.groupName.value, groupDef)] + old(View(groupDefList))
    ensures RefsOfAll(list) == UserRefs(groupDef.itemList) + RefsOfAll(groupDefList)
  {
    RefsExist(groupDefList);
    ResolveGroupReferences(groupDef, groupDefList);
    list := [groupDef] + groupDefList;
    LinkedMore(groupDef, groupDefList);
  }

  method ParseGroupFileOf(fp: Scanner) returns (groupDefList: seq<GroupDef>)
    modifies fp
    ensures Linked(groupDefList) && Named(groupDefList)
    ensures View(groupDefList) == ParseGroupFile(old(fp.State()), [])
  {
    hide ParseGroupFile, ReadItem;
    groupDefList := [];
    ghost var all := ParseGroupFile(fp.State(), []);
    assert View(groupDefList) == [];
    while true
      invariant fresh(groupDefList) && fresh(RefsOfAll(groupDefList)) && Linked(groupDefList) && Named(groupDefList)
      invariant all == ParseGroupFile(fp.State(), View(groupDefList))
      decreases Weight(fp.State())
    {
      var groupDef := NextGroupDef(fp, groupDefList);
      if groupDef == null {
        break;
      }
      groupDefList := AddGroupDef(groupDefList, groupDef);
    }
  }

  /** The next definition; it shares no reference with the groups there are. */
  method NextGroupDef(fp: Scanner, ghost list: seq<GroupDef>) returns (groupDef: GroupDef?)
    requires Linked(list) && Named(list)
    modifies fp
    ensures Linked(list) && Named(list) && View(list) == old(View(list))
    ensures groupDef != null ==> groupDef.groupName.Some? && fresh(groupDef) && fresh(UserRefs(groupDef.itemList))
    ensures groupDef != null ==> UserRefs(groupDef.itemList) !! RefsOfAll(list)
    ensures Weight(fp.State()) <= old(Weight(fp.State())) - if groupDef == null then 0 else 1
    ensures ParseGroupFile(old(fp.State()), View(list)) == if groupDef == null then View(list)
      else ParseGroupFile(fp.State(), [DefOf(groupDef.groupName.value, groupDef)] + View(list))
  {
    hide ParseGroupDecl, View;
    RefsExist(list);
    groupDef := ParseGroupDeclOf(fp);
    if groupDef != null { UserRefsAreRefs(groupDef.itemList); }
  }

  /** Each step from a group to one it refers to leads to an older group, so no path is longer than the list. */
  lemma {:induction false} ReferencesHaveNoCycle(groups: seq<GroupDef>, k: nat, path: seq<GroupDef>)
    requires Linked(groups) && k < |groups| && path != [] && path[0] == groups[k]
    requires forall i :: 0 <= i < |path| - 1 ==> RefersTo(path[i], path[i + 1])
    ensures |path| <= |groups| - k
    decreases |path|
  {
    if |path| == 1 {
    } else {
      LinkedFrom(groups, k);
      LinkedIsNamed(groups[k..]);
      var older := groups[k..][1..];
      assert RefersTo(path[0], path[1]);
      var r :| r in UserRefs(path[0].itemList) && r.translation == path[1];
      assert path[1] == FoundIn(older, r.name);
      var m := FindDef(View(older), r.name);
      assert groups[k + 1 + m] == older[m];
      ReferencesHaveNoCycle(groups, k + 1 + m, path[1..]);
    }
  }

  ghost predicate RefersTo(g: GroupDef, h: GroupDef)
    reads UserRefs(g.itemList)
  {
    exists r :: r in UserRefs(g.itemList) && r.translation == h
  }

  // ---- The membership check ----

  datatype FailReason = HtaaOk | HtaaIpMask | HtaaNotMember

  /** The result so far, and whether some item would admit a user from this address. */
  datatype Verdict = Verdict(reason: FailReason, poss: bool)

  predicate InList(masks: seq<string>, who: Who) {
    masks != [] && (IpMaskMatch(masks[0], who) || InList(masks[1..], who))
  }

  /** No list, or an address of it; without number and name no list matches. */
  predicate AddressMatches(addresses: Option<seq<string>>, who: Who) {
    addresses.None? || InList(addresses.value, who)
  }

  function Check(defs: seq<DefText>, who: Who): Verdict
    decreases |defs|, 0, 0
  {
    if defs == [] then Verdict(HtaaNotMember, false)
    else
      var v := CheckItems(defs[1..], defs[0].items, who, Verdict(HtaaNotMember, false));
      if v.poss && v.reason != HtaaOk then v.(reason := HtaaNotMember) else v
  }

  function CheckItems(older: seq<DefText>, items: seq<ItemText>, who: Who, v: Verdict): Verdict
    decreases |older|, 2, |items|
  {
    if items == [] then v
    else if !AddressMatches(items[0].addresses, who) then
      CheckItems(older, items[1..], who, if v.poss then v else v.(reason := HtaaIpMask))
    else if items[0].users.None? then v.(reason := HtaaOk)
    else
      var w := CheckNames(older, items[0].users.value, who, v.(poss := true));
      if w.reason == HtaaOk then w else CheckItems(older, items[1..], who, w)
  }

  function CheckNames(older: seq<DefText>, names: seq<string>, who: Who, v: Verdict): Verdict
    decreases |older|, 1, |names|
  {
    if names == [] then v
    else
      var k := FindDef(older, names[0]);
      if k < |older| then
        var w := Check(older[k..], who);
        if w.reason == HtaaOk then w else CheckNames(older, names[1..], who, w)
      else if IsUser(names[0], who.user) then v.(reason := HtaaOk)
      else CheckNames(older, names[1..], who, v)
  }

  lemma {:induction false} InListIsExists(masks: seq<string>, who: Who)
    ensures InList(masks, who) <==> exists i :: 0 <= i < |masks| && IpMaskMatch(masks[i], who)
  {
    if masks == [] {
    } else {
      InListIsExists(masks[1..], who);
      if i :| 0 <= i < |masks| && IpMaskMatch(masks[i], who) {
        assert i > 0 ==> masks[1..][i - 1] == masks[i];
      }
      if i :| 0 <= i < |masks[1..]| && IpMaskMatch(masks[1..][i], who) {
        assert masks[i + 1] == masks[1..][i];
      }
    }
  }

  /** The check succeeds exactly for the members of the group. */
  lemma {:induction false} CheckDecidesMembership(defs: seq<DefText>, who: Who)
    ensures Check(defs, who).reason == HtaaOk <==> Member(defs, who)
    decreases |defs|, 0, 0
  {
    if defs == [] {
    } else {
      CheckItemsDecides(defs[1..], defs[0].items, who, Verdict(HtaaNotMember, false));
    }
  }

  lemma {:induction false} CheckItemsDecides(older: seq<DefText>, items: seq<ItemText>, who: Who, v: Verdict)
    requires v.reason != HtaaOk
    ensures CheckItems(older, items, who, v).reason == HtaaOk <==>
      exists i :: 0 <= i < |items| && ItemAdmits(older, items[i], who)
    decreases |older|, 2, |items|
  {
    if items == [] {
    } else {
      var it := items[0];
      if it.addresses.Some? { InListIsExists(it.addresses.value, who); }
      assert AddressMatches(it.addresses, who) <==> AddressOk(it.addresses, who);
      if it.users.Some? { CheckNamesDecides(older, it.users.value, who, v.(poss := true)); }
      if !ItemAdmits(older, it, who) {
        var v' := if !AddressMatches(it.addresses, who) then (if v.poss then v else v.(reason := HtaaIpMask))
          else CheckNames(older, it.users.value, who, v.(poss := true));
        CheckItemsDecides(older, items[1..], who, v');
        if i :| 0 <= i < |items| && ItemAdmits(older, items[i], who) {
          assert items[1..][i - 1] == items[i];
        }
        if i :| 0 <= i < |items[1..]| && ItemAdmits(older, items[1..][i], who) {
          assert items[i + 1] == items[1..][i];
        }
      }
    }
  }

  lemma {:induction false} CheckNamesDecides(older: seq<DefText>, names: seq<string>, who: Who, v: Verdict)
    requires v.reason != HtaaOk
    ensures CheckNames(older, names, who, v).reason == HtaaOk <==>
      exists j :: 0 <= j < |names| && NameAdmits(older, names[j], who)
    decreases |older|, 1, |names|
  {
    if names == [] {
    } else {
      var k := FindDef(older, names[0]);
      if k < |older| { CheckDecidesMembership(older[k..], who); }
      if !NameAdmits(older, names[0], who) {
        CheckNamesDecides(older, names[1..], who, if k < |older| then Check(older[k..], who) else v);
        if j :| 0 <= j < |names| && NameAdmits(older, names[j], who) {
          assert names[1..][j - 1] == names[j];
        }
        if j :| 0 <= j < |names[1..]| && NameAdmits(older, names[1..][j], who) {
          assert names[j + 1] == names[1..][j];
        }
      }
    }
  }

  method IpInDefList(addressDefList: seq<Ref>, who: Who) returns (yes: bool)
    ensures yes == InList(Names(addressDefList), who)
  {
    ghost var names := Names(addressDefList);
    assert names[0..] == names;
    for cur := 0 to |addressDefList|
      invariant InList(names, who) == InList(names[cur..], who)
    {
      if IpMaskMatch(addressDefList[cur].name, who) {
        return true;
      }
      assert names[cur..][1..] == names[cur + 1..];
    }
    return false;
  }

  /** What the first group of a list behind k is, and which groups it was resolved against. */
  lemma LinkedTail(groups: seq<GroupDef>, k: nat)
    requires Linked(groups) && Named(groups) && k <= |groups|
    ensures Linked(groups[k..]) && Named(groups[k..]) && View(groups[k..]) == View(groups)[k..]
  {
    LinkedFrom(groups, k);
  }

  /** A list that is linked and has been read as these definitions. */
  ghost predicate IsListOf(groups: seq<GroupDef>, defs: seq<DefText>)
    reads groups, RefsOfAll(groups)
  {
    Linked(groups) && Named(groups) && View(groups) == defs
  }

  /** The checker has one flag that all its calls share. */
  class Access {
    var poss: bool

    /** Does the user belong to the group, and come from an address it allows? */
    method UserAndInetInGroup(group: GroupDef?, who: Who, ghost groups: seq<GroupDef>, ghost defs: seq<DefText>)
      returns (reason: FailReason)
      requires IsListOf(groups, defs) && group == if groups == [] then null else groups[0]
      modifies this
      ensures Verdict(reason, poss) == Check(defs, who)
      ensures reason == HtaaOk <==> Member(defs, who)
      decreases |groups|, 0
    {
      RefsExist(groups);
      CheckDecidesMembership(defs, who);
      reason := HtaaNotMember;
      poss := false;
      if group != null {
        reason := UserInItems(group.itemList, who, groups, defs);
        if reason == HtaaOk {
          return;
        }
      }
      if poss {
        return HtaaNotMember;
      }
    }

    /** Look through the items of a group. */
    method UserInItems(items: seq<Item>, who: Who, ghost groups: seq<GroupDef>, ghost defs: seq<DefText>)
      returns (reason: FailReason)
      requires IsListOf(groups, defs) && groups != [] && items == groups[0].itemList && !poss
      modifies this
      ensures Verdict(reason, poss) == CheckItems(defs[1..], TextsOf(items), who, Verdict(HtaaNotMember, false))
      decreases |groups| - 1, 2
    {
      hide Check, CheckNames, Member, InList, FoundIn;
      reason := HtaaNotMember;
      ghost var older, texts := groups[1..], TextsOf(items);
      LinkedTail(groups, 1);
      RefsExist(older);
      UserRefsExist(items);
      assert texts[0..] == texts;
      for cur := 0 to |items|
        invariant reason != HtaaOk && IsListOf(older, defs[1..]) && Resolved(UserRefs(items), older)
        invariant CheckItems(defs[1..], texts, who, Verdict(HtaaNotMember, false)) ==
          CheckItems(defs[1..], texts[cur..], who, Verdict(reason, poss))
      {
        assert texts[cur..][1..] == texts[cur + 1..];
        var item := items[cur];
        var addressOk := true;
        if item.addressDefList.Some? {
          addressOk := IpInDefList(item.addressDefList.value, who);
        }
        if addressOk {
          if item.userDefList.None? {
            return HtaaOk;
          }
          reason := UserInDefList(item.userDefList.value, who, reason, UserRefs(items), older, defs[1..]);
          if reason == HtaaOk {
            return;
          }
        } else if !poss {
          reason := HtaaIpMask;
        }
      }
    }

    /** Look through the user and group names of one item. */
    method UserInDefList(refs: seq<Ref>, who: Who, reason0: FailReason,
                         ghost all: set<Ref>, ghost older: seq<GroupDef>, ghost defs: seq<DefText>)
      returns (reason: FailReason)
      requires (forall r :: r in refs ==> r in all) && reason0 != HtaaOk
      requires IsListOf(older, defs) && Resolved(all, older)
      modifies this
      ensures IsListOf(older, defs) && Resolved(all, older)
      ensures Verdict(reason, poss) == CheckNames(defs, Names(refs), who, Verdict(reason0, true))
      decreases |older|, 1
    {
      hide Check, Member, InList;
      RefsExist(older);
      reason := reason0;
      poss := true;
      ghost var names := Names(refs);
      assert names[0..] == names;
      for cur := 0 to |refs|
        invariant reason != HtaaOk && IsListOf(older, defs) && Resolved(all, older)
        invariant CheckNames(defs, names, who, Verdict(reason0, true)) ==
          CheckNames(defs, names[cur..], who, Verdict(reason, poss))
      {
        assert names[cur..][1..] == names[cur + 1..];
        var ref := refs[cur];
        if ref.translation != null {
          ghost var k := FindDef(defs, ref.name);
          LinkedTail(older, k);
          reason := UserAndInetInGroup(ref.translation, who, older[k..], defs[k..]);
        } else if IsUser(ref.name, who.user) {
          reason := HtaaOk;
        }
        if reason == HtaaOk {
          return;
        }
      }
    }
  }
}
