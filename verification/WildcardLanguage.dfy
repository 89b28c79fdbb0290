/** Which strings a pattern stands for, and when the matcher finds them all. */
module WildcardLanguage {
  import opened Text
  import opened Wildcard

  /**
   The strings a pattern stands for: a wildcard is any string. Under the user directory
   rule a string that begins like a user directory needs a text that does so, too.
   */
  ghost predicate Lang(pat: Pattern, act: string, rule: bool)
    decreases |pat|, 1
  {
    if pat == [] then act == ""
    else
      var text := pat[0].text;
      && (rule && IsUserDir(act) ==> IsUserDir(text))
      && (if pat[0].wild then
            exists k :: WildEndsAt(pat, act, k, rule)
          else
            text <= act && Lang(pat[1..], act[|text|..], rule))
  }

  /** The first segment's text stands at k, and the rest of the pattern takes the rest. */
  ghost predicate WildEndsAt(pat: Pattern, act: string, k: int, rule: bool)
    requires pat != []
    decreases |pat|, 0
  {
    OccursAt(act, pat[0].text, k) && Lang(pat[1..], act[k + |pat[0].text|..], rule)
  }

  // ---- What matches is in the language, and its captures rebuild it ----

  lemma TailIsWellFormed(pat: Pattern)
    requires WellFormed(pat) && pat != []
    ensures WellFormed(pat[1..])
    ensures |pat| > 1 ==> pat[1..][0].wild
    ensures pat[0].text == "" ==> pat[1..] == []
  {
  }

  lemma {:induction false} MatchIsInLang(pat: Pattern, act: string)
    requires WellFormed(pat) && Match(pat, act).Some?
    ensures Lang(pat, act, true)
    decreases |pat|, |act| + 1
  {
    if pat == [] {
    } else {
      var text := pat[0].text;
      TailIsWellFormed(pat);
      if !pat[0].wild {
        MatchIsInLang(pat[1..], act[|text|..]);
      } else if text == "" {
        assert WildEndsAt(pat, act, |act|, true);
      } else {
        var k := SearchIsInLang(pat, act, Find(act, text));
      }
    }
  }

  lemma {:induction false} SearchIsInLang(pat: Pattern, act: string, cur: int) returns (k: int)
    requires WellFormed(pat) && pat != [] && pat[0].text != ""
    requires cur >= -1 && (cur >= 0 ==> OccursAt(act, pat[0].text, cur))
    requires Search(pat, act, cur).Some?
    ensures WildEndsAt(pat, act, k, true)
    decreases |pat|, if cur < 0 then 0 else |act| - cur
  {
    var rest := act[cur + |pat[0].text|..];
    TailIsWellFormed(pat);
    if Match(pat[1..], rest).Some? {
      MatchIsInLang(pat[1..], rest);
      k := cur;
    } else {
      k := SearchIsInLang(pat, act, Next(act, pat[0].text, cur));
    }
  }

  lemma OnlyStar(pat: Pattern)
    requires WellFormed(pat) && pat != [] && pat[0].text == ""
    ensures pat[1..] == [] && !IsUserDir(pat[0].text)
  {
  }

  lemma {:induction false} MatchRebuilds(pat: Pattern, act: string)
    requires WellFormed(pat) && Match(pat, act).Some?
    ensures Replace(pat, Match(pat, act).value) == act
    decreases |pat|, |act| + 1
  {
    hide IsUserDir, Search, Find, WellFormed;
    if pat == [] {
    } else {
      var text := pat[0].text;
      TailIsWellFormed(pat);
      if !pat[0].wild {
        MatchRebuilds(pat[1..], act[|text|..]);
        assert act == text + act[|text|..];
      } else if text == "" {
        OnlyStar(pat);
        assert Replace(pat, [Some(act)]) == act + "" + "";
      } else {
        SearchRebuilds(pat, act, Find(act, text));
      }
    }
  }

  lemma {:induction false} SearchRebuilds(pat: Pattern, act: string, cur: int)
    requires WellFormed(pat) && pat != [] && pat[0].wild && pat[0].text != ""
    requires cur >= -1 && (cur >= 0 ==> OccursAt(act, pat[0].text, cur))
    requires Search(pat, act, cur).Some?
    ensures Replace(pat, Search(pat, act, cur).value) == act
    decreases |pat|, if cur < 0 then 0 else |act| - cur
  {
    hide IsUserDir, Match, Find;
    var text := pat[0].text;
    var rest := act[cur + |text|..];
    TailIsWellFormed(pat);
    var m := Match(pat[1..], rest);
    if m.Some? {
      MatchRebuilds(pat[1..], rest);
      assert act == act[..cur] + text + rest;
      assert ([Some(act[..cur])] + m.value)[1..] == m.value;
    } else {
      SearchRebuilds(pat, act, Next(act, text, cur));
    }
  }

  /** What matches is in the language, and its captures rebuild the string. */
  lemma MatchIsSound(pat: Pattern, act: string)
    requires WellFormed(pat) && Match(pat, act).Some?
    ensures Lang(pat, act, true)
    ensures Replace(pat, Match(pat, act).value) == act
  {
    MatchIsInLang(pat, act);
    MatchRebuilds(pat, act);
  }

  /** Mapping a string with the pattern it matches gives it back. */
  lemma MapToSelf(pat: Pattern, act: string)
    requires WellFormed(pat)
    ensures MatchPattern(pat, pat, act).Some? ==> MatchPattern(pat, pat, act).value == act
  {
    if pat != [] && Match(pat, act).Some? { MatchIsSound(pat, act); }
  }

  /** The first wildcard stands for the text at FirstWild. */
  lemma FirstWildIsFirstCapture(pat: Pattern, act: string)
    requires WellFormed(pat) && Match(pat, act).Some?
    ensures FirstWild(pat, act).Some? <==> exists i :: 0 <= i < |pat| && pat[i].wild
    ensures FirstWild(pat, act).Some? ==>
      var i, m := FirstWild(pat, act).value, Match(pat, act).value;
      m != [] && i + |CaptureText(m[0])| <= |act| && act[i..i + |CaptureText(m[0])|] == CaptureText(m[0])
  {
    if pat != [] && pat[0].wild {
      WildCapturesFirst(pat, act);
    } else if pat != [] {
      assert !pat[0].wild;
      if |pat| > 1 {
        assert pat[1].wild;
        var rest := act[|pat[0].text|..];
        WildCapturesFirst(pat[1..], rest);
        var c := CaptureText(Match(pat, act).value[0]);
        assert rest[..|c|] == act[|pat[0].text|..|pat[0].text| + |c|];
      }
    }
  }

  lemma WildCapturesFirst(pat: Pattern, act: string)
    requires WellFormed(pat) && Match(pat, act).Some? && pat != [] && pat[0].wild
    ensures var m := Match(pat, act).value;
      m != [] && CaptureText(m[0]) <= act
  {
    if pat[0].text != "" { SearchCapturesFirst(pat, act, Find(act, pat[0].text)); }
  }

  lemma {:induction false} SearchCapturesFirst(pat: Pattern, act: string, cur: int)
    requires pat != [] && pat[0].text != ""
    requires cur >= -1 && (cur >= 0 ==> OccursAt(act, pat[0].text, cur))
    requires Search(pat, act, cur).Some?
    ensures var m := Search(pat, act, cur).value;
      m != [] && CaptureText(m[0]) <= act
    decreases if cur < 0 then 0 else |act| - cur
  {
    if Match(pat[1..], act[cur + |pat[0].text|..]).Some? {
    } else {
      SearchCapturesFirst(pat, act, Next(act, pat[0].text, cur));
    }
  }

  // ---- What is in the language matches, if texts do not overlap themselves ----

  /** No proper prefix of t is also a suffix of t. */
  ghost predicate Borderless(t: string) {
    forall b :: 0 < b < |t| ==> !IsBorder(t, b)
  }

  predicate IsBorder(t: string, b: nat) { 0 < b < |t| && t[..b] == t[|t| - b..] }

  lemma NoOverlap(s: string, t: string, i: nat, j: nat)
    requires Borderless(t) && i < j && OccursAt(s, t, i) && OccursAt(s, t, j)
    ensures j >= i + |t|
  {
    if j < i + |t| {
      var b := i + |t| - j;
      assert t[..b] == s[j..j + |t|][..b] == s[j..j + b];
      assert t[|t| - b..] == s[i..i + |t|][|t| - b..] == s[j..j + b];
      assert IsBorder(t, b);
    }
  }

  /** The search misses no occurrence of a text that does not overlap itself. */
  lemma {:induction false} SearchFindsAll(pat: Pattern, act: string, cur: nat, k: nat)
    requires pat != [] && pat[0].text != "" && Borderless(pat[0].text)
    requires OccursAt(act, pat[0].text, cur) && OccursAt(act, pat[0].text, k) && cur <= k
    requires Match(pat[1..], act[k + |pat[0].text|..]).Some?
    ensures Search(pat, act, cur).Some?
    decreases |act| - cur
  {
    if cur == k || Match(pat[1..], act[cur + |pat[0].text|..]).Some? {
    } else {
      NoOverlap(act, pat[0].text, cur, k);
      SearchFindsAll(pat, act, Next(act, pat[0].text, cur), k);
    }
  }

  /** With such texts the matcher decides the language, user directories included. */
  lemma {:induction false} MatchIsComplete(pat: Pattern, act: string)
    requires WellFormed(pat)
    requires forall i :: 0 <= i < |pat| && pat[i].wild ==> Borderless(pat[i].text)
    requires Lang(pat, act, true)
    ensures Match(pat, act).Some?
    decreases |pat|
  {
    if pat == [] {
    } else {
      var text := pat[0].text;
      TailIsWellFormed(pat);
      if !pat[0].wild {
        MatchIsComplete(pat[1..], act[|text|..]);
      } else if text != "" {
        var k :| WildEndsAt(pat, act, k, true);
        MatchIsComplete(pat[1..], act[k + |text|..]);
        SearchFindsAll(pat, act, Find(act, text), k);
      }
    }
  }

  lemma MatchDecidesLanguage(pat: Pattern, act: string)
    requires WellFormed(pat)
    requires forall i :: 0 <= i < |pat| && pat[i].wild ==> Borderless(pat[i].text)
    ensures Match(pat, act).Some? <==> Lang(pat, act, true)
  {
    if Match(pat, act).Some? { MatchIsSound(pat, act); }
    if Lang(pat, act, true) { MatchIsComplete(pat, act); }
  }

  // ---- Without user directories only the last text matters ----

  ghost predicate NoUserDirIn(s: string) { forall i :: !OccursAt(s, "/~", i) }

  lemma OccursInSuffix(s: string, p: string, k: nat, i: int)
    requires k <= |s| && OccursAt(s[k..], p, i)
    ensures OccursAt(s, p, k + i)
  {
    assert s[k + i..k + i + |p|] == s[k..][i..i + |p|];
  }

  lemma UserDirOccurs(s: string)
    requires IsUserDir(s)
    ensures exists i :: OccursAt(s, "/~", i)
  {
    var i := if "/~" <= s then 0 else 5;
    assert s[i..i + 2] == "/~";
    assert OccursAt(s, "/~", i);
  }

  lemma SuffixHasNoUserDir(s: string, k: nat)
    requires NoUserDirIn(s) && k <= |s|
    ensures NoUserDirIn(s[k..]) && !IsUserDir(s[k..])
  {
    forall i ensures !OccursAt(s[k..], "/~", i) {
      if OccursAt(s[k..], "/~", i) { OccursInSuffix(s, "/~", k, i); }
    }
    if IsUserDir(s[k..]) { UserDirOccurs(s[k..]); }
  }

  /** What a wildcard stands for can be made longer. */
  lemma LangExtends(pat: Pattern, z: string, y: string)
    requires pat != [] && pat[0].wild && Lang(pat, y, false)
    ensures Lang(pat, z + y, false)
  {
    var text := pat[0].text;
    var k :| WildEndsAt(pat, y, k, false);
    var act := z + y;
    assert act[|z| + k..|z| + k + |text|] == y[k..k + |text|];
    assert act[|z| + k + |text|..] == y[k + |text|..];
    assert WildEndsAt(pat, act, |z| + k, false);
  }

  ghost predicate LastBorderless(pat: Pattern) {
    pat != [] && pat[|pat| - 1].wild ==> Borderless(pat[|pat| - 1].text)
  }

  lemma {:induction false} MatchIsCompleteForFiles(pat: Pattern, act: string)
    requires WellFormed(pat) && LastBorderless(pat) && NoUserDirIn(act) && Lang(pat, act, false)
    ensures Match(pat, act).Some?
    decreases |pat|
  {
    SuffixHasNoUserDir(act, 0);
    assert act[0..] == act;
    if pat == [] {
    } else {
      TailIsWellFormed(pat);
      if !pat[0].wild {
        SuffixHasNoUserDir(act, |pat[0].text|);
        MatchIsCompleteForFiles(pat[1..], act[|pat[0].text|..]);
      } else if pat[0].text != "" {
        var k :| WildEndsAt(pat, act, k, false);
        if |pat| == 1 {
          assert pat[1..] == [];
          assert Lang([], act[k + |pat[0].text|..], false);
          SearchFindsAll(pat, act, Find(act, pat[0].text), k);
        } else {
          LeftmostIsEnough(pat, act, k);
          var cur := Find(act, pat[0].text);
          SuffixHasNoUserDir(act, cur + |pat[0].text|);
          MatchIsCompleteForFiles(pat[1..], act[cur + |pat[0].text|..]);
        }
      }
    }
  }

  /** Where a wildcard follows, the leftmost occurrence of a text is as good as any. */
  lemma LeftmostIsEnough(pat: Pattern, act: string, k: int)
    requires WellFormed(pat) && |pat| > 1 && pat[0].wild && pat[0].text != "" && WildEndsAt(pat, act, k, false)
    ensures var cur := Find(act, pat[0].text);
      cur >= 0 && Lang(pat[1..], act[cur + |pat[0].text|..], false)
  {
    hide IsUserDir, Find;
    var text := pat[0].text;
    var cur := Find(act, text);
    TailIsWellFormed(pat);
    var z := act[cur + |text|..k + |text|];
    assert act[cur + |text|..] == z + act[k + |text|..];
    LangExtends(pat[1..], z, act[k + |text|..]);
  }

  lemma {:induction false} RuleDoesNotMatter(pat: Pattern, act: string)
    requires NoUserDirIn(act)
    ensures Lang(pat, act, true) <==> Lang(pat, act, false)
    decreases |pat|
  {
    SuffixHasNoUserDir(act, 0);
    assert act[0..] == act;
    if pat == [] {
    } else {
      var text := pat[0].text;
      forall k ensures WildEndsAt(pat, act, k, true) <==> WildEndsAt(pat, act, k, false) {
        if OccursAt(act, text, k) {
          SuffixHasNoUserDir(act, k + |text|);
          RuleDoesNotMatter(pat[1..], act[k + |text|..]);
        }
      }
      if text <= act {
        SuffixHasNoUserDir(act, |text|);
        RuleDoesNotMatter(pat[1..], act[|text|..]);
      }
    }
  }

  /** No /~ in the string and no overlap in the last text: the matcher decides the plain language. */
  lemma MatchDecidesFiles(pat: Pattern, act: string)
    requires WellFormed(pat) && LastBorderless(pat) && NoUserDirIn(act)
    ensures Match(pat, act).Some? <==> Lang(pat, act, false)
  {
    RuleDoesNotMatter(pat, act);
    if Match(pat, act).Some? { MatchIsSound(pat, act); }
    if Lang(pat, act, false) { MatchIsCompleteForFiles(pat, act); }
  }

  // ---- Patterns with one wildcard ----

  /** A text with a border moved along itself, behind a character that keeps it from what stands before. */
  function Shifted(t: string, b: nat): string
    requires IsBorder(t, b)
  {
    [if t[0] == 'a' then 'b' else 'a'] + t[..|t| - b] + t
  }

  lemma BorderShifts(t: string, b: nat)
    requires IsBorder(t, b)
    ensures var act, p := Shifted(t, b), |t| - b;
      OccursAt(act, t, 1) && OccursAt(act, t, 1 + p) && |act| == 1 + p + |t| && !OccursAt(act, t, 0)
  {
    var p := |t| - b;
    var act := Shifted(t, b);
    assert act[1..1 + |t|] == t[..p] + act[1 + p..1 + |t|];
    assert act[1 + p..1 + |t|] == t[..b];
    assert t == t[..p] + t[p..];
    assert act[1 + p..1 + p + |t|] == t;
    assert act[0..0 + |t|][0] == act[0] != t[0];
  }

  /** Two characters that stand together behind the first of the shifted text stand together in the text. */
  lemma ShiftAddsNoPair(t: string, b: nat, pair: string, i: int)
    requires IsBorder(t, b) && |pair| == 2 && i >= 1 && OccursAt(Shifted(t, b), pair, i)
    ensures OccursAt(t, pair, i - 1) || OccursAt(t, pair, i - 1 - (|t| - b))
  {
    var p, act := |t| - b, Shifted(t, b);
    BorderShifts(t, b);
    hide OccursAt, Shifted;
    if i + 1 <= |t| {
      PartWithin(act, t, 1, pair, i);
    } else {
      PartEnds(act, pair, i);
      PartWithin(act, t, 1 + p, pair, i);
    }
  }

  lemma PartEnds(s: string, q: string, i: int)
    requires OccursAt(s, q, i)
    ensures 0 <= i && i + |q| <= |s|
  {
  }

  /** What stands inside a part stands in it. */
  lemma PartWithin(s: string, p: string, k: int, q: string, i: int)
    requires OccursAt(s, p, k) && OccursAt(s, q, i) && k <= i && i + |q| <= k + |p|
    ensures OccursAt(p, q, i - k)
  {
    var part, a, b := s[k..k + |p|], s[i..i + |q|], p[i - k..i - k + |q|];
    forall n | 0 <= n < |q| ensures a[n] == b[n] {
      assert part[i - k + n] == s[i + n];
    }
    assert a == b;
  }

  lemma PairInPart(h: string, s: string, pair: string, i: int)
    requires s != "" && |pair| == 2 && s[0] != pair[1] && OccursAt(h + s, pair, i)
    ensures OccursAt(h, pair, i) || OccursAt(s, pair, i - |h|)
  {
    var act := h + s;
    assert act[i..i + 2][1] == act[i + 1];
    if i + 2 <= |h| {
      assert h[i..i + 2] == act[i..i + 2];
    } else if i >= |h| {
      assert s[i - |h|..i - |h| + 2] == act[i..i + 2];
    }
  }

  lemma PairInShifted(h: string, t: string, b: nat, i: int)
    requires IsBorder(t, b) && OccursAt(h + Shifted(t, b), "/~", i)
    ensures OccursAt(h, "/~", i) || OccursAt(t, "/~", i - |h| - 1) || OccursAt(t, "/~", i - |h| - 1 - (|t| - b))
  {
    var s := Shifted(t, b);
    PairInPart(h, s, "/~", i);
    if OccursAt(s, "/~", i - |h|) {
      assert s[i - |h|] == s[i - |h|..i - |h| + 2][0] == '/';
      ShiftAddsNoPair(t, b, "/~", i - |h|);
    }
  }

  lemma ShiftHasNoUserDir(h: string, t: string, b: nat)
    requires IsBorder(t, b) && NoUserDirIn(h) && NoUserDirIn(t)
    ensures NoUserDirIn(h + Shifted(t, b))
  {
    forall i ensures !OccursAt(h + Shifted(t, b), "/~", i) {
      if OccursAt(h + Shifted(t, b), "/~", i) { PairInShifted(h, t, b, i); }
    }
  }

  /** The search goes from the first of the two occurrences behind the second. */
  lemma ShiftedIsMissed(t: string, b: nat)
    requires IsBorder(t, b)
    ensures Match([Segment(true, t)], Shifted(t, b)).None?
  {
    var pat, act := [Segment(true, t)], Shifted(t, b);
    BorderShifts(t, b);
    assert Find(act, t) == 1;
    assert act[1 + |t|..] != "" && pat[1..] == [];
    assert Next(act, t, 1) < 0;
    assert Search(pat, act, 1) == Search(pat, act, -1);
  }

  lemma ShiftedIsInLang(t: string, b: nat)
    requires IsBorder(t, b)
    ensures Lang([Segment(true, t)], Shifted(t, b), false)
  {
    var pat, act := [Segment(true, t)], Shifted(t, b);
    BorderShifts(t, b);
    var k := 1 + |t| - b;
    assert act[k + |t|..] == "" && pat[1..] == [];
    assert WildEndsAt(pat, act, k, false);
  }

  /** A pattern with one wildcard: some plain text or none, and a text behind the wildcard. */
  predicate OneWild(pat: Pattern) {
    WellFormed(pat) && pat != [] && pat[|pat| - 1].wild && (|pat| == 1 || |pat| == 2)
      && forall i :: 0 <= i < |pat| - 1 ==> !pat[i].wild
  }

  function PlainText(pat: Pattern): string { if |pat| == 2 then pat[0].text else "" }

  function WildText(pat: Pattern): string
    requires pat != []
  {
    pat[|pat| - 1].text
  }

  lemma PlainTextIsTaken(pat: Pattern, y: string)
    requires OneWild(pat) && !IsUserDir(PlainText(pat) + y)
    ensures Lang(pat, PlainText(pat) + y, false) <==> Lang([Segment(true, WildText(pat))], y, false)
    ensures Match(pat, PlainText(pat) + y).Some? <==> Match([Segment(true, WildText(pat))], y).Some?
  {
    var h, last := PlainText(pat), [Segment(true, WildText(pat))];
    if |pat| == 2 {
      assert pat[1..] == last && (h + y)[|h|..] == y;
    } else {
      assert pat == last && h + y == y;
    }
  }

  lemma PartOfPart(s: string, p: string, k: int, q: string, i: int)
    requires OccursAt(s, p, k) && OccursAt(p, q, i)
    ensures OccursAt(s, q, k + i)
  {
    var part, a, b := s[k..k + |p|], p[i..i + |q|], s[k + i..k + i + |q|];
    forall n | 0 <= n < |q| ensures a[n] == b[n] {
      assert p[i + n] == part[i + n];
    }
    assert a == b;
  }

  lemma PartHasNoUserDir(s: string, p: string, k: nat)
    requires NoUserDirIn(s) && OccursAt(s, p, k)
    ensures NoUserDirIn(p)
  {
    forall i ensures !OccursAt(p, "/~", i) {
      if OccursAt(p, "/~", i) { PartOfPart(s, p, k, "/~", i); }
    }
  }

  lemma PlainTextIsInFront(pat: Pattern, act: string)
    requires OneWild(pat) && Lang(pat, act, false)
    ensures PlainText(pat) <= act
  {
  }

  /** A string of the language contains both texts. */
  lemma TextsOccur(pat: Pattern, act: string)
    requires OneWild(pat) && Lang(pat, act, false) && NoUserDirIn(act)
    ensures NoUserDirIn(PlainText(pat)) && NoUserDirIn(WildText(pat))
  {
    hide IsUserDir, Match;
    var h, t, last := PlainText(pat), WildText(pat), [Segment(true, WildText(pat))];
    PlainTextIsInFront(pat, act);
    var y := act[|h|..];
    assert act == h + y;
    SuffixHasNoUserDir(act, 0);
    assert act[0..] == act;
    PlainTextIsTaken(pat, y);
    var k :| WildEndsAt(last, y, k, false);
    SuffixHasNoUserDir(act, |h|);
    PartHasNoUserDir(y, t, k);
    assert OccursAt(act, h, 0);
    PartHasNoUserDir(act, h, 0);
  }

  ghost predicate FindsAllFiles(pat: Pattern) {
    forall act :: NoUserDirIn(act) && Lang(pat, act, false) ==> Match(pat, act).Some?
  }

  /** A last text that overlaps itself makes the matcher miss a string. */
  lemma OverlapIsMissed(pat: Pattern, b: nat) returns (act: string)
    requires OneWild(pat) && IsBorder(WildText(pat), b)
    requires NoUserDirIn(PlainText(pat)) && NoUserDirIn(WildText(pat))
    ensures NoUserDirIn(act) && Lang(pat, act, false) && Match(pat, act).None?
  {
    var h, t := PlainText(pat), WildText(pat);
    act := h + Shifted(t, b);
    ShiftHasNoUserDir(h, t, b);
    SuffixHasNoUserDir(act, 0);
    assert act[0..] == act;
    ShiftedIsInLang(t, b);
    ShiftedIsMissed(t, b);
    PlainTextIsTaken(pat, Shifted(t, b));
  }

  /**
   For a pattern with one wildcard the condition is exact: the matcher finds all strings of the
   language exactly if the text behind the wildcard does not overlap itself, or only user
   directories match anyway.
   */
  lemma CompleteIffBorderless(pat: Pattern)
    requires OneWild(pat)
    ensures FindsAllFiles(pat) <==>
      Borderless(WildText(pat)) || !NoUserDirIn(PlainText(pat)) || !NoUserDirIn(WildText(pat))
  {
    var t := WildText(pat);
    if Borderless(t) || !NoUserDirIn(PlainText(pat)) || !NoUserDirIn(t) {
      forall act | NoUserDirIn(act) && Lang(pat, act, false) ensures Match(pat, act).Some? {
        TextsOccur(pat, act);
        MatchIsCompleteForFiles(pat, act);
      }
    } else {
      var b :| 0 < b < |t| && IsBorder(t, b);
      var act := OverlapIsMissed(pat, b);
    }
  }

  // ---- With more wildcards an overlap can be harmless ----

  const HARMLESS := [Segment(true, "ab"), Segment(true, "aba")]

  /** The last place in front of e at which "ab" stands; k is one of them. */
  lemma {:induction false} LastPair(act: string, k: nat, e: nat) returns (m: nat)
    requires OccursAt(act, "ab", k) && k + 2 <= e <= |act|
    ensures OccursAt(act, "ab", m) && m + 2 <= e && forall j :: m < j <= e - 2 ==> !OccursAt(act, "ab", j)
    decreases e - k
  {
    if exists j :: k < j <= e - 2 && OccursAt(act, "ab", j) {
      var j :| k < j <= e - 2 && OccursAt(act, "ab", j);
      m := LastPair(act, j, e);
    } else {
      m := k;
    }
  }

  /** An earlier "aba" begins with an "ab", and cannot stand just before the final one. */
  lemma EarlierHasPair(act: string, j: int, e: int)
    requires OccursAt(act, "aba", j) && OccursAt(act, "aba", e) && j < e
    ensures OccursAt(act, "ab", j) && j <= e - 2
  {
    assert OccursAt("aba", "ab", 0);
    PartOfPart(act, "aba", j, "ab", 0);
    assert act[j..j + 3][1] == act[j + 1] && act[e..e + 3][0] == act[e];
  }

  /** Behind the last "ab" in front of it the final "aba" is the first. */
  lemma FinalIsFirst(act: string, m: nat, e: nat)
    requires m + 2 <= e && e + 3 == |act| && OccursAt(act, "aba", e)
    requires forall j :: m < j <= e - 2 ==> !OccursAt(act, "ab", j)
    ensures Match([Segment(true, "aba")], act[m + 2..]).Some? || IsUserDir(act[m + 2..])
  {
    hide Match, IsUserDir;
    var rest, c := act[m + 2..], e - (m + 2);
    forall i | 0 <= i < c ensures !OccursAt(rest, "aba", i) {
      if OccursAt(rest, "aba", i) {
        OccursInSuffix(act, "aba", m + 2, i);
        EarlierHasPair(act, m + 2 + i, e);
      }
    }
    assert rest[c..c + 3] == act[e..e + 3];
    FoundAtEnd(rest, c);
  }

  lemma FoundAtEnd(rest: string, c: nat)
    requires OccursAt(rest, "aba", c) && c + 3 == |rest| && forall i :: 0 <= i < c ==> !OccursAt(rest, "aba", i)
    ensures Match([Segment(true, "aba")], rest).Some? || IsUserDir(rest)
  {
    hide IsUserDir;
    var pat := [Segment(true, "aba")];
    assert Find(rest, pat[0].text) == c;
    assert rest[c + |pat[0].text|..] == "" && pat[1..] == [];
    assert Match(pat[1..], "").Some?;
    assert Search(pat, rest, c).Some?;
  }

  /** Where the final "aba" stands, and an "ab" before it. */
  lemma HarmlessParts(act: string) returns (k: nat, e: nat)
    requires Lang(HARMLESS, act, false)
    ensures OccursAt(act, "ab", k) && k + 2 <= e && e + 3 == |act| && OccursAt(act, "aba", e)
  {
    var last := [Segment(true, "aba")];
    assert HARMLESS[1..] == last;
    k :| WildEndsAt(HARMLESS, act, k, false);
    var rest := act[k + 2..];
    assert Lang(last, rest, false);
    var i := LastAba(rest);
    hide Lang;
    e := k + 2 + i;
    assert act[e..e + 3] == rest[i..i + 3];
  }

  lemma LastAba(rest: string) returns (i: nat)
    requires Lang([Segment(true, "aba")], rest, false)
    ensures i + 3 == |rest| && OccursAt(rest, "aba", i)
  {
    var last := [Segment(true, "aba")];
    assert last[1..] == [];
    i :| WildEndsAt(last, rest, i, false);
    assert rest[i + 3..] == "";
  }

  lemma AbIsBorderless()
    ensures Borderless("ab")
  {
    assert "ab"[..1][0] != "ab"[1..][0] && !IsBorder("ab", 1);
  }

  lemma HarmlessFound(act: string, m: nat)
    requires OccursAt(act, "ab", m) && Match([Segment(true, "aba")], act[m + 2..]).Some? && !IsUserDir(act)
    ensures Match(HARMLESS, act).Some?
  {
    var pat := HARMLESS;
    assert pat[1..] == [Segment(true, "aba")] && pat[0].text == "ab";
    AbIsBorderless();
    hide Match, IsUserDir, Search, Borderless, OccursAt, Find;
    WildIsSearched(pat, act);
    SearchFindsAll(pat, act, Find(act, "ab"), m);
  }

  lemma HarmlessMatches(act: string)
    requires NoUserDirIn(act) && Lang(HARMLESS, act, false)
    ensures Match(HARMLESS, act).Some?
  {
    hide Match, IsUserDir, Lang;
    var k, e := HarmlessParts(act);
    var m := LastPair(act, k, e);
    SuffixHasNoUserDir(act, m + 2);
    FinalIsFirst(act, m, e);
    SuffixHasNoUserDir(act, 0);
    assert act[0..] == act;
    HarmlessFound(act, m);
  }

  lemma WildIsSearched(pat: Pattern, act: string)
    requires pat != [] && pat[0].wild && pat[0].text != "" && !IsUserDir(act)
    ensures Match(pat, act) == Search(pat, act, Find(act, pat[0].text))
  {
    hide IsUserDir, Search, Find;
  }

  /** The last text of *ab*aba overlaps itself, and the matcher misses nothing all the same. */
  lemma OverlapCanBeHarmless()
    ensures IsBorder(HARMLESS[1].text, 1) && FindsAllFiles(HARMLESS)
  {
    hide Lang, Match, NoUserDirIn;
    forall act | NoUserDirIn(act) && Lang(HARMLESS, act, false) ensures Match(HARMLESS, act).Some? {
      HarmlessMatches(act);
    }
  }
}
