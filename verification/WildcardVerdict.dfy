/**
 What patterns mean as they are written: which strings they match, what the rule for user
 directories refuses, and where the captures go.
 */
module WildcardVerdict {
  import opened Text
  import opened Wildcard
  import opened WildcardLanguage

  // ---- Reading a pattern ----

  /** A text without a backslash is read up to its end, whatever follows. */
  lemma {:induction false} ReadUpTo(s: string, wild: bool, buf: string) returns (segs: Pattern, w: bool, b: string)
    requires '\\' !in s
    ensures forall rest :: ParseFrom(s + rest, wild, buf) == segs + ParseFrom(rest, w, b)
    ensures '*' !in s ==> segs == [] && w == wild && b == buf + s
    decreases |s|
  {
    if s == "" {
      segs, w, b := [], wild, buf;
      assert forall rest :: s + rest == rest;
      assert buf + s == buf;
    } else {
      var star := s[0] == '*';
      var head := if star && buf != "" then [Segment(wild, buf)] else [];
      var w1, b1 := wild || star, if star then "" else buf + [s[0]];
      segs, w, b := ReadUpTo(s[1..], w1, b1);
      forall rest ensures ParseFrom(s + rest, wild, buf) == (head + segs) + ParseFrom(rest, w, b) {
        assert (s + rest)[1..] == s[1..] + rest;
        ParseStep(s + rest, wild, buf);
        assert ParseFrom(s[1..] + rest, w1, b1) == segs + ParseFrom(rest, w, b);
      }
      segs := head + segs;
      assert !star ==> b1 + s[1..] == buf + s;
    }
  }

  /** Stars that stand together are one. */
  lemma StarsAreOne(s: string, t: string)
    requires '\\' !in s
    ensures Parse(s + ("**" + t)) == Parse(s + ("*" + t))
  {
    var segs, w, b := ReadUpTo(s, false, "");
    assert ("**" + t)[1..] == "*" + t && ("*" + t)[1..] == t;
    ParseStep("**" + t, w, b);
    assert ParseFrom("*" + t, true, "") == [] + ParseFrom(t, true, "") == ParseFrom(t, true, "");
  }

  /** A backslash takes a character for itself, and is nothing before one that is no star or backslash. */
  lemma QuotedIsPlain(s: string, c: char, t: string)
    requires '\\' !in s && c != '\\' && c != '*'
    ensures Parse(s + (['\\', c] + t)) == Parse(s + ([c] + t))
  {
    var segs, w, b := ReadUpTo(s, false, "");
    assert (['\\', c] + t)[2..] == t && ([c] + t)[1..] == t;
  }

  /** A backslash at the end is read as a line end. */
  lemma LastBackslashIsLineEnd(s: string)
    requires '\\' !in s
    ensures Parse(s + "\\") == Parse(s + "\n")
  {
    var segs, w, b := ReadUpTo(s, false, "");
    assert "\n"[1..] == "";
    assert ParseFrom("\n", w, b) == ParseFrom("", w, b + ['\n']);
  }

  predicate IsPlain(s: string) { '\\' !in s && '*' !in s }

  lemma PlainIsRead(h: string)
    requires IsPlain(h)
    ensures Parse(h) == if h == "" then [] else [Segment(false, h)]
    ensures Parse(h + "*") == (if h == "" then [] else [Segment(false, h)]) + [Segment(true, "")]
  {
    var segs, w, b := ReadUpTo(h, false, "");
    assert "" + h == h && h + "" == h && "*"[1..] == "";
    assert ParseFrom(h + "", false, "") == ParseFrom("", false, h);
  }

  // ---- What is matched ----

  /** A string that begins like the address of a user directory. */
  predicate LeadsToUser(s: string) {
    || (|s| >= 2 && s[0] == '/' && s[1] == '~')
    || (|s| >= 7 && s[..5] == "file:" && s[5] == '/' && s[6] == '~')
  }

  lemma LeadsIff(s: string)
    ensures IsUserDir(s) <==> LeadsToUser(s)
  {
    assert "file:/~"[..5] == "file:";
    if |s| >= 7 { assert s[..7] == s[..5] + [s[5], s[6]]; }
    if |s| >= 2 { assert s[..2] == [s[0], s[1]]; }
  }

  /** A plain text is a pattern for itself only. */
  lemma PlainMatchesItself(h: string, act: string)
    requires IsPlain(h) && h != ""
    ensures MatchPattern(Parse(h), [], act) == if act == h then Some(h) else None
  {
    PlainIsRead(h);
    var pat := Parse(h);
    assert pat[1..] == [];
    if h <= act {
      assert act == h + act[|h|..];
      assert Match(pat[1..], act[|h|..]).Some? <==> act[|h|..] == "";
    }
  }

  /**
   A star takes any text, and puts it into the star of the pattern that is mapped to; but
   not if that text leads to a user directory, nor if the string does and the text before the
   star does not.
   */
  lemma StarTakesText(h: string, g: string, act: string)
    requires IsPlain(h) && IsPlain(g)
    ensures MatchPattern(Parse(h + "*"), Parse(g + "*"), act) ==
      if h <= act && !LeadsToUser(act[|h|..]) && (LeadsToUser(act) ==> LeadsToUser(h))
      then Some(g + act[|h|..]) else None
  {
    PlainIsRead(h);
    PlainIsRead(g);
    LeadsIff(act);
    LeadsIff(h);
    LeadsIff("");
    var pat, star := Parse(h + "*"), [Segment(true, "")];
    if h <= act {
      var rest := act[|h|..];
      LeadsIff(rest);
      assert star[1..] == [] && Match(star, rest) == if LeadsToUser(rest) then None else Some([Some(rest)]);
      StarIsFilled(g, rest);
      if h == "" {
        assert pat == star && rest == act;
      } else {
        assert pat[1..] == star;
        assert Match(pat, act) == if LeadsToUser(act) && !LeadsToUser(h) then None else Match(star, rest);
      }
    } else {
      assert pat[0] == Segment(false, h);
    }
  }

  lemma StarIsFilled(g: string, y: string)
    requires IsPlain(g)
    ensures Parse(g + "*") != [] && Replace(Parse(g + "*"), [Some(y)]) == g + y
  {
    PlainIsRead(g);
    var eqv, star := Parse(g + "*"), [Segment(true, "")];
    assert star[1..] == [] && Replace(star, [Some(y)]) == y + "" + "";
    if g == "" {
      assert eqv == star;
    } else {
      assert eqv[1..] == star;
    }
  }

  /** What leads to a user directory is only matched by a pattern whose first text does so, too. */
  lemma UserDirNeedsText(pat: Pattern, act: string)
    requires LeadsToUser(act) && Match(pat, act).Some?
    ensures pat != [] && LeadsToUser(pat[0].text)
  {
    LeadsIff(act);
    if pat != [] { LeadsIff(pat[0].text); }
  }

  // ---- What is mapped to ----

  /** How many wildcards there are. */
  function Wilds(p: Pattern): (n: nat)
    ensures n <= |p|
  {
    if p == [] then 0 else Wilds(p[..|p| - 1]) + if p[|p| - 1].wild then 1 else 0
  }

  lemma {:induction false} WildsOfTail(p: Pattern)
    requires p != []
    ensures Wilds(p) == (if p[0].wild then 1 else 0) + Wilds(p[1..])
  {
    if |p| == 1 {
      assert p[..0] == [] && p[1..] == [];
    } else {
      WildsOfTail(p[..|p| - 1]);
      assert p[..|p| - 1][1..] == p[1..][..|p[1..]| - 1];
    }
  }

  /** What the segment at i becomes: a wildcard takes the capture that has its number, if there is one. */
  function Part(eqv: Pattern, m: Captures, i: nat): string
    requires i < |eqv|
  {
    var k := Wilds(eqv[..i]);
    (if eqv[i].wild && k < |m| && m[k].Some? then m[k].value else "") + eqv[i].text
  }

  function Parts(eqv: Pattern, m: Captures): seq<string> {
    seq(|eqv|, i requires 0 <= i < |eqv| => Part(eqv, m, i))
  }

  lemma PartOfTail(eqv: Pattern, m: Captures, i: nat)
    requires i + 1 < |eqv|
    ensures Part(eqv[1..], Left(eqv, m), i) == Part(eqv, m, i + 1)
  {
    WildsOfTail(eqv[..i + 1]);
    assert eqv[..i + 1][1..] == eqv[1..][..i];
  }

  function Left(eqv: Pattern, m: Captures): Captures
    requires eqv != []
  {
    if eqv[0].wild && m != [] then m[1..] else m
  }

  lemma FirstIsPut(eqv: Pattern, m: Captures)
    requires eqv != []
    ensures Replace(eqv, m) == Part(eqv, m, 0) + Replace(eqv[1..], Left(eqv, m))
  {
    assert eqv[..0] == [];
  }

  /** The replacement, position by position. */
  lemma {:induction false} ReplaceByPosition(eqv: Pattern, m: Captures)
    ensures Replace(eqv, m) == Concat(Parts(eqv, m))
    decreases |eqv|
  {
    if eqv == [] {
    } else {
      forall i | 0 <= i < |eqv[1..]| ensures Part(eqv[1..], Left(eqv, m), i) == Part(eqv, m, i + 1) {
        PartOfTail(eqv, m, i);
      }
      FirstIsPut(eqv, m);
      hide Part, Left, Replace;
      assert Parts(eqv[1..], Left(eqv, m)) == Parts(eqv, m)[1..];
      ReplaceByPosition(eqv[1..], Left(eqv, m));
    }
  }

  /** A match gives the string itself, or, with a pattern to map to, the captures in its place. */
  lemma MatchGives(pat: Pattern, eqv: Pattern, act: string)
    requires pat != []
    ensures MatchPattern(pat, eqv, act).Some? <==> Match(pat, act).Some?
    ensures MatchPattern(pat, eqv, act).Some? ==>
      MatchPattern(pat, eqv, act).value == if eqv == [] then act else Concat(Parts(eqv, Match(pat, act).value))
  {
    if Match(pat, act).Some? { ReplaceByPosition(eqv, Match(pat, act).value); }
  }
}
