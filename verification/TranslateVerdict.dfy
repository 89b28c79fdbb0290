/**
 What a request is answered with, in terms of the paths that the rules of the configuration
 make of its path one after the other.
 */
module TranslateVerdict {
  import opened Text
  import opened Wildcard
  import opened WildcardVerdict
  import opened Translate

  /** The path in front of each rule, and behind the last: a rule that matches rewrites it. */
  predicate IsTrail(rules: seq<Rule>, trail: seq<string>) {
    && |trail| == |rules| + 1
    && forall i :: 0 <= i < |rules| ==> trail[i + 1] == Next(rules[i], trail[i])
  }

  function Next(r: Rule, path: string): string {
    match MatchPattern(r.pat, r.eqv, path) case None => path case Some(p) => p
  }

  predicate Matches(r: Rule, path: string) { MatchPattern(r.pat, r.eqv, path).Some? }

  /**
   Which rules end the translation once they match: of a request all but those that only rewrite,
   protect or name a proxy, and of a PATH_INFO only Pass and Fail. A refusal spares a path that leads to
   a user directory.
   */
  predicate Halts(op: Op, path: string, dry: bool) {
    || op == Pass
    || (op == Fail && !LeadsToUser(path))
    || (!dry && (op == Exec || op == Redirect || op == Moved || (op == Invalid && !LeadsToUser(path))))
  }

  /** The rule at k matches and ends the translation. */
  predicate Ends(rules: seq<Rule>, trail: seq<string>, dry: bool, k: nat)
    requires IsTrail(rules, trail) && k < |rules|
  {
    Matches(rules[k], trail[k]) && Halts(rules[k].op, trail[k + 1], dry)
  }

  /** The rule at k is the first that does. */
  predicate Decides(rules: seq<Rule>, trail: seq<string>, dry: bool, k: nat)
    requires IsTrail(rules, trail)
  {
    k < |rules| && Ends(rules, trail, dry, k) && forall j :: 0 <= j < k ==> !Ends(rules, trail, dry, j)
  }

  predicate NoneDecides(rules: seq<Rule>, trail: seq<string>, dry: bool)
    requires IsTrail(rules, trail)
  {
    forall j :: 0 <= j < |rules| ==> !Ends(rules, trail, dry, j)
  }

  /** Every path has its trail. */
  lemma TrailOf(rules: seq<Rule>, path: string) returns (trail: seq<string>)
    ensures IsTrail(rules, trail) && trail[0] == path
  {
    trail := seq(|rules| + 1, i requires 0 <= i < |rules| + 1 => PathAfter(rules[..i], path));
    assert rules[..0] == [];
    forall i | 0 <= i < |rules| ensures trail[i + 1] == Next(rules[i], trail[i]) {
      PathAfterOneMore(rules, path, i);
    }
  }

  lemma HaltsIff(op: Op, path: string, dry: bool)
    ensures Stops(op, path, dry) <==> Halts(op, path, dry)
  {
    LeadsIff(path);
  }

  lemma TailOfTrail(rules: seq<Rule>, trail: seq<string>, dry: bool)
    requires rules != [] && IsTrail(rules, trail)
    ensures IsTrail(rules[1..], trail[1..])
    ensures forall j :: 0 <= j < |rules| - 1 ==>
      (Ends(rules[1..], trail[1..], dry, j) <==> Ends(rules, trail, dry, j + 1))
  {
  }

  lemma {:induction false} FirstDecides(rules: seq<Rule>, trail: seq<string>, dry: bool, k: nat)
    requires IsTrail(rules, trail) && Decides(rules, trail, dry, k)
    ensures Firing(rules, trail[0], dry) == k
    decreases |rules|
  {
    HaltsIff(rules[0].op, trail[1], dry);
    hide Halts, Stops;
    if k == 0 {
    } else {
      TailOfTrail(rules, trail, dry);
      assert !Ends(rules, trail, dry, 0);
      FirstDecides(rules[1..], trail[1..], dry, k - 1);
    }
  }

  lemma {:induction false} NoneFires(rules: seq<Rule>, trail: seq<string>, dry: bool)
    requires IsTrail(rules, trail) && NoneDecides(rules, trail, dry)
    ensures Firing(rules, trail[0], dry) == |rules|
    decreases |rules|
  {
    if rules == [] {
    } else {
      HaltsIff(rules[0].op, trail[1], dry);
      hide Halts, Stops;
      TailOfTrail(rules, trail, dry);
      assert !Ends(rules, trail, dry, 0);
      NoneFires(rules[1..], trail[1..], dry);
    }
  }

  lemma {:induction false} TrailIsPathAfter(rules: seq<Rule>, trail: seq<string>, k: nat)
    requires IsTrail(rules, trail) && k <= |rules|
    ensures PathAfter(rules[..k], trail[0]) == trail[k]
    decreases |rules|
  {
    if k == 0 {
    } else {
      TailOfTrail(rules, trail, false);
      TrailIsPathAfter(rules[1..], trail[1..], k - 1);
      assert rules[..k][1..] == rules[1..][..k - 1];
    }
  }

  // ---- A path that passes ----

  /** A text up to its first question mark, and the rest of it. */
  predicate IsQuestion(arg: string, part: string, query: string) {
    arg == part + query && '?' !in part && (query == "" || query[0] == '?')
  }

  lemma QuestionParts(arg: string)
    ensures IsQuestion(arg, PathPart(arg), Query(arg))
    ensures forall part, query :: IsQuestion(arg, part, query) ==> part == PathPart(arg) && query == Query(arg)
  {
    assert arg == PathPart(arg) + Query(arg);
    forall part, query | IsQuestion(arg, part, query) ensures part == PathPart(arg) && query == Query(arg) {
      PathPartIs(part, query);
    }
  }

  /**
   A path that passes is the answer, of a PATH_INFO its translation. If it leads to a user directory,
   the directory of that user is looked up; without a slash behind the name of the user the client is
   sent to its own address with one added in front of the query.
   */
  ghost predicate IsPassed(c: Config, path: string, dry: bool, rq: Request, ok: bool, r: Request) {
    var p := c.unwrap(path);
    if !(c.userDirs && |p| >= 2 && p[0] == '/' && p[1] == '~') then ok && IsFound(p, dry, rq, r)
    else if '/' !in p[2..] then
      ok && forall part, query :: IsQuestion(c.arg, part, query) ==>
        r == rq.(location := Some(part + "/" + query), reason := OkRedirect)
    else match c.userDir(p)
      case None => !ok && r == rq.(reason := InvalidUser)
      case Some(d) => ok && IsFound(d, dry, rq, r)
  }

  /** The file is set as the answer, and nothing else is. */
  predicate IsFound(file: string, dry: bool, rq: Request, r: Request) {
    && (dry ==> r == rq.(pathTrans := Some(file)))
    && (!dry ==> r == rq.(translated := Some(file)))
  }

  lemma AcceptedIsPassed(c: Config, path: string, dry: bool, rq: Request)
    ensures var (ok, r) := Accepted(c, path, dry, rq);
      IsPassed(c, path, dry, rq, ok, r)
  {
    var p := c.unwrap(path);
    QuestionParts(c.arg);
    assert "/~" <= p <==> |p| >= 2 && p[0] == '/' && p[1] == '~' by {
      if |p| >= 2 { assert p[..2] == [p[0], p[1]]; }
    }
    if "/~" <= p {
      var n := IndexOf(p[2..], '/');
      assert n == |p[2..]| ==> p[2..][..n] == p[2..];
      assert n < |p[2..]| ==> p[2..][n] == '/';
    }
    hide IndexOf, IsQuestion;
  }

  // ---- What the rule that decides makes of the request ----

  /** What is decided by the rule at k. */
  lemma RuleDecides(c: Config, trail: seq<string>, dry: bool, k: nat, rq: Request)
    requires IsTrail(c.rules, trail) && Decides(c.rules, trail, dry, k)
    ensures k + 1 < |trail| && Rewritten(c.rules[k], trail[k]) == Some(trail[k + 1])
    ensures Stops(c.rules[k].op, trail[k + 1], dry)
    ensures Outcome(c, trail[0], dry, rq) == Fired(c, c.rules[k], trail[k], dry, rq)
  {
    FirstDecides(c.rules, trail, dry, k);
    TrailIsPathAfter(c.rules, trail, k);
    HaltsIff(c.rules[k].op, trail[k + 1], dry);
    hide Fired, Accepted, Stops;
  }

  lemma PassPasses(c: Config, trail: seq<string>, dry: bool, k: nat, rq: Request)
    requires IsTrail(c.rules, trail) && Decides(c.rules, trail, dry, k) && c.rules[k].op == Pass
    ensures var (ok, r) := Outcome(c, trail[0], dry, rq);
      IsPassed(c, trail[k + 1], dry, rq, ok, r)
  {
    hide Outcome, Accepted, IsPassed, Decides;
    RuleDecides(c, trail, dry, k, rq);
    AcceptedIsPassed(c, trail[k + 1], dry, rq);
  }

  lemma FailRefuses(c: Config, trail: seq<string>, dry: bool, k: nat, rq: Request)
    requires IsTrail(c.rules, trail) && Decides(c.rules, trail, dry, k)
    requires c.rules[k].op == Fail || c.rules[k].op == Invalid
    ensures Outcome(c, trail[0], dry, rq) == (false, rq.(reason := ByRule))
  {
    hide Outcome, Accepted, Decides, IsTrail;
    RuleDecides(c, trail, dry, k, rq);
  }

  /** The client is sent to the rewritten path with its own query, if the rule has something to rewrite it to. */
  lemma RedirectSendsElsewhere(c: Config, trail: seq<string>, k: nat, rq: Request, part: string, query: string)
    requires IsTrail(c.rules, trail) && Decides(c.rules, trail, false, k)
    requires c.rules[k].op == Redirect || c.rules[k].op == Moved
    requires IsQuestion(c.arg, part, query)
    ensures Outcome(c, trail[0], false, rq) ==
      if c.rules[k].eqv == [] then (false, rq.(reason := InvalidRedirect))
      else (true, rq.(location := Some(trail[k + 1] + query),
                      reason := if c.rules[k].op == Moved then OkMoved else OkRedirect))
  {
    hide Outcome, Accepted, Decides, IsTrail, IsQuestion;
    RuleDecides(c, trail, false, k, rq);
    QuestionParts(c.arg);
  }

  /** Without a rule that decides only a user directory passes. */
  lemma DefaultFails(c: Config, trail: seq<string>, dry: bool, rq: Request)
    requires IsTrail(c.rules, trail) && NoneDecides(c.rules, trail, dry)
    ensures var (ok, r) := Outcome(c, trail[0], dry, rq);
      var path := trail[|c.rules|];
      if LeadsToUser(path) then IsPassed(c, path, dry, rq, ok, r)
      else !ok && r == rq.(translated := None, reason := ByRule)
  {
    NoneFires(c.rules, trail, dry);
    TrailIsPathAfter(c.rules, trail, |c.rules|);
    assert c.rules[..|c.rules|] == c.rules;
    LeadsIff(trail[|c.rules|]);
    AcceptedIsPassed(c, trail[|c.rules|], dry, rq);
    hide Accepted, IsPassed, Fired, NoneDecides, IsTrail;
  }

  // ---- Scripts ----

  lemma ScriptIsRun(c: Config, rule: Rule, path: string, rq: Request)
    requires rule.op == Exec && Rewritten(rule, path).Some?
    ensures var (ok, r) := Fired(c, rule, path, false, rq);
      && ok
      && (r.pathInfo.None? ==> r == rq.(script := Rewritten(rule, path), pathInfo := None, pathTrans := None))
      && (r.pathInfo.Some? ==>
            && r.script.Some? && Some(r.script.value + r.pathInfo.value) == Rewritten(rule, path)
            && r == Outcome(c, r.pathInfo.value, true, rq.(script := r.script, pathInfo := r.pathInfo)).1)
  {
    hide Cut, Outcome, Rewritten;
    var p, cut := Rewritten(rule, path).value, Cut(rule, path);
    if cut < |p| {
      assert p == p[..cut] + p[cut..];
      DryRunOnlyTranslates(c, p[cut..], rq.(script := Some(p[..cut]), pathInfo := Some(p[cut..])));
    }
  }

  /**
   A script without a PATH_INFO is all there is. A PATH_INFO is translated in turn; whether that
   succeeds makes no difference to the request.
   */
  lemma ExecRunsScript(c: Config, trail: seq<string>, k: nat, rq: Request)
    requires IsTrail(c.rules, trail) && Decides(c.rules, trail, false, k) && c.rules[k].op == Exec
    ensures var (ok, r) := Outcome(c, trail[0], false, rq);
      && ok
      && (r.pathInfo.None? ==> r == rq.(script := Some(trail[k + 1]), pathInfo := None, pathTrans := None))
      && (r.pathInfo.Some? ==>
            && r.script.Some? && r.script.value + r.pathInfo.value == trail[k + 1]
            && r == Outcome(c, r.pathInfo.value, true, rq.(script := r.script, pathInfo := r.pathInfo)).1)
  {
    hide Fired, Outcome, Decides, Stops, Rewritten;
    RuleDecides(c, trail, false, k, rq);
    ScriptIsRun(c, c.rules[k], trail[k], rq);
  }

  /** The text before the only star of a pattern: of that which is mapped to, if there is one. */
  ghost predicate IsHead(r: Rule, head: string) {
    IsPlain(head) && Parse(head + "*") == if r.eqv != [] then r.eqv else r.pat
  }

  /**
   Behind the text before the star of the pattern that is mapped to, or else of the pattern itself, the
   script ends with the first slash, and PATH_INFO begins there; without a slash there is no PATH_INFO.
   */
  lemma ScriptEndsAtSlash(c: Config, trail: seq<string>, k: nat, rq: Request, head: string)
    requires IsTrail(c.rules, trail) && Decides(c.rules, trail, false, k) && c.rules[k].op == Exec
    requires IsHead(c.rules[k], head)
    ensures var (ok, r) := Outcome(c, trail[0], false, rq);
      && head <= trail[k + 1] && r.script.Some?
      && (r.pathInfo.None? ==> r.script.value == trail[k + 1] && '/' !in trail[k + 1][|head|..])
      && (r.pathInfo.Some? ==>
            && r.script.value + r.pathInfo.value == trail[k + 1] && |head| <= |r.script.value|
            && r.pathInfo.value != "" && r.pathInfo.value[0] == '/'
            && '/' !in r.script.value[|head|..])
  {
    hide Fired, Outcome, Decides, Stops;
    RuleDecides(c, trail, false, k, rq);
    ScriptIsSplit(c, c.rules[k], trail[k], rq);
    HeadIsInFront(c.rules[k], trail[k], head);
  }

  lemma HeadIsInFront(r: Rule, path: string, head: string)
    requires Rewritten(r, path).Some? && IsHead(r, head)
    ensures head <= Rewritten(r, path).value
    ensures FirstWild(ScriptPattern(r), Rewritten(r, path).value) == Some(|head|)
  {
    PlainIsRead(head);
    var star := [Segment(true, "")];
    if r.eqv != [] {
      var m := Match(r.pat, path).value;
      if head == "" {
        assert r.eqv == star;
      } else {
        assert r.eqv == [Segment(false, head)] + star;
        assert Replace(r.eqv, m)[..|head|] == head;
      }
    } else if head != "" {
      assert r.pat[0] == Segment(false, head);
    }
  }

  /** A pattern without a star leaves all to the script. */
  lemma NoStarNoPathInfo(c: Config, trail: seq<string>, k: nat, rq: Request, text: string)
    requires IsTrail(c.rules, trail) && Decides(c.rules, trail, false, k) && c.rules[k].op == Exec
    requires IsPlain(text) && text != ""
    requires Parse(text) == if c.rules[k].eqv != [] then c.rules[k].eqv else c.rules[k].pat
    ensures Outcome(c, trail[0], false, rq) ==
      (true, rq.(script := Some(trail[k + 1]), pathInfo := None, pathTrans := None))
  {
    hide Fired, Outcome, Decides, Stops;
    RuleDecides(c, trail, false, k, rq);
    PlainIsRead(text);
    ScriptIsSplit(c, c.rules[k], trail[k], rq);
    hide Rewritten, IsSplit;
    ScriptIsRun(c, c.rules[k], trail[k], rq);
    assert FirstWild(Parse(text), trail[k + 1]).None?;
    AllIsScript(trail[k + 1], Fired(c, c.rules[k], trail[k], false, rq).1);
  }

  lemma AllIsScript(p: string, r: Request)
    ensures IsSplit(p, None, r) ==> r.pathInfo.None?
  {
  }

  /** The dry run with a path that passes makes this of the request. */
  ghost predicate TranslatesTo(c: Config, path: string, rq: Request, r: Request) {
    exists ok :: IsPassed(c, path, true, rq, ok, r)
  }

  /** What a PATH_INFO that passes is translated to. */
  lemma PathInfoIsTranslated(c: Config, trail: seq<string>, k: nat, rq: Request, inner: seq<string>, i: nat)
    requires IsTrail(c.rules, trail) && Decides(c.rules, trail, false, k) && c.rules[k].op == Exec
    requires IsTrail(c.rules, inner) && Decides(c.rules, inner, true, i) && c.rules[i].op == Pass
    requires Outcome(c, trail[0], false, rq).1.pathInfo == Some(inner[0])
    ensures var r := Outcome(c, trail[0], false, rq).1;
      r.script.Some? && TranslatesTo(c, inner[i + 1], rq.(script := r.script, pathInfo := r.pathInfo), r)
  {
    hide Outcome, Decides, IsPassed, Matches;
    ExecRunsScript(c, trail, k, rq);
    var r := Outcome(c, trail[0], false, rq).1;
    PassPasses(c, inner, true, i, rq.(script := r.script, pathInfo := r.pathInfo));
  }
}
