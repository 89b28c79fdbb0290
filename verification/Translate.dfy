/**
 Translating a request path by the rules of the configuration file. Every matching rule
 rewrites the path; the first one that stops decides. An Exec rule splits the path into a
 script and its PATH_INFO, which is then translated by the same rules in a dry run.
 */
module Translate {
  import opened Text
  import opened Wildcard

  datatype Op = Map | Pass | Fail | Invalid | Exec | Redirect | Moved | Protect | DefProt | UseProxy

  /** An empty equivalent means that there is none. */
  datatype Rule = Rule(op: Op, pat: Pattern, eqv: Pattern)

  datatype Reason = NoReason | ByRule | InvalidRedirect | OkRedirect | OkMoved | InvalidUser

  /** What is known from the configuration and the request line. */
  datatype Config = Config(
    rules: seq<Rule>,
    userDirs: bool,                             // user-supported directories are on
    unwrap: string -> string,                   // takes "file:" away
    userDir: string -> Option<string>,          // the home directory of a user
    arg: string)                                // the request argument with its query

  /** What translation sets. */
  datatype Request = Request(
    translated: Option<string>, script: Option<string>, pathInfo: Option<string>, pathTrans: Option<string>,
    location: Option<string>, reason: Reason)

  // ---- Rewriting ----

  function Rewritten(r: Rule, path: string): Option<string> { MatchPattern(r.pat, r.eqv, path) }

  /** The path after all matching rules have rewritten it. */
  function PathAfter(rules: seq<Rule>, path: string): string {
    if rules == [] then path
    else PathAfter(rules[1..], match Rewritten(rules[0], path) case None => path case Some(p) => p)
  }

  /** In a dry run only these rules do more than rewrite. */
  predicate Acts(op: Op, dry: bool) { !dry || op == Map || op == Pass || op == Fail }

  /** Does a matching rule end the translation? Fail spares user directories. */
  predicate Stops(op: Op, path: string, dry: bool) {
    Acts(op, dry) && match op
      case Exec => true
      case Redirect => true
      case Moved => true
      case Pass => true
      case Fail => !IsUserDir(path)
      case Invalid => !IsUserDir(path)
      case _ => false
  }

  /** The first rule that matches and stops; the number of rules if there is none. */
  function Firing(rules: seq<Rule>, path: string, dry: bool): (k: nat)
    ensures k <= |rules|
  {
    if rules == [] then 0
    else match Rewritten(rules[0], path)
      case None => 1 + Firing(rules[1..], path, dry)
      case Some(p) => if Stops(rules[0].op, p, dry) then 0 else 1 + Firing(rules[1..], p, dry)
  }

  lemma {:induction false} FiringRuleMatches(rules: seq<Rule>, path: string, dry: bool)
    requires Firing(rules, path, dry) < |rules|
    ensures var k := Firing(rules, path, dry);
      var p := Rewritten(rules[k], PathAfter(rules[..k], path));
      p.Some? && Stops(rules[k].op, p.value, dry)
  {
    var k := Firing(rules, path, dry);
    if k == 0 {
    } else {
      var p := match Rewritten(rules[0], path) case None => path case Some(p) => p;
      FiringRuleMatches(rules[1..], p, dry);
      assert rules[..k][1..] == rules[1..][..k - 1];
    }
  }

  // ---- Splitting a script path ----

  /** The pattern that tells where the script name ends. */
  function ScriptPattern(r: Rule): Pattern { if r.eqv != [] then r.eqv else r.pat }

  /** A rewritten path begins with the plain text its pattern begins with. */
  lemma WildIsInPath(r: Rule, path: string)
    requires Rewritten(r, path).Some?
    ensures var w := FirstWild(ScriptPattern(r), Rewritten(r, path).value);
      w.Some? ==> w.value <= |Rewritten(r, path).value|
  {
    var pat := ScriptPattern(r);
    if pat != [] && !pat[0].wild {
      if r.eqv != [] {
        assert Replace(r.eqv, Match(r.pat, path).value)[..|pat[0].text|] == pat[0].text;
      } else {
        assert pat[0].text <= path;
      }
    }
  }

  /** The first slash at or behind what the first wildcard stands for; the whole length if there is none. */
  function Cut(r: Rule, path: string): (cut: nat)
    requires Rewritten(r, path).Some?
    ensures cut <= |Rewritten(r, path).value|
  {
    var p := Rewritten(r, path).value;
    WildIsInPath(r, path);
    match FirstWild(ScriptPattern(r), p)
    case None => |p|
    case Some(w) => w + IndexOf(p[w..], '/')
  }

  // ---- Outcomes ----

  /** The query of a request argument, with its question mark. */
  function Query(arg: string): string { arg[IndexOf(arg, '?')..] }

  /** A path that passes; a user directory is looked up, or sent back for its slash. */
  function Accepted(c: Config, path: string, dry: bool, rq: Request): (bool, Request) {
    var p := c.unwrap(path);
    if c.userDirs && "/~" <= p then
      if IndexOf(p[2..], '/') == |p[2..]| then
        (true, rq.(location := Some(c.arg[..IndexOf(c.arg, '?')] + "/" + Query(c.arg)), reason := OkRedirect))
      else match c.userDir(p)
        case None => (false, rq.(reason := InvalidUser))
        case Some(d) => (true, Placed(d, dry, rq))
    else
      (true, Placed(p, dry, rq))
  }

  function Placed(path: string, dry: bool, rq: Request): Request {
    if dry then rq.(pathTrans := Some(path)) else rq.(translated := Some(path))
  }

  function Outcome(c: Config, path: string, dry: bool, rq: Request): (bool, Request)
    decreases !dry, 1
  {
    var k := Firing(c.rules, path, dry);
    if k == |c.rules| then
      var p := PathAfter(c.rules, path);
      if IsUserDir(p) then Accepted(c, p, dry, rq) else (false, rq.(translated := None, reason := ByRule))
    else
      FiringRuleMatches(c.rules, path, dry);
      Fired(c, c.rules[k], PathAfter(c.rules[..k], path), dry, rq)
  }

  /** What the rule does that ends the translation. */
  function Fired(c: Config, r: Rule, path: string, dry: bool, rq: Request): (bool, Request)
    requires Rewritten(r, path).Some? && Stops(r.op, Rewritten(r, path).value, dry)
    decreases !dry, 0
  {
    var p := Rewritten(r, path).value;
    match r.op
    case Pass => Accepted(c, p, dry, rq)
    case Exec =>
      var cut := Cut(r, path);
      if cut == |p| then (true, rq.(script := Some(p), pathInfo := None, pathTrans := None))
      else
        (true, Outcome(c, p[cut..], true, rq.(script := Some(p[..cut]), pathInfo := Some(p[cut..]))).1)
    case Redirect => Redirected(c, r, p, OkRedirect, rq)
    case Moved => Redirected(c, r, p, OkMoved, rq)
    case _ => (false, rq.(reason := ByRule))
  }

  function Redirected(c: Config, r: Rule, path: string, reason: Reason, rq: Request): (bool, Request) {
    if r.eqv == [] then (false, rq.(reason := InvalidRedirect))
    else (true, rq.(location := Some(path + Query(c.arg)), reason := reason))
  }

  /** A dry run leaves the script and its PATH_INFO alone, and sets no translated name. */
  lemma DryRunOnlyTranslates(c: Config, path: string, rq: Request)
    ensures var rq' := Outcome(c, path, true, rq).1;
      && rq'.script == rq.script && rq'.pathInfo == rq.pathInfo
      && (rq'.translated == rq.translated || rq'.translated == None)
  {
    var k := Firing(c.rules, path, true);
    if k < |c.rules| {
      FiringRuleMatches(c.rules, path, true);
    }
  }

  /** Does the path name something in a user directory, the directory itself without a slash included? */
  predicate InUserDir(c: Config, path: string) { c.userDirs && "/~" <= c.unwrap(path) }

  /** The path of a request argument, without its query. */
  function PathPart(arg: string): string { arg[..IndexOf(arg, '?')] }

  lemma {:induction false} PathPartIs(p: string, q: string)
    requires '?' !in p && (q == "" || q[0] == '?')
    ensures IndexOf(p + q, '?') == |p| && PathPart(p + q) == p && Query(p + q) == q
  {
    if p == "" {
      assert p + q == q;
    } else {
      assert (p + q)[1..] == p[1..] + q;
      PathPartIs(p[1..], q);
    }
  }

  /** The address a client is sent back to is its own, with a slash behind the path and the same query. */
  lemma SlashAddressIsSame(arg: string)
    ensures var location := PathPart(arg) + "/" + Query(arg);
      PathPart(location) == PathPart(arg) + "/" && Query(location) == Query(arg)
  {
    PathPartIs(PathPart(arg) + "/", Query(arg));
  }

  /** The client is sent to its own address with a slash behind the path, and nothing else is set. */
  ghost predicate IsSlashRedirect(arg: string, before: Request, after: Request) {
    && after == before.(location := after.location, reason := OkRedirect) && after.location.Some?
    && PathPart(after.location.value) == PathPart(arg) + "/" && Query(after.location.value) == Query(arg)
  }

  /**
   A path that passes is either placed, and then nothing else is decided; or nothing is placed
   and the client is sent to its own address with a slash added, only for a user directory
   that lacks it; or it is refused, only for a user who has no directory.
   */
  lemma AcceptedMeaning(c: Config, path: string, dry: bool, rq: Request)
    ensures var (ok, r) := Accepted(c, path, dry, rq);
      var p := c.unwrap(path);
      && (!ok ==> InUserDir(c, path) && c.userDir(p).None? && r == rq.(reason := InvalidUser))
      && (ok ==>
            || (r == Placed(p, dry, rq) && !InUserDir(c, path))
            || (InUserDir(c, path) && '/' in p[2..] && c.userDir(p).Some? && r == Placed(c.userDir(p).value, dry, rq))
            || (InUserDir(c, path) && '/' !in p[2..] && IsSlashRedirect(c.arg, rq, r)))
  {
    var p := c.unwrap(path);
    SlashAddressIsSame(c.arg);
    if InUserDir(c, path) {
      var n := IndexOf(p[2..], '/');
      if n == |p[2..]| {
        assert p[2..][..n] == p[2..];
      } else {
        assert p[2..][n] == '/';
      }
    }
  }

  /** Once the slash is there the client is not sent back for it again. */
  lemma SlashIsAddedOnce(c: Config, path: string, again: string, dry: bool, rq: Request)
    requires c.unwrap(again) == c.unwrap(path) + "/"
    ensures Accepted(c, again, dry, rq).1.location == rq.location
  {
    var p := c.unwrap(again);
    if InUserDir(c, again) {
      assert p[|p| - 1] == '/';
      assert p[2..][|p| - 3] == '/';
    }
  }

  const FRESH := Request(None, None, None, None, None, NoReason)

  /** Is there something to answer the request with: a file, a script or another address? */
  predicate Answers(rq: Request) { rq.translated.Some? || rq.script.Some? || rq.location.Some? }

  /** A dry run tells of a redirection exactly when it sets an address. */
  lemma DryRunRedirects(c: Config, path: string, rq: Request)
    requires rq.location.None? && rq.reason.NoReason? && rq.translated.None?
    ensures var r := Outcome(c, path, true, rq).1;
      && r.translated.None? && r.script == rq.script && (r.location.Some? <==> r.reason.OkRedirect?)
      && !r.reason.OkMoved?
  {
    var k := Firing(c.rules, path, true);
    if k < |c.rules| {
      FiringRuleMatches(c.rules, path, true);
    }
  }

  /**
   Translation succeeds exactly if there is something to answer with. A file excludes the
   other two; and an address is given exactly if the reason is one of the redirections, be it
   for the path itself or for the PATH_INFO of a script.
   */
  lemma SucceedsIffAnswered(c: Config, path: string)
    ensures var (ok, r) := Outcome(c, path, false, FRESH);
      && (ok <==> Answers(r))
      && (r.translated.Some? ==> r.script.None? && r.location.None? && r.reason.NoReason?)
      && (r.location.Some? <==> r.reason.OkRedirect? || r.reason.OkMoved?)
      && (r.pathInfo.Some? || r.pathTrans.Some? ==> r.script.Some?)
  {
    var k := Firing(c.rules, path, false);
    if k < |c.rules| {
      FiringRuleMatches(c.rules, path, false);
      FiredAnswers(c, c.rules[k], PathAfter(c.rules[..k], path));
    }
  }

  lemma FiredAnswers(c: Config, r: Rule, path: string)
    requires Rewritten(r, path).Some? && Stops(r.op, Rewritten(r, path).value, false)
    ensures var (ok, rq) := Fired(c, r, path, false, FRESH);
      && (ok <==> Answers(rq))
      && (rq.translated.Some? ==> rq.script.None? && rq.location.None? && rq.reason.NoReason?)
      && (rq.location.Some? <==> rq.reason.OkRedirect? || rq.reason.OkMoved?)
      && (rq.pathInfo.Some? || rq.pathTrans.Some? ==> rq.script.Some?)
  {
    var p, cut := Rewritten(r, path).value, Cut(r, path);
    if r.op == Exec && cut < |p| {
      DryRunRedirects(c, p[cut..], FRESH.(script := Some(p[..cut]), pathInfo := Some(p[cut..])));
    }
  }

  lemma CutIsFirstSlash(r: Rule, path: string)
    requires Rewritten(r, path).Some?
    ensures var p := Rewritten(r, path).value;
      var w, cut := FirstWild(ScriptPattern(r), p), Cut(r, path);
      && (cut == |p| <==> w.None? || (w.value <= |p| && '/' !in p[w.value..]))
      && (cut < |p| ==> w.Some? && w.value <= cut && p[cut] == '/' && '/' !in p[w.value..cut])
  {
    var p, cut := Rewritten(r, path).value, Cut(r, path);
    WildIsInPath(r, path);
    if FirstWild(ScriptPattern(r), p).Some? {
      var w := FirstWild(ScriptPattern(r), p).value;
      assert p[w..][..cut - w] == p[w..cut];
      if cut < |p| {
        assert p[w..][cut - w] == p[cut];
      }
    }
  }

  /** What an Exec rule makes of the path it has rewritten to p. */
  ghost predicate IsSplit(p: string, w: Option<nat>, rq: Request) {
    && rq.script.Some?
    && (rq.pathInfo.None? <==> w.None? || (w.value <= |p| && '/' !in p[w.value..]))
    && (rq.pathInfo.None? ==> rq.script.value == p && rq.pathTrans.None?)
    && (rq.pathInfo.Some? ==>
          var n := |rq.script.value|;
          && rq.script.value + rq.pathInfo.value == p
          && w.Some? && w.value <= n < |p| && p[n] == '/' && '/' !in p[w.value..n])
  }

  lemma ScriptIsSplit(c: Config, r: Rule, path: string, rq: Request)
    requires r.op == Exec && Rewritten(r, path).Some?
    ensures var p := Rewritten(r, path).value;
      var (ok, rq') := Fired(c, r, path, false, rq);
      ok && IsSplit(p, FirstWild(ScriptPattern(r), p), rq')
  {
    hide Cut, Rewritten, Outcome, FirstWild, PathAfter, Firing;
    var p, cut := Rewritten(r, path).value, Cut(r, path);
    CutIsFirstSlash(r, path);
    if cut < |p| {
      DryRunOnlyTranslates(c, p[cut..], rq.(script := Some(p[..cut]), pathInfo := Some(p[cut..])));
    }
  }

  /**
   When an Exec rule decides, the script followed by its PATH_INFO is exactly the rewritten
   path; PATH_INFO begins with the first slash at or behind the first wildcard, and there is
   none exactly if there is no such slash.
   */
  lemma ExecLosesNothing(c: Config, path: string, rq: Request)
    requires var k := Firing(c.rules, path, false); k < |c.rules| && c.rules[k].op == Exec
    ensures var k := Firing(c.rules, path, false);
      var p := PathAfter(c.rules[..k + 1], path);
      var (ok, rq') := Outcome(c, path, false, rq);
      ok && IsSplit(p, FirstWild(ScriptPattern(c.rules[k]), p), rq')
  {
    var k := Firing(c.rules, path, false);
    FiringRuleMatches(c.rules, path, false);
    PathAfterOneMore(c.rules, path, k);
    ScriptIsSplit(c, c.rules[k], PathAfter(c.rules[..k], path), rq);
  }

  lemma {:induction false} PathAfterOneMore(rules: seq<Rule>, path: string, i: nat)
    requires i < |rules|
    ensures PathAfter(rules[..i + 1], path) ==
      match Rewritten(rules[i], PathAfter(rules[..i], path))
        case None => PathAfter(rules[..i], path)
        case Some(p) => p
  {
    assert rules[..i + 1][1..] == rules[1..][..i];
    if i == 0 {
    } else {
      assert rules[..i][1..] == rules[1..][..i - 1];
      PathAfterOneMore(rules[1..], match Rewritten(rules[0], path) case None => path case Some(p) => p, i - 1);
    }
  }

  lemma FiringFrom(rules: seq<Rule>, i: nat, start: string, current: string, dry: bool)
    requires i < |rules| && current == PathAfter(rules[..i], start)
    requires Firing(rules, start, dry) == i + Firing(rules[i..], current, dry)
    ensures match Rewritten(rules[i], current)
      case None => Firing(rules, start, dry) == i + 1 + Firing(rules[i + 1..], current, dry)
      case Some(p) =>
        if Stops(rules[i].op, p, dry) then Firing(rules, start, dry) == i
        else Firing(rules, start, dry) == i + 1 + Firing(rules[i + 1..], p, dry)
    ensures PathAfter(rules[..i + 1], start) ==
      match Rewritten(rules[i], current) case None => current case Some(p) => p
  {
    assert rules[i..][0] == rules[i] && rules[i..][1..] == rules[i + 1..];
    PathAfterOneMore(rules, start, i);
  }

  // ---- The loop over the rules ----

  /** The globals of a request, and the flag that tells the inner translation from the outer. */
  class Translator {
    const c: Config
    var dry: bool
    var reqArgPath: Option<string>
    var rq: Request

    constructor (c: Config, reqArgPath: Option<string>)
      ensures this.c == c && !dry && this.reqArgPath == reqArgPath
      ensures rq == Request(None, None, None, None, None, NoReason)
    {
      this.c := c;
      this.reqArgPath := reqArgPath;
      dry := false;
      rq := Request(None, None, None, None, None, NoReason);
    }

    method TranslateReq() returns (ok: bool)
      requires dry ==> rq.pathInfo.Some? && reqArgPath.Some?
      modifies `dry, `rq
      ensures dry == old(dry)
      ensures reqArgPath.None? ==> !ok && rq == old(rq).(reason := ByRule)
      ensures reqArgPath.Some? ==>
        (ok, rq) == Outcome(c, if dry then old(rq).pathInfo.value else reqArgPath.value, dry, old(rq))
      decreases !dry
    {
      if reqArgPath.None? {
        rq := rq.(reason := ByRule);
        return false;
      }
      var current := if dry then rq.pathInfo.value else reqArgPath.value;
      ghost var start := current;
      assert c.rules[0..] == c.rules && c.rules[..0] == [];
      for i := 0 to |c.rules|
        invariant dry == old(dry) && rq == old(rq)
        invariant current == PathAfter(c.rules[..i], start)
        invariant Firing(c.rules, start, dry) == i + Firing(c.rules[i..], current, dry)
      {
        FiringFrom(c.rules, i, start, current, dry);
        var r := c.rules[i];
        var mapped := Rewritten(r, current);
        if mapped.Some? {
          ghost var before := current;
          current := mapped.value;
          if Acts(r.op, dry) {
            var done;
            done, ok := Perform(r, before, current);
            if done {
              return;
            }
          }
        }
      }
      assert c.rules[..|c.rules|] == c.rules;
      if IsUserDir(current) {
        ok := Accept(current);
        return;
      }
      rq := rq.(translated := None, reason := ByRule);
      return false;
    }

    /** What a matching rule does besides rewriting. */
    method Perform(r: Rule, ghost before: string, current: string) returns (done: bool, ok: bool)
      requires reqArgPath.Some? && Acts(r.op, dry) && Rewritten(r, before) == Some(current)
      modifies `dry, `rq
      ensures dry == old(dry) && done == Stops(r.op, current, dry)
      ensures if done then (ok, rq) == Fired(c, r, before, dry, old(rq)) else rq == old(rq)
      decreases !dry, 1
    {
      done, ok := true, false;
      match r.op {
        case Exec => ok := RunScript(r, before, current);
        case Redirect => ok := SendElsewhere(r, current, OkRedirect);
        case Moved => ok := SendElsewhere(r, current, OkMoved);
        case Pass => ok := Accept(current);
        case Fail => done := Refuse(current);
        case Invalid => done := Refuse(current);
        case _ => done := false;
      }
    }

    /** User directories are not refused. */
    method Refuse(current: string) returns (done: bool)
      modifies `rq
      ensures done == !IsUserDir(current) && rq == if done then old(rq).(reason := ByRule) else old(rq)
    {
      done := !IsUserDir(current);
      if done {
        rq := rq.(reason := ByRule);
      }
    }

    /** Split off the PATH_INFO and translate it in a dry run. */
    method RunScript(r: Rule, ghost before: string, current: string) returns (ok: bool)
      requires !dry && reqArgPath.Some? && r.op == Exec && Rewritten(r, before) == Some(current)
      modifies `dry, `rq
      ensures !dry && (ok, rq) == Fired(c, r, before, false, old(rq))
      decreases true, 0
    {
      hide FirstWild, ScriptPattern, Rewritten, Outcome, IndexOf;
      WildIsInPath(r, before);
      var wild := FirstWild(ScriptPattern(r), current);
      var pathinfo := if wild.None? then |current| else wild.value + IndexOf(current[wild.value..], '/');
      if pathinfo == |current| {
        rq := rq.(script := Some(current), pathInfo := None, pathTrans := None);
        return true;
      }
      rq := rq.(script := Some(current[..pathinfo]), pathInfo := Some(current[pathinfo..]));
      dry := true;
      var _ := TranslateReq();
      dry := false;
      return true;
    }

    method SendElsewhere(r: Rule, current: string, reason: Reason) returns (ok: bool)
      modifies `rq
      ensures (ok, rq) == Redirected(c, r, current, reason, old(rq))
    {
      if r.eqv == [] {
        rq := rq.(reason := InvalidRedirect);
        return false;
      }
      rq := rq.(location := Some(current + Query(c.arg)), reason := reason);
      return true;
    }

    method Accept(path: string) returns (ok: bool)
      modifies `rq
      ensures (ok, rq) == Accepted(c, path, dry, old(rq))
    {
      var current := c.unwrap(path);
      if c.userDirs && "/~" <= current {
        if IndexOf(current[2..], '/') == |current[2..]| {
          var query := IndexOf(c.arg, '?');
          rq := rq.(location := Some(c.arg[..query] + "/" + c.arg[query..]), reason := OkRedirect);
          return true;
        }
        var mapped := c.userDir(current);
        if mapped.None? {
          rq := rq.(reason := InvalidUser);
          return false;
        }
        current := mapped.value;
      }
      rq := if dry then rq.(pathTrans := Some(current)) else rq.(translated := Some(current));
      return true;
    }
  }
}
