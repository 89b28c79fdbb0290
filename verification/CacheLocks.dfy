/**
 What one request does to the names in the cache when nobody interferes, and that no lock file
 outlives its transfer, but for one kind of cancelled transfer.
 */
module CacheLocks {
  import opened CacheProtocol

  // ---- Every lock file has a holder ----

  ghost predicate IsHeldBy(s: State, cfn: string, p: nat) {
    Holder(s.children, p) && Get(s.children, p).cfn == cfn
  }

  ghost predicate IsHeld(s: State, cfn: string) { exists p: nat :: IsHeldBy(s, cfn, p) }

  ghost predicate LocksHaveHolders(s: State) { forall cfn :: LockOf(cfn) in s.names ==> IsHeld(s, cfn) }

  /** Who is cancelling has a cache file with the name derived from the URL. */
  ghost predicate OwnNamesAreCancelled(s: State) {
    forall p: nat :: Get(s.children, p).pc.Cancelling? ==> Get(s.children, p).cfn == Get(s.children, p).url
  }

  ghost predicate NoStrayLock(s: State) { LocksHaveHolders(s) && OwnNamesAreCancelled(s) }

  /** A transfer that is cancelled although its file has another name. */
  predicate IsStrayCancel(s: State, a: Action) {
    a.Finish? && a.end.Abandoned? && Get(s.children, a.pid).cfn != Get(s.children, a.pid).url
  }

  /** Releasing removes the lock of the child, and no other name. */
  lemma ReleaseRemovesLock(s: State, pid: nat)
    requires Get(s.children, pid).pc.Releasing?
    ensures var cfn, t := Get(s.children, pid).cfn, Apply(s, Release(pid));
      && LockOf(cfn) !in t.names && t.names == s.names - {LockOf(cfn)} && Get(t.children, pid).pc.Done?
      && (forall n :: n in s.names && n != LockOf(cfn) ==> n in t.names && t.names[n] == s.names[n])
  {
  }

  /** The children keep their locks, and so do the lock files. */
  lemma SameHolders(s: State, t: State)
    requires LocksHaveHolders(s)
    requires forall cfn :: LockOf(cfn) in t.names ==> LockOf(cfn) in s.names
    requires forall p: nat :: Holder(s.children, p) ==>
      Holder(t.children, p) && Get(t.children, p).cfn == Get(s.children, p).cfn
    ensures LocksHaveHolders(t)
  {
    forall cfn | LockOf(cfn) in t.names ensures IsHeld(t, cfn) {
      var p: nat :| IsHeldBy(s, cfn, p);
      assert IsHeldBy(t, cfn, p);
    }
  }

  /** One child gives its lock up, and the lock file is gone. */
  lemma OneHolderLess(s: State, t: State, pid: nat)
    requires LocksHaveHolders(s)
    requires forall cfn :: LockOf(cfn) in t.names ==> LockOf(cfn) in s.names && cfn != Get(s.children, pid).cfn
    requires forall p: nat :: p != pid ==> Get(t.children, p) == Get(s.children, p)
    ensures LocksHaveHolders(t)
  {
    forall cfn | LockOf(cfn) in t.names ensures IsHeld(t, cfn) {
      var p: nat :| IsHeldBy(s, cfn, p);
      assert IsHeldBy(t, cfn, p);
    }
  }

  lemma OpeningTakesLock(s: State, pid: nat)
    requires LocksHaveHolders(s) && Get(s.children, pid).pc.WantLock?
    ensures LocksHaveHolders(OpenLockFile(s, pid))
  {
    var c, t := Get(s.children, pid), OpenLockFile(s, pid);
    forall cfn | LockOf(cfn) in t.names ensures IsHeld(t, cfn) {
      if LockOf(c.cfn) !in s.names && cfn == c.cfn {
        assert IsHeldBy(t, cfn, pid);
      } else {
        var p: nat :| IsHeldBy(s, cfn, p);
        assert IsHeldBy(t, cfn, p);
      }
    }
  }

  lemma CommittingGivesLockUp(s: State, pid: nat)
    requires Inv(s) && LocksHaveHolders(s) && Get(s.children, pid).pc.Committing?
    ensures LocksHaveHolders(MoveIntoPlace(s, pid))
  {
    assert Holder(s.children, pid);
    OneHolderLess(s, MoveIntoPlace(s, pid), pid);
  }

  lemma CancellingGoesOn(s: State, pid: nat)
    requires Inv(s) && NoStrayLock(s) && Get(s.children, pid).pc.Cancelling?
    ensures LocksHaveHolders(Apply(s, StatLock(pid)))
  {
    assert Holder(s.children, pid);
    SameHolders(s, Apply(s, StatLock(pid)));
  }

  lemma UnlockingGivesLockUp(s: State, pid: nat)
    requires Inv(s) && LocksHaveHolders(s) && Get(s.children, pid).pc.Unlocking?
    ensures LocksHaveHolders(Apply(s, Unlock(pid)))
  {
    OneHolderLess(s, Apply(s, Unlock(pid)), pid);
  }

  lemma ReleasingGivesLockUp(s: State, pid: nat)
    requires LocksHaveHolders(s) && Get(s.children, pid).pc.Releasing?
    ensures LocksHaveHolders(Apply(s, Release(pid)))
  {
    ReleaseRemovesLock(s, pid);
    OneHolderLess(s, Apply(s, Release(pid)), pid);
  }

  /** The other steps neither make a lock file nor end the holding of one. */
  lemma OtherStepsKeepHolders(s: State, a: Action)
    requires EnabledAnyTime(s, a) && LocksHaveHolders(s)
    requires !a.OpenLock? && !a.Commit? && !a.StatLock? && !a.Unlock? && !a.Release? && !a.BreakLock?
    ensures LocksHaveHolders(Apply(s, a))
  {
    SameHolders(s, Apply(s, a));
  }

  lemma StepKeepsHolders(s: State, a: Action)
    requires Inv(s) && Enabled(s, a) && NoStrayLock(s)
    ensures LocksHaveHolders(Apply(s, a))
  {
    NothingIsBroken(s, a);
    hide Inv, LocksHaveHolders, Apply, LocksAreYoung;
    match a
    case OpenLock(pid) => assert Apply(s, a) == OpenLockFile(s, pid) by { Unfolds(s, a); } OpeningTakesLock(s, pid);
    case Commit(pid) => assert Apply(s, a) == MoveIntoPlace(s, pid) by { Unfolds(s, a); } CommittingGivesLockUp(s, pid);
    case StatLock(pid) => CancellingGoesOn(s, pid);
    case Unlock(pid) => UnlockingGivesLockUp(s, pid);
    case Release(pid) => ReleasingGivesLockUp(s, pid);
    case _ => OtherStepsKeepHolders(s, a);
  }

  lemma Unfolds(s: State, a: Action)
    requires EnabledAnyTime(s, a)
    ensures a.OpenLock? ==> Apply(s, a) == OpenLockFile(s, a.pid)
    ensures a.Commit? ==> Apply(s, a) == MoveIntoPlace(s, a.pid)
  {
  }

  lemma StepKeepsOwnNames(s: State, a: Action)
    requires EnabledAnyTime(s, a) && OwnNamesAreCancelled(s) && !IsStrayCancel(s, a)
    ensures OwnNamesAreCancelled(Apply(s, a))
  {
  }

  /** In the run no transfer is cancelled whose file has another name than that of the URL. */
  ghost predicate CancelsOwnNames(s: State, run: seq<Action>)
    requires IsRun(s, run)
    decreases |run|
  {
    run == [] || (!IsStrayCancel(s, run[0]) && CancelsOwnNames(Apply(s, run[0]), run[1..]))
  }

  lemma {:induction false} RunKeepsHolders(s: State, run: seq<Action>)
    requires Inv(s) && NoStrayLock(s) && IsRun(s, run) && CancelsOwnNames(s, run)
    ensures NoStrayLock(After(s, run))
    decreases |run|
  {
    hide Inv, Apply, LocksHaveHolders, OwnNamesAreCancelled, IsStrayCancel;
    if run == [] {
    } else {
      StepKeepsInv(s, run[0]);
      StepKeepsHolders(s, run[0]);
      StepKeepsOwnNames(s, run[0]);
      RunKeepsHolders(Apply(s, run[0]), run[1..]);
    }
  }

  /**
   In every run in which no transfer of a file with another name is cancelled, each lock file in place
   is held by a child that is busy with that cache file: no lock is left behind.
   */
  lemma EveryLockIsHeld(s: State, run: seq<Action>, cfn: string)
    requires Init(s) && IsRun(s, run) && CancelsOwnNames(s, run)
    ensures LockOf(cfn) in After(s, run).names <==>
      exists p: nat :: Holder(After(s, run).children, p) && Get(After(s, run).children, p).cfn == cfn
  {
    InitInv(s);
    RunKeepsHolders(s, run);
    EveryRunIsSafe(s, run);
    var t := After(s, run);
    if LockOf(cfn) in t.names {
      var p: nat :| IsHeldBy(t, cfn, p);
    }
  }

  // ---- Lock files that a child meets ----

  /**
   A child that finds no lock goes on; one that finds a lock gives up, unless the lock is older than
   the timeout: then it unlinks it, and goes on.
   */
  lemma LockDecides(s: State, pid: nat)
    requires Get(s.children, pid).pc.Checking? && LockOf(Get(s.children, pid).cfn) in s.names
    requires s.names[LockOf(Get(s.children, pid).cfn)] in s.mtime
    ensures var c, t := Get(s.children, pid), Apply(s, CheckLock(pid));
      var age := c.curTime - s.mtime[s.names[LockOf(c.cfn)]];
      && t.names == s.names && t.data == s.data
      && (age <= s.timeout ==> Get(t.children, pid) == c.(pc := Done))
      && (age > s.timeout ==>
            var u := Apply(t, BreakLock(pid));
            Get(t.children, pid).pc.Breaking? && u.names == s.names - {LockOf(c.cfn)} && u.data == s.data &&
            Get(u.children, pid) == c.(pc := Looking))
  {
  }

  lemma NoLockGoesOn(s: State, pid: nat)
    requires Get(s.children, pid).pc.Checking? && LockOf(Get(s.children, pid).cfn) !in s.names
    ensures var c, t := Get(s.children, pid), Apply(s, CheckLock(pid));
      t == s.(children := t.children) && Get(t.children, pid) == c.(pc := Looking)
  {
  }

  /** The garbage collector can start at any time; it unlinks a lock exactly if that was older than the timeout then. */
  lemma GcBreaksOldLocks(s: State, cfn: string)
    requires cfn !in s.gcBreaks && LockOf(cfn) in s.names && s.names[LockOf(cfn)] in s.mtime
    ensures var r := Apply(s, GcStart);
      var t := Apply(r, GcStatLock(cfn));
      && EnabledAnyTime(s, GcStart) && EnabledAnyTime(r, GcStatLock(cfn)) && t.names == s.names && t.data == s.data
      && (EnabledAnyTime(t, GcBreakLock(cfn)) <==> s.now - s.mtime[s.names[LockOf(cfn)]] > s.timeout)
      && (EnabledAnyTime(t, GcBreakLock(cfn)) ==>
            var u := Apply(t, GcBreakLock(cfn));
            u.names == s.names - {LockOf(cfn)} && u.data == s.data && u.gcBreaks == s.gcBreaks)
  {
  }

  /** It may unlink any other file at any time, and that is all that happens. */
  lemma GcMayUnlinkFiles(s: State, n: Name)
    requires !n.LockOf?
    ensures EnabledAnyTime(s, GcUnlink(n)) && Apply(s, GcUnlink(n)) == s.(names := s.names - {n})
  {
  }

  /** The step takes the child on. */
  ghost predicate TakesOn(s: State, pid: nat, a: Action) {
    EnabledAnyTime(s, a) && Get(Apply(s, a).children, pid) != Get(s.children, pid)
  }

  lemma CanOpen(s: State, pid: nat) returns (a: Action)
    requires Get(s.children, pid).pc in {Checking, Breaking, Looking, WantLock, BackingUp}
    ensures TakesOn(s, pid, a)
  {
    match Get(s.children, pid).pc
    case Checking => a := CheckLock(pid);
    case Breaking => a := BreakLock(pid);
    case Looking =>
      var cfn := Get(s.children, pid).cfn;
      assert |cfn + INDEX_FILE| > |cfn|;
      a := StatFile(pid, true, false);
    case WantLock => a := OpenLock(pid);
    case BackingUp => a := Backup(pid);
  }

  lemma CanClose(s: State, pid: nat) returns (a: Action)
    requires Get(s.children, pid).pc in
      {Writing, Committing, Discarding, Restoring, Releasing, Cancelling, Unlocking}
    ensures TakesOn(s, pid, a)
  {
    match Get(s.children, pid).pc
    case Writing => a := Finish(pid, Complete);
    case Committing => a := Commit(pid);
    case Discarding => a := Discard(pid);
    case Restoring => a := Restore(pid);
    case Releasing => a := Release(pid);
    case Cancelling => a := StatLock(pid);
    case Unlocking => a := Unlock(pid);
  }

  /** A child that is not done can always take a step, whatever the others do. */
  lemma NobodyIsStuck(s: State, pid: nat) returns (a: Action)
    requires !Get(s.children, pid).pc.Done?
    ensures TakesOn(s, pid, a)
  {
    hide TakesOn;
    if Get(s.children, pid).pc in {Checking, Breaking, Looking, WantLock, BackingUp} {
      a := CanOpen(s, pid);
    } else {
      a := CanClose(s, pid);
    }
  }

  /** Looking at the cache file: a directory stands for its index file; a current file ends the request. */
  lemma LookDecides(s: State, pid: nat, current: bool, ims: bool)
    requires Get(s.children, pid).pc.Looking?
    ensures var c, t := Get(s.children, pid), Apply(s, StatFile(pid, current, ims));
      var d := Get(t.children, pid);
      && t == s.(children := t.children)
      && (c.cfn in s.dirs ==> d == c.(cfn := c.cfn + "/.cache_dirindex"))
      && (c.cfn !in s.dirs && Cached(c.cfn) in s.names && current ==> d == c.(pc := Done))
      && (c.cfn !in s.dirs && Cached(c.cfn) in s.names && !current ==>
            d == c.(pc := WantLock, refresh := true, ims := ims))
      && (c.cfn !in s.dirs && Cached(c.cfn) !in s.names ==> d == c.(pc := WantLock, refresh := false, ims := false))
  {
  }

  /** The lock of another child is not taken. */
  lemma SecondOpenFails(s: State, pid: nat)
    requires Get(s.children, pid).pc.WantLock? && LockOf(Get(s.children, pid).cfn) in s.names
    ensures var t := Apply(s, OpenLock(pid));
      t == s.(children := t.children) && Get(t.children, pid).pc.Done?
  {
  }

  // ---- A request that nobody interferes with ----

  /** What a child does for a URL that is not current, from the lookup to the end of the transfer. */
  function Opening(pid: nat, url: string, refresh: bool, ims: bool, bytes: string): seq<Action> {
    [Start(pid, url, 0), CheckLock(pid), StatFile(pid, false, ims), OpenLock(pid)] +
    (if refresh then [Backup(pid)] else []) + [Write(pid, bytes)]
  }

  function Closing(pid: nat, ims: bool, end: Ending): seq<Action> {
    match end
    case Complete => [Finish(pid, end), Commit(pid)] + (if ims then [Discard(pid)] else [])
    case NotModified => [Finish(pid, end), Restore(pid), Release(pid)]
    case Abandoned => [Finish(pid, end), StatLock(pid), Unlock(pid)]
  }

  /** The child is about to write, with the lock, and the old version is its backup. */
  ghost predicate IsOpen(s: State, t: State, pid: nat, url: string, ims: bool, bytes: string) {
    var refresh, c := Cached(url) in s.names, Get(t.children, pid);
    && t.names == (if refresh then (s.names - {Cached(url)})[BackupOf(url) := s.names[Cached(url)]] else s.names)
         [LockOf(url) := s.nextInode]
    && s.nextInode in t.data && t.data[s.nextInode] == bytes
    && (forall i :: i in s.data && i != s.nextInode ==> i in t.data && t.data[i] == s.data[i])
    && c.pc.Writing? && c.url == c.cfn == url && c.ims == (refresh && ims) && c.fd == s.nextInode && c.sent == bytes
  }

  /** The child finds no lock, and looks at the file. */
  lemma AskingAlone(s0: State, run: seq<Action>, s: State, pid: nat, url: string, ims: bool)
    returns (longer: seq<Action>, t: State)
    requires IsRun(s0, run) && After(s0, run) == s && 0 <= s.now
    requires Get(s.children, pid).pc.Done? && LockOf(url) !in s.names && url !in s.dirs
    ensures IsRun(s0, longer) && After(s0, longer) == t && t == s.(children := t.children)
    ensures longer == run + [Start(pid, url, 0), CheckLock(pid), StatFile(pid, false, ims)]
    ensures var refresh := Cached(url) in s.names;
      Get(t.children, pid) ==
        NoChild.(pc := WantLock, url := url, cfn := url, refresh := refresh, ims := refresh && ims)
  {
    hide IsRun, After;
    longer, t := Extend(s0, run, s, Start(pid, url, 0));
    longer, t := Extend(s0, longer, t, CheckLock(pid));
    longer, t := Extend(s0, longer, t, StatFile(pid, false, ims));
  }

  lemma LockingAlone(s0: State, run: seq<Action>, s: State, pid: nat) returns (longer: seq<Action>, t: State)
    requires IsRun(s0, run) && After(s0, run) == s
    requires Get(s.children, pid).pc.WantLock? && LockOf(Get(s.children, pid).cfn) !in s.names
    ensures IsRun(s0, longer) && After(s0, longer) == t && longer == run + [OpenLock(pid)]
    ensures var c := Get(s.children, pid);
      && t.names == s.names[LockOf(c.cfn) := s.nextInode] && t.data == s.data[s.nextInode := ""]
      && t.mtime == s.mtime[s.nextInode := s.now]
      && Get(t.children, pid) ==
           c.(pc := if c.refresh then BackingUp else CacheProtocol.Writing, fd := s.nextInode, sent := "")
  {
    hide IsRun, After;
    longer, t := Extend(s0, run, s, OpenLock(pid));
  }

  lemma BackingUpAlone(s0: State, run: seq<Action>, s: State, pid: nat) returns (longer: seq<Action>, t: State)
    requires IsRun(s0, run) && After(s0, run) == s
    requires Get(s.children, pid).pc.BackingUp? && Cached(Get(s.children, pid).cfn) in s.names
    ensures IsRun(s0, longer) && After(s0, longer) == t && longer == run + [Backup(pid)] && t.data == s.data
    ensures var c := Get(s.children, pid);
      && t.names == (s.names - {Cached(c.cfn)})[BackupOf(c.cfn) := s.names[Cached(c.cfn)]]
      && Get(t.children, pid) == c.(pc := CacheProtocol.Writing)
  {
    hide IsRun, After;
    longer, t := Extend(s0, run, s, Backup(pid));
  }

  lemma WritingAlone(s0: State, run: seq<Action>, s: State, pid: nat, bytes: string)
    returns (longer: seq<Action>, t: State)
    requires IsRun(s0, run) && After(s0, run) == s
    requires Get(s.children, pid).pc.Writing? && Get(s.children, pid).sent == ""
    requires var fd := Get(s.children, pid).fd; fd in s.data && s.data[fd] == ""
    ensures IsRun(s0, longer) && After(s0, longer) == t && longer == run + [Write(pid, bytes)] && t.names == s.names
    ensures var c := Get(s.children, pid);
      t.data == s.data[c.fd := bytes] && t.mtime == s.mtime[c.fd := s.now] && Get(t.children, pid) == c.(sent := bytes)
  {
    hide IsRun, After;
    longer, t := Extend(s0, run, s, Write(pid, bytes));
    assert "" + bytes == bytes;
  }

  lemma OpeningAlone(s0: State, run: seq<Action>, s: State, pid: nat, url: string, ims: bool, bytes: string)
    returns (longer: seq<Action>, t: State)
    requires IsRun(s0, run) && After(s0, run) == s && 0 <= s.now
    requires Get(s.children, pid).pc.Done? && LockOf(url) !in s.names && url !in s.dirs
    ensures IsRun(s0, longer) && After(s0, longer) == t && IsOpen(s, t, pid, url, ims, bytes)
    ensures longer == run + Opening(pid, url, Cached(url) in s.names, ims, bytes)
  {
    hide IsRun, After;
    longer, t := AskingAlone(s0, run, s, pid, url, ims);
    longer, t := LockingAlone(s0, longer, t, pid);
    if Cached(url) in s.names {
      longer, t := BackingUpAlone(s0, longer, t, pid);
    }
    longer, t := WritingAlone(s0, longer, t, pid, bytes);
  }

  /** What stands in the cache at the end of a request that was alone. */
  function NamesAfter(names: map<Name, Inode>, url: string, ims: bool, fd: Inode, end: Ending):
      map<Name, Inode>
  {
    match end
    case Complete =>
      var moved := names[Cached(url) := fd];
      if Cached(url) !in names then moved
      else if ims then moved - {BackupOf(url)}
      else moved[BackupOf(url) := names[Cached(url)]]
    case NotModified => names - {BackupOf(url)}
    case Abandoned =>
      if Cached(url) !in names then names
      else (names - {Cached(url)})[BackupOf(url) := names[Cached(url)]]
  }

  /** A child that has the lock of its own file, and has written it. */
  ghost predicate HasWritten(s: State, pid: nat) {
    var c := Get(s.children, pid);
    c.pc.Writing? && c.cfn == c.url && LockOf(c.cfn) in s.names
  }

  lemma FinishingAlone(s0: State, run: seq<Action>, s: State, pid: nat, end: Ending)
    returns (longer: seq<Action>, t: State)
    requires IsRun(s0, run) && After(s0, run) == s && Get(s.children, pid).pc.Writing?
    requires end.NotModified? ==> Get(s.children, pid).ims
    ensures IsRun(s0, longer) && After(s0, longer) == t && longer == run + [Finish(pid, end)]
    ensures t == s.(children := t.children)
    ensures Get(t.children, pid) == Get(s.children, pid).(
      pc := match end case Complete => Committing case NotModified => Restoring case Abandoned => Cancelling)
  {
    longer, t := Extend(s0, run, s, Finish(pid, end));
  }

  lemma CompletingAlone(s0: State, run: seq<Action>, s: State, pid: nat) returns (longer: seq<Action>, t: State)
    requires IsRun(s0, run) && After(s0, run) == s && HasWritten(s, pid)
    ensures IsRun(s0, longer) && After(s0, longer) == t && t.data == s.data && Get(t.children, pid).pc.Done?
    ensures longer == run + Closing(pid, Get(s.children, pid).ims, Complete)
    ensures var c := Get(s.children, pid);
      && t.names == (s.names - {LockOf(c.cfn)})[Cached(c.cfn) := s.names[LockOf(c.cfn)]]
           - (if c.ims then {BackupOf(c.cfn)} else {})
      && t.committed == s.committed[c.fd := Transfer(c.cfn, c.sent)]
  {
    hide IsRun, After;
    longer, t := FinishingAlone(s0, run, s, pid, Complete);
    longer, t := Extend(s0, longer, t, Commit(pid));
    if Get(s.children, pid).ims {
      longer, t := Extend(s0, longer, t, Discard(pid));
    }
  }

  lemma KeepingAlone(s0: State, run: seq<Action>, s: State, pid: nat) returns (longer: seq<Action>, t: State)
    requires IsRun(s0, run) && After(s0, run) == s && HasWritten(s, pid)
    requires Get(s.children, pid).ims && BackupOf(Get(s.children, pid).cfn) in s.names
    ensures IsRun(s0, longer) && After(s0, longer) == t && t.data == s.data && Get(t.children, pid).pc.Done?
    ensures longer == run + Closing(pid, Get(s.children, pid).ims, NotModified)
    ensures var c := Get(s.children, pid);
      t.names == (s.names - {LockOf(c.cfn)} - {BackupOf(c.cfn)})[Cached(c.cfn) := s.names[BackupOf(c.cfn)]]
  {
    hide IsRun, After;
    longer, t := FinishingAlone(s0, run, s, pid, NotModified);
    longer, t := Extend(s0, longer, t, Restore(pid));
    assert Get(t.children, pid) == Get(s.children, pid).(pc := Releasing);
    longer, t := Extend(s0, longer, t, Release(pid));
  }

  lemma CancellingAlone(s0: State, run: seq<Action>, s: State, pid: nat) returns (longer: seq<Action>, t: State)
    requires IsRun(s0, run) && After(s0, run) == s && HasWritten(s, pid)
    ensures IsRun(s0, longer) && After(s0, longer) == t && t.data == s.data && Get(t.children, pid).pc.Done?
    ensures longer == run + Closing(pid, Get(s.children, pid).ims, Abandoned)
    ensures t.names == s.names - {LockOf(Get(s.children, pid).cfn)}
  {
    hide IsRun, After;
    longer, t := FinishingAlone(s0, run, s, pid, Abandoned);
    longer, t := Extend(s0, longer, t, StatLock(pid));
    longer, t := Extend(s0, longer, t, Unlock(pid));
  }

  lemma NamesAtEnd(names: map<Name, Inode>, url: string, ims: bool, fd: Inode, end: Ending)
    requires LockOf(url) !in names && (end.NotModified? ==> ims && Cached(url) in names)
    ensures var refresh := Cached(url) in names;
      var begun :=
        (if refresh then (names - {Cached(url)})[BackupOf(url) := names[Cached(url)]] else names)[LockOf(url) := fd];
      var unlocked := begun - {LockOf(url)};
      NamesAfter(names, url, ims, fd, end) == match end
        case Complete => unlocked[Cached(url) := fd] - (if refresh && ims then {BackupOf(url)} else {})
        case NotModified => (unlocked - {BackupOf(url)})[Cached(url) := begun[BackupOf(url)]]
        case Abandoned => unlocked
    ensures LockOf(url) !in NamesAfter(names, url, ims, fd, end)
  {
  }

  /**
   A request alone: a complete transfer is in place as a whole, and the old version is its backup, or gone
   if the request was conditional; a "304 Not modified" leaves the old version in place; a cancelled
   transfer leaves it as the backup only. The lock is gone in any case, and no other name has changed.
   */
  lemma ServingAlone(s0: State, run: seq<Action>, s: State, pid: nat, url: string, ims: bool, bytes: string,
                     end: Ending)
    returns (longer: seq<Action>, t: State)
    requires IsRun(s0, run) && After(s0, run) == s && 0 <= s.now
    requires Get(s.children, pid).pc.Done? && LockOf(url) !in s.names && url !in s.dirs
    requires end.NotModified? ==> ims && Cached(url) in s.names
    ensures IsRun(s0, longer) && After(s0, longer) == t && Get(t.children, pid).pc.Done?
    ensures var refresh := Cached(url) in s.names;
      longer == run + Opening(pid, url, refresh, ims, bytes) + Closing(pid, refresh && ims, end)
    ensures t.names == NamesAfter(s.names, url, ims, s.nextInode, end) && LockOf(url) !in t.names
    ensures s.nextInode in t.data && t.data[s.nextInode] == bytes
    ensures end.Complete? ==>
      s.nextInode in t.committed && t.committed[s.nextInode] == Transfer(url, bytes)
  {
    var refresh := Cached(url) in s.names;
    longer, t := OpeningAlone(s0, run, s, pid, url, ims, bytes);
    hide IsRun, After, NamesAfter, Opening, Closing;
    NamesAtEnd(s.names, url, ims, s.nextInode, end);
    match end
    case Complete => longer, t := CompletingAlone(s0, longer, t, pid);
    case NotModified => longer, t := KeepingAlone(s0, longer, t, pid);
    case Abandoned => longer, t := CancellingAlone(s0, longer, t, pid);
  }
}
