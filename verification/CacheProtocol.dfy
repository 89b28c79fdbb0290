/**
 The file-system protocol by which proxy children and the garbage collector share one
 cache: every system call on a cache file is one atomic step of a state machine.
 A directory entry names an inode, so a process that has a file open goes on writing to
 it whatever happens to its name.
 */
module CacheProtocol {

  /** A name in the cache: a cache file, its lock file, or its backup. */
  datatype Name = Cached(cfn: string) | LockOf(cfn: string) | BackupOf(cfn: string)

  type Inode = nat

  /** What a child is about to do next. */
  datatype Pc =
    | Checking     // look for a lock file
    | Breaking     // unlink a timed-out lock file
    | Looking      // stat the cache file
    | WantLock     // open the lock file
    | BackingUp    // rename the old version to its backup name
    | Writing      // receive more bytes, or the end of the transfer
    | Committing   // rename the lock file to the cache file
    | Discarding   // unlink the backup
    | Restoring    // rename the backup to the cache file
    | Releasing    // unlink the lock file
    | Cancelling   // stat the lock file of the URL
    | Unlocking    // unlink the lock file of the URL
    | Done

  /** One child serving one URL; `url` is the cache file name derived from the URL. */
  datatype Child = Child(
    pc: Pc, url: string, cfn: string, curTime: int,
    refresh: bool,     // an old version exists
    ims: bool,         // the request is conditional
    fd: Inode,         // the lock file it writes to
    sent: string)      // what it has written so far

  /** A transfer that ended in cache_created. */
  datatype Transfer = Transfer(cfn: string, bytes: string)

  datatype State = State(
    names: map<Name, Inode>,
    data: map<Inode, string>,
    mtime: map<Inode, int>,
    nextInode: Inode,
    dirs: set<string>,                 // names that are directories
    now: int,
    timeout: nat,                      // cache_lock_timeout
    children: map<nat, Child>,
    gcTime: int,                       // cur_time of the garbage collector
    gcBreaks: set<string>,             // locks it found timed out and is about to unlink
    committed: map<Inode, Transfer>)   // history: what was moved into place

  datatype Action =
    | Tick(d: nat)
    | Start(pid: nat, url: string, curTime: int)
    | CheckLock(pid: nat)
    | BreakLock(pid: nat)
    | StatFile(pid: nat, current: bool, ims: bool)
    | OpenLock(pid: nat)
    | Backup(pid: nat)
    | Write(pid: nat, bytes: string)
    | Finish(pid: nat, end: Ending)
    | Commit(pid: nat)
    | Discard(pid: nat)
    | Restore(pid: nat)
    | Release(pid: nat)
    | StatLock(pid: nat)
    | Unlock(pid: nat)
    | GcStart
    | GcUnlink(name: Name)
    | GcStatLock(cfn: string)
    | GcBreakLock(cfn: string)

  /** How a transfer ends: complete, "304 Not modified", or anything else. */
  datatype Ending = Complete | NotModified | Abandoned

  const INDEX_FILE := "/.cache_dirindex"

  predicate HasLock(c: Child) {
    c.pc in {BackingUp, Writing, Committing, Restoring, Releasing, Cancelling, Unlocking}
  }

  const NoChild := Child(Done, "", "", 0, false, false, 0, "")

  function Get(m: map<nat, Child>, pid: nat): Child { if pid in m then m[pid] else NoChild }

  /** No lock file in the cache is older than the lock timeout at time t. */
  ghost predicate LocksAreYoung(s: State, t: int) {
    forall c :: LockOf(c) in s.names && s.names[LockOf(c)] in s.mtime ==>
      t - s.mtime[s.names[LockOf(c)]] <= s.timeout
  }

  /** What may happen; time only passes while no lock file outlives the lock timeout. */
  ghost predicate Enabled(s: State, a: Action) {
    match a
    case Tick(d) => LocksAreYoung(s, s.now + d)
    case _ => EnabledAnyTime(s, a)
  }

  predicate EnabledAnyTime(s: State, a: Action) {
    match a
    case Tick(d) => true
    case Start(pid, _, curTime) => curTime <= s.now && Get(s.children, pid).pc.Done?
    case CheckLock(pid) => Get(s.children, pid).pc.Checking?
    case BreakLock(pid) => Get(s.children, pid).pc.Breaking?
    case StatFile(pid, _, _) => Get(s.children, pid).pc.Looking?
    case OpenLock(pid) => Get(s.children, pid).pc.WantLock?
    case Backup(pid) => Get(s.children, pid).pc.BackingUp?
    case Write(pid, _) => Get(s.children, pid).pc.Writing?
    case Finish(pid, end) => Get(s.children, pid).pc.Writing? && (end.NotModified? ==> Get(s.children, pid).ims)
    case Commit(pid) => Get(s.children, pid).pc.Committing?
    case Discard(pid) => Get(s.children, pid).pc.Discarding?
    case Restore(pid) => Get(s.children, pid).pc.Restoring?
    case Release(pid) => Get(s.children, pid).pc.Releasing?
    case StatLock(pid) => Get(s.children, pid).pc.Cancelling?
    case Unlock(pid) => Get(s.children, pid).pc.Unlocking?
    case GcStart => true
    case GcUnlink(name) => !name.LockOf?
    case GcStatLock(_) => true
    case GcBreakLock(cfn) => cfn in s.gcBreaks
  }

  // ---- System calls ----

  function Unlinked(s: State, n: Name): State { s.(names := s.names - {n}) }

  /** rename(2): fails without effect when `from` does not exist. */
  function Renamed(s: State, from: Name, to: Name): State {
    if from in s.names then s.(names := (s.names - {from})[to := s.names[from]]) else s
  }

  function With(s: State, pid: nat, c: Child): (t: State)
    ensures forall p {:trigger Get(t.children, p)} ::
      Get(t.children, p) == if p == pid then c else Get(s.children, p)
  {
    s.(children := s.children[pid := c])
  }

  function At(s: State, pid: nat, pc: Pc): State { With(s, pid, Get(s.children, pid).(pc := pc)) }

  function Data(s: State, i: Inode): string { if i in s.data then s.data[i] else "" }

  /** Is the lock file there, and has it timed out by the caller's clock? */
  predicate TimedOut(s: State, cfn: string, curTime: int) {
    && LockOf(cfn) in s.names && s.names[LockOf(cfn)] in s.mtime
    && curTime - s.mtime[s.names[LockOf(cfn)]] > s.timeout
  }

  // ---- The atomic steps ----

  function StartRequest(s: State, pid: nat, url: string, curTime: int): State {
    With(s, pid, NoChild.(pc := Checking, url := url, cfn := url, curTime := curTime))
  }

  function CheckForLock(s: State, pid: nat): State {
    var c := Get(s.children, pid);
    if LockOf(c.cfn) !in s.names then At(s, pid, Looking)
    else if TimedOut(s, c.cfn, c.curTime) then At(s, pid, Breaking)
    else At(s, pid, Done)
  }

  /** A directory stands for its index file; a current file is served as it is. */
  function AfterStat(s: State, c: Child, current: bool, ims: bool): Child {
    if c.cfn in s.dirs then c.(cfn := c.cfn + INDEX_FILE)
    else if Cached(c.cfn) !in s.names then c.(pc := WantLock, refresh := false, ims := false)
    else if current then c.(pc := Done)
    else c.(pc := WantLock, refresh := true, ims := ims)
  }

  /** open(2) with O_CREAT and O_EXCL. */
  function OpenLockFile(s: State, pid: nat): State {
    var c := Get(s.children, pid);
    if LockOf(c.cfn) in s.names then At(s, pid, Done)
    else
      var i := s.nextInode;
      var t := s.(names := s.names[LockOf(c.cfn) := i], data := s.data[i := ""],
                  mtime := s.mtime[i := s.now], nextInode := i + 1);
      With(t, pid, c.(pc := if c.refresh then BackingUp else Writing, fd := i, sent := ""))
  }

  function BackUp(s: State, pid: nat): State {
    var c := Get(s.children, pid);
    At(Renamed(s, Cached(c.cfn), BackupOf(c.cfn)), pid, Writing)
  }

  function WriteBytes(s: State, pid: nat, bytes: string): State {
    var c := Get(s.children, pid);
    With(s.(data := s.data[c.fd := Data(s, c.fd) + bytes], mtime := s.mtime[c.fd := s.now]),
         pid, c.(sent := c.sent + bytes))
  }

  function FinishTransfer(s: State, pid: nat, end: Ending): State {
    At(s, pid, match end case Complete => Committing case NotModified => Restoring case Abandoned => Cancelling)
  }

  /** cache_created, first half: the lock file becomes the cache file, which also releases the lock. */
  function MoveIntoPlace(s: State, pid: nat): State {
    var c := Get(s.children, pid);
    At(Renamed(s, LockOf(c.cfn), Cached(c.cfn)).(committed := s.committed[c.fd := Transfer(c.cfn, c.sent)]),
       pid, if c.ims then Discarding else Done)
  }

  /** cache_not_modified, first half. */
  function RestoreBackup(s: State, pid: nat): State {
    var c := Get(s.children, pid);
    At(Renamed(s, BackupOf(c.cfn), Cached(c.cfn)), pid, Releasing)
  }

  function DiscardBackup(s: State, pid: nat): State {
    At(Unlinked(s, BackupOf(Get(s.children, pid).cfn)), pid, Done)
  }

  function ReleaseLock(s: State, pid: nat): State {
    At(Unlinked(s, LockOf(Get(s.children, pid).cfn)), pid, Done)
  }

  /** The effect of one atomic step. */
  function Apply(s: State, a: Action): State
    requires EnabledAnyTime(s, a)
  {
    match a
    case Tick(d) => s.(now := s.now + d)
    case Start(pid, url, curTime) => StartRequest(s, pid, url, curTime)
    case CheckLock(pid) => CheckForLock(s, pid)
    case BreakLock(pid) => At(Unlinked(s, LockOf(Get(s.children, pid).cfn)), pid, Looking)
    case StatFile(pid, current, ims) => With(s, pid, AfterStat(s, Get(s.children, pid), current, ims))
    case OpenLock(pid) => OpenLockFile(s, pid)
    case Backup(pid) => BackUp(s, pid)
    case Write(pid, bytes) => WriteBytes(s, pid, bytes)
    case Finish(pid, end) => FinishTransfer(s, pid, end)
    case Commit(pid) => MoveIntoPlace(s, pid)
    case Discard(pid) => DiscardBackup(s, pid)
    case Restore(pid) => RestoreBackup(s, pid)
    case Release(pid) => ReleaseLock(s, pid)
    case StatLock(pid) => At(s, pid, if LockOf(Get(s.children, pid).url) in s.names then Unlocking else Done)
    case Unlock(pid) => At(Unlinked(s, LockOf(Get(s.children, pid).url)), pid, Done)
    case GcStart => s.(gcTime := s.now)
    case GcUnlink(name) => Unlinked(s, name)
    case GcStatLock(cfn) =>
      if TimedOut(s, cfn, s.gcTime) then s.(gcBreaks := s.gcBreaks + {cfn}) else s
    case GcBreakLock(cfn) => Unlinked(s, LockOf(cfn)).(gcBreaks := s.gcBreaks - {cfn})
  }

  ghost predicate Init(s: State) {
    && s.names == map[] && s.data == map[] && s.mtime == map[] && s.children == map[]
    && s.gcTime <= s.now && s.gcBreaks == {} && s.committed == map[]
  }

  /** Any interleaving of any number of children with the garbage collector. */
  ghost predicate IsRun(s: State, run: seq<Action>)
    decreases |run|
  {
    run == [] || (Enabled(s, run[0]) && IsRun(Apply(s, run[0]), run[1..]))
  }

  ghost function After(s: State, run: seq<Action>): State
    requires IsRun(s, run)
    decreases |run|
  {
    if run == [] then s else After(Apply(s, run[0]), run[1..])
  }

  // ---- The invariant ----

  ghost predicate Holder(m: map<nat, Child>, pid: nat) { HasLock(Get(m, pid)) }

  /** A child that holds a lock has it under the lock's name, and nobody else has that inode. */
  ghost predicate LocksAreHeld(s: State) {
    && (forall p :: Holder(s.children, p) ==>
          var c := Get(s.children, p);
          LockOf(c.cfn) in s.names && s.names[LockOf(c.cfn)] == c.fd)
    && (forall p, q :: Holder(s.children, p) && Holder(s.children, q) && p != q ==>
          Get(s.children, p).fd != Get(s.children, q).fd)
    && (forall p :: Holder(s.children, p) ==>
          Data(s, Get(s.children, p).fd) == Get(s.children, p).sent)
  }

  /** An inode with a lock's name is fresh: not yet committed, and under no other name. */
  ghost predicate NamesAreSound(s: State) {
    && (forall n :: n in s.names ==> s.names[n] < s.nextInode && s.names[n] in s.data && s.names[n] in s.mtime)
    && (forall i :: i in s.committed ==> i < s.nextInode)
    && (forall c :: LockOf(c) in s.names ==> s.names[LockOf(c)] !in s.committed && c !in s.dirs)
    && (forall c, d :: LockOf(c) in s.names && LockOf(d) in s.names && s.names[LockOf(c)] == s.names[LockOf(d)] ==>
          c == d)
  }

  /** Whatever stands under a final or a backup name is one committed transfer, whole. */
  ghost predicate FilesAreComplete(s: State) {
    forall n :: n in s.names && !n.LockOf? ==>
      && s.names[n] in s.committed && s.names[n] in s.data
      && s.committed[s.names[n]] == Transfer(n.cfn, s.data[s.names[n]])
  }

  ghost predicate NothingTimesOut(s: State) {
    && LocksAreYoung(s, s.now)
    && s.gcTime <= s.now && s.gcBreaks == {}
    && (forall p :: !Get(s.children, p).pc.Breaking?)
    && (forall p :: Get(s.children, p).pc.Checking? ==> Get(s.children, p).curTime <= s.now)
  }

  /** Only a URL whose own name is a directory is cached under another name. */
  ghost predicate NamesFollowUrls(s: State) {
    forall p :: !Get(s.children, p).pc.Done? ==>
      var c := Get(s.children, p);
      && (c.cfn == c.url || c.url in s.dirs)
      && ((c.pc.WantLock? || HasLock(c)) ==> c.cfn !in s.dirs)
      && (c.pc.Unlocking? ==> c.cfn == c.url)
  }

  ghost predicate Inv(s: State) {
    LocksAreHeld(s) && NamesAreSound(s) && FilesAreComplete(s) && NothingTimesOut(s) && NamesFollowUrls(s)
  }

  lemma InitInv(s: State)
    requires Init(s)
    ensures Inv(s)
  {
  }

  /** A child that neither gets nor gives up a lock disturbs nobody. */
  lemma QuietKeepsInv(s: State, pid: nat, c: Child)
    requires Inv(s) && !HasLock(Get(s.children, pid)) && !HasLock(c)
    requires !c.pc.Breaking? && (c.pc.Checking? ==> c.curTime <= s.now)
    requires c.pc.Done? || c.cfn == c.url || c.url in s.dirs
    requires c.pc.WantLock? ==> c.cfn !in s.dirs
    ensures Inv(With(s, pid, c))
  {
  }

  lemma CheckKeepsInv(s: State, pid: nat)
    requires Inv(s) && Get(s.children, pid).pc.Checking?
    ensures Inv(CheckForLock(s, pid))
  {
    var c := Get(s.children, pid);
    assert !TimedOut(s, c.cfn, c.curTime);
    QuietKeepsInv(s, pid, c.(pc := if LockOf(c.cfn) !in s.names then Looking else Done));
  }

  lemma StatKeepsInv(s: State, pid: nat, current: bool, ims: bool)
    requires Inv(s) && Get(s.children, pid).pc.Looking?
    ensures Inv(With(s, pid, AfterStat(s, Get(s.children, pid), current, ims)))
  {
    QuietKeepsInv(s, pid, AfterStat(s, Get(s.children, pid), current, ims));
  }

  lemma OpenKeepsInv(s: State, pid: nat)
    requires Inv(s) && Get(s.children, pid).pc.WantLock?
    ensures Inv(OpenLockFile(s, pid))
  {
    var c := Get(s.children, pid);
    if LockOf(c.cfn) in s.names {
      QuietKeepsInv(s, pid, c.(pc := Done));
    } else {
      OpenFreshLock(s, pid);
    }
  }

  lemma OpenFreshLock(s: State, pid: nat)
    requires Inv(s) && Get(s.children, pid).pc.WantLock? && LockOf(Get(s.children, pid).cfn) !in s.names
    ensures Inv(OpenLockFile(s, pid))
  {
    var t := OpenLockFile(s, pid);
    assert LocksAreHeld(t) by { OpenFreshLockIsHeld(s, pid); }
    assert NothingTimesOut(t);
  }

  lemma OpenFreshLockIsHeld(s: State, pid: nat)
    requires LocksAreHeld(s) && NamesAreSound(s)
    requires Get(s.children, pid).pc.WantLock? && LockOf(Get(s.children, pid).cfn) !in s.names
    ensures LocksAreHeld(OpenLockFile(s, pid))
  {
  }

  lemma BackUpKeepsFiles(s: State, pid: nat)
    requires Inv(s) && Get(s.children, pid).pc.BackingUp?
    ensures NamesAreSound(BackUp(s, pid)) && FilesAreComplete(BackUp(s, pid))
  {
    hide NothingTimesOut, NamesFollowUrls;
  }

  lemma BackUpKeepsLocks(s: State, pid: nat)
    requires Inv(s) && Get(s.children, pid).pc.BackingUp?
    ensures LocksAreHeld(BackUp(s, pid)) && NothingTimesOut(BackUp(s, pid))
    ensures NamesFollowUrls(BackUp(s, pid))
  {
    hide FilesAreComplete;
  }

  lemma BackUpKeepsInv(s: State, pid: nat)
    requires Inv(s) && Get(s.children, pid).pc.BackingUp?
    ensures Inv(BackUp(s, pid))
  {
    BackUpKeepsFiles(s, pid);
    BackUpKeepsLocks(s, pid);
    hide NamesAreSound, FilesAreComplete, LocksAreHeld, NothingTimesOut, NamesFollowUrls;
  }

  lemma WriteKeepsInv(s: State, pid: nat, bytes: string)
    requires Inv(s) && (Get(s.children, pid).pc.Writing?)
    ensures Inv(WriteBytes(s, pid, bytes))
  {
  }

  lemma FinishKeepsInv(s: State, pid: nat, end: Ending)
    requires Inv(s) && (Get(s.children, pid).pc.Writing?)
    ensures Inv(FinishTransfer(s, pid, end))
  {
  }

  lemma CommitKeepsFiles(s: State, pid: nat)
    requires Inv(s) && Get(s.children, pid).pc.Committing?
    ensures NamesAreSound(MoveIntoPlace(s, pid)) && FilesAreComplete(MoveIntoPlace(s, pid))
  {
    hide NothingTimesOut, NamesFollowUrls;
  }

  lemma CommitKeepsLocks(s: State, pid: nat)
    requires Inv(s) && Get(s.children, pid).pc.Committing?
    ensures LocksAreHeld(MoveIntoPlace(s, pid)) && NothingTimesOut(MoveIntoPlace(s, pid))
    ensures NamesFollowUrls(MoveIntoPlace(s, pid))
  {
    hide FilesAreComplete;
  }

  lemma CommitKeepsInv(s: State, pid: nat)
    requires Inv(s) && Get(s.children, pid).pc.Committing?
    ensures Inv(MoveIntoPlace(s, pid))
  {
    CommitKeepsFiles(s, pid);
    CommitKeepsLocks(s, pid);
    hide NamesAreSound, FilesAreComplete, LocksAreHeld, NothingTimesOut, NamesFollowUrls;
  }

  lemma RestoreKeepsFiles(s: State, pid: nat)
    requires Inv(s) && Get(s.children, pid).pc.Restoring?
    ensures NamesAreSound(RestoreBackup(s, pid)) && FilesAreComplete(RestoreBackup(s, pid))
  {
    hide NothingTimesOut, NamesFollowUrls;
  }

  lemma RestoreKeepsLocks(s: State, pid: nat)
    requires Inv(s) && Get(s.children, pid).pc.Restoring?
    ensures LocksAreHeld(RestoreBackup(s, pid)) && NothingTimesOut(RestoreBackup(s, pid))
    ensures NamesFollowUrls(RestoreBackup(s, pid))
  {
    hide FilesAreComplete;
  }

  lemma RestoreKeepsInv(s: State, pid: nat)
    requires Inv(s) && Get(s.children, pid).pc.Restoring?
    ensures Inv(RestoreBackup(s, pid))
  {
    RestoreKeepsFiles(s, pid);
    RestoreKeepsLocks(s, pid);
    hide NamesAreSound, FilesAreComplete, LocksAreHeld, NothingTimesOut, NamesFollowUrls;
  }

  lemma ReleaseKeepsFiles(s: State, pid: nat)
    requires Inv(s) && (Get(s.children, pid).pc.Releasing? || Get(s.children, pid).pc.Unlocking?)
    ensures NamesAreSound(ReleaseLock(s, pid)) && FilesAreComplete(ReleaseLock(s, pid))
  {
    hide NothingTimesOut, NamesFollowUrls;
  }

  lemma ReleaseKeepsLocks(s: State, pid: nat)
    requires Inv(s) && (Get(s.children, pid).pc.Releasing? || Get(s.children, pid).pc.Unlocking?)
    ensures LocksAreHeld(ReleaseLock(s, pid)) && NothingTimesOut(ReleaseLock(s, pid))
    ensures NamesFollowUrls(ReleaseLock(s, pid))
  {
    hide FilesAreComplete;
  }

  lemma ReleaseKeepsInv(s: State, pid: nat)
    requires Inv(s) && (Get(s.children, pid).pc.Releasing? || Get(s.children, pid).pc.Unlocking?)
    ensures Inv(ReleaseLock(s, pid))
  {
    ReleaseKeepsFiles(s, pid);
    ReleaseKeepsLocks(s, pid);
    hide NamesAreSound, FilesAreComplete, LocksAreHeld, NothingTimesOut, NamesFollowUrls;
  }

  lemma DiscardKeepsFiles(s: State, pid: nat)
    requires Inv(s) && Get(s.children, pid).pc.Discarding?
    ensures NamesAreSound(DiscardBackup(s, pid)) && FilesAreComplete(DiscardBackup(s, pid))
  {
    hide NothingTimesOut, NamesFollowUrls;
  }

  lemma DiscardKeepsLocks(s: State, pid: nat)
    requires Inv(s) && Get(s.children, pid).pc.Discarding?
    ensures LocksAreHeld(DiscardBackup(s, pid)) && NothingTimesOut(DiscardBackup(s, pid))
    ensures NamesFollowUrls(DiscardBackup(s, pid))
  {
    hide FilesAreComplete;
  }

  lemma DiscardKeepsInv(s: State, pid: nat)
    requires Inv(s) && Get(s.children, pid).pc.Discarding?
    ensures Inv(DiscardBackup(s, pid))
  {
    DiscardKeepsFiles(s, pid);
    DiscardKeepsLocks(s, pid);
    hide NamesAreSound, FilesAreComplete, LocksAreHeld, NothingTimesOut, NamesFollowUrls;
  }

  lemma CancelKeepsInv(s: State, pid: nat)
    requires Inv(s) && (Get(s.children, pid).pc.Cancelling?)
    ensures Inv(At(s, pid, if LockOf(Get(s.children, pid).url) in s.names then Unlocking else Done))
  {
  }

  lemma ClockKeepsInv(s: State, a: Action)
    requires Inv(s) && Enabled(s, a) && (a.Tick? || a.GcStart? || a.GcStatLock?)
    ensures Inv(Apply(s, a))
  {
  }

  lemma GcKeepsInv(s: State, name: Name)
    requires Inv(s) && !name.LockOf?
    ensures Inv(Unlinked(s, name))
  {
  }

  lemma NothingIsBroken(s: State, a: Action)
    requires Inv(s) && Enabled(s, a)
    ensures !a.BreakLock? && !a.GcBreakLock?
  {
  }

  lemma StepKeepsInv(s: State, a: Action)
    requires Inv(s) && Enabled(s, a)
    ensures Inv(Apply(s, a))
  {
    NothingIsBroken(s, a);
    hide Inv;
    match a
    case Tick(d) => ClockKeepsInv(s, a);
    case Start(pid, url, curTime) =>
      QuietKeepsInv(s, pid, NoChild.(pc := Checking, url := url, cfn := url, curTime := curTime));
    case CheckLock(pid) => CheckKeepsInv(s, pid);
    case StatFile(pid, current, ims) => StatKeepsInv(s, pid, current, ims);
    case OpenLock(pid) => OpenKeepsInv(s, pid);
    case Backup(pid) => BackUpKeepsInv(s, pid);
    case Write(pid, bytes) => WriteKeepsInv(s, pid, bytes);
    case Finish(pid, end) => FinishKeepsInv(s, pid, end);
    case Commit(pid) => CommitKeepsInv(s, pid);
    case Discard(pid) => DiscardKeepsInv(s, pid);
    case Restore(pid) => RestoreKeepsInv(s, pid);
    case Release(pid) => ReleaseKeepsInv(s, pid);
    case StatLock(pid) => CancelKeepsInv(s, pid);
    case Unlock(pid) => ReleaseKeepsInv(s, pid);
    case GcStart => ClockKeepsInv(s, a);
    case GcUnlink(name) => GcKeepsInv(s, name);
    case GcStatLock(cfn) => ClockKeepsInv(s, a);
    case _ =>
  }

  lemma {:induction false} RunKeepsInv(s: State, run: seq<Action>)
    requires Inv(s) && IsRun(s, run)
    ensures Inv(After(s, run))
    decreases |run|
  {
    if run == [] {
    } else {
      StepKeepsInv(s, run[0]);
      RunKeepsInv(Apply(s, run[0]), run[1..]);
    }
  }

  // ---- The main results ----

  /** At most one child has the lock of a cache file, and it has it under the lock's name. */
  ghost predicate AtMostOneHolder(s: State) {
    && (forall p, q :: Holder(s.children, p) && Holder(s.children, q) && p != q ==>
          Get(s.children, p).cfn != Get(s.children, q).cfn)
    && (forall p :: Holder(s.children, p) ==> LockOf(Get(s.children, p).cfn) in s.names)
  }

  /** Under its final name a cache file is absent, or all that one committed transfer wrote. */
  ghost predicate AbsentOrComplete(s: State, cfn: string) {
    Cached(cfn) in s.names ==>
      var i := s.names[Cached(cfn)];
      i in s.committed && s.committed[i] == Transfer(cfn, Data(s, i))
  }

  lemma EveryRunIsSafe(s: State, run: seq<Action>)
    requires Init(s) && IsRun(s, run)
    ensures AtMostOneHolder(After(s, run))
    ensures forall cfn :: AbsentOrComplete(After(s, run), cfn)
  {
    InitInv(s);
    RunKeepsInv(s, run);
    InvIsSafe(After(s, run));
  }

  lemma InvIsSafe(s: State)
    requires Inv(s)
    ensures AtMostOneHolder(s)
    ensures forall cfn :: AbsentOrComplete(s, cfn)
  {
  }

  /** A "304 Not modified" brings back a complete earlier version, if and only if its backup is still there. */
  lemma RestoreBringsBackOldVersion(s: State, pid: nat)
    requires Inv(s) && Get(s.children, pid).pc.Restoring?
    ensures var cfn := Get(s.children, pid).cfn;
      var t := RestoreBackup(s, pid);
      if BackupOf(cfn) in s.names then
        && Cached(cfn) in t.names && t.names[Cached(cfn)] == s.names[BackupOf(cfn)]
        && AbsentOrComplete(t, cfn)
      else
        t.names == s.names
  {
    RestoreKeepsInv(s, pid);
  }

  /** Does the step unlink the backup of cfn? */
  ghost predicate RemovesBackup(s: State, a: Action, cfn: string) {
    a == GcUnlink(BackupOf(cfn)) || (a.Discard? && Get(s.children, a.pid).cfn == cfn)
  }

  /** A child that has made its backup and may still need it. */
  predicate Refreshing(s: State, cfn: string, pid: nat) {
    var c := Get(s.children, pid);
    (c.pc.Writing? || c.pc.Restoring?) && c.cfn == cfn
  }

  /** A step other than those by which the child uses its backup up, or ends otherwise. */
  predicate Pursues(a: Action, pid: nat) {
    a != Restore(pid) && a != Finish(pid, Complete) && a != Finish(pid, Abandoned)
  }

  predicate Pursued(run: seq<Action>, pid: nat) { forall a :: a in run ==> Pursues(a, pid) }

  /** Does nobody unlink the backup of cfn? */
  ghost predicate SparesBackup(s: State, run: seq<Action>, cfn: string)
    requires IsRun(s, run)
    decreases |run|
  {
    run == [] || (!RemovesBackup(s, run[0], cfn) && SparesBackup(Apply(s, run[0]), run[1..], cfn))
  }

  /** The same file, if any, is under the name n. */
  predicate SameFile(s: State, t: State, n: Name) {
    if n in s.names then n in t.names && t.names[n] == s.names[n] else n !in t.names
  }

  lemma StepKeepsRefreshing(s: State, a: Action, cfn: string, pid: nat)
    requires EnabledAnyTime(s, a) && Refreshing(s, cfn, pid) && Pursues(a, pid)
    ensures Refreshing(Apply(s, a), cfn, pid)
  {
  }

  lemma StepKeepsBackupName(s: State, a: Action, cfn: string, pid: nat)
    requires EnabledAnyTime(s, a) && Refreshing(s, cfn, pid) && Pursues(a, pid)
    requires a.Backup? || a.Restore? ==> a.pid == pid || Get(s.children, a.pid).cfn != cfn
    ensures if RemovesBackup(s, a, cfn) then BackupOf(cfn) !in Apply(s, a).names
            else SameFile(s, Apply(s, a), BackupOf(cfn))
  {
  }

  lemma StepKeepsAbsence(s: State, a: Action, cfn: string, pid: nat)
    requires EnabledAnyTime(s, a) && Refreshing(s, cfn, pid) && Pursues(a, pid)
    requires a.Commit? || a.Restore? ==> a.pid == pid || Get(s.children, a.pid).cfn != cfn
    ensures Cached(cfn) !in s.names ==> Cached(cfn) !in Apply(s, a).names
  {
  }

  lemma StepKeepsBackup(s: State, a: Action, cfn: string, pid: nat)
    requires Inv(s) && Enabled(s, a) && Refreshing(s, cfn, pid) && Pursues(a, pid)
    ensures Refreshing(Apply(s, a), cfn, pid)
    ensures if RemovesBackup(s, a, cfn) then BackupOf(cfn) !in Apply(s, a).names
            else SameFile(s, Apply(s, a), BackupOf(cfn))
    ensures Cached(cfn) !in s.names ==> Cached(cfn) !in Apply(s, a).names
  {
    if a.Backup? || a.Commit? || a.Restore? { OthersHaveOtherFiles(s, a, cfn, pid); }
    StepKeepsRefreshing(s, a, cfn, pid);
    StepKeepsBackupName(s, a, cfn, pid);
    StepKeepsAbsence(s, a, cfn, pid);
    hide Inv, Apply, Refreshing, Pursues, RemovesBackup;
  }

  lemma OthersHaveOtherFiles(s: State, a: Action, cfn: string, pid: nat)
    requires Inv(s) && Enabled(s, a) && Refreshing(s, cfn, pid) && (a.Backup? || a.Commit? || a.Restore?)
    ensures a.pid == pid || Get(s.children, a.pid).cfn != cfn
  {
    InvIsSafe(s);
    hide Inv;
    assert Holder(s.children, a.pid) && Holder(s.children, pid);
  }

  /** What can be said of the file, whatever happens to its backup: what is gone stays away. */
  lemma {:induction false} WhatIsGoneStaysAway(s: State, run: seq<Action>, cfn: string, pid: nat)
    requires Inv(s) && IsRun(s, run) && Pursued(run, pid) && Refreshing(s, cfn, pid)
    ensures Inv(After(s, run)) && Refreshing(After(s, run), cfn, pid)
    ensures BackupOf(cfn) !in s.names ==> BackupOf(cfn) !in After(s, run).names
    ensures Cached(cfn) !in s.names ==> Cached(cfn) !in After(s, run).names
    decreases |run|
  {
    hide Inv, Apply, Pursues, Refreshing, RemovesBackup;
    if run == [] {
    } else {
      assert run[0] in run;
      StepKeepsBackup(s, run[0], cfn, pid);
      StepKeepsInv(s, run[0]);
      WhatIsGoneStaysAway(Apply(s, run[0]), run[1..], cfn, pid);
    }
  }

  /**
   While a child holds a lock nobody can take the backup away but gc and a late discard; and if one
   of them does, nobody makes another.
   */
  lemma {:induction false} RunKeepsBackup(s: State, run: seq<Action>, cfn: string, pid: nat)
    requires Inv(s) && IsRun(s, run) && Pursued(run, pid) && Refreshing(s, cfn, pid)
    ensures if SparesBackup(s, run, cfn) then SameFile(s, After(s, run), BackupOf(cfn))
            else BackupOf(cfn) !in After(s, run).names
    decreases |run|
  {
    hide Inv, Apply, Pursues, Refreshing, RemovesBackup;
    if run == [] {
    } else {
      assert run[0] in run;
      StepKeepsBackup(s, run[0], cfn, pid);
      StepKeepsInv(s, run[0]);
      if RemovesBackup(s, run[0], cfn) {
        WhatIsGoneStaysAway(Apply(s, run[0]), run[1..], cfn, pid);
      } else {
        RunKeepsBackup(Apply(s, run[0]), run[1..], cfn, pid);
      }
    }
  }

  /** The file a child finds as its backup when it has tried to make one. */
  predicate IsBackedUp(s: State, cfn: string, i: Inode) {
    if Cached(cfn) in s.names then s.names[Cached(cfn)] == i
    else BackupOf(cfn) in s.names && s.names[BackupOf(cfn)] == i
  }

  /**
   What a "304 Not modified" restores, over any run up to it: it is the version i if and only if
   nobody has unlinked the backup in the meantime, and i was under the name of the cache file when
   the child made its backup; or that name was gone by then, and i is what an earlier child had left
   as a backup.
   */
  lemma RestoresWhatWasBackedUp(s: State, run: seq<Action>, pid: nat, i: Inode)
    requires Inv(s) && Get(s.children, pid).pc.BackingUp?
    requires IsRun(BackUp(s, pid), run) && Pursued(run, pid)
    requires Get(After(BackUp(s, pid), run).children, pid).pc.Restoring?
    ensures var cfn := Get(s.children, pid).cfn;
      var v := RestoreBackup(After(BackUp(s, pid), run), pid);
      (Cached(cfn) in v.names && v.names[Cached(cfn)] == i) <==>
        (IsBackedUp(s, cfn, i) && SparesBackup(BackUp(s, pid), run, cfn))
  {
    var cfn, t := Get(s.children, pid).cfn, BackUp(s, pid);
    BackUpKeepsInv(s, pid);
    RunKeepsBackup(t, run, cfn, pid);
    WhatIsGoneStaysAway(t, run, cfn, pid);
    BackedUpNames(s, pid, i);
    RestoredNames(After(t, run), pid, i);
    hide Inv, IsRun, After, SparesBackup, Pursued, BackUp, RestoreBackup;
  }

  lemma BackedUpNames(s: State, pid: nat, i: Inode)
    ensures var cfn, t := Get(s.children, pid).cfn, BackUp(s, pid);
      && Cached(cfn) !in t.names && Refreshing(t, cfn, pid)
      && ((BackupOf(cfn) in t.names && t.names[BackupOf(cfn)] == i) <==> IsBackedUp(s, cfn, i))
  {
  }

  lemma RestoredNames(s: State, pid: nat, i: Inode)
    requires Cached(Get(s.children, pid).cfn) !in s.names
    ensures var cfn, t := Get(s.children, pid).cfn, RestoreBackup(s, pid);
      (Cached(cfn) in t.names && t.names[Cached(cfn)] == i) <==>
        (BackupOf(cfn) in s.names && s.names[BackupOf(cfn)] == i)
  {
  }

  // ---- A run in which the 304 path restores nothing ----

  const URL := "u"
  const Fresh := State(map[], map[], map[], 0, {}, 0, 0, map[], 0, {}, map[])

  lemma {:induction false} AppendRun(s: State, run: seq<Action>, more: seq<Action>)
    requires IsRun(s, run) && IsRun(After(s, run), more)
    ensures IsRun(s, run + more) && After(s, run + more) == After(After(s, run), more)
    decreases |run|
  {
    if run == [] {
      assert run + more == more;
    } else {
      assert (run + more)[1..] == run[1..] + more;
      AppendRun(Apply(s, run[0]), run[1..], more);
    }
  }

  /** Run one more step. */
  lemma Extend(s0: State, run: seq<Action>, s: State, a: Action) returns (longer: seq<Action>, t: State)
    requires IsRun(s0, run) && After(s0, run) == s && Enabled(s, a)
    ensures IsRun(s0, longer) && After(s0, longer) == t && t == Apply(s, a) && longer == run + [a]
  {
    longer, t := run + [a], Apply(s, a);
    assert IsRun(s, [a]) && After(s, [a]) == t by {
      assert IsRun(t, [a][1..]) && After(t, [a][1..]) == t;
    }
    AppendRun(s0, run, [a]);
  }

  /** s and t differ only in the names, in child pid, and in what files hold. */
  ghost predicate OnlyChild(s: State, t: State, pid: nat) {
    && t.dirs == s.dirs && t.now == s.now
    && forall p {:trigger Get(t.children, p)} :: p != pid ==> Get(t.children, p) == Get(s.children, p)
  }

  /** A child finds no lock on URL and goes on to look at the file. */
  lemma Ask(s0: State, run: seq<Action>, s: State, pid: nat) returns (longer: seq<Action>, t: State)
    requires IsRun(s0, run) && After(s0, run) == s
    requires Get(s.children, pid).pc.Done? && LockOf(URL) !in s.names && 0 <= s.now
    ensures IsRun(s0, longer) && After(s0, longer) == t && OnlyChild(s, t, pid)
    ensures t.names == s.names && t.nextInode == s.nextInode
    ensures Get(t.children, pid) == NoChild.(pc := Looking, url := URL, cfn := URL)
  {
    longer, t := Extend(s0, run, s, Start(pid, URL, 0));
    longer, t := Extend(s0, longer, t, CheckLock(pid));
  }

  /** A child gets the lock of URL without being disturbed. */
  lemma TakeLock(s0: State, run: seq<Action>, s: State, pid: nat) returns (longer: seq<Action>, t: State)
    requires IsRun(s0, run) && After(s0, run) == s
    requires Get(s.children, pid).pc.Done? && LockOf(URL) !in s.names && s.dirs == {} && 0 <= s.now
    ensures IsRun(s0, longer) && After(s0, longer) == t && OnlyChild(s, t, pid)
    ensures t.names == s.names[LockOf(URL) := s.nextInode] && t.nextInode == s.nextInode + 1
    ensures var c := Get(t.children, pid);
      && c.cfn == c.url == URL && c.ims == (Cached(URL) in s.names)
      && c.pc == if c.ims then BackingUp else Writing
  {
    longer, t := Ask(s0, run, s, pid);
    longer, t := Extend(s0, longer, t, StatFile(pid, false, true));
    longer, t := Extend(s0, longer, t, OpenLock(pid));
  }

  lemma MakeBackup(s0: State, run: seq<Action>, s: State, pid: nat) returns (longer: seq<Action>, t: State)
    requires IsRun(s0, run) && After(s0, run) == s
    requires Get(s.children, pid).pc.BackingUp? && Get(s.children, pid).cfn == URL
    ensures IsRun(s0, longer) && After(s0, longer) == t && OnlyChild(s, t, pid) && t.nextInode == s.nextInode
    ensures longer == run + [Backup(pid)]
    ensures t.names == if Cached(URL) !in s.names then s.names
                       else (s.names - {Cached(URL)})[BackupOf(URL) := s.names[Cached(URL)]]
    ensures Get(t.children, pid) == Get(s.children, pid).(pc := Writing)
  {
    longer, t := Extend(s0, run, s, Backup(pid));
  }

  /** A child that holds the lock of URL moves its complete transfer into place. */
  lemma MoveVersion(s0: State, run: seq<Action>, s: State, pid: nat) returns (longer: seq<Action>, t: State)
    requires IsRun(s0, run) && After(s0, run) == s
    requires Get(s.children, pid).pc.Writing? && Get(s.children, pid).cfn == URL && LockOf(URL) in s.names
    ensures IsRun(s0, longer) && After(s0, longer) == t && OnlyChild(s, t, pid) && t.nextInode == s.nextInode
    ensures t.names == (s.names - {LockOf(URL)})[Cached(URL) := s.names[LockOf(URL)]]
    ensures var c := Get(t.children, pid);
      c.cfn == URL && c.pc == if Get(s.children, pid).ims then Discarding else Done
  {
    longer, t := Extend(s0, run, s, Write(pid, "bytes"));
    longer, t := Extend(s0, longer, t, Finish(pid, Complete));
    longer, t := Extend(s0, longer, t, Commit(pid));
  }

  /** A child that holds the lock of URL is told that its version is still good. */
  lemma KeepVersion(s0: State, run: seq<Action>, s: State, pid: nat) returns (longer: seq<Action>, t: State)
    requires IsRun(s0, run) && After(s0, run) == s
    requires var c := Get(s.children, pid); c.pc.Writing? && c.cfn == URL && c.ims
    ensures IsRun(s0, longer) && After(s0, longer) == t && OnlyChild(s, t, pid) && run <= longer
    ensures t.names == if BackupOf(URL) !in s.names then s.names
                       else (s.names - {BackupOf(URL)})[Cached(URL) := s.names[BackupOf(URL)]]
    ensures Get(t.children, pid).pc.Releasing? && Get(t.children, pid).cfn == URL
  {
    longer, t := Extend(s0, run, s, Finish(pid, NotModified));
    longer, t := Extend(s0, longer, t, Restore(pid));
  }

  /** Child 1 creates the file, then refreshes it, and is delayed before it discards the backup. */
  lemma TwoVersions() returns (run: seq<Action>, s: State)
    ensures IsRun(Fresh, run) && After(Fresh, run) == s && s.dirs == {} && s.now == 0
    ensures Get(s.children, 2).pc.Done? && Get(s.children, 1).pc.Discarding? && Get(s.children, 1).cfn == URL
    ensures Cached(URL) in s.names && LockOf(URL) !in s.names
  {
    run, s := [], Fresh;
    assert IsRun(Fresh, run) && After(Fresh, run) == s;
    hide IsRun, After;
    run, s := TakeLock(Fresh, run, s, 1);
    run, s := MoveVersion(Fresh, run, s, 1);
    run, s := TakeLock(Fresh, run, s, 1);
    run, s := MakeBackup(Fresh, run, s, 1);
    run, s := MoveVersion(Fresh, run, s, 1);
  }

  /** Child 2 takes the lock and backs the file up; then child 1 discards the backup. */
  lemma LateDiscard() returns (run: seq<Action>, s: State)
    ensures IsRun(Fresh, run) && After(Fresh, run) == s
    ensures var c := Get(s.children, 2); c.pc.Writing? && c.cfn == URL && c.ims
    ensures Cached(URL) !in s.names && BackupOf(URL) !in s.names
  {
    run, s := TwoVersions();
    run, s := TakeLock(Fresh, run, s, 2);
    run, s := MakeBackup(Fresh, run, s, 2);
    run, s := Extend(Fresh, run, s, Discard(1));
  }

  /**
   No lock is ever broken and every transfer is complete, and yet child 2, told that its
   version is still good, finds no backup to restore: child 1 discarded it after child 2
   had taken the lock. The cache file is gone.
   */
  lemma BackupCanBeLost() returns (run: seq<Action>, s: State)
    ensures IsRun(Fresh, run) && After(Fresh, run) == s
    ensures Get(s.children, 2).pc.Releasing? && Get(s.children, 2).cfn == URL && Cached(URL) !in s.names
  {
    run, s := LateDiscard();
    run, s := KeepVersion(Fresh, run, s, 2);
  }

  // ---- A run in which the 304 path restores a stale version ----

  /** A transfer of child 1 is cancelled when it has made its backup. */
  lemma RefreshIsCancelled() returns (run: seq<Action>, s: State)
    ensures IsRun(Fresh, run) && After(Fresh, run) == s && s.dirs == {} && s.now == 0
    ensures Get(s.children, 1).pc.Done? && Get(s.children, 2).pc.Done?
    ensures s.names == map[BackupOf(URL) := 0] && s.nextInode == 2
  {
    run, s := [], Fresh;
    assert IsRun(Fresh, run) && After(Fresh, run) == s;
    hide IsRun, After;
    run, s := TakeLock(Fresh, run, s, 1);
    run, s := MoveVersion(Fresh, run, s, 1);
    assert s.names == map[Cached(URL) := 0];
    run, s := TakeLock(Fresh, run, s, 1);
    run, s := MakeBackup(Fresh, run, s, 1);
    assert s.names == map[LockOf(URL) := 1, BackupOf(URL) := 0];
    run, s := CancelTransfer(Fresh, run, s, 1);
  }

  /** The next one is committed, and leaves that backup alone. */
  lemma BackupIsLeftBehind() returns (run: seq<Action>, s: State)
    ensures IsRun(Fresh, run) && After(Fresh, run) == s && s.dirs == {} && s.now == 0
    ensures Get(s.children, 2).pc.Done?
    ensures s.names == map[BackupOf(URL) := 0, Cached(URL) := 2] && s.nextInode == 3
  {
    hide IsRun, After;
    run, s := RefreshIsCancelled();
    run, s := TakeLock(Fresh, run, s, 1);
    assert s.names == map[BackupOf(URL) := 0, LockOf(URL) := 2];
    run, s := MoveVersion(Fresh, run, s, 1);
  }

  lemma CancelTransfer(s0: State, run: seq<Action>, s: State, pid: nat) returns (longer: seq<Action>, t: State)
    requires IsRun(s0, run) && After(s0, run) == s
    requires var c := Get(s.children, pid); c.pc.Writing? && c.url == URL && LockOf(URL) in s.names
    ensures IsRun(s0, longer) && After(s0, longer) == t && OnlyChild(s, t, pid)
    ensures t.names == s.names - {LockOf(URL)} && t.nextInode == s.nextInode && Get(t.children, pid).pc.Done?
  {
    longer, t := Extend(s0, run, s, Finish(pid, Abandoned));
    longer, t := Extend(s0, longer, t, StatLock(pid));
    longer, t := Extend(s0, longer, t, Unlock(pid));
  }

  /**
   Child 2 asks whether version 2 is still good. Before it gets the lock gc unlinks that
   version, so there is nothing to back up; and when the answer is "304 Not modified" it
   brings back version 0, the backup that an earlier cancelled transfer has left behind.
   */
  lemma StaleVersionIsRestored() returns (before: seq<Action>, m: State, run: seq<Action>, s: State)
    ensures IsRun(Fresh, before) && After(Fresh, before) == m
    ensures Cached(URL) in m.names && m.names[Cached(URL)] == 2
    ensures IsRun(m, run) && After(m, run) == s && run != [] && run[0] == StatFile(2, false, true)
    ensures Get(s.children, 2).pc.Releasing? && Cached(URL) in s.names && s.names[Cached(URL)] == 0
  {
    before, m := BackupIsLeftBehind();
    before, m := Ask(Fresh, before, m, 2);
    run, s := LookAndMiss(m);
    var first := run[0];
    run, s := OpenAndBackUp(m, run, s);
    run, s := KeepVersion(m, run, s, 2);
    assert run[0] == first;
  }

  /** Child 2 sees the file; then gc unlinks it. */
  lemma LookAndMiss(s: State) returns (run: seq<Action>, t: State)
    requires s.names == map[BackupOf(URL) := 0, Cached(URL) := 2] && s.dirs == {}
    requires Get(s.children, 2) == NoChild.(pc := Looking, url := URL, cfn := URL)
    ensures IsRun(s, run) && After(s, run) == t && run != [] && run[0] == StatFile(2, false, true)
    ensures t.names == map[BackupOf(URL) := 0]
    ensures Get(t.children, 2) == NoChild.(pc := WantLock, url := URL, cfn := URL, refresh := true, ims := true)
  {
    run, t := Extend(s, [], s, StatFile(2, false, true));
    run, t := Extend(s, run, t, GcUnlink(Cached(URL)));
  }

  lemma OpenAndBackUp(s0: State, run: seq<Action>, s: State) returns (longer: seq<Action>, t: State)
    requires IsRun(s0, run) && After(s0, run) == s && s.names == map[BackupOf(URL) := 0]
    requires Get(s.children, 2) == NoChild.(pc := WantLock, url := URL, cfn := URL, refresh := true, ims := true)
    ensures IsRun(s0, longer) && After(s0, longer) == t && run <= longer
    ensures BackupOf(URL) in t.names && t.names[BackupOf(URL)] == 0
    ensures var c := Get(t.children, 2); c.pc.Writing? && c.cfn == URL && c.ims
  {
    longer, t := Extend(s0, run, s, OpenLock(2));
    assert t.names == map[BackupOf(URL) := 0, LockOf(URL) := s.nextInode];
    assert var c := Get(t.children, 2); c.pc.BackingUp? && c.cfn == URL && c.ims;
    var before := t;
    longer, t := MakeBackup(s0, longer, before, 2);
  }

  // ---- Cancelling ----

  /** A cancelled transfer gives its lock back if and only if the cache file has the URL's own name. */
  lemma CancelReleasesOwnLock(s: State, pid: nat)
    requires Inv(s) && Get(s.children, pid).pc.Cancelling?
    ensures var c := Get(s.children, pid);
      var t := Apply(s, StatLock(pid));
      && (t.names == s.names)
      && (Get(t.children, pid).pc.Unlocking? <==> c.url == c.cfn)
      && (c.url == c.cfn ==> LockOf(c.cfn) !in Apply(t, Unlock(pid)).names)
      && (c.url != c.cfn ==> Get(t.children, pid).pc.Done? && LockOf(c.cfn) in t.names)
  {
    CancelKeepsInv(s, pid);
  }

  const ONE_DIRECTORY := Fresh.(dirs := {URL})

  /** A run in which a lock stays behind: the URL is a directory, so what is cached is its index file. */
  lemma CancelLeavesLock() returns (run: seq<Action>, s: State)
    ensures Init(ONE_DIRECTORY) && IsRun(ONE_DIRECTORY, run) && After(ONE_DIRECTORY, run) == s
    ensures Get(s.children, 1).pc.Done? && LockOf(URL + INDEX_FILE) in s.names
    ensures forall p :: !Holder(s.children, p)
  {
    run, s := Ask(ONE_DIRECTORY, [], ONE_DIRECTORY, 1);
    run, s := LockIndex(ONE_DIRECTORY, run, s);
    run, s := Extend(ONE_DIRECTORY, run, s, Finish(1, Abandoned));
    run, s := Extend(ONE_DIRECTORY, run, s, StatLock(1));
  }

  /** Child 1 finds that URL is a directory, and gets the lock of the index file. */
  lemma LockIndex(s0: State, run: seq<Action>, s: State) returns (longer: seq<Action>, t: State)
    requires IsRun(s0, run) && After(s0, run) == s && s.names == map[] && s.dirs == {URL}
    requires Get(s.children, 1) == NoChild.(pc := Looking, url := URL, cfn := URL)
    ensures IsRun(s0, longer) && After(s0, longer) == t && OnlyChild(s, t, 1)
    ensures t.names == map[LockOf(URL + INDEX_FILE) := s.nextInode]
    ensures var c := Get(t.children, 1); c.pc.Writing? && c.url == URL && c.cfn == URL + INDEX_FILE
  {
    assert |URL + INDEX_FILE| > |URL|;
    longer, t := Extend(s0, run, s, StatFile(1, false, false));
    longer, t := Extend(s0, longer, t, StatFile(1, false, false));
    longer, t := Extend(s0, longer, t, OpenLock(1));
  }
}
