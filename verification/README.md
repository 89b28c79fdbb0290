# A verified model of the CERN httpd core

This project models the stateful core of the CERN/W3C httpd 3.0 server in Dafny and proves
what that code is for. Check it with `dafny verify dfyconfig.toml`.

| file | models | main results |
|---|---|---|
| `StableSort.dfy`, `SortedTree.dfy` | the sorted tree of `HTBTree.c`, on the heap, with parent links and cached depths | adding objects and walking the tree is a stable sort; pointers and depths stay exact although the depth loops stop early and run before the links are rewired; an insertion leaves no element out of balance that was not before, unless it gives up |
| `CacheProtocol.dfy`, `CacheLocks.dfy` | the lock, commit, restore and cancel protocol of the proxy cache, as atomic file-system steps of any number of processes and the garbage collector | mutual exclusion, and a cache file that is absent or complete, in every interleaving; no lock is left behind but by a cancelled transfer of an index file; what a request that is alone leaves in the cache |
| `CacheWriter.dfy`, `CacheVerdict.dfy` | the cache writer, byte by byte, with lines that do not fit its buffer and clients that leave | any sequence of calls does what its bytes do; what client and file get for every kind of reply; which replies are cached, by the text of their headers; exactly when the line buffer is too small |
| `HeaderFilters.dfy`, `HeaderVerdict.dfy` | the HEAD, BODY and If-Modified-Since streams, and sending a cached file | one header boundary for all of them, for any sequence of calls; which header lines make a reply a 304 |
| `CacheInfo.dfy`, `CacheInfoTail.dfy` | the `.cache_info` log | records fit and round-trip; the last record of a name counts; exactly when an appended entry is found |
| `GcBuckets.dfy`, `GarbageCollector.dfy`, `GcRun.dfy`, `GcBound.dfy`, `GcLogs.dfy`, `GcVerdict.dfy` | the garbage collector, from hash chains and buckets up to a whole run over a directory tree | passes are sufficient and tight, and a whole run is sufficient but for a byte in each pass; nothing is lost or counted twice; every file is judged, and which goes; only empty directories go; the new logs hold what is recorded and answer like the old ones |
| `Wildcard.dfy`, `WildcardLanguage.dfy`, `WildcardVerdict.dfy` | the pattern parser, matcher and mapper | captures rebuild the string; a condition under which the matcher decides the language of a pattern; for one wildcard it is exact, unless the texts of the pattern have a "/~" in them |
| `Lexer.dfy`, `GroupParser.dfy`, `GroupText.dfy`, `GroupErrors.dfy`, `GroupAccess.dfy`, `GroupVerdict.dfy` | group files: lexer with one push-back slot, recursive-descent parser, resolution of references, membership | parsing undoes printing for every layout; which texts are lists, what the others admit and what is passed over behind them; references have no cycle; the check decides membership; whom names and masks admit, and which reason the others are given |
| `Translate.dfy`, `TranslateVerdict.dfy` | translation of a request path by the rules | an Exec rule loses no part of the path; the inner translation is a dry run; success means that there is something to answer with; what each kind of rule answers |
| `Usage.dfy` | usage accounting by exit statuses | an error bound for any sequence of children, against the sizes seen and, with the exact difference, against what is stored |
| `Text.dfy` | C strings and characters | |

Code that changes objects in place is a class with methods proved against functions on
values; the laws are lemmas about these functions. Lengths and counts are unbounded unless
stated, floats are reals, and bytes are characters.

## What the proofs turned up

- A process that is slow to discard its backup in `cache_created` can unlink the backup that
  the next process has made. That process then has nothing to restore when the document
  turns out to be unchanged, and the cache file is gone (`CacheProtocol.BackupCanBeLost`).
  What is served from the cache is still never incomplete.
- A cancelled refresh leaves the old version under the backup name only, also when nothing else
  happens (`CacheLocks.ServingAlone`). If gc later unlinks the version that a child
  is just asking about, a "304 Not modified" brings that older backup back
  (`CacheProtocol.StaleVersionIsRestored`; exactly when in
  `CacheProtocol.RestoresWhatWasBackedUp`).
- A cancelled transfer leaves its lock file behind if the cache file is an index file
  (`CacheProtocol.CancelLeavesLock`, `CacheProtocol.CancelReleasesOwnLock`).
- What does not fit the 256 bytes that the cache writer has for a header line goes straight to
  the cache file and to the client, so it ends up in front of the status line, and it goes out
  even for a 304 and to clients that want no headers (`CacheWriter.ReplyIsCopied`,
  `CacheWriter.NotModifiedReply`).
- If the client leaves before the headers have ended, the document is cached without its
  headers (`CacheWriter.LeavingLosesHeaders`).
- A reply that is shorter than the line buffer and has no line end is never sent, and headers
  that do not end are lost (`CacheWriter.ShortReplyIsLost`, `CacheWriter.UnfinishedReply`). The
  If-Modified-Since stream, too, outputs nothing for a reply whose headers do not end
  (`HeaderFilters.ImsOutput`).
- HEAD and the cache writer disagree on the end of the headers if a line begins with CR and
  has anything but CRs before its LF (`HeaderFilters.WriterAgreesWithHead`).
- The matcher goes on behind a failed occurrence of a text, not inside it. A pattern with one
  wildcard and no "/~" in its texts therefore misses strings exactly if the text behind the
  wildcard overlaps itself (`WildcardLanguage.CompleteIffBorderless`). With more wildcards it
  misses none if the last text does not overlap itself (`WildcardLanguage.MatchDecidesFiles`), but
  it may also miss none if it does: `*ab*aba` is an example
  (`WildcardLanguage.OverlapCanBeHarmless`).
- The bucket of a value and the threshold of a bucket agree except for the last bucket and
  values from 1.1 on (`GcBuckets.BucketsMatchThreshold`).
- An entry appended to an info log whose last line is not terminated is found under its name,
  whatever its numbers are, exactly if that line is empty from where `fgets` stopped last, or
  white space that leaves room for the longest entry of that name
  (`CacheInfoTail.EntriesAreFoundIffTailIsClean`).
- A child takes the size of its cache file before the file is closed, and before it is known
  whether the file will be kept. Bytes that are still in the buffer of the file are not counted,
  so that a file that fits the buffer is charged as one kilobyte (`Usage.BufferedIsChargedOne`,
  `Usage.SmallFileIsUndercharged`); a file that is then cancelled is charged all the same
  (`Usage.CancelledIsCharged`, `Usage.CancelledIsOvercharged`). But for rounding, the usage is off
  by exactly these bytes (`Usage.SeenIsStored`, `Usage.UsageAgainstStored`).
- After a first line that fills the buffer, of a status other than 200 and 304, a blank line is not
  cleared from the line buffer, and everything behind it is added. The buffer is too small
  exactly if that is more than 257 bytes and no line before it expires at once
  (`CacheWriter.FitsIff`).
- Decoding exit statuses is not monotone across two gaps that no encoded amount falls into
  (`Usage.DecodingIsMonotoneIff`).
- After an empty group definition the error handling passes over the next line, and the
  pushed-back token stays (`GroupErrors.EmptyDefinitionPassesOverNextLine`). A token stays so
  exactly for definitions with an item that is refused and has no address part
  (`GroupErrors.SlotIsFullIff`).
- A user with an address list is admitted from everywhere exactly if what follows the opening
  parenthesis is not the text of a list (`GroupErrors.MalformedAddressesAdmitAll`,
  `GroupErrors.UserOfLostList`). The rest of the line where the list breaks off is passed over, and
  then the next line too, unless it begins with a comma (`GroupErrors.LostListEndsLine`,
  `GroupErrors.LostListTakesNextLine`).
- A group inside a group makes the membership check forget what it has found so far: a user who
  is no member is told that the address is wrong although some item can be used from there
  (`GroupVerdict.InnerCheckForgets`; exactly when in `GroupVerdict.ReasonIsAddressIff`).
- The rule for user directories is applied again to whatever is left behind a text, so a star
  does not match a rest that begins with "/~": `/a*` matches "/ab" but not "/a/~b"
  (`WildcardVerdict.StarTakesText`).
- The sorted tree is rotated once where it would take two rotations: an element with one child that
  bends the other way is only mirrored, and stays out of balance (`SortedTree.BentIsMirrored`,
  `SortedTree.Balance`).
- If somebody unlinks the backup of a file that is being refreshed, nobody makes another, and a "304
  Not modified" restores nothing (`CacheProtocol.RunKeepsBackup`).

## Model

| member | source | states |
|---|---|---|
| SortedTree.SortWithTree | Library/Implementation/HTBTree.c:557-712 | for any comparer that is a total preorder, adding objects one by one and walking from NULL to NULL gives the stable sort of the insertion sequence |
| StableSort.InsertAllIsStableSort | Library/Implementation/HTBTree.c:89-104 | repeated insertion behind ties is sorted, has the same members and keeps the order of ties |
| StableSort.StableSortIsUnique | Library/Implementation/HTBTree.c:89-104 | there is only one such sequence |
| SortedTree.Tree.Add | Library/Implementation/HTBTree.c:89-484 | the in-order contents are those before with the object inserted stably; all links and depths stay exact and the top is the root; no element is out of balance that was not before, unless balancing gave up |
| SortedTree.Tree.InsertLeaf | Library/Implementation/HTBTree.c:144-192 | the new leaf hangs at the place of its object, behind objects it ties with |
| SortedTree.FixDepths | Library/Implementation/HTBTree.c:195-217 | stopping at the first unchanged depth leaves every depth above accurate |
| SortedTree.FixDepthsForRotation | Library/Implementation/HTBTree.c:280-321 | the loop that runs before the links are rewired leaves the depths the rotated tree needs |
| SortedTree.RotateRight | Library/Implementation/HTBTree.c:266-371 | a right rotation gives the rotated shape with all links and depths accurate, inside and above |
| SortedTree.RotateLeft | Library/Implementation/HTBTree.c:372-476 | the same for a left rotation |
| SortedTree.RotationKeepsOrder | Library/Implementation/HTBTree.c:321-371 | a rotation moves no element in the in-order sequence |
| SortedTree.RotationKeepsNodes | Library/Implementation/HTBTree.c:321-371 | a rotation loses and shares no element |
| SortedTree.IsZigzag | Library/Implementation/HTBTree.c:253-263 | the grandchild tests are safe and recognise the shapes a single rotation would only mirror |
| SortedTree.BentIsMirrored | Library/Implementation/HTBTree.c:253-263 | a rotation turns such a shape into its mirror image, which is again such a shape of the same height, and rotating that gives the first one back |
| SortedTree.Balance | Library/Implementation/HTBTree.c:225-483 | the walk up the spine ends at the unique root, with the order and the elements it began with; the tree it leaves is the one it began with after at most seven rotations, each of a subtree out of balance and lifting its deeper side; and then no element is out of balance, but for those off the spine that were so before, unless seven rotations are used up or the last was of a bent pair |
| SortedTree.FindTop | Library/Implementation/HTBTree.c:479-483 | from any element the last loop reaches the element without a father, whose tree is the whole one |
| SortedTree.TakePlace | Library/Implementation/HTBTree.c:280-345 | the rotated element takes its father's place, at the top or below the grandfather |
| SortedTree.LeafIsInsertion | Library/Implementation/HTBTree.c:116-192 | a leaf at the place found for its object is a stable insertion |
| SortedTree.FixAfterInsertion | Library/Implementation/HTBTree.c:194-217 | after the depth loop the whole tree is accurate and its contents are the stable insertion |
| SortedTree.Tree.Next | Library/Implementation/HTBTree.c:489-554 | the successor in the in-order sequence, the first element for NULL, NULL after the last |
| SortedTree.PositionIsUnique | Library/Implementation/HTBTree.c:489-554 | an element stands once in the sequence, behind exactly what its context puts before it |
| SortedTree.Walk | Library/Implementation/HTBTree.c:489-554 | following the successors visits every object exactly once, in order |
| CacheProtocol.EveryRunIsSafe | Daemon/Implementation/HTCache.c:136-697 | in every interleaving of children and gc with locks younger than the timeout, one holder per cache file, and each cache file absent or one complete committed transfer |
| CacheProtocol.StepKeepsInv | Daemon/Implementation/HTCache.c:136-697 | every atomic step of a child or of gc keeps the invariant of the protocol |
| CacheProtocol.RestoreBringsBackOldVersion | Daemon/Implementation/HTCache.c:603-653 | the 304 path restores a complete earlier version if and only if the backup is still there |
| CacheProtocol.RunKeepsBackup | Daemon/Implementation/HTCache.c:456-578 | over any run in which a child goes on with a refresh, the backup stays the same file if neither gc nor a late discard unlinks it, and is gone for good if one of them does |
| CacheProtocol.RestoresWhatWasBackedUp | Daemon/Implementation/HTCache.c:536-653 | over any run up to a 304: it restores a version if and only if nobody has unlinked the backup meanwhile, and that version was in place when the child made its backup, or else had been left under the backup name |
| CacheProtocol.StaleVersionIsRestored | Daemon/Implementation/HTCache.c:536-653 | a concrete run in which a 304 restores an older version than the request was conditional on |
| CacheProtocol.BackupCanBeLost | Daemon/Implementation/HTCache.c:655-697 | a concrete run in which a late discard takes the backup of the next process |
| CacheProtocol.CancelReleasesOwnLock | Daemon/Implementation/HTCache.c:581-600 | cancelling releases the lock if and only if the cache file has the name derived from the URL |
| CacheProtocol.CancelLeavesLock | Daemon/Implementation/HTCache.c:581-600 | a concrete run that ends with the lock file of an index file in place and nobody holding it |
| CacheProtocol.GcKeepsInv | Daemon/Implementation/HTgc.c:537-554 | gc may unlink any cache file at any time |
| CacheLocks.ReleaseRemovesLock | Daemon/Implementation/HTCache.c:603-653 | the end of a 304 unlinks the lock file and no other name |
| CacheLocks.EveryLockIsHeld | Daemon/Implementation/HTCache.c:136-697 | over every run in which no transfer of a file with another name than that of its URL is cancelled, a lock file is in place if and only if a child holds it |
| CacheLocks.LockDecides | Daemon/Implementation/HTCache.c:136-158 | a child that finds a lock gives up, or, if it is older than the timeout, unlinks it and goes on |
| CacheLocks.GcBreaksOldLocks | Daemon/Implementation/HTgc.c:536-547 | gc can start at any time, and unlinks a lock file if and only if it was older than the timeout then |
| CacheLocks.LookDecides | Daemon/Implementation/HTCache.c:475-578 | a directory stands for its index file; a current file ends the request; an old one is refreshed, and a missing one created |
| CacheLocks.NobodyIsStuck | Daemon/Implementation/HTCache.c:456-697 | a child that is not done can always take a step, in any state of the cache and of the others |
| CacheLocks.ServingAlone | Daemon/Implementation/HTCache.c:456-697 | a request that nobody disturbs, from lookup to its end: which names are in the cache afterwards for a complete transfer, a 304 and a cancelled one, and what is in the new file |
| CacheWriter.Stream.Receive | Daemon/Implementation/HTCache.c:888-1049 | any sequence of calls, bytes and blocks mixed, leaves the stream as the automaton over the bytes says; a client that leaves during one of them is taken into account |
| CacheWriter.ChunkingDoesNotMatter | Daemon/Implementation/HTCache.c:888-1049 | two sequences of calls with the same bytes give the same file, output, counts and state as long as the client stays |
| CacheWriter.LeavingSplitsTheBytes | Daemon/Implementation/HTCache.c:1001-1040 | when the client leaves, only the number of bytes before that matters |
| CacheWriter.LeavingLosesHeaders | Daemon/Implementation/HTCache.c:756-781 | for a client that leaves after any number of bytes the outcome is the same, and the headers are in the file if and only if it speaks HTTP/1 and leaves behind their end |
| CacheWriter.ReplyIsCopied | Daemon/Implementation/HTCache.c:888-998 | a 200 reply with header lines of any length: what file and client get, whether it is cached or not, and that the count is the body length |
| CacheWriter.CachedReply | Daemon/Implementation/HTCache.c:888-998 | cached for an HTTP/1 client: file and client get the same, the header lines in order with only Expires replaced, then exactly the body |
| CacheWriter.PlainReplyIsExact | Daemon/Implementation/HTCache.c:888-998 | with short lines and no Expires the client gets the reply byte for byte, and so does the file if it is cached |
| CacheWriter.UncachedReply | Daemon/Implementation/HTCache.c:810-885 | a 200 reply not worth caching is passed on, and its body does not reach the file |
| CacheWriter.NotModifiedReply | Daemon/Implementation/HTCache.c:888-998 | a 304 to a conditional request sends nothing that fits the line buffer, and ignores the rest |
| CacheWriter.UnfinishedReply | Daemon/Implementation/HTCache.c:888-998 | headers that do not end stay in the buffer and are lost |
| CacheWriter.ExpiredReply | Daemon/Implementation/HTCache.c:888-998 | a reply that expires at once is passed on from there byte for byte, behind the header lines collected before, and is never cached |
| CacheWriter.OtherReply | Daemon/Implementation/HTCache.c:888-998 | any other status: the client gets the exact upstream bytes and the file nothing, if and only if there is a line end among the first 256 bytes or the reply has exactly so many |
| CacheWriter.ShortReplyIsLost | Daemon/Implementation/HTCache.c:908-916 | a reply shorter than the line buffer and without a line end: nothing is sent, whatever it is |
| CacheWriter.CommittedBodyIsWhole | Daemon/Implementation/HTCache.c:1053-1141 | the file is moved into place if and only if its header lines make it worth caching and the last Content-Length among them does not contradict the body |
| CacheVerdict.CommittedIff | Daemon/Implementation/HTCache.c:810-885 | a 200 reply is committed if and only if the last Expires line gives a time, or the lifetime found for the last Last-Modified time, or else for that of the request, exceeds the margin; and the last Content-Length, if positive, is the length of the body |
| CacheVerdict.TimesNoted | Daemon/Implementation/HTCache.c:810-885 | which expiry time and last-modified time are noted for a reply that is kept |
| CacheVerdict.WorthInWords | Daemon/Implementation/HTCache.c:951-990 | the times and the length are those of the last lines of their names, in any case of letters, looked at up to 256 bytes and a NUL |
| CacheVerdict.PastExpiresAtOnce | Daemon/Implementation/HTCache.c:951-960 | a line makes the reply expire at once if and only if it is an Expires line with a time no later than now and the margin |
| CacheVerdict.StatusIsRead | Daemon/Implementation/HTCache.c:783-807 | the status is the number of three digits behind the protocol version and white space |
| CacheVerdict.NoStatusIsRead | Daemon/Implementation/HTCache.c:783-807 | a first line that does not begin with HTTP/, or has no blank, has none |
| CacheVerdict.NumberIsRead | Daemon/Implementation/HTCache.c:975-985 | a length is the decimal number behind white space |
| CacheVerdict.NotModifiedIff | Daemon/Implementation/HTCache.c:888-998 | a 304 counts as one if and only if the request was conditional; else it is passed on as it is |
| CacheVerdict.OtherEndsInJunk | Daemon/Implementation/HTCache.c:888-998 | any other status: the exact bytes go to the client, if there is one, and none to the file |
| CacheWriter.FitsIff | Daemon/Implementation/HTCache.c:888-990 | for which replies no byte is put behind the end of the line buffer: all but those with a full first line of a status other than 200 and 304, and, behind that line and before any line that expires at once, a blank line from which on there are more than 257 bytes |
| CacheWriter.Stream.PutChar | Daemon/Implementation/HTCache.c:888-998 | the method over its buffer and header list does one step of the writer |
| CacheWriter.Stream.Write | Daemon/Implementation/HTCache.c:1001-1040 | the block interface does what the characters one by one would do, also when the client is gone |
| CacheWriter.Stream.HeaderEnds | Daemon/Implementation/HTCache.c:951-990 | a header line is judged, replaced or kept as the writer says |
| CacheWriter.Stream.HeadersEnd | Daemon/Implementation/HTCache.c:926-950 | what the blank line decides |
| CacheWriter.Stream.BufFlush | Daemon/Implementation/HTCache.c:739-780 | the header list, kept newest first, is written in original order; the size added up is the room it needs |
| CacheWriter.Fill | Daemon/Implementation/HTCache.c:739-753 | the recursion over the list copies the lines oldest first, each behind those before it, within the room added up |
| HeaderFilters.AutomatonMeaning | Daemon/Implementation/HTDaemon.c:779-790 | the automaton is final exactly when some prefix ends in LF CR* LF |
| HeaderFilters.HeaderLengthMeaning | Daemon/Implementation/HTDaemon.c:779-810 | the headers are the shortest prefix that ends in LF CR* LF |
| HeaderFilters.HeadStream.PutChar | Daemon/Implementation/HTDaemon.c:779-788 | HEAD passes a byte while the headers last |
| HeaderFilters.HeadStream.PutBlock | Daemon/Implementation/HTDaemon.c:799-810 | HEAD passes exactly the part of a block that belongs to the headers |
| HeaderFilters.BodyStream.PutChar | Daemon/Implementation/HTDaemon.c:855-864 | BODY passes every byte and counts those behind the headers |
| HeaderFilters.BodyStream.PutBlock | Daemon/Implementation/HTDaemon.c:866-877 | the block interface of BODY passes and counts the same |
| HeaderFilters.HeadStream.Receive | Daemon/Implementation/HTDaemon.c:779-810 | any sequence of calls passes exactly the headers of all the bytes |
| HeaderFilters.BodyStream.Receive | Daemon/Implementation/HTDaemon.c:855-877 | any sequence of calls passes all the bytes and counts those behind the headers |
| HeaderFilters.ImsOutput | Daemon/Implementation/HTims.c:41-106 | the stream outputs its whole input, or the 304 line and the remaining header lines up to the first NUL, or nothing if the headers never end; the boundary is that of HEAD |
| HeaderFilters.ImsDecides | Daemon/Implementation/HTims.c:41-68 | which of the two it is depends only on the Last-Modified fields before the boundary and before the first NUL |
| HeaderFilters.ImsStream.ScanFields | Daemon/Implementation/HTims.c:41-68 | the scan of the C string at each colon finds out whether the headers say that nothing is newer |
| HeaderFilters.ImsStream.PutChar | Daemon/Implementation/HTims.c:71-88 | one byte does one step of the stream |
| HeaderFilters.ImsStream.PutBlock | Daemon/Implementation/HTims.c:91-106 | the block interface does what the characters would do |
| HeaderFilters.ImsStream.Receive | Daemon/Implementation/HTims.c:71-106 | so does any sequence of calls |
| HeaderVerdict.RepliesNotModifiedIff | Daemon/Implementation/HTims.c:41-106 | a reply is replaced by a 304 and its other header lines if and only if some Last-Modified line behind the first gives a known time no later than the limit, and there are at least twenty bytes of headers; else it is passed on as it is |
| HeaderVerdict.NotModifiedInLines | Daemon/Implementation/HTims.c:41-68 | searching at the colons finds exactly the lines of that name, in any case of letters |
| HeaderFilters.FillInKeepsBoundary | Daemon/Implementation/HTCache.c:1225-1256 | filling in the expiry time preserves the length of the file and the end of its headers |
| HeaderVerdict.PlaceholderIsFilled | Daemon/Implementation/HTCache.c:1225-1256 | a known expiry time stands behind Expires, padded with blanks to 33; without one there is the notice; nothing else of the file is changed |
| HeaderVerdict.NothingIsFilled | Daemon/Implementation/HTCache.c:1225-1256 | without a placeholder in front of the first NUL of the first load the file is sent as it is |
| HeaderFilters.LoadCacheToStream | Daemon/Implementation/HTCache.c:1202-1292 | header and body lengths add up to the file, the boundary is that of HEAD, and the client gets the file with the expiry time filled in, with or without its headers |
| HeaderFilters.SendBuffer | Daemon/Implementation/HTCache.c:1258-1286 | the scan of one buffer load sends the right part of it |
| HeaderFilters.WriterAgreesWithHead | Daemon/Implementation/HTCache.c:926 | the blank line of the writer is the boundary of HEAD if and only if it is CRs and a LF |
| CacheInfo.LineRoundTrip | Daemon/Implementation/HTCacheInfo.c:122-223 | for any name within the limit and any 64-bit values the line written fits the read buffer and is read back as the same six values |
| CacheInfo.AppendAddsRecord | Daemon/Implementation/HTCacheInfo.c:196-246 | appending an entry to a log of whole lines adds exactly its record |
| CacheInfo.EntriesEndInLine | Daemon/Implementation/HTCacheInfo.c:226-246 | a log made of entries always ends in a whole line |
| CacheInfo.LogTextIsRead | Daemon/Implementation/HTCacheInfo.c:196-246 | a log written record by record is read back as these records |
| CacheInfo.LineInWords | Daemon/Implementation/HTCacheInfo.c:196-205 | a line is the name and the five values in decimal, in this order, with tabs between them |
| CacheInfo.LineLengthInWords | Daemon/Implementation/HTCacheInfo.c:122-133 | a line of at most 255 bytes, its LF included, is read whole, and of a longer one 255 bytes at a time |
| CacheInfo.LookupIsLast | Daemon/Implementation/HTCacheInfo.c:160-188 | the record that counts is the last of its name |
| CacheInfoTail.EntriesAreFoundIffTailIsClean | Daemon/Implementation/HTCacheInfo.c:122-246 | for any log and name: every entry of that name that is appended is found, if and only if the unterminated tail is empty from the last stop of fgets on, or white space that leaves room |
| CacheInfoTail.CleanTailThenLookup | Daemon/Implementation/HTCacheInfo.c:160-246 | behind such a tail, that of a log of whole lines included, the entry is found and the lookups of other names are unchanged |
| CacheInfoTail.UncleanTailLosesEntry | Daemon/Implementation/HTCacheInfo.c:122-157 | behind any other tail there is an entry that is not found |
| CacheInfoTail.SplitAtLastStop | Daemon/Implementation/HTCacheInfo.c:122-133 | what fgets has read up to its last stop does not depend on what is appended |
| CacheInfo.Reader.Next | Daemon/Implementation/HTCacheInfo.c:122-157 | returns the records of the file in order, skipping lines that are none |
| CacheInfo.InfoFor | Daemon/Implementation/HTCacheInfo.c:160-188 | the last record of the name is the answer |
| GcBuckets.BucketsMatchThreshold | Daemon/Implementation/HTgc.c:86-120 | a value is in a bucket below n if and only if it is below the threshold for n, across the change of bucket width; exactly when the last bucket and values from 1.1 on break it |
| GcBuckets.CutoffIsTight | Daemon/Implementation/HTgc.c:101-112 | the buckets given up hold enough bytes, and without the last of them not enough |
| GcBuckets.FindThreshold | Daemon/Implementation/HTgc.c:101-120 | the loop over the table finds that cutoff |
| GarbageCollector.ComputeHash | Daemon/Implementation/HTgc.c:169-181 | the sum of the bytes modulo the table size |
| GarbageCollector.HashInWords | Daemon/Implementation/HTgc.c:169-181 | each character more adds its code, modulo 31 |
| GarbageCollector.DirTable.Lookup | Daemon/Implementation/HTgc.c:184-205 | finds the node of a name in its chain, or puts a fresh one at the head |
| GarbageCollector.DirTable.AddFile | Daemon/Implementation/HTgc.c:222-238 | a new file becomes one new node, and the count grows by one |
| GarbageCollector.DirTable.AddDir | Daemon/Implementation/HTgc.c:208-219 | a subdirectory becomes one new node with all its nodes counted |
| GarbageCollector.DirTable.SetAttributes | Daemon/Implementation/HTgc.c:241-264 | a record is merged field by field into the node of its name and nowhere else |
| GarbageCollector.DirTable.ReadInfo | Daemon/Implementation/HTgc.c:570-588 | all records of the log are merged in order |
| GarbageCollector.TableNamesAreDistinct | Daemon/Implementation/HTgc.c:184-205 | no name is in a table twice |
| GarbageCollector.Collector.Evaluate | Daemon/Implementation/HTgc.c:382-399 | every file below a directory is valued once and its bytes are counted once, in the bucket of its value |
| GarbageCollector.Collector.GetThreshold | Daemon/Implementation/HTgc.c:123-141 | the threshold of the pass; the table is added to the totals and is all zero again |
| GarbageCollector.Collector.Collect | Daemon/Implementation/HTgc.c:406-469 | unlinks, records, rewrites logs and removes directories exactly as `EffectsOf` says, in order; where the log cannot be opened nothing is recorded and the directory stays |
| GarbageCollector.PassIsSufficientAndTight | Daemon/Implementation/HTgc.c:101-141 | the files below the threshold are exactly those in the buckets below the cutoff; they total enough, without the last bucket not enough, and the first bucket always goes |
| GarbageCollector.AllBytesAreInBuckets | Daemon/Implementation/HTgc.c:123-131 | the buckets together hold the bytes of all files |
| GarbageCollector.CollectingPartitions | Daemon/Implementation/HTgc.c:424-453 | a collection unlinks exactly the files below the threshold and keeps exactly the others, recorded or not |
| GcRun.PassCollectsEnough | Daemon/Implementation/HTgc.c:595-600 | a pass over a directory in memory removes at least the fraction it must, and would not without its last bucket |
| GcVerdict.PassUnlinksWhatIsDue | Daemon/Implementation/HTgc.c:351-453 | a pass unlinks exactly the files that have expired, unless these are kept, or were last checked too long ago, or have been unused for too long, or are worth less than its threshold; it keeps the others |
| GcBound.PassIsTight | Daemon/Implementation/HTgc.c:101-141 | what would go without the last bucket is less than the fraction, as a real number |
| GcBound.RunCollectsEnough | Daemon/Implementation/HTgc.c:472-680 | over a whole run, with all its early collections, at least the fraction of all the bytes found is unlinked, but for a byte in each pass |
| GcBound.RunReachesNineTenths | Daemon/Implementation/HTgc.c:618-680 | if the counted usage is no less than what is there, what is left is at most nine tenths of the limit, but for a byte in each pass |
| GcRun.Gc | Daemon/Implementation/HTgc.c:618-680 | a whole run has the effects `GcEffects` names; bytes found = bytes collected + bytes that stay = sum of the totals; the table is zero and the expiry policy is restored |
| GcVerdict.EveryFileIsJudged | Daemon/Implementation/HTgc.c:472-603 | over a whole run over one cache every cached file that the scan comes to is unlinked or kept, as that rule says, by a pass over a directory on its way |
| GcVerdict.EveryFileOfARunIsJudged | Daemon/Implementation/HTgc.c:472-680 | the same for the three caches; expired files of the other two are never kept |
| GcVerdict.ExpiredFilesGo | Daemon/Implementation/HTgc.c:632-672 | an expired file is unlinked, except from the HTTP cache if expired files are kept |
| GcVerdict.MergedIsKnown | Daemon/Implementation/HTgc.c:222-264 | what a file is judged by: its time-stamps and size, and of each field the last value of the log that is not zero |
| GcVerdict.NamesDecide | Daemon/Implementation/HTgc.c:494-553 | which names are skipped, locks, logs, or cached files |
| GcVerdict.MemoryIsCounted | Daemon/Implementation/HTgc.c:530-602 | what stays in memory of a directory is less than the limit; one that is not to be collected at once is collected if and only if as many files are in memory as the limit |
| GcRun.ReadDir | Daemon/Implementation/HTgc.c:472-603 | reading a directory, with early collections of subdirectories, has the effects and the result `DirRead` names, and books every byte |
| GcRun.ReadEntry | Daemon/Implementation/HTgc.c:498-559 | what one directory entry does to the table, the counts and the file system |
| GcRun.FinishDir | Daemon/Implementation/HTgc.c:595-602 | a pass deals with everything pending and books it |
| GcRun.NothingIsLostOrCountedTwice | Daemon/Implementation/HTgc.c:472-603 | over a whole run every scanned file is unlinked, or recorded in a new log, or stays where no log can be written, exactly once, with its bytes; the locks removed are exactly the old ones |
| GcLogs.LogsHoldWhatIsRecorded | Daemon/Implementation/HTgc.c:416-465 | over a whole run the records in the new logs are, by directory and name, exactly the recorded files, each as often |
| GcLogs.NewLogsAnswerAsBefore | Daemon/Implementation/HTgc.c:416-465 | over a whole run every new log is that of one directory below the three roots, has one record for each name, is read back from its text, and answers like the old log of that directory wherever the last record was complete |
| GcLogs.CollectingCompacts | Daemon/Implementation/HTgc.c:416-461 | collecting a directory kept in memory writes, for it and for each directory in it, the compaction of what was read from the disk |
| GcRun.OnlyEmptyDirectoriesAreRemoved | Daemon/Implementation/HTgc.c:456-465 | a directory is removed only if every counted entry found in it was an unlinked file or an old lock |
| GcRun.RemovedIffNothingRemains | Daemon/Implementation/HTgc.c:456-465 | with an exact count and a log that can be written, a directory is removed if and only if no counted entry remains |
| GcRun.OldLocksAreRemoved | Daemon/Implementation/HTgc.c:536-547 | the lock files removed below a directory are exactly the timed-out ones |
| GcVerdict.LocksRemovedAreOld | Daemon/Implementation/HTgc.c:536-547 | they are exactly the regular files below it that are locks by name and older than the timeout |
| GcVerdict.RemovedDirectoriesAreEmpty | Daemon/Implementation/HTgc.c:456-465 | in a directory that is removed every entry but the log is a file unlinked or a lock removed |
| GcRun.DirConserves | Daemon/Implementation/HTgc.c:472-603 | for any weight of files, what is found below a directory is dealt with or pending |
| GcRun.DirSound | Daemon/Implementation/HTgc.c:498-592 | a directory kept in memory is an image of that on the disk: entries counted, files and subdirectories there, names distinct |
| GcRun.CompactionKeepsLookups | Daemon/Implementation/HTgc.c:416-461 | the new log has at most one record per file; a surviving file whose last record was complete is looked up as before, a removed one is not found |
| GcRun.RewrittenLogKeepsLookups | Daemon/Implementation/HTgc.c:416-461 | the same for the log of a directory as it was read from the disk |
| GcRun.MergedIsLastNonzero | Daemon/Implementation/HTgc.c:241-264 | merging gives each field the last value that is not zero |
| GcRun.GcFraction | Daemon/Implementation/HTgc.c:625-630 | the fraction is between 0 and 1 and brings the cache down to nine tenths of its limit |
| Wildcard.ParseIsWellFormed | Daemon/Implementation/HTWild.c:59-109 | only the head of a pattern can be plain, and only a wild last segment has no text |
| Wildcard.NewPattern | Daemon/Implementation/HTWild.c:59-109 | the loop over the buffer builds the pattern the escapes and stars mean |
| Wildcard.WriteThenParse | Daemon/Implementation/HTWild.c:59-109 | every well-formed pattern can be written down, and parsing gives it back |
| Wildcard.DoMatch | Daemon/Implementation/HTWild.c:187-253 | the recursive matcher with its search loop ends and computes `Match` |
| Wildcard.DoSearch | Daemon/Implementation/HTWild.c:225-250 | the loop tries the occurrences of a text that do not overlap the one before, and ends |
| Wildcard.ReplacedLength | Daemon/Implementation/HTWild.c:132-147 | the length added up is that of the replacement |
| Wildcard.DoReplace | Daemon/Implementation/HTWild.c:125-165 | exactly the room added up is written, with the captures in place |
| WildcardLanguage.MatchIsSound | Daemon/Implementation/HTWild.c:187-253 | a match is in the language of the pattern and its captures rebuild the string |
| WildcardLanguage.MapToSelf | Daemon/Implementation/HTWild.c:270-290 | mapping a string by a pattern to the same pattern gives the string back |
| WildcardLanguage.MatchDecidesLanguage | Daemon/Implementation/HTWild.c:187-253 | if no wild text overlaps itself, the matcher decides the language, user directories included |
| WildcardLanguage.MatchDecidesFiles | Daemon/Implementation/HTWild.c:187-253 | for strings without "/~" it is enough that the last wild text does not overlap itself |
| WildcardLanguage.CompleteIffBorderless | Daemon/Implementation/HTWild.c:187-253 | for patterns with one wildcard, with or without text before it, all files are found if and only if the text behind it does not overlap itself or a text of the pattern has "/~" in it |
| WildcardLanguage.OverlapCanBeHarmless | Daemon/Implementation/HTWild.c:225-250 | with two wildcards it is not necessary |
| WildcardLanguage.FirstWildIsFirstCapture | Daemon/Implementation/HTWild.c:313-320 | the position returned is where the first capture stands |
| WildcardVerdict.PlainMatchesItself | Daemon/Implementation/HTWild.c:187-290 | a text without stars and backslashes matches itself and nothing else |
| WildcardVerdict.StarTakesText | Daemon/Implementation/HTWild.c:178-290 | a text and a star match whatever begins with the text, and map it to another text and the rest; but not if the rest begins with /~ or file:/~, nor if the string does and the text does not |
| WildcardVerdict.UserDirNeedsText | Daemon/Implementation/HTWild.c:178-253 | what begins with /~ or file:/~ is only matched by a pattern whose first text does so, too |
| WildcardVerdict.ReplaceByPosition | Daemon/Implementation/HTWild.c:125-165 | each wildcard of the pattern that is mapped to takes the capture of its number, or nothing if there is none |
| WildcardVerdict.StarsAreOne | Daemon/Implementation/HTWild.c:59-109 | stars that stand together are one |
| WildcardVerdict.QuotedIsPlain | Daemon/Implementation/HTWild.c:59-109 | a backslash before any other character but a star or a backslash is dropped |
| WildcardVerdict.LastBackslashIsLineEnd | Daemon/Implementation/HTWild.c:59-109 | a backslash at the end is read as a line end |
| Lexer.Scanner.Lex | Daemon/Implementation/HTLex.c:42-97 | the character loop returns the next token, pushed back or read, and consumes exactly it |
| Lexer.WordIsRead | Daemon/Implementation/HTLex.c:61-97 | white space is skipped; a word ends at the next of ten characters or the end of the file, and is a template if it has a star |
| Lexer.SignIsRead | Daemon/Implementation/HTLex.c:74-88 | which token each of the seven other characters is |
| Lexer.Scanner.Unlex | Daemon/Implementation/HTLex.c:36-39 | fills the slot, which every caller leaves free before |
| Lexer.Scanner.SyntaxError | Daemon/Implementation/HTGroup.c:75-93 | passes over the rest of the line and leaves a pushed-back token alone |
| Lexer.LineIsPassedOver | Daemon/Implementation/HTGroup.c:75-93 | reading goes on behind the first line end |
| GroupParser.ParsePartOf | Daemon/Implementation/HTGroup.c:160-262 | user and address parts: the methods make of the input what the parsing functions say, newest name first |
| GroupParser.ParseItemOf | Daemon/Implementation/HTGroup.c:265-303 | an item, its error paths, and the token pushed back behind it |
| GroupParser.ParseItemListOf | Daemon/Implementation/HTGroup.c:306-333 | an item list ends, with continuation lines read over |
| GroupParser.ParseGroupDefOf | Daemon/Implementation/HTGroup.c:336-354 | a definition, kept even if there is garbage behind it |
| GroupParser.ParseGroupDef | Daemon/Implementation/HTGroup.c:336-354 | on success the push-back slot is free, and no step makes the input longer |
| GroupParser.ParseGroupDeclOf | Daemon/Implementation/HTGroup.c:357-387 | a named definition, or the error path that ends the file |
| GroupText.ParsingUndoesPrinting | Daemon/Implementation/HTGroup.c:19-41 | every group file of the documented grammar, in any layout, with line ends after any comma, is read back with every list reversed |
| GroupText.LayoutDoesNotMatter | Daemon/Implementation/HTGroup.c:19-41 | two layouts of the same definitions give the same groups |
| GroupText.DefParses | Daemon/Implementation/HTGroup.c:336-354 | a single definition is read back, and the slot ends empty |
| GroupErrors.EmptyDefinitionPassesOverNextLine | Daemon/Implementation/HTGroup.c:292-296 | an empty definition leaves its line end pushed back and loses the line behind it |
| GroupErrors.SlotIsFullIff | Daemon/Implementation/HTGroup.c:265-354 | a definition fails exactly if one of its items is refused, and leaves the slot full exactly if that item has no address part, with the token behind its user part |
| GroupErrors.ListIsReadIffSpelled | Daemon/Implementation/HTGroup.c:160-262 | behind a parenthesis a list is read if and only if the text is that of names with commas and a closing parenthesis, in any layout |
| GroupErrors.ListBreaksOff | Daemon/Implementation/HTGroup.c:160-262 | any other text has a first token that cannot stand where it does, or ends too early; the rest of that line is passed over |
| GroupErrors.MalformedAddressesAdmitAll | Daemon/Implementation/HTGroup.c:265-303 | an item with an address part loses it and admits its users from anywhere, exactly if it has users and the text behind the sign is a parenthesis that no list follows; it is refused exactly if nothing like an address follows or there are no users |
| GroupErrors.UserOfLostList | Daemon/Implementation/HTGroup.c:160-303 | for users and sign in any layout, and any text behind the parenthesis: the item has no addresses if and only if that text is not that of a list |
| GroupErrors.LostListEndsLine | Daemon/Implementation/HTGroup.c:160-303 | such an item ends with the line on which its list breaks off |
| GroupErrors.LostListTakesNextLine | Daemon/Implementation/HTGroup.c:306-354 | behind it, whatever items came before, the definition ends and the next line is passed over, whatever is on it, exactly if that does not begin with a comma; else the definition goes on behind the comma |
| GroupAccess.FindGroupDef | Daemon/Implementation/HTGroup.c:395-409 | the newest group of the name, or none |
| GroupAccess.ResolveGroupReferences | Daemon/Implementation/HTGroup.c:412-429 | every user name is linked to the newest older group of that name, if any |
| GroupAccess.AddGroupDef | Daemon/Implementation/HTGroup.c:432-437 | the list stays linked when a resolved group is put in front |
| GroupAccess.ParseGroupFileOf | Daemon/Implementation/HTGroup.c:440-449 | the groups of a file, newest first, each linked to older ones only |
| GroupAccess.ReferencesHaveNoCycle | Daemon/Implementation/HTGroup.c:412-449 | no path of references is longer than the list |
| GroupAccess.CheckDecidesMembership | Daemon/Implementation/HTGroup.c:676-737 | the check succeeds exactly for those whom the group denotes, with every address list along the references matching |
| GroupAccess.Access.UserAndInetInGroup | Daemon/Implementation/HTGroup.c:676-737 | the recursion over the linked groups ends, and its result does not depend on what the shared flag held |
| GroupAccess.IpInDefList | Daemon/Implementation/HTGroup.c:542-591 | some mask of the list matches the lower-cased name or the number |
| GroupVerdict.UserNameAdmitsUser | Daemon/Implementation/HTGroup.c:676-737 | a name that is neither a group nor reserved admits exactly the user of that name |
| GroupVerdict.ReservedNamesAdmitMany | Daemon/Implementation/HTGroup.c:710-722 | Users, All and * admit whoever has given a user name; Anybody, Anyone and Anonymous everybody |
| GroupVerdict.GroupNameAdmitsMembers | Daemon/Implementation/HTGroup.c:395-429 | the name of a group admits the members of the newest older one |
| GroupVerdict.MaskAdmitsHosts | Daemon/Implementation/HTGroup.c:542-591 | a mask admits exactly the hosts whose lower-cased name or whose number is in its language, if its last text does not overlap itself |
| GroupVerdict.PlainMaskAdmitsHost | Daemon/Implementation/HTGroup.c:542-591 | a mask without a star admits the host with that number, or with that name in small letters |
| GroupVerdict.ReasonIsAddressIff | Daemon/Implementation/HTGroup.c:676-737 | for all groups and clients, which of the two reasons a client is given who is no member: the last item that can be used from the address decides, and so does the last group mentioned there |
| GroupVerdict.ReasonWithoutGroups | Daemon/Implementation/HTGroup.c:676-737 | in a group that mentions no other, the address is the reason if and only if there are items and none can be used from there |
| GroupVerdict.InnerCheckForgets | Daemon/Implementation/HTGroup.c:676-737 | a concrete group inside a group for which it is not so |
| Translate.Translator.TranslateReq | Daemon/Implementation/HTConfig.c:452-674 | the loop over the rules, with its inner dry translation, ends with the outcome of the first rule that stops, and leaves the flag as it was |
| Translate.Translator.RunScript | Daemon/Implementation/HTConfig.c:516-547 | the split of a script path and the inner translation |
| Translate.AcceptedMeaning | Daemon/Implementation/HTConfig.c:636-674 | a path that passes is placed, and then nothing else is decided; or the client is sent to its own address with a slash added and the same query, only for a user directory without a slash; or it is refused, only for a user without a directory |
| Translate.SlashIsAddedOnce | Daemon/Implementation/HTConfig.c:638-651 | accepting the path with the slash added does not send the client back again |
| Translate.SucceedsIffAnswered | Daemon/Implementation/HTConfig.c:452-674 | translation succeeds if and only if it sets a file, a script or an address; a file excludes the others, and an address is set exactly with one of the two reasons for redirection |
| Translate.ExecLosesNothing | Daemon/Implementation/HTConfig.c:516-547 | script plus PATH_INFO is the rewritten path, cut at the first slash at or behind the first wildcard |
| Translate.DryRunOnlyTranslates | Daemon/Implementation/HTConfig.c:486-547 | the inner translation leaves script and PATH_INFO alone and sets no translated name |
| Translate.FiringRuleMatches | Daemon/Implementation/HTConfig.c:467-488 | the rule that ends the translation matches the path as rewritten before it |
| TranslateVerdict.PassPasses | Daemon/Implementation/HTConfig.c:589-674 | where a Pass rule is the first to end the translation, the answer is the path as rewritten up to it, unwrapped; or the directory of the user; or the client's own address with a slash |
| TranslateVerdict.FailRefuses | Daemon/Implementation/HTConfig.c:596-608 | Fail and Invalid refuse, Invalid not in a dry run; neither ends the translation of a path into a user directory |
| TranslateVerdict.RedirectSendsElsewhere | Daemon/Implementation/HTConfig.c:549-588 | Redirect and Moved send to the rewritten path with the query of the request, each with its own reason, if there is a pattern to map to |
| TranslateVerdict.DefaultFails | Daemon/Implementation/HTConfig.c:617-634 | without a rule that ends it the translation fails, but for user directories |
| TranslateVerdict.ExecRunsScript | Daemon/Implementation/HTConfig.c:515-547 | Exec sets the script, and PATH_INFO is translated in a dry run |
| TranslateVerdict.ScriptEndsAtSlash | Daemon/Implementation/HTConfig.c:515-547 | the script ends at the first slash behind the text before the star, of the pattern that is mapped to, or else of the pattern itself |
| TranslateVerdict.PathInfoIsTranslated | Daemon/Implementation/HTConfig.c:486-547 | PATH_INFO is translated to the path that passes |
| Usage.UsageIsClose | Daemon/Implementation/HTCache.c:1060-1068 | over any sequence of children each seeing a file of at most 12000 kilobytes, what is added is at least 5/6 of the bytes seen and at most the kilobytes seen plus the number of children that have asked for the size |
| Usage.CountedAreMany | Daemon/Implementation/HTCache.c:1060-1068 | the children counted are those that were copying a body and whose fstat answered |
| Usage.SeenIsStored | Daemon/Implementation/HTCache.c:1060-1079 | the bytes seen are those stored, but for those still in a buffer or behind a failed fstat, and those of files cancelled afterwards |
| Usage.UsageAgainstStored | Daemon/Implementation/HTCache.c:1053-1141 | the same bounds against the bytes stored, less those missed and plus those wasted; against the bytes stored alone if there are none of either |
| Usage.BufferedIsChargedOne | Daemon/Implementation/HTCache.c:1060-1070 | a file that has not left its buffer is charged as one kilobyte, which is close if and only if it has less than 2048 bytes |
| Usage.CancelledIsCharged | Daemon/Implementation/HTCache.c:1060-1079 | a file cancelled after the size was taken is charged for what was seen, which is close if and only if that is less than 1024 bytes |
| Usage.ReplyIsCharged | Daemon/Implementation/HTCache.c:1053-1141 | for any reply worth caching: what it is charged, and what is stored of it, by its length and the one announced |
| Usage.SmallFileIsUndercharged | Daemon/Implementation/HTCache.c:1060-1070 | 3000 bytes stored and one kilobyte charged |
| Usage.CancelledIsOvercharged | Daemon/Implementation/HTCache.c:1060-1079 | nothing stored and three kilobytes charged |
| Usage.UsageIsCloseInBatches | Daemon/Implementation/HTDaemon.c:480-519 | both bounds also hold when the children are reaped in any number of calls, among others that were killed |
| Usage.ReportIsClose | Daemon/Implementation/HTCache.c:101-120 | one report is at most one kilobyte too high, and at most a sixth too low if and only if it is of at most 12000 kilobytes |
| Usage.StatusFitsByte | Daemon/Implementation/HTCache.c:111-120 | the code is in 1..255, and one of the codes that are used, exactly if the kilobytes did not wrap around |
| Usage.ReportsAreMonotone | Daemon/Implementation/HTCache.c:101-120 | more bytes never give a smaller status or report |
| Usage.DecodingIsMonotoneOnCodes | Daemon/Implementation/HTCache.c:101-108 | decoding is monotone on the codes that are used |
| Usage.DecodingIsMonotoneIff | Daemon/Implementation/HTCache.c:101-108 | exactly which pairs of statuses are decoded the wrong way round |
| Usage.CodesAreUsed | Daemon/Implementation/HTCache.c:111-120 | every code outside the gaps stands for some amount |
| Usage.Parent.SigChild | Daemon/Implementation/HTDaemon.c:480-519 | the usage grows by the decoded statuses of the children that exited |
| Usage.Parent.SigChildren | Daemon/Implementation/HTDaemon.c:480-519 | so it does over any number of signals |

## Left out

- CacheProtocol.EveryRunIsSafe: says nothing about runs in which a lock outlives its timeout and is broken, or a process dies holding one; the code does not claim exclusion there. Directories do not turn into files or files into directories, and time is taken from one clock; a write sets the time-stamp of its file.
- CacheWriter.Stream.PutChar: what is written behind the end of the line buffer is undefined; the methods of `CacheWriter.Stream` require room for the next byte, and `CacheWriter.FitsIff` says exactly for which replies there always is.
- CacheWriter.CommittedBodyIsWhole: lengths that do not fit an int, and what `out.content_length` held before the reply, are not modelled.
- HeaderFilters.ImsOutput: the header block is taken to fit the stream's buffer of 8096 bytes.
- CacheInfo.LineRoundTrip: numbers beyond 64 bits on lines the server did not write are read as unbounded integers; what sscanf does on overflow is not modelled.
- CacheInfoTail.CleanTailThenLookup: two processes appending at the same moment, and NUL bytes in a log, are not modelled.
- GarbageCollector.PassIsSufficientAndTight: values are reals of at most 1; the factors of `calculate_value` are a parameter, and float rounding is not modelled.
- GarbageCollector.ComputeHash: names with bytes from 128 on, whose sum a signed char may make negative, are not modelled.
- GcRun.Gc: the counters `files_total` and `files_collected` and the report file are not modelled; nodes of directories are values, so the sharing of heap nodes is not; the cache is not changed by others during the run, so an entry appended to a log while gc rewrites it is outside the model; a log that cannot be read counts as empty.
- GcRun.OnlyEmptyDirectoriesAreRemoved: entries that could not be examined and subdirectories are counted as remaining, as in the code, so a directory with a subdirectory is never removed.
- Wildcard.DoMatch: the case-sensitive mode; the matcher cuts and restores the string in place, the model uses slices of it.
- WildcardLanguage.MatchDecidesFiles: with several wildcards the condition is sufficient, not necessary; which patterns whose last text overlaps itself still miss nothing is not characterised.
- GroupParser.ParsePartOf: one method for the two parts, which differ only in whether names may have wildcards; names are taken to fit the lexer's buffer of 256 bytes, line numbers and messages are not modelled.
- Lexer.Scanner.Lex: bytes from 128 on, which a signed char may confuse with the end of the file, are not modelled; nor is the reuse of one lexer for two files at a time.
- GroupAccess.Access.UserAndInetInGroup: the cache of group files is not modelled.
- GroupVerdict.MaskAdmitsHosts: for masks whose last text overlaps itself only soundness is claimed (`WildcardLanguage.MatchIsSound`).
- Translate.Translator.TranslateReq: protection setups, `unwrap` and the user's home directory are parameters or left out.
- GcBound.RunCollectsEnough: needs values of at most 1, as the buckets do.
- Translate.SlashIsAddedOnce: the way of the new request through the rules is not followed.
- Usage.UsageAgainstStored: how many bytes stay in the buffer of a file is a parameter of each transfer; a file that cannot be closed for lack of room is not modelled.
- Usage.Parent.SigChild: the results of gc that the parent reads when gc ends are not modelled.
- Sockets, `select`, signals, timers, uid switching, VMS branches, tracing and log writing: foreign calls only.
- SortedTree.Balance: the code makes single rotations only, and at most seven, so it does not keep every tree balanced; in which trees it uses all seven up is not characterised.
- URL parsing, escaping, times, `crypt` and directory listings are parameters or not part of this model.
- HTAtom, HTAssoc, HTChunk, suffix tables, status texts, error pages and directive parsing would only add easy members.
