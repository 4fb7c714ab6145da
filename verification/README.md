# ToxSuite: a verified model of its computing parts

ToxSuite is a Tox client for testing. Most of its code connects libraries; six parts of it compute something with a
specification of their own. This project models those parts and proves what they promise, for all inputs and over whole
runs.

- **Bencode** (`Bytes`, `Numerals`, `Bencode`, `BencodeGrammar`, `BencodeLaws`, `BencodeIO`, `BencodeTree`). The
  encoder into a caller's buffer, the size prediction, and the decoder over a cursor run on arrays and fields. They are
  proved against a plain definition of the format (BEP 3, section "bencoding", as this code reads it). What that
  definition accepts, rejects and prints is characterised by a description of the texts in literal bytes; the other
  laws are round trip, unique readability, exact buffer size, a normal form for every accepted input.
- **Lists** (`LinkedList`, `HashList`, `SortedInsertion`, `Sequences`). Nodes on the heap with `next` and `prev`
  (`first`, `next` and `pprev` for hlists), refined to sequences of nodes. An entry is a node together with its
  payload. `IsList` says that the head and the entries form one cycle in both directions.
- **Friends and transfers** (`Friends`, `FileQueue`, `Persistence`, `SharedList`). Sorted insertion, removal during a
  walk, the hand-over of senders from one queue to another, saving a queue and loading it with other friends.
- **Indexer** (`Indexer`, `IndexerLaws`, `SharedIndex`). `SharedIndex.Index` is the imperative state of `fileop.c`;
  `Indexer.Step` is one call of `file_do` as a function. The laws are about runs of calls and SIGUSR1 signals.
- **Call tests** (`CallSteps`, `CallTable`, `CallScript`, `CallTest`, `Timespec`). One tester and its life, the table of
  testers under any interleaving of calls, state changes, audio frames and ticks, the whole sequence of effects that a
  friend notices, and the code that does it on the list.
- **Log levels** (`LogLevels`, `Ylog`). The single pass over the pattern string against a plain definition, and the
  cached levels of the registered source files.

What the code cannot compute itself comes in as parameters: the file system and `ftw` (visits, what opens and reads),
the clock, `fnmatch`, the answers of toxcore and toxav, and what `malloc` and `realloc` leave undefined.

Where the code does something other than its comments or a reader would expect, the model follows the code:

- The "why +1" at `src/tsfiles.c:185` has an exact answer (`BencodeIO.BufferExact`): every tree except a non-empty
  string needs one byte more than `be_node_len`, for the NUL behind the last thing printed.
- A round trip fails exactly for trees with a null string or a NUL inside a key (`BencodeLaws.RoundTrip`). A truncated
  string is accepted as a null string (`BencodeLaws.TruncatedString`), so such trees do occur.
- `timespec_subtract` is right when the result is the first operand, but not when it is the second
  (`Timespec.Subtract`).
- 10000 as the default log level makes registered files look unregistered; logging from one of them puts it into the
  list twice, and the list never ends (`Ylog.Ylog.Log`, `Ylog.LooksUninitialized`).

## Model

| member | source | states |
|---|---|---|
| `Bytes.StrToLLNumber` | src/bencode/bencode.c:48-59 | strtoll as the decoder uses it: blanks and a sign are skipped, leading zeros count for nothing, values saturate, reading stops right behind the digits |
| `Bytes.StrToLLDecimal` | src/bencode/bencode.c:48-59 | reading inverts printing for every 64 bit integer |
| `Bytes.DecimalFitsBuffer` | src/tsfiles.c:64-68 | the text of any long long and its NUL fit the 22 byte buffer |
| `Numerals.DecimalIsPlain` | src/bencode/bencode.c:434-488 | what "%lli" prints is the one text of the number in plain digits: no needless zero, no plus, a minus only for negative numbers |
| `Numerals.LooseIsRead` | src/bencode/bencode.c:48-59 | every text of blanks, one sign and digits is read with its value, cut to 64 bits, up to the first other byte |
| `Numerals.ReadIsLoose` | src/bencode/bencode.c:48-59 | whatever is read as a number is such a text, and where nothing is read the value is 0 |
| `Bencode.ParseEncoding` | src/bencode/bencode.c:143-297 | whatever follows an encoding, the decoder returns the normal form of the tree and stops exactly at the end of the encoding |
| `BencodeGrammar.AcceptedLanguage` | src/bencode/bencode.c:143-297 | the decoder accepts a text as a tree, leaving a rest, if and only if the bytes before the rest are in the language for that tree, which is described by literal bytes alone: l and d around items and entries up to e, i and e around a number, length, colon and payload, a bare length whose payload is missing |
| `BencodeGrammar.RejectedLanguage` | src/bencode/bencode.c:143-297 | it rejects a text if and only if no front part of it is in the language for any tree |
| `BencodeGrammar.AcceptedFront` | src/bencode/bencode.c:299-302 | the tree it returns is one that a front part of the text reads as, and the only one |
| `BencodeGrammar.PrintedLanguage` | src/bencode/bencode.c:434-488 | a text is the encoding of a tree if and only if it is printed by the rules for literal bytes: plain decimal lengths and numbers, keys up to their first NUL, marks and ends |
| `BencodeGrammar.CStrIsUpToNul` | src/bencode/bencode.c:434-488 | what is printed of a key is its longest front part without a NUL |
| `BencodeLaws.NormIdentity` | src/bencode/bencode.c:69-141 | the normal form is the tree itself if and only if no string is null and no key holds a NUL |
| `BencodeLaws.EncodingOfNorm` | src/bencode/bencode.c:434-488 | a tree and its normal form have the same encoding |
| `BencodeLaws.RoundTrip` | src/bencode/bencode.c:434-488 | decoding an encoding followed by any bytes gives the tree and leaves those bytes, if and only if the tree has no null string and no NUL in a key |
| `BencodeLaws.UniqueReadability` | src/bencode/bencode.c:143-297 | if two encodings begin the same text they are equal, so none is a proper prefix of another |
| `BencodeLaws.EncodingInjective` | src/bencode/bencode.c:434-488 | equal encodings mean equal normal forms, and equal trees if both are clean |
| `BencodeLaws.ParseGrowth` | src/bencode/bencode.c:143-297 | re-encoding a decoded tree takes at most twice the bytes that were read |
| `BencodeLaws.DecoderNormalForm` | src/bencode/bencode.c:143-297 | for every accepted input one trip through encoder and decoder gives the normal form, and further trips change nothing |
| `BencodeLaws.LenientInteger` | src/bencode/bencode.c:48-59 | integers with blanks, plus, leading zeros or out of range are accepted, with the value they get |
| `BencodeLaws.EmptyInteger` | src/bencode/bencode.c:48-59 | "ie" is the integer 0 |
| `BencodeLaws.TruncatedString` | src/bencode/bencode.c:69-141 | a string longer than the input is accepted as a null string, and only its length is consumed |
| `BencodeLaws.NulGuards` | src/bencode/bencode.c:143-302 | if a NUL follows the data, the decoder never reads behind it and data_len never gets negative |
| `BencodeIO.NumDigits` | src/tsfiles.c:64-68 | the length of the decimal text |
| `BencodeIO.NodeLen` | src/tsfiles.c:70-99 | the predicted size is the length of the encoding, for trees of any depth |
| `BencodeIO.Encode` | src/bencode/bencode.c:434-488 | with at least the predicted room the buffer holds exactly the image of the tree at its place and is unchanged everywhere else, and the reported length is the defined one |
| `BencodeIO.EncodeStr` | src/bencode/bencode.c:434-488 | the same for a string: the payload overwrites the NUL behind its length prefix |
| `BencodeIO.EncodeList` | src/bencode/bencode.c:434-488 | the same for a list, whose items are printed over each other's NULs |
| `BencodeIO.EncodeDict` | src/bencode/bencode.c:434-488 | the same for a dictionary: keys up to their first NUL, in insertion order |
| `BencodeIO.BufferExact` | src/tsfiles.c:185-188 | the whole encoding arrives and its length is reported if and only if one byte more than predicted is given or the tree is a non-empty string; what the buffer holds and what is reported is spelled out for every tree and room: with exactly the predicted room the last byte is lost to a NUL, and a number or an empty string is reported one byte short |
| `BencodeIO.Reader.DecodeInt` | src/bencode/bencode.c:48-59 | the cursor invariant is kept and the value and rest are those of strtoll |
| `BencodeIO.Reader.DecodeStr` | src/bencode/bencode.c:69-141 | the cursor invariant is kept; a string is its length, a colon and that many bytes, or null |
| `BencodeIO.Reader.Decode` | src/bencode/bencode.c:143-297 | data_len always counts the remaining data, a decoded node consumes at least one byte, and result and rest are those of the definition, whatever follows the data; which inputs those are, and which are refused, is `BencodeGrammar.AcceptedLanguage` and `BencodeGrammar.RejectedLanguage` |
| `BencodeIO.Reader.DecodeItems` | src/bencode/bencode.c:160-201 | the list loop ends and reads the items up to the closing mark |
| `BencodeIO.Reader.DecodeEntries` | src/bencode/bencode.c:202-251 | the dictionary loop ends and reads keys and values up to the closing mark, rejecting on a missing one |
| `BencodeIO.DecodeText` | src/bencode/bencode.c:299-302 | be_decoden returns exactly what the definition accepts, and null for what it rejects; in terms of bytes that is `BencodeGrammar.AcceptedFront` |
| `BencodeTree.CreateDict` | src/bencode/bencode.c:491-495 | decoding "de" makes an empty dictionary |
| `BencodeTree.CreateList` | src/bencode/bencode.c:498-502 | decoding "le" makes an empty list |
| `BencodeTree.AddKeypair` | src/bencode/bencode.c:567-612 | appends the pair behind all others, or refuses a node that is no dictionary and leaves it alone |
| `BencodeTree.AddList` | src/bencode/bencode.c:615-636 | appends the item behind all others, or refuses a node that is no list and leaves it alone |
| `LinkedList.InitListHead` | src/list.h:97-101 | the head of an empty list |
| `LinkedList.ListAdd` | src/list.h:133-136 | insertion right behind the head or any entry |
| `LinkedList.ListAddTail` | src/list.h:147-150 | insertion right before the head or any entry |
| `LinkedList.ListDelEntry` | src/list.h:172-175 | the list without the entry, which keeps its own links |
| `LinkedList.ListDel` | src/list.h:177-182 | the list without the entry, which is poisoned |
| `LinkedList.ListDelInit` | src/list.h:215-219 | the list without the entry, which is an empty list of its own |
| `LinkedList.ListReplace` | src/list.h:195-202 | the new node stands where the old one stood, also when the old one is a head with an empty list |
| `LinkedList.ListReplaceInit` | src/list.h:204-209 | the same, and the old node is an empty list |
| `LinkedList.ListMove` | src/list.h:226-230 | the entry leaves its list for the front of another or of the same one |
| `LinkedList.ListMoveTail` | src/list.h:237-242 | the entry leaves its list for the back of another or of the same one |
| `LinkedList.ListRotateLeft` | src/list.h:287-295 | the first entry becomes the last; empty and one-element lists stay |
| `LinkedList.ListTests` | src/list.h:249-304 | the pointer comparisons of list_empty, list_empty_careful, list_is_last and list_is_singular mean what their names say |
| `LinkedList.ListCutPosition` | src/list.h:332-344 | the entries up to a position move to the other head, the rest stays; an empty list is left alone |
| `LinkedList.ListSplice` | src/list.h:365-370 | the entries of one list stand behind a position of another |
| `LinkedList.ListSpliceTail` | src/list.h:377-382 | the entries of one list stand before a position of another |
| `LinkedList.ListSpliceInit` | src/list.h:391-398 | the same as list_splice, and the emptied head is a valid empty list |
| `LinkedList.ListSpliceTailInit` | src/list.h:408-415 | the same as list_splice_tail, and the emptied head is a valid empty list |
| `LinkedList.CutAndSplice` | src/list.h:332-370 | cutting a list anywhere and splicing the piece back restores every link |
| `LinkedList.SafeFirst` | src/list.h:592-596 | a safe walk starts on the first entry with its successor saved |
| `LinkedList.SafeNext` | src/list.h:592-596 | whatever the body did to the current entry, the saved successor is still the next member of the list |
| `LinkedList.DelOnWalk` | src/list.h:592-596 | deleting the entry under the cursor keeps what the walk kept and what lies ahead |
| `HashList.UniqueSlot` | src/list.h:686-694 | the back-pointer of a node names the one slot of its chain that points to it |
| `HashList.HListTests` | src/list.h:676-684 | hlist_empty says whether the chain is empty, and no node of a chain is unhashed |
| `HashList.AddHead` | src/list.h:711-719 | the node is the first of the chain, all back-pointers in place |
| `HashList.AddBefore` | src/list.h:722-729 | insertion before an entry, all back-pointers in place |
| `HashList.AddBehind` | src/list.h:731-740 | insertion behind an entry, all back-pointers in place |
| `HashList.Unlink` | src/list.h:686-694 | the chain closes over the entry |
| `HashList.Del` | src/list.h:696-701 | the chain without the entry, which is poisoned |
| `HashList.DelInit` | src/list.h:703-709 | the chain without the entry, which is unhashed; nothing happens to an unhashed node |
| `HashList.MoveList` | src/list.h:757-764 | the chain moves to the other head, the old head is empty |
| `SortedInsertion.InsertSorted` | src/friend.c:36-43 | insertion before the first greater number keeps the order, and keeps numbers distinct if this one is new |
| `SortedInsertion.SlotPlace` | src/friend.c:36-43 | everything before the slot is at most the number, and what stands at it is greater |
| `SortedInsertion.FindSlot` | src/friend.c:36-43 | the loop finds the node in front of which the number belongs |
| `Friends.FindByNumberFirst` | src/friend.c:261-272 | a lookup by number gives the first match, and nothing only if there is none |
| `Friends.FindByKeyFirst` | src/friend.c:248-258 | a lookup by key gives the first match, and nothing only if there is none |
| `Friends.ByFriendNumber` | src/friend.c:261-272 | the walk returns the node that the lookup defines |
| `Friends.ByPublicKeyBin` | src/friend.c:248-258 | the walk returns the node that the lookup defines |
| `Friends.AddEntry` | src/friend.c:25-45 | the new friend stands at its slot, all others stay in order |
| `Friends.KeptFriends` | src/friend.c:315-328 | a node is kept if and only if its friend was never seen, or the time since then, modulo 2^64, is below the timeout; the kept ones are a subsequence of the list |
| `Friends.Cleanup` | src/friend.c:315-328 | the list that remains is the selection that `Friends.KeptFriends` describes |
| `FileQueue.SenderNew` | src/file.c:71-83 | a sender with every field zero or null at the front |
| `FileQueue.SenderDestroy` | src/file.c:85-104 | the queue without the sender |
| `FileQueue.QueueSize` | src/file.c:47-56 | the number of senders |
| `FileQueue.SenderGet` | src/file.c:58-69 | the first sender with that friend and file number, or null if there is none |
| `FileQueue.AddFileSender` | src/file.c:112-155 | the state of a sender after it was offered, for every answer, and the result: toxcore's number, or UINT32_MAX for a sender that does not get as far; a sender that does is open and carries the number that is returned |
| `FileQueue.OfferedFields` | src/file.c:112-155 | field by field: toxcore's number is stored, a length of 0 and a missing hash are filled in, those already there, path, name, friend and all else stay; a sender without a path, or whose file does not open, is left alone |
| `FileQueue.OwnPrefixLongest` | src/tsfiles.c:260-274 | the number of senders handed over is the length of the longest front part that belongs to the friend |
| `FileQueue.HandOver` | src/tsfiles.c:267-269 | the entry under the cursor changes queues; both stay valid and apart |
| `FileQueue.ResumeSend` | src/tsfiles.c:260-274 | that front part ends up, reversed, at the front of the send queue; the rest of the load queue stays, the multiset of all senders is unchanged, and only those handed over are offered, the k-th offer with the k-th answer, which leaves each sender as `FileQueue.OfferedFields` says |
| `FileQueue.ResumeThenGet` | src/tsfiles.c:260-274 | resume_send and then a lookup in the send queue with the number that toxcore gave a resumed sender: it returns that very node if and only if no sender resumed later got the same number |
| `Persistence.EncodeFileNode` | src/tsfiles.c:30-40 | appends name, length and hash |
| `Persistence.DecodeFileNode` | src/tsfiles.c:42-61 | reads known slots in order, later ones override, unknown ones are ignored |
| `Persistence.LastSlotIsRead` | src/tsfiles.c:42-61 | for any dictionary, the last slot of a name gives its field |
| `Persistence.ReadInfoKeeps` | src/tsfiles.c:42-61 | a slot that does not occur leaves its field alone; time and presence are never read |
| `Persistence.FileNodeRoundTrip` | src/tsfiles.c:30-61 | name, length and hash survive, nothing else changes |
| `Persistence.SenderSpelled` | src/tsfiles.c:217-237 | the tree of a sender: toxid, path and info, and in info name, length and hash, in this order and under these names |
| `Persistence.SavedItemAt` | src/tsfiles.c:217-237 | the k-th saved tree is that of the k-th sender, with the public key of its friend |
| `Persistence.SavedCountLongest` | src/tsfiles.c:217-227 | what is saved is the longest front part with paths and known friends |
| `Persistence.SaveSenders` | src/tsfiles.c:204-258 | the file is the encoding of exactly those senders; it is removed if there are none |
| `Persistence.LoadableLanguage` | src/tsfiles.c:101-139 | a file loads as a tree if and only if a front part of it, with the memory behind it, reads as that tree in the language of the decoder |
| `Persistence.DroppedIsUnknown` | src/tsfiles.c:295-306 | of any file, a sender is dropped if and only if one of its public keys is no friend's |
| `Persistence.LastSenderSlot` | src/tsfiles.c:295-318 | the last slot of a name gives the friend number of today, the path, or the info |
| `Persistence.ReadSenderKeeps` | src/tsfiles.c:295-318 | a slot that does not occur leaves its field alone, and no other field changes |
| `Persistence.LoadSenders` | src/tsfiles.c:276-322 | the senders of the file, in reverse, stand in front of the queue; an unreadable file changes nothing; the buffer has the size of the file and any memory behind it |
| `Persistence.SaveThenLoad` | src/tsfiles.c:204-322 | a saved file read with any later friend list gives exactly the survivors: the saved front part without the senders whose key is gone, with the friend numbers of today, whatever stands in memory behind the buffer of the file's size |
| `Persistence.SurvivorsSpelled` | src/tsfiles.c:204-322 | the survivors, sender by sender: path, name, length and hash as saved, the friend number of today, everything else zero, and nothing at all if the key is gone |
| `Persistence.SaveAndReload` | src/tsfiles.c:204-322 | the same for the two procedures run one after the other on the heap |
| `Persistence.UnchangedFriends` | src/tsfiles.c:276-322 | with the same friends and distinct keys everyone survives with the same friend number |
| `Persistence.RestartKeepsOrder` | src/tsfiles.c:260-322 | load and resume reverse twice: for any survivors, what the friend gets is their longest end that is its own, in the old order, and the rest is everything before |
| `Persistence.Restart` | src/tsfiles.c:204-322 | save, load and resume one after the other on the heap: the longest end of the survivors (`Persistence.SurvivorsSpelled`) that belongs to the friend stands in its old order at the front of the send queue, each as its offer leaves it (`FileQueue.OfferedFields`), and all survivors before it stay in the load queue |
| `SharedList.DumpShrlist` | src/tsfiles.c:169-202 | the file is the encoding of one dictionary per shared file; nothing is written for an empty list |
| `SharedList.LoadShrlist` | src/tsfiles.c:141-166 | the list it builds is the old list and then every file of the dump; the buffer has the size of the file and any memory behind it |
| `SharedList.InfoNodeAt` | src/tsfiles.c:176-183 | the k-th dictionary of the dump holds name, length and hash of the k-th file, under these names |
| `SharedList.DumpThenLoad` | src/tsfiles.c:141-202 | every file comes back in its place with its name, length and hash |
| `IndexerLaws.StepKeeps` | src/fileop.c:203-292 | every call keeps paths distinct, hashing -1 or a pack number, and the stream open exactly while hashing; the list never shrinks and packs keep their paths |
| `IndexerLaws.PacksStay` | src/fileop.c:203-292 | the same over any further events |
| `IndexerLaws.NewFilesView` | src/fileop.c:100-142 | the old index with the queue laid over it is the old index with the walk laid over it |
| `IndexerLaws.QueuedExactly` | src/fileop.c:100-142 | one more visit queues the file as visited, and marked present, if and only if it is a regular file and no entry has its path, time and size |
| `IndexerLaws.HoldsIsView` | src/fileop.c:108-119 | an entry with path, time and size is in the list if and only if the index as a map holds them |
| `IndexerLaws.IndexAgrees` | src/fileop.c:203-292 | at every moment of every run index and queue together are all walks so far, the latest winning |
| `IndexerLaws.IndexSettles` | src/fileop.c:203-292 | once the queue is empty the index alone is all walks so far |
| `IndexerLaws.UnchangedTree` | src/fileop.c:100-163 | if every regular file visited has an entry with its path, time and size, the call queues nothing, clears the recheck flag and changes presence only; otherwise something is queued and the flag stays set for it |
| `IndexerLaws.UnchangedIsView` | src/fileop.c:100-142 | that is so if and only if the index as a map contains the snapshot of the walk |
| `IndexerLaws.NoWalk` | src/fileop.c:149-154 | a directory without a real path: only presence is looked up, and the flag stays |
| `IndexerLaws.Idle` | src/fileop.c:203-292 | a call with nothing to do changes nothing |
| `IndexerLaws.HashingStep` | src/fileop.c:55-95 | while a file is hashed a call reads one slice, or closes the stream and reports the file with its number; the flag then survives only if more is queued |
| `IndexerLaws.FailedOpen` | src/fileop.c:267-291 | a call returns -1 if and only if it comes to a queued file that does not open; that file is reported all the same |
| `IndexerLaws.ReportsNamePacks` | src/fileop.c:276-278 | in every run each report carries the pack number under which the index still has its path |
| `IndexerLaws.StepReports` | src/fileop.c:203-292 | a call reports at most one file, the next pending one; walks add pending files, the last visited first |
| `IndexerLaws.ReportedOnce` | src/fileop.c:203-292 | over every run reported and pending files are together the queued ones: each is reported exactly once |
| `IndexerLaws.StepWorks` | src/fileop.c:55-95 | on stable files each call does exactly one unit of the remaining work |
| `IndexerLaws.Drain` | src/fileop.c:203-292 | draining takes exactly the sum of ceil(size / 65536) + 1 calls, not fewer, and reports the pending files in order |
| `IndexerLaws.WalkThenDrain` | src/fileop.c:203-292 | a call that walks and finds files also does its unit of work |
| `SharedIndex.Index.RecheckCallback` | src/fileop.c:185-189 | SIGUSR1 sets the recheck flag and nothing else |
| `SharedIndex.Index.WalkCallback` | src/fileop.c:100-142 | queues the visited file, or leaves the queue alone if and only if the visit is no regular file or an entry has its path, time and size |
| `SharedIndex.Index.WalkShared` | src/fileop.c:144-163 | a walk queues what `IndexerLaws.QueuedExactly` describes, visit by visit, and clears the flag if that is nothing |
| `SharedIndex.Index.ExistsShared` | src/fileop.c:166-182 | the presence of every entry is what access says |
| `SharedIndex.Index.ChecksumSlice` | src/fileop.c:55-95 | open on first use, one read, close at the end |
| `SharedIndex.Index.TakeLast` | src/fileop.c:217-263 | the last queued file replaces the entry with its path or is appended, and is hashed next |
| `SharedIndex.Index.FileDo` | src/fileop.c:203-292 | one call is one step of the specification, for all its static variables and the result; what a step queues, hashes, reports and returns is `IndexerLaws.UnchangedTree` and the laws around it |
| `Timespec.Compare` | src/timespec.h:63-70 | the sign of the difference in nanoseconds |
| `Timespec.Equal` | src/timespec.h:51-55 | equality of the nanoseconds |
| `Timespec.IsValid` | src/timespec.h:75-84 | non-negative and normalised |
| `Timespec.Subtract` | src/timespec.c:101-111 | normalised, and equal to the difference if and only if the result is not the second operand (or the operands are one, or the difference is from 0 to below a second) |
| `Timespec.NanosecDiff` | src/timespec.c:87-99 | normalised and equal to the difference |
| `Timespec.NanosecTimeout` | src/timespec.c:28-34 | elapsed, as an unsigned number, is at least the timeout; a plain comparison if the clock went forward |
| `Timespec.AddMs` | src/timespec.c:41-52 | exact for either sign, normalised if the increment is not negative |
| `Timespec.AddMicros` | src/timespec.c:54-66 | exact for either sign, normalised if the increment is not negative |
| `Timespec.AddNs` | src/timespec.c:68-80 | exact for either sign, normalised if the increment is not negative |
| `Timespec.IterDiv` | src/timespec.h:107-123 | quotient modulo 2^32 and remainder by repeated subtraction |
| `Timespec.AddUnsignedNs` | src/timespec.h:133-137 | exact if and only if the sum fits 64 bits and the carried seconds fit 32 |
| `Timespec.AddBothWays` | src/timespec.h:133-137 | timespec_add_ns and timespec_addns leave the same struct wherever both are exact |
| `CallSteps.ReceivedAppends` | src/call.c:231-244 | a frame with the recording's channel count is appended to it, although the buffer is resized and copied by counts; the recording takes the frame's rate |
| `CallSteps.ReceivedSpelled` | src/call.c:231-244 | for any frame: counts and rate are the frame's, the frame stands at the end, and before it the old samples as far as they reach |
| `CallSteps.DelayIsFrameTime` | src/call.c:288-289 | the delay after a frame is 20 ms if and only if the sample rate is a multiple of 50 and the 32 bit product does not wrap |
| `CallSteps.FrameSpelled` | src/call.c:288-289 | a frame is the whole samples in 20 ms by a 32 bit product, and the delay the whole milliseconds it plays |
| `CallSteps.StepNeverDecreases` | src/call.c:358-429 | no event takes a tester back; the recording changes only by frames during RECORDING; only a tick in BYE destroys; ENTERING, SAVING and SENDING end with the next tick |
| `CallSteps.PlayTick` | src/call.c:285-306 | a tick sends one of the frames left or ends the phase |
| `CallSteps.PhaseCountsFrames` | src/call.c:358-429 | while the greeter or the echo lasts, ticks and frames left add up, so it lasts at most ceil(samples / frame) ticks |
| `CallSteps.PhaseLasts` | src/call.c:358-429 | if all sends succeed and nobody hangs up, the phase is still on if and only if at most ceil(samples / frame) ticks have passed |
| `CallSteps.RecordingLasts` | src/call.c:385-393 | RECORDING is still on if and only if no tick so far was a timeout since its start |
| `CallSteps.TenSeconds` | src/call.c:387 | on a forward clock a timeout is ten seconds |
| `CallSteps.EchoSends` | src/call.c:412-416 | each tick of the echo sends the next frame of the recording |
| `CallSteps.FrameAt` | src/call.c:285-306 | the k-th of these frames starts k frame sizes behind the first |
| `CallSteps.OfferAndEcho` | src/call.c:402-416 | from SENDING on, an undisturbed tester offers its file, sends consecutive frames from the first sample to the end of its recording, and is in BYE after exactly ceil(samples / frame) + 2 ticks |
| `CallScript.GreeterTick` | src/call.c:362-383 | one tick of ENTERING or GREETER, for every answer: mute at first, the next frame, and with the last one unmute and RECORDING from this time on |
| `CallScript.OtherTicks` | src/call.c:385-428 | one tick of RECORDING, SAVING, SENDING and BYE: its effects and the tester after it |
| `CallScript.CallFollowsScript` | src/call.c:358-429 | at every moment of an undisturbed life its effects so far, and the script of where it stands, are the script of where it began |
| `CallScript.GreeterEnds` | src/call.c:367-383 | from ENTERING or GREETER on, RECORDING starts with the tick behind the last frame, at the time of that tick |
| `CallScript.Greeted` | src/call.c:361-383 | an undisturbed call begins with mute, exactly the frames of the whole greeter in order, and unmute, in ceil(samples / frame) + 1 ticks |
| `CallScript.FinalRecordHeard` | src/call.c:213-245 | the final recording is what was recorded before and then exactly the frames that arrive during RECORDING |
| `CallScript.WholeCall` | src/call.c:358-429 | all effects of an undisturbed call in their order: mute, the greeter, unmute, mute, the saved file with exactly what was heard, the offer, the echo from the first sample on, and cancel |
| `CallSteps.MeasureFalls` | src/call.c:358-429 | the lexicographic measure (steps left, frames left) never rises and falls with every tick that ends a recording in progress |
| `CallSteps.EveryTesterLeaves` | src/call.c:358-429 | on every event stream with an advancing clock every tester is destroyed |
| `CallSteps.EverySecondAdvances` | src/call.c:278-283 | a clock that ticks every second is such a clock |
| `CallSteps.AliveBound` | src/call.c:358-429 | a tester that is still there has seen at most ceil(samples / frame) + 1 greeter ticks, the ticks that found its recording not yet over, one each to end RECORDING, SAVING and SENDING, and ceil(samples / frame) + 1 echo ticks, whatever the clock does |
| `CallTable.Pointwise` | src/call.c:81-191 | every event keeps the table strictly sorted, and does to each friend's tester exactly what it does to that tester alone |
| `CallScript.CallSpelled` | src/call.c:81-121 | a call gives a friend without a tester one in ENTERING, with these fields, and changes nothing else |
| `CallScript.StateSpelled` | src/call.c:167-191 | what each state bit does to each friend: error nothing, sending audio the same as a call, finished BYE |
| `CallScript.AudioSpelled` | src/call.c:213-245 | a frame changes the record of its friend's tester during RECORDING, and nothing else |
| `CallScript.GreetedInTable` | src/call.c:154-383 | from the call event of a friend without a tester on: the greeter is heard as above and then the table holds its tester in RECORDING, started at the time of the last tick |
| `CallTable.AlwaysSorted` | src/call.c:81-139 | over any events at most one tester for a friend, in ascending order |
| `CallTable.PassKeepsOrder` | src/call.c:278-283 | one pass removes exactly the testers in BYE and keeps the others in order |
| `CallScript.PassEffects` | src/call.c:278-283 | the effects of a pass are those of its testers in the order of the table |
| `CallTable.RecordingFaithful` | src/call.c:213-245 | with one channel count the recording is the concatenation of exactly the frames that arrived while the step was RECORDING, over every run |
| `CallTable.SavedIsHeard` | src/call.c:395-400 | the file that SAVING writes holds that concatenation |
| `CallTable.InvariantInRun` | src/call.c:81-283 | what new testers have and no event takes away, all testers have in every run |
| `CallTable.EchoIsHeard` | src/call.c:395-416 | in every run from the empty table, a tester in SENDING that is not disturbed any more echoes frames 0 to n - 1 of what was heard while it was RECORDING; they cover it, and BYE follows |
| `CallTable.LifeInTable` | src/call.c:154-283 | a tester in the table goes through its own life and is absent once that ends |
| `CallTable.EveryTesterLeavesTable` | src/call.c:278-283 | on every event stream with an advancing clock every tester in the table is gone from it at some moment |
| `CallTable.IntervalIsMinimum` | src/call.c:266-276 | the interval is the least of MAX_NS and all delays |
| `CallTable.IntervalInRun` | src/call.c:266-276 | in every run it is MAX_NS without testers and at most 20 ms with one |
| `CallTest.ByFriendNumber` | src/call.c:141-152 | the first tester of the friend, or null if there is none |
| `CallTest.AddEntry` | src/call.c:81-121 | the tester of the friend; a new one, if needed, at its place in the list |
| `CallTest.Call` | src/call.c:154-164 | the list after the event is the table after the event |
| `CallTest.CallState` | src/call.c:167-191 | the same, for every combination of state bits |
| `CallTest.AudioReceiveFrame` | src/call.c:213-245 | the same, and only during RECORDING |
| `CallTest.AudioPlayback` | src/call.c:285-306 | the frame sent, the new delay, the samples counted and the result, for every answer |
| `CallTest.IterateOneShot` | src/call.c:358-429 | the tester under the cursor takes one step, with the effects that `CallScript.GreeterTick`, `CallScript.OtherTicks` and `CallSteps.EchoSends` describe, or is unlinked and the walk can go on |
| `CallTest.Iterate` | src/call.c:278-283 | one walk is one tick of the table, with the effects of every tester in order; over a whole call they are those of `CallScript.WholeCall` |
| `CallTest.StaysClocked` | src/call.c:387 | the comparable start times that a pass relies on are kept by every event |
| `CallTest.IterationInterval` | src/call.c:266-276 | the loop computes the interval |
| `LogLevels.Match` | src/ylog/ylog.c:55-63 | the result is that of the definition that `LogLevels.MatchesSuffixes` describes |
| `LogLevels.MatchesSuffixes` | src/ylog/ylog.c:55-63 | a pattern matches if and only if fnmatch takes the name, or some end of it that stands behind a slash and does not begin with one |
| `LogLevels.PlainSegment` | src/ylog/ylog.c:71-103 | a first segment without a colon decides for every name: the number from 0 to 9999 it is, or the default |
| `LogLevels.PatternSegment` | src/ylog/ylog.c:71-103 | a first segment pattern:level decides for the names it matches; for others it is as if the string began behind its comma |
| `LogLevels.OnePattern` | src/ylog/ylog.c:55-104 | with one segment: the level for names that it or one of their ends behind a slash matches, the default for all others |
| `LogLevels.NoPattern` | src/ylog/ylog.c:67-104 | without a pattern, or with an empty one, the default |
| `LogLevels.FirstSegment` | src/ylog/ylog.c:67-104 | the first segment decides, or it is skipped with its comma |
| `LogLevels.MatchPrefix` | src/ylog/ylog.c:80-82 | the segment's pattern is matched in place, with the result that `LogLevels.MatchesSuffixes` describes, and the buffer is put back |
| `LogLevels.FindLevelText` | src/ylog/ylog.c:71-87 | the segment loop stops at the level text of the first segment that decides, with the buffer unchanged |
| `LogLevels.ReadLevel` | src/ylog/ylog.c:90-103 | the digit loop accepts exactly the decimal numbers from 0 to 9999 |
| `LogLevels.SetFileLevel` | src/ylog/ylog.c:67-104 | for every pattern string the single pass gives the level of the plain definition, which `LogLevels.PlainSegment`, `LogLevels.PatternSegment` and `LogLevels.NoPattern` fix segment by segment, and leaves the pattern byte for byte |
| `Ylog.StrippedUnique` | src/ylog/ylog.c:107-130 | the name of a file is determined by its file name |
| `Ylog.NameRegistered` | src/ylog/ylog.c:107-130 | spelled out: stem.c, stem.h, stem.cc, stem.cpp and stem.hpp are registered as a non-empty stem, any other name as it is |
| `Ylog.SetFileName` | src/ylog/ylog.c:107-130 | .c, .h, .cc, .cpp and .hpp are cut off if something precedes them, and nothing else |
| `Ylog.Ylog.Register` | src/ylog/ylog.c:142-146 | the file is registered first in the list with its resolved level; doing so to a registered file makes a list that never ends |
| `Ylog.Ylog.Log` | src/ylog/ylog.c:133-172 | a file is registered by its first message and, unless it looks uninitialized again, never twice; with a default level in 0..9999 that never happens and every message keeps the log valid; a registered file's message passes if and only if its level is at most the resolved level, the first message included |
| `Ylog.Ylog.SetLevel` | src/ylog/ylog.c:183-199 | every cached level is the one the new pattern and default resolve to |
| `Ylog.NeverEnds` | src/ylog/ylog.c:195-196 | a list that leads back into itself has no end for the loop to reach |
| `Ylog.LooksUninitialized` | src/ylog/ylog.h:126-128 | a registered file looks uninitialized if and only if the default level is 10000 and no segment gives it a level |

## Left out

- Allocation failure, `free` and all bookkeeping of memory; results hold if allocation succeeds.
- BencodeIO.Encode: nothing is said about a buffer smaller than the predicted size, and lengths stay within an int.
- BencodeIO.Reader.Decode: the memory from the data on is taken to hold a NUL somewhere. Only data that is followed by a NUL right away is never left (`BencodeLaws.NulGuards`); the buffer of `be_node_loadfile` is not, and of a malformed file the decoder may read what stands behind it.
- Bencode trees are values: a node added to two parents, or changed after it was added, is not modelled.
- Sorted dictionary keys, which BEP 3 asks for: the code keeps insertion order.
- Persistence.LoadSenders: reading beyond types it takes for granted (a root that is no list, a known key with another type) is a precondition, as the code would follow a wrong pointer.
- Persistence.SaveSenders: the senders that are saved must have a file name and a hash, as the code reads both without a check.
- SharedList.LoadShrlist: only the list it builds is modelled; the global index does not see it, because only a local pointer grows.
- Poisoned list pointers are null, and `container_of` is the identity.
- `hlist_add_fake`, the reverse and RCU-style iterators of `list.h`, and `timed_out`.
- Friends.Cleanup: names, status and printing of friends are not fields of the model.
- FileQueue.AddFileSender: toxcore's answers and `fopen` are parameters; chunk transfer and receiving are not modelled.
- SharedIndex.Index.ChecksumSlice: the digest is left out; it covers the whole buffer whatever was read.
- IndexerLaws.IndexAgrees: walks are taken to visit distinct paths; that a SIGUSR1 during a drain leads to another walk is not claimed, because the end of the drain clears the flag.
- CallTest.Iterate: the greeter is loaded, sample rates are positive and clock readings are comparable; the code would divide by zero or overflow otherwise.
- CallTest.IterateOneShot: SENDING offers the file as an effect; the sender it queues is `FileQueue.SenderNew` and `FileQueue.AddFileSender`.
- CallTable.RecordingFaithful: one channel count for the whole recording; what a frame with another count makes of the buffer is `CallSteps.ReceivedSpelled`, and runs with several such changes are not summed up.
- CallSteps.OfferAndEcho: the last frame may reach beyond the recording; what is sent from there is not modelled.
- CallSteps.EveryTesterLeaves: an endless stream needs clock readings without bound, while `CallTest.Iterate` compares readings whose nanoseconds fit 64 bits; `CallSteps.AliveBound` bounds the ticks of every finite run instead.
- Sample and byte counts of recordings are unbounded; only the 32 bit product in the frame size wraps.
- Ylog.Ylog.Log: formatting, the handler and the mutex are left out.
- `margin_cmp`, `ns_to_timespecme` and the unused conversions of `timespec.c`.
- Video frames, bit rates, chat commands, captcha, configuration, profile encryption and the main loop.
