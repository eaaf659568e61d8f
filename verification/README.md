# Mail and bar code cores of AbanQ: a verification model

This project models, in Dafny, the algorithmic cores of the mail library (`flmail`) and of the
bar code library of the AbanQ engine, and proves what they are for. Every component is a module
of its own.

| component | modules |
|---|---|
| POP3: the incremental message receiver, the session around it, the socket in front of it, the client object | `Pop3Receiver`, `Pop3Session`, `Pop3Safety`, `Pop3Honest`, `Pop3Quit`, `Pop3Lines`, `Pop3Stream`, `Pop3Wire`, `Pop3Client` |
| The local mail folder: append-only files, index, journal, deferred sync, compaction, saving | `FolderIndex`, `FolderJournal`, `MessageParts`, `MailFolder` |
| Code 128: the automatic encoder and a reader for what it writes | `Code128`, `Code128Decoder` |
| Modified UTF-7 mailbox names | `ImapUtf7`, `ImapUtf7Proofs`, `ImapUtf7RoundTrip` |
| Base64 and quoted-printable, and the encodings of message parts by name | `Base64`, `QuotedPrintable`, `MimeCodec` |
| The streaming shell of MD5 | `Md5` |
| The socket's write queue | `WriteQueue` |
| Plessey, MSI, Interleaved 2 of 5 and EAN check codes | `Plessey`, `Msi`, `Interleaved25` |

`Bytes` and `Common` hold what they share. `dafny verify dfyconfig.toml` checks everything.

Where the original changes things step by step, the model has a method with the same branches,
proved equal to a function; the theorems are about the function. Objects are classes
(`Receiver`, `Client`, `Folder`, `Writer`, `Socket`, `State`), buffers that are filled in place
are arrays. What comes from outside is a parameter: what the server sends and how the network
cuts it, in which order a dictionary is iterated, how much a device accepts, a byte read
outside a buffer, the compression function of MD5, a library's conversion to upper case or of
digits to a number.

## What is proved

* **POP3 receiving.** However a dot-stuffed reply is cut into blocks, the receiver yields the
  message; this is an equivalence, with the exact condition on the message (a line, and no dot at
  the start of the first one, because `lastChar` starts as NUL).
* **POP3 sessions.** Over every run, against an arbitrary server, whatever bytes arrive in whatever
  portions: nothing but QUIT follows QUIT, RETR numbers are a prefix of the new entries, nothing
  is deleted that was not received, marked or retrieved. Against a conforming server, up to its
  reply to QUIT, for messages of known and unknown size and over every cutting: everything new
  is fetched, and with `leave` off everything on the server is deleted, each message once. Such
  a session sends QUIT a second time exactly if it has deleted something; for sessions in
  general the events that bring out another QUIT are stated exactly. All of this holds over the
  bytes on the wire: however the server words its replies and however they are cut, the session
  is that of the events they stand for.
* **Mail folder.** Over every run of create, sync, delete with compaction, save and restart, the
  folder behaves as a plain map from ids to mails: text, descriptor, part bodies, unread mark.
  Compaction keeps everything exactly when no record has a zero length, and otherwise the fate of
  every single record is stated. Setting the data of a part and getting it back is an identity
  for exactly the data that survives the transfer encoding.
* **Codecs.** Reading undoes writing for Code 128, modified UTF-7 (basic plane without U+0000), base64,
  quoted-printable, and the bars of Plessey and Interleaved 2 of 5.
* **Streams.** MD5 over any splitting is the fold over the padded message. The write queue is a
  byte FIFO over every run, and a delayed close ends only when everything was delivered.
* **Check codes.** Bursts of up to eight bits (Plessey), single digits (MSI, Interleaved 2 of 5),
  single symbols and swaps (Code 128) are detected; the swaps that MSI and Interleaved 2 of 5
  miss are stated exactly; two pairs of differently written sums agree.

## Where the code and its description differ

* A message whose first line starts with a dot is stored with that dot doubled
  (`Pop3Receiver.LeadingDotIsDoubled`).
* Removing a record while the compactor iterates skips the next record, whose offsets then still
  refer to the old files (`FolderIndex.CompactFate`, `FolderIndex.SkippedFate`).
* Saving a message appends part bodies as C strings, so a body is cut at its first NUL, also the
  new one of the chosen part (`MessageParts.NewBodiesKeep`, `MessageParts.NewBodyIsCut`).
* Data set for a part in the encodings that copy it comes back only as a terminated C string, the
  footer comes back with quoted-printable data, and "quoted-printable-compat" can be written but
  not read (`MimeCodec.SurvivesIff`).
* The UTF-7 encoder reads a C string and keeps two bits of the first byte of a four-byte sequence,
  so it writes modified UTF-7 exactly for the texts without U+0000 and without a code point above
  U+FFFFF (`ImapUtf7Proofs.EncodeIsReference`).
* The comment in `msi.cpp` calls two sums equivalent. The program's exceeds the other by ten for
  every carry: they are equal exactly when no doubled digit is 5 or more, and always agree modulo
  ten, which is all the check digit needs (`Msi.SumExceeds`, `Msi.SumsEqualWithoutCarry`).
* Sending QUIT does not change the state. After a DELE the reply to QUIT is therefore taken for
  the reply to another DELE, and every session that has deleted a message sends QUIT twice, with
  a conforming server too (`Pop3Quit.ConformingQuits`, `Pop3Quit.QuitOnce`).
* A message of unknown size keeps CR LF and one of known size gets LF, so the two ways of
  receiving give different texts (`Pop3Honest.FetchOne`).

## Model

| member | source | states |
|---|---|---|
| Pop3Receiver.Receiver.ToMail | engine/src/flmail/pop3client.cpp:1070-1158 | one block changes buffer, carry and end flag as one scan of carry and block does; when the end is found, the returned count stops exactly behind CR LF . CR LF, otherwise the whole block is used |
| Pop3Receiver.ScanSplit | engine/src/flmail/pop3client.cpp:1070-1158 | cutting a well-formed stream anywhere and scanning carry plus rest gives what one scan of the whole gives; the carry has at most four bytes and the end is not seen early |
| Pop3Receiver.FeedAllIsOneScan | engine/src/flmail/pop3client.cpp:1070-1158 | feeding all blocks one by one leaves the receiver in the state that one scan of the concatenated stream gives |
| Pop3Receiver.NoEarlyEnd | engine/src/flmail/pop3client.cpp:1098-1124 | after any proper prefix of the blocks the end flag is down and the carry has at most four bytes |
| Pop3Receiver.ScanLine | engine/src/flmail/pop3client.cpp:1093-1145 | scanning a stuffed reply gives the lines with LF endings and leading dots restored, and stops at the terminator |
| Pop3Receiver.ReceiveAny | engine/src/flmail/pop3client.cpp:1070-1158 | for every cutting of a reply with at least one line: the received text, with one extra dot if the first line starts with one; only the last block raises the flag; never more than four carried bytes |
| Pop3Receiver.ReceivesExactly | engine/src/flmail/pop3client.cpp:1070-1158 | for every cutting the message is received whole if and only if it has a line and its first line does not start with a dot; the end is seen if and only if it has a line |
| Pop3Receiver.LeadingDotIsDoubled | engine/src/flmail/pop3client.cpp:1075-1091 | the one-line message "." is stored as ".." |
| Pop3Session.Insert | engine/src/flmail/pop3uidjar.cpp:76-86 | inserting into the key-ordered trash adds the uid and nothing else |
| Pop3Session.InsertInOrder | engine/src/flmail/pop3uidjar.cpp:76-86 | insertion keeps the key order, so no uid is in the trash twice |
| Pop3Session.NextTrash | engine/src/flmail/pop3client.cpp:1307-1330 | the next uid to delete is one of the trash that the server knows; unknown ones before it are dropped, no known one is lost |
| Pop3Client.Client.TakeTrash | engine/src/flmail/pop3client.cpp:1307-1330 | the loop that erases while it iterates takes uids in key order until one is known to the server |
| Pop3Client.Client.RetrieveDeleteOrQuit | engine/src/flmail/pop3client.cpp:1291-1346 | the object after the call is the session function of the object before it: RETR before DELE before QUIT |
| Pop3Client.Client.HandleUidlItem | engine/src/flmail/pop3client.cpp:983-1026 | a new uid is queued, a known one marked for deletion unless mail is left, a dot asks for the sizes, anything malformed stops |
| Pop3Client.Client.HandleListItem | engine/src/flmail/pop3client.cpp:938-963 | the size goes to the entry with this message number, a dot starts retrieving |
| Pop3Client.Client.HandleRetrResponse | engine/src/flmail/pop3client.cpp:1029-1067 | a positive reply switches to blocks when the size is known and to lines otherwise, a negative one stops |
| Pop3Client.Client.HandleRetrBlock | engine/src/flmail/pop3client.cpp:1160-1222 | a block goes through the receiver; at the end of the message its uid is recorded and the next command is chosen |
| Pop3Client.Client.HandleRetrLine | engine/src/flmail/pop3client.cpp:1224-1272 | the line-wise way of receiving a message of unknown size |
| Pop3Client.Client.HandleLogin | engine/src/flmail/pop3client.cpp:799-933 | the replies to connection, STLS, USER, PASS, UIDL and LIST |
| Pop3Client.Client.Halt | engine/src/flmail/pop3client.cpp:529-556 | stopping clears the queues once and makes the client idle |
| Pop3Client.Client.ProcessLine | engine/src/flmail/pop3client.cpp:373-448 | every line goes to the handler of the current state, with the effect of the session function; the result says whether the handler accepted it |
| Pop3Client.Client.TakeLines | engine/src/flmail/pop3client.cpp:327-348 | complete lines are taken off and handled until there is none, one is refused, or the client turns to blocks |
| Pop3Client.Client.SlotReadyRead | engine/src/flmail/pop3client.cpp:317-369 | one call turns the available bytes into lines and a block as the client's mode demands, with the effect of the session function, and leaves the rest |
| Pop3Client.Client.Serve | engine/src/flmail/pop3client.cpp:317-369 | over every sequence of portions the object and the bytes left are those of the stream function |
| Pop3Client.Client.Drive | engine/src/flmail/pop3client.cpp:371-466 | over every sequence of lines, blocks and stops, which may come from the timer or the connection, the object's state is the run of the session functions |
| Pop3Client.RunSession | engine/src/flmail/pop3client.cpp:246-466 | the object itself, from its creation over every sequence of events, is in the state of the session functions and satisfies the safety theorem and its invariant |
| Pop3Client.RunStream | engine/src/flmail/pop3client.cpp:246-466 | the object itself, from its creation over whatever bytes in whatever portions, satisfies the safety theorem and its invariant |
| Pop3Safety.StepInv | engine/src/flmail/pop3client.cpp:938-1346 | every single step, whatever the server sent, keeps the invariant that links queue, trash, indexes and the command history |
| Pop3Safety.EveryRunIsSafe | engine/src/flmail/pop3client.cpp:938-1346 | over all runs: only QUIT follows QUIT; RETR numbers are those of a prefix of the new UIDL entries, in order; DELE and QUIT come only when all of them are retrieved; DELE only with `leave` off and only for a message received before, already in the trash or retrieved |
| Pop3Stream.DeliverIsRun | engine/src/flmail/pop3client.cpp:317-369 | however bytes arrive, the session is a run of lines and blocks, and their bytes with what is pending are those that arrived, in order: nothing is lost, repeated or reordered |
| Pop3Stream.StreamIsSafe | engine/src/flmail/pop3client.cpp:317-369 | so the safety theorem holds for whatever bytes arrive in whatever portions |
| Pop3Stream.LinesInPortions | engine/src/flmail/pop3client.cpp:327-348 | as long as the client reads line by line, the portions do not matter, only the bytes |
| Pop3Lines.EntryIsRead | engine/src/flmail/pop3client.cpp:1000-1010 | an entry of a number, a space and a word, as RFC 1939 has it, is split and stripped to that number and word |
| Pop3Honest.FetchOne | engine/src/flmail/pop3client.cpp:1029-1222 | one RETR answered by a conforming server retrieves the message and moves on: of known size in blocks, cut anywhere, with LF endings and a dot at its very start doubled; of unknown size line by line, with CR LF endings and nothing else changed |
| Pop3Honest.NextAllTrash | engine/src/flmail/pop3client.cpp:1160-1222 | fetching marks every fetched message for deletion, forgets none that was marked and keeps the trash in order |
| Pop3Honest.DeleteAll | engine/src/flmail/pop3client.cpp:1274-1346 | with the queue empty and every DELE confirmed, the client sends one DELE for every uid of the trash that the server knows, in key order, and then QUIT; unknown uids are dropped |
| Pop3Honest.ByeTakenForDele | engine/src/flmail/pop3client.cpp:1274-1346 | after a DELE the positive reply to QUIT is taken for the reply to another DELE and brings out QUIT again |
| Pop3Honest.HonestSessionLeaving | engine/src/flmail/pop3client.cpp:652-1346 | a conforming server up to its reply to QUIT and the end of the connection, with or without STLS, any messages, any received and trash lists, any cutting: exactly the new messages are retrieved, in order, each with the text stated for one message by FetchOne; the commands are the login, UIDL, LIST, the RETRs, QUIT |
| Pop3Honest.HonestSessionDeleting | engine/src/flmail/pop3client.cpp:652-1346 | the same with `leave` off: behind the last RETR come DELEs only, one for every message on the server and none twice, and then QUIT, once for an empty mailbox and twice for any other |
| Pop3Wire.SameEffect | engine/src/flmail/pop3client.cpp:371-448 | in the state that expects it, a line has the effect of the event it stands for, whatever else is in its text |
| Pop3Wire.ReplyThenBlocks | engine/src/flmail/pop3client.cpp:317-369 | however the reply to RETR is cut, bytes behind its first line that have arrived already become the first block, and the blocks are a cutting of the message |
| Pop3Wire.WireSession | engine/src/flmail/pop3client.cpp:317-1346 | with a conforming server, whatever the wording and the portions of its replies, the whole session over the bytes ends as that over the events, with no byte left over |
| Pop3Wire.WireRetrieves | engine/src/flmail/pop3client.cpp:317-1346 | so exactly the new messages are retrieved and the commands are those stated for the events |
| Pop3Quit.StepAfterQuit | engine/src/flmail/pop3client.cpp:938-1346 | after QUIT a step sends nothing, or QUIT again exactly when a dot line ends the list of sizes once more or a DELE is confirmed once more |
| Pop3Quit.QuitOnce | engine/src/flmail/pop3client.cpp:652-663 | in every session QUIT is sent at most once if and only if no event after the first QUIT is such a provocation |
| Pop3Quit.ConformingQuits | engine/src/flmail/pop3client.cpp:1274-1346 | with every conforming server, whatever positive reply it gives to QUIT: QUIT is sent once if messages are left on the server or there is none, and exactly twice otherwise |
| Pop3Quit.SecondQuit | engine/src/flmail/pop3client.cpp:652-663 | a server that does not conform: with an empty mailbox and a list of sizes that ends twice, QUIT is sent twice as well |
| FolderIndex.PartInFile | engine/src/flmail/messagedevice.cpp:135-179 | a part inside its message block is found at its absolute offset in the file |
| FolderIndex.MovedPartsRead | engine/src/flmail/indexclass.cpp:240-259 | moving a record with its parts keeps what every part reads, finished or not |
| FolderIndex.CopyUnderway | engine/src/flmail/mailfolder.cpp:776-813 | copying one record keeps what has been copied and what is still to come intact |
| FolderIndex.CompactKeeps | engine/src/flmail/mailfolder.cpp:743-826 | in whatever order the iterator runs, compacting records of non-zero lengths keeps the ids, every descriptor, every message and the body of every part |
| FolderIndex.CompactKeepsIds | engine/src/flmail/mailfolder.cpp:776-783 | the set of ids survives compaction if and only if no record has a zero length |
| FolderIndex.SkippedFate | engine/src/flmail/mailfolder.cpp:776-783 | for all folders: the record right after a zero-length one that is visited keeps its old offsets |
| FolderIndex.CompactFate | engine/src/flmail/mailfolder.cpp:776-813 | for every folder, order and record: a visited record is copied whole or, with a zero length, dropped; a skipped one keeps its offsets into the old files |
| FolderIndex.VisitsNotAfterBroken | engine/src/flmail/mailfolder.cpp:776-783 | the record after a visited one is skipped if and only if the visited one has a zero length; none is skipped after a skipped one |
| FolderIndex.SkippedNeighbourIsLost | engine/src/flmail/mailfolder.cpp:776-783 | the smallest instance: a folder of two records in which a sound one is lost that way |
| FolderJournal.CountReplace | engine/src/flmail/localmailfolder.cpp:117-136 | replacing a record changes the unread count by the difference of the two marks |
| FolderJournal.ReplayAppend | engine/src/flmail/mailfolder.cpp:225-254 | one more entry in the journal replaces that record in the replayed index, the last one wins |
| FolderJournal.ReplayWhole | engine/src/flmail/mailfolder.cpp:201-223 | writing the whole index in any order and replaying it gives the index |
| Bytes.CString | engine/src/flmail/messagedevice.cpp:735-737 | appending bytes as a C string appends the longest prefix without NUL |
| MessageParts.AssembleReads | engine/src/flmail/messagedevice.cpp:513-790 | in an assembled message every recorded offset and length locates exactly the body put there, inside the text |
| MessageParts.AbsoluteReads | engine/src/flmail/indexclass.cpp:191-198 | making part offsets absolute keeps what they read |
| MessageParts.NewBodiesKeep | engine/src/flmail/messagedevice.cpp:513-790 | saving gives every part, the chosen one included, the bytes that are to be its body if and only if they contain no NUL |
| MessageParts.NewBodyIsCut | engine/src/flmail/messagedevice.cpp:735-737 | the instance: three new bytes with a NUL in the middle leave one |
| MailFolder.Folder.SaveIndex | engine/src/flmail/mailfolder.cpp:201-223 | the rewritten journal replays to the index |
| MailFolder.Folder.SaveIndexOf | engine/src/flmail/mailfolder.cpp:225-254 | saving one record makes a journal that lagged only there replay to the index |
| MailFolder.Folder.SaveDescriptor | engine/src/flmail/messagedevice.cpp:217-229 | the descriptor is appended, the record points to it and is journaled |
| MailFolder.Folder.Sync | engine/src/flmail/localmailfolder.cpp:259-295 | all deferred descriptors are written; afterwards nothing is deferred and the journal replays to the index |
| MailFolder.Folder.AppendMessage | engine/src/flmail/localmailfolder.cpp:143-225 | the message block is appended, the new record locates it and its parts, the unread counter follows |
| MailFolder.Folder.CreateMessage | engine/src/flmail/localmailfolder.cpp:143-257 | under a fresh id, written at once or deferred, the folder stores exactly one more message, its text up to the first NUL, and the invariant holds |
| MailFolder.Folder.SetUniblockOffset | engine/src/flmail/indexclass.cpp:240-259 | the record moves with every finished part; parts never saved stay as they are |
| MailFolder.Folder.CopyFiles | engine/src/flmail/mailfolder.cpp:757-820 | the loop over the dictionary computes the compaction of the old folder |
| MailFolder.Folder.Compact | engine/src/flmail/mailfolder.cpp:743-826 | after syncing and compacting, every message reads as before and journal and counter agree with the index if and only if no stored message is empty |
| MailFolder.Folder.DeleteMessage | engine/src/flmail/localmailfolder.cpp:379-404 | exactly the named message is gone and an unknown id is refused; the rest reads as before if and only if no message left is empty |
| MailFolder.Folder.Rfc822Message | engine/src/flmail/messagedevice.cpp:397-413 | reading a message gives the text it was stored with |
| MailFolder.Folder.LoadDescriptor | engine/src/flmail/messagedevice.cpp:197-210 | the bytes read as descriptor are those of the mail, unless they wait for the next sync |
| MailFolder.Folder.GetPartData | engine/src/flmail/messagedevice.cpp:135-179 | the stored body of a part, decoded by its encoding; refused exactly when there is no such part |
| MailFolder.Folder.SetPartData | engine/src/flmail/messagedevice.cpp:181-191 | refused exactly when there is no such part or no data; otherwise the data, encoded, becomes the body of that part and nothing else changes |
| MailFolder.Folder.LoadIndex | engine/src/flmail/localmailfolder.cpp:86-141 | loading a journal with superseded duplicates gives the last record of every id and the right unread count |
| MailFolder.Folder.Restart | engine/src/flmail/localmailfolder.cpp:86-141 | closing and reopening loses nothing: same messages, same unread count |
| MailFolder.Folder.BuildMessage | engine/src/flmail/messagedevice.cpp:630-742 | parts are written one after the other, the chosen one from the new bytes and the others from the old file |
| MailFolder.Folder.SaveMessage | engine/src/flmail/messagedevice.cpp:513-790 | after saving, every part locates its body, the encoded data for the chosen part and the old body for the others, inside the new block; encodings and all other messages are untouched and the folder invariant holds again |
| MailFolder.Folder.Perform | engine/src/flmail/localmailfolder.cpp:143-404 | each operation has on the folder the effect it has on a plain map |
| MailFolder.Folder.Run | engine/src/flmail/localmailfolder.cpp:86-404 | over every run of create, sync, delete, save and reopen the folder is a plain map from ids to mails (text, descriptor, part bodies, unread mark) with the list of ids whose descriptors wait |
| MailFolder.SaveKeepsOthers | engine/src/flmail/messagedevice.cpp:513-790 | after every run, saving a message keeps the bodies of its other parts and the encodings of all |
| MailFolder.SetThenGet | engine/src/flmail/messagedevice.cpp:135-191 | in whatever state a run has left the folder, data set for a part and read back is what its encoding restores, and it is what was set if and only if that survives the encoding |
| MailFolder.CompactSound | engine/src/flmail/mailfolder.cpp:743-826 | compaction keeps index, files, deferral and counter in agreement with the stored messages |
| MailFolder.CreatedDeferred | engine/src/flmail/localmailfolder.cpp:143-257 | a created message is sound while its descriptor waits |
| MailFolder.SavedSound | engine/src/flmail/messagedevice.cpp:744-790 | rewriting one message leaves all others readable where they were |
| Code128.Verify | engine/src/barcode/code128.cpp:266-275 | accepts exactly the non-empty texts over 1 to 128 and the four function characters |
| Code128.AOrB | engine/src/barcode/code128.cpp:291-300 | the set needed by the first character that cannot do with both |
| Code128.NeverTwice | engine/src/barcode/code128.cpp:353-412 | a turn that consumes nothing is followed by one that consumes something with a single symbol |
| Code128.SymbolsBound | engine/src/barcode/code128.cpp:335-412 | at most two data symbols for every character |
| Code128.EncodeBound | engine/src/barcode/code128.cpp:335-337 | at most 2n + 3 symbols in all, so 2n + 5 places suffice |
| Code128.MakeArray | engine/src/barcode/code128.cpp:330-425 | the array loop terminates, never leaves its allocation and fills it with the specified symbols |
| Code128.ComputeCheck | engine/src/barcode/code128.cpp:413-419 | the loop computes the weighted sum modulo 103 |
| Code128Decoder.SymbolsDecode | engine/src/barcode/code128.cpp:353-412 | from every position and in every set, a reader that tracks set and SHIFT recovers the rest of the text |
| Code128Decoder.ScanEncode | engine/src/barcode/code128.cpp:330-425 | for every accepted text, scanning the encoder's array, check and stop included, gives exactly that text |
| Code128Decoder.SymbolsRange | engine/src/barcode/code128.cpp:302-328 | every data symbol lies in 0 to 102 |
| Code128Decoder.Prime103 | engine/src/barcode/code128.cpp:413-419 | 103 divides no product of a factor below it and a factor it does not divide |
| Code128Decoder.CheckDetectsReplacement | engine/src/barcode/code128.cpp:413-419 | replacing a data symbol by a data symbol, or a start symbol by a start symbol, changes the check symbol if and only if its position is 0 or not a multiple of 103, for sequences of any length |
| Code128Decoder.CheckDetectsSwap | engine/src/barcode/code128.cpp:413-419 | swapping two different adjacent data symbols always changes the check symbol |
| ImapUtf7.UnicodeToImapUtf7 | engine/src/flmail/imaputf7convertor.cpp:187-326 | the byte loop with its bit buffer is the fold of the specified encoder steps |
| ImapUtf7.ImapUtf7ToUnicode | engine/src/flmail/imaputf7convertor.cpp:65-185 | the loop over text and runs is the specified decoder |
| ImapUtf7.SpewOut | engine/src/flmail/imaputf7convertor.cpp:303-311 | the inner loop takes exactly the complete six-bit digits off the buffer |
| ImapUtf7.AlphabetInverse | engine/src/flmail/imaputf7convertor.cpp:45-83 | the reverse table inverts the modified base64 alphabet, which contains neither "-" nor an ampersand |
| ImapUtf7Proofs.RunValue | engine/src/flmail/imaputf7convertor.cpp:287-326 | a run is base64 of its UTF-16 units: the number its digits denote is the number the units denote, shifted by the padding |
| ImapUtf7Proofs.RunLength | engine/src/flmail/imaputf7convertor.cpp:287-326 | a run has as many digits as its bits need, with less than one digit of padding |
| ImapUtf7Proofs.EncodeIsReference | engine/src/flmail/imaputf7convertor.cpp:187-326 | for every text of code points: the encoder writes modified UTF-7, that is printable characters as they are, an ampersand escaped, and every other stretch as one run, if and only if no code point is U+0000 or lies above U+FFFFF |
| ImapUtf7Proofs.EncodeIsKept | engine/src/flmail/imaputf7convertor.cpp:187-326 | on all well-formed UTF-8 the encoder writes modified UTF-7 of what its mask keeps of the code points before the first U+0000 |
| ImapUtf7Proofs.ShorterReference | engine/src/flmail/imaputf7convertor.cpp:274-280 | the output is never longer than modified UTF-7, and strictly shorter as soon as one code point lies above U+FFFFF |
| ImapUtf7Proofs.PlaneSixteenIsLost | engine/src/flmail/imaputf7convertor.cpp:274-280 | as a text of its own, a code point from U+100000 on is one unit without its top bit, and not its modified UTF-7 |
| ImapUtf7Proofs.NulIsLost | engine/src/flmail/imaputf7convertor.cpp:187-203 | the text that is U+0000 is encoded as nothing, which is not its modified UTF-7 |
| ImapUtf7RoundTrip.RoundTrip | engine/src/flmail/imaputf7convertor.cpp:65-326 | decoding undoes encoding for every string of code points U+0001 to U+FFFF without surrogates |
| ImapUtf7RoundTrip.RoundTripUpToNul | engine/src/flmail/imaputf7convertor.cpp:65-326 | with U+0000 admitted, what comes back is the text before it, so decoding undoes encoding if and only if there is none |
| Base64.EncodeBase64 | engine/src/flmail/mimecodec.cpp:355-409 | the array loop never leaves its buffer and gives the standard groups, wrapped if asked, with the final newline and NUL; bytes read past the end do not matter |
| Base64.DecodeBase64 | engine/src/flmail/mimecodec.cpp:411-500 | the loop, the backward search and the truncation together are the specified decoder |
| Base64.PatchedRaw | engine/src/flmail/mimecodec.cpp:366-400 | whatever was read past the end, replacing the last characters gives the padded group |
| Base64.EmitIsWrapped | engine/src/flmail/mimecodec.cpp:381-394 | breaking lines between groups by a column counter is wrapping the whole text at 76 |
| Base64.LinesFit | engine/src/flmail/mimecodec.cpp:381-394 | with wrapping on, a newline stands after every 76 characters and nowhere else, so only between groups |
| Base64.ExcessFits | engine/src/flmail/mimecodec.cpp:477-497 | the decoder never truncates below zero |
| Base64.RoundTrip | engine/src/flmail/mimecodec.cpp:355-500 | decoding undoes encoding for every byte array and both flags |
| Base64.Recode | engine/src/flmail/mimecodec.cpp:355-500 | the two loops one after the other return their input |
| QuotedPrintable.EncodeQuotedPrintable | engine/src/flmail/mimecodec.cpp:272-310 | the loop with its look-ahead is the specified encoder |
| QuotedPrintable.DecodeQuotedPrintable | engine/src/flmail/mimecodec.cpp:312-353 | the index loop is the specified decoder, also on malformed text |
| QuotedPrintable.RoundTrip | engine/src/flmail/mimecodec.cpp:272-353 | decoding undoes encoding for every NUL-free text and either value of `compat`, from any column |
| QuotedPrintable.OnlySafeBytes | engine/src/flmail/mimecodec.cpp:279-306 | the output is printable ASCII, tab and space; CR and LF occur only inside soft breaks |
| QuotedPrintable.NoFragileBytes | engine/src/flmail/mimecodec.cpp:282-283 | with `compat` no character that gateways change occurs in the output |
| MimeCodec.EncodeData | engine/src/flmail/mimecodec.cpp:502-518 | the codec is chosen by the name of the encoding, in any case of letters; an unknown name gives nothing |
| MimeCodec.DecodeData | engine/src/flmail/mimecodec.cpp:520-533 | the same for decoding, where an unknown name, which "quoted-printable-compat" is here, gives a fixed text |
| MimeCodec.BodyIsEncoded | engine/src/flmail/messagedevice.cpp:726-738 | the stored body holds all the encoded characters if and only if the data is not copied with a NUL in it |
| MimeCodec.Restores | engine/src/flmail/messagedevice.cpp:135-191 | what storing and reading restores, for every encoding and all data |
| MimeCodec.SurvivesIff | engine/src/flmail/messagedevice.cpp:135-191 | data comes back as it was if and only if it is base64, or is a C string with its NUL that is copied or quoted without a footer, or is the fixed text where that encoding cannot be read |
| Md5.State.Append | engine/src/flmail/md5.c:354-387 | after any data following any other, the count is the bit length modulo 2^64, complete blocks are processed in order and the tail is buffered |
| Md5.State.Finish | engine/src/flmail/md5.c:389-413 | the digest is that of the message padded by the definition |
| Md5.State.Absorb | engine/src/flmail/md5.c:368-386 | the buffer is completed first, then whole blocks, then the rest is kept |
| Md5.CountAdds | engine/src/flmail/md5.c:363-366 | the two words with their carry add the bit length modulo 2^64 |
| Md5.OffsetOf | engine/src/flmail/md5.c:359 | the buffer position is recovered from the low count word |
| Md5.BlocksAppend | engine/src/flmail/md5.c:368-386 | processing in pieces is processing the whole |
| Md5.PaddingIs | engine/src/flmail/md5.c:403-409 | the padding computed from the count words is that of sections 3.1 and 3.2 of RFC 1321 |
| Md5.PadIsShortest | engine/src/flmail/md5.c:407 | no shorter padding brings the length to 56 modulo 64 |
| Md5.PaddedLength | engine/src/flmail/md5.c:403-409 | the padded message consists of whole blocks, so nothing is left in the buffer when the digest is taken |
| Md5.HashPieces | engine/src/flmail/md5.c:344-413 | for every splitting into pieces the digest is the fold over the padded whole message |
| WriteQueue.Socket.Enqueue | engine/src/flmail/sslsocket.cpp:1123-1143 | data goes behind what is pending, in the last buffer or in a new one |
| WriteQueue.Socket.Skip | engine/src/flmail/sslsocket.cpp:787-798 | consuming over partial and whole buffers removes exactly that many bytes from the front |
| WriteQueue.Socket.Gather | engine/src/flmail/sslsocket.cpp:826-847 | the bytes offered are the rest of the first buffer and whole ones after it, as many as fit |
| WriteQueue.Socket.FlushLoop | engine/src/flmail/sslsocket.cpp:816-862 | the loop terminates for every device; what the device took is a prefix of what was pending; it stops early only if the device took less than offered |
| WriteQueue.Socket.Flush | engine/src/flmail/sslsocket.cpp:808-887 | flushing sends a prefix, then ends a delayed close when nothing is pending, or notices that the connection is gone |
| WriteQueue.Socket.WriteBlock | engine/src/flmail/sslsocket.cpp:1103-1152 | accepts everything or nothing, appends it to the queue, and flushes when it is large |
| WriteQueue.Socket.CloseSocket | engine/src/flmail/sslsocket.cpp:743-770 | with data pending the socket only starts closing |
| WriteQueue.Socket.Run | engine/src/flmail/sslsocket.cpp:743-1152 | every run of the buffer list is a run of a plain byte queue |
| WriteQueue.StepConserves | engine/src/flmail/sslsocket.cpp:743-1152 | no step that may not discard loses, repeats or reorders a byte |
| WriteQueue.Conservation | engine/src/flmail/sslsocket.cpp:743-1152 | over every such run, what was sent followed by what is pending is what was accepted, in order |
| WriteQueue.SentOnlyGrows | engine/src/flmail/sslsocket.cpp:743-1152 | whatever happens, what the device has accepted stays a prefix |
| WriteQueue.DelayedCloseDelivers | engine/src/flmail/sslsocket.cpp:752-760 | a delayed close reaches Idle only with everything delivered, unless the program cleared the data or the connection went away |
| Plessey.Divide | engine/src/barcode/plessey.cpp:149-155 | the in-place loop zeroes the message bits and leaves the remainder behind them |
| Plessey.Encode | engine/src/barcode/plessey.cpp:87-179 | the bars are start, protected text, stop; refused exactly when a character is not in the alphabet |
| Plessey.DivisionIsExact | engine/src/barcode/plessey.cpp:149-155 | the remainder is the remainder: dividend = quotient times divisor plus remainder over the two-element field |
| Plessey.ZeroRemainder | engine/src/barcode/plessey.cpp:149-155 | the remainder is zero if and only if the word is a multiple of the divisor |
| Plessey.RemainderOfSum | engine/src/barcode/plessey.cpp:149-155 | the remainder is linear |
| Plessey.DividesIffProtected | engine/src/barcode/plessey.cpp:149-159 | message and eight bits divide without remainder if and only if those are the check bits |
| Plessey.BurstIsDetected | engine/src/barcode/plessey.cpp:97 | every non-zero error within eight consecutive bits of a code word gives a non-zero remainder |
| Plessey.ReadBarsBack | engine/src/barcode/plessey.cpp:76-82 | the bits can be read back from the bars |
| Msi.Encode | engine/src/barcode/msi.cpp:84-167 | the bars are start, the digits with their check digit if asked, stop |
| Msi.DoublingByDigits | engine/src/barcode/msi.cpp:138-141 | doubling every digit with its own carry gives the digit sum of twice the number plus ten for every carry |
| Msi.SumExceeds | engine/src/barcode/msi.cpp:132-145 | for every text the program's sum is the explained one, which doubles a whole number with its carries, plus ten for every doubled digit of 5 or more |
| Msi.SumsEqualWithoutCarry | engine/src/barcode/msi.cpp:133-137 | the two sums are equal if and only if every doubled digit is below 5 |
| Msi.EndsAre | engine/src/barcode/msi.cpp:138 | the doubled digits are those at even distance from the end, in order |
| Msi.SumIsDoubledNumber | engine/src/barcode/msi.cpp:132-145 | the two sums always agree modulo ten |
| Msi.SumsDifferAsNumbers | engine/src/barcode/msi.cpp:133-137 | the instance "5": the sums are 11 and 1 |
| Msi.CheckDigitIs | engine/src/barcode/msi.cpp:153-159 | the check digit completes the explained sum to a multiple of ten |
| Msi.ReplacementIsDetected | engine/src/barcode/msi.cpp:132-159 | any single-digit change alters the check digit |
| Msi.SwapIsMissed | engine/src/barcode/msi.cpp:132-159 | swapping two neighbouring digits leaves the check digit as it is if and only if they are equal or are 0 and 9 |
| Interleaved25.EanMakeChecksum | engine/src/barcode/ean.cpp:118-141 | up to the blank before an add-on, or the end, the countdown loop sums by distance from the right, in both modes |
| Interleaved25.MakeText | engine/src/barcode/i25.cpp:94-119 | the text is padded to even length and its check digit appended |
| Interleaved25.Text | engine/src/barcode/i25.cpp:94-119 | the printed text has an even number of digits, with and without check digit |
| Interleaved25.ChecksumsAgree | engine/src/barcode/i25.cpp:103-119 | the sum by index after padding gives the check digit that `ean_make_checksum` gives from the right without padding |
| Interleaved25.ReplacementIsDetected | engine/src/barcode/i25.cpp:103-119 | any single-digit change alters the check digit |
| Interleaved25.SwapIsMissed | engine/src/barcode/i25.cpp:103-119 | swapping two neighbouring digits leaves the check digit as it is if and only if they are equal or differ by five |
| Interleaved25.InterleaveCodes | engine/src/barcode/i25.cpp:154-161 | the moving pointers interleave the two codes |
| Interleaved25.Encode | engine/src/barcode/i25.cpp:60-180 | the bars are start, the interleaved pairs of the text, stop |
| Interleaved25.ReadBarsBack | engine/src/barcode/i25.cpp:144-173 | de-interleaving the bars gives back the padded digits |

## Left out

- Pop3Receiver.Receiver.ToMail: the scratch buffer of the original and the terminator byte written behind it; the model collects the output in a sequence.
- Pop3Client.Client.SlotReadyRead: errors of the socket while reading; what it has received is taken in one piece, and bytes are characters of Latin-1.
- Pop3Lines.EntryIsRead: the conversion of digits to a number is a library's and a parameter; on the decimal notation of a number it is taken to give that number.
- Pop3Wire.WireSession: a portion that has bytes of two replies where one of them is read in blocks; a server that answers each command cannot send one.
- Pop3Client.Client.HandleLogin: APOP, which nothing sends, and the texts of commands, signals and the idle timer.
- Pop3Safety.EveryRunIsSafe: several clients sharing one uid jar, and a second fetch with the same object.
- Pop3Honest.FetchOne: a message of unknown size is read as text lines; they are taken to be ASCII, since the conversion of other bytes between encodings is left out.
- Pop3Honest.HonestSessionDeleting: a server that answers anything but what the protocol asks for; that is what the safety theorem is about.
- Handing a complete message to the inbox, which is commented out in the original; the model records uid and text instead.
- MailFolder.Folder.Run: messages are not empty, which a caller can check; what compaction makes of a folder with zero-length records is stated for compaction itself. Saving a message whose descriptor waits leaves the waiting one to be written by the next sync, as in the original.
- MailFolder.Folder.CreateMessage: the generation of ids (a fresh one is a parameter), record identity and aliasing of `IndexClass` and `MessageDevice` objects (records are values), thread and message-id fields, the parsing that finds the parts, dynamic creation without a text, copying and moving between folders, expunging, file locking and failing I/O.
- MailFolder.Folder.SaveMessage: the header text, the per-part headers with their boundary lines, the trailer and the footer for quoted-printable texts are parameters.
- MailFolder.Folder.GetPartData: base64 bodies have characters below 128, since others index outside the table; what stands behind the NUL when a quoted-printable body decodes to nothing.
- MimeCodec.EncodeData: bytes behind data without a NUL, which an encoding that reads a C string would run into; the C string is taken to end with the data.
- Code128.MakeArray: characters are read as unsigned bytes, as the comment at `code128.cpp:261-263` intends; the overflow of the sum for texts of tens of thousands of characters; drawing the symbols as bars.
- ImapUtf7RoundTrip.RoundTrip: code points above U+FFFF, which the decoder does not write completely, and the quoting of the result.
- ImapUtf7.UnicodeToImapUtf7: the bit buffer is taken to be 32 bits wide, the narrowest `unsigned long`; input is well-formed UTF-8 where the theorems speak about code points.
- Md5.HashPieces: the four rounds of the compression and the byte order variants; the digest is the fold of an arbitrary function.
- Base64.EncodeBase64: sizes near the limit of `unsigned`; Base64.DecodeBase64 takes characters below 128, since others index outside the table.
- QuotedPrintable.RoundTrip: where the mail footer comes from, and a bound on the line length, which the equality tests for the column do not give.
- WriteQueue.Socket.Run: the read side, TLS, name lookup and connecting beyond its outcome, signals, the enabling of notifiers, and reconnecting the same object.
- Plessey.Encode: the human-readable text positions and the verifier; the same holds for Msi.Encode and Interleaved25.Encode, which take verified digits.
- Code 39, Codabar, Code 93, raw Code 128 and UPC-E tables, the database converter and file locking: easier members of the same families.
- User interface, painting, settings, accounts, DNS and TLS: calls into libraries that are not part of this model.
