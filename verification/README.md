# Squish message bases: a verified model

This project models the Squish message base library: the `.sqd` file as a heap of variable-length
frames, the `.sqi` index with its write-back buffer, the locking protocol between processes, and four
smaller cores (control information text, the `*.MSG` number table with its quicksort, and the glob
matcher). The methods have the form of the C code — classes whose fields are updated in place, arrays,
loops — and each is proved against a specification on values, about which the properties below are
proved.

**The message area** (`SquishArea.dfy`, class `Area`). An area has frame headers (`hdrs`), bytes
(`content`), the base header fields, a cursor and an index object. Ghost fields name the message list
(`msgs`), the free list (`frees`), all frames in file order (`layout`) and the write in progress
(`pend`). `Valid()` says that both lists are linked correctly in both directions, share no frame and
together are all frames; that frames tile the file from the end of the base header to `foEnd`; that the
index lists the message frames in order; that UMSGIDs increase strictly and stay below `uidNext`; and that the
cursor agrees with the list. `Messages()` is the plain list of messages stored; it includes a message that is
being replaced, which cannot be opened (`MarkView`). Every method says what it does to `Messages()` and keeps
`Valid()`, except `ReduceMaxMsgs`, `KillMsg` and `CloseMsg` on the inputs named below. `SquishRun.Run` puts
this together: any sequence of kills, writes (new or over a message, in any number of passes, with other
messages opened between the create and the write), rewrites through a read-write handle, abandoned creates,
opens by absolute or relative number, locks and unlocks does to the area exactly what it does to the plain
list, and stops only where a new message finds no UMSGID, no room within the maximum or no file offset.

| file | contents |
|---|---|
| Types, DivMod | machine integers, records, file writes; quotient and remainder |
| IndexCodec, IndexBuffer | the index records as bytes; the segmented write-back buffer |
| FrameChain, FrameHeap | doubly linked lists in the frame headers; the two lists and the tiling |
| AreaModel, AreaCreate, AreaText | an area as a value and its transitions: kill, reduce, create, write, read |
| AreaTheorems | walks, conservation, growth |
| AreaOrder | several creates in progress at once |
| SquishArea | the class `Area` and its message handles |
| SquishPasses | writing and reading in several passes |
| SquishRun | whole runs |
| UidSearch | message numbers and UMSGIDs |
| BaseLock, LockProtocol | one process's lock counters; all interleavings of many |
| ControlText | control information, its two forms and the editing of items |
| SdmIndex, QuickSort | the `*.MSG` number table; sorting |
| PatMat | glob matching |

**Where the code does not do what is expected of it.** Each of these is proved with its exact condition
and, where it needs one, a concrete input.

- Reducing to `dwMaxMsg` works if and only if a message survives behind the skip range
  (`dwMaxMsg >= wSkipMsg + 2` when anything is deleted); otherwise `foLast` is left at a free frame
  (`ReduceMaxMsgs`, `ReduceFits`).
- A kill while a new message is being created leaves `foLast` at a free frame if and only if it kills the last
  message (`KillMsg`); a handle in creation still fits the area after a kill if and only if the message killed is at
  least two behind the one being replaced (`KillWhileCreating`).
- Closing a create that was never written gives its number back whenever that is the last number: right for a new
  message only. Over the last message the index is left one short of the list (`CloseMsg`, `UndoWrong`); over an
  earlier one nothing is undone, and the message can never be opened or replaced again (`Stuck`).
- When no frame can be had for a replacement the recovery deletes the old message correctly (`FailToPlace`), but closing
  the handle then breaks the area if and only if that message was the last but one (`FailThenClose`).
- Several new messages created before the first is written go on the list in the order they are written and into the
  index in the order they were created; list and index agree, and the area is sound again, if and only if the two orders
  are the same (`WriteOrder`; with two messages, `SecondFirst`).
- `dwWritePos` is reset on the first pass only, so an append that follows a second non-append pass can start behind the
  message's end (`SpanInside`, `RewriteThenAppend`): in another frame unless its own is longer by enough
  (`AppendLands`), where it can replace text of another message (`AppendHitsNext`).
- Looking up a UMSGID runs over the whole buffered index, of which a create given up and removed messages leave
  records behind the last message. The answer is then right for EXACT if and only if none of these has the UMSGID, for
  PREV if and only if they are above it, for NEXT if and only if a message has it or follows (`TrailingRecords`,
  `FindMessage`); a lock, a create and a close in a new area make EXACT find a message where there is none
  (`LockCreateClose`). In an empty index PREV and NEXT answer message 1 or 2 (`EmptyIndex`).
- A failing `apiSquishLock` leaves `fLockFunc` raised, always (`FailureBreaks`); a later unlock then lets
  two processes into exclusive sections at once (`FailedLockThenUnlock`).
- The base's name is wiped by the first header write-back (`BaseRoundTrip`).
- Control information with an empty last item loses it (`RoundTrip`). The 16-bit length overflows from 65536 on
  (`CopyToControlBuf`); the buffer for the lines is too small if and only if the items that are not AREA: lines exceed the
  16-bit count of all items by more than 19, or 21 when the last item is empty (`KludgeBuffer`; 65536 one-byte items,
  `KludgeOverflow`).
- `GetCtrlToken` returns the first matching item if and only if no CR follows in it or in any later item
  (`FirstToken`); with one, the text runs on across items (`TokenRunsOn`).
- `SdmKillMsg` shifts its table before it knows whether the file can be deleted (`KillMsg`), and the 16-bit table length
  wraps at 65280 entries (`Rescan`). The high-water mark is set as a message number and read as a file number: it reads
  as it was set if and only if it is 0 or the file of that number is in its place (`HighWaterRoundTrip`).

## Model

| member | source | states |
|---|---|---|
| IndexCodec.DwordRoundTrip | src/putword.c:12-18 | a 32-bit value stored as four little-endian bytes is read back as itself |
| IndexCodec.BytesRoundTrip | src/putword.h:39-43 | the four bytes read as a 32-bit value are the ones that value is stored as |
| IndexCodec.PutDword | src/putword.c:12-18 | a value is stored low-order byte first in its four bytes of the buffer and no other byte changes |
| IndexCodec.RecRoundTrip | src/sq_idx.c:357-425 | a 12-byte index record encodes and decodes to itself in both directions |
| IndexCodec.RecordsEncode | src/sq_idx.c:111-177 | decoding an encoded list of records gives the list back |
| IndexCodec.EncodeRecords | src/sq_idx.c:357-425 | encoding the records of a file of whole records gives its bytes back |
| IndexCodec.RecordsSplice | src/sq_idx.c:557-615 | writing whole records into a file, also behind its end, is writing them into its list of records |
| IndexCodec.WriteSqidx | src/sq_idx.c:357-425 | each record is written as its offset, its UMSGID and its hash, low-order byte first, whether written one by one or in accelerator batches, also when the last batch is partial |
| IndexCodec.ReadSqidx | src/sq_idx.c:111-177 | reading n records succeeds exactly when the file has them and returns those whose image the bytes are, batched or not |
| IndexBuffer.Index.IndexSize | src/sq_idx.c:73-93 | the size reported is 12 bytes for every record of the virtual index, buffered or not |
| IndexBuffer.Index.BeginBuffer | src/sq_idx.c:181-291 | the outermost call buffers exactly the first num_msg records; an inner call only counts; it fails exactly when the file is too short |
| IndexBuffer.Index.Sidx | src/sq_idx.c:295-311 | the segment and slot found are those of the requested record, and nothing is found exactly when there is none |
| IndexBuffer.Index.SidxGet | src/sq_idx.c:315-355 | a record of the virtual index is returned whatever its segment; a missing one is missed, after a flush that keeps the message records |
| IndexBuffer.Index.AppendIndexRecord | src/sq_idx.c:429-553 | the virtual index grows by one record, by whichever of the three ways the segment allows; the file keeps all it had and is extended by 64 places when it is shorter than the message count |
| IndexBuffer.Index.SidxPut | src/sq_idx.c:557-615 | updates one record or appends the next, on both paths; fails exactly when buffered, missing and not the next; memory and disk differ in the dirty range only |
| IndexBuffer.Index.RemoveIndexEntry | src/sq_idx.c:619-746 | removing record d leaves the others in order and a blank (offset 0, all ones) last, buffered or not |
| IndexBuffer.Index.RemoveFromFile | src/sq_idx.c:694-736 | shifting the file's bytes in 32768-byte chunks, which split records, removes exactly record d |
| IndexBuffer.ShiftChunk | src/sq_idx.c:708-721 | one chunk moved down 12 bytes extends the shifted part by its length |
| IndexBuffer.SyncedPut | src/sq_idx.c:599-612 | after a put everything outside the widened dirty range is on disk as in memory |
| IndexBuffer.SyncedRemove | src/sq_idx.c:664-674 | after a removal the same holds of the range stretched to the end |
| IndexBuffer.Index.FreeBuffer | src/sq_idx.c:870-898 | dropping the outermost buffer makes the file the virtual index again |
| IndexBuffer.Index.EndBuffer | src/sq_idx.c:777-862 | closing the outermost buffer leaves the image of the first num_msg records of the virtual index at the start of the file; behind them are only records of it in their places, or holes |
| IndexBuffer.FlushKeeps | src/sq_idx.c:777-862 | cutting the file and writing the dirty range alone is enough to bring the first num_msg records to disk |
| FrameChain.Walks | src/api_sq.h:66-84 | following next from the first frame visits the list in order, following prev from the last visits it in reverse, and both end there |
| FrameChain.ChainUnique | src/api_sq.h:66-84 | the headers and the first frame determine the list |
| FrameChain.ChainUnlink | src/sq_kill.c:43-57 | linking a frame's neighbours over it gives the list without it |
| FrameChain.ChainReplace | src/sq_write.c:266-302 | a frame linked between the neighbours of another takes its place in the list |
| FrameHeap.KillMessage | src/sq_kill.c:37-69 | after a kill both lists are linked correctly and share no frame, the freed frame last on the free list |
| FrameHeap.FreeMessage | src/sq_write.c:392-398 | giving a replaced frame to the free list breaks the message list at that message only |
| FrameHeap.TakeFree | src/sq_write.c:99-148 | taking any frame off the free list leaves both lists linked around it |
| FrameHeap.LinkOver | src/sq_write.c:248-352 | linking the taken frame, even the one just freed, makes both lists whole again |
| FrameHeap.LinkLast | src/sq_write.c:248-352 | the same for a new last message |
| FrameHeap.CloseGap | src/sq_msg.c:350-380 | rejoining both sides of a range of freed messages gives the list without the range |
| FrameHeap.NotSeen | src/sq_write.c:69-75 | a frame whose prev link names the frame visited just before was not visited earlier |
| FrameHeap.TilesDisjoint | src/sq_write.c:156-186 | two frames of a tiled file never overlap |
| FrameHeap.TilesCover | src/sq_write.c:156-186 | every byte behind the base header belongs to a frame |
| FrameHeap.TilesGrow | src/sq_write.c:156-186 | a frame added at the end extends the tiling by its header and length exactly |
| AreaModel.UidsCount | src/sq_msg.c:283-295 | there are always fewer messages than UMSGIDs handed out |
| AreaModel.KillSound | src/sq_kill.c:37-69 | a kill keeps lists, tiling, index, UMSGIDs and frame types consistent, also while a message is being created or replaced |
| AreaModel.KillView | src/sq_kill.c:73-134 | a kill removes its message from the list of messages and changes no other |
| AreaModel.KillTrail | src/sq_idx.c:619-746 | a kill leaves at most one record with a UMSGID once handed out behind the messages of a buffered index |
| AreaModel.DrainNext | src/sq_msg.c:308-340 | each deletion of a reduction moves one more frame to the tail of the free list, in order, and changes links only |
| AreaModel.ReduceSound | src/sq_msg.c:479-525 | a reduction that leaves a message behind the skip range keeps the area consistent |
| AreaModel.ReduceView | src/sq_msg.c:479-525 | exactly the messages behind the skip range up to the number deleted are gone |
| AreaModel.FlushReduced | src/sq_msg.c:516-522 | the index written back lists the skip range and then the survivors |
| AreaCreate.BeginSound | src/sq_msg.c:283-295 | reserving a number and a UMSGID keeps the area consistent |
| AreaCreate.BeginView | src/sq_msg.c:283-295 | and changes no message |
| AreaCreate.MarkSound | src/sq_msg.c:211-273 | marking a message as being replaced keeps the area consistent |
| AreaCreate.MarkView | src/sq_msg.c:211-273 | and changes no message; exactly the one marked can no longer be opened |
| AreaCreate.UndoNew | src/sq_msg.c:659-680 | undoing a new message that was not written keeps the area consistent and all messages |
| AreaCreate.UndoTrail | src/sq_msg.c:659-680 | the record of a new message given up while the index is buffered stays, alone of those behind the messages with a UMSGID handed out |
| AreaCreate.UndoWrong | src/sq_msg.c:659-680 | giving back the last number breaks the area unless a new message holds it, whatever one takes to be in progress |
| AreaCreate.PlaceChains | src/sq_write.c:389-447 | the frame found for a message is linked in its place, both lists and the tiling are whole, and every other frame is as before |
| AreaCreate.StoreSound | src/sq_write.c:781-877 | writing the pending message makes the area consistent with nothing pending |
| AreaCreate.StoreView | src/sq_write.c:781-877 | the new message is in its place in the list and no other message changes |
| AreaCreate.MessageKept | src/sq_write.c:686-737 | a message whose frame lies outside the bytes written reads the same as before |
| AreaCreate.HashOf | src/sq_write.c:758-772 | the stored hash is that of the `to' field without its high bit, which tells whether the message has been read |
| AreaText.SpanInside | src/sq_write.c:700-716 | text stays inside its message exactly when an append does not start behind the message's end or has nothing to write |
| AreaText.RewriteThenAppend | src/sq_write.c:700-735 | two passes that do not append and then one that does write behind the message's end |
| AreaText.AppendLands | src/sq_write.c:700-735 | an append behind the message's end starts in its own frame exactly while the frame is longer by enough, else in another frame or behind the end of the file |
| AreaText.AppendHitsNext | src/sq_write.c:700-735 | a message that fills its frame, rewritten whole twice and appended to, replaces a byte of the text of the message in the next frame |
| AreaText.PassMessage | src/sq_write.c:629-737 | a pass overwrites its stretch of the text and its control information only, and no byte outside its message's frame |
| AreaText.RewrittenIs | src/sq_write.c:629-737 | a pass replaces a stretch of the text and the start of the control information and leaves the rest and the UMSGID |
| AreaText.FirstPass | src/sq_write.c:781-877 | the first pass over a created message shows it with its reserved UMSGID, its control information and the text so far, in its place |
| AreaText.LaterPass | src/sq_write.c:781-877 | a later pass changes its own message and no other |
| AreaText.ReadPartsAll | src/sq_read.c:222-280 | consecutive reads of any lengths return the text up to their total length |
| AreaTheorems.WalkIsIndex | src/sq_write.c:248-352 | with nothing pending, the walk from foFirst visits exactly the offsets of index records 1..num_msg in order, the walk from foLast their reverse |
| AreaTheorems.WalkIsFree | src/sq_help.c:210-266 | the walk from foFree visits exactly the free frames, all marked free |
| AreaTheorems.Conservation | src/sq_write.c:156-186 | every frame is on exactly one list, none twice, and the frames add up to the file |
| AreaTheorems.KillGrown | src/sq_kill.c:37-69 | a kill changes no frame's length and not the end of the file |
| AreaTheorems.ReduceGrown | src/sq_msg.c:302-343 | a reduction changes no frame's length and not the end of the file |
| AreaTheorems.StoreGrown | src/sq_write.c:360-451 | a write changes no frame's length, even when it frees and takes the same frame, and the file grows only when no free frame fits, by exactly one frame |
| AreaOrder.BegunWhole | src/sq_msg.c:283-295 | reserving any number of messages leaves lists and frames as they are and UMSGIDs in order |
| AreaOrder.WrittenWhole | src/sq_write.c:248-451 | writing a reserved message keeps both lists and the tiling whole and puts it behind foLast, whatever its number |
| AreaOrder.WriteOrder | src/sq_write.c:283-289 | of several messages created and then written, the walk from foFirst is what the index lists, and the area is sound again, exactly when they are written in the order they were created |
| AreaOrder.SecondFirst | src/sq_write.c:283-289 | of two messages created in an area without free frames, the second written first, the list has the second first and the index the first |
| SquishArea.Area.constructor | src/sq_area.c:285-309 | a new base is consistent, empty, and hands out UMSGID 1 first |
| SquishArea.Area.SetFrameNext | src/sq_help.c:270-282 | sets one next link; fails exactly when there is no header in range |
| SquishArea.Area.SetFramePrev | src/sq_help.c:286-298 | sets one prev link; fails exactly when there is no header in range |
| SquishArea.Area.InsertFreeChain | src/sq_help.c:210-266 | the frame becomes the last free one, of the same length, and no link changes but that of the last free frame before; a failure takes that link back |
| SquishArea.Area.ProbeFreeChain | src/sq_write.c:43-92 | ends on every file content; what it returns is free and long enough; on a sound chain it is the first free frame that fits |
| SquishArea.Area.RemoveFreeChain | src/sq_write.c:99-148 | links the neighbours over the frame and repairs both ends; fails exactly for a frame that pretends to be an end it is not, or whose neighbours cannot be read |
| SquishArea.RemoveAt | src/sq_write.c:107-146 | a frame without a neighbour on one side is exactly the end of the list on that side |
| SquishArea.Area.GetFrameEOF | src/sq_write.c:156-186 | the file grows by one header and the length asked for, and its old bytes stay |
| SquishArea.Area.GetNewFrame | src/sq_write.c:194-233 | first fit: the earliest free frame long enough, all before it being too short, else one at the end of the file |
| SquishArea.Area.GetFrameOfs | src/sq_help.c:329-364 | the offset comes from the cursor when it covers the message and from the index otherwise |
| SquishArea.CursorAgrees | src/sq_help.c:329-364 | cursor and index give the same offset for every message that is not being replaced |
| SquishArea.Area.FixMemoryPointers | src/sq_help.c:506-584 | list ends, cursor and message count after a message was removed, in every position of the cursor; foLast stays when the last message does not have the last number |
| SquishArea.CutNear | src/sq_help.c:520-566 | the neighbourhood of the current message once another one, or it itself, is gone |
| SquishArea.Area.Kill | src/sq_kill.c:37-69 | the area becomes exactly the killed area, and stays consistent unless a new message is being created and the last one is killed |
| SquishArea.Area.KillMsg | src/sq_kill.c:73-134 | succeeds exactly for stored messages, the one being replaced only when the cursor is at it or next to it; the messages before and behind it stay in order, num_msg goes down by one, its frame becomes the last free one, and the cursor moves back when it was at or behind it; breaks foLast exactly when a new message is being created and the last one is killed |
| SquishArea.Area.KillWhileCreating | src/sq_kill.c:73-134 | a handle in creation fits the area after a kill exactly when the message killed is at least two behind the one replaced |
| SquishArea.KilledBefore | src/sq_kill.c:37-69 | a kill changes the header of an earlier message exactly when that is the one before |
| SquishArea.Area.ReduceMaxInternal | src/sq_msg.c:302-343 | deletes from behind the skip range until num_msg is dwMaxMsg - 1; fails exactly when the skip range leaves nothing to delete |
| SquishArea.Area.RejoinSkip | src/sq_msg.c:364-383 | links the last message of the skip range and the first survivor; fails exactly when there is no survivor |
| SquishArea.Area.RepairCursor | src/sq_msg.c:387-451 | the cursor fits the shortened list wherever it stood: before, at the edge of, inside, just behind or beyond the deleted range |
| SquishArea.GapNear | src/sq_msg.c:387-451 | the list ends and the neighbourhood of the current message once a range is gone |
| SquishArea.Area.ReduceMaxPointers | src/sq_msg.c:350-470 | list, list ends and cursor after a reduction |
| SquishArea.Area.ReduceMaxMsgs | src/sq_msg.c:479-525 | with no maximum, fewer messages than it, or none behind the skip range nothing changes; else num_msg becomes dwMaxMsg - 1, the first messages behind the skip range being gone and the cursor moved with those that stay; it works if and only if dwMaxMsg is then at least wSkipMsg + 2, and otherwise leaves foLast at a free frame |
| SquishArea.DropIs | src/sq_msg.c:302-343 | what a reduction leaves of any list with one element a message, and what it takes out |
| SquishArea.Area.BlankOldMsg | src/sq_msg.c:211-273 | marks a message as being replaced, blanks its record but for the UMSGID and remembers its frame; refuses one already marked |
| SquishArea.Area.BlankNewMsg | src/sq_msg.c:283-295 | reserves the next message number and UMSGID, in a record that points nowhere |
| SquishArea.Area.OpenMsgCreate | src/sq_msg.c:532-598 | makes room by the maximum for a new message, reserves it or marks the old one; no message is visible yet |
| SquishArea.Area.OpenMsgExisting | src/sq_msg.c:139-192 | opens exactly the messages that are not being written and makes them current; message 0 resets the cursor |
| SquishArea.Area.OpenMsg | src/sq_msg.c:602-652 | 0xFFFFFFFF, 0xFFFFFFFE and 0xFFFFFFFD open the current message, the one before and the one behind it, other numbers that message; it becomes current; opening for creation does what OpenMsgCreate does |
| SquishArea.TranslateIs | src/sq_msg.c:103-121 | the 32-bit arithmetic behind these three numbers gives the message meant, or a number no message has |
| SquishArea.Area.LinkMessageFrame | src/sq_write.c:248-352 | the new header points at the neighbours of its place and says the lengths given; list ends and cursor are repaired; its three sanity checks hold |
| SquishArea.Area.GetCreateFrame | src/sq_write.c:378-451 | frees the replaced frame, takes the first that fits and links it |
| SquishArea.Area.FailToPlace | src/sq_write.c:392-438 | when no frame can be had the message to be replaced is killed, the area stays consistent, and a new message changes nothing |
| SquishArea.Area.FailThenClose | src/sq_msg.c:659-680 | closing the handle after that breaks the area exactly when the message was the last but one |
| SquishArea.Area.WriteXmsg | src/sq_write.c:565-625 | the stored header carries the UMSGID from the index and is otherwise the one given |
| SquishArea.Area.WriteCtrl | src/sq_write.c:629-682 | control information is written on the first pass only, and never past its announced length |
| SquishArea.Area.WriteTxt | src/sq_write.c:686-737 | writes the part of the text that fits at its place and advances the write position |
| SquishArea.Area.UpdateIndex | src/sq_write.c:744-777 | the record points at the written frame and keeps its UMSGID, or takes that of the header when it has none |
| SquishArea.Area.WriteCreated | src/sq_write.c:781-877 | the first write of a created message: the message list, the first-fit frame, and how far the file grows |
| SquishArea.Area.WriteLocated | src/sq_write.c:781-877 | any other write changes its own message only |
| SquishArea.Area.WriteMsg | src/sq_write.c:781-877 | succeeds exactly in a writing mode with a header on the first pass and, over an existing message, when header, text and control lengths add up to no more than its length; the list changes in one place; the header is stored as given but for the UMSGID |
| SquishArea.Area.CloseMsg | src/sq_msg.c:723-753 | gives back the last number exactly when an unwritten create holds it: right for a new message, else the area is broken for good; an unwritten replacement of an earlier message changes nothing, and the message stays unreadable |
| SquishArea.Area.ReadMsg | src/sq_read.c:284-346 | returns header, control information and the part of the text asked for, of the message opened, in a reading mode only |
| SquishArea.Area.ReadTxt | src/sq_read.c:222-280 | clips the position and length to the text and advances the position |
| SquishArea.Area.Lock | src/sq_lock.c:244-269 | the outermost call buffers the index records of the messages; the messages stay the same |
| SquishArea.Area.Unlock | src/sq_lock.c:273-291 | the outermost call writes the index back, keeping the record of every message; the messages stay the same |
| SquishPasses.WriteInPasses | doc/MsgAPI.txt:420-424 | one first pass and append passes that together have the announced length leave exactly the concatenation as the text |
| SquishPasses.AppendPass | src/sq_write.c:706-735 | an append pass that fits continues the text written so far |
| SquishPasses.ReadInPasses | src/sq_read.c:284-346 | reads in pieces of any lengths return the text from its start |
| SquishRun.OpenOld | src/sq_msg.c:139-192 | opening a message does to the current message what it does in the plain list, also while another is being created or replaced |
| SquishRun.WriteWhole | src/sq_msg.c:602-652 | create, opens of others, write in passes and close, new or over a message, is one change of the plain list |
| SquishRun.GiveUp | src/sq_msg.c:602-680 | a create given up costs the messages over the maximum and one UMSGID, and nothing else |
| SquishRun.WriteOver | src/sq_write.c:370-387 | a write through a read-write handle revises the message exactly when the lengths announced, added up in 32 bits, fit in it |
| SquishRun.ReadWhole | src/sq_read.c:284-346 | header, control information and text of any message, the text in pieces of any lengths |
| SquishRun.WriteThenRead | src/sq_read.c:222-280 | a message written in passes gives back its text in pieces of any lengths, its control information, and its header with the read flag, hash and remaining fields as given and the message's UMSGID; no other message changes |
| SquishRun.IsAffordable | src/sq_msg.c:532-598 | decides whether an operation needs a UMSGID, room within the maximum or a file offset that is not to be had; all others are affordable |
| SquishRun.Perform | src/sq_msg.c:532-598 | each operation does to the area what it does to the plain list of messages |
| SquishRun.Run | src/sq_write.c:781-877 | every run of operations does so up to the first that is not affordable in the state reached, keeps the area consistent, keeps every frame and its length, and never shortens the file |
| SquishRun.StepForward | src/sq_msg.c:103-121 | n opens of the next message from none make messages 1 to n current in turn |
| SquishRun.StepBack | src/sq_msg.c:103-121 | opens of the previous message then lead back by as many |
| SquishRun.StoreKeepsMax | src/sq_msg.c:302-598 | a new message is stored last, with the next UMSGID, and with messages behind the skip range there are then at most dwMaxMsg |
| SquishRun.StoreOver | src/sq_msg.c:211-273 | replacing a message changes it alone and keeps its UMSGID |
| SquishRun.KillMoves | src/sq_kill.c:73-134 | a kill moves the messages behind up by one; the current message stays current, or the one before becomes so |
| SquishRun.RewriteMeans | src/sq_write.c:366-387 | a rewrite within the lengths replaces the start of control information and text and the header, one beyond them nothing |
| SquishRun.Stuck | src/sq_msg.c:139-273 | a message whose replacement was closed unwritten, and that is not the last, refuses every further open and replacement |
| SquishRun.AreaRising | src/sq_msg.c:283-295 | the UMSGIDs of the messages increase strictly and are below the next one |
| SquishRun.NeverReused | src/sq_msg.c:291 | over any run the next UMSGID never goes down and no UMSGID is given to a second message |
| SquishRun.NeverTwice | src/sq_msg.c:291 | over any run the next UMSGID never goes down, those of the messages increase below it, and one below the first next one belongs to a message that was there before |
| UidSearch.MsgnToUid | src/sq_uid.c:47-70 | the UMSGID of messages 1..num_msg, 0 for others |
| UidSearch.UidToMsgn | src/sq_uid.c:74-184 | on a non-empty ascending index the answer is the message with the UMSGID, else 0 for EXACT, the last one below for PREV, the first one above or the last for NEXT; on an empty one 0, 1 or 2 |
| UidSearch.Search | src/sq_uid.c:107-139 | the binary search finds the UMSGID or the place where it would be, next to the last record looked at |
| UidSearch.SearchInverts | src/sq_uid.c:47-184 | looking up a message's UMSGID gives its number back, for every way of asking |
| UidSearch.OneAnswer | src/sq_uid.c:141-176 | there is exactly one right answer |
| UidSearch.EmptyIndex | src/sq_uid.c:101-105 | on an empty index the answer is right for EXACT only |
| UidSearch.TrailingRecords | src/sq_uid.c:101-105 | with records behind the last message the answer is right for EXACT exactly when none of them has the UMSGID, for PREV exactly when all are above it, for NEXT exactly when a message has it or follows |
| SquishRun.SearchedAscend | src/sq_uid.c:101-105 | in every consistent area, locked or not, the records searched ascend, start with those of the messages and rise strictly to the first one behind |
| SquishRun.FindMessage | src/sq_uid.c:74-184 | on any area the answer is right for its messages exactly when there are messages or the type is EXACT, or, with records behind them, exactly when these leave it so |
| SquishRun.LockCreateClose | src/sq_uid.c:101-105 | a new area, a lock, a create and a close: EXACT finds a message for the UMSGID given up although there is none |
| BaseLock.DataRoundTrip | src/sq_area.c:234-281 | what a process writes back is read again as it was, exactly when its two message counters agree |
| BaseLock.BaseRoundTrip | src/sq_area.c:234-281 | reading and writing back a header changes nothing exactly when its counters agree, its skip count fits 16 bits and it has no name |
| BaseLock.Process.LockBase | src/sq_lock.c:123-149 | the file lock is asked for by the first of nested calls only; a refusal leaves the counter as it was |
| BaseLock.Process.UnlockBase | src/sq_lock.c:153-170 | the file lock is given back by the last of nested calls only |
| BaseLock.Process.ExclusiveBegin | src/sq_lock.c:177-206 | takes the lock and reads every header field into memory, or changes nothing |
| BaseLock.Process.ExclusiveEnd | src/sq_lock.c:213-240 | writes every field back to the header and gives up the lock |
| BaseLock.Process.Lock | src/sq_lock.c:244-269 | locks on the first of nested calls; a failure leaves the call count raised (the index half is SquishArea.Area.Lock) |
| BaseLock.Process.Unlock | src/sq_lock.c:273-291 | unlocks on the last of nested calls (the index half is SquishArea.Area.Unlock) |
| LockProtocol.StepKeeps | src/sq_lock.c:123-291 | every step of any process keeps the lock counters, the header history and the UMSGID order, unless an apiSquishLock fails |
| LockProtocol.IssueThenSave | src/sq_msg.c:291 | the UMSGID issued is uidNext, which goes up by one and is what the file has after the section is saved |
| LockProtocol.FailureBreaks | src/sq_lock.c:244-269 | a failing apiSquishLock always breaks them; a failing exclusive begin changes nothing |
| LockProtocol.Safety | src/sq_lock.c:177-240 | over all interleavings without a failing apiSquishLock: one process at most in an exclusive section, the lock count is what it should be, each section starts from the header the last one left, and UMSGIDs are issued in increasing order |
| LockProtocol.FailedLockThenUnlock | src/sq_lock.c:244-291 | a failed lock, an unlock and an exclusive begin let a process in beside another |
| ControlText.CopyToBuf | src/msgapi.c:245-318 | the counting and the copying pass agree: the count is that of the bytes the copy stores, modulo 65536, and the copy is the list of lines parsed |
| ControlText.CopyToControlBuf | src/msgapi.c:320-357 | returns the control information and where the body starts; the buffer is large enough exactly below 65536 bytes |
| ControlText.NumKludges | src/msgapi.c:723-743 | counts the SOH bytes, modulo 65536 |
| ControlText.CvtCtrlToKludge | src/msgapi.c:745-787 | one line per item; the buffer has 20 bytes more than the string and the 16-bit count of its items, which is enough below 65536 items |
| ControlText.KludgeBuffer | src/msgapi.c:745-757 | it is enough exactly when the items that are not AREA: lines exceed the 16-bit count by at most 19, or 21 with a trailing empty item |
| ControlText.KludgeOverflow | src/msgapi.c:745-757 | 65536 one-byte items overflow it |
| ControlText.LineIs | src/msgapi.c:745-787 | an item becomes SOH, item, CR; one that starts with AREA: has no SOH |
| ControlText.ParseLines | src/msgapi.c:245-318 | parsing the lines in front of a body gives the items back and stops at the body |
| ControlText.ParseEnded | src/msgapi.c:245-318 | lines ended by any runs of CR, LF and soft CR, behind SOH or starting with AREA:, give their items, and parsing stops at the body |
| ControlText.RoundTrip | src/msgapi.c:320-787 | control information put in front of a body and read again is the same, and the body starts where it did, exactly when the last item is not empty |
| ControlText.RemoveFromCtrl | src/msgapi.c:797-834 | edits in place to the string without the items that start with the token, and ends |
| ControlText.Strocpy | src/msgapi.c:789-795 | moves the tail of a string down over a part of it |
| ControlText.StrippedItems | src/msgapi.c:797-834 | exactly the items that do not start with the token remain, in order |
| ControlText.GetCtrlToken | src/msgapi.c:359-405 | the text behind the first SOH that the token follows, up to the first CR anywhere or else the next SOH |
| ControlText.FirstToken | src/msgapi.c:359-405 | that is the first item that starts with the token exactly when no CR is in it or in a later item, else the text up to the first CR, across items |
| ControlText.NoToken | src/msgapi.c:359-405 | nothing is found exactly when no item starts with the token |
| ControlText.TokenRunsOn | src/msgapi.c:359-405 | with a CR at the end of the second item both are returned |
| ControlText.RemovedThenGet | src/msgapi.c:359-834 | once removed, a token is not found |
| QuickSort.Partition | src/qksort.c:8-27 | the middle element ends in its final place, smaller ones before it, the others behind, nothing outside moved |
| QuickSort.IQkSort | src/qksort.c:8-38 | sorts the stretch, a permutation of what it held, and leaves the rest |
| QuickSort.QkSort | src/qksort.c:40-46 | sorts the first n elements, a permutation of what they were |
| SdmIndex.SdmArea.Rescan | src/api_sdm.c:1370-1452 | the table is the sorted list of the 16-bit non-zero numbers found; the highest number known is raised to the largest of them and never lowered; it gives up exactly when the 16-bit table length wraps |
| SdmIndex.ListedIs | src/api_sdm.c:1423-1435 | exactly the file numbers that are not 0 in 16 bits are listed |
| SdmIndex.RescanValid | src/api_sdm.c:1370-1452 | distinct files give a strictly ascending table of exactly their numbers |
| SdmIndex.SdmArea.KillMsg | src/api_sdm.c:1045-1111 | removes exactly the entry, keeps the order and lowers the high-water mark when it was at or behind it; when the file cannot be deleted the entry is lost and the last one doubled, harmless exactly for the last message |
| SdmIndex.RescanThenKill | src/api_sdm.c:1045-1452 | after a rescan of distinct files and any kills the table is the one ascending list of the numbers left, and the highest number known is the highest of them |
| SdmIndex.SdmArea.GetHighWater | src/api_sdm.c:1249-1285 | the mark read is the number of files numbered up to the stored one |
| SdmIndex.HighWaterRoundTrip | src/api_sdm.c:1249-1308 | a mark set to message h reads as h exactly when h is 0 or the h-th file has number h |
| SdmIndex.DuplicateLast | src/api_sdm.c:1064-1079 | a table that lost an entry and repeats its last is valid only if the entry was the last |
| SdmIndex.SdmArea.MsgnToUid | src/api_sdm.c:1165-1185 | the number of the n-th file |
| SdmIndex.SdmArea.UidToMsgn | src/api_sdm.c:1187-1246 | the number of the file, else 0 for EXACT, the last one below for PREV, the first one above or the last for NEXT; 0 in an empty table |
| PatMat.PatMat | src/patmat.c:54-92 | agrees with the meaning of the pattern for all strings, and ends |
| PatMat.TokensAre | src/patmat.c:58-70 | a backslash takes the next character literally, ? and * are special, other characters stand for themselves |
| PatMat.MatchIs | src/patmat.c:62-70 | a literal takes itself and ? any one character |
| PatMat.SkipAhead | src/patmat.c:77-86 | skipping to the literal behind a `*' loses no match |
| PatMat.MatchStar | src/patmat.c:74-92 | a `*' takes nothing, or one character and then itself again |

## Left out

- SquishArea.Area.ReduceMaxMsgs: requires that no create is pending, as do BlankNewMsg and, for a second new message, OpenMsgCreate and OpenMsg: the class has one create in progress at a time. AreaOrder.WriteOrder has any number of them, without kills or reductions in between.
- SquishArea.Area.BlankOldMsg: with a create pending, covers only a message that is already marked.
- SquishArea.Area.OpenMsgCreate: requires uidNext below 0xFFFFFFFF for a new message; a UMSGID that wraps to 0 is not modelled.
- SquishArea.Area.WriteMsg: requires that file offsets stay within a signed 32-bit long, and that an append with text does not start behind the message's end (SpanInside and AppendLands say what happens then).
- SquishArea.Area.GetCreateFrame: succeeds, as the frame search cannot fail on a consistent area whose file can grow; FailToPlace is the branch taken when it cannot.
- LockProtocol.Safety: calls nest fewer than 65536 deep, and sharing support is present (src/sq_lock.c:164).
- ControlText.CvtCtrlToKludge: KludgeBuffer gives the exact bound of its buffer for items without SOH and line ends; for other strings its own clause gives one direction.
- PatMat.PatMat: bracket classes, which can step past the end of the string, and a pattern that ends in a lone backslash.
- Disk-full, read, write and allocation failures, and the file, lock, delay and directory calls of the operating system: files are byte sequences, the file lock one shared cell whose grant is a parameter, directory entries a parameter.
- The fixed layouts of the base header, the frame header and the message header, which are records here; the frame headers are kept beside the bytes, which is sound because frames do not overlap. sizeof(SQIDX) is taken to be 12.
- The high-water mark of a Squish area, which is stored as a UMSGID but adjusted as a message number.
- Cross-process validity of cached cursors and of a buffered index.
- The list of open handles, handle and area validation, and freeing of handles.
- `*.MSG` message creation and text, JAM bases, date stamps and address parsing.
