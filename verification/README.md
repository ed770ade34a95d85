# PeterDB storage core in Dafny

A model of the two bottom layers of the PeterDB storage engine, with proofs about it.

**Paged file manager** (`src/include/pfm.h`, `src/pfm/pfm.cc`). A paged file is a sequence of
4096-byte pages.
- Physical page 0 is a hidden page holding four `unsigned` counters: the number of data pages, reads, writes and
  appends.
- Data page n is physical page n + 1.
- A `FileHandle` keeps the read, write and append counters in memory and stores them back in the hidden page after
  every transfer.

**Record-based file manager** (`src/include/rbfm.h`, `src/rbfm/rbfm.cc`):
- It turns a record in the wire format (null-indicator bytes, then the non-null values) into the byte stream it stores.
  The stream charges each VarChar its declared length.
- `insertRecord` places the stream on a slotted page:
  - records grow from byte 0;
  - slot entries `[offset][length]` grow leftwards from `PAGE_SIZE - 8`;
  - the slot count N and the free-space count F sit in the last 8 bytes.
- `readRecord` copies a slot's bytes back.
- `printRecord` renders a record as text.

The Dafny modules follow this structure:
- `Bytes` (bytes.dfy): bytes, 32-bit unsigned arithmetic, and the 4-byte image `memcpy` gives an `unsigned`.
- `Pfm` (pfm.dfy): pages, the hidden counters, `FileHandle`, and `PagedFileManager` over a model of the OS directory.
- `SlottedPage` (page.dfy): the page layout, the fresh-page construction and the insert into an existing page.
- `RecordCodec` (record.dfy): the null bitmap, the stored size, the record stream and `printRecord`.
- `Rbfm` (rbfm.dfy): the page search of `insertRecord`, its loop, the RID it returns, `readRecord`, `RID` and
  `PageInfo`.

State that the engine changes in place is modelled with classes:
- `OsFile.pages` is the contents of an open `FILE *`.
- `FileHandle` holds the three counters and the file.
- `insertRecord`'s page buffer is an `array<byte>`.

The methods are proved against functions on page sequences:
- `WithCounter`, `PutPage` and `AppendedPages` for the paged file layer;
- `FreshPage` and `InsertIntoPage` for the slotted page;
- `Choose`, `InsertedFile` and `ReturnedRid` for `insertRecord`.

The lemmas state what those functions mean. The model follows the code as written, including where it departs from
what its comments describe. Lemmas make these departures explicit:
- The existing-page branch tests `F >= S` but uses `S + 8` bytes (`SlottedPage.GuardGap`).
- The returned RID names the page after the one written, because of the loop's final `pageNum++`
  (`Rbfm.RidPageAfterWritten`, `Rbfm.ReturnedRidPage`).
- `readPage` and `writePage` admit page number `getNumberOfPages()`, one past the last page
  (`Pfm.FileHandle.ReadPage`, `Pfm.WritePastEndUncounted`).
- The 32-bit page offset wraps to the hidden page at data page 2^20 - 1 (`Pfm.PageOffsetWrapsToHiddenPage`).
- `createHiddenPage` copies all four counters to offset 0 (`Pfm.FileHandle.CreateHiddenPage`).

## Model

| member | source | states |
|---|---|---|
| `Bytes.Inc32` | src/pfm/pfm.cc:85 | `getReadPageCnt() + 1` in `unsigned` arithmetic: one more, or 0 after 2^32 - 1 |
| `Bytes.Sub32` | src/rbfm/rbfm.cc:105 | `freeSpace -= …` in `unsigned` arithmetic: the difference, or the difference plus 2^32 when it would be negative |
| `Bytes.EncodeU32` | src/pfm/pfm.cc:165-191 | the image of an `unsigned` that `fwrite`/`memcpy` stores is 4 bytes long |
| `Bytes.DecodeEncode` | src/pfm/pfm.cc:144-191 | a counter stored by a setter reads back as the same value through the getter |
| `Bytes.EncodeDecode` | src/pfm/pfm.cc:137-163 | every 4-byte string is the image of the value a getter reads from it, so encoding is a bijection |
| `Bytes.Write` | src/rbfm/rbfm.cc:101 | `memcpy` into a buffer keeps its length and leaves exactly the copied bytes at the target range |
| `Bytes.CopyInto` | src/rbfm/rbfm.cc:77 | `memcpy` into the page array changes the array to the `Write` of the copied bytes |
| `Bytes.WriteKeepsSlice` | src/rbfm/rbfm.cc:106-109 | bytes outside a `memcpy` target range keep their value |
| `Bytes.WriteTwice` | src/pfm/pfm.cc:199-205 | a second `memcpy` to the same place leaves only the second value |
| `Bytes.ReadU32AfterWrite` | src/rbfm/rbfm.cc:108-109 | an `unsigned` copied into a page reads back as that value |
| `Bytes.ReadU32AfterOtherWrite` | src/rbfm/rbfm.cc:106-109 | an `unsigned` that a `memcpy` does not overlap reads back unchanged |
| `Pfm.WithCounter` | src/pfm/pfm.cc:165-191 | after a counter setter that counter reads back as the value set, the other three counters and every data page are unchanged, and the file keeps its length |
| `Pfm.WithCounterTwice` | src/pfm/pfm.cc:172-177 | storing a counter twice is storing the second value |
| `Pfm.PhysicalIndexOfDataPage` | src/pfm/pfm.cc:81-82 | below 2^20 - 1 the page offset `pageNum * PAGE_SIZE + PAGE_SIZE` does not wrap: data page n is physical page n + 1 |
| `Pfm.PageOffsetWrapsToHiddenPage` | src/pfm/pfm.cc:97 | at data page 2^20 - 1 the `unsigned` offset wraps to 0, so readPage/writePage address the hidden page |
| `Pfm.PutPage` | src/pfm/pfm.cc:98-99 | `fseek` + `fwrite` of one page: the target page holds the data, every other page is unchanged, and past the end the file grows to the target |
| `Pfm.AppendedPages` | src/pfm/pfm.cc:110-121 | the page lands at the end, data pages before it are unchanged, the page and append counters rise by one (mod 2^32), read and write counters unchanged |
| `Pfm.OsFile.constructor` | src/pfm/pfm.cc:26 | `fopen(…, "wb+")` gives an empty file |
| `Pfm.FileHandle.constructor` | src/pfm/pfm.cc:69-74 | a new handle has no file and all three counters at 0 |
| `Pfm.FileHandle.GetCounter` | src/pfm/pfm.cc:144-163 | a getter returns the `unsigned` stored at byte 4 * slot of the hidden page (0 for an empty file) |
| `Pfm.FileHandle.GetNumberOfPages` | src/pfm/pfm.cc:137-142 | returns the stored page count, which is the number of data pages when the hidden page is consistent with the file |
| `Pfm.FileHandle.SetCounter` | src/pfm/pfm.cc:165-191 | the file becomes `WithCounter` of the old file |
| `Pfm.FileHandle.CopyPage` | src/pfm/pfm.cc:83 | `fread` of one page: the first PAGE_SIZE bytes of the buffer become the page, the rest stays |
| `Pfm.FileHandle.ReadPage` | src/pfm/pfm.cc:78-91 | for pageNum up to the page count (one past the last page included) returns 0, copies the addressed page if it exists (else leaves the buffer), and raises the read counter in memory and on file by one; above it returns -1 and changes nothing |
| `Pfm.FileHandle.WritePage` | src/pfm/pfm.cc:93-108 | on an empty file page 0 is appended and -1 returned; for pageNum up to the page count the page is written and the write counter rises by one; otherwise -1 and no change |
| `Pfm.FileHandle.AppendPage` | src/pfm/pfm.cc:110-121 | returns 0, the file becomes `AppendedPages` of the old file, the in-memory append counter is the stored one plus one |
| `Pfm.FileHandle.CollectCounterValues` | src/include/pfm.h:46-47 | returns 0 and the three in-memory counters, changing nothing |
| `Pfm.FileHandle.UpdateOpenedFile` | src/pfm/pfm.cc:130-135 | attaches the file and loads the three counters stored in it, so memory and file agree |
| `Pfm.FileHandle.CreateHiddenPage` | src/pfm/pfm.cc:193-211 | the empty file gets one page whose first 4 bytes are 0 and whose other bytes are the uninitialised buffer's (all four copies go to offset 0) |
| `Pfm.PagedFileManager.constructor` | src/pfm/pfm.cc:14 | the manager works on the given directory |
| `Pfm.PagedFileManager.CreateFile` | src/pfm/pfm.cc:22-36 | returns 0 or -1; -1 exactly when the name exists (directory unchanged); otherwise the name maps to a new one-page file with a zeroed page count |
| `Pfm.PagedFileManager.DestroyFile` | src/pfm/pfm.cc:38-45 | returns 0 or -1; -1 exactly when the name does not exist; afterwards the name is gone and every other name is unchanged |
| `Pfm.PagedFileManager.OpenFile` | src/pfm/pfm.cc:47-56 | returns 0 or -1; -1 exactly when the name does not exist (handle unchanged); otherwise the handle is attached to that file with its stored counters |
| `Pfm.PagedFileManager.CloseFile` | src/pfm/pfm.cc:58-67 | returns 0 or -1; -1 exactly when no file was attached; afterwards none is, and the counters are kept |
| `Pfm.ReadPageKeepsCount` | src/pfm/pfm.cc:85-86 | storing the read counter keeps the page count equal to the number of data pages |
| `Pfm.WritePageKeepsCount` | src/pfm/pfm.cc:96-104 | writing an existing data page replaces just that page and keeps the page count right |
| `Pfm.AppendPageKeepsCount` | src/pfm/pfm.cc:110-121 | appending a page keeps the page count equal to the number of data pages |
| `Pfm.WritePastEndUncounted` | src/pfm/pfm.cc:96-104 | writing page `getNumberOfPages()` grows the file by a page that the page count does not cover |
| `SlottedPage.SlotEntry` | src/rbfm/rbfm.cc:152 | the entry of every slot up to 511 lies inside the page |
| `SlottedPage.RecordAt` | src/rbfm/rbfm.cc:152-154 | the bytes readRecord copies for a slot: as many as its length field says, starting at its offset |
| `SlottedPage.FreshPageFields` | src/rbfm/rbfm.cc:121-131 | a fresh page has N = 1, F = PAGE_SIZE - S - 16, and slot 1 = {0, S} |
| `SlottedPage.FreshPageBytes` | src/rbfm/rbfm.cc:123 | a fresh page starts with the record; the bytes up to the directory are whatever the buffer held |
| `SlottedPage.FreshPageLayout` | src/rbfm/rbfm.cc:76-85 | a fresh page is well formed and its slot 1 holds exactly the record |
| `SlottedPage.OversizedFreshPage` | src/rbfm/rbfm.cc:121-131 | for S > PAGE_SIZE - 16 the fresh page's `PAGE_SIZE - S - 16` wraps: its free space is at least 2^32 - 16 and the page is not well formed |
| `SlottedPage.WellFormedInsertInBounds` | src/rbfm/rbfm.cc:94-101 | on a well-formed page the guard `F >= S` keeps every copy of the insert inside the page |
| `SlottedPage.InsertIntoPageFields` | src/rbfm/rbfm.cc:102-109 | after the insert N is N + 1, F is F - (S + 8) mod 2^32, and the new entry is {end of the last record, S}, whatever the guard |
| `SlottedPage.InsertIntoPageKeeps` | src/rbfm/rbfm.cc:101 | when the record ends before the new entry, the records and the old directory are left alone |
| `SlottedPage.InsertIntoPageOldSlots` | src/rbfm/rbfm.cc:106-107 | when the record and its entry fit, every earlier slot keeps its entry and its record |
| `SlottedPage.WellFormedAfterAppendSlot` | src/rbfm/rbfm.cc:102-105 | a page with one more slot right after the last record and S + 8 bytes less free space is well formed |
| `SlottedPage.InsertIntoPageWellFormed` | src/rbfm/rbfm.cc:96-109 | when the record and its entry fit, the page stays well formed |
| `SlottedPage.InsertIntoPageNewSlot` | src/rbfm/rbfm.cc:98-104 | when the record and its entry fit, slot N + 1 holds exactly the record, right after the last one |
| `SlottedPage.InsertIntoPageLayout` | src/rbfm/rbfm.cc:94-111 | the whole effect of an insert that fits: well formed, one slot more holding the record, F down by S + 8, earlier slots and records unchanged |
| `SlottedPage.GuardGap` | src/rbfm/rbfm.cc:94-105 | when S <= F < S + 8 the guard admits the insert, the new entry overlaps the record, F wraps to at least 2^32 - 8 and the page is no longer well formed |
| `RecordCodec.NullIndicatorSize` | src/rbfm/rbfm.cc:226 | the number of null bytes is ceil(n / 8): the least r with 8r >= n |
| `RecordCodec.NullFlags` | src/include/rbfm.h:129-133 | one flag per field, flag k being the k-th bit from the left |
| `RecordCodec.ExtractNullInformation` | src/rbfm/rbfm.cc:224-241 | one flag per field, set exactly when the field's null bit is set |
| `RecordCodec.EncodeNullBitmap` | src/include/rbfm.h:127-128 | a null bitmap for n fields is ceil(n / 8) bytes long |
| `RecordCodec.NullBitOfEncoded` | src/include/rbfm.h:130-133 | in an encoded bitmap the bit of field k is set exactly when field k is null |
| `RecordCodec.NullFlagsRoundTrip` | src/include/rbfm.h:125-133 | decoding the null bits of an encoded bitmap, whatever follows it, gives back the flags |
| `RecordCodec.RecordSize` | src/rbfm/rbfm.cc:48-61 | the size insertRecord charges equals the stored size (null bytes plus 4 per Int/Real and 4 + declared length per VarChar) and is at least the null bytes |
| `RecordCodec.CreateRecordStream` | src/rbfm/rbfm.cc:243-290 | the stream is exactly the first StoredSize bytes of the caller's record |
| `RecordCodec.CopyField` | src/rbfm/rbfm.cc:283-285 | copying the next field behind a copied prefix gives a longer copied prefix |
| `RecordCodec.WireEndWithinStored` | src/rbfm/rbfm.cc:249-250 | when every VarChar is within its declared length, the wire record ends no later than the stored size |
| `RecordCodec.WireRecordIsPrefixOfStored` | src/include/rbfm.h:134-137 | the stored stream contains the whole wire record as its prefix |
| `RecordCodec.ToInt32` | src/rbfm/rbfm.cc:181 | reading 4 bytes into an `int` gives the two's-complement value, congruent to the unsigned one mod 2^32 |
| `RecordCodec.NatToText` | src/rbfm/rbfm.cc:182 | an integer prints as a non-empty string of decimal digits without a leading zero |
| `RecordCodec.NatToTextValue` | src/rbfm/rbfm.cc:182 | the printed digits denote the number printed |
| `RecordCodec.IntToTextDecimal` | src/rbfm/rbfm.cc:181-182 | an `int` prints as a minus sign for a negative value, then canonical digits denoting its magnitude |
| `RecordCodec.BytesToText` | src/rbfm/rbfm.cc:177 | a VarChar prints as one character per byte |
| `RecordCodec.PrintField` | src/rbfm/rbfm.cc:173-190 | one field prints as `name: NULL` (cursor kept) or `name: ` followed by the value, the cursor moving past the value's wire size (4, or 4 + the length prefix); a VarChar prints one character per byte, an Int prints the decimal text of its two's-complement value |
| `RecordCodec.LinebreakAtLastField` | src/rbfm/rbfm.cc:191-197 | the `linebreak % numFields` test picks the newline exactly at the last field |
| `RecordCodec.PrintRecord` | src/rbfm/rbfm.cc:159-200 | returns 0 and prints every field in order, separated by `, `, ending in a newline |
| `Rbfm.MostFree` | src/include/rbfm.h:104-111 | under `operator<` the heap's top is an entry with the most free space, and no entry compares greater |
| `Rbfm.FirstFit` | src/rbfm/rbfm.cc:112-117 | the second pass stops at the lowest data page whose F is at least S, and no earlier page passes |
| `Rbfm.Choose` | src/rbfm/rbfm.cc:71-138 | insertRecord uses the last page if it passes the fit test, else the first page that does, and appends a page exactly when none passes |
| `Rbfm.AfterReads` | src/pfm/pfm.cc:85-86 | a number of readPage calls changes only the stored read counter |
| `Rbfm.AfterOneMoreRead` | src/rbfm/rbfm.cc:91 | one more readPage is one more step of the read counter; the other counters are unchanged |
| `Rbfm.WriteFreshPage` | src/rbfm/rbfm.cc:121-131 | the buffer becomes the fresh page for the record |
| `Rbfm.WriteIntoPage` | src/rbfm/rbfm.cc:96-109 | the buffer becomes the page with the record inserted, and the returned slot count is N + 1 |
| `Rbfm.LastPageChosen` | src/rbfm/rbfm.cc:64-94 | a record that fits the last page goes there after one read |
| `Rbfm.SecondPassChosen` | src/rbfm/rbfm.cc:114-117 | the first page of the second pass that fits is chosen, after k + 2 reads |
| `Rbfm.NoPageChosen` | src/rbfm/rbfm.cc:119-133 | when no page fits a page is appended, after N + 2 reads (the last includes the read past the end) |
| `Rbfm.SearchStart` | src/rbfm/rbfm.cc:114-116 | a miss on the last page starts the second pass at page 0 |
| `Rbfm.SearchAdvance` | src/rbfm/rbfm.cc:112-137 | a miss on page k of the second pass moves on to page k + 1 |
| `Rbfm.OnPageDone` | src/rbfm/rbfm.cc:96-111 | an insert into page k writes that page back after the reads and raises the write counter |
| `Rbfm.AppendedDone` | src/rbfm/rbfm.cc:121-133 | an append adds the fresh page built over the buffer and raises the append counter |
| `Rbfm.ReadForInsert` | src/rbfm/rbfm.cc:91 | the loop's readPage copies a data page (or nothing, past the end) and adds one read |
| `Rbfm.WriteForInsert` | src/rbfm/rbfm.cc:110 | the loop's writePage puts the buffer at physical page k + 1 and raises the write counter |
| `Rbfm.AppendForInsert` | src/rbfm/rbfm.cc:132 | the loop's appendPage adds the buffer as a new page and raises the append counter |
| `Rbfm.InsertOnChosenPage` | src/rbfm/rbfm.cc:94-111 | inserting into the chosen page leaves the file and counters insertRecord's results |
| `Rbfm.InsertOnNewPage` | src/rbfm/rbfm.cc:119-133 | appending a fresh page leaves the file and counters insertRecord's results |
| `Rbfm.SearchStep` | src/rbfm/rbfm.cc:89-136 | one pass of the loop body reads a page and then inserts, or keeps searching with one more read |
| `Rbfm.AfterHit` | src/rbfm/rbfm.cc:94-111 | a hit places the record with insertRecord's file, counters and RID |
| `Rbfm.AfterMiss` | src/rbfm/rbfm.cc:112-135 | a miss starts the second pass, appends after the read past the end, or moves on |
| `Rbfm.AppendAfterSearch` | src/rbfm/rbfm.cc:119-134 | after the read past the end the fresh page is built over the last data page still in the buffer |
| `Rbfm.AppendToEmpty` | src/rbfm/rbfm.cc:73-88 | on a file without data pages the fresh page is built over the uninitialised buffer and appended |
| `Rbfm.PlaceRecord` | src/rbfm/rbfm.cc:62-138 | the `while (!inserted)` loop ends with the file `InsertedFile`, the counters `InsertedCounters` and the RID `ReturnedRid` |
| `Rbfm.InsertedFileLayout` | src/rbfm/rbfm.cc:71-138 | insertRecord changes exactly one data page (the chosen one, or a new last one), and the page count stays right |
| `Rbfm.LayoutOnPage` | src/rbfm/rbfm.cc:96-110 | an insert into page k replaces only that page and keeps the file's length |
| `Rbfm.LayoutAppended` | src/rbfm/rbfm.cc:121-132 | an append adds one page and leaves all earlier data pages |
| `Rbfm.InsertedRecordStored` | src/rbfm/rbfm.cc:94-140 | when the record's entry fits too, every data page stays well formed, the RID's slot holds the record, and the page's earlier records are kept |
| `Rbfm.StoredOnPage` | src/rbfm/rbfm.cc:96-111 | an insert into a page with room for record and entry stores the record in slot N + 1, the RID's slot |
| `Rbfm.StoredOnFreshPage` | src/rbfm/rbfm.cc:121-133 | an appended page holds the record in slot 1, the RID's slot |
| `Rbfm.ReturnedSlotInRange` | src/rbfm/rbfm.cc:139 | the slot number of the returned RID is between 1 and 511: never the [N][F] pair at slot 0, always a slot entry inside the page |
| `Rbfm.WrittenPageReadBack` | src/rbfm/rbfm.cc:110 | after insertRecord, reading the page it wrote gives back the page with the record |
| `Rbfm.ReturnedRidPage` | src/rbfm/rbfm.cc:137-140 | the RID's page is one past the page written: reading it sees the next data page, the untouched buffer past the end, or at 2^20 - 1 the hidden page |
| `Rbfm.RidPageAfterWritten` | src/rbfm/rbfm.cc:137 | on an empty file the RID names the page written (0); otherwise the one after it |
| `Rbfm.PageSeenOfSuccessor` | src/pfm/pfm.cc:78-83 | reading the page after the one written sees the next data page, the buffer past the end, or the hidden page at 2^20 - 1 |
| `Rbfm.RecordBasedFileManager.constructor` | src/rbfm/rbfm.cc:15 | a new manager has no heaps |
| `Rbfm.RecordBasedFileManager.Reset` | src/include/rbfm.h:116-118 | reset empties the heap map |
| `Rbfm.RecordBasedFileManager.CreateFile` | src/rbfm/rbfm.cc:23-26 | delegates to the paged file manager: returns 0 or -1; -1 exactly when the name exists (directory unchanged), else the name maps to a new one-page file with a zeroed page count |
| `Rbfm.RecordBasedFileManager.DestroyFile` | src/rbfm/rbfm.cc:28-31 | delegates: returns 0 or -1; -1 exactly when the name does not exist; afterwards it is gone |
| `Rbfm.RecordBasedFileManager.OpenFile` | src/rbfm/rbfm.cc:33-36 | delegates: returns 0 or -1; -1 exactly when the name does not exist (handle unchanged), else attached with memory and file counters in agreement |
| `Rbfm.RecordBasedFileManager.CloseFile` | src/rbfm/rbfm.cc:38-41 | delegates: returns 0 or -1; -1 exactly when no file was attached; afterwards none is, and the three counters are kept |
| `Rbfm.RecordBasedFileManager.InsertRecord` | src/rbfm/rbfm.cc:43-144 | returns 0, leaves the file `InsertedFile` of the old file and the stored stream, the counters `InsertedCounters`, and returns `ReturnedRid` |
| `Rbfm.RecordBasedFileManager.ReadRecord` | src/rbfm/rbfm.cc:146-157 | returns 0 and copies the slot's bytes of the page readPage leaves in the buffer into the caller's buffer; when readPage accepts the page number the read counter, stored and in memory, becomes the stored one plus one, otherwise nothing changes; the write and append counters are kept |

## Left out

- File I/O is modelled as a sequence of whole pages in `OsFile.pages` and a name-to-file map. The following are not modelled: failures of `fopen`, `fread`, `fwrite` and `remove`; `fflush`; `fclose`; and partial reads at the end of a file. `access` is membership in the map.
- `memcpy` of an `unsigned` or an `int` uses the machine's byte order. The model fixes it to little-endian.
- Whether two open `FILE *`s see each other's writes is modelled by sharing one `OsFile` object. C stdio buffering is not modelled.
- `ceil(numFields / 8.0)` on doubles is replaced by the exact integer `(numFields + 7) / 8`.
- Printing a Real: the stream's float formatting is a parameter (`showReal`), since floating point is not modelled.
- The singletons `instance()`, the copy constructors, `operator=`, destructors, and `new`/`delete`/`malloc`/`free` are not modelled. Uninitialised buffers are a `garbage` parameter.
- `deleteRecord`, `updateRecord`, `readAttribute` and `scan` only return -1 (src/rbfm/rbfm.cc:202-222). `RBFM_ScanIterator`, `addPageToHeap`, `updateHeap`, `readNextRecord`, `getRecordSize` and `getTotalSlots` are declared but not defined. None of these is modelled. `fileHeapMap` is modelled only as far as `reset` and the constructor touch it.
- src/rm/rm.cc is not part of this model.
- pfm.h declares the counter setters as `writeNumberOfPages` and its siblings, while pfm.cc defines `setNumberOfPages` and its siblings. The model follows pfm.cc.
- `Rbfm.RecordBasedFileManager.InsertRecord`: its effect is stated only under these requirements:
  - a file whose stored page count matches its data pages;
  - every data page well formed, and fewer than 2^20 - 1 data pages;
  - at least one field;
  - the charged bytes present in the caller's buffer;
  - `S + 16 <= PAGE_SIZE`.

  The reasons differ by requirement:
  - A record with `PAGE_SIZE - 16 < S <= PAGE_SIZE` fits no well-formed page and goes on a fresh page without leaving the buffer. That page's free-space count wraps and the page is not well formed (`SlottedPage.OversizedFreshPage`), so the model does not follow the file past it.
  - A page that is not well formed, such as one left by the `SlottedPage.GuardGap` case, has no page invariant to reason from. The insert may or may not stay inside the buffer there.
  - With 2^20 - 1 data pages the page offset wraps (`Pfm.PageOffsetWrapsToHiddenPage`).
  - When the charged bytes are missing, the code reads past the caller's buffer.
  - Records with no fields are left out.
- `Rbfm.PlaceRecord`: has the same file and record-size requirements as InsertRecord.
- `Rbfm.RecordBasedFileManager.ReadRecord`: requires an attached file, a slot number of at most 511, and a slot entry whose bytes lie within the page and fit the caller's buffer. Otherwise the code reads or writes out of bounds.
- `RecordCodec.PrintRecord`: requires that every value lies within the caller's buffer and that the buffer is shorter than 2^31 bytes. Otherwise the code reads past the buffer.
- `RecordCodec.PrintField`: has the same bounds as PrintRecord.
- `RecordCodec.RecordSize`: the size is unbounded. It does not model the `int` and `unsigned` truncation of sizes over 2^31 bytes.
- `RecordCodec.CreateRecordStream`: requires the caller's buffer to hold the full stored size. The code copies that many bytes whatever the VarChars' actual lengths.
- `Pfm.FileHandle.ReadPage`, `Pfm.FileHandle.WritePage`, `Pfm.FileHandle.AppendPage`: require an attached file holding its hidden page. With no file attached the code passes a null `FILE *` to stdio.
- `Pfm.FileHandle.CreateHiddenPage`: is stated only for the new, empty file that createFile gives it.
- `Pfm.WritePageKeepsCount`: is stated only below 2^20 - 1 data pages. Beyond that, the offset wraps (`Pfm.PageOffsetWrapsToHiddenPage`).
- `Rbfm.InsertedRecordStored`: is stated only when the chosen page also has room for the slot entry (`F >= S + 8`). The remaining case is `SlottedPage.GuardGap`.
- `Rbfm.ReturnedRidPage`: is stated for files with data pages. The empty-file case is `Rbfm.RidPageAfterWritten` and `Rbfm.WrittenPageReadBack`.
