# A verified model of libzip

This project models the parts of libzip whose behaviour spans many functions, and proves what they promise:

- **Memory sources and write sessions** (`SourceBuffer`, `BufferSource`, `WriteSession`, `FlatFile`). A list of data
  blocks with an offset index, shared between a buffer and its clone until it is written to, behaves like a flat file with
  a cursor. A write session leaves the input alone and ends in a commit or a rollback; every block is freed exactly once.
- **The name index** (`Bits`, `HashSize`, `NameMap`, `HashTable`) is a chained hash table that grows and shrinks in place
  and refines a map. **The edits of an archive** (`ArchiveState`, `NameAgreement`, `EditRuns`, `EntryChanges`, `Archive`) keep
  the index in agreement with the entries over any run, and what counts as a change is told by names and data.
- **Text** (`Utf8`, `StringEncoding`, `Cp437`, `ZipString`): UTF-8 is recognised exactly as RFC 3629 defines it.
- **Headers and the central directory** (`LittleEndian`, `ZipBuffer`, `ExtraField`, `ExtraFieldList`, `DirentFormat`,
  `DirentHeader`, `DirentRoundTrip`, `ForeignHeaders`, `KnownBytes`, `DirentIO`, `CentralDirectory`, `CdirRoundTrip`,
  `CdirIO`): what is written is read back, and exactly when it is not; what is made of headers others wrote.
- **Closing** (`AddData`, `ClosePlan`, `SaveRoundTrip`, `Consistency`, `SavedConsistency`): keeping the unchanged front of a file is the same as copying all
  of it, and a saved archive opens with the entries that survived and their data, old or new, and passes
  its own check for consistency exactly under a stated condition.
- **Layered streams** (`SourceRead`, `WindowSource`, `CrcSource`, `CompressSource`, `ExclusiveOr`, `Pkware`, `WinzipAes`)
  are transparent whatever the sizes of the reads and however their use is interleaved.

Code that works in place is modelled by classes and methods with loops over arrays and linked nodes. Each method is proved
against a function or relation on values, and the theorems are lemmas about those. SipHash, the CRC step, the block cipher,
the authentication code, the compression algorithms and the bytes of random headers are parameters.

## Where the code does not keep its promise

- An entry whose name is empty and that is renamed stays in the index under the empty name, because the old name is removed
  only if it is stored (`lib/zip_set_name.c:121-137`). `RenameAgrees` shows by a condition on the state before the call that
  this is the only way an edit breaks the agreement of index and entries, `EmptyNameCounterexample` gives an archive,
  `UnchangeAllRestores` shows that undoing all changes repairs it.
- `zip_unchange` guesses the encoding of the original name from its converted text (`lib/zip_unchange.c:64`). It then
  refuses to undo an edit exactly if that guess is the name of another entry (`DeleteThenUnchange`, `RenameThenUnchange`),
  as in `UndoRefusedCounterexample`.
- Replacing the data of an entry of 4 GiB or more by a source well below that, to be compressed, makes `zip_close` fail. The
  copied dirent keeps its old compressed size until the new one is known, so the first header has a Zip64 field and the
  second has none (`lib/zip_dirent.c:211-234`, `lib/zip_close.c:367-396`, `lib/zip_close.c:613-617`). `Zip64Mismatch` says
  exactly when the headers disagree, `ReplacedByLess` gives an entry. Encryption that makes a known size of less than
  0xFFFFFFFF reach that limit has the same effect.
- A size or offset of exactly 0xFFFFFFFF with none larger makes an empty Zip64 field (`lib/zip_dirent.c:347`,
  `lib/zip_dirent.c:976-982`). Such a header is refused by the reader: `PlainRoundTrip`, `HeaderRoundTrip` and `SizesBack`
  state it as an if and only if, `EdgeHeaderCounterexample` gives an entry. Worse, if only the first of the two local
  headers has the empty field, the second one is 16 bytes longer and silently overwrites the start of the data; if only the
  second has, 16 bytes of the first are left before the data. `HeaderKeepsOffData` is the exact condition,
  `EdgeSpoilsData` says what is in the file then, and `StoredAndEncryptedOnTheEdge` is a case of it.
- The header is not written again if the default method, -1, turns out to be deflate (`lib/zip_close.c:583`). The field for
  AES holds the method as it is (`lib/zip_dirent.c:1027`), so that the local header keeps 0xFFFF if checksum and sizes do not
  change either, while the central one gets 8. `EntryIsComplete` is the exact condition, `DefaultMethodStays` an entry.
- A data descriptor is written with the width its entry needs (`lib/zip_close.c:281`, `lib/zip_close.c:627`) and read with
  that of the archive (`lib/zip_open.c:559-568`, `lib/zip_open.c:579`): `DescriptorWidths`, `DescriptorCounterexample`.
- The end of the last entry is found by the width its sizes need (`lib/zip_file_get_offset.c:104-106`), though a descriptor
  may have been made wide only because the size was not known beforehand. Keeping all entries then cuts off its last eight
  bytes: `EndIsWhole` is the exact condition, `OverlookedCounterexample` an entry.
- For both reasons, and for sizes of 0xFFFFFFFF, a saved archive may fail its own check for consistency:
  `SavedIsConsistent` says exactly when.
- Undoing an addition leaves an entry without a dirent (`UndoneAdditionStays`), and no later `zip_close` that has something
  to write succeeds (`NothingToCopy`).
- An empty directory behind other data is not found again unless it has Zip64 records (`lib/zip_open.c:333-341`):
  `ArchiveRoundTrip`, `EmptyDirectoryIsLost`, `EmptyDirectoryCounterexample`.
- The comment at `lib/zip_hash.c:46` gives 256 as the smallest table, but reserving capacity can make smaller ones; the
  invariant proved is 0 or a power of two up to 2^31. For one or two entries the rounded size exceeds three quarters:
  `SizeForCapacity`.
- A name that was announced as code page 437 may be shown differently after saving, because its encoding is not stored:
  `TextSurvives` and `TextCounterexample`.

## Model

| member | source | states |
|---|---|---|
| `SourceSeek.ComputeOffsetIsExact` | lib/zip_source_seek.c:63-119 | a seek is accepted exactly if the unbounded sum of base and delta lies in the source and fits a signed offset, and then ends there |
| `SourceBuffer.NewBuffer` | lib/zip_source_buffer.c:469-530 | refused exactly if data is missing or the lengths overflow; else the buffer denotes the given bytes in order, without the empty fragments |
| `SourceBuffer.Buffer.FindFragment` | lib/zip_source_buffer.c:396-420 | binary search finds the fragment whose offsets enclose the position, also at boundaries and at the end of the capacity |
| `SourceBuffer.Buffer.Read` | lib/zip_source_buffer.c:536-569 | a read across fragments delivers what a flat file would at the cursor, touches nothing else of the target, and moves the cursor by as much |
| `SourceBuffer.Buffer.MakeFragmentWritable` | lib/zip_source_buffer.c:674-692 | a shared block is replaced by a private copy: the contents stay, exactly the new block becomes owned |
| `SourceBuffer.Buffer.Grow` | lib/zip_source_buffer.c:593-625 | fragments are appended until the data fits; what was there stays a prefix |
| `SourceBuffer.Buffer.CopyFrom` | lib/zip_source_buffer.c:627-649 | copying fragment by fragment is one overwrite of the flat contents |
| `SourceBuffer.Buffer.Write` | lib/zip_source_buffer.c:585-658 | a write is one overwrite of the flat file at its cursor, or refused exactly if the size could overflow; only new blocks are owned more |
| `SourceBuffer.Buffer.Seek` | lib/zip_source_buffer.c:572-582 | a seek moves the cursor of the flat file and nothing else; the cached fragment stays valid |
| `SourceBuffer.Buffer.Clone` | lib/zip_source_buffer.c:335-393 | a clone denotes the prefix of the original and owns no block; when it is refused is stated exactly |
| `SourceBuffer.Buffer.FreeBlocks` | lib/zip_source_buffer.c:423-443 | exactly the blocks that are owned and not shared are freed, each once |
| `SourceBuffer.JoinsOverwrite` | lib/zip_source_buffer.c:639 | bytes changed in one fragment are the bytes changed at the same place of the whole |
| `SourceBuffer.Unshare` | lib/zip_source_buffer.c:674-692 | unsharing one fragment keeps every block either shared at the same place or owned by one fragment of one buffer |
| `SourceBuffer.CloneInherits` | lib/zip_source_buffer.c:335-393 | if the original of a clone goes first, the clone comes to own just the blocks that were still shared |
| `SourceBuffer.ReleasesAreExclusive` | lib/zip_source_buffer.c:423-443 | a buffer that is written to frees just the blocks no one else refers to |
| `BufferSource.Create` | lib/zip_source_buffer.c:150-191 | a source made of fragments denotes their bytes; with freep it takes over all their blocks, and none if it fails |
| `BufferSource.ReadData.BeginWrite` | lib/zip_source_buffer.c:205-211 | an empty output begins; input and ownership stay |
| `BufferSource.ReadData.BeginWriteCloning` | lib/zip_source_buffer.c:213-219 | the output begins as the prefix of the input with the cursor at its end; refusal is stated exactly and changes nothing |
| `BufferSource.ReadData.CommitWrite` | lib/zip_source_buffer.c:224-228 | the output becomes the input, and every block of the old one that is not shared is released |
| `BufferSource.ReadData.RollbackWrite` | lib/zip_source_buffer.c:271-274 | the input is as it was, and every block of the output that is not shared is released |
| `BufferSource.ReadData.Remove` | lib/zip_source_buffer.c:260-269 | the input becomes empty and its blocks are released |
| `BufferSource.ReadData.FreeAll` | lib/zip_source_buffer.c:708-719 | all owned blocks are released, each once, in any state of the session |
| `BufferSource.ReadData.ExecuteReading` | lib/zip_source_buffer.c:198-332 | the reading commands reply as the flat model says |
| `BufferSource.ReadData.ExecuteWriting` | lib/zip_source_buffer.c:314-326 | the writing commands change the output as the flat model says, which tells exactly which writes are refused, and leave the input alone |
| `BufferSource.ReadData.Execute` | lib/zip_source_buffer.c:198-332 | each command is a step of the flat model; the blocks that are live but not owned stay the same |
| `BufferSource.ReadData.ExecuteAll` | lib/zip_source_buffer.c:198-332 | any sequence of commands, of any length, is a run of the flat model, leaks nothing and frees nothing twice |
| `WriteSession.SessionIsolation` | lib/zip_source_buffer.c:205-326 | over any interleaving of reading and writing in a session the input keeps its bytes and the output is what the writes and seeks make of it |
| `WriteSession.ReadsSeeTheSnapshot` | lib/zip_source_buffer.c:276-311 | over a session, the replies to the reading commands and the input with its cursor afterwards are those of the reading commands alone: of writing nothing is seen |
| `WriteSession.SessionIsAtomic` | lib/zip_source_buffer.c:205-274 | a commit makes the source the edited prefix, a rollback leaves the original bytes |
| `WriteSession.StepStaysWithin` | lib/zip_source_buffer.c:585-591 | no command makes a source outgrow the limit of 2^64 - 65536 bytes |
| `FlatFile.OverwriteInParts` | lib/zip_source_buffer.c:627-649 | writing a first part and then the rest is writing the whole |
| `Bits.SmearDoubles` | lib/zip_hash.c:115-142 | one shift-and-or doubles the distance over which set bits are spread |
| `Bits.SmearedValue` | lib/zip_hash.c:115-142 | a number with all bits below its highest set is one less than a power of two, less than twice the number |
| `HashSize.RoundUp` | lib/zip_hash.c:115-142 | the bit twiddling yields a power of two that is at least the needed size and less than twice it, capped at 2^31 |
| `HashSize.SizeForCapacity` | lib/zip_hash.c:115-142 | the least power of two that keeps to three quarters, which it does exactly from 3 entries on, or the cap |
| `HashSize.RoundingIsHarmless` | lib/zip_hash.c:115-142 | rounding the quotient down does not matter for tables of 4 and more |
| `HashTable.Hash.Find` | lib/zip_hash.c:206-216 | finds the entry of a name in its bucket, and its predecessor, or shows that the name is not in the table |
| `HashTable.Hash.Lookup` | lib/zip_hash.c:294-326 | looks up either index as in a map from names to pairs of indices |
| `HashTable.Hash.Add` | lib/zip_hash.c:187-242 | adds as the map does, refuses exactly if the name is in use or the index too large; the table stays well formed through any growth |
| `HashTable.Hash.Delete` | lib/zip_hash.c:246-290 | deletes as the map does, keeping names that have an original index; the table stays well formed through any shrinkage |
| `HashTable.Hash.ReserveCapacity` | lib/zip_hash.c:329-347 | only the size of the table changes, and it never shrinks |
| `HashTable.Hash.Revert` | lib/zip_hash.c:350-391 | all names that have no original index go, the others get it back, in one pass over linked buckets |
| `HashTable.Hash.Resize` | lib/zip_hash.c:77-112 | moving all nodes to another table keeps the map |
| `HashTable.Hash.InsertAndGrow` | lib/zip_hash.c:218-234 | a new node is added and the table is doubled so that it is at most three quarters full |
| `HashTable.Hash.Shrink` | lib/zip_hash.c:380-388 | halving while nearly empty keeps the map and the fill limit |
| `HashTable.Hash.LinkOut` | lib/zip_hash.c:264-269 | a node is taken out of the middle or the head of its list, and no other list is affected |
| `HashTable.MoveBucket` | lib/zip_hash.c:92-105 | all nodes of a bucket end up at the heads of their new buckets, each once |
| `HashTable.BucketedRemove` | lib/zip_hash.c:264-269 | taking out a node leaves every other in the bucket its hash value says |
| `NameMap.RevertDone` | lib/zip_hash.c:350-391 | dropping and resetting entries in any order gives the reverted map once all are done |
| `NameMap.DeleteKeepsProper` | lib/zip_hash.c:246-290 | no name is kept that is used in neither view |
| `NameMap.AddKeepsProper` | lib/zip_hash.c:187-242 | a name that is added is used in a view |
| `Utf8.DecodeOfEncode` | lib/zip_utf-8.c:238-259 | every sequence of characters has a well-formed encoding by section 4 of RFC 3629, which is read back |
| `Utf8.EncodeOfDecode` | lib/zip_utf-8.c:99-166 | a well-formed string is the only encoding of its characters |
| `StringEncoding.RangeTestIsGrammar` | lib/zip_utf-8.c:130-164 | the bit masks and the test of the code point accept just the characters of the grammar of RFC 3629 |
| `StringEncoding.ReadCharacter` | lib/zip_utf-8.c:130-165 | finds the length of the character at a position, or that there is none |
| `StringEncoding.Scan` | lib/zip_utf-8.c:121-168 | the scan accepts exactly well-formed UTF-8, and tells 7-bit and plain text exactly |
| `StringEncoding.GuessEncoding` | lib/zip_utf-8.c:103-221 | an encoding that is stored is kept; else the guess is the expected encoding if the bytes allow it, the error, or the best fit |
| `StringEncoding.OneByteGuessed` | lib/zip_utf-8.c:98-150 | which single bytes count as ASCII |
| `StringEncoding.ExpectedEncodings` | lib/zip_utf-8.c:167-217 | an expected encoding is confirmed exactly if the bytes allow it; a guess is UTF-8 exactly for well-formed text that is not all ASCII |
| `Cp437.Cp437ToUtf8` | lib/zip_utf-8.c:262-294 | the buffer has exactly the computed length and holds the encoding of the characters of the table and a zero byte |
| `Cp437.UnicodeToUtf8` | lib/zip_utf-8.c:238-259 | writes the encoding of one character in place and nothing else |
| `Cp437.ConvertedIsWellFormed` | lib/zip_utf-8.c:262-294 | converted text is well-formed UTF-8 and decodes to the characters of the table |
| `Cp437.PrintableUnchanged` | lib/zip_utf-8.c:39-87 | printable ASCII text is converted to itself |
| `Archive.Archive.NameLocate` | lib/zip_name_locate.c:48-116 | finds the entry that the index has under the text a name stands for in its announced encoding |
| `Archive.Archive.SetName` | lib/zip_set_name.c:41-165 | entries and index change together as the model of the archive says; on failure the index stays |
| `Archive.Archive.PutName` | lib/zip_set_name.c:89-164 | as the model, for a name that no entry was found to have |
| `Archive.Archive.FileRename` | lib/zip_file_rename.c:40-68 | renames as the model; a file does not become a directory or the reverse |
| `Archive.Archive.Delete` | lib/zip_delete.c:38-68 | deletes as the model: the current name is given up, changes are dropped |
| `Archive.Archive.UnchangeEntry` | lib/zip_unchange.c:45-96 | undoes as the model, refusing if the original name is taken |
| `Archive.Archive.UnchangeAll` | lib/zip_unchange_all.c:38-54 | reverts the index once and every entry in turn |
| `Archive.Archive.ReplaceData` | lib/zip_file_replace.c:87-99 | new data drops the extra fields and the deletion mark, and keeps the name |
| `Archive.Archive.FileReplace` | lib/zip_file_replace.c:38-49 | refuses entries that do not exist |
| `Archive.Archive.FileAdd` | lib/zip_file_replace.c:54-100 | adds or overwrites as the model, and takes a new entry back if it cannot be named |
| `Archive.Archive.HasChanged` | lib/zip_close.c:739-764 | changed exactly if an entry has a change, the archive comment was changed or the torrentzip form is wanted; the survivors are the entries not deleted; see EntryChanges.ChangedExactly |
| `Archive.Archive.IndexNames` | lib/zip_open.c:234-254 | the index covers the first entry of each name; checking fails exactly if a name is repeated |
| `Archive.Open` | lib/zip_open.c:232-254 | an archive opens as the model says, with checking exactly if its names are distinct |
| `NameAgreement.NamesAreUnique` | lib/zip_set_name.c:76-86 | no two entries have the same current, or the same original, name |
| `NameAgreement.AgreementDeterminesIndex` | lib/zip_hash.c:46-63 | the entries determine the index |
| `NameAgreement.OneEntryChanged` | lib/zip_set_name.c:131-162 | agreement is kept if the index follows the change of one entry's name |
| `NameAgreement.StaleNameRemains` | lib/zip_set_name.c:121-137 | renaming an entry whose name is empty leaves the empty name in the index, which then finds a wrong entry |
| `NameAgreement.StaleIsRenamed` | lib/zip_set_name.c:121-137 | this condition on the state before the call holds exactly for the renamings from the empty name that succeed and change something |
| `NameAgreement.RenameAgrees` | lib/zip_file_rename.c:40-68 | a renaming keeps the agreement if and only if not: the entry has the empty name, and the new one is acceptable and free |
| `NameAgreement.DeleteAgrees` | lib/zip_delete.c:38-68 | a deletion keeps the agreement of index and entries |
| `NameAgreement.UnchangeAgrees` | lib/zip_unchange.c:45-96 | undoing one entry keeps the agreement |
| `NameAgreement.UnchangeFindsName` | lib/zip_unchange.c:82-87 | undoing never fails half-way: a failure leaves everything as it was |
| `NameAgreement.AddAgrees` | lib/zip_file_replace.c:54-100 | adding and overwriting keep the agreement, and change no name on failure |
| `NameAgreement.AddNewAgrees` | lib/zip_file_replace.c:70-85 | a new entry that cannot be named is taken back altogether; one that can gets its data |
| `NameAgreement.ReplaceDataAgrees` | lib/zip_file_replace.c:87-99 | replacing data keeps the agreement |
| `EditRuns.EditAgrees` | lib/zip_file_replace.c:54-100 | any one edit keeps the agreement if and only if it is not a renaming from the empty name |
| `EditRuns.RunAgrees` | lib/zip_name_locate.c:111-115 | after any run of edits without such a renaming, a name is found exactly at the live entry that has it |
| `EditRuns.EditsAfterOpen` | lib/zip_open.c:234-254 | the same from a freshly opened archive without repeated names |
| `EditRuns.RunKeepsOriginals` | lib/zip_hash.c:246-290 | no run of edits changes what is found under an original name, nor the originals |
| `EditRuns.UnchangeAllRestores` | lib/zip_unchange_all.c:38-54 | after any run, undoing everything gives an unchanged archive in agreement whose two views are the same |
| `EditRuns.OpenedFindsFirst` | lib/zip_open.c:236-254 | an opened archive finds the first entry of each name in both views |
| `EditRuns.OpenAgrees` | lib/zip_open.c:236-254 | a freshly opened archive is in agreement if and only if its names are distinct |
| `EditRuns.NextName` | lib/zip_open.c:245-253 | adding the next name fails exactly if it is a repeated one |
| `EditRuns.EmptyNameCounterexample` | lib/zip_set_name.c:121-137 | an archive of one entry without a name, renamed: the entry is found under the old name |
| `EditRuns.DeleteThenUnchange` | lib/zip_unchange.c:55-81 | undoing a deletion restores the archive exactly, unless the original name guessed anew is another entry's |
| `EditRuns.RenameThenUnchange` | lib/zip_unchange.c:55-93 | undoing a renaming restores the archive exactly under the same condition, and never if the original name is empty |
| `EditRuns.UndoRefusedCounterexample` | lib/zip_unchange.c:55-81 | an archive of two entries with distinct names, of which the first can be deleted or renamed but neither be undone |
| `EditRuns.UndoneAdditionStays` | lib/zip_unchange.c:55-93 | undoing an addition restores the index and leaves an entry without a dirent |
| `EntryChanges.ChangedExactly` | lib/zipint.h:517-519 | after any run of edits the archive counts as changed if and only if some entry is deleted, has new data, or has another name than in the archive |
| `EntryChanges.UnchangedMeans` | lib/zipint.h:517-519 | an entry without changes has its original name, no new data, and is not deleted |
| `EntryChanges.RenameGivesName` | lib/zip_set_name.c:89-164 | a successful renaming gives the entry the name, changes nothing else, and is a change if the name is not the original one |
| `EntryChanges.DeleteMarks` | lib/zip_delete.c:38-68 | a deleted entry, new or not, is marked so, has no name or data, and is not found |
| `EntryChanges.ReplaceGivesData` | lib/zip_file_replace.c:87-99 | new data is there and counts as a change; name and index stay |
| `EntryChanges.AddGivesEntry` | lib/zip_file_replace.c:54-100 | adding gives the last entry, or the one that had the name, this name and the data |
| `EntryChanges.UnchangeGivesOriginal` | lib/zip_unchange.c:45-96 | undoing gives back the original name, without changes |
| `EntryChanges.RenameKeepsKind` | lib/zip_file_rename.c:57-67 | a renaming only succeeds between directories or between files |
| `EntryChanges.Refusals` | lib/zip_set_name.c:76-82 | the name of another entry is refused, and so is any edit of an entry without a dirent |
| `EntryChanges.GuessedNameStored` | lib/zip_set_name.c:60-76 | a name whose encoding is guessed is stored as it is, and as known UTF-8 if and only if it is well formed and not 7-bit |
| `EntryChanges.AnnouncedNameStored` | lib/zip_string.c:140-190 | a name announced as UTF-8 is refused if and only if it is not well formed |
| `EntryChanges.RenameBack` | lib/zip_set_name.c:128-150 | renaming an unmodified entry and then back to the string it had gives the archive as it was, so that nothing is changed |
| `ZipBuffer.Buffer.Peek` | lib/zip_buffer.c:202-212 | a request fits exactly if it ends inside the buffer, in spite of arithmetic modulo 2^64; a failure is final |
| `ZipBuffer.Buffer.Get` | lib/zip_buffer.c:62-72 | delivers the bytes at the cursor and moves behind them, or fails |
| `ZipBuffer.Buffer.Get16` | lib/zip_buffer.c:75-83 | two bytes, little-endian, 0 on failure |
| `ZipBuffer.Buffer.Get32` | lib/zip_buffer.c:86-94 | four bytes, little-endian, 0 on failure |
| `ZipBuffer.Buffer.Get64` | lib/zip_buffer.c:97-105 | eight bytes, little-endian, 0 on failure |
| `ZipBuffer.Buffer.Put` | lib/zip_buffer.c:214-223 | replaces the bytes at the cursor and no others, or fails |
| `ZipBuffer.Buffer.SetOffset` | lib/zip_buffer.c:289-299 | moves anywhere inside and makes the buffer usable again, or fails |
| `ZipBuffer.Buffer.Skip` | lib/zip_buffer.c:302-310 | moves ahead exactly if it stays inside |
| `ExtraField.ParseOfWrite` | lib/zip_extra_field.c:179-246 | extra fields that were written are read back, also with up to three zero bytes behind them |
| `ExtraField.AcceptedIsWritten` | lib/zip_extra_field.c:179-246 | a block is accepted as certain fields exactly if it is those fields written and less than four zero bytes |
| `ExtraField.SizeIsLength` | lib/zip_extra_field.c:286-298 | the computed size is that of the written bytes |
| `ExtraField.FindSelects` | lib/zip_extra_field.c:114-132 | finds the field of an id that has the given number of such fields before it |
| `ExtraField.SelectWithoutInternal` | lib/zip_extra_field.c:249-276 | just the fields libzip writes itself are removed, the others stay in order |
| `ExtraField.SelectWithoutId` | lib/zip_extra_field.c:67-100 | all fields of the id, or the one asked for if there is one, and no other are deleted |
| `ExtraField.SelectSetField` | lib/zip_extra_field.c:472-532 | the field asked for is replaced or a new one appended, no other is affected, and all fit a header |
| `ExtraFieldList.FindNode` | lib/zip_extra_field.c:114-132 | the linked list is searched as the sequence is, and the predecessor found with it |
| `ExtraFieldList.DeleteById` | lib/zip_extra_field.c:67-100 | unlinking nodes deletes from the sequence of fields |
| `ExtraFieldList.RemoveInternal` | lib/zip_extra_field.c:249-276 | unlinking nodes removes libzip's own fields from the sequence |
| `ExtraFieldList.Set` | lib/zip_extra_field.c:472-532 | relinking nodes sets a field of the sequence, or changes nothing where that fails |
| `ExtraFieldList.SizeOf` | lib/zip_extra_field.c:286-298 | the size of the list, or -1 exactly if it is too large for a header |
| `ExtraFieldList.Clone` | lib/zip_extra_field.c:40-64 | a new list of new nodes with the same fields |
| `ExtraFieldList.ParseList` | lib/zip_extra_field.c:179-246 | the list made of a block is what the block means, and exactly unacceptable blocks are refused |
| `ExtraFieldList.WriteList` | lib/zip_extra_field.c:301-332 | what is written is the encoding of the fields in order |
| `DirentFormat.DecodeOfEncoded` | lib/zip_dirent.c:408-445 | the fixed fields stand at the offsets of sections 4.3.7 and 4.3.12 of APPNOTE.TXT and are read back |
| `DirentFormat.BitsOf` | lib/zip_dirent.c:922-949 | the flags for encryption and UTF-8 are set as needed and the others kept |
| `DirentRoundTrip.HeaderRoundTrip` | lib/zip_dirent.c:377-668 | a written header, with its data and the descriptor its writer gives it, is read as the entry if it is readable and has no descriptor; with one, in an archive with or without Zip64 end records, as the sizes seen there, if they agree with those of the header |
| `DirentRoundTrip.DescriptorWidths` | lib/zip_dirent.c:627-652 | with a descriptor exactly if its width is that of the archive or empty data happens to look the same; else it is refused, unless there is no data |
| `DirentRoundTrip.DescriptorCounterexample` | lib/zip_dirent.c:627-652 | five encrypted bytes whose local header is refused, in either case of a wrong width |
| `DirentRoundTrip.PlainRoundTrip` | lib/zip_dirent.c:377-625 | the header alone is read back wherever it stands; the size returned, the bytes written and the size from the length fields are the same |
| `DirentRoundTrip.EdgeHeaderCounterexample` | lib/zip_dirent.c:975-993 | an entry of 0xFFFFFFFF bytes gets a local and a central header, and neither can be read |
| `DirentRoundTrip.HeaderSizeBack` | lib/zip_dirent.c:858-892 | the size from the length fields is the number of bytes written, for any header |
| `DirentRoundTrip.SizesBack` | lib/zip_dirent.c:670-732 | large sizes and offset are read back from the Zip64 field exactly unless one is 0xFFFFFFFF and none larger |
| `DirentRoundTrip.ProtectionBack` | lib/zip_dirent.c:777-855 | encryption and compression method are read back, from the AES extra field where it hides them |
| `DirentRoundTrip.ProcessUtf8Back` | lib/zip_dirent.c:735-774 | a name stored in an extra field is read back as UTF-8 |
| `DirentRoundTrip.OwnSelect` | lib/zip_dirent.c:913-1045 | each of libzip's own fields is found in a header exactly if it is needed, with its data, whatever the user's fields |
| `DirentRoundTrip.TextSurvives` | lib/zip_dirent.c:919-942 | a name is shown as before after saving and reopening, except one announced as code page 437 whose bytes are guessed to be something else that reads differently |
| `DirentRoundTrip.TextCounterexample` | lib/zip_dirent.c:919-942 | a name of two characters of code page 437 that is shown as one other character afterwards |
| `DirentRoundTrip.FlagMeans` | lib/zip_dirent.c:919-949 | a header is flagged as UTF-8 if and only if one string is known to be and the other is as well or is ASCII; else each has its extra field |
| `DirentRoundTrip.DescriptorRoundTrip` | lib/zip_close.c:766-797 | what a descriptor of either width is taken for when it is read with either width, if enough data follows |
| `DirentIO.ReadFixed` | lib/zip_dirent.c:408-445 | reading field after field gives the values at the offsets of the tables |
| `DirentIO.ReadZip64` | lib/zip_dirent.c:670-732 | reading through the cursor gives the values in their order, and ends exactly where it has to or matches |
| `DirentIO.ReadCentral` | lib/zip_dirent.c:377-668 | reading through the buffer accepts just what the format says, and moves behind the header |
| `DirentIO.MakeFields` | lib/zip_dirent.c:913-1045 | the extra fields to be added, refused exactly if a name is too long for its field |
| `DirentIO.WriteDirent` | lib/zip_dirent.c:905-1184 | what is written is the encoded header behind what was there, and the result tells about Zip64 |
| `ForeignHeaders.ReadBlock` | lib/zip_dirent.c:445-487 | the parts of any header are found by its lengths |
| `ForeignHeaders.ForeignAccepted` | lib/zip_dirent.c:377-668 | any header is accepted if and only if its strings, sizes and encryption make sense and its offset can be sought; the entry then has all it says |
| `ForeignHeaders.NameOfForeign` | lib/zip_dirent.c:735-774 | the name is the text of the first Unicode name field if that has the checksum of the name in the header and is well formed, else the name in the header; what checking adds |
| `ForeignHeaders.NameWithoutField` | lib/zip_dirent.c:735-742 | without a usable field the name is the one in the header |
| `ForeignHeaders.StaleNameIsIgnored` | lib/zip_dirent.c:753 | a field left over from another name is ignored |
| `ForeignHeaders.CentralSizes` | lib/zip_dirent.c:670-703 | the values of any marked fields are taken from the Zip64 field in their order |
| `ForeignHeaders.LocalSizes` | lib/zip_dirent.c:679-695 | in a local header the field has both sizes |
| `ForeignHeaders.AllSizes` | lib/zip_dirent.c:705-728 | a field with all values is accepted if and only if those not asked for are repeated |
| `ForeignHeaders.SizesWithoutField` | lib/zip_dirent.c:590-608 | without marks the field is ignored; without a field marks are refused exactly in archives with Zip64 end records |
| `ForeignHeaders.AesOfForeign` | lib/zip_dirent.c:777-855 | which fields for AES are accepted, and what they say |
| `ForeignHeaders.ProtectionWithoutField` | lib/zip_dirent.c:777-792 | the method for AES without its field is refused; otherwise the flags tell the encryption |
| `ForeignHeaders.UnsignedDescriptor` | lib/zip_dirent.c:627-636 | a descriptor without a signature is read as well |
| `ForeignHeaders.DescriptorDecides` | lib/zip_dirent.c:644-651 | numbers in the header have to be zero or those of the descriptor, which are taken over |
| `KnownBytes.LocalHeaderOfFile` | lib/zip_dirent.c:1048-1113 | the bytes of a local header, worked out by hand from section 4.3.7 of APPNOTE.TXT |
| `KnownBytes.CentralHeaderOfFile` | lib/zip_dirent.c:1048-1135 | the bytes of a central header (section 4.3.12) |
| `KnownBytes.Zip64Fields` | lib/zip_dirent.c:966-1011 | the bytes of Zip64 fields (section 4.5.3) |
| `KnownBytes.AesFieldOfFile` | lib/zip_dirent.c:1013-1045 | the bytes of fields for AES, with the version that depends on the size |
| `KnownBytes.TextFields` | lib/zip_dirent.c:1207-1242 | the bytes of fields for text in UTF-8 |
| `KnownBytes.Descriptors` | lib/zip_close.c:766-797 | the bytes of data descriptors (section 4.3.9) |
| `KnownBytes.EndRecord` | lib/zip_dirent.c:165-177 | the bytes of an end record (section 4.3.16) |
| `KnownBytes.Zip64Record` | lib/zip_dirent.c:147-158 | the bytes of a Zip64 end record (section 4.3.14) |
| `KnownBytes.Zip64Locator` | lib/zip_dirent.c:159-163 | the bytes of its locator (section 4.3.15) |
| `KnownBytes.MarkedEndRecord` | lib/zip_dirent.c:165-177 | the bytes of an end record with marked fields |
| `KnownBytes.EndRecordsAreWide` | lib/zip_dirent.c:131-147 | Zip64 records are written if and only if a number does not fit the end record |
| `CdirRoundTrip.EocdBack` | lib/zip_open.c:777-804 | the end record is read back |
| `CdirRoundTrip.Eocd64Back` | lib/zip_open.c:826-963 | the Zip64 record is found through its locator, agrees with the end record and replaces its values |
| `CdirRoundTrip.LocateBack` | lib/zip_open.c:298-358 | an archive is located by its own end record exactly if it has entries, or Zip64 records, or is at the start of the file |
| `CdirRoundTrip.CommentBack` | lib/zip_open.c:360-383 | the comment is read back |
| `CdirRoundTrip.EntriesBack` | lib/zip_open.c:423-466 | all entries are read back, whatever follows the directory |
| `CdirRoundTrip.CdirBack` | lib/zip_open.c:288-496 | reading at the end record gives count, size, offset, comment and entries, exactly if the archive is locatable |
| `CdirRoundTrip.ArchiveRoundTrip` | lib/zip_open.c:685-741 | searching a written file backward opens it with the entries it was written for, also with consistency checks of the end records, exactly if it is locatable; else the search goes on before its end record |
| `CdirRoundTrip.EmptyDirectoryIsLost` | lib/zip_open.c:333-341 | an empty directory, with no other end record in the part that is searched, is opened exactly if it is at the start of the file or has Zip64 records |
| `CdirRoundTrip.EmptyDirectoryCounterexample` | lib/zip_open.c:333-341 | a file of one byte and an empty directory, which cannot be opened |
| `CdirRoundTrip.SearchFindsLast` | lib/zip_open.c:723-733 | the directory that is opened is that of the last end record not passed over |
| `CdirRoundTrip.EntriesTile` | lib/zip_open.c:423-466 | accepted headers follow each other without gaps to the end of the directory; their number is the announced one, modulo 0x10000 without Zip64 |
| `CdirRoundTrip.CommentOfAny` | lib/zip_open.c:360-383 | the comment of any directory that is accepted; with checking nothing follows it |
| `CdirRoundTrip.BytesBehindComment` | lib/zip_open.c:360-383 | bytes behind the comment are refused with checking and ignored without |
| `CdirRoundTrip.LocatedMeans` | lib/zip_open.c:298-358 | what any directory that is located looks like: one disk, its counts, where it lies, and where each number comes from |
| `CdirRoundTrip.OtherDisks` | lib/zip_open.c:319-332 | a directory on another disk: when the search goes on, and when the archive is refused |
| `CdirIO.FindEocd` | lib/zip_open.c:744-774 | finds the last position before the given one where the magic number stands |
| `CdirIO.FindCentralDirectory` | lib/zip_open.c:685-741 | the search through the buffer is the search through the file |
| `CdirIO.SearchBuffer` | lib/zip_open.c:723-733 | every place with the magic number is tried once, the last first, until one is accepted |
| `CdirIO.ReadAll` | lib/zip_open.c:423-466 | the loop over the headers, with its counters modulo 2^64 and growing count, gives the entries or fails |
| `CdirIO.PutEndRecords` | lib/zip_dirent.c:146-177 | the end records are put in their order |
| `CdirIO.WriteCdir` | lib/zip_dirent.c:104-208 | what is written is all headers, the end records with Zip64 where needed, and the comment |
| `CdirIO.WrittenIsArchive` | lib/zip_dirent.c:104-208 | what is written meets the conditions for being opened again |
| `AddData.DeflateBoundIsSafe` | lib/zip_algorithm_deflate.c:50-59 | the bound is exact below 2^32 and decides about Zip64 as the exact one would, in spite of arithmetic modulo 2^64 |
| `AddData.HeaderLengths` | lib/zip_close.c:604-618 | two local headers for an entry that agree about Zip64 differ in length by 16 bytes for each empty Zip64 field, and not otherwise |
| `AddData.HeaderKeepsOffData` | lib/zip_close.c:542-630 | wherever it is added, the entry is the header that was written last, the untouched data and the descriptor if and only if not exactly one of its two headers has an empty Zip64 field |
| `AddData.EntryIsComplete` | lib/zip_close.c:583-630 | it is what the final dirent says, exactly but for this and for AES entries of the default method whose data changes neither checksum nor sizes |
| `AddData.DefaultMethodStays` | lib/zip_close.c:583 | an AES entry whose data is replaced by the same data keeps the default method, 0xFFFF, in the AES field of its local header |
| `AddData.SecondHeader` | lib/zip_close.c:604-624 | the header that is written last takes the place of the first, and of the data behind it as far as it is longer |
| `AddData.EdgeSpoilsData` | lib/zip_close.c:604-624 | in the other case exactly the first 16 bytes of the data are overwritten, or 16 bytes of the first header are left before the data |
| `AddData.StoredAndEncryptedOnTheEdge` | lib/zip_close.c:604-624 | data of 0xFFFFFFFF bytes that is stored with PKWARE encryption loses its first 16 bytes |
| `AddData.Zip64Mismatch` | lib/zip_close.c:329-401 | for any entry, new or replaced, encrypted or not, the headers disagree about Zip64 exactly if encryption makes a known size cross the limit or, with an unknown size, the old size and the new one are on different sides of it and no Zip64 field is forced |
| `AddData.NewEntryMismatch` | lib/zip_close.c:364-396 | for a new entry that is not encrypted and a codec that keeps within its bound, exactly if the data and the bound are both of 0xFFFFFFFF bytes |
| `AddData.FirstHeaderTells` | lib/zip_close.c:334-401 | what the first header has of the source and of the entry, and when it announces a descriptor |
| `AddData.TruthIsWrittenOnce` | lib/zip_close.c:583-602 | if the source tells the truth beforehand the header is not written again |
| `AddData.ReplacedByLess` | lib/zip_close.c:613-617 | replacing the data of an entry of 5 GiB by five bytes that are to be compressed fails |
| `AddData.AddToFile` | lib/zip_close.c:542-630 | header, data, the header again where it changed as it is stored, and the descriptor; fails exactly if the headers cannot be written or disagree |
| `ClosePlan.KeptIsWhole` | lib/zip_close.c:132-162 | an entry that starts in the part that is kept is unchanged and ends in it |
| `ClosePlan.EndOfWritten` | lib/zip_file_get_offset.c:76-116 | the end of an entry is that of all that was written for it, less eight bytes if a wide descriptor was only forced |
| `ClosePlan.EndIsWhole` | lib/zip_file_get_offset.c:76-116 | so it is exact if and only if a descriptor is as wide as the sizes need it |
| `ClosePlan.EndOfUnsigned` | lib/zip_file_get_offset.c:92-109 | the end of an entry with a descriptor without signature |
| `ClosePlan.OverlookedCounterexample` | lib/zip_file_get_offset.c:104-106 | 17 bytes with a forced wide descriptor, whose end is found eight bytes too early |
| `ClosePlan.KeptIsComplete` | lib/zip_close.c:132-162 | an entry that is kept is kept with all that was written for it, but for those eight bytes |
| `ClosePlan.KeptIsMost` | lib/zip_close.c:132-162 | all before the first changed entry is kept, or all entries to the last end if none changed |
| `ClosePlan.SurvivorsInOrder` | lib/zip_close.c:104-121 | the survivors are exactly the entries that are not deleted, in their order |
| `ClosePlan.CopiedFlags` | lib/zip_close.c:257-261 | a copied entry keeps the announcement of a descriptor if and only if it is encrypted the PKWARE way |
| `ClosePlan.WrittenAtEnd` | lib/zip_close.c:231-286 | whether and as what an entry is written does not depend on what is before it |
| `ClosePlan.WrittenParts` | lib/zip_close.c:231-286 | what is written for an entry is its header, its data and its descriptor |
| `ClosePlan.DataWritten` | lib/zip_close.c:231-286 | behind the header that is found at the start of what is written for an entry lies its data |
| `ClosePlan.DataSurvives` | lib/zip_close.c:178-287 | every survivor has at its recorded offset its new data, or the compressed data it had before |
| `ClosePlan.PlansAgree` | lib/zip_close.c:132-169 | keeping a part of the file and copying all of it give every survivor the same data |
| `ClosePlan.WrittenInOrder` | lib/zip_close.c:224-286 | what is written lies behind the part that is kept, each entry behind the ones before |
| `ClosePlan.MakePlan` | lib/zip_close.c:102-169 | the loops find how much is kept, and the survivors in order |
| `ClosePlan.FindLast` | lib/zip_close.c:138-148 | finds the entry that starts last |
| `ClosePlan.WriteSurvivors` | lib/zip_close.c:178-287 | the loop writes or skips each survivor as planned and fails if one cannot be written |
| `ClosePlan.NothingToCopy` | lib/zip_close.c:205-266 | an archive with such an entry cannot be written |
| `SaveRoundTrip.SaveAndReopen` | lib/zip_close.c:104-308 | a saved archive opens again with the entries that were not deleted, in their order, under their names, and each finds its data: what was added or put in place of the old, or what it had |
| `SaveRoundTrip.SurvivorReopens` | lib/zip_close.c:178-308 | each survivor is read back as its directory entry at its new offset |
| `SaveRoundTrip.Reopened` | lib/zip_close.c:178-308 | the directory of a saved archive is found, with its numbers, its comment and all its entries |
| `SaveRoundTrip.OffsetsBounded` | lib/zip_close.c:218-229 | there is an offset for each survivor, inside the new file |
| `Consistency.CheckEntry` | lib/zip_open.c:543-602 | an entry passes exactly if it lies before the directory, its headers agree and its sizes are plausible, in spite of arithmetic modulo 2^64 |
| `Consistency.CheckEntries` | lib/zip_open.c:519-604 | the loop over the entries passes exactly if each of them does, and gives them the extra fields of their local headers |
| `Consistency.Open` | lib/zip_open.c:685-741 | an archive is opened as found, or refused if it is to be checked and is not consistent |
| `Consistency.SearchBounded` | lib/zip_open.c:423-466 | every entry of a directory that is found can be sought and has a name of at most 65535 bytes |
| `Consistency.HeadersCompared` | lib/zip_open.c:640-674 | the two headers that were written for an entry agree if and only if its sizes can be read, the AES field has its final method, and a descriptor is as wide as those of the archive, or wide for empty data |
| `Consistency.ForeignCompared` | lib/zip_open.c:640-674 | an entry passes against any readable header without descriptor if and only if name, time, method, checksum and sizes are the same and its version is no lower |
| `Consistency.OverheadIsFraming` | lib/zip_dirent.c:1394-1421 | by how much encryption makes stored data longer is the length of what it adds |
| `SavedConsistency.PartAt` | lib/zip_close.c:218-287 | what was written for an entry is at its offset, and another header or nothing follows it in the data |
| `SavedConsistency.EntryCompared` | lib/zip_open.c:574-602 | an entry that was written is consistent if and only if its headers agree by that condition and its sizes are plausible |
| `SavedConsistency.SavedIsConsistent` | lib/zip_open.c:519-604 | a saved archive passes its own check if and only if all entries that were written meet the condition, and those that were kept are consistent in the file |
| `SavedConsistency.RewrittenIsConsistent` | lib/zip_open.c:519-604 | if nothing was kept, if and only if all entries meet the condition |
| `SavedConsistency.CopiedAgrees` | lib/zip_close.c:257-261 | a copied entry without PKWARE encryption agrees in any archive if its sizes can be read |
| `SourceRead.Source.Read` | lib/zip_source_read.c:38-94 | however little a callback delivers at a time, a read fills the buffer with the next bytes as far as there are any |
| `SourceRead.Source.AtEof` | lib/zip_source_at_eof.c:3-43 | tells exactly whether the end is reached, without losing or repeating a byte |
| `SourceRead.Source.Seek` | lib/zip_source_seek.c:39-60 | moves exactly to targets between start and end |
| `SourceRead.Source.Tell` | lib/zip_source_tell.c:38-56 | the number of bytes read, or the position, is where the next byte comes from |
| `WindowSource.Window.Read` | lib/zip_source_window.c:241-274 | delivers the data at the window's own cursor inside the window, whatever was read from the source before |
| `WindowSource.Window.Seek` | lib/zip_source_window.c:276-327 | moves the window's own cursor, exactly to targets inside the window |
| `WindowSource.Window.Open` | lib/zip_source_window.c:194-239 | the window moves behind the header once, and starts at its start |
| `WindowSource.WindowsAreIndependent` | lib/zip_source_window.c:241-327 | under any interleaving each window gets the replies it would get alone |
| `WindowSource.RunSchedule` | lib/zip_source_window.c:241-327 | any schedule of commands for windows on one source behaves as the windows' private copies |
| `CrcSource.UpdateContinues` | lib/zip_source_crc.c:117-122 | a checksum continued over more data is that of all of it |
| `CrcSource.CrcSource.Read` | lib/zip_source_crc.c:92-126 | after any reads and seeks the checksum covers the data up to its position, each byte once |
| `CrcSource.CrcSource.UpdateCrc` | lib/zip_source_crc.c:114-123 | only new data that follows what is covered is added |
| `CrcSource.CrcSource.ValidateCrc` | lib/zip_source_crc.c:209-241 | the checksum is complete exactly if it covers all data; what is expected is compared with that of all data |
| `CrcSource.CrcSource.Close` | lib/zip_source_crc.c:128-140 | closing checks the data exactly if all was read, and moves nothing |
| `CrcSource.CrcSource.Seek` | lib/zip_source_crc.c:184-199 | a seek keeps the checksum |
| `CrcSource.CrcSource.Stat` | lib/zip_source_crc.c:142-162 | size and checksum are told once they are those of all data, and refused exactly if the lower layer told another size |
| `CompressSource.CompressSource.Feed` | lib/zip_source_compress.c:269-291 | the codec is given all data in order; the buffer holds all of it as long as storing is possible |
| `CompressSource.CompressSource.Turn` | lib/zip_source_compress.c:213-301 | each turn adds what the codec delivers, and makes progress |
| `CompressSource.CompressSource.Read` | lib/zip_source_compress.c:194-311 | whatever the sizes of the reads, at the end the output decodes to the input, or is the input if it is stored; an empty read means the end |
| `CompressSource.CompressSource.Stat` | lib/zip_source_compress.c:351-364 | the reported method and size are those of what was delivered |
| `CompressSource.CopyingIsLawful` | lib/zip_source_compress.c:208-302 | what is asked of codecs can be met |
| `ExclusiveOr.XorTwice` | lib/zip_pkware.c:79 | combining twice with the same byte changes nothing |
| `Pkware.DecryptOfEncrypt` | lib/zip_pkware.c:68-107 | decryption undoes encryption under the same keys |
| `Pkware.EncryptInParts` | lib/zip_pkware.c:68-87 | the parts of a text can be encrypted one after another |
| `Pkware.CryptByteOnBits` | lib/zip_pkware.c:53-58 | the byte that data is combined with is the stated product of the low 16 bits of the third key with one bit set and one turned over |
| `Pkware.KeysAreRegisters` | lib/zip_pkware.c:45-50 | the first key is the CRC register of the plain text, the second a recurrence of its low bytes modulo 2^32, the third the CRC register of the high bytes of the second |
| `Pkware.KnownKeyStream` | lib/zip_pkware.c:40-58 | the key stream for three zeros under the initial keys, by CRC-32 |
| `Pkware.DecryptsAnyChunking` | lib/zip_pkware.c:68-107 | what was encrypted in some parts and is decrypted in others is what it was |
| `Pkware.Cipher.Encrypt` | lib/zip_pkware.c:68-87 | encrypts in place; the keys are then those after the plain text |
| `Pkware.Cipher.Decrypt` | lib/zip_pkware.c:90-107 | decrypts in place; the keys are then those after the plain text |
| `Pkware.Cipher.Initialize` | lib/zip_pkware.c:82-85 | the password only changes the keys |
| `Pkware.EncodeSource.constructor` | lib/zip_source_pkware_encode.c:97-142 | all that will be delivered is the encryption of the random header and the data under the keys of the password |
| `Pkware.EncodeSource.Read` | lib/zip_source_pkware_encode.c:146-176 | reads of any sizes deliver this in order |
| `WinzipAes.IncrementCounts` | lib/zip_winzip_aes.c:58-63 | the loop with carry adds one to the little-endian counter, modulo 2^64 |
| `WinzipAes.Aes.IncrementCounter` | lib/zip_winzip_aes.c:58-63 | as far as there is a carry, and only in the first eight bytes |
| `WinzipAes.Aes.CryptByte` | lib/zip_winzip_aes.c:57-69 | byte k of the stream is combined with byte k mod 16 of the encrypted counter k/16+1 |
| `WinzipAes.Aes.Crypt` | lib/zip_winzip_aes.c:53-73 | data at any place of the stream is combined with the pad of that place |
| `WinzipAes.Aes.Encrypt` | lib/zip_winzip_aes.c:140-142 | the encrypted data is authenticated |
| `WinzipAes.Aes.Decrypt` | lib/zip_winzip_aes.c:145-147 | the data is authenticated before it is decrypted, so that both sides authenticate the same |
| `WinzipAes.CryptTwice` | lib/zip_winzip_aes.c:53-73 | the same operation decrypts |
| `WinzipAes.DecryptsAnyChunking` | lib/zip_winzip_aes.c:53-73 | what was encrypted in some parts and is decrypted in others is what it was |
| `WinzipAes.EncodeSource.constructor` | lib/zip_source_winzip_aes_encode.c:118-123 | all that will be delivered is the header, the encrypted data and ten bytes of its authentication code |
| `WinzipAes.EncodeSource.Read` | lib/zip_source_winzip_aes_encode.c:125-176 | reads of any sizes deliver this in order |

## Left out

- BufferSource.ReadData.ExecuteAll: a source that has more than 2^64 - 65536 bytes to begin with is not modelled; no command makes one that large.
- BufferSource.ReadData.ExecuteWriting: as for ExecuteAll, the source has at most 2^64 - 65536 bytes.
- BufferSource.ReadData.Execute: as for ExecuteAll, the source has at most 2^64 - 65536 bytes.
- BufferSource.ReadData.BeginWriteCloning: that cloning is refused when little of the last fragment would be kept appears in the reference model as a free choice to refuse.
- SourceBuffer.Buffer.Write: the cursor is at most 2^64 - 65536; behind that the test for overflow at `lib/zip_source_buffer.c:588` wraps around. Allocation always succeeds, and the doubling of the fragment array is not counted, as it is a sequence here.
- Archive.Archive.SetName: archives opened read-only, where every edit fails at once, null archives and the flags for raw and strict names are not modelled.
- Archive.Archive.FileAdd: the source is a number; read-only archives, freeing replaced sources and failures to read local extra fields are not modelled. The flags are those for encodings and for overwriting.
- Archive.Archive.ReplaceData: failures to read local extra fields are not modelled.
- Archive.Archive.NameLocate: the flags that scan all entries instead (ignoring case or directories, raw and strict names, the unchanged view) are not modelled.
- Archive.Archive.UnchangeAll: the archive comment and archive flags are not part of the entries.
- ZipString.Text: the guessed encoding and the converted text are computed each time instead of being kept.
- ExtraFieldList.Set: replacing a field by its own data pointer, which only changes the length, is not modelled; the fields are values.
- DirentHeader.ReadHeader: reading from a buffer and directly from a source are the same function of the data ahead; the error codes are not told apart.
- DirentRoundTrip.HeaderRoundTrip: entries with a disk number of 0xFFFF and more are not covered, as archives on several disks are not.
- DirentIO.WriteDirent: the fixed time and the missing extra fields of the torrentzip form are not modelled.
- CdirIO.WriteCdir: the torrentzip comment is not modelled.
- CdirIO.FindCentralDirectory: the numbers around an end record are read from the file by position, not through the cursor.
- SavedConsistency.SavedIsConsistent: for entries that were kept, the local header is whatever the file had.
- ClosePlan.MakePlan: whether the source supports cloning is given; that it refuses a cloning for another reason than the size of the file is not part of the call.
- ClosePlan.WriteSurvivors: for new data the two dirents and the bytes as they are stored are given; reading the source and choosing the layers for it is not part of the plan. The copy loop in pieces of 8192 bytes is one copy.
- AddData.AddToFile: the dirent after the data is given; the attributes and times of the source only appear as differences between the two dirents.
- WindowSource.Window.Open: windows on sources that cannot seek, which skip data by reading it, are not modelled.
- WindowSource.Window.Read: windows on sources that cannot seek are not modelled.
- CompressSource.CompressSource.Turn: only compression; a codec for decompression may end before its input does.
- CompressSource.CompressSource.Read: only compression.
- CompressSource.CompressSource.Stat: only compression.
- CrcSource.CrcSource.Read: the checksum is updated in one piece instead of pieces of 2^32 bytes; statistics of the lower layer are given beforehand.
- WinzipAes.EncodeSource.constructor: key derivation, the salt and the verification bytes are a given header.
- WinzipAes.EncodeSource.Read: the decoding sources are not modelled, only the ciphers.
- SourceRead.Source.Read: errors of lower layers, closed sources and open counts are not modelled.
- File, stdio and Windows sources, temporary files, progress callbacks, torrentzip, DOS times, strong encryption and archives on several disks are not part of this model.
