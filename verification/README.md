# Models of the Adrenaline loader's codecs, file systems and formats

Dafny models of the parts of the repository in which bytes have to agree with bytes: a compressor with its
decoders, two editors of one boot configuration format, an ISO 9660 driver, a remote file system that survives
device loss, a package builder and a bounded formatter. Each part is written twice: once as the specification
(lists of sequences, lists of records, a walk in a tree, a slice of an extent, an uninterrupted run, an unbounded
rendering), and once in the form of the original, with arrays, cursors and fields that change in place. Every
imperative member is proved against its specification, and the promises are proved of the specification.

| files | part |
|---|---|
| `Bytes.dfy`, `Errors.dfy`, `Host.dfy` | bytes, little-endian words, strings and writes; error codes; host files on a device that may go away |
| `Lz4Format.dfy`, `Lz4Strict.dfy`, `Lz4Accept.dfy` | the block format, which inputs are well-formed blocks, and which are accepted |
| `Lz4Checked.dfy`, `Lz4Limits.dfy` | the decoder with the tests of the source, and from where on it parts from the reference decoder |
| `Lz4Copy.dfy`, `Lz4Decode.dfy` | overlapping copies, both decoders |
| `Lz4Match.dfy`, `Lz4Stretch.dfy`, `Lz4Compress.dfy`, `Lz4RoundTrip.dfy` | match finder, what it cannot miss, compressor, round trip |
| `Lz4Constant.dfy`, `Lz4Incompressible.dfy` | data of one byte, and data that no block makes smaller |
| `SaveState.dfy` | savestates on top of the codec |
| `Btcnf.dfy`, `BtcnfInsertion.dfy`, `BtcnfEdit.dfy`, `BtcnfLimits.dfy` | boot configuration images, the insertion in place and its limit |
| `BtcnfText.dfy`, `BtcnfParse.dfy`, `BtcnfBuild.dfy`, `BtcnfRoundTrip.dfy`, `BtcnfExtract.dfy` | builder, parser and extractor of the same images |
| `BtcnfLayout.dfy`, `BtcnfReading.dfy` | built images field by field, texts line by line |
| `Iso.dfy`, `IsoDriver.dfy`, `IsoHidden.dfy` | directories, path lookup and reads of the ISO driver, and files it does not find |
| `Msfs.dfy`, `MsfsDir.dfy`, `MsfsErrors.dfy`, `MsfsFilter.dfy` | files, directories, failing directory reads and the directory filter of the memory stick |
| `Flash0.dfy` | the flash0 package |
| `Format.dfy` | the bounded formatter |

`dafny verify dfyconfig.toml` checks the whole project.

## Conventions

- Input that a C function only reads is a `seq<byte>`, memory that it writes an `array<byte>`, a field that it
  updates a field of a class. Both copies of InsertModule are the same code; one model serves them.
- The LZ4 format is that of the LZ4 Block Format Description (sections on the compressed block format, the offset,
  the match length and the end-of-block conditions). The reference decoder `Decode` reads it leniently: as the source
  does, it takes the forbidden offset zero for zeros, and it asks for no distance from the end. Directory records
  are those of ECMA-119, sections 6.8.1 and 9.1.
- Words are 32 bits: `STEPSIZE` is 4, and the compressor uses the 16-bit table below 64 KiB + 11 and pointers above.
  An empty pointer slot is a position further below the source than a match may reach.
- The headers `msfs.h`, `isofs_driver.h`, `psperror.h` and `files.h` are not part of this model: transfer sizes, the
  list of files and the like are parameters, and of the error codes only the signs, and which are equal, matter. The layout of a module
  entry is taken from `tools/btcnf.py:18-20`; what InsertModule stores as `flags` is the runlevel half of the flags
  word, and the rest of the entry is that of the module it displaces.
- Where a promise is false of the code, the code is kept, the exact condition is proved, and an input that breaks it
  is given:

| promise | holds exactly | broken by |
|---|---|---|
| what the safe decoder accepts is what the reference decoder reads | for inputs below 16843017 bytes, or 16843018 without zero offsets (`Lz4Limits.SoundExactly`) | `Lz4Limits.LongInput` |
| the end of a match is computed without wrapping | for inputs below (2^32 - 19 - address) / 255 + 9 bytes (`Lz4Limits.WrapsExactly`) | `Lz4Limits.WindowInput` |
| what it accepts is a well-formed block | without zero offsets and within the end-of-block conditions (`Lz4Strict.AcceptedExactly`) | `Lz4Strict.ZeroOffset` |
| a limited compression stores inside the capacity | for inputs below 134665 bytes (`Lz4Compress.ExcessExactly`) | `Lz4Compress.StorePast` |
| a saved state can be loaded | when both sizes in its header are nonzero (`SaveState.Device.SaveState`) | `SaveState.SaveNoise` |
| an insertion leaves every mode searching all modules | while 16 bits count them, or without modes (`BtcnfInsertion.InsertedWellFormed`) | `BtcnfLimits.CountWraps` |
| a directory search sees every entry | when the gaps are short (`Iso.ReachedEntries`) | `IsoHidden.FindHidden` |
| and answers right for every name | when also no identifier has more than 32 bytes, names being distinct (`Iso.ScanExactly`) | `IsoHidden.FindBehind` |
| the shadow offset follows a seek | unless the target's int cast is negative (`Msfs.File.Lseek`) | `Msfs.SeekBehind` |
| a truncating rewrite keeps what was written | without a write below the first one (`Msfs.RewriteKeeps`) | `Msfs.BackwardsRun` |
| close gives a truncated file its old beginning back | when descriptor and device are there, or nothing is to copy (`Msfs.TruncatedFile.Close`) | `Msfs.LostBeginning` |
| a directory filter accepts its language | for filters of one form, names without a star (`MsfsFilter.FilterExactly`) | `MsfsFilter.Refuse` |
| a directory read ends on a host that keeps failing | when the name in the buffer passes the filter (`MsfsErrors.EndsExactly`) | `MsfsErrors.NeverEnds` |

## Model

| member | source | states |
|---|---|---|
| `Lz4RoundTrip.RoundTrip` | integration/adrenaline-v7/overlay/user/lz4/lz4.c:903-919 | for every input and capacity a positive compressed size means that either decoder, the safe one with any larger room, gives back exactly the input, the fast one consuming exactly that size; 0 is possible only below the worst-case bound |
| `Lz4RoundTrip.OneMeaning` | integration/adrenaline-v7/overlay/user/lz4/lz4.c:1384-1515 | a block has one meaning: no byte string is a well-formed block for two different data |
| `Lz4Format.DecodeEncoded` | integration/adrenaline-v7/overlay/user/lz4/lz4.c:1384-1515 | decoding the byte encoding of any valid list of sequences gives what the list stands for, from any point of the block on |
| `Lz4Format.EncodesDecodes` | integration/adrenaline-v7/overlay/user/lz4/lz4.c:1384-1515 | every well-formed block decodes to the data it was made for, and to nothing else |
| `Lz4Format.ParseEncoded` | integration/adrenaline-v7/overlay/user/lz4/lz4.c:1390-1461 | token, length bytes, literals, offset and match length of an encoded sequence are read back |
| `Lz4Format.ReadExtension` | integration/adrenaline-v7/overlay/user/lz4/lz4.c:1413-1419 | a length field of any size is read back from its 255-steps |
| `Lz4Copy.WildCopyWithin` | integration/adrenaline-v7/overlay/user/lz4/lz4.c:274-283 | 8-byte steps inside one buffer, at a distance of at least 8, repeat the bytes at that distance and overshoot by at most 7 |
| `Lz4Copy.CopyFirstEight` | integration/adrenaline-v7/overlay/user/lz4/lz4.c:1488-1499 | with the two offset tables the first 8 bytes repeat at the offset, also for offsets below 8, and the match cursor ends a stride behind |
| `Lz4Copy.StrideRepeats` | integration/adrenaline-v7/overlay/user/lz4/lz4.c:1372-1373 | copying on at the stride of the tables repeats at the offset itself: the stride is a multiple of it |
| `Lz4Copy.CopyMatchBytes` | integration/adrenaline-v7/overlay/user/lz4/lz4.c:1488-1514 | the overlapping copy gives the bytes of the byte-by-byte copy, refuses exactly the matches that end in the last 5 bytes, and touches nothing below the cursor or past the output |
| `Lz4Copy.CopyMatchUnique` | integration/adrenaline-v7/overlay/user/lz4/lz4.c:1488-1514 | the byte-by-byte copy is the only extension whose every byte repeats at the offset |
| `Lz4Decode.ReadLiteralLength` | integration/adrenaline-v7/overlay/user/lz4/lz4.c:1414-1422 | the loop reads the field as the exact decoder does, adding in 32 bits in safe use; in trusted use, where it has no end test, the field of a block that conforms |
| `Lz4Decode.ReadMatchLength` | integration/adrenaline-v7/overlay/user/lz4/lz4.c:1451-1461 | the loop reads the match length adding in 32 bits, and fails exactly where the field reaches into the last 5 bytes |
| `Lz4Decode.Shortcut` | integration/adrenaline-v7/overlay/user/lz4/lz4.c:1396-1411 | the shortcut is taken if and only if the specified condition holds, and then advances input, cursor and output exactly as the reference decoder does on a sequence with a match |
| `Lz4Decode.MatchEnd` | integration/adrenaline-v7/overlay/user/lz4/lz4.c:1451-1465 | both 32-bit sums with the address of the output: where neither meets the top of the address space, the end of the match is exact or the length fits no output |
| `Lz4Decode.General` | integration/adrenaline-v7/overlay/user/lz4/lz4.c:1413-1515 | one pass of the general path ends or advances exactly as the specified step, errors included, and leaves the rest of the buffer alone |
| `Lz4Decode.DecompressGeneric` | integration/adrenaline-v7/overlay/user/lz4/lz4.c:1348-1526 | both uses of the loop: safe use accepts exactly what the specified decoder accepts and yields the same bytes, unless a pass meets the top of the address space; trusted use decodes every block that conforms and returns its size |
| `Lz4Decode.DecompressSafe` | integration/adrenaline-v7/overlay/user/lz4/lz4.c:1530-1533 | for every input that does not meet the top of the address space, a nonnegative result means that the specified decoder yields exactly those bytes; below 16843017 bytes they are what the reference decoder gives the input; a well-formed block that fits is decoded at any size and address |
| `Lz4Decode.DecompressFast` | integration/adrenaline-v7/overlay/user/lz4/lz4.c:1542-1545 | a well-formed block is decoded in place, its own size is returned, and nothing else in the buffer changes |
| `Lz4Checked.EncodedConforms` | integration/adrenaline-v7/overlay/user/lz4/lz4.c:1426-1440 | a valid list of sequences, once encoded, keeps every distance from both ends that the decoder relies on |
| `Lz4Checked.ConformDecodes` | integration/adrenaline-v7/overlay/user/lz4/lz4.c:1384-1515 | a block that keeps these distances is accepted by all tests, shortcut or not, and yields what the format says |
| `Lz4Checked.QuickGeneral` | integration/adrenaline-v7/overlay/user/lz4/lz4.c:1396-1411 | where the general path accepts, the shortcut lands where the general path does |
| `Lz4Checked.ResultSound` | integration/adrenaline-v7/overlay/user/lz4/lz4.c:1414-1419 | below 16843017 bytes, and at that size if no offset is zero, whatever is accepted is what the reference decoder gives the input |
| `Lz4Limits.SoundExactly` | integration/adrenaline-v7/overlay/user/lz4/lz4.c:1453-1464 | every accepted input of a size is decoded as by the reference decoder if and only if that size is less than 16843017, or 16843018 for inputs without a zero offset: from there on the 32-bit match length can wrap |
| `Lz4Limits.LongInput` | integration/adrenaline-v7/overlay/user/lz4/lz4.c:1453-1464 | for every larger size an input, without zero offsets on demand, that is accepted as a short block and that the reference decoder reads as one of more than 4 GiB |
| `Lz4Limits.WrapsExactly` | integration/adrenaline-v7/overlay/user/lz4/lz4.c:1459-1462 | no input of a size lets the end of a match wrap past the top of the address space, for an output at an address, if and only if the size is below a bound in that address |
| `Lz4Limits.WindowInput` | integration/adrenaline-v7/overlay/user/lz4/lz4.c:1459-1462 | an input of every larger size that does |
| `Lz4Checked.WrapsFail` | integration/adrenaline-v7/overlay/user/lz4/lz4.c:1459-1462 | only inputs that the specified decoder refuses do, so no well-formed block |
| `Lz4Strict.WellFormedExactly` | integration/adrenaline-v7/overlay/user/lz4/lz4.c:1384-1515 | a byte string is a well-formed block for data if and only if the reference decoder yields the data, no offset is zero and the end-of-block conditions hold |
| `Lz4Strict.AcceptedExactly` | integration/adrenaline-v7/overlay/user/lz4/lz4.c:1384-1515 | an input accepted below the limit is a well-formed block for what it yields under exactly those two conditions |
| `Lz4Strict.ZeroOffset` | integration/adrenaline-v7/overlay/user/lz4/lz4.c:1444-1449 | an accepted input that is a well-formed block for no data |
| `Lz4Strict.SmallBlock` | integration/adrenaline-v7/overlay/user/lz4/lz4.c:1390-1449 | ten bytes that are a block of the format, field by field |
| `Lz4Accept.AcceptsExactly` | integration/adrenaline-v7/overlay/user/lz4/lz4.c:1396-1508 | below the limit an input is accepted if and only if the reference decoder reads it and every match keeps either the distances of the shortcut or those of the general path |
| `Lz4Incompressible.LiteralsOnly` | integration/adrenaline-v7/overlay/user/lz4/lz4.c:827-847 | data in which no 4 bytes recur within 65535 bytes have only blocks longer than themselves |
| `Lz4Checked.OverreadsFail` | integration/adrenaline-v7/overlay/user/lz4/lz4.c:1384-1411 | only an input that is refused in the end is read past its end, by one or two bytes |
| `Lz4Checked.ShortcutOverreads` | integration/adrenaline-v7/overlay/user/lz4/lz4.c:1396-1411 | a 17-byte input on which the shortcut lands on the end, so that the next token is read behind it, and which the general path alone refuses |
| `Lz4Match.Count` | integration/adrenaline-v7/overlay/user/lz4/lz4.c:412-435 | the count is the longest common prefix up to the limit |
| `Lz4Match.CommonBytes` | integration/adrenaline-v7/overlay/user/lz4/lz4.c:339-403 | the trailing zero bits of two different words, divided by 8, are the number of leading bytes they share |
| `Lz4Match.Candidate` | integration/adrenaline-v7/overlay/user/lz4/lz4.c:698-700 | a candidate is taken exactly when 4 bytes agree within 65535 bytes; the 16-bit table needs no distance test for that |
| `Lz4Match.Put` | integration/adrenaline-v7/overlay/user/lz4/lz4.c:519-528 | a stored position is not truncated, and every slot stays below the position of the next lookup |
| `Lz4Match.NoWrap` | integration/adrenaline-v7/overlay/user/lz4/lz4.c:666-671 | the search counter never reaches 2^32 on inputs the compressor accepts |
| `Lz4Match.FindMatch` | integration/adrenaline-v7/overlay/user/lz4/lz4.c:663-701 | the search ends with a real match 12 bytes before the end or gives up, keeps the table below the cursor, looks up positions in steps of 1 and then of the acceleration, one more after every 64, and never passes over a match in the slot of its first position or with the position looked up before |
| `Lz4Match.CatchUp` | integration/adrenaline-v7/overlay/user/lz4/lz4.c:703-704 | the match is extended backwards as far as bytes agree, at the same offset |
| `Lz4Compress.EmitSequence` | integration/adrenaline-v7/overlay/user/lz4/lz4.c:706-767 | the boundary invariant: emitted bytes decode to the input up to the anchor, distances and end conditions hold, matches are maximal, literals were searched for matches, growth is at most 1 in 255 |
| `Lz4Compress.EmitLast` | integration/adrenaline-v7/overlay/user/lz4/lz4.c:805-821 | the last literals complete a well-formed block for the whole input |
| `Lz4Compress.PutMatchLength` | integration/adrenaline-v7/overlay/user/lz4/lz4.c:752-763 | the fillers leave exactly the length field; which bytes they store, and with what, is exact |
| `Lz4Compress.PutLength` | integration/adrenaline-v7/overlay/user/lz4/lz4.c:712-717 | the loop writes exactly the length field |
| `Lz4Compress.PutLiterals` | integration/adrenaline-v7/overlay/user/lz4/lz4.c:706-723 | token, length and literals are laid down as last literals would be, unless a limited output lacks room |
| `Lz4Compress.PutMatch` | integration/adrenaline-v7/overlay/user/lz4/lz4.c:725-765 | offset and match length complete the token in place; the length is the longest common prefix; all stores stay inside the limit |
| `Lz4Compress.MatchRoom` | integration/adrenaline-v7/overlay/user/lz4/lz4.c:749-764 | the room asked for before a match length covers its stores up to the store limit |
| `Lz4Compress.ExcessExactly` | integration/adrenaline-v7/overlay/user/lz4/lz4.c:749-764 | stores exceed what the room test grants for no match of an input of size n if and only if n is less than 134665 |
| `Lz4Compress.LimitIsCapacity` | integration/adrenaline-v7/overlay/user/lz4/lz4.c:749-764 | below 134665 bytes a limited destination of exactly the capacity is enough, whatever the capacity |
| `Lz4Compress.StorePast` | integration/adrenaline-v7/overlay/user/lz4/lz4.c:749-764 | for every size from 134665 on an input, and the capacity 535, for which a store goes past the capacity |
| `Lz4Compress.PutOne` | integration/adrenaline-v7/overlay/user/lz4/lz4.c:725-765 | one sequence is completed inside the store limit, and a sequence whose stores pass the capacity is reported as such |
| `Lz4Compress.UpdateTable` | integration/adrenaline-v7/overlay/user/lz4/lz4.c:772-798 | both table updates keep every slot below the cursor, and a match found between them is a real one |
| `Lz4Compress.PutMatches` | integration/adrenaline-v7/overlay/user/lz4/lz4.c:725-803 | a sequence and all that follow it without literals keep the boundary invariant and the table invariant |
| `Lz4Compress.MainLoop` | integration/adrenaline-v7/overlay/user/lz4/lz4.c:657-803 | the whole main loop keeps the boundary invariant to the end of the input; it gives up only where a limited output lacks room for the next literals or match |
| `Lz4Stretch.SearchedRun` | integration/adrenaline-v7/overlay/user/lz4/lz4.c:659-701 | for accelerations up to 32767 no run of L searched literals holds a stretch of 4 * (acceleration + L / 64 + 16) equal bytes |
| `Lz4Stretch.StepInReach` | integration/adrenaline-v7/overlay/user/lz4/lz4.c:666-671 | no step of such a search is longer than the distance of a match, whatever the size of the input |
| `Lz4Constant.ConstantFits` | integration/adrenaline-v7/overlay/user/lz4/lz4.c:657-823 | for n bytes of one value an output of n / 255 + 5 * acceleration + 100 bytes never lacks room |
| `Lz4Constant.CompressConstant` | integration/adrenaline-v7/overlay/user/lz4/lz4.c:827-847 | such data are compressed into that size, in any output of that size |
| `Lz4Compress.PutLast` | integration/adrenaline-v7/overlay/user/lz4/lz4.c:805-823 | the result is a well-formed block for the input, at most n + n/255 + 16 bytes and at most a limited capacity; 0 only if the last literals do not fit |
| `Lz4Compress.CompressGeneric` | integration/adrenaline-v7/overlay/user/lz4/lz4.c:587-824 | 0 on unsupported input; otherwise a well-formed block with maximal matches and searched literals, inside bound and capacity, or 0 where the capacity lacks room at a stated place |
| `Lz4Compress.CompressFast` | integration/adrenaline-v7/overlay/user/lz4/lz4.c:827-847 | a positive result is the size of such a block, and 0 means that the capacity lacks room for one; with the worst-case capacity the result is positive; below 134665 bytes no store passes the capacity |
| `SaveState.StateFileDetermines` | integration/adrenaline-v7/overlay/user/main.c:202-245 | a state file is the state of one machine only |
| `SaveState.HeaderReads` | integration/adrenaline-v7/overlay/user/main.c:161-172 | every header field is read back from the packed header |
| `SaveState.WordsStand` | integration/adrenaline-v7/overlay/user/states.h:39-54 | magic, version, title and every other field stand at their places in the structure |
| `SaveState.WritePart` | integration/adrenaline-v7/overlay/user/main.c:179-182 | the block of one half is in the file before the temporary buffer is used again |
| `SaveState.WriteState` | integration/adrenaline-v7/overlay/user/main.c:160-193 | the four writes are disjoint: header, descriptors and both blocks stand in the file together, the screenshot is untouched |
| `SaveState.StateWritten` | integration/adrenaline-v7/overlay/user/main.c:174-193 | no later write damages an earlier one |
| `SaveState.Device.SaveState` | integration/adrenaline-v7/overlay/user/main.c:149-200 | without a temporary file nothing changes; else the new file replaces the old state, has magic, version, title, registers and offsets in its header, and is a state file of the machine if and only if both sizes in its header are nonzero; a size is zero where a half has no block within its own size |
| `SaveState.ReadPart` | integration/adrenaline-v7/overlay/user/main.c:218-225 | one half of memory is restored from its block and the other half stays |
| `SaveState.Device.LoadState` | integration/adrenaline-v7/overlay/user/main.c:202-245 | from a state file all 64 MiB, sp, ra and the descriptor table come back exactly |
| `SaveState.Device.SaveAndLoad` | integration/adrenaline-v7/overlay/user/main.c:149-245 | saving and loading into any other memory restores it, sp, ra and the descriptor table when both sizes in the header are nonzero |
| `SaveState.Device.ListState` | integration/adrenaline-v7/overlay/user/states.c:254-278 | the states menu takes a file for a state by its magic, and reads title and screenshot by the header |
| `SaveState.Device.SaveAndList` | integration/adrenaline-v7/overlay/user/states.c:254-278 | every state that is saved is listed, with its title and the screenshot that was in the file |
| `SaveState.SaveNoise` | integration/adrenaline-v7/overlay/user/main.c:174-200 | a memory whose state is saved with success into a file that is the state of no machine, in the place of the earlier one |
| `BtcnfEdit.FindModule` | integration/adrenaline-v7/overlay/cef/rebootex/main.c:111-116 | the loop finds the first module of that name |
| `BtcnfEdit.UpdateRecords` | integration/adrenaline-v7/overlay/cef/rebootex/main.c:121-131 | name, memmove and entry stores leave the old table and pool with one entry and one name more, overlapping ranges included |
| `BtcnfEdit.UpdateHead` | integration/adrenaline-v7/overlay/cef/rebootex/main.c:133-142 | header and mode stores reach nothing past the head |
| `BtcnfEdit.InsertModule` | integration/adrenaline-v7/overlay/cef/rebootex/main.c:99-145 | success inserts the record immediately before the first module of that name, all other records and attributes unchanged and every mode count one up; both errors leave the image untouched and occur exactly in their cases |
| `BtcnfInsertion.InsertedRecords` | integration/adrenaline-v7/overlay/cef/rebootex/main.c:121-142 | the edited bytes decode to the old record list with the new record in place |
| `BtcnfInsertion.EntryInserted` | integration/adrenaline-v7/overlay/cef/rebootex/main.c:121-131 | the bytes of the new entry: the offset of its name, the runlevels as given, all else as in the entry it displaces, which follows it |
| `BtcnfInsertion.InsertedWellFormed` | integration/adrenaline-v7/overlay/cef/rebootex/main.c:138-142 | every mode still searches all modules if and only if the count fits 16 bits or there are no modes |
| `BtcnfLimits.CountWraps` | integration/adrenaline-v7/overlay/cef/rebootex/main.c:138-142 | a well-formed image of 65535 modules with room for one more, which any insertion leaves not well formed |
| `BtcnfInsertion.ModesCounted` | integration/adrenaline-v7/overlay/cef/rebootex/main.c:138-142 | each mode count is one more, modulo 2^16 |
| `BtcnfText.SplitJoined` | tools/btcnf.py:53-57 | the longest directive is taken off: prefix and path are split where they were joined |
| `BtcnfText.RunlevelsOfModeText` | tools/btcnf.py:80-83 | the letters of a runlevel set read back as the set |
| `BtcnfText.ParseHexDigits` | tools/btcnf.py:70 | printed hexadecimal digits read back as the number |
| `BtcnfParse.Parse` | tools/btcnf.py:60-91 | the line loop refines the functional parser, errors included |
| `BtcnfParse.ParsedLine` | tools/btcnf.py:72-89 | an accepted line is prefix and path up to the first space, and behind it letters of runlevels |
| `BtcnfReading.LinesWoven` | tools/btcnf.py:62 | a text is its lines with line breaks between them |
| `BtcnfReading.StripIs` | tools/btcnf.py:63 | a stripped line is the line without the spaces at both ends |
| `BtcnfReading.SignificantJoin` | tools/btcnf.py:62-65 | lines are taken or dropped one by one |
| `BtcnfReading.HexTexts` | tools/btcnf.py:70 | sign, prefix and underscores of the devkit word |
| `BtcnfLayout.LettersAre` | tools/btcnf.py:23-32 | V, G, U, P, L, A, E and M are the runlevels 1 to 128 |
| `BtcnfLayout.PrefixTables` | tools/btcnf.py:41-50 | the load mode and the group of every prefix |
| `BtcnfParse.PrintedRecord` | tools/btcnf.py:72-89 | the line of a record survives stripping and parses to that record |
| `BtcnfParse.ParsePrinted` | tools/btcnf.py:60-91 | a printed devkit word and printed records parse back exactly |
| `BtcnfBuild.StableSortSpec` | tools/btcnf.py:141-152 | the sort orders by load directive, keeps the order of equal directives, and sorting again changes nothing |
| `BtcnfBuild.BuildRecords` | tools/btcnf.py:94-156 | the loops build exactly the specified image, or fail where text is not ASCII or a field does not fit |
| `BtcnfReading.BuildAccepts` | tools/btcnf.py:94-156 | an image is built exactly when all paths are ASCII, the devkit word and the image size fit 32 bits, and the module count fits 16 bits or no mode is in use |
| `BtcnfLayout.HeaderStands` | tools/btcnf.py:117-134 | all sixteen words of the header |
| `BtcnfLayout.ModesStand` | tools/btcnf.py:96-136 | one mode entry for every flag in some record's runlevels, by ascending flag, with the number of modules, the flag and the number of its mode |
| `BtcnfLayout.ModulesStand` | tools/btcnf.py:106-156 | every module entry has its load mode and runlevels and leads to its path in the pool |
| `BtcnfLayout.GroupsStand` | tools/btcnf.py:141-152 | modules stand in the groups of their prefixes, and inside a group in source order |
| `BtcnfRoundTrip.BuiltImage` | tools/btcnf.py:94-156 | a built image is well formed and decodes to the records sorted by load directive |
| `BtcnfRoundTrip.EntryNames` | tools/btcnf.py:106-114 | at the offset of every record stands its own name, duplicates included |
| `BtcnfExtract.Extract` | tools/btcnf.py:171-203 | the loop refines the functional extractor, errors included |
| `BtcnfReading.ModeTextIs` | tools/btcnf.py:198-200 | the letters are printed in the order of the modes |
| `BtcnfReading.UnknownModeFails` | tools/btcnf.py:159-168 | the line of a module whose load mode has no prefix is never accepted back |
| `BtcnfExtract.ExtractBuilt` | tools/btcnf.py:171-203 | a built image extracts to the devkit word and the sorted records |
| `BtcnfExtract.RoundTrip` | tools/btcnf.py:94-203 | parsing what extract prints for a built image gives the devkit word and the stable sort of the records; a second build and extract changes nothing |
| `BtcnfExtract.InsertionText` | integration/adrenaline-v7/overlay/cef/rebootex/main.c:99-145 | extract on the edited bytes prints the old lines with the new record's line where it was inserted, and fails exactly where one of them cannot be printed |
| `BtcnfExtract.TextOfRecords` | tools/btcnf.py:171-203 | what extract prints for any image with records depends on its devkit word and its record list only |
| `BtcnfExtract.InsertAndExtract` | integration/adrenaline-v7/overlay/cef/rebootex/main.c:99-145 | InsertModule and then extract: the old text with one line more before the first module of that name, or the old text |
| `Iso.ReachedEntries` | integration/adrenaline-v7/overlay/cef/vshctrl/isofs_driver/isofs_driver.c:109-123 | the scan sees a prefix of the directory, and all of it if and only if every gap, taken from the int position, is no longer than the record before it and leads to a record |
| `Iso.SearchExactly` | integration/adrenaline-v7/overlay/cef/vshctrl/isofs_driver/isofs_driver.c:106-182 | a search that sees a prefix of the entries answers as a lookup among all of them if and only if it sees the first entry of that name with no identifier of more than 32 bytes up to it, or, for an absent name, no such identifier at all; what it finds is always right |
| `Iso.ScanExactly` | integration/adrenaline-v7/overlay/cef/vshctrl/isofs_driver/isofs_driver.c:106-182 | in a directory with distinct names all searches answer right if and only if the gaps are short and no identifier is too long |
| `Iso.GapExactly` | integration/adrenaline-v7/overlay/cef/vshctrl/isofs_driver/isofs_driver.c:110-113 | the gap is the rest of the sector unless the int position has wrapped; then it is a sector or more |
| `Iso.WrappedEnds` | integration/adrenaline-v7/overlay/cef/vshctrl/isofs_driver/isofs_driver.c:94-123 | where the int position is negative no later sector is reached |
| `Iso.LowSectors` | integration/adrenaline-v7/overlay/cef/vshctrl/isofs_driver/isofs_driver.c:94-113 | for directories below sector 2^20 the gap is always the rest of the sector |
| `IsoHidden.HiddenRecord` | integration/adrenaline-v7/overlay/cef/vshctrl/isofs_driver/isofs_driver.c:110-123 | a directory of two sectors, with "." and "..", as records that must not cross a sector give it, wherever it stands: its last file is in it and the search does not find it |
| `IsoHidden.FindHidden` | integration/adrenaline-v7/overlay/cef/vshctrl/isofs_driver/isofs_driver.c:88-185 | the driver, run on that directory, answers that the file is not there |
| `IsoHidden.RefusedRecord` | integration/adrenaline-v7/overlay/cef/vshctrl/isofs_driver/isofs_driver.c:125-127 | a directory of one sector, with short gaps, in which the search for a file behind an identifier of 33 bytes ends in EINVAL |
| `IsoHidden.FindBehind` | integration/adrenaline-v7/overlay/cef/vshctrl/isofs_driver/isofs_driver.c:88-185 | the driver, run on it |
| `Iso.LookStays` | integration/adrenaline-v7/overlay/cef/vshctrl/isofs_driver/isofs_driver.c:145-154 | a directory found in a volume is again a directory of the volume |
| `Iso.ComponentsSplit` | integration/adrenaline-v7/overlay/cef/vshctrl/isofs_driver/isofs_driver.c:194-221 | a path is its components, each followed by a slash, and a rest without slashes |
| `Iso.ComponentsUnique` | integration/adrenaline-v7/overlay/cef/vshctrl/isofs_driver/isofs_driver.c:194-221 | and in no other way |
| `Iso.WalkAppend` | integration/adrenaline-v7/overlay/cef/vshctrl/isofs_driver/isofs_driver.c:197-221 | one component more: the errors met before, 31 characters and 8 levels at most, counted as components without "." less twice those that are "..", or the directory of that name |
| `Iso.LookupAnswers` | integration/adrenaline-v7/overlay/cef/vshctrl/isofs_driver/isofs_driver.c:134-153 | the answer by the first entry of that name, and not-a-directory for a plain one |
| `Iso.NameEndIs` | integration/adrenaline-v7/overlay/cef/vshctrl/isofs_driver/isofs_driver.c:40-43 | a name ends at the first zero byte or ";1" |
| `Iso.WalkSound` | integration/adrenaline-v7/overlay/cef/vshctrl/isofs_driver/isofs_driver.c:187-225 | where the driver's walk arrives is what the path stands for, in every volume it can search, and in a volume that hides nothing the two walks agree |
| `IsoDriver.ResolveSound` | integration/adrenaline-v7/overlay/cef/vshctrl/isofs_driver/isofs_driver.c:321-345 | the same of a path and a file name |
| `IsoDriver.ResolveSplits` | integration/adrenaline-v7/overlay/cef/vshctrl/isofs_driver/isofs_driver.c:321-345 | what is opened is found by walking the names that the path is made of |
| `IsoDriver.Driver.SameName` | integration/adrenaline-v7/overlay/cef/vshctrl/isofs_driver/isofs_driver.c:129-145 | the comparison, by way of the zero-filled name buffer, is equality with the entry's name: ".", ".." or the identifier cut at ";1" |
| `IsoDriver.NormalizeName` | integration/adrenaline-v7/overlay/cef/vshctrl/isofs_driver/isofs_driver.c:40-43 | the buffer holds the identifier cut at its first ";1" |
| `IsoDriver.Driver.Scan` | integration/adrenaline-v7/overlay/cef/vshctrl/isofs_driver/isofs_driver.c:94-182 | the loop terminates and returns the first entry of that name that the gap rule reaches from that sector, EINVAL where an identifier of more than 32 bytes comes first, or the right error |
| `IsoDriver.Driver.Skip` | integration/adrenaline-v7/overlay/cef/vshctrl/isofs_driver/isofs_driver.c:109-123 | a record of length zero: the next sector by the int position, or the end of the search exactly when the gap rule ends it |
| `IsoDriver.Driver.FindFile` | integration/adrenaline-v7/overlay/cef/vshctrl/isofs_driver/isofs_driver.c:88-185 | in a directory of at most 8 sectors: the driver's search among the entries reached, which is the lookup among all entries when it finds something or the directory hides nothing |
| `IsoDriver.Driver.FindPath` | integration/adrenaline-v7/overlay/cef/vshctrl/isofs_driver/isofs_driver.c:187-225 | the component loop is the walk along the only list of names without slashes that the path is made of, as far as the driver sees, in every volume it can search, with its length, depth, not-found and not-a-directory errors |
| `IsoDriver.Driver.GetFreeHandle` | integration/adrenaline-v7/overlay/cef/vshctrl/isofs_driver/isofs_driver.c:30-38 | the lowest closed handle from 1 on; the error exactly when there is none |
| `IsoDriver.Driver.Open` | integration/adrenaline-v7/overlay/cef/vshctrl/isofs_driver/isofs_driver.c:321-345 | one handle is taken on the extent that path and name resolve to; errors change no handle |
| `IsoDriver.Driver.Close` | integration/adrenaline-v7/overlay/cef/vshctrl/isofs_driver/isofs_driver.c:386-399 | closes exactly an open handle |
| `IsoDriver.Driver.ReadToBuffer` | integration/adrenaline-v7/overlay/cef/vshctrl/isofs_driver/isofs_driver.c:15-22 | at most 8 sectors with 64 zero bytes behind them; more are refused |
| `IsoDriver.Driver.Read` | integration/adrenaline-v7/overlay/cef/vshctrl/isofs_driver/isofs_driver.c:401-473 | delivers exactly the bytes of the extent that pointer and length name, moves the pointer behind them, and changes nothing else |
| `IsoDriver.Driver.ReadTwice` | integration/adrenaline-v7/overlay/cef/vshctrl/isofs_driver/isofs_driver.c:401-473 | two consecutive reads deliver the bytes, and leave the pointer, of one read of both lengths |
| `MsfsDir.DirectoryFilter` | integration/adrenaline-v7/overlay/user/msfs.c:430-468 | the pointer loop terminates and decides as the matcher on strings does |
| `MsfsDir.AcceptsSound` | integration/adrenaline-v7/overlay/user/msfs.c:430-468 | only names in the language are accepted, where * is any string and ? at most one character |
| `MsfsDir.AcceptsComplete` | integration/adrenaline-v7/overlay/user/msfs.c:430-468 | a filter of literals and then wildcards, or wildcards that float around single literals, accepts from any place on exactly what the rest of it matches |
| `MsfsFilter.FilterExactly` | integration/adrenaline-v7/overlay/user/msfs.c:430-468 | a filter accepts exactly its language, for all names without a star, if and only if it has that form |
| `MsfsFilter.Refuse` | integration/adrenaline-v7/overlay/user/msfs.c:430-468 | for every other filter a name of its language that it refuses |
| `MsfsFilter.StarInName` | integration/adrenaline-v7/overlay/user/msfs.c:433-456 | a name with a star is beyond this: the filter * refuses *A |
| `MsfsDir.FilterIncomplete` | integration/adrenaline-v7/overlay/user/msfs.c:450-454 | a simple filter that refuses a name of its language: *ab and aab |
| `MsfsDir.Directory.ReadOne` | integration/adrenaline-v7/overlay/user/msfs.c:470-493 | the entries come in order, the two special ones first |
| `MsfsDir.Directory.Dread` | integration/adrenaline-v7/overlay/user/msfs.c:495-526 | the next entry that passes the filter; 0 only when none is left |
| `MsfsErrors.DreadRounds` | integration/adrenaline-v7/overlay/user/msfs.c:495-526 | on a host that may fail: the loop ends with the first answer that is the end or leaves a name in the buffer that passes the filter, and returns what that answer was |
| `MsfsErrors.EndsExactly` | integration/adrenaline-v7/overlay/user/msfs.c:503-509 | on a host that fails for good after some answers the loop ends if and only if one of them ends it or the name they leave in the buffer passes the filter |
| `MsfsErrors.NeverEnds` | integration/adrenaline-v7/overlay/user/msfs.c:503-509 | a failing host, a filter and a stale name with which it does not end |
| `MsfsDir.Directory.ReadAll` | integration/adrenaline-v7/overlay/user/msfs.c:495-526 | repeated calls yield exactly the filtered sequence, in order: all names without a filter, and only names that match it, all of them for filters of the exact form |
| `MsfsDir.FilteredMatch` | integration/adrenaline-v7/overlay/user/msfs.c:503-509 | names that pass match the filter |
| `MsfsDir.FilteredAll` | integration/adrenaline-v7/overlay/user/msfs.c:503-509 | for filters of the exact form no matching name without a star is left out |
| `MsfsDir.Directory.constructor` | integration/adrenaline-v7/overlay/user/msfs.c:68-79 | the special entries are there for every folder but the root |
| `Msfs.File.Reopen` | integration/adrenaline-v7/overlay/user/msfs.c:114-126 | after a reopen the host position is the shadow offset again; after a failed one the handle is invalid |
| `Msfs.File.Read` | integration/adrenaline-v7/overlay/user/msfs.c:268-297 | bytes, offset and file are those of an uninterrupted read; failure only after two losses in a row, and from then on |
| `Msfs.File.Write` | integration/adrenaline-v7/overlay/user/msfs.c:299-334 | offset, file and first write are those of an uninterrupted write; a failed one leaves a first part of the bytes |
| `Msfs.File.Lseek` | integration/adrenaline-v7/overlay/user/msfs.c:336-352 | answers as an uninterrupted seek; the shadow offset follows if and only if the target is negative, its int cast is not, or the file stands there already |
| `Msfs.SeekBehind` | integration/adrenaline-v7/overlay/user/msfs.c:336-352 | a seek to 2 GiB on an empty file, after which the shadow offset is wrong |
| `Msfs.File.Run` | integration/adrenaline-v7/overlay/user/msfs.c:268-352 | any run of reads, writes and seeks with device losses answers as, and leaves, what the uninterrupted run does; once a reopen has failed every later run fails and leaves the file alone |
| `Msfs.FirstWriteIs` | integration/adrenaline-v7/overlay/user/msfs.c:304-308 | the recorded first write is where the first nonempty write of the run started |
| `Msfs.LastWriteWins` | integration/adrenaline-v7/overlay/user/msfs.c:268-352 | every byte after a run is that of the last write there, and zero where none was |
| `Msfs.TruncatedFile.TruncateFix` | integration/adrenaline-v7/overlay/user/msfs.c:184-241 | bytes below the first write come from the set-aside file, as far as it reaches and as far as no host call fails; the file is removed in either case; with a steady folder it succeeds if and only if there is nothing to copy or the descriptor and its device are there |
| `Msfs.TruncatedFile.Close` | integration/adrenaline-v7/overlay/user/msfs.c:243-266 | close puts the old beginning back, only when the open had set a file aside; where that fails the descriptor stays, and with the set-aside file gone no later close succeeds |
| `Msfs.LostBeginning` | integration/adrenaline-v7/overlay/user/msfs.c:184-266 | a device that was gone before close and is back: close fails, removes the only copy of the old beginning, and fails again |
| `Msfs.TruncatedFile.constructor` | integration/adrenaline-v7/overlay/user/msfs.c:163-181 | a truncating open sets the old contents aside and starts with an empty file |
| `Msfs.Rewrite` | integration/adrenaline-v7/overlay/user/msfs.c:154-266 | open with truncation, run and close: below the first write the old bytes, from there on what the run left |
| `Msfs.RewriteKeeps` | integration/adrenaline-v7/overlay/user/msfs.c:184-266 | the rewrite keeps what the run wrote if and only if no nonempty write starts below the first one |
| `Msfs.BackwardsRun` | integration/adrenaline-v7/overlay/user/msfs.c:184-266 | a run whose last write the close replaces by old data |
| `Msfs.FirstWriteInside` | integration/adrenaline-v7/overlay/user/msfs.c:304-308 | the first nonempty write starts inside what the run leaves |
| `Flash0.SlotsDisjoint` | integration/adrenaline-v7/overlay/user/flashfs.c:80-98 | no two files share a byte of the name or buffer region |
| `Flash0.AddKeeps` | integration/adrenaline-v7/overlay/user/flashfs.c:80-98 | adding a file completes the package for one more and damages none before |
| `Flash0.FollowedBack` | integration/adrenaline-v7/overlay/user/flashfs.c:160-171 | following a header's pointers gives back exactly name and bytes |
| `Flash0.HeaderStands` | integration/adrenaline-v7/overlay/user/flashfs.c:87-92 | the three words of every header: the addresses of name and bytes from 0x8B000000 on, and the size |
| `Flash0.List` | integration/adrenaline-v7/overlay/user/flashfs.c:162-173 | the header loop lists exactly the files of the package |
| `Flash0.MergeFinds` | integration/adrenaline-v7/overlay/user/flashfs.c:131-144 | the files taken stand in the package in order, one per name |
| `Flash0.MergeLongest` | integration/adrenaline-v7/overlay/user/flashfs.c:131-144 | no longer prefix of the names stands in the package in order |
| `Flash0.Builder.AddFile` | integration/adrenaline-v7/overlay/user/flashfs.c:80-98 | the three stores and bumps produce the package with one file more |
| `Flash0.Builder.AddNamed` | integration/adrenaline-v7/overlay/user/flashfs.c:131-144 | one round moves the cursor to the next file of that name, adds it, and never goes back |
| `Flash0.Builder.Build` | integration/adrenaline-v7/overlay/user/flashfs.c:120-144 | the package holds the custom files and then the merge of the names |
| `Format.DigitsSpell` | src/vita/common/minilibc.c:156-159 | the digits spell the number without a leading zero |
| `Format.DigitsUnique` | src/vita/common/minilibc.c:156-159 | no other string of digits does |
| `Format.DecimalReads` | src/vita/common/minilibc.c:139-166 | a decimal fills its width, starts with the sign, and its last digits spell the magnitude, for the minimum too |
| `Format.DecimalShown` | src/vita/common/minilibc.c:185-203 | a width with a leading zero pads with zeros between sign and digits, any other with blanks |
| `Format.OthersShown` | src/vita/common/minilibc.c:180-205 | the other conversions |
| `Format.ParseSpelledAll` | src/vita/common/minilibc.c:175-205 | every list of directives has a format string that is read back as that list |
| `Format.CollectDigits` | src/vita/common/minilibc.c:145-159 | eleven characters suffice and hold the digits from the last to the first |
| `Format.FormatOutput.EmitCharacter` | src/vita/common/minilibc.c:128-132 | one character more is rendered; the buffer shows what is kept of it |
| `Format.FormatOutput.EmitDecimal` | src/vita/common/minilibc.c:139-166 | every 32-bit value is rendered as sign, padding and digits |
| `Format.ReadConversion` | src/vita/common/minilibc.c:185-194 | flag and 32-bit width are those of the directive at that place |
| `Format.FormatOutput.EmitNext` | src/vita/common/minilibc.c:175-205 | one round renders one directive and takes its argument |
| `Format.Snprintf` | src/vita/common/minilibc.c:168-230 | the result is the length of the full rendering; the buffer holds its first min(length, capacity - 1) characters and a terminator, and is otherwise untouched |
| `Format.BoundedIs` | src/vita/common/minilibc.c:206-212 | character by character what is in the buffer |

## Left out

- Lz4Compress.CompressFast: capacities below 0 are not modelled, and an acceleration of 2^26 or more, for which the search counter would wrap, is excluded. From 134665 bytes on, a limited destination must hold `StoreLimit` bytes, which can be more than the capacity: the room asked for before a match length counts a byte per 256 and the field takes one per 255, so that such inputs can make the source store past the capacity (`Lz4Compress.StorePast`).
- Lz4Stretch.SearchedRun: of accelerations above 32767, whose steps may exceed the distance of a match, nothing is claimed.
- Lz4Compress.CompressGeneric: the table is a fresh one; contexts that are used again, dictionaries and the size-driven entry points are never called by the repository.
- Lz4Decode.DecompressSafe: two readable bytes behind the input, or an input on which the shortcut never lands on the end (`Overreads`), are required, because the source then reads a token and one length byte there before it refuses the input. An input on which the end of a match wraps past the top of the address space (`Wraps`) is excluded, and what the source does with it is not described. Buffers lie outside the first 64 KiB and the last 32 bytes of the address space.
- Lz4Decode.DecompressFast: only well-formed blocks for data of the given size; the source makes no promise for others. References to the 64 KiB before the output cannot occur in them.
- LZ4 streaming, dictionary, partial and deprecated entry points: unused by the repository.
- SaveState.Device.SaveState: the screenshot is whatever the temporary file holds. Thread handling, the cut of the title and cache writeback are not modelled.
- SaveState.Device.LoadState: hands the descriptor table back; closing and reopening the host files of that table is not modelled. Of loading a file that is the state of no machine nothing is claimed.
- SaveState.Device.ListState: one file of at least the size of a header; the folder listing, the numbers in file names, file size and time are left out.
- BtcnfEdit.InsertModule: claims need an image whose name pool directly follows the module table and has room behind it, as the code does not check either.
- BtcnfParse.Parse: of int(s, 16) only ASCII digits, and of upper() only ASCII letters; any other letter ends in the unknown-runlevel error in both. Reading and writing files, with their decoding errors, is left out.
- BtcnfExtract.RoundTrip: for ASCII paths without spaces and zero bytes that start with a slash; others do not survive the text form.
- Iso directories of more than 8 sectors: the sliding window reads sectors past the directory, so the entries of the directory do not describe it.
- IsoDriver.Driver.FindFile: identifiers of exactly 32 bytes that no ";1" and no zero byte ends, which fill the name buffer, failing device reads and sector numbers of 2^31 and more are excluded.
- IsoDriver.Driver.Read: needs a file pointer that is not negative, a file size and sums below 2^31 and a device whose reads succeed; lseek, which may leave the pointer negative, is not modelled.
- IsoDriver.Driver.Open: starts from a path and a name that are already split; the root itself, access by sector number and the flag test are left out, as is getstat.
- MsfsFilter.FilterExactly: of names that contain a star only soundness is proved (`MsfsDir.AcceptsSound`), and that a star in a name can make a filter refuse it (`MsfsFilter.StarInName`).
- MsfsDir.Directory.Dread: the attributes of an entry and the long file name copy are left out; host errors are in `MsfsErrors`, by the answers of the host, without the descriptor.
- Msfs.File.Run: descriptors opened with truncation or for appending are excluded, since reopening them would truncate or move; host errors other than device loss and an invalid handle are left out, and runs whose seeks the shadow offset does not follow.
- Msfs.TruncatedFile.TruncateFix: where the set-aside file is shorter than the first write, what the reused buffer holds is written and nothing is claimed of it.
- Msfs.TruncatedFile.constructor: rename and creation of the empty file are parameters; the case in which the rename succeeds and the file cannot be created is left out.
- Msfs.TruncatedFile.Close: a close of the host file fails only for an invalid descriptor; that the device is gone there is no failure in the source either.
- The descriptor table with its 32-bit handles, path building, rename, mkdir, remove and the other one-line host calls: they would only add easy members.
- Flash0.Builder.Build: needs files that fit the three regions, which the code does not check; the two copies of the finished package, the cache writeback and the patched file numbers are left out.
- Format.Snprintf: a rendering of 2^32 characters or more, and arguments that do not match their conversions, are excluded; so are the string functions in the same file.
- Menus, drawing, pad handling, kernel hooks, instruction patching, module start code and the build scripts: user interface, foreign calls and machine constants.
