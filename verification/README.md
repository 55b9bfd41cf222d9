# DB-REbuilder, verified in Dafny

DB-REbuilder is a console payload that puts missing applications back on the main menu. This project models the
parts of it where bytes and tables have to come out exactly right, and proves what they promise:

- **`ElfLoader`**: the loader in front of the raw payload. It decodes the ELF tables from the file's bytes, finds the
  address span, copies the PT_LOAD segments into a zeroed mapping and applies the R_X86_64_RELATIVE relocations.
  Segment contents follow chapter 5 of the System V gABI ("Program Header"), relocations section 4.4.1 of the
  System V AMD64 psABI.
- **`MemVfs`**: the in-memory file that holds the database: an abstract file, the history of its bytes, and the
  growable buffer (`MemFile`) that refines it call by call.
- **`Pkg`** and **`Sfo`**: finding `param.sfo` in a PKG, decoding it, the doubling parameter store and its lookup.
- **`Tables`** and **`Rebuild`**: the database rebuild. `Tables` holds the browse tables and `tbl_appinfo` and everything
  that follows from the order of checks and inserts; `Rebuild` computes from its files, parsed by `Sfo`, what each
  directory contributes, and has the loops; `Written` says the same in terms of what the writer of a `param.sfo` put in.
- **`Paths`**: `mkdirs`, in its scratch buffer, and `copy_file`.
- **`Bytes`** and **`Wrappers`**: little-endian words, range copies, tables of parts, options.

Methods follow the C functions, with the arrays and fields those change; each is proved against a function of its
inputs or of the old state, and the theorems are about those functions. `dafny verify dfyconfig.toml` checks everything.
Every lemma carries `{:induction false}`: the proofs are the written ones.

## Main results

- *Rebase.* Loading one file at two bases gives images that differ only in relocation slots. Every slot's word moves by
  exactly the difference of the bases, for all bases, if and only if no slot is torn by a later, partly overlapping one
  (`RebaseTheorem`). Disjoint slots are never torn.
- *Span and containment.* The masked span covers all headers if and only if nothing wraps around 2^64, and is then the
  least page-aligned one. The code adds `p_vaddr` to the mapping without subtracting the rounded minimum; the lemmas say
  when that is sound (`Containment`) and that it is needed (`BaseZeroIsNeeded`).
- *Byte history.* In every reachable state of the in-memory file, each byte has one origin: the last successful write
  over it since the size was last at most its index, else a zero hole, else the opening content.
- *SFO round trip.* The parser gives back exactly what any writer of the format put in, for all NUL-free keys that fit.
- *Rebuild idempotence, exactly.* A second rebuild over the same entries, in any order, changes nothing if and only if
  the tables refuse duplicate titles or every missing title has for TITLE_ID what its directory is looked for as
  (`SecondRebuildExactly`). That is the directory name, when it has no apostrophe (`LiteralIsName`). The premise is that
  each name, pasted between apostrophes, is a string literal or breaks the statement (`NamesPaste`).
- *Rebuild confluence.* When the titles that some table misses are named so, neither the directory order nor the table
  order matters (`RebuildOrderIsIrrelevant`), because a run has a closed form.
- *Rebuild completeness.* When a rebuild is over, each of the 89 keys that has a value for an added title is there, with
  its earlier value or the value computed for that very key (`AddedTitleIsComplete`). The row and each key are traced
  back to the list the writer of the title's `param.sfo` put in (`WrittenRow`, `WrittenInt`, `WrittenText`).

## Where the code differs from what one might expect

- `mmap` in the loader returns minus the error number, but the check compares with MAP_FAILED, which is -1: a failure is
  recognised exactly when its number is 1 (`FailureSeenExactly`).
- `sqlite3_memvfs_dump` returns SQLITE_OK without looking at `fwrite`: the output is always a prefix of the file, and is
  the file exactly when the stream takes that much (`MemFile.Dump`).
- `memTruncate` may extend a file, but never reallocates: it is refused past the capacity.
- `sfo_read` does not check `strdup`: a parameter can be stored without a key. It is then never found.
- The rebuild tests for a directory's name but inserts the SFO's TITLE_ID. A directory with another TITLE_ID gets its
  row again (`OtherTitleRepeats`).
- The test pastes the name with `'%s'`, so `AB''CDEFG` is looked for as `AB'CDEFG`, while the insert quotes the TITLE_ID.
  Such a directory gets its row again although its TITLE_ID is its name (`ApostrophesRepeat`), and the metadata paths of
  its row and of `tbl_appinfo` differ (`RowAgreesWithInfo`). One unpaired apostrophe breaks both statements, and the
  title is never added.

## Model

| member | source | states |
|---|---|---|
| ElfLoader.EhdrLayout | src/bootstrap-bin.c:30-45 | for a file starting with the header struct, the offsets used by the model are where e_entry, e_phoff, e_shoff, e_phnum and e_shnum lie |
| ElfLoader.PhdrsLayout | src/bootstrap-bin.c:129-151 | program header i is the struct at e_phoff + 56 * i, and there are e_phnum of them |
| ElfLoader.ShdrsLayout | src/bootstrap-bin.c:130-181 | section header i is the struct at e_shoff + 64 * i, and there are e_shnum of them |
| ElfLoader.RelasLayout | src/bootstrap-bin.c:178-185 | the entries of the sections of type 4, one per 24 bytes, come one after the other, each the struct at its section's offset + 24 * m |
| ElfLoader.PhdrLayout | src/bootstrap-bin.c:47-56 | a decoded program header holds the fields of the C struct at that place |
| ElfLoader.ShdrLayout | src/bootstrap-bin.c:58-69 | the same for section headers |
| ElfLoader.RelaLayout | src/bootstrap-bin.c:71-75 | the same for relocation entries |
| ElfLoader.MaskIsTruncation | src/bootstrap-bin.c:22-24 | the page mask, on 64-bit vectors, subtracts the remainder by the page size |
| ElfLoader.PagesAre | src/bootstrap-bin.c:22-24 | rounding down and up to multiples of 0x4000, with the wrap of the 64-bit addition |
| ElfLoader.ScanSpan | src/bootstrap-bin.c:143-156 | the scan loop returns the rounded minimum address and the 64-bit size of the rounded span of the headers |
| ElfLoader.SpanCoversExactly | src/bootstrap-bin.c:143-156 | the rounded span covers every header if and only if no header's end, rounded up, wraps around 2^64 |
| ElfLoader.SpanIsLeast | src/bootstrap-bin.c:143-156 | without wrap it is the least page-aligned interval covering all headers, less than two pages larger than the tight one |
| ElfLoader.CopySegments | src/bootstrap-bin.c:165-175 | the in-place loop turns the buffer into the old buffer with all non-empty PT_LOAD ranges copied in order |
| ElfLoader.RelocateSection | src/bootstrap-bin.c:183-190 | the inner loop applies exactly the R_X86_64_RELATIVE entries of one section, in order |
| ElfLoader.ApplyRelocations | src/bootstrap-bin.c:177-191 | the outer loop applies the entries of all SHT_RELA sections, in file order, and nothing else |
| ElfLoader.LoadedByte | src/bootstrap-bin.c:165-191 | each image byte comes from the last relocation over it, else the last non-empty PT_LOAD copy over it, else it is 0 |
| ElfLoader.SlotIs | src/bootstrap-bin.c:183-190 | the slot of an entry of type 8 that no later one touches holds base + addend modulo 2^64 |
| ElfLoader.SegmentByteIs | src/bootstrap-bin.c:165-175 | a byte outside the slots is the file's, at p_offset + (k - p_vaddr) of the last header of type 1 over it with bytes in memory and file |
| ElfLoader.OtherByteIs | src/bootstrap-bin.c:158-175 | a byte outside slots and headers is zero |
| ElfLoader.MemoryTailIsZero | src/bootstrap-bin.c:165-175 | the p_memsz tail past p_filesz is zero unless something else covers it |
| ElfLoader.RelocationIsIdempotent | src/bootstrap-bin.c:183-190 | applying the entries a second time changes nothing, overlaps included |
| ElfLoader.RepeatedHeaderIsHarmless | src/bootstrap-bin.c:178-191 | reaching one table through two section headers in a row gives the same image as reaching it once |
| ElfLoader.RelocationOrderIsIrrelevant | src/bootstrap-bin.c:178-191 | with disjoint slots any order of the same entries gives the same image |
| ElfLoader.RebasesExactly | src/bootstrap-bin.c:185-189 | every slot's word moves by b2 - b1 modulo 2^64 for all bases if and only if no slot is torn |
| ElfLoader.OverlapTears | src/bootstrap-bin.c:185-189 | the smallest failure: a slot that the next entry overlaps halfway is torn and does not rebase |
| ElfLoader.RebaseTheorem | src/bootstrap-bin.c:158-191 | loads at two bases agree outside the slots, and the slots move with the base exactly when none is torn |
| ElfLoader.DisjointIsNotTorn | src/bootstrap-bin.c:185-189 | disjoint slots are never torn |
| ElfLoader.Containment | src/bootstrap-bin.c:144-188 | with a header in page 0, file sizes within memory sizes and slots inside headers, the rounded minimum is 0 and every write of both passes stays in the mapping |
| ElfLoader.BaseZeroIsNeeded | src/bootstrap-bin.c:154-171 | if a copy ends in the last page of the span, all copies stay in the mapping exactly when the rounded minimum is 0 |
| ElfLoader.FailureSeenExactly | src/bootstrap-bin.c:112-163 | a failed mmap is recognised exactly when its error number is 1 |
| ElfLoader.PayloadExec | src/bootstrap-bin.c:126-197 | loads nothing exactly for a file without the ELF magic or a mapping failure with error number 1; any other failure goes on without a mapping, at minus the error number; otherwise the mapping holds the image for its own address and the entry is base + e_entry |
| MemVfs.MemFile.Open | src/memvfs.c:250-269 | which parameters are refused, that sz falls back to 0 and max to sz, and the abstract file an accepted open starts from |
| MemVfs.MemFile.Extend | src/memvfs.c:145-154 | growth keeps the old bytes, fills the hole before the write with zeros, and leaves everything alone when realloc fails |
| MemVfs.MemFile.Write | src/memvfs.c:138-157 | refines the abstract write; fails exactly when it needs room and realloc fails, and then changes nothing; moves the buffer only on growth |
| MemVfs.MemFile.Truncate | src/memvfs.c:159-167 | refines cutting and zero-extending; refused exactly past the capacity |
| MemVfs.MemFile.Read | src/memvfs.c:127-136 | a read within the allocation stores the bytes there: inside the file exactly those of the content, past its end, unchecked, what the buffer holds |
| MemVfs.MemFile.Size | src/memvfs.c:173-177 | the size is the length of the abstract content |
| MemVfs.MemFile.Fetch | src/memvfs.c:235-244 | the pointer is into the buffer of the current generation, and shows the content from the offset on |
| MemVfs.MemFile.Dump | src/memvfs.c:371-392 | the output is a prefix of the content, the whole of it exactly when the stream takes it |
| MemVfs.OriginOf | src/memvfs.c:145-163 | every byte in range has an origin: the last write over it, a hole, or the opening content, described by the calls and sizes alone |
| MemVfs.OriginIsUnique | src/memvfs.c:145-163 | and no other origin fits it |
| MemVfs.ByteHistory | src/memvfs.c:138-167 | after any run, each byte is the one its origin says |
| MemVfs.ReachableByte | src/memvfs.c:138-167 | the same for the buffer of any valid file object, and its content is that of the abstract run |
| MemVfs.CutBytesNeverReappear | src/memvfs.c:159-167 | a byte that was past the end at some call, and that no later write covered, is zero in the buffer once it is inside the file again |
| MemVfs.PastSizeIsForgotten | src/memvfs.c:138-167 | what lies past a size is decided by the calls alone: files that differ only in content agree on every byte past that size after the same calls |
| MemVfs.CapacityLaw | src/memvfs.c:145-162 | size within capacity, which is the maximum of its opening value and the ends of successful writes |
| MemVfs.ReachableCapacity | src/memvfs.c:145-166 | the same for szMax of any valid object, and a truncate is accepted exactly within it |
| MemVfs.IdentityExactly | src/memvfs.c:146-151 | between two moments of a run the buffer keeps its identity exactly when no successful write in between ends past the capacity of its moment |
| MemVfs.FetchedViewIsCoherent | src/memvfs.c:235-244 | the buffer that Fetch handed out at any earlier moment of an object's life is still its buffer, and shows the abstract file, when no call since has grown it |
| Pkg.SwapMasks | src/sfo.c:15-19 | the macro's masks and shifts, on 32-bit vectors, are the quotients and remainders used by the model |
| Pkg.SwapReadsBigEndian | src/sfo.c:15-19 | SWAP32 after a native read is a big-endian read |
| Pkg.SwapIsInvolution | src/sfo.c:15-19 | SWAP32 undoes itself |
| Pkg.RawIdentifier | src/sfo.c:110 | the raw comparison with 1048576 tests the big-endian identifier 0x1000 |
| Pkg.Extracted | src/sfo.c:96-131 | what a PKG file yields: the complete, non-empty range of the first readable entry with that identifier, or nothing |
| Pkg.PackedIsExtracted | src/sfo.c:75-131 | in the file's own bytes: behind 7F 'C' 'N' 'T' and big-endian count and table offset, the range that the first entry with identifier 00 00 10 00 gives at 16 and 20 is extracted, if it is not empty and all there |
| Pkg.NothingIsExtracted | src/sfo.c:75-135 | nothing is extracted without that magic number or such an entry |
| Pkg.ReadHeader | src/sfo.c:75-97 | magic, count and table offset are read exactly when the file has them |
| Pkg.ScanTable | src/sfo.c:105-135 | the cursor loop finds that entry and returns its range, or fails |
| Pkg.ReadSfoFromPkg | src/sfo.c:64-136 | the whole extraction yields exactly that |
| Sfo.RoundTrip | src/sfo.c:198-229 | decoding a serialized list gives back exactly that list, for any padding and trailing bytes |
| Sfo.HeaderLayout | src/sfo.c:193-202 | an SFO begins with 00 'P' 'S' 'F' and has its number of entries at 16 |
| Sfo.EntryLayout | src/sfo.c:204-222 | format, length and maximal length of entry i, in the bytes of the index |
| Sfo.TablesLayout | src/sfo.c:218-228 | key and value of entry i, in the bytes of the tables the header points to |
| Sfo.TakenIs | src/sfo.c:217-228 | an entry is stored as it is, without its key exactly when the copy of that failed |
| Sfo.ReadsBack | src/sfo.c:173-236 | what sfo_read appends for a serialized file is the list written, when its keys could be copied |
| Sfo.SfoContext.Reserve | src/sfo.c:207-215 | doubling keeps all parameters in order, and fails only with realloc |
| Sfo.SfoContext.ReadEntries | src/sfo.c:202-229 | the decoded entries are appended up to the first that does not find memory, and success is reported exactly when each found it: for its value, and for room when the store was full |
| Sfo.AmortisedGrowth | src/sfo.c:144-214 | capacity is the least 64 * 2^k that holds the demand, and all reallocations moved fewer than twice as many elements |
| Sfo.SfoAlloc | src/sfo.c:138-153 | a fresh, empty context exactly when both allocations succeed |
| Sfo.SfoRead | src/sfo.c:173-236 | what is appended and returned for missing arguments, unreadable, foreign and proper files, direct or inside a PKG |
| Sfo.PkgIsOpened | src/sfo.c:183-187 | a path with something before the ending .pkg, in any mixture of cases, is read as a PKG |
| Sfo.OtherIsRead | src/sfo.c:188-191 | any other path is read as an SFO itself |
| Sfo.FirstMatch | src/sfo.c:243-249 | a value is found exactly when some parameter has the key, and it is that of the first one |
| Sfo.LookupIsStable | src/sfo.c:217-249 | appending parameters never changes the answer for a key already present |
| Sfo.GetParamValue | src/sfo.c:238-250 | the search loop returns the first match, or nothing |
| Tables.PutGroupsGet | src/sqlite_db.c:67-100 | after insert-or-ignore of a title's attributes each key holds its earlier value, else the first one listed |
| Tables.RowsAreKept | src/sqlite_db.c:118-262 | a pass keeps all rows and grows the table by exactly the number of titles added |
| Tables.InfoIsKept | src/sqlite_db.c:67-100 | no value in tbl_appinfo is altered or removed by the rest of a pass |
| Tables.RunKeepsAll | src/sqlite_db.c:296-302 | from any moment of a run on, no row and no value is altered or removed |
| Tables.AddedIsComplete | src/sqlite_db.c:182-261 | every title added ends with each of its keys, earlier value first |
| Tables.RunIsComplete | src/sqlite_db.c:182-302 | the same when the whole run is over, for a title added in any table's turn |
| Tables.SecondPassExactly | src/sqlite_db.c:118-188 | a second pass over the same entries, in any order, adds nothing if and only if duplicates are refused or all missing titles are honest |
| Tables.DishonestTitleRepeats | src/sqlite_db.c:124-188 | one directory with another TITLE_ID gets its row a second time |
| Tables.RebuildTwiceExactly | src/sqlite_db.c:296-302 | the same equivalence for the whole database and all tables, in any order of tables and entries |
| Tables.LaterRunChangesNothing | src/sqlite_db.c:118-302 | under that condition any later run over the same entries, in any order, repeated or partial, leaves the database identical |
| Tables.PassRows | src/sqlite_db.c:118-262 | closed form of a pass: the rows of the titles missing at the start, whatever their order |
| Tables.PassInfo | src/sqlite_db.c:190-257 | closed form for tbl_appinfo: the attributes of those titles fill the gaps |
| Tables.RunRows | src/sqlite_db.c:296-302 | with each table visited once, its rows come from its own pass alone |
| Tables.RunInfo | src/sqlite_db.c:296-302 | closed form of a run for tbl_appinfo: the titles missing from some table fill the gaps |
| Tables.RebuildIsConfluent | src/sqlite_db.c:118-302 | any order of tables and entries gives the same database |
| Rebuild.ReadApp | src/sqlite_db.c:133-162 | reads a title's param.sfo through sfo_alloc and sfo_read, whatever allocations fail: which directories are skipped, and what is taken from the others |
| Rebuild.LiteralIsName | src/sqlite_db.c:123-124 | the check, which pastes the directory name between apostrophes, looks for that very name exactly when it has no apostrophe |
| Written.WrittenValueIsUsed | src/sqlite_db.c:141-152 | when param.sfo is what a writer made of a parameter list and memory suffices, a key's value is the first one written under it |
| Written.WrittenTitleIsEligible | src/sqlite_db.c:120-188 | and the directory is added exactly when it has an app.pkg, a nine-character name without an unpaired apostrophe and the four fields in that list |
| Written.WrittenRow | src/sqlite_db.c:149-181 | each column of its row in terms of the strings written under TITLE, TITLE_ID, CONTENT_ID and CATEGORY, of the name and the size of app.pkg; gp becomes gd, and gde makes an app |
| Written.WrittenInt | src/sqlite_db.c:95-100 | each of the 14 integer keys gets the number, least significant byte first, that its first written value begins with |
| Written.MissingInt | src/sqlite_db.c:97-98 | or 0 when nothing was written under it |
| Written.WrittenText | src/sqlite_db.c:196-230 | each of the 48 text keys, APP_VER and its like, the seven pairs with a counter and TITLE_00 to TITLE_29, gets the string first written under it |
| Written.MissingText | src/sqlite_db.c:89-92 | or nothing when nothing was written under it |
| Written.PathsAndSize | src/sqlite_db.c:231-237 | the two paths and the size among the attributes |
| Written.FixedNumber | src/sqlite_db.c:238-254 | the seventeen integer constants, key by key |
| Written.FixedTime | src/sqlite_db.c:255-257 | the three constant times |
| Rebuild.RowAgreesWithInfo | src/sqlite_db.c:166-194 | title, TITLE_ID, category, CONTENT_ID and size offered to tbl_appinfo are those of the row, and so is the metadata path exactly when the name is pasted unchanged |
| Rebuild.KeyIsGiven | src/sqlite_db.c:190-257 | each of the 89 keys is given exactly the value computed for it, an optional one that the SFO lacks none, because no two attributes of a title have the same key |
| Rebuild.TitleIsComplete | src/sqlite_db.c:182-261 | every key with a value of a title that a pass adds is there afterwards, with its earlier value if it had one, otherwise the value computed for that key |
| Rebuild.AddedTitleIsComplete | src/sqlite_db.c:118-302 | for a directory that gets a row in any table's turn: when the whole rebuild is over every key with a value is there, with the value it had before that turn or the one its app.pkg and param.sfo give |
| Rebuild.AppDb.InsertAttributes | src/sqlite_db.c:190-257 | all inserts after the row amount to insert-or-ignore of the title's attribute groups |
| Rebuild.AppDb.Select | src/sqlite_db.c:123-131 | the check finds a row with the titleId the pasted name stands for, and nothing when the name breaks the statement |
| Rebuild.AppDb.RebuildEntry | src/sqlite_db.c:118-262 | one loop round: the row and attributes appear exactly when the entry is eligible, absent and not refused; pasted names are literals or break both statements |
| Rebuild.AppDb.RebuildAppbrowseTable | src/sqlite_db.c:102-267 | the table loop performs one pass, counts the titles added, and does nothing when the directory does not open |
| Rebuild.AppDb.RebuildTables | src/sqlite_db.c:296-302 | the loop over the tables ends in the run of all visits, in order, and reports whether every directory opened; a failed table does not stop it |
| Rebuild.AppDb.AppdbRebuild | src/sqlite_db.c:269-312 | the run over all tables, and when it reports success |
| Rebuild.SecondRebuildExactly | src/sqlite_db.c:118-302 | a second full rebuild over unchanged files, in any order, leaves the database identical if and only if duplicates are refused or every missing title has for TITLE_ID what its directory is looked for as |
| Written.RepeatsExactly | src/sqlite_db.c:123-188 | for one directory of any name and TITLE_ID and an empty table that accepts duplicates, the second rebuild changes the database exactly when the TITLE_ID is not what the name is looked for as |
| Written.OtherTitleRepeats | src/sqlite_db.c:123-188 | a directory with another title's TITLE_ID gets its row again |
| Written.ApostrophesRepeat | src/sqlite_db.c:123-188 | so does a directory with two adjacent apostrophes in its name, although its TITLE_ID equals the name |
| Rebuild.LaterRebuildChangesNothing | src/sqlite_db.c:118-302 | under that condition no later rebuild over unchanged files changes anything, whatever order and part of the entries it reads |
| Rebuild.RebuildOrderIsIrrelevant | src/sqlite_db.c:118-302 | any order of the directory and of the tables gives the same database, when every title that some table misses has for TITLE_ID what its directory is looked for as |
| Paths.ParentIsReady | src/util.c:106-119 | at each cut, the parent of the directory the cut path names exists if the earlier cuts exist, empty components included |
| Paths.PlainName | src/util.c:113-115 | a path without empty components names itself |
| Paths.DoubleSlash | src/util.c:113-115 | two adjacent slashes in a path name what one does |
| Paths.TrailingSlash | src/util.c:113-115 | and a trailing slash names nothing |
| Paths.WalkSucceedsExactly | src/util.c:106-126 | success exactly when no missing prefix is denied, and then every prefix exists |
| Paths.SecondWalkMakesNothing | src/util.c:106-126 | a second call creates nothing and succeeds |
| Paths.CutAndMake | src/util.c:111-121 | one cut in the buffer checks or makes exactly the prefix before it and puts the character back |
| Paths.NextCut | src/util.c:108-109 | the inner loop stops at the next cut |
| Paths.Mkdirs | src/util.c:85-127 | the buffer walk has the outcome of the abstract one, and issues each mkdir only after the parent exists |
| Paths.ParentsAreMade | src/util.c:91-126 | of the path, cut to 511 characters, the part before its last slash counts, or all of it without one: with success the directories of all its prefixes exist, and no other is ever made |
| Paths.CopyFile | src/util.c:217-266 | the output is always a prefix of the input, and success is reported exactly when it is all of it |

## Left out

- PayloadExec: what the copies do after a mapping failure that the code does not recognise, because there is then no mapping to describe; the jump to the entry point and munmap are machine-level.
- Malformed ELF and SFO files: neither parser checks its offsets, so their lying inside the file is a precondition.
- MemVfs.MemFile.Read: reads past the end of the allocation, which the code does not check either, and which C does not define.
- MemVfs.MemFile.Write: realloc is modelled as always moving the buffer when it grows; an implementation that grows in place only keeps more views alive.
- memClose, sync, locking, shared memory, Dl*, randomness, time, file control and registration in src/memvfs.c: constants or calls into an unseen VFS.
- sfo_free: nothing is released.
- Pkg.Stream: reads and seeks on an existing file do not fail by themselves; a short file is the only reason for a short read.
- Rebuild.ReadApp: a string value without NUL is read to its end and an integer value shorter than four bytes counts as 0, where the code reads past the value.
- Rebuild.ReadParams: a param.sfo is well-formed or no SFO, and has at most 2^30 entries. The memory granted to a title is the same in every table's turn and every rebuild.
- Rebuild.NamesPaste: a directory name with an unpaired apostrophe that, pasted, makes some other statement SQLite compiles, like `x'OR'yzab`. Its SQL is not described; every other name is a literal or breaks both statements.
- SQL otherwise: the quoting of values with `%Q`, table names with other than identifier characters, statement handles, journal mode, page format and error codes other than those of a broken statement and of a refused duplicate title. Insert, insert-or-ignore and select act on multisets and maps; tbl_appinfo has the key (titleId, key), as INSERT OR IGNORE presupposes. Whether a browse table refuses a second row with a titleId is not in the repository, so both schemas are covered.
- The choice of the tables from sqlite_master: the tables are an input.
- The columns of a browse row that are the same constant for every title.
- Paths.CopyFile: read errors and the durability of fwrite; a short read means end of file. write_buffer and the opening of the files are not modelled.
- Paths.Name: `.`, `..` and links are components like any other; that mkdir and the existence test see through empty components and a trailing slash is part of the model.
- addcont_dlc_rebuild: the same pattern as the rebuild with less state.
- Notifications, logging, the installer's file writing, the Python sender and the build scripts: input, output and user interface.
