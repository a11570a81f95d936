# Verification of the kernel-code reuse pipeline

The repository builds user-space DSOs whose text and read-only pages are later replaced, in the page cache, by live
kernel pages. This project models the parts of the pipeline on which its correctness rests and proves what each of them
promises, for all inputs. `dafny verify dfyconfig.toml` checks everything.

The chain, from the kernel image to a user's read:

- **Dependency graph** (`kernel_cgd/src/krg.cpp`): `KrgIndex` (function extents, alias groups, binary search),
  `KrgEdges` (edges shared by aliases), `KrgSafe` (SAFE pruning, renumbering, CSR), `KrgSave` (saving; closures
  survive), `KrgMeaning` (what is saved, over symbols and references alone), `KrgFile`, `KrgLoad`, `KrgRoundTrip` (the
  stored form, its writer and both readers), `KrgClosure` (the depth-first closure).
- **Admission** (`functions_checker.py`): `Checker`, the worklist engine, `CheckerVerdict`, what its exit code says
  about relocations, symbols and sections, `CheckerCoverage`, how much of the code a passing verdict covers; and **type
  closure** (`vkso_gen_types.py`): `BtfClosure`.
- **Sparse DSO** (`make_dll/build_PIC_so.py`): `Alignment`, `Regions`, `DsoSymbols`, `Layout`, `DsoBuilder`,
  `LayoutProperties` (placement of everything), `CoreLayout`, `Displacement` (module images and the data segment),
  `DynamicSymbols`, `GnuHashTable` (symbol, string, hash and relocation tables), `PageMappings` (the page map), `Graft`
  (what the page map makes of every address).
- **Replacing pages** (`manager.cpp`, `page_cache_replace.c`): `PageMapText`, `PageMapLoader` (the map as text, the
  plan, the batches), `PageCacheSpec`, `PageCacheSafety`, `PageCache` (the module's state machine and its code),
  `RestoreBatches` (restoring plans of any length), `Manager` (the commands).
- **The whole chain**: `Session` puts layout, page map, batches and page cache together: what a user reads at a DSO
  address is the kernel page of the translated address, and restoring brings the file back. `Deployment` runs all of it
  as one method, from the builder's symbols to the page cache and back.
- **Benchmark algorithms**: `Crc32`, `BchEcc`, `BchEncode`, `StringEscape`, with `Words` for machine words.

`Options`, `Powers`, `Sorting`, `Concatenation`, `CStrings` and `Reachability` are shared definitions.

Code that updates state step by step is modelled by classes and methods with loops over arrays and fields; each such
method is proved against a specification function or predicate, and the promises of the source are lemmas about these.

Some preconditions state what unseen code guarantees: `KrgSafe.Built.Typed` (calls lead from code to code and references
from code to data, as the passes that record them see to), `BchEncode.FromGenerator` (the encoder's tables come from a
generator polynomial), `KrgIndex.Placed` (sections that hold functions do not overlap, and functions start inside theirs
or, as end labels do, right behind it; sections without functions may lie anywhere), `Session.Resolves` (kernel pages
have page frames of their own), `Session.InRange` (the layout stays within 64 bits), `CheckerCoverage.Decoded` (a
disassembler returns instructions one behind the other) and `CoreLayout.WellFormed` (alignments are powers of two and no
core section is both writable and executable).

A comment at the writer of the dependency graph says that the header marks run-time addresses; the code leaves that word
zero, and so does the model.

Where a promise does not hold on all inputs, it is proved exactly when it does:

- Unloading the page-cache module leaves no kernel page behind if and only if at most 256 pages were grafted since it
  was loaded, because the backup array is append-only (`PageCacheSafety.UnloadRestores`). Restoring a plan takes all of
  it back if and only if the plan had no more pages than the array had room for (`Session.AllComesBack`); otherwise the
  pages behind that point keep showing the kernel (`Session.FileComesBack`).
- The page map cannot be built if and only if a page that is not synthetic is text and read-only data at once
  (`PageMappings.TwiceIsShared`); sparse segments overlap in memory if and only if some page, synthetic or not, is both
  (`LayoutProperties.SparseMemoryDisjoint`).
- Distances between relocated data slots and symbols are those of the kernel if and only if the module's core begins on
  a page, because the data address is rounded up to a page (`Displacement.DisplacementKept`). This is stated for symbols
  that have an address, and for modules where every function has one (`Displacement.Foreseeable`): a symbol without an
  address is given one near the text base, which the data address does not take into account.
- Function extents are separate, and the search in them right, if and only if no label at the end of a section shares
  its address with a longer function of the next section (`KrgIndex.ExtentsSeparate`); behind such a label the answer
  depends on how the sort orders equal starts (`KrgIndex.BehindLabel`, `KrgIndex.SortDecides`).
- A passing verdict excludes absolute relocations but for those behind another relocation of the same instruction
  (`Checker.AbsoluteFree`); it speaks for all functions that the code can jump to if and only if conditional jumps of
  visited functions lead to visited functions (`CheckerCoverage.PassVisitsAll`); and it has looked at all bytes of a
  function if and only if the sizes of the decoded instructions add up to the function's
  (`CheckerCoverage.AllBytesLooked`). `Checker.BlindSpots` is one function that passes and has all three gaps.
- Escaped strings can be told apart if and only if no byte's escape can be read as copied characters
  (`StringEscape.InjectiveExactly`).
- Loading ECC words after storing them gives them back if and only if no bits were dropped (`BchEcc.LoadAfterStore`).
- A loaded graph answers every query if and only if no reachable row points outside its tables (`KrgRoundTrip.Query`),
  as none does in a graph that was saved.
- A request for a type adds exactly what it reaches along types that were not marked before, which is all it reaches
  when the marks were closed (`BtfClosure.MarkType`).

## Model

| member | source | states |
|---|---|---|
| `Graft.GraftTranslation` | make_dll/build_PIC_so.py:979-1008 | For every address of a text or read-only segment outside synthetic pages, the file page behind it is in the page map exactly once, and its kernel page plus the offset in the page is the address minus the text base plus the lowest text page |
| `Graft.SyntheticKept` | make_dll/build_PIC_so.py:999-1000 | A synthetic page is not in the map: no entry has its file page |
| `Graft.LeadsToTranslated` | make_dll/build_PIC_so.py:979-1008 | Whatever section an address is loaded from and whatever entry shows it, the kernel address it leads to is the same translation |
| `Graft.DistancesKept` | make_dll/build_PIC_so.py:1257-1267 | Two grafted addresses are as far apart as the kernel addresses they lead to |
| `Graft.SymbolReachesKernel` | make_dll/build_PIC_so.py:1052-1064 | The virtual address of each kept function and read-only object leads to its own kernel address |
| `Session.UserSeesKernel` | page_cache_replace/manager.cpp:464-511 | After layout, page map, batches and the module's work, the cache slot of the file page behind any non-synthetic address holds the page frame of the translated kernel page |
| `Session.PlanIsBuilders` | page_cache_replace/manager.cpp:299-404 | From the text the builder prints, the manager loads exactly the builder's list in its order, and every page of it lies in the file |
| `Session.FileComesBack` | page_cache_replace/manager.cpp:513-552 | After the restore batches for a plan of any length, the slots of its first pages are empty, as many as the backup array had room for, and the next access there reads the file; every page behind them still shows its kernel page |
| `Session.AllComesBack` | page_cache_replace/manager.cpp:513-552 | Restoring a plan leaves no kernel page with a slot, a reference or an owner if and only if the plan has no more pages than the backup array had room for |
| `Session.AfterRestore` | page_cache_replace/manager.cpp:624-671 | The restore batches of a plan empty exactly the slots, and clear exactly the records, of the pages that had a record, and keep the invariant |
| `Session.RecordsOfPlan` | page_cache_replace/page_cache_replace.c:475-498 | Page `k` of a replaced plan has a record if and only if fewer than 256 pages were grafted before it |
| `RestoreBatches.RestoresTogether` | page_cache_replace/manager.cpp:513-552 | Restore batches do together what their pages' records allow, wherever one batch ends and the next begins |
| `RestoreBatches.RestoredPrefix` | page_cache_replace/page_cache_replace.c:452-472 | One restore request empties the pages before the first one without a record, and nothing else |
| `RestoreBatches.RecordsMade` | page_cache_replace/page_cache_replace.c:475-498 | A replace request makes records for its pages in order while the array has room, and no others |
| `RestoreBatches.SendRestoreBatches` | page_cache_replace/manager.cpp:513-552 | Batches of 1 to 256 pages that together ask for the offsets in order, or for a beginning of them when a message is refused; success exactly when all messages are taken |
| `RestoreBatches.FillRestore` | page_cache_replace/manager.cpp:525-534 | A message asks for the pages from `start`, at most 256, with zeros behind them |
| `RestoreBatches.RestoreByPlan` | page_cache_replace/manager.cpp:624-671 | Success means that the whole plan was asked for; an empty plan fails |
| `Deployment.Deploy` | page_cache_replace/manager.cpp:733-798 | From the builder's symbols through layout, page map, its text, loading, checking and sending to the module: within 64 bits it succeeds if and only if there is a page to reuse, no kernel page is needed twice and the socket takes all messages, and then every address outside synthetic pages shows the kernel page of its translation; so for every kept function and read-only object each byte, from its address to its last, is in a sparse section and, outside synthetic pages, shows its kernel page |
| `Deployment.AllShown` | make_dll/build_PIC_so.py:1052-1074 | Every byte from the address of a kept symbol to its last is at its place in a sparse section, whose page shows the kernel page of that byte unless it is synthetic |
| `Deployment.Hold` | page_cache_replace/manager.cpp:825-842 | Deploying and then restoring by the same map leaves each page of the plan as its record allows, and no kernel page at all if and only if the plan fitted the backup array |
| `Deployment.Build` | make_dll/build_PIC_so.py:942-976 | The layout and the text of the complete page map; no text only when nothing is reused or a kernel page is needed twice |
| `Manager.ReplaceCommand` | page_cache_replace/manager.cpp:735-742 | Loads, checks and sends: success exactly when the plan loads, lies in the file, is not empty and all messages are taken; the module's state is that after the messages that were sent |
| `Manager.RestoreCommand` | page_cache_replace/manager.cpp:735-770 | The same for the restore command |
| `Manager.Send` | page_cache_replace/page_cache_replace.c:728-781 | The module's state after a row of replace messages |
| `Manager.SendRestores` | page_cache_replace/page_cache_replace.c:676-725 | The module's state after a row of restore messages |
| `Session.PlanCarriedOut` | page_cache_replace/page_cache_replace.c:401-449 | When all batches have been delivered, each page of the plan shows its kernel page |
| `Session.DeliveredTogether` | page_cache_replace/page_cache_replace.c:401-449 | A row of batches does what one request for all their pages would do |
| `Session.MappingPrintable` | make_dll/build_PIC_so.py:1010-1019 | Every mapping of a layout within 64 bits meets all conditions the manager checks, and its line fits the manager's buffer |
| `PageMappings.ReusablePageMappings` | make_dll/build_PIC_so.py:979-1008 | The list holds exactly the pages of all regions that are not synthetic, in ascending file order, no kernel page twice; a failure names a kernel page that is needed twice, never a file page |
| `PageMappings.KindOfPage` | make_dll/build_PIC_so.py:986-1000 | A mapping of kind text shows a page of a text region, one of kind rodata a page of a read-only region, under the name of the region |
| `PageMappings.TwiceIsShared` | make_dll/build_PIC_so.py:1001-1004 | A kernel page is needed twice if and only if it is text and read-only data at once and not synthetic |
| `PageMappings.NoneTwice` | make_dll/build_PIC_so.py:1003-1006 | Where a list is returned, no kernel page was needed twice |
| `PageMappings.SlotUnique` | make_dll/build_PIC_so.py:996-998 | No two pages of the sparse sections have the same file offset |
| `DsoBuilder.Builder.LayOut` | make_dll/build_PIC_so.py:942-947 | The steps of `write` that decide the layout: prepared symbols, regions that hold every byte of the kept symbols and no page besides theirs and those of extra ranges, and a complete placement of all sections |
| `DsoBuilder.Builder.PrepareSymbolVirtualAddresses` | make_dll/build_PIC_so.py:1021-1064 | Updates symbols, lowest text page and regions to what `IsPrepared` says; every byte of a kept function is in a text region, every byte of a kept read-only object in a read-only one, and regions hold no other page than theirs and those of extra ranges |
| `DsoBuilder.Builder.BuildContentSections` | make_dll/build_PIC_so.py:1127-1163 | One unplaced section per region and the fixed list of other sections with their alignments and sizes |
| `Layout.ContentSections` | make_dll/build_PIC_so.py:1127-1163 | Data first if it is included, then strings, symbols and hash table, relocations of 24 bytes each if there is data with relocations, and 16 bytes for every needed library and for ten entries more |
| `DsoBuilder.Builder.PlaceAllSparse` | make_dll/build_PIC_so.py:1247-1271 | Sparse sections follow each other in the file and lie in memory where their regions are; the end is the highest address used |
| `DsoBuilder.Builder.AssignOffsetsAndAddresses` | make_dll/build_PIC_so.py:1247-1314 | All sections are placed as `IsLaid` says: sparse, writable and unallocated, and the section headers behind them |
| `DsoBuilder.Builder.FinalizeDynamicSection` | make_dll/build_PIC_so.py:1334-1358 | The entries are the needed libraries, then fixed tags each telling the address or size of its section; they fit the reserved `.dynamic`, which is cut to their size |
| `DsoBuilder.Builder.LaterEntries` | make_dll/build_PIC_so.py:1338-1354 | The fixed tags in order, each telling the address or size of its section |
| `DsoBuilder.Builder.BuildProgramHeaders` | make_dll/build_PIC_so.py:1360-1380 | A readable and executable load entry per text section, a readable one per read-only section, the writable one and PT_DYNAMIC, each with the place of its section; an error exactly when a sparse address is negative; the entries end before the first section if and only if there are at most 70 regions |
| `DsoSymbols.Prepare` | make_dll/build_PIC_so.py:1021-1064 | Missing sizes and addresses are filled in, the lowest text page is that of the first text region, virtual addresses are shifted by it, regions hold exactly the touched pages, and each kept symbol is given the region that holds it; every byte from `address` to `address + size` of a kept function (read-only object) is in a text (read-only) region, and every address of a region shares a page with such bytes or with an extra range |
| `DsoSymbols.RegionsHoldBytes` | make_dll/build_PIC_so.py:1066-1094 | Regions built from the used ranges hold every byte of every kept symbol of the kind, and every address in them shares a page with the bytes of such a symbol, one at least, or with an extra range |
| `DsoSymbols.FillAddresses` | make_dll/build_PIC_so.py:1034-1039 | Sizes of zero become one stub; the symbols without address follow each other from the text base, each one stub behind the last |
| `DsoSymbols.LowPage` | make_dll/build_PIC_so.py:1041-1051 | The demanded page, or the page of the lowest function or extra range, or the page of the lowest symbol, or the text base |
| `DsoSymbols.FirstRegion` | make_dll/build_PIC_so.py:1044-1056 | The first region starts at the page of the lowest range that went into it |
| `DsoSymbols.Place` | make_dll/build_PIC_so.py:1052-1064 | Every kept symbol gets its virtual address and the name of a region that holds it; no symbol is without one |
| `Regions.BuildRegions` | make_dll/build_PIC_so.py:1066-1094 | Regions are whole pages, in order, apart from each other and named, a single one with the plain name and several with their numbers from 1, and an address is in one of them if and only if it is on a page that some symbol or extra range touches |
| `Regions.PagesTouched` | make_dll/build_PIC_so.py:1069-1079 | The aligned interval of a range holds exactly the pages the range touches, empty ranges counting as one byte |
| `Regions.Merge` | make_dll/build_PIC_so.py:1081-1085 | Merging keeps the covered addresses and leaves intervals that do not even touch |
| `Regions.NamesDistinct` | make_dll/build_PIC_so.py:1087-1093 | No two regions of a kind get the same name |
| `Regions.FindRegion` | make_dll/build_PIC_so.py:1103-1107 | A region that holds the address is found whenever there is one |
| `Alignment.AlignUpIsRounding` | make_dll/build_PIC_so.py:112-115 | For powers of two the bit trick gives the least multiple that is not below the value |
| `Alignment.AlignDownIsRounding` | make_dll/build_PIC_so.py:117-120 | For powers of two clearing the low bits takes away the remainder |
| `Layout.PlaceRow` | make_dll/build_PIC_so.py:1283-1293 | Sections of a row are at the next aligned offsets, and in memory all at one distance from them |
| `LayoutProperties.FileRangesDisjoint` | make_dll/build_PIC_so.py:1247-1314 | All sections lie one behind the other in the file, behind the page of headers and before the section header table |
| `LayoutProperties.SegmentsLoadable` | make_dll/build_PIC_so.py:1360-1376 | Every PT_LOAD entry has its offset congruent to its address modulo 0x1000 and no more bytes in the file than in memory |
| `LayoutProperties.DynamicIsLoaded` | make_dll/build_PIC_so.py:1372-1380 | The bytes that PT_DYNAMIC names are part of the writable segment and loaded at the address it names |
| `DsoBuilder.DynamicPlaced` | make_dll/build_PIC_so.py:1283-1304 | `.dynamic` ends the writable segment and keeps its full reservation |
| `LayoutProperties.SparseMemoryDisjoint` | make_dll/build_PIC_so.py:1250-1269 | The sparse segments are disjoint in memory if and only if no page is both text and read-only data |
| `LayoutProperties.LoadedRangesDisjoint` | make_dll/build_PIC_so.py:1247-1314 | Without a demanded address all loaded ranges, the writable one included, are disjoint if and only if no page is both text and read-only data |
| `CoreLayout.ComputeCoreLayout` | make_dll/build_PIC_so.py:535-639 | Groups, offsets, images and relocations as `IsCore` says, or a failure if and only if a read-only or writable section of the core with bytes in the file reaches beyond it, or a relocation section for writable data has entries not of 24 bytes or reaches beyond it |
| `CoreLayout.PlaceGroup` | make_dll/build_PIC_so.py:541-549 | Each section of a group is at the next offset of its alignment, earlier offsets are kept, and the cursor ends on the next page |
| `CoreLayout.BuildImage` | make_dll/build_PIC_so.py:567-595 | The image holds every section's bytes at its place and zeros elsewhere; otherwise the first truncated section is reported |
| `CoreLayout.CollectRelocs` | make_dll/build_PIC_so.py:597-633 | The relocations of data sections, in order, moved to their places in the data image, and no others; or the first section with wrong entry size or beyond the file |
| `CoreLayout.SectionsInOrder` | make_dll/build_PIC_so.py:541-565 | Core sections are aligned and lie text, read-only data, data, each in section order, without overlap, on page boundaries between groups |
| `CoreLayout.AreaOfSection` | make_dll/build_PIC_so.py:536-565 | Every core section is placed at an offset of its own alignment, executable ones in the text area, those neither executable nor writable behind it, writable ones last |
| `CoreLayout.ImageHoldsSection` | make_dll/build_PIC_so.py:567-595 | In an image a section is found byte for byte, and a NOBITS section as zeros |
| `Displacement.DisplacementKept` | make_dll/build_PIC_so.py:1542-1556 | For every relocation of the data image and every symbol with an address: the slot is as far from the symbol in the DSO as in the kernel, where its section lies in the module's core, if and only if the core begins on a page; otherwise it is farther by what is missing to the next page |
| `Displacement.DataAddress` | make_dll/build_PIC_so.py:1542-1543 | The data segment is loaded at its kernel distance from the lowest text page, or behind that by what the core's base lacks to a page |
| `Displacement.ComputeTextMinPage` | make_dll/build_PIC_so.py:1433-1437 | The page of the lowest function address, or of the lowest address when no function has one, or the text base |
| `Displacement.LowPagesAgree` | make_dll/build_PIC_so.py:1542-1543 | The page foreseen for the data address is the one the builder then uses, when functions are the module's own and have addresses, or there are none and every symbol has |
| `Displacement.DataFirst` | make_dll/build_PIC_so.py:1283-1293 | `.data` is at the very start of the writable segment |
| `Displacement.SlotInKernel` | make_dll/build_PIC_so.py:606-633 | A relocated slot of the image stands for the slot of its section in the module's core |
| `PageMapText.WritePageMap` | make_dll/build_PIC_so.py:1010-1019 | The heading and one line per mapping, or a failure for an empty list |
| `PageMapText.LineBack` | page_cache_replace/manager.cpp:312-390 | Each printed line is read as the mapping it was printed from, its kind as `text` or `rodata` |
| `PageMapText.NumberBack` | page_cache_replace/manager.cpp:277-297 | A number printed in hexadecimal is parsed back if it has no more than 64 bits, and refused otherwise |
| `PageMapText.DecimalBack` | page_cache_replace/manager.cpp:277-297 | So is a number printed in decimal; with a minus sign in front it is refused |
| `PageMapText.AcceptedExactly` | page_cache_replace/manager.cpp:312-390 | A line is accepted as an entry if and only if it is not empty nor a comment and consists of four fields between commas: a file offset and a kernel address, nonzero multiples of a page, the offset within 63 bits, a kind `text` or `rodata`, and a section name |
| `PageMapText.TrimExactly` | page_cache_replace/manager.cpp:262-275 | Blanks and tabs go at both ends of a text, and nothing else does |
| `PageMapText.CommentSkipped` | page_cache_replace/manager.cpp:315-318 | Lines that begin with a hash are skipped |
| `PageMapLoader.LoadPageMappings` | page_cache_replace/manager.cpp:299-404 | A plan is returned if and only if every line can be read, no file or kernel page comes twice and there is an entry; it is the entries sorted by file offset |
| `PageMapLoader.PlanBack` | page_cache_replace/manager.cpp:299-404 | Loading the printed list gives the same list in the same order |
| `PageMapLoader.ChunksOfLines` | page_cache_replace/manager.cpp:312-312 | Lines that fit the buffer are read one by one |
| `PageMapLoader.ValidateForFile` | page_cache_replace/manager.cpp:554-573 | Accepts if and only if every page of the plan lies within the file |
| `PageMapLoader.FillMessage` | page_cache_replace/manager.cpp:478-492 | A message carries the pages from `start`, at most 256, padded with zeros |
| `PageMapLoader.SendBatches` | page_cache_replace/manager.cpp:464-511 | Batches of 1 to 256 pages that together are the plan in order, or a beginning of it when a message is refused; success exactly when all messages are taken |
| `PageMapLoader.ReplaceByPlan` | page_cache_replace/manager.cpp:575-622 | The whole plan is sent if and only if it is not empty and the socket takes all its messages |
| `PageCacheSafety.SessionSafe` | page_cache_replace/page_cache_replace.c:215-398 | In every state of every session from module load, records and grafts are in bijection while there is room, `nrpages` counts the cached pages, and every cached page has one extra reference and its own index |
| `PageCacheSafety.RunKeeps` | page_cache_replace/page_cache_replace.c:401-472 | The invariant holds through any sequence of replace and restore requests, faults and reclaims |
| `PageCacheSafety.ReplaceKeeps` | page_cache_replace/page_cache_replace.c:215-314 | One replaced page keeps the invariant, whatever was in the slot |
| `PageCacheSafety.RestoreKeeps` | page_cache_replace/page_cache_replace.c:317-398 | One restored page keeps the invariant and loses exactly its record |
| `PageCacheSafety.UnloadRestores` | page_cache_replace/page_cache_replace.c:825-855 | Unloading leaves no kernel page behind if and only if at most 256 pages were grafted since loading; it removes exactly the slots with a record |
| `PageCacheSafety.ReplacedInFull` | page_cache_replace/page_cache_replace.c:401-449 | A request whose addresses all resolve puts each kernel page where it was asked for and changes no other slot |
| `PageCacheSafety.RequestStops` | page_cache_replace/page_cache_replace.c:401-449 | A request does what its pages before the first unresolved address ask for, and fails there |
| `PageCacheSafety.RestoredInFull` | page_cache_replace/page_cache_replace.c:452-472 | Restoring pages that have a record empties exactly their slots and clears exactly their records |
| `PageCacheSafety.RestoreEverything` | page_cache_replace/page_cache_replace.c:452-472 | Restoring all grafted pages in any order leaves no kernel page |
| `PageCacheSafety.ReplaceThenRestore` | page_cache_replace/page_cache_replace.c:401-472 | A request and its restore request leave every other slot and every kernel page's reference count as they were |
| `PageCache.Module.AddPageToCache` | page_cache_replace/page_cache_replace.c:215-314 | Does to slots, counts, owners and records what `AddPage` says |
| `PageCache.Module.RestorePageCache` | page_cache_replace/page_cache_replace.c:317-398 | Does what `RestorePage` says, error codes included |
| `PageCache.Module.BackupPageInfo` | page_cache_replace/page_cache_replace.c:475-498 | Appends a live record while the array has room |
| `PageCache.Module.FindBackupInfo` | page_cache_replace/page_cache_replace.c:501-510 | Finds the first live record of the index |
| `PageCache.Module.ClearBackupInfo` | page_cache_replace/page_cache_replace.c:513-520 | Clears the record that is found |
| `PageCache.Module.BatchProcessPages` | page_cache_replace/page_cache_replace.c:401-449 | Replaces page by page up to the first failure |
| `PageCache.Module.BatchRestorePages` | page_cache_replace/page_cache_replace.c:452-472 | Restores page by page up to the first failure |
| `PageCache.Module.ReceiveReplace` | page_cache_replace/page_cache_replace.c:728-781 | A malformed request changes nothing; any other is carried out |
| `PageCache.Module.ReceiveRestore` | page_cache_replace/page_cache_replace.c:676-725 | A malformed request, or one without records, changes nothing; any other is carried out |
| `PageCache.Module.Exit` | page_cache_replace/page_cache_replace.c:825-855 | Restores every live record and forgets all of them |
| `PageCache.Module.RunSteps` | page_cache_replace/page_cache_replace.c:215-472 | The module's fields after any sequence of requests, faults and reclaims are those of the specification's run, and keep the invariant throughout a session |
| `PageCache.Module.Perform` | page_cache_replace/page_cache_replace.c:401-472 | One step of a run |
| `PageCache.Module.Fault` | page_cache_replace/page_cache_replace.c:301-303 | A fault that misses fills the slot with a page of the file |
| `PageCache.Module.ReclaimPage` | page_cache_replace/page_cache_replace.c:236-256 | A page of the file's own leaves the cache and a shadow entry in its slot; grafted pages stay |
| `KrgRoundTrip.AnswersSurvive` | kernel_cgd/src/krg.cpp:1109-1307 | From a saved root, the closure computed on the loaded file lists exactly the symbols reachable in the built and pruned graph, but for undefined symbols and dot-named data, with their names and addresses |
| `KrgSave.ClosureKept` | kernel_cgd/src/krg.cpp:1067-1146 | Pruning, renumbering and CSR keep reachability with unsafe functions and stop names as leaves, in both directions |
| `KrgSave.Save` | kernel_cgd/src/krg.cpp:1109-1277 | The saved graph holds exactly the needed symbols in order, with their data and their edges among themselves; what is needed and which edges these are, `KrgMeaning` says over the symbol and reference lists |
| `KrgMeaning.SavedExactly` | kernel_cgd/src/krg.cpp:1067-1139 | Saved are the defined functions without blacklisted calls whose writable data is all of their own nonzero origin, the defined functions these call and the defined data these refer to, names with a dot in front apart, and nothing else |
| `KrgMeaning.SavedEdges` | kernel_cgd/src/krg.cpp:1262-1277 | An edge between saved symbols is in the saved graph if and only if its source is such a function, the target another symbol that it calls or refers to |
| `KrgMeaning.WritableUnreferenced` | kernel_cgd/src/krg.cpp:1071-1080 | No row of a saved function of the kernel proper, nor of one from another file, contains a node saved from writable data |
| `KrgMeaning.StepsExactly` | kernel_cgd/src/krg.cpp:1097-1107 | The closure in the builder steps exactly from kept functions whose names are not stop names to what they call and refer to |
| `KrgMeaning.NodeSurvives` | kernel_cgd/src/krg.cpp:1218-1260 | The builder's loader finds each saved symbol with its name, size and kind, its run-time address, and the name of the file it came from, "kernel" for an unnamed one |
| `KrgSave.SaveNodes` | kernel_cgd/src/krg.cpp:1218-1260 | Names and nodes of the saved symbols stand at their new numbers |
| `KrgSafe.FindSafe` | kernel_cgd/src/krg.cpp:1067-1096 | A symbol is marked if and only if it is a defined function, makes no blacklisted call, and every writable data symbol it refers to comes from its own file, which is not the kernel proper |
| `KrgSafe.PruneToSafeSubgraph` | kernel_cgd/src/krg.cpp:1067-1107 | Safe functions are marked; in the builder itself unsafe functions lose all their edges and nothing else changes |
| `KrgSafe.FindNeeded` | kernel_cgd/src/krg.cpp:1113-1139 | Needed are exactly the safe functions, the defined functions they call and the defined data they refer to, dot names excepted |
| `KrgSafe.Number` | kernel_cgd/src/krg.cpp:1141-1146 | Each needed symbol gets the number of needed symbols before it |
| `KrgSafe.RankInjective` | kernel_cgd/src/krg.cpp:1141-1146 | Different saved symbols have different numbers |
| `KrgSave.RankOnto` | kernel_cgd/src/krg.cpp:1141-1146 | Every number below the count belongs to a saved symbol |
| `KrgSafe.BuildCsr` | kernel_cgd/src/krg.cpp:1262-1277 | The row of each saved symbol lists, ascending and once each, the numbers of its saved targets other than itself |
| `KrgSafe.RowColumns` | kernel_cgd/src/krg.cpp:1264-1276 | One row: sorted, without repetition, only saved targets, never the symbol itself |
| `KrgSafe.AliasVerdicts` | kernel_cgd/src/krg.cpp:1071-1096 | After any recorded edges, functions starting at one address are safe together or not at all |
| `KrgSafe.AliasesSameVerdict` | kernel_cgd/src/krg.cpp:1071-1096 | Equal marks and equal data references but for each other give equal verdicts |
| `KrgClosure.Closure` | kernel_cgd/src/krg.cpp:1443-1463 | The search terminates and lists, ascending and once each, exactly the nodes reachable from the root when stop names are not followed; it fails if and only if they lead to a row that cannot be read |
| `KrgClosure.PushRow` | kernel_cgd/src/krg.cpp:1459-1462 | Marks all targets of a row and pushes exactly the newly marked ones; fails exactly when the row or a target lies outside its table |
| `KrgRoundTrip.Query` | make_dll/build_PIC_so.py:303-322 | On every file that was loaded: nothing for an unknown name, an error exactly when a row that cannot be read is reached, and otherwise the nodes of the closure, each once, in order |
| `KrgRoundTrip.LoadedShape` | make_dll/build_PIC_so.py:189-301 | Whatever a file says, each node loaded has a row and each known name leads to a node of that name |
| `KrgClosure.AlwaysReadable` | kernel_cgd/src/krg.cpp:1262-1277 | In a graph as it is saved no row is unreadable |
| `KrgLoad.Write` | kernel_cgd/src/krg.cpp:1208-1302 | The file is the header, nodes, rows, columns, name offsets, names, module offsets and module names, in this order |
| `KrgLoad.AppendNames` | kernel_cgd/src/krg.cpp:1219-1259 | NUL-terminated names end to end, with the offset of each |
| `KrgFile.ParseBack` | make_dll/build_PIC_so.py:189-271 | A written file parses to the tables that were written |
| `KrgFile.HeaderExactly` | make_dll/build_PIC_so.py:189-211 | A header is accepted if and only if the file is long enough for its version, 32 or 40 bytes, begins with the magic word and has version 1 or 2; the counts are the words behind it |
| `KrgFile.MagicText` | kernel_cgd/src/krg.cpp:42-42 | The first four bytes are the magic word if and only if they are "KRG1" |
| `KrgFile.VersionOne` | make_dll/build_PIC_so.py:213-262 | In a file of version 1 nodes stand at byte 32 with their kind at byte 12 and no module, behind them rows, columns, name offsets and names at their places |
| `KrgFile.LeReadBack` | make_dll/build_PIC_so.py:203-207 | Little-endian numbers that fit their width are read back |
| `KrgLoad.ReadTables` | make_dll/build_PIC_so.py:213-272 | Reading on from a cursor gives the tables at their computed places, or the first table that is truncated |
| `KrgLoad.ReadStrings` | make_dll/build_PIC_so.py:285-291 | All strings, or the first offset that names none |
| `KrgLoad.ReadExactly` | make_dll/build_PIC_so.py:285-290 | A string is read if and only if it stands at its offset, free of NUL, with a NUL behind it; an offset behind the blob and a missing NUL are told apart |
| `KrgLoad.LoadedModules` | make_dll/build_PIC_so.py:263-296 | There is always a module, "kernel" alone for version 1 or without module table; each node carries the name of its module, or "kernel" when there is no such module |
| `KrgLoad.LastOfName` | make_dll/build_PIC_so.py:298-301 | A name stands for the last node that has it, and only names of nodes are known |
| `KrgLoad.Load` | make_dll/build_PIC_so.py:189-301 | The result on every file, failures included, is that of the position-based `Loading` |
| `KrgRoundTrip.LoadBack` | make_dll/build_PIC_so.py:189-301 | The builder's loader recovers nodes, edges, names and modules of every storable graph, and no check fires |
| `KrgRoundTrip.LoadGraph` | kernel_cgd/src/krg.cpp:1334-1435 | The result on every file is that of `GraphLoading` |
| `KrgRoundTrip.LoadGraphBack` | kernel_cgd/src/krg.cpp:1334-1435 | The query command's loader recovers every storable graph |
| `KrgRoundTrip.IdsOfDistinct` | kernel_cgd/src/krg.cpp:1430-1433 | With distinct names both readers know each node by its name, though one keeps the first and the other the last |
| `KrgIndex.BuildTable` | kernel_cgd/src/krg.cpp:476-512 | The sorted table holds exactly one extent per function, for every defined, primary function of a known section and for nothing else, each at its own address; groups list functions by their own address, and are complete when no label at the end of a section shares an address with the next |
| `KrgIndex.SectionRanges` | kernel_cgd/src/krg.cpp:482-508 | The extents and groups of one section |
| `KrgIndex.TargetFuncByAddr` | kernel_cgd/src/krg.cpp:585-606 | On every sorted table the last range that starts at or below the address, if it covers it; with separate extents that is what a scan for the last covering range returns |
| `KrgIndex.IndexRight` | kernel_cgd/src/krg.cpp:585-606 | A covering function is found exactly when there is one, and the same one for all addresses of an extent |
| `KrgIndex.ExtentsSeparate` | kernel_cgd/src/krg.cpp:476-512 | With the sections that hold functions apart, extents are equal or disjoint if and only if functions of two sections at one address are both one byte long |
| `KrgIndex.BehindLabel` | kernel_cgd/src/krg.cpp:585-606 | Behind the first byte of a function that shares its start with such a label, the search finds the function exactly when its range stands last among the equal starts |
| `KrgIndex.SortDecides` | kernel_cgd/src/krg.cpp:511-512 | One input with two tables in order, of which one answers and the other does not |
| `KrgEdges.Edges.AddEdge` | kernel_cgd/src/krg.cpp:652-664 | The edge is added once to every function of the group at the address, or to the symbol itself where there is no group, but never to the target, and aliases stay in agreement |
| `KrgEdges.Edges.AddDataRef` | kernel_cgd/src/krg.cpp:665-677 | The same for data references |
| `KrgEdges.Edges.MarkCallsBlacklisted` | kernel_cgd/src/krg.cpp:645-651 | The group at the address is marked, or the symbol itself where there is no group, and aliases stay in agreement |
| `KrgEdges.Collect` | kernel_cgd/src/krg.cpp:641-677 | After any sequence of calls a symbol has an edge, a data reference or a mark if and only if one of the calls asked for it at the symbol or at one of its aliases, and aliases agree on every other callee and data reference and on the mark |
| `DynamicSymbols.ComputeGnuHash` | make_dll/build_PIC_so.py:153-157 | The loop computes the 32-bit hash |
| `DynamicSymbols.GnuHashIsNumber` | make_dll/build_PIC_so.py:153-157 | The hash is the sum of the characters times falling powers of 33, plus 5381 times the highest power, modulo 2 to the 32 |
| `DynamicSymbols.Deduplicate` | make_dll/build_PIC_so.py:915-925 | Each symbol object once, in order of first appearance |
| `DynamicSymbols.Tables.constructor` | make_dll/build_PIC_so.py:915-927 | The dynamic symbols are the first occurrences among exports, imports and relocation targets, in this order |
| `DynamicSymbols.CollectTargets` | make_dll/build_PIC_so.py:915-917 | The symbols of the relocations that have one, in their order |
| `DynamicSymbols.Tables.ReorderSymbolsForHash` | make_dll/build_PIC_so.py:1121-1125 | A permutation sorted by bucket, definedness, export order and original order, hashes and buckets set |
| `DynamicSymbols.OrderMeans` | make_dll/build_PIC_so.py:1121-1125 | Of two symbols in order the first has the lower hash modulo the buckets, or the same and is defined where the other is not, or is exported earlier, or was there earlier |
| `DynamicSymbols.Tables.AddString` | make_dll/build_PIC_so.py:1165-1176 | A new string is appended once with its NUL; strings already there stay where they are |
| `DynamicSymbols.Tables.BuildDynstr` | make_dll/build_PIC_so.py:1165-1176 | Every name and library can be read at its offset |
| `DynamicSymbols.Tables.BuildDynsym` | make_dll/build_PIC_so.py:1178-1187 | One entry per symbol at its index, with its name offset, kind, section, value and size |
| `DynamicSymbols.Tables.BuildRelocations` | make_dll/build_PIC_so.py:1316-1332 | Each entry patches its own slot, and its index selects an entry with the symbol's kind, section, value and size whose string, read to its NUL, is the symbol's name; an error exactly when a symbol is missing |
| `DynamicSymbols.Tables.IndexResolves` | make_dll/build_PIC_so.py:1178-1187 | A symbol's index leads to its own name and value |
| `CStrings.ReadsName` | make_dll/build_PIC_so.py:1165-1176 | A stored name without NUL is read back at its offset |
| `GnuHashTable.BuildGnuHash` | make_dll/build_PIC_so.py:1189-1218 | Bloom filter, bucket starts and chain values with stop digits, all as `IsTable` says |
| `GnuHashTable.BuildBloom` | make_dll/build_PIC_so.py:1193-1203 | The filter passes every hash that was put in |
| `GnuHashTable.BuildChains` | make_dll/build_PIC_so.py:1194-1212 | Buckets hold the first index of their symbols, chains end exactly where the bucket changes |
| `GnuHashTable.LookupFinds` | make_dll/build_PIC_so.py:1189-1218 | The loader finds the first symbol of the name under its own index, and never accepts an absent name |
| `GnuHashTable.WalkStays` | make_dll/build_PIC_so.py:1204-1212 | A chain walk never leaves its bucket, nor the table |
| `GnuHashTable.EveryLookup` | make_dll/build_PIC_so.py:1189-1218 | With distinct names each symbol is found under its own index |
| `GnuHashTable.BuildLookupTables` | make_dll/build_PIC_so.py:945-946 | Sorting, strings, symbols and hash table together give a look-up that returns each symbol's index |
| `CheckerVerdict.Check` | kernel_cgd/function_checker/functions_checker.py:801-813 | Visited are the target and what a visited function leads to, by a relocation of type 2 or 4 or a direct branch alone; exit code 0 if and only if every visited function passes, its relocations read by type, symbol and section: each call to another file's name is to a shim or a visited function, each one into code leads to the visited function there; 1 if and only if a visited function holds a privileged instruction or its first relocation is absolute |
| `CheckerVerdict.RelocMeans` | kernel_cgd/function_checker/functions_checker.py:560-698 | A relocation lets a function pass if and only if its symbol exists, it is not absolute, and, when it is relative and its target not cut off, the target is a shim, lies outside code, or is a visited function: the undefined name, the named function, or the function whose extent holds the address |
| `CheckerVerdict.InsnMeans` | kernel_cgd/function_checker/functions_checker.py:560-706 | An instruction lets a function pass if and only if it is not privileged, its first relocation does, and without one its direct branch stays in the function, leads to no function, or to a visited one |
| `CheckerVerdict.PassesExactly` | kernel_cgd/function_checker/functions_checker.py:498-708 | With its targets visited, a function passes by its relocations, symbols and sections if and only if the engine calls it clean |
| `CheckerVerdict.EdgeLeads` | kernel_cgd/function_checker/functions_checker.py:560-706 | Every target that is queued comes from a relative relocation or a direct branch that leads there |
| `CheckerVerdict.HardExactly` | kernel_cgd/function_checker/functions_checker.py:257-262 | A hard failure is reported exactly for a privileged instruction, or an absolute relocation found first, before any privileged one |
| `CheckerVerdict.VisitedMeans` | kernel_cgd/function_checker/functions_checker.py:480-496 | Visited functions come from the target by what functions lead to; each passes or fails by its relocations and instructions alone |
| `CheckerVerdict.OwnerIsFirst` | kernel_cgd/function_checker/functions_checker.py:463-470 | A function belongs to the first file that defines it, and to none when no file does |
| `Checker.Engine.Analyze` | kernel_cgd/function_checker/functions_checker.py:480-496 | The visited functions are exactly the reachable ones, and the reports are exactly theirs |
| `Checker.Engine.Visit` | kernel_cgd/function_checker/functions_checker.py:480-496 | One function visited: its reports are added and its targets queued |
| `Checker.Engine.AnalyzeFunction` | kernel_cgd/function_checker/functions_checker.py:498-708 | The reports and the queued targets of one function are those of its instructions, up to the first privileged one |
| `Checker.Engine.QueueFunc` | kernel_cgd/function_checker/functions_checker.py:471-478 | A name is queued once and never when visited |
| `Checker.CleanFunction` | kernel_cgd/function_checker/functions_checker.py:498-708 | A clean function has an owner and code in range, none of its instructions is privileged, no relocation found is absolute, and every target the scan can make out is followed |
| `Checker.AbsoluteFree` | kernel_cgd/function_checker/functions_checker.py:257-262 | An instruction of a clean function carries an absolute relocation if and only if one hides behind another relocation of the instruction |
| `CheckerCoverage.VisitsAll` | kernel_cgd/function_checker/functions_checker.py:560-706 | The visited functions are all that any direct jump in the section or any followed relocation can reach, if and only if no visited function has a jump, conditional or behind a privileged instruction, that leads to one that was not visited |
| `CheckerCoverage.PassVisitsAll` | kernel_cgd/function_checker/functions_checker.py:560-706 | In a passing run the visited functions are all reachable ones if and only if conditional jumps of visited functions lead to visited functions |
| `CheckerCoverage.PassIsForAll` | kernel_cgd/function_checker/functions_checker.py:560-706 | Where conditional jumps stay inside their functions, a passing verdict holds for everything the code can reach |
| `CheckerCoverage.CleanSkips` | kernel_cgd/function_checker/functions_checker.py:564-564 | In a clean function exactly the conditional jumps are passed over |
| `CheckerCoverage.JumpFollowed` | kernel_cgd/function_checker/functions_checker.py:700-704 | A direct jump that is not passed over is followed, unless it leads to its own function |
| `CheckerCoverage.AllBytesLooked` | kernel_cgd/function_checker/functions_checker.py:534-542 | All bytes of a clean function are part of scanned instructions if and only if the sizes of the decoded instructions add up to the size of the function |
| `Checker.BlindSpots` | kernel_cgd/function_checker/functions_checker.py:498-708 | A concrete passing function with a second, absolute relocation, a conditional jump into another function, and bytes behind the last decoded instruction |
| `BtfClosure.AddTypeClosure` | kernel_cgd/kerne_type/vkso_gen_types.py:186-217 | Terminates on cyclic types over two sources; all new marks are reachable from the root along types not marked before and have their successors marked, earlier marks stay |
| `BtfClosure.MarkType` | kernel_cgd/kerne_type/vkso_gen_types.py:186-217 | Whatever was marked before, exactly the types that the root reaches along unmarked types are added, each in the source that owns it; with closed marks these are all types it reaches, and the marks stay closed |
| `BtfClosure.AllUnmarked` | kernel_cgd/kerne_type/vkso_gen_types.py:186-217 | A walk that leaves the successors of its new marks marked has marked all that the root reaches along unmarked types |
| `BtfClosure.MarkTypes` | kernel_cgd/kerne_type/vkso_gen_types.py:771-823 | After any sequence of requests from fresh sources, several modules and their shared base among them, in each source exactly those types are marked that some request reaches, from whichever source it was made; every nonzero target, member, return and parameter type of a marked record is marked in the source that owns it, and every marked type was requested or is such a field of a marked record |
| `BtfClosure.ClosedMarksFields` | kernel_cgd/kerne_type/vkso_gen_types.py:204-207 | With closed marks, the target of each marked modifier, pointer, array and function, all members of each composite and the return type and all parameters of each prototype are marked where they belong, unless zero |
| `BtfClosure.ComeFrom` | kernel_cgd/kerne_type/vkso_gen_types.py:771-823 | Where exactly the requested closures are marked, every marked type was requested or is named in a field of a marked record |
| `BtfClosure.AskedBy` | kernel_cgd/kerne_type/vkso_gen_types.py:186-217 | What a request reaches is the request itself or named in a field of a record that it reaches |
| `BtfClosure.MarkRequest` | kernel_cgd/kerne_type/vkso_gen_types.py:788-823 | One request adds in every source exactly the types it reaches there, also in a base that other modules share |
| `Crc32.InitTable` | test/test_MICRO/test_MICRO_pseudo_noqemu/pgot_benchmarks/layer3/05_crc32_le/bench_kmod.c:93-104 | The table holds eight shift steps of every byte, for any polynomial |
| `Crc32.Crc32Le` | test/test_MICRO/test_MICRO_pseudo_noqemu/pgot_benchmarks/layer3/05_crc32_le/bench_kmod.c:106-114 | The table-driven loop computes the bit-at-a-time reflected CRC of the message, which is the remainder of the message, the start value on its first 32 bits, divided by the polynomial |
| `Crc32.SerialIsRemainder` | test/test_MICRO/test_MICRO_pseudo_noqemu/pgot_benchmarks/layer3/05_crc32_le/bench_kmod.c:106-114 | The message with the start value on its first bits is a multiple of the polynomial plus the CRC, bits added without carry |
| `Crc32.RemainderIsSerial` | test/test_MICRO/test_MICRO_pseudo_noqemu/pgot_benchmarks/layer3/05_crc32_le/bench_kmod.c:106-114 | There is no other remainder: whatever is left below 32 bits after taking away a multiple of the polynomial is the CRC |
| `Crc32.LookUp` | test/test_MICRO/test_MICRO_pseudo_noqemu/pgot_benchmarks/layer3/05_crc32_le/bench_kmod.c:109-112 | One table look-up is eight bit steps |
| `Crc32.CrcOfSplitMessage` | test/test_MICRO/test_MICRO_pseudo_noqemu/pgot_benchmarks/layer3/05_crc32_le/bench_kmod.c:106-114 | Two calls on the parts give the value of one call on the whole |
| `BchEcc.SwapTable` | test/test_MICRO/test_MICRO_pseudo_noqemu/pgot_benchmarks/layer3/02_bch_encode/bench_kmod.c:74-107 | Every entry of the swap table, two reversed nibbles, is the byte with its bits reversed |
| `BchEcc.LoadEcc8` | test/test_MICRO/test_MICRO_pseudo_noqemu/pgot_benchmarks/layer3/02_bch_encode/bench_kmod.c:209-224 | Big-endian words of the bytes, the last one padded with zeros |
| `BchEcc.StoreEcc8` | test/test_MICRO/test_MICRO_pseudo_noqemu/pgot_benchmarks/layer3/02_bch_encode/bench_kmod.c:225-241 | The bytes of the words, as many as the code has |
| `BchEcc.LoadSwapped` | test/test_MICRO/test_MICRO_pseudo_noqemu/pgot_benchmarks/layer3/02_bch_encode/bench_kmod.c:185-224 | With `swap`, loading gives what loading the bit-reversed bytes without it gives; without, the bytes of the words are the bytes as they are, zeros behind the last |
| `BchEcc.StoreSwapped` | test/test_MICRO/test_MICRO_pseudo_noqemu/pgot_benchmarks/layer3/02_bch_encode/bench_kmod.c:185-241 | With `swap`, storing gives the bit-reversed bytes of storing without it; without, the bytes are those of the words |
| `BchEcc.CodeSizes` | test/test_MICRO/test_MICRO_pseudo_noqemu/pgot_benchmarks/layer3/02_bch_encode/bench_kmod.c:20-21 | Words and bytes of a code are as many as its bits need, and no more |
| `BchEcc.StoreAfterLoad` | test/test_MICRO/test_MICRO_pseudo_noqemu/pgot_benchmarks/layer3/02_bch_encode/bench_kmod.c:209-241 | Storing what was loaded gives the bytes back, for every width, swapped or not |
| `BchEcc.LoadAfterStore` | test/test_MICRO/test_MICRO_pseudo_noqemu/pgot_benchmarks/layer3/02_bch_encode/bench_kmod.c:209-241 | Loading what was stored gives the words back if and only if nothing was dropped |
| `BchEcc.JoinIsOr` | test/test_MICRO/test_MICRO_pseudo_noqemu/pgot_benchmarks/layer3/02_bch_encode/bench_kmod.c:214-223 | The shifted bytes joined by or are the word of the four bytes |
| `BchEncode.EncodeUnaligned` | test/test_MICRO/test_MICRO_pseudo_noqemu/pgot_benchmarks/layer3/02_bch_encode/bench_kmod.c:193-208 | The loop over the bytes is the byte-wise encoder |
| `BchEncode.StepWord` | test/test_MICRO/test_MICRO_pseudo_noqemu/pgot_benchmarks/layer3/02_bch_encode/bench_kmod.c:274-289 | One turn of the word loop in place |
| `BchEncode.WordIsFourBytes` | test/test_MICRO/test_MICRO_pseudo_noqemu/pgot_benchmarks/layer3/02_bch_encode/bench_kmod.c:274-289 | With tables from a generator, one turn of the word loop is four turns of the byte loop |
| `BchEncode.EncodeWords` | test/test_MICRO/test_MICRO_pseudo_noqemu/pgot_benchmarks/layer3/02_bch_encode/bench_kmod.c:269-289 | The word loop leaves what the byte loop leaves |
| `BchEncode.EncodeParts` | test/test_MICRO/test_MICRO_pseudo_noqemu/pgot_benchmarks/layer3/02_bch_encode/bench_kmod.c:262-292 | Leading bytes, words and trailing bytes together, for every alignment and length |
| `BchEncode.Encode` | test/test_MICRO/test_MICRO_pseudo_noqemu/pgot_benchmarks/layer3/02_bch_encode/bench_kmod.c:242-295 | The register and the code bytes are those of feeding every byte to the byte path; codes too wide are refused |
| `BchEncode.SwappedEncoding` | test/test_MICRO/test_MICRO_pseudo_noqemu/pgot_benchmarks/layer3/02_bch_encode/bench_kmod.c:185-295 | Encoding with `swap` is encoding without it on bit-reversed data and bit-reversed code bytes, the resulting bytes bit-reversed; without `swap` bytes pass unchanged |
| `BchEncode.OneByte` | test/test_MICRO/test_MICRO_pseudo_noqemu/pgot_benchmarks/layer3/02_bch_encode/bench_kmod.c:193-208 | One byte leaves in an empty register its own row of the first table, with `swap` the row of the bit-reversed byte |
| `BchEncode.EncodingIsIncremental` | test/test_MICRO/test_MICRO_pseudo_noqemu/pgot_benchmarks/layer3/02_bch_encode/bench_kmod.c:242-295 | Two calls, the second continuing from the bytes of the first, give what one call gives |
| `StringEscape.StringEscapeMem` | test/test_MICRO/test_MICRO_pseudo_noqemu/pgot_benchmarks/layer3/10_string_escape_mem/generate_string_escape_closure.py:163-202 | Returns the length of the full escaped string modulo 2 to the 32, as a signed number, and leaves exactly its prefix in the buffer |
| `StringEscape.EscapeLoop` | test/test_MICRO/test_MICRO_pseudo_noqemu/pgot_benchmarks/layer3/10_string_escape_mem/generate_string_escape_closure.py:172-199 | After the loop the buffer holds the prefix of the escaped string |
| `StringEscape.EscapeByte` | test/test_MICRO/test_MICRO_pseudo_noqemu/pgot_benchmarks/layer3/10_string_escape_mem/generate_string_escape_closure.py:173-198 | One byte is written as its escape, truncated at the end of the buffer |
| `StringEscape.EscapeClass` | test/test_MICRO/test_MICRO_pseudo_noqemu/pgot_benchmarks/layer3/10_string_escape_mem/generate_string_escape_closure.py:188-198 | The first class that applies is used |
| `StringEscape.PassingExactly` | test/test_MICRO/test_MICRO_pseudo_noqemu/pgot_benchmarks/layer3/10_string_escape_mem/generate_string_escape_closure.py:176-187 | Without a dictionary a byte is copied if and only if it is printable and its flag set, or ASCII and its flag set, or both with the flag for both; with one, bytes outside it are copied too, or with `append` only such bytes are |
| `StringEscape.LettersExactly` | test/test_MICRO/test_MICRO_pseudo_noqemu/pgot_benchmarks/layer3/10_string_escape_mem/generate_string_escape_closure.py:41-121 | Of the bytes not copied, newline, return, tab and the two feeds have letters with `space`, quote, backslash, bell and escape with `special`, NUL with `null`, and no others |
| `StringEscape.NumbersExactly` | test/test_MICRO/test_MICRO_pseudo_noqemu/pgot_benchmarks/layer3/10_string_escape_mem/generate_string_escape_closure.py:188-198 | Other bytes are written as three octal digits that give the byte back, or as two hexadecimal ones, octal before hexadecimal, and copied only when neither is asked for |
| `StringEscape.PutFour` | test/test_MICRO/test_MICRO_pseudo_noqemu/pgot_benchmarks/layer3/10_string_escape_mem/generate_string_escape_closure.py:123-161 | Four characters, each only while there is room |
| `StringEscape.DecodeAfterEscape` | test/test_MICRO/test_MICRO_pseudo_noqemu/pgot_benchmarks/layer3/10_string_escape_mem/generate_string_escape_closure.py:163-202 | With octal or hex set, no passthrough flag and no dictionary, every byte string is decoded back |
| `StringEscape.InjectiveExactly` | test/test_MICRO/test_MICRO_pseudo_noqemu/pgot_benchmarks/layer3/10_string_escape_mem/generate_string_escape_closure.py:163-202 | For all flags, dictionaries and printable sets, different strings have different escaped forms if and only if no byte's escape can be read as copied characters, nor as the escape of NUL and copied digits |
| `StringEscape.Collision` | test/test_MICRO/test_MICRO_pseudo_noqemu/pgot_benchmarks/layer3/10_string_escape_mem/generate_string_escape_closure.py:163-202 | Two different strings with one escaped form, for every ambiguous byte |
| `StringEscape.PartsAmbiguously` | test/test_MICRO/test_MICRO_pseudo_noqemu/pgot_benchmarks/layer3/10_string_escape_mem/generate_string_escape_closure.py:163-202 | Where two strings with one escaped form first differ, one of the two bytes is ambiguous |
| `StringEscape.SameEscape` | test/test_MICRO/test_MICRO_pseudo_noqemu/pgot_benchmarks/layer3/10_string_escape_mem/generate_string_escape_closure.py:173-198 | Two bytes with the same escape are the same byte |
| `StringEscape.PassthroughIsAmbiguous` | test/test_MICRO/test_MICRO_pseudo_noqemu/pgot_benchmarks/layer3/10_string_escape_mem/generate_string_escape_closure.py:179-187 | Copying printable bytes while others are written in octal makes byte 1 ambiguous |
| `KrgIndex.SectionFunctions` | kernel_cgd/src/krg.cpp:476-489 | The primary functions of a section, all of them, in address order |
| `KrgSafe.SortUnique` | kernel_cgd/src/krg.cpp:1267-1270 | The same numbers, ascending, each once |
| `KrgRoundTrip.ModuleNames` | kernel_cgd/src/krg.cpp:1410-1418 | All module names, or nothing when an offset lies behind the blob |
| `KrgRoundTrip.NodeNames` | kernel_cgd/src/krg.cpp:1430-1433 | The node names, and the first node of each name |
| `Displacement.LeastAddress` | make_dll/build_PIC_so.py:1434-1435 | The least address of the symbols looked for, if there is one |
| `DsoSymbols.LowestStart` | make_dll/build_PIC_so.py:1045-1049 | The lowest start of the ranges, if there are any |
| `DsoBuilder.Builder.PlaceTail` | make_dll/build_PIC_so.py:1306-1312 | The unallocated sections follow at the next aligned offsets, at address zero |
| `DsoBuilder.Builder.StartWritable` | make_dll/build_PIC_so.py:1275-1278 | The writable segment begins on a page behind all sparse sections, or at the demanded address rounded up |
| `DsoBuilder.Builder.PlaceWritable` | make_dll/build_PIC_so.py:1283-1304 | The writable sections in a row, and where they end in file and memory |
| `Regions.Intervals` | make_dll/build_PIC_so.py:1068-1079 | Whole pages that cover exactly what the ranges touch |
| `CoreLayout.Collect` | make_dll/build_PIC_so.py:536-539 | The sections of a group, in order |
| `CoreLayout.PlaceAll` | make_dll/build_PIC_so.py:541-565 | The three groups one behind the other |
| `LayoutProperties.OverlapIsShared` | make_dll/build_PIC_so.py:1257-1267 | Two sparse sections overlap in memory if and only if their regions share a page |
| `Layout.PlaceNext` | make_dll/build_PIC_so.py:1285-1293 | A section goes to the next offset and address of its alignment, both moved alike |
| `PageCache.Module.constructor` | page_cache_replace/page_cache_replace.c:51-58 | A loaded module has no records and its state is the initial one |
| `PageCache.Module.RemoveEntry` | page_cache_replace/page_cache_replace.c:347-374 | The slot is emptied, the page count goes down, and the cache's reference is given up |
| `PageCache.Module.DeleteFromPageCache` | page_cache_replace/page_cache_replace.c:427-438 | The page in the slot is dropped with its reference and its index |
| `PageCacheSafety.TouchKeeps` | page_cache_replace/page_cache_replace.c:301-303 | A fault that fills a slot from the file keeps the invariant |
| `PageCacheSafety.ReclaimKeeps` | page_cache_replace/page_cache_replace.c:236-256 | Reclaim of a file page, which leaves a shadow entry, keeps the invariant |
| `PageCacheSafety.ReplacePagesKeep` | page_cache_replace/page_cache_replace.c:401-449 | A whole request keeps the invariant, also when it stops at a failure |
| `PageCacheSafety.RestorePagesKeep` | page_cache_replace/page_cache_replace.c:452-472 | A whole restore request keeps the invariant, also when it stops at a failure |
| `Checker.Engine.Next` | kernel_cgd/function_checker/functions_checker.py:482-485 | The head of the queue is taken and visited unless it was visited before |
| `GnuHashTable.WalkFinds` | make_dll/build_PIC_so.py:1204-1212 | A walk from a bucket start returns the first symbol of the name behind it, or nothing when there is none |
| `BchEncode.StepByte` | test/test_MICRO/test_MICRO_pseudo_noqemu/pgot_benchmarks/layer3/02_bch_encode/bench_kmod.c:201-207 | One turn of the byte loop in place |
| `BchEncode.EncodeAligned` | test/test_MICRO/test_MICRO_pseudo_noqemu/pgot_benchmarks/layer3/02_bch_encode/bench_kmod.c:269-292 | Words and trailing bytes leave what feeding all bytes leaves |
| `StringEscape.PutPair` | test/test_MICRO/test_MICRO_pseudo_noqemu/pgot_benchmarks/layer3/10_string_escape_mem/generate_string_escape_closure.py:65-72 | Two characters, each only while there is room |
| `StringEscape.Put` | test/test_MICRO/test_MICRO_pseudo_noqemu/pgot_benchmarks/layer3/10_string_escape_mem/generate_string_escape_closure.py:29-38 | One character, only while there is room; the position always moves on |

## Left out

- ELF, instruction and relocation decoding, kallsyms and sysfs reads, netlink, ioctl, mmap and the shell scripts: their results are inputs (sections, symbols, instructions, relocations, messages).
- Graphs read from a file and module layouts are values: their readers only fill them.
- The order in which the checker's report is printed, and its tracing of register sources.
- Kernel page tables, LRU and TLB: `frames` maps a kernel page address to its page frame, and the file on disk is what a cache miss is filled from.
- Page-cache runs in which two files share an index, a store in the cache fails, or a live index is replaced again; locking and memory order.
- PageCache.Module.RestorePageCache: a shadow entry under a live backup record is treated as an empty slot; the pointer that is followed before the check for it is not modelled. No session reaches such a state (`PageCacheSafety.SessionSafe`).
- Version-1 graph files are read by both loaders in the model (`KrgFile.VersionOne`), but nothing writes them, so no round trip is stated for them.
- KrgLoad.Load: names are sequences of bytes; the UTF-8 decoding of the builder's loader, which drops malformed bytes, is not modelled.
- KrgRoundTrip.LoadGraph: reading behind the name blob, which the query command does not check, is modelled as an empty name.
- KrgSave.Save: run-time addresses are a parameter, so the failure returns for missing run-time bases are not modelled.
- Symbol objects are values while the layout is decided, so their aliasing is not modelled there; in the dynamic tables they are objects.
- The builder's dictionary of sections is modelled as lists in section order, which is the same since names are distinct (`Regions.NamesDistinct`); section types, links and header bytes are not modelled.
- DsoBuilder.Builder.BuildContentSections: section contents and flags are not part of the layout, only names, alignments and sizes; the dynamic, symbol and hash tables are modelled on their own.
- CheckerVerdict.Check: a jump to a function symbol without a name is not followed by the checker, and is no edge of `CheckerCoverage.AllEdges` either, whose nodes are names; indirect jumps are not edges of either.
- Deployment.Hold: the file's immutable flag and the manager's state file are not modelled.
- PageMapLoader.SendBatches: file path and user address in the messages are not modelled.
- BchEncode.WordIsFourBytes: the mod-8 tables of the BCH code are rows of words instead of one flat array, and their origin is not part of this model: `FromGenerator` states what they owe to the generator polynomial. The swap table is given by its two nibble halves.
- `isprint` is a parameter of the string escaper, and its flags are a record of booleans.
- Loaders that mask with the bloom size minus one: they agree with the builder only when that size is a power of two.
- Lookup of data symbols by address with overlapping symbols, printing of C declarations, the variants of the builder for loadable modules, timing code, statistics and plots: nothing beyond what is already here.
