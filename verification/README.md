# Verified model of AnisetteKit's ELF loaders

AnisetteKit runs Apple's ADI libraries, which are Android AArch64 shared
objects, in two ways: inside a small virtual machine (`elf_loader_emulator.cpp`)
or directly in the process (`elf_loader_host.cpp`).  Both need an ELF loader and
a dynamic linker.  This project models them in Dafny, together with the virtual
machine's heap, import stubs and memory faults, the set-up logic on top of it
and a few self-contained algorithms, and proves what they promise.

Guest memory is a finite map from addresses to bytes; a read or a write succeeds
exactly when its whole range is mapped.  Tables are decoded little-endian from
those bytes, so a relocation that overwrites a table is a case to be excluded,
not one that cannot be expressed.  `uint64_t` arithmetic is reduced modulo 2^64.
`abort()` is an `Outcome` of its own.

| file | what it holds |
|---|---|
| `words`, `memory` | bytes, 64-bit words, guest memory, C strings |
| `arena`, `vmstate`, `names`, `resolver` | the bump allocator, the import registry, name conversion, symbol resolution |
| `relocation`, `image`, `dynamic` | relocation against a declarative description; the loaded image; the dynamic and symbol tables |
| `tablebytes`, `symbolbytes`, `filebytes`, `datafunc` | the same on the bytes: relocation from raw table entries, symbols from raw symbol entries, loading from the file's own headers, and what the words of undefined functions and objects hold once everything is linked |
| `lookups` | the places both linkers look for an undefined name, in order |
| `runtime`, `heap`, `dispatch`, `placement` | all events of the running machine, its invariant over every run, heap safety, stubs, where libraries go |
| `resolutions`, `disagree` | when the resolver and `dlsym` agree, and machines in which they do not |
| `linkall`, `slots` | relocating every library; the slots of the whole program |
| `position`, `wholelink`, `twins`, `loadlink` | position independence: of relocating one library, of a whole link, of loading, of loading and linking |
| `machine` | the class `EmulatorVM`, each method proved equal to its specification function |
| `hostreloc`, `hostrel`, `guarded`, `process`, `hostsect`, `hostload`, `hostfile`, `hosttables`, `hostextend`, `host` | the host's relocation pass, what repeating it does for RELA and for REL, stores to read-execute pages, its hash sections, loading a file and reading its headers and tables, the class `ElfLoader` and the macOS order of loading and linking |
| `hostimage`, `hostdyn`, `hostsyms`, `agreement`, `fileagree` | the host's image, its reading of the dynamic table and of the symbols, and when both loaders end with the same image of one file |
| `gnuhash`, `sysvhash`, `protect` | the GNU hash section, the DT_HASH section, the W^X page rounding |
| `rwlock`, `rwhistory` | the reader/writer lock table under interleaving, and who holds and gets a lock told from the history of calls alone |
| `strings`, `base64`, `identifiers`, `setup` | string hooks, `base64_encode`, the two device names, the cached and the uncached set-up |

Objects that the source updates in place are classes: `PageAllocator`,
`EmulatorVM`, `Process`, `ElfLoader`, `LockTable`, `EmulatorSetup` and
`MacSetup`.  Their methods have the source's loops and branches, and their
contracts equate the new state with a function of the old one; the results
below are lemmas about those functions.

## Model

| member | source | states |
|---|---|---|
| Relocation.RelocationMeetsSpec | Native/Loader/elf_loader_emulator.cpp:1027-1059 | when target words are pairwise disjoint, below the heap and clear of the RELA, JMPREL, symbol and string tables, every RELATIVE word ends as base + (A - min_vaddr), every ABS64, GLOB_DAT and JUMP_SLOT word whose symbol resolves to a non-zero S as S + A, and every other byte below the heap is as it was |
| Relocation.RelocationIsEntries | Native/Loader/elf_loader_emulator.cpp:1034-1055 | although each entry is read from memory as the earlier ones left it, the pass applies exactly the entries that were there at the start |
| Relocation.EntriesAt | Native/Loader/elf_loader_emulator.cpp:1033-1036 | a mapped table of whole entries is read as size / 24 entries, each decoded from the bytes of its own slot |
| TableBytes.EntriesAreRaw | Native/Loader/elf_loader_emulator.cpp:1034-1036 | each entry's fields are those of the table's bytes: the first word the offset, the low half of the second word the type, its high half the symbol's index, the third word the addend |
| TableBytes.BytesRelocated | Native/Loader/elf_loader_emulator.cpp:1027-1059 | relocation told from those bytes: an entry with type 0x403 leaves base + (A - min_vaddr), one with type 0x101, 0x401 or 0x402 leaves S + A, or the old word when its symbol has no address, and every other byte below the heap stays as it was |
| TableBytes.ReadyIsRelocatable | Native/Loader/elf_loader_emulator.cpp:1034-1055 | what the relocation results ask of decoded entries follows from the same conditions on the bytes |
| Relocation.OrderIrrelevant | Native/Loader/elf_loader_emulator.cpp:1027-1059 | two orders of the same entries bind the same names and leave the same bytes below the heap, save in the words of names that had no address before, each of which holds its own order's new address plus A |
| LinkAll.AllRelocated | Native/Loader/elf_loader_emulator.cpp:1205-1210 | after all libraries have been relocated each one's words hold what its own entries ask for under the final bindings, and below the heap nothing else changed |
| Position.PositionIndependent | Native/Loader/elf_loader_emulator.cpp:1038-1049 | relocating one library of a program whose libraries are each moved by their own distance ends in the same way with the same bindings, and each word moves by the distance of the library it refers into; behind a library the two machines need the same addresses mapped only as far as the 255-byte name buffer reaches |
| Twins.PlacedTwins | Native/Loader/elf_loader_emulator.cpp:1133-1199 | one file placed at two bases gives the same bytes, the same tables and the same symbols, all moved by the distance, when the loader reads its dynamic table and symbols inside its span |
| Twins.PlacedAllTwins | Native/Loader/elf_loader_emulator.cpp:1061-1203 | the same for any list of files loaded one after the other, each at its own two bases |
| WholeLink.LinkIndependent | Native/Loader/elf_loader_emulator.cpp:1205-1210 | two whole links of the same libraries, each library moved by its own distance, abort together, hand out the same fresh addresses and match library by library as above |
| LoadLink.LoadLinkIndependent | Native/Loader/elf_loader_emulator.cpp:1027-1210 | the same from the files on: loading all of them at other bases and relocating them all |
| Resolver.SettleBinds | Native/Loader/elf_loader_emulator.cpp:952-1025 | resolving only ever adds a binding, adds at most the name it resolves, and returns the address the resulting bindings give |
| SymbolBytes.SymbolsAreRaw | Native/Loader/elf_loader_emulator.cpp:953-957 | both loaders read symbol i in the 24 bytes at symtab + 24 * i: the name's offset in bytes 0-3, the info in byte 4, the section in bytes 6-7, the value in bytes 8-15 |
| SymbolBytes.NamedSymbol | Native/Loader/elf_loader_emulator.cpp:959-1012 | from a named symbol's bytes: with a value and a section it is that address of its own library; undefined and defined by no library, it is to be bound, as data if and only if its type is 1 or its name is one of the five listed names or starts with one of the six listed prefixes |
| SymbolBytes.UndefinedSymbol | Native/Loader/elf_loader_emulator.cpp:975-1024 | an undefined symbol that some library defines has the address of the first hit in the places of `EmulatorOrder`, and is to be bound only when there is none |
| SymbolBytes.NamelessSymbol | Native/Loader/elf_loader_emulator.cpp:959-969 | a name outside the strings, not wholly readable or empty: the symbol's own value's address, or the library's start when it has none |
| DataOrFunction.FunctionLeadsToStub | Native/Loader/elf_loader_emulator.cpp:998-1024 | from the bytes of the tables to the linked program: every word that refers to an undefined symbol whose type is not 1 and whose name is not listed holds, plus the addend, an address in the import range that contains C0 03 5F D6 and is routed back to that very name |
| DataOrFunction.ObjectLeadsToZeros | Native/Loader/elf_loader_emulator.cpp:999-1022 | when its type is 1 or its name is listed, the word holds, plus the addend, the address of 256 zero bytes of the heap that was still free |
| Lookups.EmulatorOrder | Native/Loader/elf_loader_emulator.cpp:975-1024 | an undefined name gets the address of the first hit among: the referring library, every library in load order, every library under the renamed name; with no hit it is bound, as data or as a function |
| Lookups.HostOrder | Native/Loader/elf_loader_host.cpp:277-311 | an undefined name gets the first hit among: the library and its siblings, the same under the renamed name; with no hit the hook, and with no hook the dummy stub |
| Lookups.SamePickIff | Native/Loader/elf_loader_host.cpp:280-300 | with the same libraries and siblings added in load order, the two linkers pick different definitions exactly when the name is defined nowhere and the referring library and an earlier one define the renamed name at different addresses |
| Lookups.SameResolutionIff | Native/Loader/elf_loader_emulator.cpp:971-996 | the same for the addresses the two resolvers return |
| Lookups.RenamedConflict | Native/Loader/elf_loader_emulator.cpp:982-996 | such an input: two libraries of one granule that define "x3__1", and a reference of the second to "x6__ndk1", which the emulator resolves to the first and the host to the second |
| SymbolNames.NdkNameFixedIff | Native/Loader/elf_loader_emulator.cpp:982-991 | the NDK renaming leaves a name alone if and only if it does not contain "__ndk1" |
| SymbolNames.NdkNameIs | Native/Loader/elf_loader_emulator.cpp:982-991 | the first "6__ndk1" becomes "3__1", in a name without it the first "__ndk1" becomes "__1", and what stands before and behind stays |
| Image.SpanCovers | Native/Loader/elf_loader_emulator.cpp:1088-1105 | the span's bounds are multiples of 64 KiB and every loaded segment, rounded outwards, lies inside it |
| Image.ImageCorrect | Native/Loader/elf_loader_emulator.cpp:1107-1147 | placed in unmapped memory, each segment's bytes are the file's inside p_filesz and zero up to p_memsz, gaps are zero, the whole span becomes mapped and nothing outside it changes |
| Image.CopySegmentsSpec | Native/Loader/elf_loader_emulator.cpp:1133-1147 | on any mapped region the copy leaves segment bytes where segments are and the old byte elsewhere |
| Image.ScanIsLastWriter | Native/Loader/elf_loader_emulator.cpp:1178-1199 | the symbol scan reads exactly the entries before the first unreadable one or the first from index 4 on with an empty name and zero value, and a name ends at the last of them that defines it |
| Image.LastDefinerIsLast | Native/Loader/elf_loader_emulator.cpp:1185-1197 | the last defining entry of a range defines the name and none after it does, or none in the range does |
| SymbolBytes.ScanFromBytes | Native/Loader/elf_loader_emulator.cpp:1180-1197 | the scan's step from the entry's bytes: it ends at an entry it cannot read and, from the fifth on, at one with an empty name and value zero; a name with a value is defined as base + (value - min_vaddr) |
| FileBytes.HeadersAreRaw | Native/Loader/elf_loader_emulator.cpp:1080-1092 | every program header's fields are those of the file: header i at e_phoff (the word at byte 32) + 56 * i, e_phnum of them (bytes 56-57), with type, flags, offset, address, size in the file and size in memory at bytes 0, 4, 8, 16, 32 and 40 |
| FileBytes.SpanIs | Native/Loader/elf_loader_emulator.cpp:1088-1105 | the span is the one range of whole 64 KiB granules that holds every loaded segment and cannot be made smaller at either end |
| FileBytes.BytesLoaded | Native/Loader/elf_loader_emulator.cpp:1080-1203 | loading told from the file's bytes: if the span still fits below the errno page, loading succeeds in a fresh region; byte k of a segment is byte p_offset + k of the file below p_filesz and zero from there to p_memsz, gaps are zero, nothing else changes, and the library is noted with its base, span and the last PT_DYNAMIC header's address |
| FileBytes.LoadedTables | Native/Loader/elf_loader_emulator.cpp:1149-1202 | with it are noted the tables and sizes that the last entries with their tags give in the placed dynamic table, and the symbols that the placed symbol table defines, each by its last definition before the scan ends |
| FileBytes.OtherRefused | Native/Loader/elf_loader_emulator.cpp:1080-1086 | a file that is not identified as a little-endian 64-bit ELF file of the current version is refused and changes nothing |
| DynamicTable.ScanDescribes | Native/Loader/elf_loader_emulator.cpp:1149-1176 | every field of the library is the value, or the placed pointer, of the last entry with its tag before DT_NULL, and is unchanged when there is none |
| DynamicTable.LastIndex | Native/Loader/elf_loader_emulator.cpp:1160-1173 | the last entry with a tag: it has the tag and none after it does, or no entry has it |
| Runtime.InitialInv | Native/Loader/elf_loader_emulator.cpp:161-196 | the constructor's state satisfies the machine's invariant |
| Runtime.StartLayout | Native/Loader/elf_loader_emulator.cpp:161-196 | the constructed machine in numbers: which addresses are mapped, all of them zero, where heap, library range and stubs begin and how large they are |
| Runtime.FaultMapsGranule | Native/Loader/elf_loader_emulator.cpp:100-141 | a survived fault maps exactly the unmapped 64 KiB granule around the address, zeroed, overlapping nothing and changing no byte; the null granule never faults |
| Runtime.FaultAnswers | Native/Loader/elf_loader_emulator.cpp:100-141 | whatever is mapped, the guest goes on after an unmapped read, and after an unmapped write outside the lowest 64 KiB, and after nothing else |
| Runtime.StepKeepsInv | Native/Loader/elf_loader_emulator.cpp:100-276 | every event keeps the invariant: memory in whole granules, the null granule mapped, stubs and bindings mirroring each other and distinct, stubs in the hooked range holding RET, libraries disjoint |
| Runtime.RunKeepsInv | Native/Loader/elf_loader_emulator.cpp:885-950 | so does every run, and bindings, stubs and mapped memory are never lost along it |
| PageAlloc.AllocKeepsValid | Native/Loader/elf_loader_emulator.cpp:143-156 | an allocation keeps the allocator's bounds and alignment and returns an aligned address |
| PageAlloc.AllocSafeIffNoWrap | Native/Loader/elf_loader_emulator.cpp:143-156 | the block covers the request and lies above all earlier ones if and only if neither of the two additions wraps |
| PageAlloc.AllocExact | Native/Loader/elf_loader_emulator.cpp:143-156 | a request takes the least multiple of the alignment that holds it and is not zero, and is refused if and only if the range has not that much left |
| PageAlloc.PageAllocator.constructor | Native/Loader/elf_loader_emulator.h:54-66 | a new allocator has used nothing |
| PageAlloc.PageAllocator.Allocate | Native/Loader/elf_loader_emulator.cpp:143-156 | the method is the allocation function on the object's fields, and changes nothing when it aborts |
| Heap.RunBlocksSafe | Native/Loader/elf_loader_emulator.cpp:223-276 | over every run whose requests do not wrap, all returned blocks are 64-byte aligned, inside the heap and pairwise disjoint |
| Heap.HeapStepMemory | Native/Loader/elf_loader_emulator.cpp:223-276 | a heap hook writes its own block's contents and no other byte |
| Heap.HookTakes | Native/Loader/elf_loader_emulator.cpp:223-276 | every heap hook exactly: it ends the process if and only if 512 MiB do not hold the request (16 bytes more than the block, 128 for an exception) in units of 64; otherwise the next block is returned, and only the heap's pointer and the block's bytes change; malloc writes nothing |
| Heap.WriteBytesStores | Native/Loader/elf_loader_emulator.cpp:223-228 | the bytes given to write_bytes are the ones stored |
| Heap.DataTakes | Native/Loader/elf_loader_emulator.cpp:1014-1022 | binding a name as data takes the next 256 bytes of the heap and changes no other byte; binding it again changes nothing |
| Heap.CallocZeroes | Native/Loader/elf_loader_emulator.cpp:252-263 | every byte of a calloc block is zero |
| Heap.ReallocCopies | Native/Loader/elf_loader_emulator.cpp:265-276 | realloc reads only inside the heap, keeps the first min(old, new) bytes and leaves every other block alone |
| Dispatch.StubHookedIff | Native/Loader/elf_loader_emulator.cpp:192-193 | a stub lies in the hooked range if and only if it is one of the first 8192 |
| Dispatch.SlotReachesName | Native/Loader/elf_loader_emulator.cpp:885-896 | after one library's relocation the slot of an undefined function symbol that nothing binds as data holds a hooked address that contains RET and that the router maps back to that very name |
| LinkedSlots.LinkedSlotReachesName | Native/Loader/elf_loader_emulator.cpp:1205-1210 | the same for any slot of any library once all libraries have been relocated |
| LinkedSlots.LinkedSlotSurvives | Native/Loader/elf_loader_emulator.cpp:885-896 | and the address in that slot still leads to that name after any later run |
| Dispatch.RouteSurvives | Native/Loader/elf_loader_emulator.cpp:205-221 | no later run changes a bound name's address or where it is routed |
| Dispatch.AddressesDistinct | Native/Loader/elf_loader_emulator.cpp:205-221 | distinct names never share an address |
| Resolutions.NameIsCStringIff | Native/Loader/elf_loader_emulator.cpp:959-964 | a name under 255 bytes is read by the resolver as `dlsym` reads it if and only if the 255-byte buffer is wholly readable or the name is empty |
| Resolutions.UnreadableName | Native/Loader/elf_loader_emulator.cpp:961-969 | a symbol whose buffer is not readable resolves to its own value's address, or to the start of its library when it has none, whatever its name |
| Disagreements.NameLostAtEnd | Native/Loader/elf_loader_emulator.cpp:961-969 | a reachable machine in which it does: the function "f" of a library whose strings end its span resolves to the start of that library, while `dlsym` gives an address at or above the heap |
| Disagreements.RenamedForResolverOnly | Native/Loader/elf_loader_emulator.cpp:982-996 | a reachable machine in which "x6__ndk1" resolves to the library that defines "x3__1", while `dlsym` gives an address at or above the heap |
| Resolutions.SameAnswerIff | Native/Loader/elf_loader_emulator.cpp:952-1025 | the condition of the next three rows for an undefined symbol whose name is under 255 bytes. Name readable: the library's own name must be first defined, in load order, at that same non-zero address; a name of another library must not be first defined at zero; a name of nobody must have no renamed form that a library defines. Name unreadable: it must be first defined at the very address it is mistaken for |
| Resolutions.ResolutionsAgree | Native/Loader/elf_loader_emulator.cpp:771-785 | with the libraries fixed, any two resolutions of one name, by `dlsym` or by references that meet the condition, in either order and with any run between them, give the same address |
| Resolutions.ResolveThenDlsymIff | Native/Loader/elf_loader_emulator.cpp:952-1025 | for every reference and every name, library addresses below the heap: resolving, any run, and then `dlsym` give the same address if and only if the condition holds of the reference |
| Resolutions.DlsymThenResolveIff | Native/Loader/elf_loader_emulator.cpp:771-785 | the same for `dlsym`, any run, and then resolving |
| Disagreements.DefinedAtZero | Native/Loader/elf_loader_emulator.cpp:1233-1239 | a reachable machine in which a name is defined at zero: the resolver gives zero and `dlsym` an address at or above the heap |
| Placement.RunClear | Native/Loader/elf_loader_emulator.cpp:1094-1112 | runs without faults leave the unused library range unmapped except for the errno page |
| Placement.FreshIff | Native/Loader/elf_loader_emulator.cpp:1107-1112 | a library's region is unmapped before it is placed if and only if it avoids the errno page |
| Placement.LoadFresh | Native/Loader/elf_loader_emulator.cpp:1061-1147 | loading succeeds in a fresh region above all earlier libraries and leaves the file's image, as long as the spans end below the errno page |
| Placement.LoadFreshFromStart | Native/Loader/elf_loader_emulator.cpp:161-196 | the same at the end of any run without faults of the constructed machine |
| Machine.EmulatorVM.constructor | Native/Loader/elf_loader_emulator.cpp:161-196 | the constructed machine is the initial state of the runs |
| Machine.EmulatorVM.RegisterImport | Native/Loader/elf_loader_emulator.cpp:205-221 | the method is the registry function that the dispatch results are about |
| Machine.EmulatorVM.Malloc | Native/Loader/elf_loader_emulator.cpp:245-250 | is the malloc event of the runs |
| Machine.EmulatorVM.Calloc | Native/Loader/elf_loader_emulator.cpp:252-263 | is the calloc event |
| Machine.EmulatorVM.Realloc | Native/Loader/elf_loader_emulator.cpp:265-276 | is the realloc event |
| Machine.EmulatorVM.WriteBytes | Native/Loader/elf_loader_emulator.cpp:223-228 | is the write_bytes event |
| Machine.EmulatorVM.AllocateException | Native/Loader/elf_loader_emulator.cpp:809-814 | is the exception allocation event |
| Machine.EmulatorVM.MemInvalid | Native/Loader/elf_loader_emulator.cpp:100-141 | is the fault event |
| Machine.EmulatorVM.FindSymbol | Native/Loader/elf_loader_emulator.cpp:1233-1239 | finds the first library in load order that defines the name |
| Machine.EmulatorVM.ReadString | Native/Loader/elf_loader_emulator.cpp:775-779 | reads the bytes up to the first zero or unreadable one |
| Machine.EmulatorVM.Dlsym | Native/Loader/elf_loader_emulator.cpp:771-785 | the address the libraries give the name read from memory, or else its stub |
| Machine.EmulatorVM.Route | Native/Loader/elf_loader_emulator.cpp:885-896 | in every reachable machine the router inverts the import registry: it finds a name for exactly the addresses in the import range that a name is bound to, and finds that name |
| Machine.EmulatorVM.ResolveSymbol | Native/Loader/elf_loader_emulator.cpp:952-1025 | equals classifying the reference from memory and libraries and then settling it |
| Machine.EmulatorVM.ApplyTable | Native/Loader/elf_loader_emulator.cpp:1028-1055 | the loop over a table is the function the relocation results are about |
| Machine.EmulatorVM.ApplyRelocations | Native/Loader/elf_loader_emulator.cpp:1057-1058 | RELA, then JMPREL |
| Machine.EmulatorVM.RelocateAll | Native/Loader/elf_loader_emulator.cpp:1205-1210 | every library in load order |
| Machine.EmulatorVM.FindSpan | Native/Loader/elf_loader_emulator.cpp:1088-1105 | the loop computes the span |
| Machine.EmulatorVM.CopyHeaders | Native/Loader/elf_loader_emulator.cpp:1133-1147 | the loop copies the segments and notes the last PT_DYNAMIC |
| Machine.EmulatorVM.ReadDynamic | Native/Loader/elf_loader_emulator.cpp:1149-1176 | the loop is the dynamic scan |
| Machine.EmulatorVM.ReadSymbols | Native/Loader/elf_loader_emulator.cpp:1178-1199 | the loop is the symbol scan, and ends because memory is finite |
| Machine.EmulatorVM.LoadLibrary | Native/Loader/elf_loader_emulator.cpp:1061-1203 | the whole load, refusals included |
| HostRelocation.LastPassWins | Native/Loader/elf_loader_host.cpp:255-390 | for a library relocated by RELA tables, a pass after any other pass leaves what it would have left alone; so repeating a pass changes nothing |
| HostRelocation.PassIsSteps | Native/Loader/elf_loader_host.cpp:313-390 | a pass over memory whose tables are intact applies the entries as loaded |
| TableBytes.HostEntriesAreRaw | Native/Loader/elf_loader_host.cpp:319-390 | the entries of the host's RELA, REL and JMPREL tables are those of the bytes, and JMPREL is a REL table if and only if DT_PLTREL is 17 |
| TableBytes.HostBytesRelocated | Native/Loader/elf_loader_host.cpp:313-390 | the host's relocation told from those bytes: 0x403 leaves base + A, 0x101 leaves S + A, 0x401 and 0x402 leave S, A being the word itself in a REL table, and every other byte is kept |
| HostRel.SecondPassIff | Native/Loader/elf_loader_host.cpp:347-380 | for any mixture of REL and RELA entries with disjoint words, the second pass is harmless if and only if no REL entry is RELATIVE and no REL ABS64 symbol resolved to a non-zero address the first time |
| HostRel.RelRelativeDrift | Native/Loader/elf_loader_host.cpp:347-362 | a REL RELATIVE word holds A + k * base after k passes |
| HostLoader.LateIsEarly | Native/anisette_core_mac.cpp:51-66 | two RELA libraries each relocated alone while loading and again once they are siblings end exactly as if relocated once with the sibling known |
| HostLoader.PassBytes | Native/Loader/elf_loader_host.cpp:313-390 | a pass gives every relocated byte a value that does not depend on earlier passes and keeps every other byte |
| GuardedRelocation.GuardedPassIff | Native/Loader/elf_loader_host.cpp:313-419 | in a process with read-execute pages a pass faults if and only if some byte it relocates lies on one of them, and is otherwise the plain pass |
| HostLoader.LinkedIff | Native/anisette_core_mac.cpp:51-66 | the whole link of two libraries, whose late passes run behind the pages their early ones protected, faults if and only if some word of either lies on such a page, and otherwise ends as linking once with the siblings known |
| HostLoader.WritableLinks | Native/Loader/elf_loader_host.cpp:392-419 | two libraries whose words lie in writable segments sharing no page with an executable-only one link without a fault |
| HostLoader.LoadBothIff | Native/anisette_core_mac.cpp:44-66 | from two files to the linked program: the second is placed after the first has been relocated alone, and each is relocated twice; the whole faults if and only if some word lies on a page the loads protect, and otherwise ends as linking the two images once with each other known |
| HostLoader.LoadPair | Native/anisette_core_mac.cpp:44-66 | the method is those steps, failures to load and faults included |
| HostExtend.PassWithin | Native/Loader/elf_loader_host.cpp:313-390 | a pass over more memory does to its library what it does alone, and nothing to the rest |
| HostExtend.PlaceAfterPass | Native/anisette_core_mac.cpp:46-54 | relocating one library before or after another is placed leaves the same memory |
| HostLoader.ElfLoader.constructor | Native/Loader/elf_loader_host.cpp:225-233 | a new loader has loaded nothing |
| HostLoader.ElfLoader.Prepare | Native/Loader/elf_loader_host.cpp:460-758 | the steps of `load` up to its relocation: refusals, the placed image, its tables, symbol count, exports and segments |
| HostLoader.ElfLoader.Load | Native/Loader/elf_loader_host.cpp:423-775 | those steps and the relocation, with the pages it protects |
| HostLoader.ElfLoader.LoadFile | Native/Loader/elf_loader_host.cpp:449-775 | from the file's bytes: a file without the magic number or for another machine is refused and changes nothing; any other is loaded by the headers it holds |
| HostFile.ReadHeaders | Native/Loader/elf_loader_host.cpp:474-475 | the loop reads e_phnum headers that are e_phentsize bytes apart |
| HostFile.HeadersAlike | Native/Loader/elf_loader_host.cpp:474-475 | both loaders see the same headers when e_phentsize is 56 or there is at most one |
| HostFile.SegmentsFromBytes | Native/Loader/elf_loader_host.cpp:497-501 | the segments noted for protection are the file's loaded segments, each with its own address, size in memory and flags |
| HostLoader.ElfLoader.AddSibling | Native/Loader/elf_loader_host.cpp:251-253 | appends to the siblings and changes nothing else |
| HostLoader.ElfLoader.GetSymbol | Native/Loader/elf_loader_host.cpp:778-785 | the exported address, or zero |
| HostLoader.ElfLoader.Find | Native/Loader/elf_loader_host.cpp:280-286 | the first map with the name, the library's own before its siblings' in order |
| HostLoader.ElfLoader.ResolveSymbol | Native/Loader/elf_loader_host.cpp:271-311 | own value, exports under the name, exports under the renamed name, hook, dummy stub, in that order |
| SymbolBytes.HostSymbol | Native/Loader/elf_loader_host.cpp:271-311 | that from the symbol's bytes: zero from the counted symbols on, the symbol's own value placed, or else the first hit in the places of `HostOrder`, the hook, the dummy stub |
| HostLoader.ElfLoader.ApplyTable | Native/Loader/elf_loader_host.cpp:313-380 | the loops over RELA and REL tables are the table function of the pass, ending the process at a store to a read-execute page |
| HostLoader.ElfLoader.Relocate | Native/Loader/elf_loader_host.cpp:255-421 | memory ends as the pass says or the process with it, and the pages added to the read-execute ones are those of the executable-only segments |
| HostImage.CopyFitsIff | Native/Loader/elf_loader_host.cpp:480-511 | the host's copy stays inside its mapping if and only if the lowest segment address is zero |
| HostImage.CopyMisses | Native/Loader/elf_loader_host.cpp:498-504 | a library linked at 64 KiB: its copy starts where its mapping ends |
| HostImage.SpanReached | Native/Loader/elf_loader_host.cpp:460-481 | the host's bounds hold every segment and are reached by some segment |
| HostImage.PlaceImage | Native/Loader/elf_loader_host.cpp:460-511 | the loops map the span and copy every segment at base + p_vaddr, or refuse a file without a segment or with an empty span |
| HostImage.HostImageCorrect | Native/Loader/elf_loader_host.cpp:484-511 | with lowest address zero the mapping holds the file's segments, and zeros elsewhere |
| HostImage.ImagesAgree | Native/Loader/elf_loader_host.cpp:498-511 | such a file becomes the same image in the emulator and on the host, whatever the bases |
| Agreement.WordsAgreeIff | Native/Loader/elf_loader_host.cpp:319-341 | for an entry that refers into the library, by value or by a name the library defines, the two loaders' words are the same reference if and only if it is RELATIVE or ABS64 or its addend is zero |
| Agreement.RelocatedImagesAgree | Native/Loader/elf_loader_host.cpp:313-390 | after both have relocated, this holds of every such word in memory, and every byte no entry aims at is equal |
| Agreement.HostSafe | Native/Loader/elf_loader_host.cpp:313-390 | what the host's pass needs of tables and targets follows from what the emulator's needs |
| HostDynamic.ScansAlike | Native/Loader/elf_loader_host.cpp:520-578 | read in the two images, a dynamic table that ends in its library and names tables there gives both loaders the same tables |
| HostDynamic.TwinFromTables | Native/Loader/elf_loader_host.cpp:546-578 | so the two descriptions of the library are twins once both have found the same symbols |
| HostSymbols.ScanIsLinear | Native/Loader/elf_loader_emulator.cpp:1178-1199 | when every counted symbol is defined under a readable name or not at all, and the emulator's scan finds no definition behind them, the scan and the host's pass over the counted symbols find the same names, each at its own place |
| FileAgreement.ImagesAreTwins | Native/Loader/elf_loader_host.cpp:595-752 | so two copies of one file give twin descriptions, whether the host counts symbols by DT_HASH, by a GNU hash section as linkers write it or by scanning |
| FileAgreement.FileToRelocatedImages | Native/Loader/elf_loader_host.cpp:313-752 | from one file on: the library the host describes and the one the emulator notes, relocated, agree in the sense of `RelocatedImagesAgree`, in all three cases |
| SysvHash.CountIsChainLength | Native/Loader/elf_loader_host.cpp:595-597 | for a DT_HASH section as the System V ABI lays it out, the count is the length of its chain table, and every symbol a lookup through the section can reach is below it |
| SysvHash.HashedExportsAgree | Native/Loader/elf_loader_host.cpp:724-752 | with such a section, with or without a GNU one, the host's exports are the emulator's symbols, each at its own place |
| SysvHash.HashedFileAgrees | Native/Loader/elf_loader_host.cpp:313-752 | so the two relocated images of a file with a DT_HASH section agree in the same sense |
| HostLoad.FindDynamic | Native/Loader/elf_loader_host.cpp:519-526 | the loop finds the first PT_DYNAMIC header |
| HostFile.DynamicFromBytes | Native/Loader/elf_loader_host.cpp:519-526 | that header from the file's bytes |
| HostLoad.NoteSegments | Native/Loader/elf_loader_host.cpp:497-503 | the loop notes every loaded segment, in order |
| HostLoad.ScanForCount | Native/Loader/elf_loader_host.cpp:618-626 | the scan without a hash section stops at an empty entry past the first or after 10001 entries |
| HostTables.ScanCountsToEmpty | Native/Loader/elf_loader_host.cpp:618-626 | that count on the bytes: the first symbol after symbol 0 with neither name nor value, or 10001 when none of the next 10000 is such |
| HostLoad.CountSymbols | Native/Loader/elf_loader_host.cpp:595-627 | DT_HASH, or the GNU hash section, or the scan gives the symbol count |
| HostLoad.CollectExports | Native/Loader/elf_loader_host.cpp:724-752 | the chain walk, or the linear pass without a GNU hash section |
| HostDynamic.LocateTables | Native/Loader/elf_loader_host.cpp:546-578 | the loop over the dynamic table is that reading, and ends |
| HostTables.LocateIsLast | Native/Loader/elf_loader_host.cpp:546-578 | every table is where the last 16-byte entry with its tag before a tag of zero says, and every size what it says, by the tags' numbers |
| HostTables.DescribedIffTables | Native/Loader/elf_loader_host.cpp:519-592 | a placed image is accepted if and only if it has a dynamic header and the table there names symbols and strings |
| GnuHashTable.ExportsEqualLinear | Native/Loader/elf_loader_host.cpp:724-752 | when non-empty buckets increase, chains tile the hashed symbols and unhashed ones are undefined, the chain walk builds the map of the linear scan, including which duplicate wins |
| GnuHashTable.WalkBelowCount | Native/Loader/elf_loader_host.cpp:598-616 | every symbol a walk from a bucket touches is below the derived count |
| GnuHashTable.DeriveSymCount | Native/Loader/elf_loader_host.cpp:598-616 | the loops end, at one past the end of the chain of the largest bucket |
| GnuHashTable.CountIsTotal | Native/Loader/elf_loader_host.cpp:598-616 | for a section as linkers write it that count is the number of the library's symbols, hashed or not |
| HostSections.SectionIsParsed | Native/Loader/elf_loader_host.cpp:599-606 | the buckets and chains the loops use are those of the section's bytes, behind four header words and the filter |
| HostSections.GnuCountIsTotal | Native/Loader/elf_loader_host.cpp:598-616 | so for such a section in memory the count is symoffset plus the number of its chain words, whatever follows it |
| GnuHashTable.EndOfChain | Native/Loader/elf_loader_host.cpp:610-614 | the inner loop ends at the first terminating word at or after the symbol |
| GnuHashTable.BuildExports | Native/Loader/elf_loader_host.cpp:724-743 | the loop over buckets is the walk |
| GnuHashTable.AddChain | Native/Loader/elf_loader_host.cpp:732-742 | the inner loop adds one chain's symbols in order, and ends |
| GnuHashTable.BuildExportsLinear | Native/Loader/elf_loader_host.cpp:744-752 | the loop used without a GNU hash section is the linear scan |
| PageProtection.CoverIsSmallest | Native/Loader/elf_loader_host.cpp:396-402 | for any page size the protected interval is page-aligned, covers the segment and lies in every aligned interval that does |
| PageProtection.ProtectedIff | Native/Loader/elf_loader_host.cpp:392-419 | over the whole segment list a page ends read-execute if and only if an executable-only segment has a byte on it, or is empty and starts strictly inside it |
| PageProtection.FlagBits | Native/Loader/elf_loader_host.cpp:395-398 | executable-only means flag bit 0 set and bit 1 clear, whatever the other bits are |
| PageProtection.WritablePageShared | Native/Loader/elf_loader_host.cpp:392-419 | a page of a writable segment becomes read-execute only if an executable-only segment shares it |
| PageProtection.Protect | Native/Loader/elf_loader_host.cpp:392-419 | the loop protects exactly those pages |
| RwLock.ExclusionInEveryRun | Native/Loader/elf_loader_host.cpp:941-991 | in every interleaving in which no lock in use is destroyed and no lock not held is released, a guest lock held for writing has one holder, guest locks are one to one with live host locks, and no freed lock is used |
| RwLock.StepKeepsInv | Native/Loader/elf_loader_host.cpp:941-991 | each atomic step keeps that invariant |
| RwLock.RacersShareOneLock | Native/Loader/elf_loader_host.cpp:944-957 | threads waiting for one guest lock wait for the same live host lock |
| RwLock.FirstUseMakesOneLock | Native/Loader/elf_loader_host.cpp:944-957 | two racing first uses make one host lock, whichever comes first |
| RwLock.GrantedIffGuestFree | Native/Loader/elf_loader_host.cpp:964-972 | the host lock lets a thread in if and only if a lock of the guest's own would |
| RwHistory.HoldsAreHistory | Native/Loader/elf_loader_host.cpp:959-980 | in every interleaving a thread holds a guest lock exactly as often as it was let in minus how often it gave the lock back, counted from the sequence of calls alone, in the mode in which it was last let in and on that lock's one host lock |
| RwHistory.LetInIff | Native/Loader/elf_loader_host.cpp:964-972 | a waiting writer can be let in if and only if everybody has given the lock back as often as they were let in; a waiting reader if and only if every writer has |
| RwHistory.WriterAlone | Native/Loader/elf_loader_host.cpp:969-972 | a writer that has not given the lock back is inside once, and nobody else is |
| RwHistory.MayGiveBackIff | Native/Loader/elf_loader_host.cpp:974-980 | an idle thread that respects the lock's rules can begin to give it back if and only if it is inside |
| RwHistory.GivingBackEnds | Native/Loader/elf_loader_host.cpp:974-980 | giving back never waits, and counts |
| RwHistory.KnownIff | Native/Loader/elf_loader_host.cpp:944-991 | a guest lock has a host lock if and only if the last call to initialise, lock or destroy it was not to destroy it |
| RwLock.DestroySafeIffUnused | Native/Loader/elf_loader_host.cpp:982-991 | destroying a known lock keeps the invariant if and only if nobody holds it or is in a hook on it |
| RwLock.DestroyedWhileHeld | Native/Loader/elf_loader_host.cpp:982-991 | destroying a lock held for writing lets a second writer in |
| RwLock.LockTable.GetHostLock | Native/Loader/elf_loader_host.cpp:944-957 | the method is the find-or-create step |
| RwLock.LockTable.Destroy | Native/Loader/elf_loader_host.cpp:982-991 | the method is the destroy step |
| StringHooks.StrncmpMeetsC | Native/Loader/elf_loader_emulator.cpp:316-331 | the sign is that of the first differing unsigned byte within n, a terminator counting as zero (C11, section 7.24.4.4) |
| StringHooks.StrcmpMeetsC | Native/Loader/elf_loader_emulator.cpp:300-314 | the same with nothing cut short (C11, section 7.24.4.2) |
| StringHooks.Strcmp | Native/Loader/elf_loader_emulator.cpp:300-314 | compares the two strings in memory, a null pointer reading as empty |
| StringHooks.Strncmp | Native/Loader/elf_loader_emulator.cpp:316-331 | compares at most n bytes of each |
| StringHooks.ReadBounded | Native/Loader/elf_loader_emulator.cpp:322-328 | the loop reads at most n bytes of the string |
| StringHooks.StrncpyMeetsC | Native/Loader/elf_loader_emulator.cpp:349-370 | unless it would overtake its own source, strncpy changes exactly n bytes: the string, then zeros (C11, section 7.24.2.4) |
| StringHooks.OvertakenCopy | Native/Loader/elf_loader_emulator.cpp:355-367 | a copy one byte up over itself does not do that |
| StringHooks.Strncpy | Native/Loader/elf_loader_emulator.cpp:349-370 | the loop, reading the source as already written |
| StringHooks.ScanString | Native/Loader/elf_loader_emulator.cpp:828-832 | the scan's pointer ends one past the byte that ended it |
| StringHooks.Strtoll | Native/Loader/elf_loader_emulator.cpp:822-842 | returns the parsed value; the end pointer stored, if one is wanted, is the original pointer plus what was used if that pointer was not null (C11, section 7.22.1.4), and the last address there is if it was, although the code counts it back from past the terminator |
| Base64.RoundTrip | Native/anisette_base.cpp:80-108 | a strict decoder (RFC 4648, sections 4 and 3.5) inverts the encoder on every byte string, so unused bits are zero |
| Base64.Canonical | Native/anisette_base.cpp:80-108 | the encoder inverts the decoder: no two texts decode to the same bytes |
| Base64.LengthAndPadding | Native/anisette_base.cpp:80-108 | the output has 4 * ceil(n / 3) characters, and as many pads as bytes the last group lacks |
| Base64.LetterIsTable | Native/anisette_base.cpp:82 | the alphabet is the table of section 4 |
| Base64.Vectors | Native/anisette_base.cpp:80-108 | three test vectors of RFC 4648, section 10, one for each amount of padding |
| Base64.EncodeLoop | Native/anisette_base.cpp:86-107 | the loop over groups computes the encoder |
| Base64.EmitGroup | Native/anisette_base.cpp:92-104 | the four characters of a group |
| Base64.CollectBits | Native/anisette_base.cpp:88-91 | the inner loop gathers a group's bytes, left-aligned in 24 bits |
| Identifiers.UuidIffParsed | Native/anisette_base.cpp:110-120 | a text is the UUID of an identifier if and only if it reads back as it, dashes and lower-case digits included |
| Identifiers.UuidText | Native/anisette_base.cpp:110-120 | the UUID is 36 characters: two lower-case digits for each byte in order, the high half first, and dashes behind bytes 4, 6, 8 and 10 |
| Identifiers.UuidInjective | Native/anisette_base.cpp:110-120 | distinct identifiers, null included, have distinct UUID texts |
| Identifiers.PathInjective | Native/anisette_core_uc.cpp:103-104 | two provisioning paths are equal if and only if directory and identifier are |
| Identifiers.PathText | Native/anisette_core_uc.cpp:103-104 | the path is the directory, one slash and the UUID, which is empty for a null identifier |
| Identifiers.AndroidIdIffPrefix | Native/anisette_base.cpp:122-130 | two identifiers share an Android id if and only if their first eight bytes agree |
| Identifiers.AndroidIdText | Native/anisette_base.cpp:122-130 | the Android id is sixteen characters: two upper-case digits for each of the first eight bytes |
| Identifiers.SharedAndroidId | Native/anisette_base.cpp:122-130 | two identifiers with different UUIDs that share an Android id |
| Setup.SuccessSetsAdi | Native/anisette_core_uc.cpp:103-144 | after any sequence of requests, one that succeeds leaves ADI holding its path, and its Android id if and only if the identifier is not null or ADI had been given an id before |
| Setup.FirstFailureDecides | Native/anisette_core_uc.cpp:47-145 | a request answers with the error of the first failing step of a fixed list, or with its path; the cached build passes over a setter whose value it remembers, the macOS build never does |
| Setup.NullIdentifierNotSet | Native/anisette_core_uc.cpp:124-125 | a first request with a null identifier succeeds in both builds, but only the macOS one tells ADI its (empty) id |
| Setup.RunTruthful | Native/anisette_core_uc.cpp:41-45 | in every reachable state a non-empty remembered value is what ADI holds |
| Setup.CachedRefinesPlain | Native/anisette_core_mac.cpp:90-125 | after any sequence of requests, one that the macOS build would serve is served by the cached build with the same path, unless the library range is used up; ADI then holds the same values in both if and only if the identifier is not null or ADI had been given an id before |
| Setup.RetriesUseRange | Native/anisette_core_uc.cpp:70-101 | a set-up that loads both libraries and then fails takes their spans of the library range at every retry, and the process ends at the first retry the range does not hold |
| Setup.EmulatorSetup.BringUp | Native/anisette_core_uc.cpp:70-101 | loads until one attempt has succeeded, and says what stopped it |
| Setup.RepeatCallsNothing | Native/anisette_core_uc.cpp:107-142 | repeating a request just served succeeds however the setters would answer, and changes nothing |
| Setup.EmulatorSetup.SetUp | Native/anisette_core_uc.cpp:47-145 | the method is the cached step on the globals |
| Setup.MacSetup.SetUp | Native/anisette_core_mac.cpp:29-127 | the method is the uncached step; a failure while loading drops both libraries |
| Words.WordRoundTrip | Native/Loader/elf_loader_emulator.cpp:1041-1046 | a 64-bit word stored little-endian is loaded back as it was |
| Words.LowByteFirst | Native/Loader/elf_loader_emulator.cpp:1035-1046 | a number of two, four or eight bytes has its lowest byte first |

## Where the code differs from its own text, or the two loaders from each other

- The host's log text reads DT_PLTREL as "7=REL, 17=RELA"; its code compares
  with DT_REL, which is 17.
- The host adds p_vaddr to the base but maps only max - min bytes; the emulator
  subtracts the lowest address.  `HostImage.CopyFitsIff` says when this matters.
- The emulator tries a renamed name in the libraries in load order, the host in the library itself first. `Lookups.SamePickIff` says when this matters.
- The resolver reads a name through a fixed 255-byte buffer and `dlsym` byte by byte; the resolver tries the referring library's own symbols first and the renamed name last, which `dlsym` does not; and `dlsym` takes an address of zero for no address. `Resolutions.ResolveThenDlsymIff` says when any of this matters.
- The emulator checks the ELF class, byte order and version but not the machine, and takes program headers to be 56 bytes apart; the host checks the machine but not those, and reads the distance from the file. `HostFile.HeadersAlike` says when both see the same headers.
- The host writes S alone for GLOB_DAT and JUMP_SLOT, the emulator S + A.
  `Agreement.WordsAgreeIff` says when this matters.
- `setup_vm_and_adi` compares with an initially empty remembered id, so an empty
  Android id is not sent first; its exported callers never pass a null identifier.

## Left out

- Unicorn and AArch64 execution: the guest is an arbitrary sequence of hook calls, faults and writes outside the import range; mapping gives zeroed memory and is refused only for overlap or past the top of the address space. Page permissions are not modelled.
- The ADI libraries: only the path and id setters, as last-write-wins state whose refused calls change nothing.
- `write_string` inside the set-up: its heap use can only end the process, which ends every run; `mkdir` and the call results are parameters.
- `dlopen`, host `dlsym` and the body of `lookup_hook`: a fixed function from names to addresses.
- File I/O, the guest descriptor table, stat translation, time, randomness, property strings, JSON, logging, mutexes other than the lock table's: foreign calls or one-branch facts.
- `strlen`, `strcpy`, `memcpy`, `memset`, `memcmp`, `memchr`, `strtod`: they would repeat the string results. The value `strtoll` parses is the host's own and is a parameter.
- The Swift client.
- The diagnostic read at a fixed offset. The host's GNU hash section is read as the words up to the end of the image, and must have chains that end, as the source assumes; of a DT_HASH section only the counts are read.
- The host's raw pointers: an unmapped byte, which the process could not read, counts as zero, and a write to it is lost. A failing `mprotect` is not modelled.
- Address arithmetic inside loops: entry, symbol, dynamic and string addresses that pass 2^64 read as unmapped instead of wrapping to zero. `next_import_address` and the host's `sym_count` are unbounded.
- AlignDown: `x & ~(a - 1)` is `x - x % a`, the same for the powers of two the source uses.
- RelocationMeetsSpec: says nothing about a library whose target words overlap one another or the tables, or lie in the heap; the class `EmulatorVM` still models those step by step.
- ScanIsLastWriter: names are sequences of characters, one a byte, without any encoding.
- SlotReachesName: at most 8192 stubs and a zero addend, since later stubs lie outside the hooked range.
- LateIsEarly: RELA tables only, because `HostRel.RelRelativeDrift` makes it false for REL.
- RelocatedImagesAgree: covers words that refer into the library itself through a readable name or a value; undefined symbols lead to stubs in one loader and to host functions in the other. That both loaders find the same symbols is a hypothesis here; `FileToRelocatedImages` derives it from the file.
- PlacedTwins: a dynamic table or symbol scan that runs past the end of its library reads whatever lies behind it, so it is left out.
- ProtectedIff: assumes that base, address, size and page together do not pass 2^64.
- Compare: only the sign of `std::string::compare` is fixed by its standard, so the model returns -1, 0 or 1.
- ExclusionInEveryRun: fairness, and the return codes of the hooks; a lock is granted as the host's own implementation would grant it, and allocation never fails.
