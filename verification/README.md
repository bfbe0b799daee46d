# Verified models of the OP-TEE parts of TrustWasm

A Dafny project that models seven parts of the repository and proves what they are
for. `dafny verify dfyconfig.toml` verifies all of it.

- **The TA loader** (`ldelf`): symbol lookup through DT_GNU_HASH and DT_HASH against
  a linear scan (`ElfSymbols`, `GnuHash`, `SysvHash`, `SymbolResolution`); merging of
  PT_LOAD segments (`Segments`); the queue of dependencies that grows while it is
  walked (`Dependencies`); enumeration of segments and the mapping dump
  (`SegmentOrder`, `MappingDump`).
- **The thread pool of tee-supplicant** as a state machine over the program counters
  of its threads (`Supplicant`).
- **SHA-256, HMAC and the RPMB emulator**: streaming against one-shot, chunking, and
  whole runs of the device (`Sha256`, `Hmac`, `Rpmb`, `RpmbEmulator`).
- **PKCS#11 objects on the wire**: serialiser, reader and template-driven
  deserialiser (`Serialize`, `Mechanism`, `Deserialize`).
- **Shared memory of the TEE Client API**: ownership under every pattern of failures
  (`SharedMemory`) and transparency of shadow buffers (`Shadow`).
- **Signed TAs and subkey chains**: writer, parser, signing commands and verifying
  loop (`SignedImage`, `SubkeyChain`, `ChainVerify`).
- **Binary morphology** of the fingerprint TA (`Morphology`).

`Words` holds machine words and byte order, `Common` what several modules share.

How the models are built:

- Code that works step by step is a method with its loop, proved against a
  specification function; the laws are lemmas about that function.
- `err()`, `exit()`, exceptions and failed asserts are outcomes of the model.
- The compression function of SHA-256, hashing and signing of `sign_encrypt.py`, the
  UUID hash and the TA are parameters: the results hold for all of them. Where a
  result needs that signatures verify, it says so.
- System calls and allocations may fail at every point.
- Integers are unbounded; where the width matters, truncation is written out.

Where code and documentation disagree, the model follows the code:

- The comment on `ta_elf_resolve_sym()` promises that a given module is the only one
  searched, that weak symbols are considered only when no module has the global one,
  and undefined weak symbols only when there is neither. The code settles each module
  before the next, takes the first weak symbol of a module whether or not it is
  defined, and goes on to the queue after a given module.
  `SymbolResolution.DocumentedOrderIff` says when this makes no difference.
- The comment in `spawn_thread()` says that announcing a thread before it runs avoids
  starting another one. Between the test of the counter and the announcement there is
  room for a second thread to decide the same (`Supplicant.TwiceIsReached`).
  `Supplicant.PoolIsBounded` is what holds; the number of requests served at a time
  does not bound the pool (`Supplicant.ServingBoundsNothing`).
- `check_gnu_hashtab()` doubles the filter size in 32 bits, so that it also lets
  through tables whose chains start outside (`GnuHash.ChainsStartInsideIff`).
- The comment in `adjust_segments()` demands that merged segments agree in offset;
  the asserts only compare modulo the alignment (`Segments.OffsetsArePreservedIff`).
- The help text of `sign-subkey` describes identity subkeys (name size 0), which the
  verifying loop never accepts with an image behind them, because it compares a UUID
  object with bytes (`ChainVerify.IdentitySubkeyIsRefused`).
- A counter read of the RPMB emulator signs its response before it stores the result
  code (`Rpmb.CounterReadMacIff`, `Rpmb.CounterReadFails`).
- An RPMB data read outside the storage is not answered: its result is dropped and
  the host gets its own frames back (`Rpmb.DataReadAnswersIff`,
  `Rpmb.ReadOutOfBounds`).
- A list of mechanisms is sent with four bytes for each mechanism and skipped with
  eight; a template is sent as an object and skipped as an array
  (`Deserialize.DriftIff`, `Deserialize.OneMechanismDrifts`,
  `Deserialize.TemplatesDrift`).
- A query for the size of a value, without memory, is answered with the caller's own
  `ulValueLen` when that is larger (`Deserialize.SizeArrivesIff`).

## Model

| member | source | states |
|---|---|---|
| `Supplicant.FindParams` | optee_client-3.21.0/tee-supplicant/src/tee_supplicant.c:554-582 | a parameter list is accepted iff no meta parameter follows another parameter; the number of leading meta parameters is returned |
| `Supplicant.CounterIsExact` | optee_client-3.21.0/tee-supplicant/src/tee_supplicant.c:115-139 | in every interleaving, failures included, num_waiters equals the increments that threads hold plus those that were given up, and the assert of the decrement never fires |
| `Supplicant.CleanRunsAttend` | optee_client-3.21.0/tee-supplicant/src/tee_supplicant.c:584-697 | every state of every run without failures has a thread that listens or gets to the receive call without finishing a handler |
| `Supplicant.QuiescentCount` | optee_client-3.21.0/tee-supplicant/src/tee_supplicant.c:115-139 | whenever no thread can move by itself, num_waiters is the number of listening threads plus the given-up increments, so somebody listens iff it exceeds them |
| `Supplicant.AlwaysAListener` | optee_client-3.21.0/tee-supplicant/src/tee_supplicant.c:613-679 | no run without failures ends with every thread in a handler and nobody in the receive call |
| `Supplicant.UnpromptedMovesEnd` | optee_client-3.21.0/tee-supplicant/src/tee_supplicant.c:584-697 | every move that needs no request and no handler decreases a measure of the whole pool, a spawned thread included |
| `Supplicant.QuiescentOrMoves` | optee_client-3.21.0/tee-supplicant/src/tee_supplicant.c:681-697 | the pool waits iff no thread has such a move |
| `Supplicant.EveryScheduleReachesAListener` | optee_client-3.21.0/tee-supplicant/src/tee_supplicant.c:613-697 | under every schedule, a bounded number of such moves leads to a thread in the receive call |
| `Supplicant.SpawnsExactlyAtZero` | optee_client-3.21.0/tee-supplicant/src/tee_supplicant.c:639-640 | over every run, a thread turns to spawning only where it takes its increment back, and there iff it leaves num_waiters at zero |
| `Supplicant.PoolIsBounded` | optee_client-3.21.0/tee-supplicant/src/tee_supplicant.c:152-179 | over every run, failures included, the pool, threads about to be created included, is no larger than the greatest number of threads that num_waiters did not count at one moment plus the greatest number that had decided to spawn at one moment without having announced it; the latter is at most the former |
| `Supplicant.TwiceIsReached` | optee_client-3.21.0/tee-supplicant/src/tee_supplicant.c:160-164 | a clean run with four threads of which no more than two were uncounted at any moment: two threads decide to spawn before either has announced it |
| `Supplicant.ServingBoundsNothing` | optee_client-3.21.0/tee-supplicant/src/tee_supplicant.c:633-697 | for every n, a clean run with n threads in which no two requests were served at the same time: threads that are slow to come back to the receive call are not counted |
| `Supplicant.PossibleIff` | optee_client-3.21.0/tee-supplicant/src/tee_supplicant.c:152-697 | which outcomes each step can have |
| `Supplicant.FailuresEndTheService` | optee_client-3.21.0/tee-supplicant/src/tee_supplicant.c:633-697 | over every run, once a call has failed or a request was malformed, the abort flag is set or about to be, and set when the pool rests |
| `Supplicant.AbortIsFinal` | optee_client-3.21.0/tee-supplicant/src/tee_supplicant.c:691-694 | the flag stays set, and a thread that comes to the loop test ends |
| `Supplicant.RequestWithoutMetaBlocksThePool` | optee_client-3.21.0/tee-supplicant/src/tee_supplicant.c:633-668 | a run in which one request without a meta parameter leaves nobody listening, which shows that the condition of the previous results is needed |
| `ElfSymbols.SymCompare` | optee_os-3.21.0/ldelf/ta_elf_rel.c:46-90 | a match has the name asked for and tells what matched: a global symbol, a weak one if these are allowed, or an undefined weak one, whose value is 0; otherwise the value is relative to the load address and inside the ELF, or absolute for a TLS symbol; each err() has its cause |
| `ElfSymbols.SymCompareIff` | optee_os-3.21.0/ldelf/ta_elf_rel.c:46-90 | exactly when a symbol matches, as an undefined weak one or with a value, and exactly when it is an error |
| `ElfSymbols.CStringIs` | optee_os-3.21.0/ldelf/ta_elf_rel.c:57-58 | the name of a symbol is all bytes from its offset on in front of the first NUL |
| `ElfSymbols.CheckFound` | optee_os-3.21.0/ldelf/ta_elf_rel.c:92-132 | a hit is a symbol of the table with that name |
| `ElfSymbols.OnlyTheNameDecides` | optee_os-3.21.0/ldelf/ta_elf_rel.c:46-90 | a symbol with another name never matches and is never an error |
| `ElfSymbols.ScanMeans` | optee_os-3.21.0/ldelf/ta_elf_rel.c:46-90 | the linear scan fails iff no symbol matches, and otherwise reports one that does |
| `GnuHash.ComputeHash` | optee_os-3.21.0/ldelf/ta_elf_rel.c:35-44 | the shifting loop computes h * 33 + c modulo 2^32 over the name |
| `GnuHash.CheckTable` | optee_os-3.21.0/ldelf/ta_elf.c:267-292 | the table is let through iff it is aligned and header, Bloom words (counted modulo 2^32) and buckets fit it |
| `GnuHash.ChainsStartInsideIff` | optee_os-3.21.0/ldelf/ta_elf.c:279-290 | the chains of a table that was let through start inside it iff it is 32-bit, its filter has fewer than 2^31 words, or its section has room for the whole filter; below 16 GiB the last case does not arise |
| `GnuHash.FilterSizeWraps` | optee_os-3.21.0/ldelf/ta_elf.c:281-284 | a table that is let through although its chains start far outside it |
| `GnuHash.WalkChain` | optee_os-3.21.0/ldelf/ta_elf_rel.c:168-189 | the loop over a chain ends on every table whose accesses are inside it, and returns the first verdict of the chain |
| `GnuHash.Resolve` | optee_os-3.21.0/ldelf/ta_elf_rel.c:140-189 | Bloom filter, bucket and chain, as the specification function of the lookup |
| `GnuHash.AdmitsIff` | optee_os-3.21.0/ldelf/ta_elf_rel.c:150-166 | the filter test holds iff the two bits of the hash are set in the filter as an array of bits, in the stretch of 32 or 64 bits that hash / 32 or hash / 64 selects |
| `GnuHash.PartsAreRead` | optee_os-3.21.0/ldelf/ta_elf_rel.c:140-173 | of a table put together from header, filter, buckets and chains, the lookup reads these parts |
| `GnuHash.SparseFilterLetsThrough` | optee_os-3.21.0/ldelf/ta_elf_rel.c:150-189 | a table with two filter words of which only the bits of one name are set, and three buckets: the name leads to its symbol |
| `GnuHash.WalkIsScan` | optee_os-3.21.0/ldelf/ta_elf_rel.c:168-189 | from any symbol of the run of its bucket on, the walk is the scan of the symbols |
| `GnuHash.LookupIsScan` | optee_os-3.21.0/ldelf/ta_elf_rel.c:134-189 | on every well-formed table the lookup returns exactly what a linear scan from symoffset returns, also for names that are not there: the Bloom filter loses nothing |
| `GnuHash.WalkIsSound` | optee_os-3.21.0/ldelf/ta_elf_rel.c:168-189 | on any table whose filter, buckets and chains can be read, whether or not they make sense, a hit is the verdict of a symbol of the ELF |
| `GnuHash.LeavesIff` | optee_os-3.21.0/ldelf/ta_elf_rel.c:175-189 | the walk reads a word that is not wholly inside the section, which the bounds test allows, iff no chain entry up to the end stops it |
| `GnuHash.StaysInside` | optee_os-3.21.0/ldelf/ta_elf_rel.c:175-189 | on a well-formed table whose chains lie inside the section no lookup does |
| `GnuHash.WalksAreCoherent` | optee_os-3.21.0/ldelf/ta_elf_rel.c:168-189 | on any such table, where no global is found, the first symbol found is the first defined weak one or the first undefined one, and nothing is found iff there is neither |
| `GnuHash.OnlyIsWellFormed` | optee_os-3.21.0/ldelf/ta_elf_rel.c:46-90 | a table that is well-formed for the symbols is so for the symbols of one tier |
| `SysvHash.ComputeHash` | optee_os-3.21.0/ldelf/ta_elf_rel.c:19-33 | the loop computes the System V hash, whose top four bits are clear |
| `SysvHash.HashOfMainMain` | optee_os-3.21.0/ldelf/ta_elf_rel.c:19-33 | the hash of a name that is long enough for bits to be folded in |
| `SysvHash.PartsAreRead` | optee_os-3.21.0/ldelf/ta_elf.c:243-265 | a table put together from counts, buckets and chains anywhere in an ELF is accepted, and the lookup reads these parts |
| `SysvHash.CheckHashtab` | optee_os-3.21.0/ldelf/ta_elf.c:243-265 | accepts iff header, buckets and chains lie inside the ELF, for all 32-bit counts |
| `SysvHash.SaveHashtab` | optee_os-3.21.0/ldelf/ta_elf.c:329-333 | both checks together accept iff the table with its own counts is mapped; the counts are read only after the first check |
| `SysvHash.Resolve` | optee_os-3.21.0/ldelf/ta_elf_rel.c:190-209 | every read of the lookup is inside the accepted table, and it returns the first verdict of the chain |
| `SysvHash.ChainsEndSoonOrNever` | optee_os-3.21.0/ldelf/ta_elf_rel.c:198-208 | a chain that ends at all ends within nchains links |
| `SysvHash.LookupEndsSoonOrNever` | optee_os-3.21.0/ldelf/ta_elf_rel.c:203-208 | on any accepted table a lookup that ends at all ends within nchains links |
| `SysvHash.CircleNeverEnds` | optee_os-3.21.0/ldelf/ta_elf_rel.c:203-208 | an accepted table in which the lookup of no name ends |
| `SysvHash.LookupFailsLikeScan` | optee_os-3.21.0/ldelf/ta_elf_rel.c:190-209 | on a complete table with acyclic chains the lookup ends and fails iff a linear scan fails; otherwise it reports a symbol with that name |
| `SysvHash.WalkIsSound` | optee_os-3.21.0/ldelf/ta_elf_rel.c:203-208 | on any accepted table a hit is the verdict of a symbol of the ELF |
| `SysvHash.WalksAreCoherent` | optee_os-3.21.0/ldelf/ta_elf_rel.c:203-208 | the same for chains of DT_HASH as for those of DT_GNU_HASH: how the searches for globals, for all symbols and for each kind of weak symbol go together |
| `SymbolResolution.ResolveHelper` | optee_os-3.21.0/ldelf/ta_elf_rel.c:134-212 | one lookup in one module, by whichever table it has |
| `SymbolResolution.ResolveIn` | optee_os-3.21.0/ldelf/ta_elf_rel.c:223-246 | one module is asked for globals first and for weak symbols then |
| `SymbolResolution.ResolveSym` | optee_os-3.21.0/ldelf/ta_elf_rel.c:214-248 | the result is that of the first module that knows the name, the given module before the queue |
| `SymbolResolution.FirstAnswerIsUnique` | optee_os-3.21.0/ldelf/ta_elf_rel.c:214-248 | this determines the result |
| `SymbolResolution.AskIsScan` | optee_os-3.21.0/ldelf/ta_elf_rel.c:134-189 | with a well-formed table, what is taken of a module and what it has in each tier are scans of its symbols |
| `SymbolResolution.SysvLookupIsLikeScan` | optee_os-3.21.0/ldelf/ta_elf_rel.c:190-209 | in a module with a complete DT_HASH table a name is found iff the scan finds it, and the result is the verdict of one of its symbols |
| `SymbolResolution.SysvAskIsLikeScan` | optee_os-3.21.0/ldelf/ta_elf_rel.c:190-209 | the same for what is taken of the module and what it has in each tier |
| `SymbolResolution.SysvModuleResolves` | optee_os-3.21.0/ldelf/ta_elf_rel.c:190-248 | a name is resolved in a module that has only DT_HASH |
| `SymbolResolution.AskFits` | optee_os-3.21.0/ldelf/ta_elf_rel.c:134-248 | what is taken of a module and what it has in each tier go together, for every usable table |
| `SymbolResolution.UndefinedIsZero` | optee_os-3.21.0/ldelf/ta_elf_rel.c:63-67 | an undefined weak symbol that is found resolves to zero |
| `SymbolResolution.DocumentedOrderIff` | optee_os-3.21.0/ldelf/ta_elf_rel.c:214-248 | the comment promises a search of the given module only, or else of all modules, for globals, then weak symbols, then undefined weak ones, over what the modules have; the code does that iff, without a given module, the first module that knows the name has it in the best tier in which any module has it and is straight (if it has no global and the first weak symbol in it is undefined, it has no defined one, or one of value zero), and, with a given module, it is straight if it knows the name, and nobody else knows it if it does not |
| `SymbolResolution.WeakHidesGlobal` | optee_os-3.21.0/ldelf/ta_elf_rel.c:214-248 | two modules, with their symbol and hash tables, in which a weak symbol of the first hides the global of the second |
| `SymbolResolution.UndefinedHidesWeak` | optee_os-3.21.0/ldelf/ta_elf_rel.c:214-248 | two modules in which an undefined weak symbol of the first hides the weak symbol of the second |
| `SymbolResolution.UndefinedHidesWeakBesideIt` | optee_os-3.21.0/ldelf/ta_elf_rel.c:214-248 | one module, given or first in any queue, in which an undefined weak symbol hides the defined one behind it: zero is returned |
| `SymbolResolution.SearchGoesOn` | optee_os-3.21.0/ldelf/ta_elf_rel.c:226-240 | a given module that does not know the name, and another one in which it is found |
| `Segments.TaElf.AdjustSegments` | optee_os-3.21.0/ldelf/ta_elf.c:620-714 | the in-place walk computes the specification function of the adjustment and fails iff one of its asserts does |
| `Segments.SaneIff` | optee_os-3.21.0/ldelf/ta_elf.c:628-647 | what the asserts in front of the walk amount to |
| `Segments.BytesArePreserved` | optee_os-3.21.0/ldelf/ta_elf.c:620-714 | afterwards no two segments share a page; every byte of every original segment is in exactly one segment with its file-backed status unchanged; flags are the union over what was merged |
| `Segments.MergedIffPageShared` | optee_os-3.21.0/ldelf/ta_elf.c:660-676 | neighbouring segments end up in one segment iff a byte of the one and a byte of the other lie in one page |
| `Segments.SettledListStays` | optee_os-3.21.0/ldelf/ta_elf.c:660-714 | segments that start at page boundaries stay as they are, also where one ends at the address at which the next one starts |
| `Segments.TextAndData` | optee_os-3.21.0/ldelf/ta_elf.c:660-714 | text and data in neighbouring pages keep their permissions |
| `Segments.OffsetsArePreservedIff` | optee_os-3.21.0/ldelf/ta_elf.c:660-676 | the bytes of a segment keep their file offset iff its address-offset bias is that of the first segment it was merged into |
| `Segments.AgreeingModuloAlignmentIsNotEnough` | optee_os-3.21.0/ldelf/ta_elf.c:628-647 | segments that pass every assert and are merged although their biases differ |
| `Segments.MarksAreExact` | optee_os-3.21.0/ldelf/ta_elf.c:686-710 | exactly the segments whose first file page also holds the end of the one before are marked for remapping, and those are writable |
| `Segments.MarkedIffFilePageShared` | optee_os-3.21.0/ldelf/ta_elf.c:686-710 | a segment is marked iff the page of the file in which it starts has a byte of the segment before it |
| `SegmentOrder.GetNextInOrder` | optee_os-3.21.0/ldelf/ta_elf.c:1398-1443 | the next segment of the same ELF, or the first of the ELF with the next higher load address, or none |
| `SegmentOrder.ListSegments` | optee_os-3.21.0/ldelf/ta_elf.c:1398-1443 | iterating stops and lists, strictly ascending, exactly the segments of the ELFs it can get to |
| `SegmentOrder.AllListedIff` | optee_os-3.21.0/ldelf/ta_elf.c:1409-1440 | every segment of every ELF is listed iff load addresses are distinct and nonzero |
| `SegmentOrder.ListingAscends` | optee_os-3.21.0/ldelf/ta_elf.c:1398-1443 | the listing is in ascending order of addresses when ELFs are not interleaved |
| `MappingDump.SkipMaps` | optee_os-3.21.0/ldelf/ta_elf.c:1473-1512 | the inner loop prints the maps below a segment and passes over those that show it, also one split after its first page; it fails iff such a map has neither the size of the segment nor is split |
| `MappingDump.SplitIff` | optee_os-3.21.0/ldelf/ta_elf.c:1480-1500 | two maps stand for one segment iff the first is one page, they do not overlap, have the same flags, and together have exactly the bytes of the segment |
| `MappingDump.MergeMappings` | optee_os-3.21.0/ldelf/ta_elf.c:1445-1529 | the dump fails iff a map and a segment disagree; otherwise it is ascending and holds every segment and exactly the maps not shown as one |
| `MappingDump.PrintMappings` | optee_os-3.21.0/ldelf/ta_elf.c:1445-1529 | the same for the segments that the listing of the queue visits |
| `Dependencies.LoadStep` | optee_os-3.21.0/ldelf/ta_elf.c:1029-1092 | loading one member of the queue keeps the invariant of the walk, from which the following results are drawn |
| `Dependencies.QueuedIsReached` | optee_os-3.21.0/ldelf/ta_elf.c:62-99 | whatever is queued is reached from the root through DT_NEEDED |
| `Dependencies.ReachedIsQueued` | optee_os-3.21.0/ldelf/ta_elf.c:62-99 | after the walk, whatever is reached is queued |
| `Dependencies.BreadthFirst` | optee_os-3.21.0/ldelf/ta_elf.c:1029-1092 | an earlier member is never farther from the root than a later one |
| `Dependencies.WalkIsInNeededOrder` | optee_os-3.21.0/ldelf/ta_elf.c:1029-1092 | members come in the order of those that need them first, and where that is the same one, in the order of its DT_NEEDED entries |
| `Dependencies.EndOfWalk` | optee_os-3.21.0/ldelf/ta_elf.c:1300-1321 | closure, soundness and order of the queue after the walk |
| `Dependencies.Loader.FindElf` | optee_os-3.21.0/ldelf/ta_elf.c:62-99 | the search loop finds a UUID iff it is queued |
| `Dependencies.Loader.QueueElf` | optee_os-3.21.0/ldelf/ta_elf.c:62-99 | a UUID is appended unless it is there |
| `Dependencies.Loader.AddDependencies` | optee_os-3.21.0/ldelf/ta_elf.c:1029-1092 | the needed UUIDs are queued in order |
| `Dependencies.Loader.LoadDependency` | optee_os-3.21.0/ldelf/ta_elf.c:1300-1321 | a member is loaded and queues what it needs iff its file exists and has the right width |
| `Dependencies.Loader.LoadMain` | optee_os-3.21.0/ldelf/ta_elf.c:1196-1275 | the main ELF is queued, loaded, and its dependencies queued, once also for a legacy TA that is loaded twice |
| `Dependencies.Loader.Ldelf` | optee_os-3.21.0/ldelf/main.c:143-158 | loading ends; it succeeds iff everything reached from the main ELF can be loaded; then the queue is exactly that, without duplicates, breadth first, each member loaded once |
| `Dependencies.Loader.AddLibrary` | optee_os-3.21.0/ldelf/ta_elf.c:1583-1603 | a later library extends the queue to the closure with it, reloads nothing, and succeeds iff everything it reaches can be loaded |
| `Sha256.Context.constructor` | optee_client-3.21.0/tee-supplicant/src/sha2.c:179-189 | a fresh context stands for the empty message |
| `Sha256.Context.Init` | optee_client-3.21.0/tee-supplicant/src/sha2.c:179-189 | the context stands for the empty message |
| `Sha256.Context.Transf` | optee_client-3.21.0/tee-supplicant/src/sha2.c:121-165 | the block loop folds the compression function over the blocks |
| `Sha256.Context.Update` | optee_client-3.21.0/tee-supplicant/src/sha2.c:191-225 | the context then stands for the message so far followed by the chunk: fold of the full blocks, tail in the buffer, byte count |
| `Sha256.Context.Final` | optee_client-3.21.0/tee-supplicant/src/sha2.c:227-249 | the digest is the fold over the padded message that the context stands for |
| `Sha256.PaddingIsStandardIff` | optee_client-3.21.0/tee-supplicant/src/sha2.c:227-249 | the padding is that of FIPS 180-2 section 5.1.1 iff the message is shorter than 2^29 bytes |
| `Sha256.PaddingBytes` | optee_client-3.21.0/tee-supplicant/src/sha2.c:227-249 | the padding of the standard byte by byte: 0x80, zeros up to a multiple of 64 bytes, the number of bits |
| `Sha256.InitialState` | optee_client-3.21.0/tee-supplicant/src/sha2.c:97-99 | the initial state is that of FIPS 180-2 section 5.3.2: the fractions of the square roots of the first eight primes |
| `Sha256.BlockByBlock` | optee_client-3.21.0/tee-supplicant/src/sha2.c:121-165 | every block goes through the compression once, in order |
| `Sha256.DigestWords` | optee_client-3.21.0/tee-supplicant/src/sha2.c:245-248 | the digest is the words of the state, most significant byte first |
| `Sha256.HashIsStandard` | optee_client-3.21.0/tee-supplicant/src/sha2.c:167-177 | below 2^29 bytes the digest is that of the standard |
| `Sha256.HashChunks` | optee_client-3.21.0/tee-supplicant/src/sha2.c:167-249 | however a message is cut into chunks, the digest is that of the whole message |
| `Sha256.HashOneShot` | optee_client-3.21.0/tee-supplicant/src/sha2.c:167-177 | the one-shot function computes the same digest |
| `Hmac.Context.Init` | optee_client-3.21.0/tee-supplicant/src/hmac_sha2.c:43-87 | for short, block-sized and long keys, the context is keyed and stands for the empty message |
| `Hmac.Context.Reinit` | optee_client-3.21.0/tee-supplicant/src/hmac_sha2.c:89-95 | after any use the context is as after init with the same key |
| `Hmac.Context.Update` | optee_client-3.21.0/tee-supplicant/src/hmac_sha2.c:97-101 | the chunk is appended to the message |
| `Hmac.Context.Final` | optee_client-3.21.0/tee-supplicant/src/hmac_sha2.c:103-113 | the MAC of the message, cut to the size asked for; the context can be reused |
| `Hmac.MacIsRfc2104` | optee_client-3.21.0/tee-supplicant/src/hmac_sha2.c:43-113 | the MAC is H((K xor opad) || H((K xor ipad) || M)) of RFC 2104 section 2 |
| `Hmac.MacChunks` | optee_client-3.21.0/tee-supplicant/src/hmac_sha2.c:89-126 | any chunking gives that MAC, and a second message on the reused context gives its own |
| `Rpmb.StepEffect` | optee_client-3.21.0/tee-supplicant/src/rpmb.c:526-592 | one command: an accepted write splices its blocks into the storage and counts them modulo 2^32, any other command leaves both; the key is set by the first key request and kept |
| `Rpmb.RunIsFoldOfAcceptedWrites` | optee_client-3.21.0/tee-supplicant/src/rpmb.c:644-716 | after every run, storage is the fold of the accepted writes in order, the key is the first one programmed, and the counter is the number of accepted blocks modulo 2^32 |
| `Rpmb.KeyIsWriteOnce` | optee_client-3.21.0/tee-supplicant/src/rpmb.c:580-592 | over every run a programmed key stays |
| `Rpmb.SignedIsValid` | optee_client-3.21.0/tee-supplicant/src/rpmb.c:472-524 | frames that were signed pass the MAC check |
| `Rpmb.FieldsInOrder` | optee_client-3.21.0/tee-supplicant/src/rpmb.c:461-470 | where each field of each frame is in the bytes that are authenticated |
| `Rpmb.WithoutAKey` | optee_client-3.21.0/tee-supplicant/src/rpmb.c:472-524 | without a key no frame is valid and none is signed |
| `Rpmb.RequestReply` | optee_client-3.21.0/tee-supplicant/src/rpmb.c:644-716 | what each request leaves behind: result, address, nonce; other requests leave nothing |
| `Rpmb.ReadReply` | optee_client-3.21.0/tee-supplicant/src/rpmb.c:571-720 | what a read command answers after each request, field by field; it changes nothing |
| `Rpmb.WriteFrames` | optee_client-3.21.0/tee-supplicant/src/rpmb.c:526-568 | the frames of an accepted write come back with the counter after their block, those of a refused one as they were |
| `Rpmb.OtherCommands` | optee_client-3.21.0/tee-supplicant/src/rpmb.c:705-708 | other commands are refused |
| `Rpmb.WriteExchange` | optee_client-3.21.0/tee-supplicant/src/rpmb.c:828-854 | in the three-command exchange the result request changes nothing; the response says OK iff the write was accepted, carries address and updated counter, and passes the MAC check once a key is set |
| `Rpmb.WriteOutcome` | optee_client-3.21.0/tee-supplicant/src/rpmb.c:526-568 | the recorded result is OK iff the write is in bounds and its last MAC is right under the key |
| `Rpmb.DataReadResponse` | optee_client-3.21.0/tee-supplicant/src/rpmb.c:526-568 | a read in bounds returns the stored blocks with nonce and result, and passes the MAC check once a key is set |
| `Rpmb.DataReadAnswersIff` | optee_client-3.21.0/tee-supplicant/src/rpmb.c:534-538 | a data read is answered iff it is inside the storage; outside, the host gets its own frames back |
| `Rpmb.ReadOutOfBounds` | optee_client-3.21.0/tee-supplicant/src/rpmb.c:534-538 | a device of one block that is asked for the second: the host gets its own frame back, whose result field says OK |
| `Rpmb.ReadAfterWrite` | optee_client-3.21.0/tee-supplicant/src/rpmb.c:526-568 | reading at the address of an accepted write returns its payload |
| `Rpmb.CounterReadMacIff` | optee_client-3.21.0/tee-supplicant/src/rpmb.c:602-610 | a counter response passes the MAC check iff its result field was zero on entry, or two different frames have the same MAC |
| `Rpmb.CounterReadFails` | optee_client-3.21.0/tee-supplicant/src/rpmb.c:602-610 | a counter read into a frame with another result in it, under a MAC that tells results apart, does not pass the check |
| `RpmbEmulator.UpdateFrame` | optee_client-3.21.0/tee-supplicant/src/rpmb.c:461-470 | seven updates absorb the signed part of a frame |
| `RpmbEmulator.FrameMac` | optee_client-3.21.0/tee-supplicant/src/rpmb.c:472-524 | the MAC over frames is the HMAC of their concatenated signed parts |
| `RpmbEmulator.Emulator.IsHmacValid` | optee_client-3.21.0/tee-supplicant/src/rpmb.c:472-497 | the check of the model, computed |
| `RpmbEmulator.Emulator.ComputeHmac` | optee_client-3.21.0/tee-supplicant/src/rpmb.c:504-524 | the last frame is signed if a key is set; the code says whether |
| `RpmbEmulator.Emulator.StoreFrames` | optee_client-3.21.0/tee-supplicant/src/rpmb.c:544-561 | the loop that writes blocks, sets result and counter in every frame and counts |
| `RpmbEmulator.Emulator.LoadFrames` | optee_client-3.21.0/tee-supplicant/src/rpmb.c:544-561 | the loop that fills frames from the storage |
| `RpmbEmulator.Emulator.TransferToMmc` | optee_client-3.21.0/tee-supplicant/src/rpmb.c:526-568 | the transfer to the storage, with its two refusals |
| `RpmbEmulator.Emulator.TransferFromMmc` | optee_client-3.21.0/tee-supplicant/src/rpmb.c:526-568 | the transfer from the storage |
| `RpmbEmulator.Emulator.SetKey` | optee_client-3.21.0/tee-supplicant/src/rpmb.c:580-592 | the key is taken once; later requests fail |
| `RpmbEmulator.Emulator.GetWriteResult` | optee_client-3.21.0/tee-supplicant/src/rpmb.c:570-578 | the response frame of a write |
| `RpmbEmulator.Emulator.ReadCtr` | optee_client-3.21.0/tee-supplicant/src/rpmb.c:602-610 | the response frame of a counter read |
| `RpmbEmulator.Emulator.WriteCommand` | optee_client-3.21.0/tee-supplicant/src/rpmb.c:654-682 | the in-place emulator does what the step function says for writes |
| `RpmbEmulator.Emulator.ReadCommand` | optee_client-3.21.0/tee-supplicant/src/rpmb.c:684-708 | and for reads |
| `RpmbEmulator.Emulator.IoctlCmd` | optee_client-3.21.0/tee-supplicant/src/rpmb.c:644-716 | and for every command on the file descriptor it is bound to; on others it does nothing |
| `RpmbEmulator.Emulator.WriteRequest` | optee_client-3.21.0/tee-supplicant/src/rpmb.c:718-748 | running the three commands of a write request: the caller learns from the response whether the write was accepted |
| `Serialize.Serializer.Append` | optee_client-3.21.0/libckteec/src/serializer.c:45-64 | appends, or leaves the buffer when memory runs out |
| `Serialize.Serializer.Append32` | optee_client-3.21.0/libckteec/src/serializer.c:66-76 | appends the low 32 bits in byte order of the wire |
| `Serialize.Serializer.Finalize` | optee_client-3.21.0/libckteec/src/serializer.c:24-31 | the head gets the size and the number of the items |
| `Serialize.Serializer.SerializeAttribute` | optee_client-3.21.0/libckteec/src/serialize_ck.c:153-227 | appends [id][size][data] of the attribute and counts it, or reports the error of the attribute |
| `Serialize.Serializer.SerializeIndirect` | optee_client-3.21.0/libckteec/src/serialize_ck.c:67-111 | the same for a template, whose data is a serialised object |
| `Serialize.Serializer.SerializeAttributes` | optee_client-3.21.0/libckteec/src/serialize_ck.c:229-252 | the buffer holds the object, or the first error is reported and the buffer released |
| `Serialize.CopyMechanisms` | optee_client-3.21.0/libckteec/src/serialize_ck.c:173-187 | the loop narrows every mechanism of a list to 32 bits and refuses the undefined one |
| `Serialize.MechanismsSentIff` | optee_client-3.21.0/libckteec/src/serialize_ck.c:173-187 | a list is sent iff no mechanism of it is the undefined one in its low 32 bits |
| `Serialize.MechanismOnTheWire` | optee_client-3.21.0/libckteec/src/serialize_ck.c:173-187 | mechanism m of a list is bytes 4m to 4m + 3 of what is sent |
| `Serialize.ReadAppend` | optee_client-3.21.0/libckteec/include/pkcs11_ta.h:989-1021 | the reader of [id][size][data] reads attributes that follow each other independently |
| `Serialize.ObjectRoundTrip` | optee_client-3.21.0/libckteec/src/serialize_ck.c:67-252 | a reader that knows only the format consumes exactly attrs_size bytes, finds attrs_count attributes, and these are the ones serialised, at every depth of nesting |
| `Serialize.UniquelyDecodable` | optee_client-3.21.0/libckteec/src/serialize_ck.c:153-252 | equal bytes come from lists that mean the same |
| `Serialize.WideTypesCollide` | optee_client-3.21.0/libckteec/src/serialize_ck.c:210-212 | a type above 32 bits is written like its low word, so the condition of these results is needed |
| `Serialize.LabelOnTheWire` | optee_client-3.21.0/libckteec/src/serialize_ck.c:153-252 | a byte string on the wire, byte by byte |
| `Serialize.ClassOnTheWire` | optee_client-3.21.0/libckteec/src/serialize_ck.c:153-252 | an integer on the wire, byte by byte |
| `Serialize.ObjectIsSelfDelimiting` | optee_client-3.21.0/libckteec/include/pkcs11_ta.h:989-1007 | in front of any bytes, the head says where the object ends |
| `Mechanism.SerializeMechanism` | optee_client-3.21.0/libckteec/src/serialize_ck.c:387-791 | type, size and the pieces of the parameter structure for every mechanism known; the errors for unknown ones and for wrong parameter lengths |
| `Mechanism.SizeIsExact` | optee_client-3.21.0/libckteec/src/serialize_ck.c:387-673 | the size each function announces is what it writes |
| `Mechanism.SentIff` | optee_client-3.21.0/libckteec/src/serialize_ck.c:687-791 | a mechanism is sent iff it is known and its structure has its length |
| `Mechanism.LengthsAreChecked` | optee_client-3.21.0/libckteec/src/serialize_ck.c:518-673 | the lengths that are insisted on, and the errors |
| `Mechanism.CbcOnTheWire` | optee_client-3.21.0/libckteec/src/serialize_ck.c:414-429 | CKM_AES_CBC on the wire, byte by byte |
| `Mechanism.PssOnTheWire` | optee_client-3.21.0/libckteec/src/serialize_ck.c:518-545 | CKM_RSA_PKCS_PSS on the wire, byte by byte |
| `Mechanism.PartsRoundTrip` | optee_client-3.21.0/libckteec/src/serialize_ck.c:387-673 | the pieces of a structure are read back one by one |
| `Mechanism.BlobRoundTrip` | optee_client-3.21.0/libckteec/src/serialize_ck.c:675-791 | a serialised mechanism says where it ends, and its parameters are read back, integers cut to 32 bits |
| `Mechanism.RequestRoundTrip` | optee_client-3.21.0/libckteec/src/serialize_ck.c:675-791 | a mechanism followed by attributes splits into exactly that mechanism and those attributes |
| `Deserialize.DeserializeAttribute` | optee_client-3.21.0/libckteec/src/serialize_ck.c:270-334 | one attribute of the answer, at the cursor, is decoded from its own bytes alone, also when the TA changed its identifier |
| `Deserialize.ReadsBeyondIff` | optee_client-3.21.0/libckteec/src/serialize_ck.c:289-330 | data beyond the bytes of an attribute is read iff an integer comes back as a byte string of more than four bytes that fits |
| `Deserialize.NoMoreIsRead` | optee_client-3.21.0/libckteec/src/serialize_ck.c:270-334 | besides its head, an attribute depends on no more of its bytes than are said to be read |
| `Deserialize.DeserializeAttributes` | optee_client-3.21.0/libckteec/src/serialize_ck.c:336-374 | every attribute up to the first refused one is decoded from its own bytes, however the attributes before it changed; the rest is left |
| `Deserialize.FlatLockstepIff` | optee_client-3.21.0/libckteec/src/serialize_ck.c:358-367 | without templates, the cursor is at attribute k of what was serialised iff no non-empty mechanism list comes before it |
| `Deserialize.DriftIff` | optee_client-3.21.0/libckteec/src/serialize_ck.c:358-367 | an attribute is skipped by what was sent for it iff it is a byte string, an integer, an empty list of mechanisms, or a template of n attributes whose data takes 16n - 8 bytes together |
| `Deserialize.LockstepIff` | optee_client-3.21.0/libckteec/src/serialize_ck.c:358-367 | for all attributes, templates included, the cursor is right at each of the first n of them and behind them iff each of them is such an attribute |
| `Deserialize.CursorDrifts` | optee_client-3.21.0/libckteec/src/serialize_ck.c:358-367 | at any one attribute the cursor is off by the differences of those before it together |
| `Deserialize.OneMechanismDrifts` | optee_client-3.21.0/libckteec/src/serialize_ck.c:172-187 | a list with one mechanism is skipped four bytes too far |
| `Deserialize.SkippedIsCursor` | optee_client-3.21.0/libckteec/src/serialize_ck.c:358-367 | the cursor of these results is that of the deserialiser, for all attributes |
| `Deserialize.TemplatesDrift` | optee_client-3.21.0/libckteec/src/serialize_ck.c:67-111 | a template that is skipped short by eight bytes, and one that is in step |
| `Deserialize.UnchangedRoundTrip` | optee_client-3.21.0/libckteec/src/serialize_ck.c:189-374 | an object that comes back unchanged is decoded to what was sent, attribute by attribute |
| `Deserialize.EchoIsIdentityIff` | optee_client-3.21.0/libckteec/src/serialize_ck.c:289-315 | byte strings come back as they were; an integer does iff its memory has the size of CK_ULONG and its value survives 32 bits |
| `Deserialize.AnswerArrives` | optee_client-3.21.0/libckteec/src/serialize_ck.c:280-334 | a value that the TA wrote arrives if it fits the memory, and otherwise its size; without memory, the larger of that size and the ulValueLen of the caller is reported |
| `Deserialize.SizeArrivesIff` | optee_client-3.21.0/libckteec/src/serialize_ck.c:294-300 | the size arrives iff there is memory or ulValueLen was not above it |
| `Deserialize.StaleLengthStays` | optee_client-3.21.0/libckteec/src/serialize_ck.c:294-300 | a caller without memory whose ulValueLen stays |
| `Deserialize.UlongArrives` | optee_client-3.21.0/libckteec/src/serialize_ck.c:289-315 | a 32-bit integer of the TA arrives as CK_ULONG, and its size when there is no memory |
| `Deserialize.UnavailableArrives` | optee_client-3.21.0/libckteec/src/serialize_ck.c:279-282 | a size of all ones arrives as CK_UNAVAILABLE_INFORMATION, and the memory is left alone |
| `Deserialize.ShortMemoryIsRefused` | optee_client-3.21.0/libckteec/src/serialize_ck.c:298-301 | an integer for memory shorter than CK_ULONG fails the call and leaves the memory alone |
| `SharedMemory.Register` | optee_client-3.21.0/libteec/src/tee_client_api.c:776-849 | success acquires exactly what the memory then holds, directly or through a shadow buffer, and says which; every failure acquires nothing |
| `SharedMemory.RegisterFd` | optee_client-3.21.0/libteec/src/tee_client_api.c:851-877 | the same for a file descriptor, which becomes memory without a buffer; bad descriptors and flags are refused |
| `SharedMemory.Allocate` | optee_client-3.21.0/libteec/src/tee_client_api.c:879-925 | the same for allocated memory, which is not the caller's |
| `SharedMemory.Release` | optee_client-3.21.0/libteec/src/tee_client_api.c:927-958 | exactly what the memory holds is given back, and nothing the second time |
| `SharedMemory.ReleasedIs` | optee_client-3.21.0/libteec/src/tee_client_api.c:927-958 | the fields after release; memory without an id is not touched |
| `SharedMemory.RegisterAndRelease` | optee_client-3.21.0/libteec/src/tee_client_api.c:776-958 | after registering and releasing twice, everything is as before |
| `SharedMemory.PartIsInside` | optee_client-3.21.0/libteec/src/tee_client_api.c:281-328 | a partial reference is accepted iff its parent allows the direction and it lies inside the parent, also where offset and size wrap around |
| `SharedMemory.AcceptableIff` | optee_client-3.21.0/libteec/src/tee_client_api.c:192-395 | exactly which parameters are accepted |
| `SharedMemory.DirectionFlags` | optee_client-3.21.0/libteec/src/tee_client_api.c:197-213 | which use of memory a temporary reference asks for |
| `SharedMemory.AllocedIsEnough` | optee_client-3.21.0/libteec/src/tee_client_api.c:791-793 | memory that is allocated or mapped is never empty, and has the size asked for unless that was nothing |
| `SharedMemory.PreTemp` | optee_client-3.21.0/libteec/src/tee_client_api.c:192-247 | what a temporary reference acquires is what its memory holds, also when it fails |
| `SharedMemory.PreProcess` | optee_client-3.21.0/libteec/src/tee_client_api.c:330-395 | whatever parameter fails, the memories hold exactly what was acquired, each its own; parameters are refused for what they are iff one is not acceptable |
| `SharedMemory.FreeTempRefs` | optee_client-3.21.0/libteec/src/tee_client_api.c:495-514 | everything acquired is given back |
| `SharedMemory.InvokeCommand` | optee_client-3.21.0/libteec/src/tee_client_api.c:678-750 | for every operation and every pattern of failures, heap memory, mappings and file descriptors afterwards are those before, and nothing is freed, unmapped or closed that the library does not hold; an operation with an unacceptable parameter does not succeed |
| `Shadow.Memory.CopyIn` | optee_client-3.21.0/libteec/src/tee_client_api.c:192-328 | what each kind of reference copies to its shadow buffer |
| `Shadow.Memory.CopyOut` | optee_client-3.21.0/libteec/src/tee_client_api.c:397-450 | what each kind of reference copies back, and the size it reports |
| `Shadow.StageEffect` | optee_client-3.21.0/libteec/src/tee_client_api.c:192-450 | what copying in, the TA and copying out do to the bytes of a reference, in its buffer and its shadow buffer |
| `Shadow.Frame` | optee_client-3.21.0/libteec/src/tee_client_api.c:281-450 | they leave alone the bytes of every reference with which theirs has no byte in common, also of one to the same buffer |
| `Shadow.InputFrame` | optee_client-3.21.0/libteec/src/tee_client_api.c:192-328 | copying in an input reference leaves alone the part of another input reference that overlaps it, and its shadow bytes once these are those of the part |
| `Shadow.SeesWhatIsWanted` | optee_client-3.21.0/libteec/src/tee_client_api.c:192-328 | with or without a shadow buffer, the TA sees the caller's data |
| `Shadow.LeavesWhatIsWanted` | optee_client-3.21.0/libteec/src/tee_client_api.c:192-450 | with or without a shadow buffer, the three stages leave the caller the result, or the old bytes when it does not fit |
| `Shadow.PartsOfOneBuffer` | optee_client-3.21.0/libteec/src/tee_client_api.c:281-328 | partial references to different parts of one buffer are among those the results are about |
| `Shadow.InputsMayOverlap` | optee_client-3.21.0/libteec/src/tee_client_api.c:192-328 | so are input references that overlap |
| `Shadow.PreCopies` | optee_client-3.21.0/libteec/src/tee_client_api.c:330-395 | the loop over the parameters |
| `Shadow.PostCopies` | optee_client-3.21.0/libteec/src/tee_client_api.c:452-493 | the loop that copies back and updates numbers and sizes |
| `Shadow.Operation` | optee_client-3.21.0/libteec/src/tee_client_api.c:330-493 | for every TA and every choice of shadow buffers among references of which no output has a byte in common with another, the parts, numbers and sizes of the caller are the same function of the caller's data; after a failed call they are unchanged; all other bytes of the caller are unchanged in any case |
| `SignedImage.IntRoundTrip` | optee_os-3.21.0/scripts/sign_encrypt.py:454-458 | the bytes of a number give the number back |
| `SignedImage.ShdrRoundTrip` | optee_os-3.21.0/scripts/sign_encrypt.py:364-371 | the image header is unpacked to what was packed |
| `SignedImage.HeaderBytes` | optee_os-3.21.0/scripts/sign_encrypt.py:364-371 | a header byte by byte |
| `SignedImage.SubkeyHdrRoundTrip` | optee_os-3.21.0/scripts/sign_encrypt.py:457-467 | the subkey header is unpacked to what was packed |
| `SignedImage.AttributesAreFound` | optee_os-3.21.0/scripts/sign_encrypt.py:546-561 | the modulus and the exponent are found through their offsets |
| `SignedImage.TaRoundTrip` | optee_os-3.21.0/scripts/sign_encrypt.py:472-569 | a written TA is parsed back to the same image |
| `SignedImage.ParsedIsInFile` | optee_os-3.21.0/scripts/sign_encrypt.py:472-569 | whatever is parsed has magic number, type, algorithm, digest and signature of the image at their places in the file |
| `SignedImage.SubkeyRoundTrip` | optee_os-3.21.0/scripts/sign_encrypt.py:422-569 | a written subkey is parsed back, RSA numbers included, and what follows it is cut into name and next image |
| `SubkeyChain.ReadImage` | optee_os-3.21.0/scripts/sign_encrypt.py:472-569 | parsing with a running offset computes the parse function, errors included |
| `SubkeyChain.FindAttrLoop` | optee_os-3.21.0/scripts/sign_encrypt.py:546-556 | the loop over attribute references |
| `SubkeyChain.NextIsShorter` | optee_os-3.21.0/scripts/sign_encrypt.py:532-544 | what follows a subkey is shorter than the file, so loops over a file end |
| `SubkeyChain.FileGrows` | optee_os-3.21.0/scripts/sign_encrypt.py:806-823 | appending the padded name and an image to the file of a chain makes the file of the longer chain |
| `SubkeyChain.NameFitsIff` | optee_os-3.21.0/scripts/sign_encrypt.py:800-804 | the image behind a padded name is found iff the name fits name_size |
| `SubkeyChain.ChainRoundTrip` | optee_os-3.21.0/scripts/sign_encrypt.py:472-569 | reading the file of any chain recovers every image in order |
| `ChainVerify.Sign` | optee_os-3.21.0/scripts/sign_encrypt.py:364-387 | digest and signature are those of the image under the key |
| `ChainVerify.SignsIff` | optee_os-3.21.0/scripts/sign_encrypt.py:355-387 | signing succeeds iff the fields of the image fit and digest and signature have their sizes |
| `ChainVerify.SigSizeIsLeast` | optee_os-3.21.0/scripts/sign_encrypt.py:359 | the size of a signature is the least number of bytes that holds the modulus |
| `ChainVerify.Depth` | optee_os-3.21.0/scripts/sign_encrypt.py:435-452 | the depth of a new subkey is below that of the one before it |
| `ChainVerify.DepthIs` | optee_os-3.21.0/scripts/sign_encrypt.py:435-452 | the depth asked for if it is allowed, otherwise one less than before or zero, and exactly when there is none |
| `ChainVerify.LastSubkey` | optee_os-3.21.0/scripts/sign_encrypt.py:790-804 | the loop finds the last subkey of a file, or fails |
| `ChainVerify.SignSubkey` | optee_os-3.21.0/scripts/sign_encrypt.py:847-855 | the file that is written for a new subkey |
| `ChainVerify.SignTa` | optee_os-3.21.0/scripts/sign_encrypt.py:838-844 | the file that is written for a TA |
| `ChainVerify.SigningStarts` | optee_os-3.21.0/scripts/sign_encrypt.py:838-855 | without a subkey file, signing makes a signed chain of one image |
| `ChainVerify.SigningExtends` | optee_os-3.21.0/scripts/sign_encrypt.py:790-855 | signing with the key of the last subkey, under a name that fits, makes a signed chain one image longer, and its file |
| `ChainVerify.CommandVerify` | optee_os-3.21.0/scripts/sign_encrypt.py:874-921 | the verifying loop ends and accepts iff the recursive definition of verification does |
| `ChainVerify.VerifiesIff` | optee_os-3.21.0/scripts/sign_encrypt.py:874-921 | for every file: accepted iff it reads as a chain whose first image passes under the given key and every other under the key, name and depth of the subkey before it |
| `ChainVerify.AcceptedIsTrusted` | optee_os-3.21.0/scripts/sign_encrypt.py:874-921 | for every file: accepted iff it can be read and for every image the signature verifies under the key of the image before it (the root key for the first), the digest is the hash of header and payload, the UUID is derived from the name before it, a subkey has a smaller depth, and a TA has the UUID asked for |
| `ChainVerify.WrongImageIsRefused` | optee_os-3.21.0/scripts/sign_encrypt.py:884-885 | a file with one image whose signature or digest is wrong is refused |
| `ChainVerify.ChainVerifiesIff` | optee_os-3.21.0/scripts/sign_encrypt.py:874-921 | the file of any chain of images, signed or not, is accepted iff each of them meets these conditions |
| `ChainVerify.DepthBoundsTheChain` | optee_os-3.21.0/scripts/sign_encrypt.py:891-895 | an accepted file has at most max_depth + 1 subkeys, by the max_depth of the first |
| `ChainVerify.StrOfPadded` | optee_os-3.21.0/scripts/sign_encrypt.py:51-52 | padding does not change the name that is read back |
| `ChainVerify.SignedChainVerifiesIff` | optee_os-3.21.0/scripts/sign_encrypt.py:838-921 | a chain made by signing passes every signature, digest and depth check; it is accepted iff UUIDs follow the names, every subkey with an image behind it has room for a name, and the TA has the UUID asked for |
| `ChainVerify.IdentitySubkeyIsRefused` | optee_os-3.21.0/scripts/sign_encrypt.py:899-903 | an image behind a subkey without room for a name is refused, even with the UUID of the subkey |
| `Morphology.MinMeans` | optee_examples/fingerprint/ta/fingerprint.c:94-123 | the erosion is the greatest value below all pixels under the kernel |
| `Morphology.MaxMeans` | optee_examples/fingerprint/ta/fingerprint.c:125-154 | the dilation is the least value above all pixels under the kernel |
| `Morphology.Erode` | optee_examples/fingerprint/ta/fingerprint.c:94-123 | the loops compute the erosion of the old image in place |
| `Morphology.Dilate` | optee_examples/fingerprint/ta/fingerprint.c:125-154 | the loops compute the dilation of the old image in place |
| `Morphology.Adjunction` | optee_examples/fingerprint/ta/fingerprint.c:94-154 | for a symmetric kernel, dilate(f) <= g iff f <= erode(g), border included |
| `Morphology.Monotone` | optee_examples/fingerprint/ta/fingerprint.c:94-154 | both operators keep the order of images, for every kernel |
| `Morphology.OpeningLaws` | optee_examples/fingerprint/ta/fingerprint.c:94-154 | erode then dilate never brightens and is idempotent |
| `Morphology.ClosingLaws` | optee_examples/fingerprint/ta/fingerprint.c:94-154 | dilate then erode never darkens and is idempotent |
| `Morphology.Duality` | optee_examples/fingerprint/ta/fingerprint.c:94-154 | each operator is the other on the negative image |
| `Morphology.GenerateCrossKernel` | optee_examples/fingerprint/ta/fingerprint.c:156-167 | ones in the middle row and column |
| `Morphology.CrossIsInTheMiddle` | optee_examples/fingerprint/ta/fingerprint.c:156-167 | for odd sizes these have as many rows and columns before as behind them |
| `Morphology.GenerateRectangularKernel` | optee_examples/fingerprint/ta/fingerprint.c:169-175 | ones everywhere |
| `Morphology.GeneratedKernelsAreSymmetric` | optee_examples/fingerprint/ta/fingerprint.c:156-175 | the generated kernels of odd size meet the condition of the laws |

## Left out

- Deserialize.DeserializeAttributes: templates and mechanism lists in the caller's template, or made of another attribute by the TA, are not decoded; `Deserialize.DriftIff` and `Deserialize.LockstepIff` say when the cursor is still right after them.
- Deserialize.DeserializeAttribute: the same; an integer that the TA turned into a byte string beyond its bytes is excluded (`Deserialize.ReadsBeyondIff`).
- Serialize.Serializer.SerializeIndirect: the buffer of the inner object, which the source does not release, is not tracked.
- Dependencies.Loader.QueueElf: memory for the queue does not run out; the source then ends the loader.
- Dependencies.Loader.AddLibrary: memory for the queue does not run out; the source then returns an error.
- Dependencies.Loader.LoadMain: the stack of the TA and the flags of its header are not modelled.
- Serialize.Serializer.SerializeAttribute: a mechanism list of 2^32 bytes or more is not modelled, because its 32-bit size wraps before the copy.
- Mechanism.SerializeMechanism: each of the functions for a parameter structure is modelled by the list of its appends rather than by a method of its own.
- SharedMemory.InvokeCommand: memory contents and the values of parameters are in `Shadow`; the session and its cancellation are not modelled.
- Shadow.Operation: references with a byte in common are excluded unless both are input, memories with different addresses have no byte in common, and the TA is a function that writes a result from the start of the reference or nothing.
- Sha256.Context.Update: chunks of 2^31 bytes or more are excluded, because they overflow the int that indexes them in the source.
- Sha256.Context.Transf: the rounds of the compression function are a parameter.
- Supplicant.CounterIsExact: num_waiters is a natural number; it does not wrap around at the width of size_t.
- SysvHash.Resolve: a table without buckets is excluded, because the source then divides by zero; chains that run in a circle are excluded, because the source then does not end (`SysvHash.LookupEndsSoonOrNever`, `SysvHash.CircleNeverEnds`).
- GnuHash.Resolve: a table whose filter or buckets leave it is excluded (`GnuHash.ChainsStartInsideIff` says which tables the loader lets through), and so is one without buckets or filter words, where the source divides by zero, or with a shift of 32 or more, which C leaves undefined, and a section of 16 GiB or more, where its indices wrap around. The section and the word at its end (`GnuHash.LeavesIff` says when that is read) are taken to be mapped: unlike the check of DT_HASH (`SysvHash.SaveHashtab`), check_gnu_hashtab() does not compare the section with the ELF.
- GnuHash.WalkIsSound: the same exclusions.
- GnuHash.WalkChain: the same exclusions.
- SegmentOrder.ListSegments: an ELF without a segment is excluded, because the source then fails its assert in the next step.
- Segments.MarksAreExact: the results on marks are for segments whose biases agree where they share a page and whose alignment is a multiple of the page size; without that, `Segments.BytesArePreserved` still holds.
- MappingDump.PrintMappings: lines are values in a list; the callback that formats them is not modelled.
- Rpmb.StepEffect: a command without a frame is excluded, because the source would read beyond it.
- RpmbEmulator.Emulator.WriteRequest: frames of a request are not compared by type, which `rpmb_data_req()` does before the exchange in the byte order of the host.
- SubkeyChain.ReadImage: encrypted TAs end in an error, as in the source, where parsing them uses an undefined name.
- ChainVerify.CommandVerify: an RSA library that refuses the numbers of a key while parsing is not modelled.
- Mapping of segments by system calls (`populate_segments*`, `map_segments`, `sys.c`), relocation and TLS offsets: one assignment each, or kernel behaviour.
- The real-device half of `rpmb.c`: sysfs and device access.
- Handles, plugins, benchmarks, sockets, REE file system, PKCS#11 entry points: thin wrappers, or easy members.
- The floating-point code of the examples (filters, blur, thresholds, circular kernel).
- `TEEC_OpenSession()`: its treatment of parameters is that of `TEEC_InvokeCommand()`.
