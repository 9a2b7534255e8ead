# AKS Flex: a verified model

Dafny models of the stateful core of AKS Flex, with proofs about whole runs.
`dafny verify dfyconfig.toml` verifies all of it with Dafny 4.11; the proofs are
kept small enough for `--resource-limit 2000000`.

- **WireGuard peer IPs** (`IPv4`, `RandomIP`, `IPAllocator`, `AllocatorRuns`).
  Dotted-decimal text and CIDR blocks, the host range in wrapping 32-bit
  arithmetic, the allocator's nested maps, and runs of allocations and cleanups
  beside Nodes and NodeClaims that come and go.
- **Secret-backed storage** (`SecretTable`, `SecretStore`, `SecretRuns`). A
  cluster-wide table of Secrets whose API calls may fail with or without
  effect, stores that keep compressed bytes in numbered chunks, and runs of
  several stores in one namespace.
- **Objects and dispatch** (`StupidDB`, `StoreStack`, `Parent`). The database
  that rewrites one encoded list, with messages on the heap that are redacted in
  place; the same database on top of the Secret-backed store; and the service in
  front of the backends.
- **Shell scripts from cloud-init** (`ShellReader`, `ShellPrinter`,
  `ShellPaths`). The printer, and a reader written from sections 2.2, 2.3, 2.4,
  2.6.7, 2.7.2, 2.7.4, 2.9.1 and 2.10.2 of the Shell Command Language in
  POSIX.1-2017.
- **Instance types** (`Pricing`, `Provider`, `ProviderRuns`). The pricing
  goroutines, the cache with its background refresh, and the cheapest offering.
- **Nebius resources** (`ResourceCRUD`, `AgentPools`, `AgentPoolRuns`, `Vpc`).
  Create-or-update and delete over tables keyed by id and by parent and name, the
  two services that create several resources in sequence, and runs of attempts
  that fail anywhere.

`Text`, `Decimal` and `Wrappers` hold what they share.

Random choice is any free element; an API failure is a nondeterministic branch,
taken before or after the effect. Each service and store has a constant saying
whether it is reliable; the contracts say that over reliable ones the operations
succeed. A panic is a result of its own. Locks appear
as methods or steps that run as a whole; where the code holds no lock across two
accesses (the provider's cache and its tracked keys, the pricing goroutines) the
accesses are separate steps.

## What turned out to need a condition

- Chunk Secrets are sorted by name, and "p-10" comes before "p-2". What was
  written is read back exactly if the pieces joined in the order of their names
  decompress to it (`SecretRuns.WriteThenReadIff`). Up to ten chunks they do, for
  every lossless codec; with more, a lossless codec loses some content of every
  number of chunks (`SecretRuns.SurvivesIffTenChunks`).
- A write whose deletions were interrupted leaves a gap, and no later write of
  as few chunks removes what lies behind it
  (`SecretRuns.InterruptedDeletionStrands`). A write leaves exactly its own
  chunks if and only if the higher indices had no gap
  (`SecretRuns.WriteLeavesOwnChunksIff`).
- `shellJoin` prints the empty argument as nothing; a list is read back exactly
  if and only if it has none (`ShellPrinter.ShellTextReadsBackIff`). It also
  leaves `=` and letters unquoted: a first argument like `A=1` is an assignment
  to the shell and one like `if` a reserved word, and a command comes back if and
  only if no argument is empty and the first is neither
  (`ShellPrinter.CommandReadsBackIff`).
- Paths of written files are put between quotes but not escaped: a line, an entry
  and a section of entries come back if and only if no path has a quote
  (`ShellPaths.CatLineIff`, `ShellPaths.EntryReadsBackIff`,
  `ShellPaths.EntriesReadBackIff`). One quote can make the whole script unreadable
  (`ShellPaths.QuoteInPathLosesScript`). Content without a final newline gets one,
  so that an empty file becomes one empty line.
- Creating a resource duplicates a name exactly when the desired resource
  carries an id that is gone while its name is in use
  (`ResourceCRUD.ConvergesKeepsUniqueIff`).
- Cleaning up after a failed instance deletes the boot disk even if it existed
  before (`AgentPools.CleanUpRestoresIff`). When the instance had been created
  and only the reply was lost, the next success reports a disk that the instance
  does not boot from (`AgentPools.LostReplyLeavesWrongDisk`). A success reports
  the instance's boot disk if and only if there was no instance or the disk found
  was its own (`AgentPools.ReportsBootDiskIff`): over any attempts for any pools,
  if it was so at the start and no failed attempt for the pool left an instance
  without its disk (`AgentPoolRuns.RunReportsBootDiskIff`).
- A network's pool, network and subnet refer to each other after a success if and
  only if what existed of its names before did; attempts never change that, for
  any network (`Vpc.SuccessConverges`, `Vpc.AttemptsKeep`).
- An address is protected exactly while it is on a listed Node or waiting in the
  allocator (`AllocatorRuns.IssuableIffUntracked`). Runs therefore assume that a
  claim is visible from its allocation until it is deleted, and that a held
  address, once listed, stays listed.

## Model

| member | source | states |
|---|---|---|
| `IPv4.ParseDottedIff` | karpenter/pkg/utils/wireguard/allocator.go:190-199 | a text parses to an address if and only if it is the text that address prints as |
| `IPv4.DottedText` | karpenter/pkg/utils/wireguard/allocator.go:244-246 | the text of an address is its four octets in decimal, the most significant first |
| `IPv4.BlockIsInterval` | karpenter/pkg/utils/wireguard/allocator.go:183-214 | the addresses with a block's prefix bits are an interval that does not run past 2^32 |
| `IPv4.HostRangeDenotes` | karpenter/pkg/utils/wireguard/allocator.go:213-229 | for 0 to 32 host bits the wrapped start, end and capacity are the true ones, and the offset cannot wrap |
| `IPv4.HostRangeIsUsable` | karpenter/pkg/utils/wireguard/allocator.go:216-235 | the offsets of the loop are exactly the usable addresses: in the block, and up to /30 neither network nor broadcast address |
| `IPv4.UsableSetSize` | karpenter/pkg/utils/wireguard/allocator.go:216-229 | how many usable addresses there are, both of a /31 and the one of a /32 included |
| `RandomIP.TakenIsNumeric` | karpenter/pkg/utils/wireguard/allocator.go:188-200 | for dotted entries, being taken by text is being taken by number |
| `RandomIP.ParseCIDRIff` | karpenter/pkg/utils/wireguard/allocator.go:183-186 | which block a text denotes, from the text alone: an address, a slash, a numeral up to 32, and the block of that prefix length with that address in it |
| `RandomIP.ParseCIDRNotIPv4Iff` | karpenter/pkg/utils/wireguard/allocator.go:203-212 | which texts are CIDRs of another family |
| `RandomIP.AnswersOfText` | karpenter/pkg/utils/wireguard/allocator.go:182-247 | for an address and a prefix length in text: an issued address shares the prefix, is no network or broadcast address, and no taken entry stands for it; there is none only if the entries stand for all; never is the CIDR called invalid |
| `RandomIP.EnterTaken` | karpenter/pkg/utils/wireguard/allocator.go:188-200 | fails exactly when some taken address does not parse, and otherwise collects the normal texts |
| `RandomIP.FreeOffsets` | karpenter/pkg/utils/wireguard/allocator.go:227-236 | collects exactly the offsets in range whose address is not entered, in a loop that ends |
| `RandomIP.AllocateRandomIP` | karpenter/pkg/utils/wireguard/allocator.go:182-247 | returns a usable address that is not taken, and fails for want of addresses only when every usable one is taken; all of it also in terms of the CIDR's text |
| `RandomIP.IssuedIsNotTaken` | karpenter/pkg/utils/wireguard/allocator.go:228-246 | an issued address is none of the taken strings |
| `IPAllocator.Allocator.AllocateIP` | karpenter/pkg/utils/wireguard/allocator.go:67-127 | the whole new state, entry by entry: what waits is what did and is on no Node of the class, and the issued address under its claim; a failed listing changes nothing |
| `IPAllocator.Allocator.Cleanup` | karpenter/pkg/utils/wireguard/allocator.go:149-178 | the whole new state, entry by entry: what waits is what did and was not reported missing, and no class is left empty |
| `IPAllocator.InternalIPs` | karpenter/pkg/utils/wireguard/allocator.go:80-93 | collects exactly the addresses that some listed Node has as internal ones |
| `IPAllocator.AllocatesWaits` | karpenter/pkg/utils/wireguard/allocator.go:95-124 | an allocation moves entries in no other way, in this class or another |
| `IPAllocator.CleanedWaits` | karpenter/pkg/utils/wireguard/allocator.go:155-177 | nor does a cleanup |
| `AllocatorRuns.StepKeepsInv` | karpenter/pkg/utils/wireguard/allocator.go:67-178 | every step keeps each held address waiting under its claim or listed on a Node, and held by one claim |
| `AllocatorRuns.NeverSharedInRun` | karpenter/pkg/utils/wireguard/allocator.go:22-42 | in every run no two live claims of a node class hold the same address |
| `AllocatorRuns.IssuableIffUntracked` | karpenter/pkg/utils/wireguard/allocator.go:95-126 | an address can be issued next if and only if it shares the prefix in the CIDR's text, is a host address, and no listed or waiting entry stands for it |
| `AllocatorRuns.FreshClassFills` | karpenter/pkg/utils/wireguard/allocator.go:108-126 | in a class with no Nodes and no releases exactly 2^h - 2 calls succeed (2^h for a /31 and a /32), h being 32 less the prefix length in the CIDR's text, then all fail |
| `SecretTable.Sort` | plugin/pkg/db/secretstore.go:168-170 | sorting by name keeps the items and orders them |
| `SecretTable.SortedUnique` | plugin/pkg/db/secretstore.go:159-173 | the sorted listing is determined by the items |
| `SecretStore.ChunkNameInjective` | plugin/pkg/db/secretstore.go:134-137 | prefix and index can be recovered from a chunk name, whatever the prefix |
| `SecretStore.Chunk` | plugin/pkg/db/secretstore.go:191-204 | cuts the data into the chunks of its specification |
| `SecretStore.ChunksCut` | plugin/pkg/db/secretstore.go:191-204 | the chunks join to the data, all are full but the last, and no data makes one empty chunk |
| `SecretStore.Store.Read` | plugin/pkg/db/secretstore.go:52-73 | answers what the sorted listing of the store's Secrets decompresses to, and no bytes if there are none; over a reliable API it always answers |
| `SecretStore.Store.ListChunks` | plugin/pkg/db/secretstore.go:159-173 | the Secrets carrying the store's labels, sorted by name |
| `SecretStore.Store.Write` | plugin/pkg/db/secretstore.go:75-128 | on success the exact new table; even on failure nothing outside the store's chunk names has changed; over a reliable API it succeeds |
| `SecretStore.Store.WriteChunk` | plugin/pkg/db/secretstore.go:91-120 | creates or updates one chunk Secret, or reports an error |
| `SecretStore.Store.DeleteChunksFrom` | plugin/pkg/db/secretstore.go:175-189 | deletes up to the first missing index, in a loop that ends |
| `SecretRuns.WrittenIndex` | plugin/pkg/db/secretstore.go:86-127 | what a successful write leaves at every index, from any state |
| `SecretRuns.WriteLeavesOwnChunksIff` | plugin/pkg/db/secretstore.go:86-127 | a write leaves exactly the indices below its chunk count if and only if the higher ones had no gap |
| `SecretRuns.InterruptedDeletionStrands` | plugin/pkg/db/secretstore.go:175-189 | a gap left by an interrupted deletion shields the chunks behind it from later writes |
| `SecretRuns.OtherStoreUnaffected` | plugin/pkg/db/secretstore.go:134-173 | a write of one store, failed or not, changes nothing that a store with another prefix lists |
| `SecretRuns.NameOrderIffTen` | plugin/pkg/db/secretstore.go:134-137 | name order is index order if and only if there are at most ten chunks |
| `SecretRuns.HeldReadsBack` | plugin/pkg/db/secretstore.go:63-72 | up to ten stored chunks are read in order and joined |
| `SecretRuns.EmptyReads` | plugin/pkg/db/secretstore.go:63-65 | a store without Secrets reads as no bytes |
| `SecretRuns.WriteThenReadIff` | plugin/pkg/db/secretstore.go:52-128 | for any codec, a write from any gap-free state followed by a read gives the bytes back if and only if the pieces joined by name decompress to them, and reports corruption if and only if they do not decompress |
| `SecretRuns.WriteThenRead` | plugin/pkg/db/secretstore.go:52-128 | so it does for a lossless codec and at most ten chunks, leaving no gap |
| `SecretRuns.WitnessIsLost` | plugin/pkg/db/secretstore.go:159-173 | for a named lossless codec with gzip's header, a content of n chunks for every n above ten that its pieces joined by name do not give back |
| `SecretRuns.SurvivesIffTenChunks` | plugin/pkg/db/secretstore.go:159-173 | with that codec every content of n chunks, written and then read, comes back if and only if n is at most ten |
| `SecretRuns.RunReadsLastWrite` | plugin/pkg/db/secretstore.go:52-128 | in every run of the stores of a namespace a store stays gap-free and reads what it wrote last, exactly if that survives being joined by name |
| `StupidDB.FileStore.Write` | plugin/pkg/db/filestore.go:47-61 | success stores the bytes; failure leaves the old content or a prefix of the new |
| `StupidDB.DB.List` | plugin/pkg/db/db.go:68-98 | fresh objects with the stored values, in order |
| `StupidDB.DB.Encode` | plugin/pkg/db/db.go:100-122 | stores the encoding of the objects as they are now |
| `StupidDB.DB.CreateOrUpdate` | plugin/pkg/db/db.go:57-66 | the stored list afterwards: the others in order, then the object |
| `StupidDB.DB.Get` | plugin/pkg/db/db.go:124-135 | a fresh object with the value stored under the id, or nothing if there is none |
| `StupidDB.DB.Delete` | plugin/pkg/db/db.go:137-144 | the stored list afterwards: all but the id, in order |
| `StupidDB.RunIsSurviving` | plugin/pkg/db/db.go:57-66 | after any operations the list holds exactly the values not touched since, ordered by when they were put |
| `StupidDB.RunRefinesMap` | plugin/pkg/db/db.go:57-144 | after any operations ids are unique and looking one up gives the value last put and not removed |
| `StupidDB.RemoveAbsent` | plugin/pkg/db/db.go:137-144 | removing an id that is not stored changes nothing |
| `StoreStack.StepKeeps` | plugin/pkg/db/db.go:45-66 | over the Secret-backed store one operation, or anything other stores do, keeps the Secrets the pieces of the right list |
| `StoreStack.KeptCanBeShown` | plugin/pkg/db/db.go:74-98 | the list the Secrets are kept for can be read, the empty one before the first operation included |
| `StoreStack.RunCanContinue` | plugin/pkg/db/db.go:57-66 | every run can go on with any operation whose list fits ten chunks |
| `StoreStack.RunShowsOperations` | plugin/pkg/db/db.go:42-49 | through list, bytes, compression and chunks, what is read after any operations is the list they make, with unique ids and the last values put |
| `Parent.Server.CreateOrUpdate` | plugin/pkg/server/parent.go:32-60 | stores the backend's reply unredacted, answers it redacted, and stores nothing when the backend fails; panics only over a store that fails or does not decode |
| `Parent.Server.List` | plugin/pkg/server/parent.go:62-81 | as many objects as are stored, each redacted, in order, the store unchanged; panics only over a store that fails or does not decode |
| `Parent.Server.Get` | plugin/pkg/server/parent.go:83-99 | the stored object redacted or NotFound, the store unchanged |
| `Parent.Server.Delete` | plugin/pkg/server/parent.go:101-120 | calls the backend of the stored type and drops the record only if it succeeds |
| `Parent.RunStoresLastReply` | plugin/pkg/server/parent.go:32-60 | in every run the object stored under an id is the last backend reply not deleted since |
| `Parent.RunDeletesAtOwner` | plugin/pkg/server/parent.go:101-120 | in every run each deletion reached the backend that had created the object |
| `ShellPrinter.ShellJoin` | cli/internal/config/nodebootstrap/script.go:102-113 | the loop builds the printed list |
| `ShellPrinter.LexQuotedArgument` | cli/internal/config/nodebootstrap/script.go:106-107 | any text survives being quoted and read inside a word |
| `ShellPrinter.ShellTextReadsBackIff` | cli/internal/config/nodebootstrap/script.go:102-125 | a printed list is read back as exactly its arguments if and only if none is empty |
| `ShellPrinter.PrintedAsIsIff` | cli/internal/config/nodebootstrap/script.go:115-125 | an argument is printed as it is if and only if it has letters, digits and eight marks only |
| `ShellPrinter.CommandReadsBackIff` | cli/internal/config/nodebootstrap/script.go:75-125 | a command given as a list is read back as that command, whatever script follows, if and only if no argument is empty and the first is not printed as a reserved word or an assignment |
| `ShellPrinter.PickDelimiter` | cli/internal/config/nodebootstrap/script.go:93-100 | ends with the fewest leading underscores for which the delimiter does not occur in the content |
| `ShellPrinter.RenderWriteFile` | cli/internal/config/nodebootstrap/script.go:45-73 | prints the entry word for word, the content with a final newline only if it had none, and panics exactly on a path without a slash |
| `ShellPrinter.EntryReadsBack` | cli/internal/config/nodebootstrap/script.go:45-73 | a printed entry is read back as commands that make the path's directory, write the content to the path, truncating or appending, with a newline added only if it had none, and set the permissions |
| `ShellPrinter.EntriesReadBack` | cli/internal/config/nodebootstrap/assets/script.sh.tmpl:45-51 | so is a whole section of entries, one after the other, each with its own content |
| `ShellPaths.QuotedLastIff` | cli/internal/config/nodebootstrap/script.go:52-69 | a path between quotes at the end of a line is read as itself, the rest of the script untouched, if and only if it has no quote |
| `ShellPaths.CatLineIff` | cli/internal/config/nodebootstrap/script.go:61 | so is the line that opens the here-document, whatever follows |
| `ShellPaths.MkdirLineIff` | cli/internal/config/nodebootstrap/script.go:50-53 | so is the line that makes the directory |
| `ShellPaths.ChmodLineIff` | cli/internal/config/nodebootstrap/script.go:68-70 | so is the line that sets the permissions |
| `ShellPaths.EntryReadsBackIff` | cli/internal/config/nodebootstrap/script.go:45-73 | with a path of one line, an entry in front of any script is read back as commands that write it, its content included, if and only if the path has no quote |
| `ShellPaths.EntriesReadBackIff` | cli/internal/config/nodebootstrap/assets/script.sh.tmpl:45-51 | a section of entries comes back, contents included, if and only if no path of it has a quote |
| `ShellPaths.QuoteInPathLosesScript` | cli/internal/config/nodebootstrap/assets/script.sh.tmpl:45-60 | one quote in the path of a last entry pairs off with those of the closing echo line, and a script that could be read without the entry cannot be read at all |
| `Pricing.SequentialPricesAt` | karpenter/pkg/cloudproviders/nebius/instancetype/offerings.go:115-188 | one entry per key, the price of the preset where presets of a key are priced alike |
| `Pricing.PriceOfIff` | karpenter/pkg/cloudproviders/nebius/instancetype/offerings.go:140-180 | the price of a preset as the billing replies have it: each capacity type at its own quote, 1000 for what is missing, and failed if and only if a call made failed |
| `Pricing.FinishedFanPrices` | karpenter/pkg/cloudproviders/nebius/instancetype/offerings.go:125-187 | every finished interleaving has exactly the presets' keys, each with what the billing replies for that preset say |
| `Pricing.FanEqualsSequential` | karpenter/pkg/cloudproviders/nebius/instancetype/offerings.go:125-187 | every interleaving of the goroutines ends with the sequential map, and never more than ten run |
| `Pricing.MoveKeepsInv` | karpenter/pkg/cloudproviders/nebius/instancetype/offerings.go:133-183 | every move keeps each stored price that of a finished preset of its key |
| `Pricing.NoDeadlock` | karpenter/pkg/cloudproviders/nebius/instancetype/offerings.go:128-186 | until all goroutines have finished some move is possible |
| `Provider.Resolve` | karpenter/pkg/cloudproviders/nebius/instancetype/provider.go:173-222 | fails exactly when listing does, and keeps types and presets aligned index by index |
| `Provider.ResolvedIsDirect` | karpenter/pkg/cloudproviders/nebius/instancetype/provider.go:190-210 | a resolved type is the one its preset would get priced alone, if its name is its own: its offerings per capacity type at the quoted prices |
| `Provider.DirectIsType` | karpenter/pkg/cloudproviders/nebius/instancetype/provider.go:137-171 | a preset's type has its name, an on-demand offering, and a spot offering if it is preemptible, in the region, at the quoted prices, available unless a call failed |
| `Provider.FindsFirst` | karpenter/pkg/cloudproviders/nebius/instancetype/provider.go:257-266 | searching by name finds the first preset of the name, and nothing only if there is none |
| `Provider.PresetsByName` | karpenter/pkg/cloudproviders/nebius/instancetype/provider.go:306-310 | every name leads to the last preset of that name |
| `Provider.SelectCheapest` | karpenter/pkg/cloudproviders/nebius/instancetype/provider.go:312-362 | selects the earliest of the cheapest requested, available, compatible offerings, and fails exactly when there is none |
| `Provider.LaunchIsOfWinner` | karpenter/pkg/cloudproviders/nebius/instancetype/provider.go:319-362 | with distinct names the preset, zone, capacity type and quoted price are the winner's own, and its billing calls did not fail |
| `Provider.LaunchIsCheapestQuote` | karpenter/pkg/cloudproviders/nebius/instancetype/provider.go:281-362 | from the listing and the billing replies alone: a launch is of a listed preset at a quoted price that the claim accepts, none accepted is cheaper, and there is none only if no quote is accepted |
| `Provider.Provider.GetOrResolve` | karpenter/pkg/cloudproviders/nebius/instancetype/provider.go:104-121 | the cached entry or else what resolves now, cached and tracked; a failure changes neither |
| `Provider.Provider.GetInstanceTypes` | karpenter/pkg/cloudproviders/nebius/instancetype/provider.go:126-135 | with a fixed catalogue, the types as if nothing were cached |
| `Provider.Provider.GetPlatformPreset` | karpenter/pkg/cloudproviders/nebius/instancetype/provider.go:246-269 | the first preset of the name in the cached entry, or in the listing; with a fixed catalogue, in the listing |
| `Provider.Provider.GetInstanceTypeByPlatformPreset` | karpenter/pkg/cloudproviders/nebius/instancetype/provider.go:137-171 | the first cached type of the name, or the preset priced alone; with a fixed catalogue and a name of its own, the type the billing replies say |
| `Provider.Provider.ResolvePlatformPresetFromNodeClaim` | karpenter/pkg/cloudproviders/nebius/instancetype/provider.go:281-363 | the selection on the cached or resolved entry, with each error in its own case |
| `Provider.Provider.RefreshAll` | karpenter/pkg/cloudproviders/nebius/instancetype/provider.go:399-432 | the whole new cache: tracked keys that resolve are replaced, all else stays |
| `ProviderRuns.CacheIsTransparent` | karpenter/pkg/cloudproviders/nebius/instancetype/provider.go:104-279 | with a fixed catalogue every query of every interleaved run, for an entry, one preset or one type, is answered as if nothing were cached |
| `ProviderRuns.CachedWasResolved` | karpenter/pkg/cloudproviders/nebius/instancetype/provider.go:104-121 | with a changing one every cached entry was resolved for its key, and is tracked once no query is under way |
| `ResourceCRUD.Service.Create` | plugin/pkg/util/nebius/resource.go:148-164 | adds the resource under a new id, or fails with or without having done so |
| `ResourceCRUD.Service.CreateOrUpdate` | plugin/pkg/util/nebius/resource.go:196-226 | creates what is missing, updates what has drifted, returns what is in sync, and what it returns is what is stored; an error leaves only these changes open |
| `ResourceCRUD.Service.Delete` | plugin/pkg/util/nebius/resource.go:228-245 | removes what the id or the name finds and nothing else; what is missing counts as deleted |
| `ResourceCRUD.ConvergesKeepsUniqueIff` | plugin/pkg/util/nebius/resource.go:196-208 | names stay unique unless a desired id is gone while its name is in use |
| `AgentPools.Server.CreateOrUpdate` | plugin/pkg/services/agentpools/nebius/instance/agentpools.go:45-146 | disk, instance, clean-up and status, with the tables after every outcome; rejected exactly without a version or user data, and failing only where a service does |
| `AgentPools.Server.Delete` | plugin/pkg/services/agentpools/nebius/instance/agentpools.go:148-175 | the instance first, then its disk, stopping at the first failure |
| `AgentPools.CreateAddsExactlyTwo` | plugin/pkg/services/agentpools/nebius/instance/agentpools.go:116-138 | corollary of the two convergences: under unused names success adds one disk and one instance booting from it, with their ids in the status |
| `AgentPools.CreatedFieldByField` | plugin/pkg/services/agentpools/nebius/instance/agentpools.go:116-138 | the created instance and disk have the pool's platform, preset, subnet, user data, disk size, image and names in their own fields |
| `AgentPools.DiskGoesLast` | plugin/pkg/services/agentpools/nebius/instance/agentpools.go:148-175 | a deletion takes the disk only once the instance is gone |
| `AgentPools.CreateThenDeleteRestores` | plugin/pkg/services/agentpools/nebius/instance/agentpools.go:116-175 | deleting what was created leaves every resource as before, and deleting again changes nothing |
| `AgentPools.DeleteRetryFinishes` | plugin/pkg/services/agentpools/nebius/instance/agentpools.go:148-175 | a deletion repeated after a failure removes exactly the pool's two resources |
| `AgentPools.CleanUpRestoresIff` | plugin/pkg/services/agentpools/nebius/instance/agentpools.go:121-129 | after a clean-up the disks are as before if and only if the boot disk had not existed |
| `AgentPools.OthersUntouched` | plugin/pkg/services/agentpools/nebius/instance/agentpools.go:116-129 | corollary: no outcome changes a resource that is not the pool's own |
| `AgentPools.ReportsBootDiskIff` | plugin/pkg/services/agentpools/nebius/instance/agentpools.go:116-137 | a success, with or without recorded ids, reports the disk its instance boots from if and only if there was no such instance or it booted from the disk found |
| `AgentPools.LostReplyLeavesWrongDisk` | plugin/pkg/services/agentpools/nebius/instance/agentpools.go:116-137 | the failing case: after a lost reply and a retry the reported disk is not the one the instance boots from |
| `AgentPoolRuns.AttemptAttachesIff` | plugin/pkg/services/agentpools/nebius/instance/agentpools.go:116-129 | an attempt, whatever its outcome, detaches a pool's instance from its disk only by failing after the disk and leaving the instance without it, and never another pool's |
| `AgentPoolRuns.AttachedIff` | plugin/pkg/services/agentpools/nebius/instance/agentpools.go:116-129 | after any attempts for any pools an instance boots from its pool's disk if and only if it did at the start and no failed attempt for that pool detached it |
| `AgentPoolRuns.RunReportsBootDiskIff` | plugin/pkg/services/agentpools/nebius/instance/agentpools.go:116-137 | a success after any attempts reports the disk its instance boots from exactly then |
| `Vpc.Server.CreateOrUpdate` | plugin/pkg/services/networks/nebius/vpc/vpc.go:39-81 | pool, network and subnet in order, with the tables after a failure at any step |
| `Vpc.Server.Delete` | plugin/pkg/services/networks/nebius/vpc/vpc.go:83-111 | subnet, network and pool in order, stopping at the first failure |
| `Vpc.AttemptsKeep` | plugin/pkg/services/networks/nebius/vpc/vpc.go:49-71 | no number of attempts for any networks, failing anywhere, makes a second resource of a name, or changes whether what exists of a network's names refers to each other |
| `Vpc.SuccessConverges` | plugin/pkg/services/networks/nebius/vpc/vpc.go:49-71 | a success after any attempts reports the one pool, network and subnet of its names, each referring to the next if and only if what existed of these names before the attempts did |
| `Vpc.DeleteById` | plugin/pkg/services/networks/nebius/vpc/vpc.go:95-110 | deleting by recorded ids removes exactly those three |
| `Vpc.CreatedFieldByField` | plugin/pkg/services/networks/nebius/vpc/vpc.go:49-71 | the created pool has the network's CIDR, the network the pool, the subnet the network, under the project and their names |
| `Vpc.DeletesInOrder` | plugin/pkg/services/networks/nebius/vpc/vpc.go:95-110 | a deletion takes the network only once the subnet is gone, and the pool only once both are |
| `Vpc.SuccessThenDeleteLeavesNone` | plugin/pkg/services/networks/nebius/vpc/vpc.go:83-111 | after a success and a deletion nothing of the network's names is left, and nothing else has gone |

## Left out

- `RandomIP.AllocateRandomIP`: addresses in other notations than dotted decimal (IPv6, IPv4-mapped) come in through a function that gives the text they print as; nothing is assumed of it.
- `SecretStore.Store.Write`: of gzip only that decompressing undoes compressing is assumed; the label selector is a set of labels, not its text; metadata of a Secret beyond labels and data is not carried.
- `StupidDB.DB.CreateOrUpdate`: of protobuf only that decoding undoes encoding is assumed, and that no bytes are the empty list. The class works over the file store; over the Secret-backed store the same operations are steps on the table of Secrets, in `StoreStack`.
- `Parent.Server.CreateOrUpdate`: what a backend replies is a parameter, and the proofs about runs assume that it answers with the type and id it was given.
- `Provider.SelectCheapest`: prices are real numbers, so that the float64 values NaN and infinity do not occur; requirements are reduced to their capacity types and zones, and compatibility is an arbitrary predicate.
- `ResourceCRUD.Service.Create`: the reflection that builds the five calls from a service type is replaced by the calls; ids are numbers never given out twice, 0 standing for the empty one. The modelled cloud never refuses a name in use, and `ResourceCRUD.ConvergesKeepsUniqueIff` rests on a cloud that permits this.
- `IPAllocator.Allocator.Cleanup`: all lookups of one cleanup see the claims of one moment, that of the step.
- `AgentPools.Server.CreateOrUpdate`: the generated user data and the node labels are one parameter; the creation time is not carried.
- `ShellPrinter.EntryReadsBack`: requires a path with a slash and without quotes, and permissions of characters that need no quoting.
- `ShellPaths.EntryReadsBackIff`: requires a path of one line. For a path of several lines `ShellPaths.CatLineIff` still holds, but whether a misread word could by chance be that path again, further down, is left open.
- The shell reader knows simple commands with assignments, quoting, output redirection and here-documents. Double quotes, expansions, operators, comments and reserved words make it refuse the text. A name with `:` behind it, which POSIX reserves without a meaning, is an ordinary word, as in bash.
- `ResourceCRUD.Service.DeleteById`: the modelled cloud lets a disk be deleted while an instance boots from it; `AgentPools.LostReplyLeavesWrongDisk` and the detaching attempts of `AgentPoolRuns` rest on a cloud that permits this.
- `AgentPoolRuns.AttachedIff`: the attempts carry no recorded ids, and deletions are not among them: a deletion goes by recorded ids whatever they name. Names are unique at the start and boot disks were given out by the cloud.
- `Vpc.AttemptsKeep`: the same holds of the ids, and of the references, of networks.
- The rest of the script template (APT sources, packages, hostname, SSH keys) and `renderShellCmd` for values other than lists of strings: single lines of formatting.
- Interleavings of two Secret stores' API calls, and writers of the Secrets other than the stores: each store operation runs as a whole.
- The AWS and Azure services, the gRPC wiring, the CLI's configuration output, the karpenter hub and the node class controllers: lookups, formatting and calls to other systems.
- Timing: intervals, timeouts, contexts and logging.
