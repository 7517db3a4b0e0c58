# Verified model of the release pipeline

This project models the deterministic release pipeline of the repository and the decision layer around it, and
proves what they are for. It covers `scripts/release-gzip.ts`, `scripts/release-archive.ts`,
`scripts/release-order.ts`, `scripts/release-sbom.ts`, `scripts/release-licenses.ts`, `scripts/release-source.ts`,
`scripts/opencode-provenance.ts` and `scripts/s12-closure.ts`. Check it with `dafny verify dfyconfig.toml`.

## What is modelled

**Byte formats.** `Crc32`, `Files`, `Gzip`, `Ustar` and `Archive` are the hand-written encoders, with file handles that
return any non-empty chunk on a read and take any part of a write. The readers are written from the formats
themselves (section 2.3 of RFC 1952, section 3.2.4 of RFC 1951, the ustar interchange format of `pax` in IEEE Std
1003.1), so the round trips do not depend on the writers. The table-driven CRC is proved to be the bit-at-a-time
register, and that register the remainder of polynomial division over GF(2).

**Order and trees.** `Utf8` and `Sorting` are the byte order every sorted list uses; `PortablePath`, `ReleaseTree`,
`ArchiveInputs` and `SourceTree` are directory walks over a tree whose listings come in any order.

**JSON.** `Json` is the canonical serialiser that three scripts share, `JsonText` a reader of JSON text with free white
space and escapes, `JsonCanonical` the proof that the text is canonical, `TrailingCommas` the quote and escape state
machine that `bun.lock` goes through. Lists compared through `JSON.stringify` are compared as text here too (`Texts`,
`Inventory`).

**The bill of materials.** `Workspaces` and `WorkspaceClosure` are the first worklist, `LockPackages` and
`PackageClosure` the second, `NpmPurl`, `Components` and `ReleaseSbom` the assembly, `ComponentText` and `RootGraph` the
strict reader in the license inventory, `SbomResolution` the whole path. Loops over a record or a set take its members
in any order, so every result holds for all of them.

**Provenance and curation.** `Provenance` is the graph of sources, destinations and patches; `Curation` and
`CurationTree` are the declared file list of an embedded runtime, and the tree it stands for.

**Closure.** `ClosureRequirements`, `SourceBinding` and `ClosureDecision` decide whether a release is eligible.
`Inventory` is what a content address hashes. `EvidenceProtocol` is the evidence directory as an object whose contents
an environment may change before every single access; the hash is a parameter, assumed injective only where a lemma
says so.

## Results worth reading first

- A gzip stream written under any schedule of short reads and writes unpacks to its input
  (`Gzip.CreateDeterministicGzip`). The comment at `scripts/release-gzip.ts:44-48` promises byte-for-byte
  reproducibility; the code gives it exactly when the reads cut the input the same way, in particular when every read
  is full, and short reads change the bytes (`Gzip.StreamsEqualExactlyWhenCutsEqual`, `Gzip.ShortReadsChangeTheStream`).
- Two values have the same canonical text exactly when they are equal up to key order and undefined members
  (`JsonCanonical.CanonicalIsCanonical`).
- The package closure succeeds exactly when no needed item stops it, whatever the queue order, and its selection is the
  least closed set (`PackageClosure.SelectPackages`, `PackageClosure.SelectionIsLeast`). Records that share an identity
  need not agree on their dependencies for that: the first one in lock order always stands for all.
- A bill says of every chosen package exactly what its lockfile record and its manifest say
  (`ReleaseSbom.CreateReleaseSbom`), and every bill of at most 1024 components is accepted by its reader
  (`ReleaseSbom.ReleaseIsExact`).
- A receipt decides exactly what the observations call for (`ClosureDecision.CloseRelease`). An eligible release has no
  local failure, a complete ledger, a source bound by evidence and never by waiver, and every blocker resolved by
  evidence or by a waiver for this candidate in force at both evaluations (`ClosureDecision.EligibleIsSafe`).
- A run that commits its evidence has written a manifest of exactly what it read, and ends with checksums that cover
  every file of the last inventory except themselves and the completion receipt, whatever happened to the directory in
  between; an undisturbed run does commit (`EvidenceProtocol.EvidenceRoot.Finalise`, `EvidenceProtocol.ChecksumFileIsExact`).

## Model

| member | source | states |
|---|---|---|
| `Utf8.ByteOrderIsCodePointOrder` | scripts/release-order.ts:5-7 | comparing the UTF-8 bytes of two strings is comparing their code points lexicographically |
| `Utf8.OrderIsTotal` | scripts/release-order.ts:5-7 | the order ties only equal strings and reverses when its arguments are swapped |
| `Utf8.OrderIsTransitive` | scripts/release-order.ts:5-7 | the order is transitive, and a tie at the ends is a tie throughout |
| `Utf8.EncodeInjective` | scripts/release-order.ts:5-7 | no two strings have the same UTF-8 bytes |
| `Utf8.CharIsSequence` | scripts/release-order.ts:5-7 | every character is encoded as the one sequence section 3 of RFC 3629 gives its number |
| `Sorting.SortForgetsOrder` | scripts/release-order.ts:5-7 | sorting two lists of the same records, no key twice, gives one list |
| `Sorting.SortedFixpoint` | scripts/opencode-provenance.ts:222-231 | comparing a list with its sorted copy is checking that it is sorted |
| `Sorting.DistinctCount` | scripts/opencode-provenance.ts:227-231 | comparing set size and list length is checking that nothing repeats |
| `Sorting.SortOfSameSet` | scripts/s12-closure.ts:1330-1338 | sorted copies of two duplicate-free lists are equal exactly when the sets are |
| `Crc32.BuildTable` | scripts/release-gzip.ts:8-15 | entry i of the table is eight bit steps from i, for all 256 entries |
| `Crc32.EightSteps` | scripts/release-gzip.ts:10-13 | the inner loop takes exactly eight steps of the bit-at-a-time register |
| `Crc32.TableStep` | scripts/release-gzip.ts:19-21 | one table lookup and shift equals folding in a byte and taking eight bit steps |
| `Crc32.UpdateCrc32` | scripts/release-gzip.ts:17-23 | the byte loop carries the bit-at-a-time register over the whole chunk |
| `Crc32.FeedChunks` | scripts/release-gzip.ts:93-107 | the register carried over chunks is the register over their concatenation |
| `Crc32.GeneratorIsCrc32Polynomial` | scripts/release-gzip.ts:12 | the constant of the table is the reflected CRC-32 polynomial, coefficient by coefficient |
| `Crc32.DivisionExists` | scripts/release-gzip.ts:17-23 | every dividend has a quotient and a 32-bit remainder by the generator |
| `Crc32.RemainderUnique` | scripts/release-gzip.ts:17-23 | the remainder of that division is unique |
| `Crc32.CrcIsRemainder` | scripts/release-gzip.ts:93-123 | the CRC written is the complement of the one remainder of the message by the generator |
| `Files.WriteAll` | scripts/release-gzip.ts:25-42 | over any short writes, all bytes are appended and the position returned, or a stalled handle is reported after a proper prefix |
| `Gzip.CreateDeterministicGzip` | scripts/release-gzip.ts:49-138 | for every schedule of short reads and writes a finished run leaves a stream that a reader unpacks to the input, behind ten fixed header bytes that hold no time and no host; each failure names its cause |
| `Gzip.StoreInput` | scripts/release-gzip.ts:91-107 | the read loop stores the input in blocks, the last one final, with the running checksum of all of it |
| `Gzip.WriteBlock` | scripts/release-gzip.ts:100-105 | one block header and its data are appended |
| `Gzip.BlockFields` | scripts/release-gzip.ts:101-103 | a stored block reads back with complementary LEN and NLEN and its data |
| `Gzip.BlocksRead` | scripts/release-gzip.ts:94-107 | a reader finds the chunks as they were cut, and exactly the last block is final |
| `Gzip.StreamUnpacks` | scripts/release-gzip.ts:86-130 | header, blocks and trailer unpack to the input with CRC-32 and size modulo 2^32 verified |
| `Gzip.StreamsEqualExactlyWhenCutsEqual` | scripts/release-gzip.ts:94-107 | two streams are equal exactly when the reads returned the same chunks |
| `Gzip.ShortReadsChangeTheStream` | scripts/release-gzip.ts:94-107 | two bytes read one at a time give another stream than when read together |
| `Gzip.FullReadsReproduce` | scripts/release-gzip.ts:44-48 | when every read is full the stream is a function of the input |
| `Ustar.OctalLength` | scripts/release-archive.ts:88-89 | a number has at most w octal digits exactly when it is below 8^w |
| `Ustar.OctalReads` | scripts/release-archive.ts:86-91 | an octal field reads back to the number written |
| `Ustar.OctalFits` | scripts/release-archive.ts:86-91 | a field of width w is written exactly for numbers below 8^(w-1) |
| `Ustar.WriteOctal` | scripts/release-archive.ts:86-91 | writes exactly the octal field at its offset, or refuses a number that does not fit |
| `Ustar.WriteText` | scripts/release-archive.ts:80-84 | copies exactly the encoded text at its offset, or refuses one that is too long |
| `Ustar.SplitSucceeds` | scripts/release-archive.ts:93-108 | a path splits exactly when it has at most 100 bytes, or some slash leaves a prefix of at most 155 and a name of at most 100 |
| `Ustar.SplitLongest` | scripts/release-archive.ts:96-106 | of all legal splits the one with the longest prefix is taken |
| `Ustar.SplitRejoins` | scripts/release-archive.ts:93-108 | prefix and name rejoin to the path, each within its field, and a path that fits the name has no prefix |
| `Ustar.ChecksumFits` | scripts/release-archive.ts:124-128 | the checksum always fits six octal digits: its overflow branch is unreachable |
| `Ustar.HeaderExists` | scripts/release-archive.ts:110-130 | a header exists exactly when the path splits and size and time are below 8^11 |
| `Ustar.HeaderReads` | scripts/release-archive.ts:110-130 | a written header reads back, magic, version and byte sum verified: a regular file of user and group 0 with no names, mode 0755 exactly for an executable and 0644 for any other file, and path, size and time as given |
| `Ustar.TarHeader` | scripts/release-archive.ts:110-130 | fills the block in place with exactly that header, or fails exactly when none exists |
| `Archive.WriteEntryContents` | scripts/release-archive.ts:188-246 | appends the file's contents exactly, and each failure is explained by the file's size or digest |
| `Archive.WriteMember` | scripts/release-archive.ts:324-332 | appends header, contents and padding of one entry, or names why not |
| `Archive.WriteArchive` | scripts/release-archive.ts:319-336 | leaves exactly the framed files in order and two zero blocks, or points at the entry that stopped it |
| `Archive.StreamUnarchives` | scripts/release-archive.ts:319-336 | a ustar reader returns every entry in order and stops at the end of the stream |
| `Archive.NotAnEndBlock` | scripts/release-archive.ts:124-128 | no header is ever taken for an end block |
| `Archive.StreamIsWholeBlocks` | scripts/release-archive.ts:331-334 | an archive is a whole number of 512-byte blocks |
| `Archive.StreamInjective` | scripts/release-archive.ts:319-336 | different entry lists give different archives |
| `Archive.FinishedUnarchives` | scripts/release-archive.ts:319-348 | a finished run unpacks to the files it read, under their paths and the given time, with mode 0755 exactly for the executables and 0644 for the rest |
| `PortablePath.SplitJoin` | scripts/release-archive.ts:68-69 | joining slash-free segments and splitting again gives them back |
| `PortablePath.JoinSplit` | scripts/release-archive.ts:272-274 | splitting and joining gives the path back, in slash-free segments |
| `PortablePath.JoinIsRelative` | scripts/release-archive.ts:57-74 | portable segments join to a non-empty relative path without NUL |
| `PortablePath.ReservedExactly` | scripts/release-archive.ts:35 | the pattern for reserved names matches exactly a device name in any case, alone or before a dot and the rest of a line |
| `PortablePath.PortableExactly` | scripts/release-archive.ts:37-55 | a segment passes exactly when it is normalised, no directory reference, free of control characters, separators and the characters Windows refuses, without a final dot or space, and names no device |
| `ReleaseTree.WalkNodeSound` | scripts/release-archive.ts:132-167 | every collected entry is a file of the tree under its own portable path, with its size, and executable exactly when the file is or is declared to be |
| `ReleaseTree.WalkNodeComplete` | scripts/release-archive.ts:132-167 | every file of the tree is collected |
| `ReleaseTree.WalkNodeDistinct` | scripts/release-archive.ts:132-167 | no file is collected twice |
| `ReleaseTree.WalkNodeFails` | scripts/release-archive.ts:145-154 | the walk fails exactly for a link, a special file or a path that is not portable |
| `ReleaseTree.EntriesIgnoreListingOrder` | scripts/release-archive.ts:138-139 | entries and their order do not depend on the order directory listings return |
| `ReleaseTree.Collector.CollectEntries` | scripts/release-archive.ts:132-167 | the recursion pushes exactly the walk's entries onto its output |
| `ArchiveInputs.CheckCollisions` | scripts/release-archive.ts:280-290 | passes exactly when no two paths have one folded key |
| `ArchiveInputs.CheckReceipts` | scripts/release-archive.ts:306-317 | passes exactly when the receipts' paths are the archived paths |
| `ArchiveInputs.CheckInputs` | scripts/release-archive.ts:279-317 | all checks pass exactly when entries exist, are distinct after folding, hold every executable and match the receipts one to one |
| `ArchiveInputs.CollectedPathsArchivable` | scripts/release-archive.ts:155-156 | what the walk collects are relative paths without NUL, no two the same |
| `ArchiveInputs.TreeRoundTrip` | scripts/release-archive.ts:248-349 | from a tree to an archive and back: one record per file, under its path, with its bytes, and with mode 0755 exactly when it is executable on disk or declared, else 0644 |
| `Json.CanonicalPrintsNormal` | scripts/release-sbom.ts:275-293 | the serialiser fails exactly without a normal form and otherwise prints it |
| `Json.StringifyPiecesRead` | scripts/release-sbom.ts:277 | an escaped string literal stands for the string it was made from |
| `Json.StringifyCharIsMinimal` | scripts/release-sbom.ts:277 | only the quote, the backslash and control characters are escaped, by a letter where there is one and otherwise by four lower-case digits |
| `JsonText.ReadsDoc` | scripts/release-sbom.ts:310-312 | a JSON text with any white space and escapes reads back to its value |
| `JsonCanonical.CanonicalReads` | scripts/release-sbom.ts:275-293 | parsing the canonical text gives the normal form of the value |
| `JsonCanonical.NormalEqualExactlyWhenEquivalent` | scripts/opencode-provenance.ts:933-952 | normal forms are equal exactly for values equal up to key order and undefined members |
| `JsonCanonical.CanonicalIsCanonical` | scripts/release-licenses.ts:460-481 | canonical texts are equal exactly for values equal up to key order and undefined members |
| `TrailingCommas.RemoveTrailingJsonCommas` | scripts/release-sbom.ts:71-98 | the loop computes the state machine, and fails exactly in an unterminated literal |
| `TrailingCommas.SpaceIsWhiteSpace` | scripts/release-sbom.ts:91 | the white space skipped is exactly the 25 white space and line terminator characters of ECMAScript |
| `TrailingCommas.LookAhead` | scripts/release-sbom.ts:90-92 | the inner loop finds whether a closing bracket follows the white space |
| `TrailingCommas.StripDoc` | scripts/release-sbom.ts:71-98 | of a JSON text with any white space and trailing commas, exactly the trailing commas are removed |
| `TrailingCommas.StripPieces` | scripts/release-sbom.ts:77-88 | a string literal passes through untouched, whatever commas, brackets and escapes it holds |
| `TrailingCommas.StrippedTextReads` | scripts/release-sbom.ts:310-312 | every JSON text with trailing commas means the same once they are removed |
| `Workspaces.RuntimeDependencyMap` | scripts/release-sbom.ts:136-151 | succeeds exactly when no name has two ranges or an inherited name, and holds exactly what is declared |
| `Workspaces.SameTextExactlyWhenSameMap` | scripts/release-sbom.ts:157-159 | sorted entry lists have one text exactly when the two maps are equal |
| `Workspaces.SameDependencyMap` | scripts/release-sbom.ts:153-160 | true exactly for equal maps |
| `Workspaces.CheckWorkspace` | scripts/release-sbom.ts:333-347 | passes exactly when the workspace is in both places with one version and the same declarations |
| `WorkspaceClosure.SortDependencies` | scripts/release-sbom.ts:349-357 | splits dependencies into workspaces, required and optional external names |
| `WorkspaceClosure.VisitWorkspaces` | scripts/release-sbom.ts:326-358 | succeeds exactly when every reachable workspace passes; visits exactly those and gathers exactly their external names |
| `Reachability.ReachableIsLeast` | scripts/release-sbom.ts:326-358 | what paths from the roots reach lies in every closed set |
| `Reachability.ExploreEnd` | scripts/release-sbom.ts:330-358 | an emptied worklist has visited exactly what is reachable |
| `LockPackages.LocatorSplits` | scripts/release-sbom.ts:100-106 | a locator is accepted exactly as name and version around its last separator |
| `LockPackages.IdentityInjective` | scripts/release-sbom.ts:409 | an identity stands for one name and version |
| `LockPackages.DependencyItemsMean` | scripts/release-sbom.ts:227-256 | a record's items are refused exactly when its optional peers are malformed, empty or no peers of it; otherwise they are exactly what its four fields require or allow |
| `LockPackages.IndexByName` | scripts/release-sbom.ts:367-372 | files every record under its name, in lock order |
| `LockPackages.FindManifest` | scripts/release-sbom.ts:194-225 | the manifest of the first matching store directory whose own name and version are exact, and none exactly when there is no such directory |
| `LockPackages.EntryOfMeans` | scripts/release-sbom.ts:200-203 | a store directory is of a package exactly when it is the name with slashes made pluses, an at sign, the version, and nothing or a plus and more |
| `LockPackages.InstalledMeans` | scripts/release-sbom.ts:258-265 | a package counts as installed exactly when some store directory has that form |
| `PackageClosure.ServeItem` | scripts/release-sbom.ts:408-434 | one queued item: every eligible candidate is chosen with its dependencies queued, or one cannot be |
| `PackageClosure.SelectPackages` | scripts/release-sbom.ts:394-435 | terminates, succeeds exactly when every needed item has a record if required, and every record it takes has a manifest and sensible optional peers; selects exactly what needed items bring in, with its manifest |
| `PackageClosure.ServesFirstRecord` | scripts/release-sbom.ts:398-418 | an item takes exactly the records of its name that are first of their identity in the lockfile, and only installed ones if it is optional |
| `PackageClosure.SelectionUnique` | scripts/release-sbom.ts:396-435 | the selection depends on the set of starting items only, not on the order of the queue |
| `PackageClosure.SelectionIsLeast` | scripts/release-sbom.ts:394-435 | the selection is closed under required names and installed optional ones, and inside every set that is |
| `NpmPurl.DecodeName` | scripts/release-sbom.ts:108-111 | percent decoding the name part gives back the bytes of the name, scoped or not |
| `NpmPurl.PurlInjective` | scripts/release-sbom.ts:108-113 | a purl names exactly one name and version |
| `NpmPurl.PurlExactly` | scripts/release-sbom.ts:108-113 | a purl is the scheme, the name and the version with every UTF-8 byte but the unreserved ones percent-encoded in capitals; a scope keeps its slash and has its at sign escaped |
| `ReleaseSbom.PackageComponentMeans` | scripts/release-sbom.ts:445-464 | a package is put in the bill exactly when its license has text and its SHA-512 integrity decodes; the component then has its name, version and purl, that license without outer white space and nothing else changed, that hash or none, its lock key and the license source |
| `ReleaseSbom.CreateReleaseSbom` | scripts/release-sbom.ts:437-538 | succeeds exactly when every package has a license and a well-formed integrity; the bill then has one component describing each chosen package in name and version order and no other npm component, the curated source and the embedded runtime as recorded, the release itself, and one dependency record that lists exactly these in byte order |
| `ReleaseSbom.ReleaseUnique` | scripts/release-sbom.ts:437-465 | a selection has one bill, whatever order it was collected in |
| `ReleaseSbom.ReleaseIsExact` | scripts/release-sbom.ts:437-538 | every bill of at most 1024 components is accepted for its Bun runtime, with exactly the selected packages as npm components |
| `RootGraph.ReadComponents` | scripts/release-licenses.ts:490-532 | passes exactly for distinct references and components acceptable one by one, sorted into their kinds |
| `RootGraph.NpmComponentsFromExactRootGraph` | scripts/release-licenses.ts:483-582 | accepts exactly the exact bills and returns their npm components in byte order |
| `RootGraph.RootDependsOnAll` | scripts/release-licenses.ts:562-580 | the root of an accepted bill depends on its npm components and runtime and on nothing else |
| `RootGraph.ResultIsDistinct` | scripts/release-licenses.ts:581 | the result is sorted, and no name and version or reference occurs twice |
| `ComponentText.TextDecidesComponent` | scripts/release-licenses.ts:460-481 | canonical component texts are equal exactly for equal components |
| `SbomResolution.EmbeddedIsExact` | scripts/release-licenses.ts:536-547 | the one embedded runtime of an accepted bill is the expected component itself |
| `SbomResolution.WorkspacesByName` | scripts/release-sbom.ts:317-324 | fails exactly for a repeated name, skips unnamed workspaces, and holds all others |
| `SbomResolution.ReadPackages` | scripts/release-sbom.ts:360-366 | fails exactly for a locator that does not split, and keeps every other field |
| `SbomResolution.StoreWorldMeans` | scripts/release-sbom.ts:194-265 | what the closure looks up is the lockfile index, the store directories and the first exact manifest, as described from their names |
| `SbomResolution.ResolveRelease` | scripts/release-sbom.ts:295-538 | from lockfile and workspaces to the bill and what it says: the stages compose, and nothing else can make it fail |
| `Provenance.ValidateInventoryGraph` | scripts/opencode-provenance.ts:573-661 | accepts exactly the manifests that meet the declarative graph conditions |
| `Provenance.LinkedExactly` | scripts/opencode-provenance.ts:573-661 | without lookups: a parsed manifest is accepted exactly when every edge is declared at both ends with one classification and a shared patch, patches list exactly their users, required occurrences name patches of their destination, and the license is copied unchanged |
| `Provenance.EdgesAreSymmetric` | scripts/opencode-provenance.ts:580-611 | an edge declared at one end is declared at the other, joins one classification and shares a patch |
| `Provenance.ReferenceOnlyIsolated` | scripts/opencode-provenance.ts:329-335 | no destination comes from a reference-only source |
| `Provenance.EdgeIsCovered` | scripts/opencode-provenance.ts:613-628 | every edge is covered by a declared patch that lists both its ends |
| `Provenance.PatchIsExact` | scripts/opencode-provenance.ts:613-628 | a patch lists exactly the sources and destinations that name it |
| `Provenance.ComponentsHaveOneClass` | scripts/opencode-provenance.ts:585-597 | everything connected over any number of edges has one classification |
| `ClosureRequirements.ValidateRequirements` | scripts/s12-closure.ts:1248-1351 | reports no issue exactly for a complete ledger and registry under the fixed policy |
| `ClosureRequirements.CheckBlocker` | scripts/s12-closure.ts:1296-1337 | reports no issue exactly for a sound blocker that follows the policy for its identifier |
| `ClosureRequirements.RequirementIdReads` | scripts/s12-closure.ts:1254-1257 | an identifier is the letter R and the number in three decimal digits |
| `ClosureRequirements.BlockerIdExactly` | scripts/s12-closure.ts:1298 | a blocker identifier passes exactly as BLK- and at least one capital letter, digit or hyphen |
| `ClosureRequirements.EachRequirementOnce` | scripts/s12-closure.ts:1253-1264 | in a complete ledger each of the 79 requirements occurs at exactly one place and nothing else does |
| `ClosureRequirements.EachBlockerOnce` | scripts/s12-closure.ts:1294-1342 | in a complete registry each policy blocker occurs once, with the policy's requirements, status and disposition |
| `ClosureRequirements.FollowsIsEntry` | scripts/s12-closure.ts:63-72 | a policy blocker that follows the policy is one of eight entries, spelled out with requirements, status and disposition |
| `ClosureRequirements.OthersAreValidated` | scripts/s12-closure.ts:1342-1350 | in a complete ledger every requirement but the fourteen the policy holds back is locally validated |
| `SourceBinding.BoundMeans` | scripts/s12-closure.ts:2661-2709 | a bound run had one commit, repository, source and Git executable throughout, clean at both ends, and the candidate was made from that |
| `SourceBinding.StableExactly` | scripts/s12-closure.ts:2445-2467 | the Git observation is stable exactly when every probe passed on a clean tree with one head, one repository and one executable |
| `SourceBinding.BoundExactly` | scripts/s12-closure.ts:2661-2709 | the source is bound exactly when all that holds of one unchanged source, a candidate made from it, and addressed core evidence; the subject recorded is exactly that |
| `SourceBinding.MismatchExactly` | scripts/s12-closure.ts:2469-2506 | a candidate is contradicted exactly when the observation is stable and its repository, its commit, or the fingerprint of an unchanged source differs |
| `ClosureDecision.WaiverObservation` | scripts/s12-closure.ts:1373-1408 | a waiver approves exactly when supplied for this candidate's digest and its day is real and not over; the reason says whether it is absent, expired or no real day |
| `ClosureDecision.AcceptWaiver` | scripts/s12-closure.ts:2578-2624 | an artifact is taken exactly when it names the candidate, its metadata and the source observed last, and each approval is by the owner of the first blocker of its identifier |
| `ClosureDecision.RecheckWaivers` | scripts/s12-closure.ts:3045-3061 | passes exactly when every approved waiver still approves at the later moment |
| `ClosureDecision.OpenExactly` | scripts/s12-closure.ts:2764-2812 | a blocker stays open exactly when it is observed, no evidence of its own resolves it, and no approval in force for the bound candidate does; the source binding has no such approval |
| `ClosureDecision.PassesExactly` | scripts/s12-closure.ts:2840-2855 | a run passes locally exactly when nothing failed: no gate, no requirement issue, an unchanged source, and a candidate that is canonical and not contradicted |
| `ClosureDecision.EarliestMeans` | scripts/s12-closure.ts:2822-2826 | the expiry recorded is that of an approved waiver, and none of the approved ones expires earlier |
| `ClosureDecision.ParseReceipt` | scripts/s12-closure.ts:847-974 | accepts exactly the receipts that meet the schema's cross-field conditions |
| `ClosureDecision.Complete` | scripts/s12-closure.ts:2977-3118 | a receipt is produced exactly when nothing has changed and the schema accepts it |
| `ClosureDecision.ReceiptAccepted` | scripts/s12-closure.ts:3080-3118 | the receipt of any run meets its schema exactly when at most eight blockers are open and none is listed twice |
| `ClosureDecision.CompleteRegistryAccepted` | scripts/s12-closure.ts:3080-3118 | with at most eight distinct blocker identifiers the schema accepts every run's receipt |
| `ClosureDecision.SourceNeverWaived` | scripts/s12-closure.ts:2773-2776 | the source binding is resolved by evidence or not at all |
| `ClosureDecision.ReadyIsBound` | scripts/s12-closure.ts:2764-2864 | a release that is ready has its source bound by evidence |
| `ClosureDecision.EligibleIsSafe` | scripts/s12-closure.ts:2764-2864 | an eligible release has no local failure, a complete ledger, a bound source that Git, source and candidate still match, and every blocker resolved by evidence or by a waiver in force at both evaluations |
| `ClosureDecision.CloseRelease` | scripts/s12-closure.ts:2370-3118 | over the observations alone: local pass, eligibility, status, open and waived blockers, earliest expiry, bound subject and digest are each exactly what they call for; a receipt is produced exactly when nothing changed and its schema accepts it, which a complete ledger always grants |
| `Inventory.TextDecidesReceipts` | scripts/s12-closure.ts:2960 | inventories compared as text are equal exactly as lists |
| `Inventory.AddressOf` | scripts/s12-closure.ts:1170-1192 | hashes the sorted list exactly when receipts are valid and paths distinct after folding |
| `Inventory.HashExactly` | scripts/s12-closure.ts:61 | a digest passes exactly as 64 lower-case hexadecimal digits |
| `Inventory.InventoryPathExactly` | scripts/s12-closure.ts:1089-1109 | an inventory path passes exactly when it is normalised, relative, free of control characters and backslashes, and each segment is a plain name |
| `Inventory.AddressTextMeans` | scripts/s12-closure.ts:1170-1192 | the hashed text parses to schema version 1 and a triple of path, size and hash for each file, in order |
| `Inventory.SameAddressText` | scripts/s12-closure.ts:1170-1192 | two accepted receipt lists hash the same text exactly when one is a permutation of the other |
| `EvidenceProtocol.EvidenceRoot.Write` | scripts/s12-closure.ts:448-484 | creates a new file only and remembers its intended size and hash |
| `EvidenceProtocol.EvidenceRoot.CollectInventory` | scripts/s12-closure.ts:1111-1168 | sorted receipts without a path twice, each of the file when it was read; exact when nobody interferes |
| `EvidenceProtocol.EvidenceRoot.CheckIntended` | scripts/s12-closure.ts:486-499 | passes exactly when every runner-authored file is listed with its intended size and hash |
| `EvidenceProtocol.EvidenceRoot.WriteManifest` | scripts/s12-closure.ts:2929-2950 | the manifest written lists exactly the inventory just read and the hash of its address text; undisturbed, that inventory is the whole directory |
| `EvidenceProtocol.EvidenceRoot.Settle` | scripts/s12-closure.ts:2929-2975 | a settled inventory, seen twice, is what the checksums cover and the checksum file that lists it; the manifest lists the payload read before; always reached undisturbed |
| `EvidenceProtocol.EvidenceRoot.CommitReceipt` | scripts/s12-closure.ts:3119-3154 | the last inventory is the settled one and the receipt, with every intended file intact |
| `EvidenceProtocol.EvidenceRoot.Finalise` | scripts/s12-closure.ts:2929-3154 | under any interference a run that finishes took ten steps in this order and no other, wrote a manifest of the payload it read, checksums of what it then read and a receipt of the settled inventory, and ends with every intended and required file listed; an undisturbed one finishes with exactly these files added |
| `EvidenceProtocol.ChecksumsCoverAll` | scripts/s12-closure.ts:2951-2957 | the checksums cover every file of the last inventory except themselves and the completion receipt, and nothing else |
| `EvidenceProtocol.ChecksumsRead` | scripts/s12-closure.ts:2952-2956 | the checksum text reads back as hash and path of every covered file, in order |
| `EvidenceProtocol.ChecksumFileIsExact` | scripts/s12-closure.ts:2962-2971 | with an injective hash, the checksum file on record is the one text that lists every other file with its hash |
| `SourceTree.TreeHash.HashTreeEntries` | scripts/release-source.ts:18-40 | the recursion feeds the hash exactly the walk's files in order |
| `SourceTree.StreamDecidesList` | scripts/release-source.ts:38 | the stream determines its files: path, size and hash can be read off it |
| `SourceTree.LeavesAreFiles` | scripts/release-source.ts:18-40 | the walk hashes exactly the files of the tree |
| `SourceTree.SameStreamExactlyWhenSameFiles` | scripts/release-source.ts:18-51 | two trees give one stream exactly when they hold the same files with the same hashes, whatever the listing order |
| `SourceTree.HashReleaseSourceTree` | scripts/release-source.ts:42-51 | fails exactly for a link or special file, and otherwise hashes that stream |
| `Curation.CheckPaths` | scripts/release-licenses.ts:718-739 | passes exactly for relative paths of at most 512 characters and eight portable segments, without conflicts after folding, the manifest's own included |
| `CurationTree.AcceptedIsRealTree` | scripts/release-licenses.ts:718-763 | an accepted list and its manifest can be written, also on a file system that folds case, and enumerate to the sorted list |
| `CurationTree.ConflictFreeExactlyWhenWritable` | scripts/release-licenses.ts:730-740 | the conflict check is exact: paths pass it exactly when their files can be written into an empty directory one after the other |
| `CurationTree.EnumerateRegularTree` | scripts/release-licenses.ts:788-806 | every file of the tree, sorted, or failure for a link or special file |
| `CurationTree.MatchesDeclared` | scripts/release-licenses.ts:883-889 | passes exactly when the directory enumerates to the declared list |
| `CurationTree.MatchingIsExact` | scripts/release-licenses.ts:883-889 | a matching directory has a file for every declared path and declares every file |
| `Texts.TextDecidesList` | scripts/opencode-provenance.ts:569-571 | lists of strings compared as JSON text are compared as lists |

## Left out

- The identity checks around every file (lstat, realpath, device, inode, times), file modes, fsync, close, unlink and
  rename: platform facts. A read returns some chunk of fixed contents; in the evidence directory contents may change.
- SHA-256: a parameter. The subject a run is bound to is kept as the tuple the program hashes, not its hash.
- Strings with lone surrogates: a Dafny character is a Unicode scalar value. The JSON reader therefore refuses `\u`
  escapes of surrogates, also in pairs; the serialiser never writes one.
- JSON numbers other than naturals: a finite number stands for the text the runtime prints for it.
- NFC normalisation and lower case: parameters.
- Calendar dates: `ClosureDecision.Calendar` is a parameter for `Date.parse` and `toISOString`.
- The regular expressions that find evidence identifiers and links in the ledger, base64 decoding, and the Markdown
  tables: parameters or absent.
- gzip streams with optional header fields: the reader takes the header the program writes; DEFLATE blocks other than
  stored ones.
- Integer-like keys of a record come first in JavaScript; loops here take keys in any order instead.
- `comparablePath` on Windows, which folds the keys of intended files: the model compares them exactly.
- The serial number, tool list and timestamps of a bill, and the check of the curated source component against its
  provenance beyond what `RootGraph.IsAccepted` says.
- The branding scan, the dependency boundary, the human-readable provenance tables and the field-by-field parsers: two
  map comparisons and schema checks.
- `canonicalReleaseRepository` and the Git, signer, gitleaks and audit processes: I/O and URL parsing.
- License text selection and copying, package variants, smoke tests, reports and argument parsing: they would add only
  easy members.
- ArchiveInputs.CheckInputs: a declared executable whose path is not portable is refused as absent from the archive; the
  program refuses it before the walk.
- CurationTree.AcceptedIsRealTree: assumes that lower case acts on each side of a slash alone and folds the manifest's
  name as written in the program, because lower case itself is a parameter.
- EvidenceProtocol.EvidenceRoot.ReadBack: compares size and hash of the completion receipt; the program also parses it
  again.
- EvidenceProtocol.EvidenceRoot.Write: does not model the parent directories and the look at the file after the write.
- ClosureDecision.CloseRelease: local failures other than those of the ledger, the source, the candidate's repository
  and the waiver are given as a set of names.
- The Git probes of `SourceBinding.Views` come with their results: which probes run is not part of this model.
