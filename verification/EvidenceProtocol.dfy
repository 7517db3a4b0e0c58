/** The last steps of a closure run in `scripts/s12-closure.ts`: writing the evidence manifest, the checksums and the
    completion receipt while anything else may change the evidence directory between any two reads. */
module EvidenceProtocol {
  import opened Wrappers
  import opened Lists
  import opened Sorting
  import opened PortablePath
  import opened Bits
  import opened Utf8
  import opened Inventory

  type Disk = map<string, string>

  /** What the run meant a file to hold. */
  datatype Intended = Intended(bytes: nat, sha256: string)

  /** Everything the steps depend on but do not control: the hash, the Unicode tables, the texts of the manifest and
      of the receipt (over an inventory and the address of the payload), and what the environment does to the directory
      before the n-th access. */
  datatype World = World(
    hash: seq<byte> -> string,
    unicode: Unicode,
    manifest: (seq<FileReceipt>, string) -> string,
    completion: (seq<FileReceipt>, string) -> string,
    interfere: (nat, Disk) -> Disk)

  /** What a run does to its directory: a listing it took, a file it wrote, a file it read back. */
  datatype Event = Looked(files: seq<FileReceipt>) | Wrote(path: string, text: string) | ReadIn(path: string, found: Intended)

  datatype Trace = Start | Then(before: Trace, event: Event)

  const MANIFEST := "evidence-manifest.json"
  const CHECKSUMS := "SHA256SUMS"
  const COMPLETION := "closure-complete.json"

  function Receipt(w: World, path: string, text: string): FileReceipt {
    FileReceipt(path, |Encode(text)|, w.hash(Encode(text)))
  }

  function IntendedOf(w: World, text: string): Intended {
    Intended(|Encode(text)|, w.hash(Encode(text)))
  }

  /** One line of the checksum file. */
  function ChecksumLine(f: FileReceipt): string {
    f.sha256 + "  " + f.path
  }

  function JoinLines(files: seq<FileReceipt>): string {
    if files == [] then ""
    else if |files| == 1 then ChecksumLine(files[0])
    else ChecksumLine(files[0]) + "\n" + JoinLines(files[1..])
  }

  function ChecksumText(files: seq<FileReceipt>): string {
    JoinLines(files) + "\n"
  }

  function Without(path: string, files: seq<FileReceipt>): seq<FileReceipt> {
    Where((f: FileReceipt) => f.path != path, files)
  }

  function Find(files: seq<FileReceipt>, path: string): (r: Option<FileReceipt>)
    ensures r.Some? ==> r.value in files && r.value.path == path
    ensures r.None? <==> forall f :: f in files ==> f.path != path
  {
    if files == [] then None else if files[0].path == path then Some(files[0]) else Find(files[1..], path)
  }

  /** Every intended file is listed with its intended size and hash. */
  ghost predicate AllIntended(intended: map<string, Intended>, files: seq<FileReceipt>) {
    forall path :: path in intended ==>
      exists f :: f in files && f.path == path && f.bytes == intended[path].bytes && f.sha256 == intended[path].sha256
  }

  /** The receipt of a file as it was at some moment. */
  ghost predicate IsReading(w: World, f: FileReceipt) {
    exists text :: f == Receipt(w, f.path, text)
  }

  /** A listing read one file at a time: in byte order, no path twice. */
  ghost predicate IsListing(files: seq<FileReceipt>) {
    IsSorted(PathOf, files) && DistinctKeys(PathOf, files)
  }

  /** `settled` holds what the checksums cover and the checksum file itself, with the text that lists them. */
  ghost predicate IsSettled(w: World, covered: seq<FileReceipt>, settled: seq<FileReceipt>) {
    && Without(CHECKSUMS, settled) == covered
    && Receipt(w, CHECKSUMS, ChecksumText(covered)) in settled
    && |settled| == |covered| + 1
  }

  /** The last inventory: the files the checksums cover, the checksum file that lists them, and the receipt. */
  ghost predicate IsCommitted(w: World, covered: seq<FileReceipt>, last: seq<FileReceipt>) {
    && IsListing(last)
    && Without(CHECKSUMS, Without(COMPLETION, last)) == covered
    && Receipt(w, CHECKSUMS, ChecksumText(covered)) in last
    && (exists f :: f in last && f.path == COMPLETION)
    && |last| == |covered| + 2
  }

  lemma SettledIsCommitted(w: World, covered: seq<FileReceipt>, settled: seq<FileReceipt>, last: seq<FileReceipt>)
    requires IsSettled(w, covered, settled) && IsListing(last)
    requires HoldsReceipt(settled, last)
    ensures IsCommitted(w, covered, last)
  {
    assert Find(last, COMPLETION).value in last;
    assert Receipt(w, CHECKSUMS, ChecksumText(covered)) in Without(COMPLETION, last);
  }

  lemma StillCanWrite(w: World, disk: Disk, manifest: string)
    requires CanSettle(w, disk)
    ensures CanWrite(w, disk[MANIFEST := manifest], CHECKSUMS)
  {
    NamesDiffer();
  }

  lemma StillCanLook(w: World, disk: Disk, manifest: string, checksums: string)
    requires CanSettle(w, disk)
    ensures IsQuiet(w) && ArePortablePaths(w, disk[MANIFEST := manifest][CHECKSUMS := checksums])
  {
  }

  lemma NamesDiffer()
    ensures MANIFEST != CHECKSUMS && MANIFEST != COMPLETION && CHECKSUMS != COMPLETION
  {
    assert |MANIFEST| == 22 && |CHECKSUMS| == 10 && |COMPLETION| == 21;
  }

  /** What was intended before is still intended, except for the three files the last steps write. */
  ghost predicate Keeps(before: map<string, Intended>, after: map<string, Intended>) {
    forall path :: path in before && path != MANIFEST && path != CHECKSUMS && path != COMPLETION ==>
      path in after && after[path] == before[path]
  }

  lemma Authored(before: map<string, Intended>, x: Intended, y: Intended, z: Intended)
    ensures var after := before[MANIFEST := x][CHECKSUMS := y][COMPLETION := z];
            && MANIFEST in after && CHECKSUMS in after && COMPLETION in after && after[CHECKSUMS] == y
            && after[MANIFEST] == x && after[COMPLETION] == z
            && Keeps(before, after)
  {
    NamesDiffer();
  }

  // ---------------------------------------------------------------- an undisturbed directory

  /** The environment leaves the directory alone. */
  ghost predicate IsQuiet(w: World) {
    forall n, disk :: w.interfere(n, disk) == disk
  }

  /** The receipts of exactly the files not left out. */
  ghost predicate Receipts(w: World, disk: Disk, left: set<string>, files: seq<FileReceipt>) {
    forall f :: f in files <==> f.path in disk && f.path !in left && f == Receipt(w, f.path, disk[f.path])
  }

  ghost predicate IsListingOf(w: World, disk: Disk, files: seq<FileReceipt>) {
    IsListing(files) && Receipts(w, disk, {}, files)
  }

  ghost predicate ArePortablePaths(w: World, disk: Disk) {
    forall path :: path in disk ==> IsInventoryPath(w.unicode, path)
  }

  lemma ListingUnique(w: World, disk: Disk, xs: seq<FileReceipt>, ys: seq<FileReceipt>)
    requires IsListingOf(w, disk, xs) && IsListingOf(w, disk, ys)
    ensures xs == ys
  {
    DistinctReceipts(xs);
    DistinctReceipts(ys);
    SameMultiset(xs, ys);
    SortedUnique(PathOf, xs, ys);
  }

  lemma DistinctReceipts(xs: seq<FileReceipt>)
    requires DistinctKeys(PathOf, xs)
    ensures Distinct(xs)
  {
    forall i, j | 0 <= i < j < |xs|
      ensures xs[i] != xs[j]
    {
      assert PathOf(xs[i]) != PathOf(xs[j]);
    }
  }

  lemma {:induction false} WithoutKeepsListing(path: string, files: seq<FileReceipt>)
    requires IsListing(files)
    ensures IsListing(Without(path, files))
    ensures |files| <= |Without(path, files)| + 1
    ensures (forall f :: f in files ==> f.path != path) ==> Without(path, files) == files
    ensures (exists f :: f in files && f.path == path) ==> |files| == |Without(path, files)| + 1
  {
    if files != [] {
      TailKeeps(PathOf, files);
      WithoutKeepsListing(path, files[1..]);
      var rest := Without(path, files[1..]);
      forall f | f in files[1..]
        ensures PathOf(f) != PathOf(files[0]) && NotAfter(PathOf(files[0]), PathOf(f))
      {
        var k :| 0 <= k < |files[1..]| && files[1..][k] == f;
        assert PathOf(files[0]) != PathOf(files[k + 1]);
      }
      assert files == [files[0]] + files[1..];
      if files[0].path != path {
        ConsKeepsListing(files[0], rest);
      }
    }
  }

  lemma ConsKeepsListing(first: FileReceipt, rest: seq<FileReceipt>)
    requires IsListing(rest) && forall f :: f in rest ==> PathOf(f) != PathOf(first) && NotAfter(PathOf(first), PathOf(f))
    ensures IsListing([first] + rest)
  {
    var all := [first] + rest;
    forall i, j | 0 <= i < j < |all|
      ensures NotAfter(PathOf(all[i]), PathOf(all[j])) && PathOf(all[i]) != PathOf(all[j])
    {
      assert all[j] == rest[j - 1] && rest[j - 1] in rest;
      assert i > 0 ==> all[i] == rest[i - 1];
    }
  }

  /** The listing with one new file: without it, it is the listing from before. */
  lemma ListingGrows(w: World, disk: Disk, path: string, text: string, before: seq<FileReceipt>, after: seq<FileReceipt>)
    requires path !in disk && IsListingOf(w, disk, before) && IsListingOf(w, disk[path := text], after)
    ensures Without(path, after) == before && |after| == |before| + 1
    ensures Find(after, path) == Some(Receipt(w, path, text))
  {
    WithoutKeepsListing(path, after);
    assert Receipt(w, path, text) in after;
    assert Receipts(w, disk, {}, Without(path, after));
    ListingUnique(w, disk, before, Without(path, after));
    SamePathSame(after, Find(after, path).value, Receipt(w, path, text));
  }

  /** A new file with a portable name can be written, and everything can be listed. */
  ghost predicate CanWrite(w: World, disk: Disk, path: string) {
    && IsQuiet(w) && ArePortablePaths(w, disk)
    && path !in disk && IsInventoryPath(w.unicode, path)
  }

  /** Nobody interferes, none of the last three files is there yet, and the files so far have an address. */
  ghost predicate CanSettle(w: World, disk: Disk) {
    && CanWrite(w, disk, MANIFEST) && CanWrite(w, disk, CHECKSUMS) && CanWrite(w, disk, COMPLETION)
    && forall files :: IsListingOf(w, disk, files) ==> HasAddress(w.unicode, files)
  }

  /** What is intended is what is on the disk. */
  ghost predicate IsIntact(w: World, intended: map<string, Intended>, disk: Disk) {
    forall path :: path in intended ==> path in disk && intended[path] == IntendedOf(w, disk[path])
  }

  lemma IntactGrows(w: World, intended: map<string, Intended>, disk: Disk, path: string, text: string)
    requires IsIntact(w, intended, disk)
    ensures IsIntact(w, intended[path := IntendedOf(w, text)], disk[path := text])
  {
  }

  lemma IntactIsIntended(w: World, intended: map<string, Intended>, disk: Disk, files: seq<FileReceipt>)
    requires IsIntact(w, intended, disk) && IsListingOf(w, disk, files)
    ensures AllIntended(intended, files)
  {
    forall path | path in intended
      ensures exists f :: f in files && f.path == path && f.bytes == intended[path].bytes && f.sha256 == intended[path].sha256
    {
      assert Receipt(w, path, disk[path]) in files;
    }
  }

  ghost predicate HoldsReceipt(settled: seq<FileReceipt>, completed: seq<FileReceipt>) {
    Without(COMPLETION, completed) == settled && |completed| == |settled| + 1 && Find(completed, COMPLETION).Some?
  }

  /** A quiet directory in which these files are listed and the intended ones are as intended. */
  ghost predicate CanLook(w: World, disk: Disk, intended: map<string, Intended>, files: seq<FileReceipt>) {
    IsQuiet(w) && ArePortablePaths(w, disk) && IsListingOf(w, disk, files) && AllIntended(intended, files)
  }

  ghost predicate CanCommit(w: World, disk: Disk, intended: map<string, Intended>, settled: seq<FileReceipt>) {
    CanWrite(w, disk, COMPLETION) && IsListingOf(w, disk, settled) && IsIntact(w, intended, disk)
  }

  lemma CommitLooks(
    w: World, disk: Disk, intended: map<string, Intended>, settled: seq<FileReceipt>, text: string, completed: seq<FileReceipt>)
    requires CanCommit(w, disk, intended, settled)
    requires IsListingOf(w, disk[COMPLETION := text], completed)
    ensures CanLook(w, disk[COMPLETION := text], intended[COMPLETION := IntendedOf(w, text)], completed)
    ensures HoldsReceipt(settled, completed)
  {
    ListingGrows(w, disk, COMPLETION, text, settled, completed);
    IntactGrows(w, intended, disk, COMPLETION, text);
    IntactIsIntended(w, intended[COMPLETION := IntendedOf(w, text)], disk[COMPLETION := text], completed);
  }

  /** The receipts the completion names are there, or are the manifest's own. */
  ghost predicate HasRequired(disk: Disk, required: seq<string>) {
    forall i :: 0 <= i < |required| ==> required[i] in disk || required[i] == MANIFEST
  }

  lemma SettledHasRequired(w: World, disk: Disk, manifest: string, checksums: string, inventory: seq<FileReceipt>, required: seq<string>)
    requires HasRequired(disk, required)
    requires IsListingOf(w, disk[MANIFEST := manifest][CHECKSUMS := checksums], inventory)
    ensures forall i :: 0 <= i < |required| ==> Find(inventory, required[i]).Some?
  {
    var after := disk[MANIFEST := manifest][CHECKSUMS := checksums];
    forall i | 0 <= i < |required|
      ensures Find(inventory, required[i]).Some?
    {
      assert required[i] in after;
      assert Receipt(w, required[i], after[required[i]]) in inventory;
    }
  }

  lemma SettledIsIntact(w: World, intended: map<string, Intended>, disk: Disk, manifest: string, checksums: string)
    requires IsIntact(w, intended, disk) && CanWrite(w, disk, COMPLETION)
    requires IsInventoryPath(w.unicode, MANIFEST) && IsInventoryPath(w.unicode, CHECKSUMS)
    ensures IsIntact(w, intended[MANIFEST := IntendedOf(w, manifest)][CHECKSUMS := IntendedOf(w, checksums)],
                     disk[MANIFEST := manifest][CHECKSUMS := checksums])
    ensures CanWrite(w, disk[MANIFEST := manifest][CHECKSUMS := checksums], COMPLETION)
  {
    IntactGrows(w, intended, disk, MANIFEST, manifest);
    IntactGrows(w, intended[MANIFEST := IntendedOf(w, manifest)], disk[MANIFEST := manifest], CHECKSUMS, checksums);
    NamesDiffer();
  }

  // ---------------------------------------------------------------- what the last steps write, and in what order

  /** A listing of files as they were when they were read, with an address. */
  ghost predicate IsPayload(w: World, payload: seq<FileReceipt>) {
    && IsListing(payload) && HasAddress(w.unicode, payload)
    && forall f :: f in payload ==> IsReading(w, f)
  }

  /** The manifest lists the payload and its address. */
  ghost function ManifestText(w: World, payload: seq<FileReceipt>): string {
    w.manifest(payload, w.hash(Encode(AddressText(payload))))
  }

  /** The completion receipt is made from everything but itself, and from the address the manifest gives. */
  ghost function CompletionText(w: World, payload: seq<FileReceipt>, last: seq<FileReceipt>): string {
    w.completion(Without(COMPLETION, last), w.hash(Encode(AddressText(payload))))
  }

  ghost predicate HasAuthored(
    w: World, payload: seq<FileReceipt>, covered: seq<FileReceipt>, last: seq<FileReceipt>, intended: map<string, Intended>)
  {
    && MANIFEST in intended && intended[MANIFEST] == IntendedOf(w, ManifestText(w, payload))
    && CHECKSUMS in intended && intended[CHECKSUMS] == IntendedOf(w, ChecksumText(covered))
    && COMPLETION in intended && intended[COMPLETION] == IntendedOf(w, CompletionText(w, payload, last))
  }

  lemma CommittedIsAuthored(w: World, before: map<string, Intended>, payload: seq<FileReceipt>, s: Settled, last: seq<FileReceipt>)
    requires HoldsReceipt(s.inventory, last) && s.address == w.hash(Encode(AddressText(payload)))
    ensures var after := IntendedSettled(w, before, payload, s.covered)[COMPLETION := IntendedOf(w, w.completion(s.inventory, s.address))];
            HasAuthored(w, payload, s.covered, last, after) && Keeps(before, after)
    ensures w.completion(s.inventory, s.address) == CompletionText(w, payload, last)
    ensures Without(COMPLETION, last) == s.inventory
  {
    Authored(before, IntendedOf(w, ManifestText(w, payload)), IntendedOf(w, ChecksumText(s.covered)),
             IntendedOf(w, w.completion(s.inventory, s.address)));
  }

  /** Everything required has a receipt. */
  ghost predicate AreListed(required: seq<string>, files: seq<FileReceipt>) {
    forall i :: 0 <= i < |required| ==> HasPath(files, required[i])
  }

  ghost predicate HasPath(files: seq<FileReceipt>, path: string) {
    exists f :: f in files && f.path == path
  }

  lemma FoundAreListed(required: seq<string>, files: seq<FileReceipt>)
    requires forall i :: 0 <= i < |required| ==> Find(files, required[i]).Some?
    ensures AreListed(required, files)
  {
    forall i | 0 <= i < |required|
      ensures HasPath(files, required[i])
    {
      var f := Find(files, required[i]).value;
      assert f in files && f.path == required[i];
    }
  }

  datatype Settled = Settled(covered: seq<FileReceipt>, inventory: seq<FileReceipt>, address: string)

  ghost function IntendedSettled(w: World, intended: map<string, Intended>, payload: seq<FileReceipt>, covered: seq<FileReceipt>)
    : map<string, Intended>
  {
    intended[MANIFEST := IntendedOf(w, ManifestText(w, payload))][CHECKSUMS := IntendedOf(w, ChecksumText(covered))]
  }

  ghost function SettledDisk(w: World, disk: Disk, payload: seq<FileReceipt>, covered: seq<FileReceipt>): Disk {
    disk[MANIFEST := ManifestText(w, payload)][CHECKSUMS := ChecksumText(covered)]
  }

  ghost function FinalDisk(w: World, disk: Disk, payload: seq<FileReceipt>, covered: seq<FileReceipt>, last: seq<FileReceipt>): Disk {
    SettledDisk(w, disk, payload, covered)[COMPLETION := CompletionText(w, payload, last)]
  }

  ghost function ManifestSteps(w: World, before: Trace, payload: seq<FileReceipt>, covered: seq<FileReceipt>): Trace {
    Then(Then(Then(before, Looked(payload)), Wrote(MANIFEST, ManifestText(w, payload))), Looked(covered))
  }

  ghost function ChecksumSteps(before: Trace, covered: seq<FileReceipt>, inventory: seq<FileReceipt>): Trace {
    Then(Then(before, Wrote(CHECKSUMS, ChecksumText(covered))), Looked(inventory))
  }

  ghost function SettleSteps(
    w: World, before: Trace, payload: seq<FileReceipt>, covered: seq<FileReceipt>, inventory: seq<FileReceipt>): Trace
  {
    Then(ChecksumSteps(ManifestSteps(w, before, payload, covered), covered, inventory), Looked(inventory))
  }

  ghost function ReceiptSteps(w: World, before: Trace, text: string, last: seq<FileReceipt>): Trace {
    Then(Then(Then(before, Wrote(COMPLETION, text)), ReadIn(COMPLETION, IntendedOf(w, text))), Looked(last))
  }

  ghost function CommitSteps(w: World, before: Trace, text: string, last: seq<FileReceipt>): Trace {
    Then(ReceiptSteps(w, before, text, last), Looked(last))
  }

  /** Every step of a run that commits, in order: each file is written after the look it is made from, and the
      directory looks the same twice before the receipt is written and twice after. */
  ghost function FinalSteps(
    w: World, before: Trace, payload: seq<FileReceipt>, covered: seq<FileReceipt>, last: seq<FileReceipt>): Trace
  {
    CommitSteps(w, SettleSteps(w, before, payload, covered, Without(COMPLETION, last)), CompletionText(w, payload, last), last)
  }

  // ---------------------------------------------------------------- the evidence directory

  class EvidenceRoot {
    const w: World
    var disk: Disk
    var accesses: nat
    var intended: map<string, Intended>
    ghost var trace: Trace

    constructor (w: World, disk: Disk, intended: map<string, Intended>)
      ensures this.w == w && this.disk == disk && this.intended == intended && trace == Start
    {
      this.w := w;
      this.disk := disk;
      this.intended := intended;
      accesses := 0;
      trace := Start;
    }

    /** The environment acts. */
    method Yield()
      modifies `disk, `accesses
      ensures disk == w.interfere(old(accesses), old(disk)) && accesses == old(accesses) + 1
    {
      disk := w.interfere(accesses, disk);
      accesses := accesses + 1;
    }

    /** `writeEvidenceFile`: a new file only, and the bytes it was meant to hold are remembered. */
    method Write(path: string, text: string) returns (ok: bool)
      modifies this
      ensures intended == if ok then old(intended)[path := IntendedOf(w, text)] else old(intended)
      ensures ok <==> path !in w.interfere(old(accesses), old(disk))
      ensures ok ==> disk == w.interfere(old(accesses), old(disk))[path := text]
      ensures trace == if ok then Then(old(trace), Wrote(path, text)) else old(trace)
    {
      Yield();
      if path in disk {
        return false;
      }
      disk := disk[path := text];
      intended := intended[path := IntendedOf(w, text)];
      trace := Then(trace, Wrote(path, text));
      ok := true;
    }

    /** `collectInventory`: each file is read when its turn comes, so the receipts may belong to different moments. */
    method CollectInventory() returns (r: Option<seq<FileReceipt>>)
      modifies `disk, `accesses, `trace
      ensures r.Some? ==> IsListing(r.value)
      ensures r.Some? ==> trace == Then(old(trace), Looked(r.value))
      ensures r.Some? ==> forall f :: f in r.value ==> IsReading(w, f)
      ensures IsQuiet(w) ==> disk == old(disk)
      ensures IsQuiet(w) && ArePortablePaths(w, old(disk)) ==> r.Some? && IsListingOf(w, old(disk), r.value)
    {
      Yield();
      var left := disk.Keys;
      var files: seq<FileReceipt> := [];
      while left != {}
        invariant DistinctKeys(PathOf, files) && trace == old(trace)
        invariant IsQuiet(w) ==> disk == old(disk) && left <= disk.Keys && Receipts(w, disk, left, files)
        invariant forall f :: f in files ==> f.path !in left && IsReading(w, f)
        decreases |left|
      {
        var path :| path in left;
        Yield();
        if path !in disk || !IsInventoryPath(w.unicode, path) {
          return None;
        }
        var f := Receipt(w, path, disk[path]);
        forall i | 0 <= i < |files|
          ensures PathOf(files[i]) != path
        {
          assert files[i] in files;
        }
        files := files + [f];
        left := left - {path};
      }
      SortSorts(PathOf, files);
      SortDistinct(PathOf, files);
      forall f
        ensures f in SortBy(PathOf, files) <==> f in files
      {
        SortPermutes(PathOf, files);
        assert f in SortBy(PathOf, files) <==> f in multiset(SortBy(PathOf, files));
      }
      r := Some(SortBy(PathOf, files));
      trace := Then(trace, Looked(r.value));
    }

    /** `assertIntendedEvidenceFiles`. */
    method CheckIntended(files: seq<FileReceipt>) returns (ok: bool)
      ensures ok ==> AllIntended(intended, files)
      ensures DistinctKeys(PathOf, files) && AllIntended(intended, files) ==> ok
    {
      var left := intended.Keys;
      while left != {}
        invariant left <= intended.Keys
        invariant forall path :: path in intended && path !in left ==>
                    exists f :: f in files && f.path == path && f.bytes == intended[path].bytes && f.sha256 == intended[path].sha256
        decreases |left|
      {
        var path :| path in left;
        var actual := Find(files, path);
        if actual.None? || actual.value.bytes != intended[path].bytes || actual.value.sha256 != intended[path].sha256 {
          if DistinctKeys(PathOf, files) && AllIntended(intended, files) {
            OnlyOne(files, path, intended[path]);
          }
          return false;
        }
        left := left - {path};
      }
      ok := true;
    }

    /** Reads a file back and compares its size and hash with what was meant. */
    method ReadBack(path: string, text: string) returns (same: bool)
      modifies `disk, `accesses, `trace
      ensures same ==> trace == Then(old(trace), ReadIn(path, IntendedOf(w, text)))
      ensures same ==> path in disk && IntendedOf(w, disk[path]) == IntendedOf(w, text)
      ensures IsQuiet(w) ==> disk == old(disk)
      ensures IsQuiet(w) && path in old(disk) && old(disk)[path] == text ==> same
    {
      Yield();
      same := path in disk && IntendedOf(w, disk[path]) == IntendedOf(w, text);
      if same {
        trace := Then(trace, ReadIn(path, IntendedOf(w, disk[path])));
      }
    }

    /** The manifest over everything written so far. The first result is the inventory that the checksums will cover
        and the address of the payload, the ghost result the payload the manifest lists. */
    method WriteManifest() returns (r: Option<(seq<FileReceipt>, string)>, ghost payload: seq<FileReceipt>)
      modifies this
      ensures r.Some? ==> IsPayload(w, payload) && r.value.1 == w.hash(Encode(AddressText(payload)))
      ensures r.Some? ==> intended == old(intended)[MANIFEST := IntendedOf(w, ManifestText(w, payload))]
      ensures r.Some? ==> trace == ManifestSteps(w, old(trace), payload, r.value.0)
      ensures CanSettle(w, old(disk)) ==>
                r.Some? && IsListingOf(w, old(disk), payload)
                && disk == old(disk)[MANIFEST := ManifestText(w, payload)] && IsListingOf(w, disk, r.value.0)
    {
      payload := [];
      var files := CollectInventory();
      if files == None {
        return None, payload;
      }
      payload := files.value;
      var preimage := AddressOf(w.unicode, files.value);
      if preimage == None {
        return None, payload;
      }
      SortedFixpoint(PathOf, payload);
      var address := w.hash(Encode(preimage.value));
      var text := w.manifest(files.value, address);
      var wrote := Write(MANIFEST, text);
      if !wrote {
        return None, payload;
      }
      var covered := CollectInventory();
      r := if covered.Some? then Some((covered.value, address)) else None;
    }

    /** The checksums; the result is the settled inventory that holds them. */
    method WriteChecksums(covered: seq<FileReceipt>) returns (r: Option<seq<FileReceipt>>)
      modifies this
      ensures r.Some? ==> IsSettled(w, covered, r.value) && IsListing(r.value)
      ensures r.Some? ==> intended == old(intended)[CHECKSUMS := IntendedOf(w, ChecksumText(covered))]
      ensures r.Some? ==> trace == ChecksumSteps(old(trace), covered, r.value)
      ensures CanWrite(w, old(disk), CHECKSUMS) && IsListingOf(w, old(disk), covered) ==>
                r.Some? && disk == old(disk)[CHECKSUMS := ChecksumText(covered)] && IsListingOf(w, disk, r.value)
    {
      var text := ChecksumText(covered);
      var wrote := Write(CHECKSUMS, text);
      if !wrote {
        return None;
      }
      r := CollectInventory();
      if r == None {
        return None;
      }
      if CanWrite(w, old(disk), CHECKSUMS) && IsListingOf(w, old(disk), covered) {
        ListingGrows(w, old(disk), CHECKSUMS, text, covered, r.value);
      }
      TextDecidesReceipts(Without(CHECKSUMS, r.value), covered);
      if ReceiptsText(Without(CHECKSUMS, r.value)) != ReceiptsText(covered) {
        return None;
      }
      var checksums := Find(r.value, CHECKSUMS);
      if |r.value| != |covered| + 1 || checksums.None?
         || checksums.value.bytes != |Encode(text)| || checksums.value.sha256 != w.hash(Encode(text)) {
        return None;
      }
    }

    /** Another inventory is the same. */
    method SameAgain(files: seq<FileReceipt>) returns (same: bool)
      modifies `disk, `accesses, `trace
      ensures same ==> trace == Then(old(trace), Looked(files))
      ensures IsQuiet(w) ==> disk == old(disk)
      ensures IsQuiet(w) && ArePortablePaths(w, old(disk)) && IsListingOf(w, old(disk), files) ==> same
    {
      var again := CollectInventory();
      if again == None {
        return false;
      }
      if IsQuiet(w) && ArePortablePaths(w, old(disk)) && IsListingOf(w, old(disk), files) {
        ListingUnique(w, old(disk), files, again.value);
      }
      TextDecidesReceipts(again.value, files);
      same := ReceiptsText(again.value) == ReceiptsText(files);
    }

    /** The manifest and then the checksums. */
    method WriteEnvelope() returns (r: Option<Settled>, ghost payload: seq<FileReceipt>)
      modifies this
      ensures r.Some? ==> IsSettled(w, r.value.covered, r.value.inventory) && IsListing(r.value.inventory)
      ensures r.Some? ==> IsPayload(w, payload) && r.value.address == w.hash(Encode(AddressText(payload)))
      ensures r.Some? ==> intended == IntendedSettled(w, old(intended), payload, r.value.covered)
      ensures r.Some? ==>
                trace == ChecksumSteps(ManifestSteps(w, old(trace), payload, r.value.covered), r.value.covered, r.value.inventory)
      ensures CanSettle(w, old(disk)) ==>
                r.Some? && IsListingOf(w, old(disk), payload)
                && disk == SettledDisk(w, old(disk), payload, r.value.covered) && IsListingOf(w, disk, r.value.inventory)
    {
      var covered;
      covered, payload := WriteManifest();
      if covered == None {
        return None, payload;
      }
      if CanSettle(w, old(disk)) {
        StillCanWrite(w, old(disk), ManifestText(w, payload));
      }
      var settled := WriteChecksums(covered.value.0);
      r := if settled.Some? then Some(Settled(covered.value.0, settled.value, covered.value.1)) else None;
    }

    /** The manifest and the checksums: the inventory they cover, the settled one that holds both, which was seen twice,
        and the address of the payload. The ghost result is the payload the manifest lists. */
    method Settle() returns (r: Option<Settled>, ghost payload: seq<FileReceipt>)
      modifies this
      ensures r.Some? ==> IsSettled(w, r.value.covered, r.value.inventory) && IsListing(r.value.inventory)
      ensures r.Some? ==> IsPayload(w, payload) && r.value.address == w.hash(Encode(AddressText(payload)))
      ensures r.Some? ==> intended == IntendedSettled(w, old(intended), payload, r.value.covered)
      ensures r.Some? ==> trace == SettleSteps(w, old(trace), payload, r.value.covered, r.value.inventory)
      ensures CanSettle(w, old(disk)) ==>
                r.Some? && IsListingOf(w, old(disk), payload)
                && disk == SettledDisk(w, old(disk), payload, r.value.covered) && IsListingOf(w, disk, r.value.inventory)
    {
      r, payload := WriteEnvelope();
      if r == None {
        return None, payload;
      }
      if CanSettle(w, old(disk)) {
        StillCanLook(w, old(disk), ManifestText(w, payload), ChecksumText(r.value.covered));
      }
      var same := SameAgain(r.value.inventory);
      if !same {
        return None, payload;
      }
    }

    /** Writes a new file and reads it back. */
    method WriteAndRead(path: string, text: string) returns (ok: bool)
      modifies this
      ensures ok ==> intended == old(intended)[path := IntendedOf(w, text)]
      ensures ok ==> trace == Then(Then(old(trace), Wrote(path, text)), ReadIn(path, IntendedOf(w, text)))
      ensures CanWrite(w, old(disk), path) ==> ok && disk == old(disk)[path := text]
    {
      ok := Write(path, text);
      if ok {
        ok := ReadBack(path, text);
      }
    }

    /** The inventory is the settled one with the completion receipt. */
    method CheckReceipt(settled: seq<FileReceipt>, completed: seq<FileReceipt>) returns (ok: bool)
      ensures ok <==> HoldsReceipt(settled, completed)
    {
      TextDecidesReceipts(Without(COMPLETION, completed), settled);
      ok := Find(completed, COMPLETION).Some? && |completed| == |settled| + 1
         && ReceiptsText(Without(COMPLETION, completed)) == ReceiptsText(settled);
    }

    /** Writes the completion receipt and looks at the directory with it. */
    method WriteReceipt(settled: seq<FileReceipt>, address: string) returns (r: Option<seq<FileReceipt>>)
      modifies this
      ensures r.Some? ==> IsListing(r.value) && HoldsReceipt(settled, r.value)
      ensures r.Some? ==> intended == old(intended)[COMPLETION := IntendedOf(w, w.completion(settled, address))]
      ensures r.Some? ==> trace == ReceiptSteps(w, old(trace), w.completion(settled, address), r.value)
      ensures CanCommit(w, old(disk), old(intended), settled) ==> r.Some? && CanLook(w, disk, intended, r.value)
      ensures CanCommit(w, old(disk), old(intended), settled) ==> disk == old(disk)[COMPLETION := w.completion(settled, address)]
    {
      var text := w.completion(settled, address);
      var wrote := WriteAndRead(COMPLETION, text);
      if !wrote {
        return None;
      }
      r := CollectInventory();
      if r == None {
        return None;
      }
      if CanCommit(w, old(disk), old(intended), settled) {
        CommitLooks(w, old(disk), old(intended), settled, text, r.value);
      }
      var holds := CheckReceipt(settled, r.value);
      r := if holds then r else None;
    }

    /** The last two looks: every intended file is there both times, and nothing differs between them. */
    method LookAgain(completed: seq<FileReceipt>) returns (ok: bool)
      modifies `disk, `accesses, `trace
      ensures ok ==> AllIntended(intended, completed) && trace == Then(old(trace), Looked(completed))
      ensures CanLook(w, old(disk), intended, completed) ==> ok && disk == old(disk)
    {
      ok := CheckIntended(completed);
      if !ok {
        return;
      }
      ok := SameAgain(completed);
      if !ok {
        return;
      }
      ok := CheckIntended(completed);
    }

    /** The completion receipt on top of a settled inventory; the result is the last inventory. */
    method CommitReceipt(settled: seq<FileReceipt>, address: string) returns (r: Option<seq<FileReceipt>>)
      modifies this
      ensures r.Some? ==> IsListing(r.value) && HoldsReceipt(settled, r.value) && AllIntended(intended, r.value)
      ensures r.Some? ==> intended == old(intended)[COMPLETION := IntendedOf(w, w.completion(settled, address))]
      ensures r.Some? ==> trace == CommitSteps(w, old(trace), w.completion(settled, address), r.value)
      ensures CanCommit(w, old(disk), old(intended), settled) ==>
                r.Some? && disk == old(disk)[COMPLETION := w.completion(settled, address)] && IsListingOf(w, disk, r.value)
    {
      r := WriteReceipt(settled, address);
      if r == None {
        return None;
      }
      var same := LookAgain(r.value);
      if !same {
        return None;
      }
    }

    /** A settled inventory with every required receipt, when the rechecks passed. */
    method SettleWith(proceed: bool, required: seq<string>) returns (r: Option<Settled>, ghost payload: seq<FileReceipt>)
      modifies this
      ensures r.Some? ==> proceed && IsSettled(w, r.value.covered, r.value.inventory) && IsListing(r.value.inventory)
      ensures r.Some? ==> AreListed(required, r.value.inventory)
      ensures r.Some? ==> IsPayload(w, payload) && r.value.address == w.hash(Encode(AddressText(payload)))
      ensures r.Some? ==> intended == IntendedSettled(w, old(intended), payload, r.value.covered)
      ensures r.Some? ==> trace == SettleSteps(w, old(trace), payload, r.value.covered, r.value.inventory)
      ensures CanSettle(w, old(disk)) && proceed && HasRequired(old(disk), required) ==>
                r.Some? && IsListingOf(w, old(disk), payload)
                && disk == SettledDisk(w, old(disk), payload, r.value.covered) && IsListingOf(w, disk, r.value.inventory)
    {
      r, payload := Settle();
      if r == None || !proceed {
        return None, payload;
      }
      if CanSettle(w, old(disk)) && HasRequired(old(disk), required) {
        SettledHasRequired(w, old(disk), ManifestText(w, payload), ChecksumText(r.value.covered), r.value.inventory, required);
      }
      if exists i :: 0 <= i < |required| && Find(r.value.inventory, required[i]).None? {
        return None, payload;
      }
      FoundAreListed(required, r.value.inventory);
    }

    /** The whole end of a run. `proceed` is whether the rechecks of candidate, source and waivers passed, and
        `required` are the binding receipts the settled inventory must hold. The ghost results are the payload the
        manifest lists, and what the checksums cover. */
    method Finalise(proceed: bool, required: seq<string>)
      returns (r: Option<seq<FileReceipt>>, ghost payload: seq<FileReceipt>, ghost covered: seq<FileReceipt>)
      modifies this
      ensures r.Some? ==> proceed && IsCommitted(w, covered, r.value) && AllIntended(intended, r.value)
      ensures r.Some? ==> IsPayload(w, payload) && AreListed(required, Without(COMPLETION, r.value))
      ensures r.Some? ==> HasAuthored(w, payload, covered, r.value, intended)
      ensures r.Some? ==> Keeps(old(intended), intended)
      ensures r.Some? ==> trace == FinalSteps(w, old(trace), payload, covered, r.value)
      ensures CanSettle(w, old(disk)) && IsIntact(w, old(intended), old(disk)) && proceed && HasRequired(old(disk), required) ==>
                r.Some? && IsListingOf(w, old(disk), payload)
                && disk == FinalDisk(w, old(disk), payload, covered, r.value) && IsListingOf(w, disk, r.value)
    {
      covered := [];
      var settled;
      settled, payload := SettleWith(proceed, required);
      if settled == None {
        return None, payload, covered;
      }
      covered := settled.value.covered;
      var inventory, address := settled.value.inventory, settled.value.address;
      if CanSettle(w, old(disk)) && IsIntact(w, old(intended), old(disk)) {
        SettledIsIntact(w, old(intended), old(disk), ManifestText(w, payload), ChecksumText(covered));
      }
      r := CommitReceipt(inventory, address);
      if r.Some? {
        SettledIsCommitted(w, covered, inventory, r.value);
        CommittedIsAuthored(w, old(intended), payload, settled.value, r.value);
      }
    }
  }

  lemma OnlyOne(files: seq<FileReceipt>, path: string, want: Intended)
    requires DistinctKeys(PathOf, files)
    requires exists f :: f in files && f.path == path && f.bytes == want.bytes && f.sha256 == want.sha256
    ensures Find(files, path).Some? && Find(files, path).value.bytes == want.bytes && Find(files, path).value.sha256 == want.sha256
  {
    var f :| f in files && f.path == path && f.bytes == want.bytes && f.sha256 == want.sha256;
    var g := Find(files, path).value;
    SamePathSame(files, f, g);
  }

  lemma SamePathSame(files: seq<FileReceipt>, f: FileReceipt, g: FileReceipt)
    requires DistinctKeys(PathOf, files) && f in files && g in files && f.path == g.path
    ensures f == g
  {
    var i :| 0 <= i < |files| && files[i] == f;
    var j :| 0 <= j < |files| && files[j] == g;
    SamePathSameIndex(files, i, j);
  }

  lemma SamePathSameIndex(files: seq<FileReceipt>, i: nat, j: nat)
    requires DistinctKeys(PathOf, files) && i < |files| && j < |files| && PathOf(files[i]) == PathOf(files[j])
    ensures i == j
  {
  }

  // ---------------------------------------------------------------- what a committed inventory says

  /** The checksum file covers every file of the last inventory except itself and the completion receipt. */
  lemma ChecksumsCoverAll(w: World, covered: seq<FileReceipt>, last: seq<FileReceipt>, f: FileReceipt)
    requires IsCommitted(w, covered, last)
    ensures f in covered <==> f in last && f.path != CHECKSUMS && f.path != COMPLETION
  {
  }

  // ---------------------------------------------------------------- reading the checksums

  function LineEnd(text: string): (n: nat)
    ensures n <= |text|
  {
    if text == "" || text[0] == '\n' then 0 else 1 + LineEnd(text[1..])
  }

  /** Reads `<hash><two spaces><path>` lines. */
  function ReadChecksums(text: string): Option<seq<(string, string)>> {
    if text == "" then Some([])
    else
      var end := LineEnd(text);
      if end == |text| || end < 66 || text[64..66] != "  " then None
      else
        var rest := ReadChecksums(text[end + 1..]);
        if rest.None? then None else Some([(text[..64], text[66..end])] + rest.value)
  }

  function Pairs(files: seq<FileReceipt>): (r: seq<(string, string)>)
    ensures |r| == |files| && forall i :: 0 <= i < |r| ==> r[i] == (files[i].sha256, files[i].path)
  {
    if files == [] then [] else [(files[0].sha256, files[0].path)] + Pairs(files[1..])
  }

  lemma {:induction false} LineEnds(line: string, rest: string)
    requires '\n' !in line
    ensures LineEnd(line + "\n" + rest) == |line|
  {
    var text := line + "\n" + rest;
    if line != "" {
      assert text[1..] == line[1..] + "\n" + rest;
      LineEnds(line[1..], rest);
    }
  }

  ghost predicate IsLine(f: FileReceipt) {
    |f.sha256| == 64 && '\n' !in f.sha256 && '\n' !in f.path
  }

  lemma ReadsLine(f: FileReceipt, rest: string)
    requires IsLine(f)
    ensures ReadChecksums(ChecksumLine(f) + "\n" + rest) ==
            if ReadChecksums(rest).None? then None else Some([(f.sha256, f.path)] + ReadChecksums(rest).value)
  {
    var line := ChecksumLine(f);
    var text := line + "\n" + rest;
    LineEnds(line, rest);
    assert text[|line| + 1..] == rest;
    assert text[..64] == f.sha256 && text[64..66] == "  " && text[66..|line|] == f.path;
  }

  /** The checksum file reads back as the hash and path of every covered file, in order. */
  lemma {:induction false} ChecksumsRead(files: seq<FileReceipt>)
    requires files != [] && forall f :: f in files ==> IsLine(f)
    ensures ReadChecksums(ChecksumText(files)) == Some(Pairs(files))
  {
    if |files| == 1 {
      ReadsLine(files[0], "");
      assert ChecksumText(files) == ChecksumLine(files[0]) + "\n" + "";
    } else {
      var rest := files[1..];
      ChecksumsRead(rest);
      ReadsLine(files[0], ChecksumText(rest));
      assert ChecksumText(files) == ChecksumLine(files[0]) + "\n" + ChecksumText(rest);
    }
  }

  ghost predicate IsInjective(hash: seq<byte> -> string) {
    forall a, b :: hash(a) == hash(b) ==> a == b
  }

  /** With a hash that separates texts, a checksum file whose receipt is in the last inventory is the one text that
      lists every other file with its exact hash. */
  lemma ChecksumFileIsExact(w: World, covered: seq<FileReceipt>, last: seq<FileReceipt>, text: string)
    requires IsCommitted(w, covered, last) && IsInjective(w.hash)
    requires Receipt(w, CHECKSUMS, text) in last
    requires covered != [] && forall f :: f in covered ==> IsLine(f)
    ensures text == ChecksumText(covered) && ReadChecksums(text) == Some(Pairs(covered))
  {
    SamePathSame(last, Receipt(w, CHECKSUMS, text), Receipt(w, CHECKSUMS, ChecksumText(covered)));
    EncodeInjective(text, ChecksumText(covered));
    ChecksumsRead(covered);
  }
}
