/** The tar stream of `scripts/release-archive.ts`: header, contents and padding per entry, two zero blocks
    at the end, written over short reads and writes, against a reader of the format. */
module Archive {
  import opened Wrappers
  import opened Bits
  import opened Files
  import opened Ustar
  import Utf8

  const READ_BUFFER := 64 * 1024

  /** One file as it goes into the archive. */
  datatype Item = Item(path: string, executable: bool, contents: seq<byte>)

  /** One file as a reader of the format gets it back. */
  datatype Record = Record(path: seq<byte>, mode: nat, mtime: nat, contents: seq<byte>)

  function Padding(size: nat): (r: nat)
    ensures r < BLOCK_BYTES
  {
    (BLOCK_BYTES - size % BLOCK_BYTES) % BLOCK_BYTES
  }

  lemma PaddingCompletes(size: nat)
    ensures (size + Padding(size)) % BLOCK_BYTES == 0
  {
    var blocks, over := size / BLOCK_BYTES, size % BLOCK_BYTES;
    assert size == BLOCK_BYTES * blocks + over;
    if over == 0 {
      assert size + Padding(size) == BLOCK_BYTES * blocks;
    } else {
      assert size + Padding(size) == BLOCK_BYTES * (blocks + 1);
    }
  }

  // ---------------------------------------------------------------- what is written

  /** A header block and the contents it announces. */
  datatype Framed = Framed(header: seq<byte>, contents: seq<byte>)

  ghost function Member(m: Framed): (r: seq<byte>) {
    m.header + (m.contents + ZeroBytes(Padding(|m.contents|)))
  }

  ghost function Members(ms: seq<Framed>): (r: seq<byte>) {
    if ms == [] then [] else Member(ms[0]) + Members(ms[1..])
  }

  /** The whole archive. */
  ghost function Stream(ms: seq<Framed>): (r: seq<byte>) {
    Members(ms) + ZeroBytes(2 * BLOCK_BYTES)
  }

  /** The block is the header of this item. */
  ghost predicate Frames(m: Framed, item: Item, epoch: nat) {
    m.contents == item.contents && Some(m.header) == Header(item.path, item.executable, |item.contents|, epoch)
  }

  ghost predicate FramesAll(ms: seq<Framed>, items: seq<Item>, epoch: nat) {
    |ms| == |items| && forall i :: 0 <= i < |ms| ==> Frames(ms[i], items[i], epoch)
  }

  // ---------------------------------------------------------------- a reader of the format

  /** Entries until the two zero blocks, which must be the last thing in the stream. */
  function Unarchive(s: seq<byte>): (r: Option<seq<Record>>)
    decreases |s|
  {
    if |s| < BLOCK_BYTES then None else
    var block, rest := s[..BLOCK_BYTES], s[BLOCK_BYTES..];
    if block == ZeroBytes(BLOCK_BYTES) then (if rest == ZeroBytes(BLOCK_BYTES) then Some([]) else None) else
    match ReadHeader(block)
    case None => None
    case Some(fields) =>
      var stored := fields.size + Padding(fields.size);
      if |rest| < stored then None else
      match Unarchive(rest[stored..])
      case None => None
      case Some(records) => Some([Record(fields.path, fields.mode, fields.mtime, rest[..fields.size])] + records)
  }

  /** Mode 0755 for an executable, and 0644 for any other file. */
  ghost function AsRecord(item: Item, epoch: nat): Record {
    Record(Utf8.Encode(item.path), if item.executable then 493 else 420, epoch, item.contents)
  }

  ghost function AsRecords(items: seq<Item>, epoch: nat): (r: seq<Record>)
    ensures |r| == |items|
    ensures forall i :: 0 <= i < |items| ==> r[i] == AsRecord(items[i], epoch)
  {
    seq(|items|, i requires 0 <= i < |items| => AsRecord(items[i], epoch))
  }

  // ---------------------------------------------------------------- round trip

  /** The block reads back to the fields of the item, and is never taken for an end block. */
  ghost predicate Reads(m: Framed, item: Item, epoch: nat) {
    && m.contents == item.contents
    && |m.header| == BLOCK_BYTES && m.header != ZeroBytes(BLOCK_BYTES)
    && ReadHeader(m.header) == Some(FileFields(Utf8.Encode(item.path), item.executable, |item.contents|, epoch))
  }

  lemma FramesReads(m: Framed, item: Item, epoch: nat)
    requires Archivable(item.path) && Frames(m, item, epoch)
    ensures Reads(m, item, epoch)
  {
    HeaderReads(item.path, item.executable, |item.contents|, epoch);
    NotAnEndBlock(m.header);
  }

  lemma NotAnEndBlock(block: seq<byte>)
    requires |block| == BLOCK_BYTES && ReadHeader(block).Some?
    ensures block != ZeroBytes(BLOCK_BYTES)
  {
    assert block[156..][101..107][0] == 117;
    assert block[257] == 117;
  }

  lemma MemberReads(m: Framed, item: Item, epoch: nat, rest: seq<byte>)
    requires Reads(m, item, epoch)
    ensures Unarchive(Member(m) + rest)
         == match Unarchive(rest)
            case None => None
            case Some(records) => Some([AsRecord(item, epoch)] + records)
  {
    var size := |item.contents|;
    var pad := ZeroBytes(Padding(size));
    var tail := item.contents + (pad + rest);
    var s := Member(m) + rest;
    assert s == m.header + tail;
    Halves(m.header, tail);
    Halves(item.contents, pad + rest);
    assert tail[size + Padding(size)..] == rest;
  }

  ghost predicate AllArchivable(items: seq<Item>) {
    forall i :: 0 <= i < |items| ==> Archivable(items[i].path)
  }

  ghost predicate ReadsAll(ms: seq<Framed>, items: seq<Item>, epoch: nat) {
    |ms| == |items| && forall i :: 0 <= i < |ms| ==> Reads(ms[i], items[i], epoch)
  }

  lemma EndReads()
    ensures Unarchive(ZeroBytes(2 * BLOCK_BYTES)) == Some([])
  {
    var end := ZeroBytes(2 * BLOCK_BYTES);
    assert end[..BLOCK_BYTES] == ZeroBytes(BLOCK_BYTES) && end[BLOCK_BYTES..] == ZeroBytes(BLOCK_BYTES);
  }

  lemma StreamFront(ms: seq<Framed>)
    requires ms != []
    ensures Stream(ms) == Member(ms[0]) + Stream(ms[1..])
  {
  }

  lemma RecordsFront(items: seq<Item>, epoch: nat)
    requires items != []
    ensures AsRecords(items, epoch) == [AsRecord(items[0], epoch)] + AsRecords(items[1..], epoch)
  {
  }

  lemma {:induction false} BlocksUnarchive(ms: seq<Framed>, items: seq<Item>, epoch: nat)
    requires ReadsAll(ms, items, epoch)
    ensures Unarchive(Stream(ms)) == Some(AsRecords(items, epoch))
    decreases |ms|
  {
    if ms == [] {
      EndReads();
      assert Stream(ms) == ZeroBytes(2 * BLOCK_BYTES);
    } else {
      var rest, others := ms[1..], items[1..];
      BlocksUnarchive(rest, others, epoch);
      MemberReads(ms[0], items[0], epoch, Stream(rest));
      StreamFront(ms);
      RecordsFront(items, epoch);
    }
  }

  /** The reader gives back every entry in order and stops exactly at the end of the stream. */
  lemma StreamUnarchives(ms: seq<Framed>, items: seq<Item>, epoch: nat)
    requires FramesAll(ms, items, epoch) && AllArchivable(items)
    ensures Unarchive(Stream(ms)) == Some(AsRecords(items, epoch))
  {
    forall i | 0 <= i < |ms|
      ensures Reads(ms[i], items[i], epoch)
    {
      FramesReads(ms[i], items[i], epoch);
    }
    BlocksUnarchive(ms, items, epoch);
  }

  /** The archive is a whole number of blocks. */
  lemma {:induction false} StreamIsWholeBlocks(ms: seq<Framed>)
    requires forall i :: 0 <= i < |ms| ==> |ms[i].header| == BLOCK_BYTES
    ensures |Stream(ms)| % BLOCK_BYTES == 0
  {
    if ms == [] {
    } else {
      StreamIsWholeBlocks(ms[1..]);
      PaddingCompletes(|ms[0].contents|);
      assert |Stream(ms)| == |Member(ms[0])| + |Stream(ms[1..])|;
    }
  }

  /** Different entry lists give different archives. */
  lemma StreamInjective(ma: seq<Framed>, a: seq<Item>, mb: seq<Framed>, b: seq<Item>, epoch: nat)
    requires FramesAll(ma, a, epoch) && AllArchivable(a) && FramesAll(mb, b, epoch) && AllArchivable(b)
    requires Stream(ma) == Stream(mb)
    ensures a == b
  {
    StreamUnarchives(ma, a, epoch);
    StreamUnarchives(mb, b, epoch);
    SameRecords(a, b, epoch);
  }

  lemma SameRecords(a: seq<Item>, b: seq<Item>, epoch: nat)
    requires AsRecords(a, epoch) == AsRecords(b, epoch)
    ensures a == b
  {
    var ra, rb := AsRecords(a, epoch), AsRecords(b, epoch);
    assert |a| == |ra| == |rb| == |b|;
    forall i | 0 <= i < |a|
      ensures a[i] == b[i]
    {
      assert ra[i] == rb[i];
      Utf8.EncodeInjective(a[i].path, b[i].path);
    }
  }

  lemma {:induction false} MembersSnoc(ms: seq<Framed>, m: Framed)
    ensures Members(ms + [m]) == Members(ms) + Member(m)
  {
    if ms == [] {
      assert ms + [m] == [m];
      assert Members([m]) == Member(m) + Members([m][1..]);
    } else {
      assert (ms + [m])[1..] == ms[1..] + [m];
      MembersSnoc(ms[1..], m);
    }
  }

  // ---------------------------------------------------------------- the writer

  /** An entry as collected: the size is the one seen before the file is opened. */
  datatype Entry = Entry(path: string, executable: bool, size: nat)

  datatype Failure = HeaderDoesNotFit | EndedEarly | Grew | DiffersFromReceipt | NoProgress

  datatype Outcome<+T> = Written(value: T) | Failed(failure: Failure)

  /** Copies one file's contents, checking its length and, when one is given, its digest. */
  method WriteEntryContents(output: OutputHandle, input: InputHandle, size: nat, outputPosition: nat,
                            sha256: seq<byte> -> string, expected: Option<string>)
      returns (r: Outcome<nat>)
    requires |output.contents| == outputPosition
    modifies output
    ensures r.Written? ==>
              && |input.contents| == size
              && output.contents == old(output.contents) + input.contents && r.value == |output.contents|
              && (expected.Some? ==> sha256(input.contents) == expected.value)
    ensures r == Failed(EndedEarly) ==> |input.contents| < size
    ensures r == Failed(Grew) ==> |input.contents| > size
    ensures r == Failed(DiffersFromReceipt) ==>
              |input.contents| == size && expected.Some? && sha256(input.contents) != expected.value
    ensures r == Failed(NoProgress) ==> output.stalls
    ensures r.Failed? ==> r.failure != HeaderDoesNotFit
  {
    var inputPosition := 0;
    var position := outputPosition;
    var hashed := [];
    while inputPosition < size
      invariant inputPosition <= size && inputPosition <= |input.contents|
      invariant position == |output.contents|
      invariant output.contents == old(output.contents) + input.contents[..inputPosition]
      invariant hashed == input.contents[..inputPosition]
      decreases size - inputPosition
    {
      var maximum := if READ_BUFFER < size - inputPosition then READ_BUFFER else size - inputPosition;
      var chunk := input.Read(maximum, inputPosition);
      if |chunk| <= 0 {
        return Failed(EndedEarly);
      }
      hashed := hashed + chunk;
      var next := WriteAll(output, chunk, position);
      if next.Err? {
        return Failed(NoProgress);
      }
      position := next.value;
      assert input.contents[..inputPosition] + chunk == input.contents[..inputPosition + |chunk|];
      inputPosition := inputPosition + |chunk|;
    }
    var extra := input.Read(1, size);
    if |extra| != 0 {
      return Failed(Grew);
    }
    assert input.contents[..size] == input.contents;
    if expected.Some? && sha256(hashed) != expected.value {
      return Failed(DiffersFromReceipt);
    }
    r := Written(position);
  }

  ghost function ItemOf(entry: Entry, input: InputHandle): Item {
    Item(entry.path, entry.executable, input.contents)
  }

  ghost function ItemsOf(entries: seq<Entry>, inputs: seq<InputHandle>): (r: seq<Item>)
    requires |entries| == |inputs|
    ensures |r| == |entries|
    ensures forall i :: 0 <= i < |entries| ==> r[i] == ItemOf(entries[i], inputs[i])
  {
    seq(|entries|, i requires 0 <= i < |entries| => ItemOf(entries[i], inputs[i]))
  }

  function Expected(receipts: map<string, string>, path: string): Option<string> {
    if path in receipts then Some(receipts[path]) else None
  }

  /** Why copying a file stopped: it no longer has its size, not the expected digest, or the output stalled. */
  ghost predicate Interrupts(failure: Failure, size: nat, input: InputHandle, sha256: seq<byte> -> string,
                             expected: Option<string>, stalls: bool)
  {
    match failure
    case HeaderDoesNotFit => false
    case EndedEarly => |input.contents| < size
    case Grew => |input.contents| > size
    case DiffersFromReceipt => |input.contents| == size && expected.Some? && sha256(input.contents) != expected.value
    case NoProgress => stalls
  }

  /** Why an entry was not written. */
  ghost predicate Explains(failure: Failure, entry: Entry, input: InputHandle, epoch: nat, sha256: seq<byte> -> string,
                           expected: Option<string>, stalls: bool)
  {
    if failure == HeaderDoesNotFit then Header(entry.path, entry.executable, entry.size, epoch).None?
    else Interrupts(failure, entry.size, input, sha256, expected, stalls)
  }

  /** Header, contents and padding of one entry. */
  method WriteMember(output: OutputHandle, entry: Entry, input: InputHandle, epoch: nat, position: nat,
                     sha256: seq<byte> -> string, expected: Option<string>)
      returns (r: Outcome<nat>, ghost m: Framed)
    requires |output.contents| == position
    modifies output
    ensures r.Written? ==>
              && |input.contents| == entry.size && Frames(m, ItemOf(entry, input), epoch)
              && output.contents == old(output.contents) + Member(m)
              && r.value == |output.contents|
              && (expected.Some? ==> sha256(input.contents) == expected.value)
    ensures r.Failed? ==> Explains(r.failure, entry, input, epoch, sha256, expected, output.stalls)
  {
    m := Framed([], []);
    var ok, header := TarHeader(entry.path, entry.executable, entry.size, epoch);
    if !ok {
      r := Failed(HeaderDoesNotFit);
      return;
    }
    m := Framed(header[..], input.contents);
    r := WriteFramed(output, header[..], input, entry.size, position, sha256, expected);
  }

  /** A header block, the contents it announces, and the padding to the next block. */
  method WriteFramed(output: OutputHandle, header: seq<byte>, input: InputHandle, size: nat, position: nat,
                     sha256: seq<byte> -> string, expected: Option<string>)
      returns (r: Outcome<nat>)
    requires |output.contents| == position
    modifies output
    ensures r.Written? ==>
              && |input.contents| == size
              && output.contents == old(output.contents) + Member(Framed(header, input.contents))
              && r.value == |output.contents|
              && (expected.Some? ==> sha256(input.contents) == expected.value)
    ensures r.Failed? ==> Interrupts(r.failure, size, input, sha256, expected, output.stalls)
  {
    var next := WriteAll(output, header, position);
    if next.Err? {
      return Failed(NoProgress);
    }
    r := WriteEntryContents(output, input, size, next.value, sha256, expected);
    if r.Failed? {
      return;
    }
    var padding := (BLOCK_BYTES - size % BLOCK_BYTES) % BLOCK_BYTES;
    if padding > 0 {
      next := WriteAll(output, ZeroBytes(padding), r.value);
      if next.Err? {
        return Failed(NoProgress);
      }
      r := Written(next.value);
    }
    ghost var pad := ZeroBytes(Padding(size));
    assert old(output.contents) + header + input.contents + pad == old(output.contents) + (header + (input.contents + pad));
  }

  /** The first `k` files are framed in order, had the sizes seen before, and the digests expected of them. */
  ghost predicate Progress(entries: seq<Entry>, inputs: seq<InputHandle>, epoch: nat, sha256: seq<byte> -> string,
                           receipts: map<string, string>, ms: seq<Framed>, k: nat)
    requires k <= |entries| == |inputs|
  {
    && FramesAll(ms, ItemsOf(entries, inputs)[..k], epoch)
    && forall i :: 0 <= i < k ==>
         && |inputs[i].contents| == entries[i].size
         && (entries[i].path in receipts ==> sha256(inputs[i].contents) == receipts[entries[i].path])
  }

  lemma ProgressNext(entries: seq<Entry>, inputs: seq<InputHandle>, epoch: nat, sha256: seq<byte> -> string,
                     receipts: map<string, string>, ms: seq<Framed>, k: nat, m: Framed)
    requires k < |entries| == |inputs| && Progress(entries, inputs, epoch, sha256, receipts, ms, k)
    requires Frames(m, ItemOf(entries[k], inputs[k]), epoch)
    requires |inputs[k].contents| == entries[k].size
    requires Expected(receipts, entries[k].path).Some? ==>
               sha256(inputs[k].contents) == Expected(receipts, entries[k].path).value
    ensures Progress(entries, inputs, epoch, sha256, receipts, ms + [m], k + 1)
  {
    var items := ItemsOf(entries, inputs);
    assert items[..k + 1] == items[..k] + [items[k]];
  }

  lemma ProgressStart(entries: seq<Entry>, inputs: seq<InputHandle>, epoch: nat, sha256: seq<byte> -> string,
                      receipts: map<string, string>)
    requires |entries| == |inputs|
    ensures Progress(entries, inputs, epoch, sha256, receipts, [], 0)
  {
  }

  /** The write loop: what it leaves behind is the stream of the files it read, and nothing else. */
  method WriteArchive(output: OutputHandle, entries: seq<Entry>, inputs: seq<InputHandle>, epoch: nat,
                      sha256: seq<byte> -> string, receipts: map<string, string>)
      returns (r: Outcome<nat>, ghost ms: seq<Framed>)
    requires |entries| == |inputs| && output.contents == []
    modifies output
    ensures r.Written? ==>
              && output.contents == Stream(ms)
              && Progress(entries, inputs, epoch, sha256, receipts, ms, |entries|)
    ensures r.Failed? ==>
              || (r.failure == NoProgress && output.stalls)
              || exists k :: 0 <= k < |entries|
                   && Explains(r.failure, entries[k], inputs[k], epoch, sha256, Expected(receipts, entries[k].path), output.stalls)
  {
    var position := 0;
    ms := [];
    ProgressStart(entries, inputs, epoch, sha256, receipts);
    for k := 0 to |entries|
      invariant position == |output.contents|
      invariant output.contents == Members(ms)
      invariant Progress(entries, inputs, epoch, sha256, receipts, ms, k)
    {
      ghost var m;
      r, m := WriteMember(output, entries[k], inputs[k], epoch, position, sha256, Expected(receipts, entries[k].path));
      if r.Failed? {
        return;
      }
      position := r.value;
      ProgressNext(entries, inputs, epoch, sha256, receipts, ms, k, m);
      MembersSnoc(ms, m);
      ms := ms + [m];
    }
    var next := WriteAll(output, ZeroBytes(2 * BLOCK_BYTES), position);
    if next.Err? {
      r := Failed(NoProgress);
      return;
    }
    output.Truncate(next.value);
    r := Written(next.value);
  }

  /** A finished run unpacks to exactly the files it read, under their paths, modes and the given time. */
  lemma FinishedUnarchives(entries: seq<Entry>, inputs: seq<InputHandle>, epoch: nat, sha256: seq<byte> -> string,
                           receipts: map<string, string>, ms: seq<Framed>)
    requires |entries| == |inputs| && Progress(entries, inputs, epoch, sha256, receipts, ms, |entries|)
    requires forall i :: 0 <= i < |entries| ==> Archivable(entries[i].path)
    ensures Unarchive(Stream(ms)) == Some(AsRecords(ItemsOf(entries, inputs), epoch))
    ensures |Stream(ms)| % BLOCK_BYTES == 0
  {
    var items := ItemsOf(entries, inputs);
    assert items[..|entries|] == items;
    StreamUnarchives(ms, items, epoch);
    StreamIsWholeBlocks(ms);
  }
}
