/** The gzip writer of `scripts/release-gzip.ts`: one member of DEFLATE stored blocks, written over short
    reads and short writes, against a reader for the format. */
module Gzip {
  import opened Wrappers
  import opened Bits
  import opened Files
  import Crc32

  const MAX_STORED_BLOCK := 65535
  const MAX_INPUT_BYTES := 4 * 1024 * 1024 * 1024

  /** ID1, ID2, CM = deflate, no flags, MTIME = 0, XFL = 0, OS = unknown. */
  const HEADER: seq<byte> := [0x1f, 0x8b, 0x08, 0x00, 0x00, 0x00, 0x00, 0x00, 0x00, 0xff]

  // ---------------------------------------------------------------- little-endian fields

  function LittleEndian(n: nat, width: nat): (r: seq<byte>)
    ensures |r| == width
  {
    if width == 0 then [] else [n % 256] + LittleEndian(n / 256, width - 1)
  }

  function FromLittleEndian(s: seq<byte>): nat {
    if s == [] then 0 else s[0] + 256 * FromLittleEndian(s[1..])
  }

  lemma {:induction false} LittleEndianReads(n: nat, width: nat)
    requires n < Pow2(8 * width)
    ensures FromLittleEndian(LittleEndian(n, width)) == n
  {
    if width == 0 {
    } else {
      Pow2Sum(8, 8 * (width - 1));
      Pow2Values();
      LittleEndianReads(n / 256, width - 1);
    }
  }

  // ---------------------------------------------------------------- what is written

  function StoredBlock(final: bool, chunk: seq<byte>): (r: seq<byte>)
    requires |chunk| <= MAX_STORED_BLOCK
    ensures |r| == 5 + |chunk|
  {
    [if final then 1 else 0] + LittleEndian(|chunk|, 2) + LittleEndian(MAX_STORED_BLOCK - |chunk|, 2) + chunk
  }

  /** Chunks as read: none empty, none larger than the read buffer. */
  ghost predicate AreChunks(chunks: seq<seq<byte>>) {
    forall i :: 0 <= i < |chunks| ==> 1 <= |chunks[i]| <= MAX_STORED_BLOCK
  }

  ghost function Flatten(chunks: seq<seq<byte>>): seq<byte> {
    if chunks == [] then [] else Flatten(chunks[..|chunks| - 1]) + chunks[|chunks| - 1]
  }

  /** One block a chunk; only the last is marked final, and only once the input is exhausted. */
  ghost function Blocks(chunks: seq<seq<byte>>, complete: bool): seq<byte>
    requires AreChunks(chunks)
  {
    if chunks == [] then []
    else Blocks(chunks[..|chunks| - 1], false) + StoredBlock(complete, chunks[|chunks| - 1])
  }

  ghost function Trailer(poly: seq<bool>, data: seq<byte>): (r: seq<byte>)
    requires |poly| == 32
    ensures |r| == 8
  {
    LittleEndian(Value(Crc32.Crc(poly, data)), 4) + LittleEndian(|data| % 0x1_0000_0000, 4)
  }

  ghost function Stream(poly: seq<bool>, chunks: seq<seq<byte>>): seq<byte>
    requires |poly| == 32 && AreChunks(chunks)
  {
    HEADER + Blocks(chunks, true) + Trailer(poly, Flatten(chunks))
  }

  // ---------------------------------------------------------------- a reader of the format

  /** Stored blocks up to and including the first final one (section 3.2.4 of RFC 1951), and what follows. */
  function ReadBlocks(s: seq<byte>): (r: Option<(seq<seq<byte>>, seq<byte>)>)
    decreases |s|
  {
    if |s| < 5 then None else
    var final, kind := s[0] % 2 == 1, s[0] / 2 % 4;
    var len, nlen := FromLittleEndian(s[1..3]), FromLittleEndian(s[3..5]);
    if kind != 0 || len + nlen != 0xffff || |s| < 5 + len then None else
    var chunk, rest := s[5..5 + len], s[5 + len..];
    if final then Some(([chunk], rest)) else
    match ReadBlocks(rest)
    case None => None
    case Some((chunks, after)) => Some(([chunk] + chunks, after))
  }

  function Join(chunks: seq<seq<byte>>): seq<byte> {
    if chunks == [] then [] else chunks[0] + Join(chunks[1..])
  }

  /** One gzip member without optional header fields, and nothing after it (section 2.3 of RFC 1952). */
  function Gunzip(poly: seq<bool>, s: seq<byte>): (r: Option<seq<byte>>)
    requires |poly| == 32
  {
    if |s| < 10 || s[..4] != [0x1f, 0x8b, 0x08, 0x00] then None else
    match ReadBlocks(s[10..])
    case None => None
    case Some((chunks, after)) =>
      var data := Join(chunks);
      if |after| == 8
         && FromLittleEndian(after[..4]) == Value(Crc32.Crc(poly, data))
         && FromLittleEndian(after[4..]) == |data| % 0x1_0000_0000
      then Some(data) else None
  }

  // ---------------------------------------------------------------- round trip

  lemma {:induction false} FlattenIsJoin(chunks: seq<seq<byte>>)
    ensures Flatten(chunks) == Join(chunks)
  {
    if chunks == [] {
    } else {
      var front, last := chunks[..|chunks| - 1], chunks[|chunks| - 1];
      FlattenIsJoin(front);
      assert chunks == front + [last];
      JoinSnoc(front, last);
    }
  }

  lemma {:induction false} JoinSnoc(chunks: seq<seq<byte>>, last: seq<byte>)
    ensures Join(chunks + [last]) == Join(chunks) + last
  {
    if chunks == [] {
      assert Join([last]) == last + Join([]);
    } else {
      assert (chunks + [last])[1..] == chunks[1..] + [last];
      JoinSnoc(chunks[1..], last);
      assert chunks[0] + (Join(chunks[1..]) + last) == (chunks[0] + Join(chunks[1..])) + last;
    }
  }

  /** The block list seen from its front, as a reader meets it. */
  lemma {:induction false} BlocksFront(chunks: seq<seq<byte>>, complete: bool)
    requires AreChunks(chunks) && |chunks| >= 2
    ensures Blocks(chunks, complete) == StoredBlock(false, chunks[0]) + Blocks(chunks[1..], complete)
    decreases |chunks|
  {
    var n := |chunks|;
    var front, rest, last := chunks[..n - 1], chunks[1..], StoredBlock(complete, chunks[n - 1]);
    assert rest[n - 2] == chunks[n - 1];
    assert rest[..n - 2] == front[1..];
    assert Blocks(rest, complete) == Blocks(front[1..], false) + last;
    if n == 2 {
      assert front[..0] == [] && front[1..] == [];
      assert Blocks(front, false) == [] + StoredBlock(false, chunks[0]);
    } else {
      BlocksFront(front, false);
    }
    var first := StoredBlock(false, chunks[0]);
    assert Blocks(front, false) == first + Blocks(front[1..], false);
    assert (first + Blocks(front[1..], false)) + last == first + (Blocks(front[1..], false) + last);
  }

  /** One stored block reads back, with complementary LEN and NLEN. */
  lemma BlockFields(final: bool, chunk: seq<byte>, rest: seq<byte>)
    requires |chunk| <= MAX_STORED_BLOCK
    ensures var s := StoredBlock(final, chunk) + rest;
            && (s[0] % 2 == 1 <==> final) && s[0] / 2 % 4 == 0
            && FromLittleEndian(s[1..3]) == |chunk|
            && FromLittleEndian(s[3..5]) == 0xffff - |chunk|
            && s[5..5 + |chunk|] == chunk && s[5 + |chunk|..] == rest
  {
    var s := StoredBlock(final, chunk) + rest;
    Pow2Values();
    LittleEndianReads(|chunk|, 2);
    LittleEndianReads(MAX_STORED_BLOCK - |chunk|, 2);
    assert s[1..3] == LittleEndian(|chunk|, 2);
    assert s[3..5] == LittleEndian(MAX_STORED_BLOCK - |chunk|, 2);
  }

  /** The reader over one block. */
  lemma ReadOne(final: bool, chunk: seq<byte>, rest: seq<byte>)
    requires |chunk| <= MAX_STORED_BLOCK
    ensures ReadBlocks(StoredBlock(final, chunk) + rest)
         == if final then Some(([chunk], rest)) else
            match ReadBlocks(rest)
            case None => None
            case Some((chunks, after)) => Some(([chunk] + chunks, after))
  {
    BlockFields(final, chunk, rest);
  }

  /** The reader finds the chunks exactly as they were cut and stops at the last block. */
  lemma {:induction false} BlocksRead(chunks: seq<seq<byte>>, rest: seq<byte>)
    requires AreChunks(chunks) && chunks != []
    ensures ReadBlocks(Blocks(chunks, true) + rest) == Some((chunks, rest))
    decreases |chunks|
  {
    if |chunks| == 1 {
      assert chunks == [chunks[0]];
      assert Blocks(chunks, true) == Blocks(chunks[..0], false) + StoredBlock(true, chunks[0]);
      assert Blocks(chunks, true) == StoredBlock(true, chunks[0]);
      ReadOne(true, chunks[0], rest);
    } else {
      BlocksFront(chunks, true);
      var after := Blocks(chunks[1..], true) + rest;
      assert Blocks(chunks, true) + rest == StoredBlock(false, chunks[0]) + after;
      BlocksRead(chunks[1..], rest);
      ReadOne(false, chunks[0], after);
      assert chunks == [chunks[0]] + chunks[1..];
    }
  }

  lemma TrailerReads(poly: seq<bool>, data: seq<byte>)
    requires |poly| == 32
    ensures FromLittleEndian(Trailer(poly, data)[..4]) == Value(Crc32.Crc(poly, data))
    ensures FromLittleEndian(Trailer(poly, data)[4..]) == |data| % 0x1_0000_0000
  {
    ValueBound(Crc32.Crc(poly, data));
    Pow2Values();
    Pow2Sum(16, 16);
    var crc, size := Value(Crc32.Crc(poly, data)), |data| % 0x1_0000_0000;
    LittleEndianReads(crc, 4);
    LittleEndianReads(size, 4);
    assert Trailer(poly, data)[..4] == LittleEndian(crc, 4);
    assert Trailer(poly, data)[4..] == LittleEndian(size, 4);
  }

  /** The ten header bytes of section 2.3 of RFC 1952: identification, deflate, no flags, no modification time, no
      extra flags, and an unknown operating system. Nothing in them depends on the host or the clock. */
  ghost predicate HasFixedHeader(s: seq<byte>) {
    && |s| >= 10
    && s[0] == 31 && s[1] == 139 && s[2] == 8 && s[3] == 0
    && s[4] == 0 && s[5] == 0 && s[6] == 0 && s[7] == 0
    && s[8] == 0 && s[9] == 255
  }

  lemma StreamHeader(poly: seq<bool>, chunks: seq<seq<byte>>)
    requires |poly| == 32 && AreChunks(chunks)
    ensures HasFixedHeader(Stream(poly, chunks))
  {
    var s := Stream(poly, chunks);
    assert s[..10] == HEADER;
    assert s[0] == s[..10][0] && s[1] == s[..10][1] && s[2] == s[..10][2] && s[3] == s[..10][3] && s[4] == s[..10][4];
    assert s[5] == s[..10][5] && s[6] == s[..10][6] && s[7] == s[..10][7] && s[8] == s[..10][8] && s[9] == s[..10][9];
  }

  lemma AfterHeader(blocks: seq<byte>, trailer: seq<byte>)
    ensures (HEADER + blocks + trailer)[10..] == blocks + trailer
    ensures (HEADER + blocks + trailer)[..4] == [0x1f, 0x8b, 0x08, 0x00]
  {
    var s := HEADER + blocks + trailer;
    assert s == HEADER + (blocks + trailer);
    assert s[..4] == HEADER[..4];
  }

  /** However the input was cut by short reads, the stream unpacks to it. */
  lemma StreamUnpacks(poly: seq<bool>, chunks: seq<seq<byte>>)
    requires |poly| == 32 && AreChunks(chunks) && chunks != []
    ensures Gunzip(poly, Stream(poly, chunks)) == Some(Flatten(chunks))
    ensures ReadBlocks(Stream(poly, chunks)[10..]) == Some((chunks, Trailer(poly, Flatten(chunks))))
  {
    var data := Flatten(chunks);
    AfterHeader(Blocks(chunks, true), Trailer(poly, data));
    BlocksRead(chunks, Trailer(poly, data));
    FlattenIsJoin(chunks);
    TrailerReads(poly, data);
  }

  /** The stream shows where the reads were cut: two runs produce the same bytes exactly when their reads
      returned the same chunks. The output is therefore not a function of the input alone... */
  lemma StreamsEqualExactlyWhenCutsEqual(poly: seq<bool>, a: seq<seq<byte>>, b: seq<seq<byte>>)
    requires |poly| == 32 && AreChunks(a) && AreChunks(b) && a != [] && b != []
    ensures Stream(poly, a) == Stream(poly, b) <==> a == b
  {
    StreamUnpacks(poly, a);
    StreamUnpacks(poly, b);
  }

  /** ...as two bytes read together or one at a time show... */
  lemma ShortReadsChangeTheStream(poly: seq<bool>)
    requires |poly| == 32
    ensures Flatten([[1, 2]]) == Flatten([[1], [2]])
    ensures Stream(poly, [[1, 2]]) != Stream(poly, [[1], [2]])
  {
    var a: seq<seq<byte>>, b: seq<seq<byte>> := [[1, 2]], [[1], [2]];
    FlattenIsJoin(a);
    FlattenIsJoin(b);
    assert Join(a) == [1, 2] + Join([]);
    assert b[1..] == [[2]];
    assert Join(b) == [1] + ([2] + Join([]));
    StreamsEqualExactlyWhenCutsEqual(poly, a, b);
  }

  /** Every read filled the buffer or reached the end. */
  ghost predicate FullReads(chunks: seq<seq<byte>>) {
    forall i :: 0 <= i < |chunks| - 1 ==> |chunks[i]| == MAX_STORED_BLOCK
  }

  /** ...but it is one whenever every read is full. */
  lemma {:induction false} FullReadsReproduce(a: seq<seq<byte>>, b: seq<seq<byte>>)
    requires AreChunks(a) && AreChunks(b) && FullReads(a) && FullReads(b)
    requires Join(a) == Join(b)
    ensures a == b
    decreases |a|
  {
    if a == [] || b == [] {
    } else {
      FirstCut(a);
      FirstCut(b);
      assert a[0] == Join(a)[..|a[0]|] == b[0];
      assert Join(a[1..]) == Join(a)[|a[0]|..] == Join(b[1..]);
      FullReadsReproduce(a[1..], b[1..]);
      assert a == [a[0]] + a[1..] && b == [b[0]] + b[1..];
    }
  }

  lemma FirstCut(a: seq<seq<byte>>)
    requires AreChunks(a) && FullReads(a) && a != []
    ensures |a[0]| == if |Join(a)| < MAX_STORED_BLOCK then |Join(a)| else MAX_STORED_BLOCK
  {
    if |a| == 1 {
      assert Join(a[1..]) == [];
    } else {
      assert |a[0]| == MAX_STORED_BLOCK;
    }
  }

  // ---------------------------------------------------------------- the writer

  datatype Outcome = Written | NotBounded | EndedEarly | Grew | NoProgress

  /** Writes the member. `size` is the size the opened source reported; the bytes it delivers are the
      handle's. `cuts` are the chunks its reads happened to return. */
  method CreateDeterministicGzip(input: InputHandle, size: nat, output: OutputHandle)
      returns (outcome: Outcome, ghost cuts: seq<seq<byte>>)
    requires output.contents == []
    modifies output
    ensures outcome == NotBounded <==> size == 0 || size > 4_294_967_296
    ensures outcome == EndedEarly ==> |input.contents| < size
    ensures outcome == Grew ==> |input.contents| > size
    ensures outcome == NoProgress ==> output.stalls
    ensures outcome == Written ==>
              && |input.contents| == size
              && AreChunks(cuts) && cuts != [] && Flatten(cuts) == input.contents
              && output.contents == Stream(Crc32.POLY, cuts)
              && Gunzip(Crc32.POLY, output.contents) == Some(input.contents)
              && HasFixedHeader(output.contents)
  {
    cuts := [];
    if size <= 0 || size > MAX_INPUT_BYTES {
      return NotBounded, cuts;
    }
    var wrote := WriteAll(output, HEADER, 0);
    if wrote.Err? {
      return NoProgress, cuts;
    }
    var table := Crc32.BuildTable(Crc32.POLY);
    var outputPosition, crc32;
    outcome, outputPosition, crc32, cuts := StoreInput(input, size, output, wrote.value, table, Crc32.POLY);
    if outcome != Written {
      return;
    }
    var extra := input.Read(1, size);
    if |extra| != 0 {
      return Grew, cuts;
    }
    ghost var data := input.contents;
    assert data[..size] == data;
    var trailer := LittleEndian(Value(Xor(crc32, Ones(32))), 4) + LittleEndian(size % 0x1_0000_0000, 4);
    wrote := WriteAll(output, trailer, outputPosition);
    if wrote.Err? {
      return NoProgress, cuts;
    }
    output.Truncate(wrote.value);
    assert trailer == Trailer(Crc32.POLY, data);
    StreamUnpacks(Crc32.POLY, cuts);
    StreamHeader(Crc32.POLY, cuts);
    outcome := Written;
  }

  /** The read loop: one stored block per read, and the running checksum of what was read. */
  method StoreInput(input: InputHandle, size: nat, output: OutputHandle, position: nat,
                    table: array<seq<bool>>, ghost poly: seq<bool>)
      returns (outcome: Outcome, outputPosition: nat, crc32: seq<bool>, ghost cuts: seq<seq<byte>>)
    requires 0 < size
    requires |poly| == 32 && Crc32.IsTable(poly, table[..])
    requires output.contents == HEADER && position == |HEADER|
    modifies output
    ensures outcome in {Written, EndedEarly, NoProgress}
    ensures outcome == EndedEarly ==> |input.contents| < size
    ensures outcome == NoProgress ==> output.stalls
    ensures outcome == Written ==>
              && outputPosition == |output.contents|
              && Stored(poly, input.contents, size, cuts, true, output.contents, crc32)
  {
    var inputPosition := 0;
    outputPosition, crc32, cuts := position, Ones(32), [];
    ghost var data, entries := input.contents, table[..];
    assert data[..0] == [];
    while inputPosition < size
      invariant inputPosition <= size
      invariant table[..] == entries
      invariant outputPosition == |output.contents|
      invariant Stored(poly, data, inputPosition, cuts, inputPosition == size, output.contents, crc32)
      decreases size - inputPosition
    {
      var maximum := if MAX_STORED_BLOCK < size - inputPosition then MAX_STORED_BLOCK else size - inputPosition;
      var chunk := input.Read(maximum, inputPosition);
      if |chunk| <= 0 {
        outcome := EndedEarly;
        return;
      }
      ghost var before := output.contents;
      inputPosition := inputPosition + |chunk|;
      var wrote := WriteBlock(output, inputPosition == size, chunk, outputPosition);
      if wrote.Err? {
        outcome := NoProgress;
        return;
      }
      outputPosition := wrote.value;
      Advance(poly, data, inputPosition - |chunk|, chunk, cuts, inputPosition == size, before, crc32);
      crc32 := Crc32.UpdateCrc32(table, poly, crc32, chunk);
      cuts := cuts + [chunk];
    }
    outcome := Written;
  }

  /** The loop's progress: the first `position` bytes are stored in blocks and taken into the checksum. */
  ghost predicate Stored(poly: seq<bool>, data: seq<byte>, position: nat, cuts: seq<seq<byte>>,
                         complete: bool, contents: seq<byte>, crc32: seq<bool>) {
    && |poly| == 32
    && position <= |data|
    && (position > 0 ==> cuts != [])
    && AreChunks(cuts) && Flatten(cuts) == data[..position]
    && contents == HEADER + Blocks(cuts, complete)
    && |crc32| == 32 && crc32 == Crc32.Feed(poly, Ones(32), OfBytes(data[..position]))
  }

  /** The block header and its data. */
  method WriteBlock(output: OutputHandle, final: bool, chunk: seq<byte>, position: nat) returns (next: Result<nat, string>)
    requires |output.contents| == position
    requires |chunk| <= MAX_STORED_BLOCK
    modifies output
    ensures next.Err? ==> output.stalls
    ensures next.Ok? ==> output.contents == old(output.contents) + StoredBlock(final, chunk)
                         && next.value == |output.contents|
  {
    var header := [if final then 1 else 0] + LittleEndian(|chunk|, 2) + LittleEndian(0xffff - |chunk|, 2);
    next := WriteAll(output, header, position);
    if next.Err? {
      return;
    }
    next := WriteAll(output, chunk, next.value);
    assert old(output.contents) + header + chunk == old(output.contents) + (header + chunk);
  }

  lemma Advance(poly: seq<bool>, data: seq<byte>, position: nat, chunk: seq<byte>, cuts: seq<seq<byte>>, complete: bool,
                contents: seq<byte>, crc32: seq<bool>)
    requires position + |chunk| <= |data| && chunk == data[position..position + |chunk|]
    requires 1 <= |chunk| <= MAX_STORED_BLOCK
    requires Stored(poly, data, position, cuts, false, contents, crc32)
    ensures Stored(poly, data, position + |chunk|, cuts + [chunk], complete,
                   contents + StoredBlock(complete, chunk), Crc32.Feed(poly, crc32, OfBytes(chunk)))
  {
    AppendBlock(cuts, chunk, complete, StoredBlock(complete, chunk));
    assert data[..position + |chunk|] == data[..position] + chunk;
    Crc32.FeedChunks(poly, Ones(32), data[..position], chunk);
  }

  lemma AppendBlock(cuts: seq<seq<byte>>, chunk: seq<byte>, complete: bool, block: seq<byte>)
    requires AreChunks(cuts) && 1 <= |chunk| <= MAX_STORED_BLOCK
    requires block == StoredBlock(complete, chunk)
    ensures AreChunks(cuts + [chunk])
    ensures Flatten(cuts + [chunk]) == Flatten(cuts) + chunk
    ensures (HEADER + Blocks(cuts, false)) + block == HEADER + Blocks(cuts + [chunk], complete)
  {
    var more := cuts + [chunk];
    assert more[..|more| - 1] == cuts && more[|more| - 1] == chunk;
    assert Blocks(more, complete) == Blocks(cuts, false) + block;
    Associate(HEADER, Blocks(cuts, false), block);
  }

  lemma Associate(a: seq<byte>, b: seq<byte>, c: seq<byte>)
    ensures (a + b) + c == a + (b + c)
  {
  }
}
