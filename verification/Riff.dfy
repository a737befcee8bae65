/** Reading the samples of a WAVE file by walking its chunks, and handing samples on in
    one-second pieces. The layout is that of chapter 2 of Multimedia Programming Interface and
    Data Specifications 1.0. */
module Riff {
  import opened Wrappers

  newtype byte = x: int | 0 <= x < 256
  newtype int16 = x: int | -32768 <= x < 32768

  type Bytes = seq<byte>

  const RIFF: Bytes := [82, 73, 70, 70]
  const WAVE: Bytes := [87, 65, 86, 69]
  const DATA: Bytes := [100, 97, 116, 97]

  datatype ReadError = NotRiff | Truncated(id: Bytes) | NoData | PartialSample

  // ----- Little-endian numbers -----

  function LittleEndian(b: Bytes): (n: nat)
    requires |b| == 4
    ensures n < 0x1_0000_0000
  {
    b[0] as int + 0x100 * b[1] as int + 0x1_0000 * b[2] as int + 0x100_0000 * b[3] as int
  }

  function Size32(n: nat): (b: Bytes)
    requires n < 0x1_0000_0000
    ensures |b| == 4
  {
    [(n % 0x100) as byte, (n / 0x100 % 0x100) as byte, (n / 0x1_0000 % 0x100) as byte, (n / 0x100_0000) as byte]
  }

  lemma SizeReadsBack(n: nat)
    requires n < 0x1_0000_0000
    ensures LittleEndian(Size32(n)) == n
  {
    var a := n / 0x100;
    var b := a / 0x100;
    assert n / 0x1_0000 == b && n / 0x100_0000 == b / 0x100;
  }

  lemma SizeIsUnique(b: Bytes)
    requires |b| == 4
    ensures Size32(LittleEndian(b)) == b
  {
    var n := LittleEndian(b);
    var upper := b[1] as int + 0x100 * b[2] as int + 0x1_0000 * b[3] as int;
    var top := b[2] as int + 0x100 * b[3] as int;
    assert n == b[0] as int + 0x100 * upper && upper == b[1] as int + 0x100 * top;
    assert n / 0x100 == upper && upper / 0x100 == top && top / 0x100 == b[3] as int;
    assert n / 0x1_0000 == top && n / 0x100_0000 == b[3] as int;
  }

  function Sample(low: byte, high: byte): int16 {
    var n := low as int + 0x100 * high as int;
    (if n < 0x8000 then n else n - 0x1_0000) as int16
  }

  function SampleBytes(s: int16): (b: Bytes)
    ensures |b| == 2 && Sample(b[0], b[1]) == s
  {
    var n := if s < 0 then s as int + 0x1_0000 else s as int;
    [(n % 0x100) as byte, (n / 0x100) as byte]
  }

  function Encoded(samples: seq<int16>): (b: Bytes)
    ensures |b| == 2 * |samples|
  {
    if samples == [] then [] else SampleBytes(samples[0]) + Encoded(samples[1..])
  }

  function Decoded(payload: Bytes): (samples: seq<int16>)
    requires |payload| % 2 == 0
    ensures |samples| == |payload| / 2
  {
    if payload == [] then [] else [Sample(payload[0], payload[1])] + Decoded(payload[2..])
  }

  lemma {:induction false} SamplesReadBack(samples: seq<int16>)
    ensures Decoded(Encoded(samples)) == samples
  {
    if samples != [] {
      SamplesReadBack(samples[1..]);
      assert Encoded(samples)[2..] == Encoded(samples[1..]);
    }
  }

  lemma {:induction false} PayloadIsUnique(payload: Bytes)
    requires |payload| % 2 == 0
    ensures Encoded(Decoded(payload)) == payload
  {
    if payload != [] {
      PayloadIsUnique(payload[2..]);
      assert Decoded(payload)[1..] == Decoded(payload[2..]);
      assert payload == [payload[0], payload[1]] + payload[2..];
    }
  }

  lemma {:induction false} EncodedConcat(a: seq<int16>, b: seq<int16>)
    ensures Encoded(a + b) == Encoded(a) + Encoded(b)
  {
    hide SampleBytes;
    if a == [] {
      assert a + b == b;
    } else {
      EncodedConcat(a[1..], b);
      assert (a + b)[1..] == a[1..] + b;
      var first, others := SampleBytes(a[0]), Encoded(a[1..]);
      assert first + (others + Encoded(b)) == (first + others) + Encoded(b);
    }
  }

  // ----- The walk -----

  /** The payload of the first `data` chunk of what remains of the file. */
  function FindData(rest: Bytes): Result<Bytes, ReadError> {
    if |rest| < 8 then Failure(NoData)
    else
      var id, size := rest[..4], LittleEndian(rest[4..8]);
      if 8 + size > |rest| then Failure(Truncated(id))
      else if id == DATA then Success(rest[8..8 + size])
      else if 8 + size + size % 2 > |rest| then Failure(NoData)
      else FindData(rest[8 + size + size % 2..])
  }

  function SamplesOf(file: Bytes): Result<seq<int16>, ReadError> {
    if |file| < 12 || file[..4] != RIFF || file[8..12] != WAVE then Failure(NotRiff)
    else
      var payload :- FindData(file[12..]);
      if |payload| % 2 != 0 then Failure(PartialSample) else Success(Decoded(payload))
  }

  /** `readCanonicalWAVSamples`, from the bytes on. */
  method ReadCanonicalWAVSamples(file: Bytes) returns (r: Result<seq<int16>, ReadError>)
    ensures r == SamplesOf(file)
  {
    hide LittleEndian, Decoded;
    if |file| < 12 || file[..4] != RIFF || file[8..12] != WAVE {
      return Failure(NotRiff);
    }
    var offset := 12;
    var payload: Option<Bytes> := None;
    while offset + 8 <= |file|
      invariant offset >= 12
      invariant FindData(file[12..]) == (if offset <= |file| then FindData(file[offset..]) else Failure(NoData))
    {
      var id := file[offset..offset + 4];
      var size := LittleEndian(file[offset + 4..offset + 8]);
      var start := offset + 8;
      assert file[offset..][..4] == id && file[offset..][4..8] == file[offset + 4..offset + 8];
      if start + size > |file| {
        return Failure(Truncated(id));
      }
      if id == DATA {
        payload := Some(file[start..start + size]);
        assert file[offset..][8..8 + size] == file[start..start + size];
        break;
      }
      ghost var before := offset;
      offset := start + size + size % 2;
      assert offset <= |file| ==> file[before..][offset - before..] == file[offset..];
    }
    if payload.None? {
      return Failure(NoData);
    }
    if |payload.value| % 2 != 0 {
      return Failure(PartialSample);
    }
    r := Success(Decoded(payload.value));
  }

  // ----- The files it accepts -----

  /** A chunk as it lies in the file; the pad byte may hold anything. */
  datatype Chunk = Chunk(id: Bytes, body: Bytes, pad: Bytes)

  predicate IsChunk(c: Chunk) {
    |c.id| == 4 && |c.body| < 0x1_0000_0000 && |c.pad| == |c.body| % 2
  }

  predicate AreOtherChunks(chunks: seq<Chunk>) {
    forall c <- chunks :: IsChunk(c) && c.id != DATA
  }

  function ChunkBytes(c: Chunk): (b: Bytes)
    requires IsChunk(c)
    ensures |b| == 8 + |c.body| + |c.body| % 2
  {
    c.id + Size32(|c.body|) + c.body + c.pad
  }

  function ChunksBytes(chunks: seq<Chunk>): Bytes
    requires AreOtherChunks(chunks)
  {
    if chunks == [] then [] else ChunkBytes(chunks[0]) + ChunksBytes(chunks[1..])
  }

  function DataBytes(payload: Bytes): Bytes
    requires |payload| < 0x1_0000_0000
  {
    DATA + Size32(|payload|) + payload
  }

  /** A file with these chunks before its samples, whatever its length field says and whatever
      follows. */
  function File(length: Bytes, chunks: seq<Chunk>, samples: seq<int16>, trailing: Bytes): Bytes
    requires AreOtherChunks(chunks) && 2 * |samples| < 0x1_0000_0000
  {
    RIFF + length + WAVE + (ChunksBytes(chunks) + (DataBytes(Encoded(samples)) + trailing))
  }

  lemma OneChunkAhead(c: Chunk, rest: Bytes)
    requires IsChunk(c) && c.id != DATA
    ensures FindData(ChunkBytes(c) + rest) == FindData(rest)
  {
    var all := ChunkBytes(c) + rest;
    SizeReadsBack(|c.body|);
    assert all[..4] == c.id && all[4..8] == Size32(|c.body|);
    assert all[|ChunkBytes(c)|..] == rest;
  }

  lemma DataAhead(payload: Bytes, trailing: Bytes)
    requires |payload| < 0x1_0000_0000
    ensures FindData(DataBytes(payload) + trailing) == Success(payload)
  {
    var all := DataBytes(payload) + trailing;
    SizeReadsBack(|payload|);
    assert all[..4] == DATA && all[4..8] == Size32(|payload|);
    assert all[8..8 + |payload|] == payload;
  }

  lemma {:induction false} ChunksAhead(chunks: seq<Chunk>, rest: Bytes)
    requires AreOtherChunks(chunks)
    ensures FindData(ChunksBytes(chunks) + rest) == FindData(rest)
  {
    if chunks == [] {
      assert ChunksBytes(chunks) + rest == rest;
    } else {
      ChunksAhead(chunks[1..], rest);
      OneChunkAhead(chunks[0], ChunksBytes(chunks[1..]) + rest);
      assert ChunksBytes(chunks) + rest == ChunkBytes(chunks[0]) + (ChunksBytes(chunks[1..]) + rest);
    }
  }

  /** What was written is what is read: any chunks before the samples, word-aligned, and
      anything after. */
  lemma FileReadsBack(length: Bytes, chunks: seq<Chunk>, samples: seq<int16>, trailing: Bytes)
    requires |length| == 4 && AreOtherChunks(chunks) && 2 * |samples| < 0x1_0000_0000
    ensures SamplesOf(File(length, chunks, samples, trailing)) == Success(samples)
  {
    var rest := DataBytes(Encoded(samples)) + trailing;
    var file := File(length, chunks, samples, trailing);
    assert file[..4] == RIFF && file[8..12] == WAVE && file[12..] == ChunksBytes(chunks) + rest;
    ChunksAhead(chunks, rest);
    DataAhead(Encoded(samples), trailing);
    SamplesReadBack(samples);
  }

  /** The chunks the walk went over. */
  lemma {:induction false} WalkSplits(rest: Bytes) returns (chunks: seq<Chunk>, trailing: Bytes)
    requires FindData(rest).Success?
    ensures AreOtherChunks(chunks) && |FindData(rest).value| < 0x1_0000_0000
    ensures rest == ChunksBytes(chunks) + (DataBytes(FindData(rest).value) + trailing)
    decreases |rest|
  {
    hide Size32, LittleEndian;
    var id, size := rest[..4], LittleEndian(rest[4..8]);
    if id == DATA {
      chunks, trailing := [], rest[8 + size..];
      DataSplitsOff(rest);
      assert ChunksBytes([]) + (DataBytes(rest[8..8 + size]) + trailing) == DataBytes(rest[8..8 + size]) + trailing;
    } else {
      var next := 8 + size + size % 2;
      var c := ChunkSplitsOff(rest);
      var others;
      others, trailing := WalkSplits(rest[next..]);
      chunks := [c] + others;
      assert chunks[1..] == others;
      var tail := DataBytes(FindData(rest).value) + trailing;
      assert ChunkBytes(c) + (ChunksBytes(others) + tail) == (ChunkBytes(c) + ChunksBytes(others)) + tail;
    }
  }

  lemma DataSplitsOff(rest: Bytes)
    requires |rest| >= 8 && rest[..4] == DATA && 8 + LittleEndian(rest[4..8]) <= |rest|
    ensures var size := LittleEndian(rest[4..8]);
      rest == DataBytes(rest[8..8 + size]) + rest[8 + size..]
  {
    hide Size32, LittleEndian;
    var size := LittleEndian(rest[4..8]);
    SizeIsUnique(rest[4..8]);
    assert rest == rest[..4] + rest[4..8] + rest[8..8 + size] + rest[8 + size..];
  }

  lemma ChunkSplitsOff(rest: Bytes) returns (c: Chunk)
    requires |rest| >= 8
    requires var size := LittleEndian(rest[4..8]); 8 + size + size % 2 <= |rest|
    ensures var size := LittleEndian(rest[4..8]);
      IsChunk(c) && c.id == rest[..4] && rest == ChunkBytes(c) + rest[8 + size + size % 2..]
  {
    hide Size32, LittleEndian;
    var size := LittleEndian(rest[4..8]);
    var next := 8 + size + size % 2;
    SizeIsUnique(rest[4..8]);
    c := Chunk(rest[..4], rest[8..8 + size], rest[8 + size..next]);
    assert rest == rest[..4] + rest[4..8] + rest[8..8 + size] + rest[8 + size..next] + rest[next..];
  }

  ghost predicate Holds(file: Bytes, samples: seq<int16>, length: Bytes, chunks: seq<Chunk>, trailing: Bytes) {
    && |length| == 4 && AreOtherChunks(chunks) && 2 * |samples| < 0x1_0000_0000
    && file == File(length, chunks, samples, trailing)
  }

  /** Reading gives these samples exactly when the file is of that form with them in it: the
      reader accepts nothing else and misreads nothing. */
  lemma ReadingIsExact(file: Bytes, samples: seq<int16>)
    ensures SamplesOf(file) == Success(samples) <==>
      exists length, chunks, trailing :: Holds(file, samples, length, chunks, trailing)
  {
    hide FindData, Encoded, Decoded, ChunksBytes;
    if SamplesOf(file) == Success(samples) {
      var chunks, trailing := WalkSplits(file[12..]);
      PayloadIsUnique(FindData(file[12..]).value);
      assert file == file[..4] + file[4..8] + file[8..12] + file[12..];
      assert Holds(file, samples, file[4..8], chunks, trailing);
    }
    if length, chunks, trailing :| Holds(file, samples, length, chunks, trailing) {
      FileReadsBack(length, chunks, samples, trailing);
    }
  }

  // ----- One-second pieces -----

  const SOURCE_SAMPLE_RATE := 48000

  datatype Piece = Piece(sampleStart: nat, sampleCount: nat, payload: Bytes)

  function Piecewise(samples: seq<int16>, start: nat): seq<Piece> {
    if samples == [] then []
    else
      var n := if |samples| < SOURCE_SAMPLE_RATE then |samples| else SOURCE_SAMPLE_RATE;
      [Piece(start, n, Encoded(samples[..n]))] + Piecewise(samples[n..], start + n)
  }

  /** The loop of `derive`: what it hands to the deriver, in order. */
  method Derive(samples: seq<int16>) returns (pieces: seq<Piece>)
    ensures pieces == Piecewise(samples, 0)
  {
    pieces := [];
    var offset, sampleStart := 0, 0;
    while offset < |samples|
      invariant 0 <= offset == sampleStart <= |samples|
      invariant pieces + Piecewise(samples[offset..], sampleStart) == Piecewise(samples, 0)
    {
      var end := if offset + SOURCE_SAMPLE_RATE < |samples| then offset + SOURCE_SAMPLE_RATE else |samples|;
      var piece := Piece(sampleStart, end - offset, Encoded(samples[offset..end]));
      assert samples[offset..][..end - offset] == samples[offset..end];
      assert samples[offset..][end - offset..] == samples[end..];
      pieces := pieces + [piece];
      sampleStart := sampleStart + (end - offset);
      offset := end;
    }
  }

  function AllPayloads(pieces: seq<Piece>): Bytes {
    if pieces == [] then [] else pieces[0].payload + AllPayloads(pieces[1..])
  }

  /** The pieces put together are the input, each begins where the one before it ended, and
      all but the last are one second long. */
  lemma {:induction false} PiecesAreTheInput(samples: seq<int16>, start: nat)
    ensures var pieces := Piecewise(samples, start);
      && AllPayloads(pieces) == Encoded(samples)
      && (forall i | 0 <= i < |pieces| ::
            && pieces[i].sampleStart == start + SOURCE_SAMPLE_RATE * i
            && pieces[i].sampleCount == (if i < |pieces| - 1 then SOURCE_SAMPLE_RATE
                                         else |samples| - SOURCE_SAMPLE_RATE * i)
            && 0 < pieces[i].sampleCount <= SOURCE_SAMPLE_RATE
            && |pieces[i].payload| == 2 * pieces[i].sampleCount)
      && (samples != [] ==> pieces != [])
    decreases |samples|
  {
    if samples != [] {
      var n := if |samples| < SOURCE_SAMPLE_RATE then |samples| else SOURCE_SAMPLE_RATE;
      PiecesAreTheInput(samples[n..], start + n);
      EncodedConcat(samples[..n], samples[n..]);
      assert samples == samples[..n] + samples[n..];
      var rest := Piecewise(samples[n..], start + n);
      assert Piecewise(samples, start)[1..] == rest;
      if n < SOURCE_SAMPLE_RATE || |samples| == n {
        assert rest == [];
      }
    }
  }
}
