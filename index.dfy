/**
 * The chunk index (`.caidx`): index header, preamble, table header, then a
 * table of 40-byte entries, each the cumulative end offset of a chunk in the
 * reassembled stream followed by the chunk's 32-byte hash. The number of
 * entries is derived from the buffer length alone.
 */
module Index {
  import opened Bytes
  import opened Stream
  import opened Header

  /** The index header and its preamble; the values are carried, never used. */
  datatype FormatIndex = FormatIndex(
    header: Option<Header>,
    flags: u64,
    chunkSizeMin: u64,
    chunkSizeAvg: u64,
    chunkSizeMax: u64)

  /** One chunk of the stream: its hash, where it starts, and its length (not checked to be non-negative). */
  datatype Chunk = Chunk(sha: seq<byte>, offset: int, length: int)

  function End(c: Chunk): (end: int) {
    c.offset + c.length
  }

  /** Where the first table entry starts: index header, preamble and table header. */
  const TABLE_START: nat := 16 + CA_HEADER_LEN + CA_TABLE_HEADER_LEN

  /** Reads the index header, then the preamble as four little-endian u64s. */
  function ReadFormatIndex(buf: seq<byte>, pos: nat): (r: Result<(FormatIndex, nat)>)
    requires pos <= |buf|
    ensures r.Ok? <==>
      pos + 48 <= |buf| && (MagicAt(buf, pos) == CA_FORMAT_INDEX || MagicAt(buf, pos) == CA_FORMAT_GOODBYE)
    ensures r.Err? ==>
      r.error == (if pos + 16 <= |buf| && MagicAt(buf, pos) != CA_FORMAT_INDEX && MagicAt(buf, pos) != CA_FORMAT_GOODBYE
                   then UnexpectedMagic(CA_FORMAT_INDEX, MagicAt(buf, pos))
                   else Truncated)
    ensures r.Ok? ==>
      && r.value.1 == pos + 48
      && r.value.0.flags == U64At(buf, pos + 16)
      && r.value.0.chunkSizeMin == U64At(buf, pos + 24)
      && r.value.0.chunkSizeAvg == U64At(buf, pos + 32)
      && r.value.0.chunkSizeMax == U64At(buf, pos + 40)
  {
    var h :- ReadHeader(buf, pos, CA_FORMAT_INDEX);
    var next :- ReadExact(buf, h.1, CA_HEADER_LEN);
    var p := h.1;
    Ok((FormatIndex(h.0, U64At(buf, p), U64At(buf, p + 8), U64At(buf, p + 16), U64At(buf, p + 24)),
        next))
  }

  /**
   * Reads one table entry: the cumulative end offset (a short read fails),
   * then up to 32 hash bytes (a short read passes silently). The chunk starts
   * at `lastOffset` and ends at the stored offset.
   */
  function ReadChunk(buf: seq<byte>, pos: nat, lastOffset: int): (r: Result<(Chunk, nat)>)
    requires pos <= |buf|
    ensures r.Ok? <==> pos + 8 <= |buf|
    ensures r.Ok? ==>
      && r.value.0.offset == lastOffset
      && End(r.value.0) == U64At(buf, pos)
      && r.value.1 == Min(pos + 40, |buf|)
  {
    var off :- ReadU64(buf, pos);
    var sha := ReadSome(buf, off.1, 32).value;
    Ok((Chunk(sha.0, lastOffset, off.0 - lastOffset), sha.1))
  }

  /** The entry count as computed from the buffer length; Dafny's `/` by a positive divisor floors like Python's `//`. */
  function ChunkCount(length: int): (n: int) {
    (length - CA_HEADER_LEN - CA_TABLE_MIN_LEN) / CA_TABLE_ENTRY_LEN
  }

  /**
   * How many times the entry loop runs (`range` of a negative count is empty).
   * The entries read end at least 24 bytes before the end of the buffer.
   */
  function NumChunks(length: nat): (n: nat)
    ensures length < 128 ==> n == 0
    ensures length >= 88 ==> 88 + 40 * n <= length < 128 + 40 * n
    ensures n > 0 ==> TABLE_START + CA_TABLE_ENTRY_LEN * n + 24 <= length
  {
    if ChunkCount(length) < 0 then 0 else ChunkCount(length)
  }

  /** A buffer of 104 + 40 * N bytes holds exactly N chunk entries. */
  lemma NumChunksExact(n: nat)
    ensures NumChunks(104 + 40 * n) == n
  {
  }

  /** The cumulative offset stored in entry `i`. */
  function StoredOffset(buf: seq<byte>, i: nat): (offset: u64)
    requires TABLE_START + CA_TABLE_ENTRY_LEN * i + 8 <= |buf|
  {
    U64At(buf, TABLE_START + CA_TABLE_ENTRY_LEN * i)
  }

  /** Where chunk `i` starts: 0 for the first, the previous entry's stored offset otherwise. */
  function PrevOffset(buf: seq<byte>, i: nat): (offset: nat)
    requires TABLE_START + CA_TABLE_ENTRY_LEN * i <= |buf|
  {
    if i == 0 then 0 else StoredOffset(buf, i - 1)
  }

  /** Reference definition of the `i`-th chunk of a table, read off the buffer directly. */
  function EntryChunk(buf: seq<byte>, i: nat): (c: Chunk)
    requires TABLE_START + CA_TABLE_ENTRY_LEN * (i + 1) <= |buf|
  {
    var at := TABLE_START + CA_TABLE_ENTRY_LEN * i;
    Chunk(buf[at + 8..at + 40], PrevOffset(buf, i), StoredOffset(buf, i) - PrevOffset(buf, i))
  }

  /** Entry `k` of a table, read by ReadChunk from the running offset, is the reference chunk. */
  lemma ReadChunkIsEntry(buf: seq<byte>, k: nat)
    requires k < NumChunks(|buf|)
    ensures TABLE_START + CA_TABLE_ENTRY_LEN * (k + 1) <= |buf|
    ensures ReadChunk(buf, TABLE_START + CA_TABLE_ENTRY_LEN * k, PrevOffset(buf, k))
         == Ok((EntryChunk(buf, k), TABLE_START + CA_TABLE_ENTRY_LEN * (k + 1)))
    ensures PrevOffset(buf, k) + EntryChunk(buf, k).length == PrevOffset(buf, k + 1)
    ensures Table(buf, k + 1) == Table(buf, k) + [EntryChunk(buf, k)]
  {
  }

  /** The first `k` chunks of the table, in table order. */
  function Table(buf: seq<byte>, k: nat): (cs: seq<Chunk>)
    requires TABLE_START + CA_TABLE_ENTRY_LEN * k <= |buf|
    ensures |cs| == k
  {
    if k == 0 then [] else Table(buf, k - 1) + [EntryChunk(buf, k - 1)]
  }

  /** Each chunk starts where the previous one ends. */
  ghost predicate Contiguous(cs: seq<Chunk>) {
    forall i :: 0 < i < |cs| ==> JoinsPrevious(cs, i)
  }

  /** Chunk `i` starts where chunk `i - 1` ends. */
  ghost predicate JoinsPrevious(cs: seq<Chunk>, i: nat)
    requires 0 < i < |cs|
  {
    cs[i].offset == End(cs[i - 1])
  }

  /** A prefix of contiguous chunks is contiguous. */
  lemma ContiguousPrefix(cs: seq<Chunk>, n: nat)
    requires Contiguous(cs) && n <= |cs|
    ensures Contiguous(cs[..n])
  {
    forall i | 0 < i < n
      ensures JoinsPrevious(cs[..n], i)
    {
      assert JoinsPrevious(cs, i);
    }
  }

  /** The sum of the chunk lengths. */
  function TotalLength(cs: seq<Chunk>): (total: int) {
    if cs == [] then 0 else TotalLength(cs[..|cs| - 1]) + cs[|cs| - 1].length
  }

  /** Contiguous chunks span from the first offset to the last end, so the lengths sum to that span. */
  lemma {:induction false} ContiguousSpan(cs: seq<Chunk>)
    requires |cs| > 0 && Contiguous(cs)
    ensures cs[0].offset + TotalLength(cs) == End(cs[|cs| - 1])
  {
    if |cs| > 1 {
      var init := cs[..|cs| - 1];
      ContiguousPrefix(cs, |cs| - 1);
      ContiguousSpan(init);
      assert JoinsPrevious(cs, |cs| - 1);
    }
  }

  /** The reference chunk `i` starts at the previous stored offset, ends at its own, and has a full 32-byte hash. */
  lemma EntryChunkSpan(buf: seq<byte>, i: nat)
    requires TABLE_START + CA_TABLE_ENTRY_LEN * (i + 1) <= |buf|
    ensures EntryChunk(buf, i).offset == PrevOffset(buf, i)
    ensures End(EntryChunk(buf, i)) == StoredOffset(buf, i) == PrevOffset(buf, i + 1)
    ensures |EntryChunk(buf, i).sha| == 32
  {
  }

  /** The first `k` chunks of a table are the reference chunks. */
  lemma {:induction false} TableEntries(buf: seq<byte>, k: nat)
    requires TABLE_START + CA_TABLE_ENTRY_LEN * k <= |buf|
    ensures forall i :: 0 <= i < k ==> Table(buf, k)[i] == EntryChunk(buf, i)
  {
    if k > 0 {
      TableEntries(buf, k - 1);
      assert forall i :: 0 <= i < k - 1 ==> Table(buf, k)[i] == Table(buf, k - 1)[i];
    }
  }

  /** The lengths of the first `k` chunks sum to where chunk `k` starts. */
  lemma {:induction false} TableTotal(buf: seq<byte>, k: nat)
    requires TABLE_START + CA_TABLE_ENTRY_LEN * k <= |buf|
    ensures TotalLength(Table(buf, k)) == PrevOffset(buf, k)
  {
    if k > 0 {
      TableTotal(buf, k - 1);
      assert Table(buf, k)[..k - 1] == Table(buf, k - 1);
      EntryChunkSpan(buf, k - 1);
    }
  }

  /** Each of the first `k` chunks ends at its entry's stored offset and carries a full 32-byte hash. */
  lemma TableEnds(buf: seq<byte>, k: nat)
    requires TABLE_START + CA_TABLE_ENTRY_LEN * k <= |buf|
    ensures forall i :: 0 <= i < k ==> End(Table(buf, k)[i]) == StoredOffset(buf, i) && |Table(buf, k)[i].sha| == 32
  {
    forall i | 0 <= i < k
      ensures End(Table(buf, k)[i]) == StoredOffset(buf, i) && |Table(buf, k)[i].sha| == 32
    {
      TableEntries(buf, k);
      EntryChunkSpan(buf, i);
    }
  }

  /** The first `k` chunks of a table are contiguous, the first starting at 0. */
  lemma TableJoins(buf: seq<byte>, k: nat)
    requires TABLE_START + CA_TABLE_ENTRY_LEN * k <= |buf|
    ensures Contiguous(Table(buf, k))
    ensures k > 0 ==> Table(buf, k)[0].offset == 0
  {
    var cs := Table(buf, k);
    TableEntries(buf, k);
    forall i | 0 < i < k
      ensures JoinsPrevious(cs, i)
    {
      EntryChunkSpan(buf, i);
      EntryChunkSpan(buf, i - 1);
    }
    if k > 0 {
      EntryChunkSpan(buf, 0);
    }
  }

  /**
   * The first `k` chunks of a table are the reference chunks; they start at
   * 0, are contiguous, each ends at its entry's stored offset and carries a
   * full 32-byte hash, and their lengths sum to where chunk `k` starts.
   */
  lemma TableContiguous(buf: seq<byte>, k: nat)
    requires TABLE_START + CA_TABLE_ENTRY_LEN * k <= |buf|
    ensures var cs := Table(buf, k);
      && (forall i :: 0 <= i < k ==>
            cs[i] == EntryChunk(buf, i) && End(cs[i]) == StoredOffset(buf, i) && |cs[i].sha| == 32)
      && Contiguous(cs)
      && (k > 0 ==> cs[0].offset == 0)
      && TotalLength(cs) == PrevOffset(buf, k)
  {
    TableEntries(buf, k);
    TableEnds(buf, k);
    TableJoins(buf, k);
    TableTotal(buf, k);
  }

  /**
   * The index header, the preamble and the table header; on success the
   * table starts at byte 64. A wrong magic in a header that is all there is
   * `UnexpectedMagic`; any other failure is a short read.
   */
  function ReadPrelude(buf: seq<byte>): (r: Result<nat>)
    ensures r.Ok? <==>
      && TABLE_START <= |buf|
      && (MagicAt(buf, 0) == CA_FORMAT_INDEX || MagicAt(buf, 0) == CA_FORMAT_GOODBYE)
      && (MagicAt(buf, 48) == CA_FORMAT_TABLE || MagicAt(buf, 48) == CA_FORMAT_GOODBYE)
    ensures r.Err? ==> r.error == PreludeError(buf)
    ensures r.Ok? ==> r.value == TABLE_START
  {
    var fi :- ReadFormatIndex(buf, 0);
    var th :- ReadHeader(buf, fi.1, CA_FORMAT_TABLE);
    Ok(th.1)
  }

  /**
   * How a failing prelude fails: a wrong INDEX magic, else a wrong TABLE
   * magic, each only once its 16-byte header is all there; else a short read.
   */
  function PreludeError(buf: seq<byte>): (e: Error)
    ensures e.UnexpectedMagic? ==> e.expected == CA_FORMAT_INDEX || e.expected == CA_FORMAT_TABLE
  {
    if 16 <= |buf| && MagicAt(buf, 0) != CA_FORMAT_INDEX && MagicAt(buf, 0) != CA_FORMAT_GOODBYE then
      UnexpectedMagic(CA_FORMAT_INDEX, MagicAt(buf, 0))
    else if TABLE_START <= |buf| && MagicAt(buf, 48) != CA_FORMAT_TABLE && MagicAt(buf, 48) != CA_FORMAT_GOODBYE then
      UnexpectedMagic(CA_FORMAT_TABLE, MagicAt(buf, 48))
    else
      Truncated
  }

  /** What decoding an index yields: after the prelude, the first NumChunks(|buf|) chunks of the table. */
  function IndexChunks(buf: seq<byte>): (r: Result<seq<Chunk>>)
    ensures r.Ok? <==> ReadPrelude(buf).Ok?
    ensures r.Err? ==> r.error == PreludeError(buf)
    ensures r.Ok? ==> |r.value| == NumChunks(|buf|)
  {
    var start :- ReadPrelude(buf);
    Ok(Table(buf, NumChunks(|buf|)))
  }

  /**
   * The chunks of a decoded index: they lie in the table, start at 0, are
   * contiguous, each ends at its entry's stored offset and carries a full
   * 32-byte hash, and their lengths sum to the last stored offset.
   */
  lemma IndexChunksContiguous(buf: seq<byte>)
    requires IndexChunks(buf).Ok?
    ensures var cs := IndexChunks(buf).value;
      && TABLE_START + CA_TABLE_ENTRY_LEN * |cs| <= |buf|
      && (forall i :: 0 <= i < |cs| ==>
            cs[i] == EntryChunk(buf, i) && End(cs[i]) == StoredOffset(buf, i) && |cs[i].sha| == 32)
      && Contiguous(cs)
      && (|cs| > 0 ==> cs[0].offset == 0)
      && (|cs| > 0 ==> TotalLength(cs) == StoredOffset(buf, |cs| - 1))
  {
    TableContiguous(buf, NumChunks(|buf|));
  }

  /** How far into a buffer of `length` bytes index decoding ever looks: the prelude, then the entries it reads. */
  function ReadExtent(length: nat): (n: nat)
    ensures n <= length
    ensures NumChunks(length) > 0 ==> n == TABLE_START + CA_TABLE_ENTRY_LEN * NumChunks(length)
  {
    Min(TABLE_START + CA_TABLE_ENTRY_LEN * NumChunks(length), length)
  }

  /** Buffers agreeing on their first `n` bytes agree on every shorter prefix. */
  lemma PrefixAgree(buf: seq<byte>, other: seq<byte>, n: nat, m: nat)
    requires m <= n <= |buf| && n <= |other| && buf[..n] == other[..n]
    ensures buf[..m] == other[..m]
    ensures forall i :: 0 <= i < m ==> buf[i] == other[i]
  {
    assert buf[..m] == buf[..n][..m] && other[..m] == other[..n][..m];
    forall i | 0 <= i < m
      ensures buf[i] == other[i]
    {
      assert buf[i] == buf[..n][i] && other[i] == other[..n][i];
    }
  }

  /** Entry `i` depends only on the bytes up to its end. */
  lemma EntryAgree(buf: seq<byte>, other: seq<byte>, i: nat)
    requires |buf| == |other| && TABLE_START + CA_TABLE_ENTRY_LEN * (i + 1) <= |buf|
    requires forall j :: 0 <= j < TABLE_START + CA_TABLE_ENTRY_LEN * (i + 1) ==> buf[j] == other[j]
    ensures EntryChunk(buf, i) == EntryChunk(other, i)
  {
    var at := TABLE_START + CA_TABLE_ENTRY_LEN * i;
    assert buf[at..at + 8] == other[at..at + 8];
    U64AtAgree(buf, other, at);
    assert buf[at + 8..at + 40] == other[at + 8..at + 40];
    if i > 0 {
      assert buf[at - 40..at - 32] == other[at - 40..at - 32];
      U64AtAgree(buf, other, at - 40);
    }
  }

  /** The first `k` chunks of a table depend only on the bytes up to the end of entry `k`. */
  lemma {:induction false} TableAgree(buf: seq<byte>, other: seq<byte>, k: nat)
    requires |buf| == |other| && TABLE_START + CA_TABLE_ENTRY_LEN * k <= |buf|
    requires forall j :: 0 <= j < TABLE_START + CA_TABLE_ENTRY_LEN * k ==> buf[j] == other[j]
    ensures Table(buf, k) == Table(other, k)
  {
    if k > 0 {
      TableAgree(buf, other, k - 1);
      EntryAgree(buf, other, k - 1);
    }
  }

  /** The prelude depends only on the first 64 bytes (and on how long the buffer is). */
  lemma PreludeAgree(buf: seq<byte>, other: seq<byte>)
    requires |buf| == |other|
    requires buf[..Min(TABLE_START, |buf|)] == other[..Min(TABLE_START, |buf|)]
    ensures ReadPrelude(buf) == ReadPrelude(other)
  {
    PrefixAgree(buf, other, Min(TABLE_START, |buf|), Min(TABLE_START, |buf|));
    if 16 <= |buf| {
      assert buf[8..16] == other[8..16];
      U64AtAgree(buf, other, 8);
    }
    if TABLE_START <= |buf| {
      assert buf[56..64] == other[56..64];
      U64AtAgree(buf, other, 56);
    }
  }

  /**
   * CAIndex.from_buffer never reads past the last entry it decodes: two
   * buffers of the same length that agree up to there decode alike.
   */
  lemma IndexReadsOnlyExtent(buf: seq<byte>, other: seq<byte>)
    requires |buf| == |other| && buf[..ReadExtent(|buf|)] == other[..ReadExtent(|buf|)]
    ensures IndexChunks(buf) == IndexChunks(other)
  {
    var n := NumChunks(|buf|);
    var extent := ReadExtent(|buf|);
    PrefixAgree(buf, other, extent, Min(TABLE_START, |buf|));
    PreludeAgree(buf, other);
    if ReadPrelude(buf).Ok? {
      PrefixAgree(buf, other, extent, TABLE_START + CA_TABLE_ENTRY_LEN * n);
      TableAgree(buf, other, n);
    }
  }

  /** IndexChunks read step by step: the index header and preamble, the table header, then the table. */
  lemma IndexChunksSteps(buf: seq<byte>)
    ensures ReadFormatIndex(buf, 0).Err? ==> IndexChunks(buf) == Err(ReadFormatIndex(buf, 0).error)
    ensures ReadFormatIndex(buf, 0).Ok? ==>
      var th := ReadHeader(buf, 48, CA_FORMAT_TABLE);
      && (th.Err? ==> IndexChunks(buf) == Err(th.error))
      && (th.Ok? ==> IndexChunks(buf) == Ok(Table(buf, NumChunks(|buf|))))
  {
  }

  /**
   * The entry loop of CAIndex.from_buffer: ChunkCount(|buf|) turns, each
   * reading one entry from the running offset; it ends with the table's
   * first NumChunks(|buf|) chunks and never reads past the buffer.
   */
  method ReadEntries(buf: seq<byte>) returns (chunks: seq<Chunk>)
    requires TABLE_START <= |buf|
    ensures chunks == Table(buf, NumChunks(|buf|))
  {
    // `range(num_chunks)` is empty when the count is negative
    var count := NumChunks(|buf|);
    chunks := [];
    var offset: int := 0;
    var pos := TABLE_START;
    for k := 0 to count
      invariant pos == TABLE_START + CA_TABLE_ENTRY_LEN * k
      invariant chunks == Table(buf, k)
      invariant offset == PrevOffset(buf, k)
    {
      var step := ReadChunk(buf, pos, offset);
      // the entry count keeps every offset read in bounds: CAChunk's short read cannot occur here
      ReadChunkIsEntry(buf, k);
      assert step == Ok((EntryChunk(buf, k), pos + CA_TABLE_ENTRY_LEN));
      var chunk := step.value.0;
      offset := offset + chunk.length;
      chunks := chunks + [chunk];
      pos := step.value.1;
    }
  }

  /** CAIndex.from_buffer: the index header and preamble, the table header, then the entry loop. */
  method DecodeIndex(buf: seq<byte>) returns (r: Result<seq<Chunk>>)
    ensures r == IndexChunks(buf)
  {
    var fi := ReadFormatIndex(buf, 0);
    IndexChunksSteps(buf);
    if fi.Err? {
      return Err(fi.error);
    }
    var th := ReadHeader(buf, fi.value.1, CA_FORMAT_TABLE);
    if th.Err? {
      return Err(th.error);
    }
    var chunks := ReadEntries(buf);
    r := Ok(chunks);
  }
}
