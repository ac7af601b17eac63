/**
 * The concatenation step of parse_caidx: every chunk of the index is
 * handed to a chunk store, and the bytes it returns are joined in index
 * order into the archive stream. The store itself (a directory of chunk
 * files) is abstract here: a function from chunk descriptor to bytes, or
 * None when the chunk cannot be read.
 */
module Reassembly {
  import opened Bytes
  import opened Stream
  import opened Index

  /** The chunk store: the bytes a chunk resolves to, None when it cannot be read. */
  type Resolver = Chunk -> Option<seq<byte>>

  /**
   * `b"".join(chunk_reader.read(chunk) for chunk in chunks)`: the resolved
   * bytes of every chunk, in index order. It fails exactly when some chunk
   * does not resolve.
   */
  function Reassemble(cs: seq<Chunk>, resolve: Resolver): (r: Result<seq<byte>>)
    ensures r.Ok? <==> forall i :: 0 <= i < |cs| ==> resolve(cs[i]).Some?
    ensures r.Err? ==> r.error == ChunkUnavailable
  {
    if cs == [] then Ok([])
    else
      var init :- Reassemble(cs[..|cs| - 1], resolve);
      var last := resolve(cs[|cs| - 1]);
      if last.None? then Err(ChunkUnavailable) else Ok(init + last.value)
  }

  /** Every chunk resolves. */
  ghost predicate Resolves(cs: seq<Chunk>, resolve: Resolver) {
    forall i :: 0 <= i < |cs| ==> resolve(cs[i]).Some?
  }

  /** How many bytes the store returns for all of `cs` together, whatever their descriptors say (none for a missing chunk). */
  function ResolvedSize(cs: seq<Chunk>, resolve: Resolver): (n: nat) {
    if cs == [] then 0
    else ResolvedSize(cs[..|cs| - 1], resolve) + Returned(resolve(cs[|cs| - 1]))
  }

  /** The number of bytes in a store answer. */
  function Returned(answer: Option<seq<byte>>): (n: nat) {
    if answer.Some? then |answer.value| else 0
  }

  /** Dropping the last chunk keeps every other chunk resolving. */
  lemma ResolvesInit(cs: seq<Chunk>, resolve: Resolver)
    requires cs != [] && Resolves(cs, resolve)
    ensures Resolves(cs[..|cs| - 1], resolve)
  {
    var init := cs[..|cs| - 1];
    forall i | 0 <= i < |init|
      ensures resolve(init[i]).Some?
    {
      assert init[i] == cs[i];
    }
  }

  /** The joined stream is as long as everything the store returned. */
  lemma {:induction false} ReassembleSize(cs: seq<Chunk>, resolve: Resolver)
    requires Resolves(cs, resolve)
    ensures Reassemble(cs, resolve).Ok?
    ensures |Reassemble(cs, resolve).value| == ResolvedSize(cs, resolve)
  {
    if cs != [] {
      ResolvesInit(cs, resolve);
      ReassembleSize(cs[..|cs| - 1], resolve);
    }
  }

  /**
   * Whatever lengths the store returns, chunk `i`'s bytes sit unchanged in
   * the stream right after the bytes returned for the chunks before it.
   */
  lemma {:induction false} ReassemblePlacement(cs: seq<Chunk>, resolve: Resolver, i: nat)
    requires Resolves(cs, resolve) && i < |cs|
    ensures Reassemble(cs, resolve).Ok?
    ensures ResolvedSize(cs[..i], resolve) + |resolve(cs[i]).value| <= |Reassemble(cs, resolve).value|
    ensures Reassemble(cs, resolve).value[ResolvedSize(cs[..i], resolve)..ResolvedSize(cs[..i], resolve) + |resolve(cs[i]).value|]
         == resolve(cs[i]).value
  {
    var n := |cs| - 1;
    var init := cs[..n];
    ResolvesInit(cs, resolve);
    ReassembleSize(init, resolve);
    ReassembleSize(cs, resolve);
    var head := Reassemble(init, resolve).value;
    var last := resolve(cs[n]).value;
    assert Reassemble(cs, resolve).value == head + last;
    if i == n {
      assert cs[..i] == init;
      assert (head + last)[|head|..|head| + |last|] == last;
    } else {
      ReassemblePlacement(init, resolve, i);
      assert cs[..i] == init[..i];
      assert init[i] == cs[i];
      var lo := ResolvedSize(init[..i], resolve);
      assert (head + last)[lo..lo + |resolve(cs[i]).value|] == head[lo..lo + |resolve(cs[i]).value|];
    }
  }

  /**
   * `stream` is the store's answers for `cs` joined in order: as long as
   * everything returned, each chunk's bytes right after those of the chunks
   * before it.
   */
  ghost predicate JoinedFrom(stream: seq<byte>, cs: seq<Chunk>, resolve: Resolver) {
    && |stream| == ResolvedSize(cs, resolve)
    && forall i :: 0 <= i < |cs| ==>
         && resolve(cs[i]).Some?
         && ResolvedSize(cs[..i], resolve) + |resolve(cs[i]).value| <= |stream|
         && stream[ResolvedSize(cs[..i], resolve)..ResolvedSize(cs[..i], resolve) + |resolve(cs[i]).value|]
            == resolve(cs[i]).value
  }

  /** For any store that returns every chunk, the stream rebuilt is those answers joined in order. */
  lemma StreamLayout(cs: seq<Chunk>, resolve: Resolver)
    requires Resolves(cs, resolve)
    ensures Reassemble(cs, resolve).Ok?
    ensures JoinedFrom(Reassemble(cs, resolve).value, cs, resolve)
  {
    ReassembleSize(cs, resolve);
    forall i | 0 <= i < |cs|
      ensures ResolvedSize(cs[..i], resolve) + |resolve(cs[i]).value| <= |Reassemble(cs, resolve).value|
      ensures Reassemble(cs, resolve).value[ResolvedSize(cs[..i], resolve)..ResolvedSize(cs[..i], resolve) + |resolve(cs[i]).value|]
           == resolve(cs[i]).value
    {
      ReassemblePlacement(cs, resolve, i);
    }
  }

  /** With an exact store, the bytes returned add up to the descriptors' lengths. */
  lemma {:induction false} ResolvedSizeExact(cs: seq<Chunk>, resolve: Resolver)
    requires ResolvesExactly(cs, resolve)
    ensures ResolvedSize(cs, resolve) == TotalLength(cs)
  {
    if cs != [] {
      ResolvesExactlyInit(cs, resolve);
      ResolvedSizeExact(cs[..|cs| - 1], resolve);
    }
  }

  /** Every chunk resolves, to exactly as many bytes as its descriptor says. */
  ghost predicate ResolvesExactly(cs: seq<Chunk>, resolve: Resolver) {
    forall i :: 0 <= i < |cs| ==> resolve(cs[i]).Some? && |resolve(cs[i]).value| == cs[i].length
  }

  /** Dropping the last chunk keeps every other chunk resolving exactly. */
  lemma ResolvesExactlyInit(cs: seq<Chunk>, resolve: Resolver)
    requires cs != [] && ResolvesExactly(cs, resolve)
    ensures ResolvesExactly(cs[..|cs| - 1], resolve)
  {
    var init := cs[..|cs| - 1];
    forall i | 0 <= i < |init|
      ensures resolve(init[i]).Some? && |resolve(init[i]).value| == init[i].length
    {
      assert init[i] == cs[i];
    }
  }

  /** When every chunk resolves to exactly its length, the stream is as long as all the chunks together. */
  lemma ReassembleLength(cs: seq<Chunk>, resolve: Resolver)
    requires ResolvesExactly(cs, resolve)
    ensures Reassemble(cs, resolve).Ok?
    ensures |Reassemble(cs, resolve).value| == TotalLength(cs)
  {
    ResolvedSizeExact(cs, resolve);
    ReassembleSize(cs, resolve);
  }

  /** ... and chunk `i`'s bytes sit right after those of the chunks before it. */
  lemma ReassembleAt(cs: seq<Chunk>, resolve: Resolver, i: nat)
    requires ResolvesExactly(cs, resolve) && i < |cs|
    ensures Reassemble(cs, resolve).Ok?
    ensures 0 <= TotalLength(cs[..i]) && TotalLength(cs[..i]) + cs[i].length <= TotalLength(cs)
    ensures |Reassemble(cs, resolve).value| == TotalLength(cs)
    ensures Reassemble(cs, resolve).value[TotalLength(cs[..i])..TotalLength(cs[..i]) + cs[i].length]
         == resolve(cs[i]).value
  {
    ReassembleLength(cs, resolve);
    ResolvedSizeExact(cs, resolve);
    ReassemblePlacement(cs, resolve, i);
    ResolvesExactlyPrefix(cs, resolve, i);
    ResolvedSizeExact(cs[..i], resolve);
  }

  /** A prefix of an exactly resolving run resolves exactly. */
  lemma ResolvesExactlyPrefix(cs: seq<Chunk>, resolve: Resolver, i: nat)
    requires ResolvesExactly(cs, resolve) && i <= |cs|
    ensures ResolvesExactly(cs[..i], resolve)
  {
    forall j | 0 <= j < i
      ensures resolve(cs[..i][j]).Some? && |resolve(cs[..i][j]).value| == cs[..i][j].length
    {
      assert cs[..i][j] == cs[j];
    }
  }

  /**
   * In a contiguous run of chunks that starts at offset 0, the chunks before
   * chunk `i` add up to chunk `i`'s offset.
   */
  lemma PrefixLengthIsOffset(cs: seq<Chunk>, i: nat)
    requires Contiguous(cs) && i < |cs| && cs[0].offset == 0
    ensures TotalLength(cs[..i]) == cs[i].offset
  {
    var run := cs[..i + 1];
    ContiguousPrefix(cs, i + 1);
    ContiguousSpan(run);
    assert run[..i] == cs[..i];
  }

  /**
   * The stream rebuilt from contiguous chunks starting at offset 0, when the
   * store returns every chunk at its stated length: it ends where the last
   * chunk ends, and each chunk's bytes sit at [offset, offset + length).
   */
  lemma ContiguousStream(cs: seq<Chunk>, resolve: Resolver)
    requires Contiguous(cs) && (cs != [] ==> cs[0].offset == 0) && ResolvesExactly(cs, resolve)
    ensures Reassemble(cs, resolve).Ok?
    ensures |Reassemble(cs, resolve).value| == if cs == [] then 0 else End(cs[|cs| - 1])
    ensures forall i :: 0 <= i < |cs| ==>
      0 <= cs[i].offset <= End(cs[i]) <= |Reassemble(cs, resolve).value| &&
      Reassemble(cs, resolve).value[cs[i].offset..End(cs[i])] == resolve(cs[i]).value
  {
    ReassembleLength(cs, resolve);
    if cs != [] {
      ContiguousSpan(cs);
    }
    forall i | 0 <= i < |cs|
      ensures 0 <= cs[i].offset <= End(cs[i]) <= |Reassemble(cs, resolve).value|
      ensures Reassemble(cs, resolve).value[cs[i].offset..End(cs[i])] == resolve(cs[i]).value
    {
      PrefixLengthIsOffset(cs, i);
      ReassembleAt(cs, resolve, i);
    }
  }

  /**
   * The stream rebuilt from a decoded index, when the store returns every
   * chunk at its stated length: it is as long as the last stored offset
   * says (empty for an empty table), and each chunk's bytes sit at
   * [offset, offset + length), the span its table entry describes.
   */
  lemma IndexStream(buf: seq<byte>, resolve: Resolver)
    requires IndexChunks(buf).Ok? && ResolvesExactly(IndexChunks(buf).value, resolve)
    ensures Reassemble(IndexChunks(buf).value, resolve).Ok?
    ensures
      var cs := IndexChunks(buf).value;
      var stream := Reassemble(cs, resolve).value;
      && |stream| == (if cs == [] then 0 else StoredOffset(buf, |cs| - 1))
      && forall i :: 0 <= i < |cs| ==>
           0 <= cs[i].offset <= End(cs[i]) <= |stream| &&
           stream[cs[i].offset..End(cs[i])] == resolve(cs[i]).value
  {
    IndexChunksContiguous(buf);
    ContiguousStream(IndexChunks(buf).value, resolve);
  }
}
