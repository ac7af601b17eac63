/**
 * parse_caidx: decode the chunk index, fetch and join the chunks through the
 * store, then decode the joined stream as an archive. Reading the index file
 * from disk and the store's directory are outside the model: the index
 * arrives as bytes, the store as a resolver.
 */
module Caidx {
  import opened Bytes
  import opened Stream
  import opened Index
  import opened Catar
  import opened Reassembly

  /** The archive parse_caidx returns for index bytes `index` and chunk store `resolve`. */
  function ParseSpec(index: seq<byte>, resolve: Resolver): (r: Result<Tar>) {
    var chunks :- IndexChunks(index);
    var data :- Reassemble(chunks, resolve);
    TarAt(data)
  }

  /** Some chunk of `cs` is missing from the store. */
  ghost predicate Unresolved(cs: seq<Chunk>, resolve: Resolver) {
    exists i :: 0 <= i < |cs| && resolve(cs[i]).None?
  }

  /**
   * The three stages in order, each failing the whole parse: a malformed
   * index, a chunk the store cannot return, or a malformed archive stream.
   */
  lemma ParseStages(index: seq<byte>, resolve: Resolver)
    ensures IndexChunks(index).Err? ==> ParseSpec(index, resolve) == Err(IndexChunks(index).error)
    ensures IndexChunks(index).Ok? && Unresolved(IndexChunks(index).value, resolve) ==>
      ParseSpec(index, resolve) == Err(ChunkUnavailable)
    ensures IndexChunks(index).Ok? && Reassemble(IndexChunks(index).value, resolve).Ok? ==>
      ParseSpec(index, resolve) == TarAt(Reassemble(IndexChunks(index).value, resolve).value)
  {
  }

  /**
   * When the index decodes and the store returns every chunk, whatever its
   * length, the archive is decoded from the chunks' bytes joined in table
   * order: as long as everything returned, each chunk's bytes right after
   * those of the chunks before it.
   */
  lemma ParseFromStore(index: seq<byte>, resolve: Resolver)
    requires IndexChunks(index).Ok? && Resolves(IndexChunks(index).value, resolve)
    ensures
      var cs := IndexChunks(index).value;
      exists stream: seq<byte> :: ParseSpec(index, resolve) == TarAt(stream) && JoinedFrom(stream, cs, resolve)
  {
    var cs := IndexChunks(index).value;
    StreamLayout(cs, resolve);
    var stream := Reassemble(cs, resolve).value;
    assert ParseSpec(index, resolve) == TarAt(stream);
  }

  /**
   * When the store returns every chunk at its stated length, the archive is
   * decoded from a stream exactly as long as the index's last stored offset,
   * holding each chunk's bytes at the span its table entry gives.
   */
  lemma ParseFromExactStore(index: seq<byte>, resolve: Resolver)
    requires IndexChunks(index).Ok? && ResolvesExactly(IndexChunks(index).value, resolve)
    ensures
      var cs := IndexChunks(index).value;
      exists stream: seq<byte> ::
        && ParseSpec(index, resolve) == TarAt(stream)
        && |stream| == (if cs == [] then 0 else StoredOffset(index, |cs| - 1))
        && forall i :: 0 <= i < |cs| ==>
             0 <= cs[i].offset <= End(cs[i]) <= |stream| &&
             stream[cs[i].offset..End(cs[i])] == resolve(cs[i]).value
  {
    IndexStream(index, resolve);
    var stream := Reassemble(IndexChunks(index).value, resolve).value;
    assert ParseSpec(index, resolve) == TarAt(stream);
  }

  /** parse_caidx: the index decoder, the join, then the archive decoder. */
  method ParseCaidx(index: seq<byte>, resolve: Resolver) returns (r: Result<Tar>)
    ensures r == ParseSpec(index, resolve)
  {
    var chunks := DecodeIndex(index);
    if chunks.Err? {
      return Err(chunks.error);
    }
    var data := Reassemble(chunks.value, resolve);
    if data.Err? {
      return Err(data.error);
    }
    r := DecodeArchive(data.value);
  }
}
