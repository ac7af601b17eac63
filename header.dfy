/**
 * The constants of the casync formats and the 16-byte structural header
 * `(size, type)` that opens every record. The source generates one header
 * class per expected magic; here one reader takes the expected magic as a
 * parameter.
 */
module Header {
  import opened Bytes
  import opened Stream

  /** Declared next to the other constants but never consulted by the decoder. */
  const CA_FORMAT_TABLE_TAIL_MARKER: u64 := 0xe75b9e112f17417
  const FLAGS: u64 := 0xb000000000000000

  const CA_HEADER_LEN: nat := 32
  const CA_TABLE_HEADER_LEN: nat := 16
  const CA_TABLE_ENTRY_LEN: nat := 40
  const CA_TABLE_MIN_LEN: nat := CA_TABLE_HEADER_LEN + CA_TABLE_ENTRY_LEN

  const CA_FORMAT_INDEX: u64 := 0x96824d9c7b129ff9
  const CA_FORMAT_TABLE: u64 := 0xe75b9e112f17417d
  const CA_FORMAT_ENTRY: u64 := 0x1396fabcea5bbb51
  const CA_FORMAT_GOODBYE: u64 := 0xdfd35c5e8327c403
  const CA_FORMAT_FILENAME: u64 := 0x6dbb6ebcb3161f0b
  const CA_FORMAT_PAYLOAD: u64 := 0x8b9e1d93d6dcffc9

  const CA_MAX_FILENAME_SIZE: nat := 256

  datatype Header = Header(size: u64, magic: u64)

  /** The `size` field of a header starting at `pos`. */
  function SizeAt(buf: seq<byte>, pos: nat): (size: u64)
    requires pos + 16 <= |buf|
  {
    U64At(buf, pos)
  }

  /** The `type` (magic) field of a header starting at `pos`. */
  function MagicAt(buf: seq<byte>, pos: nat): (magic: u64)
    requires pos + 16 <= |buf|
  {
    U64At(buf, pos + 8)
  }

  /**
   * Reads one header expecting magic `expected`. A goodbye magic yields
   * `None`, any other magic than `expected` fails, and every successful
   * read consumes exactly 16 bytes.
   */
  function ReadHeader(buf: seq<byte>, pos: nat, expected: u64): (r: Result<(Option<Header>, nat)>)
    requires pos <= |buf|
    ensures r.Ok? ==> r.value.1 == pos + 16 <= |buf|
    ensures r == Err(Truncated) <==> |buf| - pos < 16
    ensures pos + 16 <= |buf| ==>
      var magic := MagicAt(buf, pos);
      && (r.Ok? && r.value.0.None? <==> magic == CA_FORMAT_GOODBYE)
      && (r.Err? <==> magic != CA_FORMAT_GOODBYE && magic != expected)
      && (r.Err? ==> r.error == UnexpectedMagic(expected, magic))
      && (r.Ok? && r.value.0.Some? ==> r.value.0.value == Header(SizeAt(buf, pos), expected))
  {
    var next :- ReadExact(buf, pos, CA_TABLE_HEADER_LEN);
    var size := U64At(buf, pos);
    var magic := U64At(buf, pos + 8);
    if magic == CA_FORMAT_GOODBYE then Ok((None, next))
    else if magic != expected then Err(UnexpectedMagic(expected, magic))
    else Ok((Some(Header(size, magic)), next))
  }

  /** The 16 bytes of a header as the format lays them out. */
  function EncodeHeader(h: Header): (s: seq<byte>)
    ensures |s| == 16
  {
    U64Encode(h.size) + U64Encode(h.magic)
  }

  /** Reading the bytes of an encoded header gives the header, the goodbye signal or the mismatch back. */
  lemma ReadEncodedHeader(buf: seq<byte>, pos: nat, h: Header, expected: u64)
    requires pos + 16 <= |buf| && buf[pos..pos + 16] == EncodeHeader(h)
    ensures ReadHeader(buf, pos, expected) ==
      if h.magic == CA_FORMAT_GOODBYE then Ok((None, pos + 16))
      else if h.magic != expected then Err(UnexpectedMagic(expected, h.magic))
      else Ok((Some(h), pos + 16))
  {
    assert buf[pos..pos + 8] == buf[pos..pos + 16][..8] == U64Encode(h.size);
    assert buf[pos + 8..pos + 16] == buf[pos..pos + 16][8..] == U64Encode(h.magic);
    U64AtEncoded(buf, pos, h.size);
    U64AtEncoded(buf, pos + 8, h.magic);
  }
}
