/**
 * The archive stream (`.catar`) reassembled from the chunks: one top-level
 * entry, then file records — filename, entry, payload header, data — until
 * a header in the filename position carries the goodbye magic.
 */
module Catar {
  import opened Bytes
  import opened Stream
  import opened Header

  /** A filename record: its header and the raw name bytes (UTF-8 decoding is not modelled). */
  datatype Filename = Filename(header: Header, name: seq<byte>)

  /** An entry record; `header` is None when the goodbye magic stood in its place. */
  datatype Entry = Entry(
    header: Option<Header>,
    featureFlags: u64,
    mode: u64,
    flags: u64,
    uid: u64,
    gid: u64,
    mtime: u64)

  /** CAArchive: the entry opening the stream. */
  datatype Archive = Archive(entry: Entry)

  datatype File = File(filename: Filename, data: seq<byte>)

  datatype Tar = Tar(archive: Archive, files: seq<File>)

  /** The first position in [lo, hi) holding a zero byte, or `hi` when there is none. */
  function ZeroFrom(buf: seq<byte>, lo: nat, hi: nat): (k: nat)
    requires lo <= hi <= |buf|
    ensures lo <= k <= hi
    decreases hi - lo
  {
    if lo == hi || buf[lo] == 0 then lo else ZeroFrom(buf, lo + 1, hi)
  }

  lemma {:induction false} ZeroFromIsFirst(buf: seq<byte>, lo: nat, hi: nat)
    requires lo <= hi <= |buf|
    ensures ZeroFrom(buf, lo, hi) < hi ==> buf[ZeroFrom(buf, lo, hi)] == 0
    ensures forall j :: lo <= j < ZeroFrom(buf, lo, hi) ==> buf[j] != 0
    decreases hi - lo
  {
    if lo < hi && buf[lo] != 0 {
      ZeroFromIsFirst(buf, lo + 1, hi);
    }
  }

  /** Where the filename loop starting at `pos` stops looking: 256 bytes on, or the end of the buffer. */
  function NameLimit(buf: seq<byte>, pos: nat): (hi: nat)
    requires pos <= |buf|
    ensures pos <= hi <= |buf| && hi - pos <= CA_MAX_FILENAME_SIZE
  {
    Min(pos + CA_MAX_FILENAME_SIZE, |buf|)
  }

  /** How many bytes a name read from the stream took: its terminator too, unless it hit the 256-byte cap. */
  function NameSpan(name: seq<byte>): (n: nat) {
    if |name| < CA_MAX_FILENAME_SIZE then |name| + 1 else |name|
  }

  /**
   * The bytes the filename loop collects from `pos`: up to the first zero
   * byte, which is consumed but not kept, or the first 256 bytes when none
   * of them is zero, with no terminator consumed. When the buffer ends
   * before either happens the source loop never terminates; that is the
   * error UnterminatedName. The name never depends on the header's size.
   */
  function NameAt(buf: seq<byte>, pos: nat): (r: Result<(seq<byte>, nat)>)
    requires pos <= |buf|
    ensures r.Err? ==> r.error == UnterminatedName && |buf| - pos < CA_MAX_FILENAME_SIZE
    ensures r.Ok? ==>
      var (name, next) := r.value;
      && |name| <= CA_MAX_FILENAME_SIZE
      && next == pos + NameSpan(name) <= |buf|
      && name == buf[pos..pos + |name|]
  {
    var hi := NameLimit(buf, pos);
    var z := ZeroFrom(buf, pos, hi);
    if z < hi then Ok((buf[pos..z], z + 1))
    else if hi - pos == CA_MAX_FILENAME_SIZE then Ok((buf[pos..hi], hi))
    else Err(UnterminatedName)
  }

  /**
   * The name read from `pos` holds no zero byte, and is followed by the
   * zero byte that ended it unless it is 256 bytes long; the read fails
   * exactly when the buffer ends, less than 256 bytes on, without a zero.
   */
  lemma NameAtTerminated(buf: seq<byte>, pos: nat)
    requires pos <= |buf|
    ensures NameAt(buf, pos).Err? <==>
      |buf| - pos < CA_MAX_FILENAME_SIZE && forall j :: pos <= j < |buf| ==> buf[j] != 0
    ensures NameAt(buf, pos).Ok? ==>
      var name := NameAt(buf, pos).value.0;
      && (forall j :: 0 <= j < |name| ==> name[j] != 0)
      && (|name| < CA_MAX_FILENAME_SIZE ==> buf[pos + |name|] == 0)
  {
    ZeroFromIsFirst(buf, pos, NameLimit(buf, pos));
  }

  /**
   * The byte loop of CAFilename.from_buffer: read one byte at a time until
   * a zero byte or until 256 bytes are collected.
   */
  method ReadName(buf: seq<byte>, pos: nat) returns (r: Result<(seq<byte>, nat)>)
    requires pos <= |buf|
    ensures r == NameAt(buf, pos)
  {
    var name: seq<byte> := [];
    var p := pos;
    ghost var hi := NameLimit(buf, pos);
    while |name| < CA_MAX_FILENAME_SIZE
      invariant p == pos + |name| <= hi
      invariant name == buf[pos..p]
      invariant ZeroFrom(buf, pos, hi) == ZeroFrom(buf, p, hi)
      decreases CA_MAX_FILENAME_SIZE - |name|
    {
      if p == |buf| {
        // `read(1)` returns b"" from here on, which is not b"\x00" and appends
        // nothing: the source loop does not terminate in this case
        return Err(UnterminatedName);
      }
      var c := buf[p];
      p := p + 1;
      if c == 0 {
        return Ok((name, p));
      }
      name := name + [c];
    }
    return Ok((name, p));
  }

  /** CAFilename.from_buffer: a filename header (None on goodbye), then the name bytes. */
  function FilenameAt(buf: seq<byte>, pos: nat): (r: Result<(Option<Filename>, nat)>)
    requires pos <= |buf|
    ensures r.Ok? ==> pos + 16 <= r.value.1 <= |buf|
    ensures r.Ok? && r.value.0.Some? ==> pos + 17 <= r.value.1
    ensures r.Ok? && r.value.0.None? ==> r.value.1 == pos + 16
  {
    var h :- ReadHeader(buf, pos, CA_FORMAT_FILENAME);
    if h.0.None? then Ok((None, h.1))
    else
      var n :- NameAt(buf, h.1);
      Ok((Some(Filename(h.0.value, n.0)), n.1))
  }

  /** The first zero byte in [lo, hi) is found from those bytes alone. */
  lemma {:induction false} ZeroFromAgree(buf: seq<byte>, other: seq<byte>, lo: nat, hi: nat)
    requires lo <= hi <= |buf| && hi <= |other|
    requires forall i :: lo <= i < hi ==> buf[i] == other[i]
    ensures ZeroFrom(buf, lo, hi) == ZeroFrom(other, lo, hi)
    decreases hi - lo
  {
    if lo < hi {
      ZeroFromAgree(buf, other, lo + 1, hi);
    }
  }

  /**
   * The filename read at `pos` depends only on the header's magic and the
   * bytes after the header, never on the header's size field: two buffers
   * that differ only there read the same name and stop at the same place.
   */
  lemma FilenameIgnoresSize(buf: seq<byte>, other: seq<byte>, pos: nat)
    requires pos <= |buf| && |buf| == |other|
    requires forall i :: pos + 8 <= i < |buf| ==> buf[i] == other[i]
    ensures FilenameAt(buf, pos).Ok? <==> FilenameAt(other, pos).Ok?
    ensures FilenameAt(buf, pos).Ok? ==>
      var (mine, theirs) := (FilenameAt(buf, pos).value, FilenameAt(other, pos).value);
      && mine.1 == theirs.1
      && mine.0.Some? == theirs.0.Some?
      && (mine.0.Some? ==> mine.0.value.name == theirs.0.value.name)
  {
    if |buf| - pos >= 16 {
      assert buf[pos + 8..pos + 16] == other[pos + 8..pos + 16];
      U64AtAgree(buf, other, pos + 8);
      var start := pos + 16;
      var hi := NameLimit(buf, start);
      ZeroFromAgree(buf, other, start, hi);
      assert buf[start..hi] == other[start..hi];
      var z := ZeroFrom(buf, start, hi);
      assert buf[start..z] == other[start..z];
      assert NameAt(buf, start) == NameAt(other, start);
    }
  }

  /**
   * CAEntry.from_buffer: an entry header (None on goodbye, the metadata is
   * read all the same), then six little-endian u64 metadata fields.
   */
  function EntryAt(buf: seq<byte>, pos: nat): (r: Result<(Entry, nat)>)
    requires pos <= |buf|
    ensures r.Ok? <==>
      pos + 64 <= |buf| && (MagicAt(buf, pos) == CA_FORMAT_ENTRY || MagicAt(buf, pos) == CA_FORMAT_GOODBYE)
    ensures r.Err? ==>
      r.error == (if pos + 16 <= |buf| && MagicAt(buf, pos) != CA_FORMAT_ENTRY && MagicAt(buf, pos) != CA_FORMAT_GOODBYE
                   then UnexpectedMagic(CA_FORMAT_ENTRY, MagicAt(buf, pos))
                   else Truncated)
    ensures r.Ok? ==>
      && r.value.1 == pos + 64
      && (r.value.0.header.None? <==> MagicAt(buf, pos) == CA_FORMAT_GOODBYE)
  {
    var h :- ReadHeader(buf, pos, CA_FORMAT_ENTRY);
    var next :- ReadExact(buf, h.1, 48);
    var f := h.1;
    Ok((Entry(h.0, U64At(buf, f), U64At(buf, f + 8), U64At(buf, f + 16),
              U64At(buf, f + 24), U64At(buf, f + 32), U64At(buf, f + 40)), next))
  }

  /** CAArchive.from_buffer. */
  function ArchiveAt(buf: seq<byte>, pos: nat): (r: Result<(Archive, nat)>)
    requires pos <= |buf|
    ensures r.Ok? <==>
      pos + 64 <= |buf| && (MagicAt(buf, pos) == CA_FORMAT_ENTRY || MagicAt(buf, pos) == CA_FORMAT_GOODBYE)
    ensures r.Err? ==>
      r.error == (if pos + 16 <= |buf| && MagicAt(buf, pos) != CA_FORMAT_ENTRY && MagicAt(buf, pos) != CA_FORMAT_GOODBYE
                   then UnexpectedMagic(CA_FORMAT_ENTRY, MagicAt(buf, pos))
                   else Truncated)
    ensures r.Ok? ==>
      && r.value.1 == pos + 64
      && r.value.0.entry == EntryAt(buf, pos).value.0
      && (r.value.0.entry.header.None? <==> MagicAt(buf, pos) == CA_FORMAT_GOODBYE)
  {
    var e :- EntryAt(buf, pos);
    Ok((Archive(e.0), e.1))
  }

  /**
   * CAFile.from_bytes: None when the filename position holds the goodbye
   * magic; otherwise filename, entry (read and dropped), payload header,
   * and `size - 16` data bytes read without a length check (all the rest
   * when that count is negative, `Overflow` when it exceeds PY_SSIZE_T_MAX).
   * A goodbye magic in the payload position is the source's crash on `None.size`.
   */
  function FileAt(buf: seq<byte>, pos: nat): (r: Result<(Option<File>, nat)>)
    requires pos <= |buf|
    ensures r.Ok? ==> pos + 16 <= r.value.1 <= |buf|
    ensures r.Ok? && r.value.0.Some? ==> pos + 97 <= r.value.1
  {
    var fname :- FilenameAt(buf, pos);
    if fname.0.None? then Ok((None, fname.1))
    else
      var entry :- ArchiveAt(buf, fname.1);
      var payload :- ReadHeader(buf, entry.1, CA_FORMAT_PAYLOAD);
      if payload.0.None? then Err(MissingPayload)
      else
        var data :- ReadSome(buf, payload.1, payload.0.value.size - 16);
        Ok((Some(File(fname.0.value, data.0)), data.1))
  }

  /**
   * A file record read comes back None exactly when a goodbye header stands
   * at `pos`, and then consumes just that header; fewer than 16 bytes left
   * is the short header read failing.
   */
  lemma FileAtGoodbye(buf: seq<byte>, pos: nat)
    requires pos <= |buf|
    ensures |buf| - pos < 16 ==> FileAt(buf, pos) == Err(Truncated)
    ensures (FileAt(buf, pos).Ok? && FileAt(buf, pos).value.0.None?) <==>
      pos + 16 <= |buf| && MagicAt(buf, pos) == CA_FORMAT_GOODBYE
    ensures FileAt(buf, pos).Ok? && FileAt(buf, pos).value.0.None? ==> FileAt(buf, pos).value.1 == pos + 16
  {
    var h := ReadHeader(buf, pos, CA_FORMAT_FILENAME);
    if h.Ok? && h.value.0.Some? {
      assert FilenameAt(buf, pos).Ok? ==> FilenameAt(buf, pos).value.0.Some?;
    }
  }

  /** The filename part of a record: header magic, name bytes, and where the entry header starts. */
  lemma FilenameLayout(buf: seq<byte>, pos: nat)
    requires pos <= |buf| && FilenameAt(buf, pos).Ok? && FilenameAt(buf, pos).value.0.Some?
    ensures
      var (fname, next) := FilenameAt(buf, pos).value;
      && pos + 16 <= |buf|
      && MagicAt(buf, pos) == CA_FORMAT_FILENAME
      && fname.value.header == Header(SizeAt(buf, pos), CA_FORMAT_FILENAME)
      && next == pos + 16 + NameSpan(fname.value.name) <= |buf|
      && NameAt(buf, pos + 16).Ok? && fname.value.name == NameAt(buf, pos + 16).value.0
      && fname.value.name == buf[pos + 16..pos + 16 + |fname.value.name|]
  {
  }

  /**
   * The payload part of a record: a payload header, then `size - 16` data
   * bytes read short at the end of the buffer; a count above PY_SSIZE_T_MAX
   * is `Overflow`.
   */
  lemma PayloadLayout(buf: seq<byte>, at: nat)
    requires at <= |buf|
    requires ReadHeader(buf, at, CA_FORMAT_PAYLOAD).Ok? && ReadHeader(buf, at, CA_FORMAT_PAYLOAD).value.0.Some?
    ensures at + 16 <= |buf| && MagicAt(buf, at) == CA_FORMAT_PAYLOAD
    ensures
      var size := SizeAt(buf, at) - 16;
      var d := ReadSome(buf, at + 16, ReadHeader(buf, at, CA_FORMAT_PAYLOAD).value.0.value.size - 16);
      && (d.Ok? <==> size <= PY_SSIZE_T_MAX)
      && (d.Err? ==> d.error == Overflow)
      && (d.Ok? ==>
            && d.value.0 == buf[at + 16..d.value.1]
            && d.value.1 == (if size < 0 || |buf| - (at + 16) < size then |buf| else at + 16 + size))
  {
  }

  /**
   * The byte layout of one decoded file record: filename header and name,
   * entry header and 48 metadata bytes, payload header, then the data,
   * stored verbatim and `size - 16` bytes long unless the buffer ends first
   * or the count is negative.
   */
  lemma FileRecordLayout(buf: seq<byte>, pos: nat)
    requires pos <= |buf| && FileAt(buf, pos).Ok? && FileAt(buf, pos).value.0.Some?
    ensures
      var (file, next) := (FileAt(buf, pos).value.0.value, FileAt(buf, pos).value.1);
      var name := file.filename.name;
      var entryAt := pos + 16 + NameSpan(name);
      var payloadAt := entryAt + 64;
      var size := SizeAt(buf, payloadAt) - 16;
      && MagicAt(buf, pos) == CA_FORMAT_FILENAME
      && name == buf[pos + 16..pos + 16 + |name|]
      && payloadAt + 16 <= next <= |buf|
      && (MagicAt(buf, entryAt) == CA_FORMAT_ENTRY || MagicAt(buf, entryAt) == CA_FORMAT_GOODBYE)
      && MagicAt(buf, payloadAt) == CA_FORMAT_PAYLOAD
      && size <= PY_SSIZE_T_MAX
      && file.data == buf[payloadAt + 16..next]
      && next == (if size < 0 || |buf| - (payloadAt + 16) < size then |buf| else payloadAt + 16 + size)
  {
    var fname := FilenameAt(buf, pos);
    FilenameLayout(buf, pos);
    var entryAt := fname.value.1;
    var e := ArchiveAt(buf, entryAt);
    assert e.Ok? && e.value.1 == entryAt + 64;
    var payloadAt := entryAt + 64;
    var p := ReadHeader(buf, payloadAt, CA_FORMAT_PAYLOAD);
    assert p.Ok? && p.value.0.Some?;
    PayloadLayout(buf, payloadAt);
    var d := ReadSome(buf, payloadAt + 16, p.value.0.value.size - 16);
    assert d.Ok?;
    assert FileAt(buf, pos).value == (Some(File(fname.value.0.value, d.value.0)), d.value.1);
  }

  /**
   * The filename part of a record read failing: a wrong magic is the
   * header assertion, and a name running off the buffer is UnterminatedName.
   */
  lemma FileAtFilenameErrors(buf: seq<byte>, pos: nat)
    requires pos + 16 <= |buf|
    ensures MagicAt(buf, pos) != CA_FORMAT_FILENAME && MagicAt(buf, pos) != CA_FORMAT_GOODBYE ==>
      FileAt(buf, pos) == Err(UnexpectedMagic(CA_FORMAT_FILENAME, MagicAt(buf, pos)))
    ensures MagicAt(buf, pos) == CA_FORMAT_FILENAME && NameAt(buf, pos + 16).Err? ==>
      FileAt(buf, pos) == Err(UnterminatedName)
  {
  }

  /**
   * The entry part failing, once a filename has been read: a short header,
   * a magic that is neither ENTRY nor goodbye, or fewer than 48 metadata bytes.
   */
  lemma FileAtEntryErrors(buf: seq<byte>, pos: nat)
    requires pos <= |buf| && FilenameAt(buf, pos).Ok? && FilenameAt(buf, pos).value.0.Some?
    ensures
      var e := FilenameAt(buf, pos).value.1;
      && (|buf| - e < 16 ==> FileAt(buf, pos) == Err(Truncated))
      && (e + 16 <= |buf| && MagicAt(buf, e) != CA_FORMAT_ENTRY && MagicAt(buf, e) != CA_FORMAT_GOODBYE ==>
            FileAt(buf, pos) == Err(UnexpectedMagic(CA_FORMAT_ENTRY, MagicAt(buf, e))))
      && (e + 16 <= |buf| < e + 64 && (MagicAt(buf, e) == CA_FORMAT_ENTRY || MagicAt(buf, e) == CA_FORMAT_GOODBYE) ==>
            FileAt(buf, pos) == Err(Truncated))
  {
  }

  /**
   * The payload part failing, once filename and entry have been read: a
   * short header, a goodbye header where the payload header belongs (the
   * source then fails reading `size` of None), any other wrong magic, or a
   * data count `size - 16` beyond PY_SSIZE_T_MAX.
   */
  lemma FileAtPayloadErrors(buf: seq<byte>, pos: nat)
    requires pos <= |buf| && FilenameAt(buf, pos).Ok? && FilenameAt(buf, pos).value.0.Some?
    requires ArchiveAt(buf, FilenameAt(buf, pos).value.1).Ok?
    ensures
      var p := FilenameAt(buf, pos).value.1 + 64;
      && (|buf| - p < 16 ==> FileAt(buf, pos) == Err(Truncated))
      && (p + 16 <= |buf| && MagicAt(buf, p) == CA_FORMAT_GOODBYE ==> FileAt(buf, pos) == Err(MissingPayload))
      && (p + 16 <= |buf| && MagicAt(buf, p) != CA_FORMAT_PAYLOAD && MagicAt(buf, p) != CA_FORMAT_GOODBYE ==>
            FileAt(buf, pos) == Err(UnexpectedMagic(CA_FORMAT_PAYLOAD, MagicAt(buf, p))))
      && (p + 16 <= |buf| && MagicAt(buf, p) == CA_FORMAT_PAYLOAD && SizeAt(buf, p) - 16 > PY_SSIZE_T_MAX ==>
            FileAt(buf, pos) == Err(Overflow))
  {
  }

  /** Every way a record read fails is one of those above. */
  lemma FileAtErrorKinds(buf: seq<byte>, pos: nat)
    requires pos <= |buf| && FileAt(buf, pos).Err?
    ensures
      var e := FileAt(buf, pos).error;
      || e == Truncated || e == UnterminatedName || e == MissingPayload || e == Overflow
      || (e.UnexpectedMagic? &&
          (e.expected == CA_FORMAT_FILENAME || e.expected == CA_FORMAT_ENTRY || e.expected == CA_FORMAT_PAYLOAD))
  {
  }

  /**
   * The converse of FileRecordLayout: a FILENAME header with a name, an
   * ENTRY (or goodbye) header with its 48 bytes, and a PAYLOAD header whose
   * data count fits a `Py_ssize_t`, laid out in that order, are read as a
   * file with that name.
   */
  lemma FileAtLaidOut(buf: seq<byte>, pos: nat)
    requires pos + 16 <= |buf| && MagicAt(buf, pos) == CA_FORMAT_FILENAME && NameAt(buf, pos + 16).Ok?
    requires
      var e := NameAt(buf, pos + 16).value.1;
      && e + 80 <= |buf|
      && (MagicAt(buf, e) == CA_FORMAT_ENTRY || MagicAt(buf, e) == CA_FORMAT_GOODBYE)
      && MagicAt(buf, e + 64) == CA_FORMAT_PAYLOAD
      && SizeAt(buf, e + 64) - 16 <= PY_SSIZE_T_MAX
    ensures FileAt(buf, pos).Ok? && FileAt(buf, pos).value.0.Some?
    ensures FileAt(buf, pos).value.0.value.filename ==
      Filename(Header(SizeAt(buf, pos), CA_FORMAT_FILENAME), NameAt(buf, pos + 16).value.0)
  {
  }

  /** Prepends `files` to a successful result. */
  function Prefixed(files: seq<File>, r: Result<(seq<File>, nat)>): (joined: Result<(seq<File>, nat)>) {
    if r.Err? then r else Ok((files + r.value.0, r.value.1))
  }

  /** Prepending record by record is prepending them all at once. */
  lemma PrefixedAppend(files: seq<File>, f: File, r: Result<(seq<File>, nat)>)
    ensures Prefixed(files, Prefixed([f], r)) == Prefixed(files + [f], r)
  {
    if r.Ok? {
      assert files + ([f] + r.value.0) == files + [f] + r.value.0;
    }
  }

  /** A reader of one file record at a position: the record, or None for the goodbye header, and where it ends. */
  type RecordStep = nat -> Result<(Option<File>, nat)>

  /**
   * What the file loop relies on in its step, up to the end `limit` of the
   * buffer: a record takes at least 97 bytes, the goodbye header exactly 16.
   */
  ghost predicate Advances(step: RecordStep, limit: nat) {
    forall p: nat :: p <= limit && step(p).Ok? ==>
      && step(p).value.1 <= limit
      && if step(p).value.0.Some? then p + 97 <= step(p).value.1 else step(p).value.1 == p + 16
  }

  /**
   * The loop of CATar.from_bytes over any step: records from `pos` on, in
   * the order read, until the step reads None; any error ends it.
   */
  function Records(step: RecordStep, limit: nat, pos: nat): (r: Result<(seq<File>, nat)>)
    requires pos <= limit && Advances(step, limit)
    decreases limit - pos
  {
    var s :- step(pos);
    if s.0.None? then Ok(([], s.1))
    else
      var rest :- Records(step, limit, s.1);
      Ok(([s.0.value] + rest.0, rest.1))
  }

  /** One turn of the loop: the step's record comes first, then the records after it. */
  lemma RecordsStep(step: RecordStep, limit: nat, pos: nat)
    requires pos <= limit && Advances(step, limit)
    ensures step(pos).Err? ==> Records(step, limit, pos) == Err(step(pos).error)
    ensures step(pos).Ok? && step(pos).value.0.None? ==> Records(step, limit, pos) == Ok(([], step(pos).value.1))
    ensures step(pos).Ok? && step(pos).value.0.Some? ==>
      Records(step, limit, pos) == Prefixed([step(pos).value.0.value], Records(step, limit, step(pos).value.1))
  {
  }

  /**
   * The loop succeeds only by reading None: it ends right where that read
   * ends, and every record before it took at least 97 bytes.
   */
  lemma {:induction false} RecordsEndAtNone(step: RecordStep, limit: nat, pos: nat)
    requires pos <= limit && Advances(step, limit)
    ensures Records(step, limit, pos).Ok? ==>
      var (files, end) := Records(step, limit, pos).value;
      && pos + 97 * |files| + 16 <= end <= limit
      && step(end - 16) == Ok((None, end))
    decreases limit - pos
  {
    RecordsStep(step, limit, pos);
    if step(pos).Ok? && step(pos).value.0.Some? {
      RecordsEndAtNone(step, limit, step(pos).value.1);
    }
  }

  /**
   * `files` and `end` as a run of reads: starting at `ps[0]`, read `i` takes
   * record `files[i]` from `ps[i]` to `ps[i + 1]`, and a last read at the
   * final position returns None and ends at `end`.
   */
  ghost predicate Chain(step: RecordStep, ps: seq<nat>, files: seq<File>, end: nat) {
    && |ps| == |files| + 1
    && (forall i :: 0 <= i < |files| ==> step(ps[i]) == Ok((Some(files[i]), ps[i + 1])))
    && step(ps[|files|]) == Ok((None, end))
  }

  /** A chain preceded by one more record read is a chain. */
  lemma ChainCons(step: RecordStep, p: nat, f: File, ps: seq<nat>, files: seq<File>, end: nat)
    requires |ps| > 0 && step(p) == Ok((Some(f), ps[0])) && Chain(step, ps, files, end)
    ensures Chain(step, [p] + ps, [f] + files, end)
  {
    var qs := [p] + ps;
    forall i | 0 <= i < |files| + 1
      ensures step(qs[i]) == Ok((Some(([f] + files)[i]), qs[i + 1]))
    {
      if i > 0 {
        assert qs[i] == ps[i - 1] && qs[i + 1] == ps[i] && ([f] + files)[i] == files[i - 1];
      }
    }
  }

  /** A successful loop is a chain of reads from `pos`, one per record, then the None read. */
  lemma {:induction false} RecordsChain(step: RecordStep, limit: nat, pos: nat) returns (ps: seq<nat>)
    requires pos <= limit && Advances(step, limit) && Records(step, limit, pos).Ok?
    ensures |ps| > 0 && ps[0] == pos
    ensures Chain(step, ps, Records(step, limit, pos).value.0, Records(step, limit, pos).value.1)
    decreases limit - pos
  {
    RecordsStep(step, limit, pos);
    if step(pos).value.0.None? {
      ps := [pos];
    } else {
      var next := step(pos).value.1;
      var rest := RecordsChain(step, limit, next);
      ChainCons(step, pos, step(pos).value.0.value, rest, Records(step, limit, next).value.0,
                Records(step, limit, next).value.1);
      ps := [pos] + rest;
    }
  }

  /** Conversely, any chain of reads from `pos` is what the loop returns. */
  lemma {:induction false} ChainRecords(step: RecordStep, limit: nat, ps: seq<nat>, files: seq<File>, end: nat)
    requires |ps| > 0 && ps[0] <= limit && Advances(step, limit) && Chain(step, ps, files, end)
    ensures Records(step, limit, ps[0]) == Ok((files, end))
    decreases |files|
  {
    RecordsStep(step, limit, ps[0]);
    if files != [] {
      assert step(ps[0]) == Ok((Some(files[0]), ps[1]));
      var tail := ps[1..];
      forall i | 0 <= i < |files| - 1
        ensures step(tail[i]) == Ok((Some(files[1..][i]), tail[i + 1]))
      {
        assert step(ps[i + 1]) == Ok((Some(files[i + 1]), ps[i + 2]));
      }
      assert Chain(step, tail, files[1..], end);
      ChainRecords(step, limit, tail, files[1..], end);
      assert [files[0]] + files[1..] == files;
    }
  }

  /** CAFile.from_bytes as a loop step over `buf`; there is nothing to read past its end. */
  function FileStep(buf: seq<byte>): (step: RecordStep) {
    (p: nat) => if p <= |buf| then FileAt(buf, p) else Err(Truncated)
  }

  lemma FileStepAdvances(buf: seq<byte>)
    ensures Advances(FileStep(buf), |buf|)
  {
    forall p: nat | p <= |buf| && FileStep(buf)(p).Ok?
      ensures FileStep(buf)(p).value.0.None? ==> FileStep(buf)(p).value.1 == p + 16
    {
      FileAtGoodbye(buf, p);
    }
  }

  /** The file records from `pos` on, in stream order, and the position just past the goodbye header ending them. */
  function FilesFrom(buf: seq<byte>, pos: nat): (r: Result<(seq<File>, nat)>)
    requires pos <= |buf|
  {
    FileStepAdvances(buf);
    Records(FileStep(buf), |buf|, pos)
  }

  /** One turn of the file loop: FilesFrom is FileAt followed by the rest. */
  lemma FilesFromStep(buf: seq<byte>, pos: nat)
    requires pos <= |buf|
    ensures FileAt(buf, pos).Err? ==> FilesFrom(buf, pos) == Err(FileAt(buf, pos).error)
    ensures FileAt(buf, pos).Ok? && FileAt(buf, pos).value.0.None? ==>
      FilesFrom(buf, pos) == Ok(([], FileAt(buf, pos).value.1))
    ensures FileAt(buf, pos).Ok? && FileAt(buf, pos).value.0.Some? ==>
      FilesFrom(buf, pos) == Prefixed([FileAt(buf, pos).value.0.value], FilesFrom(buf, FileAt(buf, pos).value.1))
  {
    FileStepAdvances(buf);
    RecordsStep(FileStep(buf), |buf|, pos);
    assert FileStep(buf)(pos) == FileAt(buf, pos);
  }

  /** With fewer than 16 bytes left, decoding the file records fails on the short header read. */
  lemma FilesTruncated(buf: seq<byte>, pos: nat)
    requires pos <= |buf| && |buf| - pos < 16
    ensures FilesFrom(buf, pos) == Err(Truncated)
  {
    FilesFromStep(buf, pos);
    FileAtGoodbye(buf, pos);
  }

  /**
   * Decoding the file records from `pos` on: every record takes at least 97
   * bytes and the closing goodbye header 16 more.
   */
  lemma FilesBound(buf: seq<byte>, pos: nat)
    requires pos <= |buf|
    ensures FilesFrom(buf, pos).Ok? ==>
      pos + 97 * |FilesFrom(buf, pos).value.0| + 16 <= FilesFrom(buf, pos).value.1 <= |buf|
  {
    FileStepAdvances(buf);
    RecordsEndAtNone(FileStep(buf), |buf|, pos);
  }

  lemma FileStepIsFileAt(buf: seq<byte>, p: nat)
    requires p <= |buf|
    ensures FileStep(buf)(p) == FileAt(buf, p)
  {
  }

  /**
   * `files` and `end` as record reads through `buf`: read `i` takes
   * `files[i]` from `ps[i]` to `ps[i + 1]`, and the read at the final
   * position is the goodbye header ending at `end`.
   */
  ghost predicate FileChain(buf: seq<byte>, ps: seq<nat>, files: seq<File>, end: nat) {
    && |ps| == |files| + 1
    && (forall i :: 0 <= i < |ps| ==> ps[i] <= |buf|)
    && (forall i :: 0 <= i < |files| ==> FileAt(buf, ps[i]) == Ok((Some(files[i]), ps[i + 1])))
    && FileAt(buf, ps[|files|]) == Ok((None, end))
  }

  /** A chain of FileStep reads is a chain of FileAt reads within the buffer, and back. */
  lemma FileChainIsChain(buf: seq<byte>, ps: seq<nat>, files: seq<File>, end: nat)
    ensures Chain(FileStep(buf), ps, files, end) <==> FileChain(buf, ps, files, end)
  {
    var step := FileStep(buf);
    if Chain(step, ps, files, end) {
      forall i | 0 <= i < |ps|
        ensures ps[i] <= |buf| && step(ps[i]) == FileAt(buf, ps[i])
      {
        if i < |files| {
          assert step(ps[i]) == Ok((Some(files[i]), ps[i + 1]));
        }
        FileStepIsFileAt(buf, ps[i]);
      }
      forall i | 0 <= i < |files|
        ensures FileAt(buf, ps[i]) == Ok((Some(files[i]), ps[i + 1]))
      {
        assert step(ps[i]) == Ok((Some(files[i]), ps[i + 1]));
      }
    }
    if FileChain(buf, ps, files, end) {
      forall i | 0 <= i < |files|
        ensures step(ps[i]) == Ok((Some(files[i]), ps[i + 1]))
      {
        FileStepIsFileAt(buf, ps[i]);
      }
      FileStepIsFileAt(buf, ps[|files|]);
    }
  }

  /**
   * Decoding the file records from `pos` yields `files` ending at `end`
   * exactly when the records can be read one after another from `pos`,
   * each from where the previous ended, with the goodbye header last:
   * none dropped, none reordered, none read twice.
   */
  lemma FilesAsChain(buf: seq<byte>, pos: nat, files: seq<File>, end: nat)
    requires pos <= |buf|
    ensures FilesFrom(buf, pos) == Ok((files, end)) <==>
      exists ps: seq<nat> :: |ps| > 0 && ps[0] == pos && FileChain(buf, ps, files, end)
  {
    FileStepAdvances(buf);
    if FilesFrom(buf, pos) == Ok((files, end)) {
      var ps := RecordsChain(FileStep(buf), |buf|, pos);
      FileChainIsChain(buf, ps, files, end);
    }
    if exists ps: seq<nat> :: |ps| > 0 && ps[0] == pos && FileChain(buf, ps, files, end) {
      var ps: seq<nat> :| |ps| > 0 && ps[0] == pos && FileChain(buf, ps, files, end);
      FileChainIsChain(buf, ps, files, end);
      ChainRecords(FileStep(buf), |buf|, ps, files, end);
    }
  }

  /** Decoding the file records succeeds only by reading the goodbye header, and ends right after it. */
  lemma FilesEndAtGoodbye(buf: seq<byte>, pos: nat)
    requires pos <= |buf| && FilesFrom(buf, pos).Ok?
    ensures 16 <= FilesFrom(buf, pos).value.1 <= |buf|
    ensures FileAt(buf, FilesFrom(buf, pos).value.1 - 16) == Ok((None, FilesFrom(buf, pos).value.1))
  {
    FileStepAdvances(buf);
    RecordsEndAtNone(FileStep(buf), |buf|, pos);
    FileStepIsFileAt(buf, FilesFrom(buf, pos).value.1 - 16);
  }

  /** ... and so the 16 bytes just before where decoding stops are a header carrying the goodbye magic. */
  lemma FilesEndMagic(buf: seq<byte>, pos: nat)
    requires pos <= |buf| && FilesFrom(buf, pos).Ok?
    ensures 16 <= FilesFrom(buf, pos).value.1 <= |buf|
    ensures MagicAt(buf, FilesFrom(buf, pos).value.1 - 16) == CA_FORMAT_GOODBYE
  {
    FilesEndAtGoodbye(buf, pos);
    FileAtGoodbye(buf, FilesFrom(buf, pos).value.1 - 16);
  }

  /** CATar.from_bytes as a value: the top-level entry, then the file records. */
  function TarAt(buf: seq<byte>): (r: Result<Tar>)
  {
    var archive :- ArchiveAt(buf, 0);
    var files :- FilesFrom(buf, archive.1);
    Ok(Tar(archive.0, files.0))
  }

  lemma TarAtIs(buf: seq<byte>)
    ensures ArchiveAt(buf, 0).Err? ==> TarAt(buf) == Err(ArchiveAt(buf, 0).error)
    ensures ArchiveAt(buf, 0).Ok? ==>
      var (archive, start) := ArchiveAt(buf, 0).value;
      TarAt(buf) == if FilesFrom(buf, start).Err? then Err(FilesFrom(buf, start).error)
                    else Ok(Tar(archive, FilesFrom(buf, start).value.0))
  {
  }

  /**
   * An archive whose top-level entry cannot be read: a wrong magic in a
   * complete header is `UnexpectedMagic(ENTRY, found)`; a header or
   * metadata cut short is `Truncated`.
   */
  lemma TarEntryErrors(buf: seq<byte>)
    ensures 16 <= |buf| && MagicAt(buf, 0) != CA_FORMAT_ENTRY && MagicAt(buf, 0) != CA_FORMAT_GOODBYE ==>
      TarAt(buf) == Err(UnexpectedMagic(CA_FORMAT_ENTRY, MagicAt(buf, 0)))
    ensures 16 <= |buf| < 64 && (MagicAt(buf, 0) == CA_FORMAT_ENTRY || MagicAt(buf, 0) == CA_FORMAT_GOODBYE) ==>
      TarAt(buf) == Err(Truncated)
  {
  }

  /**
   * A decoded archive: an empty or short stream fails on the top-level entry
   * header; a successful one holds its entry and at most (|buf| - 80) / 97
   * file records, ending at a goodbye header.
   */
  lemma TarBounds(buf: seq<byte>)
    ensures |buf| < 16 ==> TarAt(buf) == Err(Truncated)
    ensures TarAt(buf).Ok? ==> 64 + 97 * |TarAt(buf).value.files| + 16 <= |buf|
  {
    TarAtIs(buf);
    if ArchiveAt(buf, 0).Ok? {
      FilesBound(buf, 64);
    }
  }

  /**
   * CATar.from_bytes: reads the top-level entry, then appends file records
   * until one comes back None.
   */
  method DecodeArchive(buf: seq<byte>) returns (r: Result<Tar>)
    ensures r == TarAt(buf)
  {
    var archive := ArchiveAt(buf, 0);
    TarAtIs(buf);
    if archive.Err? {
      return Err(archive.error);
    }
    var start := archive.value.1;
    var pos := start;
    var files: seq<File> := [];
    assert FilesFrom(buf, pos).Ok? ==> [] + FilesFrom(buf, pos).value.0 == FilesFrom(buf, pos).value.0;
    while true
      invariant start <= pos <= |buf|
      invariant FilesFrom(buf, start) == Prefixed(files, FilesFrom(buf, pos))
      decreases |buf| - pos
    {
      var step := FileAt(buf, pos);
      FilesFromStep(buf, pos);
      if step.Err? {
        return Err(step.error);
      }
      if step.value.0.None? {
        assert files + [] == files;
        break;
      }
      PrefixedAppend(files, step.value.0.value, FilesFrom(buf, step.value.1));
      files := files + [step.value.0.value];
      pos := step.value.1;
    }
    r := Ok(Tar(archive.value.0, files));
  }
}
