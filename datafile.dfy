/** The data file and its handles: `DataFile` with its reader, writer and inner
    file, the write cursor of `DataFileWriter`, the replay loops of
    `DataFileReader::read_all` and `DataFileIterator`, and `compact`. */
module DataFiles {
  import opened Common
  import opened Bytes
  import opened Codec
  import opened Log
  import opened Compaction

  /** An open file: the bytes it holds. Handles opened on the same path before it
      is unlinked share one `LogFile`. */
  class LogFile {
    var bytes: seq<byte>

    /** A file just created (or truncated) by `File::create`. */
    constructor Empty()
      ensures bytes == []
    {
      bytes := [];
    }
  }

  /** What the operating system reports for one `write` call: the number of bytes
      it took, or an I/O error. */
  datatype WriteOutcome = Wrote(count: nat) | WriteFailed

  /** `DataFileWriter`: a handle opened in append mode, with the cursor `offset`
      and the counter `byte_written`. */
  class DataFileWriter {
    const file: LogFile
    var offset: nat
    var byteWritten: nat

    /** Both counters agree with the file's length, as they do while every write
        is complete. */
    ghost predicate Clean()
      reads this, file
    {
      offset == |file.bytes| && byteWritten == |file.bytes|
    }

    /** `DataFileWriter::new`: both counters start at 0. */
    constructor (file: LogFile)
      ensures this.file == file && offset == 0 && byteWritten == 0
    {
      this.file := file;
      offset := 0;
      byteWritten := 0;
    }

    /** `append`: encode the entry and write it at the end of the file. A complete
        write advances both counters by the record's size and returns the value
        offset computed from the cursor before the write; a short write returns an
        incomplete-write error and leaves the counters where they were, although
        the bytes the system took are in the file. */
    method Append(key: ByteString, value: ByteString, outcome: WriteOutcome) returns (r: Result<nat>)
      requires outcome.Wrote? ==> outcome.count <= Size(LogEntry(key, value))
      modifies this, file
      ensures var e := LogEntry(key, value);
        outcome == WriteFailed ==>
          r == Err(IoFailure) && file.bytes == old(file.bytes)
          && offset == old(offset) && byteWritten == old(byteWritten)
      ensures var e := LogEntry(key, value);
        outcome.Wrote? && outcome.count < Size(e) ==>
          r == Err(IncompleteWrite) && file.bytes == old(file.bytes) + Encode(e)[..outcome.count]
          && offset == old(offset) && byteWritten == old(byteWritten)
      ensures var e := LogEntry(key, value);
        outcome == Wrote(Size(e)) ==>
          r == Ok(old(offset) + 16 + |key|) && file.bytes == old(file.bytes) + Encode(e)
          && offset == old(offset) + Size(e) && byteWritten == old(byteWritten) + Size(e)
      ensures old(Clean()) && r.Ok? ==> Clean()
    {
      var entry := LogEntry(key, value);
      var valueOffset := ValueOffset(offset, entry);
      var bin := Encode(entry);
      match outcome
      case WriteFailed =>
        r := Err(IoFailure);
      case Wrote(n) =>
        file.bytes := file.bytes + bin[..n];
        if n != |bin| {
          r := Err(IncompleteWrite);
        } else {
          assert bin[..n] == bin;
          byteWritten := byteWritten + n;
          offset := offset + n;
          r := Ok(valueOffset);
        }
    }
  }

  /** The first write of key "key" and value "value" to a fresh file reports the
      value at byte 19: 8 + 3 bytes of key field, then the 8-byte value length. */
  lemma FirstWriteOffset()
    ensures ValueOffset(0, LogEntry([107, 101, 121], [118, 97, 108, 117, 101])) == 19
  {
  }

  /** `DataFileReader`: a read-only handle on the file. */
  class DataFileReader {
    const file: LogFile

    constructor (file: LogFile)
      ensures this.file == file
    {
      this.file := file;
    }

    /** `read`: the `valueSize` bytes at `valueOffset`. */
    function Read(valueOffset: nat, valueSize: nat): (r: Result<seq<byte>>)
      reads file
      ensures r.Ok? <==> valueSize == 0 || valueOffset + valueSize <= |file.bytes|
      ensures r.Ok? ==> |r.value| == valueSize && forall i :: 0 <= i < valueSize ==> r.value[i] == file.bytes[valueOffset + i]
      ensures r.Err? ==> r.error == IncompleteRead
    {
      ReadAt(file.bytes, valueOffset, valueSize)
    }

    /** `read_all`: decode records from byte 0 until decoding fails, collecting
        the entries. */
    method ReadAll() returns (r: seq<LogEntry>)
      ensures r == Entries(Scan(file.bytes, 0))
    {
      var bytes := file.bytes;
      var pos := 0;
      r := [];
      while true
        invariant pos <= |bytes|
        invariant r + Entries(Scan(bytes, pos)) == Entries(Scan(bytes, 0))
        decreases |bytes| - pos
      {
        ScanUnfold(bytes, pos);
        match Decode(bytes, pos)
        case Err(_) =>
          break;
        case Ok(d) =>
          EntriesCons(ResultAt(d.entry, pos), Scan(bytes, d.next));
          r := r + [d.entry];
          pos := d.next;
      }
    }
  }

  /** `DataFileIterator`: a buffered stream over the file and the running `offset`
      of the next record. */
  class DataFileIterator {
    /** The bytes of the file the iterator opened. */
    const data: seq<byte>
    /** How far the buffered stream has consumed the file. */
    var cursor: nat
    /** `offset`: where the iterator counts the next record to start. */
    var offset: nat

    /** The stream is at the next record, or drained by a failed decode. */
    ghost predicate Valid()
      reads this
    {
      offset <= |data| && (cursor == offset || cursor == |data|)
    }

    /** The records the iterator has still to yield. */
    ghost function Pending(): seq<LogReadResult>
      reads this
    {
      Scan(data, cursor)
    }

    /** `DataFileIterator::new`: a stream at the start of the file, offset 0. */
    constructor (file: LogFile)
      ensures data == file.bytes && cursor == 0 && offset == 0
      ensures Valid() && Pending() == Scan(data, 0)
    {
      data := file.bytes;
      cursor := 0;
      offset := 0;
    }

    /** `next`: decode one record from the stream. On success it reports the key
        offset `offset + 8` and the value offset `offset + 16 + |key|` and advances
        `offset` by the record's size; on failure it yields nothing, and the failed
        read has drained the stream. */
    method Next() returns (r: Option<LogReadResult>)
      requires Valid()
      modifies this
      ensures Valid()
      ensures old(Pending()) == [] ==> r == None && Pending() == []
      ensures old(Pending()) != [] ==> r == Some(old(Pending())[0]) && Pending() == old(Pending())[1..]
      ensures r.None? ==> offset == old(offset)
      ensures r.Some? ==> var x := r.value;
        && x.keyOffset == old(offset) + 8
        && x.valueOffset == old(offset) + 16 + |x.key|
        && offset == old(offset) + Size(x.Into())
    {
      ScanUnfold(data, cursor);
      match Decode(data, cursor)
      case Err(_) =>
        cursor := |data|;
        ScanAtEnd(data);
        r := None;
      case Ok(d) =>
        var keyOffset := KeyOffset(offset, d.entry);
        var valueOffset := ValueOffset(offset, d.entry);
        offset := offset + Size(d.entry);
        cursor := d.next;
        r := Some(LogReadResult(d.entry.key, d.entry.value, keyOffset, valueOffset));
    }
  }

  /** `DataFile`: the file `main.dat` in a directory, with a reader, a writer and
      the handle `inner`. */
  class DataFile {
    const id: string
    const reader: DataFileReader
    const writer: DataFileWriter
    var inner: LogFile

    constructor Init(id: string, reader: DataFileReader, writer: DataFileWriter, inner: LogFile)
      ensures this.id == id && this.reader == reader && this.writer == writer && this.inner == inner
    {
      this.id := id;
      this.reader := reader;
      this.writer := writer;
      this.inner := inner;
    }

    /** `open`: fails unless the path is a directory; otherwise creates or
        truncates `main.dat` and opens the reader and the writer on it. */
    static method Open(isDir: bool) returns (r: Result<DataFile>)
      ensures !isDir <==> r == Err(NotADirectory)
      ensures r.Ok? <==> isDir
      ensures r.Ok? ==> var df := r.value;
        && fresh(df) && fresh(df.inner) && fresh(df.reader) && fresh(df.writer)
        && df.id == "main.dat"
        && df.inner.bytes == []
        && df.reader.file == df.inner && df.writer.file == df.inner
        && df.writer.offset == 0 && df.writer.byteWritten == 0
    {
      if !isDir {
        return Err(NotADirectory);
      }
      var fileName := "main.dat";
      var inner := new LogFile.Empty();
      var reader := new DataFileReader(inner);
      var writer := new DataFileWriter(inner);
      var df := new DataFile.Init(fileName, reader, writer, inner);
      return Ok(df);
    }

    /** `write`: append through the writer and return the value offset. */
    method Write(key: ByteString, value: ByteString, outcome: WriteOutcome) returns (r: Result<nat>)
      requires outcome.Wrote? ==> outcome.count <= Size(LogEntry(key, value))
      modifies writer, writer.file
      ensures var e := LogEntry(key, value);
        outcome == WriteFailed ==>
          r == Err(IoFailure) && writer.file.bytes == old(writer.file.bytes)
          && writer.offset == old(writer.offset) && writer.byteWritten == old(writer.byteWritten)
      ensures var e := LogEntry(key, value);
        outcome.Wrote? && outcome.count < Size(e) ==>
          r == Err(IncompleteWrite) && writer.file.bytes == old(writer.file.bytes) + Encode(e)[..outcome.count]
          && writer.offset == old(writer.offset) && writer.byteWritten == old(writer.byteWritten)
      ensures var e := LogEntry(key, value);
        outcome == Wrote(Size(e)) ==>
          r == Ok(old(writer.offset) + 16 + |key|) && writer.file.bytes == old(writer.file.bytes) + Encode(e)
          && writer.offset == old(writer.offset) + Size(e) && writer.byteWritten == old(writer.byteWritten) + Size(e)
    {
      r := writer.Append(key, value, outcome);
    }

    /** `read`: a positional read through the reader. */
    function Read(valueOffset: nat, valueSize: nat): (r: Result<seq<byte>>)
      reads reader.file
      ensures r.Ok? <==> valueSize == 0 || valueOffset + valueSize <= |reader.file.bytes|
      ensures r.Ok? ==> |r.value| == valueSize && forall i :: 0 <= i < valueSize ==> r.value[i] == reader.file.bytes[valueOffset + i]
      ensures r.Err? ==> r.error == IncompleteRead
    {
      reader.Read(valueOffset, valueSize)
    }

    /** `read_all`: replay through the reader. */
    method ReadAll() returns (r: seq<LogEntry>)
      ensures r == Entries(Scan(reader.file.bytes, 0))
    {
      r := reader.ReadAll();
    }

    /** `compact`: fold the replayed records of the file into a map (a record with
        a value upserts its key, a tombstone removes it), write one record for each
        surviving key, in no particular order, to a fresh file created in place of
        the old one, and rebind `inner` to it. The reader and the writer keep the
        handles they had. */
    method Compact()
      modifies this
      ensures fresh(inner)
      ensures exists es :: inner.bytes == EncodeAll(es) && CompactionOf(Entries(Scan(old(inner.bytes), 0)), es)
      ensures |inner.bytes| <= |old(inner.bytes)|
      ensures var log := Entries(Scan(old(inner.bytes), 0));
        !(DistinctKeys(log) && NoTombstones(log)) ==> |inner.bytes| < |EncodeAll(log)|
    {
      var it := new DataFileIterator(inner);
      var live := FoldRecords(it);
      var f, written := WriteRecords(live);
      CompactionShrinks(old(inner.bytes), written);
      inner := f;
    }
  }

  /** The first loop of `compact`: drain the iterator, folding each record into the
      map. */
  method FoldRecords(it: DataFileIterator) returns (live: map<ByteString, LogEntry>)
    requires it.Valid() && it.Pending() == Scan(it.data, 0)
    modifies it
    ensures live == Live(Entries(Scan(it.data, 0)))
  {
    live := map[];
    ghost var all := Entries(it.Pending());
    ghost var consumed: seq<LogEntry> := [];
    while true
      invariant it.Valid()
      invariant consumed + Entries(it.Pending()) == all
      invariant live == Live(consumed)
      decreases |it.Pending()|
    {
      ghost var pending := it.Pending();
      var le := it.Next();
      match le
      case None =>
        assert Entries(it.Pending()) == [];
        assert consumed == all;
        break;
      case Some(x) =>
        ConsumeHead(consumed, pending, all);
        LiveStep(consumed, x.Into());
        if |x.value| > 0 {
          live := live[x.key := x.Into()];
        } else {
          live := live - {x.key};
        }
        consumed := consumed + [x.Into()];
    }
  }

  /** The second loop of `compact`: encode every entry of the map, in whatever
      order it yields them, into a fresh file. */
  method WriteRecords(live: map<ByteString, LogEntry>) returns (f: LogFile, ghost written: seq<LogEntry>)
    requires LiveMap(live)
    ensures fresh(f)
    ensures f.bytes == EncodeAll(written)
    ensures DistinctKeys(written) && NoTombstones(written) && Live(written) == live
  {
    f := new LogFile.Empty();
    var rest := live;
    written := [];
    assert live - rest.Keys == map[];
    while rest != map[]
      invariant fresh(f)
      invariant f.bytes == EncodeAll(written)
      invariant PartlyWritten(written, live, rest)
      decreases |rest|
    {
      var k :| k in rest;
      var e := rest[k];
      EncodeAllAppend(written, e);
      WriteOne(written, live, rest, k);
      f.bytes := f.bytes + Encode(e);
      written := written + [e];
      rest := rest - {k};
    }
    assert live - rest.Keys == live;
  }
}
