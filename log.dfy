/** The data file seen as a byte sequence: offsets of a record's parts, replay of
    the log from byte 0, and positional reads. */
module Log {
  import opened Common
  import opened Bytes
  import opened Codec

  /** `calculate_key_offset`: where the key bytes of a record starting at `start` begin. */
  function KeyOffset(start: nat, e: LogEntry): (o: nat)
    ensures start <= o && o - start + |e.key| <= Size(e)
  {
    start + 8
  }

  /** `calculate_value_offset`: where the value bytes of a record starting at `start`
      begin; the value runs to the end of the record. */
  function ValueOffset(start: nat, e: LogEntry): (o: nat)
    ensures start <= o && o - start + |e.value| == Size(e)
  {
    start + 16 + KeySize(e)
  }

  /** Within a record's encoding, the key offset addresses the key and the value
      offset the value, which runs to the end of the record. */
  lemma OffsetsLocateFields(start: nat, e: LogEntry)
    ensures var k, v := KeyOffset(start, e) - start, ValueOffset(start, e) - start;
      Encode(e)[k..k + |e.key|] == e.key && Encode(e)[v..] == e.value
  {
    EncodeLayout(e);
  }

  /** One replayed record and where its parts lie in the file. */
  datatype LogReadResult = LogReadResult(key: ByteString, value: ByteString, keyOffset: nat, valueOffset: nat)
  {
    /** `Into<LogEntry>`: drop the offsets. */
    function Into(): LogEntry
    {
      LogEntry(key, value)
    }
  }

  /** What replay reports for entry `e` found at `start`. */
  function ResultAt(e: LogEntry, start: nat): LogReadResult
  {
    LogReadResult(e.key, e.value, KeyOffset(start, e), ValueOffset(start, e))
  }

  /** A decoder over the positions of one stream: at each position it fails or
      yields a record and the position just past it. */
  type Decoder = nat -> Result<Decoded>

  /** Every record `decode` yields occupies exactly its size and ends within the
      first `limit` bytes. */
  ghost predicate Frames(decode: Decoder, limit: nat)
  {
    forall p: nat :: decode(p).Ok? ==> decode(p).value.next == p + Size(decode(p).value.entry) <= limit
  }

  /** Replay from `pos`: decode records one after another, tracking the running
      offset, and stop at the first decode failure keeping what was decoded. */
  function Replay(decode: Decoder, limit: nat, pos: nat): seq<LogReadResult>
    requires Frames(decode, limit)
    decreases limit - pos
  {
    match decode(pos)
    case Err(_) => []
    case Ok(d) => [ResultAt(d.entry, pos)] + Replay(decode, limit, d.next)
  }

  /** The record decoder over a file's bytes. */
  function Stream(bytes: seq<byte>): (decode: Decoder)
    ensures Frames(decode, |bytes|)
  {
    (p: nat) => Decode(bytes, p)
  }

  /** The file's decoder at `p` is `Decode` at `p`. */
  lemma StreamAt(bytes: seq<byte>, p: nat)
    ensures Stream(bytes)(p) == Decode(bytes, p)
  {
  }

  /** Replaying the file from `pos`. */
  function Scan(bytes: seq<byte>, pos: nat): seq<LogReadResult>
  {
    Replay(Stream(bytes), |bytes|, pos)
  }

  function Entries(rs: seq<LogReadResult>): (es: seq<LogEntry>)
    ensures |es| == |rs|
    ensures forall i :: 0 <= i < |rs| ==> es[i] == rs[i].Into()
  {
    if rs == [] then [] else [rs[0].Into()] + Entries(rs[1..])
  }

  /** The log a sequence of entries makes when appended one after another. */
  function EncodeAll(es: seq<LogEntry>): seq<byte>
  {
    if es == [] then [] else Encode(es[0]) + EncodeAll(es[1..])
  }

  /** The number of bytes the entries `es` occupy in the log. */
  function Span(es: seq<LogEntry>): nat
  {
    if es == [] then 0 else Size(es[0]) + Span(es[1..])
  }

  lemma {:induction false} SpanIsLength(es: seq<LogEntry>)
    ensures Span(es) == |EncodeAll(es)|
  {
    if es != [] {
      SpanIsLength(es[1..]);
      SizeIsEncodedLength(es[0]);
    }
  }

  lemma {:induction false} SpanAppend(es: seq<LogEntry>, e: LogEntry)
    ensures Span(es + [e]) == Span(es) + Size(e)
  {
    if es == [] {
      assert es + [e] == [e];
    } else {
      assert (es + [e])[1..] == es[1..] + [e];
      SpanAppend(es[1..], e);
    }
  }

  lemma {:induction false} EncodeAllAppend(es: seq<LogEntry>, e: LogEntry)
    ensures EncodeAll(es + [e]) == EncodeAll(es) + Encode(e)
  {
    if es == [] {
      assert es + [e] == [e];
      assert EncodeAll([e]) == Encode(e) + EncodeAll([]);
    } else {
      assert (es + [e])[1..] == es[1..] + [e];
      EncodeAllAppend(es[1..], e);
    }
  }

  /** What replay reports for `es` laid out from `start`. */
  function Results(es: seq<LogEntry>, start: nat): (rs: seq<LogReadResult>)
    ensures |rs| == |es|
  {
    if es == [] then [] else [ResultAt(es[0], start)] + Results(es[1..], start + Size(es[0]))
  }

  lemma {:induction false} EntriesOfResults(es: seq<LogEntry>, start: nat)
    ensures Entries(Results(es, start)) == es
    decreases es
  {
    if es != [] {
      var next := start + Size(es[0]);
      EntriesCons(ResultAt(es[0], start), Results(es[1..], next));
      EntriesOfResults(es[1..], next);
      assert es == [es[0]] + es[1..];
    }
  }

  lemma {:induction false} ResultsAt(es: seq<LogEntry>, start: nat, i: nat)
    requires i < |es|
    ensures Results(es, start)[i] == ResultAt(es[i], start + Span(es[..i]))
  {
    if i > 0 {
      ResultsAt(es[1..], start + Size(es[0]), i - 1);
      assert es[..i][1..] == es[1..][..i - 1];
      assert es[..i][0] == es[0];
    }
  }

  /** `decode` yields the entries `es`, one after another, from `pos`. */
  ghost predicate DecodesAs(decode: Decoder, pos: nat, es: seq<LogEntry>)
    decreases es
  {
    es == [] || (decode(pos) == Ok(Decoded(es[0], pos + Size(es[0]))) && DecodesAs(decode, pos + Size(es[0]), es[1..]))
  }

  /** Gluing step of `ReplayFrom`. */
  lemma Regroup<T>(whole: seq<T>, head: seq<T>, rest: seq<T>, mid: seq<T>, tail: seq<T>)
    requires whole == head + rest && rest == mid + tail
    ensures whole == (head + mid) + tail
  {
  }

  /** Where `decode` yields `es` from `pos`, replay reports them, in order and at
      their offsets, and then carries on after them. */
  lemma {:induction false} ReplayFrom(decode: Decoder, limit: nat, pos: nat, es: seq<LogEntry>)
    requires Frames(decode, limit) && DecodesAs(decode, pos, es)
    ensures Replay(decode, limit, pos) == Results(es, pos) + Replay(decode, limit, pos + Span(es))
    decreases es
  {
    if es == [] {
      assert Results(es, pos) == [];
    } else {
      var next := pos + Size(es[0]);
      ReplayFrom(decode, limit, next, es[1..]);
      Regroup(Replay(decode, limit, pos), [ResultAt(es[0], pos)], Replay(decode, limit, next),
              Results(es[1..], next), Replay(decode, limit, pos + Span(es)));
    }
  }

  /** Replay is the longest run of records `decode` yields: what it reports is what
      `decode` yields, at the offsets it yields them, and decoding fails right after. */
  lemma {:induction false} ReplayIsMaximal(decode: Decoder, limit: nat, pos: nat)
    requires Frames(decode, limit)
    ensures var rs := Replay(decode, limit, pos);
      && DecodesAs(decode, pos, Entries(rs))
      && rs == Results(Entries(rs), pos)
      && decode(pos + Span(Entries(rs))).Err?
    decreases limit - pos
  {
    match decode(pos)
    case Err(_) =>
    case Ok(d) =>
      ReplayIsMaximal(decode, limit, d.next);
      var rest := Replay(decode, limit, d.next);
      var rs := Replay(decode, limit, pos);
      assert rs == [ResultAt(d.entry, pos)] + rest;
      assert Entries(rs) == [d.entry] + Entries(rest);
      assert Entries(rs)[1..] == Entries(rest);
  }

  /** The log holds the entries `es`, one after another, from `pos`. */
  ghost predicate LogAt(bytes: seq<byte>, pos: nat, es: seq<LogEntry>)
    decreases es
  {
    if es == [] then pos <= |bytes|
    else EncodedAt(bytes, pos, es[0]) && LogAt(bytes, pos + Size(es[0]), es[1..])
  }

  /** Records stored one after another decode one after another. */
  lemma {:induction false} LogDecodes(bytes: seq<byte>, pos: nat, es: seq<LogEntry>)
    requires LogAt(bytes, pos, es)
    ensures DecodesAs(Stream(bytes), pos, es)
    decreases es
  {
    if es != [] {
      DecodeEncode(bytes, pos, es[0]);
      LogDecodes(bytes, pos + Size(es[0]), es[1..]);
    }
  }

  /** Records that decode one after another are stored one after another. */
  lemma {:induction false} DecodesLog(bytes: seq<byte>, pos: nat, es: seq<LogEntry>)
    requires pos <= |bytes| && DecodesAs(Stream(bytes), pos, es)
    ensures LogAt(bytes, pos, es)
    decreases es
  {
    if es != [] {
      assert Decode(bytes, pos) == Ok(Decoded(es[0], pos + Size(es[0])));
      DecodeIsEncoded(bytes, pos);
      DecodesLog(bytes, pos + Size(es[0]), es[1..]);
    }
  }

  /** Where the log holds `es` at `pos`, the bytes there are the concatenated
      encodings of `es`. */
  lemma {:induction false} LogAtIsSlice(bytes: seq<byte>, pos: nat, es: seq<LogEntry>)
    requires LogAt(bytes, pos, es)
    ensures pos + |EncodeAll(es)| <= |bytes| && bytes[pos..pos + |EncodeAll(es)|] == EncodeAll(es)
    decreases es
  {
    if es == [] {
      assert bytes[pos..pos] == [];
    } else {
      var a, b := Encode(es[0]), EncodeAll(es[1..]);
      var next := pos + Size(es[0]);
      SizeIsEncodedLength(es[0]);
      LogAtIsSlice(bytes, next, es[1..]);
      assert EncodeAll(es) == a + b;
      assert bytes[pos..next + |b|] == bytes[pos..next] + bytes[next..next + |b|];
    }
  }

  /** Where the bytes from `pos` are the concatenated encodings of `es`, the log
      holds `es` there. */
  lemma {:induction false} SliceIsLogAt(bytes: seq<byte>, pos: nat, es: seq<LogEntry>)
    requires pos + |EncodeAll(es)| <= |bytes| && bytes[pos..pos + |EncodeAll(es)|] == EncodeAll(es)
    ensures LogAt(bytes, pos, es)
    decreases es
  {
    if es != [] {
      var a, b := Encode(es[0]), EncodeAll(es[1..]);
      SizeIsEncodedLength(es[0]);
      assert EncodeAll(es) == a + b;
      SplitSlice(bytes, pos, a, b);
      SliceIsLogAt(bytes, pos + Size(es[0]), es[1..]);
    }
  }

  /** The log holds `es` at `pos` exactly when the bytes there are the concatenated
      encodings of `es`. */
  lemma LogAtIsEncodeAll(bytes: seq<byte>, pos: nat, es: seq<LogEntry>)
    ensures LogAt(bytes, pos, es) <==>
      pos + |EncodeAll(es)| <= |bytes| && bytes[pos..pos + |EncodeAll(es)|] == EncodeAll(es)
  {
    if LogAt(bytes, pos, es) {
      LogAtIsSlice(bytes, pos, es);
    }
    if pos + |EncodeAll(es)| <= |bytes| && bytes[pos..pos + |EncodeAll(es)|] == EncodeAll(es) {
      SliceIsLogAt(bytes, pos, es);
    }
  }

  /** A stream decodes nothing at its very end. */
  lemma ScanAtEnd(bytes: seq<byte>)
    ensures Scan(bytes, |bytes|) == []
  {
    StreamAt(bytes, |bytes|);
  }

  /** Where the records `es` decode one after another from `pos`, replay reports
      them, at their offsets, and then carries on after them. */
  lemma ScanFrom(bytes: seq<byte>, pos: nat, es: seq<LogEntry>)
    requires DecodesAs(Stream(bytes), pos, es)
    ensures Scan(bytes, pos) == Results(es, pos) + Scan(bytes, pos + Span(es))
  {
    ReplayFrom(Stream(bytes), |bytes|, pos, es);
  }

  /** The result for an entry appended last lies after the entries before it. */
  lemma ResultsOfAppend(es: seq<LogEntry>, e: LogEntry)
    ensures var rs := Results(es + [e], 0);
      |rs| == |es| + 1 && rs[|es|] == ResultAt(e, Span(es))
  {
    var all := es + [e];
    ResultsAt(all, 0, |es|);
    assert all[..|es|] == es;
  }

  /** A file that begins with the log of `es` holds those entries from byte 0. */
  lemma LogPrefix(bytes: seq<byte>, es: seq<LogEntry>)
    requires |EncodeAll(es)| <= |bytes| && bytes[..|EncodeAll(es)|] == EncodeAll(es)
    ensures LogAt(bytes, 0, es) && DecodesAs(Stream(bytes), 0, es) && Span(es) == |EncodeAll(es)|
  {
    assert bytes[0..|EncodeAll(es)|] == EncodeAll(es);
    SliceIsLogAt(bytes, 0, es);
    LogDecodes(bytes, 0, es);
    SpanIsLength(es);
  }

  /** One step of replay: it stops where decoding fails, and otherwise reports the
      decoded record at `pos` and resumes just after it. */
  lemma ScanUnfold(bytes: seq<byte>, pos: nat)
    ensures Decode(bytes, pos).Err? ==> Scan(bytes, pos) == []
    ensures Decode(bytes, pos).Ok? ==> var d := Decode(bytes, pos).value;
      Scan(bytes, pos) == [ResultAt(d.entry, pos)] + Scan(bytes, d.next)
  {
    StreamAt(bytes, pos);
  }

  lemma EntriesCons(r: LogReadResult, rs: seq<LogReadResult>)
    ensures Entries([r] + rs) == [r.Into()] + Entries(rs)
  {
    assert ([r] + rs)[1..] == rs;
  }

  /** Moving the first pending record to the consumed entries keeps their sum. */
  lemma ConsumeHead(consumed: seq<LogEntry>, pending: seq<LogReadResult>, all: seq<LogEntry>)
    requires pending != [] && consumed + Entries(pending) == all
    ensures (consumed + [pending[0].Into()]) + Entries(pending[1..]) == all
  {
    assert pending == [pending[0]] + pending[1..];
    EntriesCons(pending[0], pending[1..]);
  }

  /** Where the records `es` decode one after another from byte 0 and no record
      decodes right after them, replay reports exactly those entries. */
  lemma ScanStopsAfter(bytes: seq<byte>, es: seq<LogEntry>)
    requires DecodesAs(Stream(bytes), 0, es) && Decode(bytes, Span(es)).Err?
    ensures Scan(bytes, 0) == Results(es, 0)
  {
    ScanFrom(bytes, 0, es);
    ScanUnfold(bytes, Span(es));
    assert Results(es, 0) + [] == Results(es, 0);
  }

  /** The log of `es` replays to `es` at their running offsets. */
  lemma ScanOfEncodeAll(es: seq<LogEntry>)
    ensures Scan(EncodeAll(es), 0) == Results(es, 0)
  {
    var bytes := EncodeAll(es);
    assert bytes[..|bytes|] == bytes;
    LogPrefix(bytes, es);
    DecodeFailsWhenShort(bytes, |bytes|);
    ScanStopsAfter(bytes, es);
  }

  /** Replaying a log made by appends yields the appended entries in write order;
      each record's key begins 8 bytes, and its value 16 + |key| bytes, after the
      record's start, which is the number of bytes appended before it. */
  lemma ScanOfLog(es: seq<LogEntry>)
    ensures var rs := Scan(EncodeAll(es), 0);
      && Entries(rs) == es
      && forall i :: 0 <= i < |es| ==>
           && rs[i].keyOffset == |EncodeAll(es[..i])| + 8
           && rs[i].valueOffset == |EncodeAll(es[..i])| + 16 + |es[i].key|
  {
    ScanOfEncodeAll(es);
    var rs := Scan(EncodeAll(es), 0);
    EntriesOfResults(es, 0);
    forall i | 0 <= i < |es|
      ensures rs[i].keyOffset == |EncodeAll(es[..i])| + 8
      ensures rs[i].valueOffset == |EncodeAll(es[..i])| + 16 + |es[i].key|
    {
      ResultsAt(es, 0, i);
      SpanIsLength(es[..i]);
    }
  }

  /** Replay reports nothing from the start of a torn record. */
  lemma ScanOfTornRecord(log: seq<byte>, e: LogEntry, n: nat)
    requires n < Size(e)
    ensures Scan(log + Encode(e)[..n], |log|) == []
  {
    var bytes := log + Encode(e)[..n];
    assert bytes[|log|..] == Encode(e)[..|bytes| - |log|];
    TornRecordFails(bytes, |log|, e);
    StreamAt(bytes, |log|);
  }

  /** The record an append adds is replayed last, with the value offset the append
      returned: the number of bytes before it, plus 16, plus the key length. */
  lemma AppendIsReplayed(es: seq<LogEntry>, e: LogEntry)
    ensures var rs := Scan(EncodeAll(es + [e]), 0);
      && |rs| == |es| + 1
      && rs[|es|] == LogReadResult(e.key, e.value, |EncodeAll(es)| + 8, |EncodeAll(es)| + 16 + |e.key|)
  {
    ScanOfEncodeAll(es + [e]);
    ResultsOfAppend(es, e);
    SpanIsLength(es);
  }

  /** A log whose last append was torn by a crash replays exactly as the log without
      the partial record: the torn tail is dropped. */
  lemma ScanTornTail(es: seq<LogEntry>, e: LogEntry, n: nat)
    requires n < Size(e)
    ensures Scan(EncodeAll(es) + Encode(e)[..n], 0) == Scan(EncodeAll(es), 0)
  {
    var log := EncodeAll(es);
    var bytes := log + Encode(e)[..n];
    assert bytes[..|log|] == log;
    assert bytes[|log|..] == Encode(e)[..|bytes| - |log|];
    TornRecordFails(bytes, |log|, e);
    LogPrefix(bytes, es);
    ScanStopsAfter(bytes, es);
    ScanOfEncodeAll(es);
  }

  /** The file holds the replayed entries from `pos`, at the offsets replay reports. */
  lemma ScanIsLog(bytes: seq<byte>, pos: nat)
    requires pos <= |bytes|
    ensures var rs := Scan(bytes, pos);
      LogAt(bytes, pos, Entries(rs)) && rs == Results(Entries(rs), pos)
  {
    var rs := Scan(bytes, pos);
    ReplayIsMaximal(Stream(bytes), |bytes|, pos);
    DecodesLog(bytes, pos, Entries(rs));
  }

  /** No record decodes right after what replay reports. */
  lemma ScanStopsAtFailure(bytes: seq<byte>, pos: nat)
    ensures Decode(bytes, pos + Span(Entries(Scan(bytes, pos)))).Err?
  {
    ReplayIsMaximal(Stream(bytes), |bytes|, pos);
    StreamAt(bytes, pos + Span(Entries(Scan(bytes, pos))));
  }

  /** What replay reports is a run of complete records at the start of the file, at
      the offsets replay reports them: the replayed entries, re-encoded, are exactly
      the bytes from `pos` it consumed, and no record decodes right after them. */
  lemma ScanIsEncodedPrefix(bytes: seq<byte>, pos: nat)
    requires pos <= |bytes|
    ensures var rs := Scan(bytes, pos); var log := EncodeAll(Entries(rs));
      && pos + |log| <= |bytes| && bytes[pos..pos + |log|] == log
      && rs == Results(Entries(rs), pos)
      && Decode(bytes, pos + |log|).Err?
  {
    var es := Entries(Scan(bytes, pos));
    ScanIsLog(bytes, pos);
    ScanStopsAtFailure(bytes, pos);
    LogAtIsSlice(bytes, pos, es);
    SpanIsLength(es);
  }

  /** The `i`-th entry of a stored log lies after the entries before it. */
  lemma {:induction false} LogAtIndex(bytes: seq<byte>, pos: nat, es: seq<LogEntry>, i: nat)
    requires LogAt(bytes, pos, es) && i < |es|
    ensures EncodedAt(bytes, pos + Span(es[..i]), es[i])
    decreases i
  {
    if i > 0 {
      LogAtIndex(bytes, pos + Size(es[0]), es[1..], i - 1);
      assert es[..i][1..] == es[1..][..i - 1];
      assert es[..i][0] == es[0];
    }
  }

  /** The offsets of a stored record address its key and value. */
  lemma FieldsAt(bytes: seq<byte>, start: nat, e: LogEntry)
    requires EncodedAt(bytes, start, e)
    ensures var r := ResultAt(e, start);
      && r.keyOffset + |r.key| <= |bytes| && bytes[r.keyOffset..r.keyOffset + |r.key|] == r.key
      && ReadAt(bytes, r.valueOffset, |r.value|) == Ok(r.value)
  {
    var end := start + Size(e);
    var ko, vo := KeyOffset(start, e), ValueOffset(start, e);
    OffsetsLocateFields(start, e);
    SubSlice(bytes, start, end, ko - start, ko - start + |e.key|);
    SubSlice(bytes, start, end, vo - start, Size(e));
    var r := ReadAt(bytes, vo, |e.value|);
    assert r.Ok?;
    assert r.value == bytes[vo..vo + |e.value|] || |e.value| == 0;
  }

  /** Every replayed record's offsets address its own key and value in the file. */
  lemma ScanLocatesFields(bytes: seq<byte>, pos: nat, i: nat)
    requires pos <= |bytes| && i < |Scan(bytes, pos)|
    ensures var r := Scan(bytes, pos)[i];
      && r.keyOffset + |r.key| <= |bytes| && bytes[r.keyOffset..r.keyOffset + |r.key|] == r.key
      && ReadAt(bytes, r.valueOffset, |r.value|) == Ok(r.value)
  {
    var es := Entries(Scan(bytes, pos));
    ScanIsLog(bytes, pos);
    ResultsAt(es, pos, i);
    LogAtIndex(bytes, pos, es, i);
    FieldsAt(bytes, pos + Span(es[..i]), es[i]);
  }

  /** The number of bytes a positional read of `n` bytes at `off` transfers from a
      regular file: as many as asked for, up to the end of the file. */
  function Transferred(bytes: seq<byte>, off: nat, n: nat): (got: nat)
    ensures got <= n
    ensures got == n <==> n == 0 || off + n <= |bytes|
  {
    if |bytes| <= off then 0 else if off + n <= |bytes| then n else |bytes| - off
  }

  /** `DataFileReader::read`: the `n` bytes at `off`, or an incomplete read when the
      file holds fewer. */
  function ReadAt(bytes: seq<byte>, off: nat, n: nat): (r: Result<seq<byte>>)
    ensures r.Ok? <==> n == 0 || off + n <= |bytes|
    ensures r.Ok? ==> |r.value| == n && forall i :: 0 <= i < n ==> r.value[i] == bytes[off + i]
    ensures r.Err? ==> r.error == IncompleteRead
  {
    if Transferred(bytes, off, n) != n then Err(IncompleteRead)
    else if n == 0 then Ok([])  // an empty read transfers nothing, wherever it is aimed
    else Ok(bytes[off..off + n])
  }

  /** Read after write: the offset an append returns addresses the value it wrote. */
  lemma ReadAfterAppend(log: seq<byte>, e: LogEntry)
    ensures ReadAt(log + Encode(e), ValueOffset(|log|, e), |e.value|) == Ok(e.value)
  {
    var bytes := log + Encode(e);
    var o := ValueOffset(|log|, e);
    OffsetsLocateFields(|log|, e);
    var r := ReadAt(bytes, o, |e.value|);
    assert r.Ok?;
    forall i | 0 <= i < |e.value| ensures r.value[i] == e.value[i] {
      assert bytes[o + i] == Encode(e)[o - |log| + i];
    }
    assert r.value == e.value;
  }

  /** Later appends never change what a successful read returns. */
  lemma ReadSurvivesAppends(bytes: seq<byte>, more: seq<byte>, off: nat, n: nat)
    requires ReadAt(bytes, off, n).Ok?
    ensures ReadAt(bytes + more, off, n) == ReadAt(bytes, off, n)
  {
    var a, b := ReadAt(bytes, off, n).value, ReadAt(bytes + more, off, n).value;
    assert forall i :: 0 <= i < n ==> a[i] == b[i];
    assert a == b;
  }

}
