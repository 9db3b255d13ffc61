/** What `compact` keeps of a log: the fold of the replayed entries into a map in
    which a record with a value upserts its key and a tombstone (an empty value)
    removes it, and the log rewritten from that map. */
module Compaction {
  import opened Bytes
  import opened Codec
  import opened Log

  /** The map `compact` builds from the replayed entries, folding them in order. */
  function Live(es: seq<LogEntry>): (m: map<ByteString, LogEntry>)
    ensures forall k :: k in m ==> m[k].key == k && m[k].value != []
    decreases |es|
  {
    if es == [] then map[]
    else
      var m, e := Live(es[..|es| - 1]), es[|es| - 1];
      if |e.value| > 0 then m[e.key := e] else m - {e.key}
  }

  /** One step of the fold. */
  lemma LiveStep(es: seq<LogEntry>, e: LogEntry)
    ensures Live(es + [e]) == if |e.value| > 0 then Live(es)[e.key := e] else Live(es) - {e.key}
  {
    assert (es + [e])[..|es|] == es;
  }

  /** `i` is the position of the last record for `k` in `es`. */
  ghost predicate LastOf(es: seq<LogEntry>, k: ByteString, i: int)
  {
    0 <= i < |es| && es[i].key == k && forall j :: i < j < |es| ==> es[j].key != k
  }

  /** Latest value wins: a key survives the fold exactly when its last record has a
      value, and then it maps to that record. */
  lemma {:induction false} LiveIsLatest(es: seq<LogEntry>, k: ByteString)
    ensures k in Live(es) <==> Survives(es, k)
    ensures forall i :: LastOf(es, k, i) && es[i].value != [] ==> k in Live(es) && Live(es)[k] == es[i]
    decreases |es|
  {
    if es != [] {
      var n := |es| - 1;
      var p, e := es[..n], es[n];
      assert es == p + [e];
      LiveStep(p, e);
      LiveIsLatest(p, k);
      if e.key == k {
        assert LastOf(es, k, n);
        forall i | LastOf(es, k, i) ensures i == n {
        }
      } else {
        forall i ensures LastOf(es, k, i) <==> LastOf(p, k, i) {
          if LastOf(es, k, i) {
            assert i != n;
            assert forall j :: i < j < |p| ==> p[j] == es[j];
          }
          if LastOf(p, k, i) {
            assert forall j :: i < j < |es| ==> j == n || es[j] == p[j];
          }
        }
        assert forall i :: 0 <= i < n ==> es[i] == p[i];
      }
    }
  }

  /** Some record of `es` has key `k`. */
  ghost predicate HasKey(es: seq<LogEntry>, k: ByteString)
  {
    exists i :: 0 <= i < |es| && es[i].key == k
  }

  /** The last record for `k` in `es` exists and has a value. */
  ghost predicate Survives(es: seq<LogEntry>, k: ByteString)
  {
    exists i :: LastOf(es, k, i) && es[i].value != []
  }

  /** No two records of `es` share a key. */
  ghost predicate DistinctKeys(es: seq<LogEntry>)
  {
    forall i, j :: 0 <= i < j < |es| ==> es[i].key != es[j].key
  }

  /** No record of `es` is a tombstone. */
  ghost predicate NoTombstones(es: seq<LogEntry>)
  {
    forall i :: 0 <= i < |es| ==> es[i].value != []
  }

  /** `es` is what compaction may write for the replayed log `log`: one record per
      surviving key, no tombstones, and the same map once folded. */
  ghost predicate CompactionOf(log: seq<LogEntry>, es: seq<LogEntry>)
  {
    DistinctKeys(es) && NoTombstones(es) && Live(es) == Live(log)
  }

  /** Folding records with distinct keys and no tombstones keeps every record. */
  lemma LiveOfDistinct(es: seq<LogEntry>)
    requires DistinctKeys(es) && NoTombstones(es)
    ensures forall i :: 0 <= i < |es| ==> es[i].key in Live(es) && Live(es)[es[i].key] == es[i]
    ensures forall k :: k in Live(es) ==> HasKey(es, k)
  {
    forall i | 0 <= i < |es| ensures es[i].key in Live(es) && Live(es)[es[i].key] == es[i] {
      LiveIsLatest(es, es[i].key);
      assert LastOf(es, es[i].key, i);
    }
    forall k | k in Live(es) ensures HasKey(es, k) {
      LiveIsLatest(es, k);
    }
  }

  /** Writing the record of one more key of `live` adds that key to the fold of
      what has been written. */
  lemma LiveGrows(written: seq<LogEntry>, live: map<ByteString, LogEntry>, rest: set<ByteString>, k: ByteString)
    requires k in rest && k in live && live[k].key == k && live[k].value != []
    requires Live(written) == live - rest
    ensures Live(written + [live[k]]) == live - (rest - {k})
  {
    LiveStep(written, live[k]);
  }

  /** A key occurs in `es + [e]` exactly when it occurs in `es` or is `e`'s key. */
  lemma HasKeyAppend(es: seq<LogEntry>, e: LogEntry)
    ensures forall k :: HasKey(es + [e], k) <==> HasKey(es, k) || e.key == k
  {
    forall k ensures HasKey(es + [e], k) <==> HasKey(es, k) || e.key == k {
      if HasKey(es, k) {
        var i :| 0 <= i < |es| && es[i].key == k;
        assert (es + [e])[i] == es[i];
      }
      if e.key == k {
        assert (es + [e])[|es|] == e;
      }
    }
  }

  /** Every record of `live` is filed under its own key and has a value, as the
      map `compact` folds always is. */
  ghost predicate LiveMap(live: map<ByteString, LogEntry>)
  {
    forall k :: k in live ==> live[k].key == k && live[k].value != []
  }

  /** Part of `live` is written as `written`; the keys of `rest` are still to go. */
  ghost predicate PartlyWritten(written: seq<LogEntry>, live: map<ByteString, LogEntry>, rest: map<ByteString, LogEntry>)
  {
    && rest.Keys <= live.Keys && (forall k :: k in rest ==> rest[k] == live[k])
    && (forall k :: k in rest ==> !HasKey(written, k))
    && DistinctKeys(written) && NoTombstones(written)
    && Live(written) == live - rest.Keys
  }

  /** Appending a record with a value and a key not yet written keeps the keys
      distinct and the records tombstone-free. */
  lemma ExtendDistinct(es: seq<LogEntry>, e: LogEntry)
    requires DistinctKeys(es) && NoTombstones(es) && !HasKey(es, e.key) && e.value != []
    ensures DistinctKeys(es + [e]) && NoTombstones(es + [e])
  {
    var w := es + [e];
    forall i, j | 0 <= i < j < |w| ensures w[i].key != w[j].key {
      assert w[i] == es[i];
      if j < |es| {
        assert w[j] == es[j];
      }
    }
    forall i | 0 <= i < |w| ensures w[i].value != [] {
      if i < |es| {
        assert w[i] == es[i];
      }
    }
  }

  /** Appending a record for a key outside `keys` leaves every key of `keys`
      unwritten. */
  lemma StillAbsent(es: seq<LogEntry>, e: LogEntry, keys: set<ByteString>)
    requires forall k :: k in keys ==> !HasKey(es, k)
    requires e.key !in keys
    ensures forall k :: k in keys ==> !HasKey(es + [e], k)
  {
    HasKeyAppend(es, e);
  }

  /** Writing the record of any key still to go keeps the partition. */
  lemma WriteOne(written: seq<LogEntry>, live: map<ByteString, LogEntry>, rest: map<ByteString, LogEntry>, k: ByteString)
    requires LiveMap(live) && PartlyWritten(written, live, rest) && k in rest
    ensures PartlyWritten(written + [rest[k]], live, rest - {k})
  {
    var e, r := rest[k], rest - {k};
    assert e == live[k] && e.key == k && e.value != [];
    assert r.Keys == rest.Keys - {k};
    ExtendDistinct(written, e);
    StillAbsent(written, e, r.Keys);
    LiveGrows(written, live, rest.Keys, k);
  }

  /** The number of bytes the records of `m` occupy once written. */
  ghost function MapSpan(m: map<ByteString, LogEntry>): nat
    decreases |m|
  {
    if m == map[] then 0
    else
      var k :| k in m;
      assert (m - {k}).Keys == m.Keys - {k};
      Size(m[k]) + MapSpan(m - {k})
  }

  /** Any key can be taken out first: the total does not depend on the order. */
  lemma {:induction false} MapSpanRemove(m: map<ByteString, LogEntry>, k: ByteString)
    requires k in m
    ensures MapSpan(m) == Size(m[k]) + MapSpan(m - {k})
    decreases |m|
  {
    var j :| j in m && (m - {j}).Keys == m.Keys - {j} && MapSpan(m) == Size(m[j]) + MapSpan(m - {j});
    if j != k {
      var mj, mk := m - {j}, m - {k};
      assert mk.Keys == m.Keys - {k};
      MapSpanRemove(mj, k);
      MapSpanRemove(mk, j);
      assert mj - {k} == mk - {j};
    }
  }

  /** Upserting or removing one key changes the total by that key's records. */
  lemma MapSpanStep(m: map<ByteString, LogEntry>, e: LogEntry)
    ensures e.key in m ==> MapSpan(m[e.key := e]) + Size(m[e.key]) == MapSpan(m) + Size(e)
    ensures e.key !in m ==> MapSpan(m[e.key := e]) == MapSpan(m) + Size(e)
    ensures MapSpan(m - {e.key}) <= MapSpan(m)
  {
    var k := e.key;
    MapSpanRemove(m[k := e], k);
    assert m[k := e] - {k} == m - {k};
    if k in m {
      MapSpanRemove(m, k);
    } else {
      assert m - {k} == m;
    }
  }

  /** A log whose keys are distinct and which has no tombstone starts with a log
      that has the same two properties. */
  lemma CleanPrefix(es: seq<LogEntry>, e: LogEntry)
    requires DistinctKeys(es + [e]) && NoTombstones(es + [e])
    ensures DistinctKeys(es) && NoTombstones(es)
  {
    var w := es + [e];
    assert forall i :: 0 <= i < |es| ==> w[i] == es[i];
  }

  /** The folded map never takes more bytes than the log it comes from; it takes
      exactly as many when the log has distinct keys and no tombstone, and
      strictly fewer otherwise. */
  lemma {:induction false} LiveSpan(log: seq<LogEntry>)
    ensures MapSpan(Live(log)) <= Span(log)
    ensures DistinctKeys(log) && NoTombstones(log) ==> MapSpan(Live(log)) == Span(log)
    ensures !(DistinctKeys(log) && NoTombstones(log)) ==> MapSpan(Live(log)) < Span(log)
    decreases |log|
  {
    if log != [] {
      var n := |log| - 1;
      var p, e := log[..n], log[n];
      assert log == p + [e];
      LiveStep(p, e);
      SpanAppend(p, e);
      LiveSpan(p);
      MapSpanStep(Live(p), e);
      if e.value == [] {
        assert !NoTombstones(log);
      } else if !(DistinctKeys(p) && NoTombstones(p)) {
        if DistinctKeys(log) && NoTombstones(log) {
          CleanPrefix(p, e);
        }
      } else if HasKey(p, e.key) {
        var i :| 0 <= i < |p| && p[i].key == e.key;
        assert log[i] == p[i];
        assert !DistinctKeys(log);
        LiveOfDistinct(p);
      } else {
        LiveOfDistinct(p);
        assert e.key !in Live(p);
        ExtendDistinct(p, e);
      }
    }
  }

  /** Compaction reclaims space: the rewritten log is never longer than the log
      replayed from the old file, which is never longer than that file, and it is
      strictly shorter when the old log held a superseded record or a tombstone. */
  lemma CompactionShrinks(bytes: seq<byte>, es: seq<LogEntry>)
    requires CompactionOf(Entries(Scan(bytes, 0)), es)
    ensures var log := Entries(Scan(bytes, 0));
      |EncodeAll(es)| <= |EncodeAll(log)| <= |bytes|
    ensures var log := Entries(Scan(bytes, 0));
      !(DistinctKeys(log) && NoTombstones(log)) ==> |EncodeAll(es)| < |EncodeAll(log)|
  {
    var log := Entries(Scan(bytes, 0));
    LiveSpan(es);
    LiveSpan(log);
    SpanIsLength(es);
    SpanIsLength(log);
    ScanIsEncodedPrefix(bytes, 0);
  }

  /** After compaction the file replays to exactly one record per key whose last
      record in the old log had a value, carrying that last value; keys whose last
      record was a tombstone are absent, and no tombstone remains. */
  lemma CompactedReplay(before: seq<LogEntry>, es: seq<LogEntry>)
    requires CompactionOf(before, es)
    ensures var now := Entries(Scan(EncodeAll(es), 0));
      && DistinctKeys(now) && NoTombstones(now)
      && (forall k :: HasKey(now, k) <==> Survives(before, k))
      && (forall i, j :: 0 <= i < |now| && LastOf(before, now[i].key, j) ==> now[i] == before[j])
  {
    ScanOfLog(es);
    var now := Entries(Scan(EncodeAll(es), 0));
    assert now == es;
    LiveOfDistinct(es);
    forall k ensures HasKey(now, k) <==> Survives(before, k) {
      LiveIsLatest(before, k);
    }
    forall i, j | 0 <= i < |now| && LastOf(before, now[i].key, j) ensures now[i] == before[j] {
      LiveIsLatest(before, now[i].key);
    }
  }
}
