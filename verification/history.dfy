/**
  Read paths over the append-only history: the entries of one monitor, the
  newest-first window of the monitor page (timestamp descending, at most 30
  rows) and the chart series built from that window in reverse.
 */
module History {
  import opened Models
  import opened Seqs

  /** Rows the monitor page fetches. */
  const WindowSize: nat := 30

  /** The entries of monitor `id`, in the order they were appended. Its order
      is pinned down by `ForMonitorAppend`. */
  function ForMonitor(h: seq<HistoryEntry>, id: MonitorId): (r: seq<HistoryEntry>)
    ensures |r| <= |h|
    ensures forall i :: 0 <= i < |r| ==> r[i].monitorId == id
    ensures forall e :: e in r <==> e in h && e.monitorId == id
    ensures multiset(r) <= multiset(h)
    ensures forall e :: multiset(r)[e] == if e.monitorId == id then multiset(h)[e] else 0
  {
    if |h| == 0 then []
    else
      var rest := ForMonitor(h[..|h| - 1], id);
      assert h == h[..|h| - 1] + [h[|h| - 1]];
      assert multiset(h) == multiset(h[..|h| - 1]) + multiset{h[|h| - 1]};
      if h[|h| - 1].monitorId == id then rest + [h[|h| - 1]] else rest
  }

  /** Number of entries of monitor `id`. */
  function CountFor(h: seq<HistoryEntry>, id: MonitorId): nat {
    |ForMonitor(h, id)|
  }

  /** Appending one entry adds it at the end of its own monitor's entries and
      leaves every other monitor's entries as they were. */
  lemma ForMonitorAppend(h: seq<HistoryEntry>, e: HistoryEntry, id: MonitorId)
    ensures ForMonitor([], id) == []
    ensures e.monitorId == id ==> ForMonitor(h + [e], id) == ForMonitor(h, id) + [e]
    ensures e.monitorId != id ==> ForMonitor(h + [e], id) == ForMonitor(h, id)
  {
    assert (h + [e])[..|h + [e]| - 1] == h;
  }

  /** Newest first: timestamps never increase along the sequence. */
  ghost predicate NewestFirst(s: seq<HistoryEntry>) {
    forall i, j :: 0 <= i < j < |s| ==> s[i].timestamp >= s[j].timestamp
  }

  /** Chronological: timestamps never decrease along the sequence. */
  ghost predicate Chronological(s: seq<HistoryEntry>) {
    forall i, j :: 0 <= i < j < |s| ==> s[i].timestamp <= s[j].timestamp
  }

  /** Strictly increasing timestamps: no two entries share a clock reading. */
  ghost predicate Increasing(s: seq<HistoryEntry>) {
    forall i, j :: 0 <= i < j < |s| ==> s[i].timestamp < s[j].timestamp
  }

  /** Puts `e` into a newest-first sequence, ahead of every entry no newer than it. */
  function Insert(t: seq<HistoryEntry>, e: HistoryEntry): (r: seq<HistoryEntry>)
    requires NewestFirst(t)
    ensures NewestFirst(r)
    ensures multiset(r) == multiset(t) + multiset{e}
    ensures |r| == |t| + 1
    ensures forall x :: x in r <==> x in t || x == e
  {
    if |t| == 0 || e.timestamp >= t[0].timestamp then [e] + t
    else
      var tail := Insert(t[1..], e);
      assert t == [t[0]] + t[1..];
      assert forall x :: x in tail ==> t[0].timestamp >= x.timestamp;
      [t[0]] + tail
  }

  /** One result of the `ORDER BY timestamp DESC` of the history query. The
      database leaves the order of equal timestamps open; this one puts the
      later-appended entry first. Every contract that depends on that choice
      says so, and `NewestFirstOfIncreasingIsReverse` shows that with distinct
      timestamps no choice is left. */
  function SortNewestFirst(s: seq<HistoryEntry>): (r: seq<HistoryEntry>)
    ensures NewestFirst(r)
    ensures multiset(r) == multiset(s)
    ensures |r| == |s|
  {
    if |s| == 0 then []
    else
      assert s == s[..|s| - 1] + [s[|s| - 1]];
      Insert(SortNewestFirst(s[..|s| - 1]), s[|s| - 1])
  }

  function Min(a: nat, b: nat): nat {
    if a <= b then a else b
  }

  /** The history rows the monitor page shows: the newest `WindowSize`
      entries of monitor `id`, newest first. */
  function Window(h: seq<HistoryEntry>, id: MonitorId): (w: seq<HistoryEntry>)
    ensures |w| == Min(WindowSize, CountFor(h, id))
    ensures forall i :: 0 <= i < |w| ==> w[i].monitorId == id
    ensures NewestFirst(w)
    ensures multiset(w) <= multiset(ForMonitor(h, id))
    ensures forall e, x :: e in multiset(ForMonitor(h, id)) - multiset(w) && x in w ==> e.timestamp <= x.timestamp
  {
    var f := ForMonitor(h, id);
    var k := Min(WindowSize, |f|);
    NewestPrefix(f, id, k);
    SortNewestFirst(f)[..k]
  }

  /** The first `k` entries of the sorted entries of one monitor: still that
      monitor's, still newest first, and no newer than anything left out. */
  lemma NewestPrefix(f: seq<HistoryEntry>, id: MonitorId, k: nat)
    requires forall i :: 0 <= i < |f| ==> f[i].monitorId == id
    requires k <= |f|
    ensures var w := SortNewestFirst(f)[..k];
            && (forall i :: 0 <= i < |w| ==> w[i].monitorId == id)
            && NewestFirst(w)
            && multiset(w) <= multiset(f)
            && forall e, x :: e in multiset(f) - multiset(w) && x in w ==> e.timestamp <= x.timestamp
  {
    var sorted := SortNewestFirst(f);
    var w := sorted[..k];
    PrefixSplitsMultiset(sorted, k);
    PrefixKeepsMonitor(f, sorted, id, k);
    WindowLeftOutIsOlder(sorted, k);
  }

  lemma PrefixSplitsMultiset(s: seq<HistoryEntry>, k: nat)
    requires k <= |s|
    ensures multiset(s) - multiset(s[..k]) == multiset(s[k..])
    ensures multiset(s[..k]) <= multiset(s)
  {
    assert s == s[..k] + s[k..];
  }

  lemma PrefixKeepsMonitor(f: seq<HistoryEntry>, sorted: seq<HistoryEntry>, id: MonitorId, k: nat)
    requires forall i :: 0 <= i < |f| ==> f[i].monitorId == id
    requires multiset(sorted) == multiset(f)
    requires k <= |sorted|
    ensures forall i :: 0 <= i < k ==> sorted[i].monitorId == id
  {
    forall i | 0 <= i < k
      ensures sorted[i].monitorId == id
    {
      assert sorted[i] in multiset(f);
    }
  }

  /** In a newest-first sequence, nothing past position `k` is newer than anything before it. */
  lemma WindowLeftOutIsOlder(sorted: seq<HistoryEntry>, k: nat)
    requires NewestFirst(sorted)
    requires k <= |sorted|
    ensures forall e, x :: e in sorted[k..] && x in sorted[..k] ==> e.timestamp <= x.timestamp
  {
    forall e, x | e in sorted[k..] && x in sorted[..k]
      ensures e.timestamp <= x.timestamp
    {
      var a :| 0 <= a < |sorted[k..]| && sorted[k..][a] == e;
      var b :| 0 <= b < |sorted[..k]| && sorted[..k][b] == x;
      assert sorted[b] == x && sorted[k + a] == e;
    }
  }

  datatype Chart = Chart(labels: seq<Timestamp>, data: seq<int>)

  /** The chart of the monitor page: the window read back to front, labels
      from the timestamps and data from the response times. */
  function ChartOf(w: seq<HistoryEntry>): (c: Chart)
    ensures |c.labels| == |w| && |c.data| == |w|
    ensures forall i :: 0 <= i < |w| ==> c.labels[i] == w[|w| - 1 - i].timestamp
    ensures forall i :: 0 <= i < |w| ==> c.data[i] == w[|w| - 1 - i].responseTime
  {
    var r := Reverse(w);
    Chart(seq(|r|, i requires 0 <= i < |r| => r[i].timestamp),
          seq(|r|, i requires 0 <= i < |r| => r[i].responseTime))
  }

  /** The chart of a newest-first window runs oldest to newest. */
  lemma ChartIsChronological(w: seq<HistoryEntry>)
    requires NewestFirst(w)
    ensures forall i, j :: 0 <= i < j < |w| ==> ChartOf(w).labels[i] <= ChartOf(w).labels[j]
  {
  }

  /** The entries of one monitor in a chronological history are chronological. */
  lemma {:induction false} ForMonitorChronological(h: seq<HistoryEntry>, id: MonitorId)
    requires Chronological(h)
    ensures Chronological(ForMonitor(h, id))
  {
    if |h| > 0 {
      var p := h[..|h| - 1];
      var last := h[|h| - 1];
      ForMonitorChronological(p, id);
      if last.monitorId == id {
        var r := ForMonitor(p, id);
        forall i | 0 <= i < |r|
          ensures r[i].timestamp <= last.timestamp
        {
          assert r[i] in p;
          var k :| 0 <= k < |p| && p[k] == r[i];
          assert h[k] == r[i];
        }
      }
    }
  }

  /** Sorting a chronological sequence newest first is reversing it. */
  lemma {:induction false} SortChronologicalIsReverse(s: seq<HistoryEntry>)
    requires Chronological(s)
    ensures SortNewestFirst(s) == Reverse(s)
  {
    if |s| > 0 {
      var p := s[..|s| - 1];
      var last := s[|s| - 1];
      assert Chronological(p) by {
        forall i, j | 0 <= i < j < |p|
          ensures p[i].timestamp <= p[j].timestamp
        {
          assert p[i] == s[i] && p[j] == s[j];
        }
      }
      SortChronologicalIsReverse(p);
      assert s == p + [last];
      ReverseSnoc(p, last);
      assert SortNewestFirst(s) == Insert(Reverse(p), last);
      if |p| > 0 {
        assert Reverse(p)[0] == s[|s| - 2];
        assert s[|s| - 2].timestamp <= last.timestamp;
      }
      assert Insert(Reverse(p), last) == [last] + Reverse(p);
    }
  }

  /** With a clock that never goes back, the window is the last (at most 30)
      entries of the monitor in reverse. */
  lemma WindowOfChronological(h: seq<HistoryEntry>, id: MonitorId)
    requires Chronological(h)
    ensures var f := ForMonitor(h, id);
            Window(h, id) == Reverse(f[|f| - Min(WindowSize, |f|)..])
  {
    var f := ForMonitor(h, id);
    ForMonitorChronological(h, id);
    SortChronologicalIsReverse(f);
    ReversePrefix(f, Min(WindowSize, |f|));
  }

  /** With a clock that never goes back, the chart shows the response times of
      the last (at most 30) entries of the monitor in the order they were recorded. */
  lemma ChartOfChronological(h: seq<HistoryEntry>, id: MonitorId)
    requires Chronological(h)
    ensures var f := ForMonitor(h, id);
            var k := Min(WindowSize, |f|);
            var c := ChartOf(Window(h, id));
            |c.data| == k && forall i :: 0 <= i < k ==> c.data[i] == f[|f| - k + i].responseTime
  {
    var f := ForMonitor(h, id);
    var k := Min(WindowSize, |f|);
    WindowOfChronological(h, id);
    ChartOfReverse(f[|f| - k..]);
  }

  /** The chart of a reversed sequence shows its response times in order. */
  lemma ChartOfReverse(t: seq<HistoryEntry>)
    ensures |ChartOf(Reverse(t)).data| == |t|
    ensures forall i :: 0 <= i < |t| ==> ChartOf(Reverse(t)).data[i] == t[i].responseTime
  {
  }

  /** With strictly increasing timestamps there is exactly one newest-first
      order: whatever order the database returns is the reverse. */
  lemma {:induction false} NewestFirstOfIncreasingIsReverse(s: seq<HistoryEntry>, t: seq<HistoryEntry>)
    requires Increasing(s)
    requires NewestFirst(t)
    requires multiset(t) == multiset(s)
    ensures t == Reverse(s)
    decreases |s|
  {
    assert |t| == |multiset(t)| == |multiset(s)| == |s|;
    if |s| > 0 {
      var p := s[..|s| - 1];
      var last := s[|s| - 1];
      NewestIsLast(s, t);
      var rest := t[1..];
      RemoveFirstAndLast(s, t);
      IncreasingPrefix(s);
      NewestFirstTail(t);
      NewestFirstOfIncreasingIsReverse(p, rest);
      assert s == p + [last];
      assert t == [last] + rest;
      ReverseSnoc(p, last);
    }
  }

  /** The newest entry of a newest-first permutation of an increasing sequence is its last one. */
  lemma NewestIsLast(s: seq<HistoryEntry>, t: seq<HistoryEntry>)
    requires Increasing(s)
    requires NewestFirst(t)
    requires multiset(t) == multiset(s)
    requires |s| > 0
    ensures |t| > 0 && t[0] == s[|s| - 1]
  {
    assert |t| == |multiset(t)| == |multiset(s)| == |s|;
    var last := s[|s| - 1];
    assert t[0] in multiset(s);
    var k :| 0 <= k < |s| && s[k] == t[0];
    assert last in multiset(t);
    var m :| 0 <= m < |t| && t[m] == last;
    assert t[0].timestamp >= last.timestamp by {
      if m > 0 {
        assert t[0].timestamp >= t[m].timestamp;
      }
    }
    assert forall i :: 0 <= i < |s| - 1 ==> s[i].timestamp < last.timestamp;
    assert s[k].timestamp >= last.timestamp;
  }

  /** Dropping the same entry from both ends keeps two sequences permutations of each other. */
  lemma RemoveFirstAndLast(s: seq<HistoryEntry>, t: seq<HistoryEntry>)
    requires multiset(t) == multiset(s)
    requires |s| > 0 && |t| > 0 && t[0] == s[|s| - 1]
    ensures multiset(t[1..]) == multiset(s[..|s| - 1])
  {
    var x := t[0];
    var a := multiset(t[1..]);
    var b := multiset(s[..|s| - 1]);
    assert t == [x] + t[1..];
    assert s == s[..|s| - 1] + [x];
    assert multiset{x} + a == multiset{x} + b;
    forall y
      ensures a[y] == b[y]
    {
      assert (multiset{x} + a)[y] == multiset{x}[y] + a[y];
      assert (multiset{x} + b)[y] == multiset{x}[y] + b[y];
    }
    assert a == b;
  }

  lemma IncreasingPrefix(s: seq<HistoryEntry>)
    requires Increasing(s) && |s| > 0
    ensures Increasing(s[..|s| - 1])
  {
    var p := s[..|s| - 1];
    forall i, j | 0 <= i < j < |p|
      ensures p[i].timestamp < p[j].timestamp
    {
      assert p[i] == s[i] && p[j] == s[j];
    }
  }

  lemma NewestFirstTail(t: seq<HistoryEntry>)
    requires NewestFirst(t) && |t| > 0
    ensures NewestFirst(t[1..])
  {
    var r := t[1..];
    forall i, j | 0 <= i < j < |r|
      ensures r[i].timestamp >= r[j].timestamp
    {
      assert r[i] == t[i + 1] && r[j] == t[j + 1];
    }
  }

  /** The entries of one monitor in a history with increasing timestamps have
      increasing timestamps. */
  lemma {:induction false} ForMonitorIncreasing(h: seq<HistoryEntry>, id: MonitorId)
    requires Increasing(h)
    ensures Increasing(ForMonitor(h, id))
  {
    if |h| > 0 {
      var p := h[..|h| - 1];
      var last := h[|h| - 1];
      IncreasingPrefix(h);
      ForMonitorIncreasing(p, id);
      if last.monitorId == id {
        assert forall k :: 0 <= k < |p| ==> p[k].timestamp < last.timestamp by {
          forall k | 0 <= k < |p|
            ensures p[k].timestamp < last.timestamp
          {
            assert p[k] == h[k];
          }
        }
        ForMonitorBelow(p, id, last.timestamp);
        IncreasingSnoc(ForMonitor(p, id), last);
      }
    }
  }

  /** An entry of one monitor is no newer than a bound every history entry is below. */
  lemma ForMonitorBelow(p: seq<HistoryEntry>, id: MonitorId, bound: Timestamp)
    requires forall k :: 0 <= k < |p| ==> p[k].timestamp < bound
    ensures forall i :: 0 <= i < |ForMonitor(p, id)| ==> ForMonitor(p, id)[i].timestamp < bound
  {
    var r := ForMonitor(p, id);
    forall i | 0 <= i < |r|
      ensures r[i].timestamp < bound
    {
      assert r[i] in p;
      var k :| 0 <= k < |p| && p[k] == r[i];
    }
  }

  lemma IncreasingSnoc(r: seq<HistoryEntry>, x: HistoryEntry)
    requires Increasing(r)
    requires forall i :: 0 <= i < |r| ==> r[i].timestamp < x.timestamp
    ensures Increasing(r + [x])
  {
    var s := r + [x];
    forall i, j | 0 <= i < j < |s|
      ensures s[i].timestamp < s[j].timestamp
    {
      assert s[i] == r[i];
    }
  }

  /** With distinct clock readings the monitor page does not depend on how the
      database orders the query: every newest-first order of the monitor's
      entries shows its last (at most 30) entries, newest first, and charts
      their response times in the order they were recorded. */
  lemma QueryOfIncreasing(h: seq<HistoryEntry>, id: MonitorId, sorted: seq<HistoryEntry>)
    requires Increasing(h)
    requires NewestFirst(sorted)
    requires multiset(sorted) == multiset(ForMonitor(h, id))
    ensures var f := ForMonitor(h, id);
            var k := Min(WindowSize, |f|);
            && |sorted| == |f|
            && sorted[..k] == Reverse(f[|f| - k..])
            && |ChartOf(sorted[..k]).data| == k
            && forall i :: 0 <= i < k ==> ChartOf(sorted[..k]).data[i] == f[|f| - k + i].responseTime
  {
    var f := ForMonitor(h, id);
    var k := Min(WindowSize, |f|);
    ForMonitorIncreasing(h, id);
    NewestFirstOfIncreasingIsReverse(f, sorted);
    ReversePrefix(f, k);
    ChartOfReverse(f[|f| - k..]);
  }
}
