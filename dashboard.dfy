/**
 * The dashboard's view of the decision log (`SystemState`): the records
 * inside a lookback window, and the summaries computed over them.
 */
module Dashboard {
  import opened Wrappers
  import opened Seqs
  import opened Decisions
  import opened Actions

  /** Timestamps count microseconds, the resolution of `isoformat()`. */
  const MicrosPerHour := 3600 * 1000000
  const DefaultLookbackHours := 24
  const DefaultTopK := 3

  const Red := "RED"
  const Yellow := "YELLOW"
  const Green := "GREEN"

  // ---------- Lookback window ----------

  /** Keeps a record whose timestamp is at or after the cutoff. */
  function InWindow(cutoff: int): LogEntry -> Option<LogEntry> {
    (e: LogEntry) => if e.timestamp >= cutoff then Some(e) else None
  }

  /** The records of the log inside the window, in log order. */
  function Recent(log: seq<LogEntry>, cutoff: int): seq<LogEntry> {
    FilterMap(log, InWindow(cutoff))
  }

  /**
   * The window holds exactly the records with timestamp at or after the
   * cutoff, in log order: its k-th record is the log's record at an
   * increasing position, and every record of the log in the window is kept.
   */
  lemma RecentExact(log: seq<LogEntry>, cutoff: int)
    ensures var w := Recent(log, cutoff); var pos := Selected(log, InWindow(cutoff));
      && |w| == |pos|
      && (forall k :: 0 <= k < |w| ==> 0 <= pos[k] < |log| && w[k] == log[pos[k]] && w[k].timestamp >= cutoff)
      && (forall k, l :: 0 <= k < l < |w| ==> pos[k] < pos[l])
      && (forall i :: 0 <= i < |log| && log[i].timestamp >= cutoff ==> i in pos)
  {
    FilterMapSelects(log, InWindow(cutoff));
  }

  // ---------- Counters ----------

  function DecisionNames(recs: seq<LogEntry>): (names: seq<string>)
    ensures |names| == |recs|
  {
    seq(|recs|, i requires 0 <= i < |recs| => recs[i].decision)
  }

  function SeverityNames(recs: seq<LogEntry>): (names: seq<string>)
    ensures |names| == |recs|
  {
    seq(|recs|, i requires 0 <= i < |recs| => recs[i].severity)
  }

  /** How many times a value occurs in a sequence is the number of positions that hold it. */
  lemma {:induction false} CountIsOccurrences(s: seq<string>, x: string)
    ensures multiset(s)[x] == |set i | 0 <= i < |s| && s[i] == x|
  {
    if s != [] {
      var n := |s| - 1;
      var sp := s[..n];
      CountIsOccurrences(sp, x);
      assert s == sp + [s[n]];
      var before := set i | 0 <= i < |sp| && sp[i] == x;
      var after := set i | 0 <= i < |s| && s[i] == x;
      if s[n] == x {
        assert after == before + {n};
      } else {
        assert after == before;
      }
    }
  }

  function ReasonTexts(recs: seq<LogEntry>): (texts: seq<string>)
    ensures |texts| == |recs|
  {
    seq(|recs|, i requires 0 <= i < |recs| => recs[i].reason)
  }

  // ---------- Latest decision ----------

  /**
   * `max(records, key=timestamp)`: the first record with the greatest
   * timestamp, None when there is none.
   */
  function Latest(recs: seq<LogEntry>): (r: Option<LogEntry>)
    ensures r.None? <==> recs == []
    ensures r.Some? ==> forall j :: 0 <= j < |recs| ==> recs[j].timestamp <= r.value.timestamp
    ensures r.Some? ==>
              exists i :: 0 <= i < |recs| && recs[i] == r.value &&
                forall j :: 0 <= j < i ==> recs[j].timestamp < r.value.timestamp
  {
    if recs == [] then None
    else
      match Latest(recs[1..])
      case None => Some(recs[0])
      case Some(later) =>
        if later.timestamp > recs[0].timestamp then
          var i :| 0 <= i < |recs[1..]| && recs[1..][i] == later &&
                   forall j :: 0 <= j < i ==> recs[1..][j].timestamp < later.timestamp;
          assert recs[i + 1] == later;
          Some(later)
        else
          Some(recs[0])
  }

  // ---------- Risk trend ----------

  predicate TimeSorted(s: seq<LogEntry>) {
    forall i, j :: 0 <= i < j < |s| ==> s[i].timestamp <= s[j].timestamp
  }

  predicate AllAtLeast(s: seq<LogEntry>, t: int) {
    forall i :: 0 <= i < |s| ==> t <= s[i].timestamp
  }

  /** Inserts `e` before the first record not earlier than it. */
  function InsertByTime(e: LogEntry, s: seq<LogEntry>): seq<LogEntry> {
    if s == [] || e.timestamp <= s[0].timestamp then [e] + s
    else [s[0]] + InsertByTime(e, s[1..])
  }

  /** Insertion adds `e` and keeps every other record. */
  lemma {:induction false} InsertByTimePermutes(e: LogEntry, s: seq<LogEntry>)
    ensures multiset(InsertByTime(e, s)) == multiset(s) + multiset{e}
  {
    if s != [] && e.timestamp > s[0].timestamp {
      InsertByTimePermutes(e, s[1..]);
      assert s == [s[0]] + s[1..];
    }
  }

  lemma {:induction false} InsertByTimeBound(e: LogEntry, s: seq<LogEntry>, t: int)
    requires AllAtLeast(s, t) && t <= e.timestamp
    ensures AllAtLeast(InsertByTime(e, s), t)
  {
    if s != [] && e.timestamp > s[0].timestamp {
      InsertByTimeBound(e, s[1..], t);
    }
  }

  lemma {:induction false} InsertByTimeSorted(e: LogEntry, s: seq<LogEntry>)
    requires TimeSorted(s)
    ensures TimeSorted(InsertByTime(e, s))
  {
    if s != [] && e.timestamp > s[0].timestamp {
      var tail := s[1..];
      InsertByTimeSorted(e, tail);
      InsertByTimeBound(e, tail, s[0].timestamp);
    }
  }

  /** `sorted(records, key=timestamp)`: an insertion sort, ordered and a permutation. */
  function SortByTime(recs: seq<LogEntry>): (r: seq<LogEntry>)
    ensures multiset(r) == multiset(recs)
    ensures TimeSorted(r)
  {
    if recs == [] then []
    else
      assert recs == [recs[0]] + recs[1..];
      InsertByTimePermutes(recs[0], SortByTime(recs[1..]));
      InsertByTimeSorted(recs[0], SortByTime(recs[1..]));
      InsertByTime(recs[0], SortByTime(recs[1..]))
  }

  /** The records of `s` stamped exactly `t`, in their order in `s`. */
  function Ties(s: seq<LogEntry>, t: int): seq<LogEntry> {
    if s == [] then []
    else if s[0].timestamp == t then [s[0]] + Ties(s[1..], t)
    else Ties(s[1..], t)
  }

  /** Inserting a record puts it in front of the other records of its timestamp. */
  lemma {:induction false} InsertKeepsTies(e: LogEntry, s: seq<LogEntry>, t: int)
    ensures e.timestamp == t ==> Ties(InsertByTime(e, s), t) == [e] + Ties(s, t)
    ensures e.timestamp != t ==> Ties(InsertByTime(e, s), t) == Ties(s, t)
  {
    if s == [] || e.timestamp <= s[0].timestamp {
      assert InsertByTime(e, s) == [e] + s;
      assert ([e] + s)[1..] == s;
    } else {
      var tail := s[1..];
      InsertKeepsTies(e, tail, t);
      var ins := InsertByTime(e, tail);
      assert InsertByTime(e, s) == [s[0]] + ins;
      assert ([s[0]] + ins)[1..] == ins;
      if s[0].timestamp == t {
        assert e.timestamp != t;
      }
    }
  }

  /**
   * The sort is stable, as Python's is: the records sharing a timestamp
   * come out in the order they had in the log.
   */
  lemma {:induction false} SortByTimeStable(recs: seq<LogEntry>, t: int)
    ensures Ties(SortByTime(recs), t) == Ties(recs, t)
  {
    if recs != [] {
      SortByTimeStable(recs[1..], t);
      InsertKeepsTies(recs[0], SortByTime(recs[1..]), t);
    }
  }

  /** `severity_to_risk.get(severity, 0.0)`. */
  function SeverityRisk(severity: string): real {
    if severity == Info then 0.0
    else if severity == Warn then 0.5
    else if severity == Critical then 1.0
    else 0.0
  }

  /** The severity-derived risk of each record, in timestamp order. */
  function RiskTrendOf(recs: seq<LogEntry>): seq<real> {
    var sorted := SortByTime(recs);
    seq(|sorted|, i requires 0 <= i < |sorted| => SeverityRisk(sorted[i].severity))
  }

  /**
   * The trend has one value per record, each 0.0, 0.5 or 1.0; the i-th value
   * belongs to the i-th record of a timestamp-ordered rearrangement of the
   * records that keeps ties in log order.
   */
  lemma RiskTrendFacts(recs: seq<LogEntry>)
    ensures var trend := RiskTrendOf(recs); var sorted := SortByTime(recs);
      && |trend| == |recs| == |sorted|
      && multiset(sorted) == multiset(recs)
      && TimeSorted(sorted)
      && (forall t :: Ties(sorted, t) == Ties(recs, t))
      && (forall i :: 0 <= i < |trend| ==>
            && trend[i] == SeverityRisk(sorted[i].severity)
            && (trend[i] == 0.0 || trend[i] == 0.5 || trend[i] == 1.0)
            && (trend[i] == 1.0 <==> sorted[i].severity == Critical)
            && (trend[i] == 0.5 <==> sorted[i].severity == Warn))
  {
    var sorted := SortByTime(recs);
    assert |multiset(sorted)| == |multiset(recs)|;
    forall t ensures Ties(sorted, t) == Ties(recs, t) {
      SortByTimeStable(recs, t);
    }
  }

  // ---------- Frequent reasons ----------

  /** The distinct values of `xs`, in order of first occurrence. */
  function Distinct(xs: seq<string>): (d: seq<string>)
    ensures forall x :: x in d <==> x in xs
    ensures forall i, j :: 0 <= i < j < |d| ==> d[i] != d[j]
  {
    if xs == [] then []
    else
      var n := |xs| - 1;
      assert xs == xs[..n] + [xs[n]];
      var d := Distinct(xs[..n]);
      if xs[n] in d then d else d + [xs[n]]
  }

  predicate KeysDistinct(ps: seq<(string, nat)>) {
    forall i, j :: 0 <= i < j < |ps| ==> ps[i].0 != ps[j].0
  }

  predicate CountsDescending(ps: seq<(string, nat)>) {
    forall i, j :: 0 <= i < j < |ps| ==> ps[i].1 >= ps[j].1
  }

  predicate AllAtMost(ps: seq<(string, nat)>, n: nat) {
    forall i :: 0 <= i < |ps| ==> ps[i].1 <= n
  }

  predicate KeyAbsent(ps: seq<(string, nat)>, key: string) {
    forall i :: 0 <= i < |ps| ==> ps[i].0 != key
  }

  /**
   * `Counter(xs).items()`: each distinct value once, in order of first
   * occurrence, with its number of occurrences.
   */
  function Tallies(xs: seq<string>): (ps: seq<(string, nat)>)
    ensures |ps| == |Distinct(xs)|
    ensures KeysDistinct(ps)
    ensures forall i :: 0 <= i < |ps| ==> ps[i].0 in xs && ps[i].1 == multiset(xs)[ps[i].0]
  {
    var d := Distinct(xs);
    seq(|d|, i requires 0 <= i < |d| => (d[i], multiset(xs)[d[i]]))
  }

  /** Every value of `xs` has a tally. */
  lemma TalliesCover(xs: seq<string>, x: string)
    requires x in xs
    ensures exists i :: 0 <= i < |Tallies(xs)| && Tallies(xs)[i].0 == x
  {
    var d := Distinct(xs);
    var i :| 0 <= i < |d| && d[i] == x;
    assert Tallies(xs)[i].0 == x;
  }

  /** Inserts `p` before the first pair whose count is not above its own. */
  function InsertByCount(p: (string, nat), s: seq<(string, nat)>): (r: seq<(string, nat)>)
    ensures multiset(r) == multiset(s) + multiset{p}
  {
    if s == [] || p.1 >= s[0].1 then [p] + s
    else
      assert s == [s[0]] + s[1..];
      [s[0]] + InsertByCount(p, s[1..])
  }

  lemma {:induction false} InsertByCountBound(p: (string, nat), s: seq<(string, nat)>, n: nat)
    requires AllAtMost(s, n) && p.1 <= n
    ensures AllAtMost(InsertByCount(p, s), n)
  {
    if s != [] && p.1 < s[0].1 {
      InsertByCountBound(p, s[1..], n);
    }
  }

  lemma {:induction false} InsertByCountSorted(p: (string, nat), s: seq<(string, nat)>)
    requires CountsDescending(s)
    ensures CountsDescending(InsertByCount(p, s))
  {
    if s != [] && p.1 < s[0].1 {
      var tail := s[1..];
      InsertByCountSorted(p, tail);
      InsertByCountBound(p, tail, s[0].1);
    }
  }

  lemma {:induction false} InsertByCountAbsent(p: (string, nat), s: seq<(string, nat)>, key: string)
    requires KeyAbsent(s, key) && p.0 != key
    ensures KeyAbsent(InsertByCount(p, s), key)
  {
    if s != [] && p.1 < s[0].1 {
      InsertByCountAbsent(p, s[1..], key);
    }
  }

  lemma {:induction false} InsertByCountKeys(p: (string, nat), s: seq<(string, nat)>)
    requires KeysDistinct(s) && KeyAbsent(s, p.0)
    ensures KeysDistinct(InsertByCount(p, s))
  {
    if s != [] && p.1 < s[0].1 {
      var tail := s[1..];
      InsertByCountKeys(p, tail);
      InsertByCountAbsent(p, tail, s[0].0);
    }
  }

  /** `sorted(pairs, key=count, reverse=True)`: ordered by count and a permutation. */
  function SortByCount(ps: seq<(string, nat)>): (r: seq<(string, nat)>)
    ensures multiset(r) == multiset(ps)
    ensures CountsDescending(r)
  {
    if ps == [] then []
    else
      assert ps == [ps[0]] + ps[1..];
      InsertByCountSorted(ps[0], SortByCount(ps[1..]));
      InsertByCount(ps[0], SortByCount(ps[1..]))
  }

  lemma {:induction false} SortByCountKeys(ps: seq<(string, nat)>)
    requires KeysDistinct(ps)
    ensures KeysDistinct(SortByCount(ps))
  {
    if ps != [] {
      var tail := ps[1..];
      var rest := SortByCount(tail);
      SortByCountKeys(tail);
      forall i | 0 <= i < |rest| ensures rest[i].0 != ps[0].0 {
        assert rest[i] in multiset(tail);
        var j :| 0 <= j < |tail| && tail[j] == rest[i];
        assert ps[j + 1] == rest[i];
      }
      InsertByCountKeys(ps[0], rest);
    }
  }

  /** The first `k` pairs of `s`, all of them when `k` is larger, none when `k <= 0`. */
  function Take(s: seq<(string, nat)>, k: int): (r: seq<(string, nat)>)
    ensures |r| == if k <= 0 then 0 else if k < |s| then k else |s|
    ensures forall i :: 0 <= i < |r| ==> r[i] == s[i]
  {
    if k <= 0 then [] else s[..if k < |s| then k else |s|]
  }

  /** `Counter(xs).most_common(k)`, as its ordered list of pairs. */
  function MostCommon(xs: seq<string>, k: int): seq<(string, nat)> {
    Take(SortByCount(Tallies(xs)), k)
  }

  /** The sorted tallies are a permutation of the tallies, so the same facts hold of them. */
  lemma {:induction false} SortedTallies(xs: seq<string>)
    ensures var sorted := SortByCount(Tallies(xs));
      && |sorted| == |Distinct(xs)|
      && KeysDistinct(sorted)
      && CountsDescending(sorted)
      && (forall i :: 0 <= i < |sorted| ==> sorted[i].0 in xs && sorted[i].1 == multiset(xs)[sorted[i].0])
      && (forall x :: x in xs ==> exists j :: 0 <= j < |sorted| && sorted[j].0 == x)
  {
    var tallies := Tallies(xs);
    var sorted := SortByCount(tallies);
    assert |multiset(sorted)| == |multiset(tallies)|;
    SortByCountKeys(tallies);
    forall i | 0 <= i < |sorted| ensures sorted[i].0 in xs && sorted[i].1 == multiset(xs)[sorted[i].0] {
      assert sorted[i] in multiset(tallies);
    }
    forall x | x in xs ensures exists j :: 0 <= j < |sorted| && sorted[j].0 == x {
      TalliesCover(xs, x);
      var i :| 0 <= i < |tallies| && tallies[i].0 == x;
      assert tallies[i] in multiset(sorted);
    }
  }

  /**
   * At most `k` reasons, as many as there are distinct ones up to `k`; each
   * listed once with its number of occurrences, in non-increasing count order.
   */
  lemma MostCommonFacts(xs: seq<string>, k: int)
    ensures var r := MostCommon(xs, k);
      && |r| == (if k <= 0 then 0 else if k < |Distinct(xs)| then k else |Distinct(xs)|)
      && (forall i :: 0 <= i < |r| ==> r[i].0 in xs && r[i].1 == multiset(xs)[r[i].0])
      && KeysDistinct(r)
      && CountsDescending(r)
  {
    SortedTallies(xs);
  }

  /** A value of `xs` left out of the top `k` occurs no more often than any listed one. */
  lemma MostCommonLeavesOutLess(xs: seq<string>, k: int, x: string)
    requires x in xs
    requires forall i :: 0 <= i < |MostCommon(xs, k)| ==> MostCommon(xs, k)[i].0 != x
    ensures forall i :: 0 <= i < |MostCommon(xs, k)| ==> multiset(xs)[x] <= MostCommon(xs, k)[i].1
  {
    SortedTallies(xs);
    var sorted := SortByCount(Tallies(xs));
    var j :| 0 <= j < |sorted| && sorted[j].0 == x;
    assert |MostCommon(xs, k)| <= j;
  }

  // ---------- Health ----------

  /** RED on any CRITICAL, else YELLOW on any WARN, else GREEN. */
  function Health(severityCounts: multiset<string>): string {
    if severityCounts[Critical] > 0 then Red
    else if severityCounts[Warn] > 0 then Yellow
    else Green
  }

  /** The records loaded from the decision log, and the summaries over them. */
  class SystemState {
    const lookbackHours: int
    var decisions: seq<LogEntry>

    /**
     * `logFile` is the log's records, None when the log file does not exist;
     * `now` is the UTC clock reading, in microseconds.
     */
    constructor (logFile: Option<seq<LogEntry>>, now: int, lookbackHours: int := DefaultLookbackHours)
      ensures this.lookbackHours == lookbackHours
      ensures decisions == if logFile.Some? then Recent(logFile.value, now - lookbackHours * MicrosPerHour) else []
    {
      this.lookbackHours := lookbackHours;
      decisions := [];
      new;
      Load(logFile, now);
    }

    /** `_load`: appends the records inside the lookback window, in log order. */
    method Load(logFile: Option<seq<LogEntry>>, now: int)
      modifies this
      ensures decisions == old(decisions) +
        if logFile.Some? then Recent(logFile.value, now - lookbackHours * MicrosPerHour) else []
    {
      if logFile.None? {
        return;
      }
      var cutoff := now - lookbackHours * MicrosPerHour;
      var lines := logFile.value;
      for i := 0 to |lines|
        invariant decisions == old(decisions) + Recent(lines[..i], cutoff)
      {
        var record := lines[i];
        assert lines[..i + 1][..i] == lines[..i];
        if record.timestamp >= cutoff {
          decisions := decisions + [record];
        }
      }
      assert lines[..|lines|] == lines;
    }

    function TotalEvents(): nat
      reads this
    {
      |decisions|
    }

    /** `Counter` of the decision names; its counts add up to the number of records. */
    function DecisionCounts(): (c: multiset<string>)
      reads this
      ensures |c| == TotalEvents()
      ensures forall name :: name in c <==> exists i :: 0 <= i < |decisions| && decisions[i].decision == name
      ensures forall name :: c[name] == |set i | 0 <= i < |decisions| && decisions[i].decision == name|
    {
      var names := DecisionNames(decisions);
      assert forall i :: 0 <= i < |decisions| ==> names[i] == decisions[i].decision;
      assert forall name :: multiset(names)[name] == |set i | 0 <= i < |decisions| && decisions[i].decision == name| by {
        forall name
          ensures multiset(names)[name] == |set i | 0 <= i < |decisions| && decisions[i].decision == name|
        {
          CountIsOccurrences(names, name);
          var byName := set i | 0 <= i < |names| && names[i] == name;
          var byRecord := set i | 0 <= i < |decisions| && decisions[i].decision == name;
          assert byName == byRecord;
        }
      }
      multiset(names)
    }

    /** `Counter` of the severities; its counts add up to the number of records. */
    function SeverityCounts(): (c: multiset<string>)
      reads this
      ensures |c| == TotalEvents()
      ensures forall severity :: severity in c <==> exists i :: 0 <= i < |decisions| && decisions[i].severity == severity
      ensures forall severity :: c[severity] == |set i | 0 <= i < |decisions| && decisions[i].severity == severity|
    {
      var names := SeverityNames(decisions);
      assert forall i :: 0 <= i < |decisions| ==> names[i] == decisions[i].severity;
      assert forall severity :: multiset(names)[severity] == |set i | 0 <= i < |decisions| && decisions[i].severity == severity| by {
        forall severity
          ensures multiset(names)[severity] == |set i | 0 <= i < |decisions| && decisions[i].severity == severity|
        {
          CountIsOccurrences(names, severity);
          var byName := set i | 0 <= i < |names| && names[i] == severity;
          var byRecord := set i | 0 <= i < |decisions| && decisions[i].severity == severity;
          assert byName == byRecord;
        }
      }
      multiset(names)
    }

    /** None when no record is loaded, else a loaded record with the greatest timestamp. */
    function LatestDecision(): (r: Option<LogEntry>)
      reads this
      ensures r.None? <==> decisions == []
      ensures r.Some? ==> r.value in decisions && forall d :: d in decisions ==> d.timestamp <= r.value.timestamp
    {
      Latest(decisions)
    }

    /** The severity-derived risks, one per record, in timestamp order. */
    function RiskTrend(): (trend: seq<real>)
      reads this
      ensures |trend| == TotalEvents()
      ensures forall i :: 0 <= i < |trend| ==> trend[i] == 0.0 || trend[i] == 0.5 || trend[i] == 1.0
    {
      RiskTrendFacts(decisions);
      RiskTrendOf(decisions)
    }

    /** The `topK` most frequent reasons with their counts. */
    function FrequentReasons(topK: int := DefaultTopK): (r: seq<(string, nat)>)
      reads this
      ensures |r| <= if topK <= 0 then 0 else topK
      ensures forall i :: 0 <= i < |r| ==> r[i].1 == multiset(ReasonTexts(decisions))[r[i].0] > 0
      ensures forall i, j :: 0 <= i < j < |r| ==> r[i].0 != r[j].0 && r[i].1 >= r[j].1
    {
      MostCommonFacts(ReasonTexts(decisions), topK);
      MostCommon(ReasonTexts(decisions), topK)
    }

    /** RED iff some record is CRITICAL; YELLOW iff none is and some is WARN; GREEN otherwise. */
    function SystemHealth(): (h: string)
      reads this
      ensures h == Red <==> exists i :: 0 <= i < |decisions| && decisions[i].severity == Critical
      ensures h == Yellow <==>
                (forall i :: 0 <= i < |decisions| ==> decisions[i].severity != Critical) &&
                exists i :: 0 <= i < |decisions| && decisions[i].severity == Warn
      ensures h == Green <==> forall i :: 0 <= i < |decisions| ==> decisions[i].severity != Critical && decisions[i].severity != Warn
    {
      Health(SeverityCounts())
    }
  }
}
