/** The log analysis page: picking the sample at a play-back time, cutting the loaded
    log to the span slider's window and choosing which samples become GNSS map points,
    and browsing the log directory on the connected controller. A log sample is modelled
    by the values of its entries; the map geometry, the graphs and the statistics stay
    outside. */
module LogAnalysis {
  import opened Wrappers
  import FN = FileNames

  /** The values of one logged sample, one per column. */
  type Row = seq<real>

  /** Milliseconds in a day: the offset added when the clock passed midnight. */
  const MsPerDay := 60 * 60 * 24 * 1000

  /** The span slider's scale: its values run from 0 to 10000. */
  const SpanScale := 10000

  /** The column indices the page looks up in the log header; -1 when missing. */
  datatype Columns = Columns(tDay: int, tDayPos: int, gnssHAcc: int, gnssLat: int, gnssLon: int)

  /** Every column that is present lies inside the row. */
  predicate Fits(r: Row, c: Columns) {
    && c.tDay < |r| && c.tDayPos < |r| && c.gnssHAcc < |r| && c.gnssLat < |r| && c.gnssLon < |r|
  }

  /** A C++ conversion from double to int: the fraction is dropped, toward zero. */
  function TruncToInt(x: real): (r: int)
    ensures 0.0 <= x ==> r as real <= x < r as real + 1.0
    ensures x < 0.0 ==> r as real - 1.0 < x <= r as real
  {
    if x >= 0.0 then x.Floor else -((-x).Floor)
  }

  /** The play-back offset getLogSample computes for sample `i`: its time of day in
      milliseconds less the first sample's, a day added when that is negative. */
  function Offset(rows: seq<Row>, tDay: nat, i: nat): int
    requires i < |rows| && tDay < |rows[0]| && tDay < |rows[i]|
  {
    var startTime := TruncToInt(rows[0][tDay] * 1000.0);
    var now := TruncToInt(rows[i][tDay] * 1000.0 - startTime as real);
    if now < 0 then now + MsPerDay else now
  }

  /** The first sample is at offset zero whatever its time stamp, so any time up to
      zero selects it. */
  lemma FirstOffsetIsZero(rows: seq<Row>, tDay: nat)
    requires 0 < |rows| && tDay < |rows[0]|
    ensures Offset(rows, tDay, 0) == 0
  {
    var x := rows[0][tDay] * 1000.0;
    var s := TruncToInt(x);
    var y := x - s as real;
    if 0.0 <= x {
      assert 0.0 <= y < 1.0;
    } else {
      assert -1.0 < y <= 0.0;
    }
    assert TruncToInt(y) == 0;
  }

  /** The span window: the sample with 1-based index `ind` of `size` is kept when
      alt / 10000 <= ind / size <= val / 10000, here with the fractions cleared. */
  predicate InWindow(ind: int, size: int, alt: int, val: int) {
    alt * size <= ind * SpanScale <= val * size
  }

  /** The comparisons truncateDataAndPlot makes on the two quotients are the window. */
  lemma {:induction false} WindowByQuotients(ind: int, size: int, alt: int, val: int)
    requires size > 0
    ensures !((ind as real) / (size as real) < (alt as real) / (SpanScale as real)
              || (ind as real) / (size as real) > (val as real) / (SpanScale as real))
            <==> InWindow(ind, size, alt, val)
  {
    var p := (ind as real) / (size as real);
    var n := size as real;
    var m := SpanScale as real;
    assert p * n == ind as real;
    assert (alt as real) / m * m == alt as real;
    assert (val as real) / m * m == val as real;
    assert p < (alt as real) / m <==> p * n * m < (alt as real) / m * m * n by {
      QuotientOrder(p, (alt as real) / m, n * m);
    }
    assert p > (val as real) / m <==> (val as real) / m * m * n < p * n * m by {
      QuotientOrder((val as real) / m, p, n * m);
    }
  }

  /** Scaling by a positive factor keeps the order of two reals. */
  lemma QuotientOrder(a: real, b: real, k: real)
    requires k > 0.0
    ensures a < b <==> a * k < b * k
  {
    if a < b {
      assert (b - a) * k > 0.0;
    } else {
      assert (a - b) * k >= 0.0;
    }
  }

  /** The 0-based indices of the samples among the first `n` that the window keeps. */
  function KeptIndices(size: int, n: nat, alt: int, val: int): (r: seq<nat>)
    ensures forall j :: 0 <= j < |r| ==> r[j] < n
    decreases n
  {
    if n == 0 then []
    else KeptIndices(size, n - 1, alt, val) + (if InWindow(n, size, alt, val) then [n - 1] else [])
  }

  /** The samples at the given indices, in that order. */
  function RowsAt(log: seq<Row>, idx: seq<nat>): seq<Row>
    requires forall j :: 0 <= j < |idx| ==> idx[j] < |log|
  {
    seq(|idx|, j requires 0 <= j < |idx| => log[idx[j]])
  }

  /** The window keeps each sample exactly when its index is in the window, and keeps
      them in the log's order. */
  lemma {:induction false} KeptIndicesSpec(size: int, n: nat, alt: int, val: int)
    ensures forall j, k :: 0 <= j < k < |KeptIndices(size, n, alt, val)| ==>
      KeptIndices(size, n, alt, val)[j] < KeptIndices(size, n, alt, val)[k]
    ensures forall i :: i in KeptIndices(size, n, alt, val) <==> 0 <= i < n && InWindow(i + 1, size, alt, val)
    decreases n
  {
    if n > 0 {
      KeptIndicesSpec(size, n - 1, alt, val);
    }
  }

  /** The pos-time of a sample in milliseconds: int(t_day_pos * 1000.0). */
  function PosTime(r: Row, c: Columns): int
    requires Fits(r, c) && c.tDayPos >= 0
  {
    TruncToInt(r[c.tDayPos] * 1000.0)
  }

  /** Whether the GNSS time and accuracy columns are both present. */
  predicate HasGnssTime(c: Columns) {
    c.tDayPos >= 0 && c.gnssHAcc >= 0
  }

  /** Whether the latitude and longitude columns are both present. */
  predicate HasGnssPosition(c: Columns) {
    c.gnssLat >= 0 && c.gnssLon >= 0
  }

  /** The skip rule for a kept sample with the last plotted pos-time `last`: whether
      it becomes a map point, and the pos-time that is remembered afterwards. */
  function Step(r: Row, c: Columns, filterOutlier: bool, hAccMax: real, last: int): (bool, int)
    requires Fits(r, c)
  {
    var (accepted, last') :=
      if HasGnssTime(c) then
        var t := PosTime(r, c);
        if t >= 0 && (!filterOutlier || r[c.gnssHAcc] < hAccMax) && last != t then (true, t)
        else (false, last)
      else (true, last);
    (accepted && HasGnssPosition(c), last')
  }

  /** The map points (0-based log indices) among the first `n` samples, and the
      remembered pos-time, starting from -1. */
  function Plot(log: seq<Row>, c: Columns, n: nat, alt: int, val: int, filterOutlier: bool, hAccMax: real): (seq<nat>, int)
    requires n <= |log| && forall i :: 0 <= i < |log| ==> Fits(log[i], c)
    decreases n
  {
    if n == 0 then ([], -1)
    else
      var (points, last) := Plot(log, c, n - 1, alt, val, filterOutlier, hAccMax);
      if !InWindow(n, |log|, alt, val) then (points, last)
      else
        var (plot, last') := Step(log[n - 1], c, filterOutlier, hAccMax, last);
        (points + (if plot then [n - 1] else []), last')
  }

  /** The map points among the first `n` samples. */
  function Points(log: seq<Row>, c: Columns, n: nat, alt: int, val: int, filterOutlier: bool, hAccMax: real): seq<nat>
    requires n <= |log| && forall i :: 0 <= i < |log| ==> Fits(log[i], c)
  {
    Plot(log, c, n, alt, val, filterOutlier, hAccMax).0
  }

  /** Every map point is a kept sample with a position; with the GNSS time columns it
      also has a non-negative pos-time and, when the outlier filter is on, an accuracy
      below the limit. Points come in log order. */
  lemma {:induction false} PlotPointsSpec(log: seq<Row>, c: Columns, n: nat, alt: int, val: int,
                                          filterOutlier: bool, hAccMax: real)
    requires n <= |log| && forall i :: 0 <= i < |log| ==> Fits(log[i], c)
    ensures forall j :: 0 <= j < |Points(log, c, n, alt, val, filterOutlier, hAccMax)| ==>
      var p := Points(log, c, n, alt, val, filterOutlier, hAccMax)[j];
      && p < n && InWindow(p + 1, |log|, alt, val) && HasGnssPosition(c)
      && (HasGnssTime(c) ==> PosTime(log[p], c) >= 0)
      && (HasGnssTime(c) && filterOutlier ==> log[p][c.gnssHAcc] < hAccMax)
    ensures forall j, k :: 0 <= j < k < |Points(log, c, n, alt, val, filterOutlier, hAccMax)| ==>
      Points(log, c, n, alt, val, filterOutlier, hAccMax)[j] < Points(log, c, n, alt, val, filterOutlier, hAccMax)[k]
    decreases n
  {
    if n > 0 {
      PlotPointsSpec(log, c, n - 1, alt, val, filterOutlier, hAccMax);
      var before := Plot(log, c, n - 1, alt, val, filterOutlier, hAccMax);
      var prev := Points(log, c, n - 1, alt, val, filterOutlier, hAccMax);
      var points := Points(log, c, n, alt, val, filterOutlier, hAccMax);
      if InWindow(n, |log|, alt, val) {
        var step := Step(log[n - 1], c, filterOutlier, hAccMax, before.1);
        assert points == prev + (if step.0 then [n - 1] else []);
        if step.0 {
          assert points[|prev|] == n - 1;
          assert HasGnssPosition(c);
          assert HasGnssTime(c) ==> PosTime(log[n - 1], c) >= 0;
          assert HasGnssTime(c) && filterOutlier ==> log[n - 1][c.gnssHAcc] < hAccMax;
        }
      } else {
        assert points == prev;
      }
      forall j | 0 <= j < |points|
        ensures var p := points[j];
          && p < n && InWindow(p + 1, |log|, alt, val) && HasGnssPosition(c)
          && (HasGnssTime(c) ==> PosTime(log[p], c) >= 0)
          && (HasGnssTime(c) && filterOutlier ==> log[p][c.gnssHAcc] < hAccMax)
      {
        if j < |prev| {
          assert points[j] == prev[j];
        }
      }
    } else {
      assert Points(log, c, 0, alt, val, filterOutlier, hAccMax) == [];
    }
  }

  /** With both time and position columns present, the remembered pos-time is that of
      the last map point (or -1 before any), so two consecutive map points never share
      a pos-time. */
  lemma {:induction false} PlotNoRepeatedPosTime(log: seq<Row>, c: Columns, n: nat, alt: int, val: int,
                                                 filterOutlier: bool, hAccMax: real)
    requires n <= |log| && forall i :: 0 <= i < |log| ==> Fits(log[i], c)
    requires HasGnssTime(c) && HasGnssPosition(c)
    ensures var (points, last) := Plot(log, c, n, alt, val, filterOutlier, hAccMax);
      && (forall j :: 0 <= j < |points| ==> points[j] < n)
      && (if points == [] then last == -1 else last == PosTime(log[points[|points| - 1]], c))
      && (forall j :: 0 <= j < |points| - 1 ==>
            PosTime(log[points[j]], c) != PosTime(log[points[j + 1]], c))
    decreases n
  {
    if n > 0 {
      PlotNoRepeatedPosTime(log, c, n - 1, alt, val, filterOutlier, hAccMax);
    }
  }

  /** Without the latitude or longitude column no sample is ever plotted. */
  lemma {:induction false} NoPositionNoPoints(log: seq<Row>, c: Columns, n: nat, alt: int, val: int,
                                              filterOutlier: bool, hAccMax: real)
    requires n <= |log| && forall i :: 0 <= i < |log| ==> Fits(log[i], c)
    requires !HasGnssPosition(c)
    ensures Plot(log, c, n, alt, val, filterOutlier, hAccMax).0 == []
    decreases n
  {
    if n > 0 {
      NoPositionNoPoints(log, c, n - 1, alt, val, filterOutlier, hAccMax);
    }
  }

  /** QString::replace("//", "/"): occurrences are replaced left to right, and the
      scan goes on after each replacement, so "///" becomes "//". */
  function CollapseSlashes(s: string): (r: string)
    ensures |r| <= |s|
    decreases |s|
  {
    if |s| >= 2 && s[0] == '/' && s[1] == '/' then "/" + CollapseSlashes(s[2..])
    else if s == [] then []
    else [s[0]] + CollapseSlashes(s[1..])
  }

  /** Whether `s` holds no "//". */
  predicate NoDoubleSlash(s: string) {
    forall i :: 0 <= i < |s| - 1 ==> !(s[i] == '/' && s[i + 1] == '/')
  }

  /** A path without "//" is left as it is. */
  lemma {:induction false} CollapseSlashesNoDouble(s: string)
    requires NoDoubleSlash(s)
    ensures CollapseSlashes(s) == s
    decreases |s|
  {
    if s != [] {
      assert NoDoubleSlash(s[1..]) by {
        forall i | 0 <= i < |s[1..]| - 1 ensures !(s[1..][i] == '/' && s[1..][i + 1] == '/') {
          assert s[1..][i] == s[i + 1] && s[1..][i + 1] == s[i + 2];
        }
      }
      CollapseSlashesNoDouble(s[1..]);
      assert [s[0]] + s[1..] == s;
    }
  }

  /** A "//" in the input is replaced: the result is strictly shorter. */
  lemma {:induction false} CollapseSlashesShortens(s: string, i: nat)
    requires i + 1 < |s| && s[i] == '/' && s[i + 1] == '/'
    ensures |CollapseSlashes(s)| < |s|
    decreases |s|
  {
    if !(s[0] == '/' && s[1] == '/') {
      assert i > 0;
      assert s[1..][i - 1] == s[i] && s[1..][i] == s[i + 1];
      CollapseSlashesShortens(s[1..], i - 1);
    }
  }

  /** Joining a path that ends in '/' to one that starts with '/': the "//" at the seam
      becomes a single '/', and nothing else changes. */
  lemma {:induction false} CollapseSlashesJoin(a: string, b: string)
    requires NoDoubleSlash(a) && NoDoubleSlash(b)
    requires a != [] && a[|a| - 1] == '/' && b != [] && b[0] == '/'
    ensures CollapseSlashes(a + b) == a + b[1..]
    decreases |a|
  {
    var s := a + b;
    if |a| == 1 {
      assert s[0] == '/' && s[1] == '/' && s[2..] == b[1..];
      assert NoDoubleSlash(b[1..]) by {
        forall i | 0 <= i < |b[1..]| - 1 ensures !(b[1..][i] == '/' && b[1..][i + 1] == '/') {
          assert b[1..][i] == b[i + 1] && b[1..][i + 1] == b[i + 2];
        }
      }
      CollapseSlashesNoDouble(b[1..]);
      assert "/" == a;
    } else {
      assert s[0] == a[0] && s[1] == a[1];
      assert s[1..] == a[1..] + b;
      assert NoDoubleSlash(a[1..]) by {
        forall i | 0 <= i < |a[1..]| - 1 ensures !(a[1..][i] == '/' && a[1..][i + 1] == '/') {
          assert a[1..][i] == a[i + 1] && a[1..][i + 1] == a[i + 2];
        }
      }
      CollapseSlashesJoin(a[1..], b);
      assert [a[0]] + (a[1..] + b[1..]) == a + b[1..];
    }
  }

  /** Entering a directory from the root: "/" + "/" + name collapses to "/" + name. */
  lemma IntoDirFromRoot(name: string)
    requires '/' !in name
    ensures IntoDir("/", name) == "/" + name
  {
    var b := "/" + name;
    assert NoDoubleSlash(b) by {
      forall i | 0 <= i < |b| - 1 ensures !(b[i] == '/' && b[i + 1] == '/') {
        assert b[i + 1] == name[i];
      }
    }
    assert "/" + "/" + name == "/" + b;
    CollapseSlashesJoin("/", b);
    assert b[1..] == name;
  }

  /** QString::lastIndexOf('/'): the index of the last '/', or -1 when there is none. */
  function LastSlash(s: string): (r: int)
    ensures -1 <= r < |s|
    ensures r >= 0 ==> s[r] == '/'
    ensures forall i :: r < i < |s| ==> s[i] != '/'
    decreases |s|
  {
    if s == [] then -1
    else if s[|s| - 1] == '/' then |s| - 1
    else LastSlash(s[..|s| - 1])
  }

  /** Going into directory `name` from `path`: `path + "/" + name` with "//" collapsed. */
  function IntoDir(path: string, name: string): string {
    CollapseSlashes(path + "/" + name)
  }

  /** Going up: the path cut before its last '/', unchanged when it has none. */
  function UpDir(path: string): (r: string)
    ensures LastSlash(path) < 0 ==> r == path
    ensures LastSlash(path) >= 0 ==>
      && |r| < |path| && r == path[..|r|] && path[|r|] == '/'
      && forall i :: |r| < i < |path| ==> path[i] != '/'
  {
    var k := LastSlash(path);
    if k >= 0 then path[..k] else path
  }

  /** Going up right after going into a directory gives back the path, for a path
      without "//" that does not end in '/' and a non-empty name without '/'. */
  lemma UpAfterInto(path: string, name: string)
    requires NoDoubleSlash(path) && (path == [] || path[|path| - 1] != '/')
    requires name != [] && '/' !in name
    ensures UpDir(IntoDir(path, name)) == path
  {
    var s := path + "/" + name;
    assert NoDoubleSlash(s) by {
      forall i | 0 <= i < |s| - 1 ensures !(s[i] == '/' && s[i + 1] == '/') {
        if i < |path| - 1 {
          assert s[i] == path[i] && s[i + 1] == path[i + 1];
        } else if i == |path| - 1 {
          assert s[i] == path[i];
        } else {
          assert s[i + 1] == name[i - |path|];
        }
      }
    }
    CollapseSlashesNoDouble(s);
    assert s[|path|] == '/';
    forall i | |path| < i < |s| ensures s[i] != '/' {
      assert s[i] == name[i - |path| - 1];
    }
    LastSlashIs(s, |path|);
    assert s[..|path|] == path;
  }

  /** The last '/' is the one after which no '/' follows. */
  lemma {:induction false} LastSlashIs(s: string, k: nat)
    requires k < |s| && s[k] == '/'
    requires forall i :: k < i < |s| ==> s[i] != '/'
    ensures LastSlash(s) == k
    decreases |s|
  {
    if k < |s| - 1 {
      var t := s[..|s| - 1];
      assert forall i :: k < i < |t| ==> t[i] == s[i];
      LastSlashIs(t, k);
    }
  }

  /** An entry of the controller's file list. */
  datatype FileEntry = FileEntry(name: string, isDir: bool, size: int)

  /** The requests the page sends to the controller's file service. */
  datatype FileRequest = FileBlockList(path: string) | FileBlockRead(path: string)

  /** The listing shows directories and the files whose lower-cased name ends in ".csv". */
  predicate Shown(e: FileEntry) {
    e.isDir || FN.EndsWith(FN.ToLower(e.name), ".csv")
  }

  /** The shown entries of `es`, in order. */
  function Listed(es: seq<FileEntry>): seq<FileEntry>
    decreases |es|
  {
    if es == [] then []
    else Listed(es[..|es| - 1]) + (if Shown(es[|es| - 1]) then [es[|es| - 1]] else [])
  }

  /** An entry is listed exactly when it is in the reply and is shown. */
  lemma {:induction false} ListedSpec(es: seq<FileEntry>)
    ensures |Listed(es)| <= |es|
    ensures forall e :: e in Listed(es) <==> e in es && Shown(e)
    decreases |es|
  {
    if es != [] {
      var front := es[..|es| - 1];
      ListedSpec(front);
      assert es == front + [es[|es| - 1]];
    }
  }

  /** The listing filters entry by entry: the listing of two replies one after the
      other is their listings one after the other, so entries keep the reply's order
      and multiplicity. */
  lemma {:induction false} ListedAppend(a: seq<FileEntry>, b: seq<FileEntry>)
    ensures Listed(a + b) == Listed(a) + Listed(b)
    decreases |b|
  {
    if b == [] {
      assert a + b == a;
    } else {
      var front := b[..|b| - 1];
      assert (a + b)[..|a + b| - 1] == a + front;
      assert (a + b)[|a + b| - 1] == b[|b| - 1];
      ListedAppend(a, front);
    }
  }

  class PageLogAnalysis {
    var mLog: seq<Row>
    var mLogTruncated: seq<Row>
    var columns: Columns
    var mVescLastPath: string

    ghost predicate Valid()
      reads this
    {
      && (forall i :: 0 <= i < |mLog| ==> Fits(mLog[i], columns))
      && (forall i :: 0 <= i < |mLogTruncated| ==> Fits(mLogTruncated[i], columns))
    }

    /** getLogSample: nothing for an empty log; the first sample when there is no
        time-of-day column; otherwise the first sample whose offset is at least
        `timeMs`, or the first sample when none is. */
    method GetLogSample(timeMs: int) returns (d: Row)
      requires Valid()
      ensures mLogTruncated == [] ==> d == []
      ensures mLogTruncated != [] && columns.tDay < 0 ==> d == mLogTruncated[0]
      ensures mLogTruncated != [] && columns.tDay >= 0 ==>
        || (exists i :: 0 <= i < |mLogTruncated| && d == mLogTruncated[i]
              && timeMs <= Offset(mLogTruncated, columns.tDay, i)
              && forall j :: 0 <= j < i ==> Offset(mLogTruncated, columns.tDay, j) < timeMs)
        || (d == mLogTruncated[0] && forall j :: 0 <= j < |mLogTruncated| ==> Offset(mLogTruncated, columns.tDay, j) < timeMs)
    {
      d := [];
      if mLogTruncated != [] {
        d := mLogTruncated[0];
        if columns.tDay >= 0 {
          var tDay := columns.tDay;
          var startTime := TruncToInt(d[tDay] * 1000.0);
          var i := 0;
          while i < |mLogTruncated|
            invariant 0 <= i <= |mLogTruncated| && d == mLogTruncated[0]
            invariant forall j :: 0 <= j < i ==> Offset(mLogTruncated, tDay, j) < timeMs
          {
            var dn := mLogTruncated[i];
            var timeMsNow := TruncToInt(dn[tDay] * 1000.0 - startTime as real);
            if timeMsNow < 0 {
              timeMsNow := timeMsNow + MsPerDay;
            }
            assert timeMsNow == Offset(mLogTruncated, tDay, i);
            if timeMsNow >= timeMs {
              d := dn;
              break;
            }
            i := i + 1;
          }
        }
      }
    }

    /** truncateDataAndPlot: the samples inside the span window become the truncated
        log, in order, and the map points are chosen by the skip rule; the span slider
        gives `altValue` and `value`, the outlier box `filterOutlier` and `hAccMax`. */
    method TruncateDataAndPlot(altValue: int, value: int, filterOutlier: bool, hAccMax: real)
      returns (points: seq<nat>)
      requires Valid()
      modifies this
      ensures Valid()
      ensures mLogTruncated == RowsAt(mLog, KeptIndices(|mLog|, |mLog|, altValue, value))
      ensures points == Plot(mLog, columns, |mLog|, altValue, value, filterOutlier, hAccMax).0
      ensures mLog == old(mLog) && columns == old(columns) && mVescLastPath == old(mVescLastPath)
    {
      var log := mLog;
      var c := columns;
      var ind := 0;
      var posTimeLast := -1;
      var truncated: seq<Row> := [];
      points := [];
      ghost var kept: seq<nat> := [];
      while ind < |log|
        invariant 0 <= ind <= |log| && unchanged(this)
        invariant forall i :: 0 <= i < |log| ==> Fits(log[i], c)
        invariant kept == KeptIndices(|log|, ind, altValue, value)
        invariant truncated == RowsAt(log, kept)
        invariant (points, posTimeLast) == Plot(log, c, ind, altValue, value, filterOutlier, hAccMax)
      {
        var d := log[ind];
        ind := ind + 1;
        ghost var before := Plot(log, c, ind - 1, altValue, value, filterOutlier, hAccMax);
        assert before == (points, posTimeLast);
        ghost var pointsBefore := points;
        var inside := InSpan(ind, |log|, altValue, value);
        if !inside {
          assert Plot(log, c, ind, altValue, value, filterOutlier, hAccMax) == before;
          continue;
        }
        truncated := truncated + [d];
        kept := kept + [ind - 1];
        var plot;
        plot, posTimeLast := SkipRule(d, c, filterOutlier, hAccMax, posTimeLast);
        if plot {
          points := points + [ind - 1];
        }
        assert points == pointsBefore + (if plot then [ind - 1] else []);
        assert Plot(log, c, ind, altValue, value, filterOutlier, hAccMax)
            == (pointsBefore + (if plot then [ind - 1] else []), posTimeLast);
      }
      mLogTruncated := truncated;
      assert forall i :: 0 <= i < |truncated| ==> truncated[i] in log;
    }

    /** The window test of truncateDataAndPlot's loop, made on the two quotients
        ind / size and slider / 10000. */
    static method InSpan(ind: int, size: int, altValue: int, value: int) returns (inside: bool)
      requires size > 0
      ensures inside == InWindow(ind, size, altValue, value)
    {
      var start := (altValue as real) / (SpanScale as real);
      var end := (value as real) / (SpanScale as real);
      var prop := (ind as real) / (size as real);
      WindowByQuotients(ind, size, altValue, value);
      inside := !(prop < start || prop > end);
    }

    /** The skip rule of truncateDataAndPlot's loop for one kept sample. */
    static method SkipRule(d: Row, columns: Columns, filterOutlier: bool, hAccMax: real, posTimeLast: int)
      returns (plot: bool, last: int)
      requires Fits(d, columns)
      ensures (plot, last) == Step(d, columns, filterOutlier, hAccMax, posTimeLast)
    {
      last := posTimeLast;
      var skip := false;
      if columns.tDayPos >= 0 && columns.gnssHAcc >= 0 {
        var postime := TruncToInt(d[columns.tDayPos] * 1000.0);
        var hAcc := d[columns.gnssHAcc];
        skip := true;
        if postime >= 0 && (!filterOutlier || hAcc < hAccMax) && last != postime {
          skip := false;
          last := postime;
        }
      }
      if columns.gnssLat < 0 || columns.gnssLon < 0 {
        skip := true;
      }
      plot := !skip;
    }

    /** on_vescLogListRefreshButton_clicked: disconnected, the path is reset and
        nothing is asked; connected, the current path is listed and the reply
        filtered to directories and CSV files. */
    method Refresh(connected: bool, reply: seq<FileEntry>)
      returns (requests: seq<FileRequest>, shown: Option<seq<FileEntry>>)
      modifies this
      ensures !connected ==> mVescLastPath == "" && requests == [] && shown == None
      ensures connected ==>
        mVescLastPath == old(mVescLastPath) && requests == [FileBlockList(mVescLastPath)]
        && shown == Some(Listed(reply))
      ensures mLog == old(mLog) && mLogTruncated == old(mLogTruncated) && columns == old(columns)
    {
      if !connected {
        mVescLastPath := "";
        return [], None;
      }
      requests := [FileBlockList(mVescLastPath)];
      var entries: seq<FileEntry> := [];
      for i := 0 to |reply|
        invariant entries == Listed(reply[..i])
      {
        var fe := reply[i];
        assert reply[..i + 1][..i] == reply[..i];
        if !fe.isDir && !FN.EndsWith(FN.ToLower(fe.name), ".csv") {
          continue;
        }
        entries := entries + [fe];
      }
      assert reply[..|reply|] == reply;
      shown := Some(entries);
    }

    /** on_vescLogListOpenButton_clicked: nothing while the button is disabled;
        disconnected, the path is reset; a selected directory is entered and listed,
        a selected file is read from its full path. */
    method Open(enabled: bool, connected: bool, selected: Option<FileEntry>, reply: seq<FileEntry>)
      returns (requests: seq<FileRequest>, shown: Option<seq<FileEntry>>)
      modifies this
      ensures !enabled ==> mVescLastPath == old(mVescLastPath) && requests == [] && shown == None
      ensures enabled && !connected ==> mVescLastPath == "" && requests == [] && shown == None
      ensures enabled && connected && selected.None? ==>
        mVescLastPath == old(mVescLastPath) && requests == [] && shown == None
      ensures enabled && connected && selected.Some? && selected.value.isDir ==>
        mVescLastPath == IntoDir(old(mVescLastPath), selected.value.name)
        && requests == [FileBlockList(mVescLastPath)] && shown == Some(Listed(reply))
      ensures enabled && connected && selected.Some? && !selected.value.isDir ==>
        mVescLastPath == old(mVescLastPath)
        && requests == [FileBlockRead(old(mVescLastPath) + "/" + selected.value.name)] && shown == None
      ensures mLog == old(mLog) && mLogTruncated == old(mLogTruncated) && columns == old(columns)
    {
      if !enabled {
        return [], None;
      }
      if !connected {
        mVescLastPath := "";
        return [], None;
      }
      if selected.None? {
        return [], None;
      }
      var fe := selected.value;
      if fe.isDir {
        mVescLastPath := CollapseSlashes(mVescLastPath + "/" + fe.name);
        requests, shown := Refresh(connected, reply);
      } else {
        requests := [FileBlockRead(mVescLastPath + "/" + fe.name)];
        shown := None;
      }
    }

    /** on_vescUpButton_clicked: disconnected, the path is reset; otherwise a path
        with a '/' is cut before its last one and listed, and one without is kept. */
    method Up(connected: bool, reply: seq<FileEntry>)
      returns (requests: seq<FileRequest>, shown: Option<seq<FileEntry>>)
      modifies this
      ensures !connected ==> mVescLastPath == "" && requests == [] && shown == None
      ensures connected && LastSlash(old(mVescLastPath)) >= 0 ==>
        mVescLastPath == UpDir(old(mVescLastPath))
        && requests == [FileBlockList(mVescLastPath)] && shown == Some(Listed(reply))
      ensures connected && LastSlash(old(mVescLastPath)) < 0 ==>
        mVescLastPath == old(mVescLastPath) && requests == [] && shown == None
      ensures mLog == old(mLog) && mLogTruncated == old(mLogTruncated) && columns == old(columns)
    {
      if !connected {
        mVescLastPath := "";
        return [], None;
      }
      var k := LastSlash(mVescLastPath);
      if k >= 0 {
        mVescLastPath := mVescLastPath[..k];
        requests, shown := Refresh(connected, reply);
      } else {
        requests, shown := [], None;
      }
    }
  }

  /** The map is saved under the chosen name with ".pdf" or ".png" ensured: the name
      then ends in the extension, and choosing that name again changes nothing. */
  lemma MapFileNames(dialogResult: string)
    requires dialogResult != ""
    ensures FN.EndsWith(FN.ToLower(FN.ChosenFile(dialogResult, ".pdf").value), ".pdf")
    ensures FN.EndsWith(FN.ToLower(FN.ChosenFile(dialogResult, ".png").value), ".png")
    ensures FN.ChosenFile(FN.ChosenFile(dialogResult, ".pdf").value, ".pdf") == FN.ChosenFile(dialogResult, ".pdf")
    ensures FN.ChosenFile(FN.ChosenFile(dialogResult, ".png").value, ".png") == FN.ChosenFile(dialogResult, ".png")
  {
    assert FN.IsLower(".pdf") by {
      assert FN.ToLower(".pdf") == [FN.LowerChar('.')] + FN.ToLower("pdf");
    }
    assert FN.IsLower(".png") by {
      assert FN.ToLower(".png") == [FN.LowerChar('.')] + FN.ToLower("png");
    }
    FN.WithExtensionIdempotent(dialogResult, ".pdf");
    FN.WithExtensionIdempotent(dialogResult, ".png");
  }
}
