/** The EM4x50 reader up to the first data block: the sample buffer is cut into
    low-to-low pulse widths, the first double Listen Window (two pairs of pulses
    of about 192 and 128 samples) marks the data, and a second one is searched
    for as the end marker. */
module Em4x50 {
  import opened Levels
  import opened Optional

  /** Sum of a run of pulse widths. */
  function Sum(ws: seq<int>): int
  {
    if |ws| == 0 then 0 else ws[0] + Sum(ws[1..])
  }

  /** A prefix of non-negative widths never sums to more than the whole run. */
  lemma {:induction false} SumPrefixBounded(ws: seq<int>, k: nat)
    requires k <= |ws|
    requires forall m :: 0 <= m < |ws| ==> ws[m] >= 0
    ensures 0 <= Sum(ws[..k]) <= Sum(ws)
  {
    if k > 0 {
      assert ws[..k][1..] == ws[1..][..k - 1];
      SumPrefixBounded(ws[1..], k - 1);
    } else {
      SumNonNegative(ws);
    }
  }

  lemma {:induction false} SumNonNegative(ws: seq<int>)
    requires forall m :: 0 <= m < |ws| ==> ws[m] >= 0
    ensures Sum(ws) >= 0
  {
    if |ws| > 0 {
      SumNonNegative(ws[1..]);
    }
  }

  /** `while (i < bound && buf[i] > low) ++i`: the first index from `i` on
      that is below `bound` and holds a sample at or under `low`. The bound is
      tested before the buffer is read. */
  function SkipAbove(buf: seq<int>, bound: int, low: int, i: nat): (r: nat)
    requires bound <= |buf|
    ensures i <= r && (r == i || r <= bound)
    ensures forall k :: i <= k < r ==> buf[k] > low
    ensures r < bound ==> buf[r] <= low
    decreases bound - i
  {
    if i >= bound || buf[i] <= low then i else SkipAbove(buf, bound, low, i + 1)
  }

  /** `while (i < bound && buf[i] < high) ++i`, with the bound tested first. */
  function SkipBelow(buf: seq<int>, bound: int, high: int, i: nat): (r: nat)
    requires bound <= |buf|
    ensures i <= r && (r == i || r <= bound)
    ensures forall k :: i <= k < r ==> buf[k] < high
    ensures r < bound ==> buf[r] >= high
    decreases bound - i
  {
    if i >= bound || buf[i] >= high then i else SkipBelow(buf, bound, high, i + 1)
  }

  /** `at` is where a scan from `from` for a sample at or under `low` stops:
      every sample passed is above `low`, and `at` is such a sample or the end
      of the samples. */
  predicate FirstAtOrBelow(buf: seq<int>, n: nat, low: int, from: nat, at: nat)
    requires n <= |buf|
  {
    from <= at <= n && (forall k :: from <= k < at ==> buf[k] > low) && (at < n ==> buf[at] <= low)
  }

  /** `at` is where a scan from `from` for a sample at or over `high` stops. */
  predicate FirstAtOrAbove(buf: seq<int>, n: nat, high: int, from: nat, at: nat)
    requires n <= |buf|
  {
    from <= at <= n && (forall k :: from <= k < at ==> buf[k] < high) && (at < n ==> buf[at] >= high)
  }

  /** The low-to-low pulse measured from cursor `i`: it starts at the first
      sample at or under `low`, climbs to the first sample at or over `high`
      after that, and ends at the first sample at or under `low` after the
      climb. */
  ghost predicate IsPulse(buf: seq<int>, n: nat, low: int, high: int, i: nat, start: nat, end: nat)
    requires n <= |buf|
  {
    FirstAtOrBelow(buf, n, low, i, start)
    && exists rise :: FirstAtOrAbove(buf, n, high, start, rise) && FirstAtOrBelow(buf, n, low, rise, end)
  }

  /** The three skips of one round of the pulse loop. Returns the start and
      the index where the next pulse is searched. */
  function NextPulse(buf: seq<int>, n: nat, low: int, high: int, i: nat): (r: (nat, nat))
    requires n <= |buf| && i <= n
    ensures i <= r.0 <= r.1 <= n
    ensures IsPulse(buf, n, low, high, i, r.0, r.1)
  {
    var start := SkipAbove(buf, n, low, i);
    var rise := SkipBelow(buf, n, high, start);
    assert FirstAtOrAbove(buf, n, high, start, rise);
    (start, SkipAbove(buf, n, low, rise))
  }

  lemma FirstAtOrBelowUnique(buf: seq<int>, n: nat, low: int, from: nat, a: nat, b: nat)
    requires n <= |buf|
    requires FirstAtOrBelow(buf, n, low, from, a) && FirstAtOrBelow(buf, n, low, from, b)
    ensures a == b
  {
  }

  lemma FirstAtOrAboveUnique(buf: seq<int>, n: nat, high: int, from: nat, a: nat, b: nat)
    requires n <= |buf|
    requires FirstAtOrAbove(buf, n, high, from, a) && FirstAtOrAbove(buf, n, high, from, b)
    ensures a == b
  {
  }

  /** The pulse measured from a cursor is determined by the samples: any two
      readings of it agree on its start and end. */
  lemma PulseUnique(buf: seq<int>, n: nat, low: int, high: int, i: nat,
                    s1: nat, e1: nat, s2: nat, e2: nat)
    requires n <= |buf|
    requires IsPulse(buf, n, low, high, i, s1, e1) && IsPulse(buf, n, low, high, i, s2, e2)
    ensures s1 == s2 && e1 == e2
  {
    FirstAtOrBelowUnique(buf, n, low, i, s1, s2);
    var r1 :| FirstAtOrAbove(buf, n, high, s1, r1) && FirstAtOrBelow(buf, n, low, r1, e1);
    var r2 :| FirstAtOrAbove(buf, n, high, s2, r2) && FirstAtOrBelow(buf, n, low, r2, e2);
    FirstAtOrAboveUnique(buf, n, high, s1, r1, r2);
    FirstAtOrBelowUnique(buf, n, low, r1, e1, e2);
  }

  /** The pulse-width loop from cursor `i` with room for `room` more widths.
      Each round measures one pulse and then, if the table is full, stops
      without storing it. */
  function PulseWidths(buf: seq<int>, n: nat, low: int, high: int, room: nat, i: nat): (ws: seq<int>)
    requires n <= |buf| && i <= n
    ensures |ws| <= room
    ensures forall k :: 0 <= k < |ws| ==> ws[k] >= 0
    ensures Sum(ws) <= n - i
    ensures i < n && room > 0 ==> |ws| > 0
    decreases room
  {
    if i >= n || room == 0 then []
    else
      var p := NextPulse(buf, n, low, high, i);
      var rest := PulseWidths(buf, n, low, high, room - 1, p.1);
      assert ([p.1 - p.0] + rest)[1..] == rest;
      [p.1 - p.0] + rest
  }

  /** Width `k` of the table measures the `k`-th pulse: the cursors `cs`
      chain the rounds from `i`, pulse `k` is measured from `cs[k]` and starts
      at `ss[k]`, and its width runs from that start to `cs[k + 1]`, where the
      next round begins. A width is stored only for a round that began before
      the end of the samples, and the chain stops when the cursor reaches the
      end or the `room` slots are full. */
  ghost predicate PulseChain(buf: seq<int>, n: nat, low: int, high: int, room: nat, i: nat,
                             ws: seq<int>, cs: seq<nat>, ss: seq<nat>)
    requires n <= |buf|
  {
    && |cs| == |ws| + 1 && |ss| == |ws| && cs[0] == i && |ws| <= room
    && (forall k :: 0 <= k < |ws| ==>
          cs[k] < n && IsPulse(buf, n, low, high, cs[k], ss[k], cs[k + 1]) && ws[k] == cs[k + 1] - ss[k])
    && (|ws| == room || cs[|ws|] == n)
  }

  /** What the pulse table measures: successive low-to-low pulses of the
      samples, each searched for where the previous one ended, until the
      samples run out or the table is full. */
  lemma PulseWidthsMeasurePulses(buf: seq<int>, n: nat, low: int, high: int, room: nat, i: nat)
    requires n <= |buf| && i <= n
    ensures exists cs, ss :: PulseChain(buf, n, low, high, room, i, PulseWidths(buf, n, low, high, room, i), cs, ss)
  {
    var cs, ss := PulseRounds(buf, n, low, high, room, i);
  }

  /** The cursors and starts of the rounds, by induction on the rounds. */
  lemma {:induction false} PulseRounds(buf: seq<int>, n: nat, low: int, high: int, room: nat, i: nat)
    returns (cs: seq<nat>, ss: seq<nat>)
    requires n <= |buf| && i <= n
    ensures PulseChain(buf, n, low, high, room, i, PulseWidths(buf, n, low, high, room, i), cs, ss)
    decreases room
  {
    if i >= n || room == 0 {
      cs, ss := [i], [];
    } else {
      var p := NextPulse(buf, n, low, high, i);
      var cs', ss' := PulseRounds(buf, n, low, high, room - 1, p.1);
      RoundCons(buf, n, low, high, room, i, cs', ss');
      cs, ss := [i] + cs', [p.0] + ss';
    }
  }

  /** One round of the loop in front of the rounds that follow it. */
  lemma RoundCons(buf: seq<int>, n: nat, low: int, high: int, room: nat, i: nat, cs: seq<nat>, ss: seq<nat>)
    requires n <= |buf| && i < n && room > 0
    requires var e := NextPulse(buf, n, low, high, i).1;
             PulseChain(buf, n, low, high, room - 1, e, PulseWidths(buf, n, low, high, room - 1, e), cs, ss)
    ensures PulseChain(buf, n, low, high, room, i, PulseWidths(buf, n, low, high, room, i),
                       [i] + cs, [NextPulse(buf, n, low, high, i).0] + ss)
  {
    var p := NextPulse(buf, n, low, high, i);
    var rest := PulseWidths(buf, n, low, high, room - 1, p.1);
    assert PulseWidths(buf, n, low, high, room, i) == [p.1 - p.0] + rest;
    ChainCons(buf, n, low, high, room, i, p.0, p.1, rest, cs, ss);
  }

  /** A pulse measured from a cursor before the end, in front of a chain of
      pulses from where it ends with one slot fewer. */
  lemma ChainCons(buf: seq<int>, n: nat, low: int, high: int, room: nat, i: nat, start: nat, end: nat,
                  ws: seq<int>, cs: seq<nat>, ss: seq<nat>)
    requires n <= |buf| && i < n && room > 0
    requires IsPulse(buf, n, low, high, i, start, end)
    requires PulseChain(buf, n, low, high, room - 1, end, ws, cs, ss)
    ensures PulseChain(buf, n, low, high, room, i, [end - start] + ws, [i] + cs, [start] + ss)
  {
    var ws1, cs1, ss1 := [end - start] + ws, [i] + cs, [start] + ss;
    forall k | 0 <= k < |ws1|
      ensures cs1[k] < n && IsPulse(buf, n, low, high, cs1[k], ss1[k], cs1[k + 1]) && ws1[k] == cs1[k + 1] - ss1[k]
    {
      if k > 0 {
        assert cs1[k] == cs[k - 1] && cs1[k + 1] == cs[k] && ss1[k] == ss[k - 1] && ws1[k] == ws[k - 1];
      }
    }
    assert cs1[|ws1|] == cs[|ws|];
  }

  /** The rounds after the first form a chain from where the first pulse
      ended, with one slot fewer. */
  lemma ChainTail(buf: seq<int>, n: nat, low: int, high: int, room: nat, i: nat,
                  ws: seq<int>, cs: seq<nat>, ss: seq<nat>)
    requires n <= |buf| && |ws| > 0
    requires PulseChain(buf, n, low, high, room, i, ws, cs, ss)
    ensures room > 0 && PulseChain(buf, n, low, high, room - 1, cs[1], ws[1..], cs[1..], ss[1..])
  {
    forall k | 0 <= k < |ws| - 1
      ensures cs[1..][k] < n && IsPulse(buf, n, low, high, cs[1..][k], ss[1..][k], cs[1..][k + 1])
              && ws[1..][k] == cs[1..][k + 1] - ss[1..][k]
    {
      assert cs[1..][k] == cs[k + 1] && cs[1..][k + 1] == cs[k + 2];
    }
  }

  /** The samples, the cursor and the room determine the table: any two
      chains of pulses with the stopping rule hold the same widths. */
  lemma {:induction false} PulseChainUnique(buf: seq<int>, n: nat, low: int, high: int, room: nat, i: nat,
                                            ws1: seq<int>, cs1: seq<nat>, ss1: seq<nat>,
                                            ws2: seq<int>, cs2: seq<nat>, ss2: seq<nat>)
    requires n <= |buf|
    requires PulseChain(buf, n, low, high, room, i, ws1, cs1, ss1)
    requires PulseChain(buf, n, low, high, room, i, ws2, cs2, ss2)
    ensures ws1 == ws2
    decreases room
  {
    if |ws1| > 0 && |ws2| > 0 {
      PulseUnique(buf, n, low, high, i, ss1[0], cs1[1], ss2[0], cs2[1]);
      ChainTail(buf, n, low, high, room, i, ws1, cs1, ss1);
      ChainTail(buf, n, low, high, room, i, ws2, cs2, ss2);
      PulseChainUnique(buf, n, low, high, room - 1, cs1[1],
                       ws1[1..], cs1[1..], ss1[1..], ws2[1..], cs2[1..], ss2[1..]);
      assert ws1 == [ws1[0]] + ws1[1..] && ws2 == [ws2[0]] + ws2[1..];
    }
  }

  /** When all samples sit at one level nothing moves the cursor, so the loop
      only stops because the table fills up with zero widths. */
  lemma {:induction false} FlatBufferFillsTable(buf: seq<int>, n: nat, level: int, room: nat, i: nat)
    requires n <= |buf| && i < n
    requires forall k :: 0 <= k < n ==> buf[k] == level
    ensures PulseWidths(buf, n, level, level, room, i) == seq(room, k => 0)
    decreases room
  {
    if room > 0 {
      var p := NextPulse(buf, n, level, level, i);
      assert p == (i, i);
      FlatBufferFillsTable(buf, n, level, room - 1, i);
    }
  }

  predicate InBand(w: int, lo: int, hi: int)
  {
    lo <= w <= hi
  }

  /** Widths `k .. k + 3` form two Listen Windows: about 192 then 128 samples,
      twice, each within an inclusive band of plus or minus two. */
  predicate ListenWindowsAt(ws: seq<int>, k: nat)
    requires k + 3 < |ws|
  {
    InBand(ws[k], 190, 194) && InBand(ws[k + 1], 126, 130)
    && InBand(ws[k + 2], 190, 194) && InBand(ws[k + 3], 126, 130)
  }

  /** The marker search `for (; i < j - 4; ++i)`: the first index from `from`
      on, strictly below `|ws| - 4`, where the Listen Windows begin. */
  function FindListenWindows(ws: seq<int>, from: nat): (r: Option<nat>)
    ensures r.Some? ==>
              from <= r.value && r.value + 4 < |ws| && ListenWindowsAt(ws, r.value)
              && forall k :: from <= k < r.value ==> !ListenWindowsAt(ws, k)
    ensures r.None? <==> forall k :: from <= k && k + 4 < |ws| ==> !ListenWindowsAt(ws, k)
    decreases |ws| - from
  {
    if from + 4 >= |ws| then None
    else if ListenWindowsAt(ws, from) then Some(from)
    else FindListenWindows(ws, from + 1)
  }

  /** What the reader learns before walking the blocks. */
  datatype Em4x50Scan =
    | NoData
    | Data(pulses: seq<int>, startBlock: nat, dataStart: int, complete: bool)

  /** The pulse widths of the first `n` samples; the table holds one width for
      every 64 entries of the sample buffer. */
  function Pulses(buf: seq<int>, n: nat): seq<int>
    requires n <= |buf|
  {
    var lv := ScanLevels(buf[..n]);
    PulseWidths(buf, n, lv.low, lv.high, |buf| / 64, 0)
  }

  /** The data start for a start marker at `m`: the widths `0 .. m + 2` are
      summed (the first Listen Window and the 192-sample pulse of the second,
      but not the second's 128-sample pulse `m + 3`), the sum is moved on to
      the next sample at or under `low` anywhere in the buffer, and 8 is
      added. */
  function DataStart(buf: seq<int>, low: int, ws: seq<int>, m: nat): (d: int)
    requires m + 3 <= |ws|
    requires forall k :: 0 <= k < |ws| ==> ws[k] >= 0
    requires Sum(ws) <= |buf|
    ensures 0 <= Sum(ws[..m + 3]) && Sum(ws[..m + 3]) + 8 <= d <= |buf| + 8
    ensures forall k :: Sum(ws[..m + 3]) <= k < d - 8 ==> buf[k] > low
    ensures d - 8 < |buf| ==> buf[d - 8] <= low
  {
    SumPrefixBounded(ws, m + 3);
    SkipAbove(buf, |buf|, low, Sum(ws[..m + 3])) + 8
  }

  /** `buf` is the whole sample buffer and `n` the number of samples in it. */
  function Em4x50Read(buf: seq<int>, n: nat): (r: Em4x50Scan)
    requires n <= |buf|
    ensures var ws := Pulses(buf, n);
            r.NoData? <==> forall k :: 0 <= k && k + 4 < |ws| ==> !ListenWindowsAt(ws, k)
    ensures r.Data? ==>
              var ws := Pulses(buf, n);
              var m := r.startBlock - 3;
              r.pulses == ws && r.startBlock >= 3 && r.startBlock + 1 < |ws|
              && ListenWindowsAt(ws, m)
              && (forall k :: 0 <= k < m ==> !ListenWindowsAt(ws, k))
              && r.dataStart == DataStart(buf, ScanLevels(buf[..n]).low, ws, m)
              && (r.complete <==> exists k :: r.startBlock <= k && k + 4 < |ws| && ListenWindowsAt(ws, k))
  {
    var lv := ScanLevels(buf[..n]);
    var ws := Pulses(buf, n);
    match FindListenWindows(ws, 0)
    case None => NoData
    case Some(m) =>
      var complete := FindListenWindows(ws, m + 3).Some?;
      Data(ws, m + 3, DataStart(buf, lv.low, ws, m), complete)
  }

  /** The end marker, when there is one, begins after the start marker's four
      pulses, so the two never overlap. */
  lemma EndMarkerAfterStart(ws: seq<int>, m: nat)
    requires FindListenWindows(ws, 0) == Some(m)
    ensures var e := FindListenWindows(ws, m + 3);
            e.Some? ==> m < e.value && m + 3 <= e.value
  {
  }

  /** The widths 190 and 194, 126 and 130 are accepted at the band edges,
      while one sample more or less outside a band rejects the marker. */
  lemma BandEdges(ws: seq<int>, k: nat)
    requires k + 3 < |ws|
    requires ws[k] == 190 && ws[k + 1] == 130 && ws[k + 2] == 194 && ws[k + 3] == 126
    ensures ListenWindowsAt(ws, k)
    ensures !ListenWindowsAt(ws[k := 189], k) && !ListenWindowsAt(ws[k := 195], k)
    ensures !ListenWindowsAt(ws[k + 1 := 125], k) && !ListenWindowsAt(ws[k + 1 := 131], k)
  {
  }
}
