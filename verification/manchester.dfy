/** The Manchester bit extractor of the EM410x reader: the sample buffer is cut
    into clock-sized cells, and a running bit toggles for every cell that did not
    touch both reference levels. */
module Manchester {
  import opened Bits

  /** The three flags of the per-cell loop: which levels were hit, and whether
      the loop is still inside the cell's leading run of level samples. */
  datatype Peaks = Peaks(hitHigh: bool, hitLow: bool, first: bool)

  const FreshPeaks := Peaks(false, false, true)

  /** One iteration of the per-cell loop. The high level is tested before the low
      one, and as long as `first` is set any level touch clears both flags. */
  function ObserveSample(p: Peaks, x: int, high: int, low: int): Peaks
  {
    var hh := if x == high then true else p.hitHigh;
    var hl := if x == high then p.hitLow else if x == low then true else p.hitLow;
    if p.first && (hh || hl) then Peaks(false, false, true)
    else Peaks(hh, hl, false)
  }

  /** The per-cell loop from sample `j` on, leaving as soon as both levels are hit. */
  function ScanCell(cell: seq<int>, high: int, low: int, j: nat, p: Peaks): Peaks
    requires j <= |cell|
    decreases |cell| - j
  {
    if j == |cell| then p
    else
      var q := ObserveSample(p, cell[j], high, low);
      if q.hitHigh && q.hitLow then q else ScanCell(cell, high, low, j + 1, q)
  }

  /** A cell carries a transition when the loop ends without both flags set. */
  predicate Transition(cell: seq<int>, high: int, low: int)
  {
    var p := ScanCell(cell, high, low, 0, FreshPeaks);
    !p.hitHigh || !p.hitLow
  }

  predicate IsLevel(x: int, high: int, low: int)
  {
    x == high || x == low
  }

  /** Index of the first sample at neither level (|cell| if there is none). */
  function LeadingLevels(cell: seq<int>, high: int, low: int, j: nat): (f: nat)
    requires j <= |cell|
    ensures j <= f <= |cell|
    ensures forall k :: j <= k < f ==> IsLevel(cell[k], high, low)
    ensures f < |cell| ==> !IsLevel(cell[f], high, low)
    decreases |cell| - j
  {
    if j == |cell| || !IsLevel(cell[j], high, low) then j
    else LeadingLevels(cell, high, low, j + 1)
  }

  predicate HighFrom(cell: seq<int>, high: int, j: nat)
  {
    exists a :: j <= a < |cell| && cell[a] == high
  }

  predicate LowFrom(cell: seq<int>, high: int, low: int, j: nat)
  {
    exists b :: j <= b < |cell| && cell[b] == low && cell[b] != high
  }

  /** Declarative reading of the per-cell loop: after the first sample at
      neither level, some sample equals `high` and some other sample equals
      `low`. Level samples before that point are discarded. */
  predicate BothLevelsAfterLead(cell: seq<int>, high: int, low: int)
  {
    var f := LeadingLevels(cell, high, low, 0);
    HighFrom(cell, high, f + 1) && LowFrom(cell, high, low, f + 1)
  }

  /** Inside the leading run of level samples the loop keeps resetting. */
  lemma {:induction false} ScanThroughLead(cell: seq<int>, high: int, low: int, j: nat)
    requires j <= LeadingLevels(cell, high, low, 0)
    ensures ScanCell(cell, high, low, 0, FreshPeaks)
            == ScanCell(cell, high, low, j, FreshPeaks)
  {
    if j > 0 {
      ScanThroughLead(cell, high, low, j - 1);
      assert IsLevel(cell[j - 1], high, low);
    }
  }

  /** Once past the leading run, the loop accumulates both flags. */
  lemma {:induction false} ScanAfterLead(cell: seq<int>, high: int, low: int, j: nat, p: Peaks)
    requires j <= |cell|
    requires !p.first
    ensures var r := ScanCell(cell, high, low, j, p);
            (r.hitHigh && r.hitLow)
            <==> ((p.hitHigh || HighFrom(cell, high, j)) && (p.hitLow || LowFrom(cell, high, low, j)))
    decreases |cell| - j
  {
    if j < |cell| {
      var q := ObserveSample(p, cell[j], high, low);
      assert HighFrom(cell, high, j) <==> cell[j] == high || HighFrom(cell, high, j + 1);
      assert LowFrom(cell, high, low, j)
             <==> (cell[j] == low && cell[j] != high) || LowFrom(cell, high, low, j + 1);
      if !(q.hitHigh && q.hitLow) {
        ScanAfterLead(cell, high, low, j + 1, q);
      }
    }
  }

  /** The loop and its declarative reading agree on every cell. */
  lemma TransitionIffMissedLevel(cell: seq<int>, high: int, low: int)
    ensures Transition(cell, high, low) <==> !BothLevelsAfterLead(cell, high, low)
  {
    var f := LeadingLevels(cell, high, low, 0);
    ScanThroughLead(cell, high, low, f);
    if f < |cell| {
      var q := ObserveSample(FreshPeaks, cell[f], high, low);
      assert q == Peaks(false, false, false);
      ScanAfterLead(cell, high, low, f + 1, q);
    }
  }

  /** When both levels coincide the low flag can never be set, so every
      cell toggles the running bit. */
  lemma EqualLevelsAlwaysToggle(cell: seq<int>, level: int)
    ensures Transition(cell, level, level)
  {
    TransitionIffMissedLevel(cell, level, level);
  }

  lemma CellInBounds(n: nat, clock: nat, k: nat)
    requires clock > 0 && k < n / clock
    ensures k * clock + clock <= n
  {
    assert (k + 1) * clock <= (n / clock) * clock;
  }

  /** Cell `k`: samples `k * clock` up to (excluding) `(k + 1) * clock`. */
  function Cell(samples: seq<int>, clock: nat, k: nat): (c: seq<int>)
    requires clock > 0 && k < |samples| / clock
    ensures |c| == clock
  {
    CellInBounds(|samples|, clock, k);
    samples[k * clock .. k * clock + clock]
  }

  function Toggle(samples: seq<int>, high: int, low: int, clock: nat, k: nat): Bit
    requires clock > 0 && k < |samples| / clock
  {
    if Transition(Cell(samples, clock, k), high, low) then 1 else 0
  }

  /** The running bit after each of the first `n` cells, starting from 0. */
  function DemodulateCells(samples: seq<int>, high: int, low: int, clock: nat, n: nat): (bits: seq<Bit>)
    requires clock > 0 && n <= |samples| / clock
    ensures |bits| == n
    ensures n > 0 ==> bits[0] == Toggle(samples, high, low, clock, 0)
    ensures forall k :: 0 < k < n ==> bits[k] == Xor(bits[k - 1], Toggle(samples, high, low, clock, k))
  {
    if n == 0 then []
    else
      var prev := DemodulateCells(samples, high, low, clock, n - 1);
      var last := if n == 1 then 0 else prev[n - 2];
      prev + [Xor(last, Toggle(samples, high, low, clock, n - 1))]
  }

  /** The coarse bit sequence: exactly `|samples| / clock` bits; the running bit
      starts at 0 and each cell flips it exactly when it carries a transition. */
  function Demodulate(samples: seq<int>, high: int, low: int, clock: nat): (bits: seq<Bit>)
    requires clock > 0
    ensures |bits| == |samples| / clock
    ensures |bits| > 0 ==> bits[0] == Toggle(samples, high, low, clock, 0)
    ensures forall k :: 0 < k < |bits| ==> bits[k] == Xor(bits[k - 1], Toggle(samples, high, low, clock, k))
  {
    DemodulateCells(samples, high, low, clock, |samples| / clock)
  }

  /** Number of toggling cells among the first `n`. */
  function ToggleCount(samples: seq<int>, high: int, low: int, clock: nat, n: nat): nat
    requires clock > 0 && n <= |samples| / clock
  {
    if n == 0 then 0
    else ToggleCount(samples, high, low, clock, n - 1) + Toggle(samples, high, low, clock, n - 1)
  }

  /** Bit `k` of the coarse sequence is the parity of the number of cells up to
      and including `k` that carried a transition. */
  lemma {:induction false} DemodulatedBitIsToggleParity(samples: seq<int>, high: int, low: int, clock: nat, k: nat)
    requires clock > 0 && k < |samples| / clock
    ensures Demodulate(samples, high, low, clock)[k] == ToggleCount(samples, high, low, clock, k + 1) % 2
  {
    var bits := Demodulate(samples, high, low, clock);
    if k > 0 {
      DemodulatedBitIsToggleParity(samples, high, low, clock, k - 1);
    }
  }
}
