/** The threshold scan shared by the EM410x and EM4x50 readers: one pass over the
    sample buffer with `high` and `low` starting at 0. */
module Levels {

  /** Reference levels of a waveform. */
  datatype Thresholds = Thresholds(high: int, low: int)

  /** Running maximum and minimum, updated with "if above high ... else if below
      low" for each sample in order. Both start at 0, so the result is the
      maximum and minimum of the samples together with 0. */
  function ScanLevels(samples: seq<int>): (r: Thresholds)
    ensures r.low <= 0 <= r.high
    ensures forall k :: 0 <= k < |samples| ==> r.low <= samples[k] <= r.high
    ensures r.high == 0 || r.high in samples
    ensures r.low == 0 || r.low in samples
  {
    if |samples| == 0 then Thresholds(0, 0)
    else
      var before := samples[..|samples| - 1];
      var prev := ScanLevels(before);
      var x := samples[|samples| - 1];
      assert samples == before + [x];
      if x > prev.high then Thresholds(x, prev.low)
      else if x < prev.low then Thresholds(prev.high, x)
      else prev
  }

  /** The two levels only meet when every sample is 0 (or there are none). */
  lemma {:induction false} FlatLevels(samples: seq<int>)
    ensures ScanLevels(samples).high == ScanLevels(samples).low
            <==> forall k :: 0 <= k < |samples| ==> samples[k] == 0
  {
    var r := ScanLevels(samples);
    if r.high == r.low {
      assert r.high == 0;
    } else if r.high != 0 {
      var k :| 0 <= k < |samples| && samples[k] == r.high;
    } else {
      var k :| 0 <= k < |samples| && samples[k] == r.low;
    }
  }
}
