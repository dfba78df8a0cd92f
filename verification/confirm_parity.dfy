/** `ConfirmEm410xTagParity`: a check of the EM410x row and column parity over a
    '0'/'1' text rendering of a demodulated stream. Unlike the frame scanner it
    does not look for the header: it starts at index 9, slides one bit on a row
    that fails, resets its counters for each of its two passes, and compares
    the column parity against every window after the tenth row. */
module ParityConfirm {
  import opened Bits
  import opened Optional
  import Em410xSim

  /** Capacity of the integer copy of the stream (`int BitStream[70]`). */
  const Slots: nat := 70

  /** The longest stream length whose row reads stay inside the copy. */
  const MaxLength: int := 65

  datatype Confirm = Confirmed(id: seq<Nibble>) | NotConfirmed | OutOfRange

  /** Rows accepted in the current pass: the column parity so far and the
      natural nibble of each row, in order. */
  datatype Tally = Tally(parity: seq<Bit>, id: seq<Nibble>)

  const NoRows := Tally([0, 0, 0, 0], [])

  predicate TallyOk(t: Tally)
  {
    |t.parity| == 4 && |t.id| <= 10
  }

  /** The integer copy of the text: characters `0 .. len` are read, a '1'
      gives 1 and anything else leaves the zero the copy started with. */
  function LoadBits(chars: seq<char>, len: int): (b: seq<Bit>)
    requires len < |chars| && len <= MaxLength
    ensures |b| == Slots
    ensures forall k :: 0 <= k < Slots ==> (b[k] == 1 <==> k <= len && chars[k] == '1')
  {
    seq(Slots, k requires 0 <= k < Slots => if k <= len && chars[k] == '1' then 1 else 0)
  }

  /** The flip before the second pass: indices below `len` are complemented,
      index `len` and everything after it keep their value. */
  function FlipPrefix(b: seq<Bit>, len: int): (r: seq<Bit>)
    ensures |r| == |b|
    ensures forall k :: 0 <= k < |b| ==> r[k] == (if k < len then 1 - b[k] else b[k])
  {
    seq(|b|, k requires 0 <= k < |b| => if k < len then 1 - b[k] else b[k])
  }

  /** The short-circuit comparison of `b[at ..]` against `want`: it stops at the
      first mismatch, and reports None when it would read past the copy. */
  function MatchRun(b: seq<Bit>, at: nat, want: seq<Bit>): (r: Option<bool>)
    ensures r == Some(true) <==>
              |want| == 0 || (at + |want| <= |b| && b[at .. at + |want|] == want)
    ensures r == None <==>
              |want| > 0 && at + |want| > |b| && forall k :: at <= k < |b| ==> b[k] == want[k - at]
    decreases |want|
  {
    if |want| == 0 then Some(true)
    else if at >= |b| then None
    else if b[at] != want[0] then Some(false)
    else
      var r := MatchRun(b, at + 1, want[1..]);
      assert at + |want| <= |b| ==> b[at .. at + |want|] == [b[at]] + b[at + 1 .. at + |want|];
      assert want == [want[0]] + want[1..];
      r
  }

  /** A row window passes when its first four bits xor to the fifth. */
  predicate RowOk(w: seq<Bit>)
    requires |w| >= 5
  {
    Xor4(w) == w[4]
  }

  function AddRow(t: Tally, w: seq<Bit>): Tally
    requires TallyOk(t) && |w| >= 4
  {
    Tally(XorBits(t.parity, w[..4]), t.id + [NaturalNibble(w)])
  }

  /** The row attempt of one iteration: while fewer than ten rows are held, a
      window at `i` that passes its check is taken and the cursor moves onto
      its parity bit; otherwise nothing changes. */
  function TryRow(b: seq<Bit>, i: nat, t: Tally): (r: (nat, Tally))
    requires |b| == Slots && 9 <= i <= MaxLength && TallyOk(t)
    ensures TallyOk(r.1) && (r.0 == i || r.0 == i + 4)
    ensures r.0 == i + 4 <==> |t.id| < 10 && RowOk(b[i .. i + 5])
  {
    var w := b[i .. i + 5];
    if |t.id| < 10 && RowOk(w) then (i + 4, AddRow(t, w)) else (i, t)
  }

  /** What one iteration of a pass decides: the pass ends with a result, or it
      goes on at cursor `i` with counters `t`. */
  datatype PassStep = Done(result: Confirm) | Go(i: nat, t: Tally)

  /** One iteration at cursor `i`: the row attempt; then, once ten rows are
      held, the five bits at the cursor against the column parity and a 0;
      then the cursor moves on by one. */
  function StepAt(b: seq<Bit>, i: nat, t: Tally): (r: PassStep)
    requires |b| == Slots && 9 <= i <= MaxLength && TallyOk(t)
    ensures r.Go? ==> i < r.i <= i + 5 && TallyOk(r.t)
    ensures r.Done? ==> r.result != NotConfirmed
    ensures r.Done? && r.result.Confirmed? ==> |r.result.id| == 10
  {
    var (i1, t1) := TryRow(b, i, t);
    if |t1.id| == 10 then
      match MatchRun(b, i1, t1.parity + [0])
      case Some(true) => Done(Confirmed(t1.id))
      case None => Done(OutOfRange)
      case Some(false) => Go(i1 + 1, t1)
    else Go(i1 + 1, t1)
  }

  /** One pass from cursor `i`, iterating while `i <= len`. */
  function ConfirmPass(b: seq<Bit>, len: int, i: nat, t: Tally): (r: Confirm)
    requires |b| == Slots && len <= MaxLength && i >= 9 && TallyOk(t)
    ensures r.Confirmed? ==> |r.id| == 10
    decreases len + 1 - i
  {
    if i > len then NotConfirmed
    else
      match StepAt(b, i, t)
      case Done(r) => r
      case Go(j, u) => ConfirmPass(b, len, j, u)
  }

  /** The whole check on a text of at least `len + 1` characters: a pass over
      the copy and, only when that pass found nothing, a second pass over the
      copy with its first `len` bits flipped. */
  function ConfirmTagParity(chars: seq<char>, len: int): (r: Confirm)
    requires len < |chars| && len <= MaxLength
    ensures r.Confirmed? ==> |r.id| == 10
  {
    var b := LoadBits(chars, len);
    match ConfirmPass(b, len, 9, NoRows)
    case NotConfirmed => ConfirmPass(FlipPrefix(b, len), len, 9, NoRows)
    case r => r
  }

  /** A row at index `p` (at or after 9) that passes its row check and reads
      as nibble `n`. */
  predicate RowAt(b: seq<Bit>, p: nat, n: Nibble)
  {
    9 <= p && p + 5 <= |b| && RowOk(b[p .. p + 5]) && NaturalNibble(b[p .. p + 5]) == n
  }

  /** Rows at positions `ps`, at least five apart, reading as `id`. */
  predicate RowsAt(b: seq<Bit>, ps: seq<nat>, id: seq<Nibble>)
  {
    |ps| == |id|
    && (forall k :: 0 <= k < |ps| ==> RowAt(b, ps[k], id[k]))
    && (forall k :: 0 <= k < |ps| - 1 ==> ps[k] + 5 <= ps[k + 1])
  }

  /** What a confirmation guarantees: ten rows as above and, starting at or
      after the last row's parity bit, the column parity of the ten nibbles
      followed by 0. */
  predicate ConfirmFrame(b: seq<Bit>, ps: seq<nat>, tr: nat, id: seq<Nibble>)
  {
    |id| == 10 && RowsAt(b, ps, id)
    && ps[9] + 4 <= tr && tr + 5 <= |b| && b[tr .. tr + 5] == ColumnParity(id) + [0]
  }

  /** Before the tenth row, a row that passes its check is taken and the
      pass goes on right after its parity bit. */
  lemma PassAcceptsRow(b: seq<Bit>, len: int, i: nat, t: Tally)
    requires |b| == Slots && len <= MaxLength && 9 <= i <= len && TallyOk(t)
    requires |t.id| < 9 && RowOk(b[i .. i + 5])
    ensures TallyOk(AddRow(t, b[i .. i + 5]))
    ensures ConfirmPass(b, len, i, t) == ConfirmPass(b, len, i + 5, AddRow(t, b[i .. i + 5]))
  {
    var t1 := AddRow(t, b[i .. i + 5]);
    assert TryRow(b, i, t) == (i + 4, t1);
    assert StepAt(b, i, t) == Go(i + 5, t1);
  }

  ghost predicate HasFrame(b: seq<Bit>, id: seq<Nibble>)
  {
    exists ps, tr :: ConfirmFrame(b, ps, tr, id)
  }

  /** Accepting a row at `i` extends the row positions by `i`. */
  lemma RowsAtExtend(b: seq<Bit>, ps: seq<nat>, t: Tally, i: nat)
    requires |b| == Slots && 9 <= i && i + 5 <= |b| && TallyOk(t) && |t.id| < 10
    requires RowsAt(b, ps, t.id) && t.parity == ColumnParity(t.id)
    requires |ps| > 0 ==> ps[|ps| - 1] + 5 <= i
    requires RowOk(b[i .. i + 5])
    ensures var t1 := AddRow(t, b[i .. i + 5]);
            RowsAt(b, ps + [i], t1.id) && t1.parity == ColumnParity(t1.id)
  {
    var w := b[i .. i + 5];
    ColumnParityAddRow(t.id, w);
    RowsAtAppend(b, ps, t.id, i, NaturalNibble(w));
  }

  /** A further row, at least five after the last one, extends the rows. */
  lemma RowsAtAppend(b: seq<Bit>, ps: seq<nat>, id: seq<Nibble>, p: nat, n: Nibble)
    requires RowsAt(b, ps, id) && RowAt(b, p, n)
    requires |ps| > 0 ==> ps[|ps| - 1] + 5 <= p
    ensures RowsAt(b, ps + [p], id + [n])
  {
    var ps1, id1 := ps + [p], id + [n];
    forall k | 0 <= k < |ps1|
      ensures RowAt(b, ps1[k], id1[k])
    {
      if k < |ps| {
        assert ps1[k] == ps[k] && id1[k] == id[k];
      }
    }
    forall k | 0 <= k < |ps1| - 1
      ensures ps1[k] + 5 <= ps1[k + 1]
    {
      if k + 1 < |ps| {
        assert ps1[k] == ps[k] && ps1[k + 1] == ps[k + 1];
      }
    }
  }

  /** The row attempt keeps the row positions in step with the counters. */
  lemma TryRowKeepsRows(b: seq<Bit>, i: nat, t: Tally, ps: seq<nat>) returns (ps1: seq<nat>)
    requires |b| == Slots && 9 <= i <= MaxLength && TallyOk(t)
    requires RowsAt(b, ps, t.id) && t.parity == ColumnParity(t.id)
    requires |ps| > 0 ==> ps[|ps| - 1] + 5 <= i
    ensures var (i1, t1) := TryRow(b, i, t);
            RowsAt(b, ps1, t1.id) && t1.parity == ColumnParity(t1.id)
            && (|ps1| > 0 ==> ps1[|ps1| - 1] + 4 <= i1)
  {
    if |t.id| < 10 && RowOk(b[i .. i + 5]) {
      RowsAtExtend(b, ps, t, i);
      ps1 := ps + [i];
    } else {
      ps1 := ps;
    }
  }

  /** One iteration keeps the row positions in step with the counters, and a
      confirmation it decides rests on a frame. */
  lemma StepKeepsRows(b: seq<Bit>, i: nat, t: Tally, ps: seq<nat>) returns (ps1: seq<nat>)
    requires |b| == Slots && 9 <= i <= MaxLength && TallyOk(t)
    requires RowsAt(b, ps, t.id) && t.parity == ColumnParity(t.id)
    requires |ps| > 0 ==> ps[|ps| - 1] + 5 <= i
    ensures var r := StepAt(b, i, t);
            (r.Go? ==> RowsAt(b, ps1, r.t.id) && r.t.parity == ColumnParity(r.t.id)
                       && (|ps1| > 0 ==> ps1[|ps1| - 1] + 5 <= r.i))
            && (r.Done? && r.result.Confirmed? ==> HasFrame(b, r.result.id))
  {
    var (i1, t1) := TryRow(b, i, t);
    ps1 := TryRowKeepsRows(b, i, t, ps);
    StepAfterRow(b, i, t);
    if |t1.id| == 10 && MatchRun(b, i1, t1.parity + [0]) == Some(true) {
      TrailerIsFrame(b, ps1, i1, t1);
    }
  }

  /** After the row attempt, an iteration either moves one past the cursor
      with the counters unchanged or confirms a matching trailer there. */
  lemma StepAfterRow(b: seq<Bit>, i: nat, t: Tally)
    requires |b| == Slots && 9 <= i <= MaxLength && TallyOk(t)
    ensures var (i1, t1) := TryRow(b, i, t);
            var r := StepAt(b, i, t);
            (r.Go? ==> r.i == i1 + 1 && r.t == t1)
            && (r.Done? && r.result.Confirmed? ==>
                  |t1.id| == 10 && MatchRun(b, i1, t1.parity + [0]) == Some(true) && r.result.id == t1.id)
  {
  }

  /** Soundness of one pass: a confirmation always rests on a frame in the
      bits the pass read. */
  lemma {:induction false} ConfirmPassSound(b: seq<Bit>, len: int, i: nat, t: Tally, ps: seq<nat>)
    requires |b| == Slots && len <= MaxLength && i >= 9 && TallyOk(t)
    requires RowsAt(b, ps, t.id) && t.parity == ColumnParity(t.id)
    requires |ps| > 0 ==> ps[|ps| - 1] + 5 <= i
    ensures var r := ConfirmPass(b, len, i, t);
            r.Confirmed? ==> HasFrame(b, r.id)
    decreases len + 1 - i
  {
    if i <= len {
      var ps1 := StepKeepsRows(b, i, t, ps);
      match StepAt(b, i, t)
      case Done(r) =>
      case Go(j, u) => ConfirmPassSound(b, len, j, u, ps1);
    }
  }

  /** A matching trailer after ten recorded rows completes a frame. */
  lemma TrailerIsFrame(b: seq<Bit>, ps: seq<nat>, at: nat, t: Tally)
    requires |t.id| == 10 && |t.parity| == 4
    requires RowsAt(b, ps, t.id) && t.parity == ColumnParity(t.id)
    requires ps[9] + 4 <= at
    requires MatchRun(b, at, t.parity + [0]) == Some(true)
    ensures HasFrame(b, t.id)
  {
    assert ConfirmFrame(b, ps, at, t.id);
  }

  /** A confirmed id is backed by a frame either in the copy of the text or in
      the copy with its first `len` bits flipped. */
  lemma ConfirmedIsFrame(chars: seq<char>, len: int)
    requires len < |chars| && len <= MaxLength
    ensures var r := ConfirmTagParity(chars, len);
            var b := LoadBits(chars, len);
            r.Confirmed? ==>
              HasFrame(b, r.id) || HasFrame(FlipPrefix(b, len), r.id)
  {
    var b := LoadBits(chars, len);
    ConfirmPassSound(b, len, 9, NoRows, []);
    ConfirmPassSound(FlipPrefix(b, len), len, 9, NoRows, []);
  }

  /** The '0'/'1' text of a bit stream. */
  function Render(bits: seq<Bit>): (s: seq<char>)
    ensures |s| == |bits|
    ensures forall k :: 0 <= k < |bits| ==> (s[k] == '1' <==> bits[k] == 1)
  {
    seq(|bits|, k requires 0 <= k < |bits| => if bits[k] == 1 then '1' else '0')
  }

  /** Counters after the first `k` rows of an encoded frame. */
  function EncodedTally(ns: seq<Nibble>, k: nat): (t: Tally)
    requires k <= |ns|
    ensures TallyOk(t) || k > 10
    ensures |t.id| == k
  {
    Tally(ColumnParity(ns[..k]), ns[..k])
  }

  /** Row `k` of an encoded frame is accepted at index `9 + 5 k`. */
  lemma EncodedRowAdds(ns: seq<Nibble>, b: seq<Bit>, k: nat)
    requires |ns| == 10 && k < 10
    requires |b| >= 64 && b[..64] == Em410xSim.Encode(ns)
    ensures RowOk(b[9 + 5 * k .. 14 + 5 * k])
    ensures AddRow(EncodedTally(ns, k), b[9 + 5 * k .. 14 + 5 * k]) == EncodedTally(ns, k + 1)
  {
    Em410xSim.EncodedRowWindow(ns, b, k);
    TallyAddsNibble(ns, k, b[9 + 5 * k .. 14 + 5 * k]);
  }

  /** A row reading as nibble `k` takes the counters of the first `k` nibbles
      to those of the first `k + 1`. */
  lemma TallyAddsNibble(ns: seq<Nibble>, k: nat, w: seq<Bit>)
    requires k < |ns| <= 10 && |w| >= 4 && NaturalNibble(w) == ns[k]
    ensures AddRow(EncodedTally(ns, k), w) == EncodedTally(ns, k + 1)
  {
    ColumnParityAddRow(ns[..k], w);
    assert ns[..k + 1] == ns[..k] + [ns[k]];
  }

  /** The rows of an encoded frame pass their checks and build up its
      counters; its trailer is the column parity and a 0. */
  predicate RowsBuildTally(b: seq<Bit>, ns: seq<Nibble>)
    requires |ns| == 10
  {
    |b| >= 64
    && (forall m :: 0 <= m < 10 ==> RowBuildsTally(b, ns, m))
    && b[59 .. 64] == ColumnParity(ns) + [0]
  }

  /** Row `m` of the frame passes its check and adds nibble `m`. */
  predicate RowBuildsTally(b: seq<Bit>, ns: seq<Nibble>, m: nat)
    requires |ns| == 10 && m < 10 && |b| >= 64
  {
    RowOk(b[9 + 5 * m .. 14 + 5 * m])
    && AddRow(EncodedTally(ns, m), b[9 + 5 * m .. 14 + 5 * m]) == EncodedTally(ns, m + 1)
  }

  lemma EncodedRowsBuildTally(ns: seq<Nibble>, b: seq<Bit>)
    requires |ns| == 10
    requires |b| >= 64 && b[..64] == Em410xSim.Encode(ns)
    ensures RowsBuildTally(b, ns)
  {
    forall m | 0 <= m < 10
      ensures RowBuildsTally(b, ns, m)
    {
      EncodedRowAdds(ns, b, m);
    }
    EncodedTrailer(ns, b);
  }

  /** A stream holding an encoded frame at its start is confirmed by the pass
      from index 9, whatever follows the frame. */
  lemma FrameConfirms(ns: seq<Nibble>, b: seq<Bit>, len: int)
    requires |ns| == 10 && |b| == Slots && 59 <= len <= MaxLength
    requires RowsBuildTally(b, ns)
    ensures ConfirmPass(b, len, 9, NoRows) == Confirmed(ns)
  {
    var ts := seq(11, m requires 0 <= m <= 10 => EncodedTally(ns, m));
    forall m | 0 <= m < 10
      ensures RowAdvances(b, ts, m)
    {
      RowOfFrame(b, ns, m);
    }
    assert ns[..10] == ns;
    assert ts[0] == NoRows;
    RowsThenTrailer(b, len, ts, 0, 9);
  }

  /** Counters `ts[m]` hold `m` rows, and row `m` of the frame, at index
      `9 + 5 m`, passes its check and turns them into `ts[m + 1]`. */
  predicate RowAdvances(b: seq<Bit>, ts: seq<Tally>, m: nat)
    requires |b| >= 64 && |ts| == 11 && m < 10
  {
    TallyOk(ts[m]) && |ts[m].id| == m
    && RowOk(b[9 + 5 * m .. 14 + 5 * m])
    && AddRow(ts[m], b[9 + 5 * m .. 14 + 5 * m]) == ts[m + 1]
  }

  /** From index `i = 9 + 5 k` with counters `ts[k]`, the pass takes the
      remaining rows one after the other and confirms at the trailer. */
  lemma {:induction false} RowsThenTrailer(b: seq<Bit>, len: int, ts: seq<Tally>, k: nat, i: nat)
    requires |b| == Slots && 59 <= len <= MaxLength && |ts| == 11 && k <= 9 && i == 9 + 5 * k
    requires forall m :: 0 <= m < |ts| ==> TallyOk(ts[m])
    requires forall m :: 0 <= m < 10 ==> RowAdvances(b, ts, m)
    requires b[59 .. 64] == ts[10].parity + [0]
    ensures ConfirmPass(b, len, i, ts[k]) == Confirmed(ts[10].id)
    decreases 9 - k
  {
    if k < 9 {
      RowsThenTrailer(b, len, ts, k + 1, i + 5);
      TallyRowStep(b, len, ts, k, i, Confirmed(ts[10].id));
    } else {
      TallyTrailer(b, len, ts);
    }
  }

  lemma TallyRowStep(b: seq<Bit>, len: int, ts: seq<Tally>, k: nat, i: nat, r: Confirm)
    requires |b| == Slots && 59 <= len <= MaxLength && |ts| == 11 && k < 9 && i == 9 + 5 * k
    requires RowAdvances(b, ts, k) && TallyOk(ts[k + 1])
    requires ConfirmPass(b, len, i + 5, ts[k + 1]) == r
    ensures ConfirmPass(b, len, i, ts[k]) == r
  {
    PassAcceptsRow(b, len, i, ts[k]);
  }

  lemma TallyTrailer(b: seq<Bit>, len: int, ts: seq<Tally>)
    requires |b| == Slots && 59 <= len <= MaxLength && |ts| == 11
    requires RowAdvances(b, ts, 9)
    requires b[59 .. 64] == ts[10].parity + [0]
    ensures ConfirmPass(b, len, 54, ts[9]) == Confirmed(ts[10].id)
  {
    TrailerConfirms(b, len, ts[9], ts[10]);
  }

  /** Row `m` of a frame whose rows build up the counters. */
  lemma RowOfFrame(b: seq<Bit>, ns: seq<Nibble>, m: nat)
    requires |ns| == 10 && m < 10
    requires RowsBuildTally(b, ns)
    ensures 14 + 5 * m <= |b|
    ensures RowOk(b[9 + 5 * m .. 14 + 5 * m])
    ensures AddRow(EncodedTally(ns, m), b[9 + 5 * m .. 14 + 5 * m]) == EncodedTally(ns, m + 1)
  {
    assert RowBuildsTally(b, ns, m);
  }

  /** The tenth row and the trailer: the window at the row's parity bit may or
      may not match, the one after it does. */
  lemma TrailerConfirms(b: seq<Bit>, len: int, t: Tally, t1: Tally)
    requires |b| == Slots && 59 <= len <= MaxLength && TallyOk(t) && |t.id| == 9
    requires RowOk(b[54 .. 59]) && AddRow(t, b[54 .. 59]) == t1
    requires b[59 .. 64] == t1.parity + [0]
    ensures ConfirmPass(b, len, 54, t) == Confirmed(t1.id)
  {
    assert TryRow(b, 54, t) == (58, t1);
    assert MatchRun(b, 59, t1.parity + [0]) == Some(true);
    if MatchRun(b, 58, t1.parity + [0]) == Some(false) {
      assert StepAt(b, 54, t) == Go(59, t1);
      assert TryRow(b, 59, t1) == (59, t1);
      assert StepAt(b, 59, t1) == Done(Confirmed(t1.id));
    }
  }

  lemma EncodedTrailer(ns: seq<Nibble>, b: seq<Bit>)
    requires |ns| == 10
    requires |b| >= 64 && b[..64] == Em410xSim.Encode(ns)
    ensures b[59 .. 64] == ColumnParity(ns) + [0]
  {
    var e := Em410xSim.Encode(ns);
    assert b[59 .. 64] == e[59 .. 64];
  }

  /** Round trip with the encoder: the text of the 64 encoded symbols, given
      with length 64 and its terminating NUL, confirms the encoded nibbles in
      the first pass. */
  lemma EncodedFrameConfirms(ns: seq<Nibble>)
    requires |ns| == 10
    ensures ConfirmTagParity(Render(Em410xSim.Encode(ns)) + ['\0'], 64) == Confirmed(ns)
  {
    var e := Em410xSim.Encode(ns);
    var chars := Render(e) + ['\0'];
    var b := LoadBits(chars, 64);
    RenderedLoads(e);
    assert b[..64] == e;
    EncodedRowsBuildTally(ns, b);
    FrameConfirms(ns, b, 64);
    FirstPassDecides(chars, 64);
  }

  /** Round trip with the text rendering: loading the text of up to 65 bits,
      with its length and terminating NUL, gives the bits back followed by the
      zeros the copy started with. */
  lemma RenderedLoads(bits: seq<Bit>)
    requires |bits| <= MaxLength
    ensures LoadBits(Render(bits) + ['\0'], |bits|) == bits + Zeros(Slots - |bits|)
  {
    var chars := Render(bits) + ['\0'];
    var b, e := LoadBits(chars, |bits|), bits + Zeros(Slots - |bits|);
    forall k | 0 <= k < Slots
      ensures b[k] == e[k]
    {
      if k < |bits| {
        assert chars[k] == Render(bits)[k];
      } else if k == |bits| {
        assert chars[k] == '\0';
      }
    }
  }

  /** Within the copy, the flip complements the first `len` bits and keeps the
      rest; flipping twice restores the copy. */
  lemma FlipPrefixComplements(b: seq<Bit>, len: int)
    requires 0 <= len <= |b|
    ensures FlipPrefix(b, len) == Complement(b[..len]) + b[len..]
    ensures FlipPrefix(FlipPrefix(b, len), len) == b
  {
    var r, e := FlipPrefix(b, len), Complement(b[..len]) + b[len..];
    forall k | 0 <= k < |b|
      ensures r[k] == e[k]
    {
      if k < len {
        assert e[k] == Complement(b[..len])[k];
      } else {
        assert e[k] == b[len..][k - len];
      }
    }
  }

  /** A confirmation in the first pass is the result of the whole check. */
  lemma FirstPassDecides(chars: seq<char>, len: int)
    requires len < |chars| && len <= MaxLength
    requires ConfirmPass(LoadBits(chars, len), len, 9, NoRows).Confirmed?
    ensures ConfirmTagParity(chars, len) == ConfirmPass(LoadBits(chars, len), len, 9, NoRows)
  {
  }
}
