/** The EM410x frame scanner of `CmdEM410xRead`: a cursor walks the coarse bit
    sequence looking for the 9-one header, ten rows of four data bits plus an even
    row-parity bit, four column-parity bits and a stop bit 0.

    Frame layout (64 bits):
      1 1 1 1 1 1 1 1 1      header
      b b b b p   x 10       rows, p = xor of the row
      c c c c                column parity
      0                      stop bit
*/
module Em410xScan {
  import opened Bits
  import opened Levels
  import Manchester

  /** The scanner's variables. `parity` is zeroed once before the first pass
      and never again; `natural` and `unique` hold the id digits written so far
      in this climb of `rows` (one slot per accepted row). `accepted` has no
      counterpart in the code: it records the natural digit of every row
      accepted since the scan began, abandoned attempts and the retry pass
      included, so that what `parity` holds can be stated (see `Tracks`). */
  datatype Scan = Scan(i: int, header: nat, rows: nat, parity: seq<Bit>,
                       natural: seq<Nibble>, unique: seq<Nibble>,
                       accepted: seq<Nibble>)

  /** What the read command reports. */
  datatype Outcome =
    | Found(natural: seq<Nibble>, unique: seq<Nibble>)
    | NotFound
      /** a rewind carried into the retry pass sent the cursor below index 0 */
    | OutOfRange

  /** Result of one loop iteration. */
  datatype StepResult = Accept(frame: Scan) | Continue(next: Scan)

  /** How one pass of the scan loop ends. */
  datatype PassEnd = Hit(frame: Scan) | Exhausted(last: Scan) | Fault(at: int)

  const Initial := Scan(0, 0, 0, [0, 0, 0, 0], [], [], [])

  /** The combinations of counters the loop can produce. */
  predicate Valid(s: Scan)
  {
    && s.header <= 9
    && s.rows <= 10
    && (s.rows > 0 ==> s.header == 9)
    && |s.parity| == 4
    && |s.natural| == s.rows
    && |s.unique| == s.rows
    && forall r :: 0 <= r < s.rows ==> s.unique[r] == ReverseNibble(s.natural[r])
  }

  /** Where the header that the current counters belong to began. */
  function Start(s: Scan): int
  {
    s.i - s.header - 5 * s.rows
  }

  /** One iteration of the scan loop at cursor `s.i`, including the loop's own
      `++i`. Row failure rewinds by `9 + 5 * rows - 5`, trailer failure by 59;
      both clear `header` and `rows` but keep `parity`. */
  function Step(bits: seq<Bit>, s: Scan): (r: StepResult)
    requires Valid(s)
    requires 0 <= s.i < |bits| - 5
    ensures r.Continue? ==> Valid(r.next)
    ensures r.Continue? ==> Start(r.next) > Start(s) || (Start(r.next) == Start(s) && r.next.i > s.i)
    ensures r.Continue? ==> r.next.i <= s.i + 5
    ensures r.Continue? ==> (r.next.parity == s.parity || r.next.rows == s.rows + 1)
    ensures r.Accept? ==> r.frame == s && s.rows == 10
                          && bits[s.i .. s.i + 4] == s.parity && bits[s.i + 4] == 0
  {
    if s.header == 9 && s.rows < 10 then
      var w := bits[s.i .. s.i + 5];
      if Xor4(w) == w[4] then
        UniqueIsReversedNatural(w);
        Continue(s.(i := s.i + 4 + 1, rows := s.rows + 1,
                    parity := XorBits(s.parity, w[..4]),
                    natural := s.natural + [NaturalNibble(w)],
                    unique := s.unique + [UniqueNibble(w)],
                    accepted := s.accepted + [NaturalNibble(w)]))
      else
        Continue(s.(i := s.i - (9 + 5 * s.rows - 5) + 1, rows := 0, header := 0,
                    natural := [], unique := []))
    else if s.rows == 10 then
      if bits[s.i .. s.i + 4] == s.parity && bits[s.i + 4] == 0 then Accept(s)
      else Continue(s.(i := s.i - 59 + 1, rows := 0, header := 0, natural := [], unique := []))
    else if bits[s.i] == 1 then Continue(s.(i := s.i + 1, header := s.header + 1))
    else Continue(s.(i := s.i + 1, header := 0))
  }

  /** The scan loop `for (; i < bit2idx - 5; i++)` from state `s`. A read at a
      negative cursor is a fault. */
  function RunPass(bits: seq<Bit>, s: Scan): (r: PassEnd)
    requires Valid(s)
    ensures r.Exhausted? ==> Valid(r.last) && r.last.i >= |bits| - 5
    ensures r.Hit? ==> Valid(r.frame) && r.frame.rows == 10
    ensures r.Fault? ==> r.at < 0
    decreases |bits| - Start(s), |bits| - s.i
  {
    if s.i >= |bits| - 5 then Exhausted(s)
    else if s.i < 0 then Fault(s.i)
    else
      match Step(bits, s)
      case Accept(t) => Hit(t)
      case Continue(s') => RunPass(bits, s')
  }

  /** One loop iteration that does not end the pass. */
  lemma RunPassContinues(bits: seq<Bit>, s: Scan)
    requires Valid(s) && 0 <= s.i < |bits| - 5
    requires Step(bits, s).Continue?
    ensures RunPass(bits, s) == RunPass(bits, Step(bits, s).next)
  {
  }

  /** A row that passes its parity check is appended to the counters. */
  lemma RowAccepted(bits: seq<Bit>, s: Scan)
    requires Valid(s) && 0 <= s.i < |bits| - 5
    requires s.header == 9 && s.rows < 10
    requires Xor4(bits[s.i .. s.i + 5]) == bits[s.i + 4]
    ensures var w := bits[s.i .. s.i + 5];
            Step(bits, s) == Continue(s.(i := s.i + 5, rows := s.rows + 1,
                                         parity := XorBits(s.parity, w[..4]),
                                         natural := s.natural + [NaturalNibble(w)],
                                         unique := s.unique + [UniqueNibble(w)],
                                         accepted := s.accepted + [NaturalNibble(w)]))
  {
  }

  /** The first pass cannot fault: the cursor never drops below the start of
      the header it is working on, which never drops below 0. */
  lemma {:induction false} PassFromSoundStartInBounds(bits: seq<Bit>, s: Scan)
    requires Valid(s) && Start(s) >= 0
    ensures !RunPass(bits, s).Fault?
    decreases |bits| - Start(s), |bits| - s.i
  {
    if 0 <= s.i < |bits| - 5 {
      match Step(bits, s)
      case Accept(t) =>
      case Continue(s') => PassFromSoundStartInBounds(bits, s');
    }
  }

  /** Two passes: the stream as demodulated, then every bit complemented.
      `header`, `rows`, `parity` and the id digits carry over into the retry;
      only the cursor restarts at 0. */
  function DecodeBits(bits: seq<Bit>): (r: Outcome)
    ensures r.Found? ==> |r.natural| == 10 && r.unique == ReverseAll(r.natural)
    ensures r.OutOfRange? ==> RunPass(bits, Initial).Exhausted?
    ensures RunPass(bits, Initial).Hit? ==> r == Found(RunPass(bits, Initial).frame.natural,
                                                      RunPass(bits, Initial).frame.unique)
  {
    PassFromSoundStartInBounds(bits, Initial);
    match RunPass(bits, Initial)
    case Hit(t) => Report(t)
    case Fault(_) => OutOfRange
    case Exhausted(s) => Retry(bits, s)
  }

  /** The retry pass over the complemented stream from cursor 0, with the
      counters `s` left by the first pass. */
  function Retry(bits: seq<Bit>, s: Scan): (r: Outcome)
    requires Valid(s)
    ensures r.Found? ==> |r.natural| == 10 && r.unique == ReverseAll(r.natural)
  {
    var s0 := s.(i := 0);
    assert Valid(s0);
    match RunPass(Complement(bits), s0)
    case Hit(t) => Report(t)
    case Fault(_) => OutOfRange
    case Exhausted(_) => NotFound
  }

  /** The id of an accepted frame in both orderings; the unique one is the
      bit reversal of the natural one digit by digit. */
  function Report(t: Scan): (r: Outcome)
    requires Valid(t) && t.rows == 10
    ensures r.Found? && r.natural == t.natural && r.unique == t.unique
    ensures |r.natural| == 10 && r.unique == ReverseAll(r.natural)
  {
    assert t.unique == ReverseAll(t.natural);
    Found(t.natural, t.unique)
  }

  /** `CmdEM410xRead`: threshold scan, Manchester extraction, then the two-pass
      frame scan. The clock comes from an external detector and must be positive.
      A reported id is read off a frame of the demodulated stream, or, for the
      retry, of that stream's scanned part followed by its complement. */
  function Em410xRead(samples: seq<int>, clock: nat): (r: Outcome)
    requires clock > 0
    ensures r.Found? ==> |r.natural| == 10 && r.unique == ReverseAll(r.natural)
    ensures r.Found? ==>
              var lv := ScanLevels(samples);
              FrameOfRead(Manchester.Demodulate(samples, lv.high, lv.low, clock), r.natural)
  {
    var lv := ScanLevels(samples);
    var bits := Manchester.Demodulate(samples, lv.high, lv.low, clock);
    var r := DecodeBits(bits);
    if r.Found? then FoundIsFrame(bits); r else r
  }

  // ---------------------------------------------------------------------
  // What the parity register holds

  /** `parity` is the column parity of every row accepted so far, including
      the rows of attempts that were later abandoned, and the rows of the
      current attempt are the latest of those. */
  predicate Tracks(s: Scan)
  {
    && s.parity == ColumnParity(s.accepted)
    && |s.natural| <= |s.accepted|
    && s.accepted[|s.accepted| - |s.natural|..] == s.natural
  }

  /** Each iteration keeps `Tracks`: an accepted row is xored into `parity`
      and recorded; a rewind drops the attempt's rows but keeps the register. */
  lemma StepTracks(bits: seq<Bit>, s: Scan)
    requires Valid(s) && Tracks(s)
    requires 0 <= s.i < |bits| - 5
    ensures Step(bits, s).Accept? ==> Tracks(Step(bits, s).frame)
    ensures Step(bits, s).Continue? ==> Tracks(Step(bits, s).next)
  {
    var w := bits[s.i .. s.i + 5];
    if s.header == 9 && s.rows < 10 && Xor4(w) == w[4] {
      RowAccepted(bits, s);
      AppendRowTracks(s, w);
    }
  }

  /** Recording a further row keeps the register in step with the record. */
  lemma AppendRowTracks(s: Scan, w: seq<Bit>)
    requires Tracks(s) && |w| >= 4
    ensures Tracks(s.(i := s.i + 5, rows := s.rows + 1,
                      parity := XorBits(s.parity, w[..4]),
                      natural := s.natural + [NaturalNibble(w)],
                      unique := s.unique + [UniqueNibble(w)],
                      accepted := s.accepted + [NaturalNibble(w)]))
  {
    ColumnParityAddRow(s.accepted, w);
    SuffixAppend(s.accepted, s.natural, NaturalNibble(w));
  }

  /** A run that ends with `n` still does after both grow by the same digit. */
  lemma SuffixAppend(a: seq<Nibble>, n: seq<Nibble>, x: Nibble)
    requires |n| <= |a| && a[|a| - |n|..] == n
    ensures var a1 := a + [x]; a1[|a1| - (|n| + 1)..] == n + [x]
  {
    var a1 := a + [x];
    assert a1[|a1| - (|n| + 1)..] == a[|a| - |n|..] + [x];
  }

  /** A pass keeps `Tracks`, whatever it starts from. */
  lemma {:induction false} RunPassTracks(bits: seq<Bit>, s: Scan)
    requires Valid(s) && Tracks(s)
    ensures RunPass(bits, s).Hit? ==> Tracks(RunPass(bits, s).frame)
    ensures RunPass(bits, s).Exhausted? ==> Tracks(RunPass(bits, s).last)
    decreases |bits| - Start(s), |bits| - s.i
  {
    if 0 <= s.i < |bits| - 5 {
      StepTracks(bits, s);
      match Step(bits, s)
      case Accept(t) =>
      case Continue(n) => RunPassTracks(bits, n);
    }
  }

  // ---------------------------------------------------------------------
  // What a pass-1 hit means about the stream

  /** Row `r` of a frame whose header starts at `h`: a window whose first four
      bits xor to the fifth, read naturally as `nib`. */
  predicate RowAt(bits: seq<Bit>, h: int, r: nat, nib: Nibble)
  {
    var p := h + 9 + 5 * r;
    && 0 <= p && p + 5 <= |bits|
    && Xor4(bits[p .. p + 5]) == bits[p + 4]
    && NaturalNibble(bits[p .. p + 5]) == nib
  }

  /** Everything the counters of `s` claim about the stream holds. */
  predicate Consistent(bits: seq<Bit>, s: Scan)
  {
    && Valid(s)
    && 0 <= Start(s)
    && s.i <= |bits|
    && (forall k :: Start(s) <= k < Start(s) + s.header ==> bits[k] == 1)
    && (forall r :: 0 <= r < |s.natural| ==> RowAt(bits, Start(s), r, s.natural[r]))
  }

  /** A whole frame at `h` whose trailer matches the given column parity. */
  predicate FrameAt(bits: seq<Bit>, h: int, natural: seq<Nibble>, parity: seq<Bit>)
  {
    && 0 <= h && h + 64 <= |bits|
    && |natural| == 10
    && (forall k :: h <= k < h + 9 ==> bits[k] == 1)
    && (forall r :: 0 <= r < 10 ==> RowAt(bits, h, r, natural[r]))
    && bits[h + 59 .. h + 63] == parity
    && bits[h + 63] == 0
  }

  lemma StepConsistent(bits: seq<Bit>, s: Scan)
    requires Consistent(bits, s)
    requires 0 <= s.i < |bits| - 5
    ensures Step(bits, s).Continue? ==> Consistent(bits, Step(bits, s).next)
  {
    if s.header == 9 && s.rows < 10 && Xor4(bits[s.i .. s.i + 5]) == bits[s.i + 4] {
      RowStepConsistent(bits, s);
    } else if s.header == 9 && s.rows < 10 {
      RowFailureConsistent(bits, s);
    } else if s.rows == 10 {
      TrailerStepConsistent(bits, s);
    } else {
      HeaderStepConsistent(bits, s);
    }
  }

  /** A failed row check drops the counters. */
  lemma RowFailureConsistent(bits: seq<Bit>, s: Scan)
    requires Consistent(bits, s)
    requires 0 <= s.i < |bits| - 5
    requires s.header == 9 && s.rows < 10 && Xor4(bits[s.i .. s.i + 5]) != bits[s.i + 4]
    ensures Step(bits, s).Continue? && Consistent(bits, Step(bits, s).next)
  {
    var j := s.i - (9 + 5 * s.rows - 5) + 1;
    assert j == Start(s) + 6;
    assert Step(bits, s) == Continue(s.(i := j, rows := 0, header := 0, natural := [], unique := []));
  }

  /** At the trailer the pass either ends or drops the counters. */
  lemma TrailerStepConsistent(bits: seq<Bit>, s: Scan)
    requires Consistent(bits, s)
    requires 0 <= s.i < |bits| - 5
    requires s.rows == 10
    ensures Step(bits, s).Continue? ==> Consistent(bits, Step(bits, s).next)
  {
  }

  /** While the header is incomplete a one extends it and a zero drops it. */
  lemma HeaderStepConsistent(bits: seq<Bit>, s: Scan)
    requires Consistent(bits, s)
    requires 0 <= s.i < |bits| - 5
    requires s.header < 9 && s.rows == 0
    ensures Step(bits, s).Continue? && Consistent(bits, Step(bits, s).next)
  {
  }

  /** An accepted row extends the counters by a row that is really there. */
  lemma RowStepConsistent(bits: seq<Bit>, s: Scan)
    requires Consistent(bits, s)
    requires 0 <= s.i < |bits| - 5
    requires s.header == 9 && s.rows < 10 && Xor4(bits[s.i .. s.i + 5]) == bits[s.i + 4]
    ensures Step(bits, s).Continue? && Consistent(bits, Step(bits, s).next)
  {
    RowAccepted(bits, s);
    AppendRowConsistent(bits, s, bits[s.i .. s.i + 5]);
  }

  /** The counters extended by the row under the cursor claim only what is
      there. */
  lemma AppendRowConsistent(bits: seq<Bit>, s: Scan, w: seq<Bit>)
    requires Consistent(bits, s)
    requires 0 <= s.i < |bits| - 5 && w == bits[s.i .. s.i + 5]
    requires s.header == 9 && s.rows < 10 && Xor4(w) == w[4]
    ensures Consistent(bits, s.(i := s.i + 5, rows := s.rows + 1,
                                parity := XorBits(s.parity, w[..4]),
                                natural := s.natural + [NaturalNibble(w)],
                                unique := s.unique + [UniqueNibble(w)],
                                accepted := s.accepted + [NaturalNibble(w)]))
  {
    assert Start(s) + 9 + 5 * s.rows == s.i;
    RowsAppend(bits, Start(s), s.natural, w);
    ReversalsAppend(s.natural, s.unique, w);
  }

  /** The row after the recorded ones, read as a further digit. */
  lemma RowsAppend(bits: seq<Bit>, h: int, natural: seq<Nibble>, w: seq<Bit>)
    requires forall q :: 0 <= q < |natural| ==> RowAt(bits, h, q, natural[q])
    requires var p := h + 9 + 5 * |natural|; 0 <= p && p + 5 <= |bits| && w == bits[p .. p + 5]
    requires Xor4(w) == w[4]
    ensures var n := natural + [NaturalNibble(w)];
            forall q :: 0 <= q < |n| ==> RowAt(bits, h, q, n[q])
  {
    var n := natural + [NaturalNibble(w)];
    forall q | 0 <= q < |n|
      ensures RowAt(bits, h, q, n[q])
    {
      if q < |natural| {
        assert n[q] == natural[q];
      }
    }
  }

  /** The unique reading of a further row is the reversal of its natural one. */
  lemma ReversalsAppend(natural: seq<Nibble>, unique: seq<Nibble>, w: seq<Bit>)
    requires |unique| == |natural| && |w| >= 4
    requires forall r :: 0 <= r < |natural| ==> unique[r] == ReverseNibble(natural[r])
    ensures var n, u := natural + [NaturalNibble(w)], unique + [UniqueNibble(w)];
            forall r :: 0 <= r < |n| ==> u[r] == ReverseNibble(n[r])
  {
    UniqueIsReversedNatural(w);
    var n, u := natural + [NaturalNibble(w)], unique + [UniqueNibble(w)];
    forall r | 0 <= r < |n|
      ensures u[r] == ReverseNibble(n[r])
    {
      if r < |natural| {
        assert u[r] == unique[r] && n[r] == natural[r];
      }
    }
  }

  /** A hit of a pass that starts from consistent counters is a genuine frame:
      header of nine ones, ten parity-correct rows read as the reported digits,
      then the running column parity and a stop bit 0. */
  lemma {:induction false} PassHitIsFrame(bits: seq<Bit>, s: Scan)
    requires Consistent(bits, s)
    ensures RunPass(bits, s).Hit? ==>
              var t := RunPass(bits, s).frame;
              FrameAt(bits, Start(t), t.natural, t.parity)
    ensures RunPass(bits, s).Exhausted? ==> Consistent(bits, RunPass(bits, s).last)
    decreases |bits| - Start(s), |bits| - s.i
  {
    if 0 <= s.i < |bits| - 5 {
      StepConsistent(bits, s);
      match Step(bits, s)
      case Accept(t) =>
        assert Start(t) + 59 == t.i;
      case Continue(s') => PassHitIsFrame(bits, s');
    }
  }

  /** `PassHitIsFrame` for a named hit `t`. */
  lemma HitFrame(bits: seq<Bit>, s: Scan, t: Scan)
    requires Consistent(bits, s)
    requires RunPass(bits, s) == Hit(t)
    ensures FrameAt(bits, Start(t), t.natural, t.parity)
  {
    PassHitIsFrame(bits, s);
  }

  /** Scan soundness of `CmdEM410xRead` for a first-pass hit `t`: the reported
      id is the rows of a genuine frame whose header starts at `Start(t)`, and
      its trailer matched the column parity of every row accepted so far, of
      which the id is the last ten. Only when no earlier attempt accepted a row
      is that the column parity of the id itself. */
  lemma FirstPassFoundIsFrame(bits: seq<Bit>, t: Scan)
    requires RunPass(bits, Initial) == Hit(t)
    ensures DecodeBits(bits) == Found(t.natural, ReverseAll(t.natural))
    ensures FrameAt(bits, Start(t), t.natural, ColumnParity(t.accepted))
    ensures |t.accepted| >= 10 && t.accepted[|t.accepted| - 10..] == t.natural
    ensures |t.accepted| == 10 ==> FrameAt(bits, Start(t), t.natural, ColumnParity(t.natural))
  {
    InitialConsistent(bits);
    PassHitIsFrame(bits, Initial);
    RunPassTracks(bits, Initial);
    HitTrailer(t);
    assert |t.accepted| == 10 ==> t.accepted == t.accepted[0..];
  }

  /** At a hit that keeps `Tracks`, the trailer matched is the column parity
      of the recorded rows, and the reported unique id is the reversal. */
  lemma HitTrailer(t: Scan)
    requires Valid(t) && t.rows == 10 && Tracks(t)
    ensures t.parity == ColumnParity(t.accepted)
    ensures |t.accepted| >= 10 && t.accepted[|t.accepted| - 10..] == t.natural
    ensures t.unique == ReverseAll(t.natural)
  {
  }

  /** The counters a pass starts with claim nothing. */
  lemma InitialConsistent(bits: seq<Bit>)
    ensures Consistent(bits, Initial) && Tracks(Initial)
  {
  }

  /** Consistency only speaks about the bits before the cursor. */
  lemma ConsistentPrefix(bits: seq<Bit>, w: seq<Bit>, s: Scan)
    requires Consistent(bits, s)
    requires s.i <= |w| && w[..s.i] == bits[..s.i]
    ensures Consistent(w, s)
  {
    forall k | Start(s) <= k < Start(s) + s.header
      ensures w[k] == 1
    {
      assert w[k] == w[..s.i][k];
    }
    forall r | 0 <= r < |s.natural|
      ensures RowAt(w, Start(s), r, s.natural[r])
    {
      var p := Start(s) + 9 + 5 * r;
      assert RowAt(bits, Start(s), r, s.natural[r]);
      assert w[p .. p + 5] == w[..s.i][p .. p + 5];
      assert bits[p .. p + 5] == bits[..s.i][p .. p + 5];
    }
  }

  // ---------------------------------------------------------------------
  // What a retry hit means about the stream

  /** The stream the retry pass continues: the part of the stream pass 1
      scanned, followed by the complemented stream. Pass 2 keeps the counters
      of pass 1, so the header and the first rows of a frame it accepts may
      lie in the first part. */
  function Spliced(bits: seq<Bit>, at: nat): (w: seq<Bit>)
    requires at <= |bits|
    ensures |w| == at + |bits|
    ensures w[..at] == bits[..at]
    ensures forall k :: 0 <= k < |bits| ==> w[at + k] == 1 - bits[k]
  {
    bits[..at] + Complement(bits)
  }

  /** The same counters with the cursor moved on by `d`. */
  function Shift(s: Scan, d: int): Scan
  {
    s.(i := s.i + d)
  }

  /** A step over `c` at cursor `i` is the step over `p + c` at `|p| + i`. */
  lemma StepShifted(p: seq<Bit>, c: seq<Bit>, s: Scan)
    requires Valid(s) && 0 <= s.i < |c| - 5
    ensures Step(p + c, Shift(s, |p|)) ==
              match Step(c, s)
              case Accept(t) => Accept(Shift(t, |p|))
              case Continue(n) => Continue(Shift(n, |p|))
  {
    var w, u := p + c, Shift(s, |p|);
    if s.header == 9 && s.rows < 10 {
      assert w[u.i .. u.i + 5] == c[s.i .. s.i + 5];
      RowStepShifted(w, c, s, |p|);
    } else if s.rows == 10 {
      assert w[u.i .. u.i + 4] == c[s.i .. s.i + 4];
      assert w[u.i + 4] == c[s.i + 4];
    } else {
      assert w[u.i] == c[s.i];
    }
  }

  /** The row branch of `StepShifted`: the same window gives the same row. */
  lemma RowStepShifted(w: seq<Bit>, c: seq<Bit>, s: Scan, d: int)
    requires Valid(s) && 0 <= s.i < |c| - 5 && 0 <= s.i + d < |w| - 5
    requires s.header == 9 && s.rows < 10
    requires w[s.i + d .. s.i + d + 5] == c[s.i .. s.i + 5]
    ensures Step(w, Shift(s, d)).Continue? && Step(c, s).Continue?
    ensures Step(w, Shift(s, d)).next == Shift(Step(c, s).next, d)
  {
  }

  /** A pass over `c` that hits is, up to the shift, a pass over `p + c` that
      hits: the two only differ where the pass over `c` would read below 0. */
  lemma {:induction false} RunPassShifted(p: seq<Bit>, c: seq<Bit>, s: Scan)
    requires Valid(s)
    ensures RunPass(c, s).Hit? ==>
              RunPass(p + c, Shift(s, |p|)) == Hit(Shift(RunPass(c, s).frame, |p|))
    decreases |c| - Start(s), |c| - s.i
  {
    if 0 <= s.i < |c| - 5 {
      StepShifted(p, c, s);
      match Step(c, s)
      case Accept(t) =>
      case Continue(n) =>
        RunPassShifted(p, c, n);
        RunPassContinues(p + c, Shift(s, |p|));
    }
  }

  /** Scan soundness of `CmdEM410xRead` for a hit `t` of the retry pass: the
      reported id is the rows of a genuine frame in the stream pass 1 scanned
      followed by the complemented stream, and its trailer matched the column
      parity of every row accepted in either pass, of which the id is the
      last ten. */
  lemma RetryFoundIsFrame(bits: seq<Bit>, last: Scan, t: Scan)
    requires RunPass(bits, Initial) == Exhausted(last)
    requires RunPass(Complement(bits), last.(i := 0)) == Hit(t)
    ensures 0 <= last.i <= |bits|
    ensures DecodeBits(bits) == Found(t.natural, ReverseAll(t.natural))
    ensures FrameAt(Spliced(bits, last.i), Start(t) + last.i, t.natural, ColumnParity(t.accepted))
    ensures |t.accepted| >= 10 && t.accepted[|t.accepted| - 10..] == t.natural
  {
    PassOneLeaves(bits, last);
    RetryReported(bits, last, t);
    SplicedHitIsFrame(bits, last, t);
  }

  /** A retry hit from counters that keep `Tracks` keeps it too. */
  lemma RetryHitTracks(bits: seq<Bit>, last: Scan, t: Scan)
    requires Valid(last) && Tracks(last)
    requires RunPass(Complement(bits), last.(i := 0)) == Hit(t)
    ensures Valid(t) && t.rows == 10 && Tracks(t)
  {
    RunPassTracks(Complement(bits), last.(i := 0));
  }

  /** The counters pass 1 ends with are consistent with the stream and keep
      `Tracks`. */
  lemma PassOneLeaves(bits: seq<Bit>, last: Scan)
    requires RunPass(bits, Initial) == Exhausted(last)
    ensures Valid(last) && Consistent(bits, last) && Tracks(last)
  {
    InitialConsistent(bits);
    PassHitIsFrame(bits, Initial);
    RunPassTracks(bits, Initial);
  }

  /** A retry hit is what the read reports. */
  lemma RetryReported(bits: seq<Bit>, last: Scan, t: Scan)
    requires RunPass(bits, Initial) == Exhausted(last)
    requires RunPass(Complement(bits), last.(i := 0)) == Hit(t)
    ensures DecodeBits(bits) == Found(t.natural, t.unique)
  {
  }

  /** The retry pass from the counters `last` that pass 1 left consistent is
      a pass over the spliced stream that picks up where pass 1 stopped. */
  lemma SplicedHitIsFrame(bits: seq<Bit>, last: Scan, t: Scan)
    requires Consistent(bits, last) && Tracks(last)
    requires RunPass(Complement(bits), last.(i := 0)) == Hit(t)
    ensures FrameAt(Spliced(bits, last.i), Start(t) + last.i, t.natural, ColumnParity(t.accepted))
    ensures |t.accepted| >= 10 && t.accepted[|t.accepted| - 10..] == t.natural
    ensures t.unique == ReverseAll(t.natural)
  {
    RetryHitTracks(bits, last, t);
    SplicedHit(bits, last, t);
    HitTrailer(t);
  }

  lemma SplicedHit(bits: seq<Bit>, last: Scan, t: Scan)
    requires Consistent(bits, last)
    requires RunPass(Complement(bits), last.(i := 0)) == Hit(t)
    ensures FrameAt(Spliced(bits, last.i), Start(t) + last.i, t.natural, t.parity)
  {
    SplicedConsistent(bits, last);
    RetryAsSpliced(bits, last, t);
    ShiftedHitFrame(Spliced(bits, last.i), last, t);
  }

  /** A hit that is `t` shifted by the cursor `s.i` it started from, stated in
      terms of `t`. */
  lemma ShiftedHitFrame(w: seq<Bit>, s: Scan, t: Scan)
    requires Consistent(w, s)
    requires RunPass(w, s) == Hit(Shift(t, s.i))
    ensures FrameAt(w, Start(t) + s.i, t.natural, t.parity)
  {
    HitFrame(w, s, Shift(t, s.i));
    ShiftFrame(w, t, s);
  }

  /** A frame found by the shifted counters, stated in terms of `t`. */
  lemma ShiftFrame(w: seq<Bit>, t: Scan, s: Scan)
    requires FrameAt(w, Start(Shift(t, s.i)), Shift(t, s.i).natural, Shift(t, s.i).parity)
    ensures FrameAt(w, Start(t) + s.i, t.natural, t.parity)
  {
    assert Start(Shift(t, s.i)) == Start(t) + s.i;
  }

  /** The counters pass 1 left describe the spliced stream as well. */
  lemma SplicedConsistent(bits: seq<Bit>, last: Scan)
    requires Consistent(bits, last)
    ensures 0 <= last.i <= |bits| && Consistent(Spliced(bits, last.i), last)
  {
    ConsistentPrefix(bits, Spliced(bits, last.i), last);
  }

  /** The retry hit, seen as a hit of a pass over the spliced stream from
      where pass 1 stopped. */
  lemma RetryAsSpliced(bits: seq<Bit>, last: Scan, t: Scan)
    requires Valid(last) && 0 <= last.i <= |bits|
    requires RunPass(Complement(bits), last.(i := 0)) == Hit(t)
    ensures RunPass(Spliced(bits, last.i), last) == Hit(Shift(t, last.i))
  {
    var c, s0 := Complement(bits), last.(i := 0);
    var p := bits[..last.i];
    assert Spliced(bits, last.i) == p + c;
    assert Shift(s0, |p|) == last;
    RunPassShifted(p, c, s0);
  }

  /** What a reported id rests on: a frame whose header is nine ones, whose
      ten rows pass their row check and read as the id, and whose trailer ends
      in a stop bit 0. It lies in the stream as demodulated, or, for a retry
      hit, in the stream pass 1 scanned followed by the complemented stream. */
  ghost predicate FrameOfRead(bits: seq<Bit>, natural: seq<Nibble>)
  {
    || (exists h, p :: FrameAt(bits, h, natural, p))
    || (exists at: nat, h, p :: |bits| - 5 <= at <= |bits| && FrameAt(Spliced(bits, at), h, natural, p))
  }

  /** Scan soundness of `CmdEM410xRead` over both passes. */
  lemma FoundIsFrame(bits: seq<Bit>)
    requires DecodeBits(bits).Found?
    ensures FrameOfRead(bits, DecodeBits(bits).natural)
  {
    FoundCases(bits);
    var p1 := RunPass(bits, Initial);
    if p1.Hit? {
      FirstPassFrameOfRead(bits, p1.frame);
    } else {
      RetryFrameOfRead(bits, p1.last, RunPass(Complement(bits), p1.last.(i := 0)).frame);
    }
  }

  /** An id is found by a first-pass hit or, after a pass that runs out, by a
      retry hit. */
  lemma FoundCases(bits: seq<Bit>)
    requires DecodeBits(bits).Found?
    ensures var p1 := RunPass(bits, Initial);
            p1.Hit? || (p1.Exhausted? && RunPass(Complement(bits), p1.last.(i := 0)).Hit?)
  {
    PassFromSoundStartInBounds(bits, Initial);
  }

  lemma FirstPassFrameOfRead(bits: seq<Bit>, t: Scan)
    requires RunPass(bits, Initial) == Hit(t)
    ensures DecodeBits(bits).Found? && FrameOfRead(bits, DecodeBits(bits).natural)
  {
    FirstPassFoundIsFrame(bits, t);
    assert FrameAt(bits, Start(t), t.natural, ColumnParity(t.accepted));
  }

  lemma RetryFrameOfRead(bits: seq<Bit>, last: Scan, t: Scan)
    requires RunPass(bits, Initial) == Exhausted(last)
    requires RunPass(Complement(bits), last.(i := 0)) == Hit(t)
    ensures DecodeBits(bits).Found? && FrameOfRead(bits, DecodeBits(bits).natural)
  {
    RetryFoundIsFrame(bits, last, t);
    assert FrameAt(Spliced(bits, last.i), Start(t) + last.i, t.natural, ColumnParity(t.accepted));
  }

  /** When pass 1 ends with no header ones and no rows pending, the retry
      carries nothing over and a hit is a frame of the complemented stream
      alone. */
  lemma FreshRetryFoundIsFrame(bits: seq<Bit>, last: Scan, t: Scan)
    requires RunPass(bits, Initial) == Exhausted(last)
    requires last.header == 0 && last.rows == 0
    requires RunPass(Complement(bits), last.(i := 0)) == Hit(t)
    ensures FrameAt(Complement(bits), Start(t), t.natural, ColumnParity(t.accepted))
  {
    PassOneLeaves(bits, last);
    FreshConsistent(Complement(bits), last);
    RetryHitTracks(bits, last, t);
    HitFrame(Complement(bits), last.(i := 0), t);
  }

  /** Counters with no header ones and no rows claim nothing at cursor 0. */
  lemma FreshConsistent(c: seq<Bit>, last: Scan)
    requires Valid(last) && last.header == 0 && last.rows == 0
    ensures Consistent(c, last.(i := 0))
  {
  }

  // ---------------------------------------------------------------------
  // Resynchronisation

  /** After a row failure the loop resumes six bits after the start of the
      header it had found, with `header` and `rows` cleared and `parity` kept. */
  lemma RowFailureResumesAfterHeader(bits: seq<Bit>, s: Scan)
    requires Consistent(bits, s)
    requires 0 <= s.i < |bits| - 5
    requires s.header == 9 && s.rows < 10
    requires Xor4(bits[s.i .. s.i + 5]) != bits[s.i + 4]
    ensures Step(bits, s).Continue?
    ensures var n := Step(bits, s).next;
            && (forall k :: Start(s) <= k < Start(s) + 9 ==> bits[k] == 1)
            && n.i == Start(s) + 6
            && n.header == 0 && n.rows == 0 && n.parity == s.parity && n.accepted == s.accepted
  {
  }

  /** After a trailer failure the loop resumes one bit after the start of the
      header, with `header` and `rows` cleared and `parity` kept. */
  lemma TrailerFailureResumesAfterHeader(bits: seq<Bit>, s: Scan)
    requires Consistent(bits, s)
    requires 0 <= s.i < |bits| - 5
    requires s.rows == 10
    requires bits[s.i .. s.i + 4] != s.parity || bits[s.i + 4] != 0
    ensures Step(bits, s).Continue?
    ensures var n := Step(bits, s).next;
            && (forall k :: Start(s) <= k < Start(s) + 9 ==> bits[k] == 1)
            && n.i == Start(s) + 1
            && n.header == 0 && n.rows == 0 && n.parity == s.parity && n.accepted == s.accepted
  {
  }

  // ---------------------------------------------------------------------
  // The retry pass

  /** The retry pass starts with the carried counters at cursor 0. If pass 1
      ended inside a frame attempt (header found, some rows accepted) and the
      complemented stream fails the row check at index 0, the rewind by
      `9 + 5 * rows - 5` leaves the cursor negative and the next read is out of
      range. */
  lemma RetryRowFailureUnderflows(bits: seq<Bit>, last: Scan)
    requires |bits| > 5
    requires RunPass(bits, Initial) == Exhausted(last)
    requires last.header == 9 && 0 < last.rows < 10
    requires var c := Complement(bits); Xor4(c[0 .. 5]) != c[4]
    ensures DecodeBits(bits) == OutOfRange
  {
    DecodeRetries(bits, last);
    RowFailureAtZero(Complement(bits), last.(i := 0));
  }

  /** Rows pending at cursor 0 over a window that fails the row check. */
  lemma RowFailureAtZero(c: seq<Bit>, s: Scan)
    requires Valid(s) && s.header == 9 && 0 < s.rows < 10 && s.i == 0
    requires |c| > 5 && Xor4(c[0 .. 5]) != c[4]
    ensures RunPass(c, s).Fault?
  {
    var n := Step(c, s).next;
    assert n.i == 0 - (9 + 5 * s.rows - 5) + 1 < 0;
    RunPassContinues(c, s);
  }

  /** If pass 1 ends holding ten rows, the retry checks the trailer right at
      cursor 0. When the stream opens with five ones the complemented window
      is `0 0 0 0 | 0`: it is accepted exactly when the carried column parity
      is all zeros, and otherwise the rewind by 59 leaves the cursor at -58. */
  lemma RetryTrailerAtStart(bits: seq<Bit>, last: Scan)
    requires RunPass(bits, Initial) == Exhausted(last) && last.rows == 10
    requires |bits| > 5 && bits[..5] == [1, 1, 1, 1, 1]
    ensures DecodeBits(bits) ==
              if last.parity == [0, 0, 0, 0] then Found(last.natural, last.unique) else OutOfRange
  {
    ComplementedOnes(bits);
    DecodeRetries(bits, last);
    TrailerAtZero(Complement(bits), last.(i := 0));
  }

  /** Five leading ones complement to the window `0 0 0 0 | 0`. */
  lemma ComplementedOnes(bits: seq<Bit>)
    requires |bits| > 5 && bits[..5] == [1, 1, 1, 1, 1]
    ensures var c := Complement(bits); c[0 .. 4] == [0, 0, 0, 0] && c[4] == 0
  {
    assert forall k :: 0 <= k < 5 ==> bits[k] == bits[..5][k];
  }

  /** A first pass that runs out hands its counters to the retry. */
  lemma DecodeRetries(bits: seq<Bit>, last: Scan)
    requires RunPass(bits, Initial) == Exhausted(last)
    ensures Valid(last) && DecodeBits(bits) == Retry(bits, last)
  {
  }

  /** Ten rows held, and the trailer window matches: the frame is accepted. */
  lemma TrailerAccepted(bits: seq<Bit>, s: Scan)
    requires Valid(s) && s.rows == 10 && 0 <= s.i < |bits| - 5
    requires bits[s.i .. s.i + 4] == s.parity && bits[s.i + 4] == 0
    ensures Step(bits, s) == Accept(s)
  {
  }

  /** Ten rows held at cursor 0 over a window `0 0 0 0 | 0`. */
  lemma TrailerAtZero(c: seq<Bit>, s: Scan)
    requires Valid(s) && s.rows == 10 && s.i == 0
    requires |c| > 5 && c[0 .. 4] == [0, 0, 0, 0] && c[4] == 0
    ensures RunPass(c, s) == if s.parity == [0, 0, 0, 0] then Hit(s) else Fault(-58)
  {
    if s.parity != [0, 0, 0, 0] {
      var n := s.(i := -58, rows := 0, header := 0, natural := [], unique := []);
      assert Step(c, s) == Continue(n);
      RunPassContinues(c, s);
    }
  }

  /** The retry keeps the header count pass 1 ended with, not only the rows.
      When `h` ones were pending and the complemented stream opens with nine
      ones, the retry completes its header after `9 - h` of them: it reads its
      first row at cursor `9 - h` instead of 9, out of step with a frame that
      starts at index 0. */
  lemma RetryHeaderMisaligned(bits: seq<Bit>, last: Scan)
    requires RunPass(bits, Initial) == Exhausted(last)
    requires last.rows == 0 && 0 < last.header < 9
    requires |bits| >= 14
    requires forall k :: 0 <= k < 9 ==> Complement(bits)[k] == 1
    ensures DecodeBits(bits) == Retry(bits, last)
    ensures RunPass(Complement(bits), last.(i := 0))
            == RunPass(Complement(bits), last.(i := 9 - last.header, header := 9))
  {
    DecodeRetries(bits, last);
    var s := last.(i := 0);
    OnesAdvanceHeader(Complement(bits), s);
    assert s.(i := s.i + (9 - s.header), header := 9) == last.(i := 9 - last.header, header := 9);
  }

  /** With seven or eight ones pending, the row window after the misplaced
      header still lies inside the run of ones and fails its check, and the
      rewind sends the cursor below 0: a frame at the start of the
      complemented stream is lost and the read ends out of range. */
  lemma CarriedHeaderUnderflows(bits: seq<Bit>, last: Scan)
    requires RunPass(bits, Initial) == Exhausted(last)
    requires last.rows == 0 && 7 <= last.header < 9
    requires |bits| >= 14
    requires forall k :: 0 <= k < 9 ==> Complement(bits)[k] == 1
    ensures DecodeBits(bits) == OutOfRange
  {
    RetryHeaderMisaligned(bits, last);
    HeaderInOnesFails(Complement(bits), last.(i := 9 - last.header, header := 9));
  }

  /** A header completed at cursor 1 or 2 of a run of nine ones: the row
      window `1 1 1 1 | 1` fails and the rewind lands below 0. */
  lemma HeaderInOnesFails(c: seq<Bit>, s: Scan)
    requires Valid(s) && s.header == 9 && s.rows == 0 && 1 <= s.i <= 2
    requires |c| >= 14 && forall k :: 0 <= k < 9 ==> c[k] == 1
    ensures RunPass(c, s).Fault?
  {
    assert c[s.i .. s.i + 5] == [1, 1, 1, 1, 1];
    RunPassContinues(c, s);
  }

  /** One stream that reaches that case: `0 1 1 1 1 1 1 1 1 1 0 0 0 0 0 x`.
      Pass 1 finds the header at 1 and accepts the row at 10, then runs out of
      stream; in pass 2 the row at index 0 reads `1 0 0 0 | 0` and the cursor
      is rewound to -8. */
  lemma RetryPassCanUnderflow(bits: seq<Bit>)
    requires |bits| == 16 && bits[0] == 0
    requires forall k :: 1 <= k < 10 ==> bits[k] == 1
    requires forall k :: 10 <= k < 15 ==> bits[k] == 0
    ensures DecodeBits(bits) == OutOfRange
  {
    ExampleFirstPass(bits);
    ExampleRetryRowFails(bits);
    RetryRowFailureUnderflows(bits, Scan(15, 9, 1, [0, 0, 0, 0], [0], [0], [0]));
  }

  /** The complemented example opens with `1 0 0 0 | 0`, which fails the row
      check. */
  lemma ExampleRetryRowFails(bits: seq<Bit>)
    requires |bits| == 16 && bits[0] == 0
    requires forall k :: 1 <= k < 10 ==> bits[k] == 1
    ensures var c := Complement(bits); Xor4(c[0 .. 5]) != c[4]
  {
    var c := Complement(bits);
    assert c[0 .. 5] == [1, 0, 0, 0, 0];
  }

  /** Pass 1 over the example: the leading 0, the header of nine ones, the row
      of zeros, then the end of the stream with one row held. */
  lemma ExampleFirstPass(bits: seq<Bit>)
    requires |bits| == 16 && bits[0] == 0
    requires forall k :: 1 <= k < 10 ==> bits[k] == 1
    requires forall k :: 10 <= k < 15 ==> bits[k] == 0
    ensures RunPass(bits, Initial) == Exhausted(Scan(15, 9, 1, [0, 0, 0, 0], [0], [0], [0]))
  {
    var s1 := Scan(1, 0, 0, [0, 0, 0, 0], [], [], []);
    ExampleLeadingZero(bits);
    OnesAdvanceHeader(bits, s1);
    assert s1.(i := s1.i + (9 - s1.header), header := 9) == Scan(10, 9, 0, [0, 0, 0, 0], [], [], []);
    ExampleRow(bits);
  }

  /** The example's leading 0 only moves the cursor. */
  lemma ExampleLeadingZero(bits: seq<Bit>)
    requires |bits| == 16 && bits[0] == 0
    ensures RunPass(bits, Initial) == RunPass(bits, Scan(1, 0, 0, [0, 0, 0, 0], [], [], []))
  {
    ZeroDropsHeader(bits, Initial);
    RunPassContinues(bits, Initial);
  }

  /** Outside a frame a 0 drops the header count and moves on. */
  lemma ZeroDropsHeader(bits: seq<Bit>, s: Scan)
    requires Valid(s) && s.rows == 0 && s.header < 9
    requires 0 <= s.i < |bits| - 5 && bits[s.i] == 0
    ensures Step(bits, s) == Continue(s.(i := s.i + 1, header := 0))
  {
  }

  /** Outside a frame, a 0 fewer than `9 - header` bits ahead is reached
      before the header can complete, and it drops the count. */
  lemma {:induction false} ZeroHop(bits: seq<Bit>, s: Scan, j: int)
    requires Valid(s) && s.rows == 0 && s.header < 9
    requires 0 <= s.i <= j < |bits| - 5 && j < s.i + (9 - s.header) && bits[j] == 0
    ensures RunPass(bits, s) == RunPass(bits, s.(i := j + 1, header := 0))
    decreases j - s.i
  {
    RunPassContinues(bits, s);
    if bits[s.i] == 0 {
      ZeroDropsHeader(bits, s);
      if s.i < j {
        var n := s.(i := s.i + 1, header := 0);
        ZeroHop(bits, n, j);
        assert n.(i := j + 1, header := 0) == s.(i := j + 1, header := 0);
      }
    } else {
      var n := s.(i := s.i + 1, header := s.header + 1);
      assert Step(bits, s) == Continue(n);
      ZeroHop(bits, n, j);
      assert n.(i := j + 1, header := 0) == s.(i := j + 1, header := 0);
    }
  }

  /** A run of `m` ones that leaves the header short of nine only raises the
      count. */
  lemma {:induction false} OnesRun(bits: seq<Bit>, s: Scan, m: nat)
    requires Valid(s) && s.rows == 0 && s.header + m < 9
    requires 0 <= s.i && s.i + m <= |bits| - 5
    requires forall k :: s.i <= k < s.i + m ==> bits[k] == 1
    ensures RunPass(bits, s) == RunPass(bits, s.(i := s.i + m, header := s.header + m))
    decreases m
  {
    if m > 0 {
      var n := s.(i := s.i + 1, header := s.header + 1);
      assert Step(bits, s) == Continue(n);
      RunPassContinues(bits, s);
      OnesRun(bits, n, m - 1);
      assert n.(i := n.i + (m - 1), header := n.header + (m - 1))
             == s.(i := s.i + m, header := s.header + m);
    }
  }

  /** The example's row of zeros passes its check and the stream ends. */
  lemma ExampleRow(bits: seq<Bit>)
    requires |bits| == 16
    requires forall k :: 10 <= k < 15 ==> bits[k] == 0
    ensures RunPass(bits, Scan(10, 9, 0, [0, 0, 0, 0], [], [], []))
            == Exhausted(Scan(15, 9, 1, [0, 0, 0, 0], [0], [0], [0]))
  {
    var s10 := Scan(10, 9, 0, [0, 0, 0, 0], [], [], []);
    var s15 := Scan(15, 9, 1, [0, 0, 0, 0], [0], [0], [0]);
    var w := bits[10 .. 15];
    assert w == [0, 0, 0, 0, 0];
    assert XorBits([0, 0, 0, 0], w[..4]) == [0, 0, 0, 0];
    assert NaturalNibble(w) == 0 && UniqueNibble(w) == 0;
    assert Step(bits, s10) == Continue(s15);
    RunPassContinues(bits, s10);
  }

  /** Nine ones at the start of the stream are taken as the header. */
  lemma HeaderAtStart(bits: seq<Bit>)
    requires |bits| >= 14
    requires forall k :: 0 <= k < 9 ==> bits[k] == 1
    ensures RunPass(bits, Initial) == RunPass(bits, Scan(9, 9, 0, [0, 0, 0, 0], [], [], []))
  {
    var s := Initial;
    assert Valid(s) && s.header == 0;
    OnesAdvanceHeader(bits, s);
    assert s.(i := s.i + (9 - s.header), header := 9) == Scan(9, 9, 0, [0, 0, 0, 0], [], [], []);
  }

  /** A run of ones completes a pending header without moving anything else. */
  lemma {:induction false} OnesAdvanceHeader(bits: seq<Bit>, s: Scan)
    requires Valid(s) && s.rows == 0 && s.header < 9
    requires 0 <= s.i && s.i + (9 - s.header) <= |bits| - 5
    requires forall k :: s.i <= k < s.i + (9 - s.header) ==> bits[k] == 1
    ensures RunPass(bits, s) == RunPass(bits, s.(i := s.i + (9 - s.header), header := 9))
    decreases 9 - s.header
  {
    var n := s.(i := s.i + 1, header := s.header + 1);
    assert Step(bits, s) == Continue(n);
    RunPassContinues(bits, s);
    if s.header < 8 {
      OnesAdvanceHeader(bits, n);
      assert n.(i := n.i + (9 - n.header), header := 9) == s.(i := s.i + (9 - s.header), header := 9);
    }
  }
}
