/** The EM410x encoder of `CmdEM410xSim` and its round trip through the frame
    scanner. The encoder appends one clock-wide cell per symbol; the model keeps
    the symbol values, one bit per cell. */
module Em410xSim {
  import opened Bits
  import opened Em410xScan

  /** Samples per symbol cell; EM410x tags are simulated with a fixed clock. */
  const SimClock: nat := 64

  /** One row: the nibble's bits, most significant first, then their xor. */
  function RowBits(n: Nibble): (r: seq<Bit>)
    ensures |r| == 5
  {
    NibbleBits(n) + [Xor4(NibbleBits(n))]
  }

  function RowsBits(ns: seq<Nibble>): (r: seq<Bit>)
    ensures |r| == 5 * |ns|
    ensures forall k :: 0 <= k < |ns| ==> r[5 * k .. 5 * k + 5] == RowBits(ns[k])
  {
    if |ns| == 0 then []
    else
      var prev := RowsBits(ns[..|ns| - 1]);
      var r := prev + RowBits(ns[|ns| - 1]);
      assert forall k :: 0 <= k < |ns| - 1 ==> r[5 * k .. 5 * k + 5] == prev[5 * k .. 5 * k + 5];
      r
  }

  /** The 64 symbols of a frame for ten nibbles: nine ones; for each nibble its
      bits most significant first and then their xor; the four column xors;
      a stop bit 0. */
  function Encode(ns: seq<Nibble>): (r: seq<Bit>)
    requires |ns| == 10
    ensures |r| == 64
    ensures forall k :: 0 <= k < 9 ==> r[k] == 1
    ensures forall k :: 0 <= k < 10 ==>
              r[9 + 5 * k .. 13 + 5 * k] == NibbleBits(ns[k])
              && r[13 + 5 * k] == Xor4(NibbleBits(ns[k]))
    ensures r[59 .. 63] == ColumnParity(ns)
    ensures forall c :: 0 <= c < 4 ==> r[59 + c] == OnesInColumn(ns, c) % 2
    ensures r[63] == 0
  {
    var r := Ones(9) + RowsBits(ns) + ColumnParity(ns) + [0];
    RowsPlaced(ns, r);
    assert r[59 .. 63] == ColumnParity(ns);
    r
  }

  /** Row `k` of the frame for `ns` sits at `9 + 5 * k`. */
  lemma RowsPlaced(ns: seq<Nibble>, r: seq<Bit>)
    requires |ns| == 10 && r == Ones(9) + RowsBits(ns) + ColumnParity(ns) + [0]
    ensures forall k :: 0 <= k < 10 ==>
              r[9 + 5 * k .. 13 + 5 * k] == NibbleBits(ns[k])
              && r[13 + 5 * k] == Xor4(NibbleBits(ns[k]))
  {
    var rows := RowsBits(ns);
    assert r[9 .. 59] == rows;
    forall k | 0 <= k < 10
      ensures r[9 + 5 * k .. 13 + 5 * k] == NibbleBits(ns[k])
      ensures r[13 + 5 * k] == Xor4(NibbleBits(ns[k]))
    {
      RowPlaced(ns, rows, r, k);
    }
  }

  lemma RowPlaced(ns: seq<Nibble>, rows: seq<Bit>, r: seq<Bit>, k: int)
    requires |ns| == 10 && rows == RowsBits(ns) && |r| == 64 && r[9 .. 59] == rows
    requires 0 <= k < 10
    ensures r[9 + 5 * k .. 13 + 5 * k] == NibbleBits(ns[k])
    ensures r[13 + 5 * k] == Xor4(NibbleBits(ns[k]))
  {
    RowWindow(ns, rows, r, k);
    var row := r[9 + 5 * k .. 14 + 5 * k];
    assert r[9 + 5 * k .. 13 + 5 * k] == row[..4];
    assert r[13 + 5 * k] == row[4];
  }

  lemma RowWindow(ns: seq<Nibble>, rows: seq<Bit>, r: seq<Bit>, k: int)
    requires |ns| == 10 && rows == RowsBits(ns) && |r| == 64 && r[9 .. 59] == rows
    requires 0 <= k < 10
    ensures r[9 + 5 * k .. 14 + 5 * k] == RowBits(ns[k])
  {
    var row := r[9 + 5 * k .. 14 + 5 * k];
    forall j | 0 <= j < 5
      ensures row[j] == rows[5 * k + j]
    {
      assert rows[5 * k + j] == r[9 + 5 * k + j];
    }
    assert row == rows[5 * k .. 5 * k + 5];
  }

  /** The scanner's counters after the header and the first `k` rows of the
      frame for `ns` were accepted from the start of the stream. */
  function FrameState(ns: seq<Nibble>, k: nat): Scan
    requires k <= |ns|
  {
    Scan(9 + 5 * k, 9, k, ColumnParity(ns[..k]), ns[..k], ReverseAll(ns[..k]), ns[..k])
  }

  lemma FrameStateValid(ns: seq<Nibble>, k: nat)
    requires k <= |ns| && k <= 10
    ensures Valid(FrameState(ns, k))
  {
    var s := FrameState(ns, k);
    assert |s.natural| == k && |s.unique| == k;
    forall r | 0 <= r < k
      ensures s.unique[r] == ReverseNibble(s.natural[r])
    {
      assert s.natural[r] == ns[r];
    }
  }

  /** A window at row `k` that carries nibble `k` with its row parity passes
      the row check and moves the counters on to the next row. */
  lemma EncodedRowStep(ns: seq<Nibble>, bits: seq<Bit>, k: nat)
    requires |ns| == 10 && k < 10 && |bits| >= 64
    requires var w := bits[9 + 5 * k .. 14 + 5 * k];
             w[..4] == NibbleBits(ns[k]) && Xor4(w) == w[4]
    ensures Valid(FrameState(ns, k))
    ensures Step(bits, FrameState(ns, k)) == Continue(FrameState(ns, k + 1))
  {
    FrameStateValid(ns, k);
    var s := FrameState(ns, k);
    var w := bits[s.i .. s.i + 5];
    RowAccepted(bits, s);
    NextFrameState(ns, k, w);
  }

  /** Appending row `k` to the counters of the first `k` rows gives the
      counters of the first `k + 1`. */
  lemma NextFrameState(ns: seq<Nibble>, k: nat, w: seq<Bit>)
    requires k < |ns| && k < 10
    requires |w| == 5 && w[..4] == NibbleBits(ns[k])
    ensures var s := FrameState(ns, k);
            s.(i := s.i + 5, rows := s.rows + 1,
               parity := XorBits(s.parity, w[..4]),
               natural := s.natural + [NaturalNibble(w)],
               unique := s.unique + [UniqueNibble(w)],
               accepted := s.accepted + [NaturalNibble(w)])
            == FrameState(ns, k + 1)
  {
    assert ns[..k + 1][..k] == ns[..k];
    assert ns[..k + 1] == ns[..k] + [ns[k]];
    assert NaturalNibble(w) == NaturalNibble(w[..4]) == ns[k];
    assert UniqueNibble(w) == UniqueNibble(w[..4]) == ReverseNibble(ns[k]);
  }

  /** The window of row `k` of an encoded frame carries the nibble and passes
      the parity check. */
  lemma EncodedRowWindow(ns: seq<Nibble>, bits: seq<Bit>, k: nat)
    requires |ns| == 10 && k < 10
    requires |bits| >= 64 && bits[..64] == Encode(ns)
    ensures var w := bits[9 + 5 * k .. 14 + 5 * k];
            w[..4] == NibbleBits(ns[k]) && Xor4(w) == w[4] && NaturalNibble(w) == ns[k]
  {
    var e := Encode(ns);
    var w := bits[9 + 5 * k .. 14 + 5 * k];
    assert w == e[9 + 5 * k .. 14 + 5 * k];
    assert w[..4] == e[9 + 5 * k .. 13 + 5 * k];
    assert w[4] == e[13 + 5 * k];
  }

  /** The rows of an encoded frame are all accepted, in order. */
  lemma {:induction false} EncodedRowsAccepted(ns: seq<Nibble>, bits: seq<Bit>, k: nat)
    requires |ns| == 10 && k <= 10
    requires |bits| >= 64 && bits[..64] == Encode(ns)
    ensures Valid(FrameState(ns, k))
    ensures RunPass(bits, FrameState(ns, k)) == RunPass(bits, FrameState(ns, 10))
    decreases 10 - k
  {
    FrameStateValid(ns, k);
    if k < 10 {
      EncodedRowWindow(ns, bits, k);
      EncodedRowStep(ns, bits, k);
      RunPassContinues(bits, FrameState(ns, k));
      EncodedRowsAccepted(ns, bits, k + 1);
    }
  }

  /** An encoded frame begins with its nine header ones. */
  lemma EncodedHeaderOnes(ns: seq<Nibble>, bits: seq<Bit>)
    requires |ns| == 10
    requires |bits| >= 64 && bits[..64] == Encode(ns)
    ensures forall k :: 0 <= k < 9 ==> bits[k] == 1
  {
    forall k | 0 <= k < 9 ensures bits[k] == 1 {
      assert bits[k] == bits[..64][k];
    }
  }

  /** Pass 1 reaches the trailer of a frame at the start of the stream with the
      counters holding exactly the frame's rows and column parity. */
  lemma EncodedHeaderAndRows(ns: seq<Nibble>, bits: seq<Bit>)
    requires |ns| == 10
    requires |bits| >= 64 && bits[..64] == Encode(ns)
    ensures Valid(FrameState(ns, 10))
    ensures RunPass(bits, Initial) == RunPass(bits, FrameState(ns, 10))
  {
    EncodedHeaderOnes(ns, bits);
    HeaderAtStart(bits);
    NoRowsYet(ns);
    EncodedRowsAccepted(ns, bits, 0);
  }

  /** Before the first row the counters hold only the header. */
  lemma NoRowsYet(ns: seq<Nibble>)
    ensures FrameState(ns, 0) == Scan(9, 9, 0, [0, 0, 0, 0], [], [], [])
  {
    assert ns[..0] == [];
  }

  /** The trailer of an encoded frame matches the column parity of its rows. */
  lemma EncodedTrailer(ns: seq<Nibble>, bits: seq<Bit>)
    requires |ns| == 10
    requires |bits| >= 65 && bits[59 .. 63] == ColumnParity(ns) && bits[63] == 0
    ensures Valid(FrameState(ns, 10))
    ensures Step(bits, FrameState(ns, 10)) == Accept(FrameState(ns, 10))
  {
    FrameStateValid(ns, 10);
    FullFrameState(ns);
    TrailerAccepted(bits, FrameState(ns, 10));
  }

  /** The four bits after the rows of an encoded frame are the column parity,
      and the stop bit after them is 0. */
  lemma EncodedTrailerWindow(ns: seq<Nibble>, bits: seq<Bit>)
    requires |ns| == 10
    requires |bits| >= 64 && bits[..64] == Encode(ns)
    ensures bits[59 .. 63] == ColumnParity(ns) && bits[63] == 0
  {
    var e := Encode(ns);
    assert bits[59 .. 63] == e[59 .. 63];
    assert bits[63] == e[63];
  }

  /** Round trip: the 64 encoded symbols followed by at least one more bit are
      found by the first pass, with the nibbles in natural order and their bit
      reversals as the unique id. */
  lemma EncodeThenDecode(ns: seq<Nibble>, tail: seq<Bit>)
    requires |ns| == 10 && |tail| >= 1
    ensures RunPass(Encode(ns) + tail, Initial).Hit?
    ensures DecodeBits(Encode(ns) + tail) == Found(ns, ReverseAll(ns))
  {
    var bits := Encode(ns) + tail;
    assert bits[..64] == Encode(ns);
    EncodedHeaderAndRows(ns, bits);
    EncodedTrailerWindow(ns, bits);
    EncodedTrailer(ns, bits);
    var t := FrameState(ns, 10);
    assert RunPass(bits, t) == Hit(t);
    assert t.natural == ns && t.unique == ReverseAll(ns) by {
      assert ns[..10] == ns;
    }
  }

  /** Without a bit after the stop bit the loop bound `i < bit2idx - 5` stops
      the first pass at the trailer, so the frame is not found there. */
  lemma EncodedFrameAloneMissedByFirstPass(ns: seq<Nibble>)
    requires |ns| == 10
    ensures RunPass(Encode(ns), Initial) == Exhausted(FrameState(ns, 10))
  {
    var bits := Encode(ns);
    assert bits[..64] == bits;
    EncodedHeaderAndRows(ns, bits);
  }

  /** What the read makes of the 64 encoded symbols alone. Pass 1 stops at the
      trailer holding all ten rows, and the retry starts there at cursor 0,
      where the complemented header reads `0 0 0 0 | 0`. That is accepted as
      the trailer only when every column parity is 0; otherwise the trailer
      rewind by 59 sends the cursor to -58 and the next read is out of range. */
  lemma EncodedFrameAloneDecode(ns: seq<Nibble>)
    requires |ns| == 10
    ensures DecodeBits(Encode(ns)) ==
              if ColumnParity(ns) == [0, 0, 0, 0] then Found(ns, ReverseAll(ns)) else OutOfRange
  {
    EncodedFrameAloneMissedByFirstPass(ns);
    FullFrameState(ns);
    EncodedOpensWithOnes(ns);
    RetryTrailerAtStart(Encode(ns), FrameState(ns, 10));
  }

  /** The counters after all ten rows hold the whole id and its parity. */
  lemma FullFrameState(ns: seq<Nibble>)
    requires |ns| == 10
    ensures var s := FrameState(ns, 10);
            s.parity == ColumnParity(ns) && s.natural == ns && s.unique == ReverseAll(ns)
  {
    assert ns[..10] == ns;
  }

  /** An encoded frame opens with five of its header ones. */
  lemma EncodedOpensWithOnes(ns: seq<Nibble>)
    requires |ns| == 10
    ensures Encode(ns)[..5] == [1, 1, 1, 1, 1]
  {
    var e := Encode(ns);
    assert e[0] == 1 && e[1] == 1 && e[2] == 1 && e[3] == 1 && e[4] == 1;
  }

  // ---------------------------------------------------------------------
  // A header count carried into the retry

  /** Ten rows of the digit 6, `0 1 1 0 | 0`. */
  const Sixes: seq<Nibble> := seq(10, _ => 6)

  /** The retry does not restart the header count. The encoded frame of ten
      6s followed by five more bits is found as it stands, but its complement
      is lost: pass 1 over the complement never sees nine ones in a row and
      runs out holding the seven ones of the complemented last parity bit,
      column parity and stop bit. The retry over the original symbols then
      completes its header at cursor 2, inside the frame's real header, and
      the failed row there rewinds the cursor below 0. */
  lemma CarriedHeaderLosesFrame(tail: seq<Bit>)
    requires |tail| == 5
    ensures DecodeBits(Encode(Sixes) + tail) == Found(Sixes, ReverseAll(Sixes))
    ensures DecodeBits(Complement(Encode(Sixes) + tail)) == OutOfRange
  {
    var u := Encode(Sixes) + tail;
    EncodeThenDecode(Sixes, tail);
    var b := Complement(u);
    ComplementInvolutive(u);
    SixesComplemented(tail);
    SixesFirstPass(b);
    CarriedHeaderUnderflows(b, Scan(64, 7, 0, [0, 0, 0, 0], [], [], []));
  }

  /** Where the complemented frame of ten 6s holds its zeros and ones. */
  lemma SixesComplemented(tail: seq<Bit>)
    requires |tail| == 5
    ensures var b := Complement(Encode(Sixes) + tail);
            && |b| == 69
            && (forall k :: 0 <= k < 9 ==> b[k] == 0)
            && (forall r :: 0 <= r < 10 ==> b[11 + 5 * r] == 0)
            && (forall k :: 57 <= k < 64 ==> b[k] == 1)
  {
    var e := Encode(Sixes);
    forall r | 0 <= r < 10
      ensures e[11 + 5 * r] == 1
    {
      SixesMiddleBit(r);
    }
    SixesEndZeros();
    assert forall k :: 0 <= k < 64 ==> (e + tail)[k] == e[k];
  }

  /** The third bit of every encoded 6 is a 1. */
  lemma SixesMiddleBit(r: nat)
    requires r < 10
    ensures Encode(Sixes)[11 + 5 * r] == 1
  {
    EncodedDigitBit(Sixes, r, 2);
    assert Sixes[r] == 6;
  }

  /** Bit `j` of digit `k` sits at `9 + 5 * k + j` of the frame. */
  lemma EncodedDigitBit(ns: seq<Nibble>, k: nat, j: nat)
    requires |ns| == 10 && k < 10 && j < 4
    ensures Encode(ns)[9 + 5 * k + j] == NibbleBits(ns[k])[j]
  {
    var e := Encode(ns);
    assert e[9 + 5 * k .. 13 + 5 * k][j] == e[9 + 5 * k + j];
  }

  /** The encoded frame of ten 6s ends with seven zeros: the last digit's low
      bit, its row parity, four column-parity zeros and the stop bit. */
  lemma SixesEndZeros()
    ensures forall k :: 57 <= k < 64 ==> Encode(Sixes)[k] == 0
  {
    var e := Encode(Sixes);
    EncodedDigitBit(Sixes, 9, 3);
    assert Sixes[9] == 6;
    assert e[13 + 5 * 9] == Xor4(NibbleBits(Sixes[9])) == 0;
    forall k | 59 <= k < 63
      ensures e[k] == 0
    {
      ConstantColumn(6, 10, k - 59);
    }
  }

  /** A run of equal digits puts the same bit in a column once per row. */
  lemma {:induction false} ConstantColumn(x: Nibble, n: nat, c: nat)
    requires c < 4
    ensures OnesInColumn(seq(n, _ => x), c) == n * NibbleBits(x)[c]
  {
    if n > 0 {
      var xs := seq(n, _ => x);
      assert xs[..n - 1] == seq(n - 1, _ => x);
      ConstantColumn(x, n - 1, c);
    }
  }

  /** Pass 1 over the complemented frame: the nine zeros, then one 0 in every
      row, so the header count never reaches nine; the stream runs out after
      the final seven ones. */
  lemma SixesFirstPass(b: seq<Bit>)
    requires |b| == 69
    requires forall k :: 0 <= k < 9 ==> b[k] == 0
    requires forall r :: 0 <= r < 10 ==> b[11 + 5 * r] == 0
    requires forall k :: 57 <= k < 64 ==> b[k] == 1
    ensures RunPass(b, Initial) == Exhausted(Scan(64, 7, 0, [0, 0, 0, 0], [], [], []))
  {
    var s9 := Scan(9, 0, 0, [0, 0, 0, 0], [], [], []);
    ZeroHop(b, Initial, 8);
    assert Initial.(i := 9, header := 0) == s9;
    ZeroHop(b, s9, 11);
    assert b[11 + 5 * 0] == 0;
    SixesRows(b, 9);
    var s57 := Scan(57, 0, 0, [0, 0, 0, 0], [], [], []);
    OnesRun(b, s57, 7);
  }

  /** Each row of the complemented frame has its 0 four bits after the
      previous row's. */
  lemma {:induction false} SixesRows(b: seq<Bit>, k: nat)
    requires |b| == 69 && k <= 9
    requires forall r :: 0 <= r < 10 ==> b[11 + 5 * r] == 0
    ensures RunPass(b, Scan(12, 0, 0, [0, 0, 0, 0], [], [], []))
            == RunPass(b, Scan(12 + 5 * k, 0, 0, [0, 0, 0, 0], [], [], []))
  {
    if k > 0 {
      SixesRows(b, k - 1);
      var s := Scan(12 + 5 * (k - 1), 0, 0, [0, 0, 0, 0], [], [], []);
      assert b[11 + 5 * k] == 0;
      ZeroHop(b, s, 11 + 5 * k);
      assert s.(i := 11 + 5 * k + 1, header := 0) == Scan(12 + 5 * k, 0, 0, [0, 0, 0, 0], [], [], []);
    }
  }
}
