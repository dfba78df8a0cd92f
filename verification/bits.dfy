/** Bits and nibbles as the EM4x commands store them: every demodulated bit is an
    integer 0 or 1, and a tag identifier is ten 4-bit rows ("nibbles"). */
module Bits {

  /** One demodulated bit, held as the integer 0 or 1. */
  type Bit = b: int | 0 <= b <= 1

  /** One hex digit of a tag identifier. */
  type Nibble = n: int | 0 <= n < 16

  function Xor(a: Bit, b: Bit): (r: Bit)
    ensures r == 1 <==> a != b
  {
    if a == b then 0 else 1
  }

  /** Even parity of the first four bits of a window, folded left to right
      as the row checks of the decoders do. */
  function Xor4(w: seq<Bit>): Bit
    requires |w| >= 4
  {
    Xor(Xor(Xor(w[0], w[1]), w[2]), w[3])
  }

  /** The "natural" reading of a row: first bit is the most significant. */
  function NaturalNibble(w: seq<Bit>): Nibble
    requires |w| >= 4
  {
    8 * (w[0] as int) + 4 * (w[1] as int) + 2 * (w[2] as int) + w[3]
  }

  /** The "unique" reading of a row: first bit is the least significant. */
  function UniqueNibble(w: seq<Bit>): Nibble
    requires |w| >= 4
  {
    8 * (w[3] as int) + 4 * (w[2] as int) + 2 * (w[1] as int) + w[0]
  }

  /** The four bits of a nibble, most significant first, as the encoder
      peels them off with repeated `% 2` and `/ 2`. */
  function NibbleBits(n: Nibble): (w: seq<Bit>)
    ensures |w| == 4
    ensures NaturalNibble(w) == n
  {
    [n / 8 % 2, n / 4 % 2, n / 2 % 2, n % 2]
  }

  /** Bit reversal of a nibble: the unique reading of its natural bits. */
  function ReverseNibble(n: Nibble): Nibble
  {
    UniqueNibble(NibbleBits(n))
  }

  /** Reading a row naturally and splitting it again gives back the row. */
  lemma NibbleBitsOfNatural(w: seq<Bit>)
    requires |w| >= 4
    ensures NibbleBits(NaturalNibble(w)) == w[..4]
  {
    var n := NaturalNibble(w);
    assert n / 8 % 2 == w[0];
    assert n / 4 % 2 == w[1];
    assert n / 2 % 2 == w[2];
    assert n % 2 == w[3];
  }

  /** The unique reading of a row is the bit reversal of its natural reading. */
  lemma UniqueIsReversedNatural(w: seq<Bit>)
    requires |w| >= 4
    ensures UniqueNibble(w) == ReverseNibble(NaturalNibble(w))
  {
    NibbleBitsOfNatural(w);
  }

  /** Reversing the bits of a nibble twice gives the nibble back. */
  lemma ReverseNibbleInvolutive(n: Nibble)
    ensures ReverseNibble(ReverseNibble(n)) == n
  {
    var w := NibbleBits(n);
    var v := [w[3], w[2], w[1], w[0]];
    assert ReverseNibble(n) == NaturalNibble(v);
    NibbleBitsOfNatural(v);
  }

  /** Pointwise exclusive or of two equally long bit strings. */
  function XorBits(a: seq<Bit>, b: seq<Bit>): (r: seq<Bit>)
    requires |a| == |b|
    ensures |r| == |a|
    ensures forall k :: 0 <= k < |r| ==> r[k] == Xor(a[k], b[k])
  {
    seq(|a|, k requires 0 <= k < |a| => Xor(a[k], b[k]))
  }

  /** Every bit flipped, as the scanners do before their retry pass. */
  function Complement(bits: seq<Bit>): (r: seq<Bit>)
    ensures |r| == |bits|
    ensures forall k :: 0 <= k < |r| ==> r[k] == 1 - bits[k]
  {
    seq(|bits|, k requires 0 <= k < |bits| => 1 - bits[k])
  }

  /** The flip is the `^= 1` of the retry: the stream xored with a run of ones. */
  lemma ComplementIsXorOnes(bits: seq<Bit>)
    ensures Complement(bits) == XorBits(bits, Ones(|bits|))
  {
    var r, x := Complement(bits), XorBits(bits, Ones(|bits|));
    forall k | 0 <= k < |bits|
      ensures r[k] == x[k]
    {
      assert Ones(|bits|)[k] == 1;
    }
  }

  /** Flipping every bit twice restores the stream. */
  lemma ComplementInvolutive(bits: seq<Bit>)
    ensures Complement(Complement(bits)) == bits
  {
  }

  /** Number of nibbles among `ns` whose bit in column `c` (0 = most significant) is set. */
  function OnesInColumn(ns: seq<Nibble>, c: nat): nat
    requires c < 4
  {
    if |ns| == 0 then 0
    else OnesInColumn(ns[..|ns| - 1], c) + NibbleBits(ns[|ns| - 1])[c]
  }

  /** Column parity of a run of rows, accumulated row by row with exclusive or
      exactly as the encoder and the decoders keep their `parity[4]`. */
  function ColumnParity(ns: seq<Nibble>): (r: seq<Bit>)
    ensures |r| == 4
    ensures forall c :: 0 <= c < 4 ==> r[c] == OnesInColumn(ns, c) % 2
  {
    if |ns| == 0 then [0, 0, 0, 0]
    else
      var prev := ColumnParity(ns[..|ns| - 1]);
      var w := NibbleBits(ns[|ns| - 1]);
      var r := XorBits(prev, w);
      forall c | 0 <= c < 4
        ensures r[c] == OnesInColumn(ns, c) % 2
      {
        ParityStep(OnesInColumn(ns[..|ns| - 1], c), w[c], prev[c]);
      }
      r
  }

  /** Adding one bit to a count flips its parity exactly when the bit is set. */
  lemma ParityStep(count: nat, b: Bit, p: Bit)
    requires p == count % 2
    ensures Xor(p, b) == (count + b) % 2
  {
  }

  /** Adding a row updates the column parity exactly as recomputing it would. */
  lemma ColumnParityAddRow(id: seq<Nibble>, w: seq<Bit>)
    requires |w| >= 4
    ensures ColumnParity(id + [NaturalNibble(w)]) == XorBits(ColumnParity(id), w[..4])
  {
    assert (id + [NaturalNibble(w)])[..|id|] == id;
    NibbleBitsOfNatural(w);
  }

  /** Bit reversal of every nibble of a run, accumulated the same way. */
  function ReverseAll(ns: seq<Nibble>): (r: seq<Nibble>)
    ensures |r| == |ns|
    ensures forall k :: 0 <= k < |ns| ==> r[k] == ReverseNibble(ns[k])
  {
    if |ns| == 0 then []
    else ReverseAll(ns[..|ns| - 1]) + [ReverseNibble(ns[|ns| - 1])]
  }

  /** A run of `n` zero bits. */
  function Zeros(n: nat): (r: seq<Bit>)
    ensures |r| == n
    ensures forall k :: 0 <= k < n ==> r[k] == 0
  {
    seq(n, k => 0)
  }

  /** A run of `n` one bits. */
  function Ones(n: nat): (r: seq<Bit>)
    ensures |r| == n
    ensures forall k :: 0 <= k < n ==> r[k] == 1
  {
    seq(n, k => 1)
  }
}
