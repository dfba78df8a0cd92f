/** `CmdEM410xWrite`: the checks on an already parsed id, card type and clock
    rate, and the packing of the three arguments of the write command. */
module Em410xWrite {

  const Two32: nat := 0x1_0000_0000

  /** The id left in place when none was parsed (all 64 bits set). */
  const NoId: nat := 0xFFFF_FFFF_FFFF_FFFF

  /** Ids must fit in 40 bits. */
  const IdLimit: nat := 0x100_0000_0000

  /** The card type left in place when none was parsed. */
  const NoCard: int := 0xFF

  /** Card types: 0 is a T5555, 1 a T55x7. */
  const T5555: int := 0
  const T55x7: int := 1

  /** Clock rate of a T55x7 write when none is given. */
  const DefaultClock: nat := 64

  datatype WriteError =
    | IdRequired
    | IdTooLong
    | CardRequired
    | BadCard
    | BadClock(clock: nat)
    | ClockNotSupported

  /** The command arguments: card type with the clock rate in bits 8 to 15,
      then the id's upper and lower 32 bits. */
  datatype WriteResult = Send(arg0: nat, arg1: nat, arg2: nat) | Refused(error: WriteError)

  predicate AllowedClock(clock: nat)
  {
    clock == 16 || clock == 32 || clock == 64
  }

  /** `(card & 0xFF) | ((clock << 8) & 0xFF00)` for a non-negative card: the
      two masked fields do not overlap, so the or is their sum. */
  function PackCard(card: nat, clock: nat): (word: nat)
    ensures word < 0x1_0000
    ensures word % 256 == card % 256 && word / 256 == clock % 256
  {
    card % 256 + 256 * (clock % 256)
  }

  /** The checks in the order the command makes them; `id` is the parsed
      64-bit id, `card` the parsed card type, `clock` the parsed clock rate. */
  function Write(id: nat, card: int, clock: nat): (r: WriteResult)
    requires id <= NoId && clock < Two32
    ensures r.Send? <==>
              id < IdLimit && (card == T5555 || card == T55x7)
              && (card == T55x7 ==> clock == 0 || AllowedClock(clock))
              && (card == T5555 ==> clock == 0)
    ensures r == Refused(IdRequired) <==> id == NoId
    ensures r == Refused(IdTooLong) <==> IdLimit <= id < NoId
    ensures r.Send? ==> r.arg1 * Two32 + r.arg2 == id && r.arg2 < Two32
    ensures r.Send? && card == T5555 ==> r.arg0 == 0
    ensures r.Send? && card == T55x7 ==>
              r.arg0 == 1 + 256 * (if clock == 0 then DefaultClock else clock)
  {
    if id == NoId then Refused(IdRequired)
    else if id >= IdLimit then Refused(IdTooLong)
    else if card == NoCard then Refused(CardRequired)
    else if card < 0 then Refused(BadCard)
    else
      var clk := if card == T55x7 && clock == 0 then DefaultClock else clock;
      if card == T55x7 && !AllowedClock(clk) then Refused(BadClock(clk))
      else if card != T55x7 && clk != 0 then Refused(ClockNotSupported)
      else if card == T55x7 then Send(PackCard(card, clk), id / Two32 % Two32, id % Two32)
      else if card == T5555 then Send(card, id / Two32 % Two32, id % Two32)
      else Refused(BadCard)
  }

  /** The receiving side can take the arguments apart again: the card type
      from the low byte, the clock rate from the next one, and the id from
      the two 32-bit halves. */
  lemma WriteArgumentsUnpack(id: nat, card: int, clock: nat)
    requires id <= NoId && clock < Two32
    requires Write(id, card, clock).Send?
    ensures var r := Write(id, card, clock);
            r.arg0 % 256 == card
            && r.arg0 / 256 == (if card == T55x7 && clock == 0 then DefaultClock else clock)
            && r.arg1 * Two32 + r.arg2 == id
  {
  }

  /** A card type other than the two known ones is refused. A missing card is
      reported first; a negative card, or an unknown card with no clock rate,
      is a bad card; otherwise the clock rate is the complaint. */
  lemma UnknownCardRefused(id: nat, card: int, clock: nat)
    requires id < IdLimit && clock < Two32
    requires card != T5555 && card != T55x7
    ensures Write(id, card, clock) ==
              if card == NoCard then Refused(CardRequired)
              else if card < 0 || clock == 0 then Refused(BadCard)
              else Refused(ClockNotSupported)
  {
  }
}
