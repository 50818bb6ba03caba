/** The sensor decoder of the humidifier firmware: three digital level readings
    (pins D5, D6, D7, called d1, d2, d3) are mapped by a fixed chain of tests to
    one of six state strings. */
module Sensor {

  /** A value returned by `digitalRead`: LOW (0) or HIGH (1). */
  type Bit = b: int | 0 <= b <= 1

  const OFF: string := "off"
  const LEVEL1: string := "1"
  const LEVEL2: string := "2"
  const LEVEL3: string := "3"
  const EMPTY: string := "empty"
  const UNKNOWN: string := "unknown"

  /** The six strings the decoder can produce. */
  predicate IsState(s: string) {
    s == OFF || s == LEVEL1 || s == LEVEL2 || s == LEVEL3 || s == EMPTY || s == UNKNOWN
  }

  /** The decode table as data: the five bit patterns that name a state.
      A map has no order, so a lookup in it does not depend on which test runs first. */
  const PATTERNS: map<(Bit, Bit, Bit), string> :=
    map[(1, 1, 1) := OFF, (0, 1, 0) := LEVEL1, (1, 0, 1) := LEVEL2,
        (0, 1, 1) := LEVEL3, (1, 1, 0) := EMPTY]

  /** Reference reading of the table: a pattern it lists, or "unknown". */
  function Lookup(d1: Bit, d2: Bit, d3: Bit): string {
    if (d1, d2, d3) in PATTERNS then PATTERNS[(d1, d2, d3)] else UNKNOWN
  }

  /** The if/else chain of `read_state`, in the order the firmware tests it. */
  function Decode(d1: Bit, d2: Bit, d3: Bit): (s: string)
    ensures IsState(s)
    ensures s == Lookup(d1, d2, d3)
    ensures s != UNKNOWN <==> (d1, d2, d3) in PATTERNS
  {
    if d1 == 1 && d2 == 1 && d3 == 1 then OFF
    else if d1 == 0 && d2 == 1 && d3 == 0 then LEVEL1
    else if d1 == 1 && d2 == 0 && d3 == 1 then LEVEL2
    else if d1 == 0 && d2 == 1 && d3 == 1 then LEVEL3
    else if d1 == 1 && d2 == 1 && d3 == 0 then EMPTY
    else UNKNOWN
  }

  /** All eight readings, one by one: five name a state, (0,0,0), (0,0,1)
      and (1,0,0) give "unknown". */
  lemma DecodeTable()
    ensures Decode(1, 1, 1) == OFF
    ensures Decode(0, 1, 0) == LEVEL1
    ensures Decode(1, 0, 1) == LEVEL2
    ensures Decode(0, 1, 1) == LEVEL3
    ensures Decode(1, 1, 0) == EMPTY
    ensures Decode(0, 0, 0) == UNKNOWN
    ensures Decode(0, 0, 1) == UNKNOWN
    ensures Decode(1, 0, 0) == UNKNOWN
  {
  }

  /** Two different readings never decode to the same named state. */
  lemma DecodeDistinguishes(a1: Bit, a2: Bit, a3: Bit, b1: Bit, b2: Bit, b3: Bit)
    requires Decode(a1, a2, a3) != UNKNOWN
    requires (a1, a2, a3) != (b1, b2, b3)
    ensures Decode(a1, a2, a3) != Decode(b1, b2, b3)
  {
  }

  /** Every decoded state is short: it fits the 50-byte message buffer with its
      terminating NUL, and it is never the empty string nor the command "0". */
  lemma DecodeFits(d1: Bit, d2: Bit, d3: Bit)
    ensures 0 < |Decode(d1, d2, d3)| < 50
    ensures Decode(d1, d2, d3) != "0"
  {
  }
}
