/** The part of the reset and clock control unit (RCC) the CRC binding uses:
    the CRC clock-enable bit of AHBENR and the CRC reset bit of AHBRSTR, plus a
    log of the writes made to them. The rest of the RCC is not modelled. */
module ClockControl {

  datatype RccWrite = AhbEnr(crcEn: bool) | AhbRstr(crcRst: bool)

  datatype Rcc = Rcc(crcEn: bool, crcRst: bool, bus: seq<RccWrite>)

  /** Setting (`crcen().set_bit()`) or clearing (`crcen().clear_bit()`) the
      CRC clock-enable bit of AHBENR in one read-modify-write. */
  function SetClock(rcc: Rcc, on: bool): (r: Rcc)
    ensures r.crcEn == on && r.crcRst == rcc.crcRst
    ensures r.bus == rcc.bus + [AhbEnr(on)]
  {
    rcc.(crcEn := on, bus := rcc.bus + [AhbEnr(on)])
  }

  /** Setting (`crcrst().set_bit()`) or clearing (`crcrst().clear_bit()`) the
      CRC reset bit of AHBRSTR in one read-modify-write. */
  function SetReset(rcc: Rcc, on: bool): (r: Rcc)
    ensures r.crcRst == on && r.crcEn == rcc.crcEn
    ensures r.bus == rcc.bus + [AhbRstr(on)]
  {
    rcc.(crcRst := on, bus := rcc.bus + [AhbRstr(on)])
  }

  /** The CRC reset line was pulsed after the clock was on: the log ends by
      enabling the clock, raising the reset bit, and lowering it again. */
  predicate PulsedAfterEnable(before: seq<RccWrite>, after: seq<RccWrite>)
  {
    |after| == |before| + 3
    && after[..|before|] == before
    && after[|before|] == AhbEnr(true)
    && after[|before| + 1] == AhbRstr(true)
    && after[|before| + 2] == AhbRstr(false)
  }
}
