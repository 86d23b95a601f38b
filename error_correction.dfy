/**
 * The error-correction level holder. The four level constants are the
 * two-bit error-correction indicators of the format information (section
 * 7.9.1 of ISO/IEC 18004:2015): L = 01, M = 00, Q = 11, H = 10.
 */
module ErrorCorrections {

  const LevelLow: int := 1
  const LevelMedium: int := 0
  const LevelQuartile: int := 3
  const LevelHigh: int := 2

  const AvailableErrorCorrections: seq<int> := [LevelLow, LevelMedium, LevelQuartile, LevelHigh]

  predicate IsInErrorCorrections(level: int)
  {
    level in AvailableErrorCorrections
  }

  /** The accepted levels are exactly the four two-bit codes. */
  lemma AcceptedLevelsAreTwoBitCodes(level: int)
    ensures IsInErrorCorrections(level) <==> 0 <= level < 4
  {
    if 0 <= level < 4 {
      assert level == LevelLow || level == LevelMedium || level == LevelQuartile || level == LevelHigh;
    }
  }

  class ErrorCorrection {
    var errorCorrection: int

    ghost predicate Valid()
      reads this
    {
      IsInErrorCorrections(errorCorrection)
    }

    /** A fresh holder starts at level M. */
    constructor()
      ensures Valid() && errorCorrection == LevelMedium
    {
      errorCorrection := LevelMedium;
    }

    method Get() returns (level: int)
      requires Valid()
      ensures level == errorCorrection && 0 <= level < 4
    {
      AcceptedLevelsAreTwoBitCodes(errorCorrection);
      level := errorCorrection;
    }

    /** An unknown level is ignored silently; a known one replaces the current level. */
    method Set(level: int)
      requires Valid()
      modifies this
      ensures Valid()
      ensures errorCorrection == if IsInErrorCorrections(level) then level else old(errorCorrection)
    {
      if IsInErrorCorrections(level) {
        errorCorrection := level;
      }
    }

    /** Same guard and effect as `Set`. */
    method SetErrorCorrection(level: int)
      requires Valid()
      modifies this
      ensures Valid()
      ensures errorCorrection == if IsInErrorCorrections(level) then level else old(errorCorrection)
    {
      if IsInErrorCorrections(level) {
        errorCorrection := level;
      }
    }
  }
}
