/**
 The factory: one factory per rate, each creating its own class through that
 class's `of` constructors, and the two static entry points that pick the
 factory for a rate.
 */
module TimecodeFactory {
  import opened TimecodeException
  import opened FrameRateType
  import opened TimecodeCodec
  import opened TimecodeBase
  import FpsTimecode
  import Df30Timecode

  datatype Factory = Fps24Factory | Fps25Factory | Fps30Factory | Df30Factory

  /** The rate of the class a factory creates. */
  function CreatedRate(factory: Factory): FrameRate {
    match factory
    case Fps24Factory => Fps24
    case Fps25Factory => Fps25
    case Fps30Factory => Fps30
    case Df30Factory => Df30
  }

  /** `chooseFactory`: the factory of each rate, so the four rates get four different factories. */
  function ChooseFactory(rate: FrameRate): (factory: Factory)
    ensures CreatedRate(factory) == rate
  {
    match rate
    case Fps24 => Fps24Factory
    case Fps25 => Fps25Factory
    case Fps30 => Fps30Factory
    case Df30 => Df30Factory
  }

  /** A factory's `createTimeCode(hours, minutes, seconds, frames)`: its class's `of`. */
  function CreateFromUnits(factory: Factory, hours: int, minutes: int, seconds: int, frames: int): Result<Timecode> {
    if factory == Df30Factory then Df30Timecode.OfUnits(hours, minutes, seconds, frames)
    else FpsTimecode.OfUnits(CreatedRate(factory), hours, minutes, seconds, frames)
  }

  /** A factory's `createTimeCode(frameCount)`: its class's `of`. */
  function CreateFromFrameCount(factory: Factory, frameCount: int): Result<Timecode> {
    if factory == Df30Factory then Df30Timecode.OfFrameCount(frameCount)
    else FpsTimecode.OfFrameCount(CreatedRate(factory), frameCount)
  }

  /**
   `createTimeCode(type, hours, minutes, seconds, frames)`: a timecode of the
   requested rate holding the given fields, or the constructor's
   INVALID_TIMECODE refusal, passed on unchanged.
   */
  function CreateTimeCode(rate: FrameRate, hours: int, minutes: int, seconds: int, frames: int): (r: Result<Timecode>)
    ensures r.Success? <==> AreValidValues(rate, hours, minutes, seconds, frames)
    ensures r.Success? ==> r.value.rate == rate && r.value.Label() == Units(hours, minutes, seconds, frames)
    ensures r.Success? ==> r.value.frameCount == Encode(rate, r.value.Label())
    ensures r.Failure? ==> r.error.IllegalArgument? && r.error.errorCase == InvalidTimecode
    ensures rate == Df30 ==> r == Df30Timecode.OfUnits(hours, minutes, seconds, frames)
    ensures rate != Df30 ==> r == FpsTimecode.OfUnits(rate, hours, minutes, seconds, frames)
  {
    CreateFromUnits(ChooseFactory(rate), hours, minutes, seconds, frames)
  }

  /**
   `createTimeCode(type, numberOfFrames)`: the base frame-count constructor of
   the requested rate, whichever class checks the range.
   */
  function CreateTimeCodeFromCount(rate: FrameRate, frameCount: int): (r: Result<Timecode>)
    ensures r == FromFrameCount(rate, frameCount)
    ensures r.Success? ==> r.value.rate == rate
  {
    CreateFromFrameCount(ChooseFactory(rate), frameCount)
  }
}
