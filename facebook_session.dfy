/**
 * The two table conversions of the Android Facebook bridge: a Facebook SDK
 * session state becomes the integer code the engine shares with its iOS
 * side, and the engine's integer audience code becomes the SDK's default
 * audience. A state code is a step number (0, 1 or 2) in its low bits,
 * with bit 9 set for an open session and bit 8 for a closed one.
 */
module FacebookSession {
  import opened Wrappers

  /** The Facebook SDK's session states. Unrecognised stands for any
      constant the bridge has no case for, which its default branch
      catches. */
  datatype SessionState =
    | Created
    | CreatedTokenLoaded
    | Opening
    | Opened
    | OpenedTokenUpdated
    | ClosedLoginFailed
    | Closed
    | Unrecognised

  /** The SDK's own classification of a state as open, or as closed. */
  predicate IsOpened(s: SessionState)
  {
    s == Opened || s == OpenedTokenUpdated
  }

  predicate IsClosed(s: SessionState)
  {
    s == ClosedLoginFailed || s == Closed
  }

  const OpenedFlag: bv32 := 1 << 9
  const ClosedFlag: bv32 := 1 << 8
  /** The bits below both flags, where the step number lives. */
  const StepMask: bv32 := 0xFF
  /** The fall-back code -1, as a 32-bit pattern. */
  const UnknownStateCode: bv32 := 0xFFFF_FFFF

  /** The state code handed to the engine: -1 for a state without a case,
      otherwise a step number with at most one of the two flags, which
      SessionStateOf decodes back to the same state. */
  function ConvertSessionState(s: SessionState): (code: bv32)
    ensures code == UnknownStateCode <==> s == Unrecognised
    ensures s != Unrecognised ==>
              && (code & OpenedFlag != 0 <==> IsOpened(s))
              && (code & ClosedFlag != 0 <==> IsClosed(s))
              && code & StepMask <= 2
              && code & !(OpenedFlag | ClosedFlag | StepMask) == 0
              && SessionStateOf(code) == Some(s)
  {
    match s
    case Created => 0
    case CreatedTokenLoaded => 1
    case Opening => 2
    case Opened => 1 | (1 << 9)
    case OpenedTokenUpdated => 2 | (1 << 9)
    case ClosedLoginFailed => 1 | (1 << 8)
    case Closed => 2 | (1 << 8)
    case Unrecognised => 0xFFFF_FFFF
  }

  /** A decoding of the state code, used to show the codes are distinct:
      the flag bits say open or closed, the step bits which state within
      that group. */
  function SessionStateOf(code: bv32): (r: Option<SessionState>)
    ensures r.Some? ==> code & !(OpenedFlag | ClosedFlag | StepMask) == 0 && r.value != Unrecognised
  {
    if code & !(OpenedFlag | ClosedFlag | StepMask) != 0 then None
    else
      var open := code & OpenedFlag != 0;
      var shut := code & ClosedFlag != 0;
      var step := code & StepMask;
      if open && shut then None
      else if open then
        (if step == 1 then Some(Opened) else if step == 2 then Some(OpenedTokenUpdated) else None)
      else if shut then
        (if step == 1 then Some(ClosedLoginFailed) else if step == 2 then Some(Closed) else None)
      else if step == 0 then Some(Created)
      else if step == 1 then Some(CreatedTokenLoaded)
      else if step == 2 then Some(Opening)
      else None
  }

  /** Every code SessionStateOf decodes is the code of exactly that state. */
  lemma SessionCodeRoundTrip(code: bv32)
    requires SessionStateOf(code).Some?
    ensures ConvertSessionState(SessionStateOf(code).value) == code
  {
    var low := code & StepMask;
    assert code == (code & OpenedFlag) | (code & ClosedFlag) | low;
  }

  /** Distinct states never share a code. */
  lemma SessionCodesDistinct(s: SessionState, s': SessionState)
    requires ConvertSessionState(s) == ConvertSessionState(s')
    ensures s == s'
  {
  }

  /** The fall-back code -1 reads as no state at all. */
  lemma UnknownCodeIsNoState()
    ensures SessionStateOf(UnknownStateCode) == None
  {
  }

  /** No state with a case gets a code that says both open and closed. */
  lemma NeverOpenedAndClosed(s: SessionState)
    requires s != Unrecognised
    ensures ConvertSessionState(s) & OpenedFlag == 0 || ConvertSessionState(s) & ClosedFlag == 0
  {
  }

  /** The Facebook SDK's default audiences. The SDK's NONE is NoAudience
      here, apart from the None of Option. */
  datatype SessionDefaultAudience = NoAudience | OnlyMe | Friends | Everyone

  /** The audience an engine code asks for; a code outside the table means
      friends. */
  function ConvertSessionDefaultAudience(defaultAudience: int): (a: SessionDefaultAudience)
    ensures defaultAudience !in {0, 10, 20, 30} ==> a == Friends
  {
    match defaultAudience
    case 0 => NoAudience
    case 10 => OnlyMe
    case 20 => Friends
    case 30 => Everyone
    case _ => Friends
  }

  /** The engine code of each audience; converting it gives the audience
      back. */
  function AudienceCode(a: SessionDefaultAudience): (code: int)
    ensures code in {0, 10, 20, 30}
    ensures ConvertSessionDefaultAudience(code) == a
  {
    match a
    case NoAudience => 0
    case OnlyMe => 10
    case Friends => 20
    case Everyone => 30
  }

  /** A code comes back unchanged from a round trip exactly when it is one
      of the four table codes. */
  lemma AudienceCodeRoundTrip(defaultAudience: int)
    ensures AudienceCode(ConvertSessionDefaultAudience(defaultAudience)) == defaultAudience
            <==> defaultAudience in {0, 10, 20, 30}
  {
  }
}
