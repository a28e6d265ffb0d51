/**
 The mode controller: the two process-wide settings that parameterise the
 physics. The system mode selects the distance metric; the control mode is
 stored as a reaction-time multiplier and its display name is derived back
 from that number.
 */
module Modes {
  import opened Wrappers

  datatype SystemMode = Indoor | Outdoor

  const IndoorName: string := "INDOOR"
  const OutdoorName: string := "OUTDOOR"

  /** Reaction-time multipliers of the three control modes. */
  const HumanMode: real := 1.0
  const AdasMode: real := 0.6
  const AutonomousMode: real := 0.3

  const HumanName: string := "HUMAN"
  const AdasName: string := "ADAS"
  const AutonomousName: string := "AUTONOMOUS"

  /** The multipliers the controller can ever hold. */
  predicate ValidControl(multiplier: real) {
    multiplier == HumanMode || multiplier == AdasMode || multiplier == AutonomousMode
  }

  // ─── Upper-casing ───

  /** Dotless `ı` and long `ſ`: the two non-ASCII letters whose upper case is an ASCII letter. */
  const DotlessI: char := '\U{0131}'
  const LongS: char := '\U{017F}'

  /**
   The characters that upper-casing, under a default locale other than
   Turkish, Azeri or Lithuanian, turns into an ASCII letter.
   */
  predicate FoldsToAscii(c: char) {
    'a' <= c <= 'z' || c == DotlessI || c == LongS
  }

  function UpperChar(c: char): (u: char)
    ensures 'a' <= c <= 'z' ==> u as int == c as int - 32
    ensures c == DotlessI ==> u == 'I'
    ensures c == LongS ==> u == 'S'
    ensures !FoldsToAscii(c) ==> u == c
    ensures !FoldsToAscii(u)
  {
    if 'a' <= c <= 'z' then (c as int - 32) as char
    else if c == DotlessI then 'I'
    else if c == LongS then 'S'
    else c
  }

  function ToUpper(s: string): (r: string)
    ensures |r| == |s|
    ensures forall i :: 0 <= i < |s| ==> r[i] == UpperChar(s[i])
  {
    seq(|s|, i requires 0 <= i < |s| => UpperChar(s[i]))
  }

  /** A string is upper case when upper-casing leaves it unchanged. */
  predicate IsUpper(s: string) {
    forall i :: 0 <= i < |s| ==> !FoldsToAscii(s[i])
  }

  lemma UpperCaseFixed(s: string)
    requires IsUpper(s)
    ensures ToUpper(s) == s
  {
  }

  /** Upper-casing is idempotent: a value already upper-cased is accepted as it is. */
  lemma ToUpperIdempotent(s: string)
    ensures ToUpper(ToUpper(s)) == ToUpper(s)
  {
    UpperCaseFixed(ToUpper(s));
  }

  // ─── System mode ───

  function SystemModeName(m: SystemMode): (name: string)
    ensures IsUpper(name)
  {
    match m
    case Indoor => IndoorName
    case Outdoor => OutdoorName
  }

  /** Recognises an (already upper-cased) system-mode name. */
  function ParseSystemMode(name: string): (r: Option<SystemMode>)
    ensures r.Some? <==> name == IndoorName || name == OutdoorName
    ensures r.Some? ==> SystemModeName(r.value) == name
  {
    if name == IndoorName then Some(Indoor)
    else if name == OutdoorName then Some(Outdoor)
    else None
  }

  lemma SystemModeNameRoundTrip(m: SystemMode)
    ensures ParseSystemMode(SystemModeName(m)) == Some(m)
  {
  }

  /**
   The system-mode half of the mode request: an absent field, or a value that
   is not INDOOR or OUTDOOR once upper-cased, leaves the mode as it was.
   */
  function NextSystemMode(current: SystemMode, requested: Option<string>): (r: SystemMode)
    ensures requested.None? ==> r == current
    ensures requested.Some? ==>
      var name := ToUpper(requested.value);
      (name == IndoorName || name == OutdoorName ==> SystemModeName(r) == name) &&
      (name != IndoorName && name != OutdoorName ==> r == current)
  {
    match requested
    case None => current
    case Some(value) =>
      match ParseSystemMode(ToUpper(value))
      case Some(m) => m
      case None => current
  }

  /** Requesting a mode by its displayed name, in any letter case, selects that mode. */
  lemma NextSystemModeByName(current: SystemMode, m: SystemMode, value: string)
    requires ToUpper(value) == SystemModeName(m)
    ensures NextSystemMode(current, Some(value)) == m
  {
  }

  // ─── Control mode ───

  /** Recognises an (already upper-cased) control-mode name; the switch has no default. */
  function ControlMultiplier(name: string): (r: Option<real>)
    ensures r.Some? <==> name == HumanName || name == AdasName || name == AutonomousName
    ensures r.Some? ==> ValidControl(r.value)
  {
    if name == HumanName then Some(HumanMode)
    else if name == AdasName then Some(AdasMode)
    else if name == AutonomousName then Some(AutonomousMode)
    else None
  }

  /** The displayed name is read back from the stored multiplier. */
  function ControlModeName(multiplier: real): (name: string)
    ensures IsUpper(name)
    ensures name == HumanName || name == AdasName || name == AutonomousName
  {
    if multiplier == HumanMode then HumanName
    else if multiplier == AdasMode then AdasName
    else AutonomousName
  }

  /** Every multiplier the controller can hold is rendered as the name that selects it. */
  lemma ControlModeNameRoundTrip(multiplier: real)
    requires ValidControl(multiplier)
    ensures ControlMultiplier(ControlModeName(multiplier)) == Some(multiplier)
  {
  }

  function NextControlMode(current: real, requested: Option<string>): (r: real)
    ensures requested.None? ==> r == current
    ensures requested.Some? && ToUpper(requested.value) == HumanName ==> r == HumanMode
    ensures requested.Some? && ToUpper(requested.value) == AdasName ==> r == AdasMode
    ensures requested.Some? && ToUpper(requested.value) == AutonomousName ==> r == AutonomousMode
    ensures requested.Some? && ControlMultiplier(ToUpper(requested.value)).None? ==> r == current
    ensures ValidControl(current) ==> ValidControl(r)
  {
    match requested
    case None => current
    case Some(value) =>
      match ControlMultiplier(ToUpper(value))
      case Some(m) => m
      case None => current
  }

  /** Setting a recognised control mode and then rendering the mode gives back the name set. */
  lemma ControlModeSetThenShow(current: real, value: string)
    requires ControlMultiplier(ToUpper(value)).Some?
    ensures ControlModeName(NextControlMode(current, Some(value))) == ToUpper(value)
  {
  }

  /** Spellings with `ı` or `ſ` upper-case to a mode name, so they select that mode. */
  lemma FoldedSpellingsSelect(current: SystemMode, multiplier: real)
    ensures NextSystemMode(current, Some("\U{0131}ndoor")) == Indoor
    ensures NextControlMode(multiplier, Some("ada\U{017F}")) == AdasMode
    ensures NextControlMode(multiplier, Some("autonomou\U{017F}")) == AutonomousMode
  {
    assert ToUpper("\U{0131}ndoor") == IndoorName;
    assert ToUpper("ada\U{017F}") == AdasName;
    assert ToUpper("autonomou\U{017F}") == AutonomousName;
  }

  /**
   A combining dot above (U+0307) is kept, so `"i\u0307ndoor"` is no mode name;
   only a Lithuanian locale, which this model does not cover, would drop it.
   */
  lemma CombiningDotKept(current: SystemMode)
    ensures ToUpper("i\U{0307}ndoor") == "I\U{0307}NDOOR"
    ensures NextSystemMode(current, Some("i\U{0307}ndoor")) == current
  {
    assert ToUpper("i\U{0307}ndoor") == "I\U{0307}NDOOR";
  }
}
