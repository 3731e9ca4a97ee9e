/**
 * Properties of the backlight entity's operations, stated over the step
 * functions that the entity's methods are proved to follow: the precedence
 * of an effect over other attributes, of a colour temperature over a
 * hue/saturation pair, the skipped write for an unchanged colour, the
 * queued power-on write, and optimistic updates that a failed write does
 * not roll back.
 */
module LightProperties {
  import opened Basics
  import opened Warmth
  import opened Effects
  import opened DeskLight

  /** An effect request writes nothing but power and the effect, and leaves every other attribute alone. */
  lemma EffectIsExclusive(s: State, cmd: Command, effects: seq<string>,
                          hsToRgb: HsColor -> Rgb, accepts: Write -> bool)
    requires cmd.effect.Some?
    ensures var r := TurnOnStep(s, cmd, effects, hsToRgb, accepts);
      (forall w :: w in r.issued ==> w.SetPower? || w.SetEffect?) &&
      r.state.effect == cmd.effect.value && !r.publishes &&
      r.state.brightness == s.brightness && r.state.rgb == s.rgb &&
      r.state.temperature == s.temperature && r.state.colorMode == s.colorMode
  {
  }

  /**
   * A known effect name is written as the ordinal under which the table
   * lists it, after the power-on write when the light was off; the effect
   * write is skipped when the power-on write is rejected.
   */
  lemma KnownEffectWritesItsOrdinal(s: State, cmd: Command, effects: seq<string>,
                                    hsToRgb: HsColor -> Rgb, accepts: Write -> bool)
    requires cmd.effect.Some? && cmd.effect.value in effects
    ensures var r := TurnOnStep(s, cmd, effects, hsToRgb, accepts);
      var i := IndexOf(effects, cmd.effect.value).value;
      effects[i] == cmd.effect.value && r.outcome == Returned &&
      (s.isOn ==> r.issued == [SetEffect(i)]) &&
      (!s.isOn && accepts(SetPower(true)) ==> r.issued == [SetPower(true), SetEffect(i)]) &&
      (!s.isOn && !accepts(SetPower(true)) ==> r.issued == [SetPower(true)] && !r.state.available) &&
      (r.state.available <==> s.available && Accepted(r.issued, accepts))
  {
  }

  /**
   * An unknown effect name raises ValueError and writes nothing, yet the
   * light is already marked on and the name already recorded.
   */
  lemma UnknownEffectRaises(s: State, cmd: Command, effects: seq<string>,
                            hsToRgb: HsColor -> Rgb, accepts: Write -> bool)
    requires cmd.effect.Some? && cmd.effect.value !in effects
    ensures TurnOnStep(s, cmd, effects, hsToRgb, accepts)
         == Step(s.(isOn := true, effect := cmd.effect.value), [], RaisedValueError, false)
  {
  }

  /**
   * A power-on write is issued exactly when the light was off and the call
   * did not raise, and it is then the first write.
   */
  lemma PowerOnOnlyWhenOff(s: State, cmd: Command, effects: seq<string>,
                           hsToRgb: HsColor -> Rgb, accepts: Write -> bool)
    requires ConvertibleTemperature(cmd)
    ensures var r := TurnOnStep(s, cmd, effects, hsToRgb, accepts);
      (SetPower(true) in r.issued <==> !s.isOn && r.outcome == Returned) &&
      (SetPower(true) in r.issued ==> r.issued[0] == SetPower(true))
  {
  }

  /** Brightness is sent as given, with no scaling, and cached; without one none is sent. */
  lemma BrightnessIsSentRaw(s: State, cmd: Command, effects: seq<string>,
                            hsToRgb: HsColor -> Rgb, accepts: Write -> bool)
    requires cmd.effect.None? && ConvertibleTemperature(cmd)
    ensures var r := TurnOnStep(s, cmd, effects, hsToRgb, accepts);
      (cmd.brightness.Some? ==>
         SetBrightness(cmd.brightness.value) in r.issued && r.state.brightness == cmd.brightness.value) &&
      (cmd.brightness.None? ==>
         r.state.brightness == s.brightness && forall w :: w in r.issued ==> !w.SetBrightness?)
  {
  }

  /**
   * Without an effect name the writes are exactly: power-on if the light was
   * off, the brightness if one is given, then the converted colour
   * temperature if one is given, otherwise the new colour if a hue/saturation
   * pair converts to a colour other than the cached one. Fields the command
   * does not name keep their values.
   */
  lemma AttributeBranchWritesAndFrame(s: State, cmd: Command, effects: seq<string>,
                                      hsToRgb: HsColor -> Rgb, accepts: Write -> bool)
    requires cmd.effect.None? && ConvertibleTemperature(cmd)
    ensures var r := TurnOnStep(s, cmd, effects, hsToRgb, accepts);
      r.issued ==
        (if s.isOn then [] else [SetPower(true)])
        + (if cmd.brightness.Some? then [SetBrightness(cmd.brightness.value)] else [])
        + (if cmd.colorTemp.Some? then [SetWhite(MiredsToByte(cmd.colorTemp.value))]
           else if cmd.hsColor.Some? && !SameColour(s.rgb, cmd.hsColor.value, hsToRgb)
           then [SetColor(hsToRgb(cmd.hsColor.value))]
           else []) &&
      |r.issued| <= 3 &&
      r.state.effect == s.effect &&
      (cmd.colorTemp.None? ==> r.state.temperature == s.temperature) &&
      (cmd.colorTemp.None? && cmd.hsColor.None? ==> r.state.rgb == s.rgb && r.state.colorMode == s.colorMode)
  {
  }

  /**
   * A colour temperature wins over a hue/saturation pair: its converted
   * byte is written, no colour is written, and the mode becomes COLOR_TEMP.
   */
  lemma TemperatureBeatsColour(s: State, cmd: Command, effects: seq<string>,
                               hsToRgb: HsColor -> Rgb, accepts: Write -> bool)
    requires cmd.effect.None? && cmd.colorTemp.Some? && InMiredsRange(cmd.colorTemp.value)
    ensures var r := TurnOnStep(s, cmd, effects, hsToRgb, accepts);
      SetWhite(MiredsToByte(cmd.colorTemp.value)) in r.issued &&
      (forall w :: w in r.issued ==> !w.SetColor?) &&
      r.state.temperature == cmd.colorTemp.value && r.state.colorMode == ColorTemp &&
      r.state.rgb == s.rgb
  {
  }

  /** A hue/saturation pair whose colour differs from the cached one is written and switches to HS. */
  lemma NewColourIsWritten(s: State, cmd: Command, effects: seq<string>,
                           hsToRgb: HsColor -> Rgb, accepts: Write -> bool)
    requires cmd.effect.None? && cmd.colorTemp.None? && cmd.hsColor.Some?
    requires !SameColour(s.rgb, cmd.hsColor.value, hsToRgb)
    ensures var r := TurnOnStep(s, cmd, effects, hsToRgb, accepts);
      SetColor(hsToRgb(cmd.hsColor.value)) in r.issued &&
      r.state.rgb == hsToRgb(cmd.hsColor.value) && r.state.colorMode == HS &&
      r.state.temperature == s.temperature
  {
  }

  /**
   * A hue/saturation pair that converts to the cached colour writes no
   * colour and changes neither the colour nor the mode, even in COLOR_TEMP.
   */
  lemma SameColourIsNoop(s: State, cmd: Command, effects: seq<string>,
                         hsToRgb: HsColor -> Rgb, accepts: Write -> bool)
    requires cmd.effect.None? && cmd.colorTemp.None? && cmd.hsColor.Some?
    requires SameColour(s.rgb, cmd.hsColor.value, hsToRgb)
    ensures var r := TurnOnStep(s, cmd, effects, hsToRgb, accepts);
      (forall w :: w in r.issued ==> !w.SetColor?) &&
      r.state.rgb == s.rgb && r.state.colorMode == s.colorMode
  {
  }

  /**
   * A rejected write changes nothing but availability: whatever the device
   * answers, the same optimistic fields result, and on the attribute branch
   * the same writes are issued.
   */
  lemma FailureKeepsOptimisticFields(s: State, cmd: Command, effects: seq<string>,
                                     hsToRgb: HsColor -> Rgb, a1: Write -> bool, a2: Write -> bool)
    requires ConvertibleTemperature(cmd)
    ensures var r1 := TurnOnStep(s, cmd, effects, hsToRgb, a1);
      var r2 := TurnOnStep(s, cmd, effects, hsToRgb, a2);
      r1.state.(available := false) == r2.state.(available := false) &&
      r1.outcome == r2.outcome &&
      (cmd.effect.None? ==> r1.issued == r2.issued)
  {
  }

  /** On the attribute branch the entity is available afterwards exactly when every write was acknowledged. */
  lemma AvailableIffBatchAccepted(s: State, cmd: Command, effects: seq<string>,
                                  hsToRgb: HsColor -> Rgb, accepts: Write -> bool)
    requires cmd.effect.None? && ConvertibleTemperature(cmd)
    ensures var r := TurnOnStep(s, cmd, effects, hsToRgb, accepts);
      r.state.available <==> Accepted(r.issued, accepts)
  {
  }

  /** Repeating a hue/saturation request writes nothing the second time and keeps the state. */
  lemma RepeatedColourIsNoop(s: State, hs: HsColor, effects: seq<string>,
                             hsToRgb: HsColor -> Rgb, a1: Write -> bool, a2: Write -> bool)
    ensures var cmd := Command(None, None, None, Some(hs));
      var first := TurnOnStep(s, cmd, effects, hsToRgb, a1);
      var second := TurnOnStep(first.state, cmd, effects, hsToRgb, a2);
      second.issued == [] && second.state == first.state.(available := true)
  {
  }

  /** After turning off succeeds, any turn-on that does not raise starts with a power-on write. */
  lemma TurnOnAfterTurnOffPowersUp(s: State, cmd: Command, effects: seq<string>,
                                   hsToRgb: HsColor -> Rgb, a1: Write -> bool, a2: Write -> bool)
    requires a1(SetPower(false)) && ConvertibleTemperature(cmd)
    requires cmd.effect.Some? ==> cmd.effect.value in effects
    ensures var r := TurnOnStep(TurnOffStep(s, a1).state, cmd, effects, hsToRgb, a2);
      |r.issued| > 0 && r.issued[0] == SetPower(true)
  {
  }

  /** A snapshot's effect is shown under the table's name for that ordinal. */
  lemma SnapshotEffectIsTableEntry(snap: LightSnapshot, members: seq<string>, effects: seq<string>)
    requires IsEffectTable(members, effects) && snap.effect < |members|
    ensures SnapshotState(snap, members).effect == effects[snap.effect]
  {
  }

  /**
   * Requesting the effect a snapshot reported writes that snapshot's effect
   * ordinal back (after a power-on write if the snapshot said off),
   * provided the table's display names are distinct.
   */
  lemma ReportedEffectWritesSameOrdinal(snap: LightSnapshot, members: seq<string>, effects: seq<string>,
                                        hsToRgb: HsColor -> Rgb, accepts: Write -> bool)
    requires IsEffectTable(members, effects) && DistinctNames(effects) && snap.effect < |members|
    ensures var r := TurnOnStep(SnapshotState(snap, members), Command(Some(effects[snap.effect]), None, None, None),
                                effects, hsToRgb, accepts);
      r.outcome == Returned &&
      (snap.enabled ==> r.issued == [SetEffect(snap.effect)]) &&
      (!snap.enabled && accepts(SetPower(true)) ==> r.issued == [SetPower(true), SetEffect(snap.effect)])
  {
  }

  /**
   * A colour temperature written as a warmth byte reads back from the next
   * snapshot at most one mired lower than requested.
   */
  lemma WrittenTemperatureReadsBack(s: State, cmd: Command, effects: seq<string>, hsToRgb: HsColor -> Rgb,
                                    accepts: Write -> bool, snap: LightSnapshot, members: seq<string>)
    requires cmd.effect.None? && cmd.colorTemp.Some? && InMiredsRange(cmd.colorTemp.value)
    requires SetWhite(snap.warmness) in TurnOnStep(s, cmd, effects, hsToRgb, accepts).issued
    requires snap.effect < |members|
    ensures cmd.colorTemp.value - 1 <= SnapshotState(snap, members).temperature <= cmd.colorTemp.value
  {
  }
}
