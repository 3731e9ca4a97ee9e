/**
 * The desk backlight entity. It applies the coordinator's light snapshot to
 * its cached state, turns the hub's turn-on/turn-off commands into writes to
 * the desk, and updates its cached state optimistically.
 *
 * The pure functions SnapshotState, TurnOnStep and TurnOffStep give the
 * meaning of each operation on a State value; the class MyrtDeskLight does
 * the same work by assigning its fields one by one, and each of its methods
 * is proved to agree with the matching function.
 */
module DeskLight {
  import opened Basics
  import opened Warmth
  import opened Effects

  datatype Rgb = Rgb(red: Byte, green: Byte, blue: Byte)

  /** A hue/saturation pair as the hub passes it. */
  datatype HsColor = HsColor(hue: real, saturation: real)

  datatype ColorMode = HS | ColorTemp

  /**
   * The "light" part of a coordinator snapshot: the device's effect is given
   * by its ordinal and its colour mode by the enumeration value.
   */
  datatype LightSnapshot = LightSnapshot(
    enabled: bool,
    brightness: Byte,
    color: Rgb,
    warmness: Byte,
    mode: int,
    effect: nat)

  /** The attributes a turn-on command may carry; any subset may be present. */
  datatype Command = Command(
    effect: Option<string>,
    brightness: Option<Byte>,
    colorTemp: Option<int>,
    hsColor: Option<HsColor>)

  /** One write to the desk's backlight. */
  datatype Write =
    | SetPower(on: bool)
    | SetBrightness(level: Byte)
    | SetWhite(warmth: Byte)
    | SetColor(rgb: Rgb)
    | SetEffect(ordinal: nat)

  /** How a turn-on call ends: normally, or with the ValueError of an unknown effect name. */
  datatype Outcome = Returned | RaisedValueError

  /** The entity's cached light state. */
  datatype State = State(
    isOn: bool,
    rgb: Rgb,
    temperature: int,
    brightness: Byte,
    effect: string,
    colorMode: ColorMode,
    available: bool)

  /**
   * What one call does: the state it leaves, the writes it issues in order,
   * how it ends, and whether it publishes the state to the hub.
   */
  datatype Step = Step(state: State, issued: seq<Write>, outcome: Outcome, publishes: bool)

  /** The desk acknowledged every write of a batch (none raised ClientError). */
  predicate Accepted(writes: seq<Write>, accepts: Write -> bool) {
    forall i :: 0 <= i < |writes| ==> accepts(writes[i])
  }

  /** A batch is acknowledged exactly when both of its parts are. */
  lemma AcceptedConcat(a: seq<Write>, b: seq<Write>, accepts: Write -> bool)
    ensures Accepted(a + b, accepts) <==> Accepted(a, accepts) && Accepted(b, accepts)
  {
    if Accepted(a + b, accepts) {
      forall i | 0 <= i < |a| ensures accepts(a[i]) {
        assert (a + b)[i] == a[i];
      }
      forall i | 0 <= i < |b| ensures accepts(b[i]) {
        assert (a + b)[|a| + i] == b[i];
      }
    }
    if Accepted(a, accepts) && Accepted(b, accepts) {
      forall i | 0 <= i < |a + b| ensures accepts((a + b)[i]) {
        if i >= |a| {
          assert (a + b)[i] == b[i - |a|];
        }
      }
    }
  }

  /** The cached temperature is the initial 0 or lies within the mireds bounds. */
  predicate TemperatureOk(t: int) {
    t == 0 || InMiredsRange(t)
  }

  /** A colour temperature that the non-effect branch converts lies within the bounds. */
  predicate ConvertibleTemperature(cmd: Command) {
    cmd.effect.None? && cmd.colorTemp.Some? ==> InMiredsRange(cmd.colorTemp.value)
  }

  /** The entity's class-level defaults. */
  function InitialState(effects: seq<string>): (s: State)
    requires |effects| > 0
    ensures !s.isOn && !s.available && s.colorMode == HS && s.effect == effects[0]
  {
    State(isOn := false, rgb := Rgb(255, 255, 255), temperature := 0, brightness := 255,
          effect := effects[0], colorMode := HS, available := false)
  }

  /** The state after a snapshot is applied; it does not depend on the state before. */
  function SnapshotState(snap: LightSnapshot, members: seq<string>): (s: State)
    requires snap.effect < |members|
    ensures s.available
    ensures s.colorMode == HS <==> snap.mode == 0
    ensures s.temperature == ByteToMireds(snap.warmness) && InMiredsRange(s.temperature)
    ensures s.effect == DisplayName(members[snap.effect])
    ensures s.isOn == snap.enabled && s.brightness == snap.brightness && s.rgb == snap.color
  {
    State(isOn := snap.enabled, rgb := snap.color, temperature := ByteToMireds(snap.warmness),
          brightness := snap.brightness, effect := DisplayName(members[snap.effect]),
          colorMode := if snap.mode == 0 then HS else ColorTemp, available := true)
  }

  /** The power-on write queued when the light is off. */
  function PowerWrites(s: State): seq<Write> {
    if s.isOn then [] else [SetPower(true)]
  }

  /** The cached colour already is what the hub converts the hue/saturation pair to. */
  predicate SameColour(cached: Rgb, hs: HsColor, hsToRgb: HsColor -> Rgb) {
    cached == hsToRgb(hs)
  }

  /** A hue/saturation request, without a colour temperature, whose colour differs from the cached one. */
  predicate ChangesColour(s: State, cmd: Command, hsToRgb: HsColor -> Rgb) {
    cmd.colorTemp.None? && cmd.hsColor.Some? && !SameColour(s.rgb, cmd.hsColor.value, hsToRgb)
  }

  /**
   * The writes of the attribute branch after the power-on write: brightness,
   * then either the converted colour temperature or a changed colour.
   */
  function AttributeWrites(s: State, cmd: Command, hsToRgb: HsColor -> Rgb): seq<Write>
    requires cmd.colorTemp.Some? ==> InMiredsRange(cmd.colorTemp.value)
  {
    (if cmd.brightness.Some? then [SetBrightness(cmd.brightness.value)] else [])
    + (if cmd.colorTemp.Some? then [SetWhite(MiredsToByte(cmd.colorTemp.value))]
       else if ChangesColour(s, cmd, hsToRgb) then [SetColor(hsToRgb(cmd.hsColor.value))]
       else [])
  }

  /**
   * The effect branch of turning on, from the state `on` in which the light
   * is already marked on and the power-on write (if any) is `queued`. The
   * effect name is recorded before it is looked up; an unknown name raises
   * ValueError with nothing written. Otherwise the queued write is awaited
   * first and the effect write follows only if it was acknowledged. Success
   * leaves availability as it was.
   */
  function EffectStep(on: State, queued: seq<Write>, name: string, effects: seq<string>,
                      accepts: Write -> bool): (r: Step)
    ensures r.state.effect == name && !r.publishes
    ensures r.state.(effect := on.effect, available := on.available) == on
  {
    var chosen := on.(effect := name);
    match IndexOf(effects, name)
    case None => Step(chosen, [], RaisedValueError, false)
    case Some(i) =>
      var issued := if Accepted(queued, accepts) then queued + [SetEffect(i)] else queued;
      var available := if Accepted(issued, accepts) then on.available else false;
      Step(chosen.(available := available), issued, Returned, false)
  }

  /**
   * The attribute branch of turning on, from the state `on` with the
   * power-on write (if any) `queued`: brightness and either the colour
   * temperature or a changed colour are set optimistically and written in
   * one batch with the queued write; availability afterwards says whether
   * the whole batch was acknowledged. Nothing is rolled back when it was not.
   */
  function BatchStep(on: State, queued: seq<Write>, cmd: Command, hsToRgb: HsColor -> Rgb,
                     accepts: Write -> bool): (r: Step)
    requires cmd.colorTemp.Some? ==> InMiredsRange(cmd.colorTemp.value)
    ensures r.outcome == Returned && r.publishes
    ensures r.state.effect == on.effect && r.state.isOn == on.isOn
  {
    var changes := ChangesColour(on, cmd, hsToRgb);
    var issued := queued + AttributeWrites(on, cmd, hsToRgb);
    var next := on.(
      brightness := if cmd.brightness.Some? then cmd.brightness.value else on.brightness,
      temperature := if cmd.colorTemp.Some? then cmd.colorTemp.value else on.temperature,
      rgb := if changes then hsToRgb(cmd.hsColor.value) else on.rgb,
      colorMode := if cmd.colorTemp.Some? then ColorTemp else if changes then HS else on.colorMode,
      available := Accepted(issued, accepts));
    Step(next, issued, Returned, true)
  }

  /**
   * Turning on: the light is marked on and a power-on write queued when it
   * was off; then an effect name takes the effect branch, to the exclusion
   * of every other attribute, and otherwise the attribute branch runs.
   */
  function TurnOnStep(s: State, cmd: Command, effects: seq<string>,
                      hsToRgb: HsColor -> Rgb, accepts: Write -> bool): (r: Step)
    requires ConvertibleTemperature(cmd)
    ensures r.state.isOn
    ensures r.outcome == RaisedValueError <==> cmd.effect.Some? && cmd.effect.value !in effects
  {
    var on := s.(isOn := true);
    match cmd.effect
    case Some(name) => EffectStep(on, PowerWrites(s), name, effects, accepts)
    case None => BatchStep(on, PowerWrites(s), cmd, hsToRgb, accepts)
  }

  /** Turning off: one power-off write; the light is marked off only once it is acknowledged. */
  function TurnOffStep(s: State, accepts: Write -> bool): (r: Step)
    ensures r.issued == [SetPower(false)] && r.outcome == Returned && r.publishes
    ensures r.state.available == accepts(SetPower(false))
    ensures r.state.isOn == (s.isOn && !accepts(SetPower(false)))
    ensures r.state.(isOn := s.isOn, available := s.available) == s
  {
    var ok := accepts(SetPower(false));
    Step(if ok then s.(isOn := false, available := true) else s.(available := false),
         [SetPower(false)], Returned, true)
  }

  class MyrtDeskLight {
    var isOn: bool
    var rgb: Rgb
    var temperature: int
    var brightness: Byte
    var effect: string
    var colorMode: ColorMode
    var available: bool
    /** How many times the state has been published to the hub. */
    var published: nat

    /** Names of the device's effect enumeration, in ordinal order. */
    const members: seq<string>
    /** The module-level effect name table shared by every entity. */
    const effects: seq<string>
    /** The hub's hue/saturation to RGB conversion. */
    const hsToRgb: HsColor -> Rgb

    ghost predicate Valid()
      reads this
    {
      IsEffectTable(members, effects) && |effects| > 0 && TemperatureOk(temperature)
    }

    function Current(): State
      reads this
    {
      State(isOn := isOn, rgb := rgb, temperature := temperature, brightness := brightness,
            effect := effect, colorMode := colorMode, available := available)
    }

    constructor (members: seq<string>, effects: seq<string>, hsToRgb: HsColor -> Rgb)
      requires IsEffectTable(members, effects) && |members| > 0
      ensures Valid()
      ensures this.members == members && this.effects == effects && this.hsToRgb == hsToRgb
      ensures Current() == InitialState(effects) && published == 0
    {
      this.members := members;
      this.effects := effects;
      this.hsToRgb := hsToRgb;
      isOn := false;
      rgb := Rgb(255, 255, 255);
      temperature := 0;
      brightness := 255;
      effect := effects[0];
      colorMode := HS;
      available := false;
      published := 0;
    }

    /** The cached colour already is what the hue/saturation pair converts to. */
    predicate IsSameColor(hs: HsColor)
      reads this
      ensures IsSameColor(hs) <==> !ChangesColour(Current(), Command(None, None, None, Some(hs)), hsToRgb)
    {
      SameColour(rgb, hs, hsToRgb)
    }

    method ApplySnapshot(snap: LightSnapshot)
      requires Valid() && snap.effect < |members|
      modifies this
      ensures Valid()
      ensures Current() == SnapshotState(snap, members)
      ensures effect == effects[snap.effect]
      ensures published == old(published) + 1
    {
      brightness := snap.brightness;
      isOn := snap.enabled;
      rgb := snap.color;
      effect := DisplayName(members[snap.effect]);
      temperature := ByteToMireds(snap.warmness);
      if snap.mode == 0 {
        colorMode := HS;
      } else {
        colorMode := ColorTemp;
      }
      available := true;
      published := published + 1;
    }

    method TurnOn(cmd: Command, accepts: Write -> bool) returns (issued: seq<Write>, outcome: Outcome)
      requires Valid() && ConvertibleTemperature(cmd)
      modifies this
      ensures Valid()
      ensures var step := TurnOnStep(old(Current()), cmd, effects, hsToRgb, accepts);
        Current() == step.state && issued == step.issued && outcome == step.outcome &&
        published == old(published) + (if step.publishes then 1 else 0)
    {
      ghost var before := Current();
      var futures: seq<Write> := [];
      if !isOn {
        futures := futures + [SetPower(true)];
        isOn := true;
      }
      assert futures == PowerWrites(before) && Current() == before.(isOn := true);
      if cmd.effect.Some? {
        issued, outcome := SelectEffect(cmd.effect.value, futures, accepts);
        return;
      }
      issued := WriteAttributes(cmd, futures, accepts);
      outcome := Returned;
    }

    /** The effect branch of TurnOn, with the power-on write (if any) already queued. */
    method SelectEffect(name: string, futures: seq<Write>, accepts: Write -> bool)
      returns (issued: seq<Write>, outcome: Outcome)
      requires Valid()
      modifies this
      ensures Valid()
      ensures var step := EffectStep(old(Current()), futures, name, effects, accepts);
        Current() == step.state && issued == step.issued && outcome == step.outcome &&
        published == old(published)
    {
      effect := name;
      var index := IndexOf(effects, name);
      if index.None? {
        return [], RaisedValueError;
      }
      issued := [];
      if |futures| > 0 {
        issued := futures;
        if !Accepted(futures, accepts) {
          available := false;
          return issued, Returned;
        }
      }
      assert Accepted(issued, accepts) && (issued == [] ==> futures == []);
      var awaited := issued;
      issued := awaited + [SetEffect(index.value)];
      AcceptedConcat(awaited, [SetEffect(index.value)], accepts);
      assert [SetEffect(index.value)][0] == SetEffect(index.value);
      if !accepts(SetEffect(index.value)) {
        available := false;
      }
      return issued, Returned;
    }

    /** The attribute branch of TurnOn, with the power-on write (if any) already queued. */
    method WriteAttributes(cmd: Command, futures: seq<Write>, accepts: Write -> bool)
      returns (issued: seq<Write>)
      requires Valid() && (cmd.colorTemp.Some? ==> InMiredsRange(cmd.colorTemp.value))
      modifies this
      ensures Valid()
      ensures var step := BatchStep(old(Current()), futures, cmd, hsToRgb, accepts);
        Current() == step.state && issued == step.issued && published == old(published) + 1
    {
      ghost var before := Current();
      var queued := futures;
      if cmd.brightness.Some? {
        brightness := cmd.brightness.value;
        queued := queued + [SetBrightness(brightness)];
      }
      if cmd.colorTemp.Some? {
        temperature := cmd.colorTemp.value;
        colorMode := ColorTemp;
        queued := queued + [SetWhite(MiredsToByte(temperature))];
      } else if cmd.hsColor.Some? {
        if !IsSameColor(cmd.hsColor.value) {
          rgb := hsToRgb(cmd.hsColor.value);
          colorMode := HS;
          queued := queued + [SetColor(rgb)];
        }
      }
      assert queued == futures + AttributeWrites(before, cmd, hsToRgb);
      published := published + 1;
      issued := queued;
      if Accepted(queued, accepts) {
        available := true;
      } else {
        available := false;
      }
    }

    method TurnOff(accepts: Write -> bool) returns (issued: seq<Write>)
      requires Valid()
      modifies this
      ensures Valid()
      ensures var step := TurnOffStep(old(Current()), accepts);
        Current() == step.state && issued == step.issued && published == old(published) + 1
    {
      issued := [SetPower(false)];
      if accepts(SetPower(false)) {
        isOn := false;
        available := true;
      } else {
        available := false;
      }
      published := published + 1;
    }
  }
}
