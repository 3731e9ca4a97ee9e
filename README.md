# MyrtDesk backlight entity, modelled in Dafny

This project models the backlight entity of the MyrtDesk home-automation
integration (`custom_components/myrt_desk/light.py`). The entity sits
between the desk's native light encoding and the hub's lighting
abstraction:

- it converts the desk's warmth byte (0..255) to and from a colour
  temperature in mireds, bounded by 166 and 400;
- it copies each light snapshot the coordinator fetches into its cached
  state (on/off, brightness, colour, temperature, effect name, colour mode,
  availability);
- it turns the hub's turn-on and turn-off commands into writes to the
  desk's backlight. It follows fixed precedence rules:
  - a power-on write is queued when the light is off;
  - an effect name excludes every other attribute;
  - a colour temperature beats a hue/saturation pair;
  - a colour equal to the cached one is not written.
- it updates its cached state optimistically. A rejected write
  (`ClientError`) only marks the entity unavailable and rolls nothing back;
- it keeps a module-level effect-name table. The table is built once from
  the device's effect enumeration by title-casing each member name, and
  `list.index` on it turns a name back into an ordinal.

Layout:

- `basics.dfy` (`Basics`): `Option` and the `Byte` range.
- `warmth.dfy` (`Warmth`): the two conversions and their bounds,
  monotonicity and round-trip lemmas.
- `effects.dfy` (`Effects`): `lower()`/`capitalize()`, the display name,
  the loop that builds the table, `list.index`, and the lookup lemmas.
- `light.dfy` (`DeskLight`): the entity. The pure step functions
  `SnapshotState`, `TurnOnStep` (through `EffectStep` and `BatchStep`) and
  `TurnOffStep` give the meaning of each operation on a `State` value.
  The class `MyrtDeskLight` assigns its fields step by step, as the source
  does, and each of its methods is proved to agree with the matching step
  function. A call's writes are returned as an ordered `seq<Write>`.
  Whether the desk acknowledges a write is a parameter
  `accepts: Write -> bool`.
- `properties.dfy` (`LightProperties`): the precedence, no-op, no-rollback
  and cross-operation properties, proved over the step functions.

The source's `int(...)` truncates a floating-point product. On the valid
ranges this is modelled as integer floor division:
`(234 * b) / 255 + 166` and `(255 * (m - 166)) / 234`.

Three consequences of the code are worth stating:

- Both conversions truncate with `int()` and do not round
  (light.py:156 and 160).
- A temperature read from the desk and written back can drift: byte 2
  reads as 167 mireds, is written back as byte 1, and reads as 166
  (`Warmth.ReportedTemperatureDrifts`). The drift is at most one mired,
  downwards (`Warmth.ReportedTemperatureDriftBound`).
- `_is_on` is cleared only after the power-off write is acknowledged
  (light.py:143-144). When that write fails the flag is unchanged.

## Model

| member | source | states |
|---|---|---|
| `Warmth.ByteToMireds` | custom_components/myrt_desk/light.py:158-160 | every warmth byte maps into the entity's mireds bounds 166..400; byte 0 maps to 166 and byte 255 to 400 |
| `Warmth.MiredsToByte` | custom_components/myrt_desk/light.py:153-156 | every temperature within 166..400 maps to a byte 0..255; 166 maps to 0 and 400 to 255 |
| `Warmth.ByteToMiredsMonotone` | custom_components/myrt_desk/light.py:158-160 | a warmer byte never gives fewer mireds |
| `Warmth.MiredsToByteMonotone` | custom_components/myrt_desk/light.py:153-156 | more mireds never give a smaller byte |
| `Warmth.ByteRoundTripBounds` | custom_components/myrt_desk/light.py:153-160 | byte to mireds and back never overshoots and loses at most 2 |
| `Warmth.MiredsRoundTripBounds` | custom_components/myrt_desk/light.py:153-160 | mireds to byte and back never overshoots and loses at most 1 |
| `Warmth.MiredsRoundTripIsLossy` | custom_components/myrt_desk/light.py:153-160 | the conversions are not inverse: 167 mireds become byte 1, which reads as 166 |
| `Warmth.ReportedTemperatureDrifts` | custom_components/myrt_desk/light.py:153-160 | a reported temperature re-converted through a write can change: 167 becomes 166 |
| `Warmth.ReportedTemperatureDriftBound` | custom_components/myrt_desk/light.py:153-160 | a reported temperature re-converted through a write drops by at most one mired and never rises |
| `Effects.Lower` | custom_components/myrt_desk/light.py:26 | `lower()` keeps the length and lower-cases each letter |
| `Effects.Capitalize` | custom_components/myrt_desk/light.py:26 | `capitalize()` keeps the length, upper-cases the first character and lower-cases the rest |
| `Effects.DisplayName` | custom_components/myrt_desk/light.py:26 | `name.lower().capitalize()` keeps the length, gives the first character upper-cased after lower-casing, and every later character lower-cased |
| `Effects.DisplayNameShape` | custom_components/myrt_desk/light.py:26 | a display name has the member name's length, does not start with a lower-case letter and has no upper-case letter after the first |
| `Effects.DisplayNameIgnoresLower` | custom_components/myrt_desk/light.py:26 | the `lower()` before `capitalize()` does not change the display name |
| `Effects.DisplayNameIdempotent` | custom_components/myrt_desk/light.py:26 | title-casing a display name again gives the same name |
| `Effects.UpperCaseMemberName` | custom_components/myrt_desk/light.py:26 | the member name RAINBOW displays as Rainbow |
| `Effects.BuildEffects` | custom_components/myrt_desk/light.py:24-26 | the table has one entry per enumeration member, in ordinal order, each the member's display name |
| `Effects.IndexOf` | custom_components/myrt_desk/light.py:117 | `list.index` fails exactly when the name is absent; otherwise it gives the first position holding the name |
| `Effects.LookupRecoversOrdinal` | custom_components/myrt_desk/light.py:24-26 | when display names are distinct, looking up a member's display name gives back that member's ordinal |
| `Effects.SharedDisplayNameLosesOrdinal` | custom_components/myrt_desk/light.py:117 | two members that display alike (FIRE, Fire) resolve to the earlier ordinal |
| `DeskLight.InitialState` | custom_components/myrt_desk/light.py:43-54 | a new entity is off, unavailable, in HS mode, and shows the first effect name |
| `DeskLight.SnapshotState` | custom_components/myrt_desk/light.py:92-105 | a snapshot makes the entity available; mode 0 selects HS and any other value COLOR_TEMP; the temperature is the reported warmth converted to mireds, within the mireds bounds; the effect is the reported member's display name; on/off, brightness and colour are the reported ones |
| `DeskLight.EffectStep` | custom_components/myrt_desk/light.py:115-121 | the effect branch records the requested name, does not publish, and changes no field other than the effect name and availability |
| `DeskLight.BatchStep` | custom_components/myrt_desk/light.py:122-136 | the attribute branch always returns normally and publishes, and keeps the effect name and the on flag |
| `DeskLight.TurnOnStep` | custom_components/myrt_desk/light.py:107-138 | turning on always leaves the light marked on, and raises ValueError exactly when an effect name not in the table is requested |
| `DeskLight.TurnOffStep` | custom_components/myrt_desk/light.py:140-148 | turning off issues one power-off write and publishes; the entity is available exactly when that write is acknowledged; it is off then; on failure the on flag is unchanged; nothing else changes |
| `DeskLight.MyrtDeskLight.constructor` | custom_components/myrt_desk/light.py:42-60 | a new entity holds the class defaults and the shared effect table |
| `DeskLight.MyrtDeskLight.IsSameColor` | custom_components/myrt_desk/light.py:150-151 | the cached colour equals the hub's conversion of the hue/saturation pair exactly when a hue/saturation-only request would write no colour |
| `DeskLight.MyrtDeskLight.ApplySnapshot` | custom_components/myrt_desk/light.py:92-105 | applying a snapshot yields exactly the snapshot's state, shows the table's name for the reported effect, and publishes once |
| `DeskLight.MyrtDeskLight.TurnOn` | custom_components/myrt_desk/light.py:107-138 | the new state, the issued writes and the outcome are those of the turn-on step from the old state; it publishes only on the attribute branch |
| `DeskLight.MyrtDeskLight.SelectEffect` | custom_components/myrt_desk/light.py:115-121 | the effect branch's field assignments and awaited writes follow the effect step |
| `DeskLight.MyrtDeskLight.WriteAttributes` | custom_components/myrt_desk/light.py:122-138 | the attribute branch's field assignments and batch follow the batch step, with `_is_same_color` deciding whether a colour is written |
| `DeskLight.MyrtDeskLight.TurnOff` | custom_components/myrt_desk/light.py:140-148 | the new state and the single write are those of the turn-off step; it publishes once |
| `LightProperties.EffectIsExclusive` | custom_components/myrt_desk/light.py:115-121 | an effect request writes only power and effect; brightness, colour, temperature and mode stay as they were; nothing is published |
| `LightProperties.KnownEffectWritesItsOrdinal` | custom_components/myrt_desk/light.py:111-121 | a known name is written as the ordinal whose table entry it is, after a power-on write if the light was off; a rejected power-on write suppresses the effect write and marks the entity unavailable |
| `LightProperties.UnknownEffectRaises` | custom_components/myrt_desk/light.py:111-117 | an unknown effect name raises ValueError with no write issued, but the light is already marked on and the name recorded |
| `LightProperties.PowerOnOnlyWhenOff` | custom_components/myrt_desk/light.py:111-113 | a power-on write is issued exactly when the light was off and the call did not raise, and then it is the first write |
| `LightProperties.BrightnessIsSentRaw` | custom_components/myrt_desk/light.py:122-124 | a requested brightness is written unscaled and cached; without one no brightness write is issued and the cached value stays |
| `LightProperties.AttributeBranchWritesAndFrame` | custom_components/myrt_desk/light.py:111-136 | without an effect, exactly these writes are issued in this order: power-on if the light was off, the brightness if given, then the converted temperature if given, else a changed colour; at most three writes; the effect name is kept; without a temperature the cached temperature is kept; without a temperature or a hue/saturation pair the colour and mode are kept |
| `LightProperties.TemperatureBeatsColour` | custom_components/myrt_desk/light.py:125-129 | a colour temperature is written as its converted byte, sets COLOR_TEMP mode, and suppresses any colour write |
| `LightProperties.NewColourIsWritten` | custom_components/myrt_desk/light.py:129-133 | a hue/saturation pair converting to a new colour is written and cached, and selects HS mode |
| `LightProperties.SameColourIsNoop` | custom_components/myrt_desk/light.py:129-133 | a hue/saturation pair converting to the cached colour writes no colour and keeps colour and mode, even in COLOR_TEMP mode |
| `LightProperties.FailureKeepsOptimisticFields` | custom_components/myrt_desk/light.py:134-138 | whatever the desk acknowledges, turning on leaves the same fields apart from availability, and the attribute branch issues the same writes |
| `LightProperties.AvailableIffBatchAccepted` | custom_components/myrt_desk/light.py:135-138 | after the attribute branch the entity is available exactly when every write was acknowledged |
| `LightProperties.RepeatedColourIsNoop` | custom_components/myrt_desk/light.py:129-133 | repeating a hue/saturation request issues no write the second time and leaves the state as the first left it, now available |
| `LightProperties.TurnOnAfterTurnOffPowersUp` | custom_components/myrt_desk/light.py:111-148 | after an acknowledged turn-off, a turn-on that does not raise starts with a power-on write |
| `LightProperties.SnapshotEffectIsTableEntry` | custom_components/myrt_desk/light.py:98 | the effect name a snapshot shows is the table entry for the reported ordinal |
| `LightProperties.ReportedEffectWritesSameOrdinal` | custom_components/myrt_desk/light.py:98-120 | when display names are distinct, requesting the reported effect name writes the reported ordinal back |
| `LightProperties.WrittenTemperatureReadsBack` | custom_components/myrt_desk/light.py:99-128 | a colour temperature written as a warmth byte reads back from the next snapshot at most one mired lower than requested |

## Left out

- `coordinator.py` (the periodic fetch of light, heap and height with a 10 s deadline) is not part of this model. It is framework plumbing; the entity receives its light snapshot as a parameter.
- Entity registration and constant properties (`async_setup_entry`, `unique_id`, `icon`, `supported_color_modes`, device info, light.py:28-38 and 62-84): glue with constant answers. The `brightness` and `is_on` getters read the fields directly.
- The hub's colour maths: `color_hs_to_RGB` is a function the entity receives at construction (`hsToRgb`) and is compared only by equality. `color_RGB_to_hs` (the `hs_color` getter, light.py:86-89) is not modelled.
- Concurrency of `asyncio.gather`: a batch is an ordered list of writes with one combined outcome. The order in which concurrent writes reach the desk is not modelled.
- Device failures other than `ClientError` (for instance a timeout) are not modelled. Whether the desk acknowledges a write is the parameter `accepts`.
- `async_write_ha_state` is modelled only as a count of publications (`published`).
- Floating point: both conversions are modelled as integer floor division on their valid ranges. Outside 166..400, Python truncates toward zero and the float product is not exactly known.
- `Warmth.MiredsToByte`: requires a temperature within 166..400, because the float behaviour outside that range is not modelled. The source passes the requested value on unclamped (light.py:125-128); the model assumes the hub only requests temperatures within the entity's bounds.
- `DeskLight.MyrtDeskLight.TurnOn`: requires a colour temperature within 166..400 when the attribute branch converts it, for the reason above.
- `DeskLight.TurnOnStep`: requires the same bound on a converted colour temperature, for the reason above.
- `DeskLight.BatchStep`: requires a requested colour temperature within 166..400, which light.py:125-128 does not check, because the float behaviour outside that range is not modelled.
- `DeskLight.MyrtDeskLight.WriteAttributes`: requires a requested colour temperature within 166..400, which light.py:125-128 does not check, because the float behaviour outside that range is not modelled.
- Brightness and colour components are typed as bytes. The hub validates brightness before calling; the source itself does not check it.
- `lower()` and `capitalize()` map ASCII letters only. Unicode case mapping is not modelled; effect member names are ASCII identifiers.
- `set_power` is assumed to be a coroutine function whose write happens only when it is awaited. An unknown effect name raises at light.py:117 before the queued power-on call is awaited (light.py:119), so the model issues no write on that path.
- The device's effect enumeration belongs to the vendor library and is not part of this model. It is represented by its member names in declaration order, and each member's value is taken to be its position.
