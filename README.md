# WLED accessory model

A Dafny model of the `WLED` accessory class of the homebridge-simpler-wled
plugin. The class exposes one WLED device, or a group of devices that mirror
each other, to HomeKit. It has two services:

- a Lightbulb with the On, Brightness, Hue and Saturation characteristics;
- a Television whose Active and ActiveIdentifier characteristics pick one
  of the device's presets.

The accessory keeps a cache of the light state and a list of WebSockets. At
start it opens one socket per configured host; each reconnect after a close
opens one more per host, and closed sockets stay in the list. Every command
it writes goes to all of the sockets in the list.
When a device pushes a state frame, the accessory parses it back into the
cache and publishes the values to HomeKit.

The project has five modules:

- `JsValues` (js_values.dfy) holds the JavaScript semantics the class relies
  on:
  - numbers that may be NaN;
  - truthiness;
  - `indexOf`;
  - `parseInt` without a radix, with the decimal spelling of a non-negative
    integer as its partner.
- `Color` (color.dfy) holds the six-sector `HSVtoRGB`, its inverse
  `RGBtoHSV` and the brightness conversions between percent and byte. These
  are modelled over `real`, with `Math.floor` as `Floor` and `Math.round` as
  `Round`.
- `Protocol` (protocol.dfy) holds the JSON commands as a datatype
  (`{"on"}`, `{"bri"}`, `{"ps"}`, `{"seg"}`), the ten-segment colour command
  with its CCT workaround for blue, and the decoded state frame.
- `Presets` (presets.dfy) holds the filtering and labelling of the loaded
  presets into input sources.
- `Accessory` (accessory.dfy) holds two things:
  - the normalisation of the configuration;
  - the class `Wled`, whose fields are the cached state, the published
    characteristic values, the connection list, the pending timers and a
    log of every message and every socket write.

Characteristic events become methods:

- A SET runs the handler, then publishes the value. This is what the
  accessory framework does once the handler calls back.
- A GET answers from the cache, and the answer is published too: the
  framework stores it as the characteristic's value, where the hue timer
  later reads the saturation.
- `updateCharacteristic` only publishes.
- The 100 ms hue timer and the 300 ms reconnect timer are events of their
  own (`HueTimerFired`, `ReconnectTimerFired`).
- A frame arriving on a socket runs the message handlers registered on that
  socket (`MessageReceived`).

The class invariant is `Valid()`:

- the colour fields are in range;
- the published hue and saturation are in range;
- the cached brightness byte and preset index are in range;
- every handler is registered on an existing socket;
- every pending hue is in range.

Each state-changing method states its whole new state, including the exact
commands appended to the message log and the deliveries appended to the
socket log (`Logged`).

The source exists twice: src/wled-accessory.ts and its compiled form
dist/wled-accessory.js. The two agree line for line in behaviour. The table
cites the TypeScript.

Two behaviours of the code a reader might not expect, which the model keeps:

- The hue and saturation setters never reset the cached `preset`. They only
  publish Active 0 through `turnOffAllPresets`.
- Reconnecting re-opens every configured host, whichever socket closed.
  Handlers are registered on `ws[i]` of the whole list, not on the socket
  just created.

## Model

| member | source | states |
|---|---|---|
| JsValues.IndexOf | src/wled-accessory.ts:251 | `indexOf` returns -1 exactly when x is absent; otherwise it returns an index holding x with no earlier occurrence |
| JsValues.IndexOfNum | src/wled-accessory.ts:305 | `indexOf` of a number that may be NaN is -1 exactly when the number is NaN or absent |
| JsValues.TrimStartSuffix | src/wled-accessory.ts:305 | `parseInt` skips exactly the leading run of white space: what remains is a suffix that does not start with white space |
| JsValues.DigitPrefixMaximal | src/wled-accessory.ts:305 | `parseInt` reads the longest run of digits: every character of the run is a digit, and the next character, if any, is not |
| JsValues.DecimalStringDigits | src/wled-accessory.ts:302-305 | the decimal spelling of n that names an object key is a non-empty run of digits worth n, with no leading zero |
| JsValues.DigitPrefixOfDigits | src/wled-accessory.ts:305 | after a run of digits followed by a non-digit, the digit run that `parseInt` reads ends exactly at the non-digit |
| JsValues.ParseInt | src/wled-accessory.ts:305 | no contract of its own: `parseInt` without a radix (leading white space, sign, 0x prefix, longest digit prefix); ParseIntOfDigit, ParseIntDecimal and ParseIntNoDigits state its behaviour |
| JsValues.Truthy | src/wled-accessory.ts:263 | no contract of its own: JavaScript truthiness of a number (0 and NaN are falsy); ShownIdentifier and its lemmas use it |
| JsValues.ParseIntOfDigit | src/wled-accessory.ts:305 | a key that starts with a decimal digit (and not with 0x) parses to the value of its leading digits |
| JsValues.ParseIntDecimal | src/wled-accessory.ts:305 | `parseInt` inverts the decimal spelling of n: parseInt(String(n) + rest) == n when rest starts with no digit (and with no x after a lone 0) |
| JsValues.ParseIntNoDigits | src/wled-accessory.ts:305 | a string with no decimal digit parses to NaN |
| Color.Floor | src/wled-accessory.ts:381-383 | `Math.floor`: the largest integer not above x |
| Color.Round | src/wled-accessory.ts:421-423 | `Math.round`: the integer within half of x, with halves rounding up |
| Color.SectorChannels | src/wled-accessory.ts:409-419 | no contract of its own: the unit channels of one hue sector; their ranges are stated by SectorChannelsFacts |
| Color.Scale | src/wled-accessory.ts:420-424 | no contract of its own: rounding of unit channels to bytes; ScaleInRange and ScaleExact state its range and exactness |
| Color.HsvToRgb | src/wled-accessory.ts:399-425 | no contract of its own: `HSVtoRGB`; HsvToRgbChannels, HsvToRgbGrey, HsvToRgbFullTurn, HsvToRgbPrimaries, HsvToRgbBlueIsMin, HsvToRgbBlueIsFull and HsvRoundTrip state its properties |
| Color.SectorChannelsFacts | src/wled-accessory.ts:409-419 | in every sector the unit channels lie in [0,1], one of them is 1, and the smallest is p = 1 - s |
| Color.SectorIndexBounds | src/wled-accessory.ts:407-408 | for a hue in [0,360] the sector index lies in 0..6 and the fraction f in [0,1) |
| Color.ScaleInRange | src/wled-accessory.ts:420-424 | a unit channel scales to a device byte |
| Color.HsvToRgbChannels | src/wled-accessory.ts:399-425 | `HSVtoRGB` over HomeKit's ranges gives bytes; one channel is 255 and the smallest channel is round(255 * (1 - s/100)) |
| Color.HsvToRgbGrey | src/wled-accessory.ts:399-425 | saturation 0 gives white whatever the hue |
| Color.HsvToRgbFullTurn | src/wled-accessory.ts:407-412 | hue 360 gives the same colour as hue 0, because the sector is taken modulo 6 |
| Color.HsvToRgbPrimaries | src/wled-accessory.ts:412-418 | hues 0, 120 and 240 at full saturation give pure red, green and blue |
| Color.SectorBlue | src/wled-accessory.ts:413-417 | the blue unit channel is p in sectors 0 and 1 and 1 in sectors 3 and 4 |
| Color.HsvToRgbBlueIsMin | src/wled-accessory.ts:407-414 | for hues below 120 the blue channel is the smallest one |
| Color.HsvToRgbBlueIsFull | src/wled-accessory.ts:407-417 | for hues in [180,300) the blue channel is 255 |
| Color.HueSixfold | src/wled-accessory.ts:442-447 | for a chromatic colour, six times the hue fraction is the sector base plus offset/d, with the offset in [-d,d] |
| Color.HueFraction | src/wled-accessory.ts:436-447 | no contract of its own: the hue of `RGBtoHSV` as a fraction of a turn; RgbToHsvRanges states that it lies in [0,1) |
| Color.RgbToHsv | src/wled-accessory.ts:432-454 | no contract of its own: `RGBtoHSV`; RgbToHsvRanges, RgbToHsvGrey, RgbToHsvCorners and HsvRoundTrip state its properties |
| Color.RgbToHsvRanges | src/wled-accessory.ts:432-454 | `RGBtoHSV` of device bytes gives a hue fraction in [0,1), a saturation in [0,1] and a value of max/255 |
| Color.HsvFloors | src/wled-accessory.ts:379-384 | the stored hue is a whole degree in 0..359, the saturation a whole percent in 0..100, and the brightness is the largest channel |
| Color.RgbToHsvGrey | src/wled-accessory.ts:439-443 | every grey, black included, has hue 0 and saturation 0 (the `max === 0` and `case min` guards) |
| Color.RgbToHsvCorners | src/wled-accessory.ts:432-454 | black, pure red and pure green convert to (0,0,0), (0,1,1) and (1/3,1,1) |
| Color.HsvToRgbAt | src/wled-accessory.ts:407-419 | `HSVtoRGB` at a hue with known sector k and fraction f scales that sector's channels |
| Color.ScaleByte | src/wled-accessory.ts:421-423 | a channel of c/255 scales back to exactly c |
| Color.ScaleExact | src/wled-accessory.ts:420-424 | unit channels of c/255 scale back to exactly the colour c |
| Color.SectorRoundTrip | src/wled-accessory.ts:399-425 | when the sector's channels are a colour's channels over 255, `HSVtoRGB` returns that colour |
| Color.FullValueHsv | src/wled-accessory.ts:436-447 | for a full-value chromatic colour, the hue in degrees over 60 is base + offset/d and the saturation fraction is d/255 |
| Color.HueOffsetRatio | src/wled-accessory.ts:444-446 | offset/d lies in [-1,1] and has the sign of the offset |
| Color.RoundTripRedMax | src/wled-accessory.ts:444 | the round trip holds when red is 255 (sectors 0 and 5) |
| Color.RoundTripGreenMax | src/wled-accessory.ts:445 | the round trip holds when green is the maximum at 255 (sectors 1 and 2) |
| Color.RoundTripBlueMax | src/wled-accessory.ts:446 | the round trip holds when blue is the maximum at 255 (sectors 3 and 4) |
| Color.RoundTripFromFacts | src/wled-accessory.ts:442-447 | from the arithmetic facts of its HSV, a full-value chromatic colour comes back from `HSVtoRGB` |
| Color.ChromaticRoundTrip | src/wled-accessory.ts:432-454 | for a full-value chromatic colour, HSVtoRGB(RGBtoHSV(c)) == c, with the hue scaled to degrees and the saturation to percent |
| Color.HsvRoundTrip | src/wled-accessory.ts:399-454 | every colour whose largest channel is 255 survives RGBtoHSV followed by HSVtoRGB unchanged |
| Color.ColorArraysEqual | src/wled-accessory.ts:387-391 | `colorArraysEqual` is true exactly when the two colours are equal |
| Color.PercentToByte | src/wled-accessory.ts:177 | a brightness percentage becomes a byte, and 0 exactly for 0% |
| Color.ByteToPercent | src/wled-accessory.ts:250 | a brightness byte becomes a percentage in 0..100 |
| Color.PercentByteRoundTrip | src/wled-accessory.ts:177 | a percentage set through the brightness setter reads back unchanged once the byte is converted to percent |
| Protocol.RemoveWhiteOverlap | src/wled-accessory.ts:212-215 | subtracting the smallest channel leaves non-negative channels with a zero minimum and the same pairwise differences |
| Protocol.Cct | src/wled-accessory.ts:216 | the CCT is 255 exactly when blue exceeds the smallest channel, and 0 exactly when blue is the smallest channel |
| Protocol.ColorCommand | src/wled-accessory.ts:218-221 | the colour command paints ten identical segments, each with the colour, effect 0 and the colour's CCT |
| Protocol.CctWarmHues | src/wled-accessory.ts:204-216 | hues below 120 never ask for the cool CCT |
| Protocol.CctBlueHues | src/wled-accessory.ts:204-216 | hues in [180,300) ask for CCT 255 once saturation reaches 1% |
| Protocol.CctPrimaries | src/wled-accessory.ts:204-216 | full blue gets CCT 255 and full red gets CCT 0 |
| Protocol.FrameColor | src/wled-accessory.ts:247 | the colour parsed from a frame is its first segment's first colour, a device colour |
| Presets.Label | src/wled-accessory.ts:306 | the label is the quick-load label and a space when that label is truthy, then the name, then a space |
| Presets.IsEnabled | src/wled-accessory.ts:305 | no contract of its own: the key filter, stated as membership of parseInt(key) in the enabled presets; IsEnabledIndexOf ties it to the source's test |
| Presets.IsEnabledIndexOf | src/wled-accessory.ts:305 | a key is enabled if and only if `enabledPresets.indexOf(parseInt(key)) >= 0`, NaN keys included |
| Presets.PresetInputSources | src/wled-accessory.ts:302-314 | the filtered input sources are never more than the loaded entries |
| Presets.PresetInputSourcesStep | src/wled-accessory.ts:302-305 | one more entry appends its source exactly when its key is enabled |
| Presets.OfferedFromEnabled | src/wled-accessory.ts:305-310 | every input source added comes from an entry with an enabled key and carries that key and label |
| Presets.SourcesOfInit | src/wled-accessory.ts:302-305 | the sources of all entries include those of all entries but the last, plus the last one's source when it is enabled |
| Presets.EnabledPresetOffered | src/wled-accessory.ts:305-310 | every entry with an enabled key is offered under its own key and label |
| Presets.PresetInputSourcesMembers | src/wled-accessory.ts:302-314 | an input source is added if and only if some entry has an enabled key and that source's key and label |
| Presets.NoPresetsNoSources | src/wled-accessory.ts:305 | with an empty preset list nothing is offered |
| Presets.DecimalKeyEnabled | src/wled-accessory.ts:305 | a key spelled as the decimal form of id is enabled exactly when id is configured |
| Presets.NonNumericKeyDisabled | src/wled-accessory.ts:305 | a key with no digit is never enabled |
| Accessory.ConfiguredName | src/wled-accessory.ts:72 | an absent or empty configured name falls back to "WLED"; any other name is kept |
| Accessory.InitialLastActivePreset | src/wled-accessory.ts:77 | the last active preset starts as the first configured preset, as 0 with no preset list, and as a non-number for an empty list |
| Accessory.ConfiguredHosts | src/wled-accessory.ts:80-86 | the stored host list has at least one entry: an array of several hosts is kept and anything else is wrapped |
| Accessory.MultipleHosts | src/wled-accessory.ts:80-86 | the multiple-hosts flag is set exactly when the stored host list has more than one entry |
| Accessory.OpenedHosts | src/wled-accessory.ts:268 | `openSockets` opens an array of hosts as it is and wraps a single host |
| Accessory.ReconnectOpensConfiguredHosts | src/wled-accessory.ts:267-284 | the hosts opened at start-up and on reconnect are the same, except for an empty host array |
| Accessory.ShownIdentifier | src/wled-accessory.ts:256-264 | the identifier published after a frame is the frame's preset if enabled, else the truthy last preset, else the first enabled preset |
| Accessory.ShownIdentifierFallsBackToEnabled | src/wled-accessory.ts:260-264 | with presets enabled and no truthy last preset, the identifier shown is always an enabled preset |
| Accessory.ShownIdentifierOfMatch | src/wled-accessory.ts:256-259 | an enabled frame preset is shown as itself |
| Accessory.Fanout | src/wled-accessory.ts:292-296 | one message goes to every socket, in list order |
| Accessory.Deliveries | src/wled-accessory.ts:292-296 | k messages to n sockets make exactly n * k writes |
| Accessory.DeliveriesAt | src/wled-accessory.ts:292-296 | message m is written to socket j at position m * n + j: every message reaches every socket once, socket by socket, and the messages keep their order |
| Accessory.DeliveriesSnoc | src/wled-accessory.ts:292-296 | sending one more message appends its fan-out to the writes so far |
| Accessory.ReopenedHandlersLandOnOldSockets | src/wled-accessory.ts:271-284 | re-opening n hosts after a close registers no handler set on any newly created socket and one more handler set on each of the first n old sockets |
| Accessory.Wled.constructor | src/wled-accessory.ts:70-134 | the configuration is normalised and the cache takes its initial values; the preset sources are added and one socket is opened per host, with nothing sent |
| Accessory.Wled.SendMessage | src/wled-accessory.ts:292-296 | the message is logged once and written once to every socket, in list order |
| Accessory.Wled.OpenSockets | src/wled-accessory.ts:267-290 | the hosts are appended to the connection list and handler set i is registered on socket i of the whole list |
| Accessory.Wled.SocketClosed | src/wled-accessory.ts:279-284 | each close handler on the closed socket schedules one reconnect |
| Accessory.Wled.ReconnectTimerFired | src/wled-accessory.ts:281-283 | a reconnect re-opens every configured host, appending to the connection list |
| Accessory.Wled.MessageReceived | src/wled-accessory.ts:274-277 | a frame on a socket with handlers leaves the state of one parse; with none, nothing changes |
| Accessory.Wled.SaveColorArrayAsHsv | src/wled-accessory.ts:379-384 | hue and saturation are the floors of the colour's HSV in degrees and percent, and brightness is the largest channel |
| Accessory.Wled.ParsedFrom | src/wled-accessory.ts:246-264 | no contract of its own: the cache and published values a parse of a frame leaves (colour through `RGBtoHSV` and floor, segment count, power, brightness percentage, preset index, Active and ActiveIdentifier); ParseMessage and MessageReceived ensure it |
| Accessory.Wled.ParseMessage | src/wled-accessory.ts:246-265 | the frame's colour, power, brightness percentage and preset index are cached and published; the preset is enabled exactly when its index is non-negative |
| Accessory.Wled.TurnOnWled | src/wled-accessory.ts:355-364 | sends on, publishes brightness 100 and leaves the cached brightness alone |
| Accessory.Wled.TurnOffWled | src/wled-accessory.ts:345-353 | sends off and caches off |
| Accessory.Wled.GetOn | src/wled-accessory.ts:147-149 | answers the cached power state and stores it as the published On |
| Accessory.Wled.SetOn | src/wled-accessory.ts:150-163 | a command is sent only when the value changes the cached power state; the value is then cached and published |
| Accessory.Wled.HttpSetBrightness | src/wled-accessory.ts:327-343 | byte 0 turns the light off; any other byte recomputes the colour and sends the byte |
| Accessory.Wled.GetBrightness | src/wled-accessory.ts:172-174 | answers the cached brightness field as it is (a byte after a SET, a percentage after a frame) and stores it as the published Brightness |
| Accessory.Wled.SetBrightness | src/wled-accessory.ts:175-184 | the percentage is cached as a rounded byte and applied, and the percentage is published |
| Accessory.Wled.CurrentBrightnessToPercent | src/wled-accessory.ts:375-377 | the cached byte as a percentage in 0..100 |
| Accessory.Wled.GetHue | src/wled-accessory.ts:189-197 | answers the cached hue, stores it as the published Hue and caches the recomputed colour, whose largest channel is 255 |
| Accessory.Wled.SetHue | src/wled-accessory.ts:198-199 | schedules one hue timer carrying the value |
| Accessory.Wled.HueTimerFired | src/wled-accessory.ts:199-225 | the earliest pending hue is applied: presets are switched off, the ten-segment colour command is sent and the hue is published |
| Accessory.Wled.PaintColour | src/wled-accessory.ts:204-223 | the colour of the cached hue and saturation is sent as the colour command and cached |
| Accessory.Wled.GetSaturation | src/wled-accessory.ts:233-237 | answers the cached saturation and stores it as the published Saturation, the value the next hue timer reads |
| Accessory.Wled.SetSaturation | src/wled-accessory.ts:238-242 | caches the value and switches presets off; nothing is sent |
| Accessory.Wled.AddPresetsInputSources | src/wled-accessory.ts:298-314 | appends exactly the filtered, labelled input sources, in entry order |
| Accessory.Wled.TurnOffAllPresets | src/wled-accessory.ts:366-373 | unless presets are disabled, publishes Active 0 and remembers the published identifier; the cached preset is untouched |
| Accessory.Wled.PresetActive | src/wled-accessory.ts:120-122 | Active reads true exactly when the last frame's preset is an enabled one, and the answer is stored as the published Active 1 or 0 |
| Accessory.Wled.SetActiveIdentifier | src/wled-accessory.ts:315-324 | sends the preset command and publishes the identifier |
| Accessory.Wled.SetPresetActive | src/wled-accessory.ts:122-132 | on re-selects the last active preset; off remembers the identifier and re-applies the hue (through its timer) and the saturation |

## Left out

- Numbers are exact reals, not IEEE doubles. For example, 255 / 100 * 50 is 127.49999999999999 in doubles and rounds to 127, while the model gives 128.
- `Math.round` is modelled only on the non-negative arguments that occur, plus the -1 of an uncached brightness. Floor(x + 0.5) agrees with it there.
- The WebSocket transport, `JSON.parse` of frames and string formatting of commands are left out. Frames arrive decoded (`StateFrame`) and commands are values (`Command`).
- Socket errors and the open event only log, so they are left out.
- Timer delays and the event loop are left out. Each timer is an event method, and equal-delay timers fire in the order they were set.
- `parseInt` values are unbounded integers. The loss of precision beyond 2^53 is not modelled.
- ParseMessage and MessageReceived require a well-formed frame: a first segment with a first colour, colour channels in 0..255 and a brightness in 0..255. The source reads `state.seg[0].col[0]` without a guard and would throw without a first colour. It neither checks nor rejects the byte ranges; the model takes them from the WLED device protocol.
- Characteristic values are assumed to lie in HomeKit's ranges: on/off, 0..100, 0..360 and 0..100 percent, and Active 0 or 1.
- The framework's own validation of published values is not modelled; a NaN identifier is published as it is.
- The initial published values are taken to be the framework's defaults.
- The single-object argument forms of `HSVtoRGB` and `RGBtoHSV` are dead code here and are left out.
- `segments` starts at 0 instead of an empty array. Only its length is ever stored.
- Logging, debug flags, the effect-speed service, `showEffectControl`, `effectSpeed`, `isOffline`, `presetsAreActive` and `presets` do not affect behaviour and are left out.
- Accessory registration, the UUID, the platform's accessory cache and service creation are left out.
- src/wled-platform.ts is not part of this model. It discovers devices, loads presets and builds one accessory per configured device.
- Color.HsvRoundTrip: proved exactly for colours whose largest channel is 255, with the hue and saturation carried exactly. The accessory stores whole degrees and percent, so its stored colour only comes back approximately; that approximation is not modelled. `HSVtoRGB` has no value input, so a colour with a smaller maximum cannot come back at all.
- Protocol.CctBlueHues: requires saturation of at least 1%. Below that, rounding can make blue equal the minimum.
- Line 202 of the hue timer applies `Number` to a characteristic object rather than to its value. That gives NaN, which the model caches; `turnOffAllPresets` overwrites it unless presets are disabled.
