/**
 * The WLED accessory: its configuration, its cached light state, the
 * characteristic values it publishes to HomeKit, its list of socket
 * connections and the commands it writes to them.
 *
 * Event handlers become methods: a characteristic SET runs the handler and
 * then publishes the value (as the accessory framework does once the
 * handler calls back), the 100 ms hue timer and the 300 ms reconnect timer
 * are separate "fired" methods, and a frame arriving on a socket runs the
 * message handlers registered on that socket.
 */
module Accessory {
  import opened Color
  import opened JsValues
  import opened Protocol
  import opened Presets

  // ---------------------------------------------------------------------------
  // Configuration

  /** The `host` entry of the configuration: a single host string, or an array of them. */
  datatype HostConfig = Single(h: string) | Hosts(hs: seq<string>)

  /** The configuration entries the accessory reads; `None` stands for an absent entry. */
  datatype Config = Config(name: Option<string>, presets: Option<seq<int>>, host: HostConfig)

  /** `config.name || 'WLED'`: an absent or empty name falls back to "WLED". */
  function ConfiguredName(name: Option<string>): (r: string)
    ensures r != ""
    ensures name.Some? && name.value != "" ==> r == name.value
    ensures name.None? || name.value == "" ==> r == "WLED"
  {
    if name.Some? && name.value != "" then name.value else "WLED"
  }

  /**
   * `config.presets ? config.presets[0] : 0`: with no preset list the last
   * active preset is 0; an empty list is truthy and yields its missing first
   * element, a value that is not a number.
   */
  function InitialLastActivePreset(presets: Option<seq<int>>): (r: Num)
    ensures presets.None? ==> r == Int(0)
    ensures presets.Some? && |presets.value| > 0 ==> r == Int(presets.value[0])
    ensures presets == Some([]) ==> r == NaN
  {
    match presets
    case None => Int(0)
    case Some(ps) => if |ps| > 0 then Int(ps[0]) else NaN
  }

  /**
   * The stored host list, as the strings the reconnect handler puts into
   * its URLs: an array of more than one host is kept, anything else is
   * wrapped into a one-element list (an array `[h]` spells `h`, an empty
   * array spells the empty string).
   */
  function ConfiguredHosts(host: HostConfig): (hs: seq<string>)
    ensures |hs| >= 1
    ensures host.Hosts? && |host.hs| > 1 ==> hs == host.hs
    ensures host.Single? ==> hs == [host.h]
    ensures host.Hosts? && |host.hs| == 1 ==> hs == host.hs
    ensures host == Hosts([]) ==> hs == [""]
  {
    match host
    case Single(h) => [h]
    case Hosts(hosts) => if |hosts| > 0 then hosts else [""]
  }

  /** `host instanceof Array && host.length > 1`. */
  function MultipleHosts(host: HostConfig): (multiple: bool)
    ensures multiple <==> |ConfiguredHosts(host)| > 1
  {
    host.Hosts? && |host.hs| > 1
  }

  /** The hosts the constructor opens: an array as it is, a single host wrapped into a list. */
  function OpenedHosts(host: HostConfig): (hs: seq<string>)
    ensures host.Single? ==> hs == [host.h]
    ensures host.Hosts? ==> hs == host.hs
  {
    match host
    case Single(h) => [h]
    case Hosts(hosts) => hosts
  }

  /**
   * The hosts opened at start-up and the hosts re-opened after a close
   * agree for every configuration except the empty host array, which opens
   * nothing at start-up and one connection to the empty host on reconnect.
   */
  lemma ReconnectOpensConfiguredHosts(host: HostConfig)
    ensures OpenedHosts(host) == ConfiguredHosts(host) <==> host != Hosts([])
  {
    if host == Hosts([]) {
      assert |OpenedHosts(host)| == 0;
    }
  }

  // ---------------------------------------------------------------------------
  // Published characteristic values

  /** The characteristic values the accessory has published to HomeKit. */
  datatype Published = Published(
    on: bool,            // Lightbulb On
    brightness: int,     // Lightbulb Brightness (percent)
    hue: real,           // Lightbulb Hue (degrees)
    saturation: real,    // Lightbulb Saturation (percent)
    active: int,         // Television Active (0 or 1)
    activeIdentifier: Num)  // Television ActiveIdentifier

  /** The values before anything is published: each characteristic's default. */
  const InitialPublished := Published(false, 0, 0.0, 0.0, 0, Int(0))

  /**
   * The identifier published with a parsed frame: the frame's preset when it
   * is an enabled one, otherwise the last active preset if it is truthy,
   * otherwise the first enabled preset (not a number when there is none).
   */
  function ShownIdentifier(preset: int, ps: int, lastActivePreset: Num, enabledPresets: seq<int>): (id: Num)
    ensures preset >= 0 ==> id == Int(ps)
    ensures preset < 0 && Truthy(lastActivePreset) ==> id == lastActivePreset
    ensures preset < 0 && !Truthy(lastActivePreset) && |enabledPresets| > 0 ==> id == Int(enabledPresets[0])
    ensures preset < 0 && !Truthy(lastActivePreset) && |enabledPresets| == 0 ==> id == NaN
  {
    if preset >= 0 then Int(ps)
    else if Truthy(lastActivePreset) then lastActivePreset
    else if |enabledPresets| > 0 then Int(enabledPresets[0])
    else NaN
  }

  /**
   * When the frame's preset is not enabled and no last preset is remembered,
   * the identifier shown is an enabled preset whenever one exists.
   */
  lemma ShownIdentifierFallsBackToEnabled(ps: int, lastActivePreset: Num, enabledPresets: seq<int>)
    requires |enabledPresets| > 0 && !Truthy(lastActivePreset)
    ensures var id := ShownIdentifier(IndexOf(enabledPresets, ps), ps, lastActivePreset, enabledPresets);
      id.Int? && id.n in enabledPresets
  {
  }

  /** A shown frame preset is always one of the enabled presets. */
  lemma ShownIdentifierOfMatch(ps: int, lastActivePreset: Num, enabledPresets: seq<int>)
    requires ps in enabledPresets
    ensures ShownIdentifier(IndexOf(enabledPresets, ps), ps, lastActivePreset, enabledPresets) == Int(ps)
  {
  }

  // ---------------------------------------------------------------------------
  // Fan-out of a message to the connection list

  /** One delivery of cmd to every entry of the connection list, in list order. */
  function Fanout(ws: seq<string>, cmd: Command): (ds: seq<Delivery>)
    ensures |ds| == |ws|
    ensures forall i :: 0 <= i < |ds| ==> ds[i] == Delivery(i, ws[i], cmd)
  {
    seq(|ws|, i requires 0 <= i < |ws| => Delivery(i, ws[i], cmd))
  }

  /** The deliveries of a sequence of messages, message by message. */
  function Deliveries(ws: seq<string>, cmds: seq<Command>): (ds: seq<Delivery>)
    ensures |ds| == |ws| * |cmds|
  {
    if |cmds| == 0 then []
    else Deliveries(ws, cmds[..|cmds| - 1]) + Fanout(ws, cmds[|cmds| - 1])
  }

  /** The sockets a sequence of deliveries goes to. */
  function Sockets(ds: seq<Delivery>): (ks: seq<nat>)
    ensures |ks| == |ds|
  {
    seq(|ds|, i requires 0 <= i < |ds| => ds[i].socket)
  }

  /** The indices 0, 1, ..., n - 1, in order. */
  function Indices(n: nat): (r: seq<nat>)
    ensures |r| == n && forall i :: 0 <= i < n ==> r[i] == i
  {
    seq(n, i => i)
  }

  /** Sending one more message appends its fan-out to the deliveries so far. */
  lemma DeliveriesSnoc(ws: seq<string>, cmds: seq<Command>, cmd: Command)
    ensures Deliveries(ws, cmds + [cmd]) == Deliveries(ws, cmds) + Fanout(ws, cmd)
  {
    assert (cmds + [cmd])[..|cmds|] == cmds;
  }

  /** Message m reaches socket j at position m * |ws| + j: every message is
      written once to every socket, and the messages keep their order. */
  lemma {:induction false} DeliveriesAt(ws: seq<string>, cmds: seq<Command>, m: nat, j: nat)
    requires m < |cmds| && j < |ws|
    ensures m * |ws| + j < |Deliveries(ws, cmds)|
    ensures Deliveries(ws, cmds)[m * |ws| + j] == Delivery(j, ws[j], cmds[m])
  {
    var n := |cmds| - 1;
    var init := cmds[..n];
    assert Deliveries(ws, cmds) == Deliveries(ws, init) + Fanout(ws, cmds[n]);
    assert |Deliveries(ws, init)| == n * |ws|;
    if m < n {
      MulMonotone(m + 1, n, |ws|);
      DeliveriesAt(ws, init, m, j);
      assert init[m] == cmds[m];
    } else {
      assert m * |ws| + j == n * |ws| + j;
    }
  }

  lemma MulMonotone(a: nat, b: nat, c: nat)
    requires a <= b
    ensures a * c <= b * c
  {
  }

  /** Re-opening after a close registers handler set i on socket i of the whole
      list, not on the socket just created: no new socket gets a handler set, and
      each of the first n sockets gains one more. */
  lemma {:induction false} ReopenedHandlersLandOnOldSockets(listeners: seq<nat>, oldSockets: nat, n: nat, k: nat)
    requires forall i :: 0 <= i < |listeners| ==> listeners[i] < oldSockets
    requires n <= oldSockets
    ensures oldSockets <= k ==> multiset(listeners + Indices(n))[k] == 0
    ensures k < n ==> multiset(listeners + Indices(n))[k] == multiset(listeners)[k] + 1
  {
    IndicesCount(n, k);
    if oldSockets <= k {
      assert k !in listeners;
    }
  }

  lemma {:induction false} IndicesCount(n: nat, k: nat)
    ensures multiset(Indices(n))[k] == if k < n then 1 else 0
  {
    if n > 0 {
      assert Indices(n) == Indices(n - 1) + [n - 1];
      IndicesCount(n - 1, k);
    }
  }

  // ---------------------------------------------------------------------------
  // The accessory

  class Wled {
    // Configuration, fixed by the constructor
    const name: string
    const host: seq<string>
    const multipleHosts: bool
    const disablePresetsSwitch: bool
    const enabledPresets: seq<int>

    // Cached light state
    var on: bool
    var brightness: int
    var hue: real
    var saturation: real
    var colorArray: Rgb
    var preset: int
    var lastActivePreset: Num
    var segments: int

    // Characteristic values published to HomeKit
    var published: Published

    // Connections: the host of each socket, in creation order, and the socket
    // index of each registered handler set (message and close handlers), in
    // registration order
    var ws: seq<string>
    var listeners: seq<nat>

    // Timers waiting to fire: reconnects, and the values of pending hue sets in order
    var pendingReconnects: nat
    var pendingHue: seq<real>

    // Every message passed to sendMessage, and every write to a socket
    var messages: seq<Command>
    var sent: seq<Delivery>

    // The preset input sources added to the Television service
    var inputSources: seq<InputSource>

    /** The cached colour is a valid hue/saturation pair and a device colour. */
    ghost predicate ColourValid()
      reads this`hue, this`saturation, this`colorArray
    {
      ValidHs(hue, saturation) && colorArray.InRange()
    }

    /** The published hue and saturation are in HomeKit's ranges. */
    ghost predicate PublishedValid()
      reads this`published
    {
      ValidHs(published.hue, published.saturation)
    }

    /** The cached brightness is a byte or -1, the cached preset an index into the enabled presets or -1. */
    ghost predicate CacheValid()
      reads this`brightness, this`preset
    {
      && -1 <= brightness <= 255
      && -1 <= preset < |enabledPresets|
      && (disablePresetsSwitch ==> enabledPresets == [])
    }

    /** Every handler set is registered on an existing socket. */
    ghost predicate SocketsValid()
      reads this`ws, this`listeners
    {
      forall j :: 0 <= j < |listeners| ==> listeners[j] < |ws|
    }

    /** Every pending hue is a hue. */
    ghost predicate TimersValid()
      reads this`pendingHue
    {
      forall j :: 0 <= j < |pendingHue| ==> 0.0 <= pendingHue[j] <= 360.0
    }

    /** The invariant every handler keeps. */
    ghost predicate Valid()
      reads this
    {
      ColourValid() && PublishedValid() && CacheValid() && SocketsValid() && TimersValid()
    }

    /** The messages sent since (oldMessages, oldSent) are cmds, each written once to every socket. */
    ghost predicate Logged(oldMessages: seq<Command>, oldSent: seq<Delivery>, cmds: seq<Command>)
      reads this
    {
      messages == oldMessages + cmds && sent == oldSent + Deliveries(ws, cmds)
    }

    /**
     * Builds the accessory from its configuration and the presets loaded
     * from the device, adds the preset input sources and opens one
     * connection per configured host.
     */
    constructor (cfg: Config, loadedPresets: seq<PresetEntry>)
      ensures Valid()
      ensures name == ConfiguredName(cfg.name)
      ensures disablePresetsSwitch <==> cfg.presets.None?
      ensures enabledPresets == cfg.presets.GetOr([])
      ensures lastActivePreset == InitialLastActivePreset(cfg.presets)
      ensures host == ConfiguredHosts(cfg.host) && multipleHosts == MultipleHosts(cfg.host)
      ensures on == false && brightness == -1 && hue == 100.0 && saturation == 100.0
      ensures colorArray == Rgb(255, 0, 0) && preset == -1 && segments == 0
      ensures published == InitialPublished
      ensures inputSources == PresetInputSources(loadedPresets, enabledPresets)
      ensures ws == OpenedHosts(cfg.host) && listeners == Indices(|ws|)
      ensures pendingReconnects == 0 && pendingHue == []
      ensures messages == [] && sent == []
    {
      name := ConfiguredName(cfg.name);
      disablePresetsSwitch := cfg.presets.None?;
      lastActivePreset := InitialLastActivePreset(cfg.presets);
      enabledPresets := cfg.presets.GetOr([]);
      host := ConfiguredHosts(cfg.host);
      multipleHosts := MultipleHosts(cfg.host);
      on := false;
      brightness := -1;
      hue := 100.0;
      saturation := 100.0;
      colorArray := Rgb(255, 0, 0);
      preset := -1;
      segments := 0;
      published := InitialPublished;
      ws := [];
      listeners := [];
      pendingReconnects := 0;
      pendingHue := [];
      messages := [];
      sent := [];
      inputSources := [];
      new;
      AddPresetsInputSources(loadedPresets);
      OpenSockets(OpenedHosts(cfg.host));
    }

    // -------------------------------------------------------------------------
    // Connections

    /** Writes cmd to every socket, in list order. */
    method SendMessage(cmd: Command)
      modifies this`messages, this`sent
      ensures Logged(old(messages), old(sent), [cmd])
      ensures sent == old(sent) + Fanout(ws, cmd)
      ensures Sockets(sent[|old(sent)|..]) == Indices(|ws|)
    {
      messages := messages + [cmd];
      var i := 0;
      while i < |ws|
        invariant 0 <= i <= |ws|
        invariant messages == old(messages) + [cmd]
        invariant sent == old(sent) + Fanout(ws, cmd)[..i]
      {
        sent := sent + [Delivery(i, ws[i], cmd)];
        i := i + 1;
      }
      assert Fanout(ws, cmd)[..i] == Fanout(ws, cmd);
      assert sent[|old(sent)|..] == Fanout(ws, cmd);
      DeliveriesSnoc(ws, [], cmd);
    }

    /**
     * Opens one socket per host, appending it to the connection list; the
     * handlers of the i-th host are registered on `ws[i]`, the i-th entry of
     * the whole list, which is the new socket only while the list was empty.
     */
    method OpenSockets(hosts: seq<string>)
      requires SocketsValid()
      modifies this`ws, this`listeners
      ensures SocketsValid()
      ensures ws == old(ws) + hosts
      ensures listeners == old(listeners) + Indices(|hosts|)
    {
      var i := 0;
      while i < |hosts|
        invariant 0 <= i <= |hosts|
        invariant ws == old(ws) + hosts[..i]
        invariant listeners == old(listeners) + Indices(i)
        invariant SocketsValid()
      {
        assert hosts[..i + 1] == hosts[..i] + [hosts[i]];
        assert Indices(i + 1) == Indices(i) + [i];
        ws := ws + [hosts[i]];
        listeners := listeners + [i];
        i := i + 1;
      }
      assert hosts[..i] == hosts;
    }

    /** Socket k closed: each close handler registered on it schedules one reconnect. */
    method SocketClosed(k: nat)
      requires Valid() && k < |ws|
      modifies this`pendingReconnects
      ensures Valid()
      ensures pendingReconnects == old(pendingReconnects) + multiset(listeners)[k]
    {
      pendingReconnects := pendingReconnects + multiset(listeners)[k];
    }

    /** A reconnect timer fired: every configured host is opened again, whichever socket closed. */
    method ReconnectTimerFired()
      requires Valid() && pendingReconnects > 0
      modifies this`pendingReconnects, this`ws, this`listeners
      ensures Valid()
      ensures pendingReconnects == old(pendingReconnects) - 1
      ensures ws == old(ws) + host
      ensures listeners == old(listeners) + Indices(|host|)
    {
      pendingReconnects := pendingReconnects - 1;
      OpenSockets(host);
    }

    /**
     * A frame arrived on socket k: each message handler registered on that
     * socket parses it. Parsing is idempotent, so any positive number of
     * handlers leaves the state of a single parse.
     */
    method MessageReceived(k: nat, frame: StateFrame)
      requires Valid() && k < |ws| && WellFormed(frame)
      modifies this`hue, this`saturation, this`brightness, this`segments, this`on, this`preset, this`published
      ensures Valid()
      ensures multiset(listeners)[k] > 0 ==> ParsedFrom(frame)
      ensures multiset(listeners)[k] == 0 ==>
        && hue == old(hue) && saturation == old(saturation) && brightness == old(brightness)
        && segments == old(segments) && on == old(on) && preset == old(preset) && published == old(published)
    {
      var handlers := multiset(listeners)[k];
      var i := 0;
      while i < handlers
        invariant 0 <= i <= handlers
        invariant Valid()
        invariant i > 0 ==> ParsedFrom(frame)
        invariant i == 0 ==>
          && hue == old(hue) && saturation == old(saturation) && brightness == old(brightness)
          && segments == old(segments) && on == old(on) && preset == old(preset) && published == old(published)
      {
        ParseMessage(frame);
        i := i + 1;
      }
    }

    // -------------------------------------------------------------------------
    // Inbound state

    /** The colour's hue, saturation and value, stored as whole degrees, percent and a byte. */
    method SaveColorArrayAsHsv(c: Rgb)
      requires Valid() && c.InRange()
      modifies this`hue, this`saturation, this`brightness
      ensures Valid()
      ensures var hsv := RgbToHsv(c.r, c.g, c.b);
        && hue == Floor(hsv.h * 360.0) as real
        && saturation == Floor(hsv.s * 100.0) as real
      ensures 0.0 <= hue <= 359.0 && 0.0 <= saturation <= 100.0
      ensures brightness == Max3(c.r, c.g, c.b)
    {
      var hsv := RgbToHsv(c.r, c.g, c.b);
      HsvFloors(c);
      hue := Floor(hsv.h * 360.0) as real;
      saturation := Floor(hsv.s * 100.0) as real;
      brightness := Floor(hsv.v * 255.0);
    }

    /** The state a parse of frame leaves, given the enabled presets and the last active preset. */
    ghost predicate ParsedFrom(frame: StateFrame)
      requires WellFormed(frame)
      reads this
    {
      var c := FrameColor(frame);
      var hsv := RgbToHsv(c.r, c.g, c.b);
      && hue == Floor(hsv.h * 360.0) as real
      && saturation == Floor(hsv.s * 100.0) as real
      && segments == |frame.seg|
      && on == frame.on
      && brightness == ByteToPercent(frame.bri)
      && preset == IndexOf(enabledPresets, frame.ps)
      && published == Published(on, brightness, hue, saturation,
                                if preset >= 0 then 1 else 0,
                                ShownIdentifier(preset, frame.ps, lastActivePreset, enabledPresets))
    }

    /**
     * Takes in a state frame: caches colour, power, brightness (as a
     * percentage) and the index of the frame's preset among the enabled
     * ones, and publishes them.
     */
    method ParseMessage(frame: StateFrame)
      requires Valid() && WellFormed(frame)
      modifies this`hue, this`saturation, this`brightness, this`segments, this`on, this`preset, this`published
      ensures Valid()
      ensures ParsedFrom(frame)
      ensures 0.0 <= hue <= 359.0 && 0 <= brightness <= 100
      ensures preset >= 0 <==> frame.ps in enabledPresets
      ensures preset >= 0 ==> enabledPresets[preset] == frame.ps
    {
      SaveColorArrayAsHsv(FrameColor(frame));
      segments := |frame.seg|;
      on := frame.on;
      brightness := ByteToPercent(frame.bri);
      preset := IndexOf(enabledPresets, frame.ps);
      published := published.(on := on, brightness := brightness, saturation := saturation, hue := hue);
      if preset >= 0 {
        published := published.(active := 1, activeIdentifier := Int(frame.ps));
      } else {
        var id := if Truthy(lastActivePreset) then lastActivePreset
          else if |enabledPresets| > 0 then Int(enabledPresets[0]) else NaN;
        published := published.(active := 0, activeIdentifier := id);
      }
    }

    // -------------------------------------------------------------------------
    // Power and brightness

    /** Sends the on command, publishes Brightness 100 and caches on; the cached brightness is left alone. */
    method TurnOnWled()
      modifies this`messages, this`sent, this`published, this`on
      ensures Logged(old(messages), old(sent), [On(true)])
      ensures published == old(published).(brightness := 100)
      ensures on
    {
      SendMessage(On(true));
      published := published.(brightness := 100);
      on := true;
    }

    /** Sends the off command and caches off. */
    method TurnOffWled()
      modifies this`messages, this`sent, this`on
      ensures Logged(old(messages), old(sent), [On(false)])
      ensures !on
    {
      SendMessage(On(false));
      on := false;
    }

    /** GET On: answers the cached power state, which the framework stores as the characteristic's value. */
    method GetOn() returns (r: bool)
      requires Valid()
      modifies this`published
      ensures Valid()
      ensures r == on && published == old(published).(on := on)
    {
      r := on;
      published := published.(on := r);
    }

    /** SET On: a command only when the value changes the cached power state. */
    method SetOn(value: bool)
      requires Valid()
      modifies this`messages, this`sent, this`published, this`on
      ensures Valid()
      ensures on == value
      ensures value && !old(on) ==>
        Logged(old(messages), old(sent), [On(true)]) && published == old(published).(on := value, brightness := 100)
      ensures !value && old(on) ==>
        Logged(old(messages), old(sent), [On(false)]) && published == old(published).(on := value)
      ensures value == old(on) ==>
        Logged(old(messages), old(sent), []) && published == old(published).(on := value)
    {
      if value && !on {
        TurnOnWled();
      } else if !value && on {
        TurnOffWled();
      }
      on := value;
      published := published.(on := value);
    }

    /** With the brightness byte cached: off when it is 0, otherwise the colour is recomputed and the byte sent. */
    method HttpSetBrightness()
      requires Valid()
      modifies this`messages, this`sent, this`on, this`colorArray
      ensures Valid()
      ensures brightness == 0 ==>
        Logged(old(messages), old(sent), [On(false)]) && !on && colorArray == old(colorArray)
      ensures brightness != 0 ==>
        && Logged(old(messages), old(sent), [Bri(brightness)]) && on == old(on)
        && colorArray == HsvToRgb(hue, saturation)
    {
      if brightness == 0 {
        TurnOffWled();
        return;
      }
      var c := HsvToRgb(hue, saturation);
      HsvToRgbChannels(hue, saturation);
      colorArray := c;
      SendMessage(Bri(brightness));
    }

    /**
     * GET Brightness: answers the cached brightness field as it is (a byte
     * after a SET, a percentage after a frame, -1 before either), and the
     * framework stores it as the characteristic's value.
     */
    method GetBrightness() returns (r: int)
      requires Valid()
      modifies this`published
      ensures Valid()
      ensures r == brightness && published == old(published).(brightness := brightness)
    {
      r := brightness;
      published := published.(brightness := r);
    }

    /** SET Brightness: caches the percentage as a byte (rounded) and applies it. */
    method SetBrightness(value: int)
      requires Valid() && 0 <= value <= 100
      modifies this`brightness, this`messages, this`sent, this`on, this`colorArray, this`published
      ensures Valid()
      ensures brightness == PercentToByte(value)
      ensures value == 0 ==>
        Logged(old(messages), old(sent), [On(false)]) && !on && colorArray == old(colorArray)
      ensures value != 0 ==>
        && Logged(old(messages), old(sent), [Bri(brightness)]) && on == old(on)
        && colorArray == HsvToRgb(hue, saturation)
      ensures published == old(published).(brightness := value)
    {
      brightness := PercentToByte(value);
      HttpSetBrightness();
      published := published.(brightness := value);
    }

    /** The cached brightness byte as a percentage (0 while nothing is cached). */
    function CurrentBrightnessToPercent(): (p: int)
      requires Valid()
      reads this
      ensures 0 <= p <= 100
      ensures brightness >= 0 ==> p == ByteToPercent(brightness)
    {
      Round(100.0 / 255.0 * brightness as real)
    }

    // -------------------------------------------------------------------------
    // Colour

    /**
     * GET Hue: recomputes the colour from the cached hue and saturation and
     * answers the hue, which the framework stores as the characteristic's value.
     */
    method GetHue() returns (r: real)
      requires Valid()
      modifies this`colorArray, this`published
      ensures Valid()
      ensures r == hue && colorArray == HsvToRgb(hue, saturation)
      ensures Max3(colorArray.r, colorArray.g, colorArray.b) == 255
      ensures published == old(published).(hue := hue)
    {
      HsvToRgbChannels(hue, saturation);
      colorArray := HsvToRgb(hue, saturation);
      r := hue;
      published := published.(hue := r);
    }

    /** SET Hue: schedules the 100 ms timer that applies the value. */
    method SetHue(value: real)
      requires Valid() && 0.0 <= value <= 360.0
      modifies this`pendingHue
      ensures Valid()
      ensures pendingHue == old(pendingHue) + [value]
    {
      pendingHue := pendingHue + [value];
    }

    /**
     * The earliest pending hue timer fires: hue and the published saturation
     * are cached, presets are switched off, the colour is painted on all ten
     * segments with the CCT workaround, and the hue is published.
     */
    method HueTimerFired()
      requires Valid() && |pendingHue| > 0
      modifies this`pendingHue, this`saturation, this`hue, this`lastActivePreset, this`published,
        this`colorArray, this`messages, this`sent
      ensures Valid()
      ensures pendingHue == old(pendingHue[1..])
      ensures hue == old(pendingHue[0]) && saturation == old(published.saturation)
      ensures colorArray == HsvToRgb(hue, saturation)
      ensures Logged(old(messages), old(sent), [ColorCommand(colorArray)])
      ensures !disablePresetsSwitch ==>
        && published == old(published).(active := 0, hue := hue)
        && lastActivePreset == old(published.activeIdentifier)
      ensures disablePresetsSwitch ==>
        published == old(published).(hue := hue) && lastActivePreset == NaN
    {
      var value := pendingHue[0];
      pendingHue := pendingHue[1..];
      saturation := published.saturation;
      hue := value;
      lastActivePreset := NaN;
      TurnOffAllPresets();
      PaintColour();
      published := published.(hue := value);
    }

    /**
     * Paints the cached hue and saturation on all ten segments, with the CCT
     * workaround, and caches the colour.
     */
    method PaintColour()
      requires ColourValid()
      modifies this`colorArray, this`messages, this`sent
      ensures ColourValid()
      ensures colorArray == HsvToRgb(hue, saturation)
      ensures Logged(old(messages), old(sent), [ColorCommand(colorArray)])
    {
      var c := HsvToRgb(hue, saturation);
      HsvToRgbChannels(hue, saturation);
      SendMessage(ColorCommand(c));
      colorArray := c;
    }

    /**
     * GET Saturation: answers the cached saturation, which the framework
     * stores as the characteristic's value; the next hue timer reads it from there.
     */
    method GetSaturation() returns (r: real)
      requires Valid()
      modifies this`published
      ensures Valid()
      ensures r == saturation && published == old(published).(saturation := saturation)
    {
      r := saturation;
      published := published.(saturation := r);
    }

    /** SET Saturation: caches the value and switches presets off; nothing is sent. */
    method SetSaturation(value: real)
      requires Valid() && 0.0 <= value <= 100.0
      modifies this`saturation, this`published, this`lastActivePreset
      ensures Valid()
      ensures saturation == value
      ensures !disablePresetsSwitch ==>
        && published == old(published).(active := 0, saturation := value)
        && lastActivePreset == old(published.activeIdentifier)
      ensures disablePresetsSwitch ==>
        published == old(published).(saturation := value) && lastActivePreset == old(lastActivePreset)
    {
      saturation := value;
      TurnOffAllPresets();
      published := published.(saturation := value);
    }

    // -------------------------------------------------------------------------
    // Presets

    /** Adds an input source for every loaded preset whose key is an enabled preset, in order. */
    method AddPresetsInputSources(entries: seq<PresetEntry>)
      modifies this`inputSources
      ensures inputSources == old(inputSources) + PresetInputSources(entries, enabledPresets)
    {
      var i := 0;
      while i < |entries|
        invariant 0 <= i <= |entries|
        invariant inputSources == old(inputSources) + PresetInputSources(entries[..i], enabledPresets)
      {
        PresetInputSourcesStep(entries, i, enabledPresets);
        if IsEnabled(entries[i].key, enabledPresets) {
          inputSources := inputSources + [SourceOf(entries[i])];
        }
        i := i + 1;
      }
      assert entries[..i] == entries;
    }

    /** Publishes Active 0 and remembers the published identifier, unless the presets switch is disabled. */
    method TurnOffAllPresets()
      modifies this`published, this`lastActivePreset
      ensures !disablePresetsSwitch ==>
        published == old(published).(active := 0) && lastActivePreset == old(published.activeIdentifier)
      ensures disablePresetsSwitch ==>
        published == old(published) && lastActivePreset == old(lastActivePreset)
    {
      if !disablePresetsSwitch {
        published := published.(active := 0);
        lastActivePreset := published.activeIdentifier;
      }
    }

    /**
     * GET Active: a preset is active when the last frame's preset is an
     * enabled one; the framework stores the answer as Active 1 or 0.
     */
    method PresetActive() returns (active: bool)
      requires Valid()
      modifies this`published
      ensures Valid()
      ensures active <==> 0 <= preset < |enabledPresets|
      ensures published == old(published).(active := if active then 1 else 0)
    {
      active := preset >= 0;
      published := published.(active := if active then 1 else 0);
    }

    /** SET ActiveIdentifier: sends the preset command and publishes the identifier. */
    method SetActiveIdentifier(id: Num)
      requires Valid()
      modifies this`messages, this`sent, this`published
      ensures Valid()
      ensures Logged(old(messages), old(sent), [Ps(id)])
      ensures published == old(published).(activeIdentifier := id)
      ensures preset == old(preset) && lastActivePreset == old(lastActivePreset)
    {
      SendMessage(Ps(id));
      published := published.(activeIdentifier := id);
    }

    /**
     * SET Active: switching on re-selects the last active preset; switching
     * off remembers the published identifier and re-applies the cached hue
     * and saturation (the hue through its timer).
     */
    method SetPresetActive(value: int)
      requires Valid() && 0 <= value <= 1
      modifies this`messages, this`sent, this`published, this`lastActivePreset, this`pendingHue, this`saturation
      ensures Valid()
      ensures value == 1 ==>
        && Logged(old(messages), old(sent), [Ps(old(lastActivePreset))])
        && published == old(published).(activeIdentifier := old(lastActivePreset), active := 1)
        && lastActivePreset == old(lastActivePreset) && pendingHue == old(pendingHue)
      ensures value == 0 ==>
        && Logged(old(messages), old(sent), [])
        && published == old(published).(saturation := old(saturation), active := 0)
        && lastActivePreset == old(published.activeIdentifier)
        && pendingHue == old(pendingHue) + [old(hue)]
      ensures saturation == old(saturation)
    {
      if value != 0 {
        SetActiveIdentifier(lastActivePreset);
      } else {
        lastActivePreset := published.activeIdentifier;
        SetHue(hue);
        SetSaturation(saturation);
      }
      published := published.(active := value);
    }
  }
}
