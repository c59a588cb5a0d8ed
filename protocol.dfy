/**
 * The device's JSON control protocol as values: the outbound commands the
 * accessory sends, the inbound state frame it parses, and the blue/CCT
 * workaround applied to the colour command.
 */
module Protocol {
  import opened Color
  import opened JsValues

  /** One entry of the `seg` array of the colour command: colour, effect index and colour temperature. */
  datatype Segment = Segment(col: Rgb, fx: int, cct: int)

  /** The outbound commands, one constructor per JSON object the accessory sends. */
  datatype Command =
    | On(on: bool)         // {"on": ...}
    | Bri(bri: int)        // {"bri": ...}
    | Ps(ps: Num)          // {"ps": ...}
    | Seg(seg: seq<Segment>)  // {"seg": [...]}

  /** The number of identical segment entries the colour command paints. */
  const SegmentCount: nat := 10

  /** The colour with its white overlap (the smallest channel) taken out of every channel. */
  function RemoveWhiteOverlap(c: Rgb): (raw: Rgb)
    ensures Min3(raw.r, raw.g, raw.b) == 0
    ensures raw.r >= 0 && raw.g >= 0 && raw.b >= 0
    ensures raw.r - raw.g == c.r - c.g && raw.g - raw.b == c.g - c.b
  {
    var lowest := Min3(c.r, c.g, c.b);
    Rgb(c.r - lowest, c.g - lowest, c.b - lowest)
  }

  /**
   * The colour temperature sent with a colour: the coolest value (255) when
   * blue is left after removing the white overlap, the default (0) otherwise.
   */
  function Cct(c: Rgb): (cct: int)
    ensures cct == 255 <==> c.b > Min3(c.r, c.g, c.b)
    ensures cct == 0 <==> c.b == Min3(c.r, c.g, c.b)
  {
    if RemoveWhiteOverlap(c).b > 0 then 255 else 0
  }

  /** The colour command: the same segment entry, with effect 0, for every one of the segments. */
  function ColorCommand(c: Rgb): (cmd: Command)
    ensures cmd.Seg? && |cmd.seg| == SegmentCount
    ensures forall i :: 0 <= i < |cmd.seg| ==> cmd.seg[i] == Segment(c, 0, Cct(c))
  {
    Seg(seq(SegmentCount, _ => Segment(c, 0, Cct(c))))
  }

  /** Hues from red to just below green (sectors 0 and 1) never ask for a cool CCT: blue is the minimum there. */
  lemma CctWarmHues(h: real, s: real)
    requires ValidHs(h, s) && h < 120.0
    ensures Cct(HsvToRgb(h, s)) == 0
  {
    HsvToRgbBlueIsMin(h, s);
  }

  /** Hues from cyan to just below magenta (sectors 3 and 4) ask for the coolest CCT once saturation reaches 1%. */
  lemma CctBlueHues(h: real, s: real)
    requires ValidHs(h, s) && 180.0 <= h < 300.0 && 1.0 <= s
    ensures Cct(HsvToRgb(h, s)) == 255
  {
    HsvToRgbChannels(h, s);
    HsvToRgbBlueIsFull(h, s);
    RoundMonotone(255.0 * (1.0 - s / 100.0), 252.45);
    assert Round(252.45) == 252;
  }

  /** Blue at full saturation gets CCT 255, red gets 0. */
  lemma CctPrimaries()
    ensures Cct(HsvToRgb(240.0, 100.0)) == 255
    ensures Cct(HsvToRgb(0.0, 100.0)) == 0
  {
    HsvToRgbPrimaries();
  }

  // ---------------------------------------------------------------------------
  // Inbound state frames

  /** One entry of the frame's `seg` array; only its `col` list is read. */
  datatype FrameSegment = FrameSegment(col: seq<Rgb>)

  /** The `state` object of a device push frame, already decoded. */
  datatype StateFrame = StateFrame(on: bool, bri: int, ps: int, seg: seq<FrameSegment>)

  /** A frame the parser can read: a first segment with a first colour, bytes in range. */
  predicate WellFormed(f: StateFrame) {
    && |f.seg| > 0
    && |f.seg[0].col| > 0
    && f.seg[0].col[0].InRange()
    && 0 <= f.bri <= 255
  }

  /** The colour the parser reads: the first colour of the first segment. */
  function FrameColor(f: StateFrame): (c: Rgb)
    requires WellFormed(f)
    ensures c.InRange()
  {
    f.seg[0].col[0]
  }

  // ---------------------------------------------------------------------------
  // Deliveries

  /** One message written to one entry of the connection list. */
  datatype Delivery = Delivery(socket: nat, host: string, cmd: Command)
}
