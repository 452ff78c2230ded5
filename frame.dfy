/** The byte-level protocol of the SHT3x sensor: 16-bit words sent and
    received high byte first, the 6-byte measurement reply with one CRC-8
    check byte after each data word, and the conversion of the raw codes
    to degrees Celsius and percent relative humidity. */
module Frame {
  import opened Checksum

  datatype Option<T> = None | Some(value: T)

  /** The two raw codes of one measurement: ST (temperature) and SRH
      (relative humidity). */
  datatype RawReading = RawReading(st: bv16, srh: bv16)

  /** A reading as the driver reports it; `None` stands for NAN. */
  datatype Reading = Reading(temperature: Option<real>, humidity: Option<real>)

  /** The length of a measurement reply: two words, each with a check byte. */
  const FrameLength: nat := 6

  /** Shifting the high byte up and ORing in the low byte computes
      `hi * 256 + lo`. */
  lemma ShiftOrValue(hi: bv8, lo: bv8)
    ensures ((hi as bv16 << 8) | lo as bv16) as int == hi as int * 256 + lo as int
  {
  }

  /** A word assembled from its high and low byte: load the high byte,
      shift it left by eight, OR in the low byte. */
  function Word(hi: bv8, lo: bv8): (w: bv16)
    ensures w as int == hi as int * 256 + lo as int
  {
    ShiftOrValue(hi, lo);
    (hi as bv16 << 8) | lo as bv16
  }

  /** The bytes of a word in the order they go on the wire: `w >> 8`, then
      `w & 0xFF`. */
  function WordBytes(w: bv16): (r: seq<bv8>)
    ensures |r| == 2 && Word(r[0], r[1]) == w
    ensures r[0] as int * 256 + r[1] as int == w as int
  {
    var hi, lo := (w >> 8) as bv8, (w & 0xFF) as bv8;
    assert Word(hi, lo) == w by {
      assert (hi as bv16 << 8) | lo as bv16 == w;
    }
    [hi, lo]
  }

  /** Splitting an assembled word gives back the bytes it came from. */
  lemma WordBytesOfWord(hi: bv8, lo: bv8)
    ensures WordBytes(Word(hi, lo)) == [hi, lo]
  {
  }

  /** The reply a sensor sends for a measurement: each code high byte first,
      followed by the checksum of its two bytes. */
  function Encode(raw: RawReading): (f: seq<bv8>)
    ensures |f| == FrameLength
  {
    var t, h := WordBytes(raw.st), WordBytes(raw.srh);
    t + [Crc8(t)] + h + [Crc8(h)]
  }

  /** The frame check and decode of the driver: the reply is accepted only
      if exactly six bytes arrived and both check bytes match the checksum
      of the two bytes before them; then ST and SRH are assembled big-endian.
      A bad humidity check byte rejects the reply even when the temperature
      check byte is good. */
  function Decode(f: seq<bv8>): (r: Option<RawReading>)
    ensures r.Some? <==> |f| == FrameLength && f[2] == Crc8(f[..2]) && f[5] == Crc8(f[3..5])
    ensures r.Some? ==> r.value.st as int == f[0] as int * 256 + f[1] as int
    ensures r.Some? ==> r.value.srh as int == f[3] as int * 256 + f[4] as int
  {
    if |f| != FrameLength then None
    else if f[2] != Crc8(f[0..2]) then None
    else if f[5] != Crc8(f[3..5]) then None
    else Some(RawReading(Word(f[0], f[1]), Word(f[3], f[4])))
  }

  /** Every reply a sensor sends is accepted and decodes to its codes. */
  lemma DecodeEncode(raw: RawReading)
    ensures Decode(Encode(raw)) == Some(raw)
  {
    var f := Encode(raw);
    var t, h := WordBytes(raw.st), WordBytes(raw.srh);
    assert f[..2] == t && f[3..5] == h;
  }

  /** The accepted replies are exactly the encodings: a reply decodes to
      `raw` if and only if it is the reply a sensor sends for `raw`. */
  lemma DecodeIffEncode(f: seq<bv8>, raw: RawReading)
    ensures Decode(f) == Some(raw) <==> f == Encode(raw)
  {
    if f == Encode(raw) {
      DecodeEncode(raw);
    }
    if Decode(f) == Some(raw) {
      WordBytesOfWord(f[0], f[1]);
      WordBytesOfWord(f[3], f[4]);
      assert f[..2] == [f[0], f[1]] && f[3..5] == [f[3], f[4]];
      assert f == [f[0], f[1]] + [f[2]] + [f[3], f[4]] + [f[5]];
    }
  }

  /** Corrupting any one byte of a sensor's reply, data or check byte, makes
      the driver reject it. */
  lemma SingleByteCorruptionRejected(raw: RawReading, k: nat, b: bv8)
    requires k < FrameLength
    requires b != Encode(raw)[k]
    ensures Decode(Encode(raw)[k := b]) == None
  {
    var f := Encode(raw);
    var g := f[k := b];
    var t, h := WordBytes(raw.st), WordBytes(raw.srh);
    assert f[..2] == t && f[3..5] == h && f[2] == Crc8(t) && f[5] == Crc8(h);
    if k < 2 {
      assert g[..2] == t[k := b];
      SingleByteErrorDetected(t, k, b);
    } else if k == 2 {
      assert g[..2] == t;
    } else if k < 5 {
      assert g[..2] == t && g[3..5] == h[k - 3 := b];
      SingleByteErrorDetected(h, k - 3, b);
    } else {
      assert g[..2] == t && g[3..5] == h;
    }
  }

  /** Degrees Celsius for the code ST, in the order the driver computes it:
      ST times 175, divided by 0xFFFF, plus -45. Arithmetic is exact here. */
  function Temperature(st: bv16): (t: real)
    ensures -45.0 <= t <= 130.0
  {
    -45.0 + (st as int as real) * 175.0 / 65535.0
  }

  /** Percent relative humidity for the code SRH: SRH times 100, divided
      by 0xFFFF. */
  function Humidity(srh: bv16): (h: real)
    ensures 0.0 <= h <= 100.0
  {
    (srh as int as real) * 100.0 / 65535.0
  }

  /** The end points and a mid-range value of the temperature scale. */
  lemma TemperatureValues()
    ensures Temperature(0x0000) == -45.0
    ensures Temperature(0xFFFF) == 130.0
    ensures Temperature(0x6666) == 25.0
  {
  }

  /** The end points and the mid-scale value of the humidity scale. */
  lemma HumidityValues()
    ensures Humidity(0x0000) == 0.0
    ensures Humidity(0xFFFF) == 100.0
    ensures Humidity(0x8000) == 3276800.0 / 65535.0
  {
  }

  /** A larger code always means a higher temperature, so distinct codes
      give distinct temperatures. */
  lemma TemperatureStrictlyIncreasing(a: bv16, b: bv16)
    requires a as int < b as int
    ensures Temperature(a) < Temperature(b)
  {
  }

  /** A larger code always means a higher humidity. */
  lemma HumidityStrictlyIncreasing(a: bv16, b: bv16)
    requires a as int < b as int
    ensures Humidity(a) < Humidity(b)
  {
  }

  /** What `getReading` reports for a reply: both values or neither, and
      both exactly when the reply is accepted. */
  function ReadingOf(f: seq<bv8>): (r: Reading)
    ensures r.temperature.Some? <==> r.humidity.Some?
    ensures r.temperature.Some? <==> Decode(f).Some?
    ensures r.temperature.Some? ==> r.temperature.value == Temperature(Word(f[0], f[1]))
    ensures r.humidity.Some? ==> r.humidity.value == Humidity(Word(f[3], f[4]))
  {
    match Decode(f)
    case None => Reading(None, None)
    case Some(raw) => Reading(Some(Temperature(raw.st)), Some(Humidity(raw.srh)))
  }
}
