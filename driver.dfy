/** The SHT31 driver object: it remembers the sensor's bus address and the
    last accepted temperature and humidity, writes 2-byte commands to the
    bus and validates and decodes the sensor's 6-byte measurement reply.
    The bus is abstracted: what the driver writes is appended to `wire`,
    and what the sensor answers to a measurement request is passed in as
    `reply`. */
module Sht31Driver {
  import opened Checksum
  import opened Frame

  /** The sensor's 16-bit command codes, fixed when the driver is built. */
  datatype Commands = Commands(softReset: bv16, measureHighRepeatability: bv16,
                               heaterEnable: bv16, heaterDisable: bv16)

  class Sht31 {
    const commands: Commands
    var address: bv8
    /** The last accepted values; `None` stands for NAN. */
    var temp: Option<real>
    var humidity: Option<real>
    /** Every byte written to the bus so far, in order. */
    var wire: seq<bv8>

    /** The header that declares the fields is not part of this model; the
        cached values start out invalid (NAN) and the address at 0 until
        `Begin` stores one. */
    constructor (commands: Commands)
      ensures this.commands == commands
      ensures temp == None && humidity == None && wire == []
      ensures address == 0
    {
      this.commands := commands;
      address := 0;
      temp, humidity := None, None;
      wire := [];
    }

    /** Sends `cmd` to the sensor: its high byte, then its low byte. */
    method WriteCommand(cmd: bv16)
      modifies this`wire
      ensures wire == old(wire) + WordBytes(cmd)
    {
      wire := wire + [(cmd >> 8) as bv8];
      wire := wire + [(cmd & 0xFF) as bv8];
    }

    /** Issues the soft-reset command. */
    method Reset()
      modifies this`wire
      ensures wire == old(wire) + WordBytes(commands.softReset)
    {
      WriteCommand(commands.softReset);
    }

    /** Stores the bus address, resets the sensor and reports success,
        which it always does. */
    method Begin(i2caddr: bv8) returns (ok: bool)
      modifies this`address, this`wire
      ensures ok
      ensures address == i2caddr
      ensures wire == old(wire) + WordBytes(commands.softReset)
    {
      address := i2caddr;
      Reset();
      ok := true;
    }

    /** Switches the sensor's heater on or off. */
    method Heater(h: bool)
      modifies this`wire
      ensures wire == old(wire) + WordBytes(if h then commands.heaterEnable else commands.heaterDisable)
    {
      if h {
        WriteCommand(commands.heaterEnable);
      } else {
        WriteCommand(commands.heaterDisable);
      }
    }

    /** Requests a measurement and takes `reply` as the bytes the sensor
        returned. The reply is accepted exactly when `Decode` accepts it;
        only then are the cached values replaced, by the converted codes.
        A short reply or a bad check byte leaves them as they were. */
    method GetTempHum(reply: seq<bv8>) returns (ok: bool)
      modifies this`wire, this`temp, this`humidity
      ensures wire == old(wire) + WordBytes(commands.measureHighRepeatability)
      ensures ok <==> Decode(reply).Some?
      ensures ok ==> temp == Some(Temperature(Decode(reply).value.st))
      ensures ok ==> humidity == Some(Humidity(Decode(reply).value.srh))
      ensures !ok ==> temp == old(temp) && humidity == old(humidity)
    {
      WriteCommand(commands.measureHighRepeatability);
      if |reply| != FrameLength {
        return false;
      }
      var readBuffer := new bv8[FrameLength];
      for i := 0 to FrameLength
        modifies readBuffer
        invariant readBuffer[..i] == reply[..i]
      {
        readBuffer[i] := reply[i];
      }
      assert readBuffer[..] == reply;
      var st: bv16 := readBuffer[0] as bv16;
      st := st << 8;
      st := st | readBuffer[1] as bv16;
      assert st == Word(reply[0], reply[1]);
      var crc := ComputeCrc8(readBuffer, 0, 2);
      if readBuffer[2] != crc {
        return false;
      }
      var srh: bv16 := readBuffer[3] as bv16;
      srh := srh << 8;
      srh := srh | readBuffer[4] as bv16;
      assert srh == Word(reply[3], reply[4]);
      crc := ComputeCrc8(readBuffer, 3, 2);
      if readBuffer[5] != crc {
        return false;
      }
      temp := Some(Temperature(st));
      humidity := Some(Humidity(srh));
      ok := true;
    }

    /** A fresh measurement's temperature, or `None` when the reply is
        rejected. */
    method GetTemperature(reply: seq<bv8>) returns (t: Option<real>)
      modifies this`wire, this`temp, this`humidity
      ensures wire == old(wire) + WordBytes(commands.measureHighRepeatability)
      ensures t == ReadingOf(reply).temperature
      ensures t.Some? ==> temp == t && humidity == ReadingOf(reply).humidity
      ensures t.None? ==> temp == old(temp) && humidity == old(humidity)
    {
      var ok := GetTempHum(reply);
      if !ok {
        return None;
      }
      t := temp;
    }

    /** A fresh measurement's humidity, or `None` when the reply is
        rejected. */
    method GetHumidity(reply: seq<bv8>) returns (h: Option<real>)
      modifies this`wire, this`temp, this`humidity
      ensures wire == old(wire) + WordBytes(commands.measureHighRepeatability)
      ensures h == ReadingOf(reply).humidity
      ensures h.Some? ==> humidity == h && temp == ReadingOf(reply).temperature
      ensures h.None? ==> temp == old(temp) && humidity == old(humidity)
    {
      var ok := GetTempHum(reply);
      if !ok {
        return None;
      }
      h := humidity;
    }

    /** A fresh measurement: both values when the reply is accepted, both
        `None` otherwise. */
    method GetReading(reply: seq<bv8>) returns (r: Reading)
      modifies this`wire, this`temp, this`humidity
      ensures wire == old(wire) + WordBytes(commands.measureHighRepeatability)
      ensures r == ReadingOf(reply)
      ensures r.temperature.Some? ==> temp == r.temperature && humidity == r.humidity
      ensures r.temperature.None? ==> temp == old(temp) && humidity == old(humidity)
    {
      r := Reading(None, None);
      var ok := GetTempHum(reply);
      if ok {
        r := Reading(temp, humidity);
      }
    }
  }
}
