/**
 * The register-to-temperature decoding of mcp9808_read_temperature
 * (mcp9808_driver.c, lines 14-37).
 *
 * The MCP9808 ambient-temperature register (pointer 0x05) is a big-endian
 * 16-bit word: bits 0-11 are a magnitude in 1/16 degree Celsius, bit 12 is a
 * sign flag and bits 13-15 are alert flags. The SMBus Read Word protocol
 * (section 6.5.5 of the SMBus 3.0 specification) sends the low-order byte
 * first, so the word handed to the driver has its two bytes exchanged.
 */
module Decoder {

  /** Register pointer of the ambient-temperature register (MCP9808_TEMP). */
  const MCP9808_TEMP: bv8 := 0x05

  /**
   * What i2c_smbus_read_word_data returns: a negative error number, or the
   * 16-bit word as received in transport byte order.
   */
  type WordReadResult = r: int | r < 0x1_0000

  /** A temperature in whole degrees, as the driver reports it. */
  datatype Reading = Reading(celsius: int, fahrenheit: int)

  /** The outcome of mcp9808_read_temperature: a reading, or the bus error passed through. */
  datatype ReadOutcome = Temperature(reading: Reading) | ReadFailed(errno: int)

  /** Byte-order normalisation (line 26): the two bytes of the word change places. */
  function Swap16(w: bv16): (r: bv16)
    ensures r >> 8 == w & 0xFF
    ensures r & 0xFF == w >> 8
  {
    (w >> 8) | ((w & 0xFF) << 8)
  }

  /** True when the sign flag, bit 12 of the register, is set. */
  predicate SignSet(reg: bv16) {
    reg & 0x1000 != 0
  }

  /**
   * Whole degrees Celsius (lines 28-32): the 12-bit magnitude in sixteenths
   * of a degree, cut to whole degrees, then biased by -256 when the sign flag
   * is set. The bias is applied after the division, as the source does.
   */
  function Celsius(reg: bv16): (c: int)
    ensures -256 <= c <= 255
    ensures c < 0 <==> SignSet(reg)
    ensures var bias := if SignSet(reg) then 256 else 0;
      (c + bias) * 16 <= (reg & 0x0FFF) as int < (c + bias + 1) * 16
  {
    // `reg & 0x0FFF` is promoted to int before the division, as in C.
    var c := (reg & 0x0FFF) as int / 16;
    if SignSet(reg) then c - 256 else c
  }

  /** Dafny's `/` on a natural number rounds down. */
  lemma DivBounds(a: nat, b: int)
    requires b > 0
    ensures 0 <= a / b && (a / b) * b <= a < (a / b + 1) * b
  {
    var q, r := a / b, a % b;
    assert a == q * b + r;
    assert (q + 1) * b == q * b + b;
  }

  /**
   * C's `/` on int, which rounds toward zero (Dafny's own `/` is Euclidean):
   * the magnitude of the quotient is the magnitude of the dividend divided
   * by b, rounded down, and its sign is the dividend's.
   */
  function TruncDiv(a: int, b: int): (q: int)
    requires b > 0
    ensures 0 <= a ==> 0 <= q && q * b <= a < (q + 1) * b
    ensures a < 0 ==> q <= 0 && (-q) * b <= -a < (-q + 1) * b
  {
    if a >= 0 then
      DivBounds(a, b);
      a / b
    else
      DivBounds(-a, b);
      -((-a) / b)
  }

  /**
   * Whole degrees Fahrenheit (line 34), computed from the already truncated
   * Celsius value with C's integer arithmetic: `c * 9 / 5 + 32`.
   */
  function Fahrenheit(c: int): (f: int)
    ensures 0 <= c ==> 5 * (f - 32) <= 9 * c < 5 * (f - 31)
    ensures c < 0 ==> 5 * (f - 33) < 9 * c <= 5 * (f - 32)
  {
    TruncDiv(c * 9, 5) + 32
  }

  /** Decoding of a register word already in the sensor's own byte order. */
  function Decode(reg: bv16): (r: Reading)
    ensures -256 <= r.celsius <= 255
    ensures -428 <= r.fahrenheit <= 491
    ensures r.celsius < 0 <==> SignSet(reg)
  {
    var c := Celsius(reg);
    Reading(c, Fahrenheit(c))
  }

  /**
   * mcp9808_read_temperature applied to the value the word read returned
   * (lines 19-36): a negative value is passed through and yields no reading;
   * otherwise the word is normalised and decoded.
   */
  function ReadTemperature(ret: WordReadResult): (r: ReadOutcome)
    ensures r.ReadFailed? <==> ret < 0
    ensures r.ReadFailed? ==> r.errno == ret
  {
    if ret < 0 then
      ReadFailed(ret)
    else
      Temperature(Decode(Swap16(ret as bv16)))
  }

  // ---------------------------------------------------------------------------
  // Properties of the decoder

  /** Normalising twice gives back the transport word. */
  lemma SwapInvolutive(w: bv16)
    ensures Swap16(Swap16(w)) == w
  {
  }

  /** A 16-bit word, as a number, is its high byte * 256 plus its low byte. */
  lemma WordValue(w: bv16)
    ensures w as int == (w >> 8) as int * 0x100 + (w & 0xFF) as int
  {
  }

  /** The normalised word, as a number, is the low byte * 256 plus the high byte. */
  lemma SwapArithmetic(w: bv16)
    ensures Swap16(w) as int == (w & 0xFF) as int * 0x100 + (w >> 8) as int
  {
    var s := Swap16(w);
    WordValue(s);
    assert s >> 8 == w & 0xFF && s & 0xFF == w >> 8;
  }

  /** Two words with the same high byte and the same low byte are equal. */
  lemma BytesDetermine(a: bv16, b: bv16)
    requires a >> 8 == b >> 8 && a & 0xFF == b & 0xFF
    ensures a == b
  {
  }

  /**
   * The word the SMBus Read Word protocol assembles from the two data bytes in
   * the order they cross the wire: the first byte is taken as the low-order one.
   */
  function TransportWord(first: bv8, second: bv8): (w: bv16)
    ensures w & 0xFF == first as bv16 && w >> 8 == second as bv16
  {
    (second as bv16 << 8) | first as bv16
  }

  /** The register value as the sensor holds it: most significant byte first. */
  function RegisterValue(msb: bv8, lsb: bv8): (reg: bv16)
    ensures reg >> 8 == msb as bv16 && reg & 0xFF == lsb as bv16
  {
    (msb as bv16 << 8) | lsb as bv16
  }

  /**
   * The sensor sends the most significant byte first; after the exchange on
   * line 26 the driver decodes exactly the register value the sensor holds.
   */
  lemma WireOrder(msb: bv8, lsb: bv8)
    ensures ReadTemperature(TransportWord(msb, lsb) as int)
         == Temperature(Decode(RegisterValue(msb, lsb)))
  {
    var t := TransportWord(msb, lsb);
    var n: WordReadResult := t as int;
    assert n >= 0 && n as bv16 == t;
    SwapTransport(msb, lsb);
  }

  /** Exchanging the bytes of the transport word gives the sensor's register value. */
  lemma SwapTransport(msb: bv8, lsb: bv8)
    ensures Swap16(TransportWord(msb, lsb)) == RegisterValue(msb, lsb)
  {
    BytesDetermine(Swap16(TransportWord(msb, lsb)), RegisterValue(msb, lsb));
  }

  /** Bits 13-15 (the alert flags) never influence the reading. */
  lemma FlagBitsIgnored(a: bv16, b: bv16)
    requires a & 0x1FFF == b & 0x1FFF
    ensures Decode(a) == Decode(b)
  {
    assert a & 0x0FFF == (a & 0x1FFF) & 0x0FFF == (b & 0x1FFF) & 0x0FFF == b & 0x0FFF;
    assert a & 0x1000 == (a & 0x1FFF) & 0x1000 == (b & 0x1FFF) & 0x1000 == b & 0x1000;
    assert Celsius(a) == Celsius(b);
  }

  /** The value of bits 0-12 read as a 13-bit two's-complement number, in 1/16 degree. */
  function Signed13(reg: bv16): (v: int) {
    (reg & 0x1FFF) as int - (if SignSet(reg) then 0x2000 else 0)
  }

  /**
   * Applying the bias after the division makes Celsius the floor of the
   * 13-bit two's-complement temperature: negative temperatures round down
   * (0x1FFF, that is -1/16 degree, reads as -1), positive ones round down too.
   */
  lemma CelsiusIsFloor(reg: bv16)
    ensures Celsius(reg) * 16 <= Signed13(reg) < (Celsius(reg) + 1) * 16
  {
    assert (reg & 0x1FFF) as int == (reg & 0x0FFF) as int + (if SignSet(reg) then 0x1000 else 0);
  }

  /** A higher Celsius value never gives a lower Fahrenheit value. */
  lemma FahrenheitMonotone(c1: int, c2: int)
    requires c1 <= c2
    ensures Fahrenheit(c1) <= Fahrenheit(c2)
  {
  }

  /** The worked examples: register words and the readings they decode to. */
  lemma DecodeExamples()
    ensures Decode(0x0190) == Reading(25, 77)
    ensures Decode(0x0FFF) == Reading(255, 491)
    ensures Decode(0x1190) == Reading(-231, -383)
    ensures Decode(0x0000) == Reading(0, 32)
  {
  }

  /** The transport word 0x9001 normalises to 0x0190 and reads 25 C, 77 F. */
  lemma TransportExample()
    ensures Swap16(0x9001) == 0x0190
    ensures ReadTemperature(0x9001) == Temperature(Reading(25, 77))
  {
  }
}
