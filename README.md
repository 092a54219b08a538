# MCP9808 temperature sensor driver — Dafny model

A model of the Linux I2C driver `mcp9808_driver.c` for the MCP9808 digital
temperature sensor, with proofs about it.

The driver does two things:

- **Decoding.** It reads the ambient-temperature register (pointer `0x05`) with an
  SMBus Read Word transaction. It exchanges the two bytes of the word, because the
  protocol delivers the low-order byte first (section 6.5.5 of the SMBus 3.0
  specification) while the sensor's register is big-endian. It then takes bits 0-11
  as a magnitude in 1/16 °C and cuts it to whole degrees. It subtracts 256 when the
  sign bit `0x1000` is set. Fahrenheit is computed from the truncated Celsius value
  with C's integer arithmetic.
- **Session.** Two globals, `global_client` and `temp_kobj`, hold the attached
  client and the sysfs directory object:
  - `temp_sensor_probe` checks that the device answers, stores the client and
    creates `/sys/kernel/temperature_sensor/temp`;
  - `temp_show` renders `"<c>C <f>F\n"` into the page sysfs hands it;
  - `temp_sensor_remove` tears the file and the directory down.

The project has four modules:

- `Wrappers`: the `Option` type.
- `Decoder`: the decoding, written as pure functions over `bv16`. The bit operations
  are the C expressions, unchanged. `TruncDiv` models C's division, which rounds
  toward zero; Dafny's `/` is Euclidean. Without it, -231 °C would come out as
  -384 °F instead of -383 °F.
- `Format`: the `%d` text and the line `sprintf` writes. `ParseReading` reads such a
  line back. It is not part of the driver; it is the inverse that the rendering is
  proved against.
- `Session`: the class `Driver`, whose fields are the globals. It also has a flag for
  whether the attribute file exists, and a ghost log of the bus and sysfs calls in
  the order they are made. The outcomes of those calls are method parameters. Each
  method is proved equal to a step function (`ProbeStep`, `ShowStep`, `RemoveStep`),
  and the lemmas state the driver's behaviour in terms of those step functions.

Behaviour of the code worth knowing, each stated by a lemma:

- C's `/` rounds toward zero, so for the register word `0x1190` (-231 °C) the code
  gives -383 °F, not the -384 that floor division would give (`DecodeExamples`).
- When sysfs setup fails, the probe still keeps `global_client` (`ProbeAttaches`,
  `AttachedAfterFailedSetup`).
- `temp_kobj` is not reset after `kobject_put`, so a second remove removes the file
  and releases the kobject again (`RemoveTwice`).
- The sign bias is applied after the truncating division. As a result Celsius is the
  floor of the 13-bit two's-complement value: -1/16 °C reads as -1 (`CelsiusIsFloor`).

## Model

| member | source | states |
|---|---|---|
| `Decoder.Swap16` | mcp9808_driver.c:26 | the high byte of the result is the low byte of the input, and the low byte of the result is the high byte of the input |
| `Decoder.SwapInvolutive` | mcp9808_driver.c:26 | swapping twice gives back the word |
| `Decoder.SwapArithmetic` | mcp9808_driver.c:26 | as a number, the normalised word is low byte * 256 + high byte |
| `Decoder.WireOrder` | mcp9808_driver.c:19-26 | for the bytes the sensor sends (MSB first), assembled low-byte-first by the transport, the driver decodes exactly the sensor's register value |
| `Decoder.Celsius` | mcp9808_driver.c:28-32 | the result is in [-256, 255]; it is negative exactly when bit 12 is set; it plus the 256 bias is the whole number of degrees in the 12-bit magnitude, rounded down |
| `Decoder.CelsiusIsFloor` | mcp9808_driver.c:28-32 | Celsius is the floor of the 13-bit two's-complement reading in 1/16 °C |
| `Decoder.FlagBitsIgnored` | mcp9808_driver.c:28-30 | two words that agree on bits 0-12 decode to the same reading |
| `Decoder.TruncDiv` | mcp9808_driver.c:34 | the quotient rounds toward zero, for negative dividends too |
| `Decoder.Fahrenheit` | mcp9808_driver.c:34 | f - 32 is 9c/5 rounded toward zero |
| `Decoder.FahrenheitMonotone` | mcp9808_driver.c:34 | a higher Celsius value never gives a lower Fahrenheit value |
| `Decoder.Decode` | mcp9808_driver.c:28-34 | Celsius is in [-256, 255] and Fahrenheit in [-428, 491]; Celsius is negative exactly when the sign bit is set |
| `Decoder.ReadTemperature` | mcp9808_driver.c:14-37 | the read fails exactly when the bus returned a negative value, and then the value is passed through unchanged and no reading exists |
| `Decoder.DecodeExamples` | mcp9808_driver.c:28-34 | 0x0190 gives 25 °C / 77 °F, 0x0FFF gives 255/491, 0x1190 gives -231/-383, 0x0000 gives 0/32 |
| `Decoder.TransportExample` | mcp9808_driver.c:19-34 | transport word 0x9001 normalises to 0x0190 and reads 25 °C / 77 °F |
| `Format.NatToDecimal` | mcp9808_driver.c:54 | the decimal text is non-empty and all digits; a single digit below 10, and no leading zero otherwise |
| `Format.IntToDecimal` | mcp9808_driver.c:54 | `%d` text starts with '-' exactly for negative numbers; every other character is a digit |
| `Format.NatRoundTrip` | mcp9808_driver.c:54 | the digits of n read back as n |
| `Format.IntRoundTrip` | mcp9808_driver.c:54 | `%d` text reads back as the number it was made from |
| `Format.RenderRoundTrip` | mcp9808_driver.c:54 | the text `"%dC %dF\n"` of a reading parses back to that reading |
| `Format.RenderInjective` | mcp9808_driver.c:54 | different readings give different texts |
| `Format.RenderLength` | mcp9808_driver.c:54 | the text of any decoded reading is at most 12 characters |
| `Format.Render` | mcp9808_driver.c:54 | the `"%dC %dF\n"` text: its length, the count sprintf returns, is the two numbers' lengths plus 4, and it ends in a newline; `RenderRoundTrip`, `RenderInjective` and `RenderLength` show it parses back to the reading, is distinct for distinct readings and is at most 12 characters for a decoded reading |
| `Format.RenderExample` | mcp9808_driver.c:54 | (25, 77) renders as "25C 77F\n" and (-231, -383) as "-231C -383F\n" |
| `Session.ProbeStep` | mcp9808_driver.c:61-92 | the liveness read is always the first call made; the result is 0 exactly when the read, the directory and the file all succeed, and then the client is set and the directory and file exist; the lemmas below give each failure path |
| `Session.ShowStep` | mcp9808_driver.c:40-55 | a show changes no global; it writes text exactly when it returns a non-negative value, and then returns the text's length; `ShowUnattached`, `ShowReadFails` and `ShowRenders` give the three paths |
| `Session.RemoveStep` | mcp9808_driver.c:95-107 | the result is 0 and the client is cleared; temp_kobj is NULL afterwards only if it was NULL before; calls are only appended; `RemoveTearsDown` gives their order |
| `Session.Driver.constructor` | mcp9808_driver.c:10-11 | both globals start NULL, no file exists and no call has been made |
| `Session.Driver.Probe` | mcp9808_driver.c:61-92 | the new globals, the log of calls and the return value are those of ProbeStep |
| `Session.Driver.Show` | mcp9808_driver.c:40-55 | the return value and the log are those of ShowStep; the buffer holds the text and a NUL when text was written, and is unchanged otherwise |
| `Session.Driver.Remove` | mcp9808_driver.c:95-107 | the new globals, the log of calls and the return value are those of RemoveStep |
| `Session.ProbeNotDetected` | mcp9808_driver.c:65-69 | a failed liveness read returns -ENODEV; the client, kobject and file are unchanged; only the byte read is issued |
| `Session.ProbeAttaches` | mcp9808_driver.c:71-91 | after a successful liveness read the client is set whatever follows; the probe returns 0 exactly when the directory and the file are both created, and then both exist |
| `Session.ProbeNoDirectory` | mcp9808_driver.c:75-79 | a failed directory creation returns -ENOMEM and leaves temp_kobj NULL |
| `Session.ProbeNoFile` | mcp9808_driver.c:82-87 | a failed file creation returns its error and releases the kobject; temp_kobj still points at it |
| `Session.ShowUnattached` | mcp9808_driver.c:45-47 | with no client, the show returns -ENODEV, makes no bus call and writes nothing |
| `Session.ShowReadFails` | mcp9808_driver.c:49-52 | a failed register read returns that error and writes nothing |
| `Session.ShowRenders` | mcp9808_driver.c:49-54 | a successful read writes a text that parses back as the decoded reading, and returns its length, which is between 1 and 12 |
| `Session.RemoveTearsDown` | mcp9808_driver.c:99-106 | the file is removed strictly before the kobject is released, temp_kobj is not reset, the client is cleared, and the result is 0 |
| `Session.ShowAfterRemove` | mcp9808_driver.c:45-47 | after a remove, a show returns -ENODEV |
| `Session.RemoveTwice` | mcp9808_driver.c:99-104 | a second remove repeats the file removal and the kobject release |
| `Session.AttachedAfterFailedSetup` | mcp9808_driver.c:72-86 | after a probe whose file creation failed, the client is still set, so a show would read the bus |
| `Session.EndToEnd` | mcp9808_driver.c:40-92 | probe, then show with transport word 0x9001: the text is "25C 77F\n" and the result is 8 |
| `Session.ProbeAndShow` | mcp9808_driver.c:40-92 | the same scenario on a Driver object and a buffer |

## Left out

- The I2C/SMBus transfers (`i2c_smbus_read_byte`, `i2c_smbus_read_word_data`) are not
  modelled. Their return values are parameters. The word read's value is typed
  `WordReadResult`: a negative error or a 16-bit word, the range that call returns.
- The kobject and sysfs internals (`kobject_create_and_add`, `sysfs_create_file`,
  `sysfs_remove_file`, `kobject_put`) are not modelled. Only their success or failure
  is kept. `temp_kobj` becomes an abstract NULL / live / released value, and whether
  the attribute file exists is one flag.
- `Session.Driver.Probe`: when the device is probed again while `temp_kobj` is live,
  the earlier kobject is overwritten and lost. The model keeps only the newest one.
- `Session.Driver.Show` requires a buffer longer than 12 characters. sysfs always
  passes a full page. The page size is not modelled.
- `Decoder.ReadTemperature`: the source writes its results through the `temp_c` and
  `temp_f` out-pointers. The model returns a value that holds a reading only on
  success, so "nothing is written on failure" is shown as "no reading exists".
- `Session.Driver.Remove`: its client argument is used only for logging, and the
  model ignores it, as the source does.
- `dev_err` and `dev_info` logging is left out; it does not affect any result.
- Module registration is left out: the device-id table, the `i2c_driver` structure,
  `mcp9808_init`/`mcp9808_exit` and the `MODULE_*` macros.
- A sysfs read that runs concurrently with `temp_sensor_remove` is not modelled. The
  model is sequential.
- ENODEV and ENOMEM have Linux's values (19 and 12). Nothing depends on those values.
