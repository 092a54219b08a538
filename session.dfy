/**
 * The driver's session state and the three entry points that use it
 * (mcp9808_driver.c, lines 10-11 and 39-107): temp_sensor_probe attaches a
 * client and creates the sysfs directory and file, temp_show answers a read
 * of that file, temp_sensor_remove tears it down.
 *
 * The outcomes of the bus and sysfs calls are parameters. The calls the
 * driver makes are recorded, in order, in a ghost log. Each method is proved
 * equal to a step function on a value of the state; the properties are
 * lemmas about the step functions.
 */
module Session {
  import opened Wrappers
  import opened Decoder
  import opened Format

  /** Linux error numbers; the driver returns their negations. */
  const ENODEV: int := 19
  const ENOMEM: int := 12

  /** The identity of an i2c_client. */
  type ClientId = nat

  /** What temp_kobj points to: nothing, a live kobject, or one already released. */
  datatype Kobject = NoKobject | LiveKobject | ReleasedKobject

  /** The calls into the bus and sysfs, as they happen. */
  datatype Call =
    | ReadByte(client: ClientId)                    // i2c_smbus_read_byte
    | ReadWord(client: ClientId, register: bv8)     // i2c_smbus_read_word_data
    | CreateDirectory                               // kobject_create_and_add
    | CreateFile                                    // sysfs_create_file
    | RemoveFile                                    // sysfs_remove_file
    | PutKobject                                    // kobject_put

  /**
   * global_client, temp_kobj, whether the "temp" attribute file is present,
   * and the calls made so far.
   */
  datatype Globals = Globals(client: Option<ClientId>, kobj: Kobject, fileExists: bool, calls: seq<Call>)

  /** The state when the module is loaded: both globals are NULL. */
  const Loaded := Globals(None, NoKobject, false, [])

  /** What a call of temp_show returns and what it writes into the buffer, if anything. */
  datatype ShowOutcome = ShowOutcome(after: Globals, ret: int, written: Option<string>)

  /** temp_sensor_probe (lines 61-92). */
  function ProbeStep(s: Globals, c: ClientId, byteRet: int, dirCreated: bool, fileRet: int): (r: (Globals, int))
    ensures |r.0.calls| > |s.calls| && r.0.calls[..|s.calls|] == s.calls && r.0.calls[|s.calls|] == ReadByte(c)
    ensures r.1 == 0 <==> byteRet >= 0 && dirCreated && fileRet == 0
    ensures r.1 == 0 ==> r.0.client == Some(c) && r.0.kobj == LiveKobject && r.0.fileExists
  {
    if byteRet < 0 then
      (s.(calls := s.calls + [ReadByte(c)]), -ENODEV)
    // From here on global_client is set; it is kept when the sysfs setup fails.
    else if !dirCreated then
      (s.(client := Some(c), kobj := NoKobject,
          calls := s.calls + [ReadByte(c), CreateDirectory]), -ENOMEM)
    else if fileRet != 0 then
      (s.(client := Some(c), kobj := ReleasedKobject,
          calls := s.calls + [ReadByte(c), CreateDirectory, CreateFile, PutKobject]), fileRet)
    else
      (s.(client := Some(c), kobj := LiveKobject, fileExists := true,
          calls := s.calls + [ReadByte(c), CreateDirectory, CreateFile]), 0)
  }

  /** temp_show (lines 40-55), given what the word read returns. */
  function ShowStep(s: Globals, wordRet: WordReadResult): (o: ShowOutcome)
    ensures o.after.client == s.client && o.after.kobj == s.kobj && o.after.fileExists == s.fileExists
    ensures o.written.Some? <==> o.ret >= 0
    ensures o.written.Some? ==> o.ret == |o.written.value|
  {
    match s.client
    case None => ShowOutcome(s, -ENODEV, None)
    case Some(c) =>
      var read := s.(calls := s.calls + [ReadWord(c, MCP9808_TEMP)]);
      match ReadTemperature(wordRet)
      case ReadFailed(e) => ShowOutcome(read, e, None)
      case Temperature(r) =>
        var text := Render(r);
        ShowOutcome(read, |text|, Some(text))
  }

  /** temp_sensor_remove (lines 95-107); the client argument is used only for logging. */
  function RemoveStep(s: Globals, c: ClientId): (r: (Globals, int))
    ensures r.1 == 0 && r.0.client.None?
    ensures r.0.kobj == NoKobject <==> s.kobj == NoKobject
    ensures |s.calls| <= |r.0.calls| && r.0.calls[..|s.calls|] == s.calls
  {
    var tornDown :=
      if s.kobj != NoKobject then
        // temp_kobj is released but not set back to NULL.
        s.(kobj := ReleasedKobject, fileExists := false, calls := s.calls + [RemoveFile, PutKobject])
      else s;
    (tornDown.(client := None), 0)
  }

  /** The driver's globals; the arguments of the bus and sysfs calls are the methods' parameters. */
  class Driver {
    var client: Option<ClientId>
    var kobj: Kobject
    var fileExists: bool
    ghost var calls: seq<Call>

    ghost function View(): Globals
      reads this
    {
      Globals(client, kobj, fileExists, calls)
    }

    constructor ()
      ensures View() == Loaded
    {
      client := None;
      kobj := NoKobject;
      fileExists := false;
      calls := [];
    }

    /**
     * byteRet is what the liveness read returns, dirCreated whether
     * kobject_create_and_add returned an object, fileRet what
     * sysfs_create_file returned.
     */
    method Probe(c: ClientId, byteRet: int, dirCreated: bool, fileRet: int) returns (ret: int)
      modifies this
      ensures (View(), ret) == ProbeStep(old(View()), c, byteRet, dirCreated, fileRet)
    {
      ghost var before := calls;
      calls := calls + [ReadByte(c)];
      if byteRet < 0 {
        return -ENODEV;
      }
      client := Some(c);
      calls := calls + [CreateDirectory];
      if !dirCreated {
        kobj := NoKobject;
        assert calls == before + [ReadByte(c), CreateDirectory];
        return -ENOMEM;
      }
      kobj := LiveKobject;
      calls := calls + [CreateFile];
      if fileRet != 0 {
        calls := calls + [PutKobject];
        kobj := ReleasedKobject;
        assert calls == before + [ReadByte(c), CreateDirectory, CreateFile, PutKobject];
        return fileRet;
      }
      fileExists := true;
      assert calls == before + [ReadByte(c), CreateDirectory, CreateFile];
      return 0;
    }

    /**
     * wordRet is what the read of register 0x05 returns; buf is the page
     * sysfs hands to the show callback.
     */
    method Show(wordRet: WordReadResult, buf: array<char>) returns (n: int)
      requires buf.Length > MaxRenderLength
      modifies this`calls, buf
      ensures var o := ShowStep(old(View()), wordRet);
        View() == o.after && n == o.ret &&
        match o.written
        case None => buf[..] == old(buf[..])
        case Some(text) =>
          |text| < buf.Length && buf[..|text|] == text && buf[|text|] == '\0' &&
          buf[|text| + 1..] == old(buf[|text| + 1..])
    {
      if client.None? {
        return -ENODEV;
      }
      calls := calls + [ReadWord(client.value, MCP9808_TEMP)];
      var t := ReadTemperature(wordRet);
      if t.ReadFailed? {
        return t.errno;
      }
      var text := Render(t.reading);
      RenderLength(Swap16(wordRet as bv16));
      forall i | 0 <= i < |text| {
        buf[i] := text[i];
      }
      buf[|text|] := '\0';
      n := |text|;
    }

    /** c is the client being removed; the source only logs it. */
    method Remove(c: ClientId) returns (ret: int)
      modifies this
      ensures (View(), ret) == RemoveStep(old(View()), c)
    {
      ghost var before := calls;
      if kobj != NoKobject {
        calls := calls + [RemoveFile];
        fileExists := false;
        calls := calls + [PutKobject];
        kobj := ReleasedKobject;
        assert calls == before + [RemoveFile, PutKobject];
      }
      client := None;
      return 0;
    }
  }

  // ---------------------------------------------------------------------------
  // Properties of the session

  /** A failed liveness read returns -ENODEV and changes nothing but the call log. */
  lemma ProbeNotDetected(s: Globals, c: ClientId, byteRet: int, dirCreated: bool, fileRet: int)
    requires byteRet < 0
    ensures var (s', ret) := ProbeStep(s, c, byteRet, dirCreated, fileRet);
      ret == -ENODEV && s'.client == s.client && s'.kobj == s.kobj &&
      s'.fileExists == s.fileExists && s'.calls == s.calls + [ReadByte(c)]
  {
  }

  /**
   * Once the liveness read succeeds the client stays attached, whatever
   * happens to the sysfs setup; the probe succeeds exactly when both the
   * directory and the file are created.
   */
  lemma ProbeAttaches(s: Globals, c: ClientId, byteRet: int, dirCreated: bool, fileRet: int)
    requires byteRet >= 0
    ensures var (s', ret) := ProbeStep(s, c, byteRet, dirCreated, fileRet);
      s'.client == Some(c) &&
      (ret == 0 <==> dirCreated && fileRet == 0) &&
      (ret == 0 ==> s'.kobj == LiveKobject && s'.fileExists)
  {
  }

  /** A failed directory creation returns -ENOMEM and leaves temp_kobj NULL. */
  lemma ProbeNoDirectory(s: Globals, c: ClientId, byteRet: int, fileRet: int)
    requires byteRet >= 0
    ensures var (s', ret) := ProbeStep(s, c, byteRet, false, fileRet);
      ret == -ENOMEM && s'.kobj == NoKobject && s'.fileExists == s.fileExists &&
      s'.calls == s.calls + [ReadByte(c), CreateDirectory]
  {
  }

  /**
   * A failed file creation returns its error and releases the directory, but
   * temp_kobj keeps pointing at the released object.
   */
  lemma ProbeNoFile(s: Globals, c: ClientId, byteRet: int, fileRet: int)
    requires byteRet >= 0 && fileRet != 0
    ensures var (s', ret) := ProbeStep(s, c, byteRet, true, fileRet);
      ret == fileRet && s'.kobj == ReleasedKobject && s'.fileExists == s.fileExists &&
      s'.calls == s.calls + [ReadByte(c), CreateDirectory, CreateFile, PutKobject]
  {
  }

  /** Without an attached client, a read of the file fails with -ENODEV before any bus traffic. */
  lemma ShowUnattached(s: Globals, wordRet: WordReadResult)
    requires s.client.None?
    ensures ShowStep(s, wordRet) == ShowOutcome(s, -ENODEV, None)
  {
  }

  /** A failed register read is returned as it is and nothing is written. */
  lemma ShowReadFails(s: Globals, wordRet: WordReadResult)
    requires s.client.Some? && wordRet < 0
    ensures var o := ShowStep(s, wordRet);
      o.ret == wordRet && o.written.None? &&
      o.after.calls == s.calls + [ReadWord(s.client.value, MCP9808_TEMP)]
  {
  }

  /**
   * A successful register read writes the reading's text, which reads back as
   * the decoded reading, and returns its length.
   */
  lemma ShowRenders(s: Globals, wordRet: WordReadResult)
    requires s.client.Some? && wordRet >= 0
    ensures var o := ShowStep(s, wordRet);
      o.written.Some? && o.ret == |o.written.value| &&
      0 < o.ret <= MaxRenderLength &&
      ParseReading(o.written.value) == Some(ReadTemperature(wordRet).reading)
  {
    RenderRoundTrip(ReadTemperature(wordRet).reading);
    RenderLength(Swap16(wordRet as bv16));
  }

  /**
   * Remove takes the file away strictly before it releases the directory,
   * leaves temp_kobj non-NULL, detaches the client and returns 0.
   */
  lemma RemoveTearsDown(s: Globals, c: ClientId)
    ensures var (s', ret) := RemoveStep(s, c);
      ret == 0 && s'.client.None? &&
      (s.kobj != NoKobject ==>
        s'.kobj == ReleasedKobject && !s'.fileExists && s'.calls == s.calls + [RemoveFile, PutKobject]) &&
      (s.kobj == NoKobject ==> s'.kobj == NoKobject && s'.calls == s.calls)
  {
  }

  /** After a remove, a read of the file fails with -ENODEV. */
  lemma ShowAfterRemove(s: Globals, c: ClientId, wordRet: WordReadResult)
    ensures ShowStep(RemoveStep(s, c).0, wordRet).ret == -ENODEV
  {
  }

  /**
   * Remove is not idempotent: a second call finds temp_kobj still set and
   * removes the file and releases the kobject a second time.
   */
  lemma RemoveTwice(s: Globals, c: ClientId)
    requires s.kobj == LiveKobject
    ensures RemoveStep(RemoveStep(s, c).0, c).0.calls
         == s.calls + [RemoveFile, PutKobject, RemoveFile, PutKobject]
  {
  }

  /**
   * A probe whose file creation failed still leaves the client attached, so
   * temp_show would read the bus rather than report -ENODEV.
   */
  lemma AttachedAfterFailedSetup(c: ClientId, fileRet: int, wordRet: WordReadResult)
    requires fileRet != 0
    ensures var (s, ret) := ProbeStep(Loaded, c, 0, true, fileRet);
      ret == fileRet && !s.fileExists &&
      ShowStep(s, wordRet).after.calls == [ReadByte(c), CreateDirectory, CreateFile, PutKobject, ReadWord(c, MCP9808_TEMP)]
  {
  }

  /** Probe, then a read whose transport word is 0x9001, shows "25C 77F\n". */
  lemma EndToEnd(c: ClientId)
    ensures var (s, ret) := ProbeStep(Loaded, c, 0, true, 0);
      ret == 0 && ShowStep(s, 0x9001).written == Some("25C 77F\n") &&
      ShowStep(s, 0x9001).ret == 8
  {
    TransportExample();
    RenderExample();
  }

  /** The same scenario run on a Driver object. */
  method ProbeAndShow(c: ClientId) returns (text: string, n: int)
    ensures text == "25C 77F\n" && n == 8
  {
    var d := new Driver();
    var ret := d.Probe(c, 0, true, 0);
    var buf := new char[4096];
    n := d.Show(0x9001, buf);
    EndToEnd(c);
    text := buf[..n];
  }
}
