/**
 * The text temp_show writes (mcp9808_driver.c, line 54): `sprintf(buf,
 * "%dC %dF\n", temp_c, temp_f)`, each number in signed decimal without
 * leading zeros. ParseReading reads such a text back; it is not part of the
 * driver and serves as the inverse the rendering is proved against.
 */
module Format {
  import opened Wrappers
  import opened Decoder

  /** The longest text Render produces for a decoded reading: "-256C -428F\n". */
  const MaxRenderLength: nat := 12

  predicate IsDigit(ch: char) {
    '0' <= ch <= '9'
  }

  predicate AllDigits(s: string) {
    forall i :: 0 <= i < |s| ==> IsDigit(s[i])
  }

  function DigitChar(d: nat): (ch: char)
    requires d < 10
    ensures IsDigit(ch) && ch as int - '0' as int == d
  {
    ('0' as int + d) as char
  }

  /** `%u`-style decimal text of a natural number: at least one digit, no leading zero. */
  function NatToDecimal(n: nat): (s: string)
    ensures |s| >= 1 && AllDigits(s)
    ensures s[0] == '0' ==> n == 0
    ensures n < 10 ==> |s| == 1
    decreases n
  {
    if n < 10 then [DigitChar(n)] else NatToDecimal(n / 10) + [DigitChar(n % 10)]
  }

  /** `%d`: a minus sign for a negative number, then the decimal text of its magnitude. */
  function IntToDecimal(i: int): (s: string)
    ensures |s| >= 1
    ensures i < 0 <==> s[0] == '-'
    ensures forall k :: 0 <= k < |s| ==> IsDigit(s[k]) || (k == 0 && s[k] == '-')
  {
    if i < 0 then "-" + NatToDecimal(-i) else NatToDecimal(i)
  }

  /** The value of a string of decimal digits. */
  function DigitsValue(s: string): (v: nat)
    requires AllDigits(s)
    decreases |s|
  {
    if s == [] then 0 else DigitsValue(s[..|s| - 1]) * 10 + (s[|s| - 1] as int - '0' as int)
  }

  /** Reads an optionally negative decimal number. */
  function ParseInt(s: string): (r: Option<int>) {
    if |s| >= 2 && s[0] == '-' && AllDigits(s[1..]) then Some(-(DigitsValue(s[1..]) as int))
    else if |s| >= 1 && AllDigits(s) then Some(DigitsValue(s))
    else None
  }

  /** Splits at the first occurrence of `sep`, if there is one. */
  function SplitAt(s: string, sep: char): (r: Option<(string, string)>)
    ensures r.None? <==> sep !in s
    ensures r.Some? ==> sep !in r.value.0 && s == r.value.0 + [sep] + r.value.1
  {
    if s == [] then None
    else if s[0] == sep then Some(([], s[1..]))
    else match SplitAt(s[1..], sep)
      case None => None
      case Some((before, after)) => Some(([s[0]] + before, after))
  }

  /**
   * The text of line 54 for a reading. Its length, the count sprintf
   * returns, is that of the two numbers plus the four fixed characters.
   */
  function Render(r: Reading): (s: string)
    ensures |s| == |IntToDecimal(r.celsius)| + |IntToDecimal(r.fahrenheit)| + 4
    ensures s[|s| - 1] == '\n'
  {
    IntToDecimal(r.celsius) + "C " + IntToDecimal(r.fahrenheit) + "F\n"
  }

  /** Reads back a text of the form "<celsius>C <fahrenheit>F\n". */
  function ParseReading(s: string): (r: Option<Reading>) {
    match SplitAt(s, 'C')
    case None => None
    case Some((cs, rest)) =>
      if |rest| == 0 || rest[0] != ' ' then None
      else match SplitAt(rest[1..], 'F')
        case None => None
        case Some((fs, tail)) =>
          if tail != "\n" then None
          else match (ParseInt(cs), ParseInt(fs))
            case (Some(c), Some(f)) => Some(Reading(c, f))
            case _ => None
  }

  // ---------------------------------------------------------------------------
  // Properties of the rendering

  /** Reading the digits of a natural number gives the number back. */
  lemma {:induction false} NatRoundTrip(n: nat)
    ensures DigitsValue(NatToDecimal(n)) == n
    decreases n
  {
    var s := NatToDecimal(n);
    if n >= 10 {
      NatRoundTrip(n / 10);
      assert s[..|s| - 1] == NatToDecimal(n / 10);
    }
  }

  /** `%d` text reads back as the number it was made from. */
  lemma IntRoundTrip(i: int)
    ensures ParseInt(IntToDecimal(i)) == Some(i)
  {
    var s := IntToDecimal(i);
    if i < 0 {
      var digits := NatToDecimal(-i);
      assert s[1..] == digits;
      assert |s| >= 2 && s[0] == '-' && AllDigits(s[1..]);
      NatRoundTrip(-i);
      assert ParseInt(s) == Some(-(DigitsValue(digits) as int));
    } else {
      assert s == NatToDecimal(i) && s[0] != '-' && AllDigits(s);
      NatRoundTrip(i);
      assert ParseInt(s) == Some(DigitsValue(s) as int);
    }
  }

  /** Splitting a text at a separator that does not occur before it finds that occurrence. */
  lemma SplitAtFirst(a: string, b: string, sep: char)
    requires sep !in a
    ensures SplitAt(a + [sep] + b, sep) == Some((a, b))
  {
    var s := a + [sep] + b;
    assert s[|a|] == sep;
    var r := SplitAt(s, sep);
    var a', b' := r.value.0, r.value.1;
    assert |a'| == |a| by {
      assert s[|a'|] == sep;
    }
    assert a' == s[..|a|] == a;
    assert b' == s[|a| + 1..] == b;
  }

  /** Every text Render produces reads back as the reading it was made from. */
  lemma RenderRoundTrip(r: Reading)
    ensures ParseReading(Render(r)) == Some(r)
  {
    var cs, fs := IntToDecimal(r.celsius), IntToDecimal(r.fahrenheit);
    assert 'C' !in cs && 'F' !in fs by {
      forall k | 0 <= k < |cs| ensures cs[k] != 'C' { }
      forall k | 0 <= k < |fs| ensures fs[k] != 'F' { }
    }
    var rest := " " + fs + "F\n";
    assert Render(r) == cs + ['C'] + rest;
    SplitAtFirst(cs, rest, 'C');
    assert rest[1..] == fs + ['F'] + "\n";
    SplitAtFirst(fs, "\n", 'F');
    IntRoundTrip(r.celsius);
    IntRoundTrip(r.fahrenheit);
  }

  /** Different readings never render to the same text. */
  lemma RenderInjective(r1: Reading, r2: Reading)
    requires Render(r1) == Render(r2)
    ensures r1 == r2
  {
    RenderRoundTrip(r1);
    RenderRoundTrip(r2);
  }

  /** Numbers below 1000 take at most three digits. */
  lemma NatDecimalLength(n: nat)
    requires n < 1000
    ensures |NatToDecimal(n)| <= 3
  {
    if n >= 10 {
      assert |NatToDecimal(n / 10)| <= 2 by {
        if n / 10 >= 10 {
          assert |NatToDecimal(n / 100)| == 1;
        }
      }
    }
  }

  /** The text of any decoded reading has at most MaxRenderLength characters. */
  lemma RenderLength(reg: bv16)
    ensures |Render(Decode(reg))| <= MaxRenderLength
  {
    var r := Decode(reg);
    NatDecimalLength(if r.celsius < 0 then -r.celsius else r.celsius);
    NatDecimalLength(if r.fahrenheit < 0 then -r.fahrenheit else r.fahrenheit);
  }

  /** The text for 25 C, 77 F. */
  lemma RenderExample()
    ensures Render(Reading(25, 77)) == "25C 77F\n"
    ensures Render(Reading(-231, -383)) == "-231C -383F\n"
  {
  }
}
