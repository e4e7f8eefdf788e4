/**
  The one outbound command the page sends, `{cmd: 'set', ch: index, val: b}`,
  and its text as `JSON.stringify` writes it: keys in insertion order
  (cmd, ch, val), no whitespace, the channel as a plain decimal integer and
  the value as `true` or `false`. `Decode` reads that text back: `Encode`'s
  contract and `EncodeDecode` show that the text determines the command and back.
*/
module SetCommand {
  import opened Base

  /** A request to drive channel `ch` to `val`. */
  datatype SetCmd = SetCmd(ch: nat, val: bool)

  /** The text before the channel number. */
  const Prefix: string := "{\"cmd\":\"set\",\"ch\":"
  /** The text after the channel number, for each value. */
  const TrueSuffix: string := ",\"val\":true}"
  const FalseSuffix: string := ",\"val\":false}"

  predicate IsDigit(c: char)
  {
    '0' <= c <= '9'
  }

  predicate AllDigits(s: string)
  {
    forall i :: 0 <= i < |s| ==> IsDigit(s[i])
  }

  /** A JSON integer: at least one digit, and no leading zero unless it is `0`. */
  predicate Canonical(s: string)
  {
    |s| >= 1 && AllDigits(s) && (s[0] == '0' ==> |s| == 1)
  }

  function DigitChar(d: nat): (c: char)
    requires d < 10
    ensures IsDigit(c) && (c as int) - ('0' as int) == d
  {
    (('0' as int) + d) as char
  }

  function DigitValue(c: char): (d: nat)
    requires IsDigit(c)
    ensures d < 10 && DigitChar(d) == c
  {
    (c as int) - ('0' as int)
  }

  /** The decimal form of `n`, as `String(n)` gives it for an integer index. */
  function Decimal(n: nat): (r: string)
    ensures Canonical(r)
    decreases n
  {
    if n < 10 then [DigitChar(n)] else Decimal(n / 10) + [DigitChar(n % 10)]
  }

  /** The value of a string of decimal digits. */
  function DecimalValue(s: string): nat
    requires AllDigits(s)
    decreases |s|
  {
    if s == [] then 0 else DecimalValue(s[..|s| - 1]) * 10 + DigitValue(s[|s| - 1])
  }

  lemma {:induction false} DecimalValueOfDecimal(n: nat)
    ensures DecimalValue(Decimal(n)) == n
    decreases n
  {
    if n >= 10 {
      var d := Decimal(n / 10);
      var r := d + [DigitChar(n % 10)];
      assert r[..|r| - 1] == d;
      DecimalValueOfDecimal(n / 10);
    }
  }

  lemma {:induction false} DecimalOfDecimalValue(s: string)
    requires Canonical(s)
    ensures Decimal(DecimalValue(s)) == s
    decreases |s|
  {
    if |s| > 1 {
      var front := s[..|s| - 1];
      assert Canonical(front);
      DecimalOfDecimalValue(front);
      DecimalValuePositive(front);
      var n := DecimalValue(s);
      assert n / 10 == DecimalValue(front) && n % 10 == DigitValue(s[|s| - 1]);
      assert s == front + [s[|s| - 1]];
    }
  }

  /** A canonical numeral longer than one digit has a non-zero value. */
  lemma {:induction false} DecimalValuePositive(s: string)
    requires Canonical(s) && s[0] != '0'
    ensures DecimalValue(s) > 0
    decreases |s|
  {
    if |s| > 1 {
      var front := s[..|s| - 1];
      DecimalValuePositive(front);
    }
  }

  /** The longest prefix of `s` made of digits. */
  function DigitRun(s: string): (r: string)
    ensures r <= s && AllDigits(r)
    ensures |r| < |s| ==> !IsDigit(s[|r|])
    decreases |s|
  {
    if s == [] || !IsDigit(s[0]) then [] else [s[0]] + DigitRun(s[1..])
  }

  lemma {:induction false} DigitRunOfNumeral(d: string, tail: string)
    requires AllDigits(d) && (tail == [] || !IsDigit(tail[0]))
    ensures DigitRun(d + tail) == d
    decreases |d|
  {
    if d != [] {
      assert (d + tail)[1..] == d[1..] + tail;
      DigitRunOfNumeral(d[1..], tail);
    }
  }

  /** The text after the channel number for value `val`. */
  function Suffix(val: bool): string
  {
    if val then TrueSuffix else FalseSuffix
  }

  /** `JSON.stringify({cmd: 'set', ch: c.ch, val: c.val})`; the text reads
      back as the command it was written from. */
  function Encode(c: SetCmd): (r: string)
    ensures Decode(r) == Some(c)
  {
    DecodeSetText(c.ch, c.val);
    Prefix + Decimal(c.ch) + Suffix(c.val)
  }

  /** Reads the text of a `set` command back, or `None` for any other text. */
  function Decode(s: string): Option<SetCmd>
  {
    if |s| < |Prefix| || s[..|Prefix|] != Prefix then None
    else
      var rest := s[|Prefix|..];
      var digits := DigitRun(rest);
      var tail := rest[|digits|..];
      if !Canonical(digits) then None
      else if tail == TrueSuffix then Some(SetCmd(DecimalValue(digits), true))
      else if tail == FalseSuffix then Some(SetCmd(DecimalValue(digits), false))
      else None
  }

  /** The text of channel `ch` and value `val` decodes to that command. */
  lemma DecodeSetText(ch: nat, val: bool)
    ensures Decode(Prefix + Decimal(ch) + Suffix(val)) == Some(SetCmd(ch, val))
  {
    var d := Decimal(ch);
    var tail := Suffix(val);
    var s := Prefix + d + tail;
    assert s == Prefix + (d + tail);
    assert s[..|Prefix|] == Prefix;
    assert s[|Prefix|..] == d + tail;
    DigitRunOfNumeral(d, tail);
    assert (d + tail)[|d|..] == tail;
    DecimalValueOfDecimal(ch);
  }

  /** Every text that decodes is exactly the encoding of what it decodes to. */
  lemma EncodeDecode(s: string)
    requires Decode(s).Some?
    ensures Encode(Decode(s).value) == s
  {
    var rest := s[|Prefix|..];
    var digits := DigitRun(rest);
    var tail := rest[|digits|..];
    DecimalOfDecimalValue(digits);
    assert rest == digits + tail;
    assert s == Prefix + rest;
  }

  /** Distinct commands have distinct texts. */
  lemma EncodeInjective(c: SetCmd, c': SetCmd)
    requires Encode(c) == Encode(c')
    ensures c == c'
  {
    // Both texts decode to their own command.
  }
}
