/** What the line cleaning, the prefix tests and the hex codec do on every input. */
module WireLines {
  import opened Bytes
  import opened KeyExchange
  import opened Wire

  // ---------------------------------------------------------------- lines and commands

  predicate EndsLine(c: byte) {
    c == 0x00 || c == 0x0a || c == 0x0d
  }

  /** The cleaned line is what comes before the first NUL or line end, or the first 1023 bytes. */
  lemma {:induction false} CleanedExactly(plain: seq<byte>)
    ensures Cleaned(plain) == plain[..|Cleaned(plain)|] && |Cleaned(plain)| <= 1023
    ensures forall i :: 0 <= i < |Cleaned(plain)| ==> !EndsLine(plain[i])
    ensures |Cleaned(plain)| < 1023 && |Cleaned(plain)| < |plain| ==> EndsLine(plain[|Cleaned(plain)|])
  {
    var n := StrLen(plain);
    var text := plain[..n];
    var copy := if |text| >= BUFFER_SIZE then text[..BUFFER_SIZE - 1] else text;
    var k := LineLength(copy);
    assert forall i :: 0 <= i < |copy| ==> copy[i] == plain[i] && copy[i] in text;
    assert forall i :: 0 <= i < k ==> !LineEnd(copy[i]);
    if k < |copy| {
      assert LineEnd(copy[k]);
    }
  }

  /** What each prefix selects; no line starts with two of them, so the order of the tests does not matter. */
  lemma {:induction false} DispatchExactly(line: seq<byte>)
    ensures Dispatch(line) == Command.Create <==> CREATE <= line
    ensures Dispatch(line) == Command.Join <==> JOIN <= line
    ensures Dispatch(line) == Command.Leave <==> LEAVE <= line
    ensures Dispatch(line) == Command.Rooms <==> ROOMS <= line
    ensures Dispatch(line) == Command.Nick <==> NICK <= line
    ensures Dispatch(line) == Command.Users <==> USERS <= line || LIST <= line
    ensures Dispatch(line) == Command.Help <==> HELP <= line
    ensures Dispatch(line) == Command.Quit <==> QUIT <= line
    ensures Dispatch(line) == Command.KeyExchange <==> KEYEXCHANGE <= line
    ensures Dispatch(line) == Command.Message <==> E2EMSG <= line
  {
    SecondLetters(line);
  }

  /** The letters that tell the prefixes apart. */
  lemma SecondLetters(line: seq<byte>)
    ensures CREATE <= line ==> line[1] == 0x63
    ensures JOIN <= line ==> line[1] == 0x6a
    ensures LEAVE <= line ==> line[1] == 0x6c && line[2] == 0x65
    ensures ROOMS <= line ==> line[1] == 0x72
    ensures NICK <= line ==> line[1] == 0x6e
    ensures USERS <= line ==> line[1] == 0x75
    ensures LIST <= line ==> line[1] == 0x6c && line[2] == 0x69
    ensures HELP <= line ==> line[1] == 0x68
    ensures QUIT <= line ==> line[1] == 0x71
    ensures KEYEXCHANGE <= line ==> line[1] == 0x6b
    ensures E2EMSG <= line ==> line[1] == 0x65
  {
  }

  // ---------------------------------------------------------------- hex

  predicate LowerHex(c: byte) {
    0x30 <= c <= 0x39 || 0x61 <= c <= 0x66
  }

  lemma DigitIsLowerHex(b: byte)
    ensures LowerHex(HighDigit(b)) && LowerHex(LowDigit(b))
  {
  }

  /** The printed text: two lower-case hexadecimal digits a byte, the high one first. */
  lemma {:induction false} PrintedDigits(raw: seq<byte>, i: nat)
    requires i < |raw|
    ensures |HexText(raw)| == 2 * |raw| && LowerHex(HexText(raw)[2 * i]) && LowerHex(HexText(raw)[2 * i + 1])
    ensures HexValue(HexText(raw)[2 * i]) == Some(raw[i] >> 4) && HexValue(HexText(raw)[2 * i + 1]) == Some(raw[i] & 15)
  {
    DigitIsLowerHex(raw[i]);
    HexDigitValue(raw[i]);
  }

  /** Digits of either case are read as their value, any length but 288 is refused, whatever sscanf does elsewhere. */
  lemma {:induction false} ScansRegularText(text: seq<byte>, n: nat, irregular: seq<byte> -> Option<byte>)
    requires 2 * n <= |text| && forall i :: 0 <= i < 2 * n ==> HexValue(text[i]).Some?
    ensures ScanBytes(text, n, irregular).Some?
    ensures forall i :: 0 <= i < n ==>
              ScanBytes(text, n, irregular).value[i]
              == (HexValue(text[2 * i]).value << 4) | HexValue(text[2 * i + 1]).value
    decreases n
  {
    if n > 0 {
      ScansRegularText(text, n - 1, irregular);
      assert text[2 * (n - 1)..][0] == text[2 * (n - 1)] && text[2 * (n - 1)..][1] == text[2 * (n - 1) + 1];
    }
  }

  lemma {:induction false} WrongLengthRefused(text: seq<byte>, irregular: seq<byte> -> Option<byte>)
    ensures ParsePacket(text, irregular).Some? ==> |text| == 288
  {
  }
}
