/** Printing and parsing byte strings in hex. */
module HexCodec {

  type Byte = b: int | 0 <= b < 256

  /** A byte of a text, written as the character with that code; the program reports it so. */
  type TextByte = c: char | c < 256 as char

  /** A text as the program walks it: the bytes of its UTF-8 encoding. */
  type Text = seq<TextByte>

  datatype ParseResult = Parsed(bytes: seq<Byte>) | InvalidHex(character: TextByte, index: nat) | InvalidLength(length: nat)

  // ----- Printing -----

  /** The digits are 0 to 9 and a to f. */
  function DigitChar(n: int): TextByte
    requires 0 <= n < 16
  {
    if n < 10 then ('0' as int + n) as char else ('a' as int + n - 10) as char
  }

  /** Two digits a byte. */
  function Digits(bytes: seq<Byte>): (s: Text)
    ensures |s| == 2 * |bytes|
  {
    if bytes == [] then
      ""
    else
      var last := bytes[|bytes| - 1];
      Digits(bytes[..|bytes| - 1]) + [DigitChar(last / 16), DigitChar(last % 16)]
  }

  function Skips(bytes: seq<Byte>, skipLeadingZero: bool): bool {
    skipLeadingZero && bytes != [] && bytes[0] < 16
  }

  /** What is printed for a non-empty byte string. */
  function HexRaw(bytes: seq<Byte>, skipLeadingZero: bool): Text {
    "0x" + if Skips(bytes, skipLeadingZero) then Digits(bytes)[1..] else Digits(bytes)
  }

  lemma {:induction false} DigitsAt(bytes: seq<Byte>, k: nat)
    requires k < |bytes|
    ensures Digits(bytes)[2 * k] == DigitChar(bytes[k] / 16) && Digits(bytes)[2 * k + 1] == DigitChar(bytes[k] % 16)
    decreases |bytes|
  {
    if k < |bytes| - 1 {
      DigitsAt(bytes[..|bytes| - 1], k);
    }
  }

  /** Where each digit stands in what is printed. */
  lemma PrintedAt(bytes: seq<Byte>, skipLeadingZero: bool, i: nat)
    requires i < |bytes|
    ensures var skip, text := Skips(bytes, skipLeadingZero), HexRaw(bytes, skipLeadingZero);
            var at := 2 + 2 * i - if skip then 1 else 0;
            && |text| == 2 + 2 * |bytes| - (if skip then 1 else 0) && text[0] == '0' && text[1] == 'x'
            && (i > 0 || !skip ==> text[at] == DigitChar(bytes[i] / 16))
            && text[at + 1] == DigitChar(bytes[i] % 16)
  {
    DigitsAt(bytes, i);
  }

  /** Prints into the front of a buffer; all writes are within it. */
  method ToHexRaw(v: array<TextByte>, bytes: seq<Byte>, skipLeadingZero: bool) returns (printed: Text)
    requires bytes != [] && v.Length > 1 + |bytes| * 2
    modifies v
    ensures printed == HexRaw(bytes, skipLeadingZero)
    ensures |printed| <= v.Length && v[..|printed|] == printed && v[|printed|..] == old(v[..])[|printed|..]
  {
    ghost var text := HexRaw(bytes, skipLeadingZero);
    PrintedAt(bytes, skipLeadingZero, 0);
    v[0] := '0';
    v[1] := 'x';
    var idx := 2;
    var firstNibble := bytes[0] / 16;
    if firstNibble != 0 || !skipLeadingZero {
      v[idx] := DigitChar(firstNibble);
      idx := idx + 1;
    }
    v[idx] := DigitChar(bytes[0] % 16);
    idx := idx + 1;
    for i := 1 to |bytes|
      invariant idx == 2 + 2 * i - if Skips(bytes, skipLeadingZero) then 1 else 0
      invariant forall k :: 0 <= k < idx ==> v[k] == text[k]
      invariant forall k :: idx <= k < v.Length ==> v[k] == old(v[k])
    {
      PrintedAt(bytes, skipLeadingZero, i);
      v[idx] := DigitChar(bytes[i] / 16);
      v[idx + 1] := DigitChar(bytes[i] % 16);
      idx := idx + 2;
    }
    printed := v[..idx];
  }

  /** Without its leading zero bytes. */
  function Trimmed(bytes: seq<Byte>): (t: seq<Byte>)
    ensures |t| <= |bytes| && (t != [] ==> t[0] != 0)
  {
    if bytes != [] && bytes[0] == 0 then Trimmed(bytes[1..]) else bytes
  }

  function SerializeRaw(bytes: seq<Byte>): Text {
    if bytes == [] then "0x" else HexRaw(bytes, false)
  }

  function SerializeUint(bytes: seq<Byte>): Text {
    if Trimmed(bytes) == [] then "0x0" else HexRaw(Trimmed(bytes), true)
  }

  // ----- Parsing -----

  function DigitValue(c: TextByte): int {
    if 'A' <= c <= 'F' then c as int - 'A' as int + 10
    else if 'a' <= c <= 'f' then c as int - 'a' as int + 10
    else if '0' <= c <= '9' then c as int - '0' as int
    else -1
  }

  predicate IsBlank(c: TextByte) {
    c == ' ' || c == '\r' || c == '\n' || c == '\t'
  }

  /** The scanner between two characters: the last digits read, whether one is pending, the output. */
  datatype Scan = Scan(buf: Byte, modulus: nat, out: seq<Byte>) | Stuck(character: TextByte, index: nat)

  /** `buf << 4` in a byte: the upper half is lost. */
  function ShiftedLeft(buf: Byte): Byte {
    buf % 16 * 16
  }

  /** `buf >> 4`. */
  function ShiftedRight(buf: Byte): Byte {
    buf / 16
  }

  /** A digit put into the empty lower half of a byte. */
  function WithDigit(shifted: Byte, c: TextByte): Byte
    requires shifted % 16 == 0 && DigitValue(c) >= 0
  {
    shifted + DigitValue(c)
  }

  /** One character. */
  function ScanChar(st: Scan, c: TextByte, index: nat): Scan
    requires st.Scan?
  {
    var shifted := ShiftedLeft(st.buf);
    if IsBlank(c) then
      st.(buf := ShiftedRight(shifted))
    else if DigitValue(c) < 0 then
      Stuck(c, index)
    else
      var buf := WithDigit(shifted, c);
      if st.modulus + 1 == 2 then Scan(buf, 0, st.out + [buf]) else Scan(buf, st.modulus + 1, st.out)
  }

  /** A text of odd length starts as if half a byte had been read. */
  function ScanText(v: Text, n: nat): (st: Scan)
    requires n <= |v|
    ensures st.Scan? ==> st.modulus < 2 && 2 * |st.out| + st.modulus <= |v| % 2 + n
  {
    if n == 0 then
      Scan(0, |v| % 2, [])
    else
      var before := ScanText(v, n - 1);
      if before.Scan? then ScanChar(before, v[n - 1], n - 1) else before
  }

  function FromHex(v: Text, stripped: bool): ParseResult {
    match ScanText(v, |v|)
    case Scan(_, _, out) => Parsed(out)
    case Stuck(c, index) => InvalidHex(c, index + if stripped then 2 else 0)
  }

  lemma RoomFor(length: nat, n: nat, written: nat)
    requires n <= length && 2 * written <= length % 2 + n
    ensures written <= (length + 1) / 2
  {
  }

  /** Parses into the front of a slice with room for half the characters, rounded up. */
  method FromHexRaw(v: Text, bytes: array<Byte>, stripped: bool) returns (r: ParseResult)
    requires bytes.Length >= (|v| + 1) / 2
    modifies bytes
    ensures r == FromHex(v, stripped)
    ensures r.Parsed? ==> |r.bytes| <= bytes.Length && bytes[..|r.bytes|] == r.bytes
                          && bytes[|r.bytes|..] == old(bytes[..])[|r.bytes|..]
  {
    var modulus: nat, buf: Byte, pos: nat := |v| % 2, 0, 0;
    ghost var out: seq<Byte> := [];
    for index := 0 to |v|
      invariant ScanText(v, index) == Scan(buf, modulus, out)
      invariant pos == |out| && forall k :: 0 <= k < pos ==> bytes[k] == out[k]
      invariant forall k :: pos <= k < bytes.Length ==> bytes[k] == old(bytes[k])
    {
      var c := v[index];
      var shifted := ShiftedLeft(buf);
      if IsBlank(c) {
        buf := ShiftedRight(shifted);
        continue;
      }
      if DigitValue(c) < 0 {
        StuckStays(v, index + 1, |v|);
        return InvalidHex(c, index + if stripped then 2 else 0);
      }
      buf := WithDigit(shifted, c);
      modulus := modulus + 1;
      if modulus == 2 {
        modulus := 0;
        assert ScanText(v, index + 1) == Scan(buf, 0, out + [buf]);
        RoomFor(|v|, index + 1, |out| + 1);
        bytes[pos] := buf;
        out := out + [buf];
        pos := pos + 1;
      }
    }
    assert bytes[..pos] == out;
    return Parsed(bytes[..pos]);
  }

  lemma {:induction false} StuckStays(v: Text, n: nat, m: nat)
    requires n <= m <= |v| && ScanText(v, n).Stuck?
    ensures ScanText(v, m) == ScanText(v, n)
    decreases m
  {
    if n < m {
      StuckStays(v, n, m - 1);
    }
  }

  datatype ExpectedLen = Exact(length: nat) | Between(min: nat, max: nat)

  /** `deserialize_check_len` on a string: the prefix is optional, the length counts digits. */
  function DeserializeCheckLen(text: Text, expected: ExpectedLen): ParseResult {
    var stripped := |text| >= 2 && text[..2] == "0x";
    var v := if stripped then text[2..] else text;
    if (match expected
        case Exact(length) => |v| == 2 * length
        case Between(min, max) => 2 * min < |v| <= 2 * max) then
      FromHex(v, stripped)
    else
      InvalidLength(|v|)
  }

  // ----- What is parsed, of any text -----

  const LOWER: Text := "0123456789abcdef"
  const UPPER: Text := "0123456789ABCDEF"
  const BLANKS: Text := " \r\n\t"

  /** The digit table: printed in lower case, read in either. */
  lemma DigitTable(n: nat)
    requires n < 16
    ensures DigitChar(n) == LOWER[n] && DigitValue(LOWER[n]) == n && DigitValue(UPPER[n]) == n
  {
    assert n == 0 || n == 1 || n == 2 || n == 3 || n == 4 || n == 5 || n == 6 || n == 7
        || n == 8 || n == 9 || n == 10 || n == 11 || n == 12 || n == 13 || n == 14 || n == 15;
  }

  /** Nothing else is a digit, and there are four blanks. */
  lemma NoOtherDigits(c: TextByte)
    ensures DigitValue(c) >= 0 <==> c in LOWER || c in UPPER
    ensures DigitValue(c) >= 0 ==> DigitValue(c) < 16 && (c == LOWER[DigitValue(c)] || c == UPPER[DigitValue(c)])
    ensures IsBlank(c) <==> c in BLANKS
  {
    if c in LOWER {
      var n :| 0 <= n < 16 && LOWER[n] == c;
      DigitTable(n);
    }
    if c in UPPER {
      var n :| 0 <= n < 16 && UPPER[n] == c;
      DigitTable(n);
    }
    if DigitValue(c) >= 0 {
      DigitTable(DigitValue(c));
      assert c == LOWER[DigitValue(c)] || c == UPPER[DigitValue(c)];
    }
    assert BLANKS[0] == ' ' && BLANKS[1] == '\r' && BLANKS[2] == '\n' && BLANKS[3] == '\t';
  }

  /** The values of the digits among the first `n` bytes, behind a zero if the text has odd length. */
  function Nibbles(v: Text, n: nat): seq<nat>
    requires n <= |v|
  {
    if n == 0 then
      if |v| % 2 == 1 then [0] else []
    else
      Nibbles(v, n - 1) + if DigitValue(v[n - 1]) >= 0 then [DigitValue(v[n - 1])] else []
  }

  /** The bytes are the digits in pairs; a last one without a partner is dropped. */
  ghost predicate Pairs(nibbles: seq<nat>, bytes: seq<Byte>) {
    && |bytes| == |nibbles| / 2
    && forall k :: 0 <= k < |bytes| ==> bytes[k] == 16 * nibbles[2 * k] + nibbles[2 * k + 1]
  }

  ghost predicate Legal(c: TextByte) {
    DigitValue(c) >= 0 || IsBlank(c)
  }

  /** Where the scanner is after `n` bytes, all of them legal. */
  ghost predicate ScannedTo(nibbles: seq<nat>, st: Scan)
    requires st.Scan?
  {
    && st.modulus == |nibbles| % 2 && Pairs(nibbles, st.out)
    && st.buf % 16 == if nibbles == [] then 0 else nibbles[|nibbles| - 1]
  }

  ghost predicate AllLegal(v: Text, n: nat)
    requires n <= |v|
  {
    forall i :: 0 <= i < n ==> Legal(v[i])
  }

  /** It is there, or stuck at the first byte that is not legal. */
  ghost predicate ScannedAs(v: Text, n: nat, st: Scan)
    requires n <= |v|
  {
    match st
    case Scan(_, _, _) => ScannedTo(Nibbles(v, n), st) && AllLegal(v, n)
    case Stuck(c, index) => index < n && c == v[index] && !Legal(c) && AllLegal(v, index)
  }

  lemma {:induction false} ScanExactly(v: Text, n: nat)
    requires n <= |v|
    ensures ScannedAs(v, n, ScanText(v, n))
  {
    if n > 0 {
      ScanExactly(v, n - 1);
      if ScanText(v, n - 1).Scan? {
        ScanCharExactly(v, n - 1, ScanText(v, n - 1));
      }
    }
  }

  lemma ScanCharExactly(v: Text, n: nat, st: Scan)
    requires n < |v| && st.Scan? && ScannedAs(v, n, st)
    ensures ScannedAs(v, n + 1, ScanChar(st, v[n], n))
  {
    if IsBlank(v[n]) {
      BlankKeeps(st, v[n], n, Nibbles(v, n));
    } else if DigitValue(v[n]) >= 0 {
      NoOtherDigits(v[n]);
      DigitAdds(st, v[n], n, Nibbles(v, n));
    }
  }

  lemma BlankKeeps(st: Scan, c: TextByte, index: nat, nibbles: seq<nat>)
    requires st.Scan? && IsBlank(c) && ScannedTo(nibbles, st)
    ensures ScanChar(st, c, index).Scan? && ScannedTo(nibbles, ScanChar(st, c, index)) && DigitValue(c) < 0
  {
  }

  lemma DigitAdds(st: Scan, c: TextByte, index: nat, nibbles: seq<nat>)
    requires st.Scan? && 0 <= DigitValue(c) < 16 && ScannedTo(nibbles, st)
    ensures !IsBlank(c) && ScanChar(st, c, index).Scan?
    ensures ScannedTo(nibbles + [DigitValue(c)], ScanChar(st, c, index))
  {
    var more := nibbles + [DigitValue(c)];
    var buf := WithDigit(ShiftedLeft(st.buf), c);
    assert buf == 16 * (st.buf % 16) + DigitValue(c) && buf % 16 == DigitValue(c);
    if st.modulus == 1 {
      PairAdded(nibbles, st.out, DigitValue(c), buf);
    } else {
      assert |more| / 2 == |nibbles| / 2;
      assert Pairs(more, st.out);
    }
  }

  lemma PairAdded(nibbles: seq<nat>, out: seq<Byte>, digit: nat, b: Byte)
    requires Pairs(nibbles, out) && |nibbles| % 2 == 1 && b == 16 * nibbles[|nibbles| - 1] + digit
    ensures Pairs(nibbles + [digit], out + [b])
  {
    assert |nibbles| == 2 * |out| + 1;
  }

  /** A text of digits and blanks is parsed to the bytes of its digits; any other is refused for its first
      byte that is neither, at its place, counted with the prefix if there was one. */
  lemma ParsesExactly(v: Text, stripped: bool)
    ensures match FromHex(v, stripped)
            case Parsed(bytes) => Pairs(Nibbles(v, |v|), bytes) && AllLegal(v, |v|)
            case InvalidHex(c, index) =>
              var at := index - if stripped then 2 else 0;
              0 <= at < |v| && c == v[at] && !Legal(c) && AllLegal(v, at)
            case InvalidLength(_) => false
  {
    ScanExactly(v, |v|);
  }

  /** The prefix is optional and does not count towards the length, but does towards the index of a byte
      that is refused. Every other length than the one expected is refused. */
  lemma PrefixIsOptional(v: Text, expected: ExpectedLen)
    requires |v| < 2 || v[..2] != "0x"
    ensures DeserializeCheckLen(v, expected).InvalidLength? <==>
            match expected
            case Exact(length) => |v| != 2 * length
            case Between(min, max) => |v| <= 2 * min || |v| > 2 * max
    ensures DeserializeCheckLen("0x" + v, expected)
            == match DeserializeCheckLen(v, expected)
               case Parsed(bytes) => Parsed(bytes)
               case InvalidHex(c, index) => InvalidHex(c, index + 2)
               case InvalidLength(length) => InvalidLength(length)
    ensures DeserializeCheckLen(v, expected).InvalidLength? ==> DeserializeCheckLen(v, expected).length == |v|
    ensures !DeserializeCheckLen(v, expected).InvalidLength? ==> DeserializeCheckLen(v, expected) == FromHex(v, false)
  {
    assert ("0x" + v)[..2] == "0x" && ("0x" + v)[2..] == v;
  }

  // ----- Round trips -----

  lemma DigitRoundTrip(n: int)
    requires 0 <= n < 16
    ensures DigitValue(DigitChar(n)) == n && !IsBlank(DigitChar(n))
  {
  }

  /** From position `start` on, the text has the digits of `bytes`. */
  ghost predicate Prints(v: Text, start: nat, bytes: seq<Byte>) {
    && |v| == start + 2 * |bytes|
    && forall k :: 0 <= k < |bytes| ==>
         v[start + 2 * k] == DigitChar(bytes[k] / 16) && v[start + 2 * k + 1] == DigitChar(bytes[k] % 16)
  }

  /** One digit: it becomes the low half of the buffer, and completes a byte if one is pending. */
  lemma ScanDigit(v: Text, at: nat, digit: int)
    requires at < |v| && ScanText(v, at).Scan? && 0 <= digit < 16 && v[at] == DigitChar(digit)
    ensures var st := ScanText(v, at);
            var b := st.buf % 16 * 16 + digit;
            ScanText(v, at + 1) == if st.modulus == 1 then Scan(b, 0, st.out + [b]) else Scan(b, st.modulus + 1, st.out)
  {
    DigitRoundTrip(digit);
  }

  lemma ScanByte(v: Text, at: nat, b: Byte)
    requires at + 2 <= |v| && ScanText(v, at).Scan? && ScanText(v, at).modulus == 0
    requires v[at] == DigitChar(b / 16) && v[at + 1] == DigitChar(b % 16)
    ensures ScanText(v, at + 2) == Scan(b, 0, ScanText(v, at).out + [b])
  {
    ScanDigit(v, at, b / 16);
    ScanDigit(v, at + 1, b % 16);
    Recomposed(ScanText(v, at).buf % 16, b);
  }

  lemma Recomposed(x: int, b: Byte)
    ensures (x * 16 + b / 16) % 16 * 16 + b % 16 == b
  {
    assert (x * 16 + b / 16) % 16 == b / 16;
  }

  lemma {:induction false} ScanBytes(v: Text, start: nat, bytes: seq<Byte>, n: nat)
    requires Prints(v, start, bytes) && n <= |bytes| && ScanText(v, start).Scan? && ScanText(v, start).modulus == 0
    ensures var st := ScanText(v, start + 2 * n);
            st.Scan? && st.modulus == 0 && st.out == ScanText(v, start).out + bytes[..n]
  {
    if n > 0 {
      ScanBytes(v, start, bytes, n - 1);
      assert v[start + 2 * (n - 1)] == DigitChar(bytes[n - 1] / 16);
      ScanByte(v, start + 2 * (n - 1), bytes[n - 1]);
      assert bytes[..n] == bytes[..n - 1] + [bytes[n - 1]];
    }
  }

  lemma DigitsPrint(bytes: seq<Byte>)
    ensures Prints(Digits(bytes), 0, bytes)
  {
    forall k | 0 <= k < |bytes|
      ensures Digits(bytes)[2 * k] == DigitChar(bytes[k] / 16) && Digits(bytes)[2 * k + 1] == DigitChar(bytes[k] % 16)
    {
      DigitsAt(bytes, k);
    }
  }

  lemma ShortenedPrint(v: Text, bytes: seq<Byte>)
    requires bytes != [] && bytes[0] < 16 && Prints(v, 0, bytes)
    ensures Prints(v[1..], 1, bytes[1..]) && v[1..][0] == DigitChar(bytes[0])
  {
    var w, rest := v[1..], bytes[1..];
    assert v[2 * 0 + 1] == DigitChar(bytes[0] % 16);
    forall k | 0 <= k < |rest|
      ensures w[1 + 2 * k] == DigitChar(rest[k] / 16) && w[1 + 2 * k + 1] == DigitChar(rest[k] % 16)
    {
      assert v[0 + 2 * (k + 1)] == DigitChar(bytes[k + 1] / 16) && v[0 + 2 * (k + 1) + 1] == DigitChar(bytes[k + 1] % 16);
    }
  }

  lemma ScanWhole(v: Text, bytes: seq<Byte>)
    requires Prints(v, 0, bytes)
    ensures FromHex(v, true) == Parsed(bytes)
  {
    ScanBytes(v, 0, bytes, |bytes|);
    assert [] + bytes[..|bytes|] == bytes;
  }

  lemma ScanShortened(v: Text, bytes: seq<Byte>)
    requires bytes != [] && bytes[0] < 16 && Prints(v, 1, bytes[1..]) && v[0] == DigitChar(bytes[0])
    ensures FromHex(v, true) == Parsed(bytes)
  {
    var rest := bytes[1..];
    ScanDigit(v, 0, bytes[0]);
    assert ScanText(v, 1) == Scan(bytes[0], 0, [bytes[0]]);
    ScanBytes(v, 1, rest, |rest|);
    assert rest[..|rest|] == rest && [bytes[0]] + rest == bytes;
  }

  /** Parsing what is printed raw gives the bytes back, and the exact length is accepted. */
  lemma RawRoundTrip(bytes: seq<Byte>)
    ensures DeserializeCheckLen(SerializeRaw(bytes), Exact(|bytes|)) == Parsed(bytes)
  {
    assert SerializeRaw(bytes)[2..] == Digits(bytes) && SerializeRaw(bytes)[..2] == "0x";
    DigitsPrint(bytes);
    ScanWhole(Digits(bytes), bytes);
  }

  function Value(bytes: seq<Byte>): nat {
    if bytes == [] then 0 else Value(bytes[..|bytes| - 1]) * 256 + bytes[|bytes| - 1]
  }

  lemma {:induction false} LeadingZeroKeepsValue(bytes: seq<Byte>)
    requires bytes != [] && bytes[0] == 0
    ensures Value(bytes[1..]) == Value(bytes)
    decreases |bytes|
  {
    if |bytes| > 1 {
      LeadingZeroKeepsValue(bytes[..|bytes| - 1]);
      assert bytes[..|bytes| - 1][1..] == bytes[1..][..|bytes| - 2];
    }
  }

  lemma {:induction false} TrimmedKeepsValue(bytes: seq<Byte>)
    ensures Value(Trimmed(bytes)) == Value(bytes)
    decreases |bytes|
  {
    if bytes != [] && bytes[0] == 0 {
      LeadingZeroKeepsValue(bytes);
      TrimmedKeepsValue(bytes[1..]);
    }
  }

  /** Parsing what is printed as a number, leading zero bytes and nibble trimmed, gives the trimmed
      bytes, one zero byte for zero, and in any case the same value; and the length is accepted. */
  lemma UintRoundTrip(bytes: seq<Byte>)
    requires bytes != []
    ensures var r := DeserializeCheckLen(SerializeUint(bytes), Between(0, |bytes|));
            r == Parsed(if Trimmed(bytes) == [] then [0] else Trimmed(bytes)) && Value(r.bytes) == Value(bytes)
  {
    TrimmedKeepsValue(bytes);
    if Trimmed(bytes) == [] {
      ParseZero();
    } else {
      ParsePrintedNumber(Trimmed(bytes), |bytes|);
    }
  }

  lemma ParsePrintedNumber(bytes: seq<Byte>, max: nat)
    requires 0 < |bytes| <= max
    ensures DeserializeCheckLen(HexRaw(bytes, true), Between(0, max)) == Parsed(bytes)
  {
    var text := HexRaw(bytes, true);
    DigitsPrint(bytes);
    assert text[..2] == "0x";
    if Skips(bytes, true) {
      assert text[2..] == Digits(bytes)[1..];
      ShortenedPrint(Digits(bytes), bytes);
      ScanShortened(Digits(bytes)[1..], bytes);
    } else {
      assert text[2..] == Digits(bytes);
      ScanWhole(Digits(bytes), bytes);
    }
  }

  lemma ParseZero()
    ensures FromHex("0", true) == Parsed([0]) && "0x0"[2..] == "0" && "0x0"[..2] == "0x"
    ensures Value([0]) == 0
  {
    ScanShortened("0", [0]);
    assert [0][..0] == [];
  }

  /** A number is printed without a leading zero, unless it is zero. */
  lemma NoLeadingZero(bytes: seq<Byte>)
    ensures var text := SerializeUint(bytes);
            && |text| > 2 && text[..2] == "0x"
            && (text[2] == '0' <==> text == "0x0") && (text == "0x0" <==> forall i :: 0 <= i < |bytes| ==> bytes[i] == 0)
  {
    TrimmedExactly(bytes);
    var trimmed, text := Trimmed(bytes), SerializeUint(bytes);
    if trimmed != [] {
      PrintedAt(trimmed, true, 0);
      assert text[2] == if trimmed[0] < 16 then DigitChar(trimmed[0] % 16) else DigitChar(trimmed[0] / 16);
      assert text[2] != '0';
    }
  }

  lemma {:induction false} TrimmedExactly(bytes: seq<Byte>)
    ensures Trimmed(bytes) == [] <==> forall i :: 0 <= i < |bytes| ==> bytes[i] == 0
    decreases |bytes|
  {
    if bytes != [] && bytes[0] == 0 {
      TrimmedExactly(bytes[1..]);
      assert forall i :: 0 < i < |bytes| ==> bytes[i] == bytes[1..][i - 1];
      assert forall i :: 0 <= i < |bytes[1..]| ==> bytes[1..][i] == bytes[i + 1];
    }
  }
}
