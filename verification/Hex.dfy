/** Hexadecimal text of integers and byte strings: the printers and parsers of kutil. */
module Hex {

  import opened Wire

  // ------------------------------------------------------------------ digits

  /** kCharToInt: the value of a digit, 16 for any other character. */
  function CharToInt(c: char): byte {
    if '0' <= c <= '9' then (c as int - 0x30) as byte
    else if 'A' <= c <= 'F' then (c as int - 55) as byte
    else if 'a' <= c <= 'f' then (c as int - 87) as byte
    else 16
  }

  predicate IsDigit(c: char) {
    '0' <= c <= '9' || 'A' <= c <= 'F' || 'a' <= c <= 'f'
  }

  // The digit that %x prints.
  function Digit(n: byte): char
    requires n < 16
  {
    if n < 8 then
      if n < 4 then (if n == 0 then '0' else if n == 1 then '1' else if n == 2 then '2' else '3')
      else (if n == 4 then '4' else if n == 5 then '5' else if n == 6 then '6' else '7')
    else
      if n < 12 then (if n == 8 then '8' else if n == 9 then '9' else if n == 10 then 'a' else 'b')
      else (if n == 12 then 'c' else if n == 13 then 'd' else if n == 14 then 'e' else 'f')
  }

  lemma DigitValue(n: byte)
    requires n < 16
    ensures IsDigit(Digit(n)) && CharToInt(Digit(n)) == n && '0' <= Digit(n) <= 'f' && !('A' <= Digit(n) <= 'F')
  {}

  lemma IsDigitValue(c: char)
    ensures CharToInt(c) <= 0x0F <==> IsDigit(c)
  {}

  // A digit as %x would print it.
  function LowerCase(c: char): char {
    if 'A' <= c <= 'F' then (c as int + 32) as char else c
  }

  lemma DecimalDigit(c: char)
    requires '0' <= c <= '9'
    ensures CharToInt(c) < 16 && Digit(CharToInt(c)) == c
  {}

  lemma UpperDigit(c: char)
    requires 'A' <= c <= 'F'
    ensures CharToInt(c) < 16 && Digit(CharToInt(c)) == LowerCase(c)
  {}

  lemma LowerDigit(c: char)
    requires 'a' <= c <= 'f'
    ensures CharToInt(c) < 16 && Digit(CharToInt(c)) == c
  {}

  lemma DigitOfValue(c: char)
    requires IsDigit(c)
    ensures CharToInt(c) < 16 && Digit(CharToInt(c)) == LowerCase(c)
  {
    if c <= '9' { DecimalDigit(c); } else if c <= 'F' { UpperDigit(c); } else { LowerDigit(c); }
  }

  // ------------------------------------------------------------------- text

  function High(b: byte): (n: byte)
    ensures n < 16
  {
    b >> 4
  }

  function Low(b: byte): (n: byte)
    ensures n < 16
  {
    b & 0x0F
  }

  lemma Nibbles(b: byte)
    ensures (High(b) << 4) | Low(b) == b && Low(b) | (High(b) << 4) == b
  {}

  lemma Joined(h: byte, l: byte)
    requires h < 16 && l < 16
    ensures High(l | (h << 4)) == h && Low(l | (h << 4)) == l
  {}

  /** The text of a byte string, two digits a byte. */
  function Text(m: seq<byte>): (s: string)
    ensures |s| == 2 * |m|
  {
    seq(2 * |m|, i requires 0 <= i < 2 * |m| => if i % 2 == 0 then Digit(High(m[i / 2])) else Digit(Low(m[i / 2])))
  }

  lemma TextAt(m: seq<byte>, i: nat)
    requires i < |m|
    ensures Text(m)[2 * i] == Digit(High(m[i])) && Text(m)[2 * i + 1] == Digit(Low(m[i]))
  {}

  function Reversed(m: seq<byte>): (r: seq<byte>)
    ensures |r| == |m|
  {
    seq(|m|, i requires 0 <= i < |m| => m[|m| - 1 - i])
  }

  /** sprintf(buffer, "%02x", b): two digits and the terminator. */
  method PrintByte(buffer: array<char>, at: nat, b: byte) returns (printed: nat)
    requires at + 2 < buffer.Length
    modifies buffer
    ensures printed == 2 && buffer[at] == Digit(High(b)) && buffer[at + 1] == Digit(Low(b)) && buffer[at + 2] == '\0'
    ensures forall i :: 0 <= i < buffer.Length && !(at <= i <= at + 2) ==> buffer[i] == old(buffer[i])
  {
    buffer[at] := Digit(High(b));
    buffer[at + 1] := Digit(Low(b));
    buffer[at + 2] := '\0';
    printed := 2;
  }

  /** kByteToHexString. */
  method ByteToHexString(outputString: array<char>, bytes: seq<byte>) returns (r: nat)
    requires outputString.Length > 2 * |bytes|
    modifies outputString
    ensures r == 2 * |bytes| && outputString[..r] == Text(bytes)
    ensures bytes != [] ==> outputString[r] == '\0'
  {
    var buffer := 0;
    for i := 0 to |bytes|
      invariant buffer == 2 * i
      invariant forall k :: 0 <= k < buffer ==> outputString[k] == Text(bytes)[k]
      invariant i > 0 ==> outputString[buffer] == '\0'
    {
      var printed := PrintByte(outputString, buffer, bytes[i]);
      TextAt(bytes, i);
      buffer := buffer + printed;
    }
    r := 2 * |bytes|;
  }

  /** kIntToStr on a little-endian integer of any width: the most significant byte first. */
  method IntToStr(destination: array<char>, source: seq<byte>) returns (r: int)
    requires destination.Length > 2 * |source|
    modifies destination
    ensures r == 0 && destination[..2 * |source|] == Text(Reversed(source))
    ensures source != [] ==> destination[2 * |source|] == '\0'
    ensures AllDigits(destination[..2 * |source|], 2 * |source|)
        && Numeral(destination[..2 * |source|]) == Number(source)
  {
    hide Numeral, Number, AllDigits;
    ghost var text := Text(Reversed(source));
    var buffer := 0;
    var i := |source| - 1;
    while i >= 0
      invariant -1 <= i < |source| && buffer == 2 * (|source| - 1 - i)
      invariant forall k :: 0 <= k < buffer ==> destination[k] == text[k]
      invariant buffer > 0 ==> destination[buffer] == '\0'
    {
      var printed := PrintByte(destination, buffer, source[i]);
      TextAt(Reversed(source), |source| - 1 - i);
      buffer := buffer + printed;
      i := i - 1;
    }
    r := 0;
    assert destination[..2 * |source|] == text;
    TextIsNumeral(source);
  }

  // ---------------------------------------------------------------- kStrToInt

  // The byte that two digits stand for.
  function Pair(high: char, low: char): byte {
    CharToInt(low) | (CharToInt(high) << 4)
  }

  predicate AllDigits(s: string, n: nat)
    requires n <= |s|
  {
    forall i :: 0 <= i < n ==> IsDigit(s[i])
  }

  /** The little-endian bytes of a hexadecimal number of `2 * n` digits. */
  function Value(s: string, n: nat): (m: seq<byte>)
    requires |s| >= 2 * n
    ensures |m| == n
  {
    seq(n, i requires 0 <= i < n => Pair(s[2 * (n - 1 - i)], s[2 * (n - 1 - i) + 1]))
  }

  // Two digits into byte `at` of the destination, the lower digit first.
  method ReadPair(destination: array<byte>, at: nat, high: char, low: char) returns (ok: bool)
    requires at < destination.Length
    modifies destination
    ensures ok <==> IsDigit(high) && IsDigit(low)
    ensures ok ==> destination[at] == Pair(high, low)
    ensures forall i :: 0 <= i < destination.Length && i != at ==> destination[i] == old(destination[i])
  {
    IsDigitValue(high);
    IsDigitValue(low);
    var x := CharToInt(low);
    if x > 0x0f {
      return false;
    }
    destination[at] := x;
    x := CharToInt(high);
    if x > 0x0f {
      return false;
    }
    destination[at] := destination[at] | (x << 4);
    ok := true;
  }

  /** kStrToInt: it succeeds exactly on digits only, and then stores their value. */
  method StrToInt(destination: array<byte>, source: string) returns (returnStatus: int)
    requires |source| >= 2 * destination.Length
    modifies destination
    ensures returnStatus == if AllDigits(source, 2 * destination.Length) then 2 * destination.Length else -1
    ensures returnStatus >= 0 ==> destination[..] == Value(source, destination.Length)
    ensures returnStatus >= 0 ==> Number(destination[..]) == Numeral(source[..2 * destination.Length])
  {
    hide Pair;
    var size := destination.Length;
    returnStatus := 2 * size;
    var psrc := 2 * size - 1;
    var pdst := 0;
    while pdst < size
      invariant 0 <= pdst <= size && psrc == 2 * (size - pdst) - 1 && returnStatus == 2 * size
      invariant forall i :: psrc < i < 2 * size ==> IsDigit(source[i])
      invariant forall i :: 0 <= i < pdst ==> destination[i] == Value(source, size)[i]
    {
      var ok := ReadPair(destination, pdst, source[psrc - 1], source[psrc]);
      if !ok {
        returnStatus := -1;
        break;
      }
      assert 2 * (size - 1 - pdst) == psrc - 1;
      psrc := psrc - 2;
      pdst := pdst + 1;
    }
    if returnStatus >= 0 { StoredNumeral(source, size, destination[..]); }
  }

  lemma StoredNumeral(source: string, n: nat, stored: seq<byte>)
    requires |source| >= 2 * n && AllDigits(source, 2 * n) && |stored| == n
    requires forall i :: 0 <= i < n ==> stored[i] == Value(source, n)[i]
    ensures Number(stored) == Numeral(source[..2 * n])
  {
    hide Pair;
    ValueIsNumeral(source[..2 * n], n);
    assert stored == Value(source[..2 * n], n);
  }

  /** kStrToInt undoes kIntToStr, for every width and value. */
  lemma IntRoundTrip(source: seq<byte>, s: string)
    requires s == Text(Reversed(source))
    ensures AllDigits(s, |s|) && Value(s, |source|) == source
  {
    hide Pair;
    TextDigits(Reversed(source));
    var n := |source|;
    forall i: nat | i < n ensures Pair(s[2 * (n - 1 - i)], s[2 * (n - 1 - i) + 1]) == source[i] {
      TextPair(Reversed(source), n - 1 - i);
    }
    ValueFrom(s, n, source);
  }

  lemma ValueFrom(s: string, n: nat, m: seq<byte>)
    requires |s| == 2 * n && |m| == n
    requires forall i: nat :: i < n ==> Pair(s[2 * (n - 1 - i)], s[2 * (n - 1 - i) + 1]) == m[i]
    ensures Value(s, n) == m
  {}

  lemma TextDigits(m: seq<byte>)
    ensures AllDigits(Text(m), 2 * |m|)
  {
    forall i | 0 <= i < 2 * |m| ensures IsDigit(Text(m)[i]) {
      DigitValue(High(m[i / 2]));
      DigitValue(Low(m[i / 2]));
    }
  }

  lemma TextPair(m: seq<byte>, i: nat)
    requires i < |m|
    ensures Pair(Text(m)[2 * i], Text(m)[2 * i + 1]) == m[i]
  {
    TextAt(m, i);
    DigitValue(High(m[i]));
    DigitValue(Low(m[i]));
    Nibbles(m[i]);
  }

  /** kIntToStr undoes kStrToInt, but for the case of the letters. */
  lemma TextRoundTrip(s: string, n: nat)
    requires |s| == 2 * n && AllDigits(s, |s|)
    ensures forall i :: 0 <= i < |s| ==> Text(Reversed(Value(s, n)))[i] == LowerCase(s[i])
  {
    forall i | 0 <= i < |s| ensures Text(Reversed(Value(s, n)))[i] == LowerCase(s[i]) {
      ReversedValue(s, n, i / 2);
      DigitAt(Reversed(Value(s, n)), s, i);
    }
  }

  lemma DigitAt(m: seq<byte>, s: string, i: nat)
    requires 2 * |m| == |s| && i < |s| && AllDigits(s, |s|) && m[i / 2] == Pair(s[2 * (i / 2)], s[2 * (i / 2) + 1])
    ensures Text(m)[i] == LowerCase(s[i])
  {
    DigitsAt(m, s, i / 2);
    if i % 2 == 0 { assert i == 2 * (i / 2); } else { assert i == 2 * (i / 2) + 1; }
  }

  lemma ReversedValue(s: string, n: nat, k: nat)
    requires |s| >= 2 * n && k < n
    ensures Reversed(Value(s, n))[k] == Pair(s[2 * k], s[2 * k + 1])
  {}

  lemma DigitsAt(m: seq<byte>, s: string, k: nat)
    requires k < |m| && 2 * |m| == |s| && AllDigits(s, |s|) && m[k] == Pair(s[2 * k], s[2 * k + 1])
    ensures Text(m)[2 * k] == LowerCase(s[2 * k]) && Text(m)[2 * k + 1] == LowerCase(s[2 * k + 1])
  {
    PairText(s[2 * k], s[2 * k + 1]);
    TextAt(m, k);
  }

  lemma PairText(h: char, l: char)
    requires IsDigit(h) && IsDigit(l)
    ensures Digit(High(Pair(h, l))) == LowerCase(h) && Digit(Low(Pair(h, l))) == LowerCase(l)
  {
    DigitOfValue(h);
    DigitOfValue(l);
    Joined(CharToInt(h), CharToInt(l));
  }

  /** Different integers of one width have different texts. */
  lemma TextInjective(a: seq<byte>, b: seq<byte>)
    requires |a| == |b| && Text(Reversed(a)) == Text(Reversed(b))
    ensures a == b
  {
    IntRoundTrip(a, Text(Reversed(a)));
    IntRoundTrip(b, Text(Reversed(b)));
  }

  // ------------------------------------------------------------------ numerals

  // What a digit counts.
  function DigitNumber(c: char): nat
    requires IsDigit(c)
  {
    if c <= '9' then c as int - '0' as int else if c <= 'F' then c as int - 'A' as int + 10
        else c as int - 'a' as int + 10
  }

  /** The number that a hexadecimal numeral denotes, its last digit counting ones. */
  function Numeral(s: string): nat
    requires AllDigits(s, |s|)
  {
    if s == "" then 0 else 16 * Numeral(s[..|s| - 1]) + DigitNumber(s[|s| - 1])
  }

  lemma DigitCounts(c: char)
    requires IsDigit(c)
    ensures CharToInt(c) as int == DigitNumber(c)
  {
    if c <= '9' { ByteOf(c as int - 0x30); } else if c <= 'F' { ByteOf(c as int - 55); } else { ByteOf(c as int - 87); }
  }

  lemma NibblesCount(h: byte, l: byte, v: byte)
    requires h < 16 && l < 16 && v == l | (h << 4)
    ensures v as int == 16 * (h as int) + l as int
  {}

  lemma PairCounts(high: char, low: char)
    requires IsDigit(high) && IsDigit(low)
    ensures Pair(high, low) as int == 16 * DigitNumber(high) + DigitNumber(low)
  {
    IsDigitValue(high);
    IsDigitValue(low);
    DigitCounts(high);
    DigitCounts(low);
    NibblesCount(CharToInt(high), CharToInt(low), Pair(high, low));
  }

  // Two digits more.
  lemma TwoDigits(s: string)
    requires |s| >= 2 && AllDigits(s, |s|)
    ensures var n := |s|; Numeral(s) == 0x100 * Numeral(s[..n - 2]) + Pair(s[n - 2], s[n - 1]) as int
  {
    var n := |s|;
    assert s[..n - 1][..n - 2] == s[..n - 2];
    PairCounts(s[n - 2], s[n - 1]);
  }

  /** kStrToInt stores the number that the text denotes. */
  lemma {:induction false} ValueIsNumeral(s: string, n: nat)
    requires |s| == 2 * n && AllDigits(s, |s|)
    ensures Number(Value(s, n)) == Numeral(s)
  {
    hide Pair, DigitNumber;
    if n > 0 {
      var front := s[..2 * n - 2];
      ValueIsNumeral(front, n - 1);
      TwoDigits(s);
      assert Value(s, n)[1..] == Value(front, n - 1);
    }
  }

  /** kByteToHexString prints the numeral of each byte, in order. */
  lemma TextBytes(m: seq<byte>, i: nat)
    requires i < |m|
    ensures var h, l := Text(m)[2 * i], Text(m)[2 * i + 1];
      IsDigit(h) && IsDigit(l) && 16 * DigitNumber(h) + DigitNumber(l) == m[i] as int
  {
    TextDigits(m);
    TextPair(m, i);
    PairCounts(Text(m)[2 * i], Text(m)[2 * i + 1]);
  }

  /** kIntToStr prints the numeral of the integer. */
  lemma TextIsNumeral(source: seq<byte>)
    ensures AllDigits(Text(Reversed(source)), 2 * |source|)
    ensures Numeral(Text(Reversed(source))) == Number(source)
  {
    var s := Text(Reversed(source));
    IntRoundTrip(source, s);
    ValueIsNumeral(s, |source|);
  }

  // ---------------------------------------------------------- hexStrToByteVec

  // The character at offset `i` of a string's storage: behind the text lie its terminator and what memory holds.
  function CharAt(str: string, beyond: nat -> char, i: nat): char {
    if i < |str| then str[i] else if i == |str| then '\0' else beyond(i - |str|)
  }

  /** What the decoder returns: as many bytes as the text has characters, although half as many are encoded. */
  function Decoded(str: string, beyond: nat -> char): (v: seq<byte>)
    ensures |v| == if |str| % 2 == 1 then 0 else |str|
  {
    if |str| % 2 == 1 then []
    else seq(|str|, i requires 0 <= i < |str| => Pair(CharAt(str, beyond, 2 * i), CharAt(str, beyond, 2 * i + 1)))
  }

  method HexStrToByteVec(str: string, beyond: nat -> char) returns (v: seq<byte>)
    ensures v == Decoded(str, beyond)
  {
    hide Pair;
    v := [];
    var asrclen := |str|;
    if asrclen % 2 == 1 {
      return;
    }
    var psrc := 0;
    while asrclen > 0
      invariant 0 <= asrclen <= |str| && psrc == 2 * (|str| - asrclen) && |v| == |str| - asrclen
      invariant forall i :: 0 <= i < |v| ==> v[i] == Decoded(str, beyond)[i]
    {
      asrclen := asrclen - 1;
      var high := CharAt(str, beyond, psrc);
      var low := CharAt(str, beyond, psrc + 1);
      psrc := psrc + 2;
      var next := Combined(high, low);
      v := v + [next];
    }
  }

  method Combined(high: char, low: char) returns (b: byte)
    ensures b == Pair(high, low)
  {
    b := (CharToInt(high) << 4) | CharToInt(low);
    OrCommutes(CharToInt(high) << 4, CharToInt(low));
  }

  lemma OrCommutes(a: byte, b: byte)
    ensures a | b == b | a
  {}

  /** The decoder undoes the printer: its first bytes are those printed, whatever lies behind the text. */
  lemma DecodeText(m: seq<byte>, beyond: nat -> char)
    ensures |Decoded(Text(m), beyond)| == 2 * |m| && Decoded(Text(m), beyond)[..|m|] == m
  {
    hide Pair;
    forall i: nat | i < |m| ensures Decoded(Text(m), beyond)[i] == m[i] {
      TextPair(m, i);
    }
  }
}
