/** Hexadecimal text of byte arrays (Utility.cs): the format used for the IDm
    typed into the form and for the debug trace of every frame. */
module Utility {
  import opened Bytes

  /** One upper-case hexadecimal digit. */
  function HexDigit(n: nat): (c: char)
    requires n < 16
  {
    if n < 10 then ('0' as int + n) as char else ('A' as int + n - 10) as char
  }

  /** `b.ToString("X2")`. */
  function X2(b: uint8): string
  {
    [HexDigit(b / 16), HexDigit(b % 16)]
  }

  /** Reference text of `bytes`: two digits and one space per byte. */
  function HexText(bytes: seq<uint8>): string
  {
    if bytes == [] then "" else HexText(bytes[..|bytes| - 1]) + X2(bytes[|bytes| - 1]) + " "
  }

  /** HexText has three characters per byte: its two digits, then a space. */
  lemma {:induction false} HexTextShape(bytes: seq<uint8>)
    ensures |HexText(bytes)| == 3 * |bytes|
    ensures forall k :: 0 <= k < |bytes| ==>
              HexText(bytes)[3 * k] == HexDigit(bytes[k] / 16) &&
              HexText(bytes)[3 * k + 1] == HexDigit(bytes[k] % 16) &&
              HexText(bytes)[3 * k + 2] == ' '
  {
    if bytes != [] {
      var init := bytes[..|bytes| - 1];
      HexTextShape(init);
      assert forall k :: 0 <= k < |init| ==> bytes[k] == init[k];
    }
  }

  /** ByteToHex: the hex text of `buffer[offset..offset+length)`; nothing else of
      `buffer` is read, and a non-positive length gives the empty string. */
  method ByteToHex(buffer: array<uint8>, offset: int, length: int) returns (s: string)
    requires length > 0 ==> 0 <= offset && offset + length <= buffer.Length
    ensures length <= 0 ==> s == ""
    ensures length > 0 ==> s == HexText(buffer[offset..offset + length])
    ensures |s| == 3 * (if length > 0 then length else 0)
  {
    var sb := "";
    var i := 0;
    while i < length
      invariant length > 0 ==> 0 <= i <= length
      invariant length > 0 ==> sb == HexText(buffer[offset..offset + i])
      invariant length <= 0 ==> sb == "" && i == 0
    {
      assert buffer[offset..offset + i + 1][..i] == buffer[offset..offset + i];
      sb := sb + X2(buffer[offset + i]);
      sb := sb + " ";
      i := i + 1;
    }
    s := sb;
    if length > 0 {
      HexTextShape(buffer[offset..offset + length]);
    }
  }

  predicate IsHexDigit(c: char)
  {
    '0' <= c <= '9' || 'A' <= c <= 'F' || 'a' <= c <= 'f'
  }

  function HexDigitValue(c: char): (v: nat)
    requires IsHexDigit(c)
    ensures v < 16
  {
    if '0' <= c <= '9' then c as int - '0' as int
    else if 'A' <= c <= 'F' then c as int - 'A' as int + 10
    else c as int - 'a' as int + 10
  }

  /** White space that `NumberStyles.HexNumber` allows before and after the digits
      (tab, line feed, vertical tab, form feed, carriage return and space). */
  predicate IsWhite(c: char)
  {
    c == ' ' || '\t' <= c <= '\r'
  }

  /** `byte.Parse(pair, NumberStyles.HexNumber)` on a two-character string: two
      digits in either case, or one digit with white space before it, or with
      white space or a NUL after it (the parser accepts trailing NULs);
      Threw where the parse throws (FormatException). */
  function ParseHexPair(c0: char, c1: char): (r: Outcome<uint8>)
    ensures IsHexDigit(c0) && IsHexDigit(c1) ==> r == Normal(16 * HexDigitValue(c0) + HexDigitValue(c1))
    ensures r.Normal? ==> IsHexDigit(c0) || IsHexDigit(c1)
    ensures IsHexDigit(c0) && c1 == '\0' ==> r == Normal(HexDigitValue(c0))
    ensures c0 == '\0' ==> r.Threw?
  {
    if IsHexDigit(c0) && IsHexDigit(c1) then Normal(16 * HexDigitValue(c0) + HexDigitValue(c1))
    else if IsWhite(c0) && IsHexDigit(c1) then Normal(HexDigitValue(c1))
    else if IsHexDigit(c0) && (IsWhite(c1) || c1 == '\0') then Normal(HexDigitValue(c0))
    else Threw
  }

  /** `hex.Replace(" ", "")`. */
  function RemoveSpaces(s: string): string
  {
    if s == [] then [] else (if s[0] == ' ' then [] else [s[0]]) + RemoveSpaces(s[1..])
  }

  /** Removing spaces leaves no space, keeps every other character (tabs and line
      breaks included) as often as it occurs, and works piecewise. */
  lemma {:induction false} RemoveSpacesKeepsOthers(s: string)
    ensures ' ' !in RemoveSpaces(s)
    ensures forall c :: c != ' ' ==> multiset(RemoveSpaces(s))[c] == multiset(s)[c]
    ensures ' ' !in s ==> RemoveSpaces(s) == s
  {
    if s != [] {
      RemoveSpacesKeepsOthers(s[1..]);
      assert s == [s[0]] + s[1..];
    }
  }

  lemma {:induction false} RemoveSpacesAppend(a: string, b: string)
    ensures RemoveSpaces(a + b) == RemoveSpaces(a) + RemoveSpaces(b)
  {
    if a != [] {
      var head := if a[0] == ' ' then [] else [a[0]];
      assert (a + b)[0] == a[0];
      assert (a + b)[1..] == a[1..] + b;
      RemoveSpacesAppend(a[1..], b);
      calc {
        RemoveSpaces(a + b);
        head + RemoveSpaces(a[1..] + b);
        head + (RemoveSpaces(a[1..]) + RemoveSpaces(b));
        (head + RemoveSpaces(a[1..])) + RemoveSpaces(b);
        RemoveSpaces(a) + RemoveSpaces(b);
      }
    } else {
      assert a + b == b;
    }
  }

  /** The parse of the pair at characters 2i and 2i+1. */
  function PairAt(h: string, i: nat): Outcome<uint8>
    requires 2 * i + 1 < |h|
  {
    ParseHexPair(h[2 * i], h[2 * i + 1])
  }

  /** Reference decoding: what HexToByte returns for `hex`, or Threw where
      `byte.Parse` throws. */
  function HexDecode(hex: string): Outcome<seq<uint8>>
  {
    var h := RemoveSpaces(hex);
    if forall i :: 0 <= i < |h| / 2 ==> PairAt(h, i).Normal? then
      Normal(seq(|h| / 2, i requires 0 <= i < |h| / 2 => PairAt(h, i).value))
    else
      Threw
  }

  /** HexToByte: after removing the spaces, byte i is the parse of characters 2i
      and 2i+1; a trailing odd character is ignored; a pair that does not parse
      throws (Threw). */
  method HexToByte(hex: string) returns (r: Outcome<seq<uint8>>)
    ensures r == HexDecode(hex)
    ensures r.Normal? ==> |r.value| == |RemoveSpaces(hex)| / 2
    ensures r.Normal? ==> forall i :: 0 <= i < |r.value| ==> Normal(r.value[i]) == PairAt(RemoveSpaces(hex), i)
    ensures r.Threw? <==> exists i :: 0 <= i < |RemoveSpaces(hex)| / 2 && PairAt(RemoveSpaces(hex), i).Threw?
  {
    var h := RemoveSpaces(hex);
    var ret := new uint8[|h| / 2];
    for i := 0 to |h| / 2
      invariant forall k :: 0 <= k < i ==> PairAt(h, k).Normal? && ret[k] == PairAt(h, k).value
    {
      var b := ParseHexPair(h[i * 2], h[i * 2 + 1]);
      if b.Threw? {
        assert 0 <= i < |RemoveSpaces(hex)| / 2 && PairAt(RemoveSpaces(hex), i).Threw?;
        return Threw;
      }
      ret[i] := b.value;
    }
    assert ret[..] == seq(|h| / 2, i requires 0 <= i < |h| / 2 => PairAt(h, i).value);
    r := Normal(ret[..]);
  }

  lemma HexDigitRoundTrip(n: nat)
    requires n < 16
    ensures IsHexDigit(HexDigit(n)) && HexDigitValue(HexDigit(n)) == n
  {
  }

  /** The text without spaces: two digits per byte. */
  function Digits(bytes: seq<uint8>): string
  {
    if bytes == [] then "" else Digits(bytes[..|bytes| - 1]) + X2(bytes[|bytes| - 1])
  }

  lemma {:induction false} DigitsOfHexText(bytes: seq<uint8>)
    ensures RemoveSpaces(HexText(bytes)) == Digits(bytes)
  {
    if bytes != [] {
      var init := bytes[..|bytes| - 1];
      var last := bytes[|bytes| - 1];
      DigitsOfHexText(init);
      RemoveSpacesAppend(HexText(init) + X2(last), " ");
      RemoveSpacesAppend(HexText(init), X2(last));
      HexDigitRoundTrip(last / 16);
      HexDigitRoundTrip(last % 16);
      RemoveSpacesKeepsOthers(X2(last));
    }
  }

  lemma {:induction false} DigitsShape(bytes: seq<uint8>)
    ensures |Digits(bytes)| == 2 * |bytes|
    ensures forall k :: 0 <= k < |bytes| ==> PairAt(Digits(bytes), k) == Normal(bytes[k])
  {
    if bytes != [] {
      var init := bytes[..|bytes| - 1];
      DigitsShape(init);
      forall k | 0 <= k < |bytes|
        ensures PairAt(Digits(bytes), k) == Normal(bytes[k])
      {
        if k < |init| {
          assert PairAt(Digits(bytes), k) == PairAt(Digits(init), k);
        } else {
          HexDigitRoundTrip(bytes[k] / 16);
          HexDigitRoundTrip(bytes[k] % 16);
        }
      }
    }
  }

  /** Round trip: parsing the text ByteToHex produces gives the bytes back. */
  lemma HexRoundTrip(bytes: seq<uint8>)
    ensures HexDecode(HexText(bytes)) == Normal(bytes)
  {
    DigitsOfHexText(bytes);
    DigitsShape(bytes);
    var h := RemoveSpaces(HexText(bytes));
    assert |h| / 2 == |bytes|;
    assert forall i :: 0 <= i < |h| / 2 ==> PairAt(h, i) == Normal(bytes[i]);
    assert seq(|h| / 2, i requires 0 <= i < |h| / 2 => PairAt(h, i).value) == bytes;
  }

  /** Upper- and lower-case digits parse alike and the spaces between pairs
      are ignored. */
  lemma HexDecodeMixedCase()
    ensures HexDecode("0a 0B") == Normal([0x0A, 0x0B])
  {
    assert RemoveSpaces("0a 0B") == "0a0B";
    assert PairAt("0a0B", 0) == Normal(0x0A);
    assert PairAt("0a0B", 1) == Normal(0x0B);
    assert seq(2, i requires 0 <= i < 2 => PairAt("0a0B", i).value) == [0x0A, 0x0B];
  }

  /** An odd trailing digit is dropped. */
  lemma HexDecodeOddLength()
    ensures HexDecode("ABC") == Normal([0xAB])
  {
    assert RemoveSpaces("ABC") == "ABC";
    assert PairAt("ABC", 0) == Normal(0xAB);
    assert seq(1, i requires 0 <= i < 1 => PairAt("ABC", i).value) == [0xAB];
  }

  /** A digit followed by a NUL parses as that digit; a NUL before it fails. */
  lemma HexDecodeTrailingNul()
    ensures HexDecode("A\0") == Normal([0x0A])
    ensures HexDecode("\0A") == Threw
  {
    assert RemoveSpaces("A\0") == "A\0";
    assert PairAt("A\0", 0) == Normal(0x0A);
    assert seq(1, i requires 0 <= i < 1 => PairAt("A\0", i).value) == [0x0A];
    assert RemoveSpaces("\0A") == "\0A";
    assert PairAt("\0A", 0) == Threw;
  }

  /** A tab is not removed, but the parser accepts it next to a digit; a
      non-hex pair fails. */
  lemma HexDecodeWhiteAndInvalid()
    ensures HexDecode("\tA") == Normal([0x0A])
    ensures HexDecode("0G") == Threw
  {
    assert RemoveSpaces("\tA") == "\tA";
    assert PairAt("\tA", 0) == Normal(0x0A);
    assert seq(1, i requires 0 <= i < 1 => PairAt("\tA", i).value) == [0x0A];
    assert RemoveSpaces("0G") == "0G";
    assert PairAt("0G", 0) == Threw;
  }
}
