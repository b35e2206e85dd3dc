/** The printers and parsers for IP and MAC addresses of rcdiscover/utils.h, and the splitting that
    the parsers rest on. */
module Addresses {
  import opened RequestCounter

  /** A value or one of the exceptions. */
  datatype Parsed<+T> = Value(value: T) | InvalidArgument | OutOfRange

  // ---- split -------------------------------------------------------------------------------

  /** Where the next separator is, or the length. */
  function Next(s: string, sep: char): (i: nat)
    ensures i <= |s| && sep !in s[..i] && (i < |s| ==> s[i] == sep)
  {
    if s == [] || s[0] == sep then 0
    else
      assert forall i | 0 <= i < |s| :: s[..i + 1] == [s[0]] + s[1..][..i];
      1 + Next(s[1..], sep)
  }

  /** One getline: the field, and what is left in the stream. It fails on an exhausted stream. */
  function Rest(s: string, sep: char): string {
    if Next(s, sep) < |s| then s[Next(s, sep) + 1..] else ""
  }

  function Joined(fields: seq<string>, sep: char): string {
    if fields == [] then "" else if |fields| == 1 then fields[0] else fields[0] + [sep] + Joined(fields[1..], sep)
  }

  function Count(s: string, sep: char): nat {
    if s == [] then 0 else (if s[0] == sep then 1 else 0) + Count(s[1..], sep)
  }

  /** What the stream yields, field by field. */
  function Fields(s: string, sep: char): seq<string>
    decreases |s|
  {
    if s == [] then [] else [s[..Next(s, sep)]] + Fields(Rest(s, sep), sep)
  }

  predicate StartsOrEnds(s: string, sep: char) {
    s != [] && (s[0] == sep || s[|s| - 1] == sep)
  }

  lemma {:induction false} CountInside(w: string, s: string, sep: char)
    requires sep !in w
    ensures Count(w + s, sep) == Count(s, sep)
  {
    if w == [] {
      assert w + s == s;
    } else {
      assert (w + s)[1..] == w[1..] + s;
      CountInside(w[1..], s, sep);
    }
  }

  lemma {:induction false} FieldsAreFree(s: string, sep: char)
    ensures forall i | 0 <= i < |Fields(s, sep)| :: sep !in Fields(s, sep)[i]
    decreases |s|
  {
    hide Next;
    if s != [] {
      FieldsAreFree(Rest(s, sep), sep);
    }
  }

  lemma {:induction false} FieldsNext(s: string, sep: char)
    requires s != []
    ensures var i := Next(s, sep);
      Fields(s, sep) == if i < |s| then [s[..i]] + Fields(s[i + 1..], sep) else [s]
  {
    hide Next;
    if Next(s, sep) == |s| {
      assert s[..|s|] == s && Fields("", sep) == [];
    }
  }

  lemma {:induction false} CountNext(s: string, sep: char)
    requires s != []
    ensures var i := Next(s, sep); Count(s, sep) == if i < |s| then 1 + Count(s[i + 1..], sep) else 0
  {
    var i := Next(s, sep);
    if i < |s| {
      assert s == s[..i] + ([sep] + s[i + 1..]);
      CountInside(s[..i], [sep] + s[i + 1..], sep);
      CountSeparator(s[i + 1..], sep);
    } else {
      NoSeparator(s, sep);
    }
  }

  /** The fields of a text that does not end with a separator are one more than its separators, and
      joined they are the text. */
  lemma {:induction false} FieldsJoin(s: string, sep: char)
    requires s != [] && s[|s| - 1] != sep
    ensures |Fields(s, sep)| == Count(s, sep) + 1
    ensures Joined(Fields(s, sep), sep) == s
    decreases |s|
  {
    FieldsNext(s, sep);
    CountNext(s, sep);
    hide Fields, Next, Count, Joined;
    var i := Next(s, sep);
    if i < |s| {
      FieldsJoin(s[i + 1..], sep);
      JoinedCons(s[..i], Fields(s[i + 1..], sep), sep);
      Glue(s, i, Joined(Fields(s[i + 1..], sep), sep));
    } else {
      NoSeparator(s, sep);
    }
  }

  lemma {:induction false} Glue(s: string, i: nat, tail: string)
    requires i < |s| && tail == s[i + 1..]
    ensures s[..i] + ([s[i]] + tail) == s
  {
  }

  lemma {:induction false} NoSeparator(s: string, sep: char)
    requires Next(s, sep) == |s|
    ensures Count(s, sep) == 0 && Joined([s], sep) == s
  {
    assert s[..|s|] == s && s == s + "";
    CountInside(s, "", sep);
  }

  lemma {:induction false} CountSeparator(s: string, sep: char)
    ensures Count([sep] + s, sep) == 1 + Count(s, sep)
  {
  }

  lemma {:induction false} JoinedCons(f: string, fields: seq<string>, sep: char)
    requires fields != []
    ensures Joined([f] + fields, sep) == f + ([sep] + Joined(fields, sep))
  {
  }

  predicate Proper(fields: seq<string>, sep: char) {
    forall i | 0 <= i < |fields| :: fields[i] != [] && sep !in fields[i]
  }

  lemma {:induction false} JoinedEnds(fields: seq<string>, sep: char)
    requires fields != [] && Proper(fields, sep)
    ensures Joined(fields, sep) != [] && !StartsOrEnds(Joined(fields, sep), sep)
    decreases |fields|
  {
    var f := fields[0];
    assert f[0] in f && f[|f| - 1] in f;
    if |fields| > 1 {
      var tail := Joined(fields[1..], sep);
      JoinedEnds(fields[1..], sep);
      assert Joined(fields, sep) == f + [sep] + tail;
    }
  }

  /** Non-empty fields without separators come back out of their join. */
  lemma {:induction false} JoinedFields(fields: seq<string>, sep: char)
    requires Proper(fields, sep)
    ensures Fields(Joined(fields, sep), sep) == fields
    decreases |fields|
  {
    hide Next;
    if fields != [] {
      var f := fields[0];
      if |fields| > 1 {
        var tail := Joined(fields[1..], sep);
        assert Joined(fields, sep) == f + ([sep] + tail);
        NextAfter(f, [sep] + tail, sep);
        JoinedFields(fields[1..], sep);
        assert (f + ([sep] + tail))[|f| + 1..] == tail;
      } else {
        assert Joined(fields, sep) == f + "";
        NextAfter(f, "", sep);
      }
    }
  }

  lemma {:induction false} NextAfter(f: string, t: string, sep: char)
    requires sep !in f && (t == [] || t[0] == sep)
    ensures Next(f + t, sep) == |f|
  {
    if f == [] {
      assert f + t == t;
    } else {
      assert (f + t)[1..] == f[1..] + t;
      NextAfter(f[1..], t, sep);
    }
  }

  /** The loop of getlines. */
  method GetLines(s: string, sep: char, n: nat) returns (r: Parsed<seq<string>>)
    requires n > 0
    ensures r == if |Fields(s, sep)| == n then Value(Fields(s, sep)) else OutOfRange
  {
    var result, iss := [], s;
    var i := 0;
    while i < n
      invariant 0 <= i <= n && i == |result| && Fields(s, sep) == result + Fields(iss, sep)
    {
      if iss == [] {
        return OutOfRange;
      }
      var next := Next(iss, sep);
      var field, rest := iss[..next], if next < |iss| then iss[next + 1..] else "";
      assert result + Fields(iss, sep) == result + [field] + Fields(rest, sep) by {
        assert Fields(iss, sep) == [field] + Fields(rest, sep);
      }
      result, iss := result + [field], rest;
      i := i + 1;
    }
    if iss != [] {
      assert |Fields(iss, sep)| > 0;
      return OutOfRange;
    }
    assert result + Fields("", sep) == result;
    return Value(result);
  }

  /** split succeeds exactly on texts with n - 1 separators that neither start nor end with one; the
      fields are then free of separators and their join is the text. */
  method Split(s: string, sep: char, n: nat) returns (r: Parsed<seq<string>>)
    requires n > 0
    ensures r.Value? <==> s != [] && !StartsOrEnds(s, sep) && Count(s, sep) == n - 1
    ensures r.InvalidArgument? <==> StartsOrEnds(s, sep)
    ensures r.Value? ==> r.value == Fields(s, sep) && |r.value| == n && Joined(r.value, sep) == s
    ensures r.Value? ==> forall i | 0 <= i < n :: sep !in r.value[i]
    ensures !StartsOrEnds(s, sep) && |Fields(s, sep)| != n ==> r == OutOfRange
    ensures !StartsOrEnds(s, sep) && |Fields(s, sep)| == n ==> r == Value(Fields(s, sep))
  {
    if |s| > 0 {
      if s[0] == sep || s[|s| - 1] == sep {
        return InvalidArgument;
      }
      FieldsJoin(s, sep);
    }
    FieldsAreFree(s, sep);
    r := GetLines(s, sep, n);
  }

  // ---- numbers -----------------------------------------------------------------------------

  function DigitOf(d: nat): char
    requires d < 16
  {
    if d < 10 then '0' + d as char else 'a' + (d - 10) as char
  }

  function DigitValue(c: char): nat {
    if '0' <= c <= '9' then (c - '0') as nat
    else if 'a' <= c <= 'f' then (c - 'a') as nat + 10
    else if 'A' <= c <= 'F' then (c - 'A') as nat + 10
    else 16
  }

  /** The number at the front of a text, and whether there is one. Blanks, signs and a 0x in front
      of it are not modelled. */
  function Stoul(s: string, base: nat, sofar: nat): nat {
    if s == [] || DigitValue(s[0]) >= base then sofar
    else Stoul(s[1..], base, sofar * base + DigitValue(s[0]))
  }

  function StringToByte(s: string, base: nat): Parsed<byte> {
    if s == [] || DigitValue(s[0]) >= base then InvalidArgument
    else if Stoul(s, base, 0) > 255 then OutOfRange
    else Value(Stoul(s, base, 0))
  }

  /** What digits are worth together. */
  function NumberIn(digits: string, base: nat): nat {
    if digits == [] then 0 else NumberIn(digits[..|digits| - 1], base) * base + DigitValue(digits[|digits| - 1])
  }

  predicate AllDigits(s: string, base: nat) {
    forall i | 0 <= i < |s| :: DigitValue(s[i]) < base
  }

  lemma {:induction false} OneMore(front: string, s: string, m: nat)
    requires m < |s|
    ensures front + [s[0]] + s[1..][..m] == front + s[..m + 1]
  {
    assert s[..m + 1] == [s[0]] + s[1..][..m];
  }

  lemma {:induction false} StoulReads(s: string, base: nat, front: string) returns (n: nat)
    ensures n <= |s| && AllDigits(s[..n], base) && (n < |s| ==> DigitValue(s[n]) >= base)
    ensures Stoul(s, base, NumberIn(front, base)) == NumberIn(front + s[..n], base)
    decreases |s|
  {
    hide DigitValue;
    n := 0;
    if s == [] || DigitValue(s[0]) >= base {
      assert front + s[..0] == front;
    } else {
      var front' := front + [s[0]];
      assert front'[..|front|] == front;
      var m := StoulReads(s[1..], base, front');
      n := m + 1;
      OneMore(front, s, m);
      forall i | 0 <= i < n ensures DigitValue(s[..n][i]) < base {
        if i > 0 {
          assert s[..n][i] == s[1..][..m][i - 1];
        }
      }
    }
  }

  /** A field is as much as the digits at its front; without any it is no number, and more than 255
      is out of range. */
  lemma {:induction false} FieldMeans(s: string, base: nat) returns (n: nat)
    ensures n <= |s| && AllDigits(s[..n], base) && (n < |s| ==> DigitValue(s[n]) >= base)
    ensures StringToByte(s, base).InvalidArgument? <==> n == 0
    ensures StringToByte(s, base).OutOfRange? <==> n > 0 && NumberIn(s[..n], base) > 255
    ensures StringToByte(s, base).Value? ==> StringToByte(s, base).value == NumberIn(s[..n], base)
  {
    n := StoulReads(s, base, []);
    assert [] + s[..n] == s[..n];
    hide DigitValue, Stoul;
  }

  /** A byte in decimal, without leading zeros, and in two hexadecimal digits. */
  function Decimal(b: byte): string {
    if b < 10 then [DigitOf(b)]
    else if b < 100 then [DigitOf(b / 10), DigitOf(b % 10)]
    else [DigitOf(b / 100), DigitOf(b / 10 % 10), DigitOf(b % 10)]
  }

  function Hex(b: byte): string {
    [DigitOf(b / 16), DigitOf(b % 16)]
  }

  /** The digits and what they are worth; hexadecimal ones are printed small and read in either
      case. */
  lemma {:induction false} DigitTable(c: char, d: nat)
    requires d < 16
    ensures DigitOf(d) == "0123456789abcdef"[d] && DigitValue("0123456789abcdef"[d]) == d
    ensures DigitValue("0123456789ABCDEF"[d]) == d
    ensures c !in "0123456789abcdef" && c !in "0123456789ABCDEF" ==> DigitValue(c) == 16
  {
    if DigitValue(c) < 16 {
      if 'A' <= c <= 'F' {
        assert c == "0123456789ABCDEF"[DigitValue(c)];
      } else {
        assert c == "0123456789abcdef"[DigitValue(c)];
      }
    }
  }

  lemma {:induction false} DigitRoundTrip(d: nat)
    requires d < 16
    ensures DigitValue(DigitOf(d)) == d && DigitOf(d) != '.' && DigitOf(d) != ':'
  {
  }

  lemma {:induction false} StoulStep(c: char, s: string, base: nat, sofar: nat)
    requires DigitValue(c) < base
    ensures Stoul([c] + s, base, sofar) == Stoul(s, base, sofar * base + DigitValue(c))
  {
  }

  lemma {:induction false} StoulDigits(x: char, y: char, z: char, base: nat)
    requires DigitValue(x) < base && DigitValue(y) < base && DigitValue(z) < base
    ensures Stoul([x], base, 0) == DigitValue(x)
    ensures Stoul([x, y], base, 0) == DigitValue(x) * base + DigitValue(y)
    ensures Stoul([x, y, z], base, 0) == (DigitValue(x) * base + DigitValue(y)) * base + DigitValue(z)
  {
    hide DigitValue, Stoul;
    var a := DigitValue(x);
    var b := a * base + DigitValue(y);
    assert 0 * base + a == a;
    assert [x] == [x] + [] && [x, y] == [x] + [y] && [x, y, z] == [x] + ([y] + [z]);
    assert [y] == [y] + [] && [z] == [z] + [];
    StoulStep(x, [], base, 0);
    StoulStep(x, [y], base, 0);
    StoulStep(y, [], base, a);
    StoulStep(x, [y] + [z], base, 0);
    StoulStep(y, [z], base, a);
    StoulStep(z, [], base, b);
    StoulNothing(base, a);
    StoulNothing(base, b);
    StoulNothing(base, b * base + DigitValue(z));
  }

  lemma {:induction false} StoulNothing(base: nat, sofar: nat)
    ensures Stoul([], base, sofar) == sofar
  {
  }

  /** No leading zeros in decimal, and always two digits in hexadecimal. */
  lemma {:induction false} PrintedForm(b: byte)
    ensures |Decimal(b)| == (if b < 10 then 1 else if b < 100 then 2 else 3) && AllDigits(Decimal(b), 10)
    ensures AllDigits(Hex(b), 16) && Hex(b) == ["0123456789abcdef"[b / 16], "0123456789abcdef"[b % 16]]
  {
    hide DigitOf, DigitValue;
    DigitRoundTrip(b / 100);
    DigitRoundTrip(if b < 100 then b / 10 else 0);
    DigitRoundTrip(b / 10 % 10);
    DigitRoundTrip(b % 10);
    DigitTable('0', b / 16);
    DigitTable('0', b % 16);
  }

  lemma {:induction false} ThreeDigits(b: byte)
    requires b >= 100
    ensures StringToByte(Decimal(b), 10) == Value(b) && '.' !in Decimal(b) && Decimal(b) != []
  {
    var x, y, z := b / 100, b / 10 % 10, b % 10;
    DigitRoundTrip(x);
    DigitRoundTrip(y);
    DigitRoundTrip(z);
    hide DigitOf, DigitValue, Stoul;
    StoulDigits(DigitOf(x), DigitOf(y), DigitOf(z), 10);
  }

  lemma {:induction false} DecimalRoundTrip(b: byte)
    ensures StringToByte(Decimal(b), 10) == Value(b) && '.' !in Decimal(b) && Decimal(b) != []
  {
    if b >= 100 {
      ThreeDigits(b);
    } else {
      var y, z := b / 10, b % 10;
      DigitRoundTrip(y);
      DigitRoundTrip(z);
      hide DigitOf, DigitValue, Stoul;
      StoulDigits(DigitOf(if b < 10 then z else y), DigitOf(z), DigitOf(z), 10);
    }
  }

  lemma {:induction false} HexRoundTrip(b: byte)
    ensures StringToByte(Hex(b), 16) == Value(b) && ':' !in Hex(b) && Hex(b) != []
  {
    hide DigitOf, DigitValue, Stoul;
    DigitRoundTrip(b / 16);
    DigitRoundTrip(b % 16);
    StoulDigits(DigitOf(b / 16), DigitOf(b % 16), DigitOf(b % 16), 16);
  }

  // ---- whole addresses ---------------------------------------------------------------------

  /** The bytes of the fields, or the exception of the first field that has none. */
  function ParseFields(fields: seq<string>, base: nat): Parsed<seq<byte>> {
    if fields == [] then Value([])
    else
      var front := ParseFields(fields[..|fields| - 1], base);
      var last := StringToByte(fields[|fields| - 1], base);
      if !front.Value? then front
      else if last.Value? then Value(front.value + [last.value])
      else if last.InvalidArgument? then InvalidArgument else OutOfRange
  }

  function BytesOfString(s: string, base: nat, sep: char, n: nat): Parsed<seq<byte>> {
    if StartsOrEnds(s, sep) then InvalidArgument
    else if |Fields(s, sep)| != n then OutOfRange
    else ParseFields(Fields(s, sep), base)
  }

  method String2Byte(s: string, base: nat, sep: char, n: nat) returns (r: Parsed<seq<byte>>)
    requires n > 0
    ensures r == BytesOfString(s, base, sep, n)
  {
    var splitted := Split(s, sep, n);
    if splitted.InvalidArgument? {
      return InvalidArgument;
    }
    if splitted.OutOfRange? {
      return OutOfRange;
    }
    var fields, result := splitted.value, [];
    var i := 0;
    while i < n
      invariant 0 <= i <= n && ParseFields(fields[..i], base) == Value(result)
    {
      assert fields[..i + 1][..i] == fields[..i];
      var b := StringToByte(fields[i], base);
      if !b.Value? {
        FirstFailureDecides(fields, base, i + 1);
        return if b.InvalidArgument? then InvalidArgument else OutOfRange;
      }
      result := result + [b.value];
      i := i + 1;
    }
    assert fields[..n] == fields;
    return Value(result);
  }

  lemma {:induction false} FirstFailureDecides(fields: seq<string>, base: nat, k: nat)
    requires k <= |fields| && !ParseFields(fields[..k], base).Value?
    ensures ParseFields(fields, base) == ParseFields(fields[..k], base)
    decreases |fields|
  {
    if k == |fields| {
      assert fields[..k] == fields;
    } else {
      var front := fields[..|fields| - 1];
      assert front[..k] == fields[..k];
      FirstFailureDecides(front, base, k);
    }
  }

  /** The fields as printed. */
  function Printed(bs: seq<byte>, decimal: bool): seq<string> {
    seq(|bs|, i requires 0 <= i < |bs| => if decimal then Decimal(bs[i]) else Hex(bs[i]))
  }

  function Separator(decimal: bool): char {
    if decimal then '.' else ':'
  }

  lemma {:induction false} PrintedParse(bs: seq<byte>, decimal: bool)
    ensures Proper(Printed(bs, decimal), Separator(decimal))
    ensures ParseFields(Printed(bs, decimal), if decimal then 10 else 16) == Value(bs)
  {
    hide Decimal, Hex, StringToByte;
    forall i | 0 <= i < |bs| ensures Printed(bs, decimal)[i] != [] && Separator(decimal) !in Printed(bs, decimal)[i] {
      DecimalRoundTrip(bs[i]);
      HexRoundTrip(bs[i]);
    }
    if bs != [] {
      var front, last := bs[..|bs| - 1], bs[|bs| - 1];
      PrintedParse(front, decimal);
      DecimalRoundTrip(last);
      HexRoundTrip(last);
      assert Printed(bs, decimal)[..|bs| - 1] == Printed(front, decimal);
      assert bs == front + [last];
    }
  }

  /** Printing bytes and parsing them again gives the bytes back. */
  lemma {:induction false} AddressRoundTrip(bs: seq<byte>, decimal: bool)
    requires bs != []
    ensures BytesOfString(Joined(Printed(bs, decimal), Separator(decimal)), if decimal then 10 else 16,
                          Separator(decimal), |bs|) == Value(bs)
  {
    hide Decimal, Hex, StringToByte, Fields, ParseFields, Proper, Joined, StartsOrEnds;
    PrintedParse(bs, decimal);
    JoinedEnds(Printed(bs, decimal), Separator(decimal));
    JoinedFields(Printed(bs, decimal), Separator(decimal));
  }

  function Power256(n: nat): nat {
    if n == 0 then 1 else 256 * Power256(n - 1)
  }

  /** The `n` low bytes of a number, high byte first; a shift by 8 k is k divisions by 256. */
  function BytesOf(v: nat, n: nat): (bs: seq<byte>)
    ensures |bs| == n
  {
    if n == 0 then [] else BytesOf(v / 256, n - 1) + [v % 256]
  }

  function BigEndian(bs: seq<byte>): nat {
    if bs == [] then 0 else BigEndian(bs[..|bs| - 1]) * 256 + bs[|bs| - 1]
  }

  lemma {:induction false} BytesRoundTrip(v: nat, n: nat)
    requires v < Power256(n)
    ensures BigEndian(BytesOf(v, n)) == v
  {
    if n > 0 {
      BytesRoundTrip(v / 256, n - 1);
      assert BytesOf(v, n)[..n - 1] == BytesOf(v / 256, n - 1);
    }
  }

  lemma {:induction false} BigEndianBound(bs: seq<byte>)
    ensures BigEndian(bs) < Power256(|bs|)
  {
    if bs != [] {
      BigEndianBound(bs[..|bs| - 1]);
    }
  }

  /** The parts that are or-ed together do not overlap, so that they are added here. */
  method ByteArrayToInt(a: seq<byte>) returns (result: nat)
    ensures result == BigEndian(a) < Power256(|a|)
  {
    BigEndianBound(a);
    result := 0;
    var i := 0;
    while i < |a|
      invariant i <= |a| && result == BigEndian(a[..i]) * Power256(|a| - i)
    {
      assert a[..i + 1][..i] == a[..i];
      HighPart(BigEndian(a[..i]), a[i], |a| - i);
      result := result + a[i] * Power256(|a| - 1 - i);
      i := i + 1;
    }
    assert a[..i] == a;
  }

  lemma {:induction false} HighPart(high: nat, b: byte, n: nat)
    requires n > 0
    ensures (high * 256 + b) * Power256(n - 1) == high * Power256(n) + b * Power256(n - 1)
  {
  }

  type Ip = v: nat | v < 0x1_0000_0000
  type MacAddress = v: nat | v < 0x1_0000_0000_0000

  lemma {:induction false} Powers()
    ensures Power256(4) == 0x1_0000_0000 && Power256(6) == 0x1_0000_0000_0000
  {
  }

  lemma {:induction false} FourBytes(v: nat)
    ensures BytesOf(v, 4) == [v / 256 / 256 / 256 % 256, v / 256 / 256 % 256, v / 256 % 256, v % 256]
  {
    assert BytesOf(v, 4) == BytesOf(v / 256 / 256, 2) + [v / 256 % 256] + [v % 256];
    assert BytesOf(v / 256 / 256, 2) == [v / 256 / 256 / 256 % 256] + [v / 256 / 256 % 256];
  }

  lemma {:induction false} SixBytes(v: nat)
    ensures BytesOf(v, 6) == BytesOf(v / 256 / 256, 4) + [v / 256 % 256, v % 256]
  {
  }

  lemma {:induction false} JoinedLast(fields: seq<string>, f: string, sep: char)
    ensures Joined(fields + [f], sep) == if fields == [] then f else Joined(fields, sep) + [sep] + f
  {
    if fields == [] {
      assert fields + [f] == [f];
    } else {
      assert (fields + [f])[1..] == fields[1..] + [f];
      JoinedLast(fields[1..], f, sep);
    }
  }

  lemma {:induction false} JoinedFour(a: string, b: string, c: string, d: string, sep: char)
    ensures Joined([a, b, c, d], sep) == a + [sep] + b + [sep] + c + [sep] + d
  {
    assert [a, b, c, d] == [a] + [b] + [c] + [d];
    JoinedLast([a], b, sep);
    JoinedLast([a] + [b], c, sep);
    JoinedLast([a] + [b] + [c], d, sep);
  }

  lemma {:induction false} JoinedSix(a: string, b: string, c: string, d: string, e: string, f: string, sep: char)
    ensures Joined([a, b, c, d, e, f], sep)
         == a + [sep] + b + [sep] + c + [sep] + d + [sep] + e + [sep] + f
  {
    assert [a, b, c, d, e, f] == [a, b, c, d] + [e] + [f];
    JoinedFour(a, b, c, d, sep);
    JoinedLast([a, b, c, d], e, sep);
    JoinedLast([a, b, c, d] + [e], f, sep);
  }

  lemma {:induction false} HighBytes(mac: MacAddress)
    ensures mac / 256 / 256 == mac / 0x1_00_00 && mac / 256 / 256 / 256 == mac / 0x1_00_00_00
    ensures mac / 256 / 256 / 256 / 256 == mac / 0x1_00_00_00_00
    ensures mac / 256 / 256 / 256 / 256 / 256 % 256 == mac / 0x1_00_00_00_00_00
  {
  }

  method Ip2String(ip: Ip) returns (out: string)
    ensures out == Joined(Printed(BytesOf(ip, 4), true), '.')
    ensures out == Decimal(ip / 0x1_00_00_00) + "." + Decimal(ip / 0x1_00_00 % 256) + "." + Decimal(ip / 0x1_00 % 256)
                   + "." + Decimal(ip % 256)
  {
    FourBytes(ip);
    HighBytes(ip);
    assert ip / 256 / 256 / 256 % 256 == ip / 0x1_00_00_00;
    hide BytesOf, Joined, Decimal, Hex;
    var a, b, c, d := Decimal(ip / 256 / 256 / 256 % 256), Decimal(ip / 256 / 256 % 256),
      Decimal(ip / 256 % 256), Decimal(ip % 256);
    out := a + ['.'];
    out := out + b + ['.'];
    out := out + c + ['.'];
    out := out + d;
    JoinedFour(a, b, c, d, '.');
    assert Printed(BytesOf(ip, 4), true) == [a, b, c, d];
  }

  method Mac2String(mac: MacAddress) returns (out: string)
    ensures out == Joined(Printed(BytesOf(mac, 6), false), ':')
    ensures out == Hex(mac / 0x1_00_00_00_00_00) + ":" + Hex(mac / 0x1_00_00_00_00 % 256) + ":"
                   + Hex(mac / 0x1_00_00_00 % 256) + ":" + Hex(mac / 0x1_00_00 % 256) + ":"
                   + Hex(mac / 0x1_00 % 256) + ":" + Hex(mac % 256)
  {
    HighBytes(mac);
    var high := mac / 256 / 256;
    SixBytes(mac);
    FourBytes(high);
    hide BytesOf, Joined, Decimal, Hex;
    var a, b, c, d := Hex(high / 256 / 256 / 256 % 256), Hex(high / 256 / 256 % 256),
      Hex(high / 256 % 256), Hex(high % 256);
    var e, f := Hex(mac / 256 % 256), Hex(mac % 256);
    out := a + [':'];
    out := out + b + [':'];
    out := out + c + [':'];
    out := out + d + [':'];
    out := out + e + [':'];
    out := out + f;
    JoinedSix(a, b, c, d, e, f, ':');
    assert Printed(BytesOf(mac, 6), false) == [a, b, c, d, e, f];
  }

  /** Printed addresses have hexadecimal digits and separators only. */
  lemma {:induction false} PrintedCharacters(bs: seq<byte>, decimal: bool, i: nat)
    requires i < |Joined(Printed(bs, decimal), Separator(decimal))|
    ensures var c := Joined(Printed(bs, decimal), Separator(decimal))[i];
      c == Separator(decimal) || DigitValue(c) < 16
    decreases |bs|
  {
    hide Decimal, Hex, DigitValue;
    if bs != [] {
      PrintedForm(bs[0]);
      var first, rest := Printed(bs, decimal)[0], Printed(bs[1..], decimal);
      assert Printed(bs, decimal) == [first] + rest;
      var text := Joined(Printed(bs, decimal), Separator(decimal));
      if rest == [] {
        assert text == first;
      } else {
        JoinedCons(first, rest, Separator(decimal));
        assert text == first + ([Separator(decimal)] + Joined(rest, Separator(decimal)));
      }
      if i < |first| {
        assert text[i] == first[i];
      } else if i > |first| {
        PrintedCharacters(bs[1..], decimal, i - |first| - 1);
      }
    }
  }

  method String2Ip(ip: string) returns (r: Parsed<seq<byte>>)
    ensures r == BytesOfString(ip, 10, '.', 4)
  {
    r := String2Byte(ip, 10, '.', 4);
  }

  method String2Mac(mac: string) returns (r: Parsed<seq<byte>>)
    ensures r == BytesOfString(mac, 16, ':', 6)
  {
    r := String2Byte(mac, 16, ':', 6);
  }

  /** Every IP address comes back from its text, and every MAC address from its. */
  lemma {:induction false} IpRoundTrip(ip: Ip)
    ensures var r := BytesOfString(Joined(Printed(BytesOf(ip, 4), true), '.'), 10, '.', 4);
      r.Value? && BigEndian(r.value) == ip
  {
    Powers();
    hide Power256, BigEndian, Joined, Printed, BytesOf, BytesOfString;
    BytesRoundTrip(ip, 4);
    AddressRoundTrip(BytesOf(ip, 4), true);
  }

  lemma {:induction false} MacRoundTrip(mac: MacAddress)
    ensures var r := BytesOfString(Joined(Printed(BytesOf(mac, 6), false), ':'), 16, ':', 6);
      r.Value? && BigEndian(r.value) == mac
  {
    Powers();
    hide Power256, BigEndian, Joined, Printed, BytesOf, BytesOfString;
    BytesRoundTrip(mac, 6);
    AddressRoundTrip(BytesOf(mac, 6), false);
  }
}
