/** IPv4 addresses in dotted-quad notation. */
module Ipv4Text {
  import opened Decimal
  import opened Ipv4
  import opened Text
  import opened Wrappers

  function Byte(address: Word, i: nat): (b: nat)
    requires i < 4
    ensures b < 256
  {
    match i
    case 0 => address / 0x100_0000
    case 1 => address / 0x1_0000 % 256
    case 2 => address / 0x100 % 256
    case 3 => address % 256
  }

  function Quad(address: Word): seq<string> {
    [Dec(Byte(address, 0)), Dec(Byte(address, 1)), Dec(Byte(address, 2)), Dec(Byte(address, 3))]
  }

  function Print(address: Word): string {
    Join(Quad(address), ".")
  }

  /** A decimal byte without leading zeros. */
  function ParseByte(field: string): Option<nat> {
    if field == "" || |field| > 3 || !AllDigits(field) || (|field| > 1 && field[0] == '0') || Value(field) > 255
    then None else Some(Value(field))
  }

  function Parse(text: string): Option<Word> {
    var fields := SplitOn(text, '.');
    if |fields| != 4 then None
    else
      match (ParseByte(fields[0]), ParseByte(fields[1]), ParseByte(fields[2]), ParseByte(fields[3]))
      case (Some(a), Some(b), Some(c), Some(d)) =>
        var n := ((a * 256 + b) * 256 + c) * 256 + d;
        if n < 0x1_0000_0000 then Some(n) else None
      case _ => None
  }

  lemma ByteReadsBack(b: nat)
    requires b < 256
    ensures ParseByte(Dec(b)) == Some(b)
    ensures '.' !in Dec(b)
  {
    DecValue(b);
    assert |Dec(b)| <= 3 by {
      if b >= 10 {
        DecValue(b / 10);
        assert |Dec(b)| == |Dec(b / 10)| + 1;
        if b >= 100 {
          DecValue(b / 100);
          assert b / 10 / 10 == b / 100 && |Dec(b / 10)| == |Dec(b / 100)| + 1;
        }
      }
    }
    assert |Dec(b)| > 1 ==> b > 0;
  }

  lemma BytesCompose(address: Word)
    ensures ((Byte(address, 0) * 256 + Byte(address, 1)) * 256 + Byte(address, 2)) * 256 + Byte(address, 3) == address
  {
    assert address / 0x100 / 256 == address / 0x1_0000;
    assert address / 0x1_0000 / 256 == address / 0x100_0000;
  }

  lemma EmptyTextIsNoAddress()
    ensures Parse("") == None
  {
  }

  /** Printing an address and reading it back is the identity. */
  lemma PrintReadsBack(address: Word)
    ensures Parse(Print(address)) == Some(address) && Print(address) != ""
  {
    hide Dec, ParseByte, Byte, SplitOn, Join;
    BytesCompose(address);
    ByteReadsBack(Byte(address, 0));
    ByteReadsBack(Byte(address, 1));
    ByteReadsBack(Byte(address, 2));
    ByteReadsBack(Byte(address, 3));
    SplitJoined(Quad(address), '.');
    EmptyTextIsNoAddress();
  }

  lemma ByteReadFrom(field: string)
    requires ParseByte(field).Some?
    ensures field == Dec(ParseByte(field).value) && ParseByte(field).value < 256
  {
    PlainIsDec(field);
  }

  lemma BytesOf(a: nat, b: nat, c: nat, d: nat)
    requires a < 256 && b < 256 && c < 256 && d < 256
    ensures
      var n := ((a * 256 + b) * 256 + c) * 256 + d;
      n < 0x1_0000_0000 && Byte(n, 0) == a && Byte(n, 1) == b && Byte(n, 2) == c && Byte(n, 3) == d
  {
    var n := ((a * 256 + b) * 256 + c) * 256 + d;
    assert n / 0x100 == (a * 256 + b) * 256 + c;
    assert n / 0x1_0000 == a * 256 + b;
  }

  /** The only text that reads as an address is the one it prints as. */
  lemma ParseIsExact(text: string, address: Word)
    ensures Parse(text) == Some(address) <==> text == Print(address)
  {
    hide Dec, ParseByte, Byte, SplitOn, Join;
    PrintReadsBack(address);
    if Parse(text) == Some(address) {
      var fields := SplitOn(text, '.');
      JoinSplit(text, '.');
      ByteReadFrom(fields[0]);
      ByteReadFrom(fields[1]);
      ByteReadFrom(fields[2]);
      ByteReadFrom(fields[3]);
      BytesOf(ParseByte(fields[0]).value, ParseByte(fields[1]).value, ParseByte(fields[2]).value, ParseByte(fields[3]).value);
      assert fields == Quad(address);
    }
  }

  /** A number below 256 without needless zeros. */
  predicate IsByteText(s: string) {
    s != "" && AllDigits(s) && (|s| > 1 ==> s[0] != '0') && Value(s) < 256
  }

  lemma ByteTextReads(s: string)
    requires IsByteText(s)
    ensures ParseByte(s) == Some(Value(s)) && '.' !in s && Value(s) < 256
  {
    PlainIsDec(s);
    ByteReadsBack(Value(s));
  }

  /** Four byte texts between dots are the address with these bytes, most significant first. */
  lemma DottedQuad(a: string, b: string, c: string, d: string)
    requires IsByteText(a) && IsByteText(b) && IsByteText(c) && IsByteText(d)
    ensures
      Parse(a + "." + b + "." + c + "." + d)
      == Some(0x100_0000 * Value(a) + 0x1_0000 * Value(b) + 0x100 * Value(c) + Value(d))
  {
    hide ParseByte, SplitOn, Join, Value, Byte, Parse;
    ByteTextReads(a);
    ByteTextReads(b);
    ByteTextReads(c);
    ByteTextReads(d);
    JoinFour(a, b, c, d);
    SplitJoined([a, b, c, d], '.');
    FourBytes(a + "." + b + "." + c + "." + d, [a, b, c, d], Value(a), Value(b), Value(c), Value(d));
  }

  lemma FourBytes(text: string, fields: seq<string>, a: nat, b: nat, c: nat, d: nat)
    requires SplitOn(text, '.') == fields && |fields| == 4 && a < 256 && b < 256 && c < 256 && d < 256
    requires ParseByte(fields[0]) == Some(a) && ParseByte(fields[1]) == Some(b)
    requires ParseByte(fields[2]) == Some(c) && ParseByte(fields[3]) == Some(d)
    ensures Parse(text) == Some(0x100_0000 * a + 0x1_0000 * b + 0x100 * c + d)
  {
    hide ParseByte, SplitOn;
  }

  lemma JoinFour(a: string, b: string, c: string, d: string)
    ensures Join([a, b, c, d], ".") == a + "." + b + "." + c + "." + d
  {
    assert [a, b, c, d][1..] == [b, c, d] && [b, c, d][1..] == [c, d] && [c, d][1..] == [d];
    assert Join([c, d], ".") == c + "." + d;
    assert Join([b, c, d], ".") == b + "." + c + "." + d;
  }
}
