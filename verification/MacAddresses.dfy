/** MAC addresses: which texts are accepted, how they are stored, and which hardware address they denote. */
module MacAddresses {
  import opened Text

  predicate IsHexDigit(c: char) {
    '0' <= c <= '9' || 'a' <= c <= 'f' || 'A' <= c <= 'F'
  }

  function HexValue(c: char): (d: nat)
    requires IsHexDigit(c)
    ensures d < 16
  {
    if '0' <= c <= '9' then c as int - '0' as int
    else if 'a' <= c <= 'f' then c as int - 'a' as int + 10
    else c as int - 'A' as int + 10
  }

  /** Six pairs of digits between colons or hyphens. */
  predicate IsSixPairs(text: string) {
    |text| == 17 && forall i :: 0 <= i < 17 ==> if i % 3 == 2 then text[i] == ':' || text[i] == '-' else IsHexDigit(text[i])
  }

  /** Three groups of four digits between dots. */
  predicate IsThreeGroups(text: string) {
    |text| == 14 && forall i :: 0 <= i < 14 ==> if i % 5 == 4 then text[i] == '.' else IsHexDigit(text[i])
  }

  predicate ValidateMAC(text: string) {
    IsSixPairs(text) || IsThreeGroups(text)
  }

  /** How a MAC is stored. */
  function Stored(text: string): string {
    Lower(text)
  }

  /** The position of the k-th digit, and the digit at a position. */
  function PositionOf(text: string, k: nat): nat {
    if |text| == 17 then k + k / 2 else k + k / 4
  }

  function DigitAt(text: string, k: nat): (d: nat)
    requires ValidateMAC(text) && k < 12
    ensures d < 16
  {
    HexValue(text[PositionOf(text, k)])
  }

  /** The hardware address a text denotes: its twelve digits in order. */
  function HardwareAddress(text: string): nat
    requires ValidateMAC(text)
  {
    FirstDigits(text, 12)
  }

  function FirstDigits(text: string, n: nat): nat
    requires ValidateMAC(text) && n <= 12
  {
    if n == 0 then 0 else 16 * FirstDigits(text, n - 1) + DigitAt(text, n - 1)
  }

  /** The separators of a text, which are all that is left of its notation once the case is gone. */
  function Notation(text: string): string
    requires ValidateMAC(text)
  {
    if |text| == 17 then [text[2], text[5], text[8], text[11], text[14]] else [text[4], text[9]]
  }

  lemma SameLastDigit(x: nat, d: nat, y: nat, e: nat)
    requires d < 16 && e < 16 && 16 * x + d == 16 * y + e
    ensures x == y && d == e
  {
  }

  lemma {:induction false} SameDigits(a: string, b: string, n: nat, k: nat)
    requires ValidateMAC(a) && ValidateMAC(b) && k < n <= 12 && FirstDigits(a, n) == FirstDigits(b, n)
    ensures DigitAt(a, k) == DigitAt(b, k)
  {
    hide DigitAt;
    SameLastDigit(FirstDigits(a, n - 1), DigitAt(a, n - 1), FirstDigits(b, n - 1), DigitAt(b, n - 1));
    if k < n - 1 {
      SameDigits(a, b, n - 1, k);
    }
  }

  lemma {:induction false} SameValue(a: string, b: string, n: nat)
    requires ValidateMAC(a) && ValidateMAC(b) && n <= 12
    requires forall k :: 0 <= k < n ==> DigitAt(a, k) == DigitAt(b, k)
    ensures FirstDigits(a, n) == FirstDigits(b, n)
  {
    if n > 0 {
      SameValue(a, b, n - 1);
    }
  }

  lemma SameLetter(c: char, d: char)
    requires IsHexDigit(c) && IsHexDigit(d)
    ensures LowerChar(c) == LowerChar(d) <==> HexValue(c) == HexValue(d)
  {
  }

  /** Where a valid text has a digit, it is one of the twelve. */
  lemma DigitIndex(text: string, i: nat) returns (k: nat)
    requires ValidateMAC(text) && i < |text| && IsHexDigit(text[i])
    ensures k < 12 && PositionOf(text, k) == i
  {
    k := if |text| == 17 then i - i / 3 else i - i / 5;
  }

  lemma StoredAt(a: string, b: string, i: nat)
    requires ValidateMAC(a) && ValidateMAC(b) && |a| == |b| && i < |a|
    requires HardwareAddress(a) == HardwareAddress(b) && Notation(a) == Notation(b)
    ensures LowerChar(a[i]) == LowerChar(b[i])
  {
    hide FirstDigits;
    if IsHexDigit(a[i]) {
      var k := DigitIndex(a, i);
      SameDigits(a, b, 12, k);
      SameLetter(a[i], b[i]);
    } else {
      var x, y := Notation(a), Notation(b);
      if |a| == 17 {
        assert x[i / 3] == a[i] && y[i / 3] == b[i];
      } else {
        assert x[i / 5] == a[i] && y[i / 5] == b[i];
      }
    }
  }

  /** Stored texts tell hardware addresses apart, but also notations of the same one. */
  lemma StoredIsAddressAndNotation(a: string, b: string)
    requires ValidateMAC(a) && ValidateMAC(b)
    ensures Stored(a) == Stored(b) <==> HardwareAddress(a) == HardwareAddress(b) && Notation(a) == Notation(b)
  {
    hide FirstDigits;
    if HardwareAddress(a) == HardwareAddress(b) && Notation(a) == Notation(b) {
      assert |Notation(a)| == |Notation(b)|;
      forall i | 0 <= i < |a| ensures Stored(a)[i] == Stored(b)[i] {
        StoredAt(a, b, i);
      }
    }
    if Stored(a) == Stored(b) {
      assert |Stored(a)| == |Stored(b)|;
      forall i | 0 <= i < |a| ensures LowerChar(a[i]) == LowerChar(b[i]) {
        assert Stored(a)[i] == Stored(b)[i];
      }
      forall k | 0 <= k < 12 ensures DigitAt(a, k) == DigitAt(b, k) {
        SameLetter(a[PositionOf(a, k)], b[PositionOf(b, k)]);
      }
      SameValue(a, b, 12);
      SeparatorsStay(a);
      SeparatorsStay(b);
    }
  }

  lemma SeparatorsStay(a: string)
    requires ValidateMAC(a)
    ensures |Stored(a)| == |a|
    ensures Notation(a) == if |a| == 17
      then [Stored(a)[2], Stored(a)[5], Stored(a)[8], Stored(a)[11], Stored(a)[14]] else [Stored(a)[4], Stored(a)[9]]
  {
  }

  /** Any text of six pairs, written with the other separator in one place: the same hardware address, stored as another text. */
  lemma OtherNotation(text: string)
    requires IsSixPairs(text)
    ensures
      var other := text[2 := if text[2] == ':' then '-' else ':'];
      ValidateMAC(other) && HardwareAddress(other) == HardwareAddress(text) && Stored(other) != Stored(text)
  {
    hide FirstDigits;
    var other := text[2 := if text[2] == ':' then '-' else ':'];
    forall k | 0 <= k < 12 ensures DigitAt(text, k) == DigitAt(other, k) {
      assert PositionOf(text, k) % 3 != 2;
    }
    SameValue(text, other, 12);
    assert Stored(text)[2] == text[2] && Stored(other)[2] == other[2];
  }

  /** The same twelve digits in three groups between dots. */
  function Dotted(text: string): string
    requires IsSixPairs(text)
  {
    text[..2] + text[3..5] + "." + text[6..8] + text[9..11] + "." + text[12..14] + text[15..17]
  }

  /** A text of six pairs, rewritten in three groups, is accepted and denotes the same hardware address. */
  lemma DottedNotation(text: string)
    requires IsSixPairs(text)
    ensures IsThreeGroups(Dotted(text)) && ValidateMAC(Dotted(text))
    ensures HardwareAddress(Dotted(text)) == HardwareAddress(text) && Stored(Dotted(text)) != Stored(text)
  {
    hide FirstDigits;
    var dotted := Dotted(text);
    assert |Stored(dotted)| == 14 && |Stored(text)| == 17;
    forall k | 0 <= k < 12 ensures DigitAt(text, k) == DigitAt(dotted, k) {
      assert dotted[PositionOf(dotted, k)] == text[PositionOf(text, k)];
    }
    SameValue(text, dotted, 12);
  }
}
