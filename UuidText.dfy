/** The text building used by the overview() functions: a byte as two
    upper-case hex digits ("%02X"), a 128-bit UUID in the
    xxxxxxxx-xxxx-xxxx-xxxx-xxxxxxxxxxxx layout with the bytes taken in a
    given order, and a size_t in decimal (std::to_string). Each comes with
    the parser that inverts it. */
module UuidText {
  import opened Gatt

  const HexDigits: string := "0123456789ABCDEF"

  /** "%02X" of one byte. */
  function Hex2(b: byte): (s: string)
    ensures |s| == 2
  {
    [HexDigits[b / 16], HexDigits[b % 16]]
  }

  function HexDigitValue(c: char): Option<int> {
    if '0' <= c <= '9' then Some(c as int - '0' as int)
    else if 'A' <= c <= 'F' then Some(c as int - 'A' as int + 10)
    else None
  }

  function ParseHex2(s: string): Option<byte>
    requires |s| == 2
  {
    match (HexDigitValue(s[0]), HexDigitValue(s[1]))
    case (Some(hi), Some(lo)) => Some(16 * hi + lo)
    case _ => None
  }

  lemma HexDigitRoundTrip(n: int)
    requires 0 <= n < 16
    ensures HexDigitValue(HexDigits[n]) == Some(n)
  {
  }

  /** Every byte's two hex digits read back as that byte. */
  lemma Hex2RoundTrip(b: byte)
    ensures ParseHex2(Hex2(b)) == Some(b)
  {
    HexDigitRoundTrip(b / 16);
    HexDigitRoundTrip(b % 16);
  }

  /** An output order: the k-th written pair of digits is byte order[k]. */
  type ByteOrder = order: seq<nat> | |order| == 16 && forall k | 0 <= k < 16 :: order[k] < 16
    witness [0, 1, 2, 3, 4, 5, 6, 7, 8, 9, 10, 11, 12, 13, 14, 15]

  /** Both orders the overview functions use are their own inverse. */
  ghost predicate SelfInverseOrder(order: ByteOrder) {
    forall k | 0 <= k < 16 :: order[order[k]] == k
  }

  /** Bytes 0..15 in order (src/Characteristic.cpp, the characteristics managers, src/Service.cpp). */
  const StraightOrder: ByteOrder := [0, 1, 2, 3, 4, 5, 6, 7, 8, 9, 10, 11, 12, 13, 14, 15]

  /** The first three fields byte-swapped, the rest in order
      (src/CustomBLE/Characteristic.cpp). */
  const FieldSwappedOrder: ByteOrder := [3, 2, 1, 0, 5, 4, 7, 6, 8, 9, 10, 11, 12, 13, 14, 15]

  lemma OrdersAreSelfInverse()
    ensures SelfInverseOrder(StraightOrder)
    ensures SelfInverseOrder(FieldSwappedOrder)
  {
    forall k | 0 <= k < 16
      ensures FieldSwappedOrder[FieldSwappedOrder[k]] == k
    {
      if k < 8 {
        assert k == 0 || k == 1 || k == 2 || k == 3 || k == 4 || k == 5 || k == 6 || k == 7;
      }
    }
  }

  predicate IsHyphenPos(i: nat) {
    i == 8 || i == 13 || i == 18 || i == 23
  }

  /** The digit position i (not a hyphen) holds digit i' % 2 of printed
      byte i' / 2, where i' is i minus the hyphens before it. */
  function DigitSlot(i: nat): nat
    requires i < 36 && !IsHyphenPos(i)
  {
    if i < 8 then i else if i < 13 then i - 1 else if i < 18 then i - 2
    else if i < 23 then i - 3 else i - 4
  }

  /** The 36-character UUID text of the overview functions: groups of 8, 4,
      4, 4 and 12 hex digits separated by hyphens, the k-th pair of digits
      being "%02X" of byte order[k]. */
  function FormatUuid(u: UuidBytes, order: ByteOrder): (s: string)
    ensures |s| == 36
  {
    seq(36, i requires 0 <= i < 36 =>
      if IsHyphenPos(i) then '-' else Hex2(u[order[DigitSlot(i) / 2]])[DigitSlot(i) % 2])
  }

  /** Where the k-th printed byte starts: two digits per byte, plus one for
      each hyphen before it. */
  function Pos(k: nat): nat {
    2 * k + (if k >= 4 then 1 else 0) + (if k >= 6 then 1 else 0)
      + (if k >= 8 then 1 else 0) + (if k >= 10 then 1 else 0)
  }

  predicate HyphensAt(s: string) {
    |s| == 36 && s[8] == '-' && s[13] == '-' && s[18] == '-' && s[23] == '-'
  }

  /** The two characters printed for the k-th byte. */
  function PairAt(s: string, k: nat): string
    requires |s| == 36 && k < 16
  {
    [s[Pos(k)], s[Pos(k) + 1]]
  }

  lemma FormatHyphens(u: UuidBytes, order: ByteOrder)
    ensures HyphensAt(FormatUuid(u, order))
  {
  }

  /** The k-th printed byte's two digits sit at Pos(k). */
  lemma FormatPair(u: UuidBytes, order: ByteOrder, k: nat)
    requires k < 16
    ensures PairAt(FormatUuid(u, order), k) == Hex2(u[order[k]])
  {
    assert !IsHyphenPos(Pos(k)) && !IsHyphenPos(Pos(k) + 1);
    assert DigitSlot(Pos(k)) == 2 * k && DigitSlot(Pos(k) + 1) == 2 * k + 1;
  }

  /** Reads a UUID back from its text, given the output order. */
  function ParseUuid(s: string, order: ByteOrder): Option<UuidBytes>
  {
    if !HyphensAt(s) then None
    else if exists k | 0 <= k < 16 :: ParseHex2(PairAt(s, k)).None? then None
    else
      var printed := seq(16, k requires 0 <= k < 16 => ParseHex2(PairAt(s, k)).value);
      Some(seq(16, j requires 0 <= j < 16 => printed[order[j]]))
  }

  /** The UUID text identifies the UUID: parsing it with the same order
      gives back the 16 value bytes. */
  lemma {:induction false} UuidTextRoundTrip(u: UuidBytes, order: ByteOrder)
    requires SelfInverseOrder(order)
    ensures ParseUuid(FormatUuid(u, order), order) == Some(u)
  {
    var s := FormatUuid(u, order);
    FormatHyphens(u, order);
    forall k | 0 <= k < 16
      ensures ParseHex2(PairAt(s, k)) == Some(u[order[k]])
    {
      FormatPair(u, order, k);
      Hex2RoundTrip(u[order[k]]);
    }
    var printed := seq(16, k requires 0 <= k < 16 => ParseHex2(PairAt(s, k)).value);
    assert forall j | 0 <= j < 16 :: printed[order[j]] == u[j];
    assert seq(16, j requires 0 <= j < 16 => printed[order[j]]) == u;
  }

  /** The characters of a std::string holding the given bytes. */
  function Chars(bytes: seq<byte>): (text: string)
    ensures |text| == |bytes|
    ensures forall i | 0 <= i < |bytes| :: text[i] as int == bytes[i]
  {
    seq(|bytes|, i requires 0 <= i < |bytes| => bytes[i] as char)
  }

  const DecimalDigits: string := "0123456789"

  /** std::to_string of a size_t. */
  function NatToString(n: nat): (s: string)
    ensures |s| > 0
    ensures forall i | 0 <= i < |s| :: '0' <= s[i] <= '9'
  {
    if n < 10 then [DecimalDigits[n]]
    else NatToString(n / 10) + [DecimalDigits[n % 10]]
  }

  function ParseNat(s: string): nat
    requires forall i | 0 <= i < |s| :: '0' <= s[i] <= '9'
  {
    if s == [] then 0
    else 10 * ParseNat(s[..|s| - 1]) + (s[|s| - 1] as int - '0' as int)
  }

  /** Distinct indices are written differently: the decimal text reads back as the number. */
  lemma {:induction false} NatToStringRoundTrip(n: nat)
    ensures ParseNat(NatToString(n)) == n
  {
    var s := NatToString(n);
    if n >= 10 {
      NatToStringRoundTrip(n / 10);
      assert s[..|s| - 1] == NatToString(n / 10);
    }
  }

  /** The concatenation of a list of lines, in order. */
  function Join(lines: seq<string>): string {
    if lines == [] then "" else Join(lines[..|lines| - 1]) + lines[|lines| - 1]
  }

  /** Joining two lists is joining each and concatenating the results. */
  lemma {:induction false} JoinConcat(a: seq<string>, b: seq<string>)
    ensures Join(a + b) == Join(a) + Join(b)
    decreases |b|
  {
    if b == [] {
      assert a + b == a;
    } else {
      var n := |b| - 1;
      assert (a + b)[..|a + b| - 1] == a + b[..n];
      JoinConcat(a, b[..n]);
    }
  }

  /** Appending one line to a list appends its text to the joined text. */
  lemma JoinAppend(lines: seq<string>, line: string, header: string)
    ensures header + Join(lines + [line]) == (header + Join(lines)) + line
  {
    assert (lines + [line])[..|lines|] == lines;
  }
}
