/** The attachment blob id: "imap:blob:" + the message id in hexadecimal + ":" + the attachment's
    one-based number in decimal, and the parser that reads it back. */
module BlobId {
  import opened Numerals
  import opened Text
  import opened Wrappers

  type Byte = x: int | 0 <= x < 0x100

  const USIZE_MAX: nat := 0xFFFF_FFFF_FFFF_FFFF

  // ---------------------------------------------------------------------------------------
  // Message ids: UTF-8 text
  // ---------------------------------------------------------------------------------------

  predicate Continues(b: Byte) {
    0x80 <= b <= 0xBF
  }

  // The second byte of a three-byte character: no overlong form and no surrogate.
  predicate SecondOfThree(lead: Byte, b: Byte) {
    if lead == 0xE0 then 0xA0 <= b <= 0xBF else if lead == 0xED then 0x80 <= b <= 0x9F else Continues(b)
  }

  // The second byte of a four-byte character: no overlong form, nothing above U+10FFFF.
  predicate SecondOfFour(lead: Byte, b: Byte) {
    if lead == 0xF0 then 0x90 <= b <= 0xBF else if lead == 0xF4 then 0x80 <= b <= 0x8F else Continues(b)
  }

  predicate ValidUtf8(s: seq<Byte>) {
    if s == [] then true
    else if s[0] <= 0x7F then ValidUtf8(s[1..])
    else if 0xC2 <= s[0] <= 0xDF then |s| >= 2 && Continues(s[1]) && ValidUtf8(s[2..])
    else if 0xE0 <= s[0] <= 0xEF then
      |s| >= 3 && SecondOfThree(s[0], s[1]) && Continues(s[2]) && ValidUtf8(s[3..])
    else if 0xF0 <= s[0] <= 0xF4 then
      |s| >= 4 && SecondOfFour(s[0], s[1]) && Continues(s[2]) && Continues(s[3]) && ValidUtf8(s[4..])
    else false
  }

  type MessageId = s: seq<Byte> | ValidUtf8(s) witness []

  // ---------------------------------------------------------------------------------------
  // Hexadecimal
  // ---------------------------------------------------------------------------------------

  function HexDigit(n: nat): char
    requires n < 16
  {
    if n < 10 then ('0' as int + n) as char else ('a' as int + n - 10) as char
  }

  function Nibble(c: char): Option<nat> {
    if '0' <= c <= '9' then Some(c as int - '0' as int)
    else if 'a' <= c <= 'f' then Some(c as int - 'a' as int + 10)
    else if 'A' <= c <= 'F' then Some(c as int - 'A' as int + 10)
    else None
  }

  function HexEncode(s: seq<Byte>): string {
    if s == [] then "" else [HexDigit(s[0] / 16), HexDigit(s[0] % 16)] + HexEncode(s[1..])
  }

  function HexDecode(s: string): Option<seq<Byte>> {
    if s == "" then Some([])
    else if |s| == 1 then None
    else
      match (Nibble(s[0]), Nibble(s[1]), HexDecode(s[2..]))
      case (Some(high), Some(low), Some(rest)) =>
        assert high < 16 && low < 16;
        Some([16 * high + low] + rest)
      case _ => None
  }

  function LowerDigit(c: char): char {
    if 'A' <= c <= 'F' then (c as int - 'A' as int + 'a' as int) as char else c
  }

  function LowerHex(s: string): string {
    seq(|s|, i requires 0 <= i < |s| => LowerDigit(s[i]))
  }

  lemma NibbleMeaning(c: char, n: nat)
    requires n < 16
    ensures Nibble(c) == Some(n) <==> LowerHex([c]) == [HexDigit(n)]
  {
    assert LowerHex([c]) == [LowerDigit(c)];
    assert Nibble(c) == Some(n) <==> LowerDigit(c) == HexDigit(n);
    assert [LowerDigit(c)] == [HexDigit(n)] ==> [LowerDigit(c)][0] == [HexDigit(n)][0];
  }

  lemma LowerHexConcat(a: string, b: string)
    ensures LowerHex(a + b) == LowerHex(a) + LowerHex(b)
  {
  }

  /** Decoding accepts exactly the spellings, in either case, of what encoding prints. */
  lemma {:induction false} HexDecodeIff(s: string, bytes: seq<Byte>)
    ensures HexDecode(s) == Some(bytes) <==> LowerHex(s) == HexEncode(bytes)
    decreases |s|
  {
    if |s| >= 2 && bytes != [] {
      var high, low := bytes[0] / 16, bytes[0] % 16;
      assert s == ([s[0]] + [s[1]]) + s[2..];
      LowerHexConcat([s[0]] + [s[1]], s[2..]);
      LowerHexConcat([s[0]], [s[1]]);
      HexDecodeIff(s[2..], bytes[1..]);
      NibbleMeaning(s[0], high);
      NibbleMeaning(s[1], low);
      HexStep(s, bytes);
      var l, h := LowerHex(s), HexEncode(bytes);
      assert h[2..] == HexEncode(bytes[1..]);
      assert l[2..] == LowerHex(s[2..]);
      assert l[0] == LowerHex([s[0]])[0] && l[1] == LowerHex([s[1]])[0];
      assert l == [l[0], l[1]] + l[2..] && h == [h[0], h[1]] + h[2..];
    }
  }

  /** The two digits of byte i, most significant first. */
  lemma {:induction false} HexEncodeAt(s: seq<Byte>, i: nat)
    requires i < |s|
    ensures |HexEncode(s)| == 2 * |s|
    ensures HexEncode(s)[2 * i] == "0123456789abcdef"[s[i] / 16] && HexEncode(s)[2 * i + 1] == "0123456789abcdef"[s[i] % 16]
  {
    DigitAt(s[i] / 16);
    DigitAt(s[i] % 16);
    HexLength(s[1..]);
    if i > 0 {
      HexEncodeAt(s[1..], i - 1);
    }
  }

  lemma {:induction false} HexLength(s: seq<Byte>)
    ensures |HexEncode(s)| == 2 * |s|
  {
    if s != [] {
      HexLength(s[1..]);
    }
  }

  lemma DigitAt(n: nat)
    requires n < 16
    ensures HexDigit(n) == "0123456789abcdef"[n]
  {
  }

  lemma HexStep(s: string, bytes: seq<Byte>)
    requires |s| >= 2 && bytes != []
    ensures HexDecode(s) == Some(bytes)
       <==> Nibble(s[0]) == Some(bytes[0] / 16) && Nibble(s[1]) == Some(bytes[0] % 16) && HexDecode(s[2..]) == Some(bytes[1..])
  {
    assert bytes == [bytes[0]] + bytes[1..];
    if HexDecode(s) == Some(bytes) {
      var high, low := Nibble(s[0]).value, Nibble(s[1]).value;
      assert bytes[0] == 16 * high + low && high < 16 && low < 16;
      assert bytes[1..] == HexDecode(s[2..]).value;
    }
  }

  // ---------------------------------------------------------------------------------------
  // Decimal
  // ---------------------------------------------------------------------------------------

  // The accumulator of `usize::from_str`, with its checked multiplication and addition.
  function Accumulate(s: string): Option<nat> {
    if s == "" then Some(0)
    else
      var c := s[|s| - 1];
      match Accumulate(s[..|s| - 1])
      case None => None
      case Some(v) =>
        if !IsDigit(c) then None
        else if 10 * v > USIZE_MAX then None
        else if 10 * v + (c as int - '0' as int) > USIZE_MAX then None
        else Some(10 * v + (c as int - '0' as int))
  }

  // One leading '+' is allowed; a lone sign and an empty string are not numbers.
  function ParseUsize(s: string): Option<nat> {
    var digits := if s != "" && s[0] == '+' then s[1..] else s;
    if digits == "" then None else Accumulate(digits)
  }

  lemma {:induction false} AccumulateIff(s: string, n: nat)
    ensures Accumulate(s) == Some(n) <==> Digits(s) && Value(s) == n && n <= USIZE_MAX
  {
    if s != "" {
      var before := s[..|s| - 1];
      assert s == before + [s[|s| - 1]];
      if Digits(s) {
        assert Digits(before);
        AccumulateIff(before, Value(before));
      }
      if Accumulate(s).Some? {
        AccumulateIff(before, Accumulate(before).value);
        assert forall i :: 0 <= i < |s| ==> s[i] == (if i < |before| then before[i] else s[|s| - 1]);
      }
    }
  }

  // ---------------------------------------------------------------------------------------
  // The blob id
  // ---------------------------------------------------------------------------------------

  function Print(m: MessageId, index: nat): string {
    "imap:blob:" + HexEncode(m) + ":" + Decimal(index + 1)
  }

  datatype Attachment = Attachment(message: MessageId, number: nat)

  datatype InvalidBlobId = InvalidBlobId(text: string)

  function Parse(blobId: string): (r: Result<Attachment, InvalidBlobId>)
    ensures r.Err? ==> r.error.text == blobId
  {
    var parts := Split(blobId, ':');
    if |parts| != 4 || parts[0] != "imap" || parts[1] != "blob" then Err(InvalidBlobId(blobId))
    else
      match HexDecode(parts[2])
      case None => Err(InvalidBlobId(blobId))
      case Some(bytes) =>
        if !ValidUtf8(bytes) then Err(InvalidBlobId(blobId))
        else
          match ParseUsize(parts[3])
          case None => Err(InvalidBlobId(blobId))
          case Some(n) => if n == 0 then Err(InvalidBlobId(blobId)) else Ok(Attachment(bytes, n))
  }

  function Unsigned(digits: string): string {
    if digits != "" && digits[0] == '+' then digits[1..] else digits
  }

  /** A spelling of attachment n of message m: hexadecimal in either case, an optional plus sign, any
      leading zeros, and a number between 1 and the largest usize. */
  predicate Spells(hex: string, number: string, a: Attachment) {
    && LowerHex(hex) == HexEncode(a.message)
    && Unsigned(number) != "" && Digits(Unsigned(number)) && Value(Unsigned(number)) == a.number
    && 1 <= a.number <= USIZE_MAX
  }

  function Assemble(hex: string, number: string): string {
    "imap:blob:" + hex + ":" + number
  }

  lemma {:induction false} HexEncodeDigits(bytes: seq<Byte>)
    ensures forall c :: c in HexEncode(bytes) ==> Nibble(c).Some?
    ensures LowerHex(HexEncode(bytes)) == HexEncode(bytes)
  {
    if bytes != [] {
      HexEncodeDigits(bytes[1..]);
      LowerHexConcat([HexDigit(bytes[0] / 16), HexDigit(bytes[0] % 16)], HexEncode(bytes[1..]));
    }
  }

  lemma SpellingHasNoColon(hex: string, number: string, a: Attachment)
    requires Spells(hex, number, a)
    ensures ':' !in hex && ':' !in number
  {
    HexEncodeDigits(a.message);
    forall i | 0 <= i < |hex| ensures hex[i] != ':' {
      assert Nibble(LowerHex(hex)[i]).Some?;
    }
    var digits := Unsigned(number);
    assert number == digits || number == "+" + digits;
  }

  lemma SplitAssembled(hex: string, number: string)
    requires ':' !in hex && ':' !in number
    ensures Split(Assemble(hex, number), ':') == ["imap", "blob", hex, number]
  {
    JoinFour("imap", "blob", hex, number);
    SplitOfJoin(["imap", "blob", hex, number], ':');
  }

  lemma JoinFour(a: string, b: string, c: string, d: string)
    ensures Join([a, b, c, d], ':') == a + ":" + (b + ":" + (c + ":" + d))
    ensures a == "imap" && b == "blob" ==> Join([a, b, c, d], ':') == Assemble(c, d)
  {
    assert [a, b, c, d][1..] == [b, c, d] && [b, c, d][1..] == [c, d] && [c, d][1..] == [d];
    assert Join([d], ':') == d && Join([c, d], ':') == c + ":" + d && Join([b, c, d], ':') == b + ":" + (c + ":" + d);
    if a == "imap" && b == "blob" {
      assert a + ":" + (b + ":" + (c + ":" + d)) == Assemble(c, d);
    }
  }

  /** The parser accepts exactly the spellings of an attachment, and reads each as what it spells. */
  lemma ParseIff(blobId: string, a: Attachment)
    ensures Parse(blobId) == Ok(a)
       <==> exists hex, number :: blobId == Assemble(hex, number) && Spells(hex, number, a)
  {
    if Parse(blobId) == Ok(a) {
      var parts := Split(blobId, ':');
      JoinOfSplit(blobId, ':');
      JoinFour(parts[0], parts[1], parts[2], parts[3]);
      assert parts == [parts[0], parts[1], parts[2], parts[3]];
      HexDecodeIff(parts[2], a.message);
      AccumulateIff(Unsigned(parts[3]), a.number);
      assert Spells(parts[2], parts[3], a);
    }
    if hex, number :| blobId == Assemble(hex, number) && Spells(hex, number, a) {
      SpellingReads(hex, number, a);
    }
  }

  lemma SpellingReads(hex: string, number: string, a: Attachment)
    requires Spells(hex, number, a)
    ensures Parse(Assemble(hex, number)) == Ok(a)
  {
    SpellingHasNoColon(hex, number, a);
    SplitAssembled(hex, number);
    HexDecodeIff(hex, a.message);
    AccumulateIff(Unsigned(number), a.number);
  }

  lemma PrintSpells(m: MessageId, index: nat)
    requires index + 1 <= USIZE_MAX
    ensures Print(m, index) == Assemble(HexEncode(m), Decimal(index + 1))
    ensures Spells(HexEncode(m), Decimal(index + 1), Attachment(m, index + 1))
  {
    HexEncodeDigits(m);
    DecimalMeaning(index + 1);
  }

  /** Every printed blob id reads back as the message and the attachment it was printed for. */
  lemma RoundTrip(m: MessageId, index: nat)
    requires index + 1 <= USIZE_MAX
    ensures Parse(Print(m, index)) == Ok(Attachment(m, index + 1))
  {
    PrintSpells(m, index);
    SpellingReads(HexEncode(m), Decimal(index + 1), Attachment(m, index + 1));
  }

  /** Two attachments never share a blob id. */
  lemma PrintInjective(m: MessageId, i: nat, n: MessageId, j: nat)
    requires i + 1 <= USIZE_MAX && j + 1 <= USIZE_MAX && Print(m, i) == Print(n, j)
    ensures m == n && i == j
  {
    RoundTrip(m, i);
    RoundTrip(n, j);
  }

  /** Printing an accepted id again restores the same text exactly when it was in lower case, with no
      plus sign and no leading zero. */
  lemma ReprintsIff(hex: string, number: string, a: Attachment)
    requires Spells(hex, number, a)
    ensures Print(a.message, a.number - 1) == Assemble(hex, number)
       <==> LowerHex(hex) == hex && number[0] != '+' && number[0] != '0'
  {
    PrintSpells(a.message, a.number - 1);
    DecimalMeaning(a.number);
    if LowerHex(hex) == hex && number[0] != '+' && number[0] != '0' {
      CanonicalDecimal(number);
    }
    if Print(a.message, a.number - 1) == Assemble(hex, number) {
      SpellingHasNoColon(hex, number, a);
      SplitAssembled(hex, number);
      SpellingHasNoColon(HexEncode(a.message), Decimal(a.number), a);
      SplitAssembled(HexEncode(a.message), Decimal(a.number));
      assert Split(Assemble(hex, number), ':')[2] == HexEncode(a.message);
      assert Split(Assemble(hex, number), ':')[3] == Decimal(a.number);
      HexEncodeDigits(a.message);
    }
  }

  /** So an accepted id need not be one the printer writes. */
  lemma AcceptedButNeverPrinted(m: MessageId, index: nat)
    requires index + 1 <= USIZE_MAX
    ensures Parse("imap:blob:4A:+01") == Ok(Attachment([0x4A], 1))
    ensures Print(m, index) != "imap:blob:4A:+01"
  {
    var a := Attachment([0x4A], 1);
    assert "+01"[1..] == "01" && "01"[..1] == "0" && "0"[..0] == "";
    assert HexEncode([0x4A]) == "4a" by {
      assert [0x4A][1..] == [];
    }
    assert LowerHex("4A") == "4a";
    assert Value("0") == 0;
    assert Spells("4A", "+01", a);
    SpellingReads("4A", "+01", a);
    assert Assemble("4A", "+01") == "imap:blob:4A:+01";
    if Print(m, index) == "imap:blob:4A:+01" {
      RoundTrip(m, index);
      ReprintsIff("4A", "+01", a);
    }
  }
}
