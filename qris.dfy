/** QRIS payloads: EMVCo Merchant-Presented-Mode QR strings as used in Indonesia. A payload is a
    run of data objects `ID LL VALUE` (two-digit ID, two-digit length); the ones used here are
    `01` (point of initiation, `11` static, `12` dynamic), `54` (transaction amount), `58`
    (country code, `ID`), `59` (merchant name), `60` (merchant city) and `63` (CRC, always last). */
module Qris {
  import opened Base
  import opened Strings
  import opened Numerals
  import opened Crc16

  const CountryCode := "5802ID"
  const StaticIndicator := "010211"
  const DynamicIndicator := "010212"
  const VersionPrefix := "00020101"

  datatype QrisError = InvalidQrisString | InvalidAmount | CountryCodeNotFound

  /** The prefix the `catch` block puts in front of an error thrown inside the `try`. */
  const WrapPrefix := "Failed to generate dynamic QRIS: "

  /** The message of the error `generateDynamicQRIS` throws. Only the country-code error is raised
      inside the `try`, so only its message is wrapped. */
  function Message(e: QrisError): (m: string)
    ensures StartsWith(m, WrapPrefix) <==> e == CountryCodeNotFound
  {
    match e
    case InvalidQrisString => "Invalid QRIS string"
    case InvalidAmount =>
      var m := "Amount must be a positive integer";
      assert |m| == |WrapPrefix| && m[0] != WrapPrefix[0];
      m
    case CountryCodeNotFound => WrapPrefix + "Invalid QRIS format: country code not found"
  }

  /** A caller can tell the three errors apart by their messages. */
  lemma MessagesDistinct(e: QrisError, e': QrisError)
    ensures Message(e) == Message(e') ==> e == e'
  {
    if e != e' {
      assert Message(e)[0] != Message(e')[0] || |Message(e)| != |Message(e')|;
    }
  }

  /** `s.substring(0, s.length - 4)`: drop the old CRC value; a negative end clamps to 0. */
  function StripCrc(s: string): (r: string)
    ensures |s| >= 4 ==> r == s[..|s| - 4]
    ensures |s| < 4 ==> r == ""
  {
    if |s| >= 4 then s[..|s| - 4] else ""
  }

  /** Turn the first static point-of-initiation object into a dynamic one. */
  function Flip(s: string): string
  {
    ReplaceFirst(s, StaticIndicator, DynamicIndicator)
  }

  /** The string whose `5802ID` the amount is inserted before. */
  function Flipped(q: string): string
  {
    Flip(StripCrc(q))
  }

  /** `"54" + String(amount.length).padStart(2, '0') + amount`, the amount written in decimal. */
  function AmountTag(n: nat): (r: string)
    ensures |r| >= |Decimal(n)| + 4 && r[..2] == "54" && r[|r| - |Decimal(n)|..] == Decimal(n)
  {
    "54" + LengthField(|Decimal(n)|) + Decimal(n)
  }

  /** `generateDynamicQRIS(staticQris, amount)`. `None` stands for a value of the wrong type:
      anything but a string for the payload, anything but an integral number for the amount. */
  function GenerateDynamic(qris: Option<string>, amount: Option<int>): (r: Result<string, QrisError>)
    ensures r == Err(InvalidQrisString) <==> qris.None? || qris.value == ""
    ensures r == Err(InvalidAmount) <==> qris.Some? && qris.value != "" && (amount.None? || amount.value <= 0)
  {
    if qris.None? || qris.value == "" then Err(InvalidQrisString)
    else if amount.None? || amount.value <= 0 then Err(InvalidAmount)
    else
      var parts := Split(Flipped(qris.value), CountryCode);
      if |parts| != 2 then Err(CountryCodeNotFound)
      else
        Ok(Signed(parts[0] + AmountTag(amount.value) + CountryCode + parts[1]))
  }

  /** `p` occurs in `s` exactly once. */
  ghost predicate OccursOnce(s: string, p: string)
  {
    exists i :: OccursAt(s, p, i) && forall j :: OccursAt(s, p, j) ==> j == i
  }

  /** Two occurrences of the country code never overlap: its first character occurs nowhere else
      in it. */
  lemma CountryCodeApart(s: string, i: int, j: int)
    ensures OccursAt(s, CountryCode, i) && i < j < i + |CountryCode| ==> !OccursAt(s, CountryCode, j)
  {
    assert OccursAt(s, CountryCode, i) && i < j < i + 6 ==> s[j] == CountryCode[j - i] != '5';
    assert OccursAt(s, CountryCode, j) ==> s[j] == '5';
  }

  /** Splitting on the country code gives two pieces exactly when it occurs once. */
  lemma {:induction false} SplitInTwo(f: string)
    ensures |Split(f, CountryCode)| == 2 <==> OccursOnce(f, CountryCode)
  {
    SplitPieces(f, CountryCode);
    match FindFirst(f, CountryCode)
    case None =>
    case Some(i) =>
      match FindFirst(f[i + 6..], CountryCode)
      case None =>
        OnlyOccurrence(f, i);
      case Some(j) =>
        OccursShift(f, CountryCode, i + 6, j);
        assert OccursAt(f, CountryCode, i) && OccursAt(f, CountryCode, i + 6 + j);
  }

  /** A split has two pieces exactly when the separator occurs and does not occur again after its
      first occurrence. */
  lemma SplitPieces(f: string, sep: string)
    requires |sep| > 0
    ensures |Split(f, sep)| == 2 <==>
      FindFirst(f, sep).Some? && FindFirst(f[FindFirst(f, sep).value + |sep|..], sep).None?
  {
    if FindFirst(f, sep).Some? {
      var rest := f[FindFirst(f, sep).value + |sep|..];
      assert |Split(f, sep)| == 1 + |Split(rest, sep)|;
      SplitOnce(rest, sep);
    }
  }

  /** A split has one piece exactly when the separator does not occur. */
  lemma SplitOnce(f: string, sep: string)
    requires |sep| > 0
    ensures |Split(f, sep)| == 1 <==> FindFirst(f, sep).None?
  {
    if FindFirst(f, sep).Some? {
      var rest := f[FindFirst(f, sep).value + |sep|..];
      assert |Split(f, sep)| == 1 + |Split(rest, sep)|;
    }
  }

  /** An occurrence in a suffix is an occurrence in the whole string, shifted. */
  lemma OccursShift(s: string, p: string, d: nat, j: nat)
    requires d <= |s|
    ensures OccursAt(s[d..], p, j) <==> OccursAt(s, p, d + j)
  {
    if d + j + |p| <= |s| {
      assert s[d..][j..j + |p|] == s[d + j..d + j + |p|];
    }
  }

  /** The first occurrence of the country code is the only one when none follows it. */
  lemma OnlyOccurrence(f: string, i: nat)
    requires FindFirst(f, CountryCode) == Some(i)
    requires FindFirst(f[i + 6..], CountryCode).None?
    ensures OccursOnce(f, CountryCode)
  {
    forall j | OccursAt(f, CountryCode, j) ensures j == i {
      if j > i {
        CountryCodeApart(f, i, j);
        OccursShift(f, CountryCode, i + 6, j - i - 6);
      }
    }
  }

  /** The flip changes at most one character: the last of the first `010211`, a `1`, becomes a
      `2`; the character two before it is a `0`. */
  lemma FlipShape(s: string)
    ensures |Flip(s)| == |s|
    ensures FindFirst(s, StaticIndicator).None? ==> Flip(s) == s
    ensures FindFirst(s, StaticIndicator).Some? ==>
      var i := FindFirst(s, StaticIndicator).value;
      i + 6 <= |s| && s[i..i + 6] == StaticIndicator
      && Flip(s)[i + 5] == '2' && s[i + 5] == '1' && Flip(s)[i + 2] == '0'
      && forall m :: 0 <= m < |s| && m != i + 5 ==> Flip(s)[m] == s[m]
  {
    match FindFirst(s, StaticIndicator)
    case None =>
    case Some(i) =>
      var f := Flip(s);
      assert OccursAt(s, StaticIndicator, i);
      assert f == s[..i] + DynamicIndicator + s[i + 6..];
      assert |f| == |s|;
      assert f[i + 5] == DynamicIndicator[5] && f[i + 2] == DynamicIndicator[2];
      assert s[i + 5] == StaticIndicator[5];
      forall m | 0 <= m < |s| && m != i + 5 ensures f[m] == s[m] {
        if m < i {
          assert f[m] == s[..i][m];
        } else if m < i + 6 {
          assert f[m] == DynamicIndicator[m - i] == StaticIndicator[m - i] == s[m];
        } else {
          assert f[m] == s[i + 6..][m - i - 6];
        }
      }
  }

  /** Changing the first `010211` to `010212` neither creates nor removes a country code. */
  lemma FlipKeepsCountryCode(s: string, j: int)
    ensures OccursAt(Flip(s), CountryCode, j) <==> OccursAt(s, CountryCode, j)
  {
    FlipShape(s);
    match FindFirst(s, StaticIndicator)
    case None =>
    case Some(i) =>
      var f := Flip(s);
      if 0 <= j && j + 6 <= |s| {
        if j <= i + 5 < j + 6 {
          var d := i + 5 - j;
          var ws, wf := s[j..j + 6], f[j..j + 6];
          assert ws[d] == '1' && wf[d] == '2' && (d == 3 ==> wf[0] == '0');
          assert ws != CountryCode && wf != CountryCode;
        } else {
          assert f[j..j + 6] == s[j..j + 6];
        }
      }
  }

  /** Nor does it touch the version prefix `00020101`. */
  lemma FlipKeepsPrefix(s: string)
    requires StartsWith(s, VersionPrefix)
    ensures StartsWith(Flip(s), VersionPrefix)
  {
    FlipShape(s);
    match FindFirst(s, StaticIndicator)
    case None =>
    case Some(i) =>
      assert s[i] == '0' && s[i + 1] == '1' && s[i + 3] == '2';
      assert s[..8] == VersionPrefix;
      assert i >= 3 by {
        assert s[1] == '0' && s[2] == '0' && s[3] == '2';
      }
      assert Flip(s)[..8] == s[..8];
  }

  lemma FlipKeepsOnce(s: string)
    ensures OccursOnce(Flip(s), CountryCode) <==> OccursOnce(s, CountryCode)
  {
    forall j ensures OccursAt(Flip(s), CountryCode, j) <==> OccursAt(s, CountryCode, j) {
      FlipKeepsCountryCode(s, j);
    }
  }

  /** When each error is thrown: a missing or empty payload first, then a bad amount, then a
      payload whose stripped form does not hold the country code exactly once. */
  lemma GenerateDynamicOutcome(qris: Option<string>, amount: Option<int>)
    ensures GenerateDynamic(qris, amount) == Err(InvalidQrisString) <==> qris.None? || qris.value == ""
    ensures GenerateDynamic(qris, amount) == Err(InvalidAmount) <==>
      qris.Some? && qris.value != "" && (amount.None? || amount.value <= 0)
    ensures GenerateDynamic(qris, amount) == Err(CountryCodeNotFound) <==>
      qris.Some? && qris.value != "" && amount.Some? && amount.value > 0
      && !OccursOnce(StripCrc(qris.value), CountryCode)
    ensures GenerateDynamic(qris, amount).Ok? <==>
      qris.Some? && qris.value != "" && amount.Some? && amount.value > 0
      && OccursOnce(StripCrc(qris.value), CountryCode)
  {
    if qris.Some? {
      SplitInTwo(Flipped(qris.value));
      FlipKeepsOnce(StripCrc(qris.value));
    }
  }

  /** The two pieces of a split on a country code that occurs once. */
  lemma SplitAtOnly(f: string)
    requires |Split(f, CountryCode)| == 2
    ensures FindFirst(f, CountryCode).Some?
    ensures var i := FindFirst(f, CountryCode).value;
      Split(f, CountryCode) == [f[..i], f[i + 6..]] && f == f[..i] + CountryCode + f[i + 6..]
  {
    var i := FindFirst(f, CountryCode).value;
    assert Split(f, CountryCode) == [f[..i]] + Split(f[i + 6..], CountryCode);
    assert OccursAt(f, CountryCode, i);
  }

  /** A payload followed by its CRC. */
  function Signed(payload: string): string
  {
    payload + Checksum(payload)
  }

  /** The last four characters of a signed payload are the CRC of the rest. */
  lemma SignedFormat(payload: string)
    ensures |Signed(payload)| == |payload| + 4
    ensures Signed(payload)[..|payload|] == payload
    ensures Signed(payload)[|payload|..] == Checksum(payload)
    ensures AllIn(Checksum(payload), UpperHexDigits)
  {
  }

  /** A successful call splits into two pieces. */
  lemma GenerateDynamicSplit(q: string, n: int)
    requires GenerateDynamic(Some(q), Some(n)).Ok?
    ensures n > 0 && |Split(Flipped(q), CountryCode)| == 2
    ensures var parts := Split(Flipped(q), CountryCode);
      GenerateDynamic(Some(q), Some(n)).value == Signed(parts[0] + AmountTag(n) + CountryCode + parts[1])
  {
  }

  /** Joining the two pieces around the amount object and the country code inserts the amount
      object just before the country code. */
  lemma InsertBeforeCountryCode(f: string, tag: string)
    requires |Split(f, CountryCode)| == 2
    ensures FindFirst(f, CountryCode).Some?
    ensures var parts := Split(f, CountryCode);
      var i := FindFirst(f, CountryCode).value;
      parts[0] + tag + CountryCode + parts[1] == f[..i] + tag + f[i..]
  {
    SplitAtOnly(f);
    var i := FindFirst(f, CountryCode).value;
    assert f[i..] == CountryCode + f[i + 6..];
  }

  /** The successful output: the amount object inserted just before the only country code of the
      stripped, flipped payload, followed by the CRC of everything before it. */
  lemma GenerateDynamicPayload(q: string, n: int)
    requires GenerateDynamic(Some(q), Some(n)).Ok?
    ensures n > 0 && OccursOnce(Flipped(q), CountryCode) && FindFirst(Flipped(q), CountryCode).Some?
    ensures var f := Flipped(q);
      var i := FindFirst(f, CountryCode).value;
      GenerateDynamic(Some(q), Some(n)).value == Signed(f[..i] + AmountTag(n) + f[i..])
  {
    GenerateDynamicSplit(q, n);
    SplitInTwo(Flipped(q));
    InsertBeforeCountryCode(Flipped(q), AmountTag(n));
  }

  /** The output is four characters longer than the input plus the amount object, and ends with
      the CRC of everything before it, in upper-case hexadecimal. */
  lemma GenerateDynamicChecksum(q: string, n: int)
    requires GenerateDynamic(Some(q), Some(n)).Ok?
    ensures n > 0
    ensures var out := GenerateDynamic(Some(q), Some(n)).value;
      |out| == |q| + |AmountTag(n)|
      && out[|out| - 4..] == Checksum(out[..|out| - 4])
      && AllIn(out[|out| - 4..], UpperHexDigits)
  {
    GenerateDynamicPayload(q, n);
    var f := Flipped(q);
    var i := FindFirst(f, CountryCode).value;
    var payload := f[..i] + AmountTag(n) + f[i..];
    GenerateDynamicLength(q, n);
    SignedTail(payload, GenerateDynamic(Some(q), Some(n)).value);
  }

  /** The output is the input plus the amount object: four characters of CRC are stripped and
      four are appended. */
  lemma GenerateDynamicLength(q: string, n: int)
    requires GenerateDynamic(Some(q), Some(n)).Ok?
    ensures |GenerateDynamic(Some(q), Some(n)).value| == |q| + |AmountTag(n)|
  {
    GenerateDynamicPayload(q, n);
    var f := Flipped(q);
    var i := FindFirst(f, CountryCode).value;
    var payload := f[..i] + AmountTag(n) + f[i..];
    assert OccursAt(f, CountryCode, i);
    FlipShape(StripCrc(q));
    assert |q| >= 4;
    assert |payload| == |q| - 4 + |AmountTag(n)|;
    SignedFormat(payload);
  }

  /** A string known to be a signed payload splits into the payload and its CRC. */
  lemma SignedTail(payload: string, out: string)
    requires out == Signed(payload)
    ensures |out| == |payload| + 4
    ensures out[..|out| - 4] == payload
    ensures out[|out| - 4..] == Checksum(out[..|out| - 4])
    ensures AllIn(out[|out| - 4..], UpperHexDigits)
  {
    SignedFormat(payload);
  }

  /** The two-digit length of a data object: `String(len).padStart(2, '0')`. */
  function LengthField(len: nat): string
  {
    PadStart(Decimal(len), 2, '0')
  }

  /** A length below 100 is written as two decimal digits that read back as it. */
  lemma LengthFieldDecodes(len: nat)
    requires len <= 99
    ensures |LengthField(len)| == 2
    ensures IsDecimal(LengthField(len))
    ensures ParseDecimal(LengthField(len)) == len
  {
    DecimalBelow100(len);
    if len < 10 {
      assert LengthField(len) == [DecimalDigits[0], DecimalDigits[len]];
      ParseTwoDigits(0, len);
    } else {
      ParseTwoDigits(len / 10, len % 10);
    }
  }

  /** Reading a transaction amount object: ID `54`, a two-digit length, then exactly that many
      decimal digits. */
  function ParseAmountTag(t: string): Option<nat>
  {
    if |t| < 4 || t[..2] != "54" || !IsDecimal(t[2..4]) || !IsDecimal(t[4..]) then None
    else if ParseDecimal(t[2..4]) != |t| - 4 then None
    else Some(ParseDecimal(t[4..]))
  }

  /** The amount object reads back as the amount, whenever its digits fit the two-digit length. */
  lemma AmountTagDecodes(n: nat)
    requires |Decimal(n)| <= 99
    ensures |AmountTag(n)| == 4 + |Decimal(n)|
    ensures ParseAmountTag(AmountTag(n)) == Some(n)
  {
    var d := Decimal(n);
    LengthFieldDecodes(|d|);
    DecimalRoundTrip(n);
    var padded := LengthField(|d|);
    var t := AmountTag(n);
    assert t == "54" + padded + d;
    assert t[..2] == "54" && t[2..4] == padded && t[4..] == d;
  }

  /** The example of `utils/qris.js`: an amount of 50000 becomes `540550000`. */
  lemma AmountTagExample()
    ensures AmountTag(50000) == "540550000"
  {
    var digits := Decimal(50000);
    DecimalExample();
    assert |digits| == 5;
    LengthFieldExample();
  }

  lemma DecimalExample()
    ensures Decimal(50000) == "50000"
  {
    assert Decimal(5) == "5";
    DecimalShift(5, 0);
    DecimalShift(50, 0);
    DecimalShift(500, 0);
    DecimalShift(5000, 0);
  }

  /** Appending a digit to a number appends it to the number's text. */
  lemma DecimalShift(n: nat, d: nat)
    requires 1 <= n && d < 10
    ensures Decimal(10 * n + d) == Decimal(n) + [DecimalDigits[d]]
  {
    assert (10 * n + d) / 10 == n && (10 * n + d) % 10 == d;
  }

  lemma LengthFieldExample()
    ensures LengthField(5) == "05"
  {
    assert Decimal(5) == "5";
  }

  /** `validateQRISFormat(qrisString)`: a string of at least 100 characters that starts with the
      payload format indicator `000201` and the point of initiation ID `01`, and holds the
      country code somewhere. */
  function ValidateFormat(qris: Option<string>): (ok: bool)
    ensures ok <==> (qris.Some? && |qris.value| >= 100 && StartsWith(qris.value, VersionPrefix)
                     && exists i :: OccursAt(qris.value, CountryCode, i))
  {
    if qris.None? then false
    else
      ContainsIff(qris.value, CountryCode);
      qris.value != "" && |qris.value| >= 100 && StartsWith(qris.value, VersionPrefix)
      && Contains(qris.value, CountryCode)
  }

  /** A payload that passes the format check still does after the amount has been added. */
  lemma GeneratedStaysValid(q: string, n: int)
    requires ValidateFormat(Some(q)) && GenerateDynamic(Some(q), Some(n)).Ok?
    ensures ValidateFormat(Some(GenerateDynamic(Some(q), Some(n)).value))
  {
    GenerateDynamicPayload(q, n);
    GenerateDynamicLength(q, n);
    var f := Flipped(q);
    var i := FindFirst(f, CountryCode).value;
    FlippedPrefix(q);
    var tag := AmountTag(n);
    var payload := f[..i] + tag + f[i..];
    var out := payload + Checksum(payload);
    assert GenerateDynamic(Some(q), Some(n)).value == out;
    InsertKeepsValid(f, i, tag, Checksum(payload));
    assert |out| >= 100;
    assert StartsWith(out, VersionPrefix);
    assert OccursAt(out, CountryCode, i + |tag|);
    assert ValidateFormat(Some(out));
  }

  /** Stripping the CRC and flipping the indicator keep the version prefix of a long payload. */
  lemma FlippedPrefix(q: string)
    requires |q| >= 100 && StartsWith(q, VersionPrefix)
    ensures StartsWith(Flipped(q), VersionPrefix)
  {
    var s := StripCrc(q);
    assert s[..8] == q[..8];
    FlipKeepsPrefix(s);
  }

  /** Inserting an object before a country code that follows the version prefix, and appending
      any text, keeps both the prefix and the country code, shifted by the object's length. */
  lemma InsertKeepsValid(f: string, i: nat, tag: string, c: string)
    requires StartsWith(f, VersionPrefix) && OccursAt(f, CountryCode, i)
    ensures var out := f[..i] + tag + f[i..] + c;
      StartsWith(out, VersionPrefix) && OccursAt(out, CountryCode, i + |tag|)
  {
    InsertKeepsPrefix(f, i, tag);
    AppendKeepsValid(f[..i] + tag + f[i..], c, i + |tag|);
  }

  lemma InsertKeepsPrefix(f: string, i: nat, tag: string)
    requires StartsWith(f, VersionPrefix) && OccursAt(f, CountryCode, i)
    ensures var payload := f[..i] + tag + f[i..];
      StartsWith(payload, VersionPrefix) && OccursAt(payload, CountryCode, i + |tag|)
  {
    CountryCodeAfterPrefix(f, i);
    var payload := f[..i] + tag + f[i..];
    assert payload[..8] == f[..8];
    assert payload[i + |tag|..i + |tag| + 6] == f[i..i + 6];
  }

  lemma AppendKeepsValid(payload: string, c: string, i: nat)
    requires StartsWith(payload, VersionPrefix) && OccursAt(payload, CountryCode, i)
    ensures StartsWith(payload + c, VersionPrefix) && OccursAt(payload + c, CountryCode, i)
  {
    var out := payload + c;
    assert out[..8] == payload[..8];
    assert out[i..i + 6] == payload[i..i + 6];
  }

  /** The country code cannot start inside the version prefix. */
  lemma CountryCodeAfterPrefix(f: string, i: int)
    requires StartsWith(f, VersionPrefix) && OccursAt(f, CountryCode, i)
    ensures i >= 8
  {
    assert f[i] == '5';
    assert forall m :: 0 <= m < 8 ==> f[m] == VersionPrefix[m] != '5';
  }

  // ---- Merchant name and city: `/59(\d{2})(.+?)(?=60|61|62|63)/` and `/60(\d{2})(.+?)(?=61|62|63)/`.

  const NameTag := "59"
  const CityTag := "60"
  const NameEnds := ["60", "61", "62", "63"]
  const CityEnds := ["61", "62", "63"]

  /** The characters `.` does not match. */
  predicate IsLineTerminator(c: char)
  {
    c == '\n' || c == '\r' || c == '\U{2028}' || c == '\U{2029}'
  }

  /** The lookahead: one of `ends` starts at index `i`. */
  predicate EndsAt(s: string, i: int, ends: seq<string>)
  {
    0 <= i && i + 2 <= |s| && s[i..i + 2] in ends
  }

  /** The `k` characters after index `p + 4` all match `.`. */
  predicate DotsAt(s: string, p: int, k: int)
  {
    0 <= p && 0 <= k && p + 4 + k <= |s| && forall m :: p + 4 <= m < p + 4 + k ==> !IsLineTerminator(s[m])
  }

  /** The pattern matches at index `p` with a group of `k` characters: `tag`, two decimal digits,
      `k >= 1` characters other than line terminators, then one of `ends`. */
  predicate MatchAt(s: string, tag: string, ends: seq<string>, p: int, k: int)
  {
    DotsAt(s, p, k) && k >= 1 && s[p..p + 2] == tag
    && IsDecimal(s[p + 2..p + 4]) && EndsAt(s, p + 4 + k, ends)
  }

  /** The match the regular expression engine reports: the leftmost start, and there the shortest
      group, as the lazy `+?` tries lengths in increasing order. */
  ghost predicate ChosenMatch(s: string, tag: string, ends: seq<string>, p: int, k: int)
  {
    MatchAt(s, tag, ends, p, k)
    && (forall q, k' :: 0 <= q < p ==> !MatchAt(s, tag, ends, q, k'))
    && (forall k' :: k' < k ==> !MatchAt(s, tag, ends, p, k'))
  }

  /** The shortest group length from `k` on that the lookahead accepts at start `p`. */
  function Shortest(s: string, ends: seq<string>, p: nat, k: nat): (r: Option<nat>)
    requires k >= 1 && DotsAt(s, p, k - 1)
    decreases |s| - k
    ensures r.Some? ==> k <= r.value && DotsAt(s, p, r.value) && EndsAt(s, p + 4 + r.value, ends)
    ensures r.Some? ==> forall k' :: k <= k' < r.value ==> !(DotsAt(s, p, k') && EndsAt(s, p + 4 + k', ends))
    ensures r.None? ==> forall k' :: k <= k' ==> !(DotsAt(s, p, k') && EndsAt(s, p + 4 + k', ends))
  {
    if p + 4 + k > |s| then None
    else if IsLineTerminator(s[p + 4 + k - 1]) then None
    else if EndsAt(s, p + 4 + k, ends) then Some(k)
    else Shortest(s, ends, p, k + 1)
  }

  /** The chosen match among the starts from `p` on. */
  function FirstMatch(s: string, tag: string, ends: seq<string>, p: nat): (r: Option<(nat, nat)>)
    requires |tag| == 2
    decreases |s| - p
    ensures r.Some? ==> p <= r.value.0 && MatchAt(s, tag, ends, r.value.0, r.value.1)
    ensures r.Some? ==> forall q, k' :: p <= q < r.value.0 ==> !MatchAt(s, tag, ends, q, k')
    ensures r.Some? ==> forall k' :: k' < r.value.1 ==> !MatchAt(s, tag, ends, r.value.0, k')
    ensures r.None? ==> forall q, k' :: p <= q ==> !MatchAt(s, tag, ends, q, k')
  {
    if p + 4 > |s| then
      NoMatchFrom(s, tag, ends, p);
      None
    else if s[p..p + 2] == tag && IsDecimal(s[p + 2..p + 4]) then
      match Shortest(s, ends, p, 1)
      case Some(k) => Some((p, k))
      case None =>
        var r := FirstMatch(s, tag, ends, p + 1);
        NoMatchAt(s, tag, ends, p, r);
        r
    else
      var r := FirstMatch(s, tag, ends, p + 1);
      NoMatchAt(s, tag, ends, p, r);
      r
  }

  /** No match starts where fewer than four characters are left. */
  lemma NoMatchFrom(s: string, tag: string, ends: seq<string>, p: nat)
    requires p + 4 > |s|
    ensures forall q, k' :: p <= q ==> !MatchAt(s, tag, ends, q, k')
  {
  }

  /** A start `p` with no match extends what the search from `p + 1` found to the search from
      `p`. */
  lemma NoMatchAt(s: string, tag: string, ends: seq<string>, p: nat, r: Option<(nat, nat)>)
    requires forall k' :: !MatchAt(s, tag, ends, p, k')
    requires r.Some? ==> p + 1 <= r.value.0 && forall q, k' :: p + 1 <= q < r.value.0 ==> !MatchAt(s, tag, ends, q, k')
    requires r.None? ==> forall q, k' :: p + 1 <= q ==> !MatchAt(s, tag, ends, q, k')
    ensures r.Some? ==> forall q, k' :: p <= q < r.value.0 ==> !MatchAt(s, tag, ends, q, k')
    ensures r.None? ==> forall q, k' :: p <= q ==> !MatchAt(s, tag, ends, q, k')
  {
  }

  function Min(a: nat, b: nat): nat
  {
    if a < b then a else b
  }

  /** `match[2].substring(0, parseInt(match[1]))` for the chosen match, or `None` (null) when the
      pattern matches nowhere. */
  function ExtractField(s: string, tag: string, ends: seq<string>): (r: Option<string>)
    requires |tag| == 2
    ensures r.None? <==> forall p, k :: !MatchAt(s, tag, ends, p, k)
    ensures r.Some? ==> exists p, k ::
      (ChosenMatch(s, tag, ends, p, k) && r.value == s[p + 4..p + 4 + Min(ParseDecimal(s[p + 2..p + 4]), k)])
    ensures r.Some? ==> |r.value| <= 99
  {
    match FirstMatch(s, tag, ends, 0)
    case None => None
    case Some((p, k)) =>
      var declared := ParseDecimal(s[p + 2..p + 4]);
      assert ChosenMatch(s, tag, ends, p, k);
      TwoDigitsBelow100(s[p + 2..p + 4]);
      Some(s[p + 4..p + 4 + Min(declared, k)])
  }

  datatype MerchantInfo = MerchantInfo(merchantName: Option<string>, merchantCity: Option<string>)

  /** `extractMerchantInfo(qrisString)`. A value that is not a string makes `match` throw inside
      the `try`, which leaves both fields null. */
  function ExtractMerchantInfo(qris: Option<string>): (info: MerchantInfo)
    ensures qris.None? ==> info == MerchantInfo(None, None)
    ensures qris.Some? ==> info.merchantName == ExtractField(qris.value, NameTag, NameEnds)
    ensures qris.Some? ==> info.merchantCity == ExtractField(qris.value, CityTag, CityEnds)
  {
    if qris.None? then MerchantInfo(None, None)
    else MerchantInfo(ExtractField(qris.value, NameTag, NameEnds), ExtractField(qris.value, CityTag, CityEnds))
  }

  /** The data object `tag LL value`, its length written in two decimal digits. */
  function EncodeField(tag: string, v: string): string
  {
    tag + LengthField(|v|) + v
  }

  /** The pattern matches nowhere before index `n`. */
  ghost predicate NoMatchBefore(s: string, tag: string, ends: seq<string>, n: int)
  {
    forall q, k :: 0 <= q < n ==> !MatchAt(s, tag, ends, q, k)
  }

  /** A field written after a prefix on which the pattern matches nowhere, and followed by one of
      the lookahead IDs, reads back as written, when the value holds no line terminator and no
      lookahead ID starts inside it after its first character. */
  lemma ExtractEncoded(pre: string, tag: string, v: string, next: string, rest: string, ends: seq<string>)
    requires |tag| == 2 && 1 <= |v| <= 99 && next in ends && |next| == 2
    requires forall m :: 0 <= m < |v| ==> !IsLineTerminator(v[m])
    requires forall j :: 1 <= j < |v| ==> !EndsAt(v + next, j, ends)
    requires NoMatchBefore(pre + EncodeField(tag, v) + next + rest, tag, ends, |pre|)
    ensures ExtractField(pre + EncodeField(tag, v) + next + rest, tag, ends) == Some(v)
  {
    var s := pre + EncodeField(tag, v) + next + rest;
    EncodedMatch(pre, tag, v, next, rest, ends);
    ReadBack(s, tag, ends, |pre|, v);
  }

  /** A chosen match whose declared length is the length of the value it starts with reads back
      as that value. */
  lemma ReadBack(s: string, tag: string, ends: seq<string>, n: int, v: string)
    requires |tag| == 2 && ChosenMatch(s, tag, ends, n, |v|)
    requires ParseDecimal(s[n + 2..n + 4]) == |v| && s[n + 4..n + 4 + |v|] == v
    ensures ExtractField(s, tag, ends) == Some(v)
  {
    ExtractChosen(s, tag, ends, n, |v|);
    assert Min(|v|, |v|) == |v|;
  }

  /** A merchant category code that starts with `59` shadows the merchant name: in
      `52 04 5999`, the `5999` is read as a name object of declared length 99, whose lazy group
      runs up to the `60` inside the currency object `53 03 360`. The real name `AB` of
      `59 02 AB` is never reached. The payload below is `52 04 5999 53 03 360 59 02 AB 60 02 JK`,
      grouped as the name pattern sees it. */
  lemma CategoryCodeShadowsName()
    ensures var s := "5204" + ("59" + "99" + "53033") + "60" + "5902AB6002JK";
      ExtractMerchantInfo(Some(s)).merchantName == Some("53033")
  {
    ShadowedName("5204", "99", "53033", "60", "5902AB6002JK");
  }

  lemma ShadowedName(pre: string, d: string, v: string, next: string, rest: string)
    requires pre == "5204" && d == "99" && v == "53033" && next == "60"
    ensures ExtractField(pre + (NameTag + d + v) + next + rest, NameTag, NameEnds) == Some(v)
  {
    var s := pre + (NameTag + d + v) + next + rest;
    ShadowingMatch(pre, d, v, next, rest);
    ExtractChosen(s, NameTag, NameEnds, 4, 5);
    assert Min(99, 5) == 5;
  }

  /** There the name pattern first matches at the category code, with a five-character group,
      and declares a length of 99. */
  lemma ShadowingMatch(pre: string, d: string, v: string, next: string, rest: string)
    requires pre == "5204" && d == "99" && v == "53033" && next == "60"
    ensures var s := pre + (NameTag + d + v) + next + rest;
      ChosenMatch(s, NameTag, NameEnds, 4, 5) && ParseDecimal(s[6..8]) == 99 && s[8..13] == v
  {
    var s := pre + (NameTag + d + v) + next + rest;
    assert d == [DecimalDigits[9], DecimalDigits[9]];
    ParseTwoDigits(9, 9);
    assert s[..5] == pre + NameTag[..1];
    NoNameBefore(s);
    NoEndInside(v, next);
    FieldMatch(pre, NameTag, d, v, NameTag + d + v, next, rest, NameEnds);
  }

  /** The pattern cannot start in `5204`, where no `59` occurs. */
  lemma NoNameBefore(s: string)
    requires |s| >= 5 && s[..5] == "52045"
    ensures NoMatchBefore(s, NameTag, NameEnds, 4)
  {
    forall q, k | 0 <= q < 4 ensures !MatchAt(s, NameTag, NameEnds, q, k) {
      assert s[q..q + 2][1] == s[q + 1] == s[..5][q + 1] != '9';
    }
  }

  /** No lookahead ID starts inside `53033` after its first character. */
  lemma NoEndInside(v: string, next: string)
    requires v == "53033" && |next| == 2
    ensures forall m :: 0 <= m < |v| ==> !IsLineTerminator(v[m])
    ensures forall j :: 1 <= j < |v| ==> !EndsAt(v + next, j, NameEnds)
  {
    forall j | 1 <= j < |v| ensures !EndsAt(v + next, j, NameEnds) {
      var w := (v + next)[j..j + 2];
      assert w[0] == v[j] && w[1] == (v + next)[j + 1];
      assert w[0] == '3' || w[1] == '3';
    }
  }

  /** The field is cut from the chosen match, whichever way it is found. */
  lemma ExtractChosen(s: string, tag: string, ends: seq<string>, p: int, k: int)
    requires |tag| == 2 && ChosenMatch(s, tag, ends, p, k)
    ensures ExtractField(s, tag, ends) == Some(s[p + 4..p + 4 + Min(ParseDecimal(s[p + 2..p + 4]), k)])
  {
    var found := FirstMatch(s, tag, ends, 0);
    assert found.Some?;
    ChosenUnique(s, tag, ends, p, k, found.value.0, found.value.1);
  }

  /** Where the pattern matches an encoded field. */
  lemma EncodedMatch(pre: string, tag: string, v: string, next: string, rest: string, ends: seq<string>)
    requires |tag| == 2 && 1 <= |v| <= 99 && next in ends && |next| == 2
    requires forall m :: 0 <= m < |v| ==> !IsLineTerminator(v[m])
    requires forall j :: 1 <= j < |v| ==> !EndsAt(v + next, j, ends)
    requires NoMatchBefore(pre + EncodeField(tag, v) + next + rest, tag, ends, |pre|)
    ensures var s := pre + EncodeField(tag, v) + next + rest;
      var n := |pre|;
      ChosenMatch(s, tag, ends, n, |v|) && IsDecimal(s[n + 2..n + 4]) && ParseDecimal(s[n + 2..n + 4]) == |v|
      && s[n + 4..n + 4 + |v|] == v
  {
    LengthFieldDecodes(|v|);
    FieldMatch(pre, tag, LengthField(|v|), v, EncodeField(tag, v), next, rest, ends);
  }

  /** `EncodedMatch` for a field written with any two-digit length field `d`. */
  lemma FieldMatch(pre: string, tag: string, d: string, v: string, field: string, next: string, rest: string,
                   ends: seq<string>)
    requires |tag| == 2 && |d| == 2 && IsDecimal(d) && 1 <= |v| && next in ends && |next| == 2
    requires field == tag + d + v
    requires forall m :: 0 <= m < |v| ==> !IsLineTerminator(v[m])
    requires forall j :: 1 <= j < |v| ==> !EndsAt(v + next, j, ends)
    requires NoMatchBefore(pre + field + next + rest, tag, ends, |pre|)
    ensures var s := pre + field + next + rest;
      var n := |pre|;
      ChosenMatch(s, tag, ends, n, |v|) && s[n + 2..n + 4] == d && s[n + 4..n + 4 + |v|] == v
  {
    var s := pre + field + next + rest;
    assert s[..|pre| + 6 + |v|] == pre + tag + d + v + next;
    MatchOfParts(s, pre, tag, d, v, next, ends);
  }

  lemma MatchOfParts(s: string, pre: string, tag: string, d: string, v: string, next: string, ends: seq<string>)
    requires |tag| == 2 && |d| == 2 && IsDecimal(d) && 1 <= |v| && next in ends && |next| == 2
    requires forall m :: 0 <= m < |v| ==> !IsLineTerminator(v[m])
    requires forall j :: 1 <= j < |v| ==> !EndsAt(v + next, j, ends)
    requires |s| >= |pre| + 6 + |v| && s[..|pre| + 6 + |v|] == pre + tag + d + v + next
    requires NoMatchBefore(s, tag, ends, |pre|)
    ensures var n := |pre|;
      ChosenMatch(s, tag, ends, n, |v|) && s[n + 2..n + 4] == d && s[n + 4..n + 4 + |v|] == v
  {
    var n := |pre|;
    var w := v + next;
    var u := s[..n + 6 + |v|];
    assert u == pre + tag + d + w;
    assert u[n..n + 2] == tag;
    assert u[n + 2..n + 4] == d;
    assert u[n + 4..n + 4 + |w|] == w;
    PrefixSlice(s, n + 6 + |v|, n, n + 2);
    PrefixSlice(s, n + 6 + |v|, n + 2, n + 4);
    PrefixSlice(s, n + 6 + |v|, n + 4, n + 4 + |w|);
    GroupMatch(s, n, tag, v, next, ends);
  }

  /** With `tag`, two digits and then `v + next` at index `n`, the pattern's chosen group at `n`
      is `v`. */
  lemma GroupMatch(s: string, n: int, tag: string, v: string, next: string, ends: seq<string>)
    requires 0 <= n && 1 <= |v| && next in ends && |next| == 2 && n + 6 + |v| <= |s|
    requires s[n..n + 2] == tag && IsDecimal(s[n + 2..n + 4]) && s[n + 4..n + 6 + |v|] == v + next
    requires forall m :: 0 <= m < |v| ==> !IsLineTerminator(v[m])
    requires forall j :: 1 <= j < |v| ==> !EndsAt(v + next, j, ends)
    requires NoMatchBefore(s, tag, ends, n)
    ensures ChosenMatch(s, tag, ends, n, |v|) && s[n + 4..n + 4 + |v|] == v
  {
    var w := v + next;
    assert s[n + 4..n + 4 + |v|] == w[..|v|] == v;
    assert s[n + 4 + |v|..n + 4 + |v| + 2] == w[|v|..] == next;
    assert DotsAt(s, n, |v|) by {
      forall m | n + 4 <= m < n + 4 + |v| ensures !IsLineTerminator(s[m]) {
        assert s[m] == w[m - n - 4] == v[m - n - 4];
      }
    }
    assert MatchAt(s, tag, ends, n, |v|);
    forall k' | k' < |v| ensures !MatchAt(s, tag, ends, n, k') {
      if 1 <= k' {
        InnerSlice(s, n + 4, n + 6 + |v|, k', k' + 2);
        assert !EndsAt(w, k', ends);
      }
    }
  }

  lemma PrefixSlice(s: string, m: int, i: int, j: int)
    requires 0 <= i <= j <= m <= |s|
    ensures s[..m][i..j] == s[i..j]
  {
  }

  lemma InnerSlice(s: string, a: int, b: int, i: int, j: int)
    requires 0 <= a <= b <= |s| && 0 <= i <= j <= b - a
    ensures s[a..b][i..j] == s[a + i..a + j]
  {
    forall t | 0 <= t < j - i ensures s[a..b][i..j][t] == s[a + i..a + j][t] {
      assert s[a..b][i + t] == s[a + i + t];
    }
  }

  /** There is only one chosen match, so the field is cut from it. */
  lemma ChosenUnique(s: string, tag: string, ends: seq<string>, p: int, k: int, p': int, k': int)
    requires ChosenMatch(s, tag, ends, p, k) && ChosenMatch(s, tag, ends, p', k')
    ensures p == p' && k == k'
  {
  }
}
