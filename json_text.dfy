/** The text the gateway produces with `snprintf` (gateway_devkit_v1/main/main.c): `%u` /
    `%d` decimals, `%02X` hex bytes, the colon-separated MAC of `mac_to_string`, and the
    flat JSON object of `http_post_packet`. Each renderer comes with the parser that
    undoes it, so the lemmas show that no information is lost in the text. */
module JsonText {
  import opened Bytes
  import opened Wrappers

  // ---------------------------------------------------------------------
  // Decimal numbers (`%u`, `%d`)

  predicate IsDigit(c: char) {
    '0' <= c <= '9'
  }

  function DigitChar(d: int): (c: char)
    requires 0 <= d < 10
    ensures IsDigit(c)
  {
    ('0' as int + d) as char
  }

  function DigitValue(c: char): (d: int)
    requires IsDigit(c)
    ensures 0 <= d < 10
  {
    c as int - '0' as int
  }

  /** Decimal digits, most significant first, no leading zero. */
  function NatToString(n: nat): (s: string)
    ensures |s| >= 1
    ensures forall j :: 0 <= j < |s| ==> IsDigit(s[j])
    decreases n
  {
    if n < 10 then [DigitChar(n)] else NatToString(n / 10) + [DigitChar(n % 10)]
  }

  /** `%d`: a minus sign before the digits of a negative number. */
  function IntToString(i: int): (s: string)
    ensures |s| >= 1
  {
    if i < 0 then "-" + NatToString(-i) else NatToString(i)
  }

  /** The value of a string of digits, most significant first. */
  function DigitsValue(s: string): (n: nat)
    requires forall j :: 0 <= j < |s| ==> IsDigit(s[j])
  {
    if |s| == 0 then 0 else 10 * DigitsValue(s[..|s| - 1]) + DigitValue(s[|s| - 1])
  }

  /** How many digits `s` starts with. */
  function LeadingDigits(s: string): (k: nat)
    ensures k <= |s|
    ensures forall j :: 0 <= j < k ==> IsDigit(s[j])
    ensures k < |s| ==> !IsDigit(s[k])
  {
    if |s| == 0 || !IsDigit(s[0]) then 0 else 1 + LeadingDigits(s[1..])
  }

  /** Reads an optional minus sign and at least one digit; returns the number and what
      follows it. */
  function ParseInt(s: string): (r: Option<(int, string)>)
    ensures r.Some? ==> |r.value.1| < |s|
  {
    var neg := |s| > 0 && s[0] == '-';
    var body := if neg then s[1..] else s;
    var k := LeadingDigits(body);
    if k == 0 then None
    else
      var v: int := DigitsValue(body[..k]);
      Some((if neg then -v else v, body[k..]))
  }

  lemma {:induction false} NatToStringValue(n: nat)
    ensures DigitsValue(NatToString(n)) == n
    decreases n
  {
    var s := NatToString(n);
    if n >= 10 {
      NatToStringValue(n / 10);
      assert s[..|s| - 1] == NatToString(n / 10);
    }
  }

  lemma {:induction false} LeadingDigitsOfDigits(d: string, rest: string)
    requires forall j :: 0 <= j < |d| ==> IsDigit(d[j])
    requires |rest| == 0 || !IsDigit(rest[0])
    ensures LeadingDigits(d + rest) == |d|
    decreases |d|
  {
    if |d| > 0 {
      assert (d + rest)[1..] == d[1..] + rest;
      LeadingDigitsOfDigits(d[1..], rest);
    }
  }

  /** `ParseInt` undoes `IntToString` whenever the number is not followed by a digit. */
  lemma IntRoundTrip(i: int, rest: string)
    requires |rest| == 0 || !IsDigit(rest[0])
    ensures ParseInt(IntToString(i) + rest) == Some((i, rest))
  {
    if i < 0 {
      NegativeRoundTrip(-i, rest);
      assert IntToString(i) == "-" + NatToString(-i);
    } else {
      NatRoundTrip(i, rest);
    }
  }

  lemma NatRoundTrip(n: nat, rest: string)
    requires |rest| == 0 || !IsDigit(rest[0])
    ensures ParseInt(NatToString(n) + rest) == Some((n, rest))
  {
    var s := NatToString(n) + rest;
    DigitsRoundTrip(n, rest);
    assert s[0] == NatToString(n)[0];
    assert !(|s| > 0 && s[0] == '-');
  }

  lemma NegativeRoundTrip(n: nat, rest: string)
    requires |rest| == 0 || !IsDigit(rest[0])
    requires n > 0
    ensures ParseInt("-" + NatToString(n) + rest) == Some((-(n as int), rest))
  {
    var body := NatToString(n) + rest;
    var s := "-" + NatToString(n) + rest;
    assert s == "-" + body;
    assert s[1..] == body;
    DigitsRoundTrip(n, rest);
  }

  /** The digits of `n` followed by a non-digit read back as `n` and leave the rest. */
  lemma DigitsRoundTrip(n: nat, rest: string)
    requires |rest| == 0 || !IsDigit(rest[0])
    ensures LeadingDigits(NatToString(n) + rest) == |NatToString(n)|
    ensures (NatToString(n) + rest)[..|NatToString(n)|] == NatToString(n)
    ensures (NatToString(n) + rest)[|NatToString(n)|..] == rest
    ensures DigitsValue(NatToString(n)) == n
  {
    LeadingDigitsOfDigits(NatToString(n), rest);
    NatToStringValue(n);
  }

  /** A number below `10^k` has at most `k` digits. */
  lemma {:induction false} NatToStringLength(n: nat, k: nat, bound: nat)
    requires bound == Pow10(k) && n < bound && k >= 1
    ensures |NatToString(n)| <= k
    decreases k
  {
    if n >= 10 {
      NatToStringLength(n / 10, k - 1, Pow10(k - 1));
    }
  }

  function Pow10(k: nat): (p: nat)
    ensures p >= 1
  {
    if k == 0 then 1 else 10 * Pow10(k - 1)
  }

  // ---------------------------------------------------------------------
  // Hex bytes and MAC addresses (`%02X`, `mac_to_string`)

  predicate IsUpperHex(c: char) {
    IsDigit(c) || 'A' <= c <= 'F'
  }

  function HexChar(d: int): (c: char)
    requires 0 <= d < 16
    ensures IsUpperHex(c)
  {
    if d < 10 then DigitChar(d) else ('A' as int + d - 10) as char
  }

  function HexValue(c: char): (d: int)
    requires IsUpperHex(c)
    ensures 0 <= d < 16
  {
    if IsDigit(c) then DigitValue(c) else c as int - 'A' as int + 10
  }

  /** `%02X`: two uppercase hex digits, high nibble first. */
  function Hex2(b: uint8): (s: string)
    ensures |s| == 2 && IsUpperHex(s[0]) && IsUpperHex(s[1])
  {
    [HexChar(b as int / 16), HexChar(b as int % 16)]
  }

  /** Bytes as `%02X` groups joined by ':'. */
  function HexGroups(bs: seq<uint8>): (s: string)
    requires |bs| >= 1
    ensures |s| == 3 * |bs| - 1
    decreases |bs|
  {
    if |bs| == 1 then Hex2(bs[0]) else Hex2(bs[0]) + ":" + HexGroups(bs[1..])
  }

  /** `mac_to_string`: six `%02X` bytes joined by ':', the 17 characters the 18-byte
      buffer holds before its terminator. */
  function MacToString(m: Mac): (s: string)
    ensures |s| == 17
  {
    HexGroups(m)
  }

  function ByteAt(s: string, j: nat): (b: uint8)
    requires j + 1 < |s| && IsUpperHex(s[j]) && IsUpperHex(s[j + 1])
  {
    (16 * HexValue(s[j]) + HexValue(s[j + 1])) as uint8
  }

  /** Reads `:`-separated two-digit hex groups; anything else is rejected. */
  function ParseHexGroups(s: string): (r: Option<seq<uint8>>)
    decreases |s|
  {
    if |s| < 2 || !IsUpperHex(s[0]) || !IsUpperHex(s[1]) then None
    else if |s| == 2 then Some([ByteAt(s, 0)])
    else if s[2] != ':' then None
    else
      match ParseHexGroups(s[3..])
      case None => None
      case Some(bs) => Some([ByteAt(s, 0)] + bs)
  }

  /** Reads a MAC back from its text form. */
  function ParseMac(s: string): (r: Option<Mac>)
  {
    match ParseHexGroups(s)
    case None => None
    case Some(bs) => if |bs| == 6 then Some(bs) else None
  }

  lemma HexCharValue(d: int)
    requires 0 <= d < 16
    ensures HexValue(HexChar(d)) == d
  {
  }

  lemma Hex2RoundTrip(b: uint8, rest: string)
    ensures ByteAt(Hex2(b) + rest, 0) == b
  {
    HexCharValue(b as int / 16);
    HexCharValue(b as int % 16);
  }

  lemma {:induction false} HexGroupsRoundTrip(bs: seq<uint8>)
    requires |bs| >= 1
    ensures ParseHexGroups(HexGroups(bs)) == Some(bs)
    decreases |bs|
  {
    var s := HexGroups(bs);
    Hex2RoundTrip(bs[0], s[2..]);
    assert s == Hex2(bs[0]) + s[2..];
    if |bs| == 1 {
      assert bs == [bs[0]];
    } else {
      HexGroupsRoundTrip(bs[1..]);
      assert s[3..] == HexGroups(bs[1..]);
      assert [bs[0]] + bs[1..] == bs;
    }
  }

  /** The text form of a MAC determines the MAC. */
  lemma MacRoundTrip(m: Mac)
    ensures ParseMac(MacToString(m)) == Some(m)
  {
    HexGroupsRoundTrip(m);
  }

  /** The rendering is uppercase hex with ':' after every byte but the last. */
  lemma {:induction false} HexGroupsShape(bs: seq<uint8>, j: nat)
    requires |bs| >= 1 && j < 3 * |bs| - 1
    ensures j % 3 == 2 ==> HexGroups(bs)[j] == ':'
    ensures j % 3 != 2 ==> IsUpperHex(HexGroups(bs)[j])
    decreases |bs|
  {
    if j >= 3 {
      HexGroupsShape(bs[1..], j - 3);
      assert HexGroups(bs)[j] == HexGroups(bs[1..])[j - 3];
    }
  }

  // ---------------------------------------------------------------------
  // Flat JSON objects

  /** The two kinds of value `http_post_packet` writes: a bare number and a quoted
      string. */
  datatype Value = Number(n: int) | Text(s: string)

  datatype Member = Member(key: string, value: Value)

  predicate NoQuote(s: string) {
    forall j :: 0 <= j < |s| ==> s[j] != '"'
  }

  predicate Plain(ms: seq<Member>) {
    forall j :: 0 <= j < |ms| ==> NoQuote(ms[j].key) && (ms[j].value.Text? ==> NoQuote(ms[j].value.s))
  }

  function RenderValue(v: Value): (s: string)
    ensures |s| >= 1
  {
    match v
    case Number(n) => IntToString(n)
    case Text(t) => "\"" + t + "\""
  }

  function RenderMember(m: Member): string {
    "\"" + m.key + "\":" + RenderValue(m.value)
  }

  /** The members, separated by commas. */
  function RenderMembers(ms: seq<Member>): string
    decreases |ms|
  {
    if |ms| == 0 then ""
    else if |ms| == 1 then RenderMember(ms[0])
    else RenderMember(ms[0]) + "," + RenderMembers(ms[1..])
  }

  function RenderObject(ms: seq<Member>): (s: string)
    ensures |s| >= 2 && s[0] == '{' && s[|s| - 1] == '}'
  {
    "{" + RenderMembers(ms) + "}"
  }

  /** The index of the next '"', if any. */
  function QuoteIndex(s: string): (k: nat)
    ensures k <= |s|
    ensures forall j :: 0 <= j < k ==> s[j] != '"'
    ensures k < |s| ==> s[k] == '"'
  {
    if |s| == 0 || s[0] == '"' then 0 else 1 + QuoteIndex(s[1..])
  }

  /** A quoted string without escapes; returns its contents and what follows. */
  function ParseQuoted(s: string): (r: Option<(string, string)>)
    ensures r.Some? ==> |r.value.1| < |s|
  {
    if |s| == 0 || s[0] != '"' then None
    else
      var k := QuoteIndex(s[1..]);
      if k == |s| - 1 then None else Some((s[1..1 + k], s[k + 2..]))
  }

  function ParseValue(s: string): (r: Option<(Value, string)>)
    ensures r.Some? ==> |r.value.1| < |s|
  {
    if |s| > 0 && s[0] == '"' then
      match ParseQuoted(s)
      case None => None
      case Some((t, rest)) => Some((Text(t), rest))
    else
      match ParseInt(s)
      case None => None
      case Some((n, rest)) => Some((Number(n), rest))
  }

  function ParseMember(s: string): (r: Option<(Member, string)>)
    ensures r.Some? ==> |r.value.1| < |s|
  {
    match ParseQuoted(s)
    case None => None
    case Some((key, rest)) =>
      if |rest| == 0 || rest[0] != ':' then None
      else
        match ParseValue(rest[1..])
        case None => None
        case Some((v, rest2)) => Some((Member(key, v), rest2))
  }

  /** Members up to and including the closing brace, which must end the text. */
  function ParseMembers(s: string): (r: Option<seq<Member>>)
    decreases |s|
  {
    match ParseMember(s)
    case None => None
    case Some((m, rest)) =>
      if rest == "}" then Some([m])
      else if |rest| > 0 && rest[0] == ',' then
        match ParseMembers(rest[1..])
        case None => None
        case Some(ms) => Some([m] + ms)
      else None
  }

  function ParseObject(s: string): (r: Option<seq<Member>>)
  {
    if |s| == 0 || s[0] != '{' then None
    else if s == "{}" then Some([])
    else ParseMembers(s[1..])
  }

  lemma QuotedRoundTrip(t: string, rest: string)
    requires NoQuote(t)
    ensures ParseQuoted("\"" + t + "\"" + rest) == Some((t, rest))
  {
    var s := "\"" + t + "\"" + rest;
    assert s[1..] == t + ("\"" + rest);
    QuoteIndexOf(t, "\"" + rest);
    assert s[1..1 + |t|] == t;
    assert s[|t| + 2..] == rest;
  }

  lemma {:induction false} QuoteIndexOf(t: string, rest: string)
    requires NoQuote(t) && |rest| > 0 && rest[0] == '"'
    ensures QuoteIndex(t + rest) == |t|
    decreases |t|
  {
    if |t| > 0 {
      assert (t + rest)[1..] == t[1..] + rest;
      QuoteIndexOf(t[1..], rest);
    }
  }

  lemma ValueRoundTrip(v: Value, rest: string)
    requires v.Text? ==> NoQuote(v.s)
    requires |rest| > 0 && (rest[0] == ',' || rest[0] == '}')
    ensures ParseValue(RenderValue(v) + rest) == Some((v, rest))
  {
    match v
    case Number(n) =>
      IntRoundTrip(n, rest);
      var s := IntToString(n) + rest;
      assert s[0] != '"' by {
        if n < 0 {
          assert s[0] == '-';
        } else {
          assert IsDigit(NatToString(n)[0]);
        }
      }
    case Text(t) =>
      QuotedRoundTrip(t, rest);
  }

  lemma MemberRoundTrip(m: Member, rest: string)
    requires NoQuote(m.key) && (m.value.Text? ==> NoQuote(m.value.s))
    requires |rest| > 0 && (rest[0] == ',' || rest[0] == '}')
    ensures ParseMember(RenderMember(m) + rest) == Some((m, rest))
  {
    var tail := ":" + RenderValue(m.value) + rest;
    assert RenderMember(m) + rest == "\"" + m.key + "\"" + tail;
    QuotedRoundTrip(m.key, tail);
    assert tail[1..] == RenderValue(m.value) + rest;
    ValueRoundTrip(m.value, rest);
  }

  lemma {:induction false} MembersRoundTrip(ms: seq<Member>)
    requires |ms| >= 1 && Plain(ms)
    ensures ParseMembers(RenderMembers(ms) + "}") == Some(ms)
    decreases |ms|
  {
    PlainTail(ms);
    if |ms| == 1 {
      MemberRoundTrip(ms[0], "}");
      assert ms == [ms[0]];
    } else {
      MembersRoundTrip(ms[1..]);
      MembersStep(ms);
    }
  }

  lemma PlainTail(ms: seq<Member>)
    requires |ms| >= 1 && Plain(ms)
    ensures NoQuote(ms[0].key) && (ms[0].value.Text? ==> NoQuote(ms[0].value.s))
    ensures Plain(ms[1..])
  {
    forall j | 0 <= j < |ms[1..]|
      ensures NoQuote(ms[1..][j].key) && (ms[1..][j].value.Text? ==> NoQuote(ms[1..][j].value.s))
    {
      assert ms[1..][j] == ms[j + 1];
    }
  }

  lemma Regroup(a: string, b: string, c: string, d: string)
    ensures a + b + c + d == a + (b + (c + d))
  {
  }

  /** One member off the front: parsing the text of `ms` is parsing its head, a comma,
      and the text of the rest. */
  lemma MembersStep(ms: seq<Member>)
    requires |ms| >= 2 && NoQuote(ms[0].key) && (ms[0].value.Text? ==> NoQuote(ms[0].value.s))
    requires ParseMembers(RenderMembers(ms[1..]) + "}") == Some(ms[1..])
    ensures ParseMembers(RenderMembers(ms) + "}") == Some(ms)
  {
    assert RenderMembers(ms) == RenderMember(ms[0]) + "," + RenderMembers(ms[1..]);
    MembersCons(ms[0], RenderMembers(ms[1..]), ms[1..]);
    assert [ms[0]] + ms[1..] == ms;
  }

  /** A member rendered before a comma and the text of further members parses as that
      member in front of them. */
  lemma MembersCons(m: Member, body: string, t: seq<Member>)
    requires NoQuote(m.key) && (m.value.Text? ==> NoQuote(m.value.s))
    requires ParseMembers(body + "}") == Some(t)
    ensures ParseMembers(RenderMember(m) + "," + body + "}") == Some([m] + t)
  {
    var head := RenderMember(m);
    var tail := "," + (body + "}");
    Regroup(head, ",", body, "}");
    MemberRoundTrip(m, tail);
    assert ParseMember(head + tail) == Some((m, tail));
    assert tail[1..] == body + "}";
    assert tail[0] == ',';
  }

  /** The width of the members from `k` on, each with the separator or brace after it. */
  function WidthFrom(ms: seq<Member>, k: nat): nat
    decreases |ms| - k
  {
    if k >= |ms| then 0 else |RenderMember(ms[k])| + 1 + WidthFrom(ms, k + 1)
  }

  lemma {:induction false} MembersLength(ms: seq<Member>, k: nat)
    requires k < |ms|
    ensures |RenderMembers(ms[k..])| + 1 == WidthFrom(ms, k)
    decreases |ms| - k
  {
    assert ms[k..][0] == ms[k];
    if k + 1 < |ms| {
      MembersLength(ms, k + 1);
      assert ms[k..][1..] == ms[k + 1..];
    }
  }

  /** Rendering a non-empty object of plain keys and strings loses nothing: the parser
      returns the same members in the same order. */
  lemma ObjectRoundTrip(ms: seq<Member>)
    requires |ms| >= 1 && Plain(ms)
    ensures ParseObject(RenderObject(ms)) == Some(ms)
  {
    var s := RenderObject(ms);
    assert s[1..] == RenderMembers(ms) + "}";
    MembersRoundTrip(ms);
    assert s != "{}" by {
      MemberNotEmpty(ms);
    }
  }

  lemma MemberNotEmpty(ms: seq<Member>)
    requires |ms| >= 1
    ensures |RenderMembers(ms)| >= 1
  {
  }
}
