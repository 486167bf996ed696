/**
 The note that lists thread ids as JSON text: how the program prints it, and a reader for the part of
 JSON it uses (objects, arrays and numbers as in sections 4, 5 and 6 of RFC 8259, without optional
 whitespace, escapes, signs and fractions).
 */
module ProcessMetadata {
  import opened Bytes

  datatype Json =
    | Number(n: nat)
    | Array(items: seq<Json>)
    | Object(members: seq<Member>)

  datatype Member = Member(name: string, value: Json)

  // ---------------------------------------------------------------- decimal numbers

  predicate IsDigit(c: char) {
    '0' <= c <= '9'
  }

  function Digit(d: nat): char
    requires d < 10
  {
    (d + 48) as char
  }

  function Decimal(n: nat): (s: string)
    ensures s != ""
  {
    if n < 10 then [Digit(n)] else Decimal(n / 10) + [Digit(n % 10)]
  }

  function ValueOf(digits: string): nat
    requires forall i :: 0 <= i < |digits| ==> IsDigit(digits[i])
  {
    if digits == "" then 0
    else
      var last := digits[|digits| - 1];
      assert IsDigit(last);
      10 * ValueOf(digits[..|digits| - 1]) + (last as int - 48)
  }

  lemma {:induction false} DecimalRoundTrip(n: nat)
    ensures forall i :: 0 <= i < |Decimal(n)| ==> IsDigit(Decimal(n)[i])
    ensures ValueOf(Decimal(n)) == n
    ensures |Decimal(n)| > 1 ==> Decimal(n)[0] != '0'
    ensures n > 0 ==> Decimal(n)[0] != '0'
  {
    if n >= 10 {
      DecimalRoundTrip(n / 10);
      assert Decimal(n)[..|Decimal(n)| - 1] == Decimal(n / 10);
    } else {
      assert [Digit(n)][..0] == "";
    }
  }

  function DigitRun(s: string): (n: nat)
    ensures n <= |s| && forall i :: 0 <= i < n ==> IsDigit(s[i])
    ensures n < |s| ==> !IsDigit(s[n])
  {
    if s != "" && IsDigit(s[0]) then 1 + DigitRun(s[1..]) else 0
  }

  predicate NoDigitFirst(s: string) {
    s != "" ==> !IsDigit(s[0])
  }

  lemma DigitRunOfDecimal(n: nat, rest: string)
    requires NoDigitFirst(rest)
    ensures DigitRun(Decimal(n) + rest) == |Decimal(n)|
  {
    DecimalRoundTrip(n);
    var s := Decimal(n) + rest;
    var k := DigitRun(s);
    assert forall i :: 0 <= i < |Decimal(n)| ==> s[i] == Decimal(n)[i];
    assert rest != "" ==> s[|Decimal(n)|] == rest[0];
  }

  // ---------------------------------------------------------------- printing

  function Print(v: Json): string
    decreases v, 1
  {
    match v
    case Number(n) => Decimal(n)
    case Array(items) => "[" + Join(items) + "]"
    case Object(members) => "{" + JoinMembers(members) + "}"
  }

  function Join(items: seq<Json>): string
    decreases items, 0
  {
    if items == [] then ""
    else if |items| == 1 then Print(items[0])
    else Print(items[0]) + "," + Join(items[1..])
  }

  function PrintMember(m: Member): string
    decreases m, 2
  {
    "\"" + m.name + "\":" + Print(m.value)
  }

  function JoinMembers(members: seq<Member>): string
    decreases members, 0
  {
    if members == [] then ""
    else if |members| == 1 then PrintMember(members[0])
    else PrintMember(members[0]) + "," + JoinMembers(members[1..])
  }

  lemma {:induction false} JoinSnoc(items: seq<Json>, v: Json)
    ensures Join(items + [v]) == Join(items) + (if items == [] then "" else ",") + Print(v)
  {
    if items == [] {
      assert items + [v] == [v];
    } else {
      JoinSnoc(items[1..], v);
      assert (items + [v])[1..] == items[1..] + [v];
      assert items == [items[0]] + items[1..];
    }
  }

  // ---------------------------------------------------------------- reading

  function ParseNumber(s: string): (r: Option<(Json, string)>)
    ensures r.Some? ==> |r.value.1| < |s|
  {
    var n := DigitRun(s);
    if n == 0 || (n > 1 && s[0] == '0') then None else Some((Number(ValueOf(s[..n])), s[n..]))
  }

  function ParseValue(s: string): (r: Option<(Json, string)>)
    ensures r.Some? ==> |r.value.1| < |s|
    decreases |s|, 1
  {
    if s == "" then None
    else if s[0] == '[' then
      if |s| > 1 && s[1] == ']' then Some((Array([]), s[2..]))
      else
        match ParseItems(s[1..])
        case None => None
        case Some((items, rest)) => Some((Array(items), rest))
    else if s[0] == '{' then
      if |s| > 1 && s[1] == '}' then Some((Object([]), s[2..]))
      else
        match ParseMembers(s[1..])
        case None => None
        case Some((members, rest)) => Some((Object(members), rest))
    else
      ParseNumber(s)
  }

  /** Values separated by commas, up to and including the closing bracket. */
  function ParseItems(s: string): (r: Option<(seq<Json>, string)>)
    ensures r.Some? ==> |r.value.1| < |s|
    decreases |s|, 2
  {
    match ParseValue(s)
    case None => None
    case Some((v, rest)) =>
      if rest == "" then None
      else if rest[0] == ']' then Some(([v], rest[1..]))
      else if rest[0] != ',' then None
      else
        match ParseItems(rest[1..])
        case None => None
        case Some((vs, end)) => Some(([v] + vs, end))
  }

  function NameEnd(s: string): (n: nat)
    ensures n <= |s| && (n < |s| ==> s[n] == '"') && forall i :: 0 <= i < n ==> s[i] != '"'
  {
    if s == "" || s[0] == '"' then 0 else 1 + NameEnd(s[1..])
  }

  function ParseMember(s: string): (r: Option<(Member, string)>)
    ensures r.Some? ==> |r.value.1| < |s|
    decreases |s|, 2
  {
    if s == "" || s[0] != '"' then None
    else
      var n := NameEnd(s[1..]);
      var rest := s[1..][n..];
      if |rest| < 2 || rest[1] != ':' then None
      else
        match ParseValue(rest[2..])
        case None => None
        case Some((v, end)) => Some((Member(s[1..][..n], v), end))
  }

  function ParseMembers(s: string): (r: Option<(seq<Member>, string)>)
    ensures r.Some? ==> |r.value.1| < |s|
    decreases |s|, 3
  {
    match ParseMember(s)
    case None => None
    case Some((m, rest)) =>
      if rest == "" then None
      else if rest[0] == '}' then Some(([m], rest[1..]))
      else if rest[0] != ',' then None
      else
        match ParseMembers(rest[1..])
        case None => None
        case Some((ms, end)) => Some(([m] + ms, end))
  }

  /** A text is one value and nothing else. */
  function Parse(s: string): Option<Json> {
    match ParseValue(s)
    case None => None
    case Some((v, rest)) => if rest == "" then Some(v) else None
  }

  // ---------------------------------------------------------------- round trip

  /** Names can be printed as they are. */
  predicate PlainNames(v: Json)
    decreases v
  {
    match v
    case Number(_) => true
    case Array(items) => forall i :: 0 <= i < |items| ==> PlainNames(items[i])
    case Object(members) => forall i :: 0 <= i < |members| ==> '"' !in members[i].name && PlainNames(members[i].value)
  }

  lemma {:induction false} NameEndOf(name: string, rest: string)
    requires '"' !in name && rest != "" && rest[0] == '"'
    ensures NameEnd(name + rest) == |name|
  {
    var s := name + rest;
    assert s[|name|] == rest[0];
    assert forall i :: 0 <= i < |name| ==> s[i] == name[i] && name[i] in name;
  }

  lemma {:induction false} ParsePrintNumber(n: nat, rest: string)
    requires NoDigitFirst(rest)
    ensures ParseValue(Decimal(n) + rest) == Some((Number(n), rest))
  {
    var s := Decimal(n) + rest;
    DigitRunOfDecimal(n, rest);
    DecimalRoundTrip(n);
    assert s[..|Decimal(n)|] == Decimal(n) && s[|Decimal(n)|..] == rest;
    assert s[0] == Decimal(n)[0] && IsDigit(s[0]);
  }

  lemma {:induction false} PrintStarts(v: Json)
    ensures Print(v) != "" && Print(v)[0] != ']' && Print(v)[0] != '}'
  {
    if v.Number? {
      DecimalRoundTrip(v.n);
      assert IsDigit(Decimal(v.n)[0]);
    }
  }

  lemma JoinStarts(items: seq<Json>)
    requires items != []
    ensures Join(items) != "" && Join(items)[0] != ']'
  {
    PrintStarts(items[0]);
  }

  lemma JoinMembersStarts(members: seq<Member>)
    requires members != []
    ensures JoinMembers(members) != "" && JoinMembers(members)[0] == '"'
  {
  }

  /** Every value with plain names reads back from its text, whatever comes behind it. */
  lemma {:induction false} ParsePrint(v: Json, rest: string)
    requires PlainNames(v) && NoDigitFirst(rest)
    ensures ParseValue(Print(v) + rest) == Some((v, rest))
    decreases v, 1
  {
    match v
    case Number(n) => ParsePrintNumber(n, rest);
    case Array(items) => ParsePrintArray(items, rest);
    case Object(members) => ParsePrintObject(members, rest);
  }

  lemma {:induction false} ParsePrintArray(items: seq<Json>, rest: string)
    requires forall i :: 0 <= i < |items| ==> PlainNames(items[i])
    ensures ParseValue("[" + Join(items) + "]" + rest) == Some((Array(items), rest))
    decreases items, 1
  {
    hide ParseItems, ParseMembers, ParseNumber, PlainNames;
    var s := "[" + Join(items) + "]" + rest;
    assert s[1..] == Join(items) + "]" + rest;
    if items == [] {
      assert s[2..] == rest;
    } else {
      ParsePrintItems(items, rest);
      JoinStarts(items);
    }
  }

  lemma {:induction false} ParsePrintObject(members: seq<Member>, rest: string)
    requires forall i :: 0 <= i < |members| ==> '"' !in members[i].name && PlainNames(members[i].value)
    ensures ParseValue("{" + JoinMembers(members) + "}" + rest) == Some((Object(members), rest))
    decreases members, 1
  {
    hide ParseItems, ParseMembers, ParseNumber, PlainNames;
    var s := "{" + JoinMembers(members) + "}" + rest;
    assert s[1..] == JoinMembers(members) + "}" + rest;
    if members == [] {
      assert s[2..] == rest;
    } else {
      ParsePrintMembers(members, rest);
      JoinMembersStarts(members);
    }
  }

  lemma {:induction false} ParsePrintItems(items: seq<Json>, rest: string)
    requires items != [] && forall i :: 0 <= i < |items| ==> PlainNames(items[i])
    ensures ParseItems(Join(items) + "]" + rest) == Some((items, rest))
    decreases items, 0
  {
    hide PlainNames, ParseValue;
    var s := Join(items) + "]" + rest;
    if |items| == 1 {
      assert s == Print(items[0]) + ("]" + rest);
      ParsePrint(items[0], "]" + rest);
      assert ("]" + rest)[1..] == rest;
      assert [items[0]] == items;
    } else {
      var tail := Join(items[1..]) + "]" + rest;
      assert s == Print(items[0]) + ("," + tail);
      ParsePrint(items[0], "," + tail);
      assert ("," + tail)[1..] == tail;
      ParsePrintItems(items[1..], rest);
      assert [items[0]] + items[1..] == items;
    }
  }

  lemma {:induction false} ParsePrintMember(m: Member, rest: string)
    requires '"' !in m.name && PlainNames(m.value) && NoDigitFirst(rest)
    ensures ParseMember(PrintMember(m) + rest) == Some((m, rest))
    decreases m, 2
  {
    var s := PrintMember(m) + rest;
    var value := Print(m.value) + rest;
    assert s[1..] == m.name + ("\":" + value);
    NameEndOf(m.name, "\":" + value);
    assert s[1..][|m.name|..] == "\":" + value;
    assert ("\":" + value)[2..] == value;
    assert s[1..][..|m.name|] == m.name;
    ParsePrint(m.value, rest);
  }

  lemma {:induction false} ParsePrintMembers(members: seq<Member>, rest: string)
    requires members != []
    requires forall i :: 0 <= i < |members| ==> '"' !in members[i].name && PlainNames(members[i].value)
    ensures ParseMembers(JoinMembers(members) + "}" + rest) == Some((members, rest))
    decreases members, 0
  {
    hide PlainNames, ParseMember, PrintMember;
    var s := JoinMembers(members) + "}" + rest;
    if |members| == 1 {
      assert s == PrintMember(members[0]) + ("}" + rest);
      ParsePrintMember(members[0], "}" + rest);
      assert ("}" + rest)[1..] == rest;
      assert [members[0]] == members;
    } else {
      var tail := JoinMembers(members[1..]) + "}" + rest;
      assert s == PrintMember(members[0]) + ("," + tail);
      ParsePrintMember(members[0], "," + tail);
      assert ("," + tail)[1..] == tail;
      ParsePrintMembers(members[1..], rest);
      assert [members[0]] + members[1..] == members;
    }
  }

  // ---------------------------------------------------------------- thread ids

  function ThreadObject(id: uint64): Json {
    Object([Member("thread_id", Number(id))])
  }

  function ThreadObjects(ids: seq<uint64>): (r: seq<Json>)
    ensures |r| == |ids|
  {
    seq(|ids|, i requires 0 <= i < |ids| => ThreadObject(ids[i]))
  }

  function Metadata(ids: seq<uint64>): Json {
    Object([Member("threads", Array(ThreadObjects(ids)))])
  }

  /** What a reader of the note takes for the thread ids. */
  function ThreadIds(v: Json): Option<seq<nat>> {
    if v.Object? && |v.members| == 1 && v.members[0].name == "threads" && v.members[0].value.Array?
    then IdsOf(v.members[0].value.items)
    else None
  }

  function IdsOf(items: seq<Json>): Option<seq<nat>> {
    if items == [] then Some([])
    else
      var o := items[0];
      match IdsOf(items[1..])
      case None => None
      case Some(ids) =>
        if o.Object? && |o.members| == 1 && o.members[0].name == "thread_id" && o.members[0].value.Number?
        then Some([o.members[0].value.n] + ids)
        else None
  }

  /** The text after the first i ids. */
  function PayloadPrefix(ids: seq<uint64>, i: nat): string
    requires i <= |ids|
  {
    "{\"threads\":[" + Join(ThreadObjects(ids[..i]))
  }

  lemma PayloadStep(ids: seq<uint64>, i: nat)
    requires i < |ids|
    ensures PayloadPrefix(ids, i) + (if i > 0 then "," else "") + "{\"thread_id\":" + Decimal(ids[i]) + "}"
            == PayloadPrefix(ids, i + 1)
  {
    hide Print, Join, Decimal, ThreadObject;
    assert ThreadObjects(ids[..i + 1]) == ThreadObjects(ids[..i]) + [ThreadObject(ids[i])];
    JoinSnoc(ThreadObjects(ids[..i]), ThreadObject(ids[i]));
    PrintThread(ids[i]);
  }

  lemma PayloadEnds(ids: seq<uint64>)
    ensures PayloadPrefix(ids, 0) == "{\"threads\":["
    ensures PayloadPrefix(ids, |ids|) + "]}" == Print(Metadata(ids))
  {
    assert ids[..0] == [] && Join(ThreadObjects([])) == "";
    assert ids[..|ids|] == ids;
    PrintMetadata(ids);
  }

  method CreateProcessMetadataPayload(ids: seq<uint64>) returns (result: string)
    ensures result == Print(Metadata(ids))
  {
    hide PayloadPrefix, Print, Decimal, Metadata;
    PayloadEnds(ids);
    result := "{\"threads\":[";
    for i := 0 to |ids|
      invariant result == PayloadPrefix(ids, i)
    {
      PayloadStep(ids, i);
      if i > 0 {
        result := result + ",";
      }
      result := result + "{\"thread_id\":";
      result := result + Decimal(ids[i]);
      result := result + "}";
    }
    result := result + "]}";
  }

  lemma PrintThread(id: uint64)
    ensures Print(ThreadObject(id)) == "{\"thread_id\":" + Decimal(id) + "}"
  {
    var m := Member("thread_id", Number(id));
    assert JoinMembers([m]) == PrintMember(m);
    assert PrintMember(m) == "\"thread_id\":" + Decimal(id);
  }

  lemma PrintMetadata(ids: seq<uint64>)
    ensures Print(Metadata(ids)) == "{\"threads\":[" + Join(ThreadObjects(ids)) + "]}"
  {
    var m := Member("threads", Array(ThreadObjects(ids)));
    assert JoinMembers([m]) == PrintMember(m);
    assert PrintMember(m) == "\"threads\":" + ("[" + Join(ThreadObjects(ids)) + "]");
  }

  lemma {:induction false} IdsOfThreadObjects(ids: seq<uint64>)
    ensures IdsOf(ThreadObjects(ids)) == Some(ids)
  {
    if ids != [] {
      IdsOfThreadObjects(ids[1..]);
      assert ThreadObjects(ids)[1..] == ThreadObjects(ids[1..]);
      assert [ids[0]] + ids[1..] == ids;
    }
  }

  /** Reading the printed note gives back exactly the thread ids, in order, for any list of ids. */
  lemma ThreadIdsRoundTrip(ids: seq<uint64>)
    ensures Parse(Print(Metadata(ids))) == Some(Metadata(ids)) && ThreadIds(Metadata(ids)) == Some(ids)
  {
    IdsOfThreadObjects(ids);
    assert forall i :: 0 <= i < |ids| ==> PlainNames(ThreadObjects(ids)[i]);
    assert PlainNames(Array(ThreadObjects(ids)));
    ParsePrint(Metadata(ids), "");
    assert Print(Metadata(ids)) + "" == Print(Metadata(ids));
  }

  /** The ids between commas. */
  function Listing(ids: seq<uint64>): string {
    if ids == [] then ""
    else
      var n := |ids| - 1;
      Listing(ids[..n]) + (if n == 0 then "" else ",") + "{\"thread_id\":" + Decimal(ids[n]) + "}"
  }

  lemma {:induction false} JoinIsListing(ids: seq<uint64>)
    ensures Join(ThreadObjects(ids)) == Listing(ids)
  {
    hide Print, Decimal, ThreadObject, Join;
    if ids == [] {
      JoinNothing();
    } else {
      var n := |ids| - 1;
      JoinIsListing(ids[..n]);
      assert ThreadObjects(ids) == ThreadObjects(ids[..n]) + [ThreadObject(ids[n])];
      JoinSnoc(ThreadObjects(ids[..n]), ThreadObject(ids[n]));
      PrintThread(ids[n]);
    }
  }

  lemma JoinNothing()
    ensures Join(ThreadObjects([])) == ""
  {
  }

  /** The text of the note, spelled out. */
  lemma MetadataText(ids: seq<uint64>)
    ensures Print(Metadata(ids)) == "{\"threads\":[" + Listing(ids) + "]}"
  {
    hide Print, Metadata, Join, Listing;
    PrintMetadata(ids);
    JoinIsListing(ids);
  }

  function Pow10(i: nat): nat
    ensures Pow10(i) > 0
  {
    if i == 0 then 1 else 10 * Pow10(i - 1)
  }

  /** Digit i from the right has the weight 10^i. */
  lemma {:induction false} DecimalDigits(n: nat, i: nat)
    requires i < |Decimal(n)|
    ensures Decimal(n)[|Decimal(n)| - 1 - i] as int == 48 + n / Pow10(i) % 10
    ensures n < Pow10(|Decimal(n)|)
  {
    if n < 10 {
      assert Pow10(1) == 10 * Pow10(0);
    } else {
      DecimalDigits(n / 10, if i == 0 then 0 else i - 1);
      if i > 0 {
        DivideTwice(n, Pow10(i - 1));
      }
    }
  }

  lemma DivideTwice(n: nat, p: nat)
    requires p > 0
    ensures n / 10 / p == n / (10 * p)
  {
    var q, r := n / 10 / p, n / 10 % p;
    assert n == 10 * (q * p + r) + n % 10;
    assert 10 * (q * p + r) + n % 10 == q * (10 * p) + (10 * r + n % 10);
    assert 0 <= 10 * r + n % 10 < 10 * p;
    QuotientIs(n, 10 * p, q, 10 * r + n % 10);
  }

  lemma QuotientIs(n: nat, d: nat, q: nat, r: nat)
    requires d > 0 && n == q * d + r && r < d
    ensures n / d == q
  {
    var e := n / d - q;
    assert n == n / d * d + n % d;
    assert e * d == n / d * d - q * d == r - n % d;
    if e > 0 {
      AtLeast(e, d);
    } else if e < 0 {
      AtLeast(-e, d);
    }
  }

  lemma AtLeast(e: nat, d: nat)
    requires e > 0
    ensures e * d >= d
  {
  }

  // ---------------------------------------------------------------- bytes of the text

  /** The low bytes of the characters; the note's text has no others. */
  function AsciiBytes(s: string): (r: seq<byte>)
    ensures |r| == |s|
  {
    seq(|s|, i requires 0 <= i < |s| => s[i] as int % 256)
  }

  function AsciiText(b: seq<byte>): (s: string)
    ensures |s| == |b|
  {
    seq(|b|, i requires 0 <= i < |b| => b[i] as char)
  }

  predicate IsAscii(s: string) {
    forall i :: 0 <= i < |s| ==> s[i] < 128 as char
  }

  lemma AsciiRoundTrip(s: string)
    requires IsAscii(s)
    ensures AsciiText(AsciiBytes(s)) == s
  {
  }

  lemma {:induction false} JoinIsAscii(ids: seq<uint64>)
    ensures IsAscii(Join(ThreadObjects(ids)))
  {
    if ids != [] {
      var n := |ids| - 1;
      JoinIsAscii(ids[..n]);
      assert ThreadObjects(ids) == ThreadObjects(ids[..n]) + [ThreadObject(ids[n])];
      JoinSnoc(ThreadObjects(ids[..n]), ThreadObject(ids[n]));
      PrintThread(ids[n]);
      DecimalRoundTrip(ids[n]);
    }
  }

  /** The bytes of the note lead back to the ids. */
  lemma NoteBytesRoundTrip(ids: seq<uint64>)
    ensures var v := Parse(AsciiText(AsciiBytes(Print(Metadata(ids)))));
            v.Some? && ThreadIds(v.value) == Some(ids)
  {
    PrintMetadata(ids);
    JoinIsAscii(ids);
    AsciiRoundTrip(Print(Metadata(ids)));
    ThreadIdsRoundTrip(ids);
  }
}
