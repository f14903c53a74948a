/**
 The JSON texts that the builder writes, and a reader of the JSON grammar (sections 2 to 7 of
 RFC 8259) that stands apart from it. A character of the model is a byte of the program.
 */
module Json {

  datatype Value =
    | Null
    | Bool(flag: bool)
    | Int(number: int)
    | Text(text: string)
    | Array(items: seq<Value>)
    | Object(members: seq<Member>)

  datatype Member = Member(key: string, value: Value)

  datatype Parsed<T> = Fail | Done(value: T, rest: string)

  // ---------- Writing ----------

  const HEX := "0123456789abcdef"

  /** Two hexadecimal digits behind two zeros are enough for a control character. */
  function EscapeChar(c: char): (s: string)
    ensures s != ""
  {
    if c == '"' then "\\\""
    else if c == '\\' then "\\\\"
    else if c == '\U{8}' then "\\b"
    else if c == '\U{c}' then "\\f"
    else if c == '\n' then "\\n"
    else if c == '\r' then "\\r"
    else if c == '\t' then "\\t"
    else if c as int < 0x20 then "\\u00" + [HEX[c as int / 16], HEX[c as int % 16]]
    else [c]
  }

  function Escape(s: string): string {
    if s == "" then "" else EscapeChar(s[0]) + Escape(s[1..])
  }

  function Digits(n: nat): (s: string)
    ensures s != "" && forall i | 0 <= i < |s| :: '0' <= s[i] <= '9'
    ensures s[0] == '0' ==> n == 0
  {
    if n < 10 then [HEX[n]] else Digits(n / 10) + [HEX[n % 10]]
  }

  function Number(n: int): string {
    if n < 0 then "-" + Digits(-n) else Digits(n)
  }

  function Quoted(s: string): string {
    "\"" + Escape(s) + "\""
  }

  function Print(v: Value): string {
    match v
    case Null => "null"
    case Bool(b) => if b then "true" else "false"
    case Int(n) => Number(n)
    case Text(s) => Quoted(s)
    case Array(items) => "[" + PrintItems(items) + "]"
    case Object(members) => "{" + PrintMembers(members) + "}"
  }

  function PrintItems(items: seq<Value>): string {
    if items == [] then ""
    else if |items| == 1 then Print(items[0])
    else Print(items[0]) + "," + PrintItems(items[1..])
  }

  function PrintMember(m: Member): string {
    Quoted(m.key) + ":" + Print(m.value)
  }

  function PrintMembers(members: seq<Member>): string {
    if members == [] then ""
    else if |members| == 1 then PrintMember(members[0])
    else PrintMember(members[0]) + "," + PrintMembers(members[1..])
  }

  // ---------- Reading ----------

  predicate IsSpace(c: char) {
    c == ' ' || c == '\t' || c == '\n' || c == '\r'
  }

  function SkipSpace(s: string): (r: string)
    ensures |r| <= |s|
  {
    if s != "" && IsSpace(s[0]) then SkipSpace(s[1..]) else s
  }

  function HexValue(c: char): (n: int)
    ensures -1 <= n < 16
  {
    if '0' <= c <= '9' then c as int - '0' as int
    else if 'a' <= c <= 'f' then c as int - 'a' as int + 10
    else if 'A' <= c <= 'F' then c as int - 'A' as int + 10
    else -1
  }

  /** The four digits after `\u`; surrogates stand for no character of their own. */
  function ReadUnicode(s: string): (p: Parsed<char>)
    ensures p.Done? ==> |p.rest| < |s|
  {
    if |s| < 4 then Fail
    else
      var a, b, c, d := HexValue(s[0]), HexValue(s[1]), HexValue(s[2]), HexValue(s[3]);
      if a < 0 || b < 0 || c < 0 || d < 0 then Fail
      else
        var code := ((a * 16 + b) * 16 + c) * 16 + d;
        if 0xD800 <= code <= 0xDFFF then Fail else Done(code as char, s[4..])
  }

  /** One character after a backslash. */
  function ReadEscape(s: string): (p: Parsed<char>)
    ensures p.Done? ==> |p.rest| < |s|
  {
    if s == "" then Fail
    else
      match s[0]
      case '"' => Done('"', s[1..])
      case '\\' => Done('\\', s[1..])
      case '/' => Done('/', s[1..])
      case 'b' => Done('\U{8}', s[1..])
      case 'f' => Done('\U{c}', s[1..])
      case 'n' => Done('\n', s[1..])
      case 'r' => Done('\r', s[1..])
      case 't' => Done('\t', s[1..])
      case 'u' => ReadUnicode(s[1..])
      case _ => Fail
  }

  function ReadChar(s: string): (p: Parsed<char>)
    requires s != ""
    ensures p.Done? ==> |p.rest| < |s|
  {
    if s[0] == '\\' then ReadEscape(s[1..])
    else if s[0] as int < 0x20 then Fail
    else Done(s[0], s[1..])
  }

  /** Up to the closing quote, from behind the opening one. */
  function ReadString(s: string): (p: Parsed<string>)
    ensures p.Done? ==> |p.rest| < |s|
    decreases |s|
  {
    if s == "" then Fail
    else if s[0] == '"' then Done("", s[1..])
    else
      match ReadChar(s)
      case Fail => Fail
      case Done(c, rest) =>
        match ReadString(rest)
        case Fail => Fail
        case Done(t, rest') => Done([c] + t, rest')
  }

  function DigitRun(s: string): (n: nat)
    ensures n <= |s| && forall i | 0 <= i < n :: '0' <= s[i] <= '9'
    ensures n < |s| ==> !('0' <= s[n] <= '9')
  {
    if s != "" && '0' <= s[0] <= '9' then 1 + DigitRun(s[1..]) else 0
  }

  function Decimal(s: string): int {
    if s == "" then 0 else 10 * Decimal(s[..|s| - 1]) + s[|s| - 1] as int - '0' as int
  }

  /** Whole numbers without superfluous zeros; fractions and exponents are not read. */
  function ReadDigits(s: string): (p: Parsed<int>)
    ensures p.Done? ==> |p.rest| < |s|
  {
    var n := DigitRun(s);
    if n == 0 || (n > 1 && s[0] == '0') then Fail
    else if n < |s| && (s[n] == '.' || s[n] == 'e' || s[n] == 'E') then Fail
    else Done(Decimal(s[..n]), s[n..])
  }

  function ReadNumber(s: string): (p: Parsed<int>)
    requires s != ""
    ensures p.Done? ==> |p.rest| < |s|
  {
    if s[0] != '-' then ReadDigits(s)
    else
      match ReadDigits(s[1..])
      case Fail => Fail
      case Done(n, rest) => Done(-n, rest)
  }

  function ReadWord(s: string, word: string, v: Value): (p: Parsed<Value>)
    requires word != ""
    ensures p.Done? ==> |p.rest| < |s|
  {
    if word <= s then Done(v, s[|word|..]) else Fail
  }

  function ReadValue(s: string): (p: Parsed<Value>)
    ensures p.Done? ==> |p.rest| < |s|
    decreases |s|, 0
  {
    if s == "" then Fail
    else if s[0] == '"' then
      match ReadString(s[1..])
      case Fail => Fail
      case Done(t, rest) => Done(Text(t), rest)
    else if s[0] == '{' then
      var r := SkipSpace(s[1..]);
      if r != "" && r[0] == '}' then Done(Object([]), r[1..])
      else
        match ReadMembers(r)
        case Fail => Fail
        case Done(ms, rest) => Done(Object(ms), rest)
    else if s[0] == '[' then
      var r := SkipSpace(s[1..]);
      if r != "" && r[0] == ']' then Done(Array([]), r[1..])
      else
        match ReadItems(r)
        case Fail => Fail
        case Done(vs, rest) => Done(Array(vs), rest)
    else if s[0] == 'n' then ReadWord(s, "null", Null)
    else if s[0] == 't' then ReadWord(s, "true", Bool(true))
    else if s[0] == 'f' then ReadWord(s, "false", Bool(false))
    else
      match ReadNumber(s)
      case Fail => Fail
      case Done(n, rest) => Done(Int(n), rest)
  }

  /** Items up to and with the closing bracket. */
  function ReadItems(s: string): (p: Parsed<seq<Value>>)
    ensures p.Done? ==> |p.rest| < |s|
    decreases |s|, 1
  {
    match ReadValue(s)
    case Fail => Fail
    case Done(v, rest) =>
      var r := SkipSpace(rest);
      if r == "" then Fail
      else if r[0] == ']' then Done([v], r[1..])
      else if r[0] != ',' then Fail
      else
        match ReadItems(SkipSpace(r[1..]))
        case Fail => Fail
        case Done(vs, rest') => Done([v] + vs, rest')
  }

  function ReadMember(s: string): (p: Parsed<Member>)
    ensures p.Done? ==> |p.rest| < |s|
    decreases |s|, 1
  {
    if s == "" || s[0] != '"' then Fail
    else
      match ReadString(s[1..])
      case Fail => Fail
      case Done(key, rest) =>
        var r := SkipSpace(rest);
        if r == "" || r[0] != ':' then Fail
        else
          match ReadValue(SkipSpace(r[1..]))
          case Fail => Fail
          case Done(v, rest') => Done(Member(key, v), rest')
  }

  function ReadMembers(s: string): (p: Parsed<seq<Member>>)
    ensures p.Done? ==> |p.rest| < |s|
    decreases |s|, 2
  {
    match ReadMember(s)
    case Fail => Fail
    case Done(m, rest) =>
      var r := SkipSpace(rest);
      if r == "" then Fail
      else if r[0] == '}' then Done([m], r[1..])
      else if r[0] != ',' then Fail
      else
        match ReadMembers(SkipSpace(r[1..]))
        case Fail => Fail
        case Done(ms, rest') => Done([m] + ms, rest')
  }

  datatype Document = Malformed | Parsed(value: Value)

  function Parse(s: string): Document {
    match ReadValue(SkipSpace(s))
    case Fail => Malformed
    case Done(v, rest) => if SkipSpace(rest) == "" then Document.Parsed(v) else Malformed
  }

  // ---------- What was written is read back ----------

  lemma Assoc(a: string, b: string, rest: string)
    ensures a + b + rest == a + (b + rest)
  {
  }

  lemma HexBack(n: int)
    requires 0 <= n < 16
    ensures HexValue(HEX[n]) == n
  {
  }

  lemma CharBack(c: char, rest: string)
    ensures var s := EscapeChar(c) + rest;
            s[0] != '"' && ReadChar(s) == Done(c, rest)
  {
    var s := EscapeChar(c) + rest;
    assert |EscapeChar(c)| == 1 ==> s[1..] == rest;
    assert |EscapeChar(c)| == 2 ==> s[1..][1..] == rest;
    if |EscapeChar(c)| == 6 {
      HexBack(c as int / 16);
      HexBack(c as int % 16);
      assert s[1..][1..] == "00" + [HEX[c as int / 16], HEX[c as int % 16]] + rest;
      assert s[1..][1..][4..] == rest;
    }
  }

  lemma {:induction false} StringBack(s: string, rest: string)
    ensures ReadString(Escape(s) + "\"" + rest) == Done(s, rest)
  {
    hide EscapeChar, ReadChar;
    if s == "" {
      assert ("\"" + rest)[1..] == rest;
      assert Escape(s) + "\"" + rest == "\"" + rest;
    } else {
      var more := Escape(s[1..]) + "\"" + rest;
      StringBack(s[1..], rest);
      CharBack(s[0], more);
      assert Escape(s) + "\"" + rest == EscapeChar(s[0]) + more;
      assert s == [s[0]] + s[1..];
    }
  }

  /** Escaping loses nothing. */
  lemma EscapeIsInjective(s: string, t: string)
    requires Escape(s) == Escape(t)
    ensures s == t
  {
    StringBack(s, "");
    StringBack(t, "");
  }

  /** The text ends where the quote is: no other string's text with its quote starts with it. */
  lemma EscapeEndsItself(s: string, t: string)
    requires Escape(s) + "\"" <= Escape(t) + "\""
    ensures s == t
  {
    var more := (Escape(t) + "\"")[|Escape(s) + "\""|..];
    StringBack(s, more);
    StringBack(t, "");
    assert Escape(s) + "\"" + more == Escape(t) + "\"" + "";
  }

  /** A character is written as it is exactly when it is no control character, quote or backslash. */
  lemma EscapedIsExact(c: char)
    ensures EscapeChar(c) == [c] <==> c >= ' ' && c != '"' && c != '\\'
  {
  }

  /** Four hexadecimal digits of either case are read as the character they number. */
  lemma UnicodeBack(a: nat, b: nat, c: nat, d: nat, rest: string)
    requires a < 16 && b < 16 && c < 16 && d < 16 && (a != 13 || b < 8)
    ensures ReadUnicode([HEX[a], HEX[b], HEX[c], HEX[d]] + rest) == Done((4096 * a + 256 * b + 16 * c + d) as char, rest)
  {
    hide HexValue;
    HexBack(a);
    HexBack(b);
    HexBack(c);
    HexBack(d);
    var s := [HEX[a], HEX[b], HEX[c], HEX[d]] + rest;
    assert s[4..] == rest;
  }

  lemma HexCases(n: nat)
    requires 10 <= n < 16
    ensures HexValue("abcdef"[n - 10]) == n == HexValue("ABCDEF"[n - 10])
  {
  }

  /** Superfluous zeros are refused. */
  lemma NoLeadingZeros(s: string)
    requires |s| >= 2 && s[0] == '0' && '0' <= s[1] <= '9'
    ensures ReadDigits(s) == Fail
  {
    assert DigitRun(s) == 1 + DigitRun(s[1..]);
  }

  lemma {:induction false} DigitsBack(n: nat)
    ensures Decimal(Digits(n)) == n
  {
    if n >= 10 {
      DigitsBack(n / 10);
      HexBack(n % 10);
      assert Digits(n)[..|Digits(n)| - 1] == Digits(n / 10);
    } else {
      HexBack(n);
      assert Decimal("") == 0;
    }
  }

  lemma {:induction false} RunEnds(s: string, rest: string)
    requires forall i | 0 <= i < |s| :: '0' <= s[i] <= '9'
    requires rest == "" || !('0' <= rest[0] <= '9')
    ensures DigitRun(s + rest) == |s|
  {
    if s == "" {
      assert s + rest == rest;
    } else {
      assert (s + rest)[1..] == s[1..] + rest;
      RunEnds(s[1..], rest);
    }
  }

  /** What follows a value inside a document. */
  predicate Ends(rest: string) {
    rest == "" || rest[0] == ',' || rest[0] == ']' || rest[0] == '}'
  }

  lemma ReadDigitsBack(n: nat, rest: string)
    requires Ends(rest)
    ensures ReadDigits(Digits(n) + rest) == Done(n, rest)
  {
    var s := Digits(n) + rest;
    RunEnds(Digits(n), rest);
    DigitsBack(n);
    assert s[..|Digits(n)|] == Digits(n) && s[|Digits(n)|..] == rest;
  }

  lemma NumberBack(n: int, rest: string)
    requires Ends(rest)
    ensures ReadNumber(Number(n) + rest) == Done(n, rest)
  {
    hide Digits, ReadDigits;
    if n < 0 {
      ReadDigitsBack(-n, rest);
      assert (Number(n) + rest)[1..] == Digits(-n) + rest;
    } else {
      ReadDigitsBack(n, rest);
      assert '0' <= Digits(n)[0] <= '9';
    }
  }

  lemma PrintStarts(v: Value)
    ensures var s := Print(v); s != "" && !IsSpace(s[0]) && s[0] != ']' && s[0] != '}'
  {
    if v.Int? {
      var d := Digits(if v.number < 0 then -v.number else v.number);
      assert '0' <= d[0] <= '9';
    }
  }

  lemma {:induction false} ValueBack(v: Value, rest: string)
    requires Ends(rest)
    ensures ReadValue(Print(v) + rest) == Done(v, rest)
    decreases v, 0
  {
    hide Escape, ReadString, Number, ReadNumber, ReadItems, ReadMembers, PrintItems, PrintMembers;
    var s := Print(v) + rest;
    match v
    case Null =>
      assert s[4..] == rest;
    case Bool(b) =>
      assert s[|Print(v)|..] == rest;
    case Int(n) =>
      NumberBack(n, rest);
      NumberStarts(n);
    case Text(t) =>
      StringBack(t, rest);
      assert s[1..] == Escape(t) + "\"" + rest;
    case Array(items) =>
      ArrayBack(items, rest);
    case Object(members) =>
      ObjectBack(members, rest);
  }

  lemma NumberStarts(n: int)
    ensures var s := Number(n); s != "" && (s[0] == '-' || '0' <= s[0] <= '9')
  {
    var d := Digits(if n < 0 then -n else n);
    assert '0' <= d[0] <= '9';
  }

  lemma ArrayBack(items: seq<Value>, rest: string)
    ensures ReadValue("[" + PrintItems(items) + "]" + rest) == Done(Array(items), rest)
    decreases items, 1
  {
    hide ReadItems, Print;
    var s := "[" + PrintItems(items) + "]" + rest;
    assert s[1..] == PrintItems(items) + "]" + rest;
    if items == [] {
      assert s[1..] == "]" + rest;
      assert ("]" + rest)[1..] == rest;
    } else {
      PrintStarts(items[0]);
      ItemsBack(items, rest);
    }
  }

  lemma LastItem(s: string, v: Value, tail: string)
    requires ReadValue(s) == Done(v, tail) && tail != "" && tail[0] == ']'
    ensures ReadItems(s) == Done([v], tail[1..])
  {
    hide ReadValue;
  }

  lemma NextItem(s: string, v: Value, tail: string, vs: seq<Value>, rest: string)
    requires ReadValue(s) == Done(v, tail) && |tail| > 1 && tail[0] == ',' && !IsSpace(tail[1])
    requires ReadItems(tail[1..]) == Done(vs, rest)
    ensures ReadItems(s) == Done([v] + vs, rest)
  {
    hide ReadValue;
    assert SkipSpace(tail[1..]) == tail[1..];
  }

  lemma ItemsStart(items: seq<Value>, rest: string)
    requires items != []
    ensures var s := PrintItems(items) + rest; s != "" && !IsSpace(s[0])
  {
    hide Print;
    PrintStarts(items[0]);
  }

  lemma {:induction false} ItemsBack(items: seq<Value>, rest: string)
    requires items != []
    ensures ReadItems(PrintItems(items) + "]" + rest) == Done(items, rest)
    decreases items, 0
  {
    hide ReadValue, ReadItems, Print, IsSpace;
    var v, more := items[0], items[1..];
    if more == [] {
      var tail := "]" + rest;
      ValueBack(v, tail);
      assert PrintItems(items) + "]" + rest == Print(v) + tail;
      LastItem(Print(v) + tail, v, tail);
      assert tail[1..] == rest && items == [v];
    } else {
      var next := PrintItems(more) + "]" + rest;
      var tail := "," + next;
      ValueBack(v, tail);
      assert PrintItems(items) + "]" + rest == Print(v) + tail;
      ItemsBack(more, rest);
      ItemsStart(more, "]" + rest);
      assert next == PrintItems(more) + ("]" + rest) && tail[1..] == next && tail[1] == next[0];
      NextItem(Print(v) + tail, v, tail, more, rest);
      assert items == [v] + more;
    }
  }

  lemma ObjectBack(members: seq<Member>, rest: string)
    ensures ReadValue("{" + PrintMembers(members) + "}" + rest) == Done(Object(members), rest)
    decreases members, 2
  {
    hide ReadMembers, Print, Escape;
    var s := "{" + PrintMembers(members) + "}" + rest;
    assert s[1..] == PrintMembers(members) + "}" + rest;
    if members == [] {
      assert s[1..] == "}" + rest;
      assert ("}" + rest)[1..] == rest;
    } else {
      MembersBack(members, rest);
    }
  }

  lemma MemberBack(m: Member, rest: string)
    requires Ends(rest)
    ensures ReadMember(PrintMember(m) + rest) == Done(m, rest)
    decreases m, 0
  {
    hide Escape, ReadString, ReadValue, Print;
    var s := PrintMember(m) + rest;
    var colon := ":" + Print(m.value) + rest;
    StringBack(m.key, colon);
    assert s[1..] == Escape(m.key) + "\"" + colon;
    assert colon[1..] == Print(m.value) + rest;
    PrintStarts(m.value);
    ValueBack(m.value, rest);
  }

  lemma LastMember(s: string, m: Member, tail: string)
    requires ReadMember(s) == Done(m, tail) && tail != "" && tail[0] == '}'
    ensures ReadMembers(s) == Done([m], tail[1..])
  {
    hide ReadMember;
  }

  lemma NextMember(s: string, m: Member, tail: string, ms: seq<Member>, rest: string)
    requires ReadMember(s) == Done(m, tail) && |tail| > 1 && tail[0] == ',' && tail[1] == '"'
    requires ReadMembers(tail[1..]) == Done(ms, rest)
    ensures ReadMembers(s) == Done([m] + ms, rest)
  {
    hide ReadMember;
    assert SkipSpace(tail[1..]) == tail[1..];
  }

  lemma MembersStart(members: seq<Member>, rest: string)
    requires members != []
    ensures var s := PrintMembers(members) + rest; s != "" && s[0] == '"'
  {
    hide Print, Escape;
  }

  lemma {:induction false} MembersBack(members: seq<Member>, rest: string)
    requires members != []
    ensures ReadMembers(PrintMembers(members) + "}" + rest) == Done(members, rest)
    decreases members, 1
  {
    hide ReadMember, ReadMembers, PrintMember;
    var m, more := members[0], members[1..];
    if more == [] {
      var tail := "}" + rest;
      MemberBack(m, tail);
      assert PrintMembers(members) + "}" + rest == PrintMember(m) + tail;
      LastMember(PrintMember(m) + tail, m, tail);
      assert tail[1..] == rest && members == [m];
    } else {
      var next := PrintMembers(more) + "}" + rest;
      var tail := "," + next;
      MemberBack(m, tail);
      assert PrintMembers(members) + "}" + rest == PrintMember(m) + tail;
      MembersBack(more, rest);
      MembersStart(more, "}" + rest);
      assert next == PrintMembers(more) + ("}" + rest) && tail[1..] == next && tail[1] == next[0];
      NextMember(PrintMember(m) + tail, m, tail, more, rest);
      assert members == [m] + more;
    }
  }

  /** Every printed tree is a JSON document, and that document is the tree. */
  lemma RoundTrip(v: Value)
    ensures Parse(Print(v)) == Document.Parsed(v)
  {
    hide ReadValue;
    PrintStarts(v);
    ValueBack(v, "");
    assert Print(v) + "" == Print(v);
  }
}
