/**
 Query strings between nodes: the sender percent-encodes every name and value (section 2.1 of
 RFC 3986), the receiver splits the text and decodes it with its own, more lenient, decoder.
 */
module Query {

  type Byte = b: int | 0 <= b < 256
  type Bytes = seq<Byte>

  const PERCENT: Byte := 37
  const AMPERSAND: Byte := 38
  const PLUS: Byte := 43
  const EQUALS: Byte := 61
  const SPACE: Byte := 32

  /** The receiver turns away a request whose header block, request line included, is longer. */
  const MAX_HEADER: nat := 64 * 1024

  /** The receiver stops decoding at this size. */
  const MAX_DECODED: nat := 10 * 1024 * 1024

  // ---------- Sender ----------

  /** Letters, digits, `-`, `.`, `_` and `~` (section 2.3). */
  predicate Unreserved(c: int) {
    65 <= c <= 90 || 97 <= c <= 122 || 48 <= c <= 57 || c == 45 || c == 95 || c == 46 || c == 126
  }

  function Hex(n: int): (c: Byte)
    requires 0 <= n < 16
    ensures 48 <= c <= 57 || 65 <= c <= 70
  {
    if n < 10 then 48 + n else 55 + n
  }

  function EncodeByte(c: Byte): (e: Bytes)
    ensures e != []
  {
    if Unreserved(c) then [c] else [PERCENT, Hex(c / 16), Hex(c % 16)]
  }

  function Encode(s: Bytes): Bytes {
    if s == [] then [] else EncodeByte(s[0]) + Encode(s[1..])
  }

  datatype Row = Row(name: Bytes, value: Bytes)

  function RowText(r: Row): Bytes {
    Encode(r.name) + [EQUALS] + Encode(r.value)
  }

  function QueryText(rows: seq<Row>): Bytes {
    if rows == [] then []
    else if |rows| == 1 then RowText(rows[0])
    else RowText(rows[0]) + [AMPERSAND] + QueryText(rows[1..])
  }

  // ---------- Receiver ----------

  function HexValue(c: Byte): (n: int)
    ensures -1 <= n < 16
  {
    if 48 <= c <= 57 then c - 48
    else if 65 <= c <= 70 then c - 55
    else if 97 <= c <= 102 then c - 87
    else -1
  }

  predicate IsTriple(s: Bytes) {
    |s| >= 3 && s[0] == PERCENT && HexValue(s[1]) >= 0 && HexValue(s[2]) >= 0
  }

  /** The next byte; a zero byte becomes a percent sign, and a plus a space. */
  function DecodeByte(s: Bytes): Byte
    requires s != []
  {
    if IsTriple(s) then
      var v := HexValue(s[1]) * 16 + HexValue(s[2]);
      if v == 0 then PERCENT else v
    else if s[0] == PLUS then SPACE
    else s[0]
  }

  function Decode(s: Bytes, room: nat): (d: Bytes)
    ensures |d| <= room
    decreases room
  {
    if s == [] || room == 0 then []
    else [DecodeByte(s)] + Decode(s[if IsTriple(s) then 3 else 1..], room - 1)
  }

  /** The first position of a byte, or the length. */
  function IndexOf(s: Bytes, c: Byte): (i: nat)
    ensures i <= |s| && c !in s[..i] && (i < |s| ==> s[i] == c)
  {
    if s == [] || s[0] == c then 0 else 1 + IndexOf(s[1..], c)
  }

  type Params = map<Bytes, Bytes>

  const TRUE: Bytes := [116, 114, 117, 101]

  /** One part between ampersands: with an equals sign, a bare name, or nothing. */
  function Enter(m: Params, part: Bytes): Params {
    var eq := IndexOf(part, EQUALS);
    if eq < |part| then m[Decode(part[..eq], MAX_DECODED) := Decode(part[eq + 1..], MAX_DECODED)]
    else if part != [] then m[Decode(part, MAX_DECODED) := TRUE]
    else m
  }

  function ParseFrom(m: Params, s: Bytes): Params
    decreases |s|
  {
    if s == [] then m
    else
      var amp := IndexOf(s, AMPERSAND);
      var next := Enter(m, s[..amp]);
      if amp < |s| then ParseFrom(next, s[amp + 1..]) else next
  }

  // ---------- One text ----------

  /** What is left of a text after the journey: no zero bytes, and not too long. */
  function Received(s: Bytes, room: nat): (r: Bytes)
    decreases room
  {
    if s == [] || room == 0 then [] else [if s[0] == 0 then PERCENT else s[0]] + Received(s[1..], room - 1)
  }

  predicate Clean(s: Bytes) {
    |s| <= MAX_DECODED && 0 !in s
  }

  lemma HexBack(n: int)
    requires 0 <= n < 16
    ensures HexValue(Hex(n)) == n
  {
  }

  lemma ByteBack(c: Byte, rest: Bytes)
    ensures var s := EncodeByte(c) + rest;
      && DecodeByte(s) == (if c == 0 then PERCENT else c)
      && s[if IsTriple(s) then 3 else 1..] == rest
  {
    var s := EncodeByte(c) + rest;
    if Unreserved(c) {
      assert s[1..] == rest;
    } else {
      HexBack(c / 16);
      HexBack(c % 16);
      assert s[3..] == rest;
    }
  }

  lemma {:induction false} DecodeBack(s: Bytes, room: nat)
    ensures Decode(Encode(s), room) == Received(s, room)
    decreases room
  {
    hide EncodeByte, DecodeByte, IsTriple;
    if s != [] && room > 0 {
      ByteBack(s[0], Encode(s[1..]));
      DecodeBack(s[1..], room - 1);
    }
  }

  lemma {:induction false} ReceivedIsClean(s: Bytes, room: nat)
    ensures |Received(s, room)| <= room && 0 !in Received(s, room)
    ensures Received(s, room) == s <==> |s| <= room && 0 !in s
    decreases room
  {
    if s != [] && room > 0 {
      ReceivedIsClean(s[1..], room - 1);
      assert s == [s[0]] + s[1..];
    }
  }

  /** A text arrives unchanged exactly when it has no zero byte and fits the receiver's limit. */
  lemma TextArrives(s: Bytes)
    ensures Decode(Encode(s), MAX_DECODED) == s <==> Clean(s)
  {
    DecodeBack(s, MAX_DECODED);
    ReceivedIsClean(s, MAX_DECODED);
  }

  /** Only unreserved characters and triples of a percent sign and two upper-case digits are sent. */
  predicate WellEncoded(e: Bytes) {
    if e == [] then true
    else if e[0] == PERCENT then
      && |e| >= 3 && WellEncoded(e[3..])
      && forall i | 1 <= i <= 2 :: 48 <= e[i] <= 57 || 65 <= e[i] <= 70
    else Unreserved(e[0]) && WellEncoded(e[1..])
  }

  lemma {:induction false} EncodeIsWellFormed(s: Bytes)
    ensures WellEncoded(Encode(s))
  {
    if s != [] {
      EncodeIsWellFormed(s[1..]);
      var e := Encode(s);
      if Unreserved(s[0]) {
        assert e[1..] == Encode(s[1..]);
      } else {
        assert e[3..] == Encode(s[1..]);
      }
    }
  }

  lemma {:induction false} NoSeparators(e: Bytes)
    requires WellEncoded(e)
    ensures AMPERSAND !in e && EQUALS !in e && 0 !in e
  {
    if e != [] {
      if e[0] == PERCENT {
        NoSeparators(e[3..]);
        assert e == [e[0], e[1], e[2]] + e[3..];
      } else {
        NoSeparators(e[1..]);
        assert e == [e[0]] + e[1..];
      }
    }
  }

  /** What is sent as it is are the unreserved characters of section 2.3 of RFC 3986. */
  lemma SentAsIs(c: Byte)
    ensures var ch := c as char;
      EncodeByte(c) == [c] <==> 'A' <= ch <= 'Z' || 'a' <= ch <= 'z' || '0' <= ch <= '9' || ch in "-._~"
  {
  }

  const UPPER := "0123456789ABCDEF"
  const LOWER := "0123456789abcdef"

  /** The receiver reads hexadecimal digits of either case, and nothing else, at their value. */
  lemma HexIsExact(c: Byte, n: nat)
    requires n < 16
    ensures HexValue(c) == n <==> c as char == UPPER[n] || c as char == LOWER[n]
  {
  }

  // ---------- Whole parameter maps ----------

  function MapOf(rows: seq<Row>): Params {
    if rows == [] then map[] else MapOf(rows[..|rows| - 1])[rows[|rows| - 1].name := rows[|rows| - 1].value]
  }

  function Arrived(r: Row): Row {
    Row(Received(r.name, MAX_DECODED), Received(r.value, MAX_DECODED))
  }

  function ArrivedAll(m: Params, rows: seq<Row>): Params
    decreases rows
  {
    if rows == [] then m else ArrivedAll(m[Arrived(rows[0]).name := Arrived(rows[0]).value], rows[1..])
  }

  lemma {:induction false} IndexIsExact(s: Bytes, c: Byte, t: Bytes)
    requires c !in s
    ensures IndexOf(s + [c] + t, c) == |s| && IndexOf(s, c) == |s|
  {
    if s != [] {
      assert (s + [c] + t)[1..] == s[1..] + [c] + t;
      IndexIsExact(s[1..], c, t);
    }
  }

  lemma RowBack(m: Params, r: Row)
    ensures AMPERSAND !in RowText(r) && RowText(r) != []
    ensures Enter(m, RowText(r)) == m[Arrived(r).name := Arrived(r).value]
  {
    hide Encode, Decode, Received, IndexOf, WellEncoded;
    var n, v := Encode(r.name), Encode(r.value);
    EncodeIsWellFormed(r.name);
    EncodeIsWellFormed(r.value);
    NoSeparators(n);
    NoSeparators(v);
    IndexIsExact(n, EQUALS, v);
    assert RowText(r)[..|n|] == n && RowText(r)[|n| + 1..] == v;
    DecodeBack(r.name, MAX_DECODED);
    DecodeBack(r.value, MAX_DECODED);
  }

  /** The receiver sees every row, in order, as it arrives. */
  lemma {:induction false} RowsBack(m: Params, rows: seq<Row>)
    ensures ParseFrom(m, QueryText(rows)) == ArrivedAll(m, rows)
    decreases rows
  {
    hide RowText, Enter, Arrived, IndexOf;
    if rows != [] {
      var r, more := rows[0], rows[1..];
      var next := m[Arrived(r).name := Arrived(r).value];
      RowBack(m, r);
      IndexIsExact(RowText(r), AMPERSAND, QueryText(more));
      RowsBack(next, more);
      var s := QueryText(rows);
      if more == [] {
        assert s[..|s|] == s;
      } else {
        assert s[..|RowText(r)|] == RowText(r) && s[|RowText(r)| + 1..] == QueryText(more);
      }
    }
  }

  predicate CleanRow(r: Row) {
    Clean(r.name) && Clean(r.value)
  }

  ghost predicate CleanMap(m: Params) {
    forall k | k in m :: Clean(k) && Clean(m[k])
  }

  lemma ArrivedIsClean(r: Row)
    ensures CleanRow(Arrived(r)) && (CleanRow(r) ==> Arrived(r) == r)
  {
    ReceivedIsClean(r.name, MAX_DECODED);
    ReceivedIsClean(r.value, MAX_DECODED);
  }

  lemma {:induction false} ArrivedAllIsClean(m: Params, rows: seq<Row>)
    requires CleanMap(m)
    ensures CleanMap(ArrivedAll(m, rows))
    decreases rows
  {
    hide Arrived, Clean;
    if rows != [] {
      ArrivedIsClean(rows[0]);
      ArrivedAllIsClean(m[Arrived(rows[0]).name := Arrived(rows[0]).value], rows[1..]);
    }
  }

  lemma {:induction false} CleanRowsArrive(m: Params, rows: seq<Row>)
    requires forall r | r in rows :: CleanRow(r)
    ensures ArrivedAll(m, rows) == m + MapOf(rows)
    decreases rows
  {
    hide Arrived, CleanRow;
    if rows == [] {
      assert m + map[] == m;
    } else {
      var r, more := rows[0], rows[1..];
      assert r in rows;
      ArrivedIsClean(r);
      CleanRowsArrive(m[r.name := r.value], more);
      MapOfFirst(rows);
    }
  }

  lemma {:induction false} MapOfFirst(rows: seq<Row>)
    requires rows != []
    ensures MapOf(rows) == map[rows[0].name := rows[0].value] + MapOf(rows[1..])
  {
    if |rows| > 1 {
      var init := rows[..|rows| - 1];
      MapOfFirst(init);
      assert rows[1..][..|rows| - 2] == init[1..];
    } else {
      assert rows[..0] == [];
    }
  }

  lemma {:induction false} MapHolds(rows: seq<Row>, i: nat)
    requires i < |rows| && forall j, k | 0 <= j < k < |rows| :: rows[j].name != rows[k].name
    ensures rows[i].name in MapOf(rows) && MapOf(rows)[rows[i].name] == rows[i].value
  {
    if i < |rows| - 1 {
      MapHolds(rows[..|rows| - 1], i);
    }
  }

  /** The two codecs agree on a parameter map exactly when every name and value is clean. */
  lemma ParametersDecode(rows: seq<Row>)
    requires forall j, k | 0 <= j < k < |rows| :: rows[j].name != rows[k].name
    ensures ParseFrom(map[], QueryText(rows)) == MapOf(rows) <==> forall r | r in rows :: CleanRow(r)
  {
    hide ParseFrom, QueryText, ArrivedAll, MapOf, Clean;
    RowsBack(map[], rows);
    if forall r | r in rows :: CleanRow(r) {
      CleanRowsArrive(map[], rows);
      assert map[] + MapOf(rows) == MapOf(rows);
    }
    if ArrivedAll(map[], rows) == MapOf(rows) {
      ArrivedAllIsClean(map[], rows);
      forall r | r in rows
        ensures CleanRow(r)
      {
        var i :| 0 <= i < |rows| && rows[i] == r;
        MapHolds(rows, i);
      }
    }
  }

  /** Parameters are read one after the other. */
  lemma {:induction false} ParsedInTurn(m: Params, s: Bytes, t: Bytes)
    requires AMPERSAND !in s
    ensures ParseFrom(m, s + [AMPERSAND] + t) == ParseFrom(ParseFrom(m, s), t)
  {
    hide Enter, IndexOf;
    var all := s + [AMPERSAND] + t;
    IndexIsExact(s, AMPERSAND, t);
    assert all[..|s|] == s && all[|s| + 1..] == t && s[..|s|] == s;
    assert Enter(m, []) == m by { EmptyPart(m); }
  }

  lemma EmptyPart(m: Params)
    ensures Enter(m, []) == m
  {
  }

  /** A name alone stands for true, a name with an equals sign and no value for the empty text. */
  lemma BareNames(m: Params, name: Bytes)
    requires Clean(name) && name != []
    ensures ParseFrom(m, Encode(name)) == m[name := TRUE] && ParseFrom(m, Encode(name) + [EQUALS]) == m[name := []]
    ensures |TRUE| == |"true"| && forall i | 0 <= i < |TRUE| :: TRUE[i] as char == "true"[i]
  {
    hide Encode, Decode, IndexOf, WellEncoded;
    var e := Encode(name);
    EncodeGrows(name);
    EncodeIsWellFormed(name);
    NoSeparators(e);
    TextArrives(name);
    IndexIsExact(e, EQUALS, []);
    IndexIsExact(e, AMPERSAND, []);
    NoIndex(e + [EQUALS], AMPERSAND);
    assert e[..|e|] == e && e + [EQUALS] + [] == e + [EQUALS];
    assert (e + [EQUALS])[..|e| + 1] == e + [EQUALS] && (e + [EQUALS])[..|e|] == e;
    assert Decode((e + [EQUALS])[|e| + 1..], MAX_DECODED) == [] by { NothingToDecode(MAX_DECODED); }
  }

  lemma NothingToDecode(room: nat)
    ensures Decode([], room) == []
  {
  }

  lemma {:induction false} NoIndex(s: Bytes, c: Byte)
    requires c !in s
    ensures IndexOf(s, c) == |s|
  {
    if s != [] {
      NoIndex(s[1..], c);
    }
  }

  // ---------- A strict reader ----------

  datatype Option<T> = None | Some(value: T)

  /** Decoding as section 2.1 of RFC 3986 has it: unreserved bytes stand for themselves, anything else must be a triple. */
  function StrictDecode(s: Bytes): Option<Bytes> {
    if s == [] then Some([])
    else if Unreserved(s[0]) then
      match StrictDecode(s[1..]) case Some(d) => Some([s[0]] + d) case None => None
    else if IsTriple(s) then
      match StrictDecode(s[3..]) case Some(d) => Some([HexValue(s[1]) * 16 + HexValue(s[2])] + d) case None => None
    else None
  }

  /** Every part must be a name, an equals sign and a value. */
  function StrictEnter(m: Params, part: Bytes): Option<Params> {
    var eq := IndexOf(part, EQUALS);
    if eq == |part| then None
    else
      match (StrictDecode(part[..eq]), StrictDecode(part[eq + 1..]))
      case (Some(name), Some(value)) => Some(m[name := value])
      case _ => None
  }

  function StrictParse(m: Params, s: Bytes): Option<Params>
    decreases |s|
  {
    if s == [] then Some(m)
    else
      var amp := IndexOf(s, AMPERSAND);
      match StrictEnter(m, s[..amp])
      case None => None
      case Some(next) => if amp < |s| then StrictParse(next, s[amp + 1..]) else Some(next)
  }

  lemma {:induction false} StrictBack(s: Bytes)
    ensures StrictDecode(Encode(s)) == Some(s)
  {
    if s != [] {
      StrictBack(s[1..]);
      var e := Encode(s);
      assert s == [s[0]] + s[1..];
      if Unreserved(s[0]) {
        assert e[1..] == Encode(s[1..]);
      } else {
        HexBack(s[0] / 16);
        HexBack(s[0] % 16);
        assert e[3..] == Encode(s[1..]);
      }
    }
  }

  lemma StrictRowBack(m: Params, r: Row)
    ensures StrictEnter(m, RowText(r)) == Some(m[r.name := r.value])
  {
    hide Encode, StrictDecode, IndexOf, WellEncoded;
    var n, v := Encode(r.name), Encode(r.value);
    EncodeIsWellFormed(r.name);
    NoSeparators(n);
    IndexIsExact(n, EQUALS, v);
    assert RowText(r)[..|n|] == n && RowText(r)[|n| + 1..] == v;
    StrictBack(r.name);
    StrictBack(r.value);
  }

  lemma NoRows()
    ensures MapOf([]) == map[]
  {
  }

  lemma FirstThenRest(m: Params, rows: seq<Row>)
    requires rows != []
    ensures m[rows[0].name := rows[0].value] + MapOf(rows[1..]) == m + MapOf(rows)
  {
    hide MapOf;
    MapOfFirst(rows);
  }

  lemma {:induction false} StrictRowsBack(m: Params, rows: seq<Row>)
    ensures StrictParse(m, QueryText(rows)) == Some(m + MapOf(rows))
    decreases rows
  {
    hide RowText, StrictEnter, IndexOf, Enter, Arrived, MapOf;
    if rows == [] {
      assert MapOf(rows) == map[] by { NoRows(); }
      assert m + map[] == m;
    } else {
      var r, more := rows[0], rows[1..];
      var s := QueryText(rows);
      RowBack(m, r);
      StrictRowBack(m, r);
      IndexIsExact(RowText(r), AMPERSAND, QueryText(more));
      StrictRowsBack(m[r.name := r.value], more);
      FirstThenRest(m, rows);
      if more == [] {
        assert s[..|s|] == s;
      } else {
        assert s[..|RowText(r)|] == RowText(r) && s[|RowText(r)| + 1..] == QueryText(more);
      }
    }
  }

  /** What is sent loses nothing: a strict reader gets every parameter map back, of any bytes and any size. */
  lemma SentIsStandard(rows: seq<Row>)
    ensures StrictParse(map[], QueryText(rows)) == Some(MapOf(rows))
  {
    StrictRowsBack(map[], rows);
    assert map[] + MapOf(rows) == MapOf(rows);
  }

  // ---------- Whole requests ----------

  datatype Receipt = TurnedAway | Accepted(params: Params)

  /** What the receiver makes of a query string in a header block with that many other bytes. */
  function Receive(query: Bytes, others: nat): Receipt {
    if others + |query| > MAX_HEADER then TurnedAway else Accepted(ParseFrom(map[], query))
  }

  lemma {:induction false} EncodeGrows(s: Bytes)
    ensures |s| <= |Encode(s)|
  {
    if s != [] {
      EncodeGrows(s[1..]);
    }
  }

  lemma {:induction false} RowIsShorter(rows: seq<Row>, i: nat)
    requires i < |rows|
    ensures |rows[i].name| <= |QueryText(rows)| && |rows[i].value| <= |QueryText(rows)|
  {
    EncodeGrows(rows[i].name);
    EncodeGrows(rows[i].value);
    if i > 0 {
      RowIsShorter(rows[1..], i - 1);
    }
  }

  predicate ZeroFree(r: Row) {
    0 !in r.name && 0 !in r.value
  }

  /**
   The receiving node gets the same parameters exactly when the header block fits its limit and
   no name or value has a zero byte; the size limit of its decoder is never reached then.
   */
  lemma ParametersArrive(rows: seq<Row>, others: nat)
    requires forall j, k | 0 <= j < k < |rows| :: rows[j].name != rows[k].name
    ensures Receive(QueryText(rows), others) == Accepted(MapOf(rows)) <==>
            others + |QueryText(rows)| <= MAX_HEADER && forall r | r in rows :: ZeroFree(r)
  {
    hide QueryText, ParseFrom, MapOf;
    if others + |QueryText(rows)| <= MAX_HEADER {
      ParametersDecode(rows);
      forall r | r in rows
        ensures CleanRow(r) <==> ZeroFree(r)
      {
        var i :| 0 <= i < |rows| && rows[i] == r;
        RowIsShorter(rows, i);
      }
    }
  }

  // ---------- The code's loops ----------

  method UrlEncode(s: Bytes) returns (out: Bytes)
    ensures out == Encode(s)
  {
    hide EncodeByte;
    out := [];
    for i := 0 to |s|
      invariant out + Encode(s[i..]) == Encode(s)
    {
      assert s[i..][1..] == s[i + 1..];
      assert out + (EncodeByte(s[i]) + Encode(s[i + 1..])) == out + EncodeByte(s[i]) + Encode(s[i + 1..]);
      out := out + EncodeByte(s[i]);
    }
  }

  /** What is still to be written when `i` rows are. */
  function Pending(rows: seq<Row>, i: nat): Bytes
    requires i <= |rows|
  {
    (if 0 < i < |rows| then [AMPERSAND] else []) + QueryText(rows[i..])
  }

  lemma PendingStep(rows: seq<Row>, i: nat)
    requires i < |rows|
    ensures Pending(rows, i) == (if i == 0 then [] else [AMPERSAND]) + RowText(rows[i]) + Pending(rows, i + 1)
  {
    hide RowText;
    assert rows[i..][1..] == rows[i + 1..];
  }

  method BuildQuery(rows: seq<Row>) returns (out: Bytes)
    ensures out == QueryText(rows)
  {
    hide Encode, Pending, QueryText;
    out := [];
    var first := true;
    AllPending(rows);
    for i := 0 to |rows|
      invariant first == (i == 0)
      invariant out + Pending(rows, i) == QueryText(rows)
    {
      PendingStep(rows, i);
      ghost var before := out;
      if !first {
        out := out + [AMPERSAND];
      }
      first := false;
      var n := UrlEncode(rows[i].name);
      var v := UrlEncode(rows[i].value);
      out := out + n;
      out := out + [EQUALS];
      out := out + v;
      assert out == before + ((if i == 0 then [] else [AMPERSAND]) + RowText(rows[i]));
    }
  }

  lemma AllPending(rows: seq<Row>)
    ensures Pending(rows, 0) == QueryText(rows) && Pending(rows, |rows|) == []
  {
    assert rows[0..] == rows;
  }

  lemma DecodeStep(s: Bytes, room: nat)
    requires s != [] && room > 0
    ensures Decode(s, room) == [DecodeByte(s)] + Decode(s[if IsTriple(s) then 3 else 1..], room - 1)
  {
  }

  method UrlDecode(s: Bytes) returns (out: Bytes)
    ensures out == Decode(s, MAX_DECODED)
  {
    hide Decode, HexValue;
    out := [];
    var i := 0;
    assert s[0..] == s;
    while i < |s| && |out| < MAX_DECODED
      invariant i <= |s| && |out| <= MAX_DECODED
      invariant out + Decode(s[i..], MAX_DECODED - |out|) == Decode(s, MAX_DECODED)
    {
      ghost var rest := s[i..];
      DecodeStep(rest, MAX_DECODED - |out|);
      var c, step := s[i], 1;
      if s[i] == PERCENT && i + 2 < |s| && HexValue(s[i + 1]) >= 0 && HexValue(s[i + 2]) >= 0 {
        var v := HexValue(s[i + 1]) * 16 + HexValue(s[i + 2]);
        c, step := if v == 0 then PERCENT else v, 3;
      } else if s[i] == PLUS {
        c := SPACE;
      }
      assert c == DecodeByte(rest) && rest[step..] == s[i + step..];
      ghost var more := Decode(s[i + step..], MAX_DECODED - |out| - 1);
      assert out + ([c] + more) == out + [c] + more;
      out := out + [c];
      i := i + step;
    }
    NothingDecoded(s[i..], MAX_DECODED - |out|);
  }

  lemma NothingDecoded(s: Bytes, room: nat)
    requires s == [] || room == 0
    ensures Decode(s, room) == []
  {
  }

  method ParseQueryParams(s: Bytes) returns (m: Params)
    ensures m == ParseFrom(map[], s)
  {
    hide Decode, IndexOf;
    m := map[];
    var rest := s;
    while rest != []
      invariant ParseFrom(m, rest) == ParseFrom(map[], s)
      decreases |rest|
    {
      var amp := IndexOf(rest, AMPERSAND);
      var part := rest[..amp];
      var eq := IndexOf(part, EQUALS);
      if eq < |part| {
        var name := UrlDecode(part[..eq]);
        var value := UrlDecode(part[eq + 1..]);
        m := m[name := value];
      } else if part != [] {
        var name := UrlDecode(part);
        m := m[name := TRUE];
      }
      rest := if amp < |rest| then rest[amp + 1..] else [];
    }
  }
}
