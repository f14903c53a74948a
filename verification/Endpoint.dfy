/** Addresses of cluster nodes: an optional scheme, a host and an optional port. */
module Endpoint {

  import Json

  datatype Endpoint = Endpoint(host: string, port: int, scheme: string)

  datatype Option<T> = None | Some(value: T)

  datatype Options = Options(defaultPort: int, allowEmptyPort: bool)

  // ---------- Pieces ----------

  predicate IsBlank(c: char) {
    c == ' ' || c == '\t' || c == '\r' || c == '\n'
  }

  predicate Trimmed(s: string) {
    s == "" || (!IsBlank(s[0]) && !IsBlank(s[|s| - 1]))
  }

  /** Without the blanks at both ends. */
  function Trim(s: string): (t: string)
    ensures Trimmed(t)
    decreases |s|
  {
    if s == "" then ""
    else if IsBlank(s[0]) then Trim(s[1..])
    else if IsBlank(s[|s| - 1]) then Trim(s[..|s| - 1])
    else s
  }

  predicate EndsAuthority(c: char) {
    c == '/' || c == '?' || c == '#'
  }

  /** Up to the first slash, question mark or hash. */
  function CutSuffix(s: string): (t: string)
    ensures t <= s && forall i | 0 <= i < |t| :: !EndsAuthority(t[i])
  {
    if s == "" || EndsAuthority(s[0]) then "" else [s[0]] + CutSuffix(s[1..])
  }

  /** The first position of a character, or the length. */
  function IndexOf(s: string, c: char): (i: nat)
    ensures i <= |s| && c !in s[..i] && (i < |s| ==> s[i] == c)
  {
    if s == "" || s[0] == c then 0 else 1 + IndexOf(s[1..], c)
  }

  function LastIndexOf(s: string, c: char): (i: nat)
    ensures i <= |s| && (i < |s| ==> s[i] == c && c !in s[i + 1..]) && (i == |s| ==> c !in s)
  {
    if s == "" then 0
    else if s[|s| - 1] == c then |s| - 1
    else if LastIndexOf(s[..|s| - 1], c) == |s| - 1 then |s| else LastIndexOf(s[..|s| - 1], c)
  }

  function SplitScheme(s: string): (string, string) {
    if "http://" <= s then ("http", s[7..]) else if "https://" <= s then ("https", s[8..]) else ("", s)
  }

  predicate AllDigits(s: string) {
    s != "" && forall i | 0 <= i < |s| :: '0' <= s[i] <= '9'
  }

  /** `std::from_chars` on the whole text: an optional minus and digits, within `int`. */
  function FromChars(s: string): Option<int> {
    var negative := s != "" && s[0] == '-';
    var digits := if negative then s[1..] else s;
    if !AllDigits(digits) then None
    else
      var n := if negative then -Json.Decimal(digits) else Json.Decimal(digits);
      if -0x8000_0000 <= n <= 0x7FFF_FFFF then Some(n) else None
  }

  /** The text after the colon. */
  function ReadPort(text: string, o: Options): Option<int> {
    var t := Trim(text);
    if t == "" then (if o.allowEmptyPort then Some(o.defaultPort) else None) else FromChars(t)
  }

  function Bracketed(node: string, o: Options): Option<(string, int)>
    requires node != "" && node[0] == '['
  {
    var close := IndexOf(node, ']');
    if close == |node| then None
    else
      var rest := Trim(node[close + 1..]);
      if rest == "" then Some((node[1..close], o.defaultPort))
      else if rest[0] != ':' then None
      else
        match ReadPort(rest[1..], o)
        case None => None
        case Some(p) => Some((node[1..close], p))
  }

  function Unbracketed(node: string, o: Options): Option<(string, int)> {
    var colon := LastIndexOf(node, ':');
    if colon == |node| || IndexOf(node, ':') != colon then Some((node, o.defaultPort))
    else
      match ReadPort(node[colon + 1..], o)
      case None => None
      case Some(p) => Some((node[..colon], p))
  }

  function Accept(parts: Option<(string, int)>, scheme: string): Option<Endpoint> {
    match parts
    case None => None
    case Some(hp) =>
      var host := Trim(hp.0);
      if host == "" || hp.1 <= 0 || hp.1 > 65535 then None else Some(Endpoint(host, hp.1, scheme))
  }

  function ParseTrimmed(text: string, o: Options): Option<Endpoint> {
    var s := SplitScheme(text);
    var node := CutSuffix(s.1);
    Accept(if node != "" && node[0] == '[' then Bracketed(node, o) else Unbracketed(node, o), s.0)
  }

  function Parse(raw: string, o: Options): (r: Option<Endpoint>)
    ensures r.Some? ==> r.value.host != "" && Trimmed(r.value.host) && 1 <= r.value.port <= 65535
  {
    if Trim(raw) == "" then None else ParseTrimmed(Trim(raw), o)
  }

  // ---------- Reading what is written ----------

  predicate IsScheme(s: string) {
    s == "" || s == "http" || s == "https"
  }

  function Prefix(scheme: string): string {
    if scheme == "" then "" else scheme + "://"
  }

  predicate IsSuffix(s: string) {
    s == "" || EndsAuthority(s[0])
  }

  /** No slash, question mark or hash. */
  predicate OneAuthority(s: string) {
    forall i | 0 <= i < |s| :: !EndsAuthority(s[i])
  }

  lemma {:induction false} CutIsExact(s: string, suffix: string)
    requires OneAuthority(s) && IsSuffix(suffix)
    ensures CutSuffix(s + suffix) == s
  {
    if s != "" {
      assert (s + suffix)[1..] == s[1..] + suffix;
      CutIsExact(s[1..], suffix);
    } else {
      assert s + suffix == suffix;
    }
  }

  /** Only a bare scheme name with its colon could be taken for the start of an address. */
  lemma TakenForScheme(scheme: string, s: string, suffix: string)
    requires OneAuthority(s) && IsSuffix(suffix) && OneAuthority(scheme)
    ensures scheme + "://" <= s + suffix ==> s == scheme + ":"
  {
    hide CutSuffix;
    var text := s + suffix;
    if scheme + "://" <= text {
      var bare, rest := scheme + ":", text[|scheme| + 1..];
      assert (scheme + "://")[|scheme| + 1] == '/' && rest[0] == '/';
      assert text == bare + rest;
      CutIsExact(bare, rest);
      CutIsExact(s, suffix);
    }
  }

  lemma SchemeIsExact(scheme: string, s: string, suffix: string)
    requires IsScheme(scheme) && OneAuthority(s) && IsSuffix(suffix)
    requires s != "http:" && s != "https:"
    ensures SplitScheme(Prefix(scheme) + s + suffix) == (scheme, s + suffix)
  {
    hide SplitScheme;
    assert Prefix(scheme) + s + suffix == Prefix(scheme) + (s + suffix);
    NoScheme(s, suffix);
    SplitBack(scheme, s + suffix);
  }

  lemma SplitBack(scheme: string, rest: string)
    requires IsScheme(scheme)
    requires scheme == "" ==> !("http://" <= rest) && !("https://" <= rest)
    ensures SplitScheme(Prefix(scheme) + rest) == (scheme, rest)
  {
    if scheme == "" {
      assert Prefix(scheme) + rest == rest;
    } else if scheme == "http" {
      var text := "http://" + rest;
      assert "http://" <= text && text[7..] == rest;
    } else {
      var text := "https://" + rest;
      assert Prefix(scheme) + rest == text;
      assert text[4] == 's' && "http://"[4] == ':' && !("http://" <= text);
      assert "https://" <= text && text[8..] == rest;
    }
  }

  lemma NoScheme(s: string, suffix: string)
    requires OneAuthority(s) && IsSuffix(suffix) && s != "http:" && s != "https:"
    ensures !("http://" <= s + suffix) && !("https://" <= s + suffix)
  {
    TakenForScheme("http", s, suffix);
    TakenForScheme("https", s, suffix);
    assert "http" + "://" == "http://" && "https" + "://" == "https://";
    assert "http" + ":" == "http:" && "https" + ":" == "https:";
  }

  // ---------- Round trips ----------

  lemma {:induction false} TrimKeeps(s: string)
    requires Trimmed(s)
    ensures Trim(s) == s
  {
  }

  lemma PortBack(port: int, o: Options)
    requires 1 <= port <= 65535
    ensures ReadPort(Json.Digits(port), o) == Some(port)
  {
    var d := Json.Digits(port);
    assert AllDigits(d);
    assert d[0] != '-' && !IsBlank(d[0]) && !IsBlank(d[|d| - 1]);
    TrimKeeps(d);
    Json.DigitsBack(port);
  }

  lemma {:induction false} IndexIsExact(s: string, c: char, t: string)
    requires c !in s
    ensures IndexOf(s + [c] + t, c) == |s|
  {
    if s != "" {
      assert (s + [c] + t)[1..] == s[1..] + [c] + t;
      IndexIsExact(s[1..], c, t);
    }
  }

  lemma {:induction false} LastIsExact(s: string, c: char, t: string)
    requires c !in t
    ensures LastIndexOf(s + [c] + t, c) == |s|
  {
    var all := s + [c] + t;
    if t != "" {
      assert all[|all| - 1] == t[|t| - 1] != c;
      assert all[..|all| - 1] == s + [c] + t[..|t| - 1];
      LastIsExact(s, c, t[..|t| - 1]);
    }
  }

  lemma DigitsHaveNoColon(port: int)
    requires 1 <= port <= 65535
    ensures ':' !in Json.Digits(port) && OneAuthority(Json.Digits(port))
  {
  }

  lemma UnbracketedBack(host: string, port: int, o: Options)
    requires ':' !in host && 1 <= port <= 65535
    ensures Unbracketed(host + ":" + Json.Digits(port), o) == Some((host, port))
  {
    hide Json.Digits, ReadPort, IndexOf, LastIndexOf;
    var d := Json.Digits(port);
    var node := host + ":" + d;
    DigitsHaveNoColon(port);
    IndexIsExact(host, ':', d);
    LastIsExact(host, ':', d);
    assert node[..|host|] == host && node[|host| + 1..] == d;
    PortBack(port, o);
  }

  lemma UnbracketedIsOne(host: string, port: int)
    requires OneAuthority(host) && 1 <= port <= 65535
    ensures var node := host + ":" + Json.Digits(port); OneAuthority(node) && node != "http:" && node != "https:"
  {
    hide Json.Digits;
    DigitsHaveNoColon(port);
    var d := Json.Digits(port);
    var node := host + ":" + d;
    assert node[|node| - 1] == d[|d| - 1];
    assert d[|d| - 1] in d;
  }

  /** A host without colons and its port. */
  lemma HostPortBack(raw: string, host: string, port: int, scheme: string, suffix: string, o: Options)
    requires host != "" && Trimmed(host) && OneAuthority(host) && ':' !in host && host[0] != '['
    requires 1 <= port <= 65535 && IsScheme(scheme) && IsSuffix(suffix)
    requires Trim(raw) == Prefix(scheme) + (host + ":" + Json.Digits(port)) + suffix
    ensures Parse(raw, o) == Some(Endpoint(host, port, scheme))
  {
    hide Trim, Json.Digits, SplitScheme, CutSuffix, Unbracketed;
    var node := host + ":" + Json.Digits(port);
    UnbracketedIsOne(host, port);
    assert node[0] == host[0];
    SchemeIsExact(scheme, node, suffix);
    CutIsExact(node, suffix);
    UnbracketedBack(host, port, o);
    TrimKeeps(host);
  }

  lemma BracketedBack(host: string, port: int, o: Options)
    requires ']' !in host && 1 <= port <= 65535
    ensures Bracketed("[" + host + "]" + (":" + Json.Digits(port)), o) == Some((host, port))
  {
    hide Trim, Json.Digits, FromChars, ReadPort, IndexOf;
    var d := Json.Digits(port);
    var colon := ":" + d;
    var node := "[" + host + "]" + colon;
    IndexIsExact("[" + host, ']', colon);
    assert node[1..|host| + 1] == host && node[|host| + 2..] == colon;
    assert '0' <= d[|d| - 1] <= '9' && colon[|colon| - 1] == d[|d| - 1];
    TrimKeeps(colon);
    assert colon[1..] == d;
    PortBack(port, o);
  }

  lemma BracketedIsOne(host: string, port: int)
    requires OneAuthority(host) && 1 <= port <= 65535
    ensures OneAuthority("[" + host + "]" + (":" + Json.Digits(port)))
  {
    DigitsHaveNoColon(port);
  }

  /** Any host without a closing bracket, in brackets. */
  lemma BracketBack(raw: string, host: string, port: int, scheme: string, suffix: string, o: Options)
    requires host != "" && Trimmed(host) && OneAuthority(host) && ']' !in host
    requires 1 <= port <= 65535 && IsScheme(scheme) && IsSuffix(suffix)
    requires Trim(raw) == Prefix(scheme) + ("[" + host + "]" + (":" + Json.Digits(port))) + suffix
    ensures Parse(raw, o) == Some(Endpoint(host, port, scheme))
  {
    hide Trim, Json.Digits, SplitScheme, CutSuffix, Bracketed;
    var node := "[" + host + "]" + (":" + Json.Digits(port));
    BracketedIsOne(host, port);
    assert node[0] == '[';
    SchemeIsExact(scheme, node, suffix);
    CutIsExact(node, suffix);
    BracketedBack(host, port, o);
    TrimKeeps(host);
  }

  /** A host with several colons and nothing else gets the default port. */
  lemma BareHostBack(raw: string, host: string, scheme: string, suffix: string, o: Options)
    requires Trimmed(host) && OneAuthority(host) && IndexOf(host, ':') < LastIndexOf(host, ':') < |host| && host[0] != '['
    requires 1 <= o.defaultPort <= 65535 && IsScheme(scheme) && IsSuffix(suffix)
    requires Trim(raw) == Prefix(scheme) + host + suffix
    ensures Parse(raw, o) == Some(Endpoint(host, o.defaultPort, scheme))
  {
    hide Trim, SplitScheme, CutSuffix;
    SchemeIsExact(scheme, host, suffix);
    CutIsExact(host, suffix);
    TrimKeeps(host);
  }

  lemma {:induction false} TrimKeepsInside(s: string)
    ensures forall c | c in Trim(s) :: c in s
    decreases |s|
  {
    if s != "" {
      if IsBlank(s[0]) {
        TrimKeepsInside(s[1..]);
      } else if IsBlank(s[|s| - 1]) {
        TrimKeepsInside(s[..|s| - 1]);
      }
    }
  }

  lemma AcceptedHost(raw: string, o: Options)
    requires Parse(raw, o).Some?
    ensures OneAuthority(Parse(raw, o).value.host) && IsScheme(Parse(raw, o).value.scheme)
  {
    hide Trim, ReadPort, CutSuffix, IndexOf, LastIndexOf;
    var s := SplitScheme(Trim(raw));
    var node := CutSuffix(s.1);
    var parts := if node != "" && node[0] == '[' then Bracketed(node, o) else Unbracketed(node, o);
    assert forall c | c in node :: !EndsAuthority(c);
    assert forall c | c in parts.value.0 :: c in node;
    TrimKeepsInside(parts.value.0);
  }

  /** A host that came without brackets and starts with one was set off by a blank. */
  function Pad(host: string): string {
    if host != "" && host[0] == '[' then " " else ""
  }

  /** A text for every accepted address: brackets where they can be used, otherwise the form it must have had. */
  function Print(e: Endpoint): string
    requires e.port >= 0
  {
    Prefix(e.scheme) +
    if ']' !in e.host then "[" + e.host + "]" + (":" + Json.Digits(e.port))
    else if ':' !in e.host then Pad(e.host) + e.host + ":" + Json.Digits(e.port)
    else Pad(e.host) + e.host
  }

  ghost predicate TwoColons(s: string) {
    exists i, j :: 0 <= i < j < |s| && s[i] == ':' && s[j] == ':'
  }

  lemma {:induction false} FirstAndLast(s: string, c: char, k: nat)
    requires k < |s| && s[k] == c
    ensures IndexOf(s, c) <= k <= LastIndexOf(s, c) < |s|
  {
    if k > 0 {
      FirstAndLast(s[1..], c, k - 1);
    }
    if k < |s| - 1 {
      FirstAndLast(s[..|s| - 1], c, k);
    }
  }

  lemma ColonsAreTwo(s: string)
    ensures TwoColons(s) <==> IndexOf(s, ':') < LastIndexOf(s, ':') < |s|
  {
    var i, j := IndexOf(s, ':'), LastIndexOf(s, ':');
    if i < j < |s| {
      assert s[i] == ':' && s[j] == ':';
    }
    if k, l :| 0 <= k < l < |s| && s[k] == ':' && s[l] == ':' {
      FirstAndLast(s, ':', k);
      FirstAndLast(s, ':', l);
    }
  }

  lemma {:induction false} TrimKeepsColons(s: string)
    ensures TwoColons(s) <==> TwoColons(Trim(s))
    decreases |s|
  {
    if s != "" {
      if IsBlank(s[0]) {
        TrimKeepsColons(s[1..]);
        if i, j :| 0 <= i < j < |s| && s[i] == ':' && s[j] == ':' {
          assert s[1..][i - 1] == ':' && s[1..][j - 1] == ':';
        }
        if i, j :| 0 <= i < j < |s| - 1 && s[1..][i] == ':' && s[1..][j] == ':' {
          assert s[i + 1] == ':' && s[j + 1] == ':';
        }
      } else if IsBlank(s[|s| - 1]) {
        var t := s[..|s| - 1];
        TrimKeepsColons(t);
        if i, j :| 0 <= i < j < |s| && s[i] == ':' && s[j] == ':' {
          assert t[i] == ':' && t[j] == ':';
        }
      }
    }
  }

  lemma {:induction false} TrimFirst(s: string)
    requires s != "" && !IsBlank(s[0])
    ensures Trim(s) != "" && Trim(s)[0] == s[0]
    decreases |s|
  {
    if IsBlank(s[|s| - 1]) {
      TrimFirst(s[..|s| - 1]);
    }
  }

  lemma TrimPad(host: string)
    requires Trimmed(host)
    ensures Trim(Pad(host) + host) == host
  {
    TrimKeeps(host);
    if Pad(host) != "" {
      assert (Pad(host) + host)[1..] == host;
    } else {
      assert Pad(host) + host == host;
    }
  }

  /** Where the host of an accepted address comes from, if it has a closing bracket. */
  lemma AcceptedShape(raw: string, o: Options)
    requires Parse(raw, o).Some? && ']' in Parse(raw, o).value.host
    ensures var e := Parse(raw, o).value;
      && (e.host[0] == '[' ==> e.scheme != "")
      && (':' in e.host ==> TwoColons(e.host) && e.port == o.defaultPort)
  {
    hide Trim, ReadPort, CutSuffix, IndexOf, LastIndexOf, TwoColons;
    var s := SplitScheme(Trim(raw));
    var node := CutSuffix(s.1);
    if node != "" && node[0] == '[' {
      BracketedHost(node, o);
      TrimKeepsInside(Bracketed(node, o).value.0);
    } else {
      UnbracketedHost(node, o);
      var x := Unbracketed(node, o).value.0;
      TrimKeepsInside(x);
      TrimKeepsColons(x);
      TrimEmpty();
      if !IsBlank(x[0]) {
        TrimFirst(x);
      }
    }
  }

  lemma TrimEmpty()
    ensures Trim("") == ""
  {
  }

  lemma BracketedHost(node: string, o: Options)
    requires node != "" && node[0] == '[' && Bracketed(node, o).Some?
    ensures ']' !in Bracketed(node, o).value.0
  {
    hide Trim, ReadPort, IndexOf;
    var close := IndexOf(node, ']');
    assert forall i | 1 <= i < close :: node[i] == node[..close][i];
  }

  lemma UnbracketedHost(node: string, o: Options)
    requires Unbracketed(node, o).Some?
    ensures var hp := Unbracketed(node, o).value;
      hp.0 <= node && (':' in hp.0 ==> TwoColons(hp.0) && hp.1 == o.defaultPort)
  {
    hide ReadPort, IndexOf, LastIndexOf, TwoColons;
    ColonsAreTwo(node);
    var colon := LastIndexOf(node, ':');
    if colon < |node| {
      FirstAndLast(node, ':', colon);
    }
  }

  lemma PlainFormBack(e: Endpoint, node: string, o: Options)
    requires e.host != "" && Trimmed(e.host) && 1 <= e.port <= 65535 && IsScheme(e.scheme)
    requires OneAuthority(node) && node != "" && node[0] != '[' && node != "http:" && node != "https:"
    requires Trimmed(Prefix(e.scheme) + node) && Unbracketed(node, o) == Some((Pad(e.host) + e.host, e.port))
    ensures Parse(Prefix(e.scheme) + node, o) == Some(e)
  {
    hide Trim, SplitScheme, CutSuffix, Unbracketed, Pad;
    var text := Prefix(e.scheme) + node;
    TrimKeeps(text);
    assert text + "" == text && node + "" == node;
    SchemeIsExact(e.scheme, node, "");
    CutIsExact(node, "");
    TrimPad(e.host);
  }

  /** Whatever was accepted can be printed and is read back as it was accepted. */
  lemma AcceptedIsReadBack(raw: string, o: Options)
    requires Parse(raw, o).Some?
    ensures Parse(Print(Parse(raw, o).value), o) == Parse(raw, o)
  {
    hide Trim, ParseTrimmed, Json.Digits, Unbracketed, TwoColons, IndexOf, LastIndexOf;
    AcceptedHost(raw, o);
    var e := Parse(raw, o).value;
    var d := Json.Digits(e.port);
    assert '0' <= d[|d| - 1] <= '9';
    if ']' !in e.host {
      var text := Print(e);
      assert text[|text| - 1] == d[|d| - 1] && (text[0] == 'h' || text[0] == '[');
      TrimKeeps(text);
      assert text + "" == text;
      BracketBack(text, e.host, e.port, e.scheme, "", o);
    } else {
      AcceptedShape(raw, o);
      var padded := Pad(e.host) + e.host;
      if ':' !in e.host {
        var node := padded + ":" + d;
        UnbracketedBack(padded, e.port, o);
        UnbracketedIsOne(padded, e.port);
        assert Print(e) == Prefix(e.scheme) + node;
        assert node[|node| - 1] == d[|d| - 1];
        PlainFormBack(e, node, o);
      } else {
        assert Print(e) == Prefix(e.scheme) + padded;
        PaddedColons(e.host, o);
        assert ']' in padded && padded[|padded| - 1] == e.host[|e.host| - 1];
        PlainFormBack(e, padded, o);
      }
    }
  }

  lemma PaddedColons(host: string, o: Options)
    requires TwoColons(host)
    ensures Unbracketed(Pad(host) + host, o) == Some((Pad(host) + host, o.defaultPort))
  {
    hide IndexOf, LastIndexOf, ReadPort;
    var padded := Pad(host) + host;
    var i, j :| 0 <= i < j < |host| && host[i] == ':' && host[j] == ':';
    var n := |Pad(host)|;
    assert padded[n + i] == ':' && padded[n + j] == ':';
    ColonsAreTwo(padded);
  }

  // ---------- What is accepted, exactly ----------

  predicate Blank(s: string) {
    forall i | 0 <= i < |s| :: IsBlank(s[i])
  }

  function Zeros(n: nat): string {
    seq(n, _ => '0')
  }

  lemma {:induction false} TrimBack(a: string, t: string, b: string)
    requires Blank(a) && Blank(b) && Trimmed(t)
    ensures Trim(a + t + b) == t
    decreases |a| + |b|
  {
    var s := a + t + b;
    if a != "" {
      assert s[0] == a[0] && s[1..] == a[1..] + t + b;
      TrimBack(a[1..], t, b);
    } else if b != "" {
      assert s == t + b && s[|s| - 1] == b[|b| - 1] && s[..|s| - 1] == a + t + b[..|b| - 1];
      TrimBack(a, t, b[..|b| - 1]);
      if t == "" {
        assert s == b && IsBlank(s[0]) && s[1..] == a + t + b[1..];
        TrimBack(a, t, b[1..]);
      }
    } else {
      assert s == t;
    }
  }

  lemma {:induction false} TrimParts(s: string) returns (a: string, b: string)
    ensures s == a + Trim(s) + b && Blank(a) && Blank(b)
    decreases |s|
  {
    if s != "" && IsBlank(s[0]) {
      a, b := TrimParts(s[1..]);
      a := [s[0]] + a;
    } else if s != "" && IsBlank(s[|s| - 1]) {
      a, b := TrimParts(s[..|s| - 1]);
      b := b + [s[|s| - 1]];
    } else {
      a, b := "", "";
    }
  }

  /** Trimming removes blanks at both ends, all of them and nothing else. */
  lemma TrimIsExact(s: string, t: string)
    ensures Trim(s) == t <==> Trimmed(t) && exists a, b :: s == a + t + b && Blank(a) && Blank(b)
  {
    hide Trim, Blank;
    var a, b := TrimParts(s);
    if c, d :| s == c + t + d && Blank(c) && Blank(d) && Trimmed(t) {
      TrimBack(c, t, d);
    }
  }

  lemma {:induction false} DigitsShape(t: string) returns (z: nat)
    requires forall i | 0 <= i < |t| :: '0' <= t[i] <= '9'
    ensures Json.Decimal(t) >= 0
    ensures if Json.Decimal(t) == 0 then t == Zeros(|t|) else t == Zeros(z) + Json.Digits(Json.Decimal(t))
  {
    z := 0;
    if t != "" {
      var init := t[..|t| - 1];
      z := DigitsShape(init);
      var d := t[|t| - 1] as int - '0' as int;
      assert t == init + [t[|t| - 1]] && Json.HEX[d] == t[|t| - 1] by { Json.HexBack(d); }
      if Json.Decimal(init) == 0 {
        z := |init|;
        assert d == 0 ==> t == Zeros(|t|);
      } else {
        var n := Json.Decimal(t);
        assert n / 10 == Json.Decimal(init) && n % 10 == d;
        assert t == Zeros(z) + (Json.Digits(n / 10) + [Json.HEX[n % 10]]);
      }
    }
  }

  lemma {:induction false} ZerosDoNotCount(z: nat, s: string)
    ensures Json.Decimal(Zeros(z) + s) == Json.Decimal(s)
    decreases |s|, z
  {
    var t := Zeros(z) + s;
    if s != "" {
      assert t[..|t| - 1] == Zeros(z) + s[..|s| - 1];
      ZerosDoNotCount(z, s[..|s| - 1]);
    } else if z > 0 {
      assert t[..|t| - 1] == Zeros(z - 1) + s;
      ZerosDoNotCount(z - 1, s);
    } else {
      assert t == s;
    }
  }

  /** A port is its decimal digits, perhaps with zeros in front. */
  lemma PortTextIsExact(t: string, p: int)
    requires 1 <= p <= 65535
    ensures FromChars(t) == Some(p) <==> exists z: nat :: t == Zeros(z) + Json.Digits(p)
  {
    hide Json.Digits, Json.Decimal;
    if FromChars(t) == Some(p) {
      if t[0] == '-' {
        var _ := DigitsShape(t[1..]);
      } else {
        var z := DigitsShape(t);
      }
    }
    if z: nat :| t == Zeros(z) + Json.Digits(p) {
      var d := Json.Digits(p);
      ZerosDoNotCount(z, d);
      Json.DigitsBack(p);
      assert t[0] == if z > 0 then '0' else d[0];
    }
  }

  /** What may stand behind the colon. */
  ghost predicate PortSaid(text: string, o: Options, p: int)
    requires p >= 0
  {
    || (Blank(text) && o.allowEmptyPort && p == o.defaultPort)
    || (exists a, b, z: nat :: text == a + (Zeros(z) + Json.Digits(p)) + b && Blank(a) && Blank(b))
  }

  lemma BlankIsEmpty(s: string)
    ensures Blank(s) <==> Trim(s) == ""
  {
    hide Trim;
    var a, b := TrimParts(s);
    if Blank(s) {
      assert s == s + "" + "";
      TrimBack(s, "", "");
    }
  }

  lemma PortIsExact(text: string, o: Options, p: int)
    requires 1 <= p <= 65535
    ensures ReadPort(text, o) == Some(p) <==> PortSaid(text, o, p)
  {
    hide Trim, FromChars, Json.Digits;
    BlankIsEmpty(text);
    var a, b := TrimParts(text);
    PortTextIsExact(Trim(text), p);
    if c, d, z: nat :| text == c + (Zeros(z) + Json.Digits(p)) + d && Blank(c) && Blank(d) {
      PortIsTrimmed(z, p);
      TrimBack(c, Zeros(z) + Json.Digits(p), d);
    }
  }

  lemma PortIsTrimmed(z: nat, p: nat)
    ensures Trimmed(Zeros(z) + Json.Digits(p))
  {
    hide Json.Digits;
    var d := Json.Digits(p);
    var t := Zeros(z) + d;
    assert t[|t| - 1] == d[|d| - 1] && t[0] == if z > 0 then '0' else d[0];
  }

  /** Which host, as it stands there, and which port a node's address gives. */
  ghost predicate Says(node: string, o: Options, host: string, p: int)
    requires p >= 0
  {
    if node != "" && node[0] == '[' then
      exists rest :: node == "[" + host + "]" + rest && ']' !in host && AfterBracket(rest, o, p)
    else
      || (host == node && p == o.defaultPort && !exists h, t :: node == h + ":" + t && ':' !in h && ':' !in t)
      || (exists t :: node == host + ":" + t && ':' !in host && ':' !in t && PortSaid(t, o, p))
  }

  /** Nothing, or a colon and a port. */
  ghost predicate AfterBracket(rest: string, o: Options, p: int)
    requires p >= 0
  {
    || (Blank(rest) && p == o.defaultPort)
    || (exists a, t :: rest == a + ":" + t && Blank(a) && PortSaid(t, o, p))
  }

  lemma AfterColon(a: string, t: string)
    requires Blank(a)
    ensures var r := Trim(a + ":" + t); r != "" && r[0] == ':' && Trim(r[1..]) == Trim(t)
  {
    hide Trim;
    var x, y := TrimParts(t);
    var core := ":" + (if Trim(t) == "" then "" else x + Trim(t));
    var tail := if Trim(t) == "" then t else y;
    BlankIsEmpty(t);
    assert a + ":" + t == a + core + tail;
    TrimBack(a, core, tail);
    assert core[1..] == if Trim(t) == "" then "" else x + Trim(t) + "";
    if Trim(t) == "" {
      TrimEmpty();
    } else {
      TrimBack(x, Trim(t), "");
    }
  }

  lemma RestIsExact(rest: string, o: Options, p: int)
    requires 1 <= p <= 65535
    ensures AfterBracket(rest, o, p) <==>
      var r := Trim(rest);
      if r == "" then p == o.defaultPort else r[0] == ':' && ReadPort(r[1..], o) == Some(p)
  {
    hide Trim, FromChars, PortSaid;
    BlankIsEmpty(rest);
    var r := Trim(rest);
    if a, t :| rest == a + ":" + t && Blank(a) && PortSaid(t, o, p) {
      AfterColon(a, t);
      PortIsExact(t, o, p);
    }
    if r != "" && r[0] == ':' {
      var a, b := TrimParts(rest);
      var t := r[1..] + b;
      assert rest == a + ":" + t;
      AfterColon(a, t);
      PortIsExact(t, o, p);
    }
  }

  lemma BracketedIsExact(node: string, o: Options, host: string, p: int)
    requires node != "" && node[0] == '[' && 1 <= p <= 65535
    ensures Bracketed(node, o) == Some((host, p)) <==> Says(node, o, host, p)
  {
    hide Trim, ReadPort, AfterBracket;
    var close := IndexOf(node, ']');
    if rest :| node == "[" + host + "]" + rest && ']' !in host && AfterBracket(rest, o, p) {
      IndexIsExact("[" + host, ']', rest);
      assert node[1..close] == host && node[close + 1..] == rest;
      RestIsExact(rest, o, p);
    }
    if Bracketed(node, o) == Some((host, p)) {
      var rest := node[close + 1..];
      BracketedHost(node, o);
      assert node == "[" + host + "]" + rest;
      RestIsExact(rest, o, p);
    }
  }

  lemma OneColonSplits(h: string, t: string)
    requires ':' !in h && ':' !in t
    ensures var node := h + ":" + t;
      IndexOf(node, ':') == LastIndexOf(node, ':') == |h| && node[..|h|] == h && node[|h| + 1..] == t
  {
    hide IndexOf, LastIndexOf;
    IndexIsExact(h, ':', t);
    LastIsExact(h, ':', t);
  }

  lemma SplitAtColon(node: string)
    requires IndexOf(node, ':') == LastIndexOf(node, ':') < |node|
    ensures var i := IndexOf(node, ':');
      node == node[..i] + ":" + node[i + 1..] && ':' !in node[..i] && ':' !in node[i + 1..]
  {
    hide IndexOf, LastIndexOf;
    var i := IndexOf(node, ':');
    assert node[i] == ':' && ':' !in node[..i] && ':' !in node[i + 1..];
    CutAt(node, i);
  }

  lemma CutAt(s: string, i: nat)
    requires i < |s| && s[i] == ':'
    ensures s == s[..i] + ":" + s[i + 1..]
  {
  }

  lemma UnbracketedIsExact(node: string, o: Options, host: string, p: int)
    requires (node == "" || node[0] != '[') && 1 <= p <= 65535
    ensures Unbracketed(node, o) == Some((host, p)) <==> Says(node, o, host, p)
  {
    hide IndexOf, LastIndexOf, ReadPort, PortSaid;
    var i := IndexOf(node, ':');
    var one := i == LastIndexOf(node, ':') < |node|;
    forall h, t
      ensures node == h + ":" + t && ':' !in h && ':' !in t <==> one && h == node[..i] && t == node[i + 1..]
    {
      if node == h + ":" + t && ':' !in h && ':' !in t {
        OneColonSplits(h, t);
      }
      if one {
        SplitAtColon(node);
      }
    }
    if one {
      assert node == node[..i] + ":" + node[i + 1..];
      PortIsExact(node[i + 1..], o, p);
    }
  }

  /**
   The whole grammar: an address is accepted, with this host, port and scheme, exactly when it is
   written as scheme, node and suffix, and the node says that host and port.
   */
  lemma ParseIsExact(raw: string, o: Options, e: Endpoint)
    requires e.port >= 0
    ensures Parse(raw, o) == Some(e) <==>
      && e.host != "" && 1 <= e.port <= 65535 && IsScheme(e.scheme)
      && (e.scheme == "" ==> !("http://" <= Trim(raw)) && !("https://" <= Trim(raw)))
      && exists node, suffix, host ::
           && Trim(raw) == Prefix(e.scheme) + node + suffix && OneAuthority(node) && IsSuffix(suffix)
           && Says(node, o, host, e.port) && Trim(host) == e.host
  {
    hide Trim, Says, Bracketed, Unbracketed, CutSuffix, SplitScheme, OneAuthority, IsSuffix;
    var text := Trim(raw);
    if Parse(raw, o) == Some(e) {
      AcceptedHost(raw, o);
      var s := SplitScheme(text);
      var node := CutSuffix(s.1);
      var parts := if node != "" && node[0] == '[' then Bracketed(node, o) else Unbracketed(node, o);
      SchemeSplit(text);
      var suffix := CutParts(s.1);
      NodeIsExact(node, o, parts.value.0, e.port);
      assert text == Prefix(e.scheme) + node + suffix;
    }
    if node, suffix, host :|
      && text == Prefix(e.scheme) + node + suffix && OneAuthority(node) && IsSuffix(suffix)
      && e.host != "" && 1 <= e.port <= 65535 && IsScheme(e.scheme) && Says(node, o, host, e.port) && Trim(host) == e.host
      && (e.scheme == "" ==> !("http://" <= text) && !("https://" <= text))
    {
      assert text == Prefix(e.scheme) + (node + suffix);
      SplitBack(e.scheme, node + suffix);
      CutIsExact(node, suffix);
      NodeIsExact(node, o, host, e.port);
      TrimmedText(raw, e, node, suffix, o, host);
    }
  }

  lemma NodeIsExact(node: string, o: Options, host: string, p: int)
    requires 1 <= p <= 65535
    ensures (if node != "" && node[0] == '[' then Bracketed(node, o) else Unbracketed(node, o)) == Some((host, p)) <==>
      Says(node, o, host, p)
  {
    hide Bracketed, Unbracketed, Says;
    if node != "" && node[0] == '[' {
      BracketedIsExact(node, o, host, p);
    } else {
      UnbracketedIsExact(node, o, host, p);
    }
  }

  lemma SchemeSplit(text: string)
    ensures var s := SplitScheme(text);
      text == Prefix(s.0) + s.1 && IsScheme(s.0) && (s.0 == "" ==> !("http://" <= text) && !("https://" <= text))
  {
    assert "http" + "://" == "http://" && "https" + "://" == "https://";
    if "http://" <= text {
      assert text == text[..7] + text[7..];
    } else if "https://" <= text {
      assert text == text[..8] + text[8..];
    }
  }

  lemma {:induction false} CutParts(s: string) returns (suffix: string)
    ensures s == CutSuffix(s) + suffix && IsSuffix(suffix) && OneAuthority(CutSuffix(s))
  {
    if s == "" || EndsAuthority(s[0]) {
      suffix := s;
      assert CutSuffix(s) == "" && s == "" + suffix;
    } else {
      suffix := CutParts(s[1..]);
      assert s == [s[0]] + s[1..];
    }
  }

  /** An address that gives a host is not empty. */
  lemma TrimmedText(raw: string, e: Endpoint, node: string, suffix: string, o: Options, host: string)
    requires e.host != "" && 1 <= e.port && Trim(raw) == Prefix(e.scheme) + node + suffix
    requires Says(node, o, host, e.port) && Trim(host) == e.host
    ensures Trim(raw) != ""
  {
    hide Trim;
    TrimEmpty();
    assert host != "" && node != "";
  }

  // ---------- The code ----------

  /** Host and port as written; the port is the default one unless given. */
  method SplitNode(node: string, o: Options) returns (r: Option<(string, int)>)
    ensures r == if node != "" && node[0] == '[' then Bracketed(node, o) else Unbracketed(node, o)
  {
    hide Trim, FromChars, IndexOf, LastIndexOf, ReadPort;
    var host, port := node, o.defaultPort;
    var colon := LastIndexOf(node, ':');
    if node != "" && node[0] == '[' {
      var close := IndexOf(node, ']');
      if close == |node| {
        return None;
      }
      host := node[1..close];
      var rest := Trim(node[close + 1..]);
      if rest != "" {
        if rest[0] != ':' {
          return None;
        }
        var read := ReadPort(rest[1..], o);
        if read.None? {
          return None;
        }
        port := read.value;
      }
    } else if colon < |node| && IndexOf(node, ':') == colon {
      host := node[..colon];
      var read := ReadPort(node[colon + 1..], o);
      if read.None? {
        return None;
      }
      port := read.value;
    }
    return Some((host, port));
  }

  /** The variables that a caller passes by reference. */
  class Target {
    var host: string
    var port: int
    var scheme: string

    method ParseSharedNodeEndpoint(raw: string, o: Options) returns (ok: bool)
      modifies this
      ensures ok == Parse(raw, o).Some?
      ensures ok ==> Endpoint(host, port, scheme) == Parse(raw, o).value
      ensures !ok ==> host == old(host) && port == old(port) && scheme == old(scheme)
    {
      hide Trim, CutSuffix, Bracketed, Unbracketed;
      var node := Trim(raw);
      if node == "" {
        return false;
      }
      var prefix := "";
      if "http://" <= node {
        prefix, node := "http", node[7..];
      } else if "https://" <= node {
        prefix, node := "https", node[8..];
      }
      node := CutSuffix(node);
      var parts := SplitNode(node, o);
      if parts.None? {
        return false;
      }
      var name := Trim(parts.value.0);
      if name == "" || parts.value.1 <= 0 || parts.value.1 > 65535 {
        return false;
      }
      host, port, scheme := name, parts.value.1, prefix;
      return true;
    }
  }
}
