/**
 The binary layout of the key file before encryption: counts and lengths as 32-bit
 little-endian numbers, then the bytes they announce, keys containing scopes containing
 actions. A row is a key in the order in which the writer walks its unordered maps.
 */
module KeyCodec {

  type Byte = b: int | 0 <= b < 256
  type Bytes = seq<Byte>

  datatype Scope = Scope(actions: set<int>, filters: Bytes)

  datatype Key = Key(id: Bytes, hash: Bytes, description: Bytes, scopes: map<Bytes, Scope>, tail: Tail)

  /** The fixed-size end of a record. */
  datatype Tail = Tail(hasExpiration: bool, expiresAt: int, rateLimit: int, allowHanalyzer: bool, useCount: int)

  datatype ScopeRow = ScopeRow(name: Bytes, actions: seq<int>, filters: Bytes)

  datatype KeyRow = KeyRow(id: Bytes, hash: Bytes, description: Bytes, scopes: seq<ScopeRow>, tail: Tail)

  /** What a reader got, and the input it has not looked at. */
  datatype Parsed<T> = Fail | Done(value: T, rest: Bytes)

  const WORD := 0x1_0000_0000
  const LONG := 0x1_0000_0000_0000_0000

  const MAX_KEYS := 100000
  const MAX_SCOPES := 10000
  const MAX_ACTIONS := 1024
  const MAX_ID := 256
  const MAX_HASH := 256
  const MAX_DESCRIPTION := 4096
  const MAX_NAME := 256
  const MAX_FILTERS := 64 * 1024

  // ---------- Writing ----------

  /** The `size` lowest bytes of a number, least significant first; negative numbers in two's complement. */
  function LittleEndian(n: int, size: nat): (b: Bytes)
    ensures |b| == size
    decreases size
  {
    if size == 0 then [] else [n % 256] + LittleEndian(n / 256, size - 1)
  }

  function U32(n: int): (b: Bytes)
    ensures |b| == 4
  {
    LittleEndian(n, 4)
  }

  function U64(n: int): (b: Bytes)
    ensures |b| == 8
  {
    LittleEndian(n, 8)
  }

  function Bit(b: bool): Bytes {
    [if b then 1 else 0]
  }

  /** Length and bytes; both are cut where the length does not fit 32 bits. */
  function Str(s: Bytes): Bytes {
    U32(|s|) + s[..|s| % WORD]
  }

  function Actions(a: seq<int>): Bytes {
    if a == [] then [] else Actions(a[..|a| - 1]) + U32(a[|a| - 1])
  }

  function ScopeBytes(s: ScopeRow): Bytes {
    Str(s.name) + (U32(|s.actions|) + (Actions(s.actions) + Str(s.filters)))
  }

  function Scopes(s: seq<ScopeRow>): Bytes {
    if s == [] then [] else Scopes(s[..|s| - 1]) + ScopeBytes(s[|s| - 1])
  }

  function TailBytes(t: Tail): Bytes {
    Bit(t.hasExpiration) + (U64(t.expiresAt) + (U32(t.rateLimit) + (Bit(t.allowHanalyzer) + U32(t.useCount))))
  }

  function KeyBytes(k: KeyRow): Bytes {
    Str(k.id) + (Str(k.hash) + (Str(k.description) + (U32(|k.scopes|) + (Scopes(k.scopes) + TailBytes(k.tail)))))
  }

  function Keys(ks: seq<KeyRow>): Bytes {
    if ks == [] then [] else Keys(ks[..|ks| - 1]) + KeyBytes(ks[|ks| - 1])
  }

  function Encode(ks: seq<KeyRow>): Bytes {
    U32(|ks|) + Keys(ks)
  }

  // ---------- Reading ----------

  function FromLittleEndian(b: Bytes): nat {
    if b == [] then 0 else b[0] as int + 256 * FromLittleEndian(b[1..])
  }

  function ReadWord(b: Bytes, size: nat): Parsed<nat> {
    if |b| < size then Fail else Done(FromLittleEndian(b[..size]), b[size..])
  }

  function ReadU32(b: Bytes): Parsed<nat> {
    ReadWord(b, 4)
  }

  /** The two's complement reading of an unsigned value. */
  function Signed(n: int, size: int): int {
    if n >= size / 2 then n - size else n
  }

  function ReadI32(b: Bytes): Parsed<int> {
    match ReadU32(b)
    case Done(n, rest) => Done(Signed(n, WORD), rest)
    case Fail => Fail
  }

  function ReadI64(b: Bytes): Parsed<int> {
    match ReadWord(b, 8)
    case Done(n, rest) => Done(Signed(n, LONG), rest)
    case Fail => Fail
  }

  function ReadBit(b: Bytes): Parsed<bool> {
    if b == [] then Fail else Done(b[0] != 0, b[1..])
  }

  function ReadCount(b: Bytes, max: int): Parsed<nat> {
    match ReadU32(b)
    case Done(n, rest) => if n > max then Fail else Done(n, rest)
    case Fail => Fail
  }

  function ReadStr(b: Bytes, max: int): Parsed<Bytes> {
    match ReadCount(b, max)
    case Fail => Fail
    case Done(n, rest) => if |rest| < n then Fail else Done(rest[..n], rest[n..])
  }

  /** The reader's counted loops. */
  function Repeat<T>(step: Parsed<T> -> Parsed<T>, start: Parsed<T>, n: nat): Parsed<T> {
    if n == 0 then start else step(Repeat(step, start, n - 1))
  }

  function NextAction(p: Parsed<set<int>>): Parsed<set<int>> {
    match p
    case Fail => Fail
    case Done(seen, rest) =>
      match ReadU32(rest)
      case Fail => Fail
      case Done(a, rest') => Done(seen + {a}, rest')
  }

  function ReadActions(b: Bytes, n: nat): Parsed<set<int>> {
    Repeat(NextAction, Done({}, b), n)
  }

  function ReadScope(b: Bytes): Parsed<(Bytes, Scope)> {
    match ReadStr(b, MAX_NAME)
    case Fail => Fail
    case Done(name, b1) =>
      match ReadCount(b1, MAX_ACTIONS)
      case Fail => Fail
      case Done(n, b2) =>
        match ReadActions(b2, n)
        case Fail => Fail
        case Done(actions, b3) =>
          match ReadStr(b3, MAX_FILTERS)
          case Fail => Fail
          case Done(filters, b4) => Done((name, Scope(actions, filters)), b4)
  }

  function ReadScopes(b: Bytes, n: nat): Parsed<map<Bytes, Scope>> {
    Repeat(NextScope, Done(map[], b), n)
  }

  function NextScope(p: Parsed<map<Bytes, Scope>>): Parsed<map<Bytes, Scope>> {
    match p
    case Fail => Fail
    case Done(m, rest) =>
      match ReadScope(rest)
      case Fail => Fail
      case Done(s, rest') => Done(m[s.0 := s.1], rest')
  }

  function ReadTail(b: Bytes): Parsed<Tail> {
    match ReadBit(b)
    case Fail => Fail
    case Done(hasExpiration, b1) =>
      match ReadI64(b1)
      case Fail => Fail
      case Done(expiresAt, b2) =>
        match ReadI32(b2)
        case Fail => Fail
        case Done(rate, b3) =>
          match ReadBit(b3)
          case Fail => Fail
          case Done(allow, b4) =>
            match ReadI32(b4)
            case Fail => Fail
            case Done(uses, b5) => Done(Tail(hasExpiration, expiresAt, if rate <= 0 then 1000 else rate, allow, uses), b5)
  }

  function ReadBody(b: Bytes): Parsed<(map<Bytes, Scope>, Tail)> {
    match ReadCount(b, MAX_SCOPES)
    case Fail => Fail
    case Done(n, b1) =>
      match ReadScopes(b1, n)
      case Fail => Fail
      case Done(scopes, b2) =>
        match ReadTail(b2)
        case Fail => Fail
        case Done(tail, b3) => Done((scopes, tail), b3)
  }

  function ReadKey(b: Bytes): Parsed<Key> {
    match ReadStr(b, MAX_ID)
    case Fail => Fail
    case Done(id, b1) =>
      match ReadStr(b1, MAX_HASH)
      case Fail => Fail
      case Done(hash, b2) =>
        match ReadStr(b2, MAX_DESCRIPTION)
        case Fail => Fail
        case Done(description, b3) =>
          match ReadBody(b3)
          case Fail => Fail
          case Done(body, b4) => Done(Key(id, hash, description, body.0, body.1), b4)
  }

  /** The two maps that loading fills. */
  datatype Table = Table(keys: map<Bytes, Key>, hashToId: map<Bytes, Bytes>)

  function Enter(t: Table, k: Key): Table {
    Table(t.keys[k.id := k], t.hashToId[k.hash := k.id])
  }

  function ReadKeys(b: Bytes, n: nat): Parsed<Table> {
    Repeat(NextKey, Done(Table(map[], map[]), b), n)
  }

  function NextKey(p: Parsed<Table>): Parsed<Table> {
    match p
    case Fail => Fail
    case Done(t, rest) =>
      match ReadKey(rest)
      case Fail => Fail
      case Done(k, rest') => Done(Enter(t, k), rest')
  }

  function Decode(b: Bytes): Parsed<Table> {
    match ReadCount(b, MAX_KEYS)
    case Fail => Fail
    case Done(n, rest) => ReadKeys(rest, n)
  }

  // ---------- What survives the file ----------

  function ActionsOf(a: seq<int>): set<int> {
    set x | x in a
  }

  function ScopesOf(s: seq<ScopeRow>): map<Bytes, Scope> {
    if s == [] then map[]
    else
      var last := s[|s| - 1];
      ScopesOf(s[..|s| - 1])[last.name := Scope(ActionsOf(last.actions), last.filters)]
  }

  /** A rate limit that is not positive comes back as 1000. */
  function TailOf(t: Tail): Tail {
    t.(rateLimit := if t.rateLimit <= 0 then 1000 else t.rateLimit)
  }

  function KeyOf(k: KeyRow): Key {
    Key(k.id, k.hash, k.description, ScopesOf(k.scopes), TailOf(k.tail))
  }

  function TableOf(ks: seq<KeyRow>): Table {
    if ks == [] then Table(map[], map[]) else Enter(TableOf(ks[..|ks| - 1]), KeyOf(ks[|ks| - 1]))
  }

  predicate FitsScope(s: ScopeRow) {
    && |s.name| <= MAX_NAME && |s.filters| <= MAX_FILTERS && |s.actions| <= MAX_ACTIONS
    && forall a | a in s.actions :: 0 <= a < WORD
  }

  predicate FitsTail(t: Tail) {
    && -LONG / 2 <= t.expiresAt < LONG / 2
    && -WORD / 2 <= t.rateLimit < WORD / 2 && -WORD / 2 <= t.useCount < WORD / 2
  }

  /** The sizes the reader accepts and the ranges of the stored integers. */
  predicate FitsKey(k: KeyRow) {
    && |k.id| <= MAX_ID && |k.hash| <= MAX_HASH && |k.description| <= MAX_DESCRIPTION
    && |k.scopes| <= MAX_SCOPES && (forall s | s in k.scopes :: FitsScope(s)) && FitsTail(k.tail)
  }

  predicate Fits(ks: seq<KeyRow>) {
    |ks| <= MAX_KEYS && forall k | k in ks :: FitsKey(k)
  }

  // ---------- Round trips ----------

  function Pow256(k: nat): (p: int)
    ensures p > 0
  {
    if k == 0 then 1 else 256 * Pow256(k - 1)
  }

  lemma ModSplits(n: int, p: int)
    requires p > 0
    ensures n % (256 * p) == n % 256 + 256 * (n / 256 % p)
  {
    var m, r := n / 256, n % 256;
    var q, t := m / p, m % p;
    assert n == (256 * p) * q + (256 * t + r) by {
      assert m == p * q + t;
    }
    ModUnique(n, 256 * p, q, 256 * t + r);
  }

  lemma MulAtLeast(d: int, k: int)
    requires d > 0 && k >= 1
    ensures d * k >= d
  {
    assert d * k == d + d * (k - 1);
  }

  lemma ModUnique(n: int, d: int, q: int, r: int)
    requires d > 0 && n == d * q + r && 0 <= r < d
    ensures n % d == r
  {
    var k := n / d - q;
    assert d * k == r - n % d;
    if k >= 1 {
      MulAtLeast(d, k);
    } else if k <= -1 {
      MulAtLeast(d, -k);
    }
  }

  lemma {:induction false} WordBack(n: int, size: nat)
    ensures FromLittleEndian(LittleEndian(n, size)) == n % Pow256(size)
    decreases size
  {
    if size > 0 {
      WordBack(n / 256, size - 1);
      assert LittleEndian(n, size)[1..] == LittleEndian(n / 256, size - 1);
      ModSplits(n, Pow256(size - 1));
    }
  }

  lemma U32Back(n: int, rest: Bytes)
    ensures ReadU32(U32(n) + rest) == Done(n % WORD, rest)
  {
    WordBack(n, 4);
    PowersOf256();
    assert (U32(n) + rest)[..4] == U32(n) && (U32(n) + rest)[4..] == rest;
  }

  lemma U32Exact(n: int, rest: Bytes)
    requires 0 <= n < WORD
    ensures ReadU32(U32(n) + rest) == Done(n, rest)
  {
    U32Back(n, rest);
  }

  lemma CountBack(n: int, max: int, rest: Bytes)
    requires 0 <= n <= max < WORD
    ensures ReadCount(U32(n) + rest, max) == Done(n, rest)
  {
    U32Exact(n, rest);
  }

  lemma Assoc(a: Bytes, b: Bytes, rest: Bytes)
    ensures a + b + rest == a + (b + rest)
  {
  }

  lemma StrBack(s: Bytes, max: int, rest: Bytes)
    requires |s| <= max < WORD
    ensures ReadStr(Str(s) + rest, max) == Done(s, rest)
  {
    assert s[..|s| % WORD] == s;
    assert Str(s) + rest == U32(|s|) + (s + rest);
    U32Back(|s|, s + rest);
    assert (s + rest)[..|s|] == s && (s + rest)[|s|..] == rest;
  }

  lemma {:induction false} ActionsBack(a: seq<int>, rest: Bytes)
    requires forall x | x in a :: 0 <= x < WORD
    ensures ReadActions(Actions(a) + rest, |a|) == Done(ActionsOf(a), rest)
    decreases |a|
  {
    hide U32, ReadU32;
    if a == [] {
      assert Actions(a) + rest == rest && ActionsOf(a) == {};
    } else {
      var init, last := a[..|a| - 1], a[|a| - 1];
      assert Actions(a) + rest == Actions(init) + (U32(last) + rest);
      assert last in a && forall x | x in init :: x in a;
      ActionsBack(init, U32(last) + rest);
      U32Exact(last, rest);
      assert ActionsOf(a) == ActionsOf(init) + {last};
    }
  }

  lemma ScopeBack(s: ScopeRow, rest: Bytes)
    requires FitsScope(s)
    ensures ReadScope(ScopeBytes(s) + rest) == Done((s.name, Scope(ActionsOf(s.actions), s.filters)), rest)
  {
    var c3 := Str(s.filters);
    var c2 := Actions(s.actions) + c3;
    var c1 := U32(|s.actions|) + c2;
    Assoc(Str(s.name), c1, rest);
    StrBack(s.name, MAX_NAME, c1 + rest);
    Assoc(U32(|s.actions|), c2, rest);
    CountBack(|s.actions|, MAX_ACTIONS, c2 + rest);
    Assoc(Actions(s.actions), c3, rest);
    ActionsBack(s.actions, c3 + rest);
    StrBack(s.filters, MAX_FILTERS, rest);
  }

  lemma {:induction false} ScopesBack(s: seq<ScopeRow>, rest: Bytes)
    requires forall x | x in s :: FitsScope(x)
    ensures ReadScopes(Scopes(s) + rest, |s|) == Done(ScopesOf(s), rest)
  {
    if s == [] {
      assert Scopes(s) + rest == rest;
    } else {
      var init, last := s[..|s| - 1], s[|s| - 1];
      assert Scopes(s) + rest == Scopes(init) + (ScopeBytes(last) + rest);
      ScopesBack(init, ScopeBytes(last) + rest);
      ScopeBack(last, rest);
    }
  }

  lemma I32Back(n: int, rest: Bytes)
    requires -WORD / 2 <= n < WORD / 2
    ensures ReadI32(U32(n) + rest) == Done(n, rest)
  {
    hide ReadU32, U32, Signed;
    U32Back(n, rest);
    SignedBack(n, WORD);
  }

  lemma PowersOf256()
    ensures Pow256(4) == WORD && Pow256(8) == LONG
  {
    assert Pow256(2) == 65536;
    assert Pow256(6) == 65536 * Pow256(4);
  }

  lemma U64Back(n: int, rest: Bytes)
    ensures ReadWord(U64(n) + rest, 8) == Done(n % LONG, rest)
  {
    WordBack(n, 8);
    PowersOf256();
    assert (U64(n) + rest)[..8] == U64(n) && (U64(n) + rest)[8..] == rest;
  }

  lemma SignedBack(n: int, size: int)
    requires size > 0 && size % 2 == 0 && -(size / 2) <= n < size / 2
    ensures Signed(n % size, size) == n
  {
    ModUnique(n, size, if n < 0 then -1 else 0, if n < 0 then n + size else n);
  }

  lemma I64Back(n: int, rest: Bytes)
    requires -LONG / 2 <= n < LONG / 2
    ensures ReadI64(U64(n) + rest) == Done(n, rest)
  {
    hide ReadWord, U64, Signed;
    U64Back(n, rest);
    SignedBack(n, LONG);
  }

  lemma TailBack(t: Tail, rest: Bytes)
    requires FitsTail(t)
    ensures ReadTail(TailBytes(t) + rest) == Done(TailOf(t), rest)
  {
    var c4 := U32(t.useCount);
    var c3 := Bit(t.allowHanalyzer) + c4;
    var c2 := U32(t.rateLimit) + c3;
    var c1 := U64(t.expiresAt) + c2;
    Assoc(Bit(t.hasExpiration), c1, rest);
    BitBack(t.hasExpiration, c1 + rest);
    Assoc(U64(t.expiresAt), c2, rest);
    I64Back(t.expiresAt, c2 + rest);
    Assoc(U32(t.rateLimit), c3, rest);
    I32Back(t.rateLimit, c3 + rest);
    Assoc(Bit(t.allowHanalyzer), c4, rest);
    BitBack(t.allowHanalyzer, c4 + rest);
    I32Back(t.useCount, rest);
  }

  lemma BitBack(b: bool, rest: Bytes)
    ensures ReadBit(Bit(b) + rest) == Done(b, rest)
  {
    assert (Bit(b) + rest)[1..] == rest;
  }

  lemma BodyBack(k: KeyRow, rest: Bytes)
    requires FitsKey(k)
    ensures ReadBody(U32(|k.scopes|) + (Scopes(k.scopes) + TailBytes(k.tail)) + rest) ==
            Done((ScopesOf(k.scopes), TailOf(k.tail)), rest)
  {
    var c := Scopes(k.scopes) + TailBytes(k.tail);
    Assoc(U32(|k.scopes|), c, rest);
    CountBack(|k.scopes|, MAX_SCOPES, c + rest);
    Assoc(Scopes(k.scopes), TailBytes(k.tail), rest);
    ScopesBack(k.scopes, TailBytes(k.tail) + rest);
    TailBack(k.tail, rest);
  }

  lemma KeyBack(k: KeyRow, rest: Bytes)
    requires FitsKey(k)
    ensures ReadKey(KeyBytes(k) + rest) == Done(KeyOf(k), rest)
  {
    var c3 := U32(|k.scopes|) + (Scopes(k.scopes) + TailBytes(k.tail));
    var c2 := Str(k.description) + c3;
    var c1 := Str(k.hash) + c2;
    Assoc(Str(k.id), c1, rest);
    StrBack(k.id, MAX_ID, c1 + rest);
    Assoc(Str(k.hash), c2, rest);
    StrBack(k.hash, MAX_HASH, c2 + rest);
    Assoc(Str(k.description), c3, rest);
    StrBack(k.description, MAX_DESCRIPTION, c3 + rest);
    BodyBack(k, rest);
  }

  lemma {:induction false} KeysBack(ks: seq<KeyRow>, rest: Bytes)
    requires forall k | k in ks :: FitsKey(k)
    ensures ReadKeys(Keys(ks) + rest, |ks|) == Done(TableOf(ks), rest)
  {
    hide ReadKey, KeyBytes;
    if ks == [] {
      assert Keys(ks) + rest == rest;
    } else {
      var init, last := ks[..|ks| - 1], ks[|ks| - 1];
      assert Keys(ks) + rest == Keys(init) + (KeyBytes(last) + rest);
      KeysBack(init, KeyBytes(last) + rest);
      KeyBack(last, rest);
    }
  }

  /** Reading a written snapshot restores it and looks at exactly its bytes. */
  lemma RoundTrip(ks: seq<KeyRow>, rest: Bytes)
    requires Fits(ks)
    ensures Decode(Encode(ks) + rest) == Done(TableOf(ks), rest)
  {
    Assoc(U32(|ks|), Keys(ks), rest);
    CountBack(|ks|, MAX_KEYS, Keys(ks) + rest);
    KeysBack(ks, rest);
  }

  const MAX_FILE := 64 * 1024 * 1024
  const BLOCK := 16

  /** Size of the encrypted file: an initialisation vector, then whole blocks with at least one byte of padding. */
  function FileSize(plain: nat): nat {
    BLOCK + BLOCK * (plain / BLOCK + 1)
  }

  /** The reader looks at the size of the file before it decrypts. */
  function DecodeFile(plain: Bytes): Parsed<Table> {
    if plain == [] || FileSize(|plain|) > MAX_FILE then Fail else Decode(plain)
  }

  /** A snapshot within the other limits is restored from its file exactly when the file is not too big. */
  lemma FileRoundTrip(ks: seq<KeyRow>)
    requires Fits(ks)
    ensures DecodeFile(Encode(ks)) == Done(TableOf(ks), []) <==> FileSize(|Encode(ks)|) <= MAX_FILE
    ensures DecodeFile(Encode(ks)) == Fail <==> FileSize(|Encode(ks)|) > MAX_FILE
  {
    hide Decode, Keys, U32;
    RoundTrip(ks, []);
    assert Encode(ks) + [] == Encode(ks);
  }

  /** The limit is within reach: keys with full-length fields fill the file long before their number is used up. */
  lemma FilesCanBeTooBig(ks: seq<KeyRow>)
    requires |ks| >= MAX_FILE / 4608 && forall k | k in ks :: |k.id| + |k.hash| + |k.description| >= 4608
    requires forall k | k in ks :: FitsKey(k)
    ensures FileSize(|Encode(ks)|) > MAX_FILE
  {
    hide KeyBytes;
    KeysAreLong(ks, 4608);
    assert |Keys(ks)| >= MAX_FILE / 4608 * 4608;
  }

  lemma {:induction false} KeysAreLong(ks: seq<KeyRow>, size: nat)
    requires forall k | k in ks :: |k.id| + |k.hash| + |k.description| >= size && FitsKey(k)
    ensures |Keys(ks)| >= |ks| * size + |ks| * 30
  {
    hide KeyBytes, FitsKey;
    if ks != [] {
      var init, last := ks[..|ks| - 1], ks[|ks| - 1];
      assert last in ks && forall k | k in init :: k in ks;
      KeysAreLong(init, size);
      KeyIsLong(last);
      assert |ks| * size == |init| * size + size;
    }
  }

  lemma KeyIsLong(k: KeyRow)
    requires FitsKey(k)
    ensures |KeyBytes(k)| >= |k.id| + |k.hash| + |k.description| + 30
  {
    hide Scopes, U32, U64;
    assert |Str(k.id)| == |k.id| + 4 && |Str(k.hash)| == |k.hash| + 4 && |Str(k.description)| == |k.description| + 4;
    assert |TailBytes(k.tail)| == 18;
  }

  // ---------- Nothing is lost in the maps ----------

  lemma {:induction false} ScopesHold(s: seq<ScopeRow>, i: nat)
    requires i < |s| && forall j, k | 0 <= j < k < |s| :: s[j].name != s[k].name
    ensures s[i].name in ScopesOf(s) && ScopesOf(s)[s[i].name] == Scope(ActionsOf(s[i].actions), s[i].filters)
    ensures |ScopesOf(s)| <= |s|
  {
    if i < |s| - 1 {
      ScopesHold(s[..|s| - 1], i);
    } else {
      ScopesCount(s[..|s| - 1]);
    }
  }

  lemma {:induction false} ScopesCount(s: seq<ScopeRow>)
    ensures |ScopesOf(s)| <= |s|
  {
    if s != [] {
      ScopesCount(s[..|s| - 1]);
      var m := ScopesOf(s[..|s| - 1]);
      assert ScopesOf(s).Keys == m.Keys + {s[|s| - 1].name};
    }
  }

  /** With different IDs and hashes every key is found again, under its ID and by its hash. */
  lemma {:induction false} TableHolds(ks: seq<KeyRow>, i: nat)
    requires i < |ks| && forall j, k | 0 <= j < k < |ks| :: ks[j].id != ks[k].id && ks[j].hash != ks[k].hash
    ensures var t := TableOf(ks);
            && ks[i].id in t.keys && t.keys[ks[i].id] == KeyOf(ks[i])
            && ks[i].hash in t.hashToId && t.hashToId[ks[i].hash] == ks[i].id
  {
    if i < |ks| - 1 {
      TableHolds(ks[..|ks| - 1], i);
    }
  }

  /** A key comes back unchanged exactly when its rate limit is positive. */
  lemma TailIsKept(t: Tail)
    ensures TailOf(t) == t <==> t.rateLimit > 0
  {
  }

  // ---------- More input changes nothing that was read ----------

  lemma WordExtends(b: Bytes, size: nat, x: Bytes)
    requires ReadWord(b, size).Done?
    ensures ReadWord(b + x, size) == Done(ReadWord(b, size).value, ReadWord(b, size).rest + x)
  {
    assert (b + x)[..size] == b[..size] && (b + x)[size..] == b[size..] + x;
  }

  lemma BitExtends(b: Bytes, x: Bytes)
    requires ReadBit(b).Done?
    ensures ReadBit(b + x) == Done(ReadBit(b).value, ReadBit(b).rest + x)
  {
    assert (b + x)[1..] == b[1..] + x;
  }

  lemma StrExtends(b: Bytes, max: int, x: Bytes)
    requires ReadStr(b, max).Done?
    ensures ReadStr(b + x, max) == Done(ReadStr(b, max).value, ReadStr(b, max).rest + x)
  {
    WordExtends(b, 4, x);
    var n, rest := ReadU32(b).value, ReadU32(b).rest;
    assert (rest + x)[..n] == rest[..n] && (rest + x)[n..] == rest[n..] + x;
  }

  /** A step that succeeds does the same, and leaves `x` behind, when `x` follows its input. */
  ghost predicate ExtendsAt<T>(step: Parsed<T> -> Parsed<T>, p: Parsed<T>, x: Bytes) {
    step(p).Done? ==> p.Done? && step(Done(p.value, p.rest + x)) == Done(step(p).value, step(p).rest + x)
  }

  ghost predicate Extends<T(!new)>(step: Parsed<T> -> Parsed<T>, x: Bytes) {
    forall p :: ExtendsAt(step, p, x)
  }

  lemma {:induction false} RepeatExtends<T(!new)>(step: Parsed<T> -> Parsed<T>, start: Parsed<T>, n: nat, x: Bytes)
    requires Extends(step, x) && Repeat(step, start, n).Done?
    ensures start.Done?
    ensures Repeat(step, Done(start.value, start.rest + x), n) ==
            Done(Repeat(step, start, n).value, Repeat(step, start, n).rest + x)
  {
    if n > 0 {
      assert ExtendsAt(step, Repeat(step, start, n - 1), x);
      RepeatExtends(step, start, n - 1, x);
    }
  }

  lemma NextActionExtends(x: Bytes)
    ensures Extends(NextAction, x)
  {
    forall p
      ensures ExtendsAt(NextAction, p, x)
    {
      if NextAction(p).Done? {
        WordExtends(p.rest, 4, x);
      }
    }
  }

  lemma ScopeExtends(b: Bytes, x: Bytes)
    requires ReadScope(b).Done?
    ensures ReadScope(b + x) == Done(ReadScope(b).value, ReadScope(b).rest + x)
  {
    StrExtends(b, MAX_NAME, x);
    var b1 := ReadStr(b, MAX_NAME).rest;
    WordExtends(b1, 4, x);
    var b2 := ReadU32(b1).rest;
    NextActionExtends(x);
    RepeatExtends(NextAction, Done({}, b2), ReadU32(b1).value, x);
    StrExtends(ReadActions(b2, ReadU32(b1).value).rest, MAX_FILTERS, x);
  }

  lemma NextScopeExtends(x: Bytes)
    ensures Extends(NextScope, x)
  {
    forall p
      ensures ExtendsAt(NextScope, p, x)
    {
      if NextScope(p).Done? {
        ScopeExtends(p.rest, x);
      }
    }
  }

  lemma ScopesExtend(b: Bytes, n: nat, x: Bytes)
    requires ReadScopes(b, n).Done?
    ensures ReadScopes(b + x, n) == Done(ReadScopes(b, n).value, ReadScopes(b, n).rest + x)
  {
    hide ReadScope;
    NextScopeExtends(x);
    RepeatExtends(NextScope, Done(map[], b), n, x);
  }

  lemma TailExtends(b: Bytes, x: Bytes)
    requires ReadTail(b).Done?
    ensures ReadTail(b + x) == Done(ReadTail(b).value, ReadTail(b).rest + x)
  {
    BitExtends(b, x);
    var b1 := ReadBit(b).rest;
    WordExtends(b1, 8, x);
    var b2 := ReadWord(b1, 8).rest;
    WordExtends(b2, 4, x);
    var b3 := ReadU32(b2).rest;
    BitExtends(b3, x);
    WordExtends(ReadBit(b3).rest, 4, x);
  }

  lemma KeyExtends(b: Bytes, x: Bytes)
    requires ReadKey(b).Done?
    ensures ReadKey(b + x) == Done(ReadKey(b).value, ReadKey(b).rest + x)
  {
    StrExtends(b, MAX_ID, x);
    var b1 := ReadStr(b, MAX_ID).rest;
    StrExtends(b1, MAX_HASH, x);
    var b2 := ReadStr(b1, MAX_HASH).rest;
    StrExtends(b2, MAX_DESCRIPTION, x);
    BodyExtends(ReadStr(b2, MAX_DESCRIPTION).rest, x);
  }

  lemma BodyExtends(b: Bytes, x: Bytes)
    requires ReadBody(b).Done?
    ensures ReadBody(b + x) == Done(ReadBody(b).value, ReadBody(b).rest + x)
  {
    hide ReadScopes, ReadTail;
    WordExtends(b, 4, x);
    var n, b1 := ReadU32(b).value, ReadU32(b).rest;
    ScopesExtend(b1, n, x);
    TailExtends(ReadScopes(b1, n).rest, x);
  }

  lemma NextKeyExtends(x: Bytes)
    ensures Extends(NextKey, x)
  {
    forall p
      ensures ExtendsAt(NextKey, p, x)
    {
      if NextKey(p).Done? {
        KeyExtends(p.rest, x);
      }
    }
  }

  lemma KeysExtend(b: Bytes, n: nat, x: Bytes)
    requires ReadKeys(b, n).Done?
    ensures ReadKeys(b + x, n) == Done(ReadKeys(b, n).value, ReadKeys(b, n).rest + x)
  {
    hide ReadKey;
    NextKeyExtends(x);
    RepeatExtends(NextKey, Done(Table(map[], map[]), b), n, x);
  }

  lemma DecodeExtends(b: Bytes, x: Bytes)
    requires Decode(b).Done?
    ensures Decode(b + x) == Done(Decode(b).value, Decode(b).rest + x)
  {
    hide ReadKeys, ReadWord;
    WordExtends(b, 4, x);
    KeysExtend(ReadU32(b).rest, ReadU32(b).value, x);
  }

  /** A file that lost its end, however little, is never taken for a whole one. */
  lemma PrefixRejected(ks: seq<KeyRow>, p: nat)
    requires Fits(ks) && p < |Encode(ks)|
    ensures Decode(Encode(ks)[..p]) == Fail
  {
    hide Decode, Encode, Fits;
    var b, x := Encode(ks)[..p], Encode(ks)[p..];
    RoundTrip(ks, []);
    assert b + x == Encode(ks) && Encode(ks) + [] == Encode(ks);
    if Decode(b).Done? {
      DecodeExtends(b, x);
    }
  }

  // ---------- The loader keeps the records before the damage ----------

  /** How many of `n` records can be read. */
  function Readable(b: Bytes, n: nat): (j: nat)
    ensures j <= n && ReadKeys(b, j).Done?
    ensures j < n ==> ReadKeys(b, j + 1) == Fail
  {
    if n == 0 then 0
    else
      var j := Readable(b, n - 1);
      if j == n - 1 && ReadKeys(b, n).Done? then n else j
  }

  lemma {:induction false} RepeatFails<T>(step: Parsed<T> -> Parsed<T>, start: Parsed<T>, k: nat, n: nat)
    requires step(Fail) == Fail && k <= n && Repeat(step, start, k) == Fail
    ensures Repeat(step, start, n) == Fail
    decreases n
  {
    if k < n {
      RepeatFails(step, start, k, n - 1);
    }
  }

  lemma ReadableIsExact(b: Bytes, n: nat, j: nat)
    requires j <= n && ReadKeys(b, j).Done? && (j < n ==> ReadKeys(b, j + 1) == Fail)
    ensures Readable(b, n) == j
  {
    hide ReadKey;
    var start, r := Done(Table(map[], map[]), b), Readable(b, n);
    assert NextKey(Fail) == Fail;
    if r < j {
      RepeatFails(NextKey, start, r + 1, j);
    } else if j < r {
      RepeatFails(NextKey, start, j + 1, r);
    }
  }

  lemma CutKeyFails(k: KeyRow, p: nat)
    requires FitsKey(k) && p < |KeyBytes(k)|
    ensures ReadKey(KeyBytes(k)[..p]) == Fail
  {
    hide ReadKey, KeyBytes;
    var b, x := KeyBytes(k)[..p], KeyBytes(k)[p..];
    if ReadKey(b).Done? {
      KeyExtends(b, x);
      assert b + x == KeyBytes(k) && KeyBytes(k) + [] == KeyBytes(k);
      KeyBack(k, []);
    }
  }

  lemma {:induction false} KeysSplit(ks: seq<KeyRow>, j: nat)
    requires j < |ks|
    ensures exists more :: Keys(ks) == Keys(ks[..j]) + KeyBytes(ks[j]) + more
  {
    hide KeyBytes;
    var init := ks[..|ks| - 1];
    if j == |ks| - 1 {
      assert Keys(ks) == Keys(ks[..j]) + KeyBytes(ks[j]) + [];
    } else {
      KeysSplit(init, j);
      var more :| Keys(init) == Keys(init[..j]) + KeyBytes(init[j]) + more;
      assert init[..j] == ks[..j];
      assert Keys(ks) == Keys(ks[..j]) + KeyBytes(ks[j]) + (more + KeyBytes(ks[|ks| - 1]));
    }
  }

  /** A file cut inside record `j` yields exactly the records before it. */
  lemma CutKeepsWhatPrecedes(ks: seq<KeyRow>, j: nat, p: nat)
    requires Fits(ks) && j < |ks|
    requires |Keys(ks[..j])| <= p < |Keys(ks[..j])| + |KeyBytes(ks[j])|
    ensures p <= |Keys(ks)| && Readable(Keys(ks)[..p], |ks|) == j
    ensures ReadKeys(Keys(ks)[..p], j).value == TableOf(ks[..j])
  {
    hide KeyBytes, ReadKey;
    KeysSplit(ks, j);
    var more :| Keys(ks) == Keys(ks[..j]) + KeyBytes(ks[j]) + more;
    var q := p - |Keys(ks[..j])|;
    var y := KeyBytes(ks[j])[..q];
    assert Keys(ks)[..p] == Keys(ks[..j]) + y;
    KeysBack(ks[..j], y);
    CutKeyFails(ks[j], q);
    ReadableIsExact(Keys(ks)[..p], |ks|, j);
  }

  // ---------- The loops of the code ----------

  method WriteScopes(rows: seq<ScopeRow>) returns (out: Bytes)
    ensures out == Scopes(rows)
  {
    hide Str, U32;
    out := [];
    for j := 0 to |rows|
      invariant out == Scopes(rows[..j])
    {
      var s := rows[j];
      var bytes := Str(s.name) + U32(|s.actions|);
      for k := 0 to |s.actions|
        invariant bytes == Str(s.name) + U32(|s.actions|) + Actions(s.actions[..k])
      {
        assert s.actions[..k + 1][..k] == s.actions[..k];
        bytes := bytes + U32(s.actions[k]);
      }
      assert s.actions[..|s.actions|] == s.actions;
      bytes := bytes + Str(s.filters);
      assert bytes == ScopeBytes(s);
      assert rows[..j + 1][..j] == rows[..j];
      out := out + bytes;
    }
    assert rows[..|rows|] == rows;
  }

  method WriteKey(k: KeyRow) returns (out: Bytes)
    ensures out == KeyBytes(k)
  {
    hide Str, U32, U64, Bit, Scopes;
    var scopes := WriteScopes(k.scopes);
    out := Str(k.id) + Str(k.hash) + Str(k.description) + U32(|k.scopes|) + scopes;
    out := out + Bit(k.tail.hasExpiration) + U64(k.tail.expiresAt) + U32(k.tail.rateLimit);
    out := out + Bit(k.tail.allowHanalyzer) + U32(k.tail.useCount);
  }

  method Save(rows: seq<KeyRow>) returns (out: Bytes)
    ensures out == Encode(rows)
  {
    hide KeyBytes, U32;
    out := U32(|rows|);
    for i := 0 to |rows|
      invariant out == U32(|rows|) + Keys(rows[..i])
    {
      var bytes := WriteKey(rows[i]);
      assert rows[..i + 1][..i] == rows[..i];
      out := out + bytes;
    }
    assert rows[..|rows|] == rows;
  }

  method LoadActions(b: Bytes, n: nat) returns (p: Parsed<set<int>>)
    ensures p == ReadActions(b, n)
  {
    var actions, rest := {}, b;
    for k := 0 to n
      invariant ReadActions(b, k) == Done(actions, rest)
    {
      match ReadU32(rest)
      case Fail =>
        RepeatFails(NextAction, Done({}, b), k + 1, n);
        return Fail;
      case Done(a, more) =>
        actions, rest := actions + {a}, more;
    }
    return Done(actions, rest);
  }

  method LoadScope(b: Bytes) returns (p: Parsed<(Bytes, Scope)>)
    ensures p == ReadScope(b)
  {
    match ReadStr(b, MAX_NAME)
    case Fail => return Fail;
    case Done(name, b1) =>
      match ReadCount(b1, MAX_ACTIONS)
      case Fail => return Fail;
      case Done(n, b2) =>
        var a := LoadActions(b2, n);
        match a
        case Fail => return Fail;
        case Done(actions, b3) =>
          match ReadStr(b3, MAX_FILTERS)
          case Fail => return Fail;
          case Done(filters, b4) => return Done((name, Scope(actions, filters)), b4);
  }

  method LoadScopes(b: Bytes, n: nat) returns (p: Parsed<map<Bytes, Scope>>)
    ensures p == ReadScopes(b, n)
  {
    hide ReadScope;
    var scopes: map<Bytes, Scope>, rest := map[], b;
    for j := 0 to n
      invariant ReadScopes(b, j) == Done(scopes, rest)
    {
      var s := LoadScope(rest);
      match s
      case Fail =>
        RepeatFails(NextScope, Done(map[], b), j + 1, n);
        return Fail;
      case Done(scope, more) =>
        scopes, rest := scopes[scope.0 := scope.1], more;
    }
    return Done(scopes, rest);
  }

  method LoadKey(b: Bytes) returns (p: Parsed<Key>)
    ensures p == ReadKey(b)
  {
    hide ReadStr, ReadScopes, ReadTail;
    match ReadStr(b, MAX_ID)
    case Fail => return Fail;
    case Done(id, b1) =>
      match ReadStr(b1, MAX_HASH)
      case Fail => return Fail;
      case Done(hash, b2) =>
        match ReadStr(b2, MAX_DESCRIPTION)
        case Fail => return Fail;
        case Done(description, b3) =>
          match ReadCount(b3, MAX_SCOPES)
          case Fail => return Fail;
          case Done(n, b4) =>
            var s := LoadScopes(b4, n);
            match s
            case Fail => return Fail;
            case Done(scopes, b5) =>
              match ReadTail(b5)
              case Fail => return Fail;
              case Done(tail, b6) => return Done(Key(id, hash, description, scopes, tail), b6);
  }

  class Tables {
    var keys: map<Bytes, Key>
    var hashToId: map<Bytes, Bytes>

    /** The maps are replaced by the longest readable run of records, and only by all of them when loading succeeds. */
    method Load(b: Bytes) returns (ok: bool)
      modifies this
      ensures ok == Decode(b).Done?
      ensures ok ==> Table(keys, hashToId) == Decode(b).value
      ensures ReadCount(b, MAX_KEYS) == Fail ==> keys == old(keys) && hashToId == old(hashToId)
      ensures !ok && ReadCount(b, MAX_KEYS).Done? ==>
        var body, n := ReadCount(b, MAX_KEYS).rest, ReadCount(b, MAX_KEYS).value;
        Table(keys, hashToId) == ReadKeys(body, Readable(body, n)).value
    {
      hide ReadKey;
      match ReadCount(b, MAX_KEYS)
      case Fail => return false;
      case Done(n, body) =>
        keys, hashToId := map[], map[];
        var rest := body;
        for i := 0 to n
          invariant ReadKeys(body, i) == Done(Table(keys, hashToId), rest)
        {
          var k := LoadKey(rest);
          match k
          case Fail =>
            assert ReadKeys(body, i + 1) == Fail;
            RepeatFails(NextKey, Done(Table(map[], map[]), body), i + 1, n);
            ReadableIsExact(body, n, i);
            return false;
          case Done(key, more) =>
            keys, hashToId, rest := keys[key.id := key], hashToId[key.hash := key.id], more;
        }
        return true;
    }

    /** The whole reader, from the decrypted contents of the file. */
    method LoadFile(plain: Bytes) returns (ok: bool)
      modifies this
      ensures ok == DecodeFile(plain).Done?
      ensures ok ==> Table(keys, hashToId) == DecodeFile(plain).value
      ensures FileSize(|plain|) > MAX_FILE ==> keys == old(keys) && hashToId == old(hashToId)
    {
      hide Decode, ReadCount;
      if FileSize(|plain|) > MAX_FILE {
        return false;
      }
      if plain == [] {
        return false;
      }
      ok := Load(plain);
    }
  }
}
