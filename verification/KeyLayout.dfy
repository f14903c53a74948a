/**
 The key file seen from outside its codec: where every field lies, byte by byte, and exactly
 which snapshots can be read back at all.
 */
module KeyLayout {
  import opened KeyCodec

  // ---------- Where the fields are ----------

  /** The four bytes of a count, the lowest first. */
  lemma WordLayout(n: int)
    requires 0 <= n < 0x1_0000_0000
    ensures var b := U32(n);
      n == b[0] as int + 0x100 * b[1] as int + 0x1_0000 * b[2] as int + 0x100_0000 * b[3] as int
  {
    var m := n / 256;
    assert U32(n) == [n % 256] + LittleEndian(m, 3);
    assert LittleEndian(m, 3) == [m % 256] + LittleEndian(m / 256, 2);
    assert LittleEndian(m / 256, 2) == [m / 256 % 256] + LittleEndian(m / 256 / 256, 1);
    assert LittleEndian(m / 256 / 256, 1) == [m / 256 / 256 % 256] + LittleEndian(m / 256 / 256 / 256, 0);
  }

  /** A text is its length and its bytes. */
  lemma TextLayout(s: Bytes)
    requires |s| < 0x1_0000_0000
    ensures |Str(s)| == 4 + |s| && Str(s)[..4] == U32(|s|) && Str(s)[4..] == s
  {
    assert s[..|s| % WORD] == s;
  }

  /** ID, hash and description in front, the eighteen bytes of fixed size at the end, the scopes between them. */
  lemma RecordLayout(k: KeyRow)
    requires |k.id| < 0x1_0000_0000 && |k.hash| < 0x1_0000_0000 && |k.description| < 0x1_0000_0000
    ensures var b, hash := KeyBytes(k), 8 + |k.id|;
      var description := hash + 4 + |k.hash|;
      var scopes := description + |k.description|;
      && |b| == scopes + 4 + |Scopes(k.scopes)| + 18
      && b[..4] == U32(|k.id|) && b[4..4 + |k.id|] == k.id
      && b[hash - 4..hash] == U32(|k.hash|) && b[hash..hash + |k.hash|] == k.hash
      && b[description - 4..description] == U32(|k.description|) && b[description..scopes] == k.description
      && b[scopes..scopes + 4] == U32(|k.scopes|) && b[scopes + 4..|b| - 18] == Scopes(k.scopes)
      && b[|b| - 18..] == TailBytes(k.tail)
  {
    hide U32, U64, Str, Scopes;
    TextLayout(k.id);
    TextLayout(k.hash);
    TextLayout(k.description);
    var i, h, d := Str(k.id), Str(k.hash), Str(k.description);
    Sections(i, h, d, U32(|k.scopes|), Scopes(k.scopes), TailBytes(k.tail));
    var b := KeyBytes(k);
    assert b[4..|i|] == b[..|i|][4..];
    Inside(b, |i|, |i| + |h|);
    Inside(b, |i| + |h|, |i| + |h| + |d|);
  }

  lemma Sections(a: Bytes, b: Bytes, c: Bytes, d: Bytes, e: Bytes, f: Bytes)
    ensures var all := a + (b + (c + (d + (e + f))));
      && all[..|a|] == a && all[|a|..|a| + |b|] == b && all[|a| + |b|..|a| + |b| + |c|] == c
      && all[|a| + |b| + |c|..|a| + |b| + |c| + |d|] == d
      && all[|a| + |b| + |c| + |d|..|all| - |f|] == e && all[|all| - |f|..] == f
  {
  }

  lemma Inside(b: Bytes, from: nat, until: nat)
    requires from + 4 <= until <= |b|
    ensures b[from..from + 4] == b[from..until][..4] && b[from + 4..until] == b[from..until][4..]
  {
  }

  /** The fixed-size end: two flags of one byte, the expiration in eight, rate limit and use counter in four each. */
  lemma TailLayout(t: Tail)
    ensures var b := TailBytes(t);
      && |b| == 18 && b[0] == (if t.hasExpiration then 1 else 0) && b[1..9] == LittleEndian(t.expiresAt, 8)
      && b[9..13] == U32(t.rateLimit) && b[13] == (if t.allowHanalyzer then 1 else 0) && b[14..] == U32(t.useCount)
  {
    hide U32, LittleEndian;
  }

  // ---------- Which snapshots can be read ----------

  /** The ranges of the program's types, and lengths that their 32 bits can say. */
  predicate Typed(k: KeyRow) {
    && |k.id| < WORD && |k.hash| < WORD && |k.description| < WORD && |k.scopes| < WORD
    && -0x8000_0000_0000_0000 <= k.tail.expiresAt < 0x8000_0000_0000_0000
    && -0x8000_0000 <= k.tail.rateLimit < 0x8000_0000 && -0x8000_0000 <= k.tail.useCount < 0x8000_0000
    && forall s | s in k.scopes :: TypedScope(s)
  }

  predicate TypedScope(s: ScopeRow) {
    |s.name| < WORD && |s.actions| < WORD && |s.filters| < WORD && forall a | a in s.actions :: 0 <= a < WORD
  }

  predicate SmallScope(s: ScopeRow) {
    |s.name| <= 256 && |s.actions| <= 1024 && |s.filters| <= 65536
  }

  predicate Small(k: KeyRow) {
    && |k.id| <= 256 && |k.hash| <= 256 && |k.description| <= 4096 && |k.scopes| <= 10000
    && forall s | s in k.scopes :: SmallScope(s)
  }

  lemma LongText(s: Bytes, max: nat, rest: Bytes)
    requires max < |s| < WORD
    ensures ReadStr(Str(s) + rest, max) == Fail
  {
    assert Str(s) + rest == U32(|s|) + (s[..|s| % WORD] + rest);
    U32Exact(|s|, s[..|s| % WORD] + rest);
  }

  lemma BigCount(n: nat, max: nat, rest: Bytes)
    requires max < n < WORD
    ensures ReadCount(U32(n) + rest, max) == Fail
  {
    U32Exact(n, rest);
  }

  lemma BigScope(s: ScopeRow, rest: Bytes)
    requires TypedScope(s) && !SmallScope(s)
    ensures ReadScope(ScopeBytes(s) + rest) == Fail
  {
    hide ReadStr, ReadCount, ReadActions, Str, U32, Actions;
    var c3 := Str(s.filters);
    var c2 := Actions(s.actions) + c3;
    var c1 := U32(|s.actions|) + c2;
    Assoc(Str(s.name), c1, rest);
    Assoc(U32(|s.actions|), c2, rest);
    Assoc(Actions(s.actions), c3, rest);
    if |s.name| > 256 {
      LongText(s.name, MAX_NAME, c1 + rest);
    } else {
      StrBack(s.name, MAX_NAME, c1 + rest);
      if |s.actions| > 1024 {
        BigCount(|s.actions|, MAX_ACTIONS, c2 + rest);
      } else {
        CountBack(|s.actions|, MAX_ACTIONS, c2 + rest);
        ActionsBack(s.actions, c3 + rest);
        LongText(s.filters, MAX_FILTERS, rest);
      }
    }
  }

  lemma {:induction false} BigScopes(s: seq<ScopeRow>, rest: Bytes)
    requires (forall x | x in s :: TypedScope(x)) && exists x | x in s :: !SmallScope(x)
    ensures ReadScopes(Scopes(s) + rest, |s|) == Fail
  {
    hide ReadScope, ScopeBytes, TypedScope, SmallScope;
    var init, last := s[..|s| - 1], s[|s| - 1];
    assert s == init + [last];
    assert Scopes(s) + rest == Scopes(init) + (ScopeBytes(last) + rest);
    if exists x | x in init :: !SmallScope(x) {
      BigScopes(init, ScopeBytes(last) + rest);
    } else {
      assert forall x | x in init :: FitsScope(x) by {
        forall x | x in init
          ensures FitsScope(x)
        {
          SmallFits(x);
        }
      }
      ScopesBack(init, ScopeBytes(last) + rest);
      BigScope(last, rest);
    }
  }

  lemma SmallFits(s: ScopeRow)
    requires TypedScope(s) && SmallScope(s)
    ensures FitsScope(s)
  {
  }

  lemma BigKey(k: KeyRow, rest: Bytes)
    requires Typed(k) && !Small(k)
    ensures ReadKey(KeyBytes(k) + rest) == Fail
  {
    hide ReadStr, ReadBody, Str, U32, TailBytes, Scopes, SmallScope, TypedScope;
    var c3 := U32(|k.scopes|) + (Scopes(k.scopes) + TailBytes(k.tail));
    var c2 := Str(k.description) + c3;
    var c1 := Str(k.hash) + c2;
    Assoc(Str(k.id), c1, rest);
    Assoc(Str(k.hash), c2, rest);
    Assoc(Str(k.description), c3, rest);
    if |k.id| > 256 {
      LongText(k.id, MAX_ID, c1 + rest);
    } else {
      StrBack(k.id, MAX_ID, c1 + rest);
      if |k.hash| > 256 {
        LongText(k.hash, MAX_HASH, c2 + rest);
      } else {
        StrBack(k.hash, MAX_HASH, c2 + rest);
        if |k.description| > 4096 {
          LongText(k.description, MAX_DESCRIPTION, c3 + rest);
        } else {
          StrBack(k.description, MAX_DESCRIPTION, c3 + rest);
          BigBody(k, rest);
        }
      }
    }
  }

  lemma BigBody(k: KeyRow, rest: Bytes)
    requires Typed(k) && (|k.scopes| > 10000 || exists s | s in k.scopes :: !SmallScope(s))
    ensures ReadBody(U32(|k.scopes|) + (Scopes(k.scopes) + TailBytes(k.tail)) + rest) == Fail
  {
    hide ReadCount, ReadScopes, ReadTail, U32, TailBytes, Scopes, SmallScope, TypedScope;
    var c := Scopes(k.scopes) + TailBytes(k.tail);
    Assoc(U32(|k.scopes|), c, rest);
    Assoc(Scopes(k.scopes), TailBytes(k.tail), rest);
    if |k.scopes| > 10000 {
      BigCount(|k.scopes|, MAX_SCOPES, c + rest);
    } else {
      CountBack(|k.scopes|, MAX_SCOPES, c + rest);
      BigScopes(k.scopes, TailBytes(k.tail) + rest);
    }
  }

  lemma SmallKeyFits(k: KeyRow)
    requires Typed(k) && Small(k)
    ensures FitsKey(k)
  {
    forall s | s in k.scopes
      ensures FitsScope(s)
    {
      SmallFits(s);
    }
  }

  lemma {:induction false} BigKeys(ks: seq<KeyRow>, rest: Bytes)
    requires (forall k | k in ks :: Typed(k)) && exists k | k in ks :: !Small(k)
    ensures ReadKeys(Keys(ks) + rest, |ks|) == Fail
  {
    hide ReadKey, KeyBytes, Typed, Small;
    var init, last := ks[..|ks| - 1], ks[|ks| - 1];
    assert ks == init + [last];
    assert Keys(ks) + rest == Keys(init) + (KeyBytes(last) + rest);
    if exists k | k in init :: !Small(k) {
      BigKeys(init, KeyBytes(last) + rest);
    } else {
      forall k | k in init
        ensures FitsKey(k)
      {
        SmallKeyFits(k);
      }
      KeysBack(init, KeyBytes(last) + rest);
      BigKey(last, rest);
    }
  }

  /** A written snapshot can be read back exactly when it keeps to the reader's limits; then it comes back whole. */
  lemma LimitsAreExact(ks: seq<KeyRow>, rest: Bytes)
    requires |ks| < WORD && forall k | k in ks :: Typed(k)
    ensures Decode(Encode(ks) + rest) == Done(TableOf(ks), rest) <==> |ks| <= 100000 && forall k | k in ks :: Small(k)
    ensures Decode(Encode(ks) + rest) == Fail || Decode(Encode(ks) + rest) == Done(TableOf(ks), rest)
  {
    hide ReadKeys, Keys, Typed, Small, ReadCount, U32, TableOf;
    if |ks| > 100000 {
      Assoc(U32(|ks|), Keys(ks), rest);
      BigCount(|ks|, MAX_KEYS, Keys(ks) + rest);
    } else if exists k | k in ks :: !Small(k) {
      Assoc(U32(|ks|), Keys(ks), rest);
      CountBack(|ks|, MAX_KEYS, Keys(ks) + rest);
      BigKeys(ks, rest);
    } else {
      forall k | k in ks
        ensures FitsKey(k)
      {
        SmallKeyFits(k);
      }
      RoundTrip(ks, rest);
    }
  }

  /** The encrypted file: sixteen bytes, and the least multiple of sixteen that is longer than the text. */
  lemma FileSizeIsExact(plain: nat)
    ensures (FileSize(plain) - 16) % 16 == 0 && FileSize(plain) - 32 <= plain < FileSize(plain) - 16
  {
  }

  // ---------- What comes back ----------

  /** Of a snapshot with different IDs and hashes every field of every key, but for a rate limit that is not positive. */
  lemma KeysComeBack(ks: seq<KeyRow>, i: nat)
    requires Fits(ks) && i < |ks| && forall j, k | 0 <= j < k < |ks| :: ks[j].id != ks[k].id && ks[j].hash != ks[k].hash
    ensures Decode(Encode(ks)).Done? && Decode(Encode(ks)).rest == []
    ensures var t, k := Decode(Encode(ks)).value, ks[i];
      && k.id in t.keys && k.hash in t.hashToId && t.hashToId[k.hash] == k.id
      && var found := t.keys[k.id];
         && found.id == k.id && found.hash == k.hash && found.description == k.description
         && found.tail == k.tail.(rateLimit := found.tail.rateLimit)
         && found.tail.rateLimit == (if k.tail.rateLimit > 0 then k.tail.rateLimit else 1000)
         && (forall j | 0 <= j < |k.scopes| :: k.scopes[j].name in found.scopes)
         && ((forall j, l | 0 <= j < l < |k.scopes| :: k.scopes[j].name != k.scopes[l].name) ==>
               forall j | 0 <= j < |k.scopes| ::
                 && found.scopes[k.scopes[j].name].filters == k.scopes[j].filters
                 && forall a :: a in found.scopes[k.scopes[j].name].actions <==> a in k.scopes[j].actions)
  {
    hide Encode, Decode, TableOf, ScopesOf, Fits;
    assert Encode(ks) + [] == Encode(ks);
    RoundTrip(ks, []);
    TableHolds(ks, i);
    var k := ks[i];
    forall j | 0 <= j < |k.scopes|
      ensures k.scopes[j].name in ScopesOf(k.scopes)
    {
      ScopeNamed(k.scopes, j);
    }
    if forall j, l | 0 <= j < l < |k.scopes| :: k.scopes[j].name != k.scopes[l].name {
      forall j | 0 <= j < |k.scopes|
        ensures ScopesOf(k.scopes)[k.scopes[j].name] == Scope(ActionsOf(k.scopes[j].actions), k.scopes[j].filters)
      {
        ScopesHold(k.scopes, j);
      }
    }
  }

  lemma {:induction false} ScopeNamed(s: seq<ScopeRow>, j: nat)
    requires j < |s|
    ensures s[j].name in ScopesOf(s)
  {
    if j < |s| - 1 {
      ScopeNamed(s[..|s| - 1], j);
    }
  }
}
