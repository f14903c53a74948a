/**
 Bulk import: parse, drop repeated IDs, split by owner node, store in chunks, count.
 */
module BulkImport {

  datatype Doc = Doc(id: string, data: int)

  /** A payload entry, or one that did not parse or match the schema. */
  datatype Entry = Unusable | Usable(doc: Doc)

  datatype Target = Local | Remote(node: string)

  /** The documents that go to one peer. */
  datatype Group = Group(node: string, docs: seq<Doc>)

  /** `HalfRead` has a count of imported documents and an unreadable count of failed ones. */
  datatype Reply = Unreachable | BadStatus | Unreadable | HalfRead(imported: nat) | Counts(imported: nat, failed: nat)

  datatype Batch = Threw | Inserted(count: nat)

  /** What the storage engine will answer: to the batch that starts at a position, and to single documents. */
  datatype Storage = Storage(batch: nat -> Batch, single: nat -> bool)

  const DEFAULT_CHUNK := 500
  const MAX_CHUNK := 10000

  datatype Option<T> = None | Some(value: T)

  /** The requested batch size, where it is a positive number. */
  function ChunkSize(requested: Option<nat>): (size: nat)
    ensures 0 < size <= MAX_CHUNK
  {
    match requested
    case None => DEFAULT_CHUNK
    case Some(n) => if n == 0 then DEFAULT_CHUNK else if n < MAX_CHUNK then n else MAX_CHUNK
  }

  // ---------- Repeated IDs ----------

  predicate IsFirst(docs: seq<Doc>, i: int) {
    0 <= i < |docs| && docs[i].id != "" && forall j | 0 <= j < i :: docs[j].id != docs[i].id
  }

  function Unique(docs: seq<Doc>): seq<Doc> {
    if docs == [] then []
    else
      var n := |docs| - 1;
      Unique(docs[..n]) + if IsFirst(docs, n) then [docs[n]] else []
  }

  /** The positions that `Unique` keeps. */
  ghost function Kept(docs: seq<Doc>): seq<nat> {
    if docs == [] then []
    else
      var n := |docs| - 1;
      Kept(docs[..n]) + if IsFirst(docs, n) then [n] else []
  }

  function Count(docs: seq<Doc>, empty: bool): nat {
    if docs == [] then 0
    else Count(docs[..|docs| - 1], empty) + if (docs[|docs| - 1].id == "") == empty then 1 else 0
  }

  lemma FirstInPrefix(docs: seq<Doc>, n: nat, i: int)
    requires i < n <= |docs|
    ensures IsFirst(docs[..n], i) <==> IsFirst(docs, i)
  {
  }

  lemma {:induction false} KeptIsExact(docs: seq<Doc>)
    ensures forall i :: i in Kept(docs) <==> IsFirst(docs, i)
  {
    hide IsFirst;
    if docs != [] {
      var n := |docs| - 1;
      KeptIsExact(docs[..n]);
      var tail: seq<nat> := if IsFirst(docs, n) then [n] else [];
      assert Kept(docs) == Kept(docs[..n]) + tail;
      forall i
        ensures i in Kept(docs) <==> IsFirst(docs, i)
      {
        assert i in Kept(docs) <==> i in Kept(docs[..n]) || i in tail;
        if i < n {
          FirstInPrefix(docs, n, i);
        } else {
          FirstIsInside(docs, i);
          FirstIsInside(docs[..n], i);
        }
      }
    } else {
      forall i
        ensures !IsFirst(docs, i)
      {
        FirstIsInside(docs, i);
      }
    }
  }

  lemma FirstIsInside(docs: seq<Doc>, i: int)
    ensures IsFirst(docs, i) ==> 0 <= i < |docs|
  {
  }

  /** The kept positions ascend, so the order of the payload is kept. */
  lemma {:induction false} KeptAscends(docs: seq<Doc>)
    ensures var k := Kept(docs);
      && (forall i, j | 0 <= i < j < |k| :: k[i] < k[j])
      && |Unique(docs)| == |k|
      && (forall i | 0 <= i < |k| :: k[i] < |docs| && Unique(docs)[i] == docs[k[i]])
  {
    hide IsFirst;
    if docs != [] {
      var n := |docs| - 1;
      var init := docs[..n];
      KeptAscends(init);
      if IsFirst(docs, n) {
        assert Kept(docs) == Kept(init) + [n] && Unique(docs) == Unique(init) + [docs[n]];
      } else {
        assert Kept(docs) == Kept(init) && Unique(docs) == Unique(init);
      }
      hide Kept, Unique;
    }
  }

  lemma UniqueIds(docs: seq<Doc>)
    ensures forall i, j | 0 <= i < j < |Unique(docs)| :: Unique(docs)[i].id != Unique(docs)[j].id
    ensures forall i | 0 <= i < |Unique(docs)| :: Unique(docs)[i].id != ""
    ensures forall d | d in docs && d.id != "" :: exists i :: 0 <= i < |Unique(docs)| && Unique(docs)[i].id == d.id
  {
    KeptIsExact(docs);
    KeptAscends(docs);
    var k := Kept(docs);
    assert forall i | 0 <= i < |k| :: k[i] in k && IsFirst(docs, k[i]);
    forall d | d in docs && d.id != ""
      ensures exists i :: 0 <= i < |k| && Unique(docs)[i].id == d.id
    {
      var m :| 0 <= m < |docs| && docs[m] == d;
      var f := FirstOf(docs, m);
      assert f in k;
      var i :| 0 <= i < |k| && k[i] == f;
      assert Unique(docs)[i].id == d.id;
    }
  }

  ghost function FirstOf(docs: seq<Doc>, m: nat): (f: nat)
    requires m < |docs| && docs[m].id != ""
    ensures f <= m && IsFirst(docs, f) && docs[f].id == docs[m].id
  {
    if j :| 0 <= j < m && docs[j].id == docs[m].id then FirstOf(docs, j) else m
  }

  lemma {:induction false} UniqueIsShort(docs: seq<Doc>)
    ensures |Unique(docs)| <= Count(docs, false) && Count(docs, false) + Count(docs, true) == |docs|
  {
    if docs != [] {
      UniqueIsShort(docs[..|docs| - 1]);
    }
  }

  method DropRepeats(docs: seq<Doc>) returns (unique: seq<Doc>, failed: nat)
    ensures unique == Unique(docs) && failed + |unique| == Count(docs, false)
  {
    unique, failed := [], 0;
    var seen: set<string> := {};
    for n := 0 to |docs|
      invariant unique == Unique(docs[..n]) && failed == Count(docs[..n], false) - |unique|
      invariant seen == set i | 0 <= i < n && docs[i].id != "" :: docs[i].id
    {
      assert docs[..n + 1][..n] == docs[..n];
      var d := docs[n];
      if d.id != "" {
        if d.id in seen {
          failed := failed + 1;
        } else {
          seen := seen + {d.id};
          unique := unique + [d];
        }
      }
    }
    assert docs[..|docs|] == docs;
  }

  // ---------- Splitting by owner ----------

  function Only(docs: seq<Doc>, route: string -> Target, t: Target): seq<Doc> {
    if docs == [] then []
    else Only(docs[..|docs| - 1], route, t) + if route(docs[|docs| - 1].id) == t then [docs[|docs| - 1]] else []
  }

  predicate HasGroup(gs: seq<Group>, node: string) {
    exists i :: 0 <= i < |gs| && gs[i].node == node
  }

  /** Append to the peer's list, which a first document creates. */
  function Put(gs: seq<Group>, node: string, d: Doc): seq<Group> {
    if gs == [] then [Group(node, [d])]
    else if gs[0].node == node then [Group(node, gs[0].docs + [d])] + gs[1..]
    else [gs[0]] + Put(gs[1..], node, d)
  }

  function Groups(docs: seq<Doc>, route: string -> Target): seq<Group> {
    if docs == [] then []
    else
      var gs, d := Groups(docs[..|docs| - 1], route), docs[|docs| - 1];
      match route(d.id)
      case Local => gs
      case Remote(node) => Put(gs, node, d)
  }

  function All(gs: seq<Group>): seq<Doc> {
    if gs == [] then [] else gs[0].docs + All(gs[1..])
  }

  lemma {:induction false} PutKeepsAll(gs: seq<Group>, node: string, d: Doc)
    ensures multiset(All(Put(gs, node, d))) == multiset(All(gs)) + multiset{d}
  {
    if gs != [] {
      if gs[0].node == node {
        assert Put(gs, node, d)[1..] == gs[1..];
      } else {
        PutKeepsAll(gs[1..], node, d);
        assert Put(gs, node, d)[1..] == Put(gs[1..], node, d);
      }
    } else {
      assert All(Put(gs, node, d)) == [d] + All([]);
    }
  }

  /** No document is lost or doubled by the split. */
  lemma {:induction false} SplitKeepsAll(docs: seq<Doc>, route: string -> Target)
    ensures multiset(Only(docs, route, Local)) + multiset(All(Groups(docs, route))) == multiset(docs)
  {
    hide Put;
    if docs != [] {
      var init, d := docs[..|docs| - 1], docs[|docs| - 1];
      SplitKeepsAll(init, route);
      assert multiset(docs) == multiset(init) + multiset{d} by {
        assert docs == init + [d];
      }
      match route(d.id)
      case Local =>
        assert Only(docs, route, Local) == Only(init, route, Local) + [d];
      case Remote(node) =>
        assert Only(docs, route, Local) == Only(init, route, Local);
        PutKeepsAll(Groups(init, route), node, d);
    }
  }

  /** Each peer has one list, and it holds that peer's documents in order. */
  ghost predicate Sorted(gs: seq<Group>, docs: seq<Doc>, route: string -> Target) {
    && (forall i, j | 0 <= i < j < |gs| :: gs[i].node != gs[j].node)
    && (forall i | 0 <= i < |gs| :: gs[i].docs == Only(docs, route, Remote(gs[i].node)))
  }

  lemma {:induction false} PutAt(gs: seq<Group>, node: string, d: Doc)
    requires forall i, j | 0 <= i < j < |gs| :: gs[i].node != gs[j].node
    ensures var hs := Put(gs, node, d);
      && |gs| <= |hs| <= |gs| + 1 && HasGroup(hs, node)
      && (forall i | 0 <= i < |gs| :: hs[i].node == gs[i].node &&
                     hs[i].docs == gs[i].docs + if gs[i].node == node then [d] else [])
      && (|hs| == |gs| + 1 <==> !HasGroup(gs, node))
      && (|hs| == |gs| + 1 ==> hs[|gs|] == Group(node, [d]))
  {
    hide HasGroup;
    if gs == [] {
      OneGroupMore(Put(gs, node, d), node);
      assert !HasGroup(gs, node) by { NoGroup(node); }
    } else if gs[0].node == node {
      OneGroupMore(gs, node);
      OneGroupMore(Put(gs, node, d), node);
    } else {
      PutAt(gs[1..], node, d);
      var hs := Put(gs, node, d);
      assert hs[1..] == Put(gs[1..], node, d);
      OneGroupMore(gs, node);
      OneGroupMore(hs, node);
    }
  }

  lemma NoGroup(node: string)
    ensures !HasGroup([], node)
  {
  }

  lemma OneGroupMore(gs: seq<Group>, node: string)
    requires gs != []
    ensures HasGroup(gs, node) <==> gs[0].node == node || HasGroup(gs[1..], node)
  {
    if HasGroup(gs, node) && gs[0].node != node {
      var j :| 0 <= j < |gs| && gs[j].node == node;
      assert gs[1..][j - 1].node == node;
    }
    if HasGroup(gs[1..], node) {
      var j :| 0 <= j < |gs| - 1 && gs[1..][j].node == node;
      assert gs[j + 1].node == node;
    }
  }

  lemma {:induction false} GroupsAreSorted(docs: seq<Doc>, route: string -> Target)
    ensures Sorted(Groups(docs, route), docs, route)
    ensures forall node :: !HasGroup(Groups(docs, route), node) ==> Only(docs, route, Remote(node)) == []
  {
    hide Put, HasGroup;
    if docs != [] {
      var init, d := docs[..|docs| - 1], docs[|docs| - 1];
      GroupsAreSorted(init, route);
      var gs := Groups(init, route);
      match route(d.id)
      case Local =>
      case Remote(node) =>
        assert docs == init + [d];
        NewGroupSorted(gs, init, d, route, node);
        forall m
          ensures !HasGroup(Put(gs, node, d), m) ==> Only(init + [d], route, Remote(m)) == []
        {
          NoGroupNoDocs(gs, init, d, route, node, m);
        }
    }
  }

  lemma OnlyStep(init: seq<Doc>, d: Doc, route: string -> Target, t: Target)
    ensures Only(init + [d], route, t) == Only(init, route, t) + if route(d.id) == t then [d] else []
  {
    assert (init + [d])[..|init|] == init;
  }

  lemma NewGroupSorted(gs: seq<Group>, init: seq<Doc>, d: Doc, route: string -> Target, node: string)
    requires Sorted(gs, init, route) && route(d.id) == Remote(node)
    requires forall m :: !HasGroup(gs, m) ==> Only(init, route, Remote(m)) == []
    ensures Sorted(Put(gs, node, d), init + [d], route)
  {
    hide Put, Only;
    PutAt(gs, node, d);
    var hs := Put(gs, node, d);
    forall i | 0 <= i < |hs|
      ensures hs[i].docs == Only(init + [d], route, Remote(hs[i].node))
    {
      OnlyStep(init, d, route, Remote(hs[i].node));
    }
    assert |hs| > |gs| ==> forall i | 0 <= i < |gs| :: gs[i].node != node;
  }

  lemma NoGroupNoDocs(gs: seq<Group>, init: seq<Doc>, d: Doc, route: string -> Target, node: string, m: string)
    requires Sorted(gs, init, route) && route(d.id) == Remote(node)
    requires !HasGroup(gs, m) ==> Only(init, route, Remote(m)) == []
    ensures !HasGroup(Put(gs, node, d), m) ==> Only(init + [d], route, Remote(m)) == []
  {
    hide Put, Only;
    PutAt(gs, node, d);
    OnlyStep(init, d, route, Remote(m));
    GroupStays(gs, node, d, m);
  }

  lemma GroupStays(gs: seq<Group>, node: string, d: Doc, m: string)
    requires forall i, j | 0 <= i < j < |gs| :: gs[i].node != gs[j].node
    ensures HasGroup(gs, m) ==> HasGroup(Put(gs, node, d), m)
  {
    hide Put;
    PutAt(gs, node, d);
    if HasGroup(gs, m) {
      var i :| 0 <= i < |gs| && gs[i].node == m;
      assert Put(gs, node, d)[i].node == m;
    }
  }

  // ---------- Chunks ----------

  function Chunks(docs: seq<Doc>, size: nat): seq<seq<Doc>>
    requires size > 0
  {
    if |docs| <= size then (if docs == [] then [] else [docs]) else [docs[..size]] + Chunks(docs[size..], size)
  }

  function Joined(parts: seq<seq<Doc>>): seq<Doc> {
    if parts == [] then [] else parts[0] + Joined(parts[1..])
  }

  function ChunksFrom(docs: seq<Doc>, size: nat, start: nat): seq<seq<Doc>>
    requires size > 0
  {
    if start < |docs| then Chunks(docs[start..], size) else []
  }

  lemma AllChunks(docs: seq<Doc>, size: nat)
    requires size > 0
    ensures ChunksFrom(docs, size, 0) == Chunks(docs, size)
    ensures forall start: nat | start >= |docs| :: ChunksFrom(docs, size, start) == []
  {
    assert docs[0..] == docs;
  }

  lemma NextOf(docs: seq<Doc>, size: nat, start: nat)
    requires size > 0 && start < |docs|
    ensures ChunksFrom(docs, size, start) ==
            [docs[start..End(|docs|, size, start)]] + ChunksFrom(docs, size, start + size)
  {
    var rest := docs[start..];
    if |rest| > size {
      assert rest[..size] == docs[start..start + size] && rest[size..] == docs[start + size..];
    } else {
      assert docs[start..|docs|] == rest;
      assert Chunks(rest, size) == [rest];
    }
  }

  /** Nothing is lost between chunks; every chunk but the last is full, and none is empty. */
  lemma {:induction false} ChunksJoin(docs: seq<Doc>, size: nat)
    requires size > 0
    ensures var c := Chunks(docs, size);
      && Joined(c) == docs
      && (forall i | 0 <= i < |c| :: 0 < |c[i]| <= size && (i < |c| - 1 ==> |c[i]| == size))
  {
    if |docs| > size {
      ChunksJoin(docs[size..], size);
      assert Chunks(docs, size)[1..] == Chunks(docs[size..], size);
    } else if docs != [] {
      assert Joined([docs]) == docs + Joined([]);
    }
  }

  /** A requested size from 1 to 10000 is used, a larger one cut to 10000, and 500 where there is none. */
  lemma ChunksAsRequested(docs: seq<Doc>, requested: Option<nat>, i: nat)
    requires i + 1 < |Chunks(docs, ChunkSize(requested))|
    ensures var full := |Chunks(docs, ChunkSize(requested))[i]|;
      match requested
      case None => full == 500
      case Some(n) => if 1 <= n <= 10000 then full == n else if n == 0 then full == 500 else full == 10000
  {
    hide Chunks;
    ChunksJoin(docs, ChunkSize(requested));
  }

  // ---------- Counting ----------

  datatype Tally = Tally(imported: nat, failed: nat) {
    function Plus(t: Tally): Tally {
      Tally(imported + t.imported, failed + t.failed)
    }

    function Total(): nat {
      imported + failed
    }
  }

  /** What a peer's answer adds for the documents sent to it. */
  function PeerTally(r: Reply, sent: nat): Tally {
    match r
    case Unreachable => Tally(0, sent)
    case BadStatus => Tally(0, sent)
    case Unreadable => Tally(0, sent)
    case HalfRead(i) => Tally(i, sent)
    case Counts(i, f) => Tally(i, f)
  }

  function PeersTally(gs: seq<Group>, replies: string -> Reply): Tally {
    if gs == [] then Tally(0, 0)
    else PeerTally(replies(gs[0].node), |gs[0].docs|).Plus(PeersTally(gs[1..], replies))
  }

  /** Documents sent that the peers did not account for; negative when they counted too many. */
  function PeersMissing(gs: seq<Group>, replies: string -> Reply): int {
    if gs == [] then 0
    else |gs[0].docs| - PeerTally(replies(gs[0].node), |gs[0].docs|).Total() + PeersMissing(gs[1..], replies)
  }

  function Singles(st: Storage, from: nat, until: nat): (n: nat)
    requires from <= until
    ensures n <= until - from
    decreases until
  {
    if from == until then 0 else Singles(st, from, until - 1) + if st.single(until - 1) then 1 else 0
  }

  /** A batch that stores anything is not retried; otherwise every document is tried alone. */
  function ChunkTally(st: Storage, from: nat, until: nat): Tally
    requires from <= until
  {
    if st.batch(from).Inserted? && st.batch(from).count > 0 then Tally(st.batch(from).count, 0)
    else Tally(Singles(st, from, until), until - from - Singles(st, from, until))
  }

  function End(n: nat, size: nat, start: nat): nat {
    if start + size < n then start + size else n
  }

  function LocalTally(st: Storage, n: nat, size: nat, start: nat): Tally
    requires size > 0
    decreases n - start
  {
    if start >= n then Tally(0, 0)
    else ChunkTally(st, start, End(n, size, start)).Plus(LocalTally(st, n, size, start + size))
  }

  function LocalMissing(st: Storage, n: nat, size: nat, start: nat): int
    requires size > 0
    decreases n - start
  {
    if start >= n then 0
    else
      var end := End(n, size, start);
      end - start - ChunkTally(st, start, end).Total() + LocalMissing(st, n, size, start + size)
  }

  lemma {:induction false} LocalConserves(st: Storage, n: nat, size: nat, start: nat)
    requires size > 0 && start <= n
    ensures LocalTally(st, n, size, start).Total() + LocalMissing(st, n, size, start) == n - start
    decreases n - start
  {
    hide ChunkTally, LocalTally, LocalMissing;
    if start < n {
      NextChunk(st, n, size, start);
      if start + size <= n {
        LocalConserves(st, n, size, start + size);
      } else {
        NoChunk(st, n, size, start + size);
      }
    } else {
      NoChunk(st, n, size, start);
    }
  }

  lemma NextChunk(st: Storage, n: nat, size: nat, start: nat)
    requires size > 0 && start < n
    ensures var c, next := ChunkTally(st, start, End(n, size, start)).Total(), start + size;
      && LocalTally(st, n, size, start).Total() == c + LocalTally(st, n, size, next).Total()
      && LocalMissing(st, n, size, start) == End(n, size, start) - start - c + LocalMissing(st, n, size, next)
  {
    hide ChunkTally;
  }

  lemma NextTally(st: Storage, n: nat, size: nat, start: nat)
    requires size > 0 && start < n
    ensures LocalTally(st, n, size, start) == ChunkTally(st, start, End(n, size, start)).Plus(LocalTally(st, n, size, start + size))
  {
    hide ChunkTally;
  }

  lemma NoTally(st: Storage, n: nat, size: nat, start: nat)
    requires size > 0 && start >= n
    ensures LocalTally(st, n, size, start) == Tally(0, 0)
  {
  }

  lemma NoChunk(st: Storage, n: nat, size: nat, start: nat)
    requires size > 0 && start >= n
    ensures LocalTally(st, n, size, start).Total() == 0 && LocalMissing(st, n, size, start) == 0
  {
    hide ChunkTally;
  }

  lemma {:induction false} PeersConserve(gs: seq<Group>, replies: string -> Reply)
    ensures PeersTally(gs, replies).Total() + PeersMissing(gs, replies) == |All(gs)|
  {
    if gs != [] {
      PeersConserve(gs[1..], replies);
    }
  }

  function Docs(entries: seq<Entry>): (docs: seq<Doc>)
    ensures |docs| <= |entries|
  {
    if entries == [] then []
    else Docs(entries[..|entries| - 1]) +
         match entries[|entries| - 1] { case Unusable => [] case Usable(d) => [d] }
  }

  /** The usable entries, each once and in order. */
  lemma {:induction false} DocsJoin(es: seq<Entry>, fs: seq<Entry>)
    ensures Docs(es + fs) == Docs(es) + Docs(fs)
  {
    if fs == [] {
      assert es + fs == es;
    } else {
      var init := fs[..|fs| - 1];
      DocsJoin(es, init);
      assert (es + fs)[..|es + fs| - 1] == es + init;
    }
  }

  lemma DocsOfOne(d: Doc)
    ensures Docs([Usable(d)]) == [d] && Docs([Unusable]) == [] && Docs([]) == []
  {
    assert [Usable(d)][..0] == [] && [Unusable][..0] == [];
  }

  /** Everything the import depends on besides the payload. */
  datatype Setting = Setting(distributed: bool, route: string -> Target, replies: string -> Reply,
                             requested: Option<nat>, journals: bool, storage: Storage)

  function Sent(docs: seq<Doc>, s: Setting): seq<Group> {
    if s.distributed then Groups(Unique(docs), s.route) else []
  }

  function LocalDocs(docs: seq<Doc>, s: Setting): seq<Doc> {
    if s.distributed then Only(Unique(docs), s.route, Local) else Unique(docs)
  }

  /** Entries that end up in neither counter. */
  function Missing(docs: seq<Doc>, s: Setting): int {
    Count(docs, true) + PeersMissing(Sent(docs, s), s.replies)
    + LocalMissing(s.storage, |LocalDocs(docs, s)|, ChunkSize(s.requested), 0)
  }

  /** The documents stored here and sent away are the unique ones. */
  lemma NothingLost(docs: seq<Doc>, s: Setting)
    ensures |LocalDocs(docs, s)| + |All(Sent(docs, s))| == |Unique(docs)|
  {
    if s.distributed {
      var u := Unique(docs);
      SplitKeepsAll(u, s.route);
      assert |multiset(u)| == |multiset(LocalDocs(docs, s))| + |multiset(All(Sent(docs, s)))|;
    }
  }

  // ---------- The counters as sums ----------

  function Sum(xs: seq<int>): int {
    if xs == [] then 0 else xs[0] + Sum(xs[1..])
  }

  /** The counts of imported documents in the peers' replies, where there is one to read. */
  function Reported(gs: seq<Group>, replies: string -> Reply): seq<int> {
    seq(|gs|, i requires 0 <= i < |gs| =>
      var r := replies(gs[i].node); if r.Counts? || r.HalfRead? then r.imported else 0)
  }

  /** Failures: as many as a peer reports, and all documents sent to one without a complete report. */
  function NotTaken(gs: seq<Group>, replies: string -> Reply): seq<int> {
    seq(|gs|, i requires 0 <= i < |gs| =>
      var r := replies(gs[i].node); if r.Counts? then r.failed else |gs[i].docs|)
  }

  lemma {:induction false} PeersAreSums(gs: seq<Group>, replies: string -> Reply)
    ensures PeersTally(gs, replies).imported == Sum(Reported(gs, replies))
    ensures PeersTally(gs, replies).failed == Sum(NotTaken(gs, replies))
  {
    if gs != [] {
      PeersAreSums(gs[1..], replies);
      assert Reported(gs, replies)[1..] == Reported(gs[1..], replies);
      assert NotTaken(gs, replies)[1..] == NotTaken(gs[1..], replies);
    }
  }

  /** The documents of a chunk that are stored, or refused, when each is tried alone. */
  function Alone(st: Storage, from: nat, until: nat, stored: bool): set<nat> {
    set i: nat | from <= i < until && st.single(i) == stored
  }

  lemma OneMoreAlone(st: Storage, from: nat, until: nat)
    requires from < until
    ensures var here := st.single(until - 1);
      && |Alone(st, from, until, here)| == |Alone(st, from, until - 1, here)| + 1
      && |Alone(st, from, until, !here)| == |Alone(st, from, until - 1, !here)|
  {
    var here := st.single(until - 1);
    assert Alone(st, from, until, here) == Alone(st, from, until - 1, here) + {until - 1};
    assert Alone(st, from, until, !here) == Alone(st, from, until - 1, !here);
  }

  lemma {:induction false} SinglesAreAlone(st: Storage, from: nat, until: nat)
    requires from <= until
    ensures Singles(st, from, until) == |Alone(st, from, until, true)|
    ensures until - from - Singles(st, from, until) == |Alone(st, from, until, false)|
    decreases until
  {
    if from < until {
      SinglesAreAlone(st, from, until - 1);
      OneMoreAlone(st, from, until);
    } else {
      assert Alone(st, from, until, true) == {} && Alone(st, from, until, false) == {};
    }
  }

  /** Where the chunks start. */
  function Starts(n: nat, size: nat, start: nat): seq<nat>
    requires size > 0
    decreases n - start
  {
    if start >= n then [] else [start] + Starts(n, size, start + size)
  }

  predicate Batched(st: Storage, start: nat) {
    st.batch(start).Inserted? && st.batch(start).count > 0
  }

  /** What storage says it took of each chunk: the batch's own count, or the documents stored alone. */
  function Taken(st: Storage, n: nat, size: nat, start: nat): seq<int>
    requires size > 0
  {
    var starts := Starts(n, size, start);
    seq(|starts|, j requires 0 <= j < |starts| =>
      if Batched(st, starts[j]) then st.batch(starts[j]).count else |Alone(st, starts[j], End(n, size, starts[j]), true)|)
  }

  /** What was refused of each chunk: every document that was refused alone. */
  function Refused(st: Storage, n: nat, size: nat, start: nat): seq<int>
    requires size > 0
  {
    var starts := Starts(n, size, start);
    seq(|starts|, j requires 0 <= j < |starts| =>
      if Batched(st, starts[j]) then 0 else |Alone(st, starts[j], End(n, size, starts[j]), false)|)
  }

  lemma {:induction false} ChunksAreSums(st: Storage, n: nat, size: nat, start: nat)
    requires size > 0
    ensures LocalTally(st, n, size, start).imported == Sum(Taken(st, n, size, start))
    ensures LocalTally(st, n, size, start).failed == Sum(Refused(st, n, size, start))
    decreases n - start
  {
    hide Alone, Singles;
    if start < n {
      ChunksAreSums(st, n, size, start + size);
      SinglesAreAlone(st, start, End(n, size, start));
      assert Starts(n, size, start)[1..] == Starts(n, size, start + size);
      assert Taken(st, n, size, start)[1..] == Taken(st, n, size, start + size);
      assert Refused(st, n, size, start)[1..] == Refused(st, n, size, start + size);
    }
  }

  /** The chunks are handed over one after the other, each from where the last one ended. */
  lemma {:induction false} StartsAreExact(docs: seq<Doc>, size: nat, start: nat)
    requires size > 0
    ensures var starts, chunks := Starts(|docs|, size, start), ChunksFrom(docs, size, start);
      && |starts| == |chunks|
      && forall j | 0 <= j < |starts| ::
           starts[j] < |docs| && chunks[j] == docs[starts[j]..End(|docs|, size, starts[j])]
    decreases |docs| - start
  {
    hide Chunks;
    AllChunks(docs, size);
    if start < |docs| {
      StartsAreExact(docs, size, start + size);
      NextOf(docs, size, start);
    }
  }

  lemma {:induction false} NoneIsZero(xs: seq<int>)
    requires forall i | 0 <= i < |xs| :: xs[i] == 0
    ensures Sum(xs) == 0
  {
    if xs != [] {
      NoneIsZero(xs[1..]);
    }
  }

  lemma {:induction false} PartOfSum(xs: seq<int>, i: nat)
    requires i < |xs| && forall j | 0 <= j < |xs| :: xs[j] >= 0
    ensures xs[i] <= Sum(xs) && Sum(xs) >= 0
  {
    if |xs| > 1 {
      PartOfSum(xs[1..], if i > 0 then i - 1 else 0);
    }
  }

  predicate Silent(r: Reply) {
    r.Unreachable? || r.BadStatus? || r.Unreadable?
  }

  /** If no peer sent a count and storage stored nothing, nothing is reported as imported. */
  lemma NothingFromNothing(docs: seq<Doc>, s: Setting)
    requires forall i | 0 <= i < |Sent(docs, s)| :: Silent(s.replies(Sent(docs, s)[i].node))
    requires forall i :: (s.storage.batch(i).Inserted? ==> s.storage.batch(i).count == 0) && !s.storage.single(i)
    ensures Sum(Reported(Sent(docs, s), s.replies)) == 0
    ensures Sum(Taken(s.storage, |LocalDocs(docs, s)|, ChunkSize(s.requested), 0)) == 0
  {
    hide Sent, LocalDocs, ChunkSize, Sum;
    NoneIsZero(Reported(Sent(docs, s), s.replies));
    var n, size := |LocalDocs(docs, s)|, ChunkSize(s.requested);
    var starts := Starts(n, size, 0);
    forall j | 0 <= j < |starts|
      ensures Taken(s.storage, n, size, 0)[j] == 0
    {
      assert Alone(s.storage, starts[j], End(n, size, starts[j]), true) == {};
    }
    NoneIsZero(Taken(s.storage, n, size, 0));
  }

  lemma SilentPeersFail(docs: seq<Doc>, s: Setting)
    ensures var gs := Sent(docs, s);
      forall i | 0 <= i < |gs| :: Silent(s.replies(gs[i].node)) ==> |gs[i].docs| <= Sum(NotTaken(gs, s.replies))
  {
    hide Sent, Sum;
    var gs := Sent(docs, s);
    var failed := NotTaken(gs, s.replies);
    assert forall j | 0 <= j < |failed| :: failed[j] == if s.replies(gs[j].node).Counts? then s.replies(gs[j].node).failed else |gs[j].docs|;
    forall i | 0 <= i < |gs| && Silent(s.replies(gs[i].node))
      ensures |gs[i].docs| <= Sum(NotTaken(gs, s.replies))
    {
      PartOfSum(NotTaken(gs, s.replies), i);
    }
  }

  // ---------- The handler ----------

  method ReadEntries(entries: seq<Entry>) returns (docs: seq<Doc>, failed: nat)
    ensures docs == Docs(entries) && failed == |entries| - |docs|
  {
    docs, failed := [], 0;
    for i := 0 to |entries|
      invariant docs == Docs(entries[..i]) && failed == i - |docs|
    {
      assert entries[..i + 1][..i] == entries[..i];
      match entries[i]
      case Unusable => failed := failed + 1;
      case Usable(d) => docs := docs + [d];
    }
    assert entries[..|entries|] == entries;
  }

  method Split(docs: seq<Doc>, route: string -> Target) returns (here: seq<Doc>, gs: seq<Group>)
    ensures here == Only(docs, route, Local) && gs == Groups(docs, route)
  {
    here, gs := [], [];
    for i := 0 to |docs|
      invariant here == Only(docs[..i], route, Local) && gs == Groups(docs[..i], route)
    {
      assert docs[..i + 1][..i] == docs[..i];
      match route(docs[i].id)
      case Local => here := here + [docs[i]];
      case Remote(node) => gs := Put(gs, node, docs[i]);
    }
    assert docs[..|docs|] == docs;
  }

  method Forward(gs: seq<Group>, replies: string -> Reply) returns (t: Tally)
    ensures t == PeersTally(gs, replies)
    ensures t.imported == Sum(Reported(gs, replies)) && t.failed == Sum(NotTaken(gs, replies))
  {
    PeersAreSums(gs, replies);
    t := Tally(0, 0);
    for i := 0 to |gs|
      invariant t.Plus(PeersTally(gs[i..], replies)) == PeersTally(gs, replies)
    {
      var sent := |gs[i].docs|;
      assert gs[i..][1..] == gs[i + 1..];
      match replies(gs[i].node)
      case Unreachable => t := Tally(t.imported, t.failed + sent);
      case BadStatus => t := Tally(t.imported, t.failed + sent);
      case Unreadable => t := Tally(t.imported, t.failed + sent);
      case HalfRead(n) => t := Tally(t.imported + n, t.failed + sent);
      case Counts(n, f) => t := Tally(t.imported + n, t.failed + f);
    }
  }

  method StoreChunk(st: Storage, from: nat, until: nat) returns (t: Tally)
    requires from <= until
    ensures t == ChunkTally(st, from, until)
    ensures st.batch(from).Inserted? && st.batch(from).count > 0 ==> t == Tally(st.batch(from).count, 0)
    ensures st.batch(from) == Inserted(0) || st.batch(from) == Threw ==>
      t.imported == |set i: nat | from <= i < until && st.single(i)| && t.failed == |set i: nat | from <= i < until && !st.single(i)|
  {
    SinglesAreAlone(st, from, until);
    assert Alone(st, from, until, true) == set i: nat | from <= i < until && st.single(i);
    assert Alone(st, from, until, false) == set i: nat | from <= i < until && !st.single(i);
    var batch := st.batch(from);
    if batch.Inserted? && batch.count > 0 {
      return Tally(batch.count, 0);
    }
    var ok, failed := 0, 0;
    for i := from to until
      invariant ok == Singles(st, from, i) && failed == i - from - ok
    {
      if st.single(i) {
        ok := ok + 1;
      } else {
        failed := failed + 1;
      }
    }
    return Tally(ok, failed);
  }

  /** The local documents reach the storage engine in chunks. */
  method StoreAll(st: Storage, docs: seq<Doc>, size: nat) returns (t: Tally, given: seq<seq<Doc>>)
    requires size > 0
    ensures t == LocalTally(st, |docs|, size, 0)
    ensures t.imported == Sum(Taken(st, |docs|, size, 0)) && t.failed == Sum(Refused(st, |docs|, size, 0))
    ensures given == Chunks(docs, size)
  {
    hide ChunkTally, Chunks, ChunksFrom, Sum, Taken, Refused, LocalTally;
    ChunksAreSums(st, |docs|, size, 0);
    t, given := Tally(0, 0), [];
    AllChunks(docs, size);
    var start := 0;
    while start < |docs|
      invariant t.Plus(LocalTally(st, |docs|, size, start)) == LocalTally(st, |docs|, size, 0)
      invariant given + ChunksFrom(docs, size, start) == Chunks(docs, size)
      decreases |docs| - start
    {
      var end := End(|docs|, size, start);
      NextOf(docs, size, start);
      NextTally(st, |docs|, size, start);
      given := given + [docs[start..end]];
      var c := StoreChunk(st, start, end);
      t := t.Plus(c);
      start := start + size;
    }
    NoTally(st, |docs|, size, start);
  }

  /**
   Every payload entry is counted once, except for the missing ones. There is no answer with
   counters when the journal refuses the local documents.
   */
  method Import(entries: seq<Entry>, s: Setting) returns (r: Option<Tally>)
    ensures r == None <==> LocalDocs(Docs(entries), s) != [] && !s.journals
    ensures r.Some? ==> r.value.Total() + Missing(Docs(entries), s) == |entries|
    ensures r.Some? ==>
      r.value.imported == Sum(Reported(Sent(Docs(entries), s), s.replies))
                          + Sum(Taken(s.storage, |LocalDocs(Docs(entries), s)|, ChunkSize(s.requested), 0))
    ensures r.Some? ==>
      r.value.failed == |entries| - |Docs(entries)| + Count(Docs(entries), false) - |Unique(Docs(entries))|
                        + Sum(NotTaken(Sent(Docs(entries), s), s.replies))
                        + Sum(Refused(s.storage, |LocalDocs(Docs(entries), s)|, ChunkSize(s.requested), 0))
    // nothing is reported as imported that no peer counted and storage did not take
    ensures r.Some? && r.value.imported > 0 ==>
      || (exists i | 0 <= i < |Sent(Docs(entries), s)| :: !Silent(s.replies(Sent(Docs(entries), s)[i].node)))
      || (exists i :: (s.storage.batch(i).Inserted? && s.storage.batch(i).count > 0) || s.storage.single(i))
    // and what went to a silent peer is reported as failed
    ensures r.Some? ==>
      forall i | 0 <= i < |Sent(Docs(entries), s)| ::
        Silent(s.replies(Sent(Docs(entries), s)[i].node)) ==> r.value.failed >= |Sent(Docs(entries), s)[i].docs|
  {
    hide Sum, Taken, Refused, Reported, NotTaken;
    hide PeersTally, LocalTally, Missing, Docs, ChunkSize, Unique, Count, Sent, LocalDocs;
    var docs, unusable := ReadEntries(entries);
    var unique, repeated := DropRepeats(docs);
    var here, peers := Distribute(docs, unique, s);
    if here != [] && !s.journals {
      return None;
    }
    var stored, _ := StoreAll(s.storage, here, ChunkSize(s.requested));
    PartsAddUp(docs, s);
    SilentPeersFail(docs, s);
    if !(exists i | 0 <= i < |Sent(docs, s)| :: !Silent(s.replies(Sent(docs, s)[i].node))) &&
       !(exists i :: (s.storage.batch(i).Inserted? && s.storage.batch(i).count > 0) || s.storage.single(i)) {
      NothingFromNothing(docs, s);
    }
    UniqueIsShort(docs);
    return Some(Tally(peers.imported + stored.imported, unusable + repeated + peers.failed + stored.failed));
  }

  method Distribute(docs: seq<Doc>, unique: seq<Doc>, s: Setting) returns (here: seq<Doc>, peers: Tally)
    requires unique == Unique(docs)
    ensures here == LocalDocs(docs, s) && peers == PeersTally(Sent(docs, s), s.replies)
    ensures peers.imported == Sum(Reported(Sent(docs, s), s.replies)) && peers.failed == Sum(NotTaken(Sent(docs, s), s.replies))
  {
    here, peers := unique, Tally(0, 0);
    if s.distributed {
      var gs;
      here, gs := Split(unique, s.route);
      peers := Forward(gs, s.replies);
    }
  }

  lemma PartsAddUp(docs: seq<Doc>, s: Setting)
    ensures PeersTally(Sent(docs, s), s.replies).Total()
            + LocalTally(s.storage, |LocalDocs(docs, s)|, ChunkSize(s.requested), 0).Total()
            + (Count(docs, false) - |Unique(docs)|)
            + Missing(docs, s) == |docs|
  {
    hide Groups, Only, PeersTally, LocalTally, PeersMissing, LocalMissing, All, ChunkSize, Unique, Count;
    NothingLost(docs, s);
    PeersConserve(Sent(docs, s), s.replies);
    UniqueIsShort(docs);
    LocalConserves(s.storage, |LocalDocs(docs, s)|, ChunkSize(s.requested), 0);
  }

  // ---------- When the counters add up ----------

  /** A peer that counts no more documents than it was sent. */
  predicate HonestPeers(gs: seq<Group>, replies: string -> Reply) {
    forall i | 0 <= i < |gs| :: PeerTally(replies(gs[i].node), |gs[i].docs|).Total() <= |gs[i].docs|
  }

  predicate ExactPeers(gs: seq<Group>, replies: string -> Reply) {
    forall i | 0 <= i < |gs| :: PeerTally(replies(gs[i].node), |gs[i].docs|).Total() == |gs[i].docs|
  }

  /** The storage engine reports no more documents than the batch has. */
  predicate HonestBatches(st: Storage, n: nat, size: nat) {
    forall start | 0 <= start < n && st.batch(start).Inserted? :: st.batch(start).count <= End(n, size, start) - start
  }

  /** From `start` on, every batch that stores anything stores all. */
  predicate WholeBatches(st: Storage, n: nat, size: nat, start: nat)
    requires size > 0
    decreases n - start
  {
    start < n ==>
      && (st.batch(start).Inserted? && st.batch(start).count > 0 ==> st.batch(start).count == End(n, size, start) - start)
      && WholeBatches(st, n, size, start + size)
  }

  lemma {:induction false} PeersBalance(gs: seq<Group>, replies: string -> Reply)
    requires HonestPeers(gs, replies)
    ensures PeersMissing(gs, replies) >= 0
    ensures PeersMissing(gs, replies) == 0 <==> ExactPeers(gs, replies)
  {
    hide PeerTally;
    if gs != [] {
      var rest := gs[1..];
      PeersBalance(rest, replies);
      assert ExactPeers(gs, replies) <==>
        PeerTally(replies(gs[0].node), |gs[0].docs|).Total() == |gs[0].docs| && ExactPeers(rest, replies) by {
        assert forall i | 0 <= i < |rest| :: rest[i] == gs[i + 1];
        assert forall i | 0 < i < |gs| :: gs[i] == rest[i - 1];
      }
    }
  }

  lemma {:induction false} BatchesBalance(st: Storage, n: nat, size: nat, start: nat)
    requires size > 0 && HonestBatches(st, n, size)
    ensures LocalMissing(st, n, size, start) >= 0
    ensures LocalMissing(st, n, size, start) == 0 <==> WholeBatches(st, n, size, start)
    decreases n - start
  {
    hide LocalTally, Singles;
    if start < n {
      BatchesBalance(st, n, size, start + size);
    }
  }

  /**
   With honest counts the two counters never exceed the payload. They add up to it exactly when
   no document lacks an ID, every batch is all or nothing and every peer accounts for all it got.
   */
  lemma CountersAddUp(docs: seq<Doc>, s: Setting)
    requires HonestPeers(Sent(docs, s), s.replies)
    requires HonestBatches(s.storage, |LocalDocs(docs, s)|, ChunkSize(s.requested))
    ensures Missing(docs, s) >= 0
    ensures Missing(docs, s) == 0 <==>
      && (forall d | d in docs :: d.id != "")
      && ExactPeers(Sent(docs, s), s.replies)
      && WholeBatches(s.storage, |LocalDocs(docs, s)|, ChunkSize(s.requested), 0)
  {
    hide HonestPeers, ExactPeers, HonestBatches, WholeBatches, PeersMissing, LocalMissing, Sent, LocalDocs, ChunkSize, Count;
    PeersBalance(Sent(docs, s), s.replies);
    BatchesBalance(s.storage, |LocalDocs(docs, s)|, ChunkSize(s.requested), 0);
    NoEmptyIds(docs);
  }

  lemma {:induction false} NoEmptyIds(docs: seq<Doc>)
    ensures Count(docs, true) == 0 <==> forall d | d in docs :: d.id != ""
  {
    if docs != [] {
      var init, last := docs[..|docs| - 1], docs[|docs| - 1];
      NoEmptyIds(init);
      assert docs == init + [last];
    }
  }
}
