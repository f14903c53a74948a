/**
 Merging the collection listings of all nodes: union of nodes, the largest document count,
 the earliest creation time.
 */
module CollectionMerge {

  import opened NaturalOrder

  datatype Option<T> = None | Some(value: T)

  /** One entry of a node's listing; a bare name has neither count nor creation time. */
  datatype Report = Report(name: Text, count: Option<int>, created: Text)

  datatype Response = Response(node: Text, reports: seq<Report>)

  datatype Event = Event(node: Text, report: Report)

  datatype Record = Record(nodes: seq<Text>, counts: map<Text, int>, num: int, created: Text, hasCounts: bool)

  type Listing = map<Text, Record>

  const EMPTY := Record([], map[], 0, [], false)

  // ---------- One entry at a time ----------

  function WithNode(r: Record, node: Text): Record {
    if node in r.nodes then r else r.(nodes := r.nodes + [node])
  }

  function WithCount(r: Record, node: Text, count: Option<int>): Record {
    match count
    case None => r
    case Some(n) => r.(counts := r.counts[node := n],
                       num := if !r.hasCounts || n > r.num then n else r.num,
                       hasCounts := true)
  }

  function WithCreated(r: Record, created: Text): Record {
    if created != [] && (r.created == [] || ByteOrder(created, r.created) < 0) then r.(created := created) else r
  }

  function Apply(r: Record, e: Event): Record {
    WithCreated(WithCount(WithNode(r, e.node), e.node, e.report.count), e.report.created)
  }

  function Get(m: Listing, name: Text): Record {
    if name in m then m[name] else EMPTY
  }

  function Enter(m: Listing, e: Event): Listing {
    if e.report.name == [] then m else m[e.report.name := Apply(Get(m, e.report.name), e)]
  }

  /** The listing after a series of entries. */
  function Merged(es: seq<Event>): Listing {
    if es == [] then map[] else Enter(Merged(es[..|es| - 1]), es[|es| - 1])
  }

  /** The entries about one collection, folded. */
  function About(es: seq<Event>, name: Text): Record {
    if es == [] then EMPTY
    else
      var r, e := About(es[..|es| - 1], name), es[|es| - 1];
      if e.report.name == name then Apply(r, e) else r
  }

  predicate Mentions(es: seq<Event>, name: Text, e: Event) {
    e in es && e.report.name == name
  }

  lemma {:induction false} MergedIsAbout(es: seq<Event>, name: Text)
    ensures name in Merged(es) <==> name != [] && exists e :: Mentions(es, name, e)
    ensures name in Merged(es) ==> Merged(es)[name] == About(es, name)
    ensures name != [] && name !in Merged(es) ==> About(es, name) == EMPTY
  {
    hide Apply;
    if es != [] {
      var init, last := es[..|es| - 1], es[|es| - 1];
      MergedIsAbout(init, name);
      forall e
        ensures Mentions(es, name, e) <==> Mentions(init, name, e) || (e == last && e.report.name == name)
      {
        LastMention(es, name, e);
      }
      hide Mentions;
      assert Mentions(es, name, last) <==> last.report.name == name by {
        LastMention(es, name, last);
      }
    }
  }

  // ---------- What the record says ----------

  /** The last count that a node gave for a collection. */
  function LastCount(es: seq<Event>, name: Text, node: Text): Option<int> {
    if es == [] then None
    else
      var e := es[|es| - 1];
      if e.report.name == name && e.node == node && e.report.count.Some? then e.report.count
      else LastCount(es[..|es| - 1], name, node)
  }

  ghost predicate NodesFit(r: Record, es: seq<Event>, name: Text) {
    && (forall i, j | 0 <= i < j < |r.nodes| :: r.nodes[i] != r.nodes[j])
    && (forall l :: l in r.nodes <==> exists e :: Mentions(es, name, e) && e.node == l)
  }

  /** The count is the largest that was ever reported. */
  ghost predicate CountFits(r: Record, es: seq<Event>, name: Text) {
    && (r.hasCounts <==> exists e :: Mentions(es, name, e) && e.report.count.Some?)
    && (r.hasCounts ==> exists e :: Mentions(es, name, e) && e.report.count == Some(r.num))
    && (forall e | Mentions(es, name, e) && e.report.count.Some? :: e.report.count.value <= r.num)
    && (!r.hasCounts ==> r.num == 0)
  }

  /** The creation time is the earliest that was ever reported. */
  ghost predicate CreatedFits(r: Record, es: seq<Event>, name: Text) {
    && (r.created != [] ==> exists e :: Mentions(es, name, e) && e.report.created == r.created)
    && (forall e | Mentions(es, name, e) && e.report.created != [] ::
          r.created != [] && ByteOrder(r.created, e.report.created) <= 0)
  }

  ghost predicate CountsFit(r: Record, es: seq<Event>, name: Text) {
    forall l :: (l in r.counts <==> LastCount(es, name, l).Some?) &&
                (l in r.counts ==> r.counts[l] == LastCount(es, name, l).value)
  }

  lemma LastMention(es: seq<Event>, name: Text, e: Event)
    requires es != []
    ensures Mentions(es, name, e) <==>
            Mentions(es[..|es| - 1], name, e) || (e == es[|es| - 1] && e.report.name == name)
  {
    assert es == es[..|es| - 1] + [es[|es| - 1]];
  }

  lemma {:induction false} NodesAreExact(es: seq<Event>, name: Text)
    ensures NodesFit(About(es, name), es, name)
  {
    hide ByteOrder;
    if es != [] {
      var init, last := es[..|es| - 1], es[|es| - 1];
      NodesAreExact(init, name);
      forall e
        ensures Mentions(es, name, e) <==> Mentions(init, name, e) || (e == last && e.report.name == name)
      {
        LastMention(es, name, e);
      }
      hide Mentions;
      var r, s := About(init, name), About(es, name);
      assert s.nodes == if last.report.name == name && last.node !in r.nodes then r.nodes + [last.node] else r.nodes;
      assert Mentions(es, name, last) <==> last.report.name == name by {
        LastMention(es, name, last);
      }
    }
  }

  lemma {:induction false} CountIsExact(es: seq<Event>, name: Text)
    ensures CountFits(About(es, name), es, name)
  {
    hide ByteOrder;
    if es != [] {
      var init, last := es[..|es| - 1], es[|es| - 1];
      CountIsExact(init, name);
      forall e
        ensures Mentions(es, name, e) <==> Mentions(init, name, e) || (e == last && e.report.name == name)
      {
        LastMention(es, name, e);
      }
      hide Mentions;
      assert Mentions(es, name, last) <==> last.report.name == name by {
        LastMention(es, name, last);
      }
    }
  }

  lemma {:induction false} CreatedIsExact(es: seq<Event>, name: Text)
    ensures CreatedFits(About(es, name), es, name)
  {
    hide ByteOrder;
    if es != [] {
      var init, last := es[..|es| - 1], es[|es| - 1];
      CreatedIsExact(init, name);
      forall e
        ensures Mentions(es, name, e) <==> Mentions(init, name, e) || (e == last && e.report.name == name)
      {
        LastMention(es, name, e);
      }
      hide Mentions;
      assert Mentions(es, name, last) <==> last.report.name == name by {
        LastMention(es, name, last);
      }
      var r := About(init, name);
      forall e | Mentions(init, name, e) && e.report.created != []
        ensures ByteOrder(last.report.created, r.created) < 0 ==> ByteOrder(last.report.created, e.report.created) <= 0
      {
        ByteOrderChains(last.report.created, r.created, e.report.created);
      }
      ByteOrderZero(last.report.created, last.report.created);
      ByteOrderTurns(last.report.created, r.created);
    }
  }

  lemma ByteOrderChains(x: Text, y: Text, z: Text)
    ensures ByteOrder(x, y) <= 0 && ByteOrder(y, z) <= 0 ==> ByteOrder(x, z) <= 0
  {
    hide ByteOrder;
    ByteOrderPreorder();
  }

  lemma ByteOrderTurns(x: Text, y: Text)
    ensures ByteOrder(x, y) == -ByteOrder(y, x)
  {
    hide ByteOrder;
    ByteOrderPreorder();
  }

  lemma {:induction false} CountsAreExact(es: seq<Event>, name: Text)
    ensures CountsFit(About(es, name), es, name)
  {
    hide ByteOrder;
    if es != [] {
      CountsAreExact(es[..|es| - 1], name);
    }
  }

  // ---------- Same news, same record ----------

  /** Both series have the same entries, and each node's last word is the same. */
  ghost predicate SameNews(es: seq<Event>, fs: seq<Event>) {
    && (forall e :: e in es <==> e in fs)
    && (forall name, node :: LastCount(es, name, node) == LastCount(fs, name, node))
  }

  /** Equal up to the order in which the nodes are listed. */
  predicate SameRecord(r: Record, s: Record) {
    && r.num == s.num && r.hasCounts == s.hasCounts && r.created == s.created && r.counts == s.counts
    && (set n | n in r.nodes) == (set n | n in s.nodes)
  }

  lemma SameNewsSameRecord(es: seq<Event>, fs: seq<Event>, name: Text)
    requires SameNews(es, fs)
    ensures SameRecord(About(es, name), About(fs, name))
    ensures name in Merged(es) <==> name in Merged(fs)
  {
    hide About, Merged, ByteOrder, LastCount;
    assert forall e :: Mentions(es, name, e) <==> Mentions(fs, name, e);
    hide Mentions;
    MergedIsAbout(es, name);
    MergedIsAbout(fs, name);
    var r, s := About(es, name), About(fs, name);
    assert forall l :: l in r.nodes <==> l in s.nodes by {
      NodesAreExact(es, name);
      NodesAreExact(fs, name);
    }
    assert r.counts == s.counts by {
      CountsAreExact(es, name);
      CountsAreExact(fs, name);
    }
    assert r.num == s.num && r.hasCounts == s.hasCounts by {
      CountIsExact(es, name);
      CountIsExact(fs, name);
    }
    assert r.created == s.created by {
      CreatedIsExact(es, name);
      CreatedIsExact(fs, name);
      ByteOrderTurns(r.created, s.created);
      ByteOrderZero(r.created, s.created);
    }
  }

  // ---------- The order of the responses ----------

  function Events(r: Response): seq<Event> {
    seq(|r.reports|, i requires 0 <= i < |r.reports| => Event(r.node, r.reports[i]))
  }

  function Flat(rs: seq<Response>): seq<Event> {
    if rs == [] then [] else Flat(rs[..|rs| - 1]) + Events(rs[|rs| - 1])
  }

  lemma {:induction false} FlatHolds(rs: seq<Response>, e: Event)
    ensures e in Flat(rs) <==> exists r :: r in rs && e in Events(r)
  {
    if rs != [] {
      var init, last := rs[..|rs| - 1], rs[|rs| - 1];
      FlatHolds(init, e);
      assert rs == init + [last];
      assert forall r :: r in rs <==> r in init || r == last;
      assert e in Flat(rs) <==> e in Flat(init) || e in Events(last);
    }
  }

  lemma {:induction false} LastOfJoin(es: seq<Event>, fs: seq<Event>, name: Text, node: Text)
    ensures LastCount(es + fs, name, node) ==
            if LastCount(fs, name, node).Some? then LastCount(fs, name, node) else LastCount(es, name, node)
  {
    if fs == [] {
      assert es + fs == es;
    } else {
      var n := |fs| - 1;
      LastOfJoin(es, fs[..n], name, node);
      assert (es + fs)[..|es + fs| - 1] == es + fs[..n];
    }
  }

  lemma {:induction false} OthersSayNothing(es: seq<Event>, name: Text, node: Text)
    requires forall e | e in es :: e.node != node
    ensures LastCount(es, name, node) == None
  {
    if es != [] {
      assert es[|es| - 1] in es;
      OthersSayNothing(es[..|es| - 1], name, node);
    }
  }

  ghost predicate Distinct(rs: seq<Response>) {
    forall i, j | 0 <= i < j < |rs| :: rs[i].node != rs[j].node
  }

  /** A node's last word is in its own response. */
  lemma {:induction false} LastOfFlat(rs: seq<Response>, r: Response, name: Text)
    requires Distinct(rs) && r in rs
    ensures LastCount(Flat(rs), name, r.node) == LastCount(Events(r), name, r.node)
  {
    hide LastCount, Events;
    var init, last := rs[..|rs| - 1], rs[|rs| - 1];
    LastOfJoin(Flat(init), Events(last), name, r.node);
    if r == last {
      NotInFlat(init, name, r.node);
    } else {
      assert rs == init + [last];
      LastOfFlat(init, r, name);
      var i :| 0 <= i < |init| && init[i] == r;
      assert rs[i].node != last.node;
      NotInEvents(last, name, r.node);
    }
  }

  lemma NotInEvents(r: Response, name: Text, node: Text)
    requires r.node != node
    ensures LastCount(Events(r), name, node) == None
  {
    OthersSayNothing(Events(r), name, node);
  }

  lemma NotInFlat(rs: seq<Response>, name: Text, node: Text)
    requires forall i | 0 <= i < |rs| :: rs[i].node != node
    ensures LastCount(Flat(rs), name, node) == None
  {
    forall e | e in Flat(rs)
      ensures e.node != node
    {
      FlatHolds(rs, e);
      var r :| r in rs && e in Events(r);
    }
    OthersSayNothing(Flat(rs), name, node);
  }

  ghost predicate Permuted(rs: seq<Response>, qs: seq<Response>) {
    multiset(rs) == multiset(qs)
  }

  lemma PermutedHolds(rs: seq<Response>, qs: seq<Response>, r: Response)
    requires Permuted(rs, qs)
    ensures r in rs <==> r in qs
  {
    assert r in rs <==> r in multiset(rs);
    assert r in qs <==> r in multiset(qs);
  }

  lemma PermutedIsSameNews(rs: seq<Response>, qs: seq<Response>)
    requires Distinct(rs) && Distinct(qs) && Permuted(rs, qs)
    ensures SameNews(Flat(rs), Flat(qs))
  {
    hide Permuted, Events, Flat, LastCount;
    forall r
      ensures r in rs <==> r in qs
    {
      PermutedHolds(rs, qs, r);
    }
    forall e
      ensures e in Flat(rs) <==> e in Flat(qs)
    {
      FlatHolds(rs, e);
      FlatHolds(qs, e);
    }
    forall name, node
      ensures LastCount(Flat(rs), name, node) == LastCount(Flat(qs), name, node)
    {
      if r :| r in rs && r.node == node {
        LastOfFlat(rs, r, name);
        LastOfFlat(qs, r, name);
      } else {
        assert forall i | 0 <= i < |qs| :: qs[i] in qs;
        NotInFlat(rs, name, node);
        NotInFlat(qs, name, node);
      }
    }
  }

  /** The order in which the nodes answer does not matter. */
  lemma OrderDoesNotMatter(rs: seq<Response>, qs: seq<Response>, name: Text)
    requires Distinct(rs) && Distinct(qs) && Permuted(rs, qs)
    ensures name in Merged(Flat(rs)) <==> name in Merged(Flat(qs))
    ensures name in Merged(Flat(rs)) ==> SameRecord(Merged(Flat(rs))[name], Merged(Flat(qs))[name])
  {
    hide Permuted, Flat, SameNews, About, Merged, SameRecord;
    PermutedIsSameNews(rs, qs);
    SameNewsSameRecord(Flat(rs), Flat(qs), name);
    MergedIsAbout(Flat(rs), name);
    MergedIsAbout(Flat(qs), name);
  }

  // ---------- The same response again ----------

  lemma {:induction false} NodesStay(es: seq<Event>, fs: seq<Event>, name: Text)
    requires forall f | f in fs && f.report.name == name :: f.node in About(es, name).nodes
    ensures About(es + fs, name).nodes == About(es, name).nodes
  {
    hide ByteOrder;
    if fs == [] {
      assert es + fs == es;
    } else {
      var n := |fs| - 1;
      NodesStay(es, fs[..n], name);
      assert (es + fs)[..|es + fs| - 1] == es + fs[..n];
      assert fs[n] in fs;
    }
  }

  lemma AgainIsSameNews(es: seq<Event>, fs: seq<Event>)
    ensures SameNews(es + fs, es + fs + fs)
  {
    forall name, node
      ensures LastCount(es + fs, name, node) == LastCount(es + fs + fs, name, node)
    {
      LastOfJoin(es, fs, name, node);
      LastOfJoin(es + fs, fs, name, node);
    }
  }

  /** Merging a response twice in a row is merging it once, down to the order of the nodes. */
  lemma AgainChangesNothing(es: seq<Event>, r: Response)
    ensures Merged(es + Events(r) + Events(r)) == Merged(es + Events(r))
  {
    hide Events, Merged, About, SameNews;
    var once, twice := es + Events(r), es + Events(r) + Events(r);
    forall name
      ensures name in Merged(once) <==> name in Merged(twice)
      ensures name in Merged(once) ==> Merged(once)[name] == Merged(twice)[name]
    {
      AgainIsSameNews(es, Events(r));
      SameNewsSameRecord(once, twice, name);
      MergedIsAbout(once, name);
      MergedIsAbout(twice, name);
      NodesAreExact(once, name);
      forall f | f in Events(r) && f.report.name == name
        ensures f.node in About(once, name).nodes
      {
        assert Mentions(once, name, f);
      }
      NodesStay(once, Events(r), name);
    }
  }

  // ---------- The code ----------

  lemma MergedStep(before: seq<Event>, es: seq<Event>, i: nat)
    requires i < |es|
    ensures Merged(before + es[..i + 1]) == Enter(Merged(before + es[..i]), es[i])
  {
    hide Enter;
    var all := before + es[..i + 1];
    assert all[..|all| - 1] == before + es[..i] && all[|all| - 1] == es[i];
  }

  method Update(record: Record, node: Text, report: Report) returns (r: Record)
    ensures r == Apply(record, Event(node, report))
  {
    hide ByteOrder;
    r := record;
    if node !in r.nodes {
      r := r.(nodes := r.nodes + [node]);
    }
    if report.count.Some? {
      var n := report.count.value;
      r := r.(counts := r.counts[node := n]);
      if !r.hasCounts || n > r.num {
        r := r.(num := n);
      }
      r := r.(hasCounts := true);
    }
    if report.created != [] {
      if r.created == [] {
        r := r.(created := report.created);
      } else if ByteOrder(report.created, r.created) < 0 {
        r := r.(created := report.created);
      }
    }
  }

  /** A local collection: its count and creation time replace what the record had. */
  datatype LocalCollection = LocalCollection(name: Text, count: int, created: Text)

  function AsResponse(node: Text, cs: seq<LocalCollection>): Response {
    Response(node, seq(|cs|, i requires 0 <= i < |cs| => Report(cs[i].name, Some(cs[i].count), cs[i].created)))
  }

  class Listings {
    var out: Listing

    constructor ()
      ensures out == map[]
    {
      out := map[];
    }

    method AddCollections(r: Response, ghost before: seq<Event>)
      requires out == Merged(before)
      modifies this
      ensures out == Merged(before + Events(r))
    {
      hide Merged, Apply;
      ghost var es := Events(r);
      assert before + es[..0] == before;
      for i := 0 to |r.reports|
        invariant out == Merged(before + es[..i])
      {
        var report := r.reports[i];
        MergedStep(before, es, i);
        if report.name != [] {
          var record := Update(Get(out, report.name), r.node, report);
          out := out[report.name := record];
        }
      }
      assert es[..|r.reports|] == es;
    }

    /** The node's own collections replace what the listing had about them, up to nodes and other nodes' counts. */
    method AddLocal(node: Text, cs: seq<LocalCollection>)
      modifies this
      ensures out == LocalMerged(old(out), node, cs)
    {
      for i := 0 to |cs|
        invariant out == LocalMerged(old(out), node, cs[..i])
      {
        assert cs[..i + 1][..i] == cs[..i];
        var c := cs[i];
        var record := Get(out, c.name);
        if node !in record.nodes {
          record := record.(nodes := record.nodes + [node]);
        }
        record := record.(num := c.count);
        record := record.(counts := record.counts[node := record.num]);
        record := record.(created := c.created);
        record := record.(hasCounts := true);
        out := out[c.name := record];
      }
      assert cs[..|cs|] == cs;
    }
  }

  function LocalRecord(r: Record, node: Text, c: LocalCollection): Record {
    WithNode(r, node).(num := c.count, counts := r.counts[node := c.count], created := c.created, hasCounts := true)
  }

  function LocalMerged(m: Listing, node: Text, cs: seq<LocalCollection>): Listing {
    if cs == [] then m
    else
      var before, c := LocalMerged(m, node, cs[..|cs| - 1]), cs[|cs| - 1];
      before[c.name := LocalRecord(Get(before, c.name), node, c)]
  }

  ghost predicate Different(cs: seq<LocalCollection>) {
    && (forall i | 0 <= i < |cs| :: cs[i].name != [])
    && (forall i, j | 0 <= i < j < |cs| :: cs[i].name != cs[j].name)
  }

  lemma {:induction false} LocalNames(node: Text, cs: seq<LocalCollection>, name: Text)
    requires forall i | 0 <= i < |cs| :: cs[i].name != name
    ensures name !in LocalMerged(map[], node, cs)
  {
    hide LocalRecord;
    if cs != [] {
      LocalNames(node, cs[..|cs| - 1], name);
    }
  }

  /** A listing that starts with the node's own collections starts as if the node had reported them. */
  lemma {:induction false} LocalIsAResponse(node: Text, cs: seq<LocalCollection>)
    requires Different(cs)
    ensures LocalMerged(map[], node, cs) == Merged(Events(AsResponse(node, cs)))
  {
    if cs != [] {
      var n := |cs| - 1;
      var init, c := cs[..n], cs[n];
      LocalIsAResponse(node, init);
      var es := Events(AsResponse(node, cs));
      assert es[..n] == Events(AsResponse(node, init)) && es[n] == Event(node, Report(c.name, Some(c.count), c.created));
      LocalNames(node, init, c.name);
      FirstReport(node, c);
    }
  }

  lemma FirstReport(node: Text, c: LocalCollection)
    ensures Apply(EMPTY, Event(node, Report(c.name, Some(c.count), c.created))) == LocalRecord(EMPTY, node, c)
  {
    hide ByteOrder;
  }
}
