/**
 Partial update of a document and the full-document body that replicas receive for it. The
 replica runs the same merge on that body.
 */
module DocumentMerge {
  import Printer = Json

  /** What `dump()` prints is never empty. */
  type Dumped = s: string | s != "" witness "0"

  /** A JSON value as the merge sees it: `Other` carries the text of `dump()`. */
  datatype Json = Null | Str(text: string) | Whole(number: int) | Other(dump: Dumped)

  /** A score that is not 0.0 is kept as the text that JSON gives it. */
  datatype Score = Zero | Score(dump: Dumped)

  datatype Document = Document(id: string, title: string, content: string, fields: map<string, string>,
                               score: Score, timestamp: U64)

  type U64 = n: nat | n < 0x1_0000_0000_0000_0000

  type Body = map<string, Json>

  datatype Outcome = Rejected | Stored(doc: Document)

  const ID := "id"
  const TITLE := "title"
  const CONTENT := "content"
  const TIMESTAMP := "timestamp"
  const SCORE := "score"

  /** Text without control characters other than line breaks and tabs. */
  predicate Clean(s: string) {
    forall i | 0 <= i < |s| :: s[i] as int >= 32 || s[i] == '\n' || s[i] == '\r' || s[i] == '\t'
  }

  function Dump(v: Json): string {
    match v
    case Null => "null"
    case Str(s) => s
    case Whole(n) => Printer.Number(n)
    case Other(d) => d
  }

  predicate Reserved(key: string) {
    key == ID || key == TITLE || key == CONTENT || key == TIMESTAMP
  }

  // ---------- The merge ----------

  /** Title and content: absent leaves the old text, null empties it. */
  function TextAfter(was: string, u: Body, key: string): string {
    if key !in u then was else if u[key].Null? then "" else Dump(u[key])
  }

  /** Every key that is not reserved sets a field, or with null removes it. */
  function FieldsAfter(f: map<string, string>, u: Body): map<string, string> {
    map k | k in f.Keys + u.Keys && !(k in u && !Reserved(k) && u[k].Null?) && (k in f || !Reserved(k)) ::
      if k in u && !Reserved(k) then Dump(u[k]) else f[k]
  }

  /** The texts that the merge takes over as strings have to be clean. */
  predicate Acceptable(u: Body) {
    && (TITLE in u && !u[TITLE].Null? ==> Clean(Dump(u[TITLE])))
    && (CONTENT in u && !u[CONTENT].Null? ==> Clean(Dump(u[CONTENT])))
    && (forall k | k in u && !Reserved(k) && u[k].Str? :: Clean(u[k].text))
    && (TIMESTAMP in u ==> u[TIMESTAMP].Whole?)
  }

  /** Read as an unsigned 64-bit number. */
  function Stamp(n: int): U64 {
    n % 0x1_0000_0000_0000_0000
  }

  function Merge(e: Document, u: Body, now: U64): Outcome {
    if !Acceptable(u) then Rejected
    else Stored(Document(e.id, TextAfter(e.title, u, TITLE), TextAfter(e.content, u, CONTENT), FieldsAfter(e.fields, u),
                         e.score, if TIMESTAMP in u then Stamp(u[TIMESTAMP].number) else now))
  }

  /** The body that is replicated: empty texts and zeros are left out, later keys replace earlier ones. */
  function BodyOf(d: Document): Body {
    (if d.id != "" then map[ID := Str(d.id)] else map[])
    + (if d.title != "" then map[TITLE := Str(d.title)] else map[])
    + (if d.content != "" then map[CONTENT := Str(d.content)] else map[])
    + (map k | k in d.fields :: Str(d.fields[k]))
    + (if d.score.Score? then map[SCORE := Other(d.score.dump)] else map[])
    + (if d.timestamp != 0 then map[TIMESTAMP := Whole(d.timestamp)] else map[])
  }

  // ---------- Which bodies reproduce the document ----------

  /** Documents whose body says all there is: no score, no field under a reserved name, clean texts. */
  predicate Plain(d: Document) {
    && d.score == Zero && Clean(d.title) && Clean(d.content)
    && forall k | k in d.fields :: !Reserved(k) && Clean(d.fields[k])
  }

  /** `d` has a text or field wherever `x` has one. */
  predicate Below(x: Document, d: Document) {
    (x.title != "" ==> d.title != "") && (x.content != "" ==> d.content != "") && x.fields.Keys <= d.fields.Keys
  }

  lemma NamesDiffer()
    ensures |{ID, TITLE, CONTENT, TIMESTAMP, SCORE}| == 5
  {
    assert |ID| == 2 && |TITLE| == 5 && |CONTENT| == 7 && |TIMESTAMP| == 9 && |SCORE| == 5;
    assert TITLE[0] != SCORE[0];
  }

  /** The body of a plain document has its ID, its non-empty texts, its fields and its timestamp, and nothing else. */
  lemma BodyOfPlain(d: Document, k: string)
    requires Plain(d)
    ensures var b := BodyOf(d);
      if k == ID then (k in b <==> d.id != "") && (k in b ==> b[k] == Str(d.id))
      else if k == TITLE then (k in b <==> d.title != "") && (k in b ==> b[k] == Str(d.title))
      else if k == CONTENT then (k in b <==> d.content != "") && (k in b ==> b[k] == Str(d.content))
      else if k == TIMESTAMP then (k in b <==> d.timestamp != 0) && (k in b ==> b[k] == Whole(d.timestamp))
      else !Reserved(k) ==> (k in b <==> k in d.fields) && (k in b ==> b[k] == Str(d.fields[k]))
  {
    hide Clean;
    NamesDiffer();
  }

  lemma BodyIsAcceptable(d: Document)
    requires Plain(d)
    ensures Acceptable(BodyOf(d))
  {
    hide BodyOf, Clean;
    NamesDiffer();
    BodyOfPlain(d, TITLE);
    BodyOfPlain(d, CONTENT);
    BodyOfPlain(d, TIMESTAMP);
    forall k | k in BodyOf(d) && !Reserved(k)
      ensures Clean(Dump(BodyOf(d)[k]))
    {
      BodyOfPlain(d, k);
    }
  }

  /** Replaying the body of a plain document gives that document exactly from the documents below it. */
  lemma BodyIsExact(x: Document, d: Document, now: U64)
    requires Plain(d) && x.id == d.id && x.score == Zero && now > 0
    ensures Merge(x, BodyOf(d), now) == Stored(d) <==> Below(x, d) && d.timestamp != 0
  {
    hide BodyOf, Acceptable, Clean;
    NamesDiffer();
    BodyIsAcceptable(d);
    var b := BodyOf(d);
    BodyOfPlain(d, TITLE);
    BodyOfPlain(d, CONTENT);
    BodyOfPlain(d, TIMESTAMP);
    forall k | !Reserved(k)
      ensures (k in b <==> k in d.fields) && (k in b ==> b[k] == Str(d.fields[k]))
    {
      BodyOfPlain(d, k);
    }
    var f := FieldsAfter(x.fields, b);
    assert f.Keys == x.fields.Keys + d.fields.Keys;
    if x.fields.Keys <= d.fields.Keys {
      assert f == d.fields;
    }
  }

  // ---------- Updates that erase nothing ----------

  predicate Erases(e: Document, u: Body) {
    || (e.title != "" && TITLE in u && (u[TITLE].Null? || u[TITLE] == Str("")))
    || (e.content != "" && CONTENT in u && (u[CONTENT].Null? || u[CONTENT] == Str("")))
    || (exists k | k in u :: k in e.fields && !Reserved(k) && u[k].Null?)
  }

  /** `dump()` escapes control characters. */
  predicate WellFormed(u: Body) {
    forall k | k in u && u[k].Other? :: Clean(u[k].dump)
  }

  lemma ErasingIsExact(e: Document, u: Body, now: U64)
    requires Merge(e, u, now).Stored?
    ensures Below(e, Merge(e, u, now).doc) <==> !Erases(e, u)
  {
    hide Printer.Number;
    forall k | k in u && u[k].Whole?
      ensures Dump(u[k]) != ""
    {
      NumberIsClean(u[k].number);
    }
    var f := FieldsAfter(e.fields, u);
    assert forall k | k in e.fields :: k in f <==> !(k in u && !Reserved(k) && u[k].Null?);
  }

  lemma NumberIsClean(n: int)
    ensures Clean(Printer.Number(n)) && Printer.Number(n) != ""
  {
    var digits := Printer.Digits(if n < 0 then -n else n);
    assert forall i | 0 <= i < |digits| :: '0' <= digits[i] <= '9';
  }

  lemma DumpIsClean(u: Body, k: string)
    requires WellFormed(u) && k in u && !u[k].Null? && (u[k].Str? ==> Clean(u[k].text))
    ensures Clean(Dump(u[k]))
  {
    if u[k].Whole? {
      NumberIsClean(u[k].number);
    }
  }

  lemma PlainIsKept(e: Document, u: Body, now: U64)
    requires Plain(e) && WellFormed(u) && Merge(e, u, now).Stored?
    ensures Plain(Merge(e, u, now).doc)
  {
    var f := FieldsAfter(e.fields, u);
    forall k | k in f
      ensures !Reserved(k) && Clean(f[k])
    {
      if k in u && !Reserved(k) {
        DumpIsClean(u, k);
      }
    }
  }

  // ---------- A primary and its replica over whole runs ----------

  datatype Update = Update(body: Body, now: U64)

  /** Rejected updates change nothing. */
  function State(e: Document, us: seq<Update>, n: nat): Document
    requires n <= |us|
    decreases n
  {
    if n == 0 then e
    else
      var d := State(e, us, n - 1);
      match Merge(d, us[n - 1].body, us[n - 1].now)
      case Rejected => d
      case Stored(d') => d'
  }

  /** Nothing is erased and no timestamp of zero is stored. */
  predicate Gentle(d: Document, u: Update) {
    && WellFormed(u.body) && !Erases(d, u.body)
    && (Merge(d, u.body, u.now).Stored? ==> Merge(d, u.body, u.now).doc.timestamp != 0)
  }

  predicate GentleRun(e: Document, us: seq<Update>) {
    && Plain(e) && e.timestamp != 0
    && forall n | 0 <= n < |us| :: Gentle(State(e, us, n), us[n])
  }

  lemma {:induction false} StatesRise(e: Document, us: seq<Update>, i: nat, j: nat)
    requires GentleRun(e, us) && i <= j <= |us|
    ensures Below(State(e, us, i), State(e, us, j)) && State(e, us, i).id == State(e, us, j).id
    ensures Plain(State(e, us, j)) && State(e, us, j).timestamp != 0
    decreases j
  {
    hide Below, Merge, Plain, WellFormed, Erases;
    if j == 0 {
      BelowItself(e);
    } else {
      StatesRise(e, us, if i == j then i - 1 else i, j - 1);
      var d, u := State(e, us, j - 1), us[j - 1];
      assert Gentle(d, u);
      OneRise(d, u);
      if i == j {
        BelowItself(State(e, us, j));
      } else {
        BelowChains(State(e, us, i), d, State(e, us, j));
      }
    }
  }

  lemma BelowItself(d: Document)
    ensures Below(d, d)
  {
  }

  lemma BelowChains(x: Document, y: Document, z: Document)
    requires Below(x, y) && Below(y, z)
    ensures Below(x, z)
  {
  }

  lemma OneRise(d: Document, u: Update)
    requires Plain(d) && d.timestamp != 0 && Gentle(d, u)
    ensures match Merge(d, u.body, u.now)
      case Rejected => Below(d, d)
      case Stored(d') => Below(d, d') && Plain(d') && d'.timestamp != 0 && d'.id == d.id
  {
    hide Below, Plain, WellFormed, Erases, Acceptable, FieldsAfter, TextAfter;
    BelowItself(d);
    if Merge(d, u.body, u.now).Stored? {
      ErasingIsExact(d, u.body, u.now);
      PlainIsKept(d, u.body, u.now);
    }
  }

  /** A body brings the replica from any earlier state of the primary to the state it was taken from. */
  lemma BodyCatchesUp(e: Document, us: seq<Update>, i: nat, j: nat, now: U64)
    requires GentleRun(e, us) && i <= j <= |us| && now > 0
    ensures Merge(State(e, us, i), BodyOf(State(e, us, j)), now) == Stored(State(e, us, j))
  {
    hide Below, Merge, BodyOf, GentleRun, State;
    StatesRise(e, us, i, j);
    StatesRise(e, us, i, i);
    assert State(e, us, i).score == Zero;
    BodyIsExact(State(e, us, i), State(e, us, j), now);
  }

  /** Bodies delivered to the replica, each named by the state it was taken from, and when. */
  datatype Delivery = Delivery(index: nat, now: U64)

  function Replica(e: Document, us: seq<Update>, ds: seq<Delivery>): Document
    requires forall k | 0 <= k < |ds| :: ds[k].index <= |us|
  {
    if ds == [] then e
    else
      var last := ds[|ds| - 1];
      var d := Replica(e, us, ds[..|ds| - 1]);
      match Merge(d, BodyOf(State(e, us, last.index)), last.now)
      case Rejected => d
      case Stored(d') => d'
  }

  /**
   However many bodies are lost or repeated: as long as they arrive in order, the replica
   holds exactly the state of the last one it got.
   */
  lemma {:induction false} ReplicaFollows(e: Document, us: seq<Update>, ds: seq<Delivery>)
    requires GentleRun(e, us)
    requires forall k | 0 <= k < |ds| :: ds[k].index <= |us| && ds[k].now > 0
    requires forall k, l | 0 <= k < l < |ds| :: ds[k].index <= ds[l].index
    ensures Replica(e, us, ds) == if ds == [] then e else State(e, us, ds[|ds| - 1].index)
  {
    hide Merge, GentleRun, BodyOf, State;
    if ds != [] {
      var init, last := ds[..|ds| - 1], ds[|ds| - 1];
      ReplicaFollows(e, us, init);
      var i := if init == [] then 0 else init[|init| - 1].index;
      StartState(e, us);
      BodyCatchesUp(e, us, i, last.index, last.now);
    }
  }

  lemma StartState(e: Document, us: seq<Update>)
    ensures State(e, us, 0) == e
  {
  }

  // ---------- Repetition and score ----------

  /** Repeating an accepted update changes nothing exactly when it carries its own timestamp, or time stands still. */
  lemma RepeatIsExact(x: Document, u: Body, now: U64, later: U64)
    requires Merge(x, u, now).Stored?
    ensures var y := Merge(x, u, now).doc; Merge(y, u, later) == Stored(y) <==> TIMESTAMP in u || later == now
  {
    var f := FieldsAfter(x.fields, u);
    assert FieldsAfter(f, u) == f;
  }

  /** A score reaches the replica as a field, so a scored document without that field is never reproduced. */
  lemma ScoreBecomesField(x: Document, d: Document, now: U64)
    requires d.score.Score? && Merge(x, BodyOf(d), now).Stored?
    ensures var y := Merge(x, BodyOf(d), now).doc; SCORE in y.fields && y.fields[SCORE] == d.score.dump
  {
    hide Acceptable, Clean, TextAfter, BodyOf;
    NamesDiffer();
    ScoreInBody(d);
  }

  lemma ScoreInBody(d: Document)
    requires d.score.Score?
    ensures SCORE in BodyOf(d) && BodyOf(d)[SCORE] == Other(d.score.dump)
  {
    NamesDiffer();
    assert SCORE !in (if d.timestamp != 0 then map[TIMESTAMP := Whole(d.timestamp)] else map[]);
  }

  // ---------- The code's loop ----------

  /** The entries whose keys have been visited. */
  function Visited(u: Body, left: set<string>): Body {
    map k | k in u && k !in left :: u[k]
  }

  lemma VisitOne(f: map<string, string>, u: Body, left: set<string>, key: string)
    requires key in u && key in left
    ensures var before, next := FieldsAfter(f, Visited(u, left)), FieldsAfter(f, Visited(u, left - {key}));
            next == if Reserved(key) then before else if u[key].Null? then before - {key} else before[key := Dump(u[key])]
  {
    hide Dump, Reserved;
    assert Visited(u, left - {key}) == Visited(u, left)[key := u[key]];
  }

  method MergeFields(f: map<string, string>, u: Body) returns (ok: bool, fields: map<string, string>)
    ensures ok == forall k | k in u && !Reserved(k) && u[k].Str? :: Clean(u[k].text)
    ensures ok ==> fields == FieldsAfter(f, u)
  {
    hide Clean, Reserved, FieldsAfter, Visited;
    fields := f;
    var keys := u.Keys;
    NoneVisited(f, u);
    while keys != {}
      invariant keys <= u.Keys && fields == FieldsAfter(f, Visited(u, keys))
      invariant forall k | k in u && k !in keys && !Reserved(k) && u[k].Str? :: Clean(u[k].text)
      decreases keys
    {
      var key :| key in keys;
      VisitOne(f, u, keys, key);
      keys := keys - {key};
      if !Reserved(key) {
        if u[key].Null? {
          fields := fields - {key};
        } else {
          if u[key].Str? && !Clean(u[key].text) {
            return false, fields;
          }
          fields := fields[key := Dump(u[key])];
        }
      }
    }
    return true, fields;
  }

  lemma NoneVisited(f: map<string, string>, u: Body)
    ensures FieldsAfter(f, Visited(u, u.Keys)) == f && Visited(u, {}) == u
  {
    assert Visited(u, u.Keys) == map[];
  }

  lemma FieldsAreExact(f: map<string, string>, u: Body)
    ensures forall k | k in u && k !in {"id", "title", "content", "timestamp"} ::
      if u[k].Null? then k !in FieldsAfter(f, u) else k in FieldsAfter(f, u) && FieldsAfter(f, u)[k] == Dump(u[k])
    ensures forall k | k !in u || k in {"id", "title", "content", "timestamp"} ::
      (k in FieldsAfter(f, u) <==> k in f) && (k in f ==> FieldsAfter(f, u)[k] == f[k])
  {
    hide Dump;
  }

  lemma AcceptableIsExact(u: Body)
    ensures !Acceptable(u) <==>
      || ("timestamp" in u && !u["timestamp"].Whole?)
      || (exists k | k in u :: u[k].Str? && k !in {"id", "timestamp"} && !Clean(u[k].text))
      || (exists k | k in u :: u[k].Other? && k in {"title", "content"} && !Clean(u[k].dump))
  {
    hide Clean, Printer.Number;
    forall k | k in u && u[k].Whole?
      ensures Clean(Dump(u[k]))
    {
      NumberIsClean(u[k].number);
    }
  }

  /** Control characters other than line breaks and tabs are what a clean text lacks. */
  lemma CleanIsExact(s: string)
    ensures Clean(s) <==> forall c | c in s :: c >= ' ' || c in "\n\r\t"
  {
    if Clean(s) {
      forall c | c in s
        ensures c >= ' ' || c in "\n\r\t"
      {
        var i :| 0 <= i < |s| && s[i] == c;
      }
    } else {
      var i :| 0 <= i < |s| && s[i] < ' ' && s[i] != '\n' && s[i] != '\r' && s[i] != '\t';
      assert s[i] in s;
    }
  }

  method MergeUpdate(e: Document, u: Body, now: U64) returns (o: Outcome)
    ensures o == Merge(e, u, now)
    // absent keeps a text, null empties it, a string replaces it, anything else is printed
    ensures o.Stored? && "title" !in u ==> o.doc.title == e.title
    ensures o.Stored? && "content" !in u ==> o.doc.content == e.content
    ensures o.Stored? && "title" in u ==>
      match u["title"] {
        case Null => o.doc.title == ""
        case Str(s) => o.doc.title == s
        case Whole(n) => o.doc.title == Printer.Number(n)
        case Other(d) => o.doc.title == d
      }
    ensures o.Stored? && "content" in u ==>
      match u["content"] {
        case Null => o.doc.content == ""
        case Str(s) => o.doc.content == s
        case Whole(n) => o.doc.content == Printer.Number(n)
        case Other(d) => o.doc.content == d
      }
    // every other key sets its field or with null removes it, and all other fields stay
    ensures o.Stored? ==>
      forall k | k in u && k !in {"id", "title", "content", "timestamp"} ::
        match u[k] {
          case Null => k !in o.doc.fields
          case Str(s) => k in o.doc.fields && o.doc.fields[k] == s
          case Whole(n) => k in o.doc.fields && o.doc.fields[k] == Printer.Number(n)
          case Other(d) => k in o.doc.fields && o.doc.fields[k] == d
        }
    ensures o.Stored? ==>
      forall k | k !in u || k in {"id", "title", "content", "timestamp"} ::
        (k in o.doc.fields <==> k in e.fields) && (k in e.fields ==> o.doc.fields[k] == e.fields[k])
    ensures o.Stored? ==> o.doc.id == e.id && o.doc.score == e.score
    // a timestamp of its own, read as an unsigned 64-bit number, or the time of the update
    ensures o.Stored? && "timestamp" !in u ==> o.doc.timestamp == now
    ensures o.Stored? && "timestamp" in u ==> u["timestamp"].Whole? && (o.doc.timestamp - u["timestamp"].number) % 0x1_0000_0000_0000_0000 == 0
    // strings must be clean, and so must other values in title and content
    ensures o.Rejected? <==>
      || ("timestamp" in u && !u["timestamp"].Whole?)
      || (exists k | k in u :: u[k].Str? && k !in {"id", "timestamp"} && !Clean(u[k].text))
      || (exists k | k in u :: u[k].Other? && k in {"title", "content"} && !Clean(u[k].dump))
  {
    FieldsAreExact(e.fields, u);
    AcceptableIsExact(u);
    hide Clean, FieldsAfter, Printer.Number;
    var title, content := e.title, e.content;
    if TITLE in u {
      title := if u[TITLE].Null? then "" else Dump(u[TITLE]);
      if !u[TITLE].Null? && !Clean(title) {
        return Rejected;
      }
    }
    if CONTENT in u {
      content := if u[CONTENT].Null? then "" else Dump(u[CONTENT]);
      if !u[CONTENT].Null? && !Clean(content) {
        return Rejected;
      }
    }
    var ok, fields := MergeFields(e.fields, u);
    if !ok {
      return Rejected;
    }
    var stamp := now;
    if TIMESTAMP in u {
      if !u[TIMESTAMP].Whole? {
        return Rejected;
      }
      stamp := Stamp(u[TIMESTAMP].number);
    }
    return Stored(Document(e.id, title, content, fields, e.score, stamp));
  }
}
