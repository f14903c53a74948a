/** The builder: a stream of text that grows by one entry at a time. */
module JsonBuilder {

  import opened Json

  /** What a builder has been used for so far: a tree, or calls that fit no tree. */
  datatype Built = Unfit | Tree(value: Value)

  function AddMember(b: Built, key: string, entry: Built): Built {
    if b.Tree? && b.value.Object? && entry.Tree? then
      Tree(Object(b.value.members + [Member(key, entry.value)]))
    else Unfit
  }

  function AddElement(b: Built, entry: Built): Built {
    if b.Tree? && b.value.Array? && entry.Tree? then Tree(Array(b.value.items + [entry.value])) else Unfit
  }

  lemma {:induction false} MembersAppend(ms: seq<Member>, m: Member)
    ensures PrintMembers(ms + [m]) == PrintMembers(ms) + (if ms == [] then "" else ",") + PrintMember(m)
  {
    hide PrintMember;
    if ms == [] {
      assert ms + [m] == [m];
    } else {
      assert (ms + [m])[1..] == ms[1..] + [m];
      MembersAppend(ms[1..], m);
    }
  }

  lemma {:induction false} ItemsAppend(vs: seq<Value>, v: Value)
    ensures PrintItems(vs + [v]) == PrintItems(vs) + (if vs == [] then "" else ",") + Print(v)
  {
    hide Print;
    if vs == [] {
      assert vs + [v] == [v];
    } else {
      assert (vs + [v])[1..] == vs[1..] + [v];
      ItemsAppend(vs[1..], v);
    }
  }

  lemma OpenMembers(stream: string, ms: seq<Member>)
    requires stream + "}" == Print(Object(ms))
    ensures stream == "{" + PrintMembers(ms)
  {
    hide PrintMembers;
    var whole := "{" + PrintMembers(ms);
    assert (stream + "}")[..|stream|] == stream && (whole + "}")[..|whole|] == whole;
  }

  lemma OpenItems(stream: string, vs: seq<Value>)
    requires stream + "]" == Print(Array(vs))
    ensures stream == "[" + PrintItems(vs)
  {
    hide PrintItems;
    var whole := "[" + PrintItems(vs);
    assert (stream + "]")[..|stream|] == stream && (whole + "]")[..|whole|] == whole;
  }

  /** An entry behind a separating comma extends the unfinished object. */
  lemma MemberFits(stream: string, ms: seq<Member>, m: Member)
    requires stream + "}" == Print(Object(ms))
    ensures stream + ((if ms == [] then "" else ",") + PrintMember(m)) + "}" == Print(Object(ms + [m]))
  {
    hide PrintMembers, PrintMember;
    OpenMembers(stream, ms);
    MembersAppend(ms, m);
  }

  lemma ItemFits(stream: string, vs: seq<Value>, v: Value)
    requires stream + "]" == Print(Array(vs))
    ensures stream + ((if vs == [] then "" else ",") + Print(v)) + "]" == Print(Array(vs + [v]))
  {
    hide PrintItems;
    OpenItems(stream, vs);
    ItemsAppend(vs, v);
  }

  method EscapeJSONString(s: string) returns (out: string)
    ensures out == Escape(s)
  {
    out := "";
    for i := 0 to |s|
      invariant out + Escape(s[i..]) == Escape(s)
    {
      assert s[i..][1..] == s[i + 1..];
      Assoc(out, EscapeChar(s[i]), Escape(s[i + 1..]));
      out := out + EscapeChar(s[i]);
    }
  }

  class Builder {
    var stream: string
    var isObject: bool
    var first: bool
    ghost var built: Built

    function Close(): string
      reads this
    {
      if isObject then "}" else "]"
    }

    /** The stream lacks only the closing bracket of the tree. */
    ghost predicate Valid()
      reads this
    {
      built.Tree? ==>
        && (if isObject then built.value.Object? else built.value.Array?)
        && first == (if isObject then built.value.members == [] else built.value.items == [])
        && stream + Close() == Print(built.value)
    }

    constructor (asObject: bool)
      ensures Valid() && isObject == asObject
      ensures built == Tree(if asObject then Object([]) else Array([]))
    {
      stream, isObject, first := if asObject then "{" else "[", asObject, true;
      built := Tree(if asObject then Object([]) else Array([]));
    }

    method AddComma()
      modifies this
      ensures stream == old(stream) + (if old(first) then "" else ",") && !first
      ensures isObject == old(isObject) && built == old(built)
    {
      if !first {
        stream := stream + ",";
      }
      first := false;
    }

    /** One entry with a key; `text` is what the overload prints for the value. */
    method AddEntry(key: string, text: string, ghost entry: Built)
      requires Valid() && (entry.Tree? ==> text == Print(entry.value))
      modifies this
      ensures Valid() && isObject == old(isObject) && !first
      ensures stream == old(stream) + ((if old(first) then "" else ",") + (Quoted(key) + ":" + text))
      ensures built == AddMember(old(built), key, entry)
    {
      hide Print, Escape, PrintMember;
      AddComma();
      var escaped := EscapeJSONString(key);
      stream := stream + "\"" + escaped + "\":" + text;
      assert stream == old(stream) + ((if old(first) then "" else ",") + (Quoted(key) + ":" + text));
      if built.Tree? && built.value.Object? && entry.Tree? {
        MemberFits(old(stream), built.value.members, Member(key, entry.value));
        MemberText(key, entry.value);
      }
      built := AddMember(built, key, entry);
    }

    /** One entry without a key; object builders ignore it. */
    method AddElementText(text: string, ghost entry: Built)
      requires Valid() && (entry.Tree? ==> text == Print(entry.value))
      modifies this
      ensures Valid() && isObject == old(isObject) && first == (old(first) && isObject)
      ensures stream == if isObject then old(stream) else old(stream) + ((if old(first) then "" else ",") + text)
      ensures built == if isObject then old(built) else AddElement(old(built), entry)
    {
      hide Print;
      if !isObject {
        AddComma();
        stream := stream + text;
        assert stream == old(stream) + ((if old(first) then "" else ",") + text);
        if built.Tree? && built.value.Array? && entry.Tree? {
          ItemFits(old(stream), built.value.items, entry.value);
        }
        built := AddElement(built, entry);
      }
    }

    method AddString(key: string, value: string)
      requires Valid()
      modifies this
      ensures Valid() && isObject == old(isObject)
      ensures built == AddMember(old(built), key, Tree(Text(value)))
    {
      var escaped := EscapeJSONString(value);
      AddEntry(key, "\"" + escaped + "\"", Tree(Text(value)));
    }

    method AddInt(key: string, value: int)
      requires Valid()
      modifies this
      ensures Valid() && isObject == old(isObject)
      ensures built == AddMember(old(built), key, Tree(Int(value)))
    {
      AddEntry(key, Number(value), Tree(Int(value)));
    }

    method AddBool(key: string, value: bool)
      requires Valid()
      modifies this
      ensures Valid() && isObject == old(isObject)
      ensures built == AddMember(old(built), key, Tree(Bool(value)))
    {
      AddEntry(key, if value then "true" else "false", Tree(Bool(value)));
    }

    /** The nested builder is finished by it. */
    method AddNested(key: string, nested: Builder)
      requires Valid() && nested.Valid() && nested != this
      modifies this, nested
      ensures Valid() && isObject == old(isObject)
      ensures built == AddMember(old(built), key, old(nested.built))
      ensures nested.Valid() && nested.built == Unfit
    {
      var text := nested.ToString();
      AddEntry(key, text, old(nested.built));
    }

    method AddItemString(value: string)
      requires Valid()
      modifies this
      ensures Valid() && isObject == old(isObject)
      ensures built == if isObject then old(built) else AddElement(old(built), Tree(Text(value)))
    {
      var escaped := EscapeJSONString(value);
      AddElementText("\"" + escaped + "\"", Tree(Text(value)));
    }

    method AddItemInt(value: int)
      requires Valid()
      modifies this
      ensures Valid() && isObject == old(isObject)
      ensures built == if isObject then old(built) else AddElement(old(built), Tree(Int(value)))
    {
      AddElementText(Number(value), Tree(Int(value)));
    }

    method AddItemNested(nested: Builder)
      requires Valid() && nested.Valid() && nested != this
      modifies this, nested
      ensures Valid() && isObject == old(isObject) && nested.Valid()
      ensures built == if isObject then old(built) else AddElement(old(built), old(nested.built))
      ensures nested.built == if isObject then old(nested.built) else Unfit
    {
      if !isObject {
        var text := nested.ToString();
        AddElementText(text, old(nested.built));
      }
    }

    /** A finished tree is the JSON document it was built as; nothing more fits behind it. */
    method ToString() returns (r: string)
      requires Valid()
      modifies this
      ensures r == stream == old(stream) + old(Close())
      ensures old(built).Tree? ==> r == Print(old(built).value) && Parse(r) == Document.Parsed(old(built).value)
      ensures Valid() && built == Unfit && isObject == old(isObject) && first == old(first)
    {
      hide Print, Parse;
      stream := stream + Close();
      r := stream;
      if built.Tree? {
        RoundTrip(built.value);
      }
      built := Unfit;
    }
  }

  lemma MemberText(key: string, v: Value)
    ensures PrintMember(Member(key, v)) == Quoted(key) + ":" + Print(v)
  {
  }
}
