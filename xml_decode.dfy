/** The schema-free XML to JSON converter of ncclient_3/src/utils.rs.

    The XML tokenizer is a foreign library; it is replaced by the sequence of
    events it would produce and a cursor into that sequence. Text is already
    unescaped and trimmed, whitespace-only text is already dropped, and a text
    or CDATA section whose unescaping fails is an `Other` event. Attributes
    are those written in the start tag, values as written (the source takes
    them without unescaping). Reading at or past the end of the sequence
    yields `Eof`, and an `Eof` event is never consumed, so every enclosing
    level sees it too, as the tokenizer keeps returning `Eof` once the input
    is exhausted. */
module XmlDecode {

  import opened Wrappers
  import opened Json

  datatype Attr = Attr(key: string, value: string)

  datatype Event =
    | Start(name: string, attrs: seq<Attr>)
    | Text(text: string)
    | CData(data: string)
    | End
    | Eof
      /** A self-closing element, a declaration, a comment, a processing
          instruction or a tokenizer error: all of them are skipped. */
    | Other

  /** The state one call of `read` accumulates: the `node` map of child
      elements (and `#cdata`) and the `values` list of text runs. */
  datatype Level = Level(node: map<string, Value>, texts: seq<string>)

  const EmptyLevel := Level(map[], [])

  /** The result of reading one level: its value and the cursor after it. */
  datatype Decoded = Decoded(value: Value, next: nat)

  function EventAt(evs: seq<Event>, i: nat): Event
  {
    if i < |evs| then evs[i] else Eof
  }

  function AttrKey(a: Attr): string { "@" + a.key }

  /** The attributes that the tokenizer's attribute iterator yields as `Ok`
      for a start tag written with `attrs`, given the names `seen` it has
      already yielded: a repeated name comes out as a duplicate-attribute
      error, which the source skips, so only the first of each name is kept. */
  function Yielded(attrs: seq<Attr>, seen: set<string>): seq<Attr>
    decreases |attrs|
  {
    if attrs == [] then []
    else if attrs[0].key in seen then Yielded(attrs[1..], seen)
    else [attrs[0]] + Yielded(attrs[1..], seen + {attrs[0].key})
  }

  /** The attribute pass over one start tag: each attribute is written into the
      child when the child is an object, and into a separate attribute map
      otherwise. Returns the updated child and the attribute map. */
  function ApplyAttrs(child: Value, attrMap: map<string, Value>, attrs: seq<Attr>): (Value, map<string, Value>)
    decreases |attrs|
  {
    if attrs == [] then (child, attrMap)
    else if child.Obj? then
      ApplyAttrs(Obj(child.fields[AttrKey(attrs[0]) := Str(attrs[0].value)]), attrMap, attrs[1..])
    else
      ApplyAttrs(child, attrMap[AttrKey(attrs[0]) := Str(attrs[0].value)], attrs[1..])
  }

  /** The values of a repeated element already present in the node, in order. */
  function Entries(existing: Value): seq<Value>
  {
    if existing.Arr? then existing.items else [existing]
  }

  /** How a decoded child element named `name` enters its parent's node. */
  function Insert(node: map<string, Value>, name: string, attrs: seq<Attr>, child: Value): map<string, Value>
  {
    var (c, attrMap) := ApplyAttrs(child, map[], Yielded(attrs, {}));
    if |attrMap| > 0 then
      node[name := Obj(if c.Str? then attrMap["#text" := c] else attrMap)]
    else if name in node then
      node[name := Arr(Entries(node[name]) + [c])]
    else
      node[name := c]
  }

  /** Inserting a child adds its name to the node and leaves every other
      entry as it was. */
  lemma InsertKeeps(node: map<string, Value>, name: string, attrs: seq<Attr>, child: Value)
    ensures Insert(node, name, attrs, child).Keys == node.Keys + {name}
    ensures forall k :: k in node && k != name ==> Insert(node, name, attrs, child)[k] == node[k]
  {
  }

  /** The value of a run of text runs alone: nothing, one string, or all of
      them in document order. */
  function TextValue(texts: seq<string>): Value
  {
    if |texts| == 0 then Null
    else if |texts| == 1 then Str(texts[0])
    else Arr(seq(|texts|, k requires 0 <= k < |texts| => Str(texts[k])))
  }

  /** How a level resolves once its `End` or `Eof` is reached. */
  function Finish(lvl: Level): Value
  {
    if |lvl.node| > 0 then
      Obj(if |lvl.texts| > 0 then lvl.node["#text" := Str(lvl.texts[0])] else lvl.node)
    else
      TextValue(lvl.texts)
  }

  /** Reading from cursor `i` with level state `lvl`: the specification of
      `read`, one event at a time. */
  function ReadFrom(evs: seq<Event>, i: nat, lvl: Level): (r: Decoded)
    requires i <= |evs|
    ensures i <= r.next <= |evs|
    decreases |evs| - i
  {
    if i == |evs| then Decoded(Finish(lvl), i)
    else
      match evs[i]
      case Start(name, attrs) =>
        var child := ReadFrom(evs, i + 1, EmptyLevel);
        ReadFrom(evs, child.next, Level(Insert(lvl.node, name, attrs, child.value), lvl.texts))
      case Text(t) => ReadFrom(evs, i + 1, Level(lvl.node, lvl.texts + [t]))
      case CData(t) => ReadFrom(evs, i + 1, Level(lvl.node["#cdata" := Str(t)], lvl.texts))
      case End => Decoded(Finish(lvl), i + 1)
      case Eof => Decoded(Finish(lvl), i)
      case Other => ReadFrom(evs, i + 1, lvl)
  }

  /** The document's value: the top level read from the first event. */
  function Decode(evs: seq<Event>): Value
  {
    ReadFrom(evs, 0, EmptyLevel).value
  }

  /** Lines 31-52 of utils.rs: the attribute pass over one start tag. The
      iterator's duplicate check is the set `seen` of names it has yielded. */
  method CollectAttrs(child: Value, attrs: seq<Attr>) returns (c: Value, attrMap: map<string, Value>)
    ensures (c, attrMap) == ApplyAttrs(child, map[], Yielded(attrs, {}))
  {
    c := child;
    attrMap := map[];
    var seen: set<string> := {};
    for j := 0 to |attrs|
      invariant ApplyAttrs(c, attrMap, Yielded(attrs[j..], seen)) == ApplyAttrs(child, map[], Yielded(attrs, {}))
    {
      assert attrs[j..][1..] == attrs[j + 1..];
      if attrs[j].key !in seen {
        seen := seen + {attrs[j].key};
        var key := "@" + attrs[j].key;
        var value := Str(attrs[j].value);
        if c.Obj? {
          c := Obj(c.fields[key := value]);
        } else {
          attrMap := attrMap[key := value];
        }
      }
    }
    assert attrs[|attrs|..] == [];
  }

  /** Lines 64-77 of utils.rs: a repeated element becomes an array, draining
      the entries of an existing array in order. */
  method Promote(existing: Value, c: Value) returns (merged: Value)
    ensures merged == Arr(Entries(existing) + [c])
  {
    var entries: seq<Value> := [];
    if existing.Arr? {
      var rest := existing.items;
      while rest != []
        invariant entries + rest == existing.items
        decreases |rest|
      {
        entries := entries + [rest[0]];
        rest := rest[1..];
      }
    } else {
      entries := entries + [existing];
    }
    entries := entries + [c];
    merged := Arr(entries);
  }

  /** Lines 28-80 of utils.rs: the insertion of one decoded child into the node. */
  method AddChild(node: map<string, Value>, name: string, attrs: seq<Attr>, child: Value)
    returns (node': map<string, Value>)
    ensures node' == Insert(node, name, attrs, child)
  {
    var c, attrMap := CollectAttrs(child, attrs);
    if |attrMap| > 0 {
      if c.Str? {
        attrMap := attrMap["#text" := c];
      }
      node' := node[name := Obj(attrMap)];
    } else if name in node {
      var merged := Promote(node[name], c);
      node' := node[name := merged];
    } else {
      node' := node[name := c];
    }
  }

  /** `read` (utils.rs:19-124): consumes the events of one level from cursor
      `start`, recursing once per start tag, and returns the level's value
      with the cursor after it. */
  method Read(evs: seq<Event>, start: nat) returns (v: Value, next: nat)
    requires start <= |evs|
    ensures Decoded(v, next) == ReadFrom(evs, start, EmptyLevel)
    decreases |evs| - start
  {
    var node: map<string, Value> := map[];
    var texts: seq<string> := [];
    var i := start;
    var done := false;
    while !done
      invariant start <= i <= |evs|
      invariant !done ==> ReadFrom(evs, i, Level(node, texts)) == ReadFrom(evs, start, EmptyLevel)
      invariant done ==> Decoded(Finish(Level(node, texts)), i) == ReadFrom(evs, start, EmptyLevel)
      decreases !done, |evs| - i
    {
      match EventAt(evs, i)
      case Start(name, attrs) =>
        var child, after := Read(evs, i + 1);
        node := AddChild(node, name, attrs, child);
        i := after;
      case Text(t) =>
        texts := texts + [t];
        i := i + 1;
      case CData(t) =>
        node := node["#cdata" := Str(t)];
        i := i + 1;
      case End =>
        i := i + 1;
        done := true;
      case Eof =>
        done := true;
      case Other =>
        i := i + 1;
    }
    if |node| > 0 {
      if |texts| > 0 {
        node := node["#text" := Str(texts[0])];
      }
      v := Obj(node);
    } else if |texts| == 0 {
      v := Null;
    } else if |texts| == 1 {
      v := Str(texts[0]);
    } else {
      v := Arr(seq(|texts|, k requires 0 <= k < |texts| => Str(texts[k])));
    }
    next := i;
  }

  datatype DecodeError = DecodeError

  /** `to_json` (utils.rs:137-142): decoding never fails. */
  method ToJson(evs: seq<Event>) returns (r: Result<Value, DecodeError>)
    ensures r == Ok(Decode(evs))
  {
    var v, _ := Read(evs, 0);
    r := Ok(v);
  }
}
