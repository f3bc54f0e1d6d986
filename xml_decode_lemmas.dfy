/** What the decoding rules of ncclient_3/src/utils.rs guarantee: how
    attributes are folded in, how repeated siblings become arrays, how the
    text runs and CDATA sections of an element resolve, and that skipped
    events leave no trace. */
module XmlDecodeLemmas {

  import opened Wrappers
  import opened Json
  import opened XmlDecode

  // ---------------------------------------------------------------------
  // Attributes (utils.rs:31-62)
  // ---------------------------------------------------------------------

  /** The keys the attributes of a start tag produce. */
  ghost function AttrKeys(attrs: seq<Attr>): set<string>
  {
    set j | 0 <= j < |attrs| :: AttrKey(attrs[j])
  }

  /** Every attribute that is not overridden by a later one with the same
      name is present in `m` with its own value as a string. */
  ghost predicate LastWins(m: map<string, Value>, attrs: seq<Attr>)
  {
    forall j :: 0 <= j < |attrs| && (forall l :: j < l < |attrs| ==> attrs[l].key != attrs[j].key) ==>
      AttrKey(attrs[j]) in m && m[AttrKey(attrs[j])] == Str(attrs[j].value)
  }

  /** Writing the attributes one after another into a map. */
  function Overlay(m: map<string, Value>, attrs: seq<Attr>): map<string, Value>
    decreases |attrs|
  {
    if attrs == [] then m else Overlay(m[AttrKey(attrs[0]) := Str(attrs[0].value)], attrs[1..])
  }

  lemma AttrKeyInjective(a: Attr, b: Attr)
    ensures AttrKey(a) == AttrKey(b) ==> a.key == b.key
  {
    if AttrKey(a) == AttrKey(b) {
      assert AttrKey(a)[1..] == a.key;
      assert AttrKey(b)[1..] == b.key;
    }
  }

  lemma AttrKeysCons(attrs: seq<Attr>)
    requires attrs != []
    ensures AttrKeys(attrs) == {AttrKey(attrs[0])} + AttrKeys(attrs[1..])
  {
    var rest := attrs[1..];
    forall k | k in AttrKeys(attrs) ensures k in {AttrKey(attrs[0])} + AttrKeys(rest) {
      var j :| 0 <= j < |attrs| && k == AttrKey(attrs[j]);
      if j > 0 { assert k == AttrKey(rest[j - 1]); }
    }
    forall k | k in AttrKeys(rest) ensures k in AttrKeys(attrs) {
      var j :| 0 <= j < |rest| && k == AttrKey(rest[j]);
      assert k == AttrKey(attrs[j + 1]);
    }
  }

  /** The first attribute's key comes back later only if its name does. */
  lemma FirstKeyLater(attrs: seq<Attr>)
    requires attrs != [] && forall l :: 0 < l < |attrs| ==> attrs[l].key != attrs[0].key
    ensures AttrKey(attrs[0]) !in AttrKeys(attrs[1..])
  {
    var rest := attrs[1..];
    forall k | 0 <= k < |rest| ensures AttrKey(rest[k]) != AttrKey(attrs[0]) {
      assert rest[k] == attrs[k + 1];
      AttrKeyInjective(rest[k], attrs[0]);
    }
  }

  /** Overlaying adds exactly the attribute keys and keeps every other entry. */
  lemma {:induction false} OverlayKeys(m: map<string, Value>, attrs: seq<Attr>)
    ensures Overlay(m, attrs).Keys == m.Keys + AttrKeys(attrs)
    ensures forall k :: k in m && k !in AttrKeys(attrs) ==> Overlay(m, attrs)[k] == m[k]
    decreases |attrs|
  {
    if attrs != [] {
      OverlayKeys(m[AttrKey(attrs[0]) := Str(attrs[0].value)], attrs[1..]);
      AttrKeysCons(attrs);
    }
  }

  /** Overlaying leaves the last value of each attribute name. */
  lemma {:induction false} OverlayLastWins(m: map<string, Value>, attrs: seq<Attr>)
    ensures LastWins(Overlay(m, attrs), attrs)
    decreases |attrs|
  {
    if attrs != [] {
      var a, rest := attrs[0], attrs[1..];
      var m' := m[AttrKey(a) := Str(a.value)];
      OverlayLastWins(m', rest);
      var r := Overlay(m, attrs);
      assert r == Overlay(m', rest);
      forall j | 0 <= j < |attrs| && (forall l :: j < l < |attrs| ==> attrs[l].key != attrs[j].key)
        ensures AttrKey(attrs[j]) in r && r[AttrKey(attrs[j])] == Str(attrs[j].value)
      {
        if j == 0 {
          FirstKeyLater(attrs);
          OverlayKeys(m', rest);
        } else {
          assert attrs[j] == rest[j - 1];
          forall l | j - 1 < l < |rest| ensures rest[l].key != rest[j - 1].key {
            assert rest[l] == attrs[l + 1];
          }
        }
      }
    }
  }

  /** The names occurring in a list of attributes. */
  ghost function Names(attrs: seq<Attr>): set<string>
  {
    set a | a in attrs :: a.key
  }

  /** Every attribute whose name does not occur earlier in the tag is present
      in `m` with its own value as a string. */
  ghost predicate FirstWins(m: map<string, Value>, attrs: seq<Attr>)
  {
    forall j :: 0 <= j < |attrs| && (forall l :: 0 <= l < j ==> attrs[l].key != attrs[j].key) ==>
      AttrKey(attrs[j]) in m && m[AttrKey(attrs[j])] == Str(attrs[j].value)
  }

  lemma NamesCons(attrs: seq<Attr>)
    requires attrs != []
    ensures Names(attrs) == {attrs[0].key} + Names(attrs[1..])
  {
    forall k | k in Names(attrs) ensures k in {attrs[0].key} + Names(attrs[1..]) {
      var a :| a in attrs && a.key == k;
      if a != attrs[0] { assert a in attrs[1..]; }
    }
  }

  /** The iterator yields attributes of the tag, never one whose name was
      already seen. */
  lemma {:induction false} YieldedFrom(attrs: seq<Attr>, seen: set<string>)
    ensures forall a :: a in Yielded(attrs, seen) ==> a in attrs && a.key !in seen
    decreases |attrs|
  {
    if attrs != [] {
      var a, rest := attrs[0], attrs[1..];
      if a.key in seen {
        YieldedFrom(rest, seen);
      } else {
        YieldedFrom(rest, seen + {a.key});
      }
    }
  }

  /** The iterator yields every name of the tag that it has not seen yet. */
  lemma {:induction false} YieldedNamesExact(attrs: seq<Attr>, seen: set<string>)
    ensures Names(Yielded(attrs, seen)) == Names(attrs) - seen
    decreases |attrs|
  {
    if attrs != [] {
      var a, rest := attrs[0], attrs[1..];
      NamesCons(attrs);
      if a.key in seen {
        YieldedNamesExact(rest, seen);
      } else {
        YieldedNamesExact(rest, seen + {a.key});
        var y := Yielded(attrs, seen);
        assert y == [a] + Yielded(rest, seen + {a.key});
        NamesCons(y);
        assert y[1..] == Yielded(rest, seen + {a.key});
      }
    }
  }

  /** The iterator yields each name at most once. */
  lemma {:induction false} YieldedDistinct(attrs: seq<Attr>, seen: set<string>)
    ensures forall i, l :: 0 <= i < l < |Yielded(attrs, seen)| ==>
              Yielded(attrs, seen)[i].key != Yielded(attrs, seen)[l].key
    decreases |attrs|
  {
    if attrs != [] {
      var a, rest := attrs[0], attrs[1..];
      if a.key in seen {
        YieldedDistinct(rest, seen);
      } else {
        var seen' := seen + {a.key};
        YieldedDistinct(rest, seen');
        YieldedFrom(rest, seen');
        var yr := Yielded(rest, seen');
        var y := Yielded(attrs, seen);
        assert y == [a] + yr;
        forall i, l | 0 <= i < l < |y| ensures y[i].key != y[l].key {
          assert y[l] == yr[l - 1];
          if i > 0 { assert y[i] == yr[i - 1]; }
          else { assert yr[l - 1] in yr; }
        }
      }
    }
  }

  /** The first attribute of each name not yet seen is yielded. */
  lemma {:induction false} YieldedKeepsFirst(attrs: seq<Attr>, seen: set<string>, j: nat)
    requires j < |attrs| && attrs[j].key !in seen
    requires forall l :: 0 <= l < j ==> attrs[l].key != attrs[j].key
    ensures attrs[j] in Yielded(attrs, seen)
    decreases j
  {
    var a, rest := attrs[0], attrs[1..];
    if j > 0 {
      assert attrs[j] == rest[j - 1];
      assert a.key != attrs[j].key;
      var seen' := if a.key in seen then seen else seen + {a.key};
      forall l | 0 <= l < j - 1 ensures rest[l].key != rest[j - 1].key {
        assert rest[l] == attrs[l + 1];
      }
      YieldedKeepsFirst(rest, seen', j - 1);
    }
  }

  /** The attributes yielded for a tag have the same `@` keys as the tag. */
  lemma YieldedKeys(attrs: seq<Attr>)
    ensures AttrKeys(Yielded(attrs, {})) == AttrKeys(attrs)
  {
    var y := Yielded(attrs, {});
    YieldedFrom(attrs, {});
    YieldedNamesExact(attrs, {});
    forall k | k in AttrKeys(attrs) ensures k in AttrKeys(y) {
      var j :| 0 <= j < |attrs| && k == AttrKey(attrs[j]);
      assert attrs[j] in attrs;
      assert attrs[j].key in Names(attrs);
      assert attrs[j].key in Names(y);
      var b :| b in y && b.key == attrs[j].key;
      var i :| 0 <= i < |y| && y[i] == b;
      assert k == AttrKey(y[i]);
    }
    forall k | k in AttrKeys(y) ensures k in AttrKeys(attrs) {
      var i :| 0 <= i < |y| && k == AttrKey(y[i]);
      assert y[i] in y;
      var j :| 0 <= j < |attrs| && attrs[j] == y[i];
    }
  }

  /** Over the yielded attributes the last value of a name is its only one,
      which is the first value the tag gives that name. */
  lemma YieldedFirstWins(m: map<string, Value>, attrs: seq<Attr>)
    requires LastWins(m, Yielded(attrs, {}))
    ensures FirstWins(m, attrs)
  {
    var y := Yielded(attrs, {});
    YieldedDistinct(attrs, {});
    forall j | 0 <= j < |attrs| && (forall l :: 0 <= l < j ==> attrs[l].key != attrs[j].key)
      ensures AttrKey(attrs[j]) in m && m[AttrKey(attrs[j])] == Str(attrs[j].value)
    {
      YieldedKeepsFirst(attrs, {}, j);
      var i :| 0 <= i < |y| && y[i] == attrs[j];
      assert forall l :: i < l < |y| ==> y[l].key != y[i].key;
    }
  }

  /** Writing the attributes the iterator yields for a tag adds exactly the
      tag's `@` keys, keeps every other entry, and leaves the first value of
      each attribute name: a later repeat is never written. */
  lemma AttrsFirstWins(m: map<string, Value>, attrs: seq<Attr>)
    ensures Overlay(m, Yielded(attrs, {})).Keys == m.Keys + AttrKeys(attrs)
    ensures forall k :: k in m && k !in AttrKeys(attrs) ==> Overlay(m, Yielded(attrs, {}))[k] == m[k]
    ensures FirstWins(Overlay(m, Yielded(attrs, {})), attrs)
  {
    YieldedKeys(attrs);
    OverlayKeys(m, Yielded(attrs, {}));
    OverlayLastWins(m, Yielded(attrs, {}));
    YieldedFirstWins(Overlay(m, Yielded(attrs, {})), attrs);
  }

  /** The attribute pass writes into an object child and into the separate
      attribute map otherwise, never both. */
  lemma {:induction false} ApplyAttrsSplit(child: Value, m: map<string, Value>, attrs: seq<Attr>)
    ensures ApplyAttrs(child, m, attrs) ==
              if child.Obj? then (Obj(Overlay(child.fields, attrs)), m) else (child, Overlay(m, attrs))
    decreases |attrs|
  {
    if attrs != [] {
      if child.Obj? {
        ApplyAttrsSplit(Obj(child.fields[AttrKey(attrs[0]) := Str(attrs[0].value)]), m, attrs[1..]);
      } else {
        ApplyAttrsSplit(child, m[AttrKey(attrs[0]) := Str(attrs[0].value)], attrs[1..]);
      }
    }
  }

  /** Attributes of an element whose content decoded to an object are written
      into that object as "@"-prefixed string fields, the first of several
      same-named attributes winning and overwriting any same-named field;
      the separate attribute map stays empty. */
  lemma AttributesIntoObject(fields: map<string, Value>, attrs: seq<Attr>)
    ensures var (c, attrMap) := ApplyAttrs(Obj(fields), map[], Yielded(attrs, {}));
      && attrMap == map[]
      && c.Obj?
      && c.fields.Keys == fields.Keys + AttrKeys(attrs)
      && (forall k :: k in fields && k !in AttrKeys(attrs) ==> c.fields[k] == fields[k])
      && FirstWins(c.fields, attrs)
  {
    ApplyAttrsSplit(Obj(fields), map[], Yielded(attrs, {}));
    AttrsFirstWins(fields, attrs);
  }

  /** An element with attributes whose content is not an object becomes an
      object of its "@"-prefixed attributes, keeping a string content under
      "#text" and dropping null or array content; it replaces any earlier
      sibling of the same name instead of being promoted to an array. */
  lemma AttributedLeaf(node: map<string, Value>, name: string, attrs: seq<Attr>, child: Value)
    requires !child.Obj? && attrs != []
    ensures var r := Insert(node, name, attrs, child)[name];
      && r.Obj?
      && r.fields.Keys == AttrKeys(attrs) + (if child.Str? then {"#text"} else {})
      && (child.Str? ==> r.fields["#text"] == child)
      && FirstWins(r.fields, attrs)
  {
    ApplyAttrsSplit(child, map[], Yielded(attrs, {}));
    AttrsFirstWins(map[], attrs);
    var attrMap := Overlay(map[], Yielded(attrs, {}));
    assert AttrKey(attrs[0]) in attrMap;
    assert |attrMap| > 0;
    NoTextKey(attrs);
    var fields := if child.Str? then attrMap["#text" := child] else attrMap;
    assert Insert(node, name, attrs, child)[name] == Obj(fields);
    assert forall k :: k in attrMap ==> fields[k] == attrMap[k];
  }

  /** Attribute keys start with '@', so none of them is "#text". */
  lemma NoTextKey(attrs: seq<Attr>)
    ensures "#text" !in AttrKeys(attrs)
  {
    forall j | 0 <= j < |attrs| ensures AttrKey(attrs[j]) != "#text" {
      assert AttrKey(attrs[j])[0] == '@';
    }
  }

  // ---------------------------------------------------------------------
  // Repeated siblings (utils.rs:63-80)
  // ---------------------------------------------------------------------

  /** Inserting attribute-free siblings of one name, in document order. */
  function InsertAll(node: map<string, Value>, name: string, children: seq<Value>): map<string, Value>
  {
    if children == [] then node
    else Insert(InsertAll(node, name, children[..|children| - 1]), name, [], children[|children| - 1])
  }

  /** The first occurrence of a name is stored as it is; every later one
      turns the entry into an array of all occurrences in document order
      (the entries of a first occurrence that is itself an array are
      spliced in). Other entries of the node are untouched. */
  lemma RepeatedSiblings(node: map<string, Value>, name: string, children: seq<Value>)
    requires name !in node && children != []
    ensures var r := InsertAll(node, name, children);
      && r.Keys == node.Keys + {name}
      && (forall k :: k in node ==> r[k] == node[k])
      && r[name] == if |children| == 1 then children[0] else Arr(Entries(children[0]) + children[1..])
  {
    SiblingsKeepOthers(node, name, children);
    SiblingsEntry(node, name, children);
  }

  lemma {:induction false} SiblingsKeepOthers(node: map<string, Value>, name: string, children: seq<Value>)
    ensures var r := InsertAll(node, name, children);
      && r.Keys == node.Keys + (if children == [] then {} else {name})
      && (forall k :: k in node && k != name ==> r[k] == node[k])
    decreases |children|
  {
    var n := |children|;
    if n > 0 {
      var prefix := children[..n - 1];
      SiblingsKeepOthers(node, name, prefix);
      InsertKeeps(InsertAll(node, name, prefix), name, [], children[n - 1]);
    }
  }

  lemma {:induction false} SiblingsEntry(node: map<string, Value>, name: string, children: seq<Value>)
    requires name !in node && children != []
    ensures var r := InsertAll(node, name, children);
      && name in r
      && r[name] == if |children| == 1 then children[0] else Arr(Entries(children[0]) + children[1..])
    decreases |children|
  {
    var n := |children|;
    if n == 1 {
      assert children[..0] == [];
      InsertPlain(node, name, children[0]);
    } else {
      var prefix := children[..n - 1];
      SiblingsEntry(node, name, prefix);
      var prev := InsertAll(node, name, prefix);
      InsertPlain(prev, name, children[n - 1]);
      assert prefix[0] == children[0];
      assert Entries(prev[name]) == Entries(children[0]) + prefix[1..] by {
        if n == 2 {
          assert prefix[1..] == [];
        }
      }
      assert prefix[1..] + [children[n - 1]] == children[1..];
    }
  }

  /** An attribute-free child is stored as it is, or appended to the entries
      of a same-named earlier sibling. */
  lemma InsertPlain(node: map<string, Value>, name: string, c: Value)
    ensures Insert(node, name, [], c) ==
              if name in node then node[name := Arr(Entries(node[name]) + [c])] else node[name := c]
  {
    assert ApplyAttrs(c, map[], []) == (c, map[]);
  }

  /** Siblings whose first occurrence is not an array decode to exactly the
      array of all occurrences, in order, one entry per occurrence. */
  lemma RepeatedSiblingsInOrder(node: map<string, Value>, name: string, children: seq<Value>)
    requires name !in node && |children| >= 2 && !children[0].Arr?
    ensures InsertAll(node, name, children)[name] == Arr(children)
  {
    SiblingsEntry(node, name, children);
    assert Entries(children[0]) == [children[0]];
    assert [children[0]] + children[1..] == children;
  }

  // ---------------------------------------------------------------------
  // Text runs and CDATA (utils.rs:83-93, 101-123)
  // ---------------------------------------------------------------------

  /** Events that neither open a child element nor end the level. */
  predicate InLevel(e: Event) { e.Text? || e.CData? || e.Other? }

  /** The text runs among some events, in order. */
  function TextsOf(s: seq<Event>): seq<string>
  {
    if s == [] then [] else (if s[0].Text? then [s[0].text] else []) + TextsOf(s[1..])
  }

  /** The content of the last CDATA section among some events. */
  function LastCData(s: seq<Event>): Option<string>
  {
    if s == [] then None
    else
      var later := LastCData(s[1..]);
      if later.Some? then later else if s[0].CData? then Some(s[0].data) else None
  }

  function WithCData(node: map<string, Value>, d: Option<string>): map<string, Value>
  {
    if d.Some? then node["#cdata" := Str(d.value)] else node
  }

  /** Where a run of text, CDATA and skipped events ends its level. */
  predicate EndsLevel(evs: seq<Event>, j: nat)
  {
    j == |evs| || (j < |evs| && (evs[j].End? || evs[j].Eof?))
  }

  function AfterEnd(evs: seq<Event>, j: nat): nat
  {
    if j < |evs| && evs[j].End? then j + 1 else j
  }

  /** The level state after a run of text, CDATA and skipped events. */
  function AfterRun(lvl: Level, run: seq<Event>): Level
  {
    Level(WithCData(lvl.node, LastCData(run)), lvl.texts + TextsOf(run))
  }

  /** The level update of one text, CDATA or skipped event. */
  function StepLevel(lvl: Level, e: Event): Level
    requires InLevel(e)
  {
    match e
    case Text(t) => Level(lvl.node, lvl.texts + [t])
    case CData(t) => Level(lvl.node["#cdata" := Str(t)], lvl.texts)
    case Other => lvl
  }

  lemma AfterRunStep(lvl: Level, run: seq<Event>)
    requires run != [] && InLevel(run[0])
    ensures AfterRun(lvl, run) == AfterRun(StepLevel(lvl, run[0]), run[1..])
  {
    var rest := run[1..];
    match run[0]
    case Text(t) =>
      assert TextsOf(run) == [t] + TextsOf(rest);
      assert lvl.texts + [t] + TextsOf(rest) == lvl.texts + TextsOf(run);
    case CData(t) =>
      var later := LastCData(rest);
      if later.Some? {
        assert lvl.node["#cdata" := Str(t)]["#cdata" := Str(later.value)] == lvl.node["#cdata" := Str(later.value)];
      }
      assert TextsOf(run) == [] + TextsOf(rest) == TextsOf(rest);
    case Other =>
      assert TextsOf(run) == [] + TextsOf(rest) == TextsOf(rest);
  }

  /** A level made only of text runs, CDATA sections and skipped events
      collects every text run in order and keeps the last CDATA section. */
  lemma {:induction false} FlatLevel(evs: seq<Event>, i: nat, j: nat, lvl: Level)
    requires i <= j <= |evs| && EndsLevel(evs, j)
    requires forall k :: i <= k < j ==> InLevel(evs[k])
    ensures ReadFrom(evs, i, lvl) == Decoded(Finish(AfterRun(lvl, evs[i..j])), AfterEnd(evs, j))
    decreases j - i
  {
    var run := evs[i..j];
    if i == j {
      assert run == [];
      assert lvl.texts + [] == lvl.texts;
      assert AfterRun(lvl, run) == lvl;
    } else {
      assert run[0] == evs[i];
      assert run[1..] == evs[i + 1..j];
      AfterRunStep(lvl, run);
      assert ReadFrom(evs, i, lvl) == ReadFrom(evs, i + 1, StepLevel(lvl, evs[i]));
      FlatLevel(evs, i + 1, j, StepLevel(lvl, evs[i]));
    }
  }

  lemma {:induction false} NoCDataNone(s: seq<Event>)
    requires forall k :: 0 <= k < |s| ==> !s[k].CData?
    ensures LastCData(s) == None
  {
    if s != [] {
      NoCDataNone(s[1..]);
    }
  }

  lemma {:induction false} LastCDataAt(s: seq<Event>, k: nat, d: string)
    requires k < |s| && s[k] == CData(d)
    requires forall l :: k < l < |s| ==> !s[l].CData?
    ensures LastCData(s) == Some(d)
  {
    if k == 0 {
      NoCDataNone(s[1..]);
    } else {
      LastCDataAt(s[1..], k - 1, d);
    }
  }

  /** An element with neither child elements nor CDATA decodes to null when
      it has no text run, to its one text run, or to the array of its text
      runs in document order. */
  lemma TextOnlyElement(evs: seq<Event>, i: nat, j: nat)
    requires i <= j <= |evs| && EndsLevel(evs, j)
    requires forall k :: i <= k < j ==> evs[k].Text? || evs[k].Other?
    ensures var texts := TextsOf(evs[i..j]);
      var v := ReadFrom(evs, i, EmptyLevel).value;
      && (|texts| == 0 ==> v == Null)
      && (|texts| == 1 ==> v == Str(texts[0]))
      && (|texts| >= 2 ==>
            && v.Arr? && |v.items| == |texts|
            && forall k :: 0 <= k < |texts| ==> v.items[k] == Str(texts[k]))
  {
    FlatLevel(evs, i, j, EmptyLevel);
    NoCDataNone(evs[i..j]);
    assert [] + TextsOf(evs[i..j]) == TextsOf(evs[i..j]);
  }

  /** A CDATA section makes its element an object: the last section is kept
      under "#cdata", the first text run (if any) under "#text", and the
      other text runs are dropped. */
  lemma CDataElement(evs: seq<Event>, i: nat, j: nat, k: nat, d: string)
    requires i <= k < j <= |evs| && EndsLevel(evs, j)
    requires forall l :: i <= l < j ==> InLevel(evs[l])
    requires evs[k] == CData(d) && forall l :: k < l < j ==> !evs[l].CData?
    ensures var texts := TextsOf(evs[i..j]);
      var v := ReadFrom(evs, i, EmptyLevel).value;
      && v.Obj?
      && v.fields.Keys == {"#cdata"} + (if |texts| > 0 then {"#text"} else {})
      && v.fields["#cdata"] == Str(d)
      && (|texts| > 0 ==> v.fields["#text"] == Str(texts[0]))
  {
    var run := evs[i..j];
    FlatLevel(evs, i, j, EmptyLevel);
    LastCDataAt(run, k - i, d);
    assert [] + TextsOf(run) == TextsOf(run);
    FinishCData(d, TextsOf(run));
  }

  lemma FinishCData(d: string, texts: seq<string>)
    ensures var v := Finish(Level(map["#cdata" := Str(d)], texts));
      && v.Obj?
      && v.fields.Keys == {"#cdata"} + (if |texts| > 0 then {"#text"} else {})
      && v.fields["#cdata"] == Str(d)
      && (|texts| > 0 ==> v.fields["#text"] == Str(texts[0]))
  {
    assert |map["#cdata" := Str(d)]| == 1;
  }

  // ---------------------------------------------------------------------
  // Child elements make an object (utils.rs:101-117)
  // ---------------------------------------------------------------------

  /** Once a level holds a child element or a CDATA section it decodes to an
      object keeping every key collected so far, and the first text run of
      the level sits under "#text". */
  lemma {:induction false} NonEmptyNodeGivesObject(evs: seq<Event>, i: nat, lvl: Level)
    requires i <= |evs| && |lvl.node| > 0
    ensures var v := ReadFrom(evs, i, lvl).value;
      && v.Obj?
      && lvl.node.Keys <= v.fields.Keys
      && (|lvl.texts| > 0 ==> "#text" in v.fields && v.fields["#text"] == Str(lvl.texts[0]))
    decreases |evs| - i
  {
    if i < |evs| {
      match evs[i]
      case Start(name, attrs) =>
        var child := ReadFrom(evs, i + 1, EmptyLevel);
        var node' := Insert(lvl.node, name, attrs, child.value);
        assert name in node';
        NonEmptyNodeGivesObject(evs, child.next, Level(node', lvl.texts));
      case Text(t) =>
        NonEmptyNodeGivesObject(evs, i + 1, Level(lvl.node, lvl.texts + [t]));
      case CData(t) =>
        NonEmptyNodeGivesObject(evs, i + 1, Level(lvl.node["#cdata" := Str(t)], lvl.texts));
      case End =>
      case Eof =>
      case Other =>
        NonEmptyNodeGivesObject(evs, i + 1, lvl);
    }
  }

  /** An element with a child element decodes to an object holding an entry
      for that child. */
  lemma ChildElementGivesObject(evs: seq<Event>, i: nat, lvl: Level)
    requires i < |evs| && evs[i].Start?
    ensures var v := ReadFrom(evs, i, lvl).value;
      v.Obj? && evs[i].name in v.fields
  {
    var child := ReadFrom(evs, i + 1, EmptyLevel);
    var node' := Insert(lvl.node, evs[i].name, evs[i].attrs, child.value);
    assert evs[i].name in node';
    NonEmptyNodeGivesObject(evs, child.next, Level(node', lvl.texts));
  }

  // ---------------------------------------------------------------------
  // Skipped events (utils.rs:95-97)
  // ---------------------------------------------------------------------

  /** The events with every skipped one removed. */
  function Skipless(s: seq<Event>): seq<Event>
  {
    if s == [] then [] else (if s[0].Other? then [] else [s[0]]) + Skipless(s[1..])
  }

  lemma {:induction false} SkiplessIdempotent(s: seq<Event>)
    ensures Skipless(Skipless(s)) == Skipless(s)
  {
    if s != [] {
      SkiplessIdempotent(s[1..]);
      if s[0].Other? {
        assert Skipless(s) == [] + Skipless(s[1..]) == Skipless(s[1..]);
      } else {
        var t := [s[0]] + Skipless(s[1..]);
        assert Skipless(s) == t;
        assert t[0] == s[0] && t[1..] == Skipless(s[1..]);
      }
    }
  }

  lemma SkiplessStep(s: seq<Event>, i: nat)
    requires i < |s|
    ensures Skipless(s[i..]) == (if s[i].Other? then [] else [s[i]]) + Skipless(s[i + 1..])
  {
    assert s[i..][0] == s[i];
    assert s[i..][1..] == s[i + 1..];
  }

  /** Self-closing elements, declarations, comments and tokenizer errors
      leave no trace: two event sequences that agree once those are removed
      read to the same value, and leave the same events unread. */
  lemma {:induction false} SkippedLeaveNoTrace(a: seq<Event>, i: nat, b: seq<Event>, j: nat, lvl: Level)
    requires i <= |a| && j <= |b|
    requires Skipless(a[i..]) == Skipless(b[j..])
    ensures ReadFrom(a, i, lvl).value == ReadFrom(b, j, lvl).value
    ensures Skipless(a[ReadFrom(a, i, lvl).next..]) == Skipless(b[ReadFrom(b, j, lvl).next..])
    decreases |a| - i + |b| - j, 1
  {
    if i < |a| && a[i].Other? {
      SkiplessStep(a, i);
      SkippedLeaveNoTrace(a, i + 1, b, j, lvl);
    } else if j < |b| && b[j].Other? {
      SkiplessStep(b, j);
      SkippedLeaveNoTrace(a, i, b, j + 1, lvl);
    } else if i == |a| || j == |b| {
      if i < |a| { SkiplessStep(a, i); }
      if j < |b| { SkiplessStep(b, j); }
      assert i == |a| && j == |b|;
    } else {
      SkiplessStep(a, i);
      SkiplessStep(b, j);
      assert a[i] == b[j] && Skipless(a[i + 1..]) == Skipless(b[j + 1..]) by {
        var sa := [a[i]] + Skipless(a[i + 1..]);
        var sb := [b[j]] + Skipless(b[j + 1..]);
        assert sa[0] == a[i] && sa[1..] == Skipless(a[i + 1..]);
        assert sb[0] == b[j] && sb[1..] == Skipless(b[j + 1..]);
      }
      SameEventNoTrace(a, i, b, j, lvl);
    }
  }

  /** The case of `SkippedLeaveNoTrace` where both sequences go on with the
      same event, which is not a skipped one. */
  lemma {:induction false} SameEventNoTrace(a: seq<Event>, i: nat, b: seq<Event>, j: nat, lvl: Level)
    requires i < |a| && j < |b| && a[i] == b[j] && !a[i].Other?
    requires Skipless(a[i + 1..]) == Skipless(b[j + 1..])
    ensures ReadFrom(a, i, lvl).value == ReadFrom(b, j, lvl).value
    ensures Skipless(a[ReadFrom(a, i, lvl).next..]) == Skipless(b[ReadFrom(b, j, lvl).next..])
    decreases |a| - i + |b| - j, 0
  {
    match a[i]
    case Start(name, attrs) =>
      SkippedLeaveNoTrace(a, i + 1, b, j + 1, EmptyLevel);
      var ca := ReadFrom(a, i + 1, EmptyLevel);
      var cb := ReadFrom(b, j + 1, EmptyLevel);
      SkippedLeaveNoTrace(a, ca.next, b, cb.next, Level(Insert(lvl.node, name, attrs, ca.value), lvl.texts));
    case Text(t) =>
      SkippedLeaveNoTrace(a, i + 1, b, j + 1, Level(lvl.node, lvl.texts + [t]));
    case CData(t) =>
      SkippedLeaveNoTrace(a, i + 1, b, j + 1, Level(lvl.node["#cdata" := Str(t)], lvl.texts));
    case End =>
    case Eof =>
  }

  /** Decoding a document is decoding it with its skipped events removed. */
  lemma DecodeIgnoresSkipped(evs: seq<Event>)
    ensures Decode(evs) == Decode(Skipless(evs))
  {
    SkiplessIdempotent(evs);
    assert evs[0..] == evs;
    assert Skipless(evs)[0..] == Skipless(evs);
    SkippedLeaveNoTrace(evs, 0, Skipless(evs), 0, EmptyLevel);
  }

  // ---------------------------------------------------------------------
  // Worked documents
  // ---------------------------------------------------------------------

  /** `<a>5</a>`: a leaf keeps its text verbatim, with no numeric coercion. */
  lemma LeafDocument()
    ensures Decode([Start("a", []), Text("5"), End]) == Obj(map["a" := Str("5")])
  {
  }

  /** `<r><c>1</c><c>2</c></r>`: the second `c` promotes the entry to an array. */
  lemma RepeatedDocument()
    ensures Decode([Start("r", []), Start("c", []), Text("1"), End, Start("c", []), Text("2"), End, End])
            == Obj(map["r" := Obj(map["c" := Arr([Str("1"), Str("2")])])])
  {
    var evs := [Start("r", []), Start("c", []), Text("1"), End, Start("c", []), Text("2"), End, End];
    assert ReadFrom(evs, 2, EmptyLevel) == Decoded(Str("1"), 4);
    assert ReadFrom(evs, 5, EmptyLevel) == Decoded(Str("2"), 7);
    var first := Insert(map[], "c", [], Str("1"));
    assert first == map["c" := Str("1")];
    assert ApplyAttrs(Str("2"), map[], []) == (Str("2"), map[]);
    assert Entries(first["c"]) + [Str("2")] == [Str("1"), Str("2")];
    assert Insert(first, "c", [], Str("2")) == map["c" := Arr([Str("1"), Str("2")])];
    assert ReadFrom(evs, 1, EmptyLevel) == Decoded(Obj(map["c" := Arr([Str("1"), Str("2")])]), 8);
  }

  /** `<v present="true">5</v>`: attributes with text. */
  lemma AttributedDocument()
    ensures Decode([Start("v", [Attr("present", "true")]), Text("5"), End])
            == Obj(map["v" := Obj(map["@present" := Str("true"), "#text" := Str("5")])])
  {
    var evs := [Start("v", [Attr("present", "true")]), Text("5"), End];
    assert ReadFrom(evs, 1, EmptyLevel) == Decoded(Str("5"), 3);
    var attrs := [Attr("present", "true")];
    assert AttrKey(attrs[0]) == "@present";
    assert attrs[1..] == [];
    assert Yielded(attrs, {}) == attrs;
    assert ApplyAttrs(Str("5"), map[], attrs) == (Str("5"), map["@present" := Str("true")]);
    assert |map["@present" := Str("true")]| == 1;
  }

  /** `<e></e>`: an empty element is null. */
  lemma EmptyDocument()
    ensures Decode([Start("e", []), End]) == Obj(map["e" := Null])
  {
  }
}
