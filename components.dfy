/** The component extraction of ncclient_3/src/routes/get_json.rs: the decoded
    reply to the transceiver `<get>` becomes one flat record per component,
    with its name, whether its transceiver is present, the four inventory
    leaves of a present transceiver and the state of each physical channel.

    A failed `unwrap` panics the request handler; here it is an `Err` naming
    what was missing, and the first one met in the source's order wins. */
module Components {

  import opened Wrappers
  import opened Json
  import XmlDecode
  import XmlDecodeLemmas

  /** A `HashMap<String, Value>` of the source: one record per component. */
  type Record = map<string, Value>

  datatype Panic =
      /** An `unwrap` of a lookup along this path that found nothing. */
    | Missing(path: seq<string>)
      /** `as_object().unwrap()` on a channel `state` that is not an object. */
    | StateNotObject

  const COMPONENTS: seq<string> := ["rpc-reply", "data", "components", "component"]
  const PRESENT_AT: seq<string> := ["transceiver", "state", "present"]
  const CHANNELS_AT: seq<string> := ["transceiver", "physical-channels"]

  /** The inventory leaves copied for a present transceiver, in the order read. */
  const STATE_FIELDS: seq<string> := ["serial-no", "vendor", "vendor-part", "vendor-rev"]

  const PRESENT: Value := Str("PRESENT")
  const NOT_PRESENT: Value := Str("NOT_PRESENT")

  function StateAt(field: string): seq<string>
  {
    ["transceiver", "state", field]
  }

  /** The reply document holding a `<components>` element with these entries. */
  function Reply(components: map<string, Value>): Value
  {
    Obj(map["rpc-reply" := Obj(map["data" := Obj(map["components" := Obj(components)])])])
  }

  // -----------------------------------------------------------------------
  // Channels (get_json.rs:110-141)
  // -----------------------------------------------------------------------

  /** The channels under `physical-channels`: all of an array, a lone object
      as a list of one, nothing otherwise. */
  function ChannelEntries(physical: Value): (r: seq<Value>)
    ensures Get(physical, "channel").None? ==> r == []
    ensures (match Get(physical, "channel") case Some(Obj(_)) => true case _ => false) ==>
              r == [Get(physical, "channel").value]
    ensures (match Get(physical, "channel") case Some(Arr(_)) => true case _ => false) ==>
              Arr(r) == Get(physical, "channel").value
  {
    match Get(physical, "channel")
    case Some(Arr(items)) => items
    case Some(Obj(fields)) => [Obj(fields)]
    case _ => []
  }

  /** The record of one channel: the entries of its `state`, or none when it
      has no `state`. */
  function ChannelRecord(channel: Value): (r: Result<Value, Panic>)
    ensures r.Err? <==> Get(channel, "state").Some? && !Get(channel, "state").value.Obj?
    ensures r.Err? ==> r.error == StateNotObject
    ensures r.Ok? ==> r.value == if Get(channel, "state").Some? then Get(channel, "state").value else Obj(map[])
  {
    match Get(channel, "state")
    case None => Ok(Obj(map[]))
    case Some(Obj(fields)) => Ok(Obj(fields))
    case Some(_) => Err(StateNotObject)
  }

  /** The records of a list of channels, in order; any channel whose state is
      not an object panics. */
  function ChannelRecords(channels: seq<Value>): (r: Result<seq<Value>, Panic>)
    ensures r.Ok? <==> forall k :: 0 <= k < |channels| ==> ChannelRecord(channels[k]).Ok?
    ensures r.Ok? ==> |r.value| == |channels|
    ensures r.Ok? ==> forall k :: 0 <= k < |channels| ==> r.value[k] == ChannelRecord(channels[k]).value
    ensures r.Err? ==> r.error == StateNotObject
  {
    if channels == [] then Ok([])
    else
      match ChannelRecord(channels[0])
      case Err(e) => Err(e)
      case Ok(first) =>
        match ChannelRecords(channels[1..])
        case Err(e) => Err(e)
        case Ok(rest) => Ok([first] + rest)
  }

  /** Lines 119-121 and 130-132: the entries of a channel's state copied one
      by one into a fresh map. */
  method CopyEntries(state: map<string, Value>) returns (copy: map<string, Value>)
    ensures copy == state
  {
    copy := map[];
    var rest := state.Keys;
    while rest != {}
      invariant rest <= state.Keys
      invariant copy.Keys == state.Keys - rest
      invariant forall k :: k in copy ==> copy[k] == state[k]
      decreases |rest|
    {
      var k :| k in rest;
      copy := copy[k := state[k]];
      rest := rest - {k};
    }
  }

  /** Lines 117-123: the record of one channel. */
  method ChannelRecordOf(channel: Value) returns (r: Result<Value, Panic>)
    ensures r == ChannelRecord(channel)
  {
    var fields: map<string, Value> := map[];
    if channel.Obj? && "state" in channel.fields {
      var state := channel.fields["state"];
      if !state.Obj? {
        return Err(StateNotObject);
      }
      fields := CopyEntries(state.fields);
    }
    r := Ok(Obj(fields));
  }

  /** Lines 111-137: the channel list of a present transceiver. */
  method ChannelsList(physical: Value) returns (r: Result<seq<Value>, Panic>)
    ensures r == ChannelRecords(ChannelEntries(physical))
  {
    var list: seq<Value> := [];
    match Get(physical, "channel") {
      case Some(Arr(channels)) =>
        for k := 0 to |channels|
          invariant |list| == k
          invariant forall j :: 0 <= j < k ==> ChannelRecord(channels[j]) == Ok(list[j])
        {
          var rec := ChannelRecordOf(channels[k]);
          if rec.Err? {
            return Err(rec.error);
          }
          list := list + [rec.value];
        }
        assert ChannelRecords(channels).Ok?;
        assert ChannelRecords(channels).value == list;
      case Some(Obj(fields)) =>
        var rec := ChannelRecordOf(Obj(fields));
        if rec.Err? {
          return Err(rec.error);
        }
        list := list + [rec.value];
        assert ChannelRecords([Obj(fields)]).value == list;
      case _ =>
    }
    r := Ok(list);
  }

  // -----------------------------------------------------------------------
  // One component (get_json.rs:99-146)
  // -----------------------------------------------------------------------

  /** Lines 105-108: the inventory leaves `fields` of the transceiver state
      added to `rec`, each unwrapped in turn. */
  function CopyState(c: Value, fields: seq<string>, rec: Record): Result<Record, Panic>
    decreases |fields|
  {
    if fields == [] then Ok(rec)
    else
      match Pointer(c, StateAt(fields[0]))
      case None => Err(Missing(StateAt(fields[0])))
      case Some(v) => CopyState(c, fields[1..], rec[fields[0] := v])
  }

  /** The leaves are added exactly when all of them are found, each with its
      value and nothing else changed; otherwise the panic names a missing
      leaf. */
  lemma CopyStateFacts(c: Value, fields: seq<string>, rec: Record)
    ensures var r := CopyState(c, fields, rec);
      && (r.Ok? <==> forall k :: 0 <= k < |fields| ==> Pointer(c, StateAt(fields[k])).Some?)
      && (r.Ok? ==> forall key :: key in r.value <==> key in rec || key in fields)
      && (r.Ok? ==> forall k :: 0 <= k < |fields| ==> r.value[fields[k]] == Pointer(c, StateAt(fields[k])).value)
      && (r.Ok? ==> forall key :: key in rec && key !in fields ==> r.value[key] == rec[key])
      && (r.Err? ==> exists k :: 0 <= k < |fields| && r.error == Missing(StateAt(fields[k])) &&
                                 Pointer(c, StateAt(fields[k])).None?)
  {
    CopyStateOk(c, fields, rec);
    CopyStateErr(c, fields, rec);
  }

  lemma {:induction false} CopyStateOk(c: Value, fields: seq<string>, rec: Record)
    ensures var r := CopyState(c, fields, rec);
      && (r.Ok? <==> forall k :: 0 <= k < |fields| ==> Pointer(c, StateAt(fields[k])).Some?)
      && (r.Ok? ==> forall key :: key in r.value <==> key in rec || key in fields)
      && (r.Ok? ==> forall k :: 0 <= k < |fields| ==> r.value[fields[k]] == Pointer(c, StateAt(fields[k])).value)
      && (r.Ok? ==> forall key :: key in rec && key !in fields ==> r.value[key] == rec[key])
    decreases |fields|
  {
    if fields != [] {
      var rest := fields[1..];
      assert forall k :: 0 < k < |fields| ==> fields[k] == rest[k - 1];
      match Pointer(c, StateAt(fields[0]))
      case None =>
      case Some(v) =>
        CopyStateOk(c, rest, rec[fields[0] := v]);
    }
  }

  lemma {:induction false} CopyStateErr(c: Value, fields: seq<string>, rec: Record)
    ensures var r := CopyState(c, fields, rec);
      r.Err? ==> exists k :: 0 <= k < |fields| && r.error == Missing(StateAt(fields[k])) &&
                             Pointer(c, StateAt(fields[k])).None?
    decreases |fields|
  {
    if fields != [] {
      match Pointer(c, StateAt(fields[0]))
      case None =>
      case Some(v) =>
        var rest := fields[1..];
        var rec' := rec[fields[0] := v];
        CopyStateErr(c, rest, rec');
        var r := CopyState(c, rest, rec');
        if r.Err? {
          var k :| 0 <= k < |rest| && r.error == Missing(StateAt(rest[k])) && Pointer(c, StateAt(rest[k])).None?;
          assert fields[k + 1] == rest[k];
        }
    }
  }

  /** The first two entries of every record. */
  function Head(name: Value, state: Value): Record
  {
    map["name" := name, "present-state" := state]
  }

  /** Lines 110-141: the channel list added to a present component's record
      when `physical-channels` is there and lists at least one channel. */
  function WithChannels(rec: Record, physical: Option<Value>): Result<Record, Panic>
  {
    match physical
    case None => Ok(rec)
    case Some(p) =>
      match ChannelRecords(ChannelEntries(p))
      case Err(e) => Err(e)
      case Ok(list) => Ok(if list == [] then rec else rec["channel" := Arr(list)])
  }

  /** Adding the channels panics exactly when a channel's state does; it
      touches only the `channel` key, which it sets exactly when there is
      at least one channel, to one record per channel in order. */
  lemma WithChannelsFacts(rec: Record, physical: Option<Value>)
    requires "channel" !in rec
    ensures var r := WithChannels(rec, physical);
      && (r.Err? <==> physical.Some? && ChannelRecords(ChannelEntries(physical.value)).Err?)
      && (r.Err? ==> r.error == StateNotObject)
      && (r.Ok? ==> forall key :: key in r.value && key != "channel" <==> key in rec)
      && (r.Ok? ==> forall key :: key in rec ==> r.value[key] == rec[key])
      && (r.Ok? ==> ("channel" in r.value <==> physical.Some? && ChannelEntries(physical.value) != []))
      && (r.Ok? && "channel" in r.value ==>
            r.value["channel"] == Arr(ChannelRecords(ChannelEntries(physical.value)).value))
  {
  }

  /** Lines 103-141: the record of a component whose transceiver is present. */
  function PresentRecordOf(c: Value, name: Value): Result<Record, Panic>
  {
    match CopyState(c, STATE_FIELDS, Head(name, PRESENT))
    case Err(e) => Err(e)
    case Ok(rec) => WithChannels(rec, Pointer(c, CHANNELS_AT))
  }

  /** The record of one component, or the panic it causes. */
  function ComponentRecord(c: Value): Result<Record, Panic>
  {
    match Get(c, "name")
    case None => Err(Missing(["name"]))
    case Some(name) =>
      match Pointer(c, PRESENT_AT)
      case None => Err(Missing(PRESENT_AT))
      case Some(p) =>
        if p != PRESENT then Ok(Head(name, NOT_PRESENT)) else PresentRecordOf(c, name)
  }

  /** Lines 99-146: one component's record, built step by step. */
  method JsonComponent(c: Value) returns (r: Result<Record, Panic>)
    ensures r == ComponentRecord(c)
  {
    var rec: Record := map[];
    var name := Get(c, "name");
    if name.None? {
      return Err(Missing(["name"]));
    }
    rec := rec["name" := name.value];
    var present := Pointer(c, PRESENT_AT);
    if present.None? {
      return Err(Missing(PRESENT_AT));
    }
    if present.value != PRESENT {
      rec := rec["present-state" := NOT_PRESENT];
      return Ok(rec);
    }
    rec := rec["present-state" := PRESENT];
    var serial := Pointer(c, StateAt("serial-no"));
    if serial.None? {
      return Err(Missing(StateAt("serial-no")));
    }
    rec := rec["serial-no" := serial.value];
    var vendor := Pointer(c, StateAt("vendor"));
    if vendor.None? {
      return Err(Missing(StateAt("vendor")));
    }
    rec := rec["vendor" := vendor.value];
    var part := Pointer(c, StateAt("vendor-part"));
    if part.None? {
      return Err(Missing(StateAt("vendor-part")));
    }
    rec := rec["vendor-part" := part.value];
    var rev := Pointer(c, StateAt("vendor-rev"));
    if rev.None? {
      return Err(Missing(StateAt("vendor-rev")));
    }
    rec := rec["vendor-rev" := rev.value];
    var physical := Pointer(c, CHANNELS_AT);
    if physical.Some? {
      var channels := ChannelsList(physical.value);
      if channels.Err? {
        return Err(channels.error);
      }
      if channels.value != [] {
        rec := rec["channel" := Arr(channels.value)];
      }
    }
    r := Ok(rec);
  }

  // -----------------------------------------------------------------------
  // The component list (get_json.rs:89-148)
  // -----------------------------------------------------------------------

  /** Lines 92-94 as written: the components are taken only when the
      `component` entry is an array. */
  function ComponentListAsWritten(reply: Value): seq<Value>
  {
    match Pointer(reply, COMPONENTS)
    case Some(Arr(items)) => items
    case _ => []
  }

  /** The components of the reply, a lone component taken as a list of one,
      as the channels are at lines 113-136. */
  function ComponentList(reply: Value): seq<Value>
  {
    match Pointer(reply, COMPONENTS)
    case Some(Arr(items)) => items
    case Some(Obj(fields)) => [Obj(fields)]
    case _ => []
  }

  /** The records of a list of components, in order, or the panic of the
      first component that panics. */
  function ComponentRecords(cs: seq<Value>): Result<seq<Record>, Panic>
  {
    if cs == [] then Ok([])
    else
      match ComponentRecord(cs[0])
      case Err(e) => Err(e)
      case Ok(first) =>
        match ComponentRecords(cs[1..])
        case Err(e) => Err(e)
        case Ok(rest) => Ok([first] + rest)
  }

  /** One record per component, in order, exactly when no component panics;
      otherwise the panic of the first component that panics. */
  lemma {:induction false} ComponentRecordsFacts(cs: seq<Value>)
    ensures var r := ComponentRecords(cs);
      && (r.Ok? <==> forall k :: 0 <= k < |cs| ==> ComponentRecord(cs[k]).Ok?)
      && (r.Ok? ==> |r.value| == |cs| && forall k :: 0 <= k < |cs| ==> r.value[k] == ComponentRecord(cs[k]).value)
      && (r.Err? ==> exists k :: 0 <= k < |cs| && ComponentRecord(cs[k]) == Err(r.error) &&
                                 forall j :: 0 <= j < k ==> ComponentRecord(cs[j]).Ok?)
  {
    if cs != [] {
      var rest := cs[1..];
      ComponentRecordsFacts(rest);
      assert forall k :: 0 < k < |cs| ==> cs[k] == rest[k - 1];
      if ComponentRecord(cs[0]).Ok? && ComponentRecords(rest).Err? {
        var e := ComponentRecords(rest).error;
        var k :| 0 <= k < |rest| && ComponentRecord(rest[k]) == Err(e) &&
                 forall j :: 0 <= j < k ==> ComponentRecord(rest[j]).Ok?;
        assert ComponentRecord(cs[k + 1]) == Err(e);
      }
    }
  }

  /** The records already built, followed by the outcome for the rest. */
  function Then(list: seq<Record>, rest: Result<seq<Record>, Panic>): Result<seq<Record>, Panic>
  {
    match rest
    case Err(e) => Err(e)
    case Ok(more) => Ok(list + more)
  }

  /** The records the handler builds from the decoded reply. */
  function Extract(reply: Value): Result<seq<Record>, Panic>
  {
    ComponentRecords(ComponentList(reply))
  }

  /** Lines 89-148: the component list, built one component at a time. */
  method ComponentsList(reply: Value) returns (r: Result<seq<Record>, Panic>)
    ensures r == Extract(reply)
  {
    var components: seq<Value> := [];
    match Pointer(reply, COMPONENTS) {
      case Some(Arr(items)) => components := items;
      case Some(Obj(fields)) => components := [Obj(fields)];
      case _ =>
    }
    var list: seq<Record> := [];
    assert components[0..] == components;
    if ComponentRecords(components).Ok? {
      assert [] + ComponentRecords(components).value == ComponentRecords(components).value;
    }
    for k := 0 to |components|
      invariant ComponentRecords(components) == Then(list, ComponentRecords(components[k..]))
    {
      assert components[k..][1..] == components[k + 1..];
      var rec := JsonComponent(components[k]);
      if rec.Err? {
        return Err(rec.error);
      }
      ThenStep(list, rec.value, ComponentRecords(components[k + 1..]));
      list := list + [rec.value];
    }
    assert components[|components|..] == [];
    assert list + [] == list;
    r := Ok(list);
  }

  lemma ThenStep(list: seq<Record>, rec: Record, rest: Result<seq<Record>, Panic>)
    ensures Then(list, match rest case Err(e) => Err(e) case Ok(more) => Ok([rec] + more)) ==
            Then(list + [rec], rest)
  {
    if rest.Ok? {
      assert list + ([rec] + rest.value) == list + [rec] + rest.value;
    }
  }

  // -----------------------------------------------------------------------
  // What a record holds
  // -----------------------------------------------------------------------

  /** Every panic comes from one of the unwraps at lines 101, 103, 105-108
      and 119/130, and they are met in that order: a missing name first,
      then a missing presence leaf, then the first missing inventory leaf. */
  lemma ComponentRecordPanics(c: Value)
    ensures Get(c, "name").None? ==> ComponentRecord(c) == Err(Missing(["name"]))
    ensures Get(c, "name").Some? && Pointer(c, PRESENT_AT).None? ==>
              ComponentRecord(c) == Err(Missing(PRESENT_AT))
    ensures Get(c, "name").Some? && Pointer(c, PRESENT_AT) == Some(PRESENT) ==>
              forall k :: 0 <= k < |STATE_FIELDS| && Pointer(c, StateAt(STATE_FIELDS[k])).None? &&
                          (forall j :: 0 <= j < k ==> Pointer(c, StateAt(STATE_FIELDS[j])).Some?) ==>
                          ComponentRecord(c) == Err(Missing(StateAt(STATE_FIELDS[k])))
    ensures ComponentRecord(c).Err? ==>
              || ComponentRecord(c).error == Missing(["name"])
              || ComponentRecord(c).error == Missing(PRESENT_AT)
              || (exists k :: 0 <= k < |STATE_FIELDS| && ComponentRecord(c).error == Missing(StateAt(STATE_FIELDS[k])))
              || ComponentRecord(c).error == StateNotObject
  {
    if Get(c, "name").Some? && Pointer(c, PRESENT_AT) == Some(PRESENT) {
      var name := Get(c, "name").value;
      FirstMissingLeafPanics(c, name);
      PresentPanics(c, name);
    }
  }

  lemma FirstMissingLeafPanics(c: Value, name: Value)
    ensures forall k :: 0 <= k < |STATE_FIELDS| && Pointer(c, StateAt(STATE_FIELDS[k])).None? &&
                        (forall j :: 0 <= j < k ==> Pointer(c, StateAt(STATE_FIELDS[j])).Some?) ==>
                        PresentRecordOf(c, name) == Err(Missing(StateAt(STATE_FIELDS[k])))
  {
    forall k | 0 <= k < |STATE_FIELDS| && Pointer(c, StateAt(STATE_FIELDS[k])).None? &&
               (forall j :: 0 <= j < k ==> Pointer(c, StateAt(STATE_FIELDS[j])).Some?)
      ensures PresentRecordOf(c, name) == Err(Missing(StateAt(STATE_FIELDS[k])))
    {
      CopyStateFirstMissing(c, STATE_FIELDS, Head(name, PRESENT), k);
    }
  }

  lemma PresentPanics(c: Value, name: Value)
    ensures PresentRecordOf(c, name).Err? ==>
              || (exists k :: 0 <= k < |STATE_FIELDS| && PresentRecordOf(c, name).error == Missing(StateAt(STATE_FIELDS[k])))
              || PresentRecordOf(c, name).error == StateNotObject
  {
    var head := Head(name, PRESENT);
    CopyStateErr(c, STATE_FIELDS, head);
    var copied := CopyState(c, STATE_FIELDS, head);
    if copied.Ok? {
      StateFieldsApart();
      CopiedHead(c, STATE_FIELDS, name);
      WithChannelsFacts(copied.value, Pointer(c, CHANNELS_AT));
    }
  }

  /** `CopyState` fails at the first missing leaf. */
  lemma {:induction false} CopyStateFirstMissing(c: Value, fields: seq<string>, rec: Record, k: nat)
    requires k < |fields| && Pointer(c, StateAt(fields[k])).None?
    requires forall j :: 0 <= j < k ==> Pointer(c, StateAt(fields[j])).Some?
    ensures CopyState(c, fields, rec) == Err(Missing(StateAt(fields[k])))
    decreases k
  {
    if k > 0 {
      assert Pointer(c, StateAt(fields[0])).Some?;
      var v := Pointer(c, StateAt(fields[0])).value;
      CopyStateFirstMissing(c, fields[1..], rec[fields[0] := v], k - 1);
    }
  }

  /** A component whose transceiver is not present gives a record of its name
      and "NOT_PRESENT" and nothing else. */
  lemma NotPresentRecord(c: Value)
    requires Get(c, "name").Some? && Pointer(c, PRESENT_AT).Some? && Pointer(c, PRESENT_AT) != Some(PRESENT)
    ensures ComponentRecord(c).Ok?
    ensures ComponentRecord(c).value.Keys == {"name", "present-state"}
    ensures ComponentRecord(c).value["name"] == c.fields["name"]
    ensures ComponentRecord(c).value["present-state"] == NOT_PRESENT
  {
  }

  /** The record built for a present transceiver: the name, "PRESENT", the
      four inventory leaves and nothing else, besides the channel list when
      there is at least one channel. */
  lemma PresentRecordOfFacts(c: Value, name: Value)
    requires PresentRecordOf(c, name).Ok?
    ensures var rec := PresentRecordOf(c, name).value;
      && "name" in rec && rec["name"] == name
      && "present-state" in rec && rec["present-state"] == PRESENT
      && (forall k :: 0 <= k < |STATE_FIELDS| ==>
            STATE_FIELDS[k] in rec && Pointer(c, StateAt(STATE_FIELDS[k])) == Some(rec[STATE_FIELDS[k]]))
      && (forall key :: key in rec && key != "channel" <==> key in {"name", "present-state"} || key in STATE_FIELDS)
      && ("channel" in rec <==> Pointer(c, CHANNELS_AT).Some? && ChannelEntries(Pointer(c, CHANNELS_AT).value) != [])
      && ("channel" in rec ==> rec["channel"] == Arr(ChannelRecords(ChannelEntries(Pointer(c, CHANNELS_AT).value)).value))
  {
    StateFieldsApart();
    CopiedHead(c, STATE_FIELDS, name);
    WithChannelsFacts(CopyState(c, STATE_FIELDS, Head(name, PRESENT)).value, Pointer(c, CHANNELS_AT));
  }

  lemma StateFieldsApart()
    ensures "channel" !in STATE_FIELDS && "name" !in STATE_FIELDS && "present-state" !in STATE_FIELDS
  {
  }

  /** The inventory copy keeps the head entries and adds exactly the leaves. */
  lemma CopiedHead(c: Value, fields: seq<string>, name: Value)
    requires "channel" !in fields && "name" !in fields && "present-state" !in fields
    requires CopyState(c, fields, Head(name, PRESENT)).Ok?
    ensures var copied := CopyState(c, fields, Head(name, PRESENT)).value;
      && "channel" !in copied
      && "name" in copied && copied["name"] == name
      && "present-state" in copied && copied["present-state"] == PRESENT
      && (forall k :: 0 <= k < |fields| ==>
            fields[k] in copied && Pointer(c, StateAt(fields[k])) == Some(copied[fields[k]]))
      && (forall key :: key in copied <==> key in {"name", "present-state"} || key in fields)
  {
    CopyStateFacts(c, fields, Head(name, PRESENT));
  }

  /** A component whose transceiver is present gives a record of its name,
      "PRESENT" and the four inventory leaves as found under
      `transceiver/state`. */
  lemma PresentRecord(c: Value)
    requires Pointer(c, PRESENT_AT) == Some(PRESENT) && ComponentRecord(c).Ok?
    ensures var rec := ComponentRecord(c).value;
      && "name" in rec && Get(c, "name") == Some(rec["name"])
      && "present-state" in rec && rec["present-state"] == PRESENT
      && forall k :: 0 <= k < |STATE_FIELDS| ==>
           STATE_FIELDS[k] in rec && Pointer(c, StateAt(STATE_FIELDS[k])) == Some(rec[STATE_FIELDS[k]])
  {
    PresentRecordOfFacts(c, Get(c, "name").value);
  }

  /** The keys of a present component's record: its name, its presence, the
      four inventory leaves, and possibly `channel`. */
  lemma PresentRecordKeys(c: Value)
    requires Pointer(c, PRESENT_AT) == Some(PRESENT) && ComponentRecord(c).Ok?
    ensures forall key :: key in ComponentRecord(c).value && key != "channel" <==>
                          key in {"name", "present-state"} || key in STATE_FIELDS
  {
    PresentRecordOfFacts(c, Get(c, "name").value);
  }

  /** The `channel` key is there exactly when the transceiver is present and
      has at least one channel, and then holds one record per channel, in
      order, each the channel's state. */
  lemma ChannelKey(c: Value)
    requires ComponentRecord(c).Ok?
    ensures var rec := ComponentRecord(c).value;
      && ("channel" in rec <==>
            Pointer(c, PRESENT_AT) == Some(PRESENT) && Pointer(c, CHANNELS_AT).Some? &&
            ChannelEntries(Pointer(c, CHANNELS_AT).value) != [])
      && ("channel" in rec ==>
            var channels := ChannelEntries(Pointer(c, CHANNELS_AT).value);
            && rec["channel"].Arr?
            && |rec["channel"].items| == |channels|
            && forall k :: 0 <= k < |channels| ==> rec["channel"].items[k] == ChannelRecord(channels[k]).value)
  {
    if Pointer(c, PRESENT_AT) == Some(PRESENT) {
      PresentRecordOfFacts(c, Get(c, "name").value);
    }
  }

  // -----------------------------------------------------------------------
  // The decoder's sibling promotion and the list normalisation
  // -----------------------------------------------------------------------

  /** Channels decoded from one or more sibling `<channel>` elements are
      recovered exactly, in document order, whether the decoder stored them
      as a lone object or promoted them to an array. */
  lemma ChannelsUndoPromotion(node: map<string, Value>, children: seq<Value>)
    requires "channel" !in node && children != []
    requires forall k :: 0 <= k < |children| ==> children[k].Obj?
    ensures ChannelEntries(Obj(XmlDecodeLemmas.InsertAll(node, "channel", children))) == children
  {
    if |children| == 1 {
      XmlDecodeLemmas.RepeatedSiblings(node, "channel", children);
    } else {
      XmlDecodeLemmas.RepeatedSiblingsInOrder(node, "channel", children);
    }
  }

  /** Components decoded from sibling `<component>` elements are recovered
      in document order, a lone one included. */
  lemma ComponentsUndoPromotion(node: map<string, Value>, children: seq<Value>)
    requires "component" !in node && children != []
    requires forall k :: 0 <= k < |children| ==> children[k].Obj?
    ensures ComponentList(Reply(XmlDecodeLemmas.InsertAll(node, "component", children))) == children
  {
    var components := XmlDecodeLemmas.InsertAll(node, "component", children);
    ReplyPointer(components);
    if |children| == 1 {
      XmlDecodeLemmas.RepeatedSiblings(node, "component", children);
    } else {
      XmlDecodeLemmas.RepeatedSiblingsInOrder(node, "component", children);
    }
  }

  lemma ReplyPointer(components: map<string, Value>)
    ensures Pointer(Reply(components), COMPONENTS) ==
              if "component" in components then Some(components["component"]) else None
  {
    var r := Reply(components);
    var data := Obj(map["components" := Obj(components)]);
    assert Pointer(r, COMPONENTS) == Pointer(Obj(map["data" := data]), COMPONENTS[1..]);
    assert Pointer(Obj(map["data" := data]), COMPONENTS[1..]) == Pointer(data, COMPONENTS[2..]);
    assert Pointer(data, COMPONENTS[2..]) == Pointer(Obj(components), COMPONENTS[3..]);
  }

  /** Lines 92-94 as written lose a lone component: the decoder stores a
      single `<component>` as an object, which is not an array, so the
      handler sees no components at all, while two or more are all kept. */
  lemma LoneComponentDropped(node: map<string, Value>, children: seq<Value>)
    requires "component" !in node && children != []
    requires forall k :: 0 <= k < |children| ==> children[k].Obj?
    ensures ComponentListAsWritten(Reply(XmlDecodeLemmas.InsertAll(node, "component", children))) ==
              if |children| == 1 then [] else children
  {
    var components := XmlDecodeLemmas.InsertAll(node, "component", children);
    ReplyPointer(components);
    if |children| == 1 {
      XmlDecodeLemmas.RepeatedSiblings(node, "component", children);
    } else {
      XmlDecodeLemmas.RepeatedSiblingsInOrder(node, "component", children);
    }
  }

  /** The corrected list agrees with the one as written except where the
      component entry is a lone object. */
  lemma ComponentListAgrees(reply: Value)
    ensures ComponentListAsWritten(reply) != ComponentList(reply) <==>
              Pointer(reply, COMPONENTS).Some? && Pointer(reply, COMPONENTS).value.Obj?
  {
  }

  /** A reply listing exactly one component, as the device sends it. */
  const LONE_COMPONENT_REPLY: seq<XmlDecode.Event> := [
    XmlDecode.Start("rpc-reply", []), XmlDecode.Start("data", []), XmlDecode.Start("components", []),
    XmlDecode.Start("component", []),
    XmlDecode.Start("name", []), XmlDecode.Text("xcvr-1"), XmlDecode.End,
    XmlDecode.Start("transceiver", []), XmlDecode.Start("state", []),
    XmlDecode.Start("present", []), XmlDecode.Text("NOT_PRESENT"), XmlDecode.End,
    XmlDecode.End, XmlDecode.End,
    XmlDecode.End,
    XmlDecode.End, XmlDecode.End, XmlDecode.End]

  const LONE_TRANSCEIVER: Value := Obj(map["state" := Obj(map["present" := NOT_PRESENT])])
  const LONE_COMPONENT: Value := Obj(map["name" := Str("xcvr-1"), "transceiver" := LONE_TRANSCEIVER])

  lemma LoneComponentReplyShape()
    ensures LoneShape(LONE_COMPONENT_REPLY)
  {
    LoneOpens();
    LoneName();
    LoneCloses();
  }

  lemma LoneOpens()
    ensures |LONE_COMPONENT_REPLY| == 18
    ensures var evs := LONE_COMPONENT_REPLY;
    && evs[0] == XmlDecode.Start("rpc-reply", []) && evs[1] == XmlDecode.Start("data", [])
    && evs[2] == XmlDecode.Start("components", []) && evs[3] == XmlDecode.Start("component", [])
  {
  }

  lemma LoneName()
    ensures |LONE_COMPONENT_REPLY| == 18
    ensures var evs := LONE_COMPONENT_REPLY;
    evs[4] == XmlDecode.Start("name", []) && evs[5] == XmlDecode.Text("xcvr-1") && evs[6] == XmlDecode.End
  {
  }

  lemma LoneCloses()
    ensures |LONE_COMPONENT_REPLY| == 18
    ensures var evs := LONE_COMPONENT_REPLY;
    && evs[7] == XmlDecode.Start("transceiver", []) && evs[8] == XmlDecode.Start("state", [])
    && evs[9] == XmlDecode.Start("present", []) && evs[10] == XmlDecode.Text("NOT_PRESENT")
    && forall k :: 11 <= k < 18 ==> evs[k] == XmlDecode.End
  {
  }

  /** The events of the one-component reply, position by position. */
  predicate LoneShape(evs: seq<XmlDecode.Event>)
  {
    && |evs| == 18
    && evs[0] == XmlDecode.Start("rpc-reply", []) && evs[1] == XmlDecode.Start("data", [])
    && evs[2] == XmlDecode.Start("components", []) && evs[3] == XmlDecode.Start("component", [])
    && evs[4] == XmlDecode.Start("name", []) && evs[5] == XmlDecode.Text("xcvr-1") && evs[6] == XmlDecode.End
    && evs[7] == XmlDecode.Start("transceiver", []) && evs[8] == XmlDecode.Start("state", [])
    && evs[9] == XmlDecode.Start("present", []) && evs[10] == XmlDecode.Text("NOT_PRESENT")
    && forall k :: 11 <= k < 18 ==> evs[k] == XmlDecode.End
  }

  lemma DecodeLoneTransceiver(evs: seq<XmlDecode.Event>)
    requires LoneShape(evs)
    ensures XmlDecode.ReadFrom(evs, 8, XmlDecode.EmptyLevel) == XmlDecode.Decoded(LONE_TRANSCEIVER, 14)
  {
    var E := XmlDecode.EmptyLevel;
    assert evs[11] == XmlDecode.End && evs[12] == XmlDecode.End && evs[13] == XmlDecode.End;
    assert XmlDecode.ReadFrom(evs, 11, XmlDecode.Level(map[], ["NOT_PRESENT"])) == XmlDecode.Decoded(NOT_PRESENT, 12);
    assert XmlDecode.ReadFrom(evs, 10, E) == XmlDecode.Decoded(NOT_PRESENT, 12);
    var state := map["present" := NOT_PRESENT];
    assert XmlDecode.Insert(map[], "present", [], NOT_PRESENT) == state;
    assert XmlDecode.ReadFrom(evs, 12, XmlDecode.Level(state, [])) == XmlDecode.Decoded(Obj(state), 13);
    assert XmlDecode.ReadFrom(evs, 9, E) == XmlDecode.Decoded(Obj(state), 13);
    var transceiver := map["state" := Obj(state)];
    assert XmlDecode.Insert(map[], "state", [], Obj(state)) == transceiver;
    assert XmlDecode.ReadFrom(evs, 13, XmlDecode.Level(transceiver, [])) == XmlDecode.Decoded(Obj(transceiver), 14);
  }

  lemma DecodeLoneComponentBody(evs: seq<XmlDecode.Event>)
    requires LoneShape(evs)
    ensures XmlDecode.ReadFrom(evs, 4, XmlDecode.EmptyLevel) == XmlDecode.Decoded(LONE_COMPONENT, 15)
  {
    var E := XmlDecode.EmptyLevel;
    DecodeLoneTransceiver(evs);
    assert evs[6] == XmlDecode.End && evs[14] == XmlDecode.End;
    assert XmlDecode.ReadFrom(evs, 6, XmlDecode.Level(map[], ["xcvr-1"])) == XmlDecode.Decoded(Str("xcvr-1"), 7);
    assert XmlDecode.ReadFrom(evs, 5, E) == XmlDecode.Decoded(Str("xcvr-1"), 7);
    var named := map["name" := Str("xcvr-1")];
    assert XmlDecode.Insert(map[], "name", [], Str("xcvr-1")) == named;
    var full := named["transceiver" := LONE_TRANSCEIVER];
    assert XmlDecode.Insert(named, "transceiver", [], LONE_TRANSCEIVER) == full;
    assert Obj(full) == LONE_COMPONENT;
    assert XmlDecode.ReadFrom(evs, 14, XmlDecode.Level(full, [])) == XmlDecode.Decoded(LONE_COMPONENT, 15);
    assert XmlDecode.ReadFrom(evs, 7, XmlDecode.Level(named, [])) == XmlDecode.Decoded(LONE_COMPONENT, 15);
  }

  lemma DecodeLoneComponentEntry(evs: seq<XmlDecode.Event>)
    requires LoneShape(evs)
    ensures XmlDecode.ReadFrom(evs, 3, XmlDecode.EmptyLevel) ==
              XmlDecode.Decoded(Obj(map["component" := LONE_COMPONENT]), 16)
  {
    DecodeLoneComponentBody(evs);
    assert evs[15] == XmlDecode.End;
    var entry := map["component" := LONE_COMPONENT];
    assert XmlDecode.Insert(map[], "component", [], LONE_COMPONENT) == entry;
    assert XmlDecode.ReadFrom(evs, 15, XmlDecode.Level(entry, [])) == XmlDecode.Decoded(Obj(entry), 16);
  }

  /** The one-component reply decodes to a lone `component` object. */
  lemma DecodeLoneComponent(evs: seq<XmlDecode.Event>)
    requires LoneShape(evs)
    ensures XmlDecode.Decode(evs) == Reply(map["component" := LONE_COMPONENT])
  {
    var E := XmlDecode.EmptyLevel;
    DecodeLoneComponentEntry(evs);
    assert evs[16] == XmlDecode.End && evs[17] == XmlDecode.End;
    var components := map["component" := LONE_COMPONENT];
    var data := map["components" := Obj(components)];
    assert XmlDecode.Insert(map[], "components", [], Obj(components)) == data;
    assert XmlDecode.ReadFrom(evs, 16, XmlDecode.Level(data, [])) == XmlDecode.Decoded(Obj(data), 17);
    assert XmlDecode.ReadFrom(evs, 2, E) == XmlDecode.Decoded(Obj(data), 17);
    var reply := map["data" := Obj(data)];
    assert XmlDecode.Insert(map[], "data", [], Obj(data)) == reply;
    assert XmlDecode.ReadFrom(evs, 17, XmlDecode.Level(reply, [])) == XmlDecode.Decoded(Obj(reply), 18);
    assert XmlDecode.ReadFrom(evs, 1, E) == XmlDecode.Decoded(Obj(reply), 18);
    var top := map["rpc-reply" := Obj(reply)];
    assert XmlDecode.Insert(map[], "rpc-reply", [], Obj(reply)) == top;
    assert XmlDecode.ReadFrom(evs, 18, XmlDecode.Level(top, [])) == XmlDecode.Decoded(Obj(top), 18);
  }

  /** The handler as written reports no component for the one-component
      reply, while the corrected list yields its record. */
  lemma LoneComponentReply(evs: seq<XmlDecode.Event>)
    requires LoneShape(evs)
    ensures ComponentRecords(ComponentListAsWritten(XmlDecode.Decode(evs))) == Ok([])
    ensures Extract(XmlDecode.Decode(evs)) == Ok([Head(Str("xcvr-1"), NOT_PRESENT)])
  {
    DecodeLoneComponent(evs);
    LoneLists();
    LoneRecord();
    OneRecord(LONE_COMPONENT, Head(Str("xcvr-1"), NOT_PRESENT));
  }

  lemma OneRecord(c: Value, rec: Record)
    requires ComponentRecord(c) == Ok(rec)
    ensures ComponentRecords([c]) == Ok([rec])
  {
    assert ComponentRecords([c][1..]) == Ok([]);
    assert [rec] + [] == [rec];
  }

  lemma LoneLists()
    ensures ComponentList(Reply(map["component" := LONE_COMPONENT])) == [LONE_COMPONENT]
    ensures ComponentListAsWritten(Reply(map["component" := LONE_COMPONENT])) == []
  {
    ReplyPointer(map["component" := LONE_COMPONENT]);
  }

  lemma LoneRecord()
    ensures ComponentRecord(LONE_COMPONENT) == Ok(Head(Str("xcvr-1"), NOT_PRESENT))
  {
    assert Get(LONE_COMPONENT, "name") == Some(Str("xcvr-1"));
    assert Pointer(LONE_COMPONENT, PRESENT_AT) == Some(NOT_PRESENT);
  }
}
