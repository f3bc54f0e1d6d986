/** The schema-free tree value that the XML decoder produces and the component
    extraction reads, with JSON pointer lookup (section 4 of RFC 6901) as
    serde_json implements it. */
module Json {

  import Decimal
  import opened Wrappers

  /** serde_json's `Value` restricted to the variants the decoder can build:
      there are no numbers and no booleans, every leaf is a string or null.
      An object is serde_json's default `Map`, ordered by key, so a Dafny map
      holds exactly the same information. */
  datatype Value =
    | Null
    | Str(s: string)
    | Arr(items: seq<Value>)
    | Obj(fields: map<string, Value>)

  /** `Value::get` with a string index: a field of an object, nothing otherwise. */
  function Get(v: Value, key: string): (r: Option<Value>)
    ensures r.Some? <==> v.Obj? && key in v.fields
    ensures r.Some? ==> r.value == v.fields[key]
  {
    if v.Obj? && key in v.fields then Some(v.fields[key]) else None
  }

  /** serde_json's `parse_index`: an array index in a pointer is a non-empty
      run of decimal digits without a sign and without a leading zero. */
  function ParseIndex(token: string): (r: Option<nat>)
    ensures r.Some? <==> Decimal.Canonical(token)
    ensures r.Some? ==> Decimal.Render(r.value) == token
  {
    if token == [] || (token[0] == '0' && |token| != 1) then None
    else if Decimal.AllDigits(token) then
      Decimal.RenderOfValue(token);
      Some(Decimal.Value(token))
    else None
  }

  /** `Value::pointer` for a pointer already split into reference tokens:
      each token selects an object member by name or an array element by
      index; any other step fails. */
  function Pointer(v: Value, tokens: seq<string>): (r: Option<Value>)
    decreases |tokens|
  {
    if tokens == [] then Some(v)
    else
      match v
      case Obj(fields) =>
        if tokens[0] in fields then Pointer(fields[tokens[0]], tokens[1..]) else None
      case Arr(items) =>
        var k := ParseIndex(tokens[0]);
        if k.Some? && k.value < |items| then Pointer(items[k.value], tokens[1..]) else None
      case _ => None
  }

  /** Following a pointer one token at a time is following the whole pointer. */
  lemma {:induction false} PointerConcat(v: Value, p: seq<string>, q: seq<string>)
    ensures Pointer(v, p + q) ==
              match Pointer(v, p)
              case Some(w) => Pointer(w, q)
              case None => None
    decreases |p|
  {
    if p == [] {
      assert p + q == q;
    } else {
      assert (p + q)[0] == p[0];
      assert (p + q)[1..] == p[1..] + q;
      match v
      case Obj(fields) =>
        if p[0] in fields { PointerConcat(fields[p[0]], p[1..], q); }
      case Arr(items) =>
        var k := ParseIndex(p[0]);
        if k.Some? && k.value < |items| { PointerConcat(items[k.value], p[1..], q); }
      case _ =>
    }
  }

  /** A token that is not a canonical decimal index never selects an array
      element: the member names used by the component extraction
      ("transceiver", "state", ...) fail on an array. */
  lemma NameTokenFailsOnArray(items: seq<Value>, token: string, rest: seq<string>)
    requires token != [] && !Decimal.IsDigit(token[0])
    ensures Pointer(Arr(items), [token] + rest) == None
  {
    assert ([token] + rest)[0] == token;
  }

  /** A member lookup with `get` is a one-step pointer: for a name that does
      not start with a digit, `.get(name)` and `.pointer("/name")` agree on
      every value, arrays included. */
  lemma GetIsPointer(v: Value, key: string)
    requires key != [] && !Decimal.IsDigit(key[0])
    ensures Pointer(v, [key]) == Get(v, key)
  {
    assert [key][1..] == [];
    if v.Arr? {
      NameTokenFailsOnArray(v.items, key, []);
      assert [key] + [] == [key];
    }
  }
}
