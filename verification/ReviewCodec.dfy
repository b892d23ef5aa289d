/**
 The typed node form of a review record (review-record-codec.ts, encodeNode and decodeNode).

 `Value` is what the host stores, `Json` what JSON.parse can return. Object property order is
 not observable in either, so objects are maps.
 */
module ReviewCodec {
  import opened Common
  import opened Text
  import Base64

  datatype Number = Finite(r: real) | NegativeZero | NonFinite

  datatype Value =
    | Null
    | Boolean(b: bool)
    | Numeric(n: Number)
    | Str(s: string)
    | Bytes(bytes: seq<byte>)
    | List(items: seq<Value>)
    | Record(fields: map<string, Value>)
    | Foreign // undefined, a function, a symbol, a bigint, or an object with another prototype

  datatype Json =
    | JNull
    | JBoolean(b: bool)
    | JNumeric(n: Number)
    | JStr(s: string)
    | JArray(items: seq<Json>)
    | JObject(fields: map<string, Json>)

  datatype Error =
    | NotFinite
    | Unsupported
    | InvalidNode
    | InvalidEntry
    | UnsortedKeys

  /** The `type` strings. */
  datatype Kind = KNull | KBoolean | KNumber | KString | KBytes | KArray | KObject | KUnknown

  function KindOf(s: string): Kind {
    if s == "null" then KNull
    else if s == "boolean" then KBoolean
    else if s == "number" then KNumber
    else if s == "string" then KString
    else if s == "bytes" then KBytes
    else if s == "array" then KArray
    else if s == "object" then KObject
    else KUnknown
  }

  function KindName(k: Kind): (s: string)
    requires !k.KUnknown?
  {
    match k
    case KNull => "null"
    case KBoolean => "boolean"
    case KNumber => "number"
    case KString => "string"
    case KBytes => "bytes"
    case KArray => "array"
    case KObject => "object"
  }

  lemma KindRoundTrip(k: Kind, s: string)
    requires !k.KUnknown?
    ensures KindOf(s) == k <==> s == KindName(k)
  {
    assert |"null"| == 4 && |"boolean"| == 7 && |"number"| == 6 && |"string"| == 6;
    assert |"bytes"| == 5 && |"array"| == 5 && |"object"| == 6;
    assert "number"[0] == 'n' && "string"[0] == 's' && "object"[0] == 'o' && "bytes"[0] == 'b' && "array"[0] == 'a';
  }

  // ---------- encoding ----------

  function Node(kind: Kind, value: Json): Json
    requires !kind.KUnknown?
  {
    JObject(map["type" := JStr(KindName(kind)), "value" := value])
  }

  ghost function Encode(v: Value): Result<Json, Error>
    decreases v, 0
  {
    match v
    case Null => Ok(JObject(map["type" := JStr(KindName(KNull))]))
    case Boolean(b) => Ok(Node(KBoolean, JBoolean(b)))
    case Numeric(n) => if n.NonFinite? then Err(NotFinite) else Ok(Node(KNumber, JNumeric(n)))
    case Str(s) => Ok(Node(KString, JStr(s)))
    case Bytes(bytes) => Ok(Node(KBytes, JStr(Base64.Encode(bytes))))
    case List(items) =>
      (match EncodeItems(items)
       case Err(e) => Err(e)
       case Ok(nodes) => Ok(Node(KArray, JArray(nodes))))
    case Record(fields) =>
      (match EncodeFields(v, SortedKeys(fields.Keys))
       case Err(e) => Err(e)
       case Ok(entries) => Ok(Node(KObject, JArray(entries))))
    case Foreign => Err(Unsupported)
  }

  ghost function EncodeItems(items: seq<Value>): (r: Result<seq<Json>, Error>)
    ensures r.Ok? ==> |r.value| == |items|
    decreases items, 0
  {
    if items == [] then Ok([])
    else match Encode(items[0])
      case Err(e) => Err(e)
      case Ok(node) =>
        match EncodeItems(items[1..])
        case Err(e) => Err(e)
        case Ok(rest) => Ok([node] + rest)
  }

  ghost function EncodeFields(v: Value, keys: seq<string>): (r: Result<seq<Json>, Error>)
    requires v.Record? && forall k :: k in keys ==> k in v.fields
    ensures r.Ok? ==> |r.value| == |keys|
    decreases v, 0, |keys|
  {
    if keys == [] then Ok([])
    else match Encode(v.fields[keys[0]])
      case Err(e) => Err(e)
      case Ok(node) =>
        match EncodeFields(v, keys[1..])
        case Err(e) => Err(e)
        case Ok(rest) => Ok([JArray([JStr(keys[0]), node])] + rest)
  }

  // ---------- decoding ----------

  /** A node carries its type and, except for null, one value. */
  predicate HasValue(fields: map<string, Json>) {
    fields.Keys == {"type", "value"}
  }

  function Decode(node: Json): Result<Value, Error>
    decreases node, 0
  {
    if !node.JObject? || "type" !in node.fields || !node.fields["type"].JStr? then Err(InvalidNode)
    else
      var kind := KindOf(node.fields["type"].s);
      if kind.KNull? then
        if node.fields.Keys == {"type"} then Ok(Null) else Err(InvalidNode)
      else if !HasValue(node.fields) then Err(InvalidNode)
      else
        var value := node.fields["value"];
        match kind
        case KBoolean => if value.JBoolean? then Ok(Boolean(value.b)) else Err(InvalidNode)
        case KNumber => if value.JNumeric? && !value.n.NonFinite? then Ok(Numeric(value.n)) else Err(InvalidNode)
        case KString => if value.JStr? then Ok(Str(value.s)) else Err(InvalidNode)
        case KBytes =>
          if value.JStr? && Base64.Encode(Base64.Read(value.s)) == value.s then Ok(Bytes(Base64.Read(value.s)))
          else Err(InvalidNode)
        case KArray =>
          if !value.JArray? then Err(InvalidNode)
          else (match DecodeItems(value.items)
            case Err(e) => Err(e)
            case Ok(items) => Ok(List(items)))
        case KObject =>
          if !value.JArray? then Err(InvalidNode)
          else (match DecodeEntries(value.items, None)
            case Err(e) => Err(e)
            case Ok(fields) => Ok(Record(fields)))
        case _ => Err(InvalidNode)
  }

  function DecodeItems(nodes: seq<Json>): (r: Result<seq<Value>, Error>)
    ensures r.Ok? ==> |r.value| == |nodes|
    decreases nodes, 0
  {
    if nodes == [] then Ok([])
    else match Decode(nodes[0])
      case Err(e) => Err(e)
      case Ok(v) =>
        match DecodeItems(nodes[1..])
        case Err(e) => Err(e)
        case Ok(rest) => Ok([v] + rest)
  }

  predicate IsEntry(entry: Json) {
    entry.JArray? && |entry.items| == 2 && entry.items[0].JStr?
  }

  function DecodeEntries(entries: seq<Json>, previous: Option<string>): Result<map<string, Value>, Error>
    decreases entries, 0
  {
    if entries == [] then Ok(map[])
    else if !IsEntry(entries[0]) then Err(InvalidEntry)
    else
      var key := entries[0].items[0].s;
      if previous.Some? && AtMost(key, previous.value) then Err(UnsortedKeys)
      else match Decode(entries[0].items[1])
        case Err(e) => Err(e)
        case Ok(v) =>
          match DecodeEntries(entries[1..], Some(key))
          case Err(e) => Err(e)
          case Ok(rest) => Ok(rest[key := v])
  }

  // ---------- decoding an encoded value ----------

  function Restrict(fields: map<string, Value>, keys: seq<string>): map<string, Value> {
    map k | k in keys && k in fields :: fields[k]
  }

  /** What a node made by `Node` looks like to decodeNode. */
  lemma NodeShape(kind: Kind, value: Json)
    requires !kind.KUnknown?
    ensures Node(kind, value).JObject?
    ensures var fields := Node(kind, value).fields;
            HasValue(fields) && fields["value"] == value && fields["type"].JStr? && KindOf(fields["type"].s) == kind
  {
    KindRoundTrip(kind, KindName(kind));
    assert |"type"| != |"value"|;
  }

  lemma {:induction false} DecodeEncode(v: Value)
    requires Encode(v).Ok?
    ensures Decode(Encode(v).value) == Ok(v)
    decreases v, 0
  {
    hide KindOf, KindName, Node, DecodeItems, DecodeEntries, EncodeItems, EncodeFields;
    hide SortedKeys, Base64.Encode, Base64.Read;
    match v
    case Null => KindRoundTrip(KNull, KindName(KNull));
    case Boolean(b) => NodeShape(KBoolean, JBoolean(b));
    case Numeric(n) => NodeShape(KNumber, JNumeric(n));
    case Str(s) => NodeShape(KString, JStr(s));
    case Bytes(bytes) =>
      NodeShape(KBytes, JStr(Base64.Encode(bytes)));
      Base64.ReadEncode(bytes);
    case List(items) =>
      DecodeEncodeItems(items);
      NodeShape(KArray, JArray(EncodeItems(items).value));
    case Record(fields) =>
      var keys := SortedKeys(fields.Keys);
      DecodeEncodeFields(v, keys, None);
      assert Restrict(fields, keys) == fields;
      NodeShape(KObject, JArray(EncodeFields(v, keys).value));
    case Foreign =>
  }

  lemma {:induction false} DecodeEncodeItems(items: seq<Value>)
    requires EncodeItems(items).Ok?
    ensures DecodeItems(EncodeItems(items).value) == Ok(items)
    decreases items, 0
  {
    if items != [] {
      DecodeEncode(items[0]);
      DecodeEncodeItems(items[1..]);
      var nodes := EncodeItems(items).value;
      assert nodes[1..] == EncodeItems(items[1..]).value;
      assert [items[0]] + items[1..] == items;
    }
  }

  lemma {:induction false} DecodeEncodeFields(v: Value, keys: seq<string>, previous: Option<string>)
    requires v.Record? && (forall k :: k in keys ==> k in v.fields) && StrictlySorted(keys)
    requires previous.Some? && keys != [] ==> Less(previous.value, keys[0])
    requires EncodeFields(v, keys).Ok?
    ensures DecodeEntries(EncodeFields(v, keys).value, previous) == Ok(Restrict(v.fields, keys))
    decreases v, 0, |keys|
  {
    hide Less;
    if keys == [] {
      assert Restrict(v.fields, keys) == map[];
    } else {
      var key := keys[0];
      DecodeEncode(v.fields[key]);
      DecodeEncodeFields(v, keys[1..], Some(key));
      var entries := EncodeFields(v, keys).value;
      assert entries[1..] == EncodeFields(v, keys[1..]).value;
      if previous.Some? { LessTotal(previous.value, key); }
      assert Restrict(v.fields, keys) == Restrict(v.fields, keys[1..])[key := v.fields[key]];
    }
  }

  // ---------- re-encoding an accepted node ----------

  function EntryKey(entry: Json): string {
    if IsEntry(entry) then entry.items[0].s else ""
  }

  function EntryKeys(entries: seq<Json>): (r: seq<string>)
    ensures |r| == |entries|
    ensures forall i :: 0 <= i < |r| ==> r[i] == EntryKey(entries[i])
  {
    if entries == [] then [] else [EntryKey(entries[0])] + EntryKeys(entries[1..])
  }

  lemma {:induction false} EncodeDecode(node: Json)
    requires Decode(node).Ok?
    ensures Encode(Decode(node).value) == Ok(node)
    decreases node, 0
  {
    hide KindOf, KindName;
    var kind := KindOf(node.fields["type"].s);
    if !kind.KUnknown? { KindRoundTrip(kind, node.fields["type"].s); }
    if kind.KNull? {
      assert node.fields == map["type" := JStr(KindName(KNull))];
    } else {
      var value := node.fields["value"];
      assert node.fields == map["type" := JStr(KindName(kind)), "value" := value];
      if kind.KArray? {
        EncodeDecodeItems(value.items);
      } else if kind.KObject? {
        EncodeDecodeObject(value.items);
      }
    }
  }

  lemma {:induction false} EncodeDecodeItems(nodes: seq<Json>)
    requires DecodeItems(nodes).Ok?
    ensures EncodeItems(DecodeItems(nodes).value) == Ok(nodes)
    decreases nodes, 0
  {
    if nodes != [] {
      EncodeDecode(nodes[0]);
      EncodeDecodeItems(nodes[1..]);
      var items := DecodeItems(nodes).value;
      assert items[1..] == DecodeItems(nodes[1..]).value;
      assert [nodes[0]] + nodes[1..] == nodes;
    }
  }

  /** Accepted entries have strictly increasing keys, all above `previous`, and these are the
      keys of the decoded record. */
  lemma {:induction false} AcceptedKeys(entries: seq<Json>, previous: Option<string>)
    requires DecodeEntries(entries, previous).Ok?
    ensures forall i :: 0 <= i < |entries| ==> IsEntry(entries[i])
    ensures StrictlySorted(EntryKeys(entries))
    ensures forall k :: k in EntryKeys(entries) <==> k in DecodeEntries(entries, previous).value
    ensures previous.Some? ==> forall k :: k in EntryKeys(entries) ==> Less(previous.value, k)
  {
    hide Less;
    if entries != [] {
      var key := entries[0].items[0].s;
      AcceptedKeys(entries[1..], Some(key));
      assert forall i :: 1 <= i < |entries| ==> entries[i] == entries[1..][i - 1];
      var keys, rest := EntryKeys(entries), EntryKeys(entries[1..]);
      assert keys == [key] + rest;
      forall j | 0 <= j < |rest| ensures Less(key, rest[j]) { assert rest[j] in rest; }
      if previous.Some? {
        LessTotal(previous.value, key);
        forall k | k in keys ensures Less(previous.value, k) {
          if k != key { LessTransitive(previous.value, key, k); }
        }
      }
    }
  }

  lemma {:induction false} EncodeDecodeObject(entries: seq<Json>)
    requires DecodeEntries(entries, None).Ok?
    ensures Encode(Record(DecodeEntries(entries, None).value)) == Ok(Node(KObject, JArray(entries)))
    decreases entries, 1
  {
    hide DecodeEntries, EncodeFields, EncodeItems, IsEntry, KindName, StrictlySorted, Less, AtMost, EntryKeys, SortedKeys;
    var fields := DecodeEntries(entries, None).value;
    AcceptedKeys(entries, None);
    StrictlySortedUnique(SortedKeys(fields.Keys), EntryKeys(entries));
    EncodeDecodeEntries(entries, None, Record(fields));
  }

  /** Decoding takes the first entry apart into its key, its value and the rest. */
  lemma EntriesNext(entries: seq<Json>, previous: Option<string>)
    requires entries != [] && DecodeEntries(entries, previous).Ok?
    ensures IsEntry(entries[0])
    ensures var key := EntryKey(entries[0]);
            && Decode(entries[0].items[1]).Ok?
            && DecodeEntries(entries[1..], Some(key)).Ok?
            && DecodeEntries(entries, previous).value ==
               DecodeEntries(entries[1..], Some(key)).value[key := Decode(entries[0].items[1]).value]
            && key !in DecodeEntries(entries[1..], Some(key)).value
            && entries[0] == JArray([JStr(key), entries[0].items[1]])
  {
    hide Less, AtMost, Decode, StrictlySorted, EntryKeys;
    var key := EntryKey(entries[0]);
    AcceptedKeys(entries[1..], Some(key));
    LessIrreflexive(key);
    EntryIsPair(entries[0]);
  }

  lemma EntryIsPair(entry: Json)
    requires IsEntry(entry)
    ensures entry == JArray([entry.items[0], entry.items[1]]) && entry.items[0] == JStr(entry.items[0].s)
  {
  }

  lemma FieldsCons(v: Value, keys: seq<string>, entries: seq<Json>)
    requires v.Record? && (forall k :: k in keys ==> k in v.fields) && keys != [] && entries != []
    requires IsEntry(entries[0]) && entries[0] == JArray([JStr(keys[0]), entries[0].items[1]])
    requires Encode(v.fields[keys[0]]) == Ok(entries[0].items[1])
    requires EncodeFields(v, keys[1..]) == Ok(entries[1..])
    ensures EncodeFields(v, keys) == Ok(entries)
  {
    assert [entries[0]] + entries[1..] == entries;
  }

  /** The record `v` agrees with what the entries decode to. */
  predicate Agrees(v: Value, decoded: map<string, Value>) {
    v.Record? && forall k :: k in decoded ==> k in v.fields && v.fields[k] == decoded[k]
  }

  lemma {:induction false} EncodeDecodeEntries(entries: seq<Json>, previous: Option<string>, v: Value)
    requires DecodeEntries(entries, previous).Ok?
    requires Agrees(v, DecodeEntries(entries, previous).value)
    requires forall k :: k in EntryKeys(entries) ==> k in v.fields
    ensures EncodeFields(v, EntryKeys(entries)) == Ok(entries)
    decreases entries, 0
  {
    if entries != [] {
      hide Decode, DecodeEntries, Encode, EncodeFields, Less, IsEntry;
      var key := EntryKey(entries[0]);
      EntriesNext(entries, previous);
      var keys := EntryKeys(entries);
      assert keys[0] == key && keys[1..] == EntryKeys(entries[1..]);
      EncodeDecode(entries[0].items[1]);
      EncodeDecodeEntries(entries[1..], Some(key), v);
      FieldsCons(v, keys, entries);
    }
  }

  /** Each encodable value has exactly one accepted encoding, and it is the one encodeNode makes. */
  lemma OneEncodingPerValue(v: Value, node: Json)
    ensures Decode(node) == Ok(v) <==> Encode(v) == Ok(node)
  {
    if Decode(node) == Ok(v) { EncodeDecode(node); }
    if Encode(v) == Ok(node) { DecodeEncode(v); }
  }

  /** What encodeNode rejects: a foreign value or a non-finite number anywhere inside. */
  predicate Encodable(v: Value) {
    match v
    case Numeric(n) => !n.NonFinite?
    case List(items) => forall i :: 0 <= i < |items| ==> Encodable(items[i])
    case Record(fields) => forall k :: k in fields ==> Encodable(fields[k])
    case Foreign => false
    case _ => true
  }

  lemma {:induction false} EncodeSucceeds(v: Value)
    ensures Encode(v).Ok? <==> Encodable(v)
    decreases v, 0
  {
    hide Node, KindName;
    match v
    case List(items) => ItemsSucceed(items);
    case Record(fields) =>
      var keys := SortedKeys(fields.Keys);
      FieldsSucceed(v, keys);
      assert forall k :: k in keys <==> k in fields;
    case _ =>
  }

  lemma {:induction false} ItemsSucceed(items: seq<Value>)
    ensures EncodeItems(items).Ok? <==> forall i :: 0 <= i < |items| ==> Encodable(items[i])
    decreases items, 0
  {
    if items != [] {
      EncodeSucceeds(items[0]);
      ItemsSucceed(items[1..]);
      assert forall i :: 1 <= i < |items| ==> items[i] == items[1..][i - 1];
      assert (forall i :: 0 <= i < |items| ==> Encodable(items[i])) <==>
             Encodable(items[0]) && (forall i :: 0 <= i < |items[1..]| ==> Encodable(items[1..][i]));
    }
  }

  lemma {:induction false} FieldsSucceed(v: Value, keys: seq<string>)
    requires v.Record? && forall k :: k in keys ==> k in v.fields
    ensures EncodeFields(v, keys).Ok? <==> forall k :: k in keys ==> Encodable(v.fields[k])
    decreases v, 0, |keys|
  {
    if keys != [] {
      EncodeSucceeds(v.fields[keys[0]]);
      FieldsSucceed(v, keys[1..]);
      assert forall k :: k in keys <==> k == keys[0] || k in keys[1..];
    }
  }

  // ---------- decodeNode as the source runs it ----------

  /** The outcome of a loop that has collected `done` and still has `rest` to come. */
  function Append(done: seq<Value>, rest: Result<seq<Value>, Error>): Result<seq<Value>, Error> {
    if rest.Ok? then Ok(done + rest.value) else rest
  }

  function Merge(done: map<string, Value>, rest: Result<map<string, Value>, Error>): Result<map<string, Value>, Error> {
    if rest.Ok? then Ok(rest.value + done) else rest
  }

  lemma AppendNothing(rest: Result<seq<Value>, Error>)
    ensures Append([], rest) == rest
  {
    if rest.Ok? { assert [] + rest.value == rest.value; }
  }

  lemma MergeNothing(rest: Result<map<string, Value>, Error>)
    ensures Merge(map[], rest) == rest
  {
    if rest.Ok? { assert rest.value + map[] == rest.value; }
  }

  lemma ItemsNext(done: seq<Value>, nodes: seq<Json>)
    requires nodes != []
    ensures Append(done, DecodeItems(nodes)) ==
            if Decode(nodes[0]).Ok? then Append(done + [Decode(nodes[0]).value], DecodeItems(nodes[1..]))
            else Err(Decode(nodes[0]).error)
  {
    if Decode(nodes[0]).Ok? && DecodeItems(nodes[1..]).Ok? {
      var v, rest := Decode(nodes[0]).value, DecodeItems(nodes[1..]).value;
      assert done + ([v] + rest) == done + [v] + rest;
    }
  }

  lemma EntriesMerge(done: map<string, Value>, entries: seq<Json>, previous: Option<string>)
    requires entries != [] && IsEntry(entries[0])
    requires forall k :: k in done ==> previous.Some? && AtMost(k, previous.value)
    requires previous.Some? ==> !AtMost(EntryKey(entries[0]), previous.value)
    ensures EntryKey(entries[0]) !in done
    ensures Merge(done, DecodeEntries(entries, previous)) ==
            var key, v := EntryKey(entries[0]), Decode(entries[0].items[1]);
            if v.Ok? then Merge(done[key := v.value], DecodeEntries(entries[1..], Some(key))) else Err(v.error)
  {
    var key := EntryKey(entries[0]);
    if Decode(entries[0].items[1]).Ok? && DecodeEntries(entries[1..], Some(key)).Ok? {
      var v, rest := Decode(entries[0].items[1]).value, DecodeEntries(entries[1..], Some(key)).value;
      assert rest[key := v] + done == rest + done[key := v];
    }
  }

  /** decodeNode, whose array and object cases are loops. */
  method DecodeNode(node: Json) returns (r: Result<Value, Error>)
    ensures r == Decode(node)
    decreases node, 0
  {
    hide KindOf;
    if !node.JObject? || "type" !in node.fields || !node.fields["type"].JStr? { return Err(InvalidNode); }
    var kind := KindOf(node.fields["type"].s);
    if kind.KNull? { return if node.fields.Keys == {"type"} then Ok(Null) else Err(InvalidNode); }
    if !HasValue(node.fields) { return Err(InvalidNode); }
    var value := node.fields["value"];
    match kind
    case KBoolean => return if value.JBoolean? then Ok(Boolean(value.b)) else Err(InvalidNode);
    case KNumber => return if value.JNumeric? && !value.n.NonFinite? then Ok(Numeric(value.n)) else Err(InvalidNode);
    case KString => return if value.JStr? then Ok(Str(value.s)) else Err(InvalidNode);
    case KBytes =>
      if !value.JStr? { return Err(InvalidNode); }
      var bytes := Base64.Read(value.s);
      return if Base64.Encode(bytes) == value.s then Ok(Bytes(bytes)) else Err(InvalidNode);
    case KArray =>
      if !value.JArray? { return Err(InvalidNode); }
      var items := DecodeArray(value.items);
      return if items.Ok? then Ok(List(items.value)) else Err(items.error);
    case KObject =>
      if !value.JArray? { return Err(InvalidNode); }
      var fields := DecodeObject(value.items);
      return if fields.Ok? then Ok(Record(fields.value)) else Err(fields.error);
    case _ => return Err(InvalidNode);
  }

  method DecodeArray(nodes: seq<Json>) returns (r: Result<seq<Value>, Error>)
    ensures r == DecodeItems(nodes)
    decreases nodes, 0
  {
    hide Decode;
    var items: seq<Value> := [];
    var n := 0;
    assert nodes[0..] == nodes;
    AppendNothing(DecodeItems(nodes));
    while n < |nodes|
      invariant 0 <= n <= |nodes|
      invariant DecodeItems(nodes) == Append(items, DecodeItems(nodes[n..]))
    {
      assert nodes[n..][1..] == nodes[n + 1..];
      ItemsNext(items, nodes[n..]);
      var item := DecodeNode(nodes[n]);
      if item.Err? { return Err(item.error); }
      items := items + [item.value];
      n := n + 1;
    }
    assert nodes[n..] == [] && items + [] == items;
    r := Ok(items);
  }

  method DecodeObject(entries: seq<Json>) returns (r: Result<map<string, Value>, Error>)
    ensures r == DecodeEntries(entries, None)
    decreases entries, 0
  {
    hide Decode, Less;
    var result: map<string, Value> := map[];
    var previousKey: Option<string> := None;
    var n := 0;
    assert entries[0..] == entries;
    MergeNothing(DecodeEntries(entries, None));
    while n < |entries|
      invariant 0 <= n <= |entries|
      invariant DecodeEntries(entries, None) == Merge(result, DecodeEntries(entries[n..], previousKey))
      invariant forall k :: k in result ==> previousKey.Some? && AtMost(k, previousKey.value)
    {
      assert entries[n..][1..] == entries[n + 1..];
      if !IsEntry(entries[n]) { return Err(InvalidEntry); }
      var key := entries[n].items[0].s;
      if previousKey.Some? && AtMost(key, previousKey.value) { return Err(UnsortedKeys); }
      EntriesMerge(result, entries[n..], previousKey);
      var v := DecodeNode(entries[n].items[1]);
      if v.Err? { return Err(v.error); }
      forall k | k in result ensures AtMost(k, key) {
        LessTotal(previousKey.value, key);
        AtMostTransitive(k, previousKey.value, key);
      }
      result := result[key := v.value];
      previousKey := Some(key);
      n := n + 1;
    }
    assert entries[n..] == [] && map[] + result == result;
    r := Ok(result);
  }
}
