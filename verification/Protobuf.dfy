/** The hand-written protobuf serializer, and a parser written from the Protocol Buffers encoding
    specification ("Base 128 Varints", "Length-Delimited Records") that inverts it. */
module Protobuf {
  import opened Options

  type Byte = n: nat | n < 0x100

  // ----- Base 128 varints -----

  /** Groups of seven bits, least significant first; every byte but the last has its high bit set. */
  function Varint(n: nat): (r: seq<Byte>)
    ensures |r| >= 1
  {
    if n < 0x80 then [n] else [n % 0x80 + 0x80] + Varint(n / 0x80)
  }

  /** `varint`: the loop shifts seven bits out at a time and appends them. */
  method WriteVarint(n: nat) returns (out: seq<Byte>)
    ensures out == Varint(n)
  {
    out := [];
    var rest := n;
    while true
      invariant out + Varint(rest) == Varint(n)
      decreases rest
    {
      var b := rest % 0x80;
      var left := rest / 0x80;
      assert rest < 0x80 <==> left == 0;
      ghost var before := out;
      out := out + [if left != 0 then b + 0x80 else b];
      if left == 0 { return; }
      assert before + ([b + 0x80] + Varint(left)) == out + Varint(left);
      rest := left;
    }
  }

  /** The value of the varint that `bytes` starts with, and what follows it. */
  function ReadVarint(bytes: seq<Byte>): (r: Option<(nat, seq<Byte>)>)
    ensures r.Some? ==> |r.value.1| < |bytes|
  {
    if bytes == [] then None
    else if bytes[0] < 0x80 then Some((bytes[0], bytes[1..]))
    else
      var more := ReadVarint(bytes[1..]);
      if more.None? then None else Some((bytes[0] - 0x80 + 0x80 * more.value.0, more.value.1))
  }

  /** Reading what was written gives back the number, whatever follows. */
  lemma {:induction false} VarintRoundTrip(n: nat, suffix: seq<Byte>)
    ensures ReadVarint(Varint(n) + suffix) == Some((n, suffix))
  {
    var bytes := Varint(n) + suffix;
    if n < 0x80 {
      assert bytes[1..] == suffix;
    } else {
      VarintRoundTrip(n / 0x80, suffix);
      assert bytes[1..] == Varint(n / 0x80) + suffix;
    }
  }

  /** No encoding is the beginning of another. */
  lemma {:induction false} VarintPrefixFree(a: nat, b: nat)
    requires Varint(a) <= Varint(b)
    ensures a == b
  {
    var suffix := Varint(b)[|Varint(a)|..];
    assert Varint(b) == Varint(a) + suffix && Varint(b) + [] == Varint(b);
    VarintRoundTrip(a, suffix);
    VarintRoundTrip(b, []);
  }

  /** No reading of a whole byte string as `n` is shorter than the encoding written for `n`; one of the
      same length is that encoding. */
  lemma {:induction false} VarintMinimal(bytes: seq<Byte>, n: nat)
    requires ReadVarint(bytes) == Some((n, []))
    ensures |Varint(n)| <= |bytes| && (|Varint(n)| == |bytes| ==> Varint(n) == bytes)
  {
    if bytes[0] < 0x80 {
      assert bytes == [bytes[0]] + bytes[1..];
    } else {
      var rest := bytes[1..];
      var more := ReadVarint(rest).value.0;
      VarintMinimal(rest, more);
      assert bytes == [bytes[0]] + rest;
      assert n == bytes[0] - 0x80 + 0x80 * more;
      assert n % 0x80 == bytes[0] - 0x80 && n / 0x80 == more;
    }
  }

  /** A longer reading of `n` exists only with a wasted last group, so the encoding is the one whose last
      byte is not zero. */
  lemma {:induction false} LastGroupUsed(n: nat)
    ensures var last := Varint(n)[|Varint(n)| - 1]; last < 0x80 && (n > 0 ==> last > 0)
  {
    if n >= 0x80 { LastGroupUsed(n / 0x80); }
  }

  // ----- Fields -----

  /** A tree of fields: numbers, raw bytes, and messages of further fields. */
  datatype Field =
    | Number(number: nat, value: nat)
    | Raw(number: nat, payload: seq<Byte>)
    | Message(number: nat, fields: seq<Field>)

  /** `(field << 3) | wire`, for the two wire types the serializer uses. */
  function Tag(number: nat, wire: nat): seq<Byte>
    requires wire < 8
  {
    Varint(number * 8 + wire)
  }

  function VField(number: nat, value: nat): seq<Byte> { Tag(number, 0) + Varint(value) }

  function LField(number: nat, payload: seq<Byte>): seq<Byte> { Tag(number, 2) + Varint(|payload|) + payload }

  function Encoded(field: Field): (r: seq<Byte>)
    ensures |r| >= 2
  {
    match field
    case Number(number, value) => VField(number, value)
    case Raw(number, payload) => LField(number, payload)
    case Message(number, fields) => LField(number, AllEncoded(fields))
  }

  function AllEncoded(fields: seq<Field>): seq<Byte> {
    if fields == [] then [] else Encoded(fields[0]) + AllEncoded(fields[1..])
  }

  /** Which field numbers of a message are messages themselves; the wire format does not say. */
  datatype Schema = Schema(nested: map<nat, Schema>)

  predicate Conforms(field: Field, schema: Schema) {
    match field
    case Number(_, _) => true
    case Raw(number, _) => number !in schema.nested
    case Message(number, fields) => number in schema.nested && AllConform(fields, schema.nested[number])
  }

  predicate AllConform(fields: seq<Field>, schema: Schema) {
    fields == [] || (Conforms(fields[0], schema) && AllConform(fields[1..], schema))
  }

  // ----- The parser of the specification -----

  /** One record: a key, then a varint or a length and that many bytes. */
  function ReadField(bytes: seq<Byte>, schema: Schema): (r: Option<(Field, seq<Byte>)>)
    ensures r.Some? ==> |r.value.1| < |bytes|
    decreases |bytes|, 0
  {
    var key := ReadVarint(bytes);
    if key.None? then None
    else
      var (k, rest) := key.value;
      var number, wire := k / 8, k % 8;
      if wire == 0 then
        var value := ReadVarint(rest);
        if value.None? then None else Some((Number(number, value.value.0), value.value.1))
      else if wire == 2 then
        var length := ReadVarint(rest);
        if length.None? || length.value.0 > |length.value.1| then None
        else
          var (n, after) := length.value;
          var payload := after[..n];
          if number in schema.nested then
            var fields := ReadFields(payload, schema.nested[number]);
            if fields.None? then None else Some((Message(number, fields.value), after[n..]))
          else Some((Raw(number, payload), after[n..]))
      else None
  }

  /** Records up to the end. */
  function ReadFields(bytes: seq<Byte>, schema: Schema): Option<seq<Field>>
    decreases |bytes|, 1
  {
    if bytes == [] then Some([])
    else
      var first := ReadField(bytes, schema);
      if first.None? then None
      else
        var rest := ReadFields(first.value.1, schema);
        if rest.None? then None else Some([first.value.0] + rest.value)
  }

  lemma {:induction false} KeyRoundTrip(number: nat, wire: nat, suffix: seq<Byte>)
    requires wire < 8
    ensures ReadVarint(Tag(number, wire) + suffix) == Some((number * 8 + wire, suffix))
    ensures (number * 8 + wire) / 8 == number && (number * 8 + wire) % 8 == wire
  {
    VarintRoundTrip(number * 8 + wire, suffix);
  }

  /** The parser splits a length-delimited record exactly where the serializer ended it. */
  lemma {:induction false} RecordSplits(number: nat, payload: seq<Byte>, suffix: seq<Byte>)
    ensures var bytes := LField(number, payload) + suffix;
      && ReadVarint(bytes) == Some((number * 8 + 2, Varint(|payload|) + payload + suffix))
      && ReadVarint(Varint(|payload|) + payload + suffix) == Some((|payload|, payload + suffix))
      && (payload + suffix)[..|payload|] == payload && (payload + suffix)[|payload|..] == suffix
  {
    var tail := Varint(|payload|) + payload + suffix;
    assert LField(number, payload) + suffix == Tag(number, 2) + tail;
    KeyRoundTrip(number, 2, tail);
    assert tail == Varint(|payload|) + (payload + suffix);
    VarintRoundTrip(|payload|, payload + suffix);
  }

  /** Every tree of fields is recovered from its bytes, whatever follows them. */
  lemma {:induction false} FieldRoundTrip(field: Field, schema: Schema, suffix: seq<Byte>)
    requires Conforms(field, schema)
    ensures ReadField(Encoded(field) + suffix, schema) == Some((field, suffix))
    decreases field
  {
    match field
    case Number(number, value) =>
      assert VField(number, value) + suffix == Tag(number, 0) + (Varint(value) + suffix);
      KeyRoundTrip(number, 0, Varint(value) + suffix);
      VarintRoundTrip(value, suffix);
    case Raw(number, payload) =>
      RecordSplits(number, payload, suffix);
      KeyRoundTrip(number, 2, []);
    case Message(number, fields) =>
      RecordSplits(number, AllEncoded(fields), suffix);
      KeyRoundTrip(number, 2, []);
      FieldsRoundTrip(fields, schema.nested[number]);
  }

  /** And so is every message. */
  lemma {:induction false} FieldsRoundTrip(fields: seq<Field>, schema: Schema)
    requires AllConform(fields, schema)
    ensures ReadFields(AllEncoded(fields), schema) == Some(fields)
    decreases fields
  {
    if fields == [] {
    } else {
      FieldRoundTrip(fields[0], schema, AllEncoded(fields[1..]));
      FieldsRoundTrip(fields[1..], schema);
      assert fields == [fields[0]] + fields[1..];
    }
  }

  // ----- The probe model -----

  const FLOAT := 1

  function Dimensions(dims: seq<nat>): seq<Byte> {
    if dims == [] then [] else LField(1, VField(1, dims[0])) + Dimensions(dims[1..])
  }

  /** `tensor_type` */
  function TensorType(elem: nat, dims: seq<nat>): seq<Byte> {
    LField(1, VField(1, elem) + LField(2, Dimensions(dims)))
  }

  /** `value_info` */
  function ValueInfo(name: seq<Byte>, dims: seq<nat>): seq<Byte> {
    LField(1, name) + LField(2, TensorType(FLOAT, dims))
  }

  function DimensionFields(dims: seq<nat>): seq<Field> {
    if dims == [] then [] else [Message(1, [Number(1, dims[0])])] + DimensionFields(dims[1..])
  }

  function TypeField(elem: nat, dims: seq<nat>): Field {
    Message(1, [Number(1, elem), Message(2, DimensionFields(dims))])
  }

  function ValueFields(name: seq<Byte>, dims: seq<nat>): seq<Field> {
    [Raw(1, name), Message(2, [TypeField(FLOAT, dims)])]
  }

  const LEAF := Schema(map[])
  const SHAPE := Schema(map[1 := LEAF])
  const TENSOR := Schema(map[2 := SHAPE])
  const VALUE_INFO := Schema(map[2 := Schema(map[1 := TENSOR])])
  const GRAPH := Schema(map[1 := LEAF, 11 := VALUE_INFO, 12 := VALUE_INFO])
  const MODEL := Schema(map[7 := GRAPH, 8 := LEAF])

  /** `payload.encode()` of an ASCII name */
  function Text(name: string): (r: seq<Byte>)
    requires forall i :: 0 <= i < |name| ==> name[i] as int < 0x80
    ensures |r| == |name|
  {
    seq(|name|, i requires 0 <= i < |name| => name[i] as int)
  }

  function Node(): seq<Byte> {
    LField(1, Text("a")) + LField(1, Text("b")) + LField(2, Text("c")) + LField(3, Text("add")) + LField(4, Text("Add"))
  }

  function Graph(): seq<Byte> {
    LField(1, Node()) + LField(2, Text("whitewater_ort_probe"))
    + LField(11, ValueInfo(Text("a"), [1, 4])) + LField(11, ValueInfo(Text("b"), [1, 4]))
      + LField(12, ValueInfo(Text("c"), [1, 4]))
  }

  /** `build` */
  function Build(): seq<Byte> {
    VField(1, 8) + LField(2, Text("whitewater")) + LField(7, Graph()) + LField(8, LField(1, []) + VField(2, 13))
  }

  function NodeFields(): seq<Field> {
    [Raw(1, Text("a")), Raw(1, Text("b")), Raw(2, Text("c")), Raw(3, Text("add")), Raw(4, Text("Add"))]
  }

  function GraphFields(): seq<Field> {
    [Message(1, NodeFields()), Raw(2, Text("whitewater_ort_probe")),
     Message(11, ValueFields(Text("a"), [1, 4])), Message(11, ValueFields(Text("b"), [1, 4])),
       Message(12, ValueFields(Text("c"), [1, 4]))]
  }

  /** The model as a tree: version 8, its producer, one Add node over two 1x4 tensors, and its operator set. */
  function ModelFields(): seq<Field> {
    [Number(1, 8), Raw(2, Text("whitewater")), Message(7, GraphFields()), Message(8, [Raw(1, []), Number(2, 13)])]
  }

  /** Encoding and conforming field by field. */
  lemma {:induction false} Split(first: Field, rest: seq<Field>, schema: Schema)
    ensures AllEncoded([first] + rest) == Encoded(first) + AllEncoded(rest)
    ensures AllConform([first] + rest, schema) <==> Conforms(first, schema) && AllConform(rest, schema)
  {
    var fields := [first] + rest;
    assert fields[0] == first && fields[1..] == rest;
  }

  lemma {:induction false} One(a: Field, schema: Schema)
    ensures AllEncoded([a]) == Encoded(a) && (AllConform([a], schema) <==> Conforms(a, schema))
  {
    Split(a, [], schema);
    assert [a] + [] == [a];
  }

  lemma {:induction false} Two(a: Field, b: Field, schema: Schema)
    ensures AllEncoded([a, b]) == Encoded(a) + Encoded(b)
    ensures AllConform([a, b], schema) <==> Conforms(a, schema) && Conforms(b, schema)
  {
    Split(a, [b], schema);
    One(b, schema);
    assert [a] + [b] == [a, b];
  }

  lemma {:induction false} Four(a: Field, b: Field, c: Field, d: Field, schema: Schema)
    ensures AllEncoded([a, b, c, d]) == Encoded(a) + Encoded(b) + Encoded(c) + Encoded(d)
    ensures AllConform([a, b, c, d], schema) <==>
      Conforms(a, schema) && Conforms(b, schema) && Conforms(c, schema) && Conforms(d, schema)
  {
    Split(a, [b, c, d], schema);
    Split(b, [c, d], schema);
    Two(c, d, schema);
    assert [a] + [b, c, d] == [a, b, c, d] && [b] + [c, d] == [b, c, d];
  }

  lemma {:induction false} Five(a: Field, b: Field, c: Field, d: Field, e: Field, schema: Schema)
    ensures AllEncoded([a, b, c, d, e]) == Encoded(a) + Encoded(b) + Encoded(c) + Encoded(d) + Encoded(e)
    ensures AllConform([a, b, c, d, e], schema) <==>
      Conforms(a, schema) && Conforms(b, schema) && Conforms(c, schema) && Conforms(d, schema) && Conforms(e, schema)
  {
    Split(a, [b, c, d, e], schema);
    Four(b, c, d, e, schema);
    assert [a] + [b, c, d, e] == [a, b, c, d, e];
  }

  lemma {:induction false} DimensionsAreFields(dims: seq<nat>)
    ensures AllEncoded(DimensionFields(dims)) == Dimensions(dims) && AllConform(DimensionFields(dims), SHAPE)
  {
    if dims == [] {
    } else {
      DimensionsAreFields(dims[1..]);
      One(Number(1, dims[0]), LEAF);
      Split(Message(1, [Number(1, dims[0])]), DimensionFields(dims[1..]), SHAPE);
    }
  }

  /** A value's bytes are the encoding of its field tree, so the parser recovers name, type and shape. */
  lemma ValueInfoParses(name: seq<Byte>, dims: seq<nat>)
    ensures ValueInfo(name, dims) == AllEncoded(ValueFields(name, dims)) &&
      AllConform(ValueFields(name, dims), VALUE_INFO)
    ensures ReadFields(ValueInfo(name, dims), VALUE_INFO) == Some(ValueFields(name, dims))
  {
    hide AllEncoded, AllConform, ReadFields, LField, VField, DimensionFields, Dimensions;
    DimensionsAreFields(dims);
    var shape, type_ := Message(2, DimensionFields(dims)), Message(2, [TypeField(FLOAT, dims)]);
    Two(Number(1, FLOAT), shape, TENSOR);
    One(TypeField(FLOAT, dims), Schema(map[1 := TENSOR]));
    Two(Raw(1, name), type_, VALUE_INFO);
    FieldsRoundTrip(ValueFields(name, dims), VALUE_INFO);
  }

  lemma GraphIsFields()
    ensures Graph() == AllEncoded(GraphFields()) && AllConform(GraphFields(), GRAPH)
  {
    hide AllEncoded, AllConform, ReadFields, LField, VField, ValueInfo, ValueFields;
    ValueInfoParses(Text("a"), [1, 4]);
    ValueInfoParses(Text("b"), [1, 4]);
    ValueInfoParses(Text("c"), [1, 4]);
    Five(Raw(1, Text("a")), Raw(1, Text("b")), Raw(2, Text("c")), Raw(3, Text("add")), Raw(4, Text("Add")), LEAF);
    Five(Message(1, NodeFields()), Raw(2, Text("whitewater_ort_probe")), Message(11, ValueFields(Text("a"), [1, 4])),
         Message(11, ValueFields(Text("b"), [1, 4])), Message(12, ValueFields(Text("c"), [1, 4])), GRAPH);
  }

  /** Parsing the emitted model recovers the whole tree that was meant. */
  lemma BuildParses()
    ensures ReadFields(Build(), MODEL) == Some(ModelFields())
  {
    hide AllEncoded, AllConform, ReadFields, LField, VField, Graph, GraphFields;
    GraphIsFields();
    Two(Raw(1, []), Number(2, 13), LEAF);
    Four(Number(1, 8), Raw(2, Text("whitewater")), Message(7, GraphFields()), Message(8, [Raw(1, []), Number(2, 13)]),
         MODEL);
    FieldsRoundTrip(ModelFields(), MODEL);
  }

  // ----- What the probe model says -----

  /** A tensor of 32-bit floats, element type 1, of one row of four. */
  function FloatRow(name: seq<Byte>): seq<Field> {
    [Raw(1, name),
     Message(2, [Message(1, [Number(1, 1), Message(2, [Message(1, [Number(1, 1)]), Message(1, [Number(1, 4)])])])])]
  }

  lemma ValueIsFloatRow(name: seq<Byte>)
    ensures ValueFields(name, [1, 4]) == FloatRow(name)
  {
    var dims: seq<nat> := [1, 4];
    assert dims[1..] == [4] && dims[1..][1..] == [];
    assert DimensionFields([]) == [];
    assert DimensionFields([4]) == [Message(1, [Number(1, 4)])];
    assert DimensionFields(dims) == [Message(1, [Number(1, 1)]), Message(1, [Number(1, 4)])];
  }

  /** Parsed back, the model is of IR version 8 and operator set 13, and its graph adds the float rows a and b
      into the float row c. */
  lemma ProbeModelMeans()
    ensures ReadFields(Build(), MODEL) == Some([
      Number(1, 8),
      Raw(2, Text("whitewater")),
      Message(7, [
        Message(1, [Raw(1, Text("a")), Raw(1, Text("b")), Raw(2, Text("c")), Raw(3, Text("add")), Raw(4, Text("Add"))]),
        Raw(2, Text("whitewater_ort_probe")),
        Message(11, FloatRow(Text("a"))),
        Message(11, FloatRow(Text("b"))),
        Message(12, FloatRow(Text("c")))]),
      Message(8, [Raw(1, []), Number(2, 13)])])
  {
    hide Build, ReadFields, Text, ValueFields, FloatRow;
    BuildParses();
    ValueIsFloatRow(Text("a"));
    ValueIsFloatRow(Text("b"));
    ValueIsFloatRow(Text("c"));
  }
}
