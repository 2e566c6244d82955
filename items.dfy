/** The stored shape of the event log (Repository.kt): the entity variants the
    backend appends, the DynamoDB item each becomes in `append`, and the decoding
    of an item back into an entity in `fetchAll`, with the attribute helpers
    `int`, `string`, `bool` and `list`. */
module Items {
  import opened Wrappers
  import opened Codec

  /** The DynamoDB attribute values the repository writes and reads. */
  datatype AttributeValue =
    | S(s: string)
    | N(n: string)
    | Bool(b: bool)
    | L(l: seq<AttributeValue>)
    | M(m: map<string, AttributeValue>)

  type Item = map<string, AttributeValue>

  /** One row of a measurement; a missing tray, boxes or loose count is None. */
  datatype ProductMeasurement = ProductMeasurement(
    productId: Int32,
    productVersion: Int32,
    tray: Option<Int32>,
    boxes: Option<Int32>,
    loose: Option<Int32>)

  /** The entity variants the repository stores. Every variant carries its id
      and the version (log slot) it occupies. */
  datatype Entity =
    | Flavour(id: Int32, version: Int32, name: string)
    | Product(id: Int32, version: Int32, name: string, flavourId: Int32, flavourVersion: Int32,
              boxSize: Int32, deprecated: bool)
    | Measurement(id: Int32, version: Int32, date: string, measurements: seq<ProductMeasurement>)

  /** Why decoding threw: a sort key not of the form stream-<key>, a missing
      attribute (a failed `!!`), an unparsable number, an unknown type tag. */
  datatype DecodeError =
    | MalformedSortKey(sk: string)
    | MissingAttribute(key: string)
    | NotANumber(text: string)
    | UnknownType(tag: string)

  const Partition: string := "tea"
  const StreamPrefix: string := "stream-"

  /** The sort key of the log slot of version v. */
  function StreamKey(v: Int32): string
  {
    StreamPrefix + SortableInt(v)
  }

  // ---------------------------------------------------------------- helpers

  /** `int(key)`: absent, or not a number attribute, gives null; a number
      attribute that toInt rejects throws. */
  function GetInt(item: Item, key: string): (r: Result<Option<Int32>, DecodeError>)
    ensures r.Ok? && r.value.Some? <==> key in item && item[key].N? && ParseInt(item[key].n).Some?
    ensures r.Ok? && r.value.Some? ==> ParseInt(item[key].n) == r.value
  {
    if key in item && item[key].N? then
      match ParseInt(item[key].n)
      case Some(v) => Ok(Some(v))
      case None => Err(NotANumber(item[key].n))
    else
      Ok(None)
  }

  /** `int(key)!!`. */
  function RequireInt(item: Item, key: string): (r: Result<Int32, DecodeError>)
    ensures r.Ok? <==> key in item && item[key].N? && ParseInt(item[key].n).Some?
    ensures r.Ok? ==> ParseInt(item[key].n) == Some(r.value)
  {
    var v :- GetInt(item, key);
    if v.Some? then Ok(v.value) else Err(MissingAttribute(key))
  }

  /** `string(key)`: `s()!!`. */
  function GetString(item: Item, key: string): (r: Result<string, DecodeError>)
    ensures r.Ok? <==> key in item && item[key].S?
    ensures r.Ok? ==> item[key] == S(r.value)
  {
    if key in item && item[key].S? then Ok(item[key].s) else Err(MissingAttribute(key))
  }

  /** `bool(key)`: `bool()!!`. */
  function GetBool(item: Item, key: string): (r: Result<bool, DecodeError>)
    ensures r.Ok? <==> key in item && item[key].Bool?
    ensures r.Ok? ==> item[key] == Bool(r.value)
  {
    if key in item && item[key].Bool? then Ok(item[key].b) else Err(MissingAttribute(key))
  }

  /** `l()!!` and `m()`: an absent attribute throws; the SDK answers `l()` on a
      non-list value with an empty list and `m()` on a non-map value with an
      empty map. */
  function GetList(item: Item, key: string): (r: Result<seq<AttributeValue>, DecodeError>)
    ensures r.Ok? <==> key in item
    ensures r.Ok? && item[key].L? ==> r.value == item[key].l
  {
    if key !in item then Err(MissingAttribute(key))
    else if item[key].L? then Ok(item[key].l)
    else Ok([])
  }

  function AsMap(v: AttributeValue): Item
  {
    if v.M? then v.m else map[]
  }

  // --------------------------------------------------------------- encoding

  /** A nullable number goes in the map only when it is present. */
  function PutOptional(m: Item, key: string, v: Option<Int32>): Item
  {
    if v.Some? then m[key := N(IntToString(v.value))] else m
  }

  function EncodeRow(pm: ProductMeasurement): Item
  {
    PutOptional(PutOptional(PutOptional(
      map["pi" := N(IntToString(pm.productId)), "pv" := N(IntToString(pm.productVersion))],
      "t", pm.tray), "b", pm.boxes), "l", pm.loose)
  }

  function EncodeRows(rows: seq<ProductMeasurement>): (r: seq<AttributeValue>)
    ensures |r| == |rows|
    ensures forall i :: 0 <= i < |rows| ==> r[i] == M(EncodeRow(rows[i]))
  {
    if rows == [] then [] else [M(EncodeRow(rows[0]))] + EncodeRows(rows[1..])
  }

  /** The item `append` builds for an entity. */
  function EncodeItem(e: Entity): (item: Item)
    ensures "pk" in item && item["pk"] == S(Partition)
    ensures "sk" in item && item["sk"] == S(StreamKey(e.version))
  {
    match e
    case Flavour(id, version, name) =>
      map["pk" := S(Partition), "sk" := S(StreamKey(version)), "t" := S("Flavour"),
          "id" := N(IntToString(id)), "n" := S(name)]
    case Product(id, version, name, flavourId, flavourVersion, boxSize, deprecated) =>
      map["pk" := S(Partition), "sk" := S(StreamKey(version)), "t" := S("Product"),
          "id" := N(IntToString(id)), "n" := S(name),
          "fi" := N(IntToString(flavourId)), "fv" := N(IntToString(flavourVersion)),
          "b" := N(IntToString(boxSize)), "d" := Bool(deprecated)]
    case Measurement(id, version, date, rows) =>
      map["pk" := S(Partition), "sk" := S(StreamKey(version)), "t" := S("Measurement"),
          "id" := N(IntToString(id)), "d" := S(date), "m" := L(EncodeRows(rows))]
  }

  // --------------------------------------------------------------- decoding

  /** A row as `fetchAll` decodes it: every count is dereferenced with `!!`. */
  function DecodeRow(pm: Item): Result<ProductMeasurement, DecodeError>
  {
    var productId :- RequireInt(pm, "pi");
    var productVersion :- RequireInt(pm, "pv");
    var tray :- RequireInt(pm, "t");
    var boxes :- RequireInt(pm, "b");
    var loose :- RequireInt(pm, "l");
    Ok(ProductMeasurement(productId, productVersion, Some(tray), Some(boxes), Some(loose)))
  }

  /** A row decoded as the encoder intends: absent counts stay absent. */
  function DecodeRowFixed(pm: Item): Result<ProductMeasurement, DecodeError>
  {
    var productId :- RequireInt(pm, "pi");
    var productVersion :- RequireInt(pm, "pv");
    var tray :- GetInt(pm, "t");
    var boxes :- GetInt(pm, "b");
    var loose :- GetInt(pm, "l");
    Ok(ProductMeasurement(productId, productVersion, tray, boxes, loose))
  }

  /** The rows of a measurement, decoded in order; the first failure throws. */
  function DecodeRows(values: seq<AttributeValue>): (r: Result<seq<ProductMeasurement>, DecodeError>)
    ensures r.Ok? ==> |r.value| == |values|
  {
    if values == [] then Ok([])
    else
      var first :- DecodeRow(AsMap(values[0]));
      var rest :- DecodeRows(values[1..]);
      Ok([first] + rest)
  }

  /** `drop(1)`. */
  function Drop1(s: string): string
  {
    if |s| == 0 then s else s[1..]
  }

  /** `drop(1).toInt()` on the part of the sort key after the '-'. */
  function ParseVersion(piece: string): (r: Result<Int32, DecodeError>)
    ensures r.Ok? <==> ParseInt(Drop1(piece)).Some?
    ensures r.Ok? ==> ParseInt(Drop1(piece)) == Some(r.value)
  {
    if ParseInt(Drop1(piece)).Some? then Ok(ParseInt(Drop1(piece)).value)
    else Err(NotANumber(Drop1(piece)))
  }

  function DecodeFlavour(item: Item, id: Int32, version: Int32): (r: Result<Entity, DecodeError>)
    ensures r.Ok? ==> r.value.Flavour? && r.value.id == id && r.value.version == version
  {
    var name :- GetString(item, "n");
    Ok(Flavour(id, version, name))
  }

  function DecodeProduct(item: Item, id: Int32, version: Int32): (r: Result<Entity, DecodeError>)
    ensures r.Ok? ==> r.value.Product? && r.value.id == id && r.value.version == version
  {
    var name :- GetString(item, "n");
    var flavourId :- RequireInt(item, "fi");
    var flavourVersion :- RequireInt(item, "fv");
    var boxSize :- RequireInt(item, "b");
    var deprecated :- GetBool(item, "d");
    Ok(Product(id, version, name, flavourId, flavourVersion, boxSize, deprecated))
  }

  function DecodeMeasurement(item: Item, id: Int32, version: Int32): (r: Result<Entity, DecodeError>)
    ensures r.Ok? ==> r.value.Measurement? && r.value.id == id && r.value.version == version
  {
    var date :- GetString(item, "d");
    var values :- GetList(item, "m");
    var rows :- DecodeRows(values);
    Ok(Measurement(id, version, date, rows))
  }

  /** The item decoding in `fetchAll`: the sort key must split on '-' into
      exactly "stream" and the encoded version, then the tag selects the
      variant. */
  function DecodeItem(item: Item): Result<Entity, DecodeError>
  {
    var sk :- GetString(item, "sk");
    var pieces := Split(sk, '-');
    if |pieces| == 2 && pieces[0] == "stream" then
      var id :- RequireInt(item, "id");
      var version :- ParseVersion(pieces[1]);
      var tag :- GetString(item, "t");
      if tag == "Flavour" then DecodeFlavour(item, id, version)
      else if tag == "Product" then DecodeProduct(item, id, version)
      else if tag == "Measurement" then DecodeMeasurement(item, id, version)
      else Err(UnknownType(tag))
    else
      Err(MalformedSortKey(sk))
  }

  // ---------------------------------------------------------------- lemmas

  predicate RowComplete(pm: ProductMeasurement)
  {
    pm.tray.Some? && pm.boxes.Some? && pm.loose.Some?
  }

  /** Every measurement row has all three counts. */
  predicate Complete(e: Entity)
  {
    e.Measurement? ==> AllRowsComplete(e.measurements)
  }

  lemma EncodeRowLookups(pm: ProductMeasurement)
    ensures var m := EncodeRow(pm);
      && m["pi"] == N(IntToString(pm.productId)) && m["pv"] == N(IntToString(pm.productVersion))
      && ("t" in m <==> pm.tray.Some?) && (pm.tray.Some? ==> m["t"] == N(IntToString(pm.tray.value)))
      && ("b" in m <==> pm.boxes.Some?) && (pm.boxes.Some? ==> m["b"] == N(IntToString(pm.boxes.value)))
      && ("l" in m <==> pm.loose.Some?) && (pm.loose.Some? ==> m["l"] == N(IntToString(pm.loose.value)))
  {
  }

  /** As written, a row survives the round trip exactly when all three counts
      are present: the encoder drops a null count and the decoder's `!!` then
      throws. */
  lemma RowRoundTrip(pm: ProductMeasurement)
    ensures DecodeRow(EncodeRow(pm)).Ok? <==> RowComplete(pm)
    ensures RowComplete(pm) ==> DecodeRow(EncodeRow(pm)) == Ok(pm)
  {
    EncodeRowLookups(pm);
    ParseIntRoundTrip(pm.productId);
    ParseIntRoundTrip(pm.productVersion);
    if pm.tray.Some? { ParseIntRoundTrip(pm.tray.value); }
    if pm.boxes.Some? { ParseIntRoundTrip(pm.boxes.value); }
    if pm.loose.Some? { ParseIntRoundTrip(pm.loose.value); }
  }

  /** With absent counts decoded as absent, every row round-trips. */
  lemma RowRoundTripFixed(pm: ProductMeasurement)
    ensures DecodeRowFixed(EncodeRow(pm)) == Ok(pm)
  {
    EncodeRowLookups(pm);
    ParseIntRoundTrip(pm.productId);
    ParseIntRoundTrip(pm.productVersion);
    if pm.tray.Some? { ParseIntRoundTrip(pm.tray.value); }
    if pm.boxes.Some? { ParseIntRoundTrip(pm.boxes.value); }
    if pm.loose.Some? { ParseIntRoundTrip(pm.loose.value); }
  }

  /** The null row of VersionRepositoryTest.measurementMapping_nullMeasurement
      does not come back. */
  lemma NullRowNotRecovered()
    ensures DecodeRow(EncodeRow(ProductMeasurement(5, 6, None, None, None))).Err?
    ensures DecodeRowFixed(EncodeRow(ProductMeasurement(5, 6, None, None, None)))
         == Ok(ProductMeasurement(5, 6, None, None, None))
  {
    RowRoundTrip(ProductMeasurement(5, 6, None, None, None));
    RowRoundTripFixed(ProductMeasurement(5, 6, None, None, None));
  }

  predicate AllRowsComplete(rows: seq<ProductMeasurement>)
  {
    rows == [] || (RowComplete(rows[0]) && AllRowsComplete(rows[1..]))
  }

  /** Decoding a list of rows succeeds exactly when every row decodes. */
  lemma {:induction false} RowsDecode(values: seq<AttributeValue>, rows: seq<ProductMeasurement>)
    requires |values| == |rows|
    requires forall i :: 0 <= i < |rows| ==>
      (DecodeRow(AsMap(values[i])).Ok? <==> RowComplete(rows[i])) &&
      (RowComplete(rows[i]) ==> DecodeRow(AsMap(values[i])) == Ok(rows[i]))
    ensures DecodeRows(values).Ok? <==> AllRowsComplete(rows)
    ensures AllRowsComplete(rows) ==> DecodeRows(values) == Ok(rows)
  {
    if rows != [] {
      assert DecodeRow(AsMap(values[0])).Ok? <==> RowComplete(rows[0]);
      RowsDecode(values[1..], rows[1..]);
      if AllRowsComplete(rows) {
        assert [rows[0]] + rows[1..] == rows;
      }
    }
  }

  lemma RowsRoundTrip(rows: seq<ProductMeasurement>)
    ensures DecodeRows(EncodeRows(rows)).Ok? <==> AllRowsComplete(rows)
    ensures AllRowsComplete(rows) ==> DecodeRows(EncodeRows(rows)) == Ok(rows)
  {
    var values := EncodeRows(rows);
    forall i | 0 <= i < |rows|
      ensures (DecodeRow(AsMap(values[i])).Ok? <==> RowComplete(rows[i]))
      ensures RowComplete(rows[i]) ==> DecodeRow(AsMap(values[i])) == Ok(rows[i])
    {
      RowRoundTrip(rows[i]);
    }
    RowsDecode(values, rows);
  }

  /** The sort key of a non-negative version splits into "stream" and the
      sortable key, whose tail parses back to the version. */
  lemma StreamKeyDecodes(v: Int32)
    requires v >= 0
    ensures Split(StreamKey(v), '-') == ["stream", SortableInt(v)]
    ensures ParseInt(Drop1(SortableInt(v))) == Some(v)
  {
    SortableIntShape(v);
    assert StreamKey(v) == "stream" + ['-'] + SortableInt(v);
    SplitOnce("stream", SortableInt(v), '-');
    SortableIntRoundTrip(v);
  }

  /** A negative version is written under a key with a second '-', so the
      item it produces can never be read back. */
  lemma NegativeVersionKeyMalformed(v: Int32)
    requires v < 0
    ensures |Split(StreamKey(v), '-')| == 3
  {
    var n: nat := -(v as int);
    IntToStringLength(v);
    var c := ('a' as int + |IntToString(v)|) as char;
    assert SortableInt(v) == [c] + ['-'] + Digits(n);
    assert StreamKey(v) == "stream" + ['-'] + [c] + ['-'] + Digits(n);
    assert '-' !in Digits(n) by {
      forall i | 0 <= i < |Digits(n)| ensures Digits(n)[i] != '-' { assert IsDigit(Digits(n)[i]); }
    }
    SplitTwice("stream", [c], Digits(n), '-');
  }

  /** An item whose sort key holds a non-negative version and whose id is a
      number passes the sort-key check and yields that version and id. */
  lemma HeaderDecodes(item: Item, version: Int32, id: Int32)
    requires version >= 0
    requires "sk" in item && item["sk"] == S(StreamKey(version))
    requires "id" in item && item["id"] == N(IntToString(id))
    ensures GetString(item, "sk") == Ok(StreamKey(version))
    ensures Split(StreamKey(version), '-') == ["stream", SortableInt(version)]
    ensures ParseVersion(SortableInt(version)) == Ok(version)
    ensures RequireInt(item, "id") == Ok(id)
  {
    StreamKeyDecodes(version);
    ParseIntRoundTrip(id);
  }

  lemma FlavourItemDecodes(item: Item, e: Entity)
    requires e.Flavour? && e.version >= 0
    requires "sk" in item && item["sk"] == S(StreamKey(e.version))
    requires "id" in item && item["id"] == N(IntToString(e.id))
    requires "t" in item && item["t"] == S("Flavour")
    requires "n" in item && item["n"] == S(e.name)
    ensures DecodeItem(item) == Ok(e)
  {
    HeaderDecodes(item, e.version, e.id);
  }

  lemma ProductBodyDecodes(item: Item, e: Entity)
    requires e.Product?
    requires "n" in item && item["n"] == S(e.name)
    requires "fi" in item && item["fi"] == N(IntToString(e.flavourId))
    requires "fv" in item && item["fv"] == N(IntToString(e.flavourVersion))
    requires "b" in item && item["b"] == N(IntToString(e.boxSize))
    requires "d" in item && item["d"] == Bool(e.deprecated)
    ensures DecodeProduct(item, e.id, e.version) == Ok(e)
  {
    ParseIntRoundTrip(e.flavourId);
    ParseIntRoundTrip(e.flavourVersion);
    ParseIntRoundTrip(e.boxSize);
  }

  lemma ProductItemDecodes(item: Item, e: Entity)
    requires e.Product? && e.version >= 0
    requires "sk" in item && item["sk"] == S(StreamKey(e.version))
    requires "id" in item && item["id"] == N(IntToString(e.id))
    requires "t" in item && item["t"] == S("Product")
    requires DecodeProduct(item, e.id, e.version) == Ok(e)
    ensures DecodeItem(item) == Ok(e)
  {
    HeaderDecodes(item, e.version, e.id);
  }

  lemma MeasurementBodyDecodes(item: Item, e: Entity)
    requires e.Measurement?
    requires "d" in item && item["d"] == S(e.date)
    requires "m" in item && item["m"] == L(EncodeRows(e.measurements))
    ensures DecodeMeasurement(item, e.id, e.version).Ok? <==> AllRowsComplete(e.measurements)
    ensures AllRowsComplete(e.measurements) ==> DecodeMeasurement(item, e.id, e.version) == Ok(e)
  {
    var rows := DecodeRows(EncodeRows(e.measurements));
    assert (rows.Ok? <==> AllRowsComplete(e.measurements)) && (rows.Ok? ==> rows.value == e.measurements) by {
      RowsRoundTrip(e.measurements);
    }
    assert GetString(item, "d") == Ok(e.date);
    assert GetList(item, "m") == Ok(EncodeRows(e.measurements));
  }

  lemma MeasurementItemDecodes(item: Item, e: Entity)
    requires e.Measurement? && e.version >= 0
    requires "sk" in item && item["sk"] == S(StreamKey(e.version))
    requires "id" in item && item["id"] == N(IntToString(e.id))
    requires "t" in item && item["t"] == S("Measurement")
    ensures DecodeItem(item) == DecodeMeasurement(item, e.id, e.version)
  {
    HeaderDecodes(item, e.version, e.id);
  }

  lemma FlavourRoundTrip(e: Entity)
    requires e.Flavour? && e.version >= 0
    ensures DecodeItem(EncodeItem(e)) == Ok(e)
  {
    var item := EncodeItem(e);
    assert "id" in item && item["id"] == N(IntToString(e.id));
    assert "t" in item && item["t"] == S("Flavour") && "n" in item && item["n"] == S(e.name);
    FlavourItemDecodes(item, e);
  }

  lemma ProductRoundTrip(e: Entity)
    requires e.Product? && e.version >= 0
    ensures DecodeItem(EncodeItem(e)) == Ok(e)
  {
    var item := EncodeItem(e);
    assert "id" in item && item["id"] == N(IntToString(e.id));
    assert "t" in item && item["t"] == S("Product") && "n" in item && item["n"] == S(e.name);
    assert "fi" in item && item["fi"] == N(IntToString(e.flavourId));
    assert "fv" in item && item["fv"] == N(IntToString(e.flavourVersion));
    assert "b" in item && item["b"] == N(IntToString(e.boxSize));
    assert "d" in item && item["d"] == Bool(e.deprecated);
    ProductBodyDecodes(item, e);
    ProductItemDecodes(item, e);
  }

  lemma MeasurementRoundTrip(e: Entity)
    requires e.Measurement? && e.version >= 0
    ensures DecodeItem(EncodeItem(e)).Ok? <==> AllRowsComplete(e.measurements)
    ensures AllRowsComplete(e.measurements) ==> DecodeItem(EncodeItem(e)) == Ok(e)
  {
    var item := EncodeItem(e);
    assert "id" in item && item["id"] == N(IntToString(e.id));
    assert "t" in item && item["t"] == S("Measurement") && "d" in item && item["d"] == S(e.date);
    assert "m" in item && item["m"] == L(EncodeRows(e.measurements));
    MeasurementBodyDecodes(item, e);
    MeasurementItemDecodes(item, e);
  }

  /** Decoding the item of an entity with a non-negative version gives the
      entity back exactly when its measurement rows are complete. */
  lemma ItemRoundTrip(e: Entity)
    requires e.version >= 0
    ensures DecodeItem(EncodeItem(e)).Ok? <==> Complete(e)
    ensures Complete(e) ==> DecodeItem(EncodeItem(e)) == Ok(e)
  {
    match e
    case Flavour(_, _, _) => FlavourRoundTrip(e);
    case Product(_, _, _, _, _, _, _) => ProductRoundTrip(e);
    case Measurement(_, _, _, _) => MeasurementRoundTrip(e);
  }

  /** The sort-key and tag checks of `fetchAll`: a missing sort key, one that
      does not split on '-' into "stream" and one more piece, and an unknown
      tag each throw; an item that decodes had a well-formed key and a known
      tag. */
  lemma DecodeItemRejects(item: Item)
    ensures "sk" !in item || !item["sk"].S? ==> DecodeItem(item) == Err(MissingAttribute("sk"))
    ensures "sk" in item && item["sk"].S? ==>
      var pieces := Split(item["sk"].s, '-');
      !(|pieces| == 2 && pieces[0] == "stream") ==> DecodeItem(item) == Err(MalformedSortKey(item["sk"].s))
    ensures DecodeItem(item).Ok? ==>
      && "sk" in item && item["sk"].S?
      && (var pieces := Split(item["sk"].s, '-');
          |pieces| == 2 && pieces[0] == "stream" && ParseInt(Drop1(pieces[1])) == Some(DecodeItem(item).value.version))
      && "t" in item && item["t"].S? && item["t"].s in {"Flavour", "Product", "Measurement"}
  {
  }

  /** An entity with a negative version does not come back. */
  lemma NegativeVersionNotDecoded(e: Entity)
    requires e.version < 0
    ensures DecodeItem(EncodeItem(e)) == Err(MalformedSortKey(StreamKey(e.version)))
  {
    NegativeVersionKeyMalformed(e.version);
  }
}
