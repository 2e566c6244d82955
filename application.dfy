/** The Application of the web client (model.kt): builders that stamp new
    entity versions with the stream's next id and next version and upsert
    them. Its flavours, products and measurements getters are
    Projection.SortedCurrent at the kinds FlavourKind, ProductKind and
    MeasurementKind. */
module Frontend {
  import opened Wrappers
  import opened Projection

  /** One product's count in a new measurement. */
  datatype MeasurementData = MeasurementData(productVersion: ProductVersion, tray: int, boxes: int, loose: int)

  /** measurements.mapIndexed: the k-th row gets id firstId + k, and every
      row carries the measurement's version. */
  function Rows(firstId: int, version: int, data: seq<MeasurementData>): seq<ProductMeasurementVersion>
  {
    seq(|data|, k requires 0 <= k < |data| =>
      ProductMeasurementVersion(firstId + k, version, data[k].productVersion, data[k].tray, data[k].boxes, data[k].loose))
  }

  /** The stream holds no stand-alone row versions: the builders below only
      ever upsert flavours, products and measurements. */
  predicate NoStandaloneRows(s: seq<EntityVersion>)
  {
    forall i :: 0 <= i < |s| ==> !s[i].OfProductMeasurement?
  }

  /** Rows live only inside measurements, so nextId<ProductMeasurementVersion>
      finds none and every measurement numbers its rows from 0. */
  lemma RowIdsStartAtZero(s: seq<EntityVersion>, version: int, data: seq<MeasurementData>)
    requires NoStandaloneRows(s)
    ensures forall k :: 0 <= k < |data| ==> Rows(NextId(s, ProductMeasurementKind), version, data)[k].id == k
  {
    NextIdNone(s, ProductMeasurementKind);
  }

  /** As written, updateFlavour gives the new version the old version's
      VERSION as its id: unless the two coincide, the flavour being renamed
      keeps its current version and the id equal to its version is
      overwritten instead. */
  lemma UpdateFlavourMissesTarget(s: seq<EntityVersion>, flavour: FlavourVersion, name: string, version: int)
    requires flavour.id != flavour.version
    ensures var updated := FlavourVersion(flavour.version, version, name);
            && GetCurrent(s + [OfFlavour(updated)], FlavourKind, flavour.id) == GetCurrent(s, FlavourKind, flavour.id)
            && GetCurrent(s + [OfFlavour(updated)], FlavourKind, flavour.version) == Some(OfFlavour(updated))
  {
    var updated := FlavourVersion(flavour.version, version, name);
    AppendBecomesCurrent(s, OfFlavour(updated), FlavourKind, flavour.id);
    AppendBecomesCurrent(s, OfFlavour(updated), FlavourKind, flavour.version);
  }

  class Application {
    const versionStream: VersionStream

    constructor ()
      ensures fresh(versionStream)
      ensures versionStream.stream == [] && versionStream.nextVersion == 0
      ensures versionStream.listeners == [] && versionStream.notifications == []
    {
      versionStream := new VersionStream();
    }

    /** newFlavour: the next flavour id at the next version; it becomes the
        current version of that id and every listener hears of it. */
    method NewFlavour(name: string) returns (flavour: FlavourVersion)
      modifies versionStream
      ensures flavour == FlavourVersion(NextId(old(versionStream.stream), FlavourKind), old(versionStream.nextVersion), name)
      ensures versionStream.stream == old(versionStream.stream) + [OfFlavour(flavour)]
      ensures GetCurrent(versionStream.stream, FlavourKind, flavour.id) == Some(OfFlavour(flavour))
      ensures versionStream.notifications == old(versionStream.notifications) + Calls(old(versionStream.listeners), OfFlavour(flavour))
      ensures versionStream.listeners == old(versionStream.listeners) && versionStream.nextVersion == old(versionStream.nextVersion)
    {
      flavour := FlavourVersion(NextId(versionStream.stream, FlavourKind), versionStream.nextVersion, name);
      var r := versionStream.Upsert(OfFlavour(flavour));
      AppendBecomesCurrent(old(versionStream.stream), OfFlavour(flavour), FlavourKind, flavour.id);
    }

    /** updateFlavour as written: the new version's id is flavour.version. */
    method UpdateFlavour(flavour: FlavourVersion, name: string) returns (updated: FlavourVersion)
      modifies versionStream
      ensures updated == FlavourVersion(flavour.version, old(versionStream.nextVersion), name)
      ensures versionStream.stream == old(versionStream.stream) + [OfFlavour(updated)]
      ensures flavour.id != flavour.version ==>
                GetCurrent(versionStream.stream, FlavourKind, flavour.id) == GetCurrent(old(versionStream.stream), FlavourKind, flavour.id)
      ensures versionStream.notifications == old(versionStream.notifications) + Calls(old(versionStream.listeners), OfFlavour(updated))
      ensures versionStream.listeners == old(versionStream.listeners) && versionStream.nextVersion == old(versionStream.nextVersion)
    {
      updated := FlavourVersion(flavour.version, versionStream.nextVersion, name);
      var r := versionStream.Upsert(OfFlavour(updated));
      AppendBecomesCurrent(old(versionStream.stream), OfFlavour(updated), FlavourKind, flavour.id);
    }

    /** updateFlavour as evidently intended: the new version keeps the
        flavour's id and becomes its current version. */
    method UpdateFlavourFixed(flavour: FlavourVersion, name: string) returns (updated: FlavourVersion)
      modifies versionStream
      ensures updated == FlavourVersion(flavour.id, old(versionStream.nextVersion), name)
      ensures versionStream.stream == old(versionStream.stream) + [OfFlavour(updated)]
      ensures GetCurrent(versionStream.stream, FlavourKind, flavour.id) == Some(OfFlavour(updated))
      ensures forall id :: id != flavour.id ==>
                GetCurrent(versionStream.stream, FlavourKind, id) == GetCurrent(old(versionStream.stream), FlavourKind, id)
      ensures versionStream.notifications == old(versionStream.notifications) + Calls(old(versionStream.listeners), OfFlavour(updated))
      ensures versionStream.listeners == old(versionStream.listeners) && versionStream.nextVersion == old(versionStream.nextVersion)
    {
      updated := FlavourVersion(flavour.id, versionStream.nextVersion, name);
      var r := versionStream.Upsert(OfFlavour(updated));
      forall id ensures GetCurrent(versionStream.stream, FlavourKind, id)
                        == if id == flavour.id then Some(OfFlavour(updated)) else GetCurrent(old(versionStream.stream), FlavourKind, id) {
        AppendBecomesCurrent(old(versionStream.stream), OfFlavour(updated), FlavourKind, id);
      }
    }

    /** newProduct: the next product id at the next version, of the given
        flavour. */
    method NewProduct(name: string, flavour: FlavourVersion) returns (product: ProductVersion)
      modifies versionStream
      ensures product == ProductVersion(NextId(old(versionStream.stream), ProductKind), old(versionStream.nextVersion), name, flavour)
      ensures versionStream.stream == old(versionStream.stream) + [OfProduct(product)]
      ensures GetCurrent(versionStream.stream, ProductKind, product.id) == Some(OfProduct(product))
      ensures versionStream.notifications == old(versionStream.notifications) + Calls(old(versionStream.listeners), OfProduct(product))
      ensures versionStream.listeners == old(versionStream.listeners) && versionStream.nextVersion == old(versionStream.nextVersion)
    {
      product := ProductVersion(NextId(versionStream.stream, ProductKind), versionStream.nextVersion, name, flavour);
      var r := versionStream.Upsert(OfProduct(product));
      AppendBecomesCurrent(old(versionStream.stream), OfProduct(product), ProductKind, product.id);
    }

    /** updateProduct: a new version of the same product id, which becomes
        its current version while other products keep theirs. */
    method UpdateProduct(productVersion: ProductVersion, name: string, flavour: FlavourVersion) returns (updated: ProductVersion)
      modifies versionStream
      ensures updated == ProductVersion(productVersion.id, old(versionStream.nextVersion), name, flavour)
      ensures versionStream.stream == old(versionStream.stream) + [OfProduct(updated)]
      ensures GetCurrent(versionStream.stream, ProductKind, productVersion.id) == Some(OfProduct(updated))
      ensures forall id :: id != productVersion.id ==>
                GetCurrent(versionStream.stream, ProductKind, id) == GetCurrent(old(versionStream.stream), ProductKind, id)
      ensures versionStream.notifications == old(versionStream.notifications) + Calls(old(versionStream.listeners), OfProduct(updated))
      ensures versionStream.listeners == old(versionStream.listeners) && versionStream.nextVersion == old(versionStream.nextVersion)
    {
      updated := ProductVersion(productVersion.id, versionStream.nextVersion, name, flavour);
      var r := versionStream.Upsert(OfProduct(updated));
      forall id ensures GetCurrent(versionStream.stream, ProductKind, id)
                        == if id == productVersion.id then Some(OfProduct(updated)) else GetCurrent(old(versionStream.stream), ProductKind, id) {
        AppendBecomesCurrent(old(versionStream.stream), OfProduct(updated), ProductKind, id);
      }
    }

    /** newMeasurement: the next measurement id at the next version, whose
        k-th row has id nextId<ProductMeasurementVersion>() + k and the same
        version. */
    method NewMeasurement(date: string, data: seq<MeasurementData>) returns (measurement: MeasurementVersion)
      modifies versionStream
      ensures measurement.id == NextId(old(versionStream.stream), MeasurementKind)
      ensures measurement.version == old(versionStream.nextVersion) && measurement.date == date
      ensures |measurement.measurements| == |data|
      ensures forall k :: 0 <= k < |data| ==>
                var row := measurement.measurements[k];
                && row.id == NextId(old(versionStream.stream), ProductMeasurementKind) + k
                && row.version == measurement.version
                && row.productVersion == data[k].productVersion
                && row.tray == data[k].tray && row.boxes == data[k].boxes && row.loose == data[k].loose
      ensures versionStream.stream == old(versionStream.stream) + [OfMeasurement(measurement)]
      ensures GetCurrent(versionStream.stream, MeasurementKind, measurement.id) == Some(OfMeasurement(measurement))
      ensures versionStream.notifications == old(versionStream.notifications) + Calls(old(versionStream.listeners), OfMeasurement(measurement))
      ensures versionStream.listeners == old(versionStream.listeners) && versionStream.nextVersion == old(versionStream.nextVersion)
    {
      var version := versionStream.nextVersion;
      var prodId := NextId(versionStream.stream, ProductMeasurementKind);
      var rows := Rows(prodId, version, data);
      measurement := MeasurementVersion(NextId(versionStream.stream, MeasurementKind), version, date, rows);
      var r := versionStream.Upsert(OfMeasurement(measurement));
      AppendBecomesCurrent(old(versionStream.stream), OfMeasurement(measurement), MeasurementKind, measurement.id);
    }
  }
}
