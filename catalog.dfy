// The static catalog: one Record per downloadable file, the five facet keys
// the filter panel offers (FILTER_KEYS) and the seven sortable table columns.

module Catalog {

  /** Sizes are naturals counted in tenths of a megabyte (sizeMB * 10). */
  type Tenths = nat

  datatype Record = Record(
    id: nat,
    filename: string,
    region: string,
    disk: string,
    band: string,
    molecule: string,
    dataType: string,
    sizeMB: Tenths,
    url: string,
    targetDir: string)

  /** The facet keys, in FILTER_KEYS order. */
  datatype Facet = Region | Disk | Band | Molecule | DataType

  const FilterKeys: seq<Facet> := [Region, Disk, Band, Molecule, DataType]

  lemma FilterKeysComplete(k: Facet)
    ensures k in FilterKeys
  {
  }

  /** record[key] for a facet key. */
  function FacetValue(r: Record, k: Facet): string {
    match k
    case Region => r.region
    case Disk => r.disk
    case Band => r.band
    case Molecule => r.molecule
    case DataType => r.dataType
  }

  /** One set of strings per facet: the shape of state.filters and of
      state.availableOptions. */
  datatype FacetSets = FacetSets(
    region: set<string>,
    disk: set<string>,
    band: set<string>,
    molecule: set<string>,
    dataType: set<string>)
  {
    function Get(k: Facet): set<string> {
      match k
      case Region => region
      case Disk => disk
      case Band => band
      case Molecule => molecule
      case DataType => dataType
    }

    /** The same sets, except that facet k holds s. */
    function With(k: Facet, s: set<string>): (r: FacetSets)
      ensures r.Get(k) == s
      ensures forall j :: j != k ==> r.Get(j) == Get(j)
    {
      match k
      case Region => this.(region := s)
      case Disk => this.(disk := s)
      case Band => this.(band := s)
      case Molecule => this.(molecule := s)
      case DataType => this.(dataType := s)
    }
  }

  const NoFilters: FacetSets := FacetSets({}, {}, {}, {}, {})

  lemma FacetSetsExt(a: FacetSets, b: FacetSets)
    requires forall k :: a.Get(k) == b.Get(k)
    ensures a == b
  {
    assert a.Get(Region) == b.Get(Region) && a.Get(Disk) == b.Get(Disk) && a.Get(Band) == b.Get(Band);
    assert a.Get(Molecule) == b.Get(Molecule) && a.Get(DataType) == b.Get(DataType);
  }

  /** The sortable columns (data-sort attributes of the table header). */
  datatype SortKey = ByFilename | ByRegion | ByDisk | ByBand | ByMolecule | ByDataType | BySize

  /** The catalog the builder emits and the browser indexes by id:
      record i carries id i. */
  predicate IsCatalog(catalog: seq<Record>) {
    forall i :: 0 <= i < |catalog| ==> catalog[i].id == i
  }

  function Ids(rs: seq<Record>): (ids: seq<nat>)
    ensures |ids| == |rs|
    ensures forall i :: 0 <= i < |rs| ==> ids[i] == rs[i].id
  {
    if rs == [] then [] else Ids(rs[..|rs| - 1]) + [rs[|rs| - 1].id]
  }
}
