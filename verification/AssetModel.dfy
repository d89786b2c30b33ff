/** The asset data transfer object, lib/src/fty_asset_dto.cc. */
module AssetModel {

  /** Row ids of the database. */
  newtype uint32 = x: int | 0 <= x < 0x1_0000_0000

  datatype Option<+T> = None | Some(value: T)

  datatype AssetStatus = Unknown | Active | Nonactive

  /** An extended attribute as a table row keeps it. */
  datatype Attribute = Attribute(value: string, readOnly: bool)

  /** An extended attribute in memory, with its dirty flag. */
  datatype ExtMapElement = ExtMapElement(value: string, readOnly: bool, updated: bool)

  type ExtMap = map<string, ExtMapElement>

  /** The four fields that decide whether two links are equal. */
  datatype AssetLink = AssetLink(source: string, srcOut: string, destIn: string, linkType: int)

  datatype Asset = Asset(
    name: string,
    status: AssetStatus,
    assetType: string,
    subtype: string,
    priority: int,
    parent: string,
    tag: string,
    secondaryId: string,
    linked: seq<AssetLink>,
    ext: ExtMap)

  const EXT_CREATE_TS := "create_ts"
  const EXT_UPDATE_TS := "update_ts"
  const EXT_NAME := "name"
  const TYPE_DEVICE := "device"
  const TYPE_GROUP := "group"
  const TYPE_DATACENTER := "datacenter"
  const RC0 := "rackcontroller-0"

  /** A new element compares its arguments with the defaults "" and false. */
  function NewElement(value: string, readOnly: bool, forceUpdatedFalse: bool): ExtMapElement {
    ExtMapElement(value, readOnly, !forceUpdatedFalse && (value != "" || readOnly))
  }

  /** The map after setExtEntry: an existing element collects its dirty flag,
      and only a new one listens to forceUpdatedFalse. */
  function WithEntry(ext: ExtMap, key: string, value: string, readOnly: bool, forceUpdatedFalse: bool): ExtMap {
    if key in ext then
      var e := ext[key];
      ext[key := ExtMapElement(value, readOnly, e.updated || e.value != value || e.readOnly != readOnly)]
    else
      ext[key := NewElement(value, readOnly, forceUpdatedFalse)]
  }

  /** What stands in a data center, and what only runs there. */
  ghost const PHYSICAL_TYPES: set<string> := {"datacenter", "room", "row", "rack", "group", "device"}
  ghost const VIRTUAL_TYPES: set<string> := {"cluster", "connector", "hypervisor", "infra-service",
    "operating-system", "plan", "planner", "server", "storage-service", "vapp", "virtual-machine"}

  predicate IsVirtual(assetType: string) {
    || assetType == "infra-service" || assetType == "cluster" || assetType == "hypervisor"
    || assetType == "virtual-machine" || assetType == "storage-service"
    || assetType == "vapp" || assetType == "connector"
    || assetType == "server" || assetType == "planner"
    || assetType == "operating-system" || assetType == "plan"
  }

  /** No type is both, and isVirtual knows the virtual ones. */
  lemma TypesAreApart(assetType: string)
    ensures IsVirtual(assetType) <==> assetType in VIRTUAL_TYPES
    ensures assetType in PHYSICAL_TYPES ==> !IsVirtual(assetType)
  {
  }

  ghost predicate DistinctNames(v: seq<Asset>) {
    forall i, j | 0 <= i < j < |v| :: v[i].name != v[j].name
  }
}
