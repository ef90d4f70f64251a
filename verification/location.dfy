/**
  Locations: the filesystem subtrees under management, their retention
  type, their scan state, and the text encodings the durable store uses
  for them.
 */
module Locations {
  import opened Wrappers

  /** Retention policy of a location; `Normal` is the `#[default]` variant. */
  datatype LocationType = Normal | Preferred | Excluded

  /** Scan state of a location, as far as the store's decoder knows it. */
  datatype LocationState = Unscanned | PartialScanned | Scanned

  /**
    A location as the store keeps it. `parentLocationPath` is the longest
    other location that was a proper ancestor when this one was added.
   */
  datatype Location = Location(
    path: string,
    locationType: LocationType,
    locationState: LocationState,
    parentLocationPath: Option<string>)

  /** The `Default` implementation of the location type: also what any unrecognised stored text decodes to. */
  function DefaultType(): (t: LocationType)
    ensures forall s :: s != "preferred" && s != "excluded" ==> DecodeType(s) == t
  {
    Normal
  }

  /** The `Display` text of a location type, which is what the store persists. */
  function TypeToString(t: LocationType): (s: string)
    ensures |s| > 0
    ensures DecodeType(s) == t
    ensures t == Normal ==> s == "normal"
  {
    match t
    case Normal => "normal"
    case Preferred => "preferred"
    case Excluded => "excluded"
  }

  /** Reading a persisted location type back; any unrecognised text falls back to the default. */
  function DecodeType(s: string): (t: LocationType)
    ensures t == Preferred <==> s == "preferred"
    ensures t == Excluded <==> s == "excluded"
    ensures t == Normal <==> s != "preferred" && s != "excluded"
  {
    match s
    case "normal" => Normal
    case "preferred" => Preferred
    case "excluded" => Excluded
    case _ => Normal
  }

  /** Distinct types are persisted as distinct texts. */
  lemma TypeToStringInjective(t: LocationType, u: LocationType)
    requires TypeToString(t) == TypeToString(u)
    ensures t == u
  {
    assert DecodeType(TypeToString(t)) == t;
  }

  /** Reading a persisted location state back; unrecognised text reads as `Unscanned`. */
  function DecodeState(s: string): (st: LocationState)
    ensures st == PartialScanned <==> s == "partial_scanned"
    ensures st == Scanned <==> s == "scanned"
    ensures st == Unscanned <==> s != "partial_scanned" && s != "scanned"
  {
    match s
    case "unscanned" => Unscanned
    case "partial_scanned" => PartialScanned
    case "scanned" => Scanned
    case _ => Unscanned
  }
}
