/** Section 3.5.2 of RFC 7644 for the members of a group, and where the group patch agrees with it. An
    operation on another attribute leaves the members alone. */
module RfcPatch {
  import opened Prelude
  import opened Tables
  import opened Json
  import opened ScimPath
  import MemberPath
  import GroupPatch

  const SCHEMA_PREFIX := "urn:ietf:params:scim:schemas:core:2.0:group:"
  const MEMBERS := "members"

  function TargetOf(path: string): Target {
    TargetIn(path, SCHEMA_PREFIX, MEMBERS)
  }

  // ---------------------------------------------------------------- values

  /** The members named by a list of entries; None for a list to be refused. */
  ghost function ReadItems(items: seq<Json>): Option<set<Id>> {
    if exists i :: 0 <= i < |items| && ReadEntry(items[i]).BadEntry? then None
    else Some(set i | 0 <= i < |items| && ReadEntry(items[i]).Names? :: ReadEntry(items[i]).id)
  }

  /** An operation on members carries a list of entries, or one. */
  ghost function ReadMembers(v: Value): Option<set<Id>> {
    match v
    case Some(JArr(items)) => ReadItems(items)
    case Some(JObj(_)) => ReadItems([v.value])
    case _ => None
  }

  // ---------------------------------------------------------------- meaning of an operation

  datatype Meaning =
    | Adds(ids: set<Id>)
    | Removes(ids: set<Id>)
    | RemovesMatching(filter: string)
    | Becomes(ids: set<Id>)
    | ReplacesMatching(filter: string, ids: set<Id>)
    | NeedsMatch(filter: string)
    | LeavesMembers
    | Refused
    | NotOnMembers

  /** `value` of a member is immutable (section 8.7.1 of RFC 7643); its other sub-attributes are not membership. */
  function PartMeaning(sub: string, otherwise: Meaning): Meaning {
    if SameName(sub, "value") then Refused else otherwise
  }

  function Added(read: Option<set<Id>>): Meaning {
    if read.Some? then Adds(read.value) else Refused
  }

  /** Adding at a selected member, which the section leaves open, is taken to leave the members alone. */
  function AddAt(t: Target, read: Option<set<Id>>): Meaning {
    match t
    case Whole => Added(read)
    case Part(sub) => PartMeaning(sub, LeavesMembers)
    case Selected(_) => LeavesMembers
    case SelectedPart(_, sub) => PartMeaning(sub, LeavesMembers)
    case Elsewhere => NotOnMembers
  }

  /** Without a path the value is an object of attributes. A bare list, which the section does not foresee,
      is taken for members. */
  ghost function AddMeaning(op: PatchOp): Meaning {
    if NoPath(op) then
      match op.value
      case Some(JArr(_)) => Added(ReadMembers(op.value))
      case Some(JObj(_)) => (
        match Find(op.value.value, MEMBERS)
        case NoKey => LeavesMembers
        case OneKey(v) => Added(ReadMembers(Some(v)))
        case ManyKeys => Refused)
      case _ => Refused
    else AddAt(TargetOf(op.path.value), ReadMembers(op.value))
  }

  /** Removing the attribute removes every value. A listed value, which the section does not foresee, is
      taken for the members to remove. */
  function RemoveAt(t: Target, all: bool, read: Option<set<Id>>): Meaning {
    match t
    case Whole => if all then Becomes({}) else if read.Some? then Removes(read.value) else Refused
    case Part(sub) => PartMeaning(sub, LeavesMembers)
    case Selected(f) => RemovesMatching(f)
    case SelectedPart(_, sub) => PartMeaning(sub, LeavesMembers)
    case Elsewhere => NotOnMembers
  }

  ghost function RemoveMeaning(op: PatchOp): Meaning {
    if NoPath(op) then Refused else RemoveAt(TargetOf(op.path.value), Nullish(op.value), ReadMembers(op.value))
  }

  /** `null` unassigns (section 2.5 of RFC 7643). */
  ghost function Replaced(v: Value): Meaning {
    if v == Some(JNull) then Becomes({})
    else if ReadMembers(v).Some? then Becomes(ReadMembers(v).value)
    else Refused
  }

  function ReplaceAt(t: Target, whole: Meaning, read: Option<set<Id>>): Meaning {
    match t
    case Whole => whole
    case Part(sub) => PartMeaning(sub, LeavesMembers)
    case Selected(f) => if read.Some? then ReplacesMatching(f, read.value) else Refused
    case SelectedPart(f, sub) => PartMeaning(sub, NeedsMatch(f))
    case Elsewhere => NotOnMembers
  }

  ghost function ReplaceMeaning(op: PatchOp): Meaning {
    if NoPath(op) then
      match op.value
      case Some(JObj(_)) => (
        match Find(op.value.value, MEMBERS)
        case NoKey => NotOnMembers
        case OneKey(v) => Replaced(Some(v))
        case ManyKeys => Refused)
      case _ => Refused
    else ReplaceAt(TargetOf(op.path.value), Replaced(op.value), ReadMembers(op.value))
  }

  ghost function MeaningOf(op: PatchOp): Meaning {
    if IsOp(op.op, "add") then AddMeaning(op)
    else if IsOp(op.op, "remove") then RemoveMeaning(op)
    else if IsOp(op.op, "replace") then ReplaceMeaning(op)
    else Refused
  }

  /** Which members a filter other than `value eq "id"` selects; it can depend on anything. */
  type Selection = string -> set<Id>

  function Selects(sel: Selection, f: string): set<Id> {
    match ValueFilter(f)
    case Some(id) => {id}
    case None => sel(f)
  }

  /** The membership after one operation; None when it is refused. Replacing selected members needs a
      match. Operations on other attributes are refused when the source refuses them. */
  ghost function RfcStep(sel: Selection, m: set<Id>, op: PatchOp): Option<set<Id>> {
    match MeaningOf(op)
    case Adds(ids) => Some(m + ids)
    case Removes(ids) => Some(m - ids)
    case RemovesMatching(f) => Some(m - Selects(sel, f))
    case Becomes(ids) => Some(ids)
    case ReplacesMatching(f, ids) => if m * Selects(sel, f) == {} then None else Some(m - Selects(sel, f) + ids)
    case NeedsMatch(f) => if m * Selects(sel, f) == {} then None else Some(m)
    case LeavesMembers => Some(m)
    case Refused => None
    case NotOnMembers => if GroupPatch.Own(op).None? then None else Some(m)
  }

  /** The operations in order, all or nothing. */
  ghost function Rfc(sel: Selection, m: set<Id>, ops: seq<PatchOp>): Option<set<Id>>
    decreases |ops|
  {
    if ops == [] then Some(m)
    else match RfcStep(sel, m, ops[0])
      case None => None
      case Some(next) => Rfc(sel, next, ops[1..])
  }

  /** The source does what the section says for this operation alone, whatever the group and the filters. */
  ghost predicate MeansRfc(op: PatchOp) {
    forall m: set<Id>, sel: Selection :: GroupPatch.Batch(m, [op]) == RfcStep(sel, m, op)
  }
}
