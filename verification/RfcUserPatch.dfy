/** Section 3.5.2 of RFC 7644 for the attributes of a user that the server stores, and where the user patch
    agrees with it. */
module RfcUserPatch {
  import opened Prelude
  import opened Tables
  import opened Json
  import opened ScimPath
  import UserPatch

  const USER_SCHEMA := "urn:ietf:params:scim:schemas:core:2.0:user:"

  // ---------------------------------------------------------------- a user as the section sees it

  /** `mails` are the addresses in order. `active` may be unassigned. */
  datatype Profile = Profile(
    active: Option<bool>,
    userName: string,
    externalId: Option<string>,
    givenName: Option<string>,
    familyName: Option<string>,
    mails: seq<string>)

  /** A row shows at most one address, and shows it as the primary one. */
  function Addresses(email: Option<string>): seq<string> {
    if email.Some? && email.value != "" then [email.value] else []
  }

  function ProfileOf(row: User): Profile {
    Profile(Some(row.active), row.userName, row.externalId, row.givenName, row.familyName, Addresses(row.email))
  }

  function Shown(row: Option<User>): Option<Profile> {
    if row.Some? then Some(ProfileOf(row.value)) else None
  }

  // ---------------------------------------------------------------- values

  /** What happens to a single-valued attribute. */
  datatype Edit<+T> = Stays | Becomes(value: T) | Unassigned | Invalid

  /** `null` unassigns (section 2.5 of RFC 7643); a value of another type is invalid. */
  function TextEdit(v: Value): Edit<string> {
    match v
    case Some(JStr(s)) => Becomes(s)
    case Some(JNull) => Unassigned
    case _ => Invalid
  }

  function FlagEdit(v: Value): Edit<bool> {
    match v
    case Some(JBool(b)) => Becomes(b)
    case Some(JNull) => Unassigned
    case _ => Invalid
  }

  ghost function TextIn(v: Json, name: string): Edit<string>
    requires v.JObj?
  {
    match Find(v, name)
    case NoKey => Stays
    case OneKey(x) => TextEdit(Some(x))
    case ManyKeys => Invalid
  }

  ghost function FlagIn(v: Json, name: string): Edit<bool>
    requires v.JObj?
  {
    match Find(v, name)
    case NoKey => Stays
    case OneKey(x) => FlagEdit(Some(x))
    case ManyKeys => Invalid
  }

  /** One part of the value of `name`; parts that are not given stay. */
  ghost function NamePartEdit(name: Value, part: string): Edit<string> {
    match name
    case Some(JObj(_)) => TextIn(name.value, part)
    case Some(JNull) => Unassigned
    case _ => Invalid
  }

  ghost function NamePartIn(v: Json, part: string): Edit<string>
    requires v.JObj?
  {
    match Find(v, "name")
    case NoKey => Stays
    case OneKey(x) => NamePartEdit(Some(x), part)
    case ManyKeys => Invalid
  }

  /** The addresses of a list of entries, in order. */
  ghost function Listed(items: seq<Json>): seq<string> {
    if items == [] then []
    else (if ReadEntry(items[0]).Names? then [ReadEntry(items[0]).id] else []) + Listed(items[1..])
  }

  ghost function ReadList(items: seq<Json>): Option<seq<string>> {
    if exists i :: 0 <= i < |items| && ReadEntry(items[i]).BadEntry? then None else Some(Listed(items))
  }

  /** An operation on emails carries a list of entries, or one. */
  ghost function ReadMails(v: Value): Option<seq<string>> {
    match v
    case Some(JArr(items)) => ReadList(items)
    case Some(JObj(_)) => ReadList([v.value])
    case _ => None
  }

  // ---------------------------------------------------------------- emails

  datatype MailEdit =
    | MailsStay
    | MailsAdd(list: seq<string>)
    | MailsBecome(list: seq<string>)
    | MailsDrop(filter: string)
    | MailsSet(filter: string, list: seq<string>)  // each selected address gives way to the list
    | MailsNeed(filter: string)                    // some address has to be selected
    | MailsInvalid

  function AddedMails(read: Option<seq<string>>): MailEdit {
    if read.Some? then MailsAdd(read.value) else MailsInvalid
  }

  function ReplacedMails(v: Value, read: Option<seq<string>>): MailEdit {
    if v == Some(JNull) then MailsBecome([])
    else if read.Some? then MailsBecome(read.value)
    else MailsInvalid
  }

  /** The address of selected emails. */
  function AddressSet(f: string, v: Value): MailEdit {
    match TextEdit(v)
    case Becomes(s) => MailsSet(f, Addresses(Some(s)))
    case Unassigned => MailsSet(f, [])
    case _ => MailsInvalid
  }

  /** A whole selected email: an entry without an address leaves the address. */
  ghost function EntrySet(f: string, v: Value): MailEdit {
    if v.None? then MailsInvalid
    else match ReadEntry(v.value)
      case Names(s) => MailsSet(f, [s])
      case NamesNobody => MailsNeed(f)
      case BadEntry => MailsInvalid
  }

  /** Adding or replacing with a path. The address of all emails at once is no target. */
  ghost function SetMailsAt(t: Target, whole: MailEdit, v: Value): MailEdit {
    match t
    case Whole => whole
    case Part(sub) => if SameName(sub, "value") then MailsInvalid else MailsStay
    case Selected(f) => EntrySet(f, v)
    case SelectedPart(f, sub) => if SameName(sub, "value") then AddressSet(f, v) else MailsNeed(f)
    case Elsewhere => MailsStay
  }

  function RemoveMailsAt(t: Target): MailEdit {
    match t
    case Whole => MailsBecome([])
    case Part(sub) => if SameName(sub, "value") then MailsInvalid else MailsStay
    case Selected(f) => MailsDrop(f)
    case SelectedPart(f, sub) => if SameName(sub, "value") then MailsDrop(f) else MailsStay
    case Elsewhere => MailsStay
  }

  predicate IsPrimary(f: string) {
    SameName(f, "primary eq true")
  }

  /** Which addresses a filter selects that is neither `primary eq true` nor `value eq "address"`. */
  type Selection = string -> set<string>

  predicate Selects(sel: Selection, f: string, address: string) {
    if IsPrimary(f) then true
    else match ValueFilter(f)
      case Some(a) => address == a
      case None => address in sel(f)
  }

  /** The listed addresses that are not there yet, each once. */
  function NewOnes(mails: seq<string>, list: seq<string>): (r: seq<string>)
    decreases |list|
  {
    if list == [] then []
    else if list[0] in mails then NewOnes(mails, list[1..])
    else [list[0]] + NewOnes(mails + [list[0]], list[1..])
  }

  predicate SomeSelected(sel: Selection, f: string, mails: seq<string>) {
    exists a :: a in mails && Selects(sel, f, a)
  }

  function SetSelected(sel: Selection, f: string, list: seq<string>, mails: seq<string>): seq<string> {
    if mails == [] then []
    else (if Selects(sel, f, mails[0]) then list else [mails[0]]) + SetSelected(sel, f, list, mails[1..])
  }

  /** The addresses after an edit, shown as primary before it; None when it is refused. */
  function MailStep(sel: Selection, mails: seq<string>, e: MailEdit): Option<seq<string>> {
    match e
    case MailsStay => Some(mails)
    case MailsAdd(list) => Some(mails + NewOnes(mails, list))
    case MailsBecome(list) => Some(list)
    case MailsDrop(f) => Some(SetSelected(sel, f, [], mails))
    case MailsSet(f, list) => if SomeSelected(sel, f, mails) then Some(SetSelected(sel, f, list, mails)) else None
    case MailsNeed(f) => if SomeSelected(sel, f, mails) then Some(mails) else None
    case MailsInvalid => None
  }

  // ---------------------------------------------------------------- meaning of an operation

  datatype Edits = Edits(
    active: Edit<bool>,
    userName: Edit<string>,
    externalId: Edit<string>,
    givenName: Edit<string>,
    familyName: Edit<string>,
    mails: MailEdit)

  const NO_EDITS := Edits(Stays, Stays, Stays, Stays, Stays, MailsStay)
  const REFUSED := NO_EDITS.(mails := MailsInvalid)

  /** What a path denotes for each of the stored attributes. */
  datatype Targets = Targets(active: Target, userName: Target, externalId: Target, name: Target, emails: Target)

  const NO_TARGETS := Targets(Elsewhere, Elsewhere, Elsewhere, Elsewhere, Elsewhere)

  function At(path: string, attribute: string): Target {
    TargetIn(path, USER_SCHEMA, attribute)
  }

  function TargetsOf(path: string): Targets {
    Targets(At(path, "active"), At(path, "userName"), At(path, "externalId"), At(path, "name"), At(path, "emails"))
  }

  /** A simple attribute has no parts. */
  function SimpleAt<T>(t: Target, e: Edit<T>): Edit<T> {
    match t
    case Whole => e
    case Elsewhere => Stays
    case _ => Invalid
  }

  function NamePartAt(t: Target, part: string, whole: Edit<string>, e: Edit<string>): Edit<string> {
    match t
    case Whole => whole
    case Part(sub) => if SameName(sub, part) then e else Stays
    case Elsewhere => Stays
    case _ => Invalid
  }

  /** What a path and the edits of its value come to. */
  function EditsAt(t: Targets, text: Edit<string>, flag: Edit<bool>, given: Edit<string>, family: Edit<string>,
                   mails: MailEdit): Edits {
    Edits(SimpleAt(t.active, flag), SimpleAt(t.userName, text), SimpleAt(t.externalId, text),
          NamePartAt(t.name, "givenName", given, text), NamePartAt(t.name, "familyName", family, text), mails)
  }

  ghost function WholeMails(op: PatchOp): MailEdit {
    if IsOp(op.op, "add") then AddedMails(ReadMails(op.value)) else ReplacedMails(op.value, ReadMails(op.value))
  }

  ghost function MailsIn(op: PatchOp): MailEdit
    requires op.value.Some? && op.value.value.JObj?
  {
    match Find(op.value.value, "emails")
    case NoKey => MailsStay
    case OneKey(x) => WholeMails(op.(value := Some(x)))
    case ManyKeys => MailsInvalid
  }

  /** Without a path the value is an object of attributes. */
  ghost function ObjectEdits(op: PatchOp): Edits {
    if op.value.None? || !op.value.value.JObj? then REFUSED
    else
      var v := op.value.value;
      Edits(FlagIn(v, "active"), TextIn(v, "userName"), TextIn(v, "externalId"),
            NamePartIn(v, "givenName"), NamePartIn(v, "familyName"), MailsIn(op))
  }

  ghost function SetEdits(t: Targets, op: PatchOp): Edits {
    var v := op.value;
    EditsAt(t, TextEdit(v), FlagEdit(v), NamePartEdit(v, "givenName"), NamePartEdit(v, "familyName"),
            SetMailsAt(t.emails, WholeMails(op), v))
  }

  function RemoveEdits(t: Targets): Edits {
    EditsAt(t, Unassigned, Unassigned, Unassigned, Unassigned, RemoveMailsAt(t.emails))
  }

  ghost function EditsOf(op: PatchOp): Edits {
    if IsOp(op.op, "add") || IsOp(op.op, "replace") then
      if NoPath(op) then ObjectEdits(op) else SetEdits(TargetsOf(op.path.value), op)
    else if IsOp(op.op, "remove") && !NoPath(op) then RemoveEdits(TargetsOf(op.path.value))
    else REFUSED
  }

  /** An invalid value anywhere, or a user without the required name. */
  predicate Rejected(e: Edits) {
    e.active.Invalid? || e.userName.Invalid? || e.userName.Unassigned? || e.externalId.Invalid?
    || e.givenName.Invalid? || e.familyName.Invalid?
  }

  function Edited<T>(before: Option<T>, e: Edit<T>): Option<T> {
    match e
    case Stays => before
    case Becomes(x) => Some(x)
    case _ => None
  }

  /** The user after one operation; None when it is refused. */
  ghost function RfcStep(sel: Selection, p: Profile, op: PatchOp): Option<Profile> {
    var e := EditsOf(op);
    var mails := MailStep(sel, p.mails, e.mails);
    if Rejected(e) || mails.None? then None
    else Some(Profile(
      Edited(p.active, e.active),
      if e.userName.Becomes? then e.userName.value else p.userName,
      Edited(p.externalId, e.externalId),
      Edited(p.givenName, e.givenName),
      Edited(p.familyName, e.familyName),
      mails.value))
  }

  /** The source does what the section says for this operation alone, on every row that shows an address,
      or on every row that shows none, whatever the filters select. */
  ghost predicate MeansRfc(mail: bool, op: PatchOp) {
    forall row: User, sel: Selection | (Addresses(row.email) != []) == mail ::
      Shown(UserPatch.Batch(row, [op])) == RfcStep(sel, ProfileOf(row), op)
  }

  // ---------------------------------------------------------------- the two readings of one operation

  /** The update that the operation compiles to on its own; None when the source refuses it. */
  function SourceUpdate(op: PatchOp): Option<UserUpdate> {
    match UserPatch.Own(op)
    case None => None
    case Some(f) => UserPatch.ToUpdate(f)
  }

  predicate SameColumn(c: Change<Option<string>>, e: Edit<string>) {
    match e
    case Stays => c.Leave?
    case Becomes(s) => c == Put(Some(s))
    case Unassigned => c == Put(None)
    case Invalid => false
  }

  predicate SamePlain<T(==)>(c: Change<T>, e: Edit<T>) {
    match e
    case Stays => c.Leave?
    case Becomes(x) => c == Put(x)
    case _ => false
  }

  predicate SameColumns(e: Edits, u: UserUpdate) {
    && SamePlain(u.active, e.active)
    && SamePlain(u.userName, e.userName)
    && SameColumn(u.externalId, e.externalId)
    && SameColumn(u.givenName, e.givenName)
    && SameColumn(u.familyName, e.familyName)
  }

  /** What an edit comes to on rows with, or without, an address. */
  datatype Fate = Kept | Fixed(list: seq<string>) | Refused | Varies

  function MailFate(mail: bool, e: MailEdit): Fate {
    match e
    case MailsStay => Kept
    case MailsAdd(list) => if list == [] then Kept else if mail then Varies else Fixed(NewOnes([], list))
    case MailsBecome(list) => Fixed(list)
    case MailsDrop(f) => if !mail then Kept else if IsPrimary(f) then Fixed([]) else Varies
    case MailsSet(f, list) => if !mail then Refused else if IsPrimary(f) then Fixed(list) else Varies
    case MailsNeed(f) => if !mail then Refused else if IsPrimary(f) then Kept else Varies
    case MailsInvalid => Refused
  }

  /** Leaving the address is the same as showing none where none is shown. */
  predicate SameMails(mail: bool, c: Change<Option<string>>, fate: Fate) {
    match fate
    case Kept => c.Leave? || (!mail && Addresses(c.value) == [])
    case Fixed(list) => if c.Leave? then !mail && list == [] else Addresses(c.value) == list
    case _ => false
  }

  /** Column by column the source's update is the section's edit, or both refuse. */
  predicate SameReading(mail: bool, e: Edits, u: Option<UserUpdate>) {
    var fate := MailFate(mail, e.mails);
    if Rejected(e) || fate.Refused? then u.None?
    else
      && u.Some?
      && SameColumns(e, u.value)
      && SameMails(mail, u.value.email, fate)
  }

  lemma SourceStep(row: User, op: PatchOp)
    ensures UserPatch.Batch(row, [op]) == if SourceUpdate(op).Some? then Some(UpdatedUser(row, SourceUpdate(op).value)) else None
  {
    UserPatch.BatchOne(row, op);
  }

  /** On every row of its kind an edit comes to its fate. */
  lemma FateIs(mail: bool, e: MailEdit, sel: Selection, mails: seq<string>)
    requires |mails| == if mail then 1 else 0
    ensures var fate := MailFate(mail, e);
      && (fate.Kept? ==> MailStep(sel, mails, e) == Some(mails))
      && (fate.Fixed? ==> MailStep(sel, mails, e) == Some(fate.list))
      && (fate.Refused? ==> MailStep(sel, mails, e) == None)
  {
    assert mails + [] == mails;
    if mail {
      assert mails == [mails[0]] && mails[1..] == [] && mails[0] in mails;
      assert forall f, list :: IsPrimary(f) ==> SetSelected(sel, f, list, mails) == list + [] == list;
    } else {
      assert forall list: seq<string> :: mails + list == list;
    }
  }

  lemma SameReadingMeansRfc(mail: bool, op: PatchOp)
    requires SameReading(mail, EditsOf(op), SourceUpdate(op))
    ensures MeansRfc(mail, op)
  {
    var e := EditsOf(op);
    forall row: User, sel: Selection | (Addresses(row.email) != []) == mail
      ensures Shown(UserPatch.Batch(row, [op])) == RfcStep(sel, ProfileOf(row), op)
    {
      SourceStep(row, op);
      FateIs(mail, e.mails, sel, Addresses(row.email));
    }
  }

  // ---------------------------------------------------------------- a row on which different readings show

  /** A row of the right kind on which the two sides differ. */
  ghost predicate Differ(mail: bool, row: User, sel: Selection, op: PatchOp) {
    (Addresses(row.email) != []) == mail && Shown(UserPatch.Batch(row, [op])) != RfcStep(sel, ProfileOf(row), op)
  }

  const PLAIN_ROW := User("", None, None, None, None, false, None)

  function RowWith(mail: bool, address: string): User {
    PLAIN_ROW.(email := if mail then Some(address) else None)
  }

  lemma SelectedOne(f: string) returns (a: string, sel: Selection)
    ensures a != "" && Selects(sel, f, a)
  {
    a := if ValueFilter(f).Some? then ValueFilter(f).value else "a";
    sel := _ => {"a"};
  }

  lemma UnselectedOne(f: string, avoid: set<string>) returns (a: string, sel: Selection)
    requires !IsPrimary(f)
    ensures a != "" && a !in avoid && !Selects(sel, f, a)
  {
    a := FreshString(avoid + {""} + if ValueFilter(f).Some? then {ValueFilter(f).value} else {});
    sel := _ => {};
  }

  /** When only one side refuses. */
  lemma RefusalShows(mail: bool, op: PatchOp) returns (row: User, sel: Selection)
    requires var e := EditsOf(op); Rejected(e) || MailFate(mail, e.mails).Refused? <==> SourceUpdate(op).Some?
    ensures Differ(mail, row, sel, op)
  {
    var e := EditsOf(op).mails;
    sel := _ => {};
    row := RowWith(mail, "a");
    if MailFate(mail, e).Varies? && (e.MailsSet? || e.MailsNeed?) {
      var a;
      a, sel := SelectedOne(e.filter);
      row := RowWith(mail, a);
      assert a in Addresses(row.email);
    }
    SourceStep(row, op);
    FateIs(mail, e, sel, Addresses(row.email));
  }

  lemma ColumnShows(c: Change<Option<string>>, e: Edit<string>) returns (before: Option<string>)
    requires !SameColumn(c, e) && !e.Invalid?
    ensures Updated(before, c) != Edited(before, e)
  {
    var empty: Option<string> := None;
    before := if Updated(empty, c) != Edited(empty, e) then None else Some("");
  }

  lemma FlagShows(c: Change<bool>, e: Edit<bool>) returns (before: bool)
    requires !SamePlain(c, e) && !e.Invalid?
    ensures Some(Updated(before, c)) != Edited(Some(before), e)
  {
    before := if Some(Updated(true, c)) != Edited(Some(true), e) then true else false;
  }

  lemma NameShows(c: Change<string>, e: Edit<string>) returns (before: string)
    requires !SamePlain(c, e) && !e.Invalid?
    ensures Some(Updated(before, c)) != Edited(Some(before), e)
  {
    before := if Some(Updated("", c)) != Edited(Some(""), e) then "" else "a";
  }

  /** When the source carries the operation out and a single-valued column differs. */
  lemma ColumnsShow(mail: bool, op: PatchOp) returns (row: User, sel: Selection)
    requires SourceUpdate(op).Some? && !Rejected(EditsOf(op)) && !SameColumns(EditsOf(op), SourceUpdate(op).value)
    ensures Differ(mail, row, sel, op)
  {
    var e, u := EditsOf(op), SourceUpdate(op).value;
    sel := _ => {};
    row := RowWith(mail, "a");
    if !SamePlain(u.active, e.active) {
      var before := FlagShows(u.active, e.active);
      row := row.(active := before);
    } else if !SamePlain(u.userName, e.userName) {
      var before := NameShows(u.userName, e.userName);
      row := row.(userName := before);
    } else if !SameColumn(u.externalId, e.externalId) {
      var before := ColumnShows(u.externalId, e.externalId);
      row := row.(externalId := before);
    } else if !SameColumn(u.givenName, e.givenName) {
      var before := ColumnShows(u.givenName, e.givenName);
      row := row.(givenName := before);
    } else {
      var before := ColumnShows(u.familyName, e.familyName);
      row := row.(familyName := before);
    }
    SourceStep(row, op);
  }

  /** The addresses after the source's change. */
  function Mailed(mails: seq<string>, c: Change<Option<string>>): seq<string> {
    if c.Leave? then mails else Addresses(c.value)
  }

  /** An address of the row on which the mails differ. */
  lemma MailsShow(mail: bool, c: Change<Option<string>>, e: MailEdit) returns (address: string, sel: Selection)
    requires !SameMails(mail, c, MailFate(mail, e)) && !MailFate(mail, e).Refused?
    ensures mail ==> address != ""
    ensures var mails := if mail then [address] else []; MailStep(sel, mails, e) != Some(Mailed(mails, c))
  {
    var put: set<string> := if c.Put? && c.value.Some? then {c.value.value} else {};
    sel := _ => {};
    address := FreshString(put + {""} + if MailFate(mail, e).Fixed? then set x | x in MailFate(mail, e).list else {});
    if mail && MailFate(mail, e).Varies? {
      match e {
        case MailsAdd(list) =>
          address := FreshString(put + {""} + set x | x in list);
          NewOneSomewhere(address, list);
        case MailsDrop(f) =>
          if c.Leave? { address, sel := SelectedOne(f); } else { address, sel := UnselectedOne(f, put); }
        case MailsSet(f, _) => address, sel := UnselectedOne(f, {});
        case MailsNeed(f) => address, sel := UnselectedOne(f, {});
      }
    }
    FateIs(mail, e, sel, if mail then [address] else []);
    OneMail(sel, address, e);
  }

  /** What an edit does to a single address. */
  lemma OneMail(sel: Selection, a: string, e: MailEdit)
    ensures e.MailsAdd? ==> |MailStep(sel, [a], e).value| == 1 + |NewOnes([a], e.list)|
    ensures e.MailsDrop? ==> MailStep(sel, [a], e) == Some(if Selects(sel, e.filter, a) then [] else [a])
    ensures e.MailsSet? || e.MailsNeed? ==> (MailStep(sel, [a], e).Some? <==> Selects(sel, e.filter, a))
  {
    assert [a][1..] == [] && a in [a];
    if e.MailsDrop? {
      var kept := if Selects(sel, e.filter, a) then [] else [a];
      assert SetSelected(sel, e.filter, [], [a]) == kept + SetSelected(sel, e.filter, [], []) == kept;
    }
  }

  lemma NewOneSomewhere(address: string, list: seq<string>)
    requires list != [] && address !in list
    ensures NewOnes([address], list) != []
  {
  }

  lemma MailsTell(mail: bool, op: PatchOp) returns (row: User, sel: Selection)
    requires var e := EditsOf(op);
             SourceUpdate(op).Some? && !MailFate(mail, e.mails).Refused?
             && !SameMails(mail, SourceUpdate(op).value.email, MailFate(mail, e.mails))
    ensures Differ(mail, row, sel, op)
  {
    var address;
    address, sel := MailsShow(mail, SourceUpdate(op).value.email, EditsOf(op).mails);
    row := RowWith(mail, address);
    SourceStep(row, op);
    assert Addresses(row.email) == if mail then [address] else [];
  }

  lemma DifferentReadingShows(mail: bool, op: PatchOp) returns (row: User, sel: Selection)
    requires !SameReading(mail, EditsOf(op), SourceUpdate(op))
    ensures Differ(mail, row, sel, op)
  {
    var e, u := EditsOf(op), SourceUpdate(op);
    if Rejected(e) || MailFate(mail, e.mails).Refused? || u.None? {
      row, sel := RefusalShows(mail, op);
    } else if !SameColumns(e, u.value) {
      row, sel := ColumnsShow(mail, op);
    } else {
      row, sel := MailsTell(mail, op);
    }
  }

  /** For every operation: on all rows of a kind, and whatever the filters select, the source does what the
      section says if and only if the two read the operation alike. */
  lemma MeansRfcIsSameReading(mail: bool, op: PatchOp)
    ensures MeansRfc(mail, op) <==> SameReading(mail, EditsOf(op), SourceUpdate(op))
  {
    if SameReading(mail, EditsOf(op), SourceUpdate(op)) {
      SameReadingMeansRfc(mail, op);
    } else {
      var row, sel := DifferentReadingShows(mail, op);
      assert Differ(mail, row, sel, op);
    }
  }

  // ---------------------------------------------------------------- the forms the source supports

  const NO_UPDATE := UserUpdate(Leave, Leave, Leave, Leave, Leave, Leave, Leave)

  /** The section leaves everything that is stored, on rows of the kind. */
  predicate MeansNothing(mail: bool, e: Edits) {
    && e.active.Stays? && e.userName.Stays? && e.externalId.Stays? && e.givenName.Stays? && e.familyName.Stays?
    && (MailFate(mail, e.mails).Kept? || (!mail && MailFate(mail, e.mails) == Fixed([])))
  }

  predicate IsText(v: Value) {
    v.Some? && v.value.JStr?
  }

  /** Emails that name nobody are added, or replace nobody. */
  ghost predicate LeavesMails(mail: bool, add: bool, v: Value) {
    if add then ReadMails(v) == Some([]) else !mail && (v == Some(JNull) || ReadMails(v) == Some([]))
  }

  /** The list comes to the one address that the source stores. It is added where none is shown. */
  predicate OneAddress(mail: bool, add: bool, read: Option<seq<string>>, stored: Option<string>) {
    read.Some? && !(mail && add) && (if add then NewOnes([], read.value) else read.value) == Addresses(stored)
  }

  predicate Filled(v: Value) {
    v.Some? && v.value.JArr? && v.value.items != []
  }

  /** The path `emails`. The source stores the first entry's address as text. */
  ghost predicate MailPathSupported(mail: bool, add: bool, v: Value) {
    if Filled(v) then
      match UserPatch.PathEmail(v)
      case None => ReadMails(v).None?
      case Some(s) => s.Defined? && s.value.JStr? && OneAddress(mail, add, ReadMails(v), Some(s.value.s))
    else !IsText(v) && LeavesMails(mail, add, v)
  }

  /** The paths the source knows, to the letter. */
  datatype KnownPath =
    | ActivePath | UserNamePath | ExternalIdPath | GivenNamePath | FamilyNamePath | EmailsPath | PrimaryPath | OtherPath

  function Known(path: string): KnownPath {
    if path == "active" then ActivePath
    else if path == "userName" then UserNamePath
    else if path == "externalId" then ExternalIdPath
    else if path == "name.givenName" then GivenNamePath
    else if path == "name.familyName" then FamilyNamePath
    else if path == "emails" then EmailsPath
    else if path == "emails[primary eq true].value" then PrimaryPath
    else OtherPath
  }

  ghost predicate PathSupported(mail: bool, k: KnownPath, op: PatchOp) {
    match k
    case ActivePath => op.value.Some? && op.value.value.JBool?
    case EmailsPath => MailPathSupported(mail, IsOp(op.op, "add"), op.value)
    case PrimaryPath => (mail && IsText(op.value)) || UserPatch.PathEmail(op.value).None?
    case OtherPath => MeansNothing(mail, EditsOf(op))
    case _ => IsText(op.value) || Text(op.value).None?
  }

  /** Under no key, or in these letters and with a value of the attribute's type. */
  ghost predicate KeySupported(v: Json, key: string, flag: bool)
    requires v.JObj?
  {
    Find(v, key).NoKey? || (key in v.fields && if flag then v.fields[key].JBool? else v.fields[key].JStr?)
  }

  ghost predicate NameSupported(v: Json, part: string)
    requires v.JObj?
  {
    match Find(v, "name")
    case NoKey => true
    case OneKey(name) =>
      && name.JObj?
      && (Find(name, part).NoKey?
          || ("name" in v.fields && part in name.fields && (name.fields[part].JStr? || name.fields[part].JNull?)))
    case ManyKeys => false
  }

  ghost predicate MailKeySupported(mail: bool, add: bool, v: Json)
    requires v.JObj?
  {
    match Find(v, "emails")
    case NoKey => true
    case OneKey(x) =>
      if "emails" in v.fields && Filled(Some(x)) && UserPatch.ObjectEmail(v).Some? && UserPatch.ObjectEmail(v).value.Defined?
      then
        match UserPatch.ObjectEmail(v).value.value
        case JStr(s) => OneAddress(mail, add, ReadMails(Some(x)), Some(s))
        case _ => OneAddress(mail, add, ReadMails(Some(x)), None)
      else LeavesMails(mail, add, Some(x))
    case ManyKeys => false
  }

  /** An object the source refuses, or one in which every stored attribute is spelled as the source does
      and has a value it reads as the section does. */
  ghost predicate ObjectSupported(mail: bool, op: PatchOp) {
    && op.value.Some? && op.value.value.JObj?
    && (SourceUpdate(op).None?
        || (var v := op.value.value;
            && KeySupported(v, "active", true)
            && KeySupported(v, "userName", false)
            && KeySupported(v, "externalId", false)
            && NameSupported(v, "givenName")
            && NameSupported(v, "familyName")
            && MailKeySupported(mail, IsOp(op.op, "add"), v)))
  }

  /** The forms on which the source follows the section, for rows that show an address and for rows that
      show none. */
  ghost predicate Supported(mail: bool, op: PatchOp) {
    if !IsOp(op.op, "add") && !IsOp(op.op, "replace") then MeansNothing(mail, EditsOf(op))
    else if NoPath(op) then ObjectSupported(mail, op)
    else PathSupported(mail, Known(op.path.value), op)
  }

  lemma NoUpdateAgrees(mail: bool, e: Edits)
    ensures SameReading(mail, e, Some(NO_UPDATE)) <==> MeansNothing(mail, e)
  {
  }

  // ---------------------------------------------------------------- emails

  lemma NewOnesOfSome(list: seq<string>)
    ensures NewOnes([], list) == [] <==> list == []
  {
  }

  lemma LeftMails(mail: bool, add: bool, v: Value)
    ensures var e := if add then AddedMails(ReadMails(v)) else ReplacedMails(v, ReadMails(v));
            SameMails(mail, Leave, MailFate(mail, e)) <==> LeavesMails(mail, add, v)
  {
    if ReadMails(v).Some? { NewOnesOfSome(ReadMails(v).value); }
  }

  lemma PutMails(mail: bool, add: bool, v: Value, stored: Option<string>)
    requires v != Some(JNull)
    ensures var e := if add then AddedMails(ReadMails(v)) else ReplacedMails(v, ReadMails(v));
            SameMails(mail, Put(stored), MailFate(mail, e)) <==> OneAddress(mail, add, ReadMails(v), stored)
  {
    if ReadMails(v).Some? { NewOnesOfSome(ReadMails(v).value); }
  }

  // ---------------------------------------------------------------- paths

  lemma NotAt(path: string, attribute: string)
    requires 2 <= |path| < |USER_SCHEMA| && |attribute| >= 2
    requires Lower(path[0]) != Lower(attribute[0]) || Lower(path[1]) != Lower(attribute[1])
    ensures At(path, attribute) == Elsewhere
  {
    assert PrefixLength(path, USER_SCHEMA) == 0 && path[0..] == path;
    if |attribute| <= |path| {
      assert path[..|attribute|][0] == path[0] && path[..|attribute|][1] == path[1];
    }
  }

  lemma IsAt(path: string, attribute: string, rest: string)
    requires path == attribute + rest && |path| < |USER_SCHEMA|
    ensures At(path, attribute) == SuffixTarget(rest)
  {
    assert PrefixLength(path, USER_SCHEMA) == 0 && path[0..] == path;
    assert path[..|attribute|] == attribute && path[|attribute|..] == rest;
  }

  /** A short path that begins like none of the other attributes. */
  lemma OnlyAt(path: string, attribute: string)
    requires 2 <= |path| < |USER_SCHEMA|
    requires attribute in {"active", "userName", "externalId", "name", "emails"}
    requires path[0] == attribute[0] && path[1] == attribute[1]
    ensures forall other :: other in {"active", "userName", "externalId", "name", "emails"} && other != attribute ==>
              At(path, other) == Elsewhere
  {
    forall other | other in {"active", "userName", "externalId", "name", "emails"} && other != attribute
      ensures At(path, other) == Elsewhere
    {
      NotAt(path, other);
    }
  }

  /** An operation that sets, with a path. */
  predicate Sets(op: PatchOp) {
    (IsOp(op.op, "add") || IsOp(op.op, "replace")) && !NoPath(op)
  }

  ghost predicate FormAgrees(mail: bool, op: PatchOp) {
    Supported(mail, op) <==> SameReading(mail, EditsOf(op), SourceUpdate(op))
  }

  /** The update a known path compiles to. */
  function ChangeAt(k: KnownPath, v: Value): Option<UserUpdate> {
    if k.OtherPath? then Some(NO_UPDATE)
    else if k.ActivePath? then Some(NO_UPDATE.(active := Put(Truthy(v))))
    else if k.EmailsPath? || k.PrimaryPath? then
      match UserPatch.PathEmail(v)
      case None => None
      case Some(s) => Some(if s.Defined? && s.value.JStr? then NO_UPDATE.(email := Put(Some(s.value.s))) else NO_UPDATE)
    else match Text(v)
      case None => None
      case Some(t) => Some(
        match k
        case UserNamePath => NO_UPDATE.(userName := Put(t))
        case ExternalIdPath => NO_UPDATE.(externalId := Put(Some(t)))
        case GivenNamePath => NO_UPDATE.(givenName := Put(Some(t)))
        case _ => NO_UPDATE.(familyName := Put(Some(t))))
  }

  lemma SourceAt(op: PatchOp)
    requires Sets(op)
    ensures SourceUpdate(op) == ChangeAt(Known(op.path.value), op.value)
  {
  }

  function TargetsAt(k: KnownPath): Targets {
    match k
    case ActivePath => NO_TARGETS.(active := Whole)
    case UserNamePath => NO_TARGETS.(userName := Whole)
    case ExternalIdPath => NO_TARGETS.(externalId := Whole)
    case GivenNamePath => NO_TARGETS.(name := Part("givenName"))
    case FamilyNamePath => NO_TARGETS.(name := Part("familyName"))
    case EmailsPath => NO_TARGETS.(emails := Whole)
    case PrimaryPath => NO_TARGETS.(emails := SelectedPart("primary eq true", "value"))
    case OtherPath => NO_TARGETS
  }

  lemma ActiveTargets(path: string)
    requires path == "active"
    ensures TargetsOf(path) == TargetsAt(ActivePath)
  {
    OnlyAt(path, "active");
    IsAt(path, "active", "");
  }

  lemma UserNameTargets(path: string)
    requires path == "userName"
    ensures TargetsOf(path) == TargetsAt(UserNamePath)
  {
    OnlyAt(path, "userName");
    IsAt(path, "userName", "");
  }

  lemma ExternalIdTargets(path: string)
    requires path == "externalId"
    ensures TargetsOf(path) == TargetsAt(ExternalIdPath)
  {
    OnlyAt(path, "externalId");
    IsAt(path, "externalId", "");
  }

  lemma EmailsTargets(path: string)
    requires path == "emails"
    ensures TargetsOf(path) == TargetsAt(EmailsPath)
  {
    OnlyAt(path, "emails");
    IsAt(path, "emails", "");
  }

  /** A part of the name. */
  lemma NameTargets(sub: string)
    requires IsName(sub) && |sub| < 20
    ensures TargetsOf("name." + sub) == NO_TARGETS.(name := Part(sub))
  {
    var path, rest := "name." + sub, "." + sub;
    assert path == "name" + rest && rest[1..] == sub;
    OnlyAt(path, "name");
    IsAt(path, "name", rest);
  }

  /** A part of selected emails. */
  lemma MailTargets(f: string, sub: string)
    requires IsName(sub) && |f| + |sub| < 30
    ensures TargetsOf("emails[" + f + "]." + sub) == NO_TARGETS.(emails := SelectedPart(f, sub))
  {
    var path, more := "emails[" + f + "]." + sub, "." + sub;
    var rest := "[" + f + "]" + more;
    assert path == "emails" + rest && more[1..] == sub;
    forall c | c in more ensures c != ']' {
      if c != '.' { assert c in sub; }
    }
    OnlyAt(path, "emails");
    IsAt(path, "emails", rest);
    SelectedSuffix(rest, f, more);
  }

  lemma GivenNameTargets(path: string)
    requires path == "name.givenName"
    ensures TargetsOf(path) == TargetsAt(GivenNamePath)
  {
    assert path == "name." + path[5..] && path[5..] == "givenName";
    NameTargets(path[5..]);
  }

  lemma FamilyNameTargets(path: string)
    requires path == "name.familyName"
    ensures TargetsOf(path) == TargetsAt(FamilyNamePath)
  {
    assert path == "name." + path[5..] && path[5..] == "familyName";
    NameTargets(path[5..]);
  }

  lemma PrimaryPieces(path: string, f: string, sub: string)
    requires path == "emails[primary eq true].value" && f == "primary eq true" && sub == "value"
    ensures path == "emails[" + f + "]." + sub
  {
  }

  lemma PrimaryTargets(path: string, f: string, sub: string)
    requires path == "emails[primary eq true].value" && f == "primary eq true" && sub == "value"
    ensures TargetsOf(path) == NO_TARGETS.(emails := SelectedPart(f, sub))
  {
    PrimaryPieces(path, f, sub);
    MailTargets(f, sub);
  }

  lemma TargetsKnown(path: string)
    requires !Known(path).OtherPath?
    ensures TargetsOf(path) == TargetsAt(Known(path))
  {
    match Known(path) {
      case ActivePath => ActiveTargets(path);
      case UserNamePath => UserNameTargets(path);
      case ExternalIdPath => ExternalIdTargets(path);
      case GivenNamePath => GivenNameTargets(path);
      case FamilyNamePath => FamilyNameTargets(path);
      case EmailsPath => EmailsTargets(path);
      case PrimaryPath => PrimaryTargets(path, "primary eq true", "value");
    }
  }

  // ---------------------------------------------------------------- the supported forms read the same

  lemma NamePartsDiffer()
    ensures !SameName("givenName", "familyName") && !SameName("familyName", "givenName")
  {
  }

  lemma TextPathAgrees(mail: bool, k: KnownPath, op: PatchOp)
    requires k.ActivePath? || k.UserNamePath? || k.ExternalIdPath? || k.GivenNamePath? || k.FamilyNamePath?
    ensures PathSupported(mail, k, op) <==> SameReading(mail, SetEdits(TargetsAt(k), op), ChangeAt(k, op.value))
  {
    NamePartsDiffer();
  }

  lemma EmailsPathAgrees(mail: bool, op: PatchOp)
    ensures PathSupported(mail, EmailsPath, op) <==> SameReading(mail, SetEdits(TargetsAt(EmailsPath), op), ChangeAt(EmailsPath, op.value))
  {
    var add := IsOp(op.op, "add");
    LeftMails(mail, add, op.value);
    var s := UserPatch.PathEmail(op.value);
    if Filled(op.value) && s.Some? {
      PutMails(mail, add, op.value, Some(s.value.value.s));
    }
  }

  lemma PrimaryPathAgrees(mail: bool, op: PatchOp)
    ensures PathSupported(mail, PrimaryPath, op)
            <==> SameReading(mail, SetEdits(TargetsAt(PrimaryPath), op), ChangeAt(PrimaryPath, op.value))
  {
  }

  lemma SetsAgree(mail: bool, op: PatchOp)
    requires Sets(op)
    ensures FormAgrees(mail, op)
  {
    var k := Known(op.path.value);
    SourceAt(op);
    match k {
      case OtherPath => NoUpdateAgrees(mail, EditsOf(op));
      case EmailsPath => TargetsKnown(op.path.value); EmailsPathAgrees(mail, op);
      case PrimaryPath => TargetsKnown(op.path.value); PrimaryPathAgrees(mail, op);
      case _ => TargetsKnown(op.path.value); TextPathAgrees(mail, k, op);
    }
  }

  // ---------------------------------------------------------------- objects

  predicate SetsObject(op: PatchOp) {
    (IsOp(op.op, "add") || IsOp(op.op, "replace")) && NoPath(op) && op.value.Some? && op.value.value.JObj?
  }

  function FlagChange(p: Value): Change<bool> {
    if p.Some? then Put(Truthy(p)) else Leave
  }

  function TextPut(p: Value): Option<Change<string>> {
    if p.None? then Some(Leave)
    else match Text(p)
      case None => None
      case Some(t) => Some(Put(t))
  }

  function Nullable(c: Change<string>): Change<Option<string>> {
    if c.Put? then Put(Some(c.value)) else Leave
  }

  /** The update an object compiles to, column by column. */
  function ObjectChange(v: Json): Option<UserUpdate> {
    var name, ext, email := TextPut(Property(v, "userName")), TextPut(Property(v, "externalId")), UserPatch.ObjectEmail(v);
    if name.None? || ext.None? || email.None? then None
    else
      var given := UserPatch.TextChange(UserPatch.NamePart(v, "givenName"));
      var family := UserPatch.TextChange(UserPatch.NamePart(v, "familyName"));
      var mail := UserPatch.TextChange(email.value);
      if given.None? || family.None? || mail.None? then None
      else Some(UserUpdate(name.value, Nullable(ext.value), given.value, family.value, mail.value,
                           FlagChange(Property(v, "active")), Leave))
  }

  lemma SourceOfObject(op: PatchOp)
    requires SetsObject(op)
    ensures SourceUpdate(op) == ObjectChange(op.value.value)
  {
  }

  /** An object the source refuses is refused by the section. */
  lemma ObjectRefused(op: PatchOp)
    requires SetsObject(op) && ObjectChange(op.value.value).None?
    ensures Rejected(EditsOf(op)) || EditsOf(op).mails.MailsInvalid?
  {
    var v := op.value.value;
    var emails := Property(v, "emails");
    if Filled(emails) && (emails.value.items[0].JNull? || UserPatch.TextChange(UserPatch.FromValue(Property(emails.value.items[0], "value"))).None?) {
      assert ReadEntry(emails.value.items[0]).BadEntry?;
      assert ReadMails(emails).None?;
    }
  }

  lemma FlagKeyAgrees(v: Json)
    requires v.JObj?
    ensures SamePlain(FlagChange(Property(v, "active")), FlagIn(v, "active")) <==> KeySupported(v, "active", true)
  {
  }

  lemma TextKeyAgrees(v: Json, key: string)
    requires v.JObj? && TextPut(Property(v, key)).Some?
    ensures SamePlain(TextPut(Property(v, key)).value, TextIn(v, key)) <==> KeySupported(v, key, false)
    ensures SameColumn(Nullable(TextPut(Property(v, key)).value), TextIn(v, key)) <==> KeySupported(v, key, false)
  {
  }

  lemma NameKeyAgrees(v: Json, part: string)
    requires v.JObj? && UserPatch.TextChange(UserPatch.NamePart(v, part)).Some?
    ensures SameColumn(UserPatch.TextChange(UserPatch.NamePart(v, part)).value, NamePartIn(v, part)) <==> NameSupported(v, part)
  {
  }

  lemma MailKeyAgrees(mail: bool, op: PatchOp)
    requires SetsObject(op) && ObjectChange(op.value.value).Some?
    ensures SameMails(mail, ObjectChange(op.value.value).value.email, MailFate(mail, MailsIn(op)))
            <==> MailKeySupported(mail, IsOp(op.op, "add"), op.value.value)
  {
    var v, add := op.value.value, IsOp(op.op, "add");
    match Find(v, "emails") {
      case NoKey =>
      case ManyKeys =>
      case OneKey(x) =>
        LeftMails(mail, add, Some(x));
        var c := ObjectChange(v).value.email;
        if c.Put? { PutMails(mail, add, Some(x), c.value); }
    }
  }

  lemma ObjectAgrees(mail: bool, op: PatchOp)
    requires SetsObject(op)
    ensures FormAgrees(mail, op)
  {
    var v := op.value.value;
    SourceOfObject(op);
    if ObjectChange(v).None? {
      ObjectRefused(op);
    } else {
      FlagKeyAgrees(v);
      TextKeyAgrees(v, "userName");
      TextKeyAgrees(v, "externalId");
      NameKeyAgrees(v, "givenName");
      NameKeyAgrees(v, "familyName");
      MailKeyAgrees(mail, op);
    }
  }

  lemma NoEffectAgrees(mail: bool, op: PatchOp)
    requires !Sets(op) && !SetsObject(op)
    ensures FormAgrees(mail, op)
  {
    assert SourceUpdate(op) == Some(NO_UPDATE);
    NoUpdateAgrees(mail, EditsOf(op));
  }

  /** For every operation: on all rows that show an address, or on all that show none, and whatever the
      filters select, the source does what the section says if and only if the operation is supported. */
  lemma OpMeansRfc(mail: bool, op: PatchOp)
    ensures MeansRfc(mail, op) <==> Supported(mail, op)
  {
    MeansRfcIsSameReading(mail, op);
    if Sets(op) {
      SetsAgree(mail, op);
    } else if SetsObject(op) {
      ObjectAgrees(mail, op);
    } else {
      NoEffectAgrees(mail, op);
    }
  }

  // ---------------------------------------------------------------- lists

  /** The operations in order, all or nothing. */
  ghost function Rfc(sel: Selection, p: Profile, ops: seq<PatchOp>): Option<Profile>
    decreases |ops|
  {
    if ops == [] then Some(p)
    else match RfcStep(sel, p, ops[0])
      case None => None
      case Some(next) => Rfc(sel, next, ops[1..])
  }

  ghost predicate AllSupported(ops: seq<PatchOp>) {
    forall op :: op in ops ==> Supported(true, op) && Supported(false, op)
  }

  ghost predicate ListMeansRfc(ops: seq<PatchOp>) {
    forall row: User, sel: Selection :: Shown(UserPatch.Batch(row, ops)) == Rfc(sel, ProfileOf(row), ops)
  }

  lemma {:induction false} SupportedInOrder(sel: Selection, row: User, ops: seq<PatchOp>)
    requires AllSupported(ops)
    ensures Shown(UserPatch.InOrder(row, ops)) == Rfc(sel, ProfileOf(row), ops)
    decreases |ops|
  {
    if ops != [] {
      var mail := Addresses(row.email) != [];
      assert ops[0] in ops;
      OpMeansRfc(mail, ops[0]);
      assert Shown(UserPatch.Batch(row, [ops[0]])) == RfcStep(sel, ProfileOf(row), ops[0]);
      if UserPatch.Batch(row, [ops[0]]).Some? {
        SupportedInOrder(sel, UserPatch.Batch(row, [ops[0]]).value, ops[1..]);
      }
    }
  }

  /** A list that loses an email shows another one than the operations in order, on some row. */
  lemma LossIsShown(ops: seq<PatchOp>) returns (row: User)
    requires (forall op :: op in ops ==> UserPatch.WellTyped(op)) && UserPatch.LosesEmail(ops)
    ensures Shown(UserPatch.Batch(row, ops)) != Shown(UserPatch.InOrder(row, ops))
  {
    UserPatch.WellTypedRuns(PLAIN_ROW, ops);
    var given := UserPatch.TextChange(UserPatch.LastDefined(UserPatch.EmailWrites(ops))).value;
    var a := FreshString({""} + if given.Put? && given.value.Some? then {given.value.value} else {});
    row := RowWith(true, a);
    UserPatch.WellTypedRuns(row, ops);
    UserPatch.CompiledEmail(ops);
    UserPatch.EmailsAgree(UserPatch.EmailWrites(ops), row.email);
    assert UserPatch.Batch(row, ops).value.email == Some(a);
    assert UserPatch.InOrder(row, ops).value.email == Updated(row.email, given);
  }

  /** For lists of operations supported on all rows: the single update does what the section says, on every
      row, if and only if the list is faithful. */
  lemma SupportedListMeansRfc(ops: seq<PatchOp>)
    requires AllSupported(ops)
    ensures ListMeansRfc(ops) <==> UserPatch.Faithful(ops)
  {
    UserPatch.BatchMeansInOrder(ops);
    if UserPatch.Faithful(ops) {
      forall row: User, sel: Selection ensures Shown(UserPatch.Batch(row, ops)) == Rfc(sel, ProfileOf(row), ops) {
        SupportedInOrder(sel, row, ops);
      }
    } else {
      var row := PLAIN_ROW;
      var sel: Selection := _ => {};
      if forall op :: op in ops ==> UserPatch.WellTyped(op) {
        row := LossIsShown(ops);
      } else {
        UserPatch.IllTypedLists(ops);
      }
      SupportedInOrder(sel, row, ops);
      assert Shown(UserPatch.Batch(row, ops)) != Rfc(sel, ProfileOf(row), ops);
    }
  }

  // ---------------------------------------------------------------- the forms an identity provider sends

  function ActiveObject(active: bool): PatchOp {
    PatchOp("replace", None, Some(JObj(map["active" := JBool(active)])))
  }

  function OneEmail(address: string): Json {
    JArr([JObj(map["value" := JStr(address)])])
  }

  lemma SetPathSets(path: string, v: Json)
    requires path != ""
    ensures Sets(UserPatch.SetPath(path, v)) && !IsOp(UserPatch.SetPath(path, v).op, "add")
  {
    assert IsOp("replace", "replace");
  }

  /** A replacement at a known path, on both sides. */
  lemma KnownStep(row: User, path: string, v: Json)
    requires path != "" && !Known(path).OtherPath?
    ensures var op, u := UserPatch.SetPath(path, v), ChangeAt(Known(path), Some(v));
            UserPatch.Batch(row, [op]) == (if u.Some? then Some(UpdatedUser(row, u.value)) else None)
            && EditsOf(op) == SetEdits(TargetsAt(Known(path)), op)
  {
    var op := UserPatch.SetPath(path, v);
    SetPathSets(path, v);
    SourceStep(row, op);
    SourceAt(op);
    TargetsKnown(path);
  }

  lemma KnownIsSupported(mail: bool, path: string, v: Json)
    requires path != "" && PathSupported(mail, Known(path), UserPatch.SetPath(path, v))
    ensures Supported(mail, UserPatch.SetPath(path, v))
  {
    SetPathSets(path, v);
  }

  /** Deactivation in both documented forms, and the replacement of a text or of the one email, follow the
      section on all rows. The path of the primary email does so where an address is shown. */
  lemma FormsAreSupported(active: bool, path: string, text: string)
    requires path in {"userName", "externalId", "name.givenName", "name.familyName"}
    ensures forall mail :: Supported(mail, UserPatch.SetPath("active", JBool(active)))
    ensures forall mail :: Supported(mail, ActiveObject(active))
    ensures forall mail :: Supported(mail, UserPatch.SetPath(path, JStr(text)))
    ensures forall mail :: Supported(mail, UserPatch.SetPath("emails", OneEmail(text)))
    ensures Supported(true, UserPatch.SetPath("emails[primary eq true].value", JStr(text)))
  {
    ActiveObjectSupported(active);
    forall mail
      ensures Supported(mail, UserPatch.SetPath("active", JBool(active)))
      ensures Supported(mail, UserPatch.SetPath(path, JStr(text)))
      ensures Supported(mail, UserPatch.SetPath("emails", OneEmail(text)))
    {
      KnownIsSupported(mail, "active", JBool(active));
      KnownIsSupported(mail, path, JStr(text));
      OneEmailSupported(mail, text);
    }
    KnownIsSupported(true, "emails[primary eq true].value", JStr(text));
  }

  lemma OneEmailRead(text: string)
    ensures ReadMails(Some(OneEmail(text))) == Some(Addresses(Some(text)))
    ensures UserPatch.PathEmail(Some(OneEmail(text))) == Some(UserPatch.Defined(JStr(text)))
  {
    var item := JObj(map["value" := JStr(text)]);
    assert Find(item, "value") == OneKey(JStr(text));
    var items := [item];
    assert items[1..] == [] && Listed([]) == [];
    assert Listed(items) == Addresses(Some(text)) + [];
    assert forall i :: 0 <= i < |items| ==> !ReadEntry(items[i]).BadEntry?;
    assert ReadList(items) == Some(Listed(items)) && Listed(items) == Addresses(Some(text));
    assert OneEmail(text) == JArr(items);
  }

  lemma OneEmailSupported(mail: bool, text: string)
    ensures Supported(mail, UserPatch.SetPath("emails", OneEmail(text)))
  {
    OneEmailRead(text);
    SetPathSets("emails", OneEmail(text));
    KnownIsSupported(mail, "emails", OneEmail(text));
  }

  lemma ActiveObjectSupported(active: bool)
    ensures forall mail :: Supported(mail, ActiveObject(active))
  {
    var op := ActiveObject(active);
    var v := op.value.value;
    assert IsOp("replace", "replace");
    assert Lower('a') != Lower('e');
    forall key | key in {"userName", "externalId", "name", "emails"} ensures Find(v, key) == NoKey {
      assert |key| == |"active"| ==> Lower("active"[0]) != Lower(key[0]);
    }
  }

  // ---------------------------------------------------------------- forms the source gets wrong

  /** Removing an attribute does nothing. */
  lemma RemovalIgnored(row: User, op: PatchOp, sel: Selection)
    requires IsOp(op.op, "remove") && !NoPath(op) && Known(op.path.value).ExternalIdPath?
    ensures UserPatch.Batch(row, [op]) == Some(row)
    ensures RfcStep(sel, ProfileOf(row), op) == Some(ProfileOf(row.(externalId := None)))
  {
    RemovalSource(row, op);
    TargetsKnown(op.path.value);
    assert EditsOf(op) == NO_EDITS.(externalId := Unassigned);
  }

  lemma RemovalSource(row: User, op: PatchOp)
    requires IsOp(op.op, "remove")
    ensures UserPatch.Batch(row, [op]) == Some(row)
  {
    SourceStep(row, op);
    assert SourceUpdate(op) == Some(NO_UPDATE);
  }

  /** `null` is stored as a text. */
  lemma NullIsStored(row: User, path: string, sel: Selection)
    requires Known(path).ExternalIdPath?
    ensures UserPatch.Batch(row, [UserPatch.SetPath(path, JNull)]) == Some(row.(externalId := Some("null")))
    ensures RfcStep(sel, ProfileOf(row), UserPatch.SetPath(path, JNull)) == Some(ProfileOf(row.(externalId := None)))
  {
    KnownStep(row, path, JNull);
  }

  /** Any text but the empty one activates, also "False". */
  lemma TextActivates(row: User, path: string, text: string, sel: Selection)
    requires Known(path).ActivePath? && text != ""
    ensures UserPatch.Batch(row, [UserPatch.SetPath(path, JStr(text))]) == Some(row.(active := true))
    ensures RfcStep(sel, ProfileOf(row), UserPatch.SetPath(path, JStr(text))) == None
  {
    KnownStep(row, path, JStr(text));
  }

  /** The primary email of a user without one is set, where the section finds no target. */
  lemma PrimaryOfNone(row: User, path: string, address: string, sel: Selection)
    requires Known(path).PrimaryPath? && Addresses(row.email) == []
    ensures UserPatch.Batch(row, [UserPatch.SetPath(path, JStr(address))]) == Some(row.(email := Some(address)))
    ensures RfcStep(sel, ProfileOf(row), UserPatch.SetPath(path, JStr(address))) == None
  {
    var op := UserPatch.SetPath(path, JStr(address));
    KnownStep(row, path, JStr(address));
    PrimaryEdits(op);
    RefusedWithoutMail(row, op, sel);
  }

  lemma PrimaryEdits(op: PatchOp)
    requires IsText(op.value)
    ensures SetEdits(TargetsAt(PrimaryPath), op).mails.MailsSet?
  {
  }

  lemma RefusedWithoutMail(row: User, op: PatchOp, sel: Selection)
    requires Addresses(row.email) == [] && EditsOf(op).mails.MailsSet?
    ensures RfcStep(sel, ProfileOf(row), op) == None
  {
    FateIs(false, EditsOf(op).mails, sel, []);
  }

  function TwoEmails(a: string, b: string): Json {
    JArr([JObj(map["value" := JStr(a)]), JObj(map["value" := JStr(b)])])
  }

  /** Of several emails the first stays. */
  lemma SecondEmailLost(row: User, path: string, a: string, b: string, sel: Selection)
    requires Known(path).EmailsPath? && a != "" && b != ""
    ensures UserPatch.Batch(row, [UserPatch.SetPath(path, TwoEmails(a, b))]) == Some(row.(email := Some(a)))
    ensures RfcStep(sel, ProfileOf(row), UserPatch.SetPath(path, TwoEmails(a, b))) == Some(ProfileOf(row).(mails := [a, b]))
  {
    var op := UserPatch.SetPath(path, TwoEmails(a, b));
    KnownStep(row, path, TwoEmails(a, b));
    SetPathSets(path, TwoEmails(a, b));
    TwoEmailsRead(a, b);
    EmailsEdits(op, [a, b]);
    MailsBecomeAlone(row, op, [a, b], sel);
  }

  lemma EmailsEdits(op: PatchOp, list: seq<string>)
    requires !IsOp(op.op, "add") && op.value != Some(JNull) && ReadMails(op.value) == Some(list)
    ensures SetEdits(TargetsAt(EmailsPath), op) == NO_EDITS.(mails := MailsBecome(list))
  {
  }

  lemma MailsBecomeAlone(row: User, op: PatchOp, list: seq<string>, sel: Selection)
    requires EditsOf(op) == NO_EDITS.(mails := MailsBecome(list))
    ensures RfcStep(sel, ProfileOf(row), op) == Some(ProfileOf(row).(mails := list))
  {
  }

  lemma TwoEmailsRead(a: string, b: string)
    requires a != "" && b != ""
    ensures ReadMails(Some(TwoEmails(a, b))) == Some([a, b])
    ensures UserPatch.PathEmail(Some(TwoEmails(a, b))) == Some(UserPatch.Defined(JStr(a)))
  {
    var items := [JObj(map["value" := JStr(a)]), JObj(map["value" := JStr(b)])];
    assert TwoEmails(a, b) == JArr(items);
    assert Find(items[0], "value") == OneKey(JStr(a)) && Find(items[1], "value") == OneKey(JStr(b));
    assert forall i :: 0 <= i < |items| ==> !ReadEntry(items[i]).BadEntry?;
    assert items[1..] == [items[1]] && [items[1]][1..] == [];
    assert Listed(items) == [a] + Listed([items[1]]) && Listed([items[1]]) == [b] + Listed([]);
    assert ReadList(items) == Some(Listed(items)) && Listed(items) == [a, b];
  }
}
