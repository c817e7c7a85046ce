/** The three collections the service works on (wheel entries, draws and
    user accounts) as plain records, and the by-id and by-key lookups the
    service issues against them. */
module Records {
  import opened Results

  /** An id as it arrives in a request: either a well-formed object id,
      which names a stored record by number, or a string that
      `Types.ObjectId.isValid` rejects. */
  datatype RawId = Oid(n: nat) | Malformed(text: string)

  predicate IsValidId(id: RawId) {
    id.Oid?
  }

  /** The two roles of src/models/User.ts: "admin" and "user". */
  datatype Role = Admin | Regular

  /** A user account; `accessCode` is the stored (hashed) code, kept opaque. */
  datatype User = User(id: nat, name: string, email: string, role: Role, accessCode: string)

  /** A participant on the wheel. `name` is the source's `label` field
      (`label` is a reserved word in Dafny); soft-deleted entries keep
      `isActive == false`. */
  datatype Entry = Entry(id: nat, name: string, isActive: bool, createdBy: Option<nat>)

  /** One draw: the winning entry's id, its label at draw time, the admin
      who drew, and the cycle the draw belongs to. */
  datatype Draw = Draw(entry: nat, resultLabel: string, drawnBy: nat, cycleIndex: int)

  predicate UniqueEntryIds(entries: seq<Entry>) {
    forall i, j :: 0 <= i < j < |entries| ==> entries[i].id != entries[j].id
  }

  /** The store's unique index on `label`, over active and inactive entries alike. */
  predicate UniqueLabels(entries: seq<Entry>) {
    forall i, j :: 0 <= i < j < |entries| ==> entries[i].name != entries[j].name
  }

  predicate UniqueUserIds(users: seq<User>) {
    forall i, j :: 0 <= i < j < |users| ==> users[i].id != users[j].id
  }

  /** The store's unique index on `email`. */
  predicate UniqueEmails(users: seq<User>) {
    forall i, j :: 0 <= i < j < |users| ==> users[i].email != users[j].email
  }

  function LabelsOf(entries: seq<Entry>): (labels: set<string>)
    ensures forall k :: 0 <= k < |entries| ==> entries[k].name in labels
    ensures forall l :: l in labels ==> exists k :: 0 <= k < |entries| && entries[k].name == l
  {
    set k | 0 <= k < |entries| :: entries[k].name
  }

  /** `WheelEntryModel.findById`: the position of the entry with that id. */
  function FindEntry(entries: seq<Entry>, id: nat): (r: Option<nat>)
    ensures r.Some? ==> r.value < |entries| && entries[r.value].id == id
    ensures r.None? <==> forall k :: 0 <= k < |entries| ==> entries[k].id != id
    ensures r.Some? ==> forall k :: 0 <= k < r.value ==> entries[k].id != id
  {
    if entries == [] then None
    else if entries[0].id == id then Some(0)
    else match FindEntry(entries[1..], id)
      case None => None
      case Some(k) => Some(k + 1)
  }

  /** `UserModel.findById`: the position of the user with that id. */
  function FindUser(users: seq<User>, id: nat): (r: Option<nat>)
    ensures r.Some? ==> r.value < |users| && users[r.value].id == id
    ensures r.None? <==> forall k :: 0 <= k < |users| ==> users[k].id != id
    ensures r.Some? ==> forall k :: 0 <= k < r.value ==> users[k].id != id
  {
    if users == [] then None
    else if users[0].id == id then Some(0)
    else match FindUser(users[1..], id)
      case None => None
      case Some(k) => Some(k + 1)
  }

  /** `UserModel.findOne({ email })`: whether some user holds the email. */
  predicate HasEmail(users: seq<User>, email: string) {
    exists k :: 0 <= k < |users| && users[k].email == email
  }

  /** The label lookup of updateWheelEntry: another entry (id other than
      `self`) already carries `name`. */
  predicate LabelHeldByOther(entries: seq<Entry>, name: string, self: nat) {
    exists k :: 0 <= k < |entries| && entries[k].name == name && entries[k].id != self
  }

  /** The email lookup of updateUserEmail: another user holds `email`. */
  predicate EmailHeldByOther(users: seq<User>, email: string, self: nat) {
    exists k :: 0 <= k < |users| && users[k].email == email && users[k].id != self
  }
}
