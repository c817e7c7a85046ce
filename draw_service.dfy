/** The wheel-draw service of src/services/drawService.ts over an in-memory
    store: the wheel entries, the append-only draw log and the user
    accounts, with the admin-gated operations that change them. */
module DrawService {
  import opened Results
  import opened Text
  import opened Records
  import opened Labels
  import opened Identity
  import opened Cycles

  /** What addWheelEntries reports: entries inserted, accounts created. */
  datatype AddReport = AddReport(inserted: nat, usersCreated: nat)

  /** The fields listUsers selects from each account. */
  datatype UserSummary = UserSummary(id: nat, name: string, email: string, role: Role)

  /** ensureAdmin: a malformed id fails with 400; an id that names no
      account, or an account that is not an admin, fails with 403. */
  function EnsureAdmin(users: seq<User>, adminId: RawId): (r: Result<User>)
    requires UniqueUserIds(users)
    ensures r.Ok? <==> adminId.Oid? && exists k :: 0 <= k < |users| && users[k].id == adminId.n && users[k].role == Admin
    ensures r.Ok? ==> r.value in users && r.value.id == adminId.n && r.value.role == Admin
    ensures r.Err? ==> r.error == (if adminId.Oid? then NotAdmin else InvalidAdminId)
  {
    if !IsValidId(adminId) then Err(InvalidAdminId)
    else match FindUser(users, adminId.n)
      case None => Err(NotAdmin)
      case Some(k) => if users[k].role == Admin then Ok(users[k]) else Err(NotAdmin)
  }

  /** The documents addWheelEntries inserts: one active entry per label,
      created by `admin`, with fresh ids from `start` on. */
  function NewEntries(labels: seq<string>, start: nat, admin: nat): (r: seq<Entry>)
    ensures |r| == |labels|
    ensures forall i :: 0 <= i < |r| ==>
      r[i] == Entry(start + i, labels[i], true, Some(admin))
  {
    seq(|labels|, i requires 0 <= i < |labels| => Entry(start + i, labels[i], true, Some(admin)))
  }

  /** The account loop of addWheelEntries after it has handled the first
      `n` labels: an account with role "user" and the given access code is
      created for each label whose derived email no account holds yet, ids
      being taken from `start` on. At most one account is created per label. */
  function ProvisionUsers(users: seq<User>, labels: seq<string>, n: nat, start: nat, code: string): (r: seq<User>)
    requires n <= |labels|
    ensures |users| <= |r| <= |users| + n
  {
    if n == 0 then users
    else
      var before := ProvisionUsers(users, labels, n - 1, start, code);
      var email := EmailFor(labels[n - 1]);
      if HasEmail(before, email) then before
      else before + [User(start + (|before| - |users|), labels[n - 1], email, Regular, code)]
  }

  /** `users` is what the whole account loop makes of `users0`. */
  ghost predicate Provisioned(users: seq<User>, users0: seq<User>, labels: seq<string>, start: nat, code: string) {
    users == ProvisionUsers(users0, labels, |labels|, start, code)
  }

  /** After the account loop every handled label has an account holding its
      derived email. */
  lemma {:induction false} ProvisionCoversLabels(users: seq<User>, labels: seq<string>, n: nat, start: nat, code: string)
    requires n <= |labels|
    ensures forall i :: 0 <= i < n ==> HasEmail(ProvisionUsers(users, labels, n, start, code), EmailFor(labels[i]))
  {
    if n > 0 {
      var before := ProvisionUsers(users, labels, n - 1, start, code);
      var r := ProvisionUsers(users, labels, n, start, code);
      ProvisionCoversLabels(users, labels, n - 1, start, code);
      assert forall k :: 0 <= k < |before| ==> r[k] == before[k];
      forall i | 0 <= i < n
        ensures HasEmail(r, EmailFor(labels[i]))
      {
        var e := EmailFor(labels[i]);
        if HasEmail(before, e) {
          var k :| 0 <= k < |before| && before[k].email == e;
          assert r[k].email == e;
        } else {
          assert r[|r| - 1].email == e;
        }
      }
    }
  }

  /** The loop keeps the existing accounts as they are, and each account it
      creates has the next fresh id from `start`, role "user", the given
      code, and is named after a handled label and holds that label's
      derived email. */
  lemma {:induction false} ProvisionedAccounts(users: seq<User>, labels: seq<string>, n: nat, start: nat, code: string)
    requires n <= |labels|
    ensures var r := ProvisionUsers(users, labels, n, start, code);
      && (forall k :: 0 <= k < |users| ==> r[k] == users[k])
      && forall k :: |users| <= k < |r| ==>
        && r[k].id == start + (k - |users|) && r[k].role == Regular && r[k].accessCode == code
        && (exists i :: 0 <= i < n && r[k].name == labels[i]) && r[k].email == EmailFor(r[k].name)
  {
    if n > 0 {
      var before := ProvisionUsers(users, labels, n - 1, start, code);
      var r := ProvisionUsers(users, labels, n, start, code);
      ProvisionedAccounts(users, labels, n - 1, start, code);
      forall k | |users| <= k < |r|
        ensures r[k].id == start + (k - |users|) && r[k].role == Regular && r[k].accessCode == code
        ensures (exists i :: 0 <= i < n && r[k].name == labels[i]) && r[k].email == EmailFor(r[k].name)
      {
        if k < |before| {
          assert r[k] == before[k];
          var i :| 0 <= i < n - 1 && before[k].name == labels[i];
        } else {
          assert r[k].name == labels[n - 1];
        }
      }
    }
  }

  /** The loop keeps emails unique, and ids unique and below the next free
      id when `start` is fresh. */
  lemma {:induction false} ProvisionKeepsUnique(users: seq<User>, labels: seq<string>, n: nat, start: nat, code: string)
    requires n <= |labels|
    requires UsersValid(users, start)
    ensures var r := ProvisionUsers(users, labels, n, start, code);
      UsersValid(r, start + (|r| - |users|))
  {
    if n > 0 {
      var before := ProvisionUsers(users, labels, n - 1, start, code);
      ProvisionKeepsUnique(users, labels, n - 1, start, code);
      var email := EmailFor(labels[n - 1]);
      if !HasEmail(before, email) {
        AddAccountKeepsValid(before, User(start + (|before| - |users|), labels[n - 1], email, Regular, code));
      }
    }
  }

  /** Appending an account whose email is free and whose id is the next
      free one keeps the accounts valid. */
  lemma AddAccountKeepsValid(users: seq<User>, u: User)
    requires UsersValid(users, u.id) && !HasEmail(users, u.email)
    ensures UsersValid(users + [u], u.id + 1)
  {
    var r := users + [u];
    forall i, j | 0 <= i < j < |r|
      ensures r[i].id != r[j].id && r[i].email != r[j].email
    {
      if j == |users| {
        assert r[i] == users[i];
      }
    }
  }

  /** Entry ids and labels are unique (labels across active and inactive
      entries alike), labels are trimmed and non-blank, ids lie below `bound`. */
  ghost predicate EntriesValid(entries: seq<Entry>, bound: nat) {
    && UniqueEntryIds(entries) && UniqueLabels(entries)
    && (forall k :: 0 <= k < |entries| ==> entries[k].name != "" && IsTrimmed(entries[k].name))
    && (forall k :: 0 <= k < |entries| ==> entries[k].id < bound)
  }

  /** Account ids and emails are unique, ids lie below `bound`. */
  ghost predicate UsersValid(users: seq<User>, bound: nat) {
    && UniqueUserIds(users) && UniqueEmails(users)
    && (forall k :: 0 <= k < |users| ==> users[k].id < bound)
  }

  /** Labels that may be inserted next to `entries`: distinct, trimmed,
      non-blank, and carried by no stored entry. */
  ghost predicate Insertable(toInsert: seq<string>, entries: seq<Entry>) {
    && Distinct(toInsert)
    && forall x :: x in toInsert ==> x != "" && IsTrimmed(x) && x !in LabelsOf(entries)
  }

  /** The labels addWheelEntries keeps from a request are insertable. */
  lemma KeptLabelsAreInsertable(labels: seq<string>, entries: seq<Entry>)
    ensures Insertable(NewLabels(Normalize(labels), LabelsOf(entries)), entries)
  {
    NormalizeWellFormed(labels);
    NewLabelsSpec(Normalize(labels), LabelsOf(entries));
  }

  /** The checks of addWheelEntries, in the source's order, and the labels
      it goes on to insert: the caller must be an admin, some label must
      survive normalisation, and some normalised label must be new. */
  function AddPlan(users: seq<User>, entries: seq<Entry>, adminId: RawId, labels: seq<string>): (r: Result<seq<string>>)
    requires UniqueUserIds(users)
    ensures EnsureAdmin(users, adminId).Err? ==> r == Err(EnsureAdmin(users, adminId).error)
    ensures EnsureAdmin(users, adminId).Ok? && Normalize(labels) == [] ==> r == Err(NoValidName)
    ensures (EnsureAdmin(users, adminId).Ok? && Normalize(labels) != [] &&
      NewLabels(Normalize(labels), LabelsOf(entries)) == []) ==> r == Err(AllNamesExist)
    ensures r.Ok? ==> EnsureAdmin(users, adminId).Ok? && r.value == NewLabels(Normalize(labels), LabelsOf(entries))
    ensures r.Ok? ==> r.value != [] && Insertable(r.value, entries)
    ensures EnsureAdmin(users, adminId).Ok? && NewLabels(Normalize(labels), LabelsOf(entries)) != [] ==> r.Ok?
  {
    var gate := EnsureAdmin(users, adminId);
    if gate.Err? then Err(gate.error)
    else
      var normalized := Normalize(labels);
      if |normalized| == 0 then Err(NoValidName)
      else
        var toInsert := NewLabels(normalized, LabelsOf(entries));
        if |toInsert| == 0 then Err(AllNamesExist)
        else
          KeptLabelsAreInsertable(labels, entries);
          Ok(toInsert)
  }

  /** Inserting insertable labels with fresh ids keeps the entries valid. */
  lemma InsertKeepsEntriesValid(entries: seq<Entry>, bound: nat, toInsert: seq<string>, admin: nat)
    requires EntriesValid(entries, bound) && Insertable(toInsert, entries)
    ensures EntriesValid(entries + NewEntries(toInsert, bound, admin), bound + |toInsert|)
  {
    var inserted := NewEntries(toInsert, bound, admin);
    var after := entries + inserted;
    forall i | 0 <= i < |inserted|
      ensures inserted[i].name in toInsert
    {
      assert inserted[i].name == toInsert[i];
    }
    forall i, j | 0 <= i < j < |after|
      ensures after[i].name != after[j].name && after[i].id != after[j].id
    {
      if j >= |entries| && i < |entries| {
        assert after[i].name in LabelsOf(entries);
      }
    }
  }

  /** With labels unique, the lookup of updateWheelEntry never finds an
      entry's own label held by another entry, so renaming an entry to its
      current label succeeds. */
  lemma OwnLabelIsFree(entries: seq<Entry>, k: nat)
    requires UniqueLabels(entries) && k < |entries|
    ensures !LabelHeldByOther(entries, entries[k].name, entries[k].id)
  {
    forall j | 0 <= j < |entries| && entries[j].name == entries[k].name
      ensures entries[j].id == entries[k].id
    {
      assert j == k;
    }
  }

  /** Likewise an account may be given back its own email. */
  lemma OwnEmailIsFree(users: seq<User>, k: nat)
    requires UniqueEmails(users) && k < |users|
    ensures !EmailHeldByOther(users, users[k].email, users[k].id)
  {
    forall j | 0 <= j < |users| && users[j].email == users[k].email
      ensures users[j].id == users[k].id
    {
      assert j == k;
    }
  }

  /** The service's store. `nextId` stands for the fresh object ids the
      store hands out on insertion. */
  class Store {
    var entries: seq<Entry>
    var draws: seq<Draw>
    var users: seq<User>
    var nextId: nat

    /** Ids and entry labels are unique (the stores' indexes), stored labels
        are trimmed and non-blank, account emails are unique, the draw log
        satisfies the history invariant, and every id is below `nextId`. */
    ghost predicate Valid()
      reads this
    {
      EntriesValid(entries, nextId) && UsersValid(users, nextId) && HistoryInvariant(draws)
    }

    /** An empty wheel and log, with one admin account. The account
        schema's setters trim the name and trim and lower-case the email,
        and its `required` validators reject what is left empty. */
    constructor (adminName: string, adminEmail: string, adminCode: string)
      requires Trim(adminName) != [] && NormalizeEmail(adminEmail) != []
      ensures Valid()
      ensures entries == [] && draws == []
      ensures users == [User(0, Trim(adminName), NormalizeEmail(adminEmail), Admin, adminCode)]
      ensures IsTrimmed(users[0].name) && IsTrimmed(users[0].email) && IsLower(users[0].email)
    {
      entries := [];
      draws := [];
      users := [User(0, Trim(adminName), NormalizeEmail(adminEmail), Admin, adminCode)];
      nextId := 1;
    }

    /** addWheelEntries. `hashedUserCode` is the hashed default access code
        of the accounts it creates. */
    method AddWheelEntries(adminId: RawId, labels: seq<string>, hashedUserCode: string) returns (r: Result<AddReport>)
      requires Valid()
      modifies this
      ensures Valid()
      ensures r.Err? <==> AddPlan(old(users), old(entries), adminId, labels).Err?
      ensures r.Err? ==> unchanged(this) && r.error == AddPlan(old(users), old(entries), adminId, labels).error
      ensures r.Ok? ==>
        var toInsert := AddPlan(old(users), old(entries), adminId, labels).value;
        && entries == old(entries) + NewEntries(toInsert, old(nextId), adminId.n)
        && Provisioned(users, old(users), toInsert, old(nextId) + |toInsert|, hashedUserCode)
        && draws == old(draws)
        && r.value.inserted == |toInsert|
        && r.value.usersCreated == |users| - |old(users)| <= r.value.inserted
    {
      var plan := AddPlan(users, entries, adminId, labels);
      if plan.Err? {
        return Err(plan.error);
      }
      var usersCreated := InsertEntries(plan.value, adminId.n, hashedUserCode);
      r := Ok(AddReport(|plan.value|, usersCreated));
    }

    /** The two writes of addWheelEntries: the bulk insert of the new
        entries, then the account loop. */
    method InsertEntries(toInsert: seq<string>, admin: nat, hashedUserCode: string) returns (usersCreated: nat)
      requires Valid() && Insertable(toInsert, entries)
      modifies this
      ensures Valid()
      ensures entries == old(entries) + NewEntries(toInsert, old(nextId), admin)
      ensures Provisioned(users, old(users), toInsert, old(nextId) + |toInsert|, hashedUserCode)
      ensures usersCreated == |users| - |old(users)| <= |toInsert|
      ensures draws == old(draws)
    {
      InsertKeepsEntriesValid(entries, nextId, toInsert, admin);
      entries := entries + NewEntries(toInsert, nextId, admin);
      nextId := nextId + |toInsert|;
      ProvisionKeepsUnique(users, toInsert, |toInsert|, nextId, hashedUserCode);
      usersCreated := CreateUsers(toInsert, hashedUserCode);
    }

    /** The account loop of addWheelEntries (its lines after the bulk insert). */
    method CreateUsers(toInsert: seq<string>, hashedUserCode: string) returns (usersCreated: nat)
      modifies this`users, this`nextId
      ensures users == ProvisionUsers(old(users), toInsert, |toInsert|, old(nextId), hashedUserCode)
      ensures usersCreated == |users| - |old(users)| <= |toInsert|
      ensures nextId == old(nextId) + usersCreated
    {
      usersCreated := 0;
      var i := 0;
      while i < |toInsert|
        invariant 0 <= i <= |toInsert|
        invariant users == ProvisionUsers(old(users), toInsert, i, old(nextId), hashedUserCode)
        invariant usersCreated == |users| - |old(users)|
        invariant nextId == old(nextId) + usersCreated
      {
        var tag := toInsert[i];
        var email := EmailFor(tag);
        if !HasEmail(users, email) {
          users := users + [User(nextId, tag, email, Regular, hashedUserCode)];
          nextId := nextId + 1;
          usersCreated := usersCreated + 1;
        }
        i := i + 1;
      }
    }

    /** performDraw. The `:|` choice of an index into the pool stands for
        `Math.floor(Math.random() * pool.length)`. */
    method PerformDraw(adminId: RawId) returns (r: Result<Draw>)
      requires Valid()
      modifies this
      ensures Valid()
      ensures r.Err? ==> unchanged(this)
      ensures EnsureAdmin(old(users), adminId).Err? ==> r == Err(EnsureAdmin(old(users), adminId).error)
      ensures EnsureAdmin(old(users), adminId).Ok? ==> (r.Err? <==> ActiveEntries(old(entries)) == [])
      ensures r.Err? && EnsureAdmin(old(users), adminId).Ok? ==> r.error == EmptyWheel
      ensures r.Ok? ==>
        var active := ActiveEntries(old(entries));
        var d := r.value;
        && active != []
        && draws == old(draws) + [d]
        && entries == old(entries) && users == old(users) && nextId == old(nextId)
        && (exists w :: w in DrawPool(old(draws), active) && d.entry == w.id && d.resultLabel == w.name)
        && (exists k :: 0 <= k < |entries| && entries[k].isActive && entries[k].id == d.entry && entries[k].name == d.resultLabel)
        && d.drawnBy == adminId.n
        && d.cycleIndex == AssignedCycle(old(draws), active) == ResolvedCycle(old(draws), active)
        && d.entry !in DrawnInCycle(old(draws), d.cycleIndex)
        && (old(draws) != [] ==> d.cycleIndex >= Last(old(draws)).cycleIndex)
    {
      var gate := EnsureAdmin(users, adminId);
      if gate.Err? {
        return Err(gate.error);
      }
      var active := ActiveEntries(entries);
      if |active| == 0 {
        return Err(EmptyWheel);
      }
      var cycleIndex := ComputeCycleIndex(draws, |active|).value;
      var alreadyDrawn := DrawnInCycle(draws, cycleIndex);
      var remaining := Remaining(active, alreadyDrawn);
      var pool := if |remaining| > 0 then remaining else active;
      var randomIndex :| 0 <= randomIndex < |pool|;
      var winner := pool[randomIndex];
      var d := Draw(winner.id, winner.name, gate.value.id, if |remaining| > 0 then cycleIndex else cycleIndex + 1);
      assert winner in DrawPool(draws, active) && d.cycleIndex == AssignedCycle(draws, active);
      DrawKeepsHistoryInvariant(draws, active, winner, gate.value.id);
      FallbackUnreachable(draws, active);
      draws := draws + [d];
      r := Ok(d);
    }

    /** removeWheelEntry: a soft delete. Removing an entry that is already
        inactive is an error, so it is not idempotent. */
    method RemoveWheelEntry(adminId: RawId, entryId: RawId) returns (r: Result<Entry>)
      requires Valid()
      modifies this
      ensures Valid()
      ensures r.Err? ==> unchanged(this)
      ensures EnsureAdmin(old(users), adminId).Err? ==> r == Err(EnsureAdmin(old(users), adminId).error)
      ensures EnsureAdmin(old(users), adminId).Ok? && entryId.Malformed? ==> r == Err(InvalidEntryId)
      ensures EnsureAdmin(old(users), adminId).Ok? && entryId.Oid? ==>
        match FindEntry(old(entries), entryId.n)
        case None => r == Err(EntryNotFound)
        case Some(k) =>
          if !old(entries)[k].isActive then r == Err(AlreadyInactive)
          else
            && r == Ok(old(entries)[k].(isActive := false))
            && entries == old(entries)[k := r.value]
            && draws == old(draws) && users == old(users) && nextId == old(nextId)
    {
      var gate := EnsureAdmin(users, adminId);
      if gate.Err? {
        return Err(gate.error);
      }
      if !IsValidId(entryId) {
        return Err(InvalidEntryId);
      }
      var found := FindEntry(entries, entryId.n);
      if found.None? {
        return Err(EntryNotFound);
      }
      var k := found.value;
      if !entries[k].isActive {
        return Err(AlreadyInactive);
      }
      var entry := entries[k].(isActive := false);
      entries := entries[k := entry];
      r := Ok(entry);
    }

    /** updateWheelEntry: renames an entry to the trimmed label, unless
        another entry already holds it; renaming an entry to its own label
        succeeds. The active flag is left as it is. */
    method UpdateWheelEntry(adminId: RawId, entryId: RawId, newLabel: string) returns (r: Result<Entry>)
      requires Valid()
      modifies this
      ensures Valid()
      ensures r.Err? ==> unchanged(this)
      ensures EnsureAdmin(old(users), adminId).Err? ==> r == Err(EnsureAdmin(old(users), adminId).error)
      ensures EnsureAdmin(old(users), adminId).Ok? && entryId.Malformed? ==> r == Err(InvalidEntryId)
      ensures EnsureAdmin(old(users), adminId).Ok? && entryId.Oid? && Trim(newLabel) == [] ==> r == Err(EmptyLabel)
      ensures EnsureAdmin(old(users), adminId).Ok? && entryId.Oid? && Trim(newLabel) != [] ==>
        match FindEntry(old(entries), entryId.n)
        case None => r == Err(EntryNotFound)
        case Some(k) =>
          if LabelHeldByOther(old(entries), Trim(newLabel), entryId.n) then r == Err(LabelTaken)
          else
            && r == Ok(old(entries)[k].(name := Trim(newLabel)))
            && entries == old(entries)[k := r.value]
            && draws == old(draws) && users == old(users) && nextId == old(nextId)
    {
      var gate := EnsureAdmin(users, adminId);
      if gate.Err? {
        return Err(gate.error);
      }
      if !IsValidId(entryId) {
        return Err(InvalidEntryId);
      }
      var normalizedLabel := Trim(newLabel);
      if |normalizedLabel| == 0 {
        return Err(EmptyLabel);
      }
      var found := FindEntry(entries, entryId.n);
      if found.None? {
        return Err(EntryNotFound);
      }
      if LabelHeldByOther(entries, normalizedLabel, entryId.n) {
        return Err(LabelTaken);
      }
      var k := found.value;
      var entry := entries[k].(name := normalizedLabel);
      entries := entries[k := entry];
      r := Ok(entry);
    }

    /** listUsers: the accounts, in store order, for an admin. */
    method ListUsers(adminId: RawId) returns (r: Result<seq<UserSummary>>)
      requires Valid()
      ensures r.Err? <==> EnsureAdmin(users, adminId).Err?
      ensures r.Err? ==> r.error == EnsureAdmin(users, adminId).error
      ensures r.Ok? ==> |r.value| == |users| && forall k :: 0 <= k < |users| ==>
        r.value[k] == UserSummary(users[k].id, users[k].name, users[k].email, users[k].role)
    {
      var gate := EnsureAdmin(users, adminId);
      if gate.Err? {
        return Err(gate.error);
      }
      r := Ok(seq(|users|, k requires 0 <= k < |users| reads this =>
        UserSummary(users[k].id, users[k].name, users[k].email, users[k].role)));
    }

    /** updateUserEmail: sets the trimmed, lower-cased email, which must
        contain '@' and must not be held by another account. */
    method UpdateUserEmail(adminId: RawId, userId: RawId, newEmail: string) returns (r: Result<User>)
      requires Valid()
      modifies this
      ensures Valid()
      ensures r.Err? ==> unchanged(this)
      ensures EnsureAdmin(old(users), adminId).Err? ==> r == Err(EnsureAdmin(old(users), adminId).error)
      ensures EnsureAdmin(old(users), adminId).Ok? && userId.Malformed? ==> r == Err(InvalidUserId)
      ensures EnsureAdmin(old(users), adminId).Ok? && userId.Oid? && '@' !in NormalizeEmail(newEmail) ==>
        r == Err(InvalidEmail)
      ensures EnsureAdmin(old(users), adminId).Ok? && userId.Oid? && '@' in NormalizeEmail(newEmail) ==>
        match FindUser(old(users), userId.n)
        case None => r == Err(UserNotFound)
        case Some(k) =>
          if EmailHeldByOther(old(users), NormalizeEmail(newEmail), userId.n) then r == Err(EmailTaken)
          else
            && r == Ok(old(users)[k].(email := NormalizeEmail(newEmail)))
            && users == old(users)[k := r.value]
            && entries == old(entries) && draws == old(draws) && nextId == old(nextId)
    {
      var gate := EnsureAdmin(users, adminId);
      if gate.Err? {
        return Err(gate.error);
      }
      if !IsValidId(userId) {
        return Err(InvalidUserId);
      }
      var normalizedEmail := NormalizeEmail(newEmail);
      if '@' !in normalizedEmail {
        return Err(InvalidEmail);
      }
      var found := FindUser(users, userId.n);
      if found.None? {
        return Err(UserNotFound);
      }
      if EmailHeldByOther(users, normalizedEmail, userId.n) {
        return Err(EmailTaken);
      }
      var k := found.value;
      var user := users[k].(email := normalizedEmail);
      users := users[k := user];
      r := Ok(user);
    }

    /** updateUserName: sets the trimmed, non-blank name; names need not be
        unique. */
    method UpdateUserName(adminId: RawId, userId: RawId, newName: string) returns (r: Result<User>)
      requires Valid()
      modifies this
      ensures Valid()
      ensures r.Err? ==> unchanged(this)
      ensures EnsureAdmin(old(users), adminId).Err? ==> r == Err(EnsureAdmin(old(users), adminId).error)
      ensures EnsureAdmin(old(users), adminId).Ok? && userId.Malformed? ==> r == Err(InvalidUserId)
      ensures EnsureAdmin(old(users), adminId).Ok? && userId.Oid? && Trim(newName) == [] ==> r == Err(EmptyName)
      ensures EnsureAdmin(old(users), adminId).Ok? && userId.Oid? && Trim(newName) != [] ==>
        match FindUser(old(users), userId.n)
        case None => r == Err(UserNotFound)
        case Some(k) =>
          && r == Ok(old(users)[k].(name := Trim(newName)))
          && users == old(users)[k := r.value]
          && entries == old(entries) && draws == old(draws) && nextId == old(nextId)
    {
      var gate := EnsureAdmin(users, adminId);
      if gate.Err? {
        return Err(gate.error);
      }
      if !IsValidId(userId) {
        return Err(InvalidUserId);
      }
      var normalizedName := Trim(newName);
      if |normalizedName| == 0 {
        return Err(EmptyName);
      }
      var found := FindUser(users, userId.n);
      if found.None? {
        return Err(UserNotFound);
      }
      var k := found.value;
      var user := users[k].(name := normalizedName);
      users := users[k := user];
      r := Ok(user);
    }
  }
}
