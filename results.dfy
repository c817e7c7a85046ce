/** Outcomes of the draw service's operations: a value, or one of the
    service's application errors together with the HTTP status it carries. */
module Results {

  datatype Option<+T> = None | Some(value: T)

  /** Every error the service raises, one constructor per distinct error of
      src/services/drawService.ts (several throw sites may share one). */
  datatype ErrorKind =
    | InvalidAdminId        // ensureAdmin: the admin id is not a well-formed object id
    | NotAdmin              // ensureAdmin: no such account, or its role is not "admin"
    | NoValidName           // addWheelEntries: nothing left after normalisation
    | AllNamesExist         // addWheelEntries: every normalised label is already stored
    | EmptyWheel            // performDraw / computeCycleIndex: no active entry
    | InvalidEntryId        // removeWheelEntry, updateWheelEntry: malformed entry id
    | EntryNotFound         // removeWheelEntry, updateWheelEntry: no entry with that id
    | AlreadyInactive       // removeWheelEntry: the entry was already soft-deleted
    | EmptyLabel            // updateWheelEntry: the new label is blank
    | LabelTaken            // updateWheelEntry: another entry holds the new label
    | InvalidUserId         // updateUserEmail, updateUserName: malformed user id
    | InvalidEmail          // updateUserEmail: normalised email has no '@'
    | UserNotFound          // updateUserEmail, updateUserName: no user with that id
    | EmailTaken            // updateUserEmail: another user holds the email
    | EmptyName             // updateUserName: the new name is blank

  /** The HTTP status each error is raised with. */
  function Status(k: ErrorKind): (code: nat)
    ensures code in {400, 403, 404}
    ensures code == 403 <==> k == NotAdmin
    ensures code == 404 <==> k in {EntryNotFound, UserNotFound}
  {
    match k
    case NotAdmin => 403
    case EntryNotFound => 404
    case UserNotFound => 404
    case _ => 400
  }

  datatype Result<+T> = Ok(value: T) | Err(error: ErrorKind)
}
