# Wheel-draw service, modelled in Dafny

This project models the wheel-draw service of `src/services/drawService.ts`. The service keeps:

- a pool of labelled wheel entries, which are soft-deleted by clearing `isActive`;
- an append-only log of draws, grouped into numbered cycles;
- the user accounts.

In front of every operation sits an admin gate (`ensureAdmin`).

The three collections become `seq` fields of one class, `DrawService.Store`. They are `entries`, `draws` and `users`, and a counter `nextId` stands for the fresh object ids the store hands out. Each service operation is a method of that class. Each method:

- checks in the source's order;
- fails with the source's error (`Results.ErrorKind`; `Results.Status` gives its HTTP status);
- otherwise states the whole new state.

The decisions the operations take are pure functions with their own lemmas. These are:

- the label normalisation and the labels left to insert (`Labels`);
- the derived account email (`Identity`);
- the cycle resolver, the remaining-entries filter and the draw pool (`Cycles`).

The modules:

- `Results`: `Option`, `Result`, the service's errors and their status codes.
- `Text`:
  - JavaScript's `trim`;
  - the whitespace class that `\s` and `trim` share;
  - `toLowerCase`, on ASCII and Latin-1 only;
  - the replacement of whitespace runs by a dot.
- `Records`: entries, draws and accounts as datatypes; the uniqueness predicates the store's indexes keep; the by-id and by-key lookups.
- `Labels`: the normalisation `map(trim)` / `new Set` / `filter(length)`. It is computed in one pass and proved equal to the three-stage pipeline. It also holds the filter of labels already stored.
- `Identity`: the email derived from a label, and the normalisation of an admin-supplied email.
- `Cycles`: `computeCycleIndex`, the draw pool, the cycle a draw is filed under, and the invariant of a log built by `performDraw`.
- `DrawService`: `ensureAdmin`, the account loop of `addWheelEntries`, and the class `Store` with the service's operations.

The source's lookup queries are predicates in `Records` and `Labels`, used by the contracts of the rows that cite their lines: `Records.HasEmail` is `UserModel.findOne({ email })` (`drawService.ts:61`), `Records.LabelHeldByOther` and `Records.EmailHeldByOther` are the self-excluding lookups of updateWheelEntry (`:171-174`) and updateUserEmail (`:216-219`), and `Labels.TrimAll` is `labels.map((label) => label.trim())` (`:25`).

Points where the model fixes a reading of the code:

- The entry field `label` is called `name`, since `label` is a reserved word in Dafny.
- A draw is "the last draw" (`findOne().sort({ drawnAt: -1 })`) when it is the last one appended.
- `Math.floor(Math.random() * pool.length)` becomes a nondeterministic choice (`:|`) of an index into the pool.
- Labels of inactive entries stay reserved. The lookup at `drawService.ts:33-35` has no `isActive` filter, and the store's unique index covers every entry.
- Errors carry the status codes the code throws: 400, 403 and 404.
  - A malformed admin id fails with 400.
  - An unknown or non-admin account fails with 403.
  - An unknown entry or user fails with 404.
  - Everything else fails with 400.

The fallback at `drawService.ts:113` and `:122` never fires on a log built by `performDraw` alone. That is the branch taken when nothing remains in the resolved cycle, which draws from the full pool and files the draw under the next cycle. `Cycles.FallbackUnreachable` proves this. When the resolver stays in a cycle, that cycle holds fewer distinct entries than the wheel has active ones. When it moves on, nothing has been drawn in the new cycle yet. The branch is modelled as written all the same.

## Model

| member | source | states |
|---|---|---|
| Results.Status | src/services/drawService.ts:9-256 | every error is raised with 400, 403 or 404; 403 exactly for a caller who is not an admin, 404 exactly for a missing entry or user |
| Text.Trim | src/services/drawService.ts:161 | the result is trimmed, no longer than the input, empty exactly when the input is all whitespace, and equal to the input when that is already trimmed |
| Text.TrimIsSlice | src/services/drawService.ts:161 | `trim` removes exactly the leading and trailing whitespace runs: the result is the slice between them |
| Text.DotSpaceRuns | src/services/drawService.ts:58 | `replace(/\s+/g, ".")` leaves no whitespace, never lengthens, and leaves a string without whitespace unchanged |
| Text.DotSpaceRunsJoin | src/services/drawService.ts:58 | a maximal whitespace run between a whitespace-free prefix and a rest that does not start with whitespace becomes exactly one dot, and the prefix and the replaced rest are kept in order; with the clause above, this fixes the result on every string |
| Text.LowerAppend | src/services/drawService.ts:58 | lower-casing distributes over concatenation |
| Text.LowerChar | src/services/drawService.ts:58 | `toLowerCase` on one character: A-Z goes to a-z, no capital is left, whitespace stays whitespace and is not touched, and a non-capital is kept |
| Text.Lower | src/services/drawService.ts:58 | `toLowerCase` keeps the length and lower-cases each character in place |
| Labels.Dedup | src/services/drawService.ts:25 | `[...new Set(xs)]` holds each value of `xs` once and nothing else |
| Labels.DropEmpty | src/services/drawService.ts:25-27 | the filter keeps exactly the non-empty values and keeps them distinct |
| Labels.Normalize | src/services/drawService.ts:25-27 | the one-pass normalisation never lengthens the list; what it keeps is stated by the three rows below |
| Labels.NormalizeWellFormed | src/services/drawService.ts:25-27 | every normalised label is distinct from the others, trimmed and non-empty |
| Labels.NormalizeIsPipeline | src/services/drawService.ts:25-27 | the one-pass normalisation equals trim, then de-duplicate, then drop empties |
| Labels.NormalizeMembers | src/services/drawService.ts:25-27 | a label survives normalisation exactly when it is the trim of some input label and is not empty |
| Labels.NewLabels | src/services/drawService.ts:39-40 | the filter of stored labels never lengthens the list; what it keeps is stated by NewLabelsSpec |
| Labels.NewLabelsSpec | src/services/drawService.ts:33-44 | a normalised label is inserted exactly when no stored entry, active or inactive, carries it; distinct labels stay distinct |
| Identity.LocalPartIsLowerDots | src/services/drawService.ts:58 | the one-pass local part of the derived email is `label.replace(/\s+/g, ".").toLowerCase()` |
| Identity.EmailFor | src/services/drawService.ts:58 | a derived email is at least as long as the domain it ends in; EmailForShape states its shape |
| Identity.EmailForShape | src/services/drawService.ts:58 | a derived email ends in `@ibtikar-tech.com` and holds no whitespace and no capital |
| Identity.NormalizeEmail | src/services/drawService.ts:206 | `trim().toLowerCase()` gives a lower-case trimmed string and leaves an email that is already trimmed and lower-case unchanged |
| Identity.DerivedEmailIsNormal | src/services/drawService.ts:58 | a derived email passes the normalisation of updateUserEmail unchanged and contains '@' |
| Identity.EmailIgnoresCase | src/services/drawService.ts:58-63 | labels that differ only in case derive the same email, so such labels share one account |
| Identity.LocalPartIgnoresCase | src/services/drawService.ts:58 | the local part of a lower-cased label equals that of the label |
| Records.LabelsOf | src/services/drawService.ts:37 | the set of stored labels holds exactly the labels of the entries |
| Records.FindEntry | src/services/drawService.ts:135-138 | `findById` finds the first entry with the id, and finds none exactly when no entry has it |
| Records.FindUser | src/services/drawService.ts:14-15 | `findById` finds the first account with the id, and finds none exactly when no account has it |
| Cycles.ActiveEntries | src/services/drawService.ts:101 | `find({ isActive: true })` returns exactly the active entries, and unique ids stay unique |
| Cycles.IdsCount | src/services/drawService.ts:108-111 | entries with distinct ids have as many ids as entries |
| Cycles.CountInCycle | src/services/drawService.ts:88-90 | `countDocuments` never exceeds the log's length |
| Cycles.Last | src/services/drawService.ts:83 | the draw `findOne().sort({ drawnAt: -1 })` returns is one of the logged draws |
| Cycles.DrawnInCycle | src/services/drawService.ts:108 | the ids drawn in cycle c are exactly the entries of the draws filed under c |
| Cycles.ComputeCycleIndex | src/services/drawService.ts:78-97 | fails exactly on an empty wheel; 1 on an empty log; otherwise the last cycle plus one exactly when that cycle holds at least `totalEntries` draws, else the last cycle; at least 1 on a log of positive cycles |
| Cycles.Remaining | src/services/drawService.ts:109-111 | the remaining entries are exactly the active ones not drawn in the cycle |
| Cycles.ResolvedCycle | src/services/drawService.ts:107 | the cycle performDraw resolves is 1 on an empty log, otherwise the last draw's cycle or the one after it |
| Cycles.DrawPool | src/services/drawService.ts:113 | the pool is never empty and lies within the active entries; it holds every active entry not yet drawn in the resolved cycle, and when some is left it holds only those; when every active entry has been drawn it is the whole active list |
| Cycles.AssignedCycle | src/services/drawService.ts:122 | the cycle a draw is filed under is at least the last draw's and at least 1 |
| Cycles.NothingDrawnPastLast | src/services/drawService.ts:92-93 | in a log with sorted cycles, no draw lies in a cycle past the last draw's |
| Cycles.CountIsDistinctDrawn | src/services/drawService.ts:88-90 | with no entry repeated in a cycle, counting the cycle's draws counts its distinct drawn entries |
| Cycles.FallbackUnreachable | src/services/drawService.ts:107-122 | on a log built by performDraw alone, the remaining entries are never empty, so the fallback pool and the `cycleIndex + 1` branch are never taken |
| Cycles.DrawKeepsHistoryInvariant | src/services/drawService.ts:107-125 | the appended draw's cycle is at least the last one's (cycle monotonicity), its entry was not drawn before in that cycle, and the log keeps positive, sorted cycles with no entry repeated in a cycle |
| Cycles.AppendKeepsHistory | src/services/drawService.ts:118-123 | appending a draw in a positive cycle, no earlier than the last, for an entry not yet drawn there, keeps the log's invariant |
| Cycles.CycleCoversWheel | src/services/drawService.ts:88-93 | when a cycle holds as many draws as there are active entries and draws only those, every active entry has been drawn once in it |
| DrawService.EnsureAdmin | src/services/drawService.ts:9-20 | succeeds exactly for a well-formed id of an admin account and returns that account; 400 for a malformed id, 403 otherwise |
| DrawService.NewEntries | src/services/drawService.ts:39-51 | `insertMany` of the kept labels adds, per label and in order, one active entry with that label, created by the admin, whose id is the next fresh one from `start` |
| DrawService.AddPlan | src/services/drawService.ts:22-48 | the admin check comes first, then "no valid name" when normalisation leaves nothing, then "all names exist" when nothing is new; it succeeds exactly when the caller is an admin and some normalised label is new, and then gives the new labels, which are non-empty and insertable |
| DrawService.KeptLabelsAreInsertable | src/services/drawService.ts:25-44 | the labels addWheelEntries keeps are distinct, trimmed, non-empty and carried by no stored entry |
| DrawService.InsertKeepsEntriesValid | src/services/drawService.ts:51 | inserting those labels with fresh ids keeps entry ids and labels unique, trimmed and non-empty |
| DrawService.ProvisionCoversLabels | src/services/drawService.ts:57-73 | after the account loop every inserted label has an account holding its derived email |
| DrawService.ProvisionUsers | src/services/drawService.ts:57-73 | the account loop keeps every account and creates at most one per label handled; the rows around it state which accounts it creates |
| DrawService.ProvisionedAccounts | src/services/drawService.ts:57-73 | the loop keeps existing accounts; each account it creates has role "user", the hashed default code, a fresh id, and a handled label as name with that label's derived email |
| DrawService.ProvisionKeepsUnique | src/services/drawService.ts:61-71 | the loop creates an account only for a free email, so emails and ids stay unique |
| DrawService.AddAccountKeepsValid | src/services/drawService.ts:63-70 | appending an account with a free email and the next fresh id keeps accounts valid |
| DrawService.OwnLabelIsFree | src/services/drawService.ts:171-178 | the label lookup of updateWheelEntry never finds an entry's own label held by another entry, so renaming to the current label succeeds |
| DrawService.OwnEmailIsFree | src/services/drawService.ts:216-223 | likewise an account's own email is never held by another account |
| DrawService.Store.AddWheelEntries | src/services/drawService.ts:22-76 | fails exactly as AddPlan says and then changes nothing; otherwise appends one active entry per new label, created by the admin, runs the account loop, leaves the log alone, reports `inserted = |toInsert|` and `usersCreated <= inserted`, and keeps the invariant |
| DrawService.Store.InsertEntries | src/services/drawService.ts:50-75 | the bulk insert then the account loop: the entries grow by the new ones, the accounts are what the loop makes of them, and the invariant holds |
| DrawService.Store.CreateUsers | src/services/drawService.ts:54-73 | the loop creates exactly the accounts of the account-loop function and counts them in `usersCreated` |
| DrawService.Store.PerformDraw | src/services/drawService.ts:99-126 | admin errors, then 400 exactly on an empty wheel; otherwise appends exactly one draw, changes nothing else, picks an active entry from the pool, records its id, its label and the admin, and files it under the resolved cycle, at least the last one, where the winner was not drawn before |
| DrawService.Store.RemoveWheelEntry | src/services/drawService.ts:128-148 | 400 for a malformed id, 404 for a missing entry, 400 for an inactive one (so a second removal fails); otherwise clears only `isActive` of that entry |
| DrawService.Store.UpdateWheelEntry | src/services/drawService.ts:150-184 | 400 for a malformed id or a blank label, 404 for a missing entry, 400 when another entry holds the trimmed label; otherwise sets only that entry's label to the trimmed label |
| DrawService.Store.ListUsers | src/services/drawService.ts:186-193 | for an admin, the id, name, email and role of every account in store order; otherwise the gate's error |
| DrawService.Store.UpdateUserEmail | src/services/drawService.ts:195-229 | 400 for a malformed id or a normalised email without '@', 404 for a missing account, 400 when another account holds the email; otherwise sets only that account's email to the normalised one |
| DrawService.Store.UpdateUserName | src/services/drawService.ts:231-256 | 400 for a malformed id or a blank name, 404 for a missing account; otherwise sets only that account's name to the trimmed name |

## Left out

- Mongo itself is not modelled: the queries, `.lean()`, `insertMany`, `save` and the connection cache. The store is three in-memory sequences, and each operation is one sequential step. The race between concurrent requests is therefore not modelled.
- `Types.ObjectId.isValid` is not modelled. An id is either `Oid(n)` (valid) or `Malformed` (rejected); only its place in the order of checks matters.
- Unique `_id`s are an assumption. Object ids are unique by construction, so `EnsureAdmin` requires unique account ids, and the store invariant keeps all ids unique.
- `bcrypt.hash` is not modelled. The hashed default code is a parameter of `AddWheelEntries`, and access codes are opaque strings.
- The float arithmetic of `Math.random()` is not modelled. The index into the pool is an arbitrary one in range.
- Timestamps are not modelled. The last draw is the last one appended, and `listUsers` returns accounts in store order, which is insertion order, instead of sorting by `createdAt`.
- Text.LowerChar: lower-cases ASCII and the Latin-1 capitals only, not the full Unicode case mapping of `toLowerCase`.
- The schema setters (`trim: true`, `lowercase: true`) are applied only where a value could fail them: the admin account the store starts with (`DrawService.Store.constructor`) gets a trimmed name and a trimmed, lower-cased email. Every value the operations store already passes them: labels and names are trimmed, and emails are normalised. `Identity.DerivedEmailIsNormal` shows this for derived emails.
- The seeding of the admin account (`src/scripts/seed.ts`) is left out; the constructor starts the store with one admin account. The controllers, routes, scripts and UI are also left out.
- DrawService.Store.CreateUsers: the source creates accounts one `await` at a time. Between two creations it may see accounts other requests created; the model, being sequential, does not.
