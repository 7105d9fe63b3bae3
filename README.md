# scribbly: recent projects, project access, project keys and account forms

This is a Dafny model of three pieces of sequential logic in the scribbly project-collaboration web app.

- **Recent projects and the project page** (`app/routes/project.py`, module `RecentProjects`, file `recent.dfy`).
  - Each user has a cookie named `recent-<username>`. It holds up to five project ids, joined with commas, most recent first.
  - Reading the cookie keeps its first five pieces.
  - The ids can be resolved against the user's participant projects.
  - A visit rotates the list in place. The visited id moves or is inserted at the front. The last entry is evicted only when the id is new and the list is full.
  - The project page, and the cookie rewrite, are granted only when the project exists and the user is one of its participants.
- **The persistence rules** (`app/models.py`, modules `Models` and `Keys`, files `models.dfy` and `keys.dfy`).
  - User lookups and availability checks.
  - `User.update`: partial update, with a commit that depends on truthiness.
  - `User.add`.
  - `Project.add`: the owner becomes a participant, and the insert is tried at most twice.
  - The key generator: a version-4 UUID encoded with the URL-safe base64 alphabet of section 5 of RFC 4648, with the `=` padding stripped.
- **The account forms** (`app/routes/auth.py`, module `AuthForms`, file `forms.dfy`).
  - The wtforms validator chains of the email, username, password and confirmation fields.
  - The `validate` methods of the login, registration and profile forms, over a user table.
  - The register and profile routes' use of a successful validation.

Modelling choices:

- The database is a `Database` object. Its fields are the committed user rows (`seq<User>`), the projects keyed by primary key (`map`) and a count of commits.
- A project insert collides exactly when its key is already in the table. That primary key is the only uniqueness constraint a project insert can break.
- The ORM user instance that `User.update` assigns to is a `UserRecord` object. A commit writes its row back into the user table.
- A Python list changed in place (`rotate_recent_projects_ids`) is an `IdList` object with a `seq` field.
- Each form is a class whose error-list fields are set by its `Validate` method. Each `Validate` is proved equal to a pure validation function, and the properties are proved about those functions.
- These appear as explicit parameters:
  - the signed-in user;
  - the request cookies;
  - the user's participant projects (`current_user.projects`);
  - the random bytes `uuid4` draws;
  - the password hash function `hash`;
  - the password check `checkPassword`;
  - the email-format check `isEmail`.

Two facts about project access, as the code has them:

- Ownership alone grants no access: `project()` consults only `project.participants` (`OwnershipAloneGrantsNothing`). Projects that `Project.add` creates are still visible to their owners, because the owner is made a participant (`CreatorCanView`).
- `get_recent_projects` resolves ids against `current_user.projects`, the participant relation, only. Owned projects in which the owner is not a participant are not found.

## Model

| member | source | states |
|---|---|---|
| `RecentProjects.CookieName` | app/routes/project.py:28-34 | the cookie name is `recent-` followed by the username |
| `RecentProjects.CookieNamesAreDistinct` | app/routes/project.py:34 | different usernames give different cookie names |
| `RecentProjects.Join` | app/routes/project.py:161 | `",".join`: a single id joins to itself |
| `RecentProjects.Split` | app/routes/project.py:44 | `str.split(",")` yields at least one piece, no piece holds a comma, and joining the pieces gives back the string |
| `RecentProjects.SplitJoin` | app/routes/project.py:44-161 | splitting the join of a non-empty list of comma-free pieces gives the list back |
| `RecentProjects.JoinIsEmpty` | app/routes/project.py:44-161 | the join is empty exactly for `[]` and `[""]` |
| `RecentProjects.ParseIds` | app/routes/project.py:37-46 | an absent or empty cookie gives `[]`; otherwise the result is a non-empty prefix of the comma-split pieces, at most 5 long, and the whole split when it has fewer than 5 pieces |
| `RecentProjects.ParseShortCookie` | app/routes/project.py:44 | a cookie of at most 5 pieces is read back whole |
| `RecentProjects.JoinThenParse` | app/routes/project.py:44-161 | parsing the joined string gives back any list of at most 5 comma-free ids other than `[""]` |
| `RecentProjects.FirstIndex` | app/routes/project.py:75 | the index `list.remove` deletes at: the first occurrence |
| `RecentProjects.RemoveFirst` | app/routes/project.py:75 | `list.remove` shortens the list by one and takes away exactly one copy of the id. That copy is the first one: the elements before it stay in place, and the elements after it move up by one |
| `RecentProjects.WithoutRemoveFirst` | app/routes/project.py:75 | removing one copy of the id keeps the other elements in their order, with or without duplicates |
| `RecentProjects.Without` | app/routes/project.py:74-77 | reference definition of "the other ids in order": the id is absent and every other element is kept |
| `RecentProjects.RemoveFirstIsWithout` | app/routes/project.py:75 | on a duplicate-free list, removing the first occurrence equals filtering the id out, so the relative order of the rest is kept |
| `RecentProjects.Rotated` | app/routes/project.py:63-79 | the visited id is first. A tracked id keeps length and contents. A new id on a list of length at least 5 gives `[id] + L[..|L|-1]`, exactly 5 long when `|L| == 5`. A new id on a shorter list gives `[id] + L`, one longer. An input of at most 5 ids gives at most 5 |
| `RecentProjects.RotatedKeepsOthersInOrder` | app/routes/project.py:74-77 | revisiting a tracked id keeps the other ids in their relative order, even when the cookie repeats ids |
| `RecentProjects.RotatedPromotes` | app/routes/project.py:74-77 | revisiting a tracked id on a duplicate-free list gives the id followed by the other ids in their order, each once |
| `RecentProjects.RotatedKeepsNoDuplicates` | app/routes/project.py:71-77 | rotation keeps a duplicate-free list duplicate-free |
| `RecentProjects.RotatedIsIdempotent` | app/routes/project.py:71-77 | visiting the same project twice in a row changes nothing the second time |
| `RecentProjects.RotationsStayBounded` | app/routes/project.py:71-77 | from any list of at most 5 ids, any sequence of visits stays at most 5 |
| `RecentProjects.RotationsKeepNoDuplicates` | app/routes/project.py:71-77 | any sequence of visits keeps a duplicate-free list duplicate-free |
| `RecentProjects.RevisitExample` | app/routes/project.py:71-77 | visiting a, b, a from empty gives `["a", "b"]` |
| `RecentProjects.EvictionExample` | app/routes/project.py:71-77 | a new id on `["a".."e"]` evicts "e": `["f","a","b","c","d"]` |
| `RecentProjects.IdList.constructor` | app/routes/project.py:46 | a fresh list object holding the parsed ids |
| `RecentProjects.RotateRecentProjectsIds` | app/routes/project.py:63-79 | changes the caller's list in place to `Rotated` of its old contents and returns that same object |
| `RecentProjects.Matching` | app/routes/project.py:58-59 | the projects with a given id are exactly the members of the list with that id |
| `RecentProjects.RecentProjectsOf` | app/routes/project.py:49-60 | a project is returned iff it is one of the user's participant projects and its id is among the ids |
| `RecentProjects.RecentProjectsOfAppend` | app/routes/project.py:55-60 | input order is kept: the result for `a + b` is the result for `a` followed by the result for `b` |
| `RecentProjects.UnknownIdIsDropped` | app/routes/project.py:55-60 | an id matching none of the user's projects is dropped silently |
| `RecentProjects.RepeatedIdRepeatsProjects` | app/routes/project.py:55-60 | a repeated id yields its projects twice: no deduplication |
| `RecentProjects.CanView` | app/routes/project.py:142-145 | the access check of `project()`: a project that passes it exists and has at least one participant |
| `RecentProjects.OwnershipAloneGrantsNothing` | app/routes/project.py:145 | an owner who is not a participant does not pass the access check |
| `RecentProjects.CreatorCanView` | app/routes/project.py:145 | a project created by `Project.add` passes the access check for its owner |
| `RecentProjects.CookieValue` | app/routes/project.py:43 | `request.cookies.get`: `None` iff the request carries no cookie of that name, otherwise its value |
| `RecentProjects.ViewProject` | app/routes/project.py:139-168 | the page shows the project and its participants iff the project exists and the user is a participant. Exactly then, the cookie `recent-<username>` is set, HTTP-only and SameSite=Lax, to the join of the rotated parsed ids. Otherwise there is no cookie |
| `RecentProjects.WrittenCookieReadsBack` | app/routes/project.py:155-164 | for a non-empty comma-free project id, the next request parses the written cookie back to exactly the rotated list |
| `Keys.Digit` | app/models.py:98 | each 6-bit value maps to a character of the URL-safe alphabet, never `=` or `,` |
| `Keys.DigitValue` | app/models.py:98 | every alphabet character is the digit of some 6-bit value |
| `Keys.EncodeGroup` | app/models.py:98 | three bytes encode to four alphabet characters |
| `Keys.EncodeLast` | app/models.py:98 | a last group of one or two bytes encodes to four characters: digits, then `=` padding |
| `Keys.Encode` | app/models.py:98 | `urlsafe_b64encode` yields 4 characters per started group of 3 bytes |
| `Keys.EncodeIsDigitsThenPadding` | app/models.py:98 | every encoding is alphabet characters followed by exactly `(3 - n % 3) % 3` padding characters |
| `Keys.RStrip` | app/models.py:98 | `rstrip("=")` is a prefix, with every removed character `=` and a last kept character that is not `=` |
| `Keys.RStripPadding` | app/models.py:98 | stripping digits followed by padding gives back the digits |
| `Keys.Uuid4Bytes` | app/models.py:98 | `uuid4().bytes` is 16 bytes with version nibble 4 and variant bits 10; the other 122 bits are the random input |
| `Keys.GenerateKey` | app/models.py:96-104 | for any 16 random bytes, the key is 22 URL-safe characters with no `=` or `,`, so it fits `String(22)` |
| `Keys.EncodeInjective` | app/models.py:98 | equal encodings of equally long inputs come from equal bytes |
| `Keys.KeyDeterminesUuid` | app/models.py:96-98 | equal keys come only from equal UUIDs, so a key collision is a UUID collision |
| `Models.GetByEmail` | app/models.py:60-62 | `None` iff no user has the email. Otherwise the result has that email and is the first such row |
| `Models.IsEmailAvailable` | app/models.py:68-70 | true iff no stored user has the email |
| `Models.IsUsernameAvailable` | app/models.py:72-74 | true iff no stored user has the username |
| `Models.NextUserId` | app/models.py:35 | the id given to a new row is positive and larger than every id in use |
| `Models.Updated` | app/models.py:85-90 | exactly the fields whose argument is not `None` change; the password becomes the hash of the argument; the id never changes |
| `Models.UpdateCommits` | app/models.py:92 | `any([email, username, password])`: true iff some argument is given and is not the empty string |
| `Models.ReplaceRow` | app/models.py:92-93 | the table written back at the commit: the row with the instance's id takes its new fields. Every other row and the length are kept |
| `Models.ReplaceRowKeepsConstraints` | app/models.py:92-93 | a row that shares no email or username with another user keeps the UNIQUE columns when it is written back. It is then stored, if its id was |
| `Models.UpdateWithoutArgumentsIsIdentity` | app/models.py:85-93 | an update with no arguments changes nothing and does not commit |
| `Models.EmptyEmailAssignedWithoutCommit` | app/models.py:85-93 | an empty-string email is assigned but does not trigger a commit |
| `Models.Draft` | app/models.py:126-128 | a new project has `owner_id` equal to the owner's id, and the owner is its only participant |
| `Models.TwoAttemptInsert` | app/models.py:130-145 | the result is `None` iff both keys collide, and then the table is unchanged. Otherwise the project is the draft under a free key: the first key when it is free, else the second. It is added to the table |
| `Models.CreatedProjectIsStoredWithOwner` | app/models.py:126-145 | a created project is stored under its own key with its owner among its participants, and no existing project changes |
| `Models.UserRecord.constructor` | app/models.py:32-38 | an ORM instance holding a given row |
| `Models.UserRecord.Update` | app/models.py:79-93 | the instance's new fields are `Updated` of the old ones. The session commits once iff some argument is truthy. The commit writes the new row into the user table unless it would break a UNIQUE column, so the table constraints are kept |
| `Models.Database.constructor` | app/models.py:23 | an empty store satisfying the table constraints |
| `Models.Database.AddUser` | app/models.py:48-58 | the insert succeeds iff email and username are free; it appends the row with the hashed password and commits once; otherwise the users are unchanged |
| `Models.Database.CommitProject` | app/models.py:132-134 | a commit of a pending project fails and rolls back iff its key is taken |
| `Models.Database.AddProject` | app/models.py:117-145 | result and table are `TwoAttemptInsert` of the two generated keys. There is one commit when the first key is free and two otherwise, never more |
| `AuthForms.StripLeft` | app/routes/auth.py:216 | `lstrip` drops only leading white space |
| `AuthForms.StripRight` | app/routes/auth.py:216 | `rstrip` drops only trailing white space |
| `AuthForms.Strip` | app/routes/auth.py:216 | `str.strip()`: no longer than the input, and neither starting nor ending with white space |
| `AuthForms.StripBounds` | app/routes/auth.py:216 | gives the bounds `i <= j` of the slice `strip` keeps, with every character before `i` and from `j` on white space |
| `AuthForms.StripIsTrimmedSlice` | app/routes/auth.py:216 | `strip` is a slice of the input, and every character it cuts off on either side is white space. The slice neither starts nor ends with white space, and it is empty iff the input is all white space |
| `AuthForms.RunChain` | app/routes/auth.py:32-53 | one field's wtforms validator chain, run over the validator lists `EmailValidators`, `UsernameValidators`, `PasswordValidators` and `ConfirmValidators` with the source's bounds and messages. It adds at most one message per validator. Every message comes from the errors so far or from a validator of the chain. A non-blank field only has messages appended, because only a failing `DataRequired` clears the list |
| `AuthForms.EmailErrors` | app/routes/auth.py:32-36 | the email's error list: "required" alone when blank, else the format error and/or the over-255 error. It is empty iff the email is non-blank, well formed and at most 255 characters |
| `AuthForms.UsernameErrors` | app/routes/auth.py:38-42 | the username's error list. It is empty iff the username is non-blank and 4 to 255 characters long |
| `AuthForms.PasswordErrors` | app/routes/auth.py:44-47 | the password's error list. It is empty iff the password is non-blank and at least 8 characters long |
| `AuthForms.ConfirmErrors` | app/routes/auth.py:49-53 | the confirmation's error list. It is empty iff the confirmation is non-blank, at least 8 characters long and equal to the password |
| `AuthForms.LoginValidation` | app/routes/auth.py:69-81 | field errors cause rejection and are kept. Otherwise rejection puts "Incorrect email or password." on both fields. An unknown email is always rejected |
| `AuthForms.LoginAcceptedIff` | app/routes/auth.py:69-81 | on a table with unique emails, a login is accepted iff the fields are valid, a user with that email exists and the password check passes for that user |
| `AuthForms.RegisterValidation` | app/routes/auth.py:106-119 | accepted iff the fields are valid and no user has the email or the username. A taken email is reported alone, with the username unchecked. A taken username with a free email is reported on the username |
| `AuthForms.TakenEmailHidesTakenUsername` | app/routes/auth.py:111-117 | when email and username are both taken, only the email error appears |
| `AuthForms.FirstConflict` | app/routes/auth.py:144-150 | `None` iff no user with a different id shares the username or the email. Any result is such a user |
| `AuthForms.ProfileValidationAsWritten` | app/routes/auth.py:134-159 | the source's profile validation, which reports a conflict on the fields it shares with the signed-in user. Its accept/reject decision equals `ProfileValidation`'s. Acceptance leaves both error lists empty, and invalid fields give the field validators' errors |
| `AuthForms.ProfileConflictUnreportedAsWritten` | app/routes/auth.py:152-157 | on a table with unique emails and usernames that holds the signed-in user, a conflicting profile is rejected with both error lists empty |
| `AuthForms.ProfileValidation` | app/routes/auth.py:134-159 | an unauthenticated user is rejected. Acceptance means the fields are valid and no other user (different id) shares the username or the email, so the user's own row never conflicts. A rejected conflict puts a message on at least one field |
| `AuthForms.AcceptedProfileCommits` | app/routes/auth.py:233-237 | accepted profile data is non-empty, so `update` always commits |
| `AuthForms.LoginForm.constructor` | app/routes/auth.py:56-67 | a form with the submitted data and empty error lists |
| `AuthForms.LoginForm.Validate` | app/routes/auth.py:69-81 | the result and both error lists are `LoginValidation`'s |
| `AuthForms.RegisterForm.constructor` | app/routes/auth.py:84-104 | a form with the submitted data and empty error lists |
| `AuthForms.RegisterForm.Validate` | app/routes/auth.py:106-119 | the result and all four error lists are `RegisterValidation`'s |
| `AuthForms.ProfileForm.constructor` | app/routes/auth.py:122-132 | a form with the submitted data and empty error lists |
| `AuthForms.ProfileForm.Validate` | app/routes/auth.py:134-159 | the result and both error lists are `ProfileValidationAsWritten`'s: the source's comparison with the signed-in user's email and username |
| `AuthForms.Register` | app/routes/auth.py:208-224 | a signed-in visitor changes nothing. Otherwise the form's errors are `RegisterValidation`'s against the typed email, and a rejected form stores nothing and commits nothing. An accepted form commits once, and it inserts iff the stripped email is free. When nothing is created, the user table is unchanged. A created user has the stripped email and the hashed password |
| `AuthForms.Profile` | app/routes/auth.py:227-237 | the form is validated against the stored user table, and its result and errors are `ProfileValidationAsWritten`'s for the signed-in user, whose row is stored. The decision is `ProfileValidation`'s. A valid form whose data another user shares is rejected with no message. On acceptance the user's email and username become the submitted ones with one commit, the user's row in the table is replaced, and the table keeps its constraints, so the new email and username are then taken. Otherwise nothing changes |

## Left out

- HTTP plumbing is not modelled: request handling, templates, redirects, the `login_required` guard, session messages and `login_user`. Routes are modelled for submitted (POST) forms only. `is_submitted` and the CSRF token field are outside the model.
- The `browser()` and `create()` routes and `CreateProjectForm` are not modelled. `browser()` only composes `ParseIds` and `RecentProjectsOf` with listings.
- The `db-fake`, `db-drop` and `db-test` commands and the app factory are development and configuration code.
- Password hashing and checking, the email-format validator and `uuid4`'s randomness are parameters. They are library code with no logic of this app.
- `Models.UserRecord.Update`: the uncaught IntegrityError of a row that clashes with another user's email or username is modelled as the user table left unchanged. The instance keeps its new fields. Assignments made without a commit stay on the instance; a later autoflush that would write them is not modelled.
- `Models.Database.AddUser`: the uncaught IntegrityError of a taken email or username is modelled as a `None` result with the table unchanged. The model does not raise an exception.
- `Models.Database.AddProject`: only the project primary key can collide. Foreign keys are not enforced by the store the app uses. The association rows are kept as the project's `participants` list.
- Rollback is modelled only as leaving the project table unchanged. Other pending changes that a real rollback would discard are not modelled.
- `RecentProjects.RecentProjectsOf`: the order of `current_user.projects` comes from the database and is a parameter.
- The `print("VALIDATING!")` at the start of `ProfileForm.validate` is console output with no effect on the result, and it is left out.
- The `created_at` columns filled by the database's server default are left out: no logic of the app reads them.
- `hash` is a parameter and a deterministic function, while `generate_password_hash` salts randomly. A stored password is stated to be `hash` of the submitted one, and no lemma relies on two calls hashing alike.
- `AuthForms.IsSpace` follows Python's `str.isspace` character list. No other Unicode handling is modelled.

## Findings

| source | as written | input that shows it | evidently intended | confidence | as-written member | corrected member |
|---|---|---|---|---|---|---|
| app/routes/auth.py:152-157 | The conflicting user found by the query is reported on the email field only if its email equals the signed-in user's own email, and on the username field only if its username equals the signed-in user's own username. It has a different id, and the table keeps emails and usernames unique, so neither holds. | Users (1, alice@example.com, alice) and (2, bob@example.com, bob). Bob submits email bob@example.com and username alice. `validate` returns False and both error lists stay empty (`AuthForms.ProfileConflictUnreportedAsWritten`). | Compare with the submitted `self.email.data` and `self.username.data`, so the taken field gets its message. | high; not executed | `AuthForms.ProfileValidationAsWritten` | `AuthForms.ProfileValidation` |
