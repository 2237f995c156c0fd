# User registry service — Dafny model

This project models the request handlers of a small Express service that keeps
a list of users in memory (`testData`). Each user record has an `id`, `name`,
`age`, `email` and `role`. The handlers covered are:

- get a user by id;
- create a user, which checks the fields and generates a UUID-shaped id;
- partially update a user;
- delete a user;
- list the users that have a given role.

Each handler becomes a pure function. It takes the registry (`seq<User>`) and
the request, and returns an `Outcome`: the response (HTTP status, `success`
flag, message tag, optional `data`, optional `total`) paired with the registry
the handler leaves behind.

Files and modules:

- `fields.dfy` (`Fields`): an `Option` type for request fields that may be absent; JavaScript falsiness for string and number fields; the age range [18, 65]; the role list `admin`, `editor`, `viewer`.
- `email.dfy` (`Email`): the email pattern `^[^\s@]+@[^\s@]+\.[^\s@]+$`. `MatchesEmailPattern` gives its meaning as a regex: three non-empty runs of characters that are neither whitespace nor `@`, separated by `@` and `.`. `IsValidEmail` is the check the handlers run: no whitespace, exactly one `@`, something before it, and a dot after it with a character on each side. The two are proved equal.
- `ids.dfy` (`Ids`): the id generator. Each placeholder of `xxxxxxxx-xxxx-4xxx-yxxx-xxxxxxxxxxxx` is replaced by a hex digit made from one random nibble. The random source is an explicit parameter: the 31 nibbles `Math.random() * 16 | 0` would have drawn.
- `users.dfy` (`Users`): the `User` record and the registry. Also the first-match search used by `find`/`findIndex`, and the role filter used by `filter`.
- `handlers.dfy` (`Handlers`): the five handlers, with the response envelope and the message tags. The update handler is modelled as the source runs it: one field after another, stopping at the first check that fails. It is proved equal to a field-by-field patch that stops at the first refused field.
- `scenarios.dfy` (`Scenarios`): properties that span several handler calls: create-then-get, delete-then-get, what happens to id uniqueness, and concrete request scenarios.

Messages are tags, not the Chinese texts the service sends. Each tag's comment gives its text.

Three behaviours of the code are easy to miss; the model keeps them as written:

- Update does not check every supplied field. `name` is never checked. `name`, `email` and `role` are skipped when falsy. `age` is checked whenever it is present, so an age of 0 is refused with the age message instead of being skipped.
- A failed update check still changes the registry. Fields assigned before the failing check stay written.
- Delete keeps the remaining records in their original order, because it removes the record with `splice`.

## Model

| member | source | states |
|---|---|---|
| Fields.IsTruthyString | server.js:89 | the negation of `!s` (and the test `if (s)` at server.js lines 162, 172 and 182) on a string field: true exactly when the field is present and not the empty string; no contract of its own, used by the create presence check and the update's name, email and role guards |
| Fields.IsTruthyNumber | server.js:89 | `!age` negated on a number field: true exactly when the age is present and not 0; no contract of its own, used by the create presence check |
| Fields.IsValidAge | server.js:97 | the negation of `age < 18 \|\| age > 65`: the inclusive range 18..65; no contract of its own, used by the create age check and the update age check at server.js line 164 |
| Fields.IsValidRole | server.js:105-106 | `validRoles.includes(role)` (also at server.js lines 184 and 244): strict equality with `admin`, `editor` or `viewer`; no contract of its own, used by create, update and the role filter |
| Email.IsWhitespace | server.js:114 | `\s` of the pattern: the ECMAScript WhiteSpace characters (TAB, VT, FF, space, NBSP, BOM and the Unicode space separators) plus the LineTerminator characters (LF, CR, LS, PS); no contract of its own |
| Email.MatchesEmailPattern | server.js:114 | what the anchored pattern accepts: three non-empty runs of characters that are neither `\s` nor `@`, separated by `@` and `.`; no contract of its own, related to the handlers' check by Email.EmailCheckIsPattern |
| Email.IsValidEmail | server.js:114-115 | the test the handlers run (also at server.js lines 173-174): no whitespace, exactly one `@` with something before it, and a dot after it with a character on each side; equal to Email.MatchesEmailPattern by Email.EmailCheckIsPattern |
| Email.EmailCheckIsPattern | server.js:114-115 | the handlers' email check accepts a string exactly when the anchored pattern `^[^\s@]+@[^\s@]+\.[^\s@]+$` matches it |
| Email.EmailAcceptsExamples | server.js:114 | `a@b.c` and the dotted domain `a@b.c.d` pass |
| Email.EmailRejectsExamples | server.js:114 | `noatsign.com`, a second `@`, a space, and an empty local part each fail |
| Ids.HexDigit | server.js:126 | `toString(16)` of a nibble is a lower-case hex digit |
| Ids.HexValue | server.js:126 | every lower-case hex digit is `toString(16)` of exactly the nibble it stands for |
| Ids.VariantNibble | server.js:125 | `r & 0x3` or-ed with `0x8` is `8 + r % 4`, so it is one of 8, 9, 10, 11 |
| Ids.Substitute | server.js:123-127 | the replacement keeps the template's length; each `x` becomes a lower-case hex digit, each `y` becomes one of `8 9 a b`, and every other character is copied |
| Ids.SubstituteRecover | server.js:123-127 | every string that fits the template is the result of substituting some draws, so the substitution can produce exactly the strings that fit |
| Ids.TemplateLayout | server.js:123 | the template has 36 characters and 31 placeholders; hyphens are at 8, 13, 18 and 23, `4` is at 14, `y` is at 19, and every other position is `x` |
| Ids.ConformsIsUuidShape | server.js:123 | fitting the template is the same as the UUID layout: length 36, the hyphens, `4` at 14, `8 9 a b` at 19, lower-case hex elsewhere |
| Ids.GenerateId | server.js:123-127 | an id generated from 31 draws has the UUID layout |
| Ids.DrawsOf | server.js:123-127 | the inverse of the generator: every string with the UUID layout is the id generated from the 31 draws this function reads back from it |
| Users.FindIndex | server.js:153-154 | `findIndex` returns the first position whose id equals the argument, or -1 (`None`) exactly when no record has that id |
| Users.FindIndexUnique | server.js:59 | when ids are unique, the search finds the only record that has the id |
| Users.FilterByRole | server.js:251 | every listed record is a registry record with the role, every registry record with the role is listed, and the list is no longer than the registry |
| Users.FilterByRoleAppend | server.js:251 | filtering a concatenation is the concatenation of the filtered parts, which is the order-preserving law |
| Users.FilterIsOrderedSubsequence | server.js:251 | the k-th record of the filtered list is the registry record at the k-th matching position; those positions strictly increase and are exactly the positions whose record has the role |
| Handlers.GetUser | server.js:56-73 | the registry is unchanged; 404 exactly when no record has the id; whenever some record has the id, 200 with the first record that has it; no other status |
| Handlers.HasAllFields | server.js:89 | the presence check `!name \|\| !age \|\| !email \|\| !role` negated; no contract of its own, characterised by Handlers.MissingFieldIsFalsy |
| Handlers.MissingFieldIsFalsy | server.js:89 | a field is missing exactly when it is absent, the empty string or the number 0 (JavaScript falsiness) |
| Handlers.CreateRejection | server.js:89-120 | the checks run in order (presence by falsiness, then age, then role, then email) and the first one that fails gives the message; each message is characterised with an if-and-only-if |
| Handlers.CreateUser | server.js:84-137 | when a check fails: 400 with that check's message and the registry unchanged. Otherwise: the registry is the old one plus one record at the end; that record has the given name, age, email and role, the id generated from the draws (so UUID-shaped), an age in range, a valid role and an email matching the pattern; the response is 201 with that record |
| Handlers.ApplyUpdate | server.js:161-191 | the update's field assignments as written: the id is never changed, a truthy name is always written (even when a later check fails), a falsy name leaves the name, the only messages are the age, email and role ones, and an age refusal changes nothing but the name; equal to Handlers.PatchBefore by Handlers.ApplyUpdateIsPatchBeforeFirstRefusal |
| Handlers.FirstRefused | server.js:161-191 | the field reported is a refused one, and no refused field comes before it in the order name, age, email, role |
| Handlers.ApplyUpdateIsPatchBeforeFirstRefusal | server.js:161-191 | the update's sequential assignments give the same record as writing every supplied field that comes before the first refused field and leaving all later fields unchanged; the message is the refused field's |
| Handlers.UpdateUser | server.js:150-198 | unknown id: 404 and the registry unchanged. Otherwise: same length, every other record unchanged, the id kept, and the record partially patched up to the first refused field; 200 with the stored record when no field is refused, else 400 with that field's message |
| Handlers.SpliceOut | server.js:221 | `splice(i, 1)` keeps the records before `i`, moves the later ones down by one, shortens the list by one, and loses only the record at `i` |
| Handlers.DeleteUser | server.js:211-227 | unknown id: 404 and the registry unchanged. Otherwise: the first record with the id is removed, the length drops by one, records before it stay and records after it move down by one, the multiset loses exactly that record, and the response carries the removed record |
| Handlers.ListUsersByRole | server.js:241-259 | the registry is unchanged; 400 exactly when the role is not one of the three; otherwise 200 with the filtered records (a registry record is listed exactly when its role is the requested one) and `total` equal to their number |
| Scenarios.CreateThenGet | server.js:97-137 | when the generated id was not already in the registry, getting it right after a create returns the created record |
| Scenarios.CreatePreservesUniqueIdsWhenFresh | server.js:123-130 | a create whose generated id is not already present keeps ids unique; a successful create with a taken id does not (see Scenarios.CreateDoesNotCheckCollisions) |
| Scenarios.CreateDoesNotCheckCollisions | server.js:123-130 | create appends even when the generated id is already used, which leaves two records with the same id |
| Scenarios.UpdatePreservesIds | server.js:162-190 | update never changes any record's id, so it keeps ids unique |
| Scenarios.DeletePreservesUniqueIds | server.js:221 | delete keeps ids unique, and with unique ids no remaining record has the deleted id |
| Scenarios.DeleteThenGetNotFound | server.js:59-66 | with unique ids, getting an id right after deleting it answers 404 |
| Scenarios.GetIsRepeatable | server.js:59-73 | getting the same id twice in a row gives the same answer |
| Scenarios.FiltersByValidRoleCoverValidRecords | server.js:244-258 | a record with a valid role appears in the list for its own role and in no list for another role |
| Scenarios.CreateRejectionDependsOnlyOnAge | server.js:89-120 | a body whose name, email and role pass and whose age is present and non-zero is accepted exactly when the age is in range, and otherwise refused with the age message |
| Scenarios.AnnEmailMatches | server.js:114-115 | `ann@x.com` matches the email pattern |
| Scenarios.AnnBodyRejection | server.js:89-120 | Ann's body (name `Ann`, email `ann@x.com`, role `viewer`) with a non-zero age is accepted exactly when the age is in range |
| Scenarios.CreateAgeZeroIsMissing | server.js:89-94 | create treats age 0 as a missing field, not as an out-of-range age |
| Scenarios.UpdateAgeZeroIsOutOfRange | server.js:163-169 | update treats age 0 as a supplied age and refuses it as out of range |
| Scenarios.CreateAgeBoundaries | server.js:97-102 | create accepts ages 18 and 65 and refuses 17 and 66 with the age message |
| Scenarios.CreateAnnInEmptyRegistry | server.js:123-137 | creating a valid viewer in an empty registry answers 201 with a UUID-shaped id, and the registry then holds only that record |
| Scenarios.UpdateKeepsNameWrittenBeforeRefusedAge | server.js:162-169 | a new name followed by a refused age answers 400, but the new name is already stored |
| Scenarios.UpdateUnknownIdIsNotFound | server.js:153-159 | an update for an unknown id answers 404 and changes nothing |
| Scenarios.FilterBySuperadminIsBadRequest | server.js:244-249 | filtering by the role `superadmin` answers 400 |

## Left out

- Listing all users (server.js:37-53) and the health probe (server.js:270-278). The listing is not part of the modelled core. The probe reads the wall clock and the process uptime.
- Express and cors setup, response headers, `app.listen` and console logging (server.js:1-19, 281-286). These are I/O plumbing.
- Loading the seed file (server.js:21-34). The initial registry is a parameter of every handler.
- The `try`/`catch` paths that answer 500. Nothing in the typed model can throw.
- JavaScript dynamic typing. Names, emails and roles are strings and ages are integers; `null`, string ages and `NaN` are not modelled. In particular, update would refuse `age: null` (`null < 18` is true), and the model cannot express that.
- `Math.random() * 16 | 0`. The generator takes the resulting nibbles as a parameter.
- The email pattern runs over UTF-16 code units, while the model works on Unicode characters. The verdict is the same either way, because neither half of a surrogate pair is whitespace or `@`. `\s` is written out as the ECMAScript whitespace and line-terminator characters.
- Id uniqueness on create: not promised, because the new id may already be in use. The source does no collision check; `Scenarios.CreateDoesNotCheckCollisions` shows a duplicate, and `Scenarios.CreatePreservesUniqueIdsWhenFresh` states the condition under which uniqueness holds.
