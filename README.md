# LearnSync backend core in Dafny

This project models the decision logic of the LearnSync school-management backend: the
Express handlers of the school, device and user controllers and the two access guards in
front of them. The Prisma store becomes one `Database.Db` object whose fields are the tables
(maps, sets and sequences). Each handler becomes a method. It returns `Ok(status, value)` or
`Fail(status, message)`, and its `modifies` clause names exactly the tables it writes. Each
method's contract gives the reply of every branch of the handler's guard chain, and the new
state.

Modules, one per area of the backend:

- `Common`: the JSON body fields (`Json`, JavaScript truthiness, `Array.isArray` plus the
  `typeof` test on ids) and the row-count guard the handlers use to check that a list of ids
  was found.
- `Database`: the entities and the store, with the invariants that keep ids fresh.
- `Middleware`: the `access` and `admin` guards.
- `Hierarchy`: the group forest. Its acyclicity is witnessed by a rank map. It defines
  ancestors, descendants and reparenting.
- `Groups`: `createGroup`, `assignToGroup`, `unAssignFromGroup`, `getGroupMembers` and
  `editGroup`, with their recursive walks as recursive methods.
- `Membership`: invitations, admissions, `removeFromSchool`, `assignToSubject` and the role
  counts of the school page.
- `Marks`: marks-table rows and the submission of a student's marks.
- `Devices`: the device controller (sign-in, sessions, absentees, fingerprints, attendance).
- `Sessions`: the attendance list of a session.
- `Text`: the JavaScript string operations the handlers call: `indexOf`, `split`, `join`,
  and `replace` with its `$` patterns.
- `Validation`: the email and password regular expressions, the name-length rule, `trim`,
  the reset-token window and the verification mail.
- `Accounts`: registration, login, activation and password reset.
- `Uploads`: the parse of an uploaded file's Cloudinary URL.

Outside inputs are parameters:

- the clock (`now`, integer milliseconds);
- random tokens;
- the bcrypt hash and comparison (`hash`, `matches`);
- the request's origin, the mail template and the year;
- the Cloudinary account name (`cloudName`);
- whether a store call raises (`storeFails`).

## Model

| member | source | states |
|---|---|---|
| Middleware.Access | backend/backend/middleware/accessMiddleware.ts:6-23 | A failing lookup answers 500 "Internal Error". A non-member gets 404 and the request is left untouched. A member passes, with `role` set to the role its school membership holds and `isAdmin` true exactly for SUPER_ADMIN and ADMIN. |
| Middleware.AdminGate | backend/backend/middleware/adminMiddleware.ts:6-28 | The guard passes iff the user holds SUPER_ADMIN or ADMIN in the school. Otherwise it answers 403, or 500 when the lookup raises. |
| Middleware.AdminRejectsOthers | backend/backend/middleware/adminMiddleware.ts:21-23 | Teachers, students and non-members get 403 "Forbidden". |
| Middleware.AdminAgreesWithAccess | backend/backend/middleware/adminMiddleware.ts:10-17 | `admin` passes exactly when `access` passes the same user with `isAdmin` set. |
| Common.NumberArray | backend/backend/controllers/schoolController.ts:2500-2502 | A body field is read as ids iff it is an array whose entries are all numbers; the ids are those numbers, in order. |
| Common.CountGuard | backend/backend/controllers/schoolController.ts:2504-2515 | The number of listed ids that were found equals the list length iff no id is listed twice and every id was found. |
| Common.AsciiLower | backend/backend/controllers/schoolController.ts:19-25 | Lower-casing maps exactly the letters A-Z and keeps the length, so the role words compare as `toLowerCase` compares them. |
| Database.FirstSubjectMember | backend/backend/controllers/schoolController.ts:2927-2937 | `findFirst` gives the first membership of the user in the subject and school, and none iff there is no such membership. |
| Hierarchy.AncestryRanks | backend/backend/controllers/schoolController.ts:2521-2541 | The parent walk only meets existing groups that rank below the group it starts from, so it ends. |
| Hierarchy.NotOwnAncestor | backend/backend/controllers/schoolController.ts:2521-2541 | In a forest no group is its own ancestor or its own descendant. |
| Hierarchy.DescendantStep | backend/backend/controllers/schoolController.ts:2208-2253 | A group lies below `g` iff its parent is `g` or lies below `g`. |
| Hierarchy.ChildDescendants | backend/backend/controllers/schoolController.ts:2208-2253 | A child lies below its parent, and the child's subtree is strictly smaller, so the recursive walks end. |
| Hierarchy.CoverStep | backend/backend/controllers/schoolController.ts:2237-2252 | Visiting one child and its subtree keeps the walk's invariant: the visited groups are the subtrees of the visited children. |
| Hierarchy.CoverDone | backend/backend/controllers/schoolController.ts:2237-2252 | A walk that has visited every child has covered exactly the groups below `g`. |
| Hierarchy.DescendantVia | backend/backend/controllers/schoolController.ts:2208-2253 | Everything below `g` is a child of `g` or lies below one. |
| Hierarchy.LineageShape | backend/backend/controllers/schoolController.ts:2518-2541 | The list `getGroupParents` builds starts at the group. Each entry's parent is the next entry, the last has no parent, and no group appears twice. |
| Hierarchy.LineageIsAncestors | backend/backend/controllers/schoolController.ts:2518-2541 | The list holds exactly the group and every group the group lies below. |
| Hierarchy.ReparentFrame | backend/backend/controllers/schoolController.ts:2336-2387 | Reparenting changes only the group's parent and the parents of its direct children, and those only to null. Names and schools are kept. |
| Hierarchy.ReparentKeepsForest | backend/backend/controllers/schoolController.ts:2336-2387 | From a forest, giving a group no parent or an existing parent other than itself leaves a forest, even when the new parent lay below the group. |
| Hierarchy.RenameKeepsForest | backend/backend/controllers/schoolController.ts:2324-2329 | Renaming touches no parent link. |
| Hierarchy.SelfParentingCycles | backend/backend/controllers/schoolController.ts:2336-2387 | As written, making a group its own parent leaves it as its own parent, and the result is not a forest. |
| Hierarchy.Reparented | backend/backend/controllers/schoolController.ts:2336-2387 | The groups after `editGroup` writes the new parent, detaching the direct children first when the new parent lay below the group; `Hierarchy.ReparentFrame`, `Hierarchy.ReparentKeepsForest` and `Hierarchy.SelfParentingCycles` state what changes. |
| Groups.MembersInUnion | backend/backend/controllers/schoolController.ts:2237-2252 | The members of a union of groups are the union of their members. |
| Groups.CreateGroup | backend/backend/controllers/schoolController.ts:2280-2301 | An empty name gives 400. A parent id that names no group makes the insert fail (500) with nothing written. Otherwise a fresh group with the given name, school and parent is added and nothing else changes. The forest invariant is kept. |
| Groups.GroupParents | backend/backend/controllers/schoolController.ts:2518-2541 | The recursive walk returns the group's lineage. |
| Groups.AssignToGroup | backend/backend/controllers/schoolController.ts:2482-2557 | Gives 403 for another school's group. Gives 400 for a missing or non-numeric id list. Gives 404 when an id is not a school member or is listed twice. Each failure writes nothing. Success adds exactly the pairs ids × (group and its ancestors). It reports how many of them are new. |
| Groups.AssignTwice | backend/backend/controllers/schoolController.ts:2543-2550 | Repeating a successful assignment creates nothing (count 0) and leaves the memberships as they were. |
| Groups.UnAssignFromGroup | backend/backend/controllers/schoolController.ts:2562-2627 | Applies the same guards as assignment, plus 400 when a listed user is not a direct member. Success deletes exactly the (user, group) rows. Memberships of every other group, ancestors and descendants included, survive in every case. |
| Groups.AddNewMembers | backend/backend/controllers/schoolController.ts:2238-2250 | Appends the child group's members that are not listed yet. The list keeps its prefix, gains exactly those ids, has no repeats and carries each user's school role. |
| Groups.CollectBelow | backend/backend/controllers/schoolController.ts:2208-2253 | The recursive walk adds exactly the members of the groups below `g`, without repeats. |
| Groups.GetGroupMembers | backend/backend/controllers/schoolController.ts:2169-2275 | Gives 404 for a missing group, checked before 403 for another school's group. Otherwise the reply lists the direct members first. Its ids are the members of the whole subtree, each once, with their school roles. |
| Groups.WalkBelow | backend/backend/controllers/schoolController.ts:2340-2360 | `checkParentGroupChild` collects exactly the groups of the subtree whose parent is the edited group, and notes whether the new parent lies in the subtree. |
| Groups.DetachIfBelow | backend/backend/controllers/schoolController.ts:2336-2377 | When the new parent is set, differs from the current one and lies below the group, every direct child of the group loses its parent; otherwise nothing changes. |
| Groups.EditGroup | backend/backend/controllers/schoolController.ts:2306-2394 | Gives 403 for another school's group. Gives 400 when the group would become its own parent (corrected, see Findings). Gives 500 for a parent id that names no group. Otherwise the groups become the reparented and renamed forest, and the invariant is kept. |
| Membership.InviteRole | backend/backend/controllers/schoolController.ts:19-25 | Each role word, in any case, maps to its role, and every other word is refused. |
| Membership.InviteNeverSuperAdmin | backend/backend/controllers/schoolController.ts:19-25 | No invitation grants SUPER_ADMIN. |
| Membership.InviteUser | backend/backend/controllers/schoolController.ts:11-47 | Gives 400 for a missing role, 500 for a non-string role, 400 for an unknown role word and 500 when the token is taken. Success stores exactly one invitation with the school and role. |
| Membership.AcceptInvitation | backend/backend/controllers/schoolController.ts:98-149 | Gives 404 for an unknown token, 403 for a current member and 403 while a request waits. Success adds one PENDING admission with the invitation's school and role. At most one request per user and school waits. |
| Membership.AcceptTwice | backend/backend/controllers/schoolController.ts:123-133 | Accepting again while the first request waits is refused. |
| Membership.Decision | backend/backend/controllers/schoolController.ts:203-211 | "accept" and "reject", in any case, are the only decisions, and none of them is PENDING. |
| Membership.AdmissionReview | backend/backend/controllers/schoolController.ts:185-237 | Gives 403 for another school's admission. Gives 400 or 500 for a missing or non-string status, and 400 for other words. An accepted admission is final. Reject sets REJECTED and adds no membership. Accept sets ACCEPTED, then inserts the membership with the admission's role; the insert fails for a current member after the status is written. |
| Membership.ReviewAfterAccept | backend/backend/controllers/schoolController.ts:207-209 | After an acceptance every further review fails and changes no admission. |
| Membership.SchoolGroupIds | backend/backend/controllers/schoolController.ts:278-288 | The loop lists every group of the school once. |
| Membership.DropMembers | backend/backend/controllers/schoolController.ts:269-276 | The remaining subject memberships are exactly those not held by the listed users in this school. |
| Membership.RemoveFromSchool | backend/backend/controllers/schoolController.ts:242-315 | Gives 400 for a missing or non-numeric list and 404 unless every id is a distinct school member; each failure writes nothing. Success deletes the users' subject memberships of the school, group memberships of the school's groups and school memberships. Other schools are untouched. |
| Membership.SubjectRoleWord | backend/backend/controllers/schoolController.ts:863-865 | "student" and "teacher", in any case, are the subject roles. |
| Membership.UnassignedExact | backend/backend/controllers/schoolController.ts:880-892 | The filter keeps a listed user iff the user has no membership in the subject, in list order and without repeats. |
| Membership.AssignKeepsOneEach | backend/backend/controllers/schoolController.ts:880-905 | Assigning the filtered users keeps at most one membership per user and subject. |
| Membership.AssignToSubject | backend/backend/controllers/schoolController.ts:841-912 | Gives 403 for another school's subject. Gives 400 for missing fields or non-numeric ids, 500 for a non-string role, 400 for an unknown role and 404 unless every id is a distinct school member. Success appends exactly one membership per user not yet in the subject, with the subject, school and role, and reports their number. |
| Membership.RoleCountsPartition | backend/backend/controllers/schoolController.ts:461-462 | The four role counts (the members of the school holding each role) add up to the school's member count, so students plus teachers never exceed it. |
| Marks.RowBodyError | backend/backend/controllers/schoolController.ts:2676-2688 | A row body passes iff the name is a string, the max a number and the count a boolean, and the name and max are truthy. The type error is reported first. |
| Marks.ZeroMaxRefused | backend/backend/controllers/schoolController.ts:2686 | A max of 0 is refused as a missing field. |
| Marks.NegativeMaxAccepted | backend/backend/controllers/schoolController.ts:2678-2688 | Any non-zero max, negative included, is accepted. |
| Marks.AddMarksTableRow | backend/backend/controllers/schoolController.ts:2662-2714 | Gives 403 unless the actor is an admin or teaches the subject, then 400 with the body error, then 500 when the subject is gone. Success adds one fresh row and one MARK_TABLE_ADD log. Each failure writes nothing. |
| Marks.EditMarksTableRow | backend/backend/controllers/schoolController.ts:2719-2796 | Gives 403 unless the actor is an admin or teaches the subject, then 404 for a row outside the subject, then 400 with the body error. Success replaces the row's fields and writes one log with only the base text, because the `concat` result is discarded. Each failure writes nothing. |
| Marks.NoDupOccurrences | backend/backend/controllers/schoolController.ts:2966-2970 | A list has no repeats iff every row id occurs at most once (the `filter` length test). |
| Marks.MarkCheck | backend/backend/controllers/schoolController.ts:2959-2979 | One mark passes iff its row is in the subject's table, its row id occurs once and its value is at most the row's max. |
| Marks.FirstErrorNone | backend/backend/controllers/schoolController.ts:2959-2979 | The loop finds no error iff every mark passes. |
| Marks.MarksAccepted | backend/backend/controllers/schoolController.ts:2959-2979 | A submission passes iff every row is in the table, no row is listed twice and no value exceeds its max. No lower bound is checked. |
| Marks.ValidateMarks | backend/backend/controllers/schoolController.ts:2959-2979 | The validation loop returns the first error. |
| Marks.EntryRule | backend/backend/controllers/schoolController.ts:2990-3005 | A mark has a diff entry iff its value differs from the stored one, where a missing mark counts as 0. The entry reports that stored value. |
| Marks.Diff | backend/backend/controllers/schoolController.ts:2990-3005 | The diff the handler builds; `Marks.EntryRule` and `Marks.DiffExact` state which marks get an entry. |
| Marks.DiffExact | backend/backend/controllers/schoolController.ts:2990-3005 | Every diff entry is a real change of a listed mark. Every listed mark that changes has its entry. |
| Marks.DiffMarks | backend/backend/controllers/schoolController.ts:2990-3005 | The diff loop computes the diff. |
| Marks.OverwriteListed | backend/backend/controllers/schoolController.ts:3007-3023 | Without repeated rows, the student's marks on the listed rows become the submitted values. |
| Marks.OverwriteKeeps | backend/backend/controllers/schoolController.ts:3007-3023 | Every other mark is kept, including the student's marks on rows not listed. |
| Marks.Overwrite | backend/backend/controllers/schoolController.ts:3007-3023 | The marks after the upsert loop; `Marks.OverwriteListed` and `Marks.OverwriteKeeps` state which marks change and which stay. |
| Marks.WriteChangeLogs | backend/backend/controllers/schoolController.ts:3025-3036 | The log loop appends one MARK_CHANGE log per diff entry, in order, with the school, actor, subject, student and the old and new values, and changes nothing else. |
| Marks.ApplyMarks | backend/backend/controllers/schoolController.ts:2981-3036 | The marks become the overwrite and the logs gain the change logs of the diff against the old marks. |
| Marks.AddMarksToStudentTable | backend/backend/controllers/schoolController.ts:2913-3043 | Gives 403, then 404 for a non-member student, then 403 for a non-student, then 400 for a missing or non-array body, then the first mark error. Success holds iff all of these pass. It overwrites exactly the listed marks and logs one change per changed mark. Each failure writes nothing. |
| Devices.FindCredential | backend/backend/controllers/deviceController.ts:19-29 | The first credential with the id, and none iff no credential has it. |
| Devices.LoginDevice | backend/backend/controllers/deviceController.ts:10-52 | Gives 400 for missing fields. Success holds iff the credential exists and the password matches its hash. The reply carries the credential's id, public id and school, never its hash. |
| Devices.DeviceLoginUniformError | backend/backend/controllers/deviceController.ts:31-39 | An unknown id and a wrong password get the same 400 "Incorrect id or password". |
| Devices.Students | backend/backend/controllers/deviceController.ts:69-98 | `getStudents` returns no more entries than there are accounts. An entry is in the reply iff it is the id, name and email of an account holding the STUDENT role in the school. |
| Devices.StudentsListed | backend/backend/controllers/deviceController.ts:71-76 | An account is listed iff its user holds the STUDENT role in the school; teachers, admins and members of other schools are not. |
| Devices.StudentsOnce | backend/backend/controllers/deviceController.ts:71-91 | With distinct account ids no id is listed twice: each student account appears once, as its one membership of the school gives it once. |
| Devices.GetSubjectSessions | backend/backend/controllers/deviceController.ts:243-275 | Gives 404 for another school's subject; otherwise the open sessions. |
| Devices.ExpiryBoundary | backend/backend/controllers/deviceController.ts:258-268 | A session is listed iff it belongs to the subject and an attendance would still be accepted (the test at deviceController.ts:537-539), and it is listed as stored. At its expiration instant it is both listed and accepted. |
| Devices.MembersOf | backend/backend/controllers/deviceController.ts:304-317 | The memberships of the subject, of any role. |
| Devices.AbsentExact | backend/backend/controllers/deviceController.ts:319-345 | A user is listed iff the user is a member and has not attended. The list has no more entries than memberships. |
| Devices.Absent | backend/backend/controllers/deviceController.ts:319-345 | The members without an attendance at the session, in member order; `Devices.AbsentExact` states who is listed. |
| Devices.MembersOfDistinct | backend/backend/controllers/deviceController.ts:304-317 | With one membership per user and subject, all in the subject's school, the subject's memberships belong to distinct users. |
| Devices.AbsentOnce | backend/backend/controllers/deviceController.ts:319-345 | Memberships of distinct users give a list without repeats: one entry per non-attending membership. |
| Devices.GetStudentsBySession | backend/backend/controllers/deviceController.ts:280-352 | Gives 404 for a missing session or one of another school; otherwise the absent members, in member order. |
| Devices.FingerprintsOf | backend/backend/controllers/deviceController.ts:457-480 | The fingerprints of the listed users recorded in the school. |
| Devices.GetFingerprints | backend/backend/controllers/deviceController.ts:429-487 | Gives 404 for another school's subject. Otherwise the reply holds a fingerprint iff it was recorded in the device's school for a member of the subject. |
| Devices.AddAttendance | backend/backend/controllers/deviceController.ts:492-553 | The checks run in order and the first failure decides the reply: 404 session, 400 missing id (0 included), 404 student, 400 already added, 400 expired. Each failure writes nothing. Success appends exactly one attendance. |
| Devices.AttendTwice | backend/backend/controllers/deviceController.ts:526-535 | A second attendance of the same student at the same session is refused. |
| Sessions.FirstAttendance | backend/backend/controllers/schoolController.ts:3393 | The first attendance of the user at the session, and none iff there is none. |
| Sessions.StudentsOf | backend/backend/controllers/schoolController.ts:3356-3371 | The subject's STUDENT memberships, in store order. |
| Sessions.AttendanceListExact | backend/backend/controllers/schoolController.ts:3392-3400 | The list has one line per student membership, in order, for that student. A line is marked attended iff the student has an attendance at the session, and then carries that attendance's id. |
| Sessions.GetAttendersAndNonAttenders | backend/backend/controllers/schoolController.ts:3329-3407 | Gives 403 unless the actor is an admin or a teacher of the subject, and 404 for a session of another subject. Otherwise the attendance list of the subject's students. |
| Text.FindFrom | backend/backend/controllers/userController.ts:353-357 | The first position at or after `from` where the pattern occurs, and none iff it occurs nowhere there. |
| Text.Expand | backend/backend/controllers/userController.ts:353-357 | The replacement text with its `$$`, `$&`, `` $` `` and `$'` patterns expanded; `Text.ExpandLiteral` shows a text without `$` is inserted as it is, and `Validation.DollarNameKeepsSlot` what `$&` does. |
| Text.ReplaceFirst | backend/backend/controllers/userController.ts:354-355 | `replace` with a string pattern; `Text.ReplaceFirstAt` states that the first occurrence is the one replaced. |
| Text.ReplaceAll | backend/backend/controllers/userController.ts:356 | `replace` with a global pattern; `Text.ReplaceAllLiteral` and `Text.SubstituteJoin` state that every occurrence is replaced. |
| Text.ReplaceAllLiteral | backend/backend/controllers/userController.ts:356 | With a replacement free of `$`, the global replace substitutes it at every non-overlapping occurrence. |
| Text.ReplaceFirstAt | backend/backend/controllers/userController.ts:354-357 | A first replacement lands on the first occurrence. |
| Text.SubstituteJoin | backend/backend/controllers/userController.ts:356 | Substituting in pieces joined by the pattern puts the replacement at every joint. |
| Text.Split | backend/backend/controllers/schoolController.ts:1206 | `split` gives at least one piece and no piece holds the separator. |
| Text.JoinSplit | backend/backend/controllers/schoolController.ts:1206 | Joining the pieces of a split gives the string back. |
| Text.SplitJoin | backend/backend/controllers/schoolController.ts:1213-1214 | Splitting pieces joined by a separator they do not hold gives the pieces back. |
| Validation.Units | backend/backend/controllers/userController.ts:290 | A character is one UTF-16 unit below U+10000 and a surrogate pair above. |
| Validation.SomeUnit | backend/backend/controllers/userController.ts:108-112 | A class of units below the surrogates holds of some unit iff it holds of some character. |
| Validation.EmailSound | backend/backend/controllers/userController.ts:21-25 | Every address the test accepts matches the regular expression. |
| Validation.EmailComplete | backend/backend/controllers/userController.ts:21-25 | Every address matching the regular expression is accepted. |
| Validation.IsEmail | backend/backend/controllers/userController.ts:21-25 | The email test on characters; `Validation.EmailAccepted` proves it accepts exactly what the regular expression matches. |
| Validation.EmailAccepted | backend/backend/controllers/userController.ts:294-298 | The email test accepts exactly what `^[^\s@]+@[^\s@]+\.[^\s@]+$` matches. |
| Validation.PasswordAccepted | backend/backend/controllers/userController.ts:108-112 | The password test accepts exactly what the lookahead expression matches: at least 8 units, no line terminator, and a letter, a digit and a special character. |
| Validation.IsStrongPassword | backend/backend/controllers/userController.ts:108-112 | The password test on UTF-16 units; `Validation.PasswordAccepted` proves it accepts exactly what the regular expression matches. |
| Validation.TrimExact | backend/backend/controllers/userController.ts:318-321 | `trim` keeps a middle part of the text, cuts off only white space, and leaves no white space at either end. |
| Validation.TrimIdempotent | backend/backend/controllers/userController.ts:318-321 | Trimming twice is trimming once. |
| Validation.Trim | backend/backend/controllers/userController.ts:320 | `trim`; `Validation.TrimExact` and `Validation.TrimIdempotent` state what it cuts. |
| Validation.StoredNameMayBeShort | backend/backend/controllers/userController.ts:290-292 | The length rule is checked before the trim, so "  a" passes but is stored as one character. |
| Validation.ExpiryInHours | backend/backend/controllers/userController.ts:101-106 | The integer test agrees with the hour division. Exactly 24 hours is accepted and one millisecond more is not. |
| Validation.TokenExpired | backend/backend/controllers/userController.ts:101-106 | The token-age test on integer milliseconds; `Validation.ExpiryInHours` relates it to the hour division. |
| Validation.FillLogoAndName | backend/backend/controllers/userController.ts:354-355 | The first two replacements fill the logo and the greeting slots. |
| Validation.FillLinks | backend/backend/controllers/userController.ts:356 | The global replacement fills every link slot and only those. |
| Validation.FillAllButYear | backend/backend/controllers/userController.ts:353-356 | After three replacements the logo, greeting and every link slot are filled, and the year slot is still open. |
| Validation.MailRendersPlaceholders | backend/backend/controllers/userController.ts:353-357 | For values without braces or dollar signs, the mail is the template with every slot replaced, all link slots included, and nothing else changed. |
| Validation.DollarNameKeepsSlot | backend/backend/controllers/userController.ts:355 | A user named "$&" keeps the `{{userName}}` slot, because `$&` stands for the matched text. |
| Validation.ActivateUrl | backend/backend/controllers/userController.ts:347-350 | The activation link: the request's origin, or `http://localhost:3000` without one, then `/activate/` and the token. |
| Validation.VerifyMail | backend/backend/controllers/userController.ts:353-357 | The four `replace` calls on the template; `Validation.MailRendersPlaceholders` states the mail they render. |
| Accounts.FirstIndex | backend/backend/controllers/userController.ts:300-304 | The first account that passes the lookup's test, and none iff no account does. |
| Accounts.EmailIndex | backend/backend/controllers/userController.ts:300-304 | The `findFirst` by email: `FirstIndex` with the email test, so the first account with the email and none iff there is none. |
| Accounts.IdIndex | backend/backend/controllers/userController.ts:164-182 | The `findFirst` and `update` by id: `FirstIndex` with the id test; with distinct ids `Accounts.IdIndexUnique` makes it the account holding the id. |
| Accounts.IdIndexUnique | backend/backend/controllers/userController.ts:175-178 | With distinct account ids, the lookup by id finds the one account that holds it. |
| Accounts.LoginUser | backend/backend/controllers/userController.ts:379-428 | Gives 400 for missing fields and 422 for a malformed email. Success holds iff an account with the email has a password and it matches. The reply is that account without its hash. |
| Accounts.LoginUniformError | backend/backend/controllers/userController.ts:399-411 | An unknown email, a provider account without a password and a wrong password all get 400 "Incorrect email or password". |
| Accounts.RegisteredCanLogIn | backend/backend/controllers/userController.ts:318-331 | An account added with a password can log in with that password. |
| Accounts.RegisterError | backend/backend/controllers/userController.ts:286-314 | Registration is refused iff a field is missing, the name length is wrong, the email is malformed or taken, or the password is weak. The checks run in that order. |
| Accounts.RegisterUser | backend/backend/controllers/userController.ts:282-374 | A refused registration writes nothing. Otherwise the account is stored with the trimmed name and the activation token is stored. The reply carries the account and the mail rendered with the logo, the trimmed name, the activation link and the year. A taken token fails after the account is written. |
| Accounts.ActivateAccount | backend/backend/controllers/userController.ts:152-196 | Gives 400 for an unknown token, 400 for a verified account and 500 when the token's account is gone. Otherwise it sets the account's verified flag and changes nothing else. |
| Accounts.ActivateTwice | backend/backend/controllers/userController.ts:160-181 | A second activation always fails, and after a successful one it is "Email is already verified". |
| Accounts.ResetPasswordRequest | backend/backend/controllers/userController.ts:13-78 | Gives 400 for a missing email, 422 for a malformed one, 404 for an unknown one and 500 for a taken token. Success stores one token dated now. |
| Accounts.ResetAccountPassword | backend/backend/controllers/userController.ts:83-147 | Gives 400 for a missing password and 400 for a missing or expired token, then 422 for a weak password, then 500 when the token's account is gone. Success replaces the hash and stamps `resetAt`. Each failure writes nothing. |
| Accounts.ResetTwice | backend/backend/controllers/userController.ts:133-140 | `resetAt` is never checked, so a used token works again inside the window. |
| Uploads.Classify | backend/backend/controllers/schoolController.ts:1216-1228 | png, jpg and jpeg are images; mp4, webm, ogg and mov are videos; anything else is raw. |
| Uploads.ParseUploadUrl | backend/backend/controllers/schoolController.ts:1200-1228 | Gives "Invalid file url" iff the URL is outside the account or its last segment is empty. Otherwise the id is the text before the first dot and the format the text up to the next dot. A raw file's id is rebuilt as `id.format`. |
| Uploads.LogoPublicId | backend/backend/controllers/schoolController.ts:362-372 | The logo's id is the last segment up to its first dot, with no check that the segment is empty. |
| Uploads.LastSegmentIsFileName | backend/backend/controllers/schoolController.ts:1206 | The last segment is everything after the last slash. |
| Uploads.NameParts | backend/backend/controllers/schoolController.ts:1213-1214 | The id and the format hold no dot. They are the name up to the first dot and what follows up to the next dot; the name is the id alone when it has no dot. |
| Uploads.ParseRoundTrip | backend/backend/controllers/schoolController.ts:1560-1589 | The URL of `folder/id.format` parses back to the id and the format, with the kind the format gives. |
| Uploads.NoExtensionIsUndefined | backend/backend/controllers/schoolController.ts:1933-1960 | A name without a dot is looked up as the raw file `name.undefined`. |
| Uploads.LogoIdAgrees | backend/backend/controllers/schoolController.ts:372 | The logo id agrees with the upload id for images and videos, is that id without its format for raw files, and is "" where the upload parse refuses. |

## Left out

- Express plumbing, routing and the JSON shape of replies beyond the fields named in the contracts. Extra fields the handlers add (counts, nested relations) are not modelled.
- Prisma's `select`/`include` projections and `orderBy`. Input sequences are taken as already ordered.
- Groups.GetGroupMembers: the order of the members found below the group is not stated, only that the direct members come first and which ids follow. The handler visits children depth first, but the children's `findMany` has no `orderBy`, so their order is the store's. The model picks children from a set.
- Devices.Students: the reply follows the order of the accounts, not of the school memberships. The memberships are a map without order, and the query has no `orderBy`.
- JSON numbers are integers (`Json.JNum(n: int)`, `MarkInput`), so a fractional mark or max such as 7.5 cannot be expressed. The handlers accept any JavaScript number there, and their tests (`!max`, `mark.value > max`) treat fractional values the way the integer model treats integers.
- Prisma's rule that an undefined field means no filter and no change. The `editGroup` path with `parentId` absent is modelled as "no parent" (`None`).
- Groups.EditGroup: a falsy `parentId` that is not null (0, "" or false) cannot be expressed, because parent ids are positive. So two branches are missing. One is the 400 "Missing required fields" for an empty name with such a `parentId` (schoolController.ts:2320-2322). The other is the rename that keeps the current parent when the name is non-empty (2331-2333 skip the assignment, and 2336 does not reparent).
- Unique constraints on (user, school), (user, subject), (user, group) and (student, row) are not defined in any shipped schema. The model assumes them.
- Deletion cascades of `deleteGroup`, and `deleteGroup` itself: they live in a schema that is not part of this model.
- `editDocument`, `editAssignment` and `editAttendanceSession`: their log text is the base text, as in `editMarksTableRow`, which stands for all four.
- `getStudentsByGroup`, `getStudentsBySubject`, `getFingerprint` and `addFingerprint`: simple projections with no rule beyond the ones modelled for `getStudents` and `getFingerprints`.
- Cloudinary HTTP calls and the request signature. The handlers' own missing-field checks around the URL parse and the Cloudinary response are not modelled, only the parse itself.
- bcrypt (the `hash` and `matches` parameters), JWT signing, Google OAuth and nodemailer. Sending mail is not modelled. Only the verification mail's text is modelled. The password-reset mail (userController.ts:51-71) is not modelled at all, nor its link, which uses the request's origin with no fallback.
- Random tokens and the clock are parameters. The reset-token age is a floating-point division in the handler; it is modelled on integer milliseconds and related to the division in `Validation.ExpiryInHours`.
- Concurrency between requests and the atomicity of the multi-step writes.
- Ids are positive integers. A non-numeric id in a route parameter, and body fields of an unexpected type beyond the `typeof` tests the handlers make, are not modelled.
- Strings are sequences of Unicode scalar values. Lengths are measured in UTF-16 units where the handler's rule depends on them (name length, password length). Lone surrogates cannot be represented.
- Accounts.ResetPasswordRequest: accounts that sign in through a provider are given a token like any other account, as in the handler; the 404 text's mention of providers is not acted on.
- Validation.VerifyMail: the year inside the user name (`{{year}}` would be filled in the name) is not proved; only the `$&` case is.

## Findings

| source | as written | input that shows it | evidently intended | confidence | as-written member | corrected member |
|---|---|---|---|---|---|---|
| backend/backend/controllers/schoolController.ts:2336-2387 | `editGroup` accepts a new parent equal to the group itself and writes it | `parentId` equal to the edited group's own id | refuse a group as its own parent, so the groups stay a forest | not executed | Hierarchy.SelfParentingCycles | Groups.EditGroup |
