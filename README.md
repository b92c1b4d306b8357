# JobSeekr store and request handlers in Dafny

JobSeekr is an ASP.NET Core web API for publishing resumes:

- Users register and log in.
- Users write resumes, change them and delete them.
- Users choose whether their resumes are public or private.
- Administrators approve or reject resumes, and block, unblock or delete users.

Every request is a MediatR command or query. A FluentValidation validator checks it first. Then a handler reads and changes the Entity Framework store.

This project models that core:

- **The store.** `Data.Tables` holds the users table, the resumes table, the photo table keyed by resume id, and the two identity counters. `Tables.Valid` is what the database enforces:
  - unique ids;
  - a unique e-mail under a case-insensitive collation;
  - the `[StringLength]` column bounds;
  - every resume owned by an existing user;
  - one photo per resume, stored under that resume's id;
  - the counters past every id handed out.
- **The store class.** `Data.AppDbContext` holds the same tables as fields. Its constructor seeds the administrator, and the handlers update its fields in place.
- **Each handler that changes the store.** Each is a method `Handle(db, cmd)` that `modifies db`. It is proved equal to a pure function `Apply(t, cmd)` on store values. The counted contracts and lemmas are about `Apply`:
  - the store stays valid;
  - each failure path and its message;
  - exactly what changes and what does not;
  - idempotence;
  - the interactions between handlers.
- **Each read-only handler.** Each is a pure function of the store: the resume lists, the user list, the photo lookup and login.
- **The validators.** These are rule chains interpreted by `FluentRules.Evaluate`. It runs every rule by default and stops at the first failing rule under `CascadeMode.Stop`. `EmailAddress()` is the caller-supplied predicate `isEmail`.
- **The validation pipeline.** `ValidationPipeline.Handle` short-circuits on validation failures before the handler runs. Each `Send` composes the pipeline with a handler.
- **`Result` and `Result<TValue>`.** The `Results.Result` class models these as written. Every constructor sets `IsSuccess` to true, so a "bad" result does not report an error, and `HasValue` stays false even when a value is stored.
- **The handlers' envelope.** The handlers are written against `Result.Ok()`, `Result.Fail(...)` and `IsFailure`, which the shown `Result` class does not define. `Results.Outcome` models that envelope: `Ok`, `Fail(errors)`, or `Thrown(exception)` when the handler throws instead of returning.

The model keeps the code's quirks as they are and proves them:

- `PrivateResume` and `PublicResume` skip the approval check that `ChangeStatusResume` makes.
- `UpdateResume` never reads its payload.
- `RejectResume` leaves `IsApproved` set, so a resume can be approved and rejected at once. Such a resume stays in the approved list.
- A resume that was never approved can be made public, and then the public list shows it.
- Blocking a user does not stop them from logging in.
- Registration admits e-mails of up to 200 characters, but the column holds 150, so the save throws.

Libraries are parameters:

- BCrypt is a `PasswordHasher` whose hash verifies against its own password and is 60 characters long.
- `DateTime.UtcNow` is the `now` parameter of login.

## Model

| member | source | states |
|---|---|---|
| Results.MessageError | JobSeekr/src/WebApi/Shared/Error.cs:13-17 | the one-argument error carries the message and an empty code |
| Results.Result.IsError | JobSeekr/WebApi/Shared/Result.cs:5-6 | `IsError` holds exactly when `IsSuccess` does not |
| Results.Result.Empty | JobSeekr/WebApi/Shared/GenericResult.cs:8-13 | success, no value, `HasValue` false, no errors |
| Results.Result.WithValue | JobSeekr/WebApi/Shared/GenericResult.cs:15-20 | stores exactly the value with no errors, yet `HasValue` stays false |
| Results.Result.WithError | JobSeekr/WebApi/Shared/GenericResult.cs:22-28 | the error list is exactly the one error, and the result still reports success |
| Results.Result.WithErrors | JobSeekr/WebApi/Shared/GenericResult.cs:30-36 | the error list is the supplied list unchanged, and the result still reports success |
| Results.Result.Deconstruct | JobSeekr/WebApi/Shared/GenericResult.cs:42-47 | returns the success flag, the value and the errors unchanged |
| Results.FromValue | JobSeekr/WebApi/Shared/GenericResult.cs:38 | the implicit conversion from a value behaves as the value constructor |
| Results.FromError | JobSeekr/WebApi/Shared/GenericResult.cs:39 | the implicit conversion from an error behaves as the error constructor |
| Results.FromErrors | JobSeekr/WebApi/Shared/GenericResult.cs:40 | the implicit conversion from a list behaves as the list constructor |
| Results.Ok | JobSeekr/WebApi/Shared/Result.cs:11 | no value, no errors, not an error |
| Results.OkWith | JobSeekr/WebApi/Shared/Result.cs:12 | carries exactly the value and no errors |
| Results.Bad | JobSeekr/WebApi/Shared/Result.cs:13 | exactly one error, with the message and an empty code; `IsError` is still false |
| Results.BadWithCode | JobSeekr/WebApi/Shared/Result.cs:14 | exactly one error, with the message and the code; `IsError` is still false |
| Results.BadError | JobSeekr/WebApi/Shared/Result.cs:15 | exactly the given error; `IsError` is still false |
| Results.BadErrors | JobSeekr/WebApi/Shared/Result.cs:16 | exactly the given list; `IsError` is still false |
| Results.FailWith | JobSeekr/WebApi/Features/Resumes/AcceptResume.cs:89 | `Result.Fail(message)` is a failure with exactly one error carrying that message |
| ValidationPipeline.ToErrors | JobSeekr/WebApi/Shared/Behaviors/ValidationPipelineBehavior.cs:43 | one error per validation failure, in the same order, with message and code copied |
| ValidationPipeline.ShortCircuit | JobSeekr/WebApi/Shared/Behaviors/ValidationPipelineBehavior.cs:41-47 | short-circuits exactly when there is a validation result with at least one failure, and the failure it answers is non-empty |
| ValidationPipeline.Handle | JobSeekr/WebApi/Shared/Behaviors/ValidationPipelineBehavior.cs:39-58 | with failures, the answer is the failure built from them and `next` is not consulted; with none, or no validation result, it is `next()` unchanged |
| ValidationPipeline.ToErrorsDistributes | JobSeekr/WebApi/Shared/Behaviors/ValidationPipelineBehavior.cs:43 | the mapping preserves order across concatenated rule sets |
| FluentRules.FailureOf | JobSeekr/WebApi/Features/Auth/RegisterUser.cs:73-75 | a failure names its property and rule, and carries the `.WithMessage` text when one is given |
| FluentRules.EvaluateChecks | JobSeekr/WebApi/Features/Resumes/AddResume.cs:74-79 | no failure iff every rule passes; under `Stop` at most one failure; otherwise as many failures as rules that reject |
| FluentRules.Evaluate | JobSeekr/WebApi/Features/Auth/RegisterUser.cs:64-75 | a chain reports nothing iff all its rules accept the value; a `Stop` chain reports at most one failure |
| FluentRules.StopReportsFirstFailing | JobSeekr/WebApi/Features/Auth/RegisterUser.cs:70-75 | under `CascadeMode.Stop` the only failure is that of the first rule that rejects |
| FluentRules.ContinueStartsWithFirstFailing | JobSeekr/WebApi/Features/Resumes/AddResume.cs:74 | under the default cascade the first failure is that of the first rule that rejects |
| FluentRules.ContinueReportsEveryFailing | JobSeekr/WebApi/Features/Resumes/AddResume.cs:74-79 | under the default cascade the failures are exactly those of the rejecting rules, one each, in declaration order |
| Linq.FirstIndex | JobSeekr/WebApi/Features/Users/BlockUser.cs:98 | `FirstOrDefault`: the first matching row, or none exactly when no row matches |
| Linq.Where | JobSeekr/WebApi/Features/Resumes/GetApprovedResume.cs:67 | every kept row satisfies the filter and came from the input; every row that satisfies it is kept |
| Linq.WhereCount | JobSeekr/WebApi/Features/Resumes/GetApprovedResume.cs:67 | the filter has one entry per input row that satisfies it |
| Linq.WhereMultiset | JobSeekr/WebApi/Features/Resumes/GetApprovedResume.cs:67 | the filter holds each passing row as often as the input does, and no failing row |
| Linq.WhereAppend | JobSeekr/WebApi/Features/Resumes/GetApprovedResume.cs:67 | the filter keeps input order: appending a row extends the result by that row exactly when it passes |
| Linq.Select | JobSeekr/WebApi/Features/Resumes/GetAllResume.cs:72 | the projection has one entry per row, in order |
| Entities.Status.Value | JobSeekr/src/WebApi/Domain/Enums/Status.cs:6-16 | the underlying enum values lie in 1..3 |
| Entities.Role.Name | JobSeekr/src/WebApi/Domain/Enums/Role.cs:6-13 | the role renders as "User" or "Admin", and "Admin" exactly for the administrator role |
| AuthHelper.CheckPassword | JobSeekr/src/WebApi/Shared/Helpers/AuthHelper.cs:24-27 | with BCrypt, a password checks against any hash made from it |
| Data.Fold | JobSeekr/WebApi/Data/AppDbContext.cs:66 | the collation's folding keeps the length and folds each character |
| Data.SameEmailIgnoresCase | JobSeekr/WebApi/Data/AppDbContext.cs:64-66 | two e-mails that differ only in letter case are the same e-mail to the store |
| Data.Tables.UserById | JobSeekr/WebApi/Features/Resumes/AddResume.cs:102 | finds a user with the id, or none exactly when no user has it |
| Data.Tables.UserByEmail | JobSeekr/WebApi/Features/Users/BlockUser.cs:98 | finds a user whose e-mail matches ignoring case, or none exactly when the e-mail is null or matches no user |
| Data.Tables.ResumeById | JobSeekr/WebApi/Features/Resumes/AcceptResume.cs:86 | finds the resume with the id, or none exactly when there is no such resume |
| Data.Tables.OwnedResume | JobSeekr/WebApi/Features/Resumes/ChangeStatusResume.cs:86-87 | finds a resume with both the id and the owner, or none exactly when no resume has both |
| Data.Tables.OwnedBy | JobSeekr/WebApi/Domain/Entities/User.cs:28 | a user's resume list holds exactly the resumes that name the user's id, one entry per such row |
| Data.Tables.OwnedByMultiset | JobSeekr/WebApi/Domain/Entities/User.cs:28 | a user's resume list holds each of the user's rows as often as the table does, and no other row |
| Data.Seed | JobSeekr/WebApi/Data/AppDbContext.cs:40-52 | the initial store is valid and holds only the administrator: id 228, admin@gmail.com, role Admin, not blocked, with no resumes and no photos |
| Data.SeedValid | JobSeekr/WebApi/Data/AppDbContext.cs:43-66 | a single in-bounds user with no resumes satisfies every store invariant |
| Data.ResumeIdIsKey | JobSeekr/src/WebApi/Domain/Entities/Resume.cs:11 | in a valid store a resume id names exactly one row |
| Data.EmailIsKey | JobSeekr/WebApi/Data/AppDbContext.cs:64-66 | in a valid store no other user has the found user's e-mail in any letter case |
| Data.UpdateResumeAt | JobSeekr/WebApi/Features/Resumes/AcceptResume.cs:92 | an in-place change to a found resume that keeps its key, owner and bounds keeps the store valid and changes exactly the row with that id |
| Data.UpdateUserAt | JobSeekr/WebApi/Features/Users/BlockUser.cs:104 | an in-place change to a found user that keeps its id, e-mail and bounds keeps the store valid and changes exactly the user with that e-mail |
| Data.UserByEmailAgrees | JobSeekr/WebApi/Features/Auth/LoginUser.cs:106 | the lookup by e-mail depends only on the stored e-mails |
| Data.ReplaceResumeKeepsValid | JobSeekr/WebApi/Data/AppDbContext.cs:59-60 | replacing a resume row by one with the same key, owner and bounds preserves every invariant and the set of resume ids |
| Data.AppendResumeKeepsValid | JobSeekr/WebApi/Features/Resumes/AddResume.cs:122-124 | appending a resume under the next identity value, owned by an existing user, preserves every invariant |
| Data.AppendUserKeepsValid | JobSeekr/WebApi/Features/Auth/RegisterUser.cs:112-113 | appending a user with the next id and an e-mail new in every letter case preserves every invariant |
| Data.ReplaceUserKeepsValid | JobSeekr/WebApi/Data/AppDbContext.cs:64 | replacing a user row by one with the same id, e-mail and bounds preserves every invariant |
| Data.AppDbContext.constructor | JobSeekr/WebApi/Data/AppDbContext.cs:38-66 | a new context is valid and holds the seed data |
| Data.StateValid | JobSeekr/WebApi/Data/AppDbContext.cs:38-66 | a context whose fields equal a valid store value is valid |
| AcceptResume.Apply | JobSeekr/WebApi/Features/Resumes/AcceptResume.cs:86-96 | fails with "not found" and changes nothing iff no resume has the id, with no ownership check; otherwise exactly that resume becomes approved; status, rejection flag and all else unchanged; store stays valid |
| AcceptResume.Handle | JobSeekr/WebApi/Features/Resumes/AcceptResume.cs:82-97 | the in-place update of the context answers and leaves the store exactly as `Apply` does |
| AcceptResume.ApproveIdempotent | JobSeekr/WebApi/Features/Resumes/AcceptResume.cs:92 | approving twice equals approving once |
| RejectResume.Apply | JobSeekr/WebApi/Features/Resumes/RejectResume.cs:50-60 | fails and changes nothing iff no resume has the id; otherwise exactly that resume becomes rejected, with approval and status untouched |
| RejectResume.Handle | JobSeekr/WebApi/Features/Resumes/RejectResume.cs:47-61 | the in-place update agrees with `Apply` |
| RejectResume.RejectIdempotent | JobSeekr/WebApi/Features/Resumes/RejectResume.cs:56 | rejecting twice equals rejecting once |
| RejectResume.ApprovedThenRejected | JobSeekr/WebApi/Features/Resumes/RejectResume.cs:56 | approve then reject leaves the resume approved and rejected at once, with its status unchanged |
| ChangeStatusResume.Apply | JobSeekr/WebApi/Features/Resumes/ChangeStatusResume.cs:86-102 | the guards in order: not owned gives "not found", unapproved gives "under review", a `Pending` request gives the refusal, each changing nothing; otherwise the status becomes exactly the one requested and nothing else changes |
| ChangeStatusResume.Handle | JobSeekr/WebApi/Features/Resumes/ChangeStatusResume.cs:83-103 | the in-place update agrees with `Apply` |
| ChangeStatusResume.NeverSetsPending | JobSeekr/WebApi/Features/Resumes/ChangeStatusResume.cs:95-98 | a resume that is not pending never becomes pending through this request |
| ChangeStatusResume.ChangeStatusIdempotent | JobSeekr/WebApi/Features/Resumes/ChangeStatusResume.cs:98-100 | repeating the same request equals making it once |
| PrivateResume.Apply | JobSeekr/WebApi/Features/Resumes/PrivateResume.cs:91-102 | fails and changes nothing iff the caller owns no resume with the id; otherwise its status becomes `Private` whatever its approval, and nothing else changes |
| PrivateResume.Handle | JobSeekr/WebApi/Features/Resumes/PrivateResume.cs:88-103 | the in-place update agrees with `Apply` |
| PrivateResume.PrivateIdempotent | JobSeekr/WebApi/Features/Resumes/PrivateResume.cs:98-100 | repeating the request equals making it once |
| PrivateResume.SkipsApprovalGate | JobSeekr/WebApi/Features/Resumes/PrivateResume.cs:91-98 | for an unapproved resume this succeeds, while `ChangeStatusResume` asking for `Private` fails with "under review" and changes nothing |
| PublicResume.Apply | JobSeekr/WebApi/Features/Resumes/PublicResume.cs:86-97 | fails and changes nothing iff the caller owns no resume with the id; otherwise its status becomes `Public` whatever its approval, and nothing else changes |
| PublicResume.Handle | JobSeekr/WebApi/Features/Resumes/PublicResume.cs:83-98 | the in-place update agrees with `Apply` |
| PublicResume.PublicIdempotent | JobSeekr/WebApi/Features/Resumes/PublicResume.cs:93-95 | repeating the request equals making it once |
| PublicResume.SkipsApprovalGate | JobSeekr/WebApi/Features/Resumes/PublicResume.cs:86-93 | for an unapproved resume this succeeds, while `ChangeStatusResume` asking for `Public` fails with "under review" and changes nothing |
| AddResume.CheckRequired | JobSeekr/WebApi/Features/Resumes/AddResume.cs:74 | `NotNull().NotEmpty()` reports nothing iff the field is present and not blank, and at most two failures |
| AddResume.Validate | JobSeekr/WebApi/Features/Resumes/AddResume.cs:74-79 | no failure iff the six required text fields are present and not blank; `Links` is not checked |
| AddResume.NullFieldReportedTwice | JobSeekr/WebApi/Features/Resumes/AddResume.cs:74-79 | a null required field is reported by both `NotNull` and `NotEmpty`, in that order |
| Contracts.AdaptEducationPeriods | JobSeekr/WebApi/Features/Resumes/AddResume.cs:118 | one row per requested education period, in order, copying every field; none iff some period has a null name or city |
| Contracts.AdaptWorkPeriods | JobSeekr/WebApi/Features/Resumes/AddResume.cs:119 | one row per requested work period, in order, copying every field; none iff some period has a null position, employer or city |
| AddResume.NewResume | JobSeekr/WebApi/Features/Resumes/AddResume.cs:107-120 | the new row is pending and unapproved, and copies the owner, full name, programming language, language level, country, city, skills and links from the command, and every field of every education and work period, in order; it is built iff the six text fields are present and no period has a null name, position, employer or city |
| AddResume.NullInPeriodThrows | JobSeekr/WebApi/Features/Resumes/AddResume.cs:118-124 | a work period with a null employer makes the save throw and leaves the store unchanged |
| AddResume.Apply | JobSeekr/WebApi/Features/Resumes/AddResume.cs:100-128 | an unknown owner fails with "not found" and changes nothing; a null or over-long column, including a null required string inside a period, makes the save throw, changing nothing; otherwise exactly the new resume is appended under the next id and the response describes it; the blocked flag is not consulted |
| AddResume.Handle | JobSeekr/WebApi/Features/Resumes/AddResume.cs:100-128 | the in-place append agrees with `Apply` |
| AddResume.Send | JobSeekr/WebApi/Features/Resumes/AddResume.cs:69-128 | validation failures answer without touching the store; otherwise the handler runs |
| AddResume.AppendsToOwnersList | JobSeekr/WebApi/Features/Resumes/AddResume.cs:122 | the owner's resume list grows by exactly the new resume at its end, and every other user's list is unchanged |
| UpdateResume.CheckNotNull | JobSeekr/WebApi/Features/Resumes/UpdateResume.cs:73-80 | a `NotNull` rule reports nothing iff the property is present, and at most one failure |
| UpdateResume.NullReportedByName | JobSeekr/WebApi/Features/Resumes/UpdateResume.cs:73 | a null property under a `NotNull` rule gets one failure, whose default message quotes the display name |
| UpdateResume.NullFullNameReported | JobSeekr/WebApi/Features/Resumes/UpdateResume.cs:71-73 | a payload missing only `FullName` is reported once, under `Props.FullName`, as `'Props Full Name' must not be empty.` |
| UpdateResume.Validate | JobSeekr/WebApi/Features/Resumes/UpdateResume.cs:68-82 | no failure iff `Props` is present with every required property present; a null `Props` is reported twice |
| UpdateResume.Apply | JobSeekr/WebApi/Features/Resumes/UpdateResume.cs:95-108 | fails iff the caller owns no resume with the id, and the store is unchanged in every case |
| UpdateResume.Handle | JobSeekr/WebApi/Features/Resumes/UpdateResume.cs:95-108 | agrees with `Apply` |
| UpdateResume.Send | JobSeekr/WebApi/Features/Resumes/UpdateResume.cs:64-108 | validation failures short-circuit; otherwise the handler's answer |
| UpdateResume.PayloadIgnored | JobSeekr/WebApi/Features/Resumes/UpdateResume.cs:98-108 | two requests that differ only in their payload have the same outcome and the same store |
| DeleteResume.Apply | JobSeekr/src/WebApi/Features/Resumes/DeleteResume.cs:85-97 | fails and changes nothing iff the caller owns no resume with the id; otherwise exactly that resume and its photo are removed, the other resumes stay in order, the count drops by one, and the success carries no value |
| DeleteResume.RemainingResumes | JobSeekr/src/WebApi/Features/Resumes/DeleteResume.cs:94 | after the removal the other resumes remain, in order |
| DeleteResume.RemainingResumesValid | JobSeekr/src/WebApi/Features/Resumes/DeleteResume.cs:94-95 | the remaining rows keep distinct ids, bounds, owners and the counter |
| DeleteResume.RemainingPhotosKeyed | JobSeekr/WebApi/Data/AppDbContext.cs:59-60 | every remaining photo still belongs to a remaining resume |
| DeleteResume.RemoveResumeKeepsValid | JobSeekr/src/WebApi/Features/Resumes/DeleteResume.cs:94-95 | removing a resume with its photo keeps the store valid |
| DeleteResume.RemovesOwned | JobSeekr/src/WebApi/Features/Resumes/DeleteResume.cs:85-97 | when the lookup finds the caller's row, the handler succeeds and removes exactly that row and the photo keyed by its id |
| DeleteResume.Handle | JobSeekr/src/WebApi/Features/Resumes/DeleteResume.cs:85-97 | the in-place removal agrees with `Apply` |
| DeleteUser.Validate | JobSeekr/src/WebApi/Features/Users/DeleteUser.cs:63-67 | no failure iff the e-mail is present, not blank and in e-mail format |
| DeleteUser.PhotosOf | JobSeekr/WebApi/Data/AppDbContext.cs:59-60 | the photos kept are exactly those whose resume remains, unchanged |
| DeleteUser.RemainingUsers | JobSeekr/src/WebApi/Features/Users/DeleteUser.cs:102 | after the removal the other users remain, in order |
| DeleteUser.RemainingUsersValid | JobSeekr/src/WebApi/Features/Users/DeleteUser.cs:102-103 | the remaining users keep distinct ids and e-mails, their bounds and the counter |
| DeleteUser.UserStays | JobSeekr/src/WebApi/Features/Users/DeleteUser.cs:102 | every user other than the removed one is still present |
| DeleteUser.RemainingOwnersExist | JobSeekr/src/WebApi/Features/Users/DeleteUser.cs:102-103 | after the cascade, every remaining resume has a remaining owner |
| DeleteUser.RemainingResumesValid | JobSeekr/src/WebApi/Features/Users/DeleteUser.cs:102-103 | the remaining resumes keep distinct ids, bounds, the counter and their photos' keys |
| DeleteUser.RemoveUserKeepsValid | JobSeekr/src/WebApi/Features/Users/DeleteUser.cs:102-103 | removing a user with the resumes it owned and their photos keeps the store valid |
| DeleteUser.Apply | JobSeekr/src/WebApi/Features/Users/DeleteUser.cs:94-105 | fails and changes nothing iff no user has the e-mail in any case; otherwise exactly that user is removed, the user count drops by one and the others stay in order, together with its resumes and their photos |
| DeleteUser.RemovesFound | JobSeekr/src/WebApi/Features/Users/DeleteUser.cs:97-103 | when the lookup finds a user, the handler's result is the store without that user |
| DeleteUser.RemoveUser | JobSeekr/src/WebApi/Features/Users/DeleteUser.cs:102-103 | the in-place removal with the cascade yields the store without that user, and the store stays valid |
| DeleteUser.Handle | JobSeekr/src/WebApi/Features/Users/DeleteUser.cs:94-105 | agrees with `Apply` |
| DeleteUser.Send | JobSeekr/src/WebApi/Features/Users/DeleteUser.cs:58-105 | validation failures answer without touching the store; otherwise the handler runs |
| DeleteUser.DeleteCascades | JobSeekr/src/WebApi/Features/Users/DeleteUser.cs:102-103 | afterwards no user has the e-mail, the removed user owns no resume, and no photo of its resumes remains |
| DeleteUser.PhotoGoneWithResume | JobSeekr/src/WebApi/Features/Users/DeleteUser.cs:102-103 | each resume of the removed user takes its photo with it |
| BlockUser.Validate | JobSeekr/WebApi/Features/Users/BlockUser.cs:65-69 | no failure iff the e-mail is present, not blank and in e-mail format; a null e-mail is reported once, by `NotEmpty`; a malformed e-mail gets the default message `'Email' is not a valid email address.` |
| BlockUser.Apply | JobSeekr/WebApi/Features/Users/BlockUser.cs:98-108 | fails and changes nothing iff no user has the e-mail in any case; otherwise that user becomes blocked; role, e-mail, hash, resumes and other users unchanged |
| BlockUser.Handle | JobSeekr/WebApi/Features/Users/BlockUser.cs:94-109 | the in-place update agrees with `Apply` |
| BlockUser.Send | JobSeekr/WebApi/Features/Users/BlockUser.cs:60-109 | validation failures answer without touching the store; otherwise the handler runs |
| BlockUser.BlockIdempotent | JobSeekr/WebApi/Features/Users/BlockUser.cs:104 | blocking twice equals blocking once |
| UnblockUser.Validate | JobSeekr/WebApi/Features/Users/UnblockUser.cs:61-65 | no failure iff the e-mail is present, not blank and in e-mail format; a null e-mail is reported once; a malformed e-mail gets the custom message |
| UnblockUser.Apply | JobSeekr/WebApi/Features/Users/UnblockUser.cs:95-105 | fails and changes nothing iff no user has the e-mail; otherwise that user becomes unblocked and nothing else changes |
| UnblockUser.Handle | JobSeekr/WebApi/Features/Users/UnblockUser.cs:91-106 | the in-place update agrees with `Apply` |
| UnblockUser.Send | JobSeekr/WebApi/Features/Users/UnblockUser.cs:56-106 | validation failures answer without touching the store; otherwise the handler runs |
| UnblockUser.UnblockIdempotent | JobSeekr/WebApi/Features/Users/UnblockUser.cs:101 | unblocking twice equals unblocking once |
| UnblockUser.UnblockNotBlocked | JobSeekr/WebApi/Features/Users/UnblockUser.cs:101 | unblocking a user who is not blocked succeeds and leaves the store exactly as it was |
| GetAllResume.Handle | JobSeekr/WebApi/Features/Resumes/GetAllResume.cs:68-75 | never fails; one response per stored resume, in table order |
| GetAllResumesOfOneUser.Handle | JobSeekr/WebApi/Features/Resumes/GetAllResumesOfOneUser.cs:81-88 | never fails; every entry is a stored resume of the caller, every resume of the caller is listed, and there are as many entries as the caller has resumes |
| GetAllResumesOfOneUser.NoResumesEmptyList | JobSeekr/WebApi/Features/Resumes/GetAllResumesOfOneUser.cs:83-87 | a caller who owns no resume gets an empty list, not a failure |
| GetApprovedResume.Handle | JobSeekr/WebApi/Features/Resumes/GetApprovedResume.cs:65-72 | never fails; every entry is a stored approved resume, and every approved resume is listed, whatever its rejection flag or status, and there are as many entries as approved resumes |
| GetApprovedResume.RejectedStillListed | JobSeekr/WebApi/Features/Resumes/GetApprovedResume.cs:67 | an approved resume that is then rejected is still listed |
| GetAllPublicResume.Handle | JobSeekr/src/WebApi/Features/Resumes/GetAllPublicResume.cs:68-75 | never fails; every entry is a stored public resume, and every public resume is listed, approved or not, and there are as many entries as public resumes |
| GetAllPublicResume.UnapprovedPublished | JobSeekr/src/WebApi/Features/Resumes/GetAllPublicResume.cs:70 | a never-approved resume made public by its owner is listed, still unapproved |
| GetAllUser.Handle | JobSeekr/WebApi/Features/Users/GetAllUser.cs:77-85 | never fails; one entry per stored user, in order, with that user's id, e-mail, blocked flag and role and no password hash |
| GetAllUser.EachUserOnce | JobSeekr/WebApi/Features/Users/GetAllUser.cs:80-82 | in a valid store no user appears twice |
| GetPhoto.Handle | JobSeekr/WebApi/Features/Photo/GetPhoto.cs:57-65 | fails iff no resume has the id, with no ownership check; otherwise the resume's photo, or null when it has none; never throws |
| RegisterUser.EmailFailures | JobSeekr/WebApi/Features/Auth/RegisterUser.cs:64-68 | no failure iff the e-mail is present, not blank, 1 to 200 characters and in e-mail format; at most one failure |
| RegisterUser.PasswordFailures | JobSeekr/WebApi/Features/Auth/RegisterUser.cs:70-75 | no failure iff the password is present, not blank, at least 4 characters, with a digit and a special character; at most one failure |
| RegisterUser.Validate | JobSeekr/WebApi/Features/Auth/RegisterUser.cs:57-77 | no failure iff both the e-mail and the password are acceptable; at most two failures |
| RegisterUser.PasswordReportsFirstBrokenRule | JobSeekr/WebApi/Features/Auth/RegisterUser.cs:70-75 | a bad password is reported once, with the message of the first rule it breaks: length, then digit, then special character |
| RegisterUser.Apply | JobSeekr/WebApi/Features/Auth/RegisterUser.cs:97-118 | fails with "already exists" and changes nothing iff some user has the e-mail in any case; a null password throws in hashing; a null or over-long column throws in the save; otherwise exactly one user is appended, with the next id, the password's hash, role `User`, not blocked, and the response projects it |
| RegisterUser.Handle | JobSeekr/WebApi/Features/Auth/RegisterUser.cs:97-118 | the in-place append agrees with `Apply` |
| RegisterUser.Send | JobSeekr/WebApi/Features/Auth/RegisterUser.cs:57-118 | validation failures answer without touching the store; otherwise the handler runs, and the only exception left is the save's |
| RegisterUser.RegisterTwiceFails | JobSeekr/WebApi/Features/Auth/RegisterUser.cs:99-102 | registering an e-mail again, in any letter case, fails and changes nothing |
| RegisterUser.OverlongEmailThrows | JobSeekr/WebApi/Features/Auth/RegisterUser.cs:67-113 | a new e-mail of more than 150 characters passes validation and then makes the save throw |
| RegisterUser.NewUserOwnsNoResumes | JobSeekr/WebApi/Domain/Entities/User.cs:28 | a new user's resume list is empty |
| LoginUser.Validate | JobSeekr/WebApi/Features/Auth/LoginUser.cs:67-82 | no failure iff the e-mail is present, not blank and in e-mail format and the password is present and not blank |
| LoginUser.Expiry | JobSeekr/WebApi/Features/Auth/LoginUser.cs:118 | defined iff thirty minutes later is still a valid `DateTime`, and then exactly thirty minutes later |
| LoginUser.Handle | JobSeekr/WebApi/Features/Auth/LoginUser.cs:104-121 | an unknown e-mail and a wrong password give the same failure; a null password throws; otherwise the token carries exactly the claims Name = e-mail, NameIdentifier = id and Role = role name, in that order, and expires thirty minutes after `now` |
| LoginUser.Send | JobSeekr/WebApi/Features/Auth/LoginUser.cs:67-121 | validation failures short-circuit; after validation the only possible exception is a date overflow |
| LoginUser.LookupFindsTheMatch | JobSeekr/WebApi/Features/Auth/LoginUser.cs:106 | in a valid store the lookup finds the one user whose e-mail matches in any letter case |
| LoginUser.LoginIgnoresBlocking | JobSeekr/WebApi/Features/Auth/LoginUser.cs:106-109 | blocking any user does not change any login's answer |
| LoginUser.LoginWithStoredPassword | JobSeekr/WebApi/Features/Auth/LoginUser.cs:106-120 | a stored user logs in with the password whose hash is stored and gets a token naming that user |
| LoginUser.RegisterThenLogin | JobSeekr/WebApi/Features/Auth/LoginUser.cs:106-116 | right after registering, the same e-mail and password log in, with the new id and role `User` in the claims |
| LoginUser.AdminIdText | JobSeekr/WebApi/Features/Auth/LoginUser.cs:114 | the administrator's identifier claim is the text "228" |
| LoginUser.AdminCanLogIn | JobSeekr/WebApi/Data/AppDbContext.cs:40-52 | on the seeded store the administrator logs in with the seeded password and gets the `Admin` role claim |

## Left out

- HTTP routing, the endpoint lambdas, the controllers, `Program.cs` and dependency injection are not modelled. The administrator-only `RequireAuthorization("Admin")` policy is outside the model, so the handlers take no caller role.
- The dependency-injection setup does not register the validation behaviour. The `Send` members compose validator and handler as the behaviour is written to.
- The reflective `Activator.CreateInstance` branch of the validation behaviour is not modelled. The model builds the failure directly, as it does for `Result`.
- The root `RuleFor(c => c).NotNull()` rules are not modelled. The pipeline never passes a null request.
- Default FluentValidation messages are given in English for the rules used.
- FluentValidation's `EmailAddress()` check is the caller-supplied predicate `isEmail`.
- BCrypt hashing and verification are not modelled. `PasswordHasher` stands for them, with two facts: a password verifies against its own hash, and a hash is 60 characters long. The exceptions BCrypt throws on a malformed stored hash are not modelled.
- RegisterUser.Apply: states that the stored hash is `hash(password, salt)`, and does not prove that it differs from the plaintext. This is because the opaque hasher carries no such fact.
- LoginUser.Handle: the JWT is its claims and its expiry. Signing, the `JWT_TOKEN` configuration key and its missing-key exception are not modelled.
- `DateTime.UtcNow` is the `now` parameter.
- Logging, the exception middleware, migrations, `Upload` and async cancellation are not modelled. Each handler is one atomic step.
- String lengths count Dafny characters, not UTF-16 code units.
- The case-insensitive collation folds ASCII letters only. Trailing-space equality under SQL comparison is not modelled.
- Enum values outside `Status` and `Role` cannot be represented.
- Ids of period rows and `DateTime` fields in periods are plain values.
- The `From` date of a period is required in the model.
- Null period lists in `AddResume` are not represented. The commands default them to empty.
- GetPhoto.Handle: reads the photo from the photo table, keyed by the resume id. The resume entity has no photo navigation to load. This is the evident intent, not the code as written. If the resume had the `ResumePhoto` navigation that JobSeekr/WebApi/Features/Photo/GetPhoto.cs:64 reads, it would still come back null: JobSeekr/WebApi/Data/AppDbContext.cs:55-57 auto-includes only the user's resumes and the two period lists, and no lazy loading is configured. The endpoint as written would then answer with no photo.
- `User.Resumes` is not a separate list. It is the rows of the resume table that name the user, so no aliasing between the two is modelled.
- `long` ids are unbounded integers. Overflow of the identity counters is not modelled.
- AddResume.Apply: a save that throws leaves the resume identity counter where it was. SQL Server consumes an IDENTITY value even when the insert fails, so later resume ids can be higher than the model's.
- RegisterUser.Apply: a save that throws leaves the user identity counter where it was. SQL Server consumes an IDENTITY value even when the insert fails, so later user ids can be higher than the model's.
