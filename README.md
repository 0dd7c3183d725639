# Loan and form controllers of bidir-loan, in Dafny

This project models the two request handlers at the centre of the bidir-loan
service (a koa + Mongoose back end for loan applications):

- `controllers/loan.js`:
  - `create` instantiates a loan application from the 'Loan Application' form template;
  - `update` drives the loan status state machine and patches the loan's answers;
  - `remove` cascades deletes over the loan's answers;
  - `fetchOne` is the loan lookup behind the VIEW permission;
  - `updateStatus` answers with a pointer to `PUT /loans/:id` and does nothing else.
- `controllers/form.js`:
  - `create` has required fields and a duplicate-title rule;
  - `update` and `updateStatus` are plain patches;
  - `fetchOne` looks a form up by id;
  - `fetchAllByPagination` builds the pagination options.

## How it is built

The document store is the class `Store.Store` (`store.dfy`):
- It has one `map<Id, _>` field per collection: forms, questions, clients, screenings, accounts, loans, answers, tasks and notifications.
- One counter, `next`, hands out fresh ids.
- Every data-access call the controllers make is a method of the class. Each method's contract ties the new state to a pure function on the value `Store.DB`, a snapshot of the same fields.
- `findOne` returns the matching document with the least id, that is, the oldest one.
- A `delete` of a missing document resolves to the empty object and changes nothing.
- An `update` of a missing document resolves to `null`.

Each controller operation is modelled in three layers:
- A method on the store, with the loops of the source: the two nested clone loops of `create`, the answers loop of `update`, and the two nested delete loops of `remove`.
- A specification function on `DB` (`CreateSpec`, `UpdateSpec`, `RemoveSpec`, …). The method is proved to equal it: same new store, same response.
- Lemmas over the specification functions, stating what the source promises.

Results are `Ok(value)` or `Err(kind, message)`:
- `kind` is the `type` of the `CustomError` the handler throws.
- A JavaScript `TypeError` (a property read on `null` or `undefined`) is an `Err` carrying the message that error would have.
- Writes made before an error are kept, as the source has no transaction.

Permissions (`VIEW`, `UPDATE`, `AUTHORIZE`) are boolean inputs. The acting user is an `Id` input.

Creation and removal do not match:
- `create` records a parent answer's cloned sub-questions under `sub_questions`.
- `remove` deletes what an answer lists under `sub_answers`, which `create` leaves empty.
- `LoanLifecycle.CreateThenRemove` states the consequence: removing a freshly created loan deletes the parent answers and leaves every sub-question answer in the store.
- The model follows the code here. The code alone does not show whether another path fills `sub_answers`, so this is described rather than corrected.

## Model

| member | source | states |
|---|---|---|
| Store.FirstKey | dal/loanSection.js:115-120 | the key found is in range, matches the query, and no smaller key matches; none is found only when no key in range matches |
| Store.DB.Find | dal/loanSection.js:115-120 | `findOne` returns a matching document with the least id, or none exactly when nothing matches |
| Store.DB.AddAnswer | dal/loanSection.js:35-45 | a create stores the document under the fresh id `next`, which was unused, advances the counter and changes no other collection |
| Store.DB.UpdateAnswer | dal/loanSection.js:90-103 | an update by id applies the edit to that answer only and returns its id; a missing or null id returns null and writes nothing; the key set never changes |
| Store.DB.UpdateLoan | dal/loanSection.js:90-103 | an update of an existing loan stores and returns the patched loan; a missing loan returns null and writes nothing |
| Store.DB.UpdateForm | dal/loanSection.js:90-103 | an update of an existing form stores and returns the patched form; a missing form returns null and writes nothing |
| Store.DB.CompleteTaskOf | controllers/loan.js:301 | the oldest task with `entity_ref` equal to the loan becomes 'completed' and is returned; with no such task nothing changes and null is returned |
| Store.DB.SetClientStatus | controllers/loan.js:296 | an existing client gets the new status and is returned; a missing client gives null and no write |
| Store.DB.DeleteLoan | dal/loanSection.js:61-75 | delete removes the key and returns the old loan, or nothing for a missing loan (the empty object) |
| Store.DB.DeleteAnswer | dal/loanSection.js:61-75 | delete removes the key and returns the old answer, or nothing for a missing answer |
| Store.Store.DeleteAnswer | dal/loanSection.js:61-75 | the store's delete method changes the state exactly as `DB.DeleteAnswer` says |
| Records.Strip | controllers/loan.js:343-348 | the stripped edit has no `_id`, `_v`, `date_created` or `last_modified`, and agrees with the original on every other field |
| Records.StripKeepsIdentity | controllers/loan.js:343-350 | applying a stripped edit keeps the answer's `_v` and timestamps and sets each content field the edit carries |
| LoanCreate.Resolve | controllers/loan.js:85 | the populated question list has only questions the template references; a single reference resolves to its question, or to nothing when it dangles; with no dangling reference it is exactly the referenced questions in order |
| LoanCreate.ResolveAppend | controllers/loan.js:85 | population works reference by reference: resolving a concatenation is resolving each part, so dangling references are dropped and the others keep their order |
| LoanCreate.CloneSubsFacts | controllers/loan.js:89-96 | the inner loop creates one answer per sub-question, in order, under the next consecutive ids, and changes nothing else |
| LoanCreate.CloneOneFacts | controllers/loan.js:86-103 | one outer turn creates the sub-answers and then the parent, whose `sub_questions` are exactly the sub-answers just created, in order |
| LoanCreate.CloneAllFacts | controllers/loan.js:85-103 | the outer loop creates 1 + (number of sub-questions) answers per template question, with each parent at its computed id and holding its clone; old answers are untouched |
| LoanCreate.CloneAllBlocks | controllers/loan.js:85-103 | each question's clones take a block of fresh ids above the old counter, and every later block lies above every earlier parent |
| LoanCreate.CloneTemplate | controllers/loan.js:85-103 | the two nested loops leave the store and the parent ids that `CloneAll` gives |
| LoanCreate.Create | controllers/loan.js:42-131 | the handler leaves the store and response that `CreateSpec` gives |
| LoanCreate.CreateGate | controllers/loan.js:47-72 | in this order, and writing nothing: an empty client, a missing 'Loan Application' form, a missing client, a missing screening (null read of `status`) or an unapproved screening each fail with its own message |
| LoanCreate.CreateRefusesSecondLoan | controllers/loan.js:74-77 | a client who already has a loan never gets a second; once the form, client and approved-screening checks pass, the request fails with exactly LOAN_CREATION_ERROR and 'Client Has A Loan Application Form Already!!', with nothing written |
| LoanCreate.CreatorOfCases | controllers/loan.js:105-108 | `created_by` is the acting user itself when no account has that user, and otherwise the oldest account whose `user` is the acting user |
| LoanCreate.CreateSuccess | controllers/loan.js:80-122 | an eligible request stores a fresh loan of type 'Loan' titled 'Loan Form', described as 'Loan Process For ' plus the client's first and last names, with status 'new' and the client; `created_by` is the oldest account of the user, or the user when there is none; its answers are the cloned parents in template order; the client becomes 'loan_application_new'; no other collection changes |
| LoanUpdate.StatusError | controllers/loan.js:269-278 | validation passes exactly for the five statuses; an empty status and an unknown one each give their koa-validate message |
| LoanUpdate.ApplyAllKeepsIdentity | controllers/loan.js:342-350 | however many stripped edits name an answer, its `_v` and timestamps are kept |
| LoanUpdate.PatchAnswersResults | controllers/loan.js:339-356 | the patch writes only answers and never changes their key set; result i is the edit's id when that answer exists, and null otherwise |
| LoanUpdate.PatchAnswersValues | controllers/loan.js:342-353 | each existing answer ends up as the in-order application of the edits naming it |
| LoanUpdate.PatchKeepsIdentity | controllers/loan.js:342-353 | the patch never changes an answer's `_v`, `date_created` or `last_modified` |
| LoanUpdate.Effects | controllers/loan.js:299-335 | the status side effects keep the store valid and touch neither loans nor answers |
| LoanUpdate.SyncNew | controllers/loan.js:295-297 | the sync of a 'new' loan's client writes only clients |
| LoanUpdate.PatchAnswers | controllers/loan.js:339-356 | the answers loop leaves the store and results that `PatchAnswersSpec` gives |
| LoanUpdate.ApplyEffects | controllers/loan.js:299-335 | the side-effect chain leaves the store and client that `Effects` gives |
| LoanUpdate.Update | controllers/loan.js:256-388 | the handler leaves the store and response that `UpdateSpec` gives |
| LoanUpdateFacts.UpdateRefusals | controllers/loan.js:259-293 | with nothing written: no UPDATE gives the permission error; an invalid status gives LOAN_UPDATE_ERROR; a closing status without AUTHORIZE gives the permission message; a missing loan gives a null read of `client` |
| LoanUpdateFacts.AuthorizeTier | controllers/loan.js:287-291 | the permission refusal happens exactly when the target is accepted, declined_final or declined_under_review and AUTHORIZE is missing |
| LoanUpdateFacts.ProceedNeverPermission | controllers/loan.js:292-369 | once the loan is found, no failure carries the permission message |
| LoanUpdateFacts.SyncNewFacts | controllers/loan.js:292-297 | a 'new' loan's client moves to 'loan_application_inprogress' and nothing else changes; otherwise nothing changes |
| LoanUpdateFacts.EffectsClosing | controllers/loan.js:299-316 | accepted or declined_final sets the client's closing status, completes the loan's oldest task and adds exactly one notification, for that task's creator and with `task_ref` equal to the task, and returns the updated client |
| LoanUpdateFacts.EffectsReview | controllers/loan.js:317-335 | declined_under_review resets the client to in-progress, completes the old task, creates one review task for the old task's creator under the next id, and notifies the acting user about the new task under the id after it |
| LoanUpdateFacts.PersistPatched | controllers/loan.js:337-369 | after the effects: the answers are patched when the body has answers, the loan is saved with the target status and the patch results; 'submitted' then adds exactly one approve task under the next id, or fails reading `first_name` of a null client |
| LoanUpdateFacts.PatchReadsAnswersOnly | controllers/loan.js:339-356 | the answers patch depends only on the answers collection: two stores with the same answers get the same patched answers and results |
| LoanUpdateFacts.ClosingTargets | controllers/loan.js:292-358 | a whole accepted or declined_final update, with or without answers: the store ends as the closing writes (client status, completed task, one notification) plus the patched answers and the saved loan carrying the target status and the patch results; the response is that loan |
| LoanUpdateFacts.ClosingWithoutTask | controllers/loan.js:299-303 | with no task for the loan, the update fails reading `created_by` of null after the client write, and the loan is not saved |
| LoanUpdateFacts.ClosingWithoutClient | controllers/loan.js:299-316 | on a loan that is not 'new' and whose client is gone, the update fails reading `created_by` when there is no task and else `first_name`; the task is still completed, and no loan, answer or notification is written |
| LoanUpdateFacts.ReviewTarget | controllers/loan.js:292-358 | a whole declined_under_review update, with or without answers: the store ends as the review writes (client reset, old task completed, one review task and one notification referencing it) plus the patched answers and the saved loan; the response is that loan |
| LoanUpdateFacts.ReviewFailures | controllers/loan.js:317-328 | on a loan that is not 'new', a missing client fails reading `first_name` and a missing task fails reading `created_by` (the client is read first); the task is still completed, and no loan, answer or notification is written |
| LoanUpdateFacts.ReviewFailuresNew | controllers/loan.js:295-328 | a 'new' loan with its client but no task: the client ends in 'loan_application_inprogress', then reading `created_by` of the null task fails; no task, loan, notification or answer is written |
| LoanUpdateFacts.NewWithoutClient | controllers/loan.js:292-297 | a 'new' loan whose client is gone fails reading `_id` of null, with nothing written |
| LoanUpdateFacts.SubmittedTarget | controllers/loan.js:292-369 | a submitted update, with or without answers, saves the loan with the patch results, syncs a 'new' loan's client, then creates exactly one approve task under a fresh id; notifications are unchanged and answers are exactly the patched ones |
| LoanUpdateFacts.SubmittedWithoutClient | controllers/loan.js:337-369 | without a client the answers are still patched and the loan saved, then the task creation fails reading `first_name` of null, and no task is created |
| LoanUpdateFacts.InprogressTarget | controllers/loan.js:292-358 | an inprogress update, with or without answers, saves the loan with the patch results, syncs a 'new' loan's client, and creates no task or notification |
| LoanUpdateFacts.AnswersSaved | controllers/loan.js:339-358 | after a successful update with answers, the loan's answers are the patch results in order, and no answer's identity fields changed |
| LoanRemove.DeleteAll | controllers/loan.js:452-454 | the inner delete loop removes exactly the listed ids; missing ones change nothing |
| LoanRemove.RemoveOne | controllers/loan.js:449-456 | one turn deletes the answer and its `sub_answers`; a null entry throws reading `_id`; a missing answer writes nothing and throws reading `length` |
| LoanRemove.RemoveAnswersStops | controllers/loan.js:449-456 | once a turn throws, the later entries change nothing |
| LoanRemove.TargetsNamed | controllers/loan.js:449-456 | what the loop deletes is exactly the answers named by the entries and the ids in their `sub_answers` |
| LoanRemove.RemoveAnswersClosed | controllers/loan.js:449-456 | the loop equals its closed form: everything named before the first unusable entry is deleted, and the error is raised at that entry |
| LoanRemove.RemoveMissing | controllers/loan.js:444-447 | removing a missing loan writes nothing and fails with 'Loan Does Not Exist!' |
| LoanRemove.RemoveExisting | controllers/loan.js:444-464 | an existing loan is deleted along with what its entries name up to the first unusable entry; the response is the loan exactly when every entry was usable, otherwise the TypeError message of that entry |
| LoanRemove.DeleteSubAnswers | controllers/loan.js:452-454 | the inner loop changes the store as `DeleteAll` says |
| LoanRemove.DeleteAnswer | controllers/loan.js:450-455 | one turn of the outer loop changes the store as `RemoveOne` says |
| LoanRemove.DeleteAnswers | controllers/loan.js:449-456 | the outer loop changes the store as `RemoveAnswers` says |
| LoanRemove.Remove | controllers/loan.js:436-474 | the handler leaves the store and response that `RemoveSpec` gives |
| LoanLifecycle.CreateMakesFreshClone | controllers/loan.js:85-117 | a successful create leaves its loan with one existing parent per entry, every `sub_answers` empty, and its sub-answers in fresh blocks just below each parent |
| LoanLifecycle.RemoveFreshClone | controllers/loan.js:449-456 | removing such a loan succeeds and deletes exactly the loan and its parent answers |
| LoanLifecycle.RemoveFreshCloneOf | controllers/loan.js:444-464 | removing a fresh clone added on top of an earlier store gives back that store's loans and keeps its answers and the clone's sub-question answers |
| LoanLifecycle.CreateThenRemove | controllers/loan.js:449-456 | create then remove gives back the old loans, deletes the parent answers and keeps every sub-question answer and every earlier answer |
| LoanFetch.FetchOne | controllers/loan.js:141-174 | the loan is returned exactly when VIEW is granted and the loan exists; without VIEW, the permission error; a missing loan gives a null read of `title` |
| LoanFetch.UpdateStatus | controllers/loan.js:183-186 | the endpoint only answers 'Use PUT /loans/:id' |
| FormController.CreateErrors | controllers/form.js:38-48 | there are no errors exactly when type and title are both non-empty; each empty field gives its message, type first |
| FormController.NewForm | controllers/form.js:58 | the stored form has the body's type, title, active flag and questions (none given is the empty list) |
| FormController.Create | controllers/form.js:33-69 | the handler leaves the store and response that `CreateSpec` gives |
| FormController.Update | controllers/form.js:154-182 | the handler leaves the store and response of the patch, with UPDATE_FORM_ERROR |
| FormController.UpdateStatus | controllers/form.js:113-144 | the handler leaves the store and response of the patch, with FORM_STATUS_UPDATE_ERROR |
| FormController.FetchOne | controllers/form.js:79-104 | the form is returned exactly when its id exists; otherwise a null read of `title` |
| FormController.CreateOutcome | controllers/form.js:38-60 | empty fields fail with both, one or the other message and no write; then a taken title fails exactly when some form has it; otherwise exactly the new form is added under a fresh id |
| FormController.CreateKeepsTitlesUnique | controllers/form.js:52-58 | create preserves "no two forms share a title" |
| FormController.UpdateBreaksUniqueTitles | controllers/form.js:157-163 | an update can give two forms the same title, so only create keeps titles unique |
| FormController.PatchOnlyThatForm | controllers/form.js:119-125 | a patch changes only the addressed form, by exactly the fields the body carries; a missing form gives no write and a null read of `title` |
| FormController.StatusPatchIgnoresValidation | controllers/form.js:116-125 | `updateStatus` applies its patch even with `is_active` missing |
| FormController.ReadShowNat | controllers/form.js:204-205 | unary `+` reads the decimal spelling of any natural number as that number |
| FormController.OptionsDefaults | controllers/form.js:195-207 | without `page` or `per_page` the options are page 1 and limit 10; the sort is ascending on `sort_by` exactly when it is given and non-empty, and otherwise empty |
| FormController.OptionsReadNumbers | controllers/form.js:195-205 | decimal `page` and `per_page` values become that page and limit |

## Left out

- Audit records. `LogDal.track` calls are not modelled; they only append audit records.
- Timestamps. The `moment()` timestamps of the pre-save hooks depend on the clock; answers carry `date_created` and `last_modified` only as opaque values.
- Permissions. The permission lookup (`lib/permissions`) is not part of this model; its answers are boolean inputs.
- Request parsing. The koa-validate checks are modelled by their documented outcome. An error list is rendered as `[{"field":"message"},…]`.
- Object ids. These are natural numbers; casts of malformed id strings are not modelled.
- Unknown body fields. Fields that the loan and form records do not have are dropped from request bodies.
- Schemas. The form, answer, task, client, screening and account schemas are not part of this model. Their fields were inferred from the controllers. A new task's status is 'pending'.
- Pagination queries. Loan pagination and search, and the paginated query of `fetchAllByPagination`, depend on the database library and are not modelled. Only the form options are.
- Features outside these controllers. Loan cycles, sections and prerequisite re-linking are not modelled.
- LoanCreate.Resolve: Mongoose `populate` is modelled two levels deep (questions and their sub-questions), dropping dangling references. Deeper nesting is copied as plain ids.
- LoanRemove.RemoveSpec: the loan's `answers` are read as the stored ids; a null or dangling entry throws as written in the loop, whereas a populating `LoanDal.get` would drop such entries first; `dal/loan.js` is not part of this model.
- LoanFetch.FetchOne: the loan is returned with its answers as ids rather than populated documents.
- FormController.ToNumber: unary `+` is interpreted only for decimal integers with optional sign and surrounding white space (the white space and line terminator characters ECMAScript's `Number` trims). Fractions, exponents, hexadecimal, `Infinity` and `NaN` values are kept uninterpreted, so OptionsReadNumbers is stated for decimal input only.
