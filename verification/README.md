# Task manager core, modelled in Dafny

This project models the core of a task manager: a Spring Boot service that keeps **users**,
**task statuses**, **labels** and **tasks**. A task has one status, which is required. It may have
an assignee and any number of labels. The model covers:

- the filters behind `GET /api/tasks` and `GET /api/users`, which are JPA specifications;
- the task mapper and its three-state update requests (a field is unsent, sent as null, or sent
  with a value);
- the create, update and delete services for every entity. Both generations are covered where
  they differ: the legacy `*Service` classes and the `*ServiceImpl` classes;
- the guards that refuse to delete a user, status or label still in use, and the
  back-reference collections those guards read;
- paging with an `X-Total-Count` header;
- the "administrator or the user themself" rule on user changes;
- the rule that turns a bearer token's claims into granted authorities;
- the table that turns each exception into an HTTP status.

The database is a `Store`: one map from id to record per table, plus the next id to hand out.
Relations are ids. The entities compare and hash by id alone (`@EqualsAndHashCode` includes only
the id), so a `Set<Label>` or `Set<Task>` is fixed by the ids it holds, and the model keeps such
collections as id sets. The back-reference collections are stored fields, so the model can state
whether an operation keeps them in step with the owning side:

- `User.assignedTasks`;
- `TaskStatus.tasks`;
- `Label.tasks`, an ordered list.

`Invariants.Wf` is the store as the database keeps it: every record sits under its own id, ids are
below the counter, foreign keys resolve, unique columns are unique, and bean validation holds.
`AssigneeRefsSynced` and `StatusRefsSynced` say that the back-references agree with the tasks.

Bean validation follows Hibernate Validator: `@NotBlank` trims the characters at or below U+0020
and asks whether anything is left (`Text.NotBlank`), which is not what `String.isBlank` asks, and
`@Size` counts UTF-16 code units (`Text.Utf16Length`). The filters and the status guard use
`String.isBlank` (`Text.IsBlank`). The database refuses to delete a row that a task still
references through `task_status_id` or `assignee_id`.

Failures are a datatype (`Failures.Failure`) rather than exception messages. A request field that
may be missing is an `Option`; a `JsonNullable` update field is a `Patch` (`Absent`, `Null` or
`Value`). The password encoder is a function parameter. The current day is a parameter.

Modules follow the program:

- `Entities`, `Invariants`, `Repositories`, `BackRefs` and `LabelLinks` hold the model classes,
  the repositories and the entity helpers.
- `TaskSpecification`, `UserSpecification`, `Text` and `Listing` hold the filters, the
  case-insensitive `LIKE` and paging.
- `TaskMapper` is the task mapper.
- `TaskService`, `TaskServiceImpl`, `StatusService`, `UserService` and `LabelService` are the
  services.
- `TaskController`, `UsersController`, `UserUtils` and `Security` are the controllers and
  security.
- `ExceptionHandler` is the global exception handler.

The entity classes at this revision lag behind the services, and the model follows what the
services and the security code read and write:

- `User.java` declares a plain `password`, no role and no task collection.
  - The model's `User` has a password digest, because both user services store the encoder's
    output.
  - It has a role, because `UserUtils.java:26` and `JWTUtils.java:33` read one. No service sets
    it. A new user gets `USER`, the entity default that the tests assert
    (`UserAdditionalTest.java:33`).
  - It has `assignedTasks`, because the legacy task service and the implementation's task delete
    maintain it. The user delete does not read it: its guard is the task query
    `hasTasksWithUser`.
- `Task.java` declares no labels, although `Label.java` maps its task list by `Task.labels`. The
  model's task carries a set of label ids.
- The label ids of a task request go by two names. The mapper reads `taskLabelIds`, which
  `TaskUpdateDTO.java` does not declare. The legacy service reads `labelIds`, which is the name
  `TaskCreateDTO.java` declares. The model merges both into one field, `taskLabelIds`.

## Model

| member | source | states |
|---|---|---|
| Entities.ValidationExamples | src/main/java/hexlet/code/model/Task.java:40-43 | Validation trims rather than asking `isBlank`: a name of one control character is refused though `isBlank` calls it text, an em space is accepted though `isBlank` calls it blank, and an emoji counts as two units towards a label name's minimum of three |
| Repositories.FindStatusBySlug | src/main/java/hexlet/code/mapper/TaskMapper.java:68-70 | The slug lookup finds nothing exactly when no status has the slug; a match has the slug; with unique slugs the lookup is never ambiguous |
| Repositories.FindUserByEmail | src/main/java/hexlet/code/util/UserUtils.java:15-22 | The email lookup finds nothing exactly when no user has the email; a match has the email; with unique emails it is never ambiguous |
| Repositories.ExistsTasksByUserIff | src/main/java/hexlet/code/repository/TaskRepository.java:12-17 | The query "some task's assignee is this user" holds exactly when a stored task is assigned to the user, and agrees with `existsByAssigneeId` |
| Repositories.ExistsTasksByStatusIff | src/main/java/hexlet/code/repository/TaskRepository.java:14-20 | The query "some task has this status" holds exactly when a stored task has the status, and agrees with `existsByTaskStatusId` |
| Repositories.SaveTask | src/main/java/hexlet/code/model/Task.java:40-43 | Saving succeeds exactly when the name is present and something is left after trimming the characters at or below U+0020 (`@NotBlank`). Otherwise it fails with a constraint violation. On success it replaces only the task's row and the counter stays ahead of the id |
| Repositories.DeleteStatusRow | src/main/java/hexlet/code/model/Task.java:48-50 | Deleting a status row is refused exactly when some task still references the status. Otherwise only that row goes |
| Repositories.DeleteUserRow | src/main/java/hexlet/code/model/Task.java:52-54 | Deleting a user row ignores an unknown id and is refused exactly when some task is still assigned to the user. Otherwise only that row goes |
| BackRefs.Reload | src/main/java/hexlet/code/service/impl/TaskStatusServiceImpl.java:74-79 | A reloaded store has the assignee and status collections rebuilt from the tasks that point at their owner. The tasks, labels, counter and every other field are unchanged |
| BackRefs.ReloadFixesSyncedStores | src/main/java/hexlet/code/service/impl/TaskStatusServiceImpl.java:74-79 | Reloading a store whose assignee and status collections are already in step changes nothing |
| BackRefs.ReloadKeepsWf | src/main/java/hexlet/code/service/impl/TaskStatusServiceImpl.java:74-79 | Rebuilding the assignee and status collections keeps a consistent store consistent |
| BackRefs.MoveAssignment | src/main/java/hexlet/code/service/TaskService.java:100-115 | Moving a task between assignees takes it out of the old assignee's set and puts it into the new one's. No other user's set and no other field changes |
| BackRefs.MoveKeepsSync | src/main/java/hexlet/code/service/TaskService.java:100-115 | Saving a task together with the matching move keeps every assignee set equal to the set of tasks assigned to that user |
| BackRefs.SameAssigneeKeepsSync | src/main/java/hexlet/code/service/TaskService.java:100-132 | Saving a task whose assignee did not change keeps the assignee sets in step |
| BackRefs.WfIgnoresAssignedTasks | src/main/java/hexlet/code/model/User.java:24-47 | Consistency does not depend on the users' task sets |
| TaskSpecification.EmptyFilterAcceptsAll | src/main/java/hexlet/code/specification/TaskSpecification.java:13-18 | A request with no parameters lets every task through |
| TaskSpecification.BlankTextIsAbsent | src/main/java/hexlet/code/specification/TaskSpecification.java:20-45 | A blank title or status parameter filters nothing, exactly like a missing one. An assignee or label parameter only lets through tasks with that assignee or label |
| TaskSpecification.TitleContIsCaseInsensitiveSubstring | src/main/java/hexlet/code/specification/TaskSpecification.java:20-27 | A non-blank title filter accepts a task exactly when it has a name and the lower-cased query occurs in the lower-cased name. The filter gives the same answer for the lower-cased query |
| TaskSpecification.TitleSearchExample | src/main/java/hexlet/code/specification/TaskSpecification.java:25 | The query "AUTH" finds the task named "Add auth filter" |
| TaskSpecification.AtomicTestsAreExact | src/main/java/hexlet/code/specification/TaskSpecification.java:29-55 | The assignee test holds exactly for tasks assigned to that user, so never for unassigned ones. The status test holds exactly when the task's status has that slug. The label test holds exactly when the task carries the label, so never for a task without labels |
| TaskSpecification.BuildIsConjunction | src/main/java/hexlet/code/specification/TaskSpecification.java:13-18 | The combined filter holds exactly when all four individual tests do |
| TaskSpecification.MoreParamsMatchFewer | src/main/java/hexlet/code/specification/TaskSpecification.java:13-18 | Adding parameters to a request can only shrink the result |
| UserSpecification.EmptyFilterAcceptsAll | src/main/java/hexlet/code/specification/UserSpecification.java:13-24 | A request with no parameters lets every user through |
| UserSpecification.NullParameterDropsItsTest | src/main/java/hexlet/code/specification/UserSpecification.java:13-84 | For each of the ten parameters, the filter is the conjunction of that parameter's test with the filter without it |
| UserSpecification.ExactTests | src/main/java/hexlet/code/specification/UserSpecification.java:26-72 | The id, email, first name, last name and creation-day tests are exact equality. A user with no first or last name fails the name test |
| UserSpecification.ContainsTests | src/main/java/hexlet/code/specification/UserSpecification.java:38-66 | The `*Cont` tests accept exactly when the lower-cased query occurs in the lower-cased column. An absent name column fails, and lower-casing the query changes nothing |
| UserSpecification.EmptyContIsNotAbsent | src/main/java/hexlet/code/specification/UserSpecification.java:50-54 | Unlike the task title filter, an empty `*Cont` parameter is still a test: it accepts every user with that column and rejects users without it |
| UserSpecification.OpenInterval | src/main/java/hexlet/code/specification/UserSpecification.java:74-84 | `createdAtGt` and `createdAtLt` together accept exactly the days strictly between the bounds. The bounds themselves are excluded, and adjacent bounds accept nothing |
| UserSpecification.MoreParamsMatchFewer | src/main/java/hexlet/code/specification/UserSpecification.java:13-24 | Adding parameters to a request can only shrink the result |
| Text.Lower | src/main/java/hexlet/code/specification/TaskSpecification.java:25 | Lower-casing keeps the length and lower-cases each character in place |
| Text.ContainsIffOccurs | src/main/java/hexlet/code/specification/TaskSpecification.java:25 | The substring search used for `LIKE '%q%'` succeeds exactly when the query occurs at some position |
| Text.LowerIdempotent | src/main/java/hexlet/code/specification/UserSpecification.java:41 | Lower-casing twice is lower-casing once |
| Text.ContainsEmpty | src/main/java/hexlet/code/specification/UserSpecification.java:53 | `LIKE '%%'` matches every string |
| Text.IgnoringCaseIsCaseBlind | src/main/java/hexlet/code/specification/UserSpecification.java:41 | The case-insensitive match gives the same answer whichever side is lower-cased first |
| Text.NotBlankIffTrimNonEmpty | src/main/java/hexlet/code/model/Label.java:40 | `@NotBlank` holds exactly when `trim()` leaves something, that is, when some character is above U+0020 |
| Text.Utf16LengthBounds | src/main/java/hexlet/code/model/Label.java:41 | The length `@Size` counts lies between the number of characters and twice it, and equals the number of characters exactly when none lies outside the Basic Multilingual Plane |
| Listing.Select | src/main/java/hexlet/code/controller/TaskController.java:66-67 | The matches of a query are no more than the rows, and every one passes the filter |
| Listing.SelectCounts | src/main/java/hexlet/code/controller/TaskController.java:66-67 | The matches are the passing rows with their multiplicities, and no rows that fail the filter |
| Listing.Filter | src/main/java/hexlet/code/controller/UsersController.java:50-52 | Scanning the table row by row produces the reference selection |
| Listing.SelectAppend | src/main/java/hexlet/code/controller/TaskController.java:66-67 | Filtering a concatenation is concatenating the filtered parts, so the order of the table is kept |
| Listing.SelectEmptyIffNoMatch | src/test/java/hexlet/code/specification/TaskFilterTest.java:359-393 | A query returns nothing exactly when no row passes the filter |
| Listing.OffsetIsProduct | src/main/java/hexlet/code/controller/TaskController.java:64 | Page `p` of size `s` starts at row `(p - 1) * s` |
| Listing.WrapInt | src/main/java/hexlet/code/controller/TaskController.java:67 | Java `int` arithmetic: the result is in the `int` range, differs from the exact value by a multiple of 2^32, and is the exact value when that is in range |
| Listing.PageIndex | src/main/java/hexlet/code/controller/TaskController.java:67 | `page - 1` in `int`: one less than the page, except that the least `int` wraps round to the greatest |
| Listing.PageRequest | src/main/java/hexlet/code/controller/UsersController.java:51 | A page request is refused as invalid exactly when the page is below 1 (other than the least `int`, which wraps) or the size is below 1. It is refused as too large exactly when the offset leaves the `int` range. Otherwise the offset is where the page starts |
| Listing.PageRequestExamples | src/main/java/hexlet/code/controller/UsersController.java:51 | Page `-2147483648` wraps to the last page index, which fits as an offset only with one-row pages. Pages of ten run out of offsets after page 214748365; page 0 and size 0 are refused |
| Listing.PageSlice | src/main/java/hexlet/code/controller/TaskController.java:64-70 | A page holds the rows from its offset onward: up to `size` of them, and none past the end |
| Listing.FirstPagesArePrefix | src/main/java/hexlet/code/controller/TaskController.java:64-70 | Concatenating pages 1 to n gives the first n pages' worth of rows, in order, without gaps or repeats |
| Listing.AllPagesGiveEverything | src/main/java/hexlet/code/controller/TaskController.java:64-70 | Enough pages, concatenated, give back every match exactly once |
| Listing.TwelveMatchesExample | src/test/java/hexlet/code/specification/TaskFilterTest.java:335-357 | With twelve matches, page 1 holds ten, page 2 the remaining two, and page 3 nothing |
| TaskMapper.ResolveStatus | src/main/java/hexlet/code/mapper/TaskMapper.java:68-70 | The status lookup fails with "not found" exactly when no status has the slug. With unique slugs it otherwise finds the status that has it |
| TaskMapper.ResolveUser | src/main/java/hexlet/code/mapper/TaskMapper.java:72-74 | The assignee lookup succeeds exactly for a stored user id and fails with "user not found" otherwise |
| TaskMapper.GetLabelsByIds | src/main/java/hexlet/code/mapper/TaskMapper.java:126-146 | Label resolution succeeds exactly when every requested id exists, and returns those ids. A null request gives none. On failure the error names exactly the missing ids |
| TaskMapper.PopulateOutcome | src/main/java/hexlet/code/mapper/TaskMapper.java:66-86 | The create relations are described from the request alone. They are refused when the status is missing or blank, or names no stored slug, or when the assignee is not stored. Otherwise they resolve to the status with that slug, the given assignee, and the given label ids |
| TaskMapper.MapCreate | src/main/java/hexlet/code/mapper/TaskMapper.java:45-50 | Mapping a create request succeeds exactly when its relations resolve, and otherwise carries their failure. The task gets the id and day the save assigns, the title as name, the content as description, the index, the status with the requested slug, the requested assignee, and the requested label ids (none when not sent) |
| TaskMapper.UpdateFields | src/main/java/hexlet/code/mapper/TaskMapper.java:59-64 | Copying the plain fields keeps the id, the creation day and all three relations |
| TaskMapper.UpdateTaskRelationships | src/main/java/hexlet/code/mapper/TaskMapper.java:88-115 | The relation step changes only the status, assignee and labels. The assignee follows the patch: unsent keeps it, null clears it, a value sets it |
| TaskMapper.Update | src/main/java/hexlet/code/mapper/TaskMapper.java:59-64 | A mapper update keeps the id and creation day, and the assignee follows the patch |
| TaskMapper.UpdateOutcome | src/main/java/hexlet/code/mapper/TaskMapper.java:59-115 | The update succeeds exactly when the status is not sent as null and every sent slug, assignee and label set exists. A null status fails as a missing slug. An unknown slug fails naming it; otherwise an unknown assignee fails naming it; otherwise missing labels fail naming exactly the missing ids. On success each field follows its patch and the label set is replaced, not merged |
| TaskMapper.UpdateIsIdempotent | src/main/java/hexlet/code/mapper/TaskMapper.java:59-115 | Applying an update request twice is the same as applying it once, both for the whole update and for the relation step alone |
| TaskMapper.RelationsIgnoreFields | src/main/java/hexlet/code/mapper/TaskMapper.java:88-115 | The relation step reads only the task's relations: two tasks that agree on them get the same outcome |
| TaskMapper.MapperAfterRelations | src/main/java/hexlet/code/mapper/TaskMapper.java:59-64 | Running the mapper's update after the request's relations were already applied gives what the mapper alone gives |
| TaskMapper.EmptyUpdateIsNoOp | src/main/java/hexlet/code/mapper/TaskMapper.java:59-115 | An update with no fields sent leaves the task unchanged |
| TaskMapper.MapLabelsToTaskLabelIds | src/main/java/hexlet/code/mapper/TaskMapper.java:117-124 | The label ids of a response are exactly the ids of the task's labels. A null collection gives none |
| TaskMapper.ToDto | src/main/java/hexlet/code/mapper/TaskMapper.java:52-57 | The response carries the task's id, index, creation day and assignee, with the name as title and the description as content |
| TaskMapper.DtoReflectsRelations | src/main/java/hexlet/code/mapper/TaskMapper.java:52-57 | For a task whose relations resolve, the response's status is its status's slug and its label ids are its labels |
| TaskMapper.EchoUpdateIsNoOp | src/main/java/hexlet/code/mapper/TaskMapper.java:52-64 | Sending a stored task's own response back as an update request leaves the task unchanged |
| TaskMapper.CreateThenDto | src/main/java/hexlet/code/mapper/TaskMapper.java:45-57 | The response for a created task gives back the request's title, content, index, status slug, assignee and label ids. No label ids read back as none |
| TaskService.FindEachLabel | src/main/java/hexlet/code/service/TaskService.java:117-129 | The legacy label loop fails on a null id set, succeeds exactly when every id is stored and returns the ids. Otherwise it fails naming one id, and that id is missing |
| TaskService.ApplyRelations | src/main/java/hexlet/code/service/TaskService.java:93-129 | The legacy relation step fails on null label ids. Otherwise it changes only the relations, and the assignee follows the patch |
| TaskService.ApplyRelationsMatchesMapper | src/main/java/hexlet/code/service/TaskService.java:93-129 | Except for null label ids, the legacy relation step succeeds exactly when the mapper's does, with the same task. It fails with the same failure, except that for missing labels it names one of the ids the mapper names |
| TaskService.RepeatLookups | src/main/java/hexlet/code/service/TaskService.java:65-84 | Repeating the create lookups keeps the task's id, name, index, description and creation day |
| TaskService.LookupLabels | src/main/java/hexlet/code/service/TaskService.java:76-84 | The label step of the legacy create changes only the task's labels |
| TaskService.RepeatLookupsChangeNothing | src/main/java/hexlet/code/service/TaskService.java:63-84 | After the mapper has resolved a create request, repeating the lookups gives back the mapped task |
| TaskService.Create | src/main/java/hexlet/code/service/TaskService.java:58-61 | A create request without a status, or with a blank one, is refused as "status required" |
| TaskService.CreateAgreesWithImpl | src/main/java/hexlet/code/service/TaskService.java:58-87 | The legacy create fails exactly when the implementation's does, with the same failure. Otherwise it stores the same task, and the stores differ only in the users' task sets |
| TaskService.CreateKeepsInvariants | src/main/java/hexlet/code/service/TaskService.java:58-87 | The legacy create keeps the store consistent and keeps the assignee sets in step |
| TaskService.Update | src/main/java/hexlet/code/service/TaskService.java:89-91 | Updating an unknown task fails as not found |
| TaskService.UpdateAgreesWithImpl | src/main/java/hexlet/code/service/TaskService.java:89-133 | Unless the label ids are sent as null, the legacy update fails exactly when the implementation's does, with a failure of the same class and so the same HTTP status. The failure is the same one, or for missing labels one of the ids the implementation names. Otherwise it stores the same task, and the stores differ only in the assignee sets |
| TaskService.NullLabelsDiverge | src/main/java/hexlet/code/service/TaskService.java:117-129 | With label ids sent as null, the legacy update fails on the null where the implementation clears the labels |
| TaskService.UpdateKeepsWf | src/main/java/hexlet/code/service/TaskService.java:89-133 | The legacy update keeps the store consistent |
| TaskService.UpdateEffect | src/main/java/hexlet/code/service/TaskService.java:89-133 | A successful legacy update replaces only the task's row. The assignee follows the patch. When an assignee is sent, the task moves from the old assignee's set to the new one's |
| TaskService.UpdateKeepsSync | src/main/java/hexlet/code/service/TaskService.java:100-132 | The legacy update keeps every assignee set equal to the set of tasks assigned to that user |
| TaskService.UpdateKeepsInvariants | src/main/java/hexlet/code/service/TaskService.java:89-133 | The legacy update keeps the store consistent and the assignee sets in step |
| TaskService.Delete | src/main/java/hexlet/code/service/TaskService.java:135-145 | Deleting fails exactly for an unknown task. Otherwise it removes that task's row alone and keeps the assignee sets in step |
| TaskService.HasTasksWithUser | src/main/java/hexlet/code/service/TaskService.java:147-149 | The check holds exactly when some stored task is assigned to the user |
| TaskService.HasTasksWithStatus | src/main/java/hexlet/code/service/TaskService.java:151-153 | The check holds exactly when some stored task has the status |
| TaskServiceImpl.Create | src/main/java/hexlet/code/service/impl/TaskServiceImpl.java:44-48 | Creating succeeds exactly when the relations resolve and the title is a valid name. A relation failure passes through; a bad title is a constraint violation. The task is stored under the fresh id with the request's fields, the status with its slug, its assignee and its labels, and no other table changes |
| TaskServiceImpl.CreateRequestOutcome | src/main/java/hexlet/code/service/impl/TaskServiceImpl.java:44-48 | A create request succeeds exactly when the status is given, not blank and a stored slug, the assignee and labels given exist, and the title is valid. Resolvable relations with a blank title fail as a constraint violation |
| TaskServiceImpl.CreateKeepsWf | src/main/java/hexlet/code/service/impl/TaskServiceImpl.java:44-48 | Creating keeps the store consistent, and the new id was not in use |
| TaskServiceImpl.Update | src/main/java/hexlet/code/service/impl/TaskServiceImpl.java:50-57 | Updating an unknown task fails as not found. Otherwise it succeeds exactly when the mapper's update of the stored task does and leaves a valid name, and a mapper failure passes through. The stored task is the mapper's result, keeps its id, and is the only row that changes |
| TaskServiceImpl.UpdateRequestOutcome | src/main/java/hexlet/code/service/impl/TaskServiceImpl.java:50-57 | An update succeeds exactly when the task exists, the status is not sent as null, each sent slug, assignee and label id exists, and the patched title is valid. The stored task then carries each patched field; sent label ids replace the labels and null clears them |
| TaskServiceImpl.UpdateKeepsWf | src/main/java/hexlet/code/service/impl/TaskServiceImpl.java:50-57 | Updating keeps the store consistent |
| TaskServiceImpl.Delete | src/main/java/hexlet/code/service/impl/TaskServiceImpl.java:59-70 | Deleting fails exactly for an unknown task. Otherwise it removes the row and takes the task out of its assignee's set; nothing else changes |
| TaskServiceImpl.DeleteKeepsInvariants | src/main/java/hexlet/code/service/impl/TaskServiceImpl.java:59-70 | Deleting keeps the store consistent and the assignee sets in step |
| TaskServiceImpl.DeleteUnassignedTouchesNoUser | src/main/java/hexlet/code/service/impl/TaskServiceImpl.java:64-67 | Deleting an unassigned task only removes its row |
| TaskServiceImpl.CreateLeavesAssigneeStale | src/main/java/hexlet/code/service/impl/TaskServiceImpl.java:44-48 | A task created with an assignee is missing from that user's task set: the sets fall out of step |
| TaskServiceImpl.UpdateLeavesAssigneeStale | src/main/java/hexlet/code/service/impl/TaskServiceImpl.java:50-57 | Reassigning a task through the update leaves it in the old assignee's set and out of the new one's |
| StatusService.Create | src/main/java/hexlet/code/service/impl/TaskStatusServiceImpl.java:34-47 | Creating is refused exactly when the name or the slug is taken, the name being checked first. Otherwise the status is stored under the fresh id with no tasks, and no other table changes |
| StatusService.CreateKeepsInvariants | src/main/java/hexlet/code/service/impl/TaskStatusServiceImpl.java:34-47 | Creating keeps the store consistent and the status task sets in step |
| StatusService.Update | src/main/java/hexlet/code/service/impl/TaskStatusServiceImpl.java:49-70 | An unknown id is not found. A name or slug sent as null fails. A sent name or slug held by another status is a duplicate, name first. On success only the name and slug change, each following its patch |
| StatusService.UpdateKeepsInvariants | src/main/java/hexlet/code/service/impl/TaskStatusServiceImpl.java:49-70 | Updating keeps the store consistent and the status task sets in step |
| StatusService.UpdateIsIdempotent | src/main/java/hexlet/code/service/impl/TaskStatusServiceImpl.java:49-70 | Repeating a successful status update changes nothing more |
| StatusService.ResendingCurrentValuesIsNoOp | src/main/java/hexlet/code/service/impl/TaskStatusServiceImpl.java:54-66 | Sending a status's own name and slug back succeeds and changes nothing |
| StatusService.Delete | src/main/java/hexlet/code/service/impl/TaskStatusServiceImpl.java:72-82 | Deleting fails exactly for an unknown status. It is refused as in use exactly when the status's own task set is not empty. Past that guard the database refuses exactly when a task still references the status. Otherwise only the status row goes |
| StatusService.LegacyDelete | src/main/java/hexlet/code/service/TaskStatusService.java:72-81 | Deleting fails exactly for an unknown status. It is refused as in use exactly when some stored task has the status, so the database never refuses. Otherwise only the status row goes |
| StatusService.LegacyDeleteKeepsInvariants | src/main/java/hexlet/code/service/TaskStatusService.java:72-81 | The legacy delete keeps the store consistent, whatever state the status task sets are in |
| StatusService.DeleteKeepsInvariants | src/main/java/hexlet/code/service/impl/TaskStatusServiceImpl.java:72-82 | The implementation's delete keeps the store consistent, because the database refuses what the guard misses. With the status task sets in step the database is never asked to refuse, and the sets stay in step |
| StatusService.DeleteAfterReloadAgreesWithLegacy | src/main/java/hexlet/code/service/impl/TaskStatusServiceImpl.java:72-82 | On a freshly loaded status the two deletes decide alike, fail alike, and leave the same store once it is reloaded |
| StatusService.StaleCollectionMissesGuard | src/main/java/hexlet/code/service/impl/TaskStatusServiceImpl.java:77-81 | With a stale status task set, the implementation's guard lets through the delete of a status a task still points at; the database refuses and the client gets 500, where the legacy service answers 409 |
| UserService.Create | src/main/java/hexlet/code/service/impl/UserServiceImpl.java:38-46 | Creating is refused for a taken email. It succeeds exactly when the email is present, free and valid, and a password is given. The new user has the encoded password, role USER and no tasks, and no other table changes |
| UserService.CreateKeepsInvariants | src/main/java/hexlet/code/service/impl/UserServiceImpl.java:38-46 | Creating keeps the store consistent and the assignee sets in step |
| UserService.Update | src/main/java/hexlet/code/service/impl/UserServiceImpl.java:48-67 | An unknown id is not found. An email sent as null fails. A new email held by another user is a duplicate. On success the names follow their patches, the email is the sent one or the old one, a sent password is stored encoded, and nothing else changes |
| UserService.UpdateKeepsInvariants | src/main/java/hexlet/code/service/impl/UserServiceImpl.java:48-67 | Updating keeps the store consistent and the assignee sets in step |
| UserService.EmptyRequestIsNoOp | src/main/java/hexlet/code/service/impl/UserServiceImpl.java:48-67 | An empty update request, or one that resends the user's own email, succeeds and changes nothing |
| UserService.Delete | src/main/java/hexlet/code/service/impl/UserServiceImpl.java:69-79 | Deleting fails exactly for an unknown user, and is refused as in use exactly when some stored task is assigned to the user; no other failure arises. Otherwise only the user row goes |
| UserService.DeleteKeepsInvariants | src/main/java/hexlet/code/service/impl/UserServiceImpl.java:69-79 | Deleting keeps the store consistent and the assignee sets in step |
| UserService.LegacyDelete | src/main/java/hexlet/code/service/UserService.java:66-68 | The legacy delete ignores an unknown id. The database refuses it exactly when some task is still assigned to the user. Otherwise it removes that user alone |
| UserService.LegacyDeleteAgreesWhenAccepted | src/main/java/hexlet/code/service/UserService.java:66-68 | Where the implementation's delete succeeds, the legacy delete succeeds with the same store |
| UserService.LegacyDeleteKeepsInvariants | src/main/java/hexlet/code/service/UserService.java:66-68 | The legacy delete keeps the store consistent and the assignee sets in step, the database refusing what it does not check |
| UserService.LegacyDeleteReachesDatabase | src/main/java/hexlet/code/service/UserService.java:66-68 | For a user a task is assigned to, the legacy delete reaches the database, which refuses, and the client gets 500; the implementation refuses first, with 409 |
| LabelService.Create | src/main/java/hexlet/code/service/impl/LabelServiceImpl.java:34-42 | Creating is refused for a taken name. It succeeds exactly when the name is present, free, not blank after trimming, and 3 to 1000 UTF-16 code units long. The new label has no tasks |
| LabelService.CreateKeepsWf | src/main/java/hexlet/code/service/impl/LabelServiceImpl.java:34-42 | Creating a label keeps the store consistent |
| LabelService.Update | src/main/java/hexlet/code/service/impl/LabelServiceImpl.java:44-58 | An unknown id is not found. A name sent as null fails. A new name held by another label is a duplicate. On success only the name changes, following its patch |
| LabelService.UpdateKeepsWf | src/main/java/hexlet/code/service/impl/LabelServiceImpl.java:44-58 | Updating a label keeps the store consistent |
| LabelService.UpdateIsIdempotent | src/main/java/hexlet/code/service/impl/LabelServiceImpl.java:44-58 | Repeating a successful label update changes nothing more |
| LabelService.Delete | src/main/java/hexlet/code/service/impl/LabelServiceImpl.java:60-70 | Deleting fails exactly for an unknown label. It is refused as in use exactly when some stored task carries the label. Otherwise it removes that row alone |
| LabelService.DeleteKeepsWf | src/main/java/hexlet/code/service/impl/LabelServiceImpl.java:60-70 | Deleting a label keeps the store consistent |
| LabelLinks.RemoveFirst | src/main/java/hexlet/code/model/Label.java:59 | `List.remove` drops one occurrence of the task if there is one, and otherwise leaves the list as it was |
| LabelLinks.RemoveFirstAt | src/main/java/hexlet/code/model/Label.java:59 | The occurrence removed is the first one |
| LabelLinks.RemoveAfterAppend | src/main/java/hexlet/code/model/Label.java:53-61 | Removing a task that was just appended to a list without it restores the list |
| LabelLinks.AddTask | src/main/java/hexlet/code/model/Label.java:53-56 | Linking appends the task to the label's list and adds the label to the task's set; nothing else changes |
| LabelLinks.RemoveTask | src/main/java/hexlet/code/model/Label.java:58-61 | Unlinking removes one occurrence of the task from the label's list and the label from the task's set; nothing else changes |
| LabelLinks.AddThenRemoveRestores | src/main/java/hexlet/code/model/Label.java:53-61 | Linking an unlinked pair leaves both sides linked, and unlinking them restores both exactly |
| LabelLinks.RemoveUnlinks | src/main/java/hexlet/code/model/Label.java:58-61 | Unlinking a task listed at most once leaves neither side pointing at the other |
| LabelLinks.AddTwiceRemoveOnceDisagrees | src/main/java/hexlet/code/model/Label.java:49-61 | Linking twice and unlinking once leaves the task in the label's list but the label out of the task's set |
| TaskController.ToDtos | src/main/java/hexlet/code/controller/TaskController.java:68-70 | The body maps each task on the page to its response, in order |
| TaskController.MatchesComeFromRows | src/main/java/hexlet/code/controller/TaskController.java:66-67 | Every match is a row of the table that passes the filter |
| TaskController.Index | src/main/java/hexlet/code/controller/TaskController.java:62-75 | The request fails exactly when the page request does, with its failure: a page below 1 is refused unless it is the least `int`, and a page whose offset leaves the `int` range is refused. Otherwise the count is that of all matches. The body holds at most ten responses: those of the matches from the offset on, each a row that passes the filter |
| TaskController.PagesCoverMatches | src/main/java/hexlet/code/controller/TaskController.java:62-75 | Asking for enough pages in turn returns every match exactly once, in order |
| UsersController.Index | src/main/java/hexlet/code/controller/UsersController.java:44-59 | The request fails exactly when the page request does, with its failure: a size below 1 or a page below 1 is refused (the least `int` excepted, as it wraps), and so is an offset beyond the `int` range. Otherwise the count is that of all matches, and the content is the matches from the offset on, at most `size` of them, mapped to responses |
| UsersController.Update | src/main/java/hexlet/code/controller/UsersController.java:76-82 | A caller who is neither an administrator nor the user is denied before anything else. Otherwise the result is the service's |
| UsersController.Delete | src/main/java/hexlet/code/controller/UsersController.java:84-89 | A caller who is neither an administrator nor the user is denied before anything else. Otherwise the result is the service's |
| UsersController.OnlyAdminOrSelf | src/main/java/hexlet/code/controller/UsersController.java:78 | An update or delete gets past the rule exactly when the caller holds `ROLE_ADMIN` or signed in with that user's email |
| UsersController.DeniedBeforeNotFound | src/main/java/hexlet/code/controller/UsersController.java:84-89 | A non-administrator deleting an unknown id gets "access denied", not "not found" |
| UsersController.IssuedTokenRights | src/main/java/hexlet/code/util/JWTUtils.java:21-36 | With a token the application issued, a user may change their own account, and may change another exactly when they are an administrator |
| UserUtils.CurrentUser | src/main/java/hexlet/code/util/UserUtils.java:15-22 | There is a current user exactly when an authenticated principal's name is a stored email, and it is the user with that email |
| UserUtils.IsAdminIff | src/main/java/hexlet/code/util/UserUtils.java:24-27 | With unique emails, the principal is an administrator exactly when a stored user has their email and role ADMIN; the stored role decides, not the token's claims |
| UserUtils.IsCurrentUserIff | src/main/java/hexlet/code/util/UserUtils.java:29-32 | In a consistent store, an id is the current user's exactly when it is stored and its email is the principal's name |
| UserUtils.AnonymousIsNobody | src/main/java/hexlet/code/util/UserUtils.java:15-32 | Without an authenticated principal nobody is current and nobody is an administrator |
| Security.GrantedAuthorities | src/main/java/hexlet/code/configuration/SecurityConfig.java:88-106 | An `authorities` claim is used as given, and converts exactly when none of its entries is blank. Granted authorities are never blank |
| Security.AuthoritiesClaimWins | src/main/java/hexlet/code/configuration/SecurityConfig.java:92-97 | When the `authorities` claim is present, the `role` claim is never read, and the granted list is the claim |
| Security.RoleClaimGrantsPrefixedRole | src/main/java/hexlet/code/configuration/SecurityConfig.java:99-103 | A `role` claim alone grants exactly `ROLE_` followed by the role; no claim grants nothing |
| Security.WithRolePrefix | src/main/java/hexlet/code/controller/UsersController.java:78 | `hasRole` always tests a `ROLE_`-prefixed name, and keeps a name that already has the prefix |
| Security.PrefixedAndBareRoleAgree | src/main/java/hexlet/code/controller/UsersController.java:78 | `hasRole('ROLE_ADMIN')` and `hasRole('ADMIN')` are the same test |
| Security.IssuedTokenCarriesRole | src/main/java/hexlet/code/util/JWTUtils.java:21-36 | An issued token grants exactly the user's prefixed role, so it passes the administrator test exactly for administrators |
| ExceptionHandler.FieldMapKeys | src/main/java/hexlet/code/handler/GlobalExceptionHandler.java:27-36 | The validation body has one entry per field that has an error |
| ExceptionHandler.FieldMapLastWins | src/main/java/hexlet/code/handler/GlobalExceptionHandler.java:29-32 | Each field's entry is the message of that field's last error |
| ExceptionHandler.CollectFieldErrors | src/main/java/hexlet/code/handler/GlobalExceptionHandler.java:29-32 | The handler's loop builds the reference field map: one key per erroneous field, each holding that field's last message |
| ExceptionHandler.Handle | src/main/java/hexlet/code/handler/GlobalExceptionHandler.java:20-63 | "Not found" becomes 404 and "already exists" 409, each with the exception's message. Access denied is 403 with its message behind a prefix. Validation is 400 with the field map. Bad credentials is 401 and anything else 500, each with a fixed text |
| ExceptionHandler.StatusesOfServiceFailures | src/main/java/hexlet/code/handler/GlobalExceptionHandler.java:20-63 | The failures the services raise on purpose become 404, 409 or 403. The ones they do not anticipate (a null, a refused save, an ambiguous lookup, a bad page or offset, a delete the database refuses) become 500 |
| ExceptionHandler.LaterErrorOverwrites | src/main/java/hexlet/code/handler/GlobalExceptionHandler.java:29-32 | Two errors on one field leave only the later message |

## Left out

- Exception message texts are not modelled; failures are structured values. On missing labels
  the mapper names the whole missing set (`TaskMapper.java:137-142`). The legacy loop names the
  first missing id it meets (`TaskService.java:121-123`), in the set's iteration order, which the
  model does not fix. The model's contract promises only that the id named is missing, and the
  body takes the least.
- Lower-casing is ASCII only. Java's `toLowerCase` and the database's `lower` apply full Unicode
  case mapping.
- `LIKE` wildcards: `%` and `_` inside a query are matched literally. The source passes them to
  the database unescaped, where they act as wildcards.
- `@Email` is simplified to "exactly one `@` with text on both sides".
- The `@Size(min = 3)` on the password is not checked. The stored value is the encoder's output.
- The `JsonNullableMapper` is not part of this model. Mapping an update request assumes its usual
  behaviour: an unsent field is skipped, a null one sets null, a value sets the value.
- Controller `@Valid` checks beyond the validation handler's field map are not modelled, and
  neither are the status, user and label mappers: status create validation is not modelled.
  `TaskStatus.java` is not part of this model, so its name and slug constraints are not either.
- Password hashing, token signing and expiry, and error reporting to Sentry are left out. The
  encoder is a parameter; a token is its claims.
- `build(null)` for a missing parameter object is not modelled; a request always has a parameter
  record.
- Lazy loading and the `mappedBy` caches are not modelled directly. `BackRefs.Reload` stands for
  loading an entity afresh. It rebuilds the assignee and status collections. The labels' task
  lists stay as stored, because `Task.java` at this revision has no label mapping to rebuild them
  from.
- The foreign keys `task_status_id` and `assignee_id` are taken to exist, as Hibernate generates
  them from the `@JoinColumn` mappings. The schema itself is not part of this model.
- Refusing an offset beyond the `int` range is what Spring Data JPA 3.2 does, the version the
  build pins. The library is not part of this model.
- `findAll` returns rows in storage order, which is a sequence given as a parameter.
- The request defaults (page 1 for both lists, size 10 for the user list) are applied by the
  framework when it binds the request. `TaskController.Index` and `UsersController.Index` take
  the page and size as given.
- `getAll`, `findById` and the `show` endpoints are plain reads and are not modelled.
- `AmbiguousResult` never arises in a consistent store, because slugs and emails are unique. It
  is kept so that the lookups are total.
- `TaskService.Create`: its contract states only the status guard. What it stores is stated
  through `TaskService.CreateAgreesWithImpl` and `TaskService.CreateKeepsInvariants`.
- `TaskService.Update`: its contract states only the unknown-id case. What it stores is stated
  through `TaskService.UpdateEffect` and `TaskService.UpdateAgreesWithImpl`.
- `TaskMapper.Update`: its contract states only the id, day and assignee. The full outcome is in
  `TaskMapper.UpdateOutcome`.
- `UsersController`: two classes are called `UserService`. The controller is modelled with the
  implementation's delete, which has the in-use guard.
- Label services: `LabelService` and `LabelServiceImpl` have identical bodies and are modelled
  once. The same holds for create and update in the status and user services.
