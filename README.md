# ODK Aggregate: row store, form helpers and the etag-mismatch exception

This project models three pieces of ODK Aggregate in Dafny and proves properties of each.

- **The ODK Tables row store (`DataManager`)** (`data_manager.dfy`, module `OdkTables`).
  - The store holds one table's rows, keyed by `rowId`. Each row has column values, a server-assigned row etag and the identity of the writer.
  - It is a class. Its fields are the stored rows (a map, tombstones included), the ids in insertion order and an etag counter.
  - `InsertRows`/`InsertRow`, `UpdateRow` and `DeleteRows` change those fields. `GetRows`, `GetRow` and `GetRowNullSafe` read them.
  - Errors are the three exceptions callers tell apart: `NotFound`, `AlreadyExists` (the persist exception) and `RowVersionMismatch`.
  - The implementation of `DataManager` is not part of this model. Its contract comes from the JUnit cases in `DataManagerTest.java`.
  - Every case is restated in `data_manager_scenarios.dfy` (module `OdkTablesScenarios`) as client code. Each scenario performs the case's calls on a fresh table and asserts what the case asserts, using only the `DataManager` contracts and the lemmas about the functions they use. Where a case compares against the object it passed in, the scenario compares against the stamped row the store returned instead (see "## Left out"): `GetRowScenario` and `GetRowNullSafeScenario` compare with the row `InsertRow` returned, and `GetRowsScenario` checks the writer against the caller's identity.
  - Where the tests leave a choice open, the model makes these decisions:
    - deletion leaves a tombstone: the row stays stored with a `deleted` mark;
    - a batch insert or delete is all or nothing;
    - an etag is a serial number written in decimal, so a freshly issued etag provably differs from every earlier one.
- **Helpers of the aggregate `Form`** (`form.dfy`, module `AggregateForm`; `form_tree.dfy`, module `FormTree`).
  - Covered: form-id extraction from a submission key, and `retrieveForm`'s choice of answer.
  - Covered: the per-language description lookup, the `major.minor` version string and the choice of the form-definition attachment.
  - Covered: depth-first element search, and the REPEAT groups as a list and as the lazily cached map.
  - Covered: the cached part of `findSubmission`.
  - The datastore records behind a `Form` become sequences of plain records. The form-definition tree becomes the datatype `Node(name, kind, children)`.
  - Methods over the cached map and the association list are methods of class `Form`. The loops of `getDescriptionTableFieldValue`, `getFormFilename`, `findSubmission`, `getRepeatGroupsInModelHelper` and `populateRepeatElementMap` are loops here.
  - `findElementByNameHelper` only computes a value, so it is a pair of recursive functions. Its loop over the children, which stops at the first hit, is the recursive function `FindInChildren`.
- **`EtagMismatchExceptionClient`** (`client_exceptions.dfy`, module `ClientExceptions`).
  - The exception is a value: the detail message one of its four constructors handed to `Exception`, and the private message field it assigned.
  - It has the two getters that return that field.
- **Java library behaviour the code relies on** (`java_strings.dfy`, module `JavaStrings`).
  - `String.indexOf` and `Long.toString`.
  - A decimal parser, used to state round trips.
- `wrappers.dfy` holds `Option` and `Result`.

## Model

| member | source | states |
|---|---|---|
| OdkTables.DataManager.constructor | src/test/java/org/opendatakit/aggregate/odktables/DataManagerTest.java:34-44 | a manager on a freshly created table holds no rows, so getRows is empty |
| OdkTables.DataManager.GetRows | src/test/java/org/opendatakit/aggregate/odktables/DataManagerTest.java:56-60 | getRows lists the live (not deleted) stored rows in insertion order: every listed row is live and stored under its own id, and every live row is listed |
| OdkTables.DataManager.InsertRows | src/test/java/org/opendatakit/aggregate/odktables/DataManagerTest.java:62-82 | all or nothing: fails with AlreadyExists, changing nothing, iff an id is already stored or repeats in the batch; otherwise returns one row per input, equal to it except for the fresh etag, the caller's identity and a cleared tombstone mark, and getRows gains exactly those rows at its end |
| OdkTables.DataManager.CheckInsertable | src/test/java/org/opendatakit/aggregate/odktables/DataManagerTest.java:77-82 | the pre-write check answers true exactly when no id of the batch is stored or repeated |
| OdkTables.DataManager.InsertRow | src/test/java/org/opendatakit/aggregate/odktables/DataManagerTest.java:97-103 | inserting one row fails iff its id is stored; otherwise the stored row is the input stamped with a fresh etag and the writer |
| OdkTables.DataManager.GetRow | src/test/java/org/opendatakit/aggregate/odktables/DataManagerTest.java:97-109 | returns the stored row iff a live row has that id, and null otherwise; it never fails |
| OdkTables.DataManager.GetRowNullSafe | src/test/java/org/opendatakit/aggregate/odktables/DataManagerTest.java:111-124 | the same lookup, failing with NotFound exactly when no live row has that id |
| OdkTables.DataManager.UpdateRow | src/test/java/org/opendatakit/aggregate/odktables/DataManagerTest.java:126-153 | NotFound whenever the row is absent, whatever etag is given; otherwise RowVersionMismatch iff the etag differs from the stored one; a failure changes nothing; success stores and returns the submitted row stamped with a fresh etag (different from every etag stored before) and the writer, its tombstone mark cleared, and getRows shows it in place of the old row, in the same position |
| OdkTables.DataManager.DeleteRows | src/test/java/org/opendatakit/aggregate/odktables/DataManagerTest.java:155-162 | fails with NotFound, changing nothing, iff some id names no live row; otherwise tombstones exactly the named rows, and getRows becomes the old listing without them, in the same order |
| OdkTables.WriteBatch | src/test/java/org/opendatakit/aggregate/odktables/DataManagerTest.java:62-75 | the writing loop of insertRows: each row of an insertable batch is stamped with the next etag and stored, its id appended, and the store invariant kept |
| OdkTables.UpdateKeepsValid | src/test/java/org/opendatakit/aggregate/odktables/DataManagerTest.java:126-136 | overwriting a stored row under the next etag keeps the store invariant, and that etag differs from every stored one |
| OdkTables.InsertKeepsValid | src/test/java/org/opendatakit/aggregate/odktables/DataManagerTest.java:84-95 | storing a new row under the next etag keeps the store invariant and appends that row to getRows |
| OdkTables.LiveRowsAfterDelete | src/test/java/org/opendatakit/aggregate/odktables/DataManagerTest.java:155-162 | tombstoning a set of ids removes exactly those rows from the listing and keeps the rest in order |
| OdkTables.DeleteAllEmpties | src/test/java/org/opendatakit/aggregate/odktables/DataManagerTest.java:155-162 | deleting the id of every live row leaves getRows empty |
| OdkTables.DeleteKeepsValid | src/test/java/org/opendatakit/aggregate/odktables/DataManagerTest.java:155-162 | tombstoning keeps the store invariant (ids, etags and order untouched) |
| OdkTables.FreshEtagDiffers | src/test/java/org/opendatakit/aggregate/odktables/DataManagerTest.java:133 | an etag issued now differs from every etag issued earlier |
| OdkTables.StampAllAt | src/test/java/org/opendatakit/aggregate/odktables/DataManagerTest.java:65-73 | the i-th row insertRows returns is the i-th input with the i-th fresh etag and the caller's identity copied in and its tombstone mark cleared |
| OdkTables.LiveRowsComplete | src/test/java/org/opendatakit/aggregate/odktables/DataManagerTest.java:84-95 | every live row whose id was inserted appears in the getRows listing |
| OdkTables.LiveRowsUpdate | src/test/java/org/opendatakit/aggregate/odktables/DataManagerTest.java:126-136 | overwriting a live row with a live row of the same id replaces it in the listing, in place |
| OdkTables.ReplacedAt | src/test/java/org/opendatakit/aggregate/odktables/DataManagerTest.java:126-136 | in-place replacement keeps the listing's length and swaps in the new row exactly at the positions with its id |
| OdkTables.LiveRowsMembers | src/test/java/org/opendatakit/aggregate/odktables/DataManagerTest.java:84-95 | every row getRows lists is live and is the row stored under its id |
| AggregateForm.ExtractWellFormedFormId | src/org/opendatakit/aggregate/form/Form.java:671-679 | the form id is a slash-free prefix of the key, followed in the key by '/' or by nothing |
| AggregateForm.FormIdDetermined | src/org/opendatakit/aggregate/form/Form.java:671-679 | that description determines the result: any slash-free prefix ending at a '/' or at the end is the form id |
| AggregateForm.ExtractIdempotent | src/org/opendatakit/aggregate/form/Form.java:671-679 | extracting from an extracted form id changes nothing |
| AggregateForm.ExtractIgnoresGroupPath | src/org/opendatakit/aggregate/form/Form.java:671-679 | the group path after the first '/' is dropped: id + "/" + path yields id |
| AggregateForm.RetrieveForm | src/org/opendatakit/aggregate/form/Form.java:694-728 | not found when the FormInfo definition fails to load; otherwise null iff the key is null; the FormInfo form exactly for its reserved form id; for any other form id, the stored form exactly when the entity found under that id records the same id, and not found otherwise |
| AggregateForm.RetrieveIgnoresGroupPath | src/org/opendatakit/aggregate/form/Form.java:694-728 | keys for the same form, with or without a group path, retrieve the same form |
| AggregateForm.Form.GetDescriptionTableFieldValue | src/org/opendatakit/aggregate/form/Form.java:286-300 | the value of the last record in the requested language unless it is null, else the value of the last record with a null language code |
| AggregateForm.LastValueIsLastMatch | src/org/opendatakit/aggregate/form/Form.java:290-297 | when several records are in the language, the last one decides the value |
| AggregateForm.LastValueNoMatch | src/org/opendatakit/aggregate/form/Form.java:288-297 | with no record in the language the value stays null |
| AggregateForm.Form.GetViewableName | src/org/opendatakit/aggregate/form/Form.java:307-309 | the form name in the requested language, falling back to the default language |
| AggregateForm.Form.GetDefaultViewableName | src/org/opendatakit/aggregate/form/Form.java:311-313 | with no language only the null-language records count: the form name of the last of them |
| AggregateForm.Form.GetMajorMinorVersionString | src/org/opendatakit/aggregate/form/Form.java:232-250 | fails with "Expecting exactly one fileset at this time" unless there is exactly one fileset; otherwise the version string of its model and UI versions |
| AggregateForm.VersionStringRoundTrip | src/org/opendatakit/aggregate/form/Form.java:241-249 | the version string is unambiguous: both versions, present or null, are read back from it |
| AggregateForm.VersionStringShapes | src/org/opendatakit/aggregate/form/Form.java:241-249 | "" iff both versions are null; a '.' iff the UI version is present; a leading '.' iff only the UI version is present |
| AggregateForm.ModelPart | src/org/opendatakit/aggregate/form/Form.java:242-244 | the model-version part reads back as the model version and holds no '.' |
| AggregateForm.Form.GetFormFilename | src/org/opendatakit/aggregate/form/Form.java:363-385 | fails unless there is exactly one fileset; otherwise the filename of the first attachment with a current version, content type text/xml and no '/' in its name, or "unable to locate the form definition" when none qualifies |
| AggregateForm.FirstMatch | src/org/opendatakit/aggregate/form/Form.java:493-497 | the index of the first association with the given parameters, or -1 exactly when none has them |
| AggregateForm.LastMatch | src/org/opendatakit/aggregate/form/Form.java:505-512 | the index of the last association with the given parameters, or -1 exactly when none has them |
| AggregateForm.Form.FindSubmission | src/org/opendatakit/aggregate/form/Form.java:487-517 | the first cached association with the record's parameters, without fetching; otherwise all fetched associations are appended to the cache and the last match among them is returned; null when the fetch fails |
| AggregateForm.Form.FindElementByName | src/org/opendatakit/aggregate/form/Form.java:536-538 | the first element in pre-order from the top-level group with that name, or null when there is none |
| FormTree.FindElementByNameHelper | src/org/opendatakit/aggregate/form/Form.java:519-527 | any element found has the requested name |
| FormTree.FirstNamed | src/org/opendatakit/aggregate/form/Form.java:519-527 | the reference search: null iff no node in the sequence has the name, otherwise a node of the sequence with that name |
| FormTree.FindInChildren | src/org/opendatakit/aggregate/form/Form.java:522-525 | the loop over the children, stopping at the first hit: any element found has the requested name |
| FormTree.FindElementIsFirstInPreOrder | src/org/opendatakit/aggregate/form/Form.java:519-527 | the recursive search returns the node itself if it matches, else the first match in a pre-order walk of its subtree |
| FormTree.FindInChildrenIsFirst | src/org/opendatakit/aggregate/form/Form.java:522-525 | the loop over children returns the first match in the pre-order walk of the children in turn |
| FormTree.FindElementNullIffAbsent | src/org/opendatakit/aggregate/form/Form.java:519-527 | the search returns null iff no element of the subtree has the name |
| FormTree.GetRepeatGroupsInModelHelper | src/org/opendatakit/aggregate/form/Form.java:540-547 | the accumulation is extended by the REPEAT descendants of the node, in pre-order |
| AggregateForm.Form.GetRepeatGroupsInModel | src/org/opendatakit/aggregate/form/Form.java:549-554 | exactly the REPEAT descendants of the top-level group, in pre-order, never the top-level group itself |
| FormTree.RepeatsInMembers | src/org/opendatakit/aggregate/form/Form.java:540-547 | an element is collected iff it is in the walk and is a REPEAT |
| FormTree.RepeatGroupsExcludeRoot | src/org/opendatakit/aggregate/form/Form.java:540-554 | the node the walk starts from is never collected |
| AggregateForm.Form.PopulateRepeatElementMap | src/org/opendatakit/aggregate/form/Form.java:568-584 | the map gains each REPEAT element of the subtree under its name, in pre-order, later puts overwriting earlier ones |
| AggregateForm.Form.GetRepeatElementModels | src/org/opendatakit/aggregate/form/Form.java:556-566 | the map is built on the first call and returned unchanged from the cache afterwards; it is always the repeat map of the top-level group |
| FormTree.PutRepeatsKeys | src/org/opendatakit/aggregate/form/Form.java:568-584 | the map's keys are exactly the names of the REPEAT elements visited (root included) |
| FormTree.PutRepeatsLastWins | src/org/opendatakit/aggregate/form/Form.java:573-577 | when two REPEAT elements share a name, the one visited last is the one mapped |
| FormTree.PutRepeatsOtherKeys | src/org/opendatakit/aggregate/form/Form.java:573-577 | names of no visited REPEAT element keep their old mapping |
| FormTree.PreOrderForestAppend | src/org/opendatakit/aggregate/form/Form.java:581-583 | the walk over the children is the walks of the children one after another |
| JavaStrings.IndexOf | src/org/opendatakit/aggregate/form/Form.java:672 | -1 iff the character is absent, otherwise the index of its first occurrence |
| JavaStrings.LongRoundTrip | src/org/opendatakit/aggregate/form/Form.java:243-247 | Long.toString is read back by the decimal parser, negative values included |
| JavaStrings.NatRoundTrip | src/org/opendatakit/aggregate/form/Form.java:243-247 | the decimal rendering of a natural number is read back exactly |
| JavaStrings.LongToString | src/org/opendatakit/aggregate/form/Form.java:243-247 | Long.toString is never empty, yields only digits after an optional sign, and starts with '-' exactly for negative values, so it never holds a '.' |
| ClientExceptions.NoArgs | src/main/java/org/opendatakit/aggregate/client/exception/EtagMismatchExceptionClient.java:23-36 | the no-argument constructor gives Exception no detail message, and its getMessage is "Etag mismatch" |
| ClientExceptions.WithMessage | src/main/java/org/opendatakit/aggregate/client/exception/EtagMismatchExceptionClient.java:38-41 | the given message, null included, is both Exception's detail message and what getMessage returns |
| ClientExceptions.WithCause | src/main/java/org/opendatakit/aggregate/client/exception/EtagMismatchExceptionClient.java:43-47 | Exception's detail message is the cause's toString(); getMessage is "Etag mismatch (" + the cause's message + ")", and between the parentheses stands the cause's message, or "null" when the cause has no message |
| ClientExceptions.WithMessageAndCause | src/main/java/org/opendatakit/aggregate/client/exception/EtagMismatchExceptionClient.java:49-51 | Exception receives the given message as its detail message, but the private field is never assigned, so getMessage returns null whatever message was given |
| ClientExceptions.GetMessageIgnoresSuperclassMessage | src/main/java/org/opendatakit/aggregate/client/exception/EtagMismatchExceptionClient.java:49-61 | the two-argument constructor hands its non-null message to Exception as the detail message, yet getMessage, overridden to read the unassigned private field, returns null |
| ClientExceptions.GetLocalizedMessage | src/main/java/org/opendatakit/aggregate/client/exception/EtagMismatchExceptionClient.java:53-61 | getLocalizedMessage equals getMessage on every exception |

## Left out

- Datastore I/O, entity persistence, the task lock and `ODKTaskLockException`: the row store is in-memory state, and requests run one at a time. Form persistence (`persist`, `deleteForm`) and the `Query` calls are left out for the same reason.
- Failures of the datastore itself are left out, and so is any other error that the three `DataError` cases do not name.
- The table's data etag, changes-since queries and checking row values against the table's columns are left out: the tests do not exercise them.
- OdkTables.DataManager.InsertRows: ignores any etag the caller supplies and issues its own. The model returns new stamped rows and does not model aliasing. `testGetRow` (DataManagerTest.java:99-102) compares the object it passed to `insertRow` with what `getRow` returns, which suggests that the real store also stamps the caller's objects in place. That is an inference from the test, since the `DataManager` code is not part of this model.
- OdkTables.DataManager.UpdateRow: a successful update overwrites the submitted `groupOrUserId` with the writer's identity,, as insertRows does for every row it stores. The test's equality (DataManagerTest.java:134-135) shows this only for a row that already carries the writer, because it came from `insertRows`.
- OdkTables.DataManager.UpdateRow: etags are decimal serial numbers, and the contracts of `InsertRows`, `InsertRow` and `UpdateRow` name the exact etag issued (`EtagFor` of the counter). A store issuing random UUIDs would meet the freshness the tests check, but not these exact results.
- OdkTables.DataManager.GetRows: deleting the table itself, after which every operation fails with NotFound, is not modelled; the model's manager is bound to one table that always exists.
- `Long` values are unbounded integers; `Long.toString` of 64-bit values is otherwise the same.
- ClientExceptions.WithCause: a null cause throws a NullPointerException in the source; the model takes a cause value and covers only a null message inside it.
- AggregateForm.Form.GetFormFilename: a null content type or file name throws a NullPointerException in the source; the model's attachments always carry both.
- AggregateForm.Form.FindElementByName: a null element name throws in the source; the model's names are never null.
- AggregateForm.RetrieveForm: the datastore lookup under the MD5 hash of the form id is the function parameter `storedFormId`, and any exception it raises is its `None`. The `Form` construction it performs is not modelled.
- AggregateForm.Form.FindSubmission: the datastore query and its MD5 filter are the parameter `fetched`. `XFormParameters.equals` is assumed to be value equality over its three fields.
- Only REPEAT versus other element types matters to the helpers, so `ElementType` keeps `Repeat`, `Group` and `Field`. A null node and a null children list, both handled by `populateRepeatElementMap`, cannot occur in the model.
- AggregateForm.Form.GetRepeatElementModels: the source returns its live, mutable `HashMap` cache, so a caller could alter the cache through it. The model returns the map as a value, and `Valid()` assumes the cache is never altered (the source's own comment makes that assumption about the form).
- AggregateForm.Form.FindElementByName: a form without a form definition (`fetchSubmissionAssociations` returns null when no association exists) makes the top-level-group lookup throw; the model's `Form` always has a top-level group.
- `getRepeatGroupsInModelHelper` appends to a shared Java list. The model threads the list through as a value and returns it.
- `printDataTree`/`printTreeHelper` write to a `PrintStream`, so they are left out.
- The `Form` constructors that read `FormInfo`/`Submission`/`FormDefinition` are left out. So are the other getters and setters over the datastore entity (creation date, download and submission flags, `getFormXml`) and MD5 URI hashing: they are library code that is not part of this model.
- `equals`, `hashCode` and `toString` of `Form` are left out, as are `Serializable` and the exception's cause chain. Only the message field and its getters are modelled.
