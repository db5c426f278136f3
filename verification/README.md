# Medical records API: templates, records and template access

A Dafny model of the form engine behind the medical records API. An
administrator defines **templates**. A template owns **fields**, and the
choice fields (select, radio, checkbox) own **options**. Clinicians fill
in **records** of a template. A record holds one **value** per answered
field. A multi-select value holds **multiple selections**, one per chosen
option. Access to a template goes through an **admins** table and a
**permissions** table. It is checked by a route guard and managed by
admin-only grant and revoke operations.

The database is a `Store` of six tables (`Schema`). Each table is a
sequence of rows in ascending id order with an auto-increment counter
(`Tables`). Eloquent's `first()` is therefore the first matching row in id
order. The foreign keys and their `ON DELETE CASCADE` rules from the
migrations become the `Consistent` invariant and the explicit cascades
`DropValues` and `DropFields`.

Every controller action is a pure function from a store and a request to
`Result<Store>`. The transaction that wraps each action is modelled as
all-or-nothing. A rejected request yields `Err` and no store, so the
caller's store is unchanged. This is how `DB::beginTransaction` /
`DB::rollBack` behave in `RecordController::store`, `update` and
`destroy` and in `TemplateController::store`, `update` and `destroy`.

Modules, in dependency order:

- `Results`: `Option`, `Result` and the error kinds. `NotFound` is 404.
  `ValidationFailed`, `RequiredFieldMissing`, `InvalidOptionValue` and
  `Conflict` are the 422 cases. `Forbidden` is 403. `ServerError` is any
  other exception, answered 500.
- `Php`: PHP's `empty()` and the validator's `required` rule. They differ
  on `"0"` and on blank strings. Request inputs are
  `Absent | Null | Given | Malformed`.
- `Tables`: id-ordered tables with insert, lookup, where, delete and
  update, and the lemmas about them.
- `Schema`: the entities, the store, option matching, the consistency
  invariant and the cascading deletes.
- `Access`: `User::isAdmin`, `User::hasPermissionTo`,
  `CheckTemplateAccess::handle`, and `PermissionController`'s `assign`,
  `revoke` and `index`.
- `Display`: `TemplateController::show`. It lists the fields sorted by
  display order (stable) with their options and the record count.
- `Templates`: `TemplateController`'s `store`, `update` and `destroy`,
  with their validation rules.
- `Records`: `RecordController`'s `store`, `update` and `destroy`, and
  `Record::getFieldValue`. `update`'s multi-select branch is modelled as
  evidently intended (see Findings).
- `AsWritten`: `update`'s multi-select branch as the code has it, and
  the answers of `store` and `update` with and without the failing eager
  load (see Findings).

The record controller's loops are modelled entry by entry. `StoreEntry`
is one iteration of `store` and `UpdateEntry` one iteration of `update`.
`store` never looks for an existing value, so `StoreEntry` equals
`UpdateEntry` on a record with no value for the field.
`Rejection(s, e)` is the check that makes one entry fail:
- the field is unknown;
- the field is required and the entry is empty in PHP's sense;
- a submitted value is offered by no option of the field.

An entry's `field_id` is checked only for existence, not for belonging
to the record's template, so `Rejection` never looks at the field's
template.

Whether an entry is rejected depends only on the field and option
tables, and the loops never change those. A request therefore fails
exactly when one of its entries is rejected, and it fails with the first
such entry's error. As written, `update` can also fail with a 500 on a
multi-select entry; `AsWritten` models that path.

## Model

| member | source | states |
|---|---|---|
| Access.IsAdmin | app/Models/User.php:74-77 | A user is an admin exactly when some row of the admins table references them. |
| Access.HasPermissionTo | app/Models/User.php:58-67 | An admin may use every template. Any other user may use a template exactly when a permission row pairs that user with that template. |
| Access.Handle | app/Http/Middleware/CheckTemplateAccess.php:11-20 | The guard forwards a request exactly when a user is authenticated and has permission to the route's template. A forwarded request gets the next handler's response unchanged. Every other request gets the 403 refusal. |
| Access.AdminAlwaysPasses | app/Http/Middleware/CheckTemplateAccess.php:15-19 | An admin passes the guard for every template, whatever the permissions table holds. |
| Access.Assign | app/Http/Controllers/PermissionController.php:12-29 | A missing template is 404, decided first by route binding. Then an unknown user id is a validation error, checked before the admin check. Then a caller who is not an admin is refused. It succeeds exactly when all three checks pass. A grant changes only the permissions table and keeps its ids ascending. |
| Access.AssignAddsOneRow | app/Http/Controllers/PermissionController.php:23-26 | A successful assign adds exactly one row for the (user, template) pair, even when one already exists. No other pair gains a row. |
| Access.GrantIsScoped | app/Http/Controllers/PermissionController.php:23-26 | Granting a user one template does not change whether they may use any other template. |
| Access.Revoke | app/Http/Controllers/PermissionController.php:31-42 | A missing template or user is 404, decided by route binding before the admin check. Of existing pairs, only an admin may revoke. A revoke removes every row for the (template, user) pair, keeps every other row and adds none. |
| Access.RevokeDenies | app/Http/Controllers/PermissionController.php:37-39 | After a revoke, a user who is not an admin may no longer use that template. |
| Access.Index | app/Http/Controllers/PermissionController.php:44-51 | A missing template is 404. Otherwise it lists exactly the permission rows of the template, both directions of membership. |
| Php.ZeroOnlyFilledButEmpty | app/Http/Controllers/RecordController.php:41-56 | A string both passes the validator's presence rule and is `empty()` to the controller exactly when it is `"0"`. |
| Records.ZeroValueIsMissing | app/Http/Controllers/RecordController.php:37-60 | The entry `{field_id, value: "0"}` passes validation. For a required field, `store` and `update` then fail with the field's "is required" error. For an optional single-value field, `store` writes nothing. |
| Schema.MatchOption | app/Http/Controllers/RecordController.php:98-100 | When an option is found, it belongs to the field and offers exactly the submitted text. No option is found exactly when no option of the field offers that text. |
| Schema.MatchOptionEarliest | app/Http/Controllers/RecordController.php:98-100 | No option with a smaller id than the one found offers the same text for the field. |
| Schema.DropValuesConsistent | database/migrations/2025_03_21_005003_create_multiple_selections_table.php:18 | Deleting values, with the cascade to their multiple selections, keeps every foreign key resolvable. |
| Schema.DropFieldsConsistent | database/migrations/2025_03_21_004947_create_values_table.php:25 | Deleting fields keeps every foreign key resolvable. The cascade takes their options, the values answering them, and the selections of those values or options. |
| Schema.ConsistentWithoutTemplate | database/migrations/2025_03_21_004939_create_fields_table.php:17 | Deleting a template that no field and no record references keeps the store consistent. |
| Schema.ConsistentWithoutRecord | database/migrations/2025_03_21_004947_create_values_table.php:24 | Deleting a record that no value references keeps the store consistent. |
| Display.SortByOrder | app/Http/Controllers/TemplateController.php:102-104 | The fields come out in non-decreasing display_order. They are a permutation of the fields that went in. |
| Display.ShowTemplate | app/Http/Controllers/TemplateController.php:98-120 | A missing template gives 404. Otherwise the result has the template's own row, and its fields are exactly that template's fields as a multiset, in display order. Each field carries its own options, and the record count is that template's number of records. |
| Templates.ParseFieldType | app/Http/Controllers/TemplateController.php:44 | Accepts exactly the seven type names and returns the type with that spelling. |
| Templates.StoreTemplateRejects | app/Http/Controllers/TemplateController.php:39-50 | `store` rejects a request with a validation error in each of these cases: no fields; a template name or field name over 255 characters; a field type outside the seven; a negative display order; a choice field without options; an option value over 255 characters. |
| Templates.ValidatedDef | app/Http/Controllers/TemplateController.php:43-47 | A field definition that passed validation keeps the sent name, the named type, the required flag and a non-negative display order. A choice type always comes with at least one option. |
| Templates.NewOptionsOfDef | app/Http/Controllers/TemplateController.php:69-77 | A choice-typed definition persists its options in order, each with the sent name and value and owned by the new field. Options sent for any other type are dropped. |
| Templates.StoreTemplate | app/Http/Controllers/TemplateController.php:37-58 | Succeeds exactly when the request meets the validation rules. A request that does not is a validation error. A success appends one template row, under the next id, with the sent name and the description or null. Records, values and selections are untouched. |
| Templates.StoreTemplateCreates | app/Http/Controllers/TemplateController.php:37-80 | On a consistent store, a valid request creates the template with the sent name and description. The template gets exactly one field per definition, in request order. Every other template keeps its fields, and the store stays consistent. |
| Templates.CreateTemplateRow | app/Http/Controllers/TemplateController.php:55-58 | The new template, under the next template id, has the given name and description. |
| Templates.CreateTemplateFields | app/Http/Controllers/TemplateController.php:60-67 | The new template gets exactly one field per definition, in request order. Every other template keeps its fields. |
| Templates.CreateTemplateOptions | app/Http/Controllers/TemplateController.php:69-77 | The k-th new field gets the options of the k-th definition, in request order. A field of a non-choice type gets none. |
| Templates.CreateTemplateConsistent | app/Http/Controllers/TemplateController.php:52-80 | Creating a template with its fields and options keeps a consistent store consistent. |
| Templates.UpdateTemplate | app/Http/Controllers/TemplateController.php:129-208 | A missing template gives 404, and this is decided before validation. An existing template is updated exactly when the request is valid. Records never change. Without `fields`, only the template row changes. With `fields`, the fields, options, values and selections are those left by the replacement. |
| Templates.UpdateTemplateRow | app/Http/Controllers/TemplateController.php:149-155 | The template gets the sent name, when one was sent, and the sent description, when a non-null one was sent. Every other template row is unchanged. |
| Templates.ReplaceFieldsFields | app/Http/Controllers/TemplateController.php:157-168 | After replacement the template has exactly one field per sent definition, in order. Other templates keep their fields. |
| Templates.ReplaceFieldsOptions | app/Http/Controllers/TemplateController.php:170-178 | After replacement the k-th new field holds the options of the k-th sent definition, in order. A field of a non-choice type holds none. |
| Templates.ReplaceFieldsValues | app/Http/Controllers/TemplateController.php:159 | Replacing the fields deletes every answer to the old fields and creates no value. |
| Templates.ReplaceFieldsConsistent | app/Http/Controllers/TemplateController.php:157-180 | Replacing the fields, with the cascades of the deletion, keeps the store consistent. |
| Templates.UpdateTemplateConsistent | app/Http/Controllers/TemplateController.php:129-182 | A successful update keeps the store consistent. |
| Templates.DestroyTemplate | app/Http/Controllers/TemplateController.php:216-251 | A missing template gives 404. The delete is refused exactly when some record uses the template. Otherwise the template is gone, every other template remains, no field of it remains, and the records are unchanged. Every field of another template remains. So does every option and value whose field is not the template's. |
| Templates.DestroyTemplateConsistent | app/Http/Controllers/TemplateController.php:231-232 | Deleting a template, with the cascade to its fields, options, values and selections, keeps the store consistent. |
| Templates.StoreThenShow | app/Http/Controllers/TemplateController.php:55-106 | Showing a template right after creating it returns the sent name and description and a record count of zero. |
| Templates.StoreThenShowFields | app/Http/Controllers/TemplateController.php:60-106 | Showing a template right after creating it lists exactly the defined fields, as a multiset, in display order. |
| Templates.StoreThenShowField | app/Http/Controllers/TemplateController.php:60-106 | Each field shown right after creation is the field built from one of the request's definitions. |
| Records.Picks | app/Http/Controllers/RecordController.php:71-86 | Succeeds exactly when every submitted value is offered by some option of the field. It then picks one option per value, in order and with duplicates kept. Otherwise the error names the first value that no option offers. |
| Records.StoreEntry | app/Http/Controllers/RecordController.php:53-111 | One entry of `store` fails exactly when it is rejected, with that rejection's error. Only values and selections change. |
| Records.UpdateEntry | app/Http/Controllers/RecordController.php:166-242 | One entry of `update`, with the multi-select branch as evidently intended (see Findings), fails exactly when it is rejected, with that rejection's error. Only values and selections change. |
| Records.StoreRecord | app/Http/Controllers/RecordController.php:35-124 | A missing template or invalid entries is a validation error. Success adds exactly one record of the template, under the next id. The template, field and option tables never change. |
| Records.UpdateRecord | app/Http/Controllers/RecordController.php:151-265 | A missing record gives 404 and is checked before validation. Invalid entries are a validation error. Templates, fields, options and records never change. |
| Records.DestroyRecord | app/Http/Controllers/RecordController.php:273-299 | A missing record gives 404. Otherwise the record is gone and every other record stays. Exactly the record's values are removed. |
| Records.GetFieldValue | app/Models/Record.php:46-53 | Any text returned is the text of one of the record's values for that field. A record with no value for the field reads as null. |
| Records.GetFieldValueSlot | app/Models/Record.php:48-50 | The answer depends only on the field table and on the record's values for that one field. |
| Records.GetFieldValueFirst | app/Models/Record.php:48-52 | The answer is the raw text of the earliest of the record's values for the field. A field that does not exist reads as null. |
| Records.RejectionFrame | app/Http/Controllers/RecordController.php:54-60 | Whether an entry is rejected depends only on the fields and options tables, never on what records hold. |
| Records.FirstRejectionIsFirst | app/Http/Controllers/RecordController.php:53-112 | The first rejection exists exactly when some entry is rejected. It is the error of the earliest rejected entry. |
| Records.StoreEntriesRejects | app/Http/Controllers/RecordController.php:53-112 | The store loop fails exactly when some entry is rejected. It fails with the first rejected entry's error. |
| Records.UpdateEntriesRejects | app/Http/Controllers/RecordController.php:166-243 | The update loop, with the corrected multi-select branch, fails exactly when some entry is rejected. It fails with the first rejected entry's error. |
| Records.StoreRecordRejects | app/Http/Controllers/RecordController.php:46-123 | A valid store request fails exactly when one of its entries is rejected. The error is the one for the earliest rejected entry in request order. |
| Records.UpdateRecordRejects | app/Http/Controllers/RecordController.php:166-257 | With the corrected multi-select branch, a valid update request fails exactly when one of its entries is rejected. The error is the one for the earliest rejected entry in request order. |
| Records.RequiredEmptyRejected | app/Http/Controllers/RecordController.php:56-60 | An entry for a required field whose `value` and `values` are both empty in PHP's sense fails with the field's "is required" error, in `store` and `update` alike. |
| Records.UnofferedChoiceRejected | app/Http/Controllers/RecordController.php:97-106 | A non-empty single value for a choice field fails when no option of that field offers exactly that text. |
| Records.UnofferedSelectionRejected | app/Http/Controllers/RecordController.php:71-81 | A multi-select entry fails when any of its values is offered by no option of the field. The error names the first such value. |
| Records.StoreEntryEmptySkips | app/Http/Controllers/RecordController.php:62-111 | In `store`, an entry that is empty in PHP's sense writes nothing: null, "", "0", or [] for a multi-select. |
| Records.StoreIgnoresUnmentionedFields | app/Http/Controllers/RecordController.php:53-60 | Only the fields the request mentions are checked, so a required field it leaves out does not block the request. That field reads as null afterwards. |
| Records.StoreRecordGet | app/Http/Controllers/RecordController.php:88-111 | After `store`, a single-value field the request mentions once reads back as the submitted text, or as null when that text is empty in PHP's sense. |
| Records.StoreEntryText | app/Http/Controllers/RecordController.php:88-111 | A non-empty single-value entry creates exactly one value for the record and field, holding the text verbatim. A choice field's value points at the first option of the field offering that text. Any other field's value points at no option. |
| Records.StoreEntryMulti | app/Http/Controllers/RecordController.php:62-87 | A non-empty multi-select entry creates exactly one value with no text. It appends one selection per submitted entry, in order and with duplicates kept, each naming the field's first option offering that entry. Older selections are kept. |
| Records.StoreMultiReadsNull | app/Models/Record.php:52 | getFieldValue never consults selections. Right after `store` answers a multi-select, the field reads as null. |
| Records.UpdateRecordGet | app/Http/Controllers/RecordController.php:213-242 | After `update`, a single-value field the request mentions once reads back as the submitted text. Submitted empty, it reads as null when the record held at most one value for it. |
| Records.UpdateRecordOtherSlot | app/Http/Controllers/RecordController.php:166-170 | The values of other records, and of fields the request does not mention, are unchanged and keep their order. |
| Records.UpdateEntryMultiReplaces | app/Http/Controllers/RecordController.php:189-208 | In the corrected multi-select branch (see Findings), on a record that already answers a multi-select, non-empty `values` keep the value row. Its selections become exactly one per submitted entry, in order. |
| Records.UpdateEntryEmptyDrops | app/Http/Controllers/RecordController.php:209-241 | An empty entry deletes the record's first value for the field together with that value's selections. It keeps every other value. For a multi-select field this is the corrected branch (see Findings). |
| Records.UpdateEntryIdempotent | app/Http/Controllers/RecordController.php:213-242 | Sending the same single-value entry twice gives the same store as sending it once, when the record held at most one value for the field. |
| Records.UpdateRecordIdempotent | app/Http/Controllers/RecordController.php:166-242 | Sending the same `update` request twice gives the same store as sending it once. This holds when its entries name distinct single-value fields and the record held at most one value for each. |
| Records.UpdateEntryAtMostOne | app/Http/Controllers/RecordController.php:178-242 | An update entry never leaves a record with two values for the field when it had at most one before. |
| Records.StoreRecordConsistent | app/Http/Controllers/RecordController.php:46-114 | A successful `store` keeps the store consistent: every foreign key resolves, and every option a value or selection names belongs to that value's field. |
| Records.UpdateRecordConsistent | app/Http/Controllers/RecordController.php:154-245 | A successful `update` keeps the store consistent. |
| Records.DestroyRecordConsistent | app/Http/Controllers/RecordController.php:276-286 | A successful `destroy` keeps the store consistent. Nothing is left pointing at the deleted record or its values. |
| Records.DestroyRecordOtherSlot | app/Http/Controllers/RecordController.php:281 | Deleting a record does not change what any other record reads for any field. |
| AsWritten.UpdateEntryAsWritten | app/Http/Controllers/RecordController.php:166-242 | As written, an entry that reaches a `multipleSelections()` call fails with a 500, which the corrected entry never does. Every other entry behaves exactly as the corrected one. |
| AsWritten.UpdateEntriesAsWritten | app/Http/Controllers/RecordController.php:166-243 | Whenever the loop as written succeeds, it agrees with the corrected loop. It always agrees when no entry names a multi-select field. |
| AsWritten.UpdateRecordAsWritten | app/Http/Controllers/RecordController.php:151-265 | Whenever `update` as written succeeds, it agrees with the corrected `update`. It always agrees when no entry names a multi-select field. |
| AsWritten.UpdateMultiSelectFails | app/Http/Controllers/RecordController.php:180-190 | Consider a valid request choosing existing options of a multi-select field. As written it fails with a 500; corrected, it succeeds. |
| AsWritten.ClearMultiSelectFails | app/Http/Controllers/RecordController.php:209-211 | Consider a valid request clearing an optional multi-select field that holds a value. As written it fails with a 500; corrected, it succeeds. |
| AsWritten.StoreReplyAsWritten | app/Http/Controllers/RecordController.php:114-123 | A failed `store` leaves the store as it was and is not answered 201. A successful one is committed either way. It is answered 201 exactly when the new record holds no value. |
| AsWritten.StoreReply | app/Http/Controllers/RecordController.php:114-119 | As intended, `store` is answered 201 exactly when the record was saved. The store is the saved one, or unchanged on failure. |
| AsWritten.StoreReplyMisreports | app/Http/Controllers/RecordController.php:116-119 | A saved record with a value is answered 500 although the store has changed. As intended the answer is 201 with the same store. |
| AsWritten.UpdateReplyAsWritten | app/Http/Controllers/RecordController.php:245-264 | A failed `update` leaves the store as it was and is not answered 200. A successful one is committed either way. It is answered 200 exactly when the record holds no value afterwards. |
| AsWritten.UpdateReply | app/Http/Controllers/RecordController.php:245-250 | As intended, `update` is answered 200 exactly when the update was applied. The store is the updated one, or unchanged on failure. |
| AsWritten.UpdateReplyMisreports | app/Http/Controllers/RecordController.php:247-250 | An applied update after which the record holds a value is answered 500 although the change is kept. As intended the answer is 200 with the same store. |

## Left out

- HTTP: request parsing and JSON response bodies are not modelled. The error kinds stand for the statuses. `Handle` returns either the refusal or the next handler's response. Only `AsWritten`'s replies carry a status code.
- The `index` listings of templates and records are not modelled. Only `show`'s content is: template, ordered fields, options and record count. The eager loads in the answers of record `store` and `update` are modelled only for the exception they raise (see Findings). The response bodies they would build are not modelled.
- Route model binding is modelled as the 404 of a missing template or user in `PermissionController`. The routes file registers no permission routes, no record `update` route and no `CheckTemplateAccess` middleware; the actions are modelled as if they were routed.
- Auto-increment ids: the model numbers rows from a counter that a rejected request does not advance. A real database consumes ids inside a rolled-back transaction, so later ids may differ by a gap. Nothing in the model depends on id values beyond their order.
- Record `store` in the source creates a single-choice value and then sets its option, and it creates a multi-select value before checking its options. The model does each as one write after the check. Inside the transaction the intermediate state is never visible, because a failed check rolls it back.
- Request values are strings. A `value` of another JSON type, such as a number or a boolean, is not modelled.
- The framework's `TrimStrings` and `ConvertEmptyStringsToNull` middleware are not modelled. `Php.Blank` models the validator's own trimming for the `required` rule.
- Option matching is exact string equality. Database collation, which may be case-insensitive, is not modelled.
- `update`'s `first()` has no `orderBy`; the model takes it as the lowest id, the usual order of a primary-key scan.
- `is_multiple` is not a column of the fields table, so in practice every field reads it as false and the multi-select branches cannot be reached. The model keeps the flag. `store`'s multi-select branch is modelled as written. `update`'s is modelled both as written (`AsWritten`) and as evidently intended (`Records`), see Findings.
- The values table as migrated has no `option_id` column, and its `value` column is not nullable. The model follows the controller and the Value model, which write both.
- The options and permissions tables have no migration among the sources. Options are modelled as cascading with their field, as the comment at `TemplateController::destroy` says. Permissions are not deleted with their template.
- A request naming a field that does not exist is stopped by the validator's `exists` rule. The `NotFound` rejection of a missing field stands in for the PHP error the controller would raise.
- Seeders, factories, `FieldController`, `ValueController` and `Record::selectedOptions` are not part of this model.
- Records.UpdateEntryIdempotent: covers single-value fields only, because a repeated multi-select update re-creates its selections under new ids. It is about one entry; `Records.UpdateRecordIdempotent` states the request-level property.
- Records.UpdateRecordIdempotent: assumes the request's entries name distinct fields, all single-value, each held at most once by the record. A repeated field or a multi-select entry is not covered.
- Records.UpdateRecordOtherSlot: states that other values are unchanged, not that their selections are.
- Records.StoreRecordGet: assumes the request mentions the field once. With a repeated field, `store` creates two values, and `getFieldValue` reads the first.
- Records.UpdateRecordGet: for an empty entry, assumes the record held at most one value for the field, because `update` deletes only the first one.
- Templates.StoreThenShowField: says which definition each shown field comes from. Its options are stated by `Templates.CreateTemplateOptions` for the field's position, not for the shown list as a whole.

## Findings

| source | as written | input that shows it | evidently intended | confidence | as-written member | corrected member |
|---|---|---|---|---|---|---|
| app/Http/Controllers/RecordController.php:178-211 | `update` calls `$value->multipleSelections()`, a relation the Value model does not define. PHP throws, the transaction rolls back and the answer is 500. | An `update` entry for a multi-select field with non-empty `values` whose options exist. Or one with empty `values` while the record holds a value for the field. This is reachable only once fields carry `is_multiple`. | Replace the value's selections, or delete the value with its selections. | high; not executed | AsWritten.UpdateEntryAsWritten, AsWritten.UpdateMultiSelectFails, AsWritten.ClearMultiSelectFails | Records.UpdateEntry |
| app/Http/Controllers/RecordController.php:114-123 | After the commit, `store`'s answer eager-loads `values.multipleSelections.option`. Value has no such relation, so the exception is rethrown as a 500. The record stays saved. `update` does the same at lines 245-264. | Any successful `store` or `update` after which the record holds at least one value, for example a required text field with a non-empty value. | Answer 201 (or 200) with the saved record. | high; not executed | AsWritten.StoreReplyAsWritten, AsWritten.StoreReplyMisreports, AsWritten.UpdateReplyAsWritten, AsWritten.UpdateReplyMisreports | AsWritten.StoreReply, AsWritten.UpdateReply |
