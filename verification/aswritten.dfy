/** Two paths of the record controller as the code has them, beside the
    corrected behaviour the rest of the model follows. `update`'s
    multi-select branch calls `multipleSelections()` on a Value, and both
    `store` and `update` eager-load `values.multipleSelections.option` for
    their response; the Value model defines no such relation, so PHP
    throws and the client gets a 500. */
module AsWritten {
  import opened Results
  import opened Php
  import opened Tables
  import opened Schema
  import opened Records

  /** The entry names an existing multi-select field. */
  predicate NamesMultiSelect(fields: Table<Field>, e: Entry) {
    Lookup(fields.rows, e.fieldId).Some? && IsMultiSelect(Lookup(fields.rows, e.fieldId).value)
  }

  /** The entry reaches `$value->multipleSelections()` in `update`: it
      passes the required check, names a multi-select field, and carries
      non-empty `values` or finds a value already stored. */
  predicate CallsSelections(s: Store, rid: nat, e: Entry) {
    && NamesMultiSelect(s.fields, e)
    && var f := Lookup(s.fields.rows, e.fieldId).value;
    && !(f.isRequired && EmptyText(e.value) && EmptyList(e.values))
    && (!EmptyList(e.values) || First(s.values.rows, Slot(rid, e.fieldId)).Some?)
  }

  /** One iteration of `update`'s loop as written: wherever the
      multi-select branch would touch selections, the undefined relation
      throws; everywhere else it is the corrected `UpdateEntry`. */
  function UpdateEntryAsWritten(s: Store, rid: nat, e: Entry): (r: Result<Store>)
    ensures CallsSelections(s, rid, e) ==> r == Err(ServerError) && r != UpdateEntry(s, rid, e)
    ensures !CallsSelections(s, rid, e) ==> r == UpdateEntry(s, rid, e)
  {
    match Lookup(s.fields.rows, e.fieldId)
    case None => Err(NotFound)
    case Some(f) =>
      var current := First(s.values.rows, Slot(rid, e.fieldId));
      if f.isRequired && EmptyText(e.value) && EmptyList(e.values) then Err(RequiredFieldMissing(f.fieldName))
      else if IsMultiSelect(f) then
        if !EmptyList(e.values) || current.Some? then Err(ServerError)
        else Ok(s)
      else WriteText(s, rid, e.fieldId, f, e.value, current)
  }

  /** The loop of `update` as written. Whenever it succeeds it agrees with
      the corrected loop, and it always does when no entry names a
      multi-select field. */
  function UpdateEntriesAsWritten(s: Store, rid: nat, es: seq<Entry>): (r: Result<Store>)
    ensures r.Ok? ==> r == UpdateEntries(s, rid, es)
    ensures (forall i | 0 <= i < |es| :: !NamesMultiSelect(s.fields, es[i])) ==> r == UpdateEntries(s, rid, es)
    decreases |es|
  {
    if |es| == 0 then Ok(s)
    else
      match UpdateEntryAsWritten(s, rid, es[0])
      case Err(err) => Err(err)
      case Ok(s1) => UpdateEntriesAsWritten(s1, rid, es[1..])
  }

  /** RecordController::update as written. */
  function UpdateRecordAsWritten(s: Store, rid: nat, fields: Input<seq<EntryInput>>): (r: Result<Store>)
    ensures r.Ok? ==> r == UpdateRecord(s, rid, fields)
    ensures fields.Given? && (forall i | 0 <= i < |fields.v| :: !NamesMultiSelect(s.fields, EntryOf(fields.v[i]))) ==>
      r == UpdateRecord(s, rid, fields)
  {
    if !Has(s.records, rid) then Err(NotFound)
    else if !ValidEntries(s.fields, fields) then Err(ValidationFailed)
    else UpdateEntriesAsWritten(s, rid, EntriesOf(fields.v))
  }

  /** A request with a single entry is that entry's pass through the
      loop, as written and as intended. */
  lemma OneEntryRequest(s: Store, rid: nat, ei: EntryInput)
    requires Has(s.records, rid) && ValidEntryInput(s.fields, ei)
    ensures ValidEntries(s.fields, Given([ei]))
    ensures UpdateRecord(s, rid, Given([ei])) == UpdateEntry(s, rid, EntryOf(ei))
    ensures UpdateRecordAsWritten(s, rid, Given([ei])) == UpdateEntryAsWritten(s, rid, EntryOf(ei))
  {
    var e := EntryOf(ei);
    assert EntriesOf([ei]) == [e];
    assert [e][1..] == [];
    match UpdateEntry(s, rid, e)
    case Err(_) =>
    case Ok(s1) => assert UpdateEntries(s, rid, [e]) == UpdateEntries(s1, rid, []);
  }

  /** Choosing options of a multi-select field in `update`: a valid request
      whose options all exist fails with a 500 as written, and succeeds
      once the selections are replaced as intended. */
  lemma UpdateMultiSelectFails(s: Store, rid: nat, fid: nat, f: Field, xs: seq<string>)
    requires Has(s.records, rid) && Lookup(s.fields.rows, fid) == Some(f) && IsMultiSelect(f)
    requires |xs| > 0 && Picks(s.options, fid, f.fieldName, xs).Ok?
    ensures var req := Given([EntryInput(Given(fid), None, Given(xs))]);
      && ValidEntries(s.fields, req)
      && UpdateRecordAsWritten(s, rid, req) == Err(ServerError)
      && UpdateRecord(s, rid, req).Ok?
  {
    var ei := EntryInput(Given(fid), None, Given(xs));
    OneEntryRequest(s, rid, ei);
    assert CallsSelections(s, rid, EntryOf(ei));
    assert Rejection(s, EntryOf(ei)).None?;
  }

  /** Clearing an optional multi-select field that holds a value in
      `update`: as written it fails with a 500; as intended the value goes. */
  lemma ClearMultiSelectFails(s: Store, rid: nat, fid: nat, f: Field)
    requires Has(s.records, rid) && Lookup(s.fields.rows, fid) == Some(f) && IsMultiSelect(f) && !f.isRequired
    requires exists x | x in s.values.rows :: x.data.recordId == rid && x.data.fieldId == fid
    ensures var req := Given([EntryInput(Given(fid), Some(""), Given([]))]);
      && ValidEntries(s.fields, req)
      && UpdateRecordAsWritten(s, rid, req) == Err(ServerError)
      && UpdateRecord(s, rid, req).Ok?
  {
    var ei := EntryInput(Given(fid), Some(""), Given([]));
    OneEntryRequest(s, rid, ei);
    assert First(s.values.rows, Slot(rid, fid)).Some?;
    assert CallsSelections(s, rid, EntryOf(ei));
    assert Rejection(s, EntryOf(ei)).None?;
  }

  /** What the client gets back: the status code, and the store as the
      request left it. */
  datatype Reply = Reply(status: nat, store: Store)

  /** The status of a failed record request: 404 for a missing record,
      500 for any exception other than a validation error, 422 otherwise. */
  function StatusOf(e: Error): nat {
    match e
    case NotFound => 404
    case Forbidden => 403
    case ServerError => 500
    case _ => 422
  }

  /** Record `rid` holds at least one value, so eager-loading
      `values.multipleSelections.option` reaches the missing relation. */
  predicate HasValues(s: Store, rid: nat) {
    First(s.values.rows, ValuesOfRecord(rid)).Some?
  }

  /** `store` as written, answer included: once committed, a record with a
      value makes the response's eager load throw, and the rethrown
      exception becomes a 500 while the data stays saved. */
  function StoreReplyAsWritten(s: Store, req: RecordInput): (r: Reply)
    ensures StoreRecord(s, req).Err? ==> r.store == s && r.status != 201
    ensures StoreRecord(s, req).Ok? ==> r.store == StoreRecord(s, req).value
    ensures r.status == 201 <==> StoreRecord(s, req).Ok? && !HasValues(StoreRecord(s, req).value, s.records.nextId)
  {
    match StoreRecord(s, req)
    case Err(e) => Reply(StatusOf(e), s)
    case Ok(s1) => if HasValues(s1, s.records.nextId) then Reply(500, s1) else Reply(201, s1)
  }

  /** `store` as intended: 201 exactly when the record was saved. */
  function StoreReply(s: Store, req: RecordInput): (r: Reply)
    ensures r.status == 201 <==> StoreRecord(s, req).Ok?
    ensures r.store == if StoreRecord(s, req).Ok? then StoreRecord(s, req).value else s
  {
    match StoreRecord(s, req)
    case Err(e) => Reply(StatusOf(e), s)
    case Ok(s1) => Reply(201, s1)
  }

  /** A saved record with a value is answered with a 500 although the new
      record is in the store; as intended the answer is 201. */
  lemma StoreReplyMisreports(s: Store, req: RecordInput)
    requires StoreRecord(s, req).Ok? && HasValues(StoreRecord(s, req).value, s.records.nextId)
    ensures StoreReplyAsWritten(s, req).status == 500
    ensures StoreReplyAsWritten(s, req).store != s
    ensures StoreReply(s, req) == Reply(201, StoreReplyAsWritten(s, req).store)
  {
  }

  /** `update` as written, answer included: the multi-select branch may
      already have failed; otherwise, once committed, a record with a value
      makes `fresh(...)` throw, answered 500 with the update kept. */
  function UpdateReplyAsWritten(s: Store, rid: nat, fields: Input<seq<EntryInput>>): (r: Reply)
    ensures UpdateRecordAsWritten(s, rid, fields).Err? ==> r.store == s && r.status != 200
    ensures UpdateRecordAsWritten(s, rid, fields).Ok? ==> r.store == UpdateRecord(s, rid, fields).value
    ensures r.status == 200 <==> UpdateRecordAsWritten(s, rid, fields).Ok? && !HasValues(UpdateRecord(s, rid, fields).value, rid)
  {
    match UpdateRecordAsWritten(s, rid, fields)
    case Err(e) => Reply(StatusOf(e), s)
    case Ok(s1) => if HasValues(s1, rid) then Reply(500, s1) else Reply(200, s1)
  }

  /** `update` as intended: 200 exactly when the update was applied. */
  function UpdateReply(s: Store, rid: nat, fields: Input<seq<EntryInput>>): (r: Reply)
    ensures r.status == 200 <==> UpdateRecord(s, rid, fields).Ok?
    ensures r.store == if UpdateRecord(s, rid, fields).Ok? then UpdateRecord(s, rid, fields).value else s
  {
    match UpdateRecord(s, rid, fields)
    case Err(e) => Reply(StatusOf(e), s)
    case Ok(s1) => Reply(200, s1)
  }

  /** An applied update of a record that holds a value afterwards is
      answered with a 500 although the change is kept; as intended the
      answer is 200. */
  lemma UpdateReplyMisreports(s: Store, rid: nat, fields: Input<seq<EntryInput>>)
    requires UpdateRecordAsWritten(s, rid, fields).Ok? && HasValues(UpdateRecord(s, rid, fields).value, rid)
    ensures UpdateReplyAsWritten(s, rid, fields).status == 500
    ensures UpdateReplyAsWritten(s, rid, fields).store == UpdateRecord(s, rid, fields).value
    ensures UpdateReply(s, rid, fields) == Reply(200, UpdateReplyAsWritten(s, rid, fields).store)
  {
  }
}
