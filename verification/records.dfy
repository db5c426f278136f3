/** The record controller: filling in a template. Each submitted entry
    names a field and carries a single `value` or a list of `values`; it is
    checked against the field's definition and stored as a Value row, with
    one MultipleSelection row per chosen option of a multi-select. A
    request either applies every entry or, when one is rejected, leaves
    the store as it was (the controller's transaction). */
module Records {
  import opened Results
  import opened Php
  import opened Tables
  import opened Schema

  /** One element of the `fields` array of a request. `value` has no type
      rule, so only its presence matters: null and a missing key are alike.
      `values` must be absent or an array of strings; `Malformed` stands
      for anything else. */
  datatype EntryInput = EntryInput(fieldId: Input<nat>, value: Option<string>, values: Input<seq<string>>)

  datatype RecordInput = RecordInput(templateId: Input<nat>, fields: Input<seq<EntryInput>>)

  /** `fields.*.field_id` is `required|exists:fields,id`; `value` is
      required when `values` is null and `values` is required (so
      non-empty) when `value` is null; `values`, when sent, is an array of
      strings. The field is not checked to belong to the record's
      template. */
  predicate ValidEntryInput(fields: Table<Field>, e: EntryInput) {
    && e.fieldId.Given? && Has(fields, e.fieldId.v)
    && (e.values.Absent? || e.values.Given?)
    && (e.values.Absent? ==> FilledText(e.value))
    && (e.value.None? ==> e.values.Given? && |e.values.v| > 0)
  }

  /** `fields` is `required|array`: a non-empty array of valid entries. */
  predicate ValidEntries(fields: Table<Field>, fs: Input<seq<EntryInput>>) {
    fs.Given? && |fs.v| > 0 && forall i | 0 <= i < |fs.v| :: ValidEntryInput(fields, fs.v[i])
  }

  /** The rules of `store`: an existing template and valid entries. */
  predicate ValidStoreInput(s: Store, req: RecordInput) {
    req.templateId.Given? && Has(s.templates, req.templateId.v) && ValidEntries(s.fields, req.fields)
  }

  /** An entry as the validator hands it on; a missing `values` reads as null. */
  datatype Entry = Entry(fieldId: nat, value: Option<string>, values: Option<seq<string>>)

  function EntryOf(e: EntryInput): Entry {
    Entry(if e.fieldId.Given? then e.fieldId.v else 0, e.value, if e.values.Given? then Some(e.values.v) else None)
  }

  function EntriesOf(fs: seq<EntryInput>): (r: seq<Entry>)
    ensures |r| == |fs|
    ensures forall i {:trigger r[i]} | 0 <= i < |fs| :: r[i] == EntryOf(fs[i])
  {
    seq(|fs|, i requires 0 <= i < |fs| => EntryOf(fs[i]))
  }

  /** The position of the first of `xs[i..]` that fails `ok`, or `|xs|`
      when none does. */
  function FirstFailing<X>(xs: seq<X>, ok: X -> bool, i: nat): (j: nat)
    requires i <= |xs|
    ensures i <= j <= |xs|
    ensures forall k | i <= k < j :: ok(xs[k])
    ensures j < |xs| ==> !ok(xs[j])
    decreases |xs| - i
  {
    if i == |xs| || !ok(xs[i]) then i
    else FirstFailing(xs, ok, i + 1)
  }

  /** Whether some option of field `fid` offers `x`. */
  function Offered(options: Table<FieldOption>, fid: nat): string -> bool {
    x => MatchOption(options, fid, x).Some?
  }

  /** The id of the option `$field->options()->where('option_value', x)->first()` finds. */
  function PickedId(options: Table<FieldOption>, fid: nat, x: string): nat {
    match MatchOption(options, fid, x)
    case Some(o) => o.id
    case None => 0
  }

  /** The options a multi-select's `values` pick, one per value, in order
      and with duplicates kept; the first value that no option of the
      field offers is reported. */
  function Picks(options: Table<FieldOption>, fid: nat, name: string, xs: seq<string>): (r: Result<seq<nat>>)
    ensures r.Ok? <==> forall j | 0 <= j < |xs| :: MatchOption(options, fid, xs[j]).Some?
    ensures r.Ok? ==> |r.value| == |xs|
    ensures r.Ok? ==> forall j | 0 <= j < |xs| :: MatchOption(options, fid, xs[j]).value.id == r.value[j]
    ensures r.Err? ==> exists j | 0 <= j < |xs| ::
      && MatchOption(options, fid, xs[j]).None?
      && (forall k | 0 <= k < j :: MatchOption(options, fid, xs[k]).Some?)
      && r.error == InvalidOptionValue(name, Some(xs[j]))
  {
    var j := FirstFailing(xs, Offered(options, fid), 0);
    if j < |xs| then Err(InvalidOptionValue(name, Some(xs[j])))
    else Ok(PickedIds(options, fid, xs))
  }

  function PickedIds(options: Table<FieldOption>, fid: nat, xs: seq<string>): (r: seq<nat>)
    ensures |r| == |xs|
    ensures forall k {:trigger r[k]} | 0 <= k < |xs| :: r[k] == PickedId(options, fid, xs[k])
  {
    seq(|xs|, k requires 0 <= k < |xs| => PickedId(options, fid, xs[k]))
  }

  /** Why the controller rejects an entry, if it does: the first of its
      checks that fails. Only the field and its options are consulted,
      never what the record already holds. */
  function Rejection(s: Store, e: Entry): Option<Error> {
    match Lookup(s.fields.rows, e.fieldId)
    case None => Some(NotFound)
    case Some(f) =>
      if f.isRequired && EmptyText(e.value) && EmptyList(e.values) then Some(RequiredFieldMissing(f.fieldName))
      else if IsMultiSelect(f) then
        if EmptyList(e.values) then None
        else match Picks(s.options, e.fieldId, f.fieldName, e.values.value)
          case Err(err) => Some(err)
          case Ok(_) => None
      else if EmptyText(e.value) || !IsChoice(f.fieldType) then None
      else if MatchOption(s.options, e.fieldId, e.value.value).None? then Some(InvalidOptionValue(f.fieldName, None))
      else None
  }

  function SelectionsFor(vid: nat, oids: seq<nat>): (r: seq<Selection>)
    ensures |r| == |oids|
    ensures forall j {:trigger r[j]} | 0 <= j < |oids| :: r[j] == Selection(vid, oids[j])
  {
    seq(|oids|, j requires 0 <= j < |oids| => Selection(vid, oids[j]))
  }

  /** One MultipleSelection row per picked option of value `vid`. */
  function Pick(s: Store, vid: nat, oids: seq<nat>): Store {
    s.(selections := InsertAll(s.selections, SelectionsFor(vid, oids)))
  }

  /** One iteration of the loop of `store` for record `rid`. It never
      looks for a value the record already holds, so it is the branch of
      `update` for a record without a value for the field. */
  function StoreEntry(s: Store, rid: nat, e: Entry): (r: Result<Store>)
    ensures r.Err? <==> Rejection(s, e).Some?
    ensures r.Err? ==> r.error == Rejection(s, e).value
    ensures r.Ok? ==> r.value.templates == s.templates && r.value.fields == s.fields
    ensures r.Ok? ==> r.value.options == s.options && r.value.records == s.records
  {
    match Lookup(s.fields.rows, e.fieldId)
    case None => Err(NotFound)
    case Some(f) =>
      if f.isRequired && EmptyText(e.value) && EmptyList(e.values) then Err(RequiredFieldMissing(f.fieldName))
      else if IsMultiSelect(f) then WriteSelections(s, rid, e.fieldId, f.fieldName, e.values, None)
      else WriteText(s, rid, e.fieldId, f, e.value, None)
  }

  /** The loop of `store`: entries in request order, stopping at the first
      rejected one. */
  function StoreEntries(s: Store, rid: nat, es: seq<Entry>): (r: Result<Store>)
    ensures r.Ok? ==> r.value.templates == s.templates && r.value.fields == s.fields
    ensures r.Ok? ==> r.value.options == s.options && r.value.records == s.records
    decreases |es|
  {
    if |es| == 0 then Ok(s)
    else
      match StoreEntry(s, rid, es[0])
      case Err(err) => Err(err)
      case Ok(s1) => StoreEntries(s1, rid, es[1..])
  }

  /** RecordController::store: validate, create the record, store the entries. */
  function StoreRecord(s: Store, req: RecordInput): (r: Result<Store>)
    ensures !ValidStoreInput(s, req) ==> r == Err(ValidationFailed)
    ensures r.Ok? ==> r.value.records == Insert(s.records, Record(req.templateId.v))
    ensures r.Ok? ==> r.value.templates == s.templates && r.value.fields == s.fields && r.value.options == s.options
  {
    if !ValidStoreInput(s, req) then Err(ValidationFailed)
    else
      var s1 := s.(records := Insert(s.records, Record(req.templateId.v)));
      StoreEntries(s1, s.records.nextId, EntriesOf(req.fields.v))
  }

  /** One iteration of the loop of `update` for record `rid`: the
      record's first value for the field is edited in place, created when
      missing, or deleted when the entry is empty. The multi-select branch
      is the evidently intended one; as written it throws, which
      `AsWritten.UpdateEntryAsWritten` models. */
  function UpdateEntry(s: Store, rid: nat, e: Entry): (r: Result<Store>)
    ensures r.Err? <==> Rejection(s, e).Some?
    ensures r.Err? ==> r.error == Rejection(s, e).value
    ensures r.Ok? ==> r.value.templates == s.templates && r.value.fields == s.fields
    ensures r.Ok? ==> r.value.options == s.options && r.value.records == s.records
  {
    match Lookup(s.fields.rows, e.fieldId)
    case None => Err(NotFound)
    case Some(f) =>
      var current := First(s.values.rows, Slot(rid, e.fieldId));
      if f.isRequired && EmptyText(e.value) && EmptyList(e.values) then Err(RequiredFieldMissing(f.fieldName))
      else if IsMultiSelect(f) then WriteSelections(s, rid, e.fieldId, f.fieldName, e.values, current)
      else WriteText(s, rid, e.fieldId, f, e.value, current)
  }

  /** The multi-select branch of `store` and of the corrected `update`:
      non-empty `values` replace the selections of the current value
      (created first when there is none); empty `values` delete the
      current value with its selections. */
  function WriteSelections(s: Store, rid: nat, fid: nat, name: string, values: Option<seq<string>>,
                            current: Option<Row<Value>>): (r: Result<Store>)
  {
    if !EmptyList(values) then
      match Picks(s.options, fid, name, values.value)
      case Err(err) => Err(err)
      case Ok(oids) =>
        if current.None? then
          Ok(Pick(s.(values := Insert(s.values, Value(rid, fid, None, None))), s.values.nextId, oids))
        else
          var vid := current.value.id;
          Ok(Pick(s.(selections := Remove(s.selections, SelectionsOf({vid}))), vid, oids))
    else if current.Some? then Ok(DropValues(s, WithId(current.value.id)))
    else Ok(s)
  }

  /** The single-value branch of `store` and `update`: a non-empty `value`
      overwrites the current value's text (a choice field also re-resolves
      its option) or creates the value; an empty one deletes the current
      value. */
  function WriteText(s: Store, rid: nat, fid: nat, f: Field, value: Option<string>,
                      current: Option<Row<Value>>): (r: Result<Store>)
  {
    if !EmptyText(value) then
      var matched := MatchOption(s.options, fid, value.value);
      if IsChoice(f.fieldType) && matched.None? then Err(InvalidOptionValue(f.fieldName, None))
      else
        var optionId := if IsChoice(f.fieldType) then Some(matched.value.id) else None;
        if current.None? then
          Ok(s.(values := Insert(s.values, Value(rid, fid, value, optionId))))
        else
          var prior := current.value;
          Ok(s.(values := Update(s.values, prior.id, Edited(prior.data, value, optionId))))
    else if current.Some? then Ok(DropValues(s, WithId(current.value.id)))
    else Ok(s)
  }

  /** `$value->update(['value' => ...])`, then `option_id` when the field
      has options: a text field's value keeps whatever option it had. */
  function Edited(prior: Value, value: Option<string>, optionId: Option<nat>): Value {
    prior.(text := value, optionId := if optionId.Some? then optionId else prior.optionId)
  }

  /** The loop of `update`. */
  function UpdateEntries(s: Store, rid: nat, es: seq<Entry>): (r: Result<Store>)
    ensures r.Ok? ==> r.value.templates == s.templates && r.value.fields == s.fields
    ensures r.Ok? ==> r.value.options == s.options && r.value.records == s.records
    decreases |es|
  {
    if |es| == 0 then Ok(s)
    else
      match UpdateEntry(s, rid, es[0])
      case Err(err) => Err(err)
      case Ok(s1) => UpdateEntries(s1, rid, es[1..])
  }

  /** RecordController::update: find the record, validate, reconcile the entries. */
  function UpdateRecord(s: Store, rid: nat, fields: Input<seq<EntryInput>>): (r: Result<Store>)
    ensures !Has(s.records, rid) ==> r == Err(NotFound)
    ensures Has(s.records, rid) && !ValidEntries(s.fields, fields) ==> r == Err(ValidationFailed)
    ensures r.Ok? ==> r.value.templates == s.templates && r.value.fields == s.fields
    ensures r.Ok? ==> r.value.options == s.options && r.value.records == s.records
  {
    if !Has(s.records, rid) then Err(NotFound)
    else if !ValidEntries(s.fields, fields) then Err(ValidationFailed)
    else UpdateEntries(s, rid, EntriesOf(fields.v))
  }

  /** RecordController::destroy: the record's values go first (their
      selections cascade), then the record. */
  function DestroyRecord(s: Store, rid: nat): (r: Result<Store>)
    ensures r.Err? <==> !Has(s.records, rid)
    ensures r.Err? ==> r.error == NotFound
    ensures r.Ok? ==> !Has(r.value.records, rid)
    ensures r.Ok? ==> forall x | x in s.records.rows && x.id != rid :: x in r.value.records.rows
    ensures r.Ok? ==> forall x | x in r.value.values.rows :: x in s.values.rows && x.data.recordId != rid
    ensures r.Ok? ==> forall x | x in s.values.rows && x.data.recordId != rid :: x in r.value.values.rows
    ensures r.Ok? ==> r.value.templates == s.templates && r.value.fields == s.fields && r.value.options == s.options
  {
    if !Has(s.records, rid) then Err(NotFound)
    else
      var s1 := DropValues(s, ValuesOfRecord(rid));
      Ok(s1.(records := Remove(s1.records, WithId(rid))))
  }

  /** Record::getFieldValue: the text of the record's first value for an
      existing field; null when there is none, and null for a multi-select,
      whose value row carries no text. */
  function GetFieldValue(s: Store, rid: nat, fid: nat): (r: Option<string>)
    ensures r.Some? ==> exists x | x in s.values.rows :: x.data.recordId == rid && x.data.fieldId == fid && x.data.text == r
    ensures (forall x | x in s.values.rows :: !(x.data.recordId == rid && x.data.fieldId == fid)) ==> r.None?
  {
    if !Has(s.fields, fid) then None
    else
      match First(s.values.rows, Slot(rid, fid))
      case None => None
      case Some(x) => x.data.text
  }

  /** getFieldValue reads the earliest of the record's values for the
      field, and only for a field that exists. */
  lemma GetFieldValueFirst(s: Store, rid: nat, fid: nat)
    ensures Has(s.fields, fid) && |Where(s.values.rows, Slot(rid, fid))| > 0 ==>
      GetFieldValue(s, rid, fid) == Where(s.values.rows, Slot(rid, fid))[0].data.text
    ensures !Has(s.fields, fid) ==> GetFieldValue(s, rid, fid).None?
  {
  }

  // Atomicity: a request fails exactly when one of its entries is rejected.

  /** Whether an entry is rejected depends on the field definitions and
      options only, which the loops never change. */
  lemma RejectionFrame(s: Store, t: Store, e: Entry)
    requires s.fields == t.fields && s.options == t.options
    ensures Rejection(s, e) == Rejection(t, e)
  {
  }

  /** The first rejection among the entries, in request order. */
  function FirstRejection(s: Store, es: seq<Entry>): Option<Error>
    decreases |es|
  {
    if |es| == 0 then None
    else if Rejection(s, es[0]).Some? then Rejection(s, es[0])
    else FirstRejection(s, es[1..])
  }

  /** `FirstRejection` finds the earliest rejected entry, and finds one
      exactly when some entry is rejected. */
  lemma {:induction false} FirstRejectionIsFirst(s: Store, es: seq<Entry>)
    ensures FirstRejection(s, es).Some? <==> exists i | 0 <= i < |es| :: Rejection(s, es[i]).Some?
    ensures FirstRejection(s, es).Some? ==> exists i | 0 <= i < |es| ::
      && Rejection(s, es[i]) == FirstRejection(s, es)
      && forall j | 0 <= j < i :: Rejection(s, es[j]).None?
    decreases |es|
  {
    if |es| > 0 && Rejection(s, es[0]).None? {
      var rest := es[1..];
      FirstRejectionIsFirst(s, rest);
      assert forall i | 0 <= i < |rest| :: rest[i] == es[i + 1];
      if FirstRejection(s, rest).Some? {
        var i :| 0 <= i < |rest| && Rejection(s, rest[i]) == FirstRejection(s, rest) &&
          forall j | 0 <= j < i :: Rejection(s, rest[j]).None?;
        assert Rejection(s, es[i + 1]) == FirstRejection(s, es);
      }
    }
  }

  lemma {:induction false} FirstRejectionFrame(s: Store, t: Store, es: seq<Entry>)
    requires s.fields == t.fields && s.options == t.options
    ensures FirstRejection(s, es) == FirstRejection(t, es)
    decreases |es|
  {
    if |es| > 0 {
      RejectionFrame(s, t, es[0]);
      FirstRejectionFrame(s, t, es[1..]);
    }
  }

  /** The store loop fails iff some entry is rejected, and then with the
      first rejected entry's error. */
  lemma {:induction false} StoreEntriesRejects(s: Store, rid: nat, es: seq<Entry>)
    ensures StoreEntries(s, rid, es).Err? <==> FirstRejection(s, es).Some?
    ensures StoreEntries(s, rid, es).Err? ==> FirstRejection(s, es) == Some(StoreEntries(s, rid, es).error)
    decreases |es|
  {
    if |es| > 0 {
      var step := StoreEntry(s, rid, es[0]);
      if step.Ok? {
        var s1 := step.value;
        assert StoreEntries(s, rid, es) == StoreEntries(s1, rid, es[1..]);
        assert FirstRejection(s, es) == FirstRejection(s, es[1..]);
        StoreEntriesRejects(s1, rid, es[1..]);
        FirstRejectionFrame(s1, s, es[1..]);
      } else {
        assert StoreEntries(s, rid, es) == Err(step.error);
      }
    }
  }

  /** The update loop fails iff some entry is rejected, and then with the
      first rejected entry's error. */
  lemma {:induction false} UpdateEntriesRejects(s: Store, rid: nat, es: seq<Entry>)
    ensures UpdateEntries(s, rid, es).Err? <==> FirstRejection(s, es).Some?
    ensures UpdateEntries(s, rid, es).Err? ==> FirstRejection(s, es) == Some(UpdateEntries(s, rid, es).error)
    decreases |es|
  {
    if |es| > 0 {
      var step := UpdateEntry(s, rid, es[0]);
      if step.Ok? {
        var s1 := step.value;
        assert UpdateEntries(s, rid, es) == UpdateEntries(s1, rid, es[1..]);
        assert FirstRejection(s, es) == FirstRejection(s, es[1..]);
        UpdateEntriesRejects(s1, rid, es[1..]);
        FirstRejectionFrame(s1, s, es[1..]);
      } else {
        assert UpdateEntries(s, rid, es) == Err(step.error);
      }
    }
  }

  // Reading values back.

  /** getFieldValue reads the field definitions and the record's values
      for that one field, nothing else. */
  lemma GetFieldValueSlot(s: Store, t: Store, rid: nat, fid: nat)
    requires s.fields == t.fields
    requires Where(s.values.rows, Slot(rid, fid)) == Where(t.values.rows, Slot(rid, fid))
    ensures GetFieldValue(s, rid, fid) == GetFieldValue(t, rid, fid)
  {
  }

  /** A row inserted into another slot does not change the answer of a query. */
  lemma WhereInsertOutside<T>(t: Table<T>, d: T, p: Row<T> -> bool)
    requires !p(Row(t.nextId, d))
    ensures Where(Insert(t, d).rows, p) == Where(t.rows, p)
  {
    WhereConcat(t.rows, [Row(t.nextId, d)], p);
  }

  /** The multi-select branch keeps the values table well formed. */
  lemma WriteSelectionsValid(s: Store, rid: nat, fid: nat, name: string, values: Option<seq<string>>,
                             current: Option<Row<Value>>)
    requires Valid(s.values) && WriteSelections(s, rid, fid, name, values, current).Ok?
    ensures Valid(WriteSelections(s, rid, fid, name, values, current).value.values)
  {
  }

  /** The single-value branch keeps the values table well formed. */
  lemma WriteTextValid(s: Store, rid: nat, fid: nat, f: Field, value: Option<string>, current: Option<Row<Value>>)
    requires Valid(s.values) && WriteText(s, rid, fid, f, value, current).Ok?
    ensures Valid(WriteText(s, rid, fid, f, value, current).value.values)
  {
  }

  /** Update keeps the values table well formed. */
  lemma UpdateEntryValid(s: Store, rid: nat, e: Entry)
    requires Valid(s.values)
    requires UpdateEntry(s, rid, e).Ok?
    ensures Valid(UpdateEntry(s, rid, e).value.values)
  {
    var f := Lookup(s.fields.rows, e.fieldId).value;
    var current := First(s.values.rows, Slot(rid, e.fieldId));
    if IsMultiSelect(f) {
      WriteSelectionsValid(s, rid, e.fieldId, f.fieldName, e.values, current);
    } else {
      WriteTextValid(s, rid, e.fieldId, f, e.value, current);
    }
  }

  /** Store keeps the values table well formed. */
  lemma StoreEntryValid(s: Store, rid: nat, e: Entry)
    requires Valid(s.values)
    requires StoreEntry(s, rid, e).Ok?
    ensures Valid(StoreEntry(s, rid, e).value.values)
  {
    var f := Lookup(s.fields.rows, e.fieldId).value;
    if IsMultiSelect(f) {
      WriteSelectionsValid(s, rid, e.fieldId, f.fieldName, e.values, None);
    } else {
      WriteTextValid(s, rid, e.fieldId, f, e.value, None);
    }
  }

  /** The multi-select branch leaves every other slot as it was. */
  lemma WriteSelectionsOtherSlot(s: Store, rid: nat, fid: nat, name: string, values: Option<seq<string>>,
                                  current: Option<Row<Value>>, g: nat, h: nat)
    requires Valid(s.values) && (current.None? || current == First(s.values.rows, Slot(rid, fid)))
    requires WriteSelections(s, rid, fid, name, values, current).Ok?
    requires g != rid || h != fid
    ensures Where(WriteSelections(s, rid, fid, name, values, current).value.values.rows, Slot(g, h)) == Where(s.values.rows, Slot(g, h))
  {
    if !EmptyList(values) && current.None? {
      WhereInsertOutside(s.values, Value(rid, fid, None, None), Slot(g, h));
    } else if EmptyList(values) && current.Some? {
      SlotIdOutside(s, rid, fid, current.value, g, h);
      WhereDropDisjoint(s.values.rows, Slot(g, h), WithId(current.value.id));
    }
  }

  /** The single-value branch leaves every other slot as it was. */
  lemma WriteTextOtherSlot(s: Store, rid: nat, fid: nat, f: Field, value: Option<string>,
                            current: Option<Row<Value>>, g: nat, h: nat)
    requires Valid(s.values) && (current.None? || current == First(s.values.rows, Slot(rid, fid)))
    requires WriteText(s, rid, fid, f, value, current).Ok?
    requires g != rid || h != fid
    ensures Where(WriteText(s, rid, fid, f, value, current).value.values.rows, Slot(g, h)) == Where(s.values.rows, Slot(g, h))
  {
    if !EmptyText(value) {
      var matched := MatchOption(s.options, fid, value.value);
      var optionId := if IsChoice(f.fieldType) then Some(matched.value.id) else None;
      if current.None? {
        WhereInsertOutside(s.values, Value(rid, fid, value, optionId), Slot(g, h));
      } else {
        SlotIdOutside(s, rid, fid, current.value, g, h);
        WhereSetOutside(s.values.rows, current.value.id, Edited(current.value.data, value, optionId), Slot(g, h));
      }
    } else if current.Some? {
      SlotIdOutside(s, rid, fid, current.value, g, h);
      WhereDropDisjoint(s.values.rows, Slot(g, h), WithId(current.value.id));
    }
  }

  /** The row holding a value of one slot is the only row with its id, so
      no row with that id belongs to another slot. */
  lemma SlotIdOutside(s: Store, rid: nat, fid: nat, cur: Row<Value>, g: nat, h: nat)
    requires Valid(s.values) && cur in s.values.rows && Slot(rid, fid)(cur)
    requires g != rid || h != fid
    ensures forall x | x in s.values.rows && x.id == cur.id :: !Slot(g, h)(x)
    ensures forall x | x in s.values.rows && WithId(cur.id)(x) :: !Slot(g, h)(x)
  {
    forall x | x in s.values.rows && x.id == cur.id
      ensures !Slot(g, h)(x)
    {
      SameIdSameRow(s.values.rows, x, cur);
    }
  }

  /** An update entry leaves every other (record, field) slot with the same
      values in the same order. */
  lemma UpdateEntryOtherSlot(s: Store, rid: nat, e: Entry, g: nat, h: nat)
    requires Valid(s.values)
    requires UpdateEntry(s, rid, e).Ok?
    requires g != rid || h != e.fieldId
    ensures Where(UpdateEntry(s, rid, e).value.values.rows, Slot(g, h)) == Where(s.values.rows, Slot(g, h))
  {
    var f := Lookup(s.fields.rows, e.fieldId).value;
    var current := First(s.values.rows, Slot(rid, e.fieldId));
    if IsMultiSelect(f) {
      WriteSelectionsOtherSlot(s, rid, e.fieldId, f.fieldName, e.values, current, g, h);
    } else {
      WriteTextOtherSlot(s, rid, e.fieldId, f, e.value, current, g, h);
    }
  }

  /** The single-value branch, read back: a non-empty value is what the
      field now reads as. */
  lemma WriteTextGet(s: Store, rid: nat, fid: nat, f: Field, value: Option<string>, current: Option<Row<Value>>)
    requires Has(s.fields, fid) && current == First(s.values.rows, Slot(rid, fid))
    requires WriteText(s, rid, fid, f, value, current).Ok?
    requires !EmptyText(value)
    ensures GetFieldValue(WriteText(s, rid, fid, f, value, current).value, rid, fid) == value
  {
    var matched := MatchOption(s.options, fid, value.value);
    var optionId := if IsChoice(f.fieldType) then Some(matched.value.id) else None;
    if current.None? {
      InsertedValueGet(s, rid, fid, Value(rid, fid, value, optionId));
    } else {
      EditedValueGet(s, rid, fid, current.value, Edited(current.value.data, value, optionId));
    }
  }

  /** A value inserted into an empty slot is what the slot reads as. */
  lemma InsertedValueGet(s: Store, rid: nat, fid: nat, v: Value)
    requires Has(s.fields, fid) && First(s.values.rows, Slot(rid, fid)).None?
    requires v.recordId == rid && v.fieldId == fid
    ensures GetFieldValue(s.(values := Insert(s.values, v)), rid, fid) == v.text
  {
    assert Where(s.values.rows, Slot(rid, fid)) == [];
    InsertedSlot(s, rid, fid, v);
  }

  /** The slot's first value, rewritten in place, is what the slot reads as. */
  lemma EditedValueGet(s: Store, rid: nat, fid: nat, cur: Row<Value>, d: Value)
    requires Has(s.fields, fid) && First(s.values.rows, Slot(rid, fid)) == Some(cur)
    requires d.recordId == rid && d.fieldId == fid
    ensures GetFieldValue(s.(values := Update(s.values, cur.id, d)), rid, fid) == d.text
  {
    FirstSet(s.values.rows, cur.id, d, Slot(rid, fid));
  }

  /** A query with at most one answer has no other answer. */
  lemma OnlyRow<T>(w: seq<T>, y: T, x: T)
    requires |w| <= 1 && y in w
    ensures x in w ==> x == y
  {
  }

  /** Deleting the only value of a slot empties it. */
  lemma DropOnlyValue(s: Store, rid: nat, fid: nat, cur: Row<Value>)
    requires First(s.values.rows, Slot(rid, fid)) == Some(cur)
    requires |Where(s.values.rows, Slot(rid, fid))| <= 1
    ensures forall x | x in DropValues(s, WithId(cur.id)).values.rows :: !(x.data.recordId == rid && x.data.fieldId == fid)
  {
    var w := Where(s.values.rows, Slot(rid, fid));
    var r := DropValues(s, WithId(cur.id));
    forall x | x in r.values.rows
      ensures !(x.data.recordId == rid && x.data.fieldId == fid)
    {
      assert x in s.values.rows && x.id != cur.id;
      OnlyRow(w, cur, x);
    }
  }

  /** The single-value branch, read back: an empty value leaves the field
      reading null, when the record held at most one value for it. */
  lemma WriteTextGetEmpty(s: Store, rid: nat, fid: nat, f: Field, value: Option<string>, current: Option<Row<Value>>)
    requires current == First(s.values.rows, Slot(rid, fid))
    requires EmptyText(value) && |Where(s.values.rows, Slot(rid, fid))| <= 1
    ensures GetFieldValue(WriteText(s, rid, fid, f, value, current).value, rid, fid).None?
  {
    if current.Some? {
      DropOnlyValue(s, rid, fid, current.value);
    }
  }

  /** A single-value entry, read back through `update`. */
  lemma UpdateEntryGet(s: Store, rid: nat, e: Entry)
    requires UpdateEntry(s, rid, e).Ok?
    requires !IsMultiSelect(Lookup(s.fields.rows, e.fieldId).value)
    ensures !EmptyText(e.value) ==> GetFieldValue(UpdateEntry(s, rid, e).value, rid, e.fieldId) == e.value
    ensures EmptyText(e.value) && |Where(s.values.rows, Slot(rid, e.fieldId))| <= 1 ==>
      GetFieldValue(UpdateEntry(s, rid, e).value, rid, e.fieldId).None?
  {
    var f := Lookup(s.fields.rows, e.fieldId).value;
    var current := First(s.values.rows, Slot(rid, e.fieldId));
    if EmptyText(e.value) {
      if |Where(s.values.rows, Slot(rid, e.fieldId))| <= 1 {
        WriteTextGetEmpty(s, rid, e.fieldId, f, e.value, current);
      }
    } else {
      WriteTextGet(s, rid, e.fieldId, f, e.value, current);
    }
  }

  /** Fields the request does not mention keep their values: every slot
      no entry addresses is left as it was. */
  lemma {:induction false} UpdateEntriesOtherSlot(s: Store, rid: nat, es: seq<Entry>, g: nat, h: nat)
    requires Valid(s.values) && UpdateEntries(s, rid, es).Ok?
    requires forall j | 0 <= j < |es| :: g != rid || h != es[j].fieldId
    ensures Where(UpdateEntries(s, rid, es).value.values.rows, Slot(g, h)) == Where(s.values.rows, Slot(g, h))
    decreases |es|
  {
    if |es| > 0 {
      var s1 := UpdateEntry(s, rid, es[0]).value;
      assert UpdateEntries(s, rid, es) == UpdateEntries(s1, rid, es[1..]);
      UpdateEntryOtherSlot(s, rid, es[0], g, h);
      UpdateEntryValid(s, rid, es[0]);
      assert forall j | 0 <= j < |es| - 1 :: es[1..][j] == es[j + 1];
      UpdateEntriesOtherSlot(s1, rid, es[1..], g, h);
    }
  }

  /** Field ids that occur once in the request. */
  predicate Unique(es: seq<Entry>, i: nat)
    requires i < |es|
  {
    forall j | 0 <= j < |es| && j != i :: es[j].fieldId != es[i].fieldId
  }

  /** The first entry of an update is not undone by the entries after it
      when they address other fields. */
  lemma UpdateEntriesGetFirst(s: Store, rid: nat, es: seq<Entry>)
    requires Valid(s.values) && UpdateEntries(s, rid, es).Ok?
    requires |es| > 0 && Unique(es, 0)
    ensures GetFieldValue(UpdateEntries(s, rid, es).value, rid, es[0].fieldId)
         == GetFieldValue(UpdateEntry(s, rid, es[0]).value, rid, es[0].fieldId)
  {
    var fid := es[0].fieldId;
    var s1 := UpdateEntry(s, rid, es[0]).value;
    var rest := es[1..];
    var r := UpdateEntries(s, rid, es).value;
    assert r == UpdateEntries(s1, rid, rest).value;
    assert forall j | 0 <= j < |rest| :: rest[j] == es[j + 1];
    UpdateEntryValid(s, rid, es[0]);
    UpdateEntriesOtherSlot(s1, rid, rest, rid, fid);
    GetFieldValueSlot(r, s1, rid, fid);
  }

  /** After `update`, a single-value field the request mentions once reads
      as the submitted value; submitted empty, it reads as null when the
      record held at most one value for it. */
  lemma {:induction false} UpdateEntriesGet(s: Store, rid: nat, es: seq<Entry>, i: nat)
    requires Valid(s.values) && UpdateEntries(s, rid, es).Ok?
    requires i < |es| && Unique(es, i)
    requires Lookup(s.fields.rows, es[i].fieldId).Some? && !IsMultiSelect(Lookup(s.fields.rows, es[i].fieldId).value)
    ensures !EmptyText(es[i].value) ==> GetFieldValue(UpdateEntries(s, rid, es).value, rid, es[i].fieldId) == es[i].value
    ensures EmptyText(es[i].value) && |Where(s.values.rows, Slot(rid, es[i].fieldId))| <= 1 ==>
      GetFieldValue(UpdateEntries(s, rid, es).value, rid, es[i].fieldId).None?
    decreases |es|
  {
    if i == 0 {
      UpdateEntriesGetHead(s, rid, es);
    } else {
      var fid := es[i].fieldId;
      var s1 := UpdateEntry(s, rid, es[0]).value;
      var rest := es[1..];
      assert UpdateEntries(s, rid, es) == UpdateEntries(s1, rid, rest);
      assert forall j | 0 <= j < |rest| :: rest[j] == es[j + 1];
      UpdateEntryValid(s, rid, es[0]);
      UpdateEntryOtherSlot(s, rid, es[0], rid, fid);
      assert rest[i - 1] == es[i] && s1.fields == s.fields;
      assert Unique(rest, i - 1);
      UpdateEntriesGet(s1, rid, rest, i - 1);
    }
  }

  /** `UpdateEntriesGet` for the first entry of the request. */
  lemma UpdateEntriesGetHead(s: Store, rid: nat, es: seq<Entry>)
    requires Valid(s.values) && UpdateEntries(s, rid, es).Ok?
    requires |es| > 0 && Unique(es, 0)
    requires Lookup(s.fields.rows, es[0].fieldId).Some? && !IsMultiSelect(Lookup(s.fields.rows, es[0].fieldId).value)
    ensures !EmptyText(es[0].value) ==> GetFieldValue(UpdateEntries(s, rid, es).value, rid, es[0].fieldId) == es[0].value
    ensures EmptyText(es[0].value) && |Where(s.values.rows, Slot(rid, es[0].fieldId))| <= 1 ==>
      GetFieldValue(UpdateEntries(s, rid, es).value, rid, es[0].fieldId).None?
  {
    assert UpdateEntry(s, rid, es[0]).Ok?;
    UpdateEntryGet(s, rid, es[0]);
    UpdateEntriesGetFirst(s, rid, es);
  }

  /** On a record holding no value for the entry's field, `store` and
      `update` treat the entry alike. */
  lemma StoreEntryIsUpdate(s: Store, rid: nat, e: Entry)
    requires First(s.values.rows, Slot(rid, e.fieldId)).None?
    ensures StoreEntry(s, rid, e) == UpdateEntry(s, rid, e)
  {
  }

  /** A store entry leaves every other (record, field) slot as it was. */
  lemma StoreEntryOtherSlot(s: Store, rid: nat, e: Entry, g: nat, h: nat)
    requires Valid(s.values)
    requires StoreEntry(s, rid, e).Ok?
    requires g != rid || h != e.fieldId
    ensures Where(StoreEntry(s, rid, e).value.values.rows, Slot(g, h)) == Where(s.values.rows, Slot(g, h))
  {
    var f := Lookup(s.fields.rows, e.fieldId).value;
    if IsMultiSelect(f) {
      WriteSelectionsOtherSlot(s, rid, e.fieldId, f.fieldName, e.values, None, g, h);
    } else {
      WriteTextOtherSlot(s, rid, e.fieldId, f, e.value, None, g, h);
    }
  }

  /** Slots no entry of a store request addresses stay as they were. */
  lemma {:induction false} StoreEntriesOtherSlot(s: Store, rid: nat, es: seq<Entry>, g: nat, h: nat)
    requires Valid(s.values) && StoreEntries(s, rid, es).Ok?
    requires forall j | 0 <= j < |es| :: g != rid || h != es[j].fieldId
    ensures Where(StoreEntries(s, rid, es).value.values.rows, Slot(g, h)) == Where(s.values.rows, Slot(g, h))
    decreases |es|
  {
    if |es| > 0 {
      var s1 := StoreEntry(s, rid, es[0]).value;
      assert StoreEntries(s, rid, es) == StoreEntries(s1, rid, es[1..]);
      StoreEntryOtherSlot(s, rid, es[0], g, h);
      StoreEntryValid(s, rid, es[0]);
      assert forall j | 0 <= j < |es| - 1 :: es[1..][j] == es[j + 1];
      StoreEntriesOtherSlot(s1, rid, es[1..], g, h);
    }
  }

  /** The first entry of a store request, read back once the rest of the
      request has run. */
  lemma StoreEntriesGetFirst(s: Store, rid: nat, es: seq<Entry>)
    requires Valid(s.values) && StoreEntries(s, rid, es).Ok?
    requires |es| > 0 && Unique(es, 0)
    requires Where(s.values.rows, Slot(rid, es[0].fieldId)) == []
    requires Lookup(s.fields.rows, es[0].fieldId).Some? && !IsMultiSelect(Lookup(s.fields.rows, es[0].fieldId).value)
    ensures GetFieldValue(StoreEntries(s, rid, es).value, rid, es[0].fieldId)
         == if EmptyText(es[0].value) then None else es[0].value
  {
    var fid := es[0].fieldId;
    var s1 := StoreEntry(s, rid, es[0]).value;
    var rest := es[1..];
    var r := StoreEntries(s, rid, es).value;
    assert r == StoreEntries(s1, rid, rest).value;
    assert forall j | 0 <= j < |rest| :: rest[j] == es[j + 1];
    StoreEntryGet(s, rid, es[0]);
    StoreEntriesOtherSlot(s1, rid, rest, rid, fid);
    GetFieldValueSlot(r, s1, rid, fid);
  }

  /** A single store entry for an empty slot, read back at once. */
  lemma StoreEntryGet(s: Store, rid: nat, e: Entry)
    requires Valid(s.values) && StoreEntry(s, rid, e).Ok?
    requires Where(s.values.rows, Slot(rid, e.fieldId)) == []
    requires Lookup(s.fields.rows, e.fieldId).Some? && !IsMultiSelect(Lookup(s.fields.rows, e.fieldId).value)
    ensures Valid(StoreEntry(s, rid, e).value.values)
    ensures GetFieldValue(StoreEntry(s, rid, e).value, rid, e.fieldId) == if EmptyText(e.value) then None else e.value
  {
    StoreEntryValid(s, rid, e);
    StoreEntryIsUpdate(s, rid, e);
    UpdateEntryGet(s, rid, e);
  }

  /** After the store loop, a single-value field the request mentions once
      reads as the submitted value, or as null when that value is empty in
      PHP's sense (null, "" or "0"). */
  lemma {:induction false} StoreEntriesGet(s: Store, rid: nat, es: seq<Entry>, i: nat)
    requires Valid(s.values) && StoreEntries(s, rid, es).Ok?
    requires i < |es| && Unique(es, i)
    requires Where(s.values.rows, Slot(rid, es[i].fieldId)) == []
    requires Lookup(s.fields.rows, es[i].fieldId).Some? && !IsMultiSelect(Lookup(s.fields.rows, es[i].fieldId).value)
    ensures GetFieldValue(StoreEntries(s, rid, es).value, rid, es[i].fieldId)
         == if EmptyText(es[i].value) then None else es[i].value
    decreases |es|
  {
    if i == 0 {
      StoreEntriesGetFirst(s, rid, es);
    } else {
      var fid := es[i].fieldId;
      var s1 := StoreEntry(s, rid, es[0]).value;
      var rest := es[1..];
      assert StoreEntries(s, rid, es) == StoreEntries(s1, rid, rest);
      assert forall j | 0 <= j < |rest| :: rest[j] == es[j + 1];
      StoreEntryValid(s, rid, es[0]);
      StoreEntryOtherSlot(s, rid, es[0], rid, fid);
      assert rest[i - 1] == es[i] && s1.fields == s.fields;
      assert Unique(rest, i - 1);
      StoreEntriesGet(s1, rid, rest, i - 1);
    }
  }

  // The requests as a whole.

  /** A valid store request fails iff one of its entries is rejected, and
      then with the first rejected entry's error; no required field the
      request does not mention is checked. */
  lemma StoreRecordRejects(s: Store, req: RecordInput)
    requires ValidStoreInput(s, req)
    ensures StoreRecord(s, req).Err? <==> exists i | 0 <= i < |req.fields.v| :: Rejection(s, EntriesOf(req.fields.v)[i]).Some?
    ensures StoreRecord(s, req).Err? ==> exists i | 0 <= i < |req.fields.v| ::
      && Rejection(s, EntriesOf(req.fields.v)[i]) == Some(StoreRecord(s, req).error)
      && forall j | 0 <= j < i :: Rejection(s, EntriesOf(req.fields.v)[j]).None?
  {
    var es := EntriesOf(req.fields.v);
    var s1 := s.(records := Insert(s.records, Record(req.templateId.v)));
    StoreEntriesRejects(s1, s.records.nextId, es);
    FirstRejectionFrame(s1, s, es);
    FirstRejectionIsFirst(s, es);
  }

  /** A valid update request on an existing record fails iff one of its
      entries is rejected, and then with the first rejected entry's error. */
  lemma UpdateRecordRejects(s: Store, rid: nat, fields: Input<seq<EntryInput>>)
    requires Has(s.records, rid) && ValidEntries(s.fields, fields)
    ensures UpdateRecord(s, rid, fields).Err? <==> exists i | 0 <= i < |fields.v| :: Rejection(s, EntriesOf(fields.v)[i]).Some?
    ensures UpdateRecord(s, rid, fields).Err? ==> exists i | 0 <= i < |fields.v| ::
      && Rejection(s, EntriesOf(fields.v)[i]) == Some(UpdateRecord(s, rid, fields).error)
      && forall j | 0 <= j < i :: Rejection(s, EntriesOf(fields.v)[j]).None?
  {
    UpdateEntriesRejects(s, rid, EntriesOf(fields.v));
    FirstRejectionIsFirst(s, EntriesOf(fields.v));
  }

  /** Reading back what `store` saved: a single-value field the request
      mentions once reads as the submitted text, or as null when the text
      is empty in PHP's sense. */
  lemma StoreRecordGet(s: Store, req: RecordInput, i: nat)
    requires Consistent(s) && StoreRecord(s, req).Ok?
    requires i < |req.fields.v| && Unique(EntriesOf(req.fields.v), i)
    requires !IsMultiSelect(Lookup(s.fields.rows, req.fields.v[i].fieldId.v).value)
    ensures GetFieldValue(StoreRecord(s, req).value, s.records.nextId, req.fields.v[i].fieldId.v)
         == if EmptyText(req.fields.v[i].value) then None else req.fields.v[i].value
  {
    var es := EntriesOf(req.fields.v);
    var rid := s.records.nextId;
    var s1 := s.(records := Insert(s.records, Record(req.templateId.v)));
    assert es[i] == EntryOf(req.fields.v[i]);
    assert ValidEntryInput(s.fields, req.fields.v[i]);
    ConsistentBounds(s);
    WhereNone(s.values.rows, Slot(rid, es[i].fieldId));
    StoreEntriesGet(s1, rid, es, i);
  }

  /** A field the store request does not mention, required or not, is not
      checked: the request succeeds as long as its own entries pass, and
      the field reads as null afterwards. */
  lemma StoreIgnoresUnmentionedFields(s: Store, req: RecordInput, fid: nat)
    requires Consistent(s) && ValidStoreInput(s, req)
    requires forall i | 0 <= i < |req.fields.v| :: Rejection(s, EntriesOf(req.fields.v)[i]).None?
    requires forall i | 0 <= i < |req.fields.v| :: req.fields.v[i].fieldId.v != fid
    ensures StoreRecord(s, req).Ok?
    ensures GetFieldValue(StoreRecord(s, req).value, s.records.nextId, fid).None?
  {
    var es := EntriesOf(req.fields.v);
    var rid := s.records.nextId;
    var s1 := s.(records := Insert(s.records, Record(req.templateId.v)));
    StoreRecordRejects(s, req);
    ConsistentBounds(s);
    forall j | 0 <= j < |es|
      ensures rid != rid || fid != es[j].fieldId
    {
      assert es[j] == EntryOf(req.fields.v[j]);
    }
    StoreEntriesOtherSlot(s1, rid, es, rid, fid);
    WhereNone(s.values.rows, Slot(rid, fid));
  }

  /** Reading back what `update` saved: a single-value field the request
      mentions once reads as the submitted text; submitted empty, it reads
      as null when the record held at most one value for it. */
  lemma UpdateRecordGet(s: Store, rid: nat, fields: Input<seq<EntryInput>>, i: nat)
    requires Consistent(s) && UpdateRecord(s, rid, fields).Ok?
    requires i < |fields.v| && Unique(EntriesOf(fields.v), i)
    requires !IsMultiSelect(Lookup(s.fields.rows, fields.v[i].fieldId.v).value)
    ensures !EmptyText(fields.v[i].value) ==> GetFieldValue(UpdateRecord(s, rid, fields).value, rid, fields.v[i].fieldId.v) == fields.v[i].value
    ensures EmptyText(fields.v[i].value) && |Where(s.values.rows, Slot(rid, fields.v[i].fieldId.v))| <= 1 ==>
      GetFieldValue(UpdateRecord(s, rid, fields).value, rid, fields.v[i].fieldId.v).None?
  {
    var es := EntriesOf(fields.v);
    assert es[i] == EntryOf(fields.v[i]);
    assert ValidEntryInput(s.fields, fields.v[i]);
    UpdateEntriesGet(s, rid, es, i);
  }

  /** Fields an update request does not mention keep their values, in order. */
  lemma UpdateRecordOtherSlot(s: Store, rid: nat, fields: Input<seq<EntryInput>>, g: nat, h: nat)
    requires Consistent(s) && UpdateRecord(s, rid, fields).Ok?
    requires g != rid || forall i | 0 <= i < |fields.v| :: fields.v[i].fieldId.v != h
    ensures Where(UpdateRecord(s, rid, fields).value.values.rows, Slot(g, h)) == Where(s.values.rows, Slot(g, h))
  {
    var es := EntriesOf(fields.v);
    forall j | 0 <= j < |es|
      ensures g != rid || h != es[j].fieldId
    {
      assert es[j] == EntryOf(fields.v[j]);
    }
    UpdateEntriesOtherSlot(s, rid, es, g, h);
  }

  // Referential consistency.

  /** A new record of an existing template. */
  lemma InsertRecordConsistent(s: Store, t: nat)
    requires Consistent(s) && Has(s.templates, t)
    ensures Consistent(s.(records := Insert(s.records, Record(t))))
  {
    var r := s.(records := Insert(s.records, Record(t)));
    InsertIds(s.records, Record(t));
    assert Grows(s, r);
    GrowsKeepsFits(s, r);
  }

  /** A new value of an existing record for an existing field, whose option
      (if any) is one of that field's. */
  lemma InsertValueConsistent(s: Store, v: Value)
    requires Consistent(s)
    requires Has(s.records, v.recordId) && Has(s.fields, v.fieldId) && OptionFits(s, v)
    ensures Consistent(s.(values := Insert(s.values, v)))
  {
    var r := s.(values := Insert(s.values, v));
    assert Grows(s, r);
    GrowsKeepsFits(s, r);
  }

  /** An option of field `fid` exists with this id. */
  ghost predicate OptionOf(options: Table<FieldOption>, oid: nat, fid: nat) {
    exists o | o in options.rows :: o.id == oid && o.data.fieldId == fid
  }

  /** New selections of an existing value, each naming an option of the
      value's field. */
  lemma PickConsistent(s: Store, v: Row<Value>, oids: seq<nat>)
    requires Consistent(s) && v in s.values.rows
    requires forall j | 0 <= j < |oids| :: OptionOf(s.options, oids[j], v.data.fieldId)
    ensures Consistent(Pick(s, v.id, oids))
  {
    var sel := InsertAll(s.selections, SelectionsFor(v.id, oids));
    InsertAllValid(s.selections, SelectionsFor(v.id, oids));
    PickedFit(s, v, oids, sel);
    ConsistentWithSelections(s, sel);
  }

  lemma PickedFit(s: Store, v: Row<Value>, oids: seq<nat>, sel: Table<Selection>)
    requires Consistent(s) && v in s.values.rows
    requires forall j | 0 <= j < |oids| :: OptionOf(s.options, oids[j], v.data.fieldId)
    requires sel == InsertAll(s.selections, SelectionsFor(v.id, oids))
    ensures forall x | x in sel.rows :: SelectionFits(s, x.data)
  {
    var added := Numbered(s.selections.nextId, SelectionsFor(v.id, oids));
    assert sel.rows == s.selections.rows + added;
    forall x | x in sel.rows
      ensures SelectionFits(s, x.data)
    {
      if x !in s.selections.rows {
        var j :| 0 <= j < |added| && added[j] == x;
        assert OptionOf(s.options, oids[j], v.data.fieldId);
        var o :| o in s.options.rows && o.id == oids[j] && o.data.fieldId == v.data.fieldId;
        assert v in s.values.rows && o in s.options.rows;
      }
    }
  }

  /** Replacing the selections table by one whose rows all point at values
      and options of the store keeps it consistent. */
  lemma ConsistentWithSelections(s: Store, sel: Table<Selection>)
    requires Consistent(s) && Valid(sel)
    requires forall x | x in sel.rows :: SelectionFits(s, x.data)
    ensures Consistent(s.(selections := sel))
  {
    var r := s.(selections := sel);
    assert r.values == s.values && r.options == s.options;
  }

  /** Deleting selections never breaks a reference. */
  lemma RemoveSelectionsConsistent(s: Store, q: Row<Selection> -> bool)
    requires Consistent(s)
    ensures Consistent(s.(selections := Remove(s.selections, q)))
  {
    var sel := Remove(s.selections, q);
    forall x | x in sel.rows
      ensures SelectionFits(s, x.data)
    {
      assert x in s.selections.rows;
    }
    ConsistentWithSelections(s, sel);
  }

  /** Rewriting a value in place for the same record and field, with an
      option of that field (if any). */
  lemma UpdateValueConsistent(s: Store, cur: Row<Value>, d: Value)
    requires Consistent(s) && cur in s.values.rows
    requires d.recordId == cur.data.recordId && d.fieldId == cur.data.fieldId && OptionFits(s, d)
    ensures Consistent(s.(values := Update(s.values, cur.id, d)))
  {
    var r := s.(values := Update(s.values, cur.id, d));
    UpdateValueValuesFit(s, cur, d);
    UpdateValueSelectionsFit(s, cur, d);
    assert r.selections == s.selections && r.options == s.options && r.fields == s.fields;
  }

  lemma UpdateValueValuesFit(s: Store, cur: Row<Value>, d: Value)
    requires Consistent(s) && cur in s.values.rows
    requires d.recordId == cur.data.recordId && d.fieldId == cur.data.fieldId && OptionFits(s, d)
    ensures var r := s.(values := Update(s.values, cur.id, d));
      forall x | x in r.values.rows ::
        Has(r.records, x.data.recordId) && Has(r.fields, x.data.fieldId) && OptionFits(r, x.data)
  {
    var r := s.(values := Update(s.values, cur.id, d));
    var rows := r.values.rows;
    forall x | x in rows
      ensures Has(r.records, x.data.recordId) && Has(r.fields, x.data.fieldId) && OptionFits(r, x.data)
    {
      SetRowFrom(s.values.rows, cur.id, d, x);
      if x !in s.values.rows {
        assert x.data == d;
      }
    }
  }

  /** Every row after an UPDATE is an old row or the rewritten one. */
  lemma SetRowFrom<T>(rows: seq<Row<T>>, id: nat, d: T, x: Row<T>)
    requires x in Set(rows, id, d)
    ensures x in rows || x == Row(id, d)
  {
    var i :| 0 <= i < |rows| && Set(rows, id, d)[i] == x;
  }

  lemma UpdateValueSelectionsFit(s: Store, cur: Row<Value>, d: Value)
    requires Consistent(s) && cur in s.values.rows
    requires d.fieldId == cur.data.fieldId
    ensures forall x | x in s.selections.rows :: SelectionFits(s.(values := Update(s.values, cur.id, d)), x.data)
  {
    var r := s.(values := Update(s.values, cur.id, d));
    forall x | x in s.selections.rows
      ensures SelectionFits(r, x.data)
    {
      assert SelectionFits(s, x.data);
      var v, o :| v in s.values.rows && o in s.options.rows &&
        v.id == x.data.valueId && o.id == x.data.optionId && o.data.fieldId == v.data.fieldId;
      var w := SetKeepsField(s.values.rows, cur, d, v);
      assert w in r.values.rows && o in r.options.rows;
    }
  }

  /** Rewriting one row's data without changing its field keeps every row's
      id and field. */
  lemma SetKeepsField(rows: seq<Row<Value>>, cur: Row<Value>, d: Value, v: Row<Value>) returns (w: Row<Value>)
    requires Ascending(rows) && cur in rows && v in rows && d.fieldId == cur.data.fieldId
    ensures w in Set(rows, cur.id, d) && w.id == v.id && w.data.fieldId == v.data.fieldId
  {
    var i :| 0 <= i < |rows| && rows[i] == v;
    if v.id == cur.id {
      SameIdSameRow(rows, v, cur);
    }
    w := Set(rows, cur.id, d)[i];
  }

  /** Every option a successful `Picks` returns is an option of the field. */
  lemma PicksOptionOf(options: Table<FieldOption>, fid: nat, name: string, xs: seq<string>)
    requires Picks(options, fid, name, xs).Ok?
    ensures forall j | 0 <= j < |xs| :: OptionOf(options, Picks(options, fid, name, xs).value[j], fid)
  {
    var oids := Picks(options, fid, name, xs).value;
    forall j | 0 <= j < |xs|
      ensures OptionOf(options, oids[j], fid)
    {
      var o := MatchOption(options, fid, xs[j]).value;
      assert o in options.rows && o.id == oids[j] && o.data.fieldId == fid;
    }
  }

  /** The row a branch works on, when there is one, is a value of the
      record's field `fid`. */
  ghost predicate CurrentFits(s: Store, fid: nat, current: Option<Row<Value>>) {
    current.Some? ==> current.value in s.values.rows && current.value.data.fieldId == fid
  }

  /** The multi-select branch keeps the store consistent. */
  lemma WriteSelectionsConsistent(s: Store, rid: nat, fid: nat, name: string, values: Option<seq<string>>,
                                  current: Option<Row<Value>>)
    requires Consistent(s) && Has(s.records, rid) && Has(s.fields, fid) && CurrentFits(s, fid, current)
    requires WriteSelections(s, rid, fid, name, values, current).Ok?
    ensures Consistent(WriteSelections(s, rid, fid, name, values, current).value)
  {
    if !EmptyList(values) {
      PicksOptionOf(s.options, fid, name, values.value);
      var oids := Picks(s.options, fid, name, values.value).value;
      if current.None? {
        NewSelectionsConsistent(s, rid, fid, oids);
      } else {
        ReplacedSelectionsConsistent(s, current.value, oids);
      }
    } else if current.Some? {
      DropValuesConsistent(s, WithId(current.value.id));
    }
  }

  /** A new value with no text, then its selections. */
  lemma NewSelectionsConsistent(s: Store, rid: nat, fid: nat, oids: seq<nat>)
    requires Consistent(s) && Has(s.records, rid) && Has(s.fields, fid)
    requires forall j | 0 <= j < |oids| :: OptionOf(s.options, oids[j], fid)
    ensures Consistent(Pick(s.(values := Insert(s.values, Value(rid, fid, None, None))), s.values.nextId, oids))
  {
    var v := Value(rid, fid, None, None);
    var s1 := s.(values := Insert(s.values, v));
    InsertValueConsistent(s, v);
    assert Row(s.values.nextId, v) in s1.values.rows;
    PickConsistent(s1, Row(s.values.nextId, v), oids);
  }

  /** The value's old selections go, then its new ones are added. */
  lemma ReplacedSelectionsConsistent(s: Store, v: Row<Value>, oids: seq<nat>)
    requires Consistent(s) && v in s.values.rows
    requires forall j | 0 <= j < |oids| :: OptionOf(s.options, oids[j], v.data.fieldId)
    ensures Consistent(Pick(s.(selections := Remove(s.selections, SelectionsOf({v.id}))), v.id, oids))
  {
    var s1 := s.(selections := Remove(s.selections, SelectionsOf({v.id})));
    RemoveSelectionsConsistent(s, SelectionsOf({v.id}));
    PickConsistent(s1, v, oids);
  }

  /** The single-value branch keeps the store consistent: a choice field's
      value points at an option of that field. */
  lemma WriteTextConsistent(s: Store, rid: nat, fid: nat, f: Field, value: Option<string>,
                            current: Option<Row<Value>>)
    requires Consistent(s) && Has(s.records, rid) && Has(s.fields, fid) && CurrentFits(s, fid, current)
    requires current.Some? ==> current.value.data.recordId == rid
    requires WriteText(s, rid, fid, f, value, current).Ok?
    ensures Consistent(WriteText(s, rid, fid, f, value, current).value)
  {
    if !EmptyText(value) {
      var matched := MatchOption(s.options, fid, value.value);
      var optionId := if IsChoice(f.fieldType) then Some(matched.value.id) else None;
      if current.None? {
        InsertValueConsistent(s, Value(rid, fid, value, optionId));
      } else {
        var prior := current.value;
        assert OptionFits(s, prior.data);
        UpdateValueConsistent(s, prior, Edited(prior.data, value, optionId));
      }
    } else if current.Some? {
      DropValuesConsistent(s, WithId(current.value.id));
    }
  }

  /** The value `update` works on for a slot is one of that record's
      values for that field. */
  lemma CurrentOfSlot(s: Store, rid: nat, fid: nat)
    ensures CurrentFits(s, fid, First(s.values.rows, Slot(rid, fid)))
    ensures First(s.values.rows, Slot(rid, fid)).Some? ==>
      First(s.values.rows, Slot(rid, fid)).value.data.recordId == rid
  {
  }

  /** One entry of `store` keeps the store consistent. */
  lemma StoreEntryConsistent(s: Store, rid: nat, e: Entry)
    requires Consistent(s) && Has(s.records, rid) && StoreEntry(s, rid, e).Ok?
    ensures Consistent(StoreEntry(s, rid, e).value)
  {
    var f := Lookup(s.fields.rows, e.fieldId).value;
    if IsMultiSelect(f) {
      WriteSelectionsConsistent(s, rid, e.fieldId, f.fieldName, e.values, None);
    } else {
      WriteTextConsistent(s, rid, e.fieldId, f, e.value, None);
    }
  }

  /** One entry of `update` keeps the store consistent. */
  lemma UpdateEntryConsistent(s: Store, rid: nat, e: Entry)
    requires Consistent(s) && Has(s.records, rid) && UpdateEntry(s, rid, e).Ok?
    ensures Consistent(UpdateEntry(s, rid, e).value)
  {
    var f := Lookup(s.fields.rows, e.fieldId).value;
    var current := First(s.values.rows, Slot(rid, e.fieldId));
    CurrentOfSlot(s, rid, e.fieldId);
    if IsMultiSelect(f) {
      WriteSelectionsConsistent(s, rid, e.fieldId, f.fieldName, e.values, current);
    } else {
      WriteTextConsistent(s, rid, e.fieldId, f, e.value, current);
    }
  }

  /** The loop of `store` keeps the store consistent. */
  lemma {:induction false} StoreEntriesConsistent(s: Store, rid: nat, es: seq<Entry>)
    requires Consistent(s) && Has(s.records, rid) && StoreEntries(s, rid, es).Ok?
    ensures Consistent(StoreEntries(s, rid, es).value)
    decreases |es|
  {
    if |es| > 0 {
      var s1 := StoreEntry(s, rid, es[0]).value;
      assert StoreEntries(s, rid, es) == StoreEntries(s1, rid, es[1..]);
      StoreEntryConsistent(s, rid, es[0]);
      StoreEntriesConsistent(s1, rid, es[1..]);
    }
  }

  /** The loop of `update` keeps the store consistent. */
  lemma {:induction false} UpdateEntriesConsistent(s: Store, rid: nat, es: seq<Entry>)
    requires Consistent(s) && Has(s.records, rid) && UpdateEntries(s, rid, es).Ok?
    ensures Consistent(UpdateEntries(s, rid, es).value)
    decreases |es|
  {
    if |es| > 0 {
      var s1 := UpdateEntry(s, rid, es[0]).value;
      assert UpdateEntries(s, rid, es) == UpdateEntries(s1, rid, es[1..]);
      UpdateEntryConsistent(s, rid, es[0]);
      UpdateEntriesConsistent(s1, rid, es[1..]);
    }
  }

  /** `store` keeps the database consistent. */
  lemma StoreRecordConsistent(s: Store, req: RecordInput)
    requires Consistent(s) && StoreRecord(s, req).Ok?
    ensures Consistent(StoreRecord(s, req).value)
  {
    var t := req.templateId.v;
    var s1 := s.(records := Insert(s.records, Record(t)));
    InsertRecordConsistent(s, t);
    InsertIds(s.records, Record(t));
    StoreEntriesConsistent(s1, s.records.nextId, EntriesOf(req.fields.v));
  }

  /** `update` keeps the database consistent. */
  lemma UpdateRecordConsistent(s: Store, rid: nat, fields: Input<seq<EntryInput>>)
    requires Consistent(s) && UpdateRecord(s, rid, fields).Ok?
    ensures Consistent(UpdateRecord(s, rid, fields).value)
  {
    UpdateEntriesConsistent(s, rid, EntriesOf(fields.v));
  }

  /** `destroy` keeps the database consistent: nothing is left pointing at
      the deleted record or its values. */
  lemma DestroyRecordConsistent(s: Store, rid: nat)
    requires Consistent(s) && DestroyRecord(s, rid).Ok?
    ensures Consistent(DestroyRecord(s, rid).value)
  {
    var s1 := DropValues(s, ValuesOfRecord(rid));
    DropValuesConsistent(s, ValuesOfRecord(rid));
    ConsistentWithoutRecord(s1, rid);
  }

  /** `destroy` leaves every other record's answers alone. */
  lemma DestroyRecordOtherSlot(s: Store, rid: nat, g: nat, fid: nat)
    requires DestroyRecord(s, rid).Ok? && g != rid
    ensures GetFieldValue(DestroyRecord(s, rid).value, g, fid) == GetFieldValue(s, g, fid)
  {
    var r := DestroyRecord(s, rid).value;
    WhereDropDisjoint(s.values.rows, Slot(g, fid), ValuesOfRecord(rid));
    GetFieldValueSlot(s, r, g, fid);
  }

  // Why one entry fails.

  /** An entry for a required field that is empty in PHP's sense in both
      `value` and `values` fails with "Field <name> is required", in
      `store` and in `update` alike. */
  lemma RequiredEmptyRejected(s: Store, rid: nat, e: Entry, f: Field)
    requires Lookup(s.fields.rows, e.fieldId) == Some(f)
    requires f.isRequired && EmptyText(e.value) && EmptyList(e.values)
    ensures StoreEntry(s, rid, e) == Err(RequiredFieldMissing(f.fieldName))
    ensures UpdateEntry(s, rid, e) == Err(RequiredFieldMissing(f.fieldName))
  {
  }

  /** A single-value entry for a choice field whose text no option of that
      field offers fails, in `store` and in `update` alike. */
  lemma UnofferedChoiceRejected(s: Store, rid: nat, e: Entry, f: Field)
    requires Lookup(s.fields.rows, e.fieldId) == Some(f) && !IsMultiSelect(f) && IsChoice(f.fieldType)
    requires !EmptyText(e.value)
    requires forall o | o in s.options.rows :: !(o.data.fieldId == e.fieldId && o.data.optionValue == e.value.value)
    ensures StoreEntry(s, rid, e) == Err(InvalidOptionValue(f.fieldName, None))
    ensures UpdateEntry(s, rid, e) == Err(InvalidOptionValue(f.fieldName, None))
  {
  }

  /** A multi-select entry fails as soon as one of its values is offered
      by no option of the field; the error names the first such value. */
  lemma UnofferedSelectionRejected(s: Store, rid: nat, e: Entry, f: Field, j: nat)
    requires Lookup(s.fields.rows, e.fieldId) == Some(f) && IsMultiSelect(f)
    requires e.values.Some? && j < |e.values.value|
    requires forall o | o in s.options.rows :: !(o.data.fieldId == e.fieldId && o.data.optionValue == e.values.value[j])
    ensures StoreEntry(s, rid, e).Err? && UpdateEntry(s, rid, e).Err?
    ensures exists i | 0 <= i <= j :: StoreEntry(s, rid, e) == Err(InvalidOptionValue(f.fieldName, Some(e.values.value[i])))
  {
    var xs := e.values.value;
    assert MatchOption(s.options, e.fieldId, xs[j]).None?;
    var i := FirstFailing(xs, Offered(s.options, e.fieldId), 0);
    assert i <= j;
  }

  /** In `store`, an entry that is empty in PHP's sense (null, "", "0" or
      [] for a multi-select) writes nothing. */
  lemma StoreEntryEmptySkips(s: Store, rid: nat, e: Entry, f: Field)
    requires StoreEntry(s, rid, e).Ok? && Lookup(s.fields.rows, e.fieldId) == Some(f)
    requires if IsMultiSelect(f) then EmptyList(e.values) else EmptyText(e.value)
    ensures StoreEntry(s, rid, e) == Ok(s)
  {
  }

  /** The entry `{field_id, value: "0"}` passes the request rules, yet
      `store` and `update` read its value as missing: for a required
      field the request fails with "Field <name> is required", and for an
      optional single-value field `store` writes nothing. */
  lemma ZeroValueIsMissing(s: Store, rid: nat, fid: nat, f: Field)
    requires Lookup(s.fields.rows, fid) == Some(f)
    ensures ValidEntryInput(s.fields, EntryInput(Given(fid), Some("0"), Absent))
    ensures f.isRequired ==>
      StoreEntry(s, rid, EntryOf(EntryInput(Given(fid), Some("0"), Absent))) == Err(RequiredFieldMissing(f.fieldName))
    ensures f.isRequired ==>
      UpdateEntry(s, rid, EntryOf(EntryInput(Given(fid), Some("0"), Absent))) == Err(RequiredFieldMissing(f.fieldName))
    ensures !f.isRequired && !IsMultiSelect(f) ==>
      StoreEntry(s, rid, EntryOf(EntryInput(Given(fid), Some("0"), Absent))) == Ok(s)
  {
    ZeroIsFilledButEmpty();
    var e := EntryOf(EntryInput(Given(fid), Some("0"), Absent));
    if f.isRequired {
      RequiredEmptyRejected(s, rid, e, f);
    }
  }

  // What one entry writes.

  /** A value inserted into an empty slot is then the slot's only value. */
  lemma InsertedSlot(s: Store, rid: nat, fid: nat, v: Value)
    requires Where(s.values.rows, Slot(rid, fid)) == []
    requires v.recordId == rid && v.fieldId == fid
    ensures Where(Insert(s.values, v).rows, Slot(rid, fid)) == [Row(s.values.nextId, v)]
  {
    var p := Slot(rid, fid);
    var added := Row(s.values.nextId, v);
    assert Insert(s.values, v).rows == s.values.rows + [added];
    assert Where([added], p) == [added];
    WhereConcat(s.values.rows, [added], p);
  }

  /** A single-value entry of `store` with a non-empty value creates
      exactly one value for the record and field, holding the submitted
      text verbatim; a choice field's value also points at the first
      option of that field offering exactly that text, any other field's
      value at no option. */
  lemma StoreEntryText(s: Store, rid: nat, e: Entry, f: Field)
    requires StoreEntry(s, rid, e).Ok? && Where(s.values.rows, Slot(rid, e.fieldId)) == []
    requires Lookup(s.fields.rows, e.fieldId) == Some(f) && !IsMultiSelect(f) && !EmptyText(e.value)
    ensures var w := Where(StoreEntry(s, rid, e).value.values.rows, Slot(rid, e.fieldId));
      |w| == 1 && w[0].id == s.values.nextId && w[0].data.text == e.value
    ensures var w := Where(StoreEntry(s, rid, e).value.values.rows, Slot(rid, e.fieldId));
      !IsChoice(f.fieldType) ==> w[0].data.optionId.None?
    ensures var w := Where(StoreEntry(s, rid, e).value.values.rows, Slot(rid, e.fieldId));
      IsChoice(f.fieldType) ==>
        MatchOption(s.options, e.fieldId, e.value.value).Some? &&
        w[0].data.optionId == Some(MatchOption(s.options, e.fieldId, e.value.value).value.id)
  {
    var matched := MatchOption(s.options, e.fieldId, e.value.value);
    var optionId := if IsChoice(f.fieldType) then Some(matched.value.id) else None;
    InsertedSlot(s, rid, e.fieldId, Value(rid, e.fieldId, e.value, optionId));
  }

  /** A multi-select entry of `store` with non-empty `values` creates
      exactly one value for the record and field, with no text, and
      appends one selection of that value per submitted entry, in order
      and with duplicates kept, each naming the first option of the field
      offering that entry. */
  lemma StoreEntryMulti(s: Store, rid: nat, e: Entry, f: Field)
    requires StoreEntry(s, rid, e).Ok? && Where(s.values.rows, Slot(rid, e.fieldId)) == []
    requires Lookup(s.fields.rows, e.fieldId) == Some(f) && IsMultiSelect(f) && !EmptyList(e.values)
    ensures Where(StoreEntry(s, rid, e).value.values.rows, Slot(rid, e.fieldId))
         == [Row(s.values.nextId, Value(rid, e.fieldId, None, None))]
    ensures var rows := StoreEntry(s, rid, e).value.selections.rows;
      |rows| == |s.selections.rows| + |e.values.value| && rows[..|s.selections.rows|] == s.selections.rows
    ensures var rows := StoreEntry(s, rid, e).value.selections.rows;
      forall j | 0 <= j < |e.values.value| ::
        MatchOption(s.options, e.fieldId, e.values.value[j]).Some? &&
        rows[|s.selections.rows| + j] == Row(s.selections.nextId + j,
          Selection(s.values.nextId, MatchOption(s.options, e.fieldId, e.values.value[j]).value.id))
  {
    var xs := e.values.value;
    var oids := Picks(s.options, e.fieldId, f.fieldName, xs).value;
    var vid := s.values.nextId;
    InsertedSlot(s, rid, e.fieldId, Value(rid, e.fieldId, None, None));
    var rows := StoreEntry(s, rid, e).value.selections.rows;
    var added := Numbered(s.selections.nextId, SelectionsFor(vid, oids));
    assert rows == s.selections.rows + added;
    forall j | 0 <= j < |xs|
      ensures rows[|s.selections.rows| + j] == Row(s.selections.nextId + j, Selection(vid, oids[j]))
    {
      assert added[j] == Row(s.selections.nextId + j, SelectionsFor(vid, oids)[j]);
    }
  }

  /** A multi-select entry of `update` with non-empty `values` on a record
      that already answers the field keeps the value and replaces its
      selections: afterwards they are exactly one per submitted entry, in
      order, each naming the first option of the field offering it. */
  lemma UpdateEntryMultiReplaces(s: Store, rid: nat, e: Entry, f: Field, cur: Row<Value>)
    requires UpdateEntry(s, rid, e).Ok? && First(s.values.rows, Slot(rid, e.fieldId)) == Some(cur)
    requires Lookup(s.fields.rows, e.fieldId) == Some(f) && IsMultiSelect(f) && !EmptyList(e.values)
    ensures UpdateEntry(s, rid, e).value.values == s.values
    ensures var w := Where(UpdateEntry(s, rid, e).value.selections.rows, SelectionsOf({cur.id}));
      |w| == |e.values.value| &&
      forall j | 0 <= j < |w| ::
        MatchOption(s.options, e.fieldId, e.values.value[j]).Some? &&
        w[j].data == Selection(cur.id, MatchOption(s.options, e.fieldId, e.values.value[j]).value.id)
  {
    var xs := e.values.value;
    var oids := Picks(s.options, e.fieldId, f.fieldName, xs).value;
    var r := Pick(s.(selections := Remove(s.selections, SelectionsOf({cur.id}))), cur.id, oids);
    assert UpdateEntry(s, rid, e).value == r;
    ReplacedSelectionsOf(s.selections, cur.id, oids);
    var added := Numbered(s.selections.nextId, SelectionsFor(cur.id, oids));
    forall j | 0 <= j < |xs|
      ensures added[j].data == Selection(cur.id, oids[j])
    {
      assert added[j] == Row(s.selections.nextId + j, SelectionsFor(cur.id, oids)[j]);
    }
  }

  /** After the old selections of value `vid` go and new ones are added,
      the value's selections are exactly the new ones. */
  lemma ReplacedSelectionsOf(sel: Table<Selection>, vid: nat, oids: seq<nat>)
    ensures Where(InsertAll(Remove(sel, SelectionsOf({vid})), SelectionsFor(vid, oids)).rows, SelectionsOf({vid}))
         == Numbered(sel.nextId, SelectionsFor(vid, oids))
  {
    var q := SelectionsOf({vid});
    var kept := Remove(sel, q).rows;
    var added := Numbered(sel.nextId, SelectionsFor(vid, oids));
    assert InsertAll(Remove(sel, q), SelectionsFor(vid, oids)).rows == kept + added;
    WhereNone(kept, q);
    forall x | x in added
      ensures q(x)
    {
      var j :| 0 <= j < |added| && added[j] == x;
    }
    WhereAll(added, q);
    WhereConcat(kept, added, q);
  }

  /** An entry of `update` that is empty in PHP's sense, on a record that
      answers the field, deletes the record's first value for the field
      together with that value's selections, and no other value. */
  lemma UpdateEntryEmptyDrops(s: Store, rid: nat, e: Entry, f: Field, cur: Row<Value>)
    requires Valid(s.values) && UpdateEntry(s, rid, e).Ok? && First(s.values.rows, Slot(rid, e.fieldId)) == Some(cur)
    requires Lookup(s.fields.rows, e.fieldId) == Some(f)
    requires if IsMultiSelect(f) then EmptyList(e.values) else EmptyText(e.value)
    ensures cur !in UpdateEntry(s, rid, e).value.values.rows
    ensures forall x | x in s.values.rows && x.id != cur.id :: x in UpdateEntry(s, rid, e).value.values.rows
    ensures forall x | x in UpdateEntry(s, rid, e).value.selections.rows :: x.data.valueId != cur.id
  {
    var r := DropValues(s, WithId(cur.id));
    assert UpdateEntry(s, rid, e).value == r;
    assert cur in Where(s.values.rows, WithId(cur.id));
    assert cur.id in Ids(Where(s.values.rows, WithId(cur.id)));
  }

  /** getFieldValue never looks at selections: right after `store` answers
      a multi-select, the field reads as null. */
  lemma StoreMultiReadsNull(s: Store, rid: nat, e: Entry, f: Field)
    requires StoreEntry(s, rid, e).Ok? && Where(s.values.rows, Slot(rid, e.fieldId)) == []
    requires Lookup(s.fields.rows, e.fieldId) == Some(f) && IsMultiSelect(f) && !EmptyList(e.values)
    ensures GetFieldValue(StoreEntry(s, rid, e).value, rid, e.fieldId).None?
  {
    StoreEntryMulti(s, rid, e, f);
    GetFieldValueFirst(StoreEntry(s, rid, e).value, rid, e.fieldId);
  }

  // Repeating an update.

  /** Re-running the single-value branch after a run that inserted a
      value finds that value and leaves it as it is. */
  lemma InsertedTextAgain(s: Store, rid: nat, fid: nat, value: Option<string>, optionId: Option<nat>)
    requires Valid(s.values) && First(s.values.rows, Slot(rid, fid)).None?
    ensures var v := Value(rid, fid, value, optionId);
      var r := s.(values := Insert(s.values, v));
      First(r.values.rows, Slot(rid, fid)) == Some(Row(s.values.nextId, v)) &&
      r.(values := Update(r.values, s.values.nextId, Edited(v, value, optionId))) == r
  {
    var v := Value(rid, fid, value, optionId);
    var t := Insert(s.values, v);
    assert Where(s.values.rows, Slot(rid, fid)) == [];
    InsertedSlot(s, rid, fid, v);
    assert Edited(v, value, optionId) == v;
    forall x | x in t.rows && x.id == s.values.nextId
      ensures x.data == v
    {
      SameIdSameRow(t.rows, x, Row(s.values.nextId, v));
    }
    SetUnchanged(t.rows, s.values.nextId, v);
  }

  /** Re-running the single-value branch after a run that edited the
      slot's first value finds that value and leaves it as it is. */
  lemma EditedTextAgain(s: Store, rid: nat, fid: nat, cur: Row<Value>, value: Option<string>, optionId: Option<nat>)
    requires First(s.values.rows, Slot(rid, fid)) == Some(cur)
    ensures var d := Edited(cur.data, value, optionId);
      var r := s.(values := Update(s.values, cur.id, d));
      First(r.values.rows, Slot(rid, fid)) == Some(Row(cur.id, d)) &&
      r.(values := Update(r.values, cur.id, Edited(d, value, optionId))) == r
  {
    var d := Edited(cur.data, value, optionId);
    var rows := Set(s.values.rows, cur.id, d);
    FirstSet(s.values.rows, cur.id, d, Slot(rid, fid));
    assert Edited(d, value, optionId) == d;
    SetHolds(s.values.rows, cur.id, d);
    SetUnchanged(rows, cur.id, d);
  }

  /** The single-value branch is idempotent when the record held at most
      one value for the field: a second run changes nothing. */
  lemma WriteTextIdempotent(s: Store, rid: nat, fid: nat, f: Field, value: Option<string>, current: Option<Row<Value>>)
    requires Valid(s.values) && current == First(s.values.rows, Slot(rid, fid))
    requires |Where(s.values.rows, Slot(rid, fid))| <= 1
    requires WriteText(s, rid, fid, f, value, current).Ok?
    ensures var r := WriteText(s, rid, fid, f, value, current).value;
      WriteText(r, rid, fid, f, value, First(r.values.rows, Slot(rid, fid))) == Ok(r)
  {
    if !EmptyText(value) {
      var matched := MatchOption(s.options, fid, value.value);
      var optionId := if IsChoice(f.fieldType) then Some(matched.value.id) else None;
      if current.None? {
        InsertedTextAgain(s, rid, fid, value, optionId);
      } else {
        EditedTextAgain(s, rid, fid, current.value, value, optionId);
      }
    } else if current.Some? {
      var r := DropValues(s, WithId(current.value.id));
      DropOnlyValue(s, rid, fid, current.value);
      assert First(r.values.rows, Slot(rid, fid)).None?;
    }
  }

  /** Sending the same single-value entry to `update` twice in a row is
      the same as sending it once, when the record held at most one value
      for the field. */
  lemma UpdateEntryIdempotent(s: Store, rid: nat, e: Entry, f: Field)
    requires Valid(s.values) && UpdateEntry(s, rid, e).Ok?
    requires Lookup(s.fields.rows, e.fieldId) == Some(f) && !IsMultiSelect(f)
    requires |Where(s.values.rows, Slot(rid, e.fieldId))| <= 1
    ensures UpdateEntry(UpdateEntry(s, rid, e).value, rid, e) == UpdateEntry(s, rid, e)
  {
    var current := First(s.values.rows, Slot(rid, e.fieldId));
    var r := WriteText(s, rid, e.fieldId, f, e.value, current).value;
    assert UpdateEntry(s, rid, e) == Ok(r);
    WriteTextIdempotent(s, rid, e.fieldId, f, e.value, current);
  }

  /** Whether the single-value branch would leave a store as it is
      depends only on the slot and the field's options. */
  lemma WriteTextSettledFrame(a: Store, b: Store, rid: nat, fid: nat, f: Field, value: Option<string>)
    requires Valid(b.values) && a.options == b.options
    requires Where(a.values.rows, Slot(rid, fid)) == Where(b.values.rows, Slot(rid, fid))
    requires WriteText(a, rid, fid, f, value, First(a.values.rows, Slot(rid, fid))) == Ok(a)
    ensures WriteText(b, rid, fid, f, value, First(b.values.rows, Slot(rid, fid))) == Ok(b)
  {
    var current := First(a.values.rows, Slot(rid, fid));
    assert current == First(b.values.rows, Slot(rid, fid));
    if !EmptyText(value) {
      var matched := MatchOption(a.options, fid, value.value);
      var optionId := if IsChoice(f.fieldType) then Some(matched.value.id) else None;
      if current.None? {
        assert false;
      } else {
        var cur := current.value;
        var d := Edited(cur.data, value, optionId);
        var i :| 0 <= i < |a.values.rows| && a.values.rows[i] == cur;
        assert Set(a.values.rows, cur.id, d)[i] == Row(cur.id, d);
        forall x | x in b.values.rows && x.id == cur.id
          ensures x.data == d
        {
          SameIdSameRow(b.values.rows, x, cur);
        }
        SetUnchanged(b.values.rows, cur.id, d);
      }
    } else if current.Some? {
      assert false;
    }
  }

  /** Whether a single-value entry would leave a store as it is depends
      only on its slot and on the field definitions and options. */
  lemma UpdateEntrySettledFrame(a: Store, b: Store, rid: nat, e: Entry, f: Field)
    requires Valid(b.values) && a.fields == b.fields && a.options == b.options
    requires Lookup(a.fields.rows, e.fieldId) == Some(f) && !IsMultiSelect(f)
    requires Where(a.values.rows, Slot(rid, e.fieldId)) == Where(b.values.rows, Slot(rid, e.fieldId))
    requires UpdateEntry(a, rid, e) == Ok(a)
    ensures UpdateEntry(b, rid, e) == Ok(b)
  {
    if !(f.isRequired && EmptyText(e.value) && EmptyList(e.values)) {
      WriteTextSettledFrame(a, b, rid, e.fieldId, f, e.value);
    }
  }

  /** The update loop keeps the values table well formed. */
  lemma {:induction false} UpdateEntriesValid(s: Store, rid: nat, es: seq<Entry>)
    requires Valid(s.values) && UpdateEntries(s, rid, es).Ok?
    ensures Valid(UpdateEntries(s, rid, es).value.values)
    decreases |es|
  {
    if |es| > 0 {
      var s1 := UpdateEntry(s, rid, es[0]).value;
      assert UpdateEntries(s, rid, es) == UpdateEntries(s1, rid, es[1..]);
      UpdateEntryValid(s, rid, es[0]);
      UpdateEntriesValid(s1, rid, es[1..]);
    }
  }

  /** The entry names a single-value field for which the record holds at
      most one value. */
  predicate PlainSlot(s: Store, rid: nat, e: Entry) {
    && Lookup(s.fields.rows, e.fieldId).Some?
    && !IsMultiSelect(Lookup(s.fields.rows, e.fieldId).value)
    && |Where(s.values.rows, Slot(rid, e.fieldId))| <= 1
  }

  /** After the update loop over entries for distinct single-value fields,
      each holding at most one value, every one of those entries would
      leave the result as it is. */
  lemma {:induction false} UpdateEntriesSettle(s: Store, rid: nat, es: seq<Entry>)
    requires Valid(s.values) && UpdateEntries(s, rid, es).Ok?
    requires forall i | 0 <= i < |es| :: Unique(es, i) && PlainSlot(s, rid, es[i])
    ensures forall i | 0 <= i < |es| ::
      UpdateEntry(UpdateEntries(s, rid, es).value, rid, es[i]) == Ok(UpdateEntries(s, rid, es).value)
    decreases |es|
  {
    if |es| > 0 {
      var f := Lookup(s.fields.rows, es[0].fieldId).value;
      var s1 := UpdateEntry(s, rid, es[0]).value;
      var rest := es[1..];
      var r := UpdateEntries(s, rid, es).value;
      assert UpdateEntries(s, rid, es) == UpdateEntries(s1, rid, rest);
      assert forall j | 0 <= j < |rest| :: rest[j] == es[j + 1];
      UpdateEntryValid(s, rid, es[0]);
      forall j | 0 <= j < |rest|
        ensures Unique(rest, j) && PlainSlot(s1, rid, rest[j])
      {
        assert Unique(es, j + 1);
        UpdateEntryOtherSlot(s, rid, es[0], rid, rest[j].fieldId);
      }
      UpdateEntriesSettle(s1, rid, rest);
      UpdateEntryIdempotent(s, rid, es[0], f);
      UpdateEntriesValid(s1, rid, rest);
      assert Unique(es, 0);
      UpdateEntriesOtherSlot(s1, rid, rest, rid, es[0].fieldId);
      UpdateEntrySettledFrame(s1, r, rid, es[0], f);
      assert forall i | 1 <= i < |es| :: es[i] == rest[i - 1];
    }
  }

  /** A loop whose every entry would leave the store as it is leaves it as it is. */
  lemma {:induction false} UpdateEntriesFixed(s: Store, rid: nat, es: seq<Entry>)
    requires forall i | 0 <= i < |es| :: UpdateEntry(s, rid, es[i]) == Ok(s)
    ensures UpdateEntries(s, rid, es) == Ok(s)
    decreases |es|
  {
    if |es| > 0 {
      assert forall j | 0 <= j < |es| - 1 :: es[1..][j] == es[j + 1];
      UpdateEntriesFixed(s, rid, es[1..]);
    }
  }

  /** Sending the same `update` request twice is the same as sending it
      once, when its entries name distinct single-value fields and the
      record held at most one value for each. */
  lemma UpdateRecordIdempotent(s: Store, rid: nat, fields: Input<seq<EntryInput>>)
    requires Valid(s.values) && UpdateRecord(s, rid, fields).Ok?
    requires forall i | 0 <= i < |EntriesOf(fields.v)| ::
      Unique(EntriesOf(fields.v), i) && PlainSlot(s, rid, EntriesOf(fields.v)[i])
    ensures UpdateRecord(UpdateRecord(s, rid, fields).value, rid, fields) == UpdateRecord(s, rid, fields)
  {
    var es := EntriesOf(fields.v);
    var r := UpdateRecord(s, rid, fields).value;
    UpdateEntriesSettle(s, rid, es);
    UpdateEntriesFixed(r, rid, es);
  }

  /** `update` never leaves a record with two values for a field it
      touches, when it had at most one. */
  lemma UpdateEntryAtMostOne(s: Store, rid: nat, e: Entry)
    requires Valid(s.values) && UpdateEntry(s, rid, e).Ok?
    requires |Where(s.values.rows, Slot(rid, e.fieldId))| <= 1
    ensures |Where(UpdateEntry(s, rid, e).value.values.rows, Slot(rid, e.fieldId))| <= 1
  {
    var fid := e.fieldId;
    var f := Lookup(s.fields.rows, fid).value;
    var current := First(s.values.rows, Slot(rid, fid));
    var r := UpdateEntry(s, rid, e).value;
    if current.None? {
      assert Where(s.values.rows, Slot(rid, fid)) == [];
      if IsMultiSelect(f) {
        WriteSelectionsAtMostOne(s, rid, fid, f.fieldName, e.values);
      } else if !EmptyText(e.value) {
        var matched := MatchOption(s.options, fid, e.value.value);
        var optionId := if IsChoice(f.fieldType) then Some(matched.value.id) else None;
        InsertedSlot(s, rid, fid, Value(rid, fid, e.value, optionId));
      }
    } else if (IsMultiSelect(f) && EmptyList(e.values)) || (!IsMultiSelect(f) && EmptyText(e.value)) {
      DropOnlyValue(s, rid, fid, current.value);
      WhereNone(r.values.rows, Slot(rid, fid));
    } else if !IsMultiSelect(f) {
      var matched := MatchOption(s.options, fid, e.value.value);
      var optionId := if IsChoice(f.fieldType) then Some(matched.value.id) else None;
      SlotOfId(s, rid, fid, current.value);
      WhereSetInside(s.values.rows, current.value.id, Edited(current.value.data, e.value, optionId), Slot(rid, fid));
    }
  }

  /** The multi-select branch on an empty slot leaves one value there. */
  lemma WriteSelectionsAtMostOne(s: Store, rid: nat, fid: nat, name: string, values: Option<seq<string>>)
    requires Where(s.values.rows, Slot(rid, fid)) == []
    requires WriteSelections(s, rid, fid, name, values, None).Ok?
    ensures |Where(WriteSelections(s, rid, fid, name, values, None).value.values.rows, Slot(rid, fid))| <= 1
  {
    if !EmptyList(values) {
      InsertedSlot(s, rid, fid, Value(rid, fid, None, None));
    }
  }

  /** In an id-ordered table, the rows sharing the id of a slot's value
      are that value, so they belong to the slot. */
  lemma SlotOfId(s: Store, rid: nat, fid: nat, cur: Row<Value>)
    requires Valid(s.values) && First(s.values.rows, Slot(rid, fid)) == Some(cur)
    ensures forall x | x in s.values.rows && x.id == cur.id :: Slot(rid, fid)(x)
  {
    forall x | x in s.values.rows && x.id == cur.id
      ensures Slot(rid, fid)(x)
    {
      SameIdSameRow(s.values.rows, x, cur);
    }
  }
}
