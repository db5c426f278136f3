/** The template controller: validation of template definitions, creation
    of a template with its fields and options, reading it back with its
    fields in display order, patching or replacing it, and deleting it
    while it owns no records. */
module Templates {
  import opened Results
  import opened Php
  import opened Tables
  import opened Schema
  import opened Display

  /** The `max:255` bound of the validator, in characters. */
  const MaxLength: nat := 255

  /** The spelling of each field type in requests. */
  function TypeName(t: FieldType): string {
    match t
    case Text => "text"
    case Number => "number"
    case Date => "date"
    case Boolean => "boolean"
    case Select => "select"
    case Radio => "radio"
    case Checkbox => "checkbox"
  }

  /** `in:text,select,radio,checkbox,date,number,boolean`: the one place
      where a request's type string becomes a field type. */
  function ParseFieldType(s: string): (r: Option<FieldType>)
    ensures r.Some? ==> TypeName(r.value) == s
    ensures forall t: FieldType :: TypeName(t) == s ==> r == Some(t)
  {
    if s == "text" then Some(Text)
    else if s == "number" then Some(Number)
    else if s == "date" then Some(Date)
    else if s == "boolean" then Some(Boolean)
    else if s == "select" then Some(Select)
    else if s == "radio" then Some(Radio)
    else if s == "checkbox" then Some(Checkbox)
    else None
  }

  datatype OptionInput = OptionInput(optionName: Input<string>, optionValue: Input<string>)

  datatype FieldInput = FieldInput(
    fieldName: Input<string>,
    fieldType: Input<string>,
    isRequired: Input<bool>,
    displayOrder: Input<int>,
    options: Input<seq<OptionInput>>)

  datatype TemplateInput = TemplateInput(
    name: Input<string>,
    description: Input<string>,
    fields: Input<seq<FieldInput>>)

  /** `required|string|max:255` */
  predicate RequiredShortText(i: Input<string>) {
    i.Given? && !Blank(i.v) && |i.v| <= MaxLength
  }

  /** `sometimes|string|max:255`: a blank string skips the rules that are not implicit. */
  predicate OptionalShortText(i: Input<string>) {
    i.Absent? || (i.Given? && (Blank(i.v) || |i.v| <= MaxLength))
  }

  /** `nullable|string` */
  predicate NullableText(i: Input<string>) {
    !i.Malformed?
  }

  predicate ValidOptionInput(o: OptionInput) {
    RequiredShortText(o.optionName) && RequiredShortText(o.optionValue)
  }

  /** `options`: required (so a non-empty array) for the choice types,
      otherwise nullable; each entry needs a short name and value. */
  predicate ValidOptionsInput(os: Input<seq<OptionInput>>, choice: bool) {
    match os
    case Given(xs) => (choice ==> |xs| > 0) && forall i | 0 <= i < |xs| :: ValidOptionInput(xs[i])
    case Malformed => false
    case _ => !choice
  }

  predicate ValidFieldInput(f: FieldInput) {
    && RequiredShortText(f.fieldName)
    && f.fieldType.Given? && ParseFieldType(f.fieldType.v).Some?
    && f.isRequired.Given?
    && f.displayOrder.Given? && f.displayOrder.v >= 0
    && ValidOptionsInput(f.options, IsChoice(ParseFieldType(f.fieldType.v).value))
  }

  /** `fields`: a non-empty array of valid field definitions. */
  predicate ValidFieldList(fs: Input<seq<FieldInput>>) {
    fs.Given? && |fs.v| >= 1 && forall i | 0 <= i < |fs.v| :: ValidFieldInput(fs.v[i])
  }

  /** The rules of `store`. */
  predicate ValidStoreInput(req: TemplateInput) {
    RequiredShortText(req.name) && NullableText(req.description) && ValidFieldList(req.fields)
  }

  /** The rules of `update`: every key is optional, but `fields`, when
      sent, is validated like in `store`. */
  predicate ValidUpdateInput(req: TemplateInput) {
    && OptionalShortText(req.name)
    && NullableText(req.description)
    && (req.fields.Absent? || ValidFieldList(req.fields))
  }

  /** `$validated['description'] ?? null` */
  function DescriptionOf(d: Input<string>): Option<string> {
    if d.Given? then Some(d.v) else None
  }

  /** A field definition as the validator hands it on. */
  datatype OptionDef = OptionDef(name: string, value: string)
  datatype FieldDef = FieldDef(
    fieldName: string,
    fieldType: FieldType,
    isRequired: bool,
    displayOrder: int,
    options: seq<OptionDef>)

  function TextOf(i: Input<string>): string {
    if i.Given? then i.v else ""
  }

  function OptionDefs(os: Input<seq<OptionInput>>): seq<OptionDef> {
    if os.Given? then
      var xs := os.v;
      seq(|xs|, k requires 0 <= k < |xs| => OptionDef(TextOf(xs[k].optionName), TextOf(xs[k].optionValue)))
    else []
  }

  /** The validated definition; the fall-backs never apply to a definition
      that passed `ValidFieldInput`. */
  function DefOf(f: FieldInput): FieldDef {
    FieldDef(
      TextOf(f.fieldName),
      if f.fieldType.Given? && ParseFieldType(f.fieldType.v).Some? then ParseFieldType(f.fieldType.v).value else Text,
      f.isRequired.Given? && f.isRequired.v,
      if f.displayOrder.Given? then f.displayOrder.v else 0,
      OptionDefs(f.options))
  }

  function DefsOf(fs: seq<FieldInput>): (r: seq<FieldDef>)
    ensures |r| == |fs|
    ensures forall i {:trigger r[i]} | 0 <= i < |fs| :: r[i] == DefOf(fs[i])
  {
    seq(|fs|, i requires 0 <= i < |fs| => DefOf(fs[i]))
  }

  function NewField(tid: nat, d: FieldDef): Field {
    Field(tid, d.fieldName, d.fieldType, d.isRequired, d.displayOrder, false)
  }

  function NewFields(tid: nat, ds: seq<FieldDef>): (r: seq<Field>)
    ensures |r| == |ds|
    ensures forall i {:trigger r[i]} | 0 <= i < |ds| :: r[i] == NewField(tid, ds[i])
  {
    seq(|ds|, i requires 0 <= i < |ds| => NewField(tid, ds[i]))
  }

  /** The field rows the creation loop appends for `ds`, from id `fid` on. */
  function NewFieldRows(fid: nat, tid: nat, ds: seq<FieldDef>): (r: seq<Row<Field>>)
    ensures |r| == |ds|
    ensures forall k {:trigger r[k]} | 0 <= k < |ds| :: r[k] == Row(fid + k, NewField(tid, ds[k]))
    decreases |ds|
  {
    if |ds| == 0 then [] else [Row(fid, NewField(tid, ds[0]))] + NewFieldRows(fid + 1, tid, ds[1..])
  }

  /** The options a field definition persists: those of a choice-typed
      field; options sent for any other type are dropped. */
  function NewOptions(fid: nat, d: FieldDef): (r: seq<FieldOption>) {
    if IsChoice(d.fieldType) then
      seq(|d.options|, k requires 0 <= k < |d.options| => FieldOption(fid, d.options[k].name, d.options[k].value))
    else []
  }

  /** The option rows the creation loop appends for `ds`, whose fields
      take ids from `fid` on and whose options take ids from `oid` on. */
  function NewOptionRows(oid: nat, fid: nat, ds: seq<FieldDef>): seq<Row<FieldOption>>
    decreases |ds|
  {
    if |ds| == 0 then []
    else
      var first := NewOptions(fid, ds[0]);
      Numbered(oid, first) + NewOptionRows(oid + |first|, fid + 1, ds[1..])
  }

  /** One pass of the creation loop: the field row, then its options. */
  function AddField(s: Store, tid: nat, d: FieldDef): Store {
    s.(fields := Insert(s.fields, NewField(tid, d)),
       options := InsertAll(s.options, NewOptions(s.fields.nextId, d)))
  }

  /** The creation loop shared by `store` and `update`: one field row per
      definition, in order, each followed by its options. */
  function AddFields(s: Store, tid: nat, ds: seq<FieldDef>): (r: Store)
    ensures r.fields.rows == s.fields.rows + NewFieldRows(s.fields.nextId, tid, ds)
    ensures r.fields.nextId == s.fields.nextId + |ds|
    ensures r.options.rows == s.options.rows + NewOptionRows(s.options.nextId, s.fields.nextId, ds)
    ensures r.templates == s.templates && r.records == s.records
    ensures r.values == s.values && r.selections == s.selections
    decreases |ds|
  {
    if |ds| == 0 then
      assert s.fields.rows + NewFieldRows(s.fields.nextId, tid, ds) == s.fields.rows;
      assert s.options.rows + NewOptionRows(s.options.nextId, s.fields.nextId, ds) == s.options.rows;
      s
    else
      var fid := s.fields.nextId;
      var s1 := AddField(s, tid, ds[0]);
      var r := AddFields(s1, tid, ds[1..]);
      AddFieldsStepFields(s.fields, tid, ds, s1.fields, r.fields.rows);
      AddFieldsStepOptions(s.options, fid, ds, s1.options, r.options.rows);
      r
  }

  /** The inductive step of `AddFields` for the field rows. */
  lemma AddFieldsStepFields(fields: Table<Field>, tid: nat, ds: seq<FieldDef>, f1: Table<Field>, rows: seq<Row<Field>>)
    requires |ds| > 0 && f1 == Insert(fields, NewField(tid, ds[0]))
    requires rows == f1.rows + NewFieldRows(f1.nextId, tid, ds[1..])
    ensures rows == fields.rows + NewFieldRows(fields.nextId, tid, ds)
  {
  }

  /** The inductive step of `AddFields` for the option rows. */
  lemma AddFieldsStepOptions(options: Table<FieldOption>, fid: nat, ds: seq<FieldDef>,
                             o1: Table<FieldOption>, rows: seq<Row<FieldOption>>)
    requires |ds| > 0 && o1 == InsertAll(options, NewOptions(fid, ds[0]))
    requires rows == o1.rows + NewOptionRows(o1.nextId, fid + 1, ds[1..])
    ensures rows == options.rows + NewOptionRows(options.nextId, fid, ds)
  {
    ConcatAssoc(options.rows, Numbered(options.nextId, NewOptions(fid, ds[0])), NewOptionRows(o1.nextId, fid + 1, ds[1..]));
  }



  /** The options persisted for one field definition all point at that field. */
  lemma AddedOptionsOwned(oid: nat, fid: nat, d: FieldDef)
    ensures forall x | x in Numbered(oid, NewOptions(fid, d)) :: x.data.fieldId == fid
  {
    var added := Numbered(oid, NewOptions(fid, d));
    forall x | x in added
      ensures x.data.fieldId == fid
    {
      var k :| 0 <= k < |added| && added[k] == x;
    }
  }

  /** The option rows of a batch all point at the batch's fields. */
  lemma {:induction false} NewOptionRowsOwned(oid: nat, fid: nat, ds: seq<FieldDef>)
    ensures forall x | x in NewOptionRows(oid, fid, ds) :: fid <= x.data.fieldId < fid + |ds|
    decreases |ds|
  {
    if |ds| > 0 {
      var first := NewOptions(fid, ds[0]);
      NewOptionRowsOwned(oid + |first|, fid + 1, ds[1..]);
      AddedOptionsOwned(oid, fid, ds[0]);
    }
  }

  /** The first field of a batch gets exactly the options its definition persists. */
  lemma OptionsOfFirstField(added: seq<Row<FieldOption>>, tail: seq<Row<FieldOption>>, fid: nat, oid: nat, d: FieldDef)
    requires added == Numbered(oid, NewOptions(fid, d))
    requires forall x | x in tail :: x.data.fieldId > fid
    ensures Data(Where(added + tail, OptionsOfField(fid))) == NewOptions(fid, d)
  {
    AddedOptionsOwned(oid, fid, d);
    WhereConcat(added, tail, OptionsOfField(fid));
    WhereAll(added, OptionsOfField(fid));
    WhereNone(tail, OptionsOfField(fid));
    DataNumbered(oid, NewOptions(fid, d));
  }

  /** A later field of a batch finds none of the first field's options. */
  lemma OptionsOfLaterField(added: seq<Row<FieldOption>>, tail: seq<Row<FieldOption>>, fid: nat, oid: nat, d: FieldDef, g: nat)
    requires added == Numbered(oid, NewOptions(fid, d)) && g != fid
    ensures Where(added + tail, OptionsOfField(g)) == Where(tail, OptionsOfField(g))
  {
    AddedOptionsOwned(oid, fid, d);
    WhereConcat(added, tail, OptionsOfField(g));
    WhereNone(added, OptionsOfField(g));
  }

  /** Each field of a batch gets exactly the options its definition
      persists, in the order they were sent: field `g`, the `k`-th of the
      batch, defined by `d`. */
  lemma {:induction false} NewOptionRowsOfField(oid: nat, fid: nat, ds: seq<FieldDef>, k: nat, g: nat, d: FieldDef)
    requires k < |ds| && g == fid + k && d == ds[k]
    ensures Data(Where(NewOptionRows(oid, fid, ds), OptionsOfField(g))) == NewOptions(g, d)
    decreases k
  {
    var first := NewOptions(fid, ds[0]);
    var added := Numbered(oid, first);
    var tail := NewOptionRows(oid + |first|, fid + 1, ds[1..]);
    assert NewOptionRows(oid, fid, ds) == added + tail;
    if k == 0 {
      NewOptionRowsOwned(oid + |first|, fid + 1, ds[1..]);
      OptionsOfFirstField(added, tail, fid, oid, ds[0]);
    } else {
      OptionsOfLaterField(added, tail, fid, oid, ds[0], g);
      NewOptionRowsOfField(oid + |first|, fid + 1, ds[1..], k - 1, g, d);
    }
  }

  /** One pass of the creation loop under an existing template keeps the store consistent. */
  lemma AddFieldConsistent(s: Store, tid: nat, d: FieldDef)
    requires Consistent(s) && Has(s.templates, tid)
    ensures Consistent(AddField(s, tid, d))
  {
    var fid := s.fields.nextId;
    var r := AddField(s, tid, d);
    InsertAllValid(s.options, NewOptions(fid, d));
    AddedOptionsOwned(s.options.nextId, fid, d);
    assert r.fields.rows == s.fields.rows + [Row(fid, NewField(tid, d))];
    assert Has(r.fields, fid);
    assert Grows(s, r);
    GrowsKeepsFits(s, r);
  }

  /** Adding fields to a consistent store under an existing template keeps it consistent. */
  lemma {:induction false} AddFieldsConsistent(s: Store, tid: nat, ds: seq<FieldDef>)
    requires Consistent(s) && Has(s.templates, tid)
    ensures Consistent(AddFields(s, tid, ds))
    decreases |ds|
  {
    if |ds| > 0 {
      AddFieldConsistent(s, tid, ds[0]);
      AddFieldsConsistent(AddField(s, tid, ds[0]), tid, ds[1..]);
    }
  }

  /** Every field row of a batch belongs to the batch's template. */
  lemma NewFieldRowsOwned(fid: nat, tid: nat, ds: seq<FieldDef>)
    ensures forall x | x in NewFieldRows(fid, tid, ds) :: x.data.templateId == tid && fid <= x.id
  {
    var rows := NewFieldRows(fid, tid, ds);
    forall x | x in rows
      ensures x.data.templateId == tid && fid <= x.id
    {
      var k :| 0 <= k < |rows| && rows[k] == x;
    }
  }

  /** Appending a batch for template `tid` to fields none of which belong to it. */
  lemma FieldsAfterAdd(before: seq<Row<Field>>, fid: nat, tid: nat, ds: seq<FieldDef>, u: nat)
    requires forall x | x in before :: x.data.templateId != tid
    ensures u == tid ==> Where(before + NewFieldRows(fid, tid, ds), FieldsOf(u)) == NewFieldRows(fid, tid, ds)
    ensures u != tid ==> Where(before + NewFieldRows(fid, tid, ds), FieldsOf(u)) == Where(before, FieldsOf(u))
  {
    var added := NewFieldRows(fid, tid, ds);
    NewFieldRowsOwned(fid, tid, ds);
    WhereConcat(before, added, FieldsOf(u));
    if u == tid {
      WhereNone(before, FieldsOf(tid));
      WhereAll(added, FieldsOf(tid));
    } else {
      WhereNone(added, FieldsOf(u));
    }
  }

  /** Appending a batch's options after options of older fields only:
      field `g`, the `k`-th of the batch, gets the options of `d`. */
  lemma OptionsAfterAdd(before: seq<Row<FieldOption>>, oid: nat, fid: nat, ds: seq<FieldDef>, rows: seq<Row<FieldOption>>,
                        k: nat, g: nat, d: FieldDef)
    requires forall x | x in before :: x.data.fieldId < fid
    requires rows == before + NewOptionRows(oid, fid, ds)
    requires k < |ds| && g == fid + k && d == ds[k]
    ensures Data(Where(rows, OptionsOfField(g))) == NewOptions(g, d)
  {
    var added := NewOptionRows(oid, fid, ds);
    WhereConcat(before, added, OptionsOfField(g));
    WhereNone(before, OptionsOfField(g));
    NewOptionRowsOfField(oid, fid, ds, k, g, d);
  }

  /** `FieldsAfterAdd` for every template at once. */
  lemma FieldsAfterAddAll(before: seq<Row<Field>>, fid: nat, tid: nat, ds: seq<FieldDef>, rows: seq<Row<Field>>)
    requires forall x | x in before :: x.data.templateId != tid
    requires rows == before + NewFieldRows(fid, tid, ds)
    ensures Where(rows, FieldsOf(tid)) == NewFieldRows(fid, tid, ds)
    ensures forall u | u != tid :: Where(rows, FieldsOf(u)) == Where(before, FieldsOf(u))
  {
    FieldsAfterAdd(before, fid, tid, ds, tid);
    forall u | u != tid
      ensures Where(rows, FieldsOf(u)) == Where(before, FieldsOf(u))
    {
      FieldsAfterAdd(before, fid, tid, ds, u);
    }
  }

  /** A definition that passed validation keeps what was sent: the name,
      the type named, the required flag and a non-negative display order,
      and a choice type comes with at least one option. */
  lemma ValidatedDef(f: FieldInput)
    requires ValidFieldInput(f)
    ensures DefOf(f) == FieldDef(f.fieldName.v, ParseFieldType(f.fieldType.v).value, f.isRequired.v,
                                 f.displayOrder.v, OptionDefs(f.options))
    ensures TypeName(DefOf(f).fieldType) == f.fieldType.v
    ensures DefOf(f).displayOrder >= 0
    ensures IsChoice(DefOf(f).fieldType) ==> |DefOf(f).options| > 0
  {
  }

  /** A field definition persists the options sent with it, in order, when
      its type is a choice type, and none otherwise. */
  lemma NewOptionsOfDef(fid: nat, d: FieldDef)
    ensures !IsChoice(d.fieldType) ==> NewOptions(fid, d) == []
    ensures IsChoice(d.fieldType) ==> |NewOptions(fid, d)| == |d.options|
    ensures IsChoice(d.fieldType) ==> forall k | 0 <= k < |d.options| ::
      NewOptions(fid, d)[k] == FieldOption(fid, d.options[k].name, d.options[k].value)
  {
  }

  /** Requests `store` turns away: no fields, a name or field name longer
      than 255 characters, an unknown field type, a negative display
      order, a choice field without options, an option value longer than
      255 characters. */
  lemma StoreTemplateRejects(s: Store, req: TemplateInput, i: nat, j: nat)
    ensures req.fields.Given? && |req.fields.v| == 0 ==> StoreTemplate(s, req) == Err(ValidationFailed)
    ensures !req.fields.Given? ==> StoreTemplate(s, req) == Err(ValidationFailed)
    ensures req.name.Given? && |req.name.v| > MaxLength ==> StoreTemplate(s, req) == Err(ValidationFailed)
    ensures req.fields.Given? && i < |req.fields.v| ==>
      var f := req.fields.v[i];
      (|| (f.fieldName.Given? && |f.fieldName.v| > MaxLength)
       || (f.fieldType.Given? && ParseFieldType(f.fieldType.v).None?)
       || (f.displayOrder.Given? && f.displayOrder.v < 0)
       || (f.fieldType.Given? && ParseFieldType(f.fieldType.v).Some? && IsChoice(ParseFieldType(f.fieldType.v).value)
           && !(f.options.Given? && |f.options.v| > 0))
       || (f.options.Given? && j < |f.options.v| && f.options.v[j].optionValue.Given?
           && |f.options.v[j].optionValue.v| > MaxLength))
      ==> StoreTemplate(s, req) == Err(ValidationFailed)
  {
    if req.fields.Given? && i < |req.fields.v| {
      var f := req.fields.v[i];
      if f.options.Given? && j < |f.options.v| && f.options.v[j].optionValue.Given?
         && |f.options.v[j].optionValue.v| > MaxLength {
        assert !ValidOptionInput(f.options.v[j]);
        assert !ValidFieldInput(f);
      }
    }
  }

  /** The transaction of `store`: the template row, then the creation loop. */
  function CreateTemplate(s: Store, row: Template, defs: seq<FieldDef>): (r: Store)
    ensures r.records == s.records && r.values == s.values && r.selections == s.selections
  {
    AddFields(s.(templates := Insert(s.templates, row)), s.templates.nextId, defs)
  }

  /** The transaction of `store` gives the new template the given name
      and description. */
  lemma CreateTemplateRow(s: Store, row: Template, defs: seq<FieldDef>)
    requires Valid(s.templates)
    ensures Lookup(CreateTemplate(s, row, defs).templates.rows, s.templates.nextId) == Some(row)
  {
    LookupInserted(s.templates, row, CreateTemplate(s, row, defs).templates.rows);
  }

  /** The transaction of `store` gives the new template one field per
      definition, in the order given, and leaves other templates' fields
      alone, when every older field belongs to an older template (as
      `ConsistentBounds` shows of a consistent store). */
  lemma CreateTemplateFields(s: Store, row: Template, defs: seq<FieldDef>)
    requires forall x | x in s.fields.rows :: x.data.templateId < s.templates.nextId
    ensures Where(CreateTemplate(s, row, defs).fields.rows, FieldsOf(s.templates.nextId))
            == NewFieldRows(s.fields.nextId, s.templates.nextId, defs)
    ensures forall u | u != s.templates.nextId ::
      Where(CreateTemplate(s, row, defs).fields.rows, FieldsOf(u)) == Where(s.fields.rows, FieldsOf(u))
  {
    FieldsAfterAddAll(s.fields.rows, s.fields.nextId, s.templates.nextId, defs, CreateTemplate(s, row, defs).fields.rows);
  }

  /** The transaction of `store` gives the `k`-th new field the options of
      the `k`-th definition in the order given (none for a non-choice
      type), when every older option belongs to an older field. */
  lemma CreateTemplateOptions(s: Store, row: Template, defs: seq<FieldDef>, k: nat, g: nat, d: FieldDef)
    requires forall x | x in s.options.rows :: x.data.fieldId < s.fields.nextId
    requires k < |defs| && g == s.fields.nextId + k && d == defs[k]
    ensures Data(Where(CreateTemplate(s, row, defs).options.rows, OptionsOfField(g))) == NewOptions(g, d)
  {
    CreatedOptionRows(s, row, defs);
    OptionsAfterAdd(s.options.rows, s.options.nextId, s.fields.nextId, defs, CreateTemplate(s, row, defs).options.rows,
                    k, g, d);
  }

  /** The options table after the transaction of `store`: the old options,
      then those of the new fields. */
  lemma CreatedOptionRows(s: Store, row: Template, defs: seq<FieldDef>)
    ensures CreateTemplate(s, row, defs).options.rows == s.options.rows + NewOptionRows(s.options.nextId, s.fields.nextId, defs)
  {
    var s1 := s.(templates := Insert(s.templates, row));
    assert s1.options == s.options && s1.fields == s.fields;
  }


  /** TemplateController::store: the request is validated, then created.
      A created template is appended under the next template id; records,
      values and selections are not touched. `StoreTemplateCreates` says
      what the new template's fields are. */
  function StoreTemplate(s: Store, req: TemplateInput): (r: Result<Store>)
    ensures r.Ok? <==> ValidStoreInput(req)
    ensures r.Err? ==> r.error == ValidationFailed
    ensures r.Ok? ==>
      r.value.templates.rows == s.templates.rows + [Row(s.templates.nextId, Template(req.name.v, DescriptionOf(req.description)))]
    ensures r.Ok? ==> r.value.records == s.records && r.value.values == s.values && r.value.selections == s.selections
  {
    if !ValidStoreInput(req) then Err(ValidationFailed)
    else Ok(CreateTemplate(s, Template(req.name.v, DescriptionOf(req.description)), DefsOf(req.fields.v)))
  }

  /** On a consistent store, a valid `store` request creates the template
      with the sent name and description, gives it one field per
      definition in request order, leaves every other template's fields
      alone, and keeps the store consistent. */
  lemma StoreTemplateCreates(s: Store, req: TemplateInput)
    requires Consistent(s) && ValidStoreInput(req)
    ensures var r := StoreTemplate(s, req);
      && r.Ok?
      && Lookup(r.value.templates.rows, s.templates.nextId) == Some(Template(req.name.v, DescriptionOf(req.description)))
      && Where(r.value.fields.rows, FieldsOf(s.templates.nextId))
         == NewFieldRows(s.fields.nextId, s.templates.nextId, DefsOf(req.fields.v))
      && (forall u | u != s.templates.nextId :: Where(r.value.fields.rows, FieldsOf(u)) == Where(s.fields.rows, FieldsOf(u)))
      && Consistent(r.value)
  {
    var row := Template(req.name.v, DescriptionOf(req.description));
    ConsistentBounds(s);
    CreateTemplateRow(s, row, DefsOf(req.fields.v));
    CreateTemplateFields(s, row, DefsOf(req.fields.v));
    CreateTemplateConsistent(s, row, DefsOf(req.fields.v));
  }

  /** The transaction of `store` keeps a consistent store consistent. */
  lemma CreateTemplateConsistent(s: Store, row: Template, defs: seq<FieldDef>)
    requires Consistent(s)
    ensures Consistent(CreateTemplate(s, row, defs))
  {
    var s1 := s.(templates := Insert(s.templates, row));
    InsertTemplateConsistent(s, row);
    AddFieldsConsistent(s1, s.templates.nextId, defs);
  }

  /** A new template refers to nothing, so inserting it keeps a store
      consistent; it exists afterwards. */
  lemma InsertTemplateConsistent(s: Store, row: Template)
    requires Consistent(s)
    ensures Consistent(s.(templates := Insert(s.templates, row)))
    ensures Has(Insert(s.templates, row), s.templates.nextId)
  {
    var r := s.(templates := Insert(s.templates, row));
    InsertIds(s.templates, row);
    assert Grows(s, r);
    GrowsKeepsFits(s, r);
  }

  /** `$template->update(...)` for the keys `update` sets: the name when
      one was sent, the description when a non-null one was sent. */
  function Patched(cur: Template, req: TemplateInput): Template {
    Template(if req.name.Given? then req.name.v else cur.name,
             if req.description.Given? then Some(req.description.v) else cur.description)
  }

  /** The fields branch of `update`: all fields of template `t` go (with
      their options, values and selections, by cascade), then the
      creation loop runs for the sent definitions. */
  function ReplaceFields(s: Store, t: nat, defs: seq<FieldDef>): (r: Store)
    ensures r.templates == s.templates && r.records == s.records
  {
    AddFields(DropFields(s, FieldsOf(t)), t, defs)
  }

  /** After the fields branch, template `t` has exactly one field per sent
      definition, in the order sent, and every other template keeps its
      fields. */
  lemma ReplaceFieldsFields(s: Store, t: nat, defs: seq<FieldDef>)
    ensures Where(ReplaceFields(s, t, defs).fields.rows, FieldsOf(t)) == NewFieldRows(s.fields.nextId, t, defs)
    ensures forall u | u != t :: Where(ReplaceFields(s, t, defs).fields.rows, FieldsOf(u)) == Where(s.fields.rows, FieldsOf(u))
  {
    var d := DropFields(s, FieldsOf(t));
    var rows := ReplaceFields(s, t, defs).fields.rows;
    assert rows == d.fields.rows + NewFieldRows(s.fields.nextId, t, defs);
    FieldsAfterAddAll(d.fields.rows, s.fields.nextId, t, defs, rows);
    forall u | u != t
      ensures Where(d.fields.rows, FieldsOf(u)) == Where(s.fields.rows, FieldsOf(u))
    {
      WhereDropDisjoint(s.fields.rows, FieldsOf(u), FieldsOf(t));
    }
  }

  /** The options table after the fields branch: the survivors of the
      deletion, then the options of the new fields. */
  lemma ReplacedOptionRows(s: Store, t: nat, defs: seq<FieldDef>)
    ensures var d := DropFields(s, FieldsOf(t));
      ReplaceFields(s, t, defs).options.rows == d.options.rows + NewOptionRows(d.options.nextId, s.fields.nextId, defs)
  {
    var d := DropFields(s, FieldsOf(t));
    assert d.fields.nextId == s.fields.nextId;
  }

  /** The deletion keeps only options of fields older than the next field id. */
  lemma SurvivingOptionsBelow(s: Store, t: nat)
    requires forall x | x in s.options.rows :: x.data.fieldId < s.fields.nextId
    ensures forall x | x in DropFields(s, FieldsOf(t)).options.rows :: x.data.fieldId < s.fields.nextId
  {
  }

  /** After the fields branch, the `k`-th new field holds the options of
      the `k`-th sent definition (none for a non-choice type), when every
      older option belongs to an older field. */
  lemma ReplaceFieldsOptions(s: Store, t: nat, defs: seq<FieldDef>, k: nat)
    requires forall x | x in s.options.rows :: x.data.fieldId < s.fields.nextId
    requires k < |defs|
    ensures Data(Where(ReplaceFields(s, t, defs).options.rows, OptionsOfField(s.fields.nextId + k)))
            == NewOptions(s.fields.nextId + k, defs[k])
  {
    var d := DropFields(s, FieldsOf(t));
    ReplacedOptionRows(s, t, defs);
    SurvivingOptionsBelow(s, t);
    OptionsAfterAdd(d.options.rows, d.options.nextId, s.fields.nextId, defs, ReplaceFields(s, t, defs).options.rows,
                    k, s.fields.nextId + k, defs[k]);
  }

  /** After the fields branch no value answers a field the template had
      before: the answers to replaced fields are gone, and no value was
      created. */
  lemma ReplaceFieldsValues(s: Store, t: nat, defs: seq<FieldDef>)
    ensures forall x | x in ReplaceFields(s, t, defs).values.rows ::
      x in s.values.rows && x.data.fieldId !in Ids(Where(s.fields.rows, FieldsOf(t)))
  {
  }

  /** The fields branch keeps a consistent store consistent. */
  lemma ReplaceFieldsConsistent(s: Store, t: nat, defs: seq<FieldDef>)
    requires Consistent(s) && Has(s.templates, t)
    ensures Consistent(ReplaceFields(s, t, defs))
  {
    DropFieldsConsistent(s, FieldsOf(t));
    AddFieldsConsistent(DropFields(s, FieldsOf(t)), t, defs);
  }

  /** TemplateController::update: the template is looked up before the
      request is validated; a sent name or non-null description is
      written, and sent fields replace all the old ones. */
  function UpdateTemplate(s: Store, t: nat, req: TemplateInput): (r: Result<Store>)
    ensures !Has(s.templates, t) ==> r == Err(NotFound)
    ensures Has(s.templates, t) ==> (r.Ok? <==> ValidUpdateInput(req))
    ensures Has(s.templates, t) && r.Err? ==> r.error == ValidationFailed
    ensures r.Ok? ==> r.value.records == s.records
    ensures r.Ok? && req.fields.Absent? ==>
      r.value.fields == s.fields && r.value.options == s.options &&
      r.value.values == s.values && r.value.selections == s.selections
    ensures r.Ok? && req.fields.Given? ==>
      var replaced := ReplaceFields(s, t, DefsOf(req.fields.v));
      r.value.fields == replaced.fields && r.value.options == replaced.options &&
      r.value.values == replaced.values && r.value.selections == replaced.selections
  {
    if !Has(s.templates, t) then Err(NotFound)
    else if !ValidUpdateInput(req) then Err(ValidationFailed)
    else
      var s1 := if req.fields.Given? then ReplaceFields(s, t, DefsOf(req.fields.v)) else s;
      Ok(s1.(templates := Update(s.templates, t, Patched(Lookup(s.templates.rows, t).value, req))))
  }

  /** `update` writes the patched name and description into template `t`
      and leaves every other template `u` as it was. */
  lemma UpdateTemplateRow(s: Store, t: nat, req: TemplateInput, u: nat)
    requires Valid(s.templates) && Has(s.templates, t) && ValidUpdateInput(req)
    ensures u == t ==> Lookup(UpdateTemplate(s, t, req).value.templates.rows, u)
                       == Some(Patched(Lookup(s.templates.rows, t).value, req))
    ensures u != t ==> Lookup(UpdateTemplate(s, t, req).value.templates.rows, u) == Lookup(s.templates.rows, u)
  {
    LookupSet(s.templates.rows, t, Patched(Lookup(s.templates.rows, t).value, req), u);
  }

  /** `update` keeps a consistent store consistent. */
  lemma UpdateTemplateConsistent(s: Store, t: nat, req: TemplateInput)
    requires Consistent(s) && Has(s.templates, t) && ValidUpdateInput(req)
    ensures Consistent(UpdateTemplate(s, t, req).value)
  {
    var s1 := if req.fields.Given? then ReplaceFields(s, t, DefsOf(req.fields.v)) else s;
    if req.fields.Given? {
      ReplaceFieldsConsistent(s, t, DefsOf(req.fields.v));
    }
    ConsistentRetitled(s1, Update(s.templates, t, Patched(Lookup(s.templates.rows, t).value, req)));
  }

  /** Field `fid` is not one of template `t`'s fields. */
  ghost predicate OutsideTemplate(s: Store, t: nat, fid: nat) {
    forall y | y in s.fields.rows && y.id == fid :: y.data.templateId != t
  }

  /** TemplateController::destroy: refused while any record uses the
      template; otherwise the template goes with its fields, their
      options and values (the records cascade is empty by then). */
  function DestroyTemplate(s: Store, t: nat): (r: Result<Store>)
    ensures !Has(s.templates, t) ==> r == Err(NotFound)
    ensures Has(s.templates, t) ==>
      (r == Err(Conflict) <==> exists x | x in s.records.rows :: x.data.templateId == t)
    ensures r.Err? ==> r.error == NotFound || r.error == Conflict
    ensures r.Ok? ==> !Has(r.value.templates, t)
    ensures r.Ok? ==> forall x | x in s.templates.rows && x.id != t :: x in r.value.templates.rows
    ensures r.Ok? ==> forall x | x in r.value.templates.rows :: x in s.templates.rows
    ensures r.Ok? ==> forall x | x in r.value.fields.rows :: x in s.fields.rows && x.data.templateId != t
    ensures r.Ok? ==> forall x | x in s.fields.rows && x.data.templateId != t :: x in r.value.fields.rows
    ensures r.Ok? ==> forall x | x in s.options.rows && OutsideTemplate(s, t, x.data.fieldId) :: x in r.value.options.rows
    ensures r.Ok? ==> forall x | x in s.values.rows && OutsideTemplate(s, t, x.data.fieldId) :: x in r.value.values.rows
    ensures r.Ok? ==> r.value.records == s.records
  {
    if !Has(s.templates, t) then Err(NotFound)
    else if First(s.records.rows, RecordsOf(t)).Some? then Err(Conflict)
    else
      var s1 := DropFields(s, FieldsOf(t));
      DropNone(s1.records.rows, RecordsOf(t));
      Ok(s1.(templates := Remove(s1.templates, WithId(t)), records := Remove(s1.records, RecordsOf(t))))
  }

  /** `destroy` keeps a consistent store consistent. */
  lemma DestroyTemplateConsistent(s: Store, t: nat)
    requires Consistent(s) && DestroyTemplate(s, t).Ok?
    ensures Consistent(DestroyTemplate(s, t).value)
  {
    var s1 := DropFields(s, FieldsOf(t));
    DropFieldsConsistent(s, FieldsOf(t));
    DropNone(s1.records.rows, RecordsOf(t));
    ConsistentWithoutTemplate(s1, t);
  }

  /** Showing a template right after `store` created it returns the name
      and description sent, and no records. */
  lemma StoreThenShow(s: Store, req: TemplateInput)
    requires Consistent(s) && ValidStoreInput(req)
    ensures var shown := ShowTemplate(StoreTemplate(s, req).value, s.templates.nextId);
      && shown.Ok?
      && shown.value.template.data == Template(req.name.v, DescriptionOf(req.description))
      && shown.value.recordsCount == 0
  {
    var row := Template(req.name.v, DescriptionOf(req.description));
    var c := CreateTemplate(s, row, DefsOf(req.fields.v));
    ConsistentBounds(s);
    CreateTemplateRow(s, row, DefsOf(req.fields.v));
    WhereNone(c.records.rows, RecordsOf(s.templates.nextId));
  }

  /** Showing a template right after `store` lists exactly the fields the
      request defined, ordered by display_order. */
  lemma StoreThenShowFields(s: Store, req: TemplateInput)
    requires Consistent(s) && ValidStoreInput(req)
    ensures var shown := ShowTemplate(StoreTemplate(s, req).value, s.templates.nextId);
      && shown.Ok?
      && InDisplayOrder(FieldRows(shown.value.fields))
      && multiset(FieldRows(shown.value.fields))
         == multiset(NewFieldRows(s.fields.nextId, s.templates.nextId, DefsOf(req.fields.v)))
  {
    var row := Template(req.name.v, DescriptionOf(req.description));
    ConsistentBounds(s);
    CreateTemplateRow(s, row, DefsOf(req.fields.v));
    CreateTemplateFields(s, row, DefsOf(req.fields.v));
  }

  /** Each field shown right after `store` is the field built from the
      `k`-th of the request's definitions; `CreateTemplateOptions` says
      which options that field holds. */
  lemma StoreThenShowField(s: Store, req: TemplateInput, i: nat) returns (k: nat)
    requires Consistent(s) && ValidStoreInput(req)
    requires var shown := ShowTemplate(StoreTemplate(s, req).value, s.templates.nextId);
      shown.Ok? && i < |shown.value.fields|
    ensures k < |DefsOf(req.fields.v)|
    ensures ShowTemplate(StoreTemplate(s, req).value, s.templates.nextId).value.fields[i].field
            == Row(s.fields.nextId + k, NewField(s.templates.nextId, DefsOf(req.fields.v)[k]))
  {
    var row := Template(req.name.v, DescriptionOf(req.description));
    ConsistentBounds(s);
    CreateTemplateFields(s, row, DefsOf(req.fields.v));
    k := ShownNewField(StoreTemplate(s, req).value, s.templates.nextId, s.fields.nextId, DefsOf(req.fields.v), i);
  }

  /** When template `t`'s fields are exactly a batch, the `i`-th field
      `show` lists is the `k`-th of the batch. */
  lemma ShownNewField(c: Store, t: nat, fid: nat, defs: seq<FieldDef>, i: nat) returns (k: nat)
    requires Where(c.fields.rows, FieldsOf(t)) == NewFieldRows(fid, t, defs)
    requires ShowTemplate(c, t).Ok? && i < |ShowTemplate(c, t).value.fields|
    ensures k < |defs|
    ensures ShowTemplate(c, t).value.fields[i].field == Row(fid + k, NewField(t, defs[k]))
  {
    var shown := ShowTemplate(c, t).value;
    var added := NewFieldRows(fid, t, defs);
    assert FieldRows(shown.fields)[i] == shown.fields[i].field;
    assert shown.fields[i].field in multiset(added);
    k :| 0 <= k < |added| && added[k] == shown.fields[i].field;
  }


}
