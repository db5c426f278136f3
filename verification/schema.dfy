/** The entities of the form engine and the store that holds them:
    templates own fields, fields own options, templates own records,
    records own values, values own multi-select selections. The foreign
    keys and their ON DELETE CASCADE rules come from the migrations. */
module Schema {
  import opened Results
  import opened Tables

  /** The closed set of field types the template validator accepts. */
  datatype FieldType = Text | Number | Date | Boolean | Select | Radio | Checkbox

  /** select, radio and checkbox fields take their values from their options. */
  predicate IsChoice(t: FieldType) {
    t == Select || t == Radio || t == Checkbox
  }

  datatype Template = Template(name: string, description: Option<string>)

  /** `isMultiple` is read by the record controller but is not a column of
      the fields table, so every field the system creates has it false. */
  datatype Field = Field(
    templateId: nat,
    fieldName: string,
    fieldType: FieldType,
    isRequired: bool,
    displayOrder: int,
    isMultiple: bool)

  predicate IsMultiSelect(f: Field) {
    f.fieldType == Select && f.isMultiple
  }

  datatype FieldOption = FieldOption(fieldId: nat, optionName: string, optionValue: string)

  datatype Record = Record(templateId: nat)

  /** One stored answer: `text` is null for a multi-select container,
      `optionId` is the matched option of a single-choice field. */
  datatype Value = Value(recordId: nat, fieldId: nat, text: Option<string>, optionId: Option<nat>)

  /** One chosen option of a multi-select value. */
  datatype Selection = Selection(valueId: nat, optionId: nat)

  datatype Store = Store(
    templates: Table<Template>,
    fields: Table<Field>,
    options: Table<FieldOption>,
    records: Table<Record>,
    values: Table<Value>,
    selections: Table<Selection>)

  function EmptyStore(): (s: Store)
    ensures Consistent(s)
  {
    Store(Empty(), Empty(), Empty(), Empty(), Empty(), Empty())
  }

  // Queries used by the controllers and by the cascades.

  function FieldsOf(t: nat): Row<Field> -> bool {
    (x: Row<Field>) => x.data.templateId == t
  }

  function RecordsOf(t: nat): Row<Record> -> bool {
    (x: Row<Record>) => x.data.templateId == t
  }

  function OptionsOf(fids: set<nat>): Row<FieldOption> -> bool {
    (x: Row<FieldOption>) => x.data.fieldId in fids
  }

  function OptionsOfField(fid: nat): Row<FieldOption> -> bool {
    (x: Row<FieldOption>) => x.data.fieldId == fid
  }

  function ValuesOf(fids: set<nat>): Row<Value> -> bool {
    (x: Row<Value>) => x.data.fieldId in fids
  }

  function ValuesOfRecord(r: nat): Row<Value> -> bool {
    (x: Row<Value>) => x.data.recordId == r
  }

  /** The values a record holds for one field. */
  function Slot(r: nat, f: nat): Row<Value> -> bool {
    (x: Row<Value>) => x.data.recordId == r && x.data.fieldId == f
  }

  function SelectionsOf(vids: set<nat>): Row<Selection> -> bool {
    (x: Row<Selection>) => x.data.valueId in vids
  }

  function SelectionsPicking(oids: set<nat>): Row<Selection> -> bool {
    (x: Row<Selection>) => x.data.optionId in oids
  }

  function WithId<T>(k: nat): Row<T> -> bool {
    (x: Row<T>) => x.id == k
  }

  function OffersValue(fid: nat, v: string): Row<FieldOption> -> bool {
    (x: Row<FieldOption>) => x.data.fieldId == fid && x.data.optionValue == v
  }

  /** `$field->options()->where('option_value', v)->first()`: the earliest
      option of field `fid` whose option_value is exactly `v`. */
  function MatchOption(options: Table<FieldOption>, fid: nat, v: string): (r: Option<Row<FieldOption>>)
    ensures r.Some? ==> r.value in options.rows && r.value.data.fieldId == fid && r.value.data.optionValue == v
    ensures r.None? <==> forall x | x in options.rows :: !(x.data.fieldId == fid && x.data.optionValue == v)
  {
    First(options.rows, OffersValue(fid, v))
  }

  /** The option found is the one with the smallest id among the field's
      options carrying that value. */
  lemma MatchOptionEarliest(options: Table<FieldOption>, fid: nat, v: string)
    requires Valid(options)
    ensures MatchOption(options, fid, v).Some? ==>
      forall x | x in options.rows && x.id < MatchOption(options, fid, v).value.id ::
        !(x.data.fieldId == fid && x.data.optionValue == v)
  {
    FirstIsEarliest(options.rows, OffersValue(fid, v));
  }

  ghost predicate WellFormed(s: Store) {
    && Valid(s.templates)
    && Valid(s.fields)
    && Valid(s.options)
    && Valid(s.records)
    && Valid(s.values)
    && Valid(s.selections)
  }

  /** A value's option, when it has one, is an option of the value's own field. */
  ghost predicate OptionFits(s: Store, v: Value) {
    v.optionId.Some? ==>
      exists o | o in s.options.rows :: o.id == v.optionId.value && o.data.fieldId == v.fieldId
  }

  /** A selection points at a value and at an option of that value's field. */
  ghost predicate SelectionFits(s: Store, sel: Selection) {
    exists v, o | v in s.values.rows && o in s.options.rows ::
      v.id == sel.valueId && o.id == sel.optionId && o.data.fieldId == v.data.fieldId
  }

  /** Referential consistency: every foreign key resolves, and every option
      reference stays within the field it belongs to. */
  ghost predicate Consistent(s: Store) {
    && WellFormed(s)
    && (forall x | x in s.fields.rows :: Has(s.templates, x.data.templateId))
    && (forall x | x in s.options.rows :: Has(s.fields, x.data.fieldId))
    && (forall x | x in s.records.rows :: Has(s.templates, x.data.templateId))
    && (forall x | x in s.values.rows ::
          Has(s.records, x.data.recordId) && Has(s.fields, x.data.fieldId) && OptionFits(s, x.data))
    && (forall x | x in s.selections.rows :: SelectionFits(s, x.data))
  }

  /** `r` keeps every row of `s`: nothing was deleted or rewritten. */
  ghost predicate Grows(s: Store, r: Store) {
    && (forall x | x in s.templates.rows :: x in r.templates.rows)
    && (forall x | x in s.fields.rows :: x in r.fields.rows)
    && (forall x | x in s.options.rows :: x in r.options.rows)
    && (forall x | x in s.records.rows :: x in r.records.rows)
    && (forall x | x in s.values.rows :: x in r.values.rows)
    && (forall x | x in s.selections.rows :: x in r.selections.rows)
  }

  /** References that resolve in a store still resolve once it has grown. */
  lemma GrowsKeepsFits(s: Store, r: Store)
    requires Grows(s, r)
    ensures forall v | OptionFits(s, v) :: OptionFits(r, v)
    ensures forall sel | SelectionFits(s, sel) :: SelectionFits(r, sel)
  {
    forall v | OptionFits(s, v)
      ensures OptionFits(r, v)
    {
      if v.optionId.Some? {
        var o :| o in s.options.rows && o.id == v.optionId.value && o.data.fieldId == v.fieldId;
        assert o in r.options.rows;
      }
    }
    forall sel | SelectionFits(s, sel)
      ensures SelectionFits(r, sel)
    {
      var v, o :| v in s.values.rows && o in s.options.rows &&
        v.id == sel.valueId && o.id == sel.optionId && o.data.fieldId == v.data.fieldId;
      assert v in r.values.rows && o in r.options.rows;
    }
  }

  /** Rewriting template rows in place keeps a store consistent as long
      as the same template ids exist afterwards. */
  lemma ConsistentRetitled(s: Store, tt: Table<Template>)
    requires Consistent(s) && Valid(tt) && Ids(tt.rows) == Ids(s.templates.rows)
    ensures Consistent(s.(templates := tt))
  {
  }

  /** Deleting template `t` keeps a store consistent once no field and no
      record refers to it any more. */
  lemma ConsistentWithoutTemplate(s: Store, t: nat)
    requires Consistent(s)
    requires forall x | x in s.fields.rows :: x.data.templateId != t
    requires forall x | x in s.records.rows :: x.data.templateId != t
    ensures Consistent(s.(templates := Remove(s.templates, WithId(t))))
  {
    var tt := Remove(s.templates, WithId(t));
    forall id | id in Ids(s.templates.rows) && id != t
      ensures id in Ids(tt.rows)
    {
      var y :| y in s.templates.rows && y.id == id;
      assert y in tt.rows;
    }
  }

  /** Deleting record `r` keeps a store consistent once no value belongs
      to it any more. */
  lemma ConsistentWithoutRecord(s: Store, r: nat)
    requires Consistent(s)
    requires forall x | x in s.values.rows :: x.data.recordId != r
    ensures Consistent(s.(records := Remove(s.records, WithId(r))))
  {
    var rr := Remove(s.records, WithId(r));
    forall id | id in Ids(s.records.rows) && id != r
      ensures id in Ids(rr.rows)
    {
      var y :| y in s.records.rows && y.id == id;
      assert y in rr.rows;
    }
  }

  /** Every foreign key of a consistent store is below the referenced
      table's next id, so rows inserted next are referenced by nothing. */
  lemma ConsistentBounds(s: Store)
    requires Consistent(s)
    ensures forall x | x in s.fields.rows :: x.data.templateId < s.templates.nextId
    ensures forall x | x in s.records.rows :: x.data.templateId < s.templates.nextId
    ensures forall x | x in s.options.rows :: x.data.fieldId < s.fields.nextId
    ensures forall x | x in s.values.rows :: x.data.recordId < s.records.nextId && x.data.fieldId < s.fields.nextId
    ensures forall x | x in s.selections.rows :: x.data.valueId < s.values.nextId
  {
    forall x | x in s.selections.rows
      ensures x.data.valueId < s.values.nextId
    {
      assert SelectionFits(s, x.data);
    }
  }

  /** Deleting the values chosen by `p`; `multiple_selections.value_id`
      cascades to the selections those values own. */
  function DropValues(s: Store, p: Row<Value> -> bool): (r: Store)
    ensures forall x | x in r.values.rows :: x in s.values.rows && !p(x)
    ensures forall x | x in s.values.rows && !p(x) :: x in r.values.rows
    ensures forall x | x in r.selections.rows :: x in s.selections.rows
    ensures r.templates == s.templates && r.fields == s.fields && r.options == s.options && r.records == s.records
  {
    s.(values := Remove(s.values, p),
       selections := Remove(s.selections, SelectionsOf(Ids(Where(s.values.rows, p)))))
  }

  /** The cascade leaves no selection pointing at a deleted value. */
  lemma DropValuesConsistent(s: Store, p: Row<Value> -> bool)
    requires Consistent(s)
    ensures Consistent(DropValues(s, p))
  {
    var gone := Ids(Where(s.values.rows, p));
    var r := DropValues(s, p);
    forall x | x in r.selections.rows
      ensures SelectionFits(r, x.data)
    {
      var v, o :| v in s.values.rows && o in s.options.rows &&
        v.id == x.data.valueId && o.id == x.data.optionId && o.data.fieldId == v.data.fieldId;
      assert v.id !in gone;
      assert !p(v);
      assert v in r.values.rows;
    }
    forall x | x in r.values.rows
      ensures OptionFits(r, x.data)
    {
      assert OptionFits(s, x.data);
    }
  }

  /** Deleting the fields chosen by `p`. The options of those fields and
      the values answering them go too (fields.id cascades to both), and
      so do the selections of those values or of those options. */
  function DropFields(s: Store, p: Row<Field> -> bool): (r: Store)
    ensures r.fields == Remove(s.fields, p)
    ensures forall x | x in r.options.rows :: x in s.options.rows && x.data.fieldId !in Ids(Where(s.fields.rows, p))
    ensures forall x | x in r.values.rows :: x in s.values.rows && x.data.fieldId !in Ids(Where(s.fields.rows, p))
    ensures forall x | x in s.options.rows && x.data.fieldId !in Ids(Where(s.fields.rows, p)) :: x in r.options.rows
    ensures forall x | x in s.values.rows && x.data.fieldId !in Ids(Where(s.fields.rows, p)) :: x in r.values.rows
    ensures r.templates == s.templates && r.records == s.records
  {
    var fids := Ids(Where(s.fields.rows, p));
    var s1 := DropValues(s, ValuesOf(fids));
    s1.(fields := Remove(s1.fields, p),
        options := Remove(s1.options, OptionsOf(fids)),
        selections := Remove(s1.selections, SelectionsPicking(Ids(Where(s1.options.rows, OptionsOf(fids))))))
  }

  /** The cascades of a field deletion leave every remaining reference resolvable. */
  lemma DropFieldsConsistent(s: Store, p: Row<Field> -> bool)
    requires Consistent(s)
    ensures Consistent(DropFields(s, p))
  {
    var fids := Ids(Where(s.fields.rows, p));
    var s1 := DropValues(s, ValuesOf(fids));
    var oids := Ids(Where(s1.options.rows, OptionsOf(fids)));
    var r := DropFields(s, p);
    DropValuesConsistent(s, ValuesOf(fids));
    forall x | x in r.options.rows
      ensures Has(r.fields, x.data.fieldId)
    {
      assert Has(s1.fields, x.data.fieldId);
      var f :| f in s1.fields.rows && f.id == x.data.fieldId;
      assert x.data.fieldId !in fids;
      assert !p(f);
      assert f in r.fields.rows;
    }
    forall x | x in r.values.rows
      ensures Has(r.fields, x.data.fieldId) && OptionFits(r, x.data)
    {
      assert Has(s1.fields, x.data.fieldId);
      var f :| f in s1.fields.rows && f.id == x.data.fieldId;
      assert x.data.fieldId !in fids;
      assert !p(f);
      assert f in r.fields.rows;
      if x.data.optionId.Some? {
        assert OptionFits(s1, x.data);
        var o :| o in s1.options.rows && o.id == x.data.optionId.value && o.data.fieldId == x.data.fieldId;
        assert o in r.options.rows;
      }
    }
    forall x | x in r.selections.rows
      ensures SelectionFits(r, x.data)
    {
      assert SelectionFits(s1, x.data);
      var v, o :| v in s1.values.rows && o in s1.options.rows &&
        v.id == x.data.valueId && o.id == x.data.optionId && o.data.fieldId == v.data.fieldId;
      assert o.id !in oids;
      assert o.data.fieldId !in fids;
      assert o in r.options.rows;
    }
  }
}
