/** What `GET /templates/{id}` returns: the template, its fields ordered
    by display_order with each field's options, and the number of records
    filled in from it. */
module Display {
  import opened Results
  import opened Tables
  import opened Schema

  datatype FieldView = FieldView(field: Row<Field>, options: seq<Row<FieldOption>>)

  datatype TemplateView = TemplateView(template: Row<Template>, fields: seq<FieldView>, recordsCount: nat)

  predicate InDisplayOrder(fs: seq<Row<Field>>) {
    forall i, j | 0 <= i < j < |fs| :: fs[i].data.displayOrder <= fs[j].data.displayOrder
  }

  /** Puts `x` before the first field whose display_order is not smaller,
      so fields with equal display_order keep their relative order. */
  function InsertByOrder(x: Row<Field>, fs: seq<Row<Field>>): (r: seq<Row<Field>>)
    requires InDisplayOrder(fs)
    ensures InDisplayOrder(r)
    ensures multiset(r) == multiset(fs) + multiset{x}
    ensures |r| == |fs| + 1
  {
    if |fs| == 0 || x.data.displayOrder <= fs[0].data.displayOrder then
      [x] + fs
    else
      var rest := InsertByOrder(x, fs[1..]);
      assert fs == [fs[0]] + fs[1..];
      forall j | 0 <= j < |rest|
        ensures fs[0].data.displayOrder <= rest[j].data.displayOrder
      {
        assert rest[j] in multiset(rest);
        if rest[j] != x {
          assert rest[j] in fs[1..];
        }
      }
      [fs[0]] + rest
  }

  /** `orderBy('display_order', 'asc')`: an insertion sort, stable in id
      order. */
  function SortByOrder(fs: seq<Row<Field>>): (r: seq<Row<Field>>)
    ensures InDisplayOrder(r)
    ensures multiset(r) == multiset(fs)
  {
    if |fs| == 0 then []
    else
      assert fs == [fs[0]] + fs[1..];
      InsertByOrder(fs[0], SortByOrder(fs[1..]))
  }

  function FieldRows(vs: seq<FieldView>): (r: seq<Row<Field>>)
    ensures |r| == |vs|
    ensures forall i {:trigger r[i]} | 0 <= i < |vs| :: r[i] == vs[i].field
  {
    seq(|vs|, i requires 0 <= i < |vs| => vs[i].field)
  }

  /** Eager loading of `fields.options`: each field with its own options. */
  function WithOptions(s: Store, fs: seq<Row<Field>>): (r: seq<FieldView>)
    ensures FieldRows(r) == fs
    ensures forall i {:trigger r[i]} | 0 <= i < |r| :: r[i].options == Where(s.options.rows, OptionsOfField(fs[i].id))
  {
    seq(|fs|, i requires 0 <= i < |fs| => FieldView(fs[i], Where(s.options.rows, OptionsOfField(fs[i].id))))
  }

  /** TemplateController::show. */
  function ShowTemplate(s: Store, t: nat): (r: Result<TemplateView>)
    ensures r.Err? <==> !Has(s.templates, t)
    ensures r.Err? ==> r.error == NotFound
    ensures r.Ok? ==> r.value.template.id == t && Lookup(s.templates.rows, t) == Some(r.value.template.data)
    ensures r.Ok? ==> InDisplayOrder(FieldRows(r.value.fields))
    ensures r.Ok? ==> multiset(FieldRows(r.value.fields)) == multiset(Where(s.fields.rows, FieldsOf(t)))
    ensures r.Ok? ==> forall i | 0 <= i < |r.value.fields| ::
      r.value.fields[i].options == Where(s.options.rows, OptionsOfField(r.value.fields[i].field.id))
    ensures r.Ok? ==> r.value.recordsCount == |Where(s.records.rows, RecordsOf(t))|
  {
    match Lookup(s.templates.rows, t)
    case None => Err(NotFound)
    case Some(d) =>
      Ok(TemplateView(Row(t, d), WithOptions(s, SortByOrder(Where(s.fields.rows, FieldsOf(t)))),
                      |Where(s.records.rows, RecordsOf(t))|))
  }
}
