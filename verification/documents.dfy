/** The document builder of the search store: an entity becomes a flat list
    of index fields, opened by its `_docID` key and closed by the aggregate
    `allfield`, with an `<name>_untokenized` shadow beside every tokenized
    sortable field. */
module Documents {
  import opened Wrappers

  /** The `@Field` annotation carried by an entity field. */
  datatype FieldSpec = FieldSpec(stored: bool, tokenize: bool, sortable: bool, joinField: seq<string>)

  /** One field of an index document. */
  datatype IndexField = IndexField(name: string, value: string, stored: bool, tokenized: bool)

  type Document = seq<IndexField>

  const IdFieldName: string := "_docID"
  const AllFieldName: string := "allfield"
  const ShadowSuffix: string := "_untokenized"

  /** A builder between its construction and `toDocument`: the fields added
      so far and the aggregate text accumulated for `allfield`. */
  datatype Builder = Builder(fields: seq<IndexField>, allValue: string)

  /** The arguments of one `addField` call; `None` stands for a null value. */
  datatype Entry = Entry(name: string, value: Option<string>, spec: FieldSpec)

  /** A tokenized field that must also be sortable gets an untokenized twin,
      because a tokenized field cannot serve as a sort key. */
  predicate ForcesShadow(spec: FieldSpec) {
    spec.tokenize && spec.sortable
  }

  function IdField(docId: string): IndexField {
    IndexField(IdFieldName, docId, true, false)
  }

  function AllField(text: string): IndexField {
    IndexField(AllFieldName, text, false, true)
  }

  /** The constructor: the only field is the stored, untokenized key. */
  function NewBuilder(docId: string): (b: Builder)
    ensures |b.fields| == 1
    ensures b.fields[0].name == IdFieldName && b.fields[0].value == docId
    ensures b.fields[0].stored && !b.fields[0].tokenized
    ensures b.allValue == ""
  {
    Builder([IdField(docId)], "")
  }

  /** `addField`: a null value is ignored; otherwise the field is added with
      the annotation's flags, followed by its shadow when the annotation
      forces one, and the value joins the aggregate text. */
  function AddField(b: Builder, name: string, value: Option<string>, spec: FieldSpec): (r: Builder)
    ensures value.None? ==> r == b
    ensures value.Some? ==>
      && |b.fields| < |r.fields| <= |b.fields| + 2
      && r.fields[..|b.fields|] == b.fields
      && r.fields[|b.fields|] == IndexField(name, value.value, spec.stored, spec.tokenize)
      && (|r.fields| == |b.fields| + 2 <==> ForcesShadow(spec))
      && (ForcesShadow(spec) ==>
            r.fields[|b.fields| + 1] == IndexField(name + ShadowSuffix, value.value, spec.stored, false))
      && r.allValue == b.allValue + value.value + " "
  {
    match value
    case None => b
    case Some(v) =>
      var shadow := if ForcesShadow(spec) then [IndexField(name + ShadowSuffix, v, spec.stored, false)] else [];
      Builder(b.fields + [IndexField(name, v, spec.stored, spec.tokenize)] + shadow, b.allValue + v + " ")
  }

  /** The builder's `toDocument`: the fields added so far, closed by the aggregate field,
      which is tokenized and not stored. */
  function Finish(b: Builder): (d: Document)
    ensures |d| == |b.fields| + 1
    ensures d[..|b.fields|] == b.fields
    ensures d[|b.fields|].name == AllFieldName && d[|b.fields|].value == b.allValue
    ensures !d[|b.fields|].stored && d[|b.fields|].tokenized
  {
    b.fields + [AllField(b.allValue)]
  }

  /** The `addField` calls applied in order. */
  function Fill(b: Builder, es: seq<Entry>): Builder
    decreases |es|
  {
    if |es| == 0 then b else Fill(AddField(b, es[0].name, es[0].value, es[0].spec), es[1..])
  }

  /** A builder created for `docId`, fed `es`, turned into a document. */
  function Build(docId: string, es: seq<Entry>): Document {
    Finish(Fill(NewBuilder(docId), es))
  }

  // ---------------------------------------------------------------------
  // A declarative reference for the document a sequence of calls produces.
  // ---------------------------------------------------------------------

  /** How many fields one call contributes. */
  function Width(e: Entry): nat {
    if e.value.None? then 0 else if ForcesShadow(e.spec) then 2 else 1
  }

  function TotalWidth(es: seq<Entry>): nat
    decreases |es|
  {
    if |es| == 0 then 0 else Width(es[0]) + TotalWidth(es[1..])
  }

  /** The fields one call contributes. */
  function FieldsFor(e: Entry): seq<IndexField> {
    match e.value
    case None => []
    case Some(v) =>
      [IndexField(e.name, v, e.spec.stored, e.spec.tokenize)]
      + (if ForcesShadow(e.spec) then [IndexField(e.name + ShadowSuffix, v, e.spec.stored, false)] else [])
  }

  function FieldsOf(es: seq<Entry>): seq<IndexField>
    decreases |es|
  {
    if |es| == 0 then [] else FieldsFor(es[0]) + FieldsOf(es[1..])
  }

  /** Every non-null value, in call order, each followed by one space. */
  function AllText(es: seq<Entry>): string
    decreases |es|
  {
    if |es| == 0 then ""
    else (if es[0].value.Some? then es[0].value.value + " " else "") + AllText(es[1..])
  }

  /** The value Lucene's `doc.get("_docID")` reads: the first `_docID` field. */
  function DocIdOf(d: Document): Option<string>
    decreases |d|
  {
    if |d| == 0 then None
    else if d[0].name == IdFieldName then Some(d[0].value)
    else DocIdOf(d[1..])
  }

  /** Whether a delete by the term `_docID = id` matches the document. */
  predicate HasId(d: Document, id: string) {
    exists k :: 0 <= k < |d| && d[k].name == IdFieldName && d[k].value == id
  }

  lemma {:induction false} FieldsForWidth(e: Entry)
    ensures |FieldsFor(e)| == Width(e)
  {
  }

  lemma {:induction false} FieldsOfLength(es: seq<Entry>)
    ensures |FieldsOf(es)| == TotalWidth(es)
    decreases |es|
  {
    if |es| > 0 {
      FieldsForWidth(es[0]);
      FieldsOfLength(es[1..]);
    }
  }

  /** One call appends exactly its reference fields and its reference text. */
  lemma AddFieldIsReference(b: Builder, e: Entry)
    ensures AddField(b, e.name, e.value, e.spec).fields == b.fields + FieldsFor(e)
    ensures AddField(b, e.name, e.value, e.spec).allValue
         == b.allValue + (if e.value.Some? then e.value.value + " " else "")
  {
    if e.value.None? {
      assert FieldsFor(e) == [];
    }
  }

  /** Feeding the calls one by one appends the reference fields and text:
      the builder's left-to-right accumulation agrees with the declarative
      concatenation. */
  lemma {:induction false} FillIsReference(b: Builder, es: seq<Entry>)
    ensures Fill(b, es).fields == b.fields + FieldsOf(es)
    ensures Fill(b, es).allValue == b.allValue + AllText(es)
    decreases |es|
  {
    if |es| == 0 {
      assert b.fields + FieldsOf(es) == b.fields;
      assert b.allValue + AllText(es) == b.allValue;
    } else {
      var b1 := AddField(b, es[0].name, es[0].value, es[0].spec);
      AddFieldIsReference(b, es[0]);
      FillIsReference(b1, es[1..]);
      assert Fill(b, es) == Fill(b1, es[1..]);
      var head := if es[0].value.Some? then es[0].value.value + " " else "";
      calc {
        Fill(b, es).fields;
        b1.fields + FieldsOf(es[1..]);
        (b.fields + FieldsFor(es[0])) + FieldsOf(es[1..]);
        b.fields + (FieldsFor(es[0]) + FieldsOf(es[1..]));
      }
      calc {
        Fill(b, es).allValue;
        b1.allValue + AllText(es[1..]);
        (b.allValue + head) + AllText(es[1..]);
        b.allValue + (head + AllText(es[1..]));
      }
    }
  }

  /** The shape of a finished document: `_docID` first, `allfield` last,
      the calls' fields in between, one or two per non-null value. */
  lemma BuildShape(docId: string, es: seq<Entry>)
    ensures var d := Build(docId, es);
      && |d| == TotalWidth(es) + 2
      && d[0] == IdField(docId)
      && d[|d| - 1] == AllField(AllText(es))
      && d[1..|d| - 1] == FieldsOf(es)
  {
    FillIsReference(NewBuilder(docId), es);
    FieldsOfLength(es);
    var b := Fill(NewBuilder(docId), es);
    assert "" + AllText(es) == AllText(es);
    assert b.allValue == AllText(es);
    var d := Build(docId, es);
    assert d == [IdField(docId)] + FieldsOf(es) + [AllField(AllText(es))];
  }

  /** A finished document is found by its key, both by a delete term and by
      a stored-field read. */
  lemma BuildKeyed(docId: string, es: seq<Entry>)
    ensures HasId(Build(docId, es), docId)
    ensures DocIdOf(Build(docId, es)) == Some(docId)
  {
    BuildShape(docId, es);
    var d := Build(docId, es);
    assert d[0].name == IdFieldName && d[0].value == docId;
  }

  /** Null values leave no trace: dropping every call with a null value
      changes neither the fields nor the aggregate text. */
  function NonNull(es: seq<Entry>): (r: seq<Entry>)
    ensures forall k :: 0 <= k < |r| ==> r[k].value.Some?
    ensures |r| <= |es|
    decreases |es|
  {
    if |es| == 0 then []
    else if es[0].value.None? then NonNull(es[1..])
    else [es[0]] + NonNull(es[1..])
  }

  lemma {:induction false} NullValuesIgnored(docId: string, es: seq<Entry>)
    ensures Build(docId, NonNull(es)) == Build(docId, es)
  {
    NullFree(es);
    FillIsReference(NewBuilder(docId), es);
    FillIsReference(NewBuilder(docId), NonNull(es));
  }

  lemma {:induction false} NullFree(es: seq<Entry>)
    ensures FieldsOf(NonNull(es)) == FieldsOf(es)
    ensures AllText(NonNull(es)) == AllText(es)
    decreases |es|
  {
    if |es| > 0 {
      NullFree(es[1..]);
      if es[0].value.Some? {
        var t := NonNull(es[1..]);
        assert ([es[0]] + t)[0] == es[0];
        assert ([es[0]] + t)[1..] == t;
      }
    }
  }
}
