/** The query builder that callers see: values are bound in order and printed at once, and the
    template is rewritten when the query is finished. */
module PortableQueries {
  import opened Basics
  import opened SqlGrammar
  import opened SqlScanner
  import opened SqlLiterals
  import opened SqlStructure
  import opened SqlPreservation

  datatype QueryError = Encoding | Template(error: ScanError)

  predicate KeepsStructure(template: bytes, segs: seq<Segment>, values: seq<Literal>) {
    && Segmentation(template, segs) && PlainlyDelimited([], segs)
    && AllBound(segs, |values|) && StructuredAll(values) && NamesApart(segs, Printed(values))
  }

  class PortableQuery {
    const template: bytes
    var fragments: seq<bytes>
    var pendingError: bool
    ghost var values: seq<Literal>

    /** Either every value bound so far is printed in order, or some value could not be. */
    ghost predicate Valid()
      reads this
    {
      && Utf8(template)
      && (pendingError <==> exists v :: v in values && !Encodable(v))
      && (!pendingError ==> fragments == Printed(values))
    }

    constructor (sql: bytes)
      requires Utf8(sql)
      ensures Valid() && template == sql && values == []
    {
      template := sql;
      fragments := [];
      pendingError := false;
      values := [];
    }

    /** An encoding failure is deferred, and stops later values from being printed. */
    method Bind(value: Literal)
      requires Valid()
      modifies this
      ensures Valid() && values == old(values) + [value]
    {
      if !pendingError {
        var fragment := new SqlText();
        var ok := fragment.Encode(value);
        if ok {
          assert [] + Print(value) == Print(value);
          fragments := fragments + [fragment.sql];
        } else {
          pendingError := true;
        }
      }
      values := values + [value];
      assert value in values;
      assert forall v | v in values :: v in old(values) || v == value;
    }

    /** Finishes the query: the deferred error, the template's error, or the rendered SQL, which
        keeps the structure of a template whose placeholders are plainly delimited. */
    method IntoRawSql() returns (r: Result<bytes, QueryError>)
      requires Valid()
      ensures (exists v :: v in values && !Encodable(v)) ==> r == Err(Encoding)
      ensures (forall v | v in values :: Encodable(v)) ==>
                match RenderFrom([], template, Printed(values))
                case Ok(sql) => r == Ok(sql)
                case Err(e) => r == Err(Template(e))
      ensures forall segs | KeepsStructure(template, segs, values) && r.Ok? ::
                Segments([], r.value) == Ok(Spliced(segs, SegmentsOfAll(values)))
    {
      if pendingError {
        return Err(Encoding);
      }
      forall segs | KeepsStructure(template, segs, values)
        ensures var out := RenderFrom([], template, fragments);
                out.Ok? && Segments([], out.value) == Ok(Spliced(segs, SegmentsOfAll(values)))
      {
        BoundValuesNeverChangeStructure(template, segs, values);
      }
      var rendered := RenderPortableQuerySql(template, fragments);
      match rendered
      case Ok(sql) => return Ok(sql);
      case Err(e) => return Err(Template(e));
    }
  }
}
