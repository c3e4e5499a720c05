/**
 * Inference of the topic a single SQL statement of a test case implies
 * (`createTopicFromStatement` with its `extractTopic` step), together with the
 * replay of `REGISTER TYPE` statements into the test case's metastore
 * (`registerType`) and the statement classification (`isCsOrCT`).
 *
 * Every exception raised while a statement is handled is caught, so the
 * outcome for a statement is a topic or no topic, never an error; the
 * metastore, which the caller shares across all statements of the test case,
 * is threaded through explicitly.
 */
module TopicExtraction {
  import opened Wrappers
  import opened Ksql

  /**
   * `isCsOrCT`: the statement is a `CREATE STREAM` or a `CREATE TABLE`. It is
   * never a `REGISTER TYPE`, so the two tests of the loop body are exclusive.
   */
  function IsCsOrCT(stmt: ParsedStatement): (b: bool)
    ensures b ==> stmt.context != RegisterTypeContext && stmt.context != OtherContext
    ensures !b <==> stmt.context == RegisterTypeContext || stmt.context == OtherContext
  {
    stmt.context == CreateStreamContext || stmt.context == CreateTableContext
  }

  /**
   * `registerType`: a prepared `REGISTER TYPE` binds its name in the catalog;
   * any other prepared statement leaves the catalog alone.
   */
  function RegisterTypeIn(prepared: Statement, catalog: Catalog): (r: Catalog)
    ensures !prepared.RegisterType? ==> r == catalog
    ensures prepared.RegisterType? ==>
              prepared.typeName in r && r[prepared.typeName] == prepared.sqlType
              && r.Keys == catalog.Keys + {prepared.typeName}
    ensures forall n :: n in catalog && !(prepared.RegisterType? && n == prepared.typeName) ==>
              n in r && r[n] == catalog[n]
  {
    match prepared
    case RegisterType(name, sqlType) => catalog[name := sqlType]
    case _ => catalog
  }

  /**
   * The serde options for a create statement, or no features at all when the
   * factory throws, so that a negative test fails later, where it expects to.
   */
  function SerdeOptionsOrNone(
    schema: LogicalSchema, keyFormat: Format, valueFormat: Format,
    declared: set<SerdeFeature>, e: Engine): (r: SerdeOptions)
    ensures e.buildSerdeOptions(schema, keyFormat, valueFormat, declared).Failure? ==> r == NoSerdeOptions
    ensures e.buildSerdeOptions(schema, keyFormat, valueFormat, declared).Success? ==>
              r == e.buildSerdeOptions(schema, keyFormat, valueFormat, declared).value
  {
    match e.buildSerdeOptions(schema, keyFormat, valueFormat, declared)
    case Success(options) => options
    case Failure(_) => NoSerdeOptions
  }

  /**
   * The value schema of a create statement: none unless the value format
   * supports schema inference and the statement declares value columns.
   */
  function ValueSchema(
    props: CreateSourceProperties, elements: TableElements,
    keyFormat: Format, valueFormat: Format, e: Engine): (r: Result<Option<ParsedSchema>, Error>)
    ensures !valueFormat.supportsSchemaInference ==> r == Success(None)
    ensures valueFormat.supportsSchemaInference && e.toLogicalSchema(elements).Failure? ==>
              r == Failure(e.toLogicalSchema(elements).error)
    ensures valueFormat.supportsSchemaInference && e.toLogicalSchema(elements).Success? ==>
              var schema := e.toLogicalSchema(elements).value;
              var features := SerdeOptionsOrNone(schema, keyFormat, valueFormat, props.serdeOptions, e).valueFeatures;
              var parsed := e.toParsedSchema(valueFormat, PersistenceSchema(schema.value, features), props.valueFormat);
              && (|schema.value| == 0 ==> r == Success(None))
              && (|schema.value| > 0 && parsed.Failure? ==> r == Failure(parsed.error))
              && (|schema.value| > 0 && parsed.Success? ==> r == Success(Some(parsed.value)))
  {
    if !valueFormat.supportsSchemaInference then Success(None)
    else
      var schema :- e.toLogicalSchema(elements);
      var options := SerdeOptionsOrNone(schema, keyFormat, valueFormat, props.serdeOptions, e);
      if |schema.value| == 0 then Success(None)
      else
        var parsed :- e.toParsedSchema(
          valueFormat, PersistenceSchema(schema.value, options.valueFeatures), props.valueFormat);
        Success(Some(parsed))
  }

  /** The statement's formats resolve, and so does everything schema inference needs. */
  predicate Extractable(stmt: Statement, e: Engine) {
    && stmt.CreateSource?
    && var props := stmt.properties;
    && e.formatOf(props.keyFormat).Success?
    && e.formatOf(props.valueFormat).Success?
    && var keyFormat := e.formatOf(props.keyFormat).value;
    && var valueFormat := e.formatOf(props.valueFormat).value;
    && (valueFormat.supportsSchemaInference ==>
          && e.toLogicalSchema(stmt.elements).Success?
          && var schema := e.toLogicalSchema(stmt.elements).value;
          && var options := SerdeOptionsOrNone(schema, keyFormat, valueFormat, props.serdeOptions, e);
          && (|schema.value| > 0 ==>
                e.toParsedSchema(valueFormat, PersistenceSchema(schema.value, options.valueFeatures), props.valueFormat).Success?))
  }

  /** The value format infers schemas and the statement declares at least one value column. */
  predicate InfersValueSchema(stmt: Statement, e: Engine)
    requires stmt.CreateSource?
  {
    && e.formatOf(stmt.properties.valueFormat).Success?
    && e.formatOf(stmt.properties.valueFormat).value.supportsSchemaInference
    && e.toLogicalSchema(stmt.elements).Success?
    && |e.toLogicalSchema(stmt.elements).value.value| > 0
  }

  /**
   * The `extractTopic` step: the topic a prepared create statement describes,
   * or the exception raised on the way (a `ClassCastException` when the
   * prepared statement is not a create statement at all).
   */
  function ExtractTopic(stmt: Statement, e: Engine): (r: Result<Topic, Error>)
    ensures !stmt.CreateSource? ==> r == Failure(ClassCast)
    ensures r.Success? <==> Extractable(stmt, e)
    ensures r.Success? ==> r.value.name == stmt.properties.kafkaTopic
    ensures r.Success? ==>
              r.value.partitions == (if stmt.properties.partitions.Some? then stmt.properties.partitions.value
                                     else DefaultPartitions)
    ensures r.Success? ==>
              r.value.replicas == (if stmt.properties.replicas.Some? then stmt.properties.replicas.value
                                   else DefaultReplicas)
    ensures r.Success? ==> (r.value.valueSchema.Some? <==> InfersValueSchema(stmt, e))
  {
    match stmt
    case CreateSource(props, elements) =>
      var keyFormat :- e.formatOf(props.keyFormat);
      var valueFormat :- e.formatOf(props.valueFormat);
      var valueSchema :- ValueSchema(props, elements, keyFormat, valueFormat, e);
      Success(Topic(
        props.kafkaTopic,
        props.partitions.GetOr(DefaultPartitions),
        props.replicas.GetOr(DefaultReplicas),
        valueSchema))
    case _ => Failure(ClassCast)
  }

  /**
   * The value schema of an extracted topic, when there is one, is the value
   * format's native form of the value columns with the value serde features
   * in force, tagged with the value `FormatInfo`.
   */
  lemma ExtractedSchema(stmt: Statement, e: Engine)
    requires ExtractTopic(stmt, e).Success? && InfersValueSchema(stmt, e)
    ensures var props := stmt.properties;
            var keyFormat := e.formatOf(props.keyFormat).value;
            var valueFormat := e.formatOf(props.valueFormat).value;
            var schema := e.toLogicalSchema(stmt.elements).value;
            var options := SerdeOptionsOrNone(schema, keyFormat, valueFormat, props.serdeOptions, e);
            ExtractTopic(stmt, e).value.valueSchema
            == Some(e.toParsedSchema(valueFormat, PersistenceSchema(schema.value, options.valueFeatures), props.valueFormat).value)
  {
  }

  /**
   * A failing serde-options factory does not abort extraction: the topic is
   * the one extraction gives when the factory returns no features.
   */
  lemma SerdeFailureFallsBack(stmt: Statement, e: Engine)
    requires stmt.CreateSource?
    requires e.formatOf(stmt.properties.keyFormat).Success?
    requires e.formatOf(stmt.properties.valueFormat).Success?
    requires e.toLogicalSchema(stmt.elements).Success?
    requires e.buildSerdeOptions(
               e.toLogicalSchema(stmt.elements).value,
               e.formatOf(stmt.properties.keyFormat).value,
               e.formatOf(stmt.properties.valueFormat).value,
               stmt.properties.serdeOptions).Failure?
    ensures ExtractTopic(stmt, e)
            == ExtractTopic(stmt, e.(buildSerdeOptions := (_, _, _, _) => Success(NoSerdeOptions)))
  {
  }

  /** The pipeline for one create statement: prepare, inject default formats, extract. */
  function TopicOf(stmt: ParsedStatement, catalog: Catalog, e: Engine): Result<Topic, Error> {
    var prepared :- e.prepare(stmt, catalog);
    var withFormats :- e.injectFormats(prepared);
    ExtractTopic(withFormats, e)
  }

  /**
   * A create statement gives a topic exactly when it prepares against the
   * catalog, the default formats can be injected, and the result is
   * extractable; the topic is the one extracted from the injected statement.
   */
  lemma TopicOfSpec(stmt: ParsedStatement, catalog: Catalog, e: Engine)
    ensures TopicOf(stmt, catalog, e).Success? <==>
              && e.prepare(stmt, catalog).Success?
              && e.injectFormats(e.prepare(stmt, catalog).value).Success?
              && Extractable(e.injectFormats(e.prepare(stmt, catalog).value).value, e)
    ensures TopicOf(stmt, catalog, e).Success? ==>
              TopicOf(stmt, catalog, e) == ExtractTopic(e.injectFormats(e.prepare(stmt, catalog).value).value, e)
  {
  }

  /** The catalog after handling a statement, and its topic, none, or the exception raised. */
  datatype Attempt = Attempt(catalog: Catalog, outcome: Result<Option<Topic>, Error>)

  /**
   * The body of the loop over the parsed statements: a `REGISTER TYPE` is
   * prepared and replayed into the catalog, a create statement yields its
   * topic, and anything else is skipped. (The two tests of the loop body are
   * exclusive: a `REGISTER TYPE` is never a create statement.)
   */
  function VisitStatement(stmt: ParsedStatement, catalog: Catalog, e: Engine): (r: Attempt)
    ensures stmt.context == RegisterTypeContext ==>
              && (r.outcome.Success? <==> e.prepare(stmt, catalog).Success?)
              && (r.outcome.Success? ==>
                    r.outcome.value.None? && r.catalog == RegisterTypeIn(e.prepare(stmt, catalog).value, catalog))
              && (r.outcome.Failure? ==> r.catalog == catalog)
    ensures IsCsOrCT(stmt) ==>
              && r.catalog == catalog
              && (r.outcome.Success? <==> TopicOf(stmt, catalog, e).Success?)
              && (r.outcome.Success? ==> r.outcome.value == Some(TopicOf(stmt, catalog, e).value))
    ensures stmt.context == OtherContext ==> r == Attempt(catalog, Success(None))
  {
    if stmt.context == RegisterTypeContext then
      match e.prepare(stmt, catalog)
      case Failure(err) => Attempt(catalog, Failure(err))
      case Success(prepared) => Attempt(RegisterTypeIn(prepared, catalog), Success(None))
    else if IsCsOrCT(stmt) then
      match TopicOf(stmt, catalog, e)
      case Failure(err) => Attempt(catalog, Failure(err))
      case Success(topic) => Attempt(catalog, Success(Some(topic)))
    else Attempt(catalog, Success(None))
  }

  /** The catalog after a run over parsed statements, and the topics found or the exception raised. */
  datatype Visit = Visit(catalog: Catalog, topics: Result<seq<Topic>, Error>)

  /** How many of the statements are create statements. */
  function CreateCount(parsed: seq<ParsedStatement>): nat
    decreases |parsed|
  {
    if |parsed| == 0 then 0 else (if IsCsOrCT(parsed[0]) then 1 else 0) + CreateCount(parsed[1..])
  }

  /**
   * The loop over the parsed statements, in order. An exception ends the run;
   * registrations made before it remain in the (mutable, shared) catalog.
   */
  function CollectTopics(parsed: seq<ParsedStatement>, catalog: Catalog, e: Engine): (v: Visit)
    ensures catalog.Keys <= v.catalog.Keys
    ensures v.topics.Success? ==> |v.topics.value| == CreateCount(parsed)
    ensures (forall i :: 0 <= i < |parsed| ==> parsed[i].context != RegisterTypeContext) ==> v.catalog == catalog
    decreases |parsed|
  {
    if |parsed| == 0 then Visit(catalog, Success([]))
    else
      var step := VisitStatement(parsed[0], catalog, e);
      match step.outcome
      case Failure(err) => Visit(step.catalog, Failure(err))
      case Success(topic) =>
        var rest := CollectTopics(parsed[1..], step.catalog, e);
        match rest.topics
        case Failure(err) => Visit(rest.catalog, Failure(err))
        case Success(topics) => Visit(rest.catalog, Success(topic.ToSeq() + topics))
  }

  /** Over a single statement, the loop is its body. */
  lemma CollectSingle(parsed: seq<ParsedStatement>, catalog: Catalog, e: Engine)
    ensures |parsed| == 1 ==>
              var step := VisitStatement(parsed[0], catalog, e);
              CollectTopics(parsed, catalog, e)
              == Visit(step.catalog, if step.outcome.Success? then Success(step.outcome.value.ToSeq())
                                     else Failure(step.outcome.error))
  {
    if |parsed| == 1 {
      assert parsed[1..] == [];
      var step := VisitStatement(parsed[0], catalog, e);
      if step.outcome.Success? {
        assert step.outcome.value.ToSeq() + [] == step.outcome.value.ToSeq();
      }
    }
  }

  /**
   * Over create statements alone, the loop leaves the catalog alone and
   * succeeds exactly when every statement's pipeline does; the topics are
   * then those pipelines' results, in statement order.
   */
  lemma {:induction false} CollectCreates(parsed: seq<ParsedStatement>, catalog: Catalog, e: Engine)
    requires forall i :: 0 <= i < |parsed| ==> IsCsOrCT(parsed[i])
    ensures CollectTopics(parsed, catalog, e).catalog == catalog
    ensures CollectTopics(parsed, catalog, e).topics.Success?
            <==> forall i :: 0 <= i < |parsed| ==> TopicOf(parsed[i], catalog, e).Success?
    ensures CollectTopics(parsed, catalog, e).topics.Success? ==>
              var topics := CollectTopics(parsed, catalog, e).topics.value;
              |topics| == |parsed| && forall i :: 0 <= i < |parsed| ==> topics[i] == TopicOf(parsed[i], catalog, e).value
    decreases |parsed|
  {
    if |parsed| > 0 {
      var rest := parsed[1..];
      assert forall i :: 0 <= i < |rest| ==> rest[i] == parsed[i + 1];
      CollectCreates(rest, catalog, e);
      var step := VisitStatement(parsed[0], catalog, e);
      assert step.catalog == catalog;
      var v := CollectTopics(parsed, catalog, e);
      var w := CollectTopics(rest, catalog, e);
      if v.topics.Success? {
        assert step.outcome == Success(Some(TopicOf(parsed[0], catalog, e).value));
        assert v.topics.value == [TopicOf(parsed[0], catalog, e).value] + w.topics.value;
      } else if step.outcome.Success? {
        assert w.topics.Failure?;
        var j :| 0 <= j < |rest| && TopicOf(rest[j], catalog, e).Failure?;
        assert TopicOf(parsed[j + 1], catalog, e).Failure?;
      }
    }
  }

  /**
   * The body of the `try` block of `createTopicFromStatement`: a parse error
   * or several statements raise before the catalog is touched; no statement
   * gives no topic; a single statement is handled by the loop body.
   */
  function TryCreateTopic(sql: string, catalog: Catalog, e: Engine): (r: Attempt)
    ensures e.parse(sql).Failure? ==> r == Attempt(catalog, Failure(e.parse(sql).error))
    ensures e.parse(sql).Success? && |e.parse(sql).value| > 1 ==>
              r == Attempt(catalog, Failure(IllegalArgument("SQL contains more than one statement: " + sql)))
    ensures e.parse(sql).Success? && |e.parse(sql).value| == 0 ==> r == Attempt(catalog, Success(None))
    ensures e.parse(sql).Success? && |e.parse(sql).value| == 1 ==>
              r == VisitStatement(e.parse(sql).value[0], catalog, e)
  {
    match e.parse(sql)
    case Failure(err) => Attempt(catalog, Failure(err))
    case Success(parsed) =>
      if |parsed| > 1 then
        Attempt(catalog, Failure(IllegalArgument("SQL contains more than one statement: " + sql)))
      else
        CollectSingle(parsed, catalog, e);
        var visit := CollectTopics(parsed, catalog, e);
        match visit.topics
        case Failure(err) => Attempt(visit.catalog, Failure(err))
        case Success(topics) => Attempt(visit.catalog, Success(if |topics| == 0 then None else Some(topics[0])))
  }

  /** The statement parses to exactly one statement, recognised by the given rule. */
  predicate SingleStatement(sql: string, e: Engine, context: StatementContext) {
    e.parse(sql).Success? && |e.parse(sql).value| == 1 && e.parse(sql).value[0].context == context
  }

  /** The statement parses to exactly one create statement. */
  predicate SingleCreate(sql: string, e: Engine) {
    SingleStatement(sql, e, CreateStreamContext) || SingleStatement(sql, e, CreateTableContext)
  }

  /**
   * `createTopicFromStatement`: every exception is caught (the statement may be
   * a deliberately broken fixture), and the statement then contributes no topic.
   */
  function CreateTopicFromStatement(sql: string, catalog: Catalog, e: Engine): (r: Extraction)
    ensures r.topic.Some? <==> SingleCreate(sql, e) && TopicOf(e.parse(sql).value[0], catalog, e).Success?
    ensures r.topic.Some? ==> r.topic.value == TopicOf(e.parse(sql).value[0], catalog, e).value
    ensures r.catalog == (if SingleStatement(sql, e, RegisterTypeContext)
                             && e.prepare(e.parse(sql).value[0], catalog).Success?
                          then RegisterTypeIn(e.prepare(e.parse(sql).value[0], catalog).value, catalog)
                          else catalog)
    ensures catalog.Keys <= r.catalog.Keys
  {
    var attempt := TryCreateTopic(sql, catalog, e);
    match attempt.outcome
    case Success(topic) => Extraction(attempt.catalog, topic)
    case Failure(_) => Extraction(attempt.catalog, None)
  }

  /** A single `REGISTER TYPE` that prepares binds its type in the metastore later statements see. */
  lemma RegisteredTypeBound(sql: string, catalog: Catalog, name: string, sqlType: SqlType, e: Engine)
    requires SingleStatement(sql, e, RegisterTypeContext)
    requires e.prepare(e.parse(sql).value[0], catalog) == Success(RegisterType(name, sqlType))
    ensures CreateTopicFromStatement(sql, catalog, e) == Extraction(catalog[name := sqlType], None)
  {
  }

  /**
   * Several statements in one string raise an `IllegalArgumentException`
   * inside the `try` block, and the handler turns it into "no topic".
   */
  lemma MultipleStatementsYieldNoTopic(sql: string, catalog: Catalog, e: Engine)
    requires e.parse(sql).Success? && |e.parse(sql).value| > 1
    ensures TryCreateTopic(sql, catalog, e).outcome
            == Failure(IllegalArgument("SQL contains more than one statement: " + sql))
    ensures CreateTopicFromStatement(sql, catalog, e) == Extraction(catalog, None)
  {
  }

  /**
   * A statement that does not parse, parses to several statements or to none,
   * or is neither a type registration nor a create statement.
   */
  predicate Inert(sql: string, e: Engine) {
    || e.parse(sql).Failure?
    || |e.parse(sql).value| != 1
    || e.parse(sql).value[0].context == OtherContext
  }

  /** Such a statement yields no topic and leaves the catalog as it was, whatever the catalog. */
  lemma InertStatementChangesNothing(sql: string, catalog: Catalog, e: Engine)
    requires Inert(sql, e)
    ensures CreateTopicFromStatement(sql, catalog, e) == Extraction(catalog, None)
  {
  }
}
