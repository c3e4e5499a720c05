/**
 * The data the topic inference works on, and the engine collaborators it
 * calls: the SQL parser, statement preparation, the format injector, the
 * format registry, the logical-schema builder, the serde-options factory and
 * the conversion to a format's native schema. Their code is not part of this
 * model; each is a function value returning `Success` or, where the
 * collaborator throws, `Failure`. The engine configuration and function
 * registry those calls receive are fixed for one test case and are captured
 * inside the function values.
 */
module Ksql {
  import opened Wrappers

  /** Java `int`. */
  type Int32 = x: int | -0x8000_0000 <= x < 0x8000_0000

  /** Java `short`. */
  type Int16 = x: int | -0x8000 <= x < 0x8000

  /** An exception raised while handling a statement; only its occurrence matters. */
  datatype Error =
    | IllegalArgument(message: string)
    | ClassCast
    | Raised(message: string)

  /** A SQL type a `REGISTER TYPE` statement names (opaque). */
  datatype SqlType = SqlType(definition: string)

  /** The custom types of the test case's metastore, by name. */
  type Catalog = map<string, SqlType>

  const EmptyCatalog: Catalog := map[]

  /** The grammar rule a parsed statement was recognised by. */
  datatype StatementContext =
    | RegisterTypeContext
    | CreateStreamContext
    | CreateTableContext
    | OtherContext

  /** A statement as the parser returns it: its text and its syntax-tree root. */
  datatype ParsedStatement = ParsedStatement(text: string, context: StatementContext)

  /** `FormatInfo`: a format name with its properties (opaque). */
  datatype FormatInfo = FormatInfo(name: string)

  /** `Format`: what the format registry resolves a `FormatInfo` to. */
  datatype Format = Format(name: string, supportsSchemaInference: bool)

  /** A serialization feature such as wrapping or unwrapping single values (opaque). */
  datatype SerdeFeature = SerdeFeature(name: string)

  /** `SerdeOptions`: the key and value serialization features in force. */
  datatype SerdeOptions = SerdeOptions(keyFeatures: set<SerdeFeature>, valueFeatures: set<SerdeFeature>)

  /** `SerdeOptions.of()`: no features. */
  const NoSerdeOptions := SerdeOptions({}, {})

  /** A column of a logical schema. */
  datatype Column = Column(name: string, sqlType: SqlType)

  /** `LogicalSchema`: the key columns and the value columns. */
  datatype LogicalSchema = LogicalSchema(key: seq<Column>, value: seq<Column>)

  /** `PersistenceSchema.from(columns, features)`. */
  datatype PersistenceSchema = PersistenceSchema(columns: seq<Column>, features: set<SerdeFeature>)

  /** A schema in a format's native representation (`ParsedSchema`, opaque). */
  datatype ParsedSchema = ParsedSchema(definition: string)

  /** The column definitions of a `CREATE` statement, as written (opaque). */
  datatype TableElements = TableElements(definition: string)

  /** The `WITH (...)` properties of a `CREATE STREAM` or `CREATE TABLE` statement. */
  datatype CreateSourceProperties = CreateSourceProperties(
    kafkaTopic: string,
    keyFormat: FormatInfo,
    valueFormat: FormatInfo,
    partitions: Option<Int32>,
    replicas: Option<Int16>,
    serdeOptions: set<SerdeFeature>)

  /** A prepared statement: the syntax tree with its types resolved. */
  datatype Statement =
    | RegisterType(typeName: string, sqlType: SqlType)
    | CreateSource(properties: CreateSourceProperties, elements: TableElements)
    | OtherStatement

  /** The collaborators the inference calls, with the configuration they close over. */
  datatype Engine = Engine(
    parse: string -> Result<seq<ParsedStatement>, Error>,
    prepare: (ParsedStatement, Catalog) -> Result<Statement, Error>,
    injectFormats: Statement -> Result<Statement, Error>,
    formatOf: FormatInfo -> Result<Format, Error>,
    toLogicalSchema: TableElements -> Result<LogicalSchema, Error>,
    buildSerdeOptions: (LogicalSchema, Format, Format, set<SerdeFeature>) -> Result<SerdeOptions, Error>,
    toParsedSchema: (Format, PersistenceSchema, FormatInfo) -> Result<ParsedSchema, Error>)

  /** `Topic.DEFAULT_PARTITIONS`. */
  const DefaultPartitions: Int32 := 1

  /** `Topic.DEFAULT_RF`. */
  const DefaultReplicas: Int16 := 1

  /** A topic a test case needs: its name, partition count, replication factor and value schema. */
  datatype Topic = Topic(name: string, partitions: Int32, replicas: Int16, valueSchema: Option<ParsedSchema>)

  /** What handling one statement leaves: the metastore's types and the topic it implies, if any. */
  datatype Extraction = Extraction(catalog: Catalog, topic: Option<Topic>)

  /** A sample input or output record; only its topic's name matters here. */
  datatype Record = Record(topicName: string)
}
