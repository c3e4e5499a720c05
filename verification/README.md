# Topic inference for ksqlDB functional tests

A ksqlDB functional test case is a JSON file that holds SQL statements,
explicitly declared topics, and sample input and output records. Before the
test runs, the test-case builder works out every Kafka topic the test needs.
For each topic it determines the name, partition count, replication factor
and, where the value format supports schema inference, the value schema.
The same utility class also builds the display names of test cases and
substitutes the test's format into its statements.

This project is a Dafny model of that utility class, `TestCaseBuilderUtil`.
It has these parts:

- `wrappers.dfy` (`Wrappers`) holds `Option` and `Result`.
- `strings.dfy` (`Strings`) holds the string operations the class relies on:
  - `String.replace` on a literal target, with its characterisation as a split followed by a join;
  - `lastIndexOf` and the cuts before and after it.
- `test_names.dfy` (`TestNames`) holds:
  - `buildTestName` and `extractSimpleTestName`;
  - `filePrefix` and the file-name handling it uses: `java.io.File` normalisation and Guava's `getNameWithoutExtension`.
- `statement_templates.dfy` (`StatementTemplates`) holds `buildStatements`, the `{FORMAT}` substitution.
- `ksql.dfy` (`Ksql`) holds:
  - the data: parsed and prepared statements, create-statement properties, formats, schemas, topics and records;
  - the `Engine`, a record of the collaborators the inference calls: the SQL parser, statement preparation, the default format injector, the format factory, the logical-schema builder, the serde-options factory and the conversion to a format's native schema.
- `topic_extraction.dfy` (`TopicExtraction`) holds:
  - `createTopicFromStatement`, with its `extractTopic` step;
  - `registerType`;
  - `isCsOrCT` (the predicate `IsCsOrCT`).
- `statement_runs.dfy` (`StatementRuns`) holds the loop of `getAllTopics` over the statements, for any way of handling one statement: each statement sees the metastore the earlier ones left, and the topics come out in statement order.
- `topic_aggregation.dfy` (`TopicAggregation`) holds `getAllTopics`, with `createTopicFromStatement` as the way each statement is handled.

How the model treats the class:

- Each collaborator is a function value that returns `Success`, or `Failure` where the Java code would throw.
- Every exception raised inside `createTopicFromStatement` is caught there, so a statement yields a topic or nothing, never an error.
- The metastore that all statements of a test case share is modelled as a `Catalog`, a map from type name to SQL type. It is threaded from one statement to the next.
- `getAllTopics` merges three sources into a map keyed by topic name:
  - declared topics, with `put`, so the last declaration of a name wins;
  - inferred topics, with `putIfAbsent`, so the earliest statement wins and a declared topic is never replaced;
  - record topics, with `putIfAbsent`.

One behaviour of the code as written deserves a note. When a string parses to
more than one statement, `createTopicFromStatement` throws an
`IllegalArgumentException`. It throws inside its own `try` block, so its own
handler catches the exception and the statement yields no topic. The
exception does not reach the caller. The model follows the code, as
`TopicExtraction.MultipleStatementsYieldNoTopic` states.

## Model

| member | source | states |
|---|---|---|
| TestNames.FileNameSpec | ksqldb-functional-tests/src/main/java/io/confluent/ksql/test/tools/TestCaseBuilderUtil.java:233-235 | The file name of a path is the longest `/`-free suffix of the path once its trailing `/` characters are dropped. |
| TestNames.StemSpec | ksqldb-functional-tests/src/main/java/io/confluent/ksql/test/tools/TestCaseBuilderUtil.java:233-235 | The name without extension is a prefix of the file name. It is the whole file name when the name has no `.`, and otherwise stops exactly at the last `.`. It never holds `/`. |
| TestNames.FilePrefix | ksqldb-functional-tests/src/main/java/io/confluent/ksql/test/tools/TestCaseBuilderUtil.java:233-235 | The prefix is the file name without its extension followed by ` - `. It never holds `/`. |
| TestNames.BuildTestName | ksqldb-functional-tests/src/main/java/io/confluent/ksql/test/tools/TestCaseBuilderUtil.java:69-81 | The display name starts with the file prefix `<stem> - `, continues with the test name, and ends with ` - <format>` exactly when a format is given. |
| TestNames.ExtractSimpleTestName | ksqldb-functional-tests/src/main/java/io/confluent/ksql/test/tools/TestCaseBuilderUtil.java:83-94 | It fails with `IllegalArgument("Not prefixed test name: " + name)` exactly when the name does not start with the file prefix. Otherwise it returns the rest of the name, so that prefix + result == name. |
| TestNames.ExtractBuiltName | ksqldb-functional-tests/src/main/java/io/confluent/ksql/test/tools/TestCaseBuilderUtil.java:69-94 | Round trip: extracting from a built name succeeds and gives the test name followed by the format suffix. |
| TestNames.BuildExtractedName | ksqldb-functional-tests/src/main/java/io/confluent/ksql/test/tools/TestCaseBuilderUtil.java:69-94 | Converse round trip: building from what was extracted (without a format) gives back the original name. |
| TestNames.BuildTestNameExample | ksqldb-functional-tests/src/main/java/io/confluent/ksql/test/tools/TestCaseBuilderUtil.java:69-81 | `dir/MyTest.json`, `case1` and `JSON` give `MyTest - case1 - JSON`. Without a format they give `MyTest - case1`. |
| TestNames.ExtractSimpleTestNameExample | ksqldb-functional-tests/src/main/java/io/confluent/ksql/test/tools/TestCaseBuilderUtil.java:83-94 | `MyTest - case1 - JSON` under `dir/MyTest.json` gives `case1 - JSON`. An unprefixed name fails. |
| TestNames.FormatNotRecoverable | ksqldb-functional-tests/src/main/java/io/confluent/ksql/test/tools/TestCaseBuilderUtil.java:76-80 | For every path, test name and format, building with the format gives the same display name as building without a format from the test name followed by ` - <format>`: a format suffix cannot be told apart from a test name that ends that way. |
| Strings.ReplaceIsJoinOfSplit | ksqldb-functional-tests/src/main/java/io/confluent/ksql/test/tools/TestCaseBuilderUtil.java:103 | Replacing a literal target is the same as splitting at its non-overlapping occurrences from the left and joining with the replacement. |
| Strings.ReplaceAbsent | ksqldb-functional-tests/src/main/java/io/confluent/ksql/test/tools/TestCaseBuilderUtil.java:103 | A string that does not contain the target is returned unchanged. |
| Strings.ReplaceBySelf | ksqldb-functional-tests/src/main/java/io/confluent/ksql/test/tools/TestCaseBuilderUtil.java:103 | Replacing the target by itself gives back the original string. |
| StatementTemplates.ErrorTextHasPlaceholder | ksqldb-functional-tests/src/main/java/io/confluent/ksql/test/tools/TestCaseBuilderUtil.java:63-64 | The text substituted when no format is set itself contains `{FORMAT}`. |
| StatementTemplates.BuildStatements | ksqldb-functional-tests/src/main/java/io/confluent/ksql/test/tools/TestCaseBuilderUtil.java:96-105 | It keeps the number and order of the statements. Each statement's `{FORMAT}` occurrences are replaced by the format, or by the error text when no format is set. A statement without the placeholder is unchanged. Without a format, a statement contains the placeholder afterwards exactly when it did before. |
| StatementTemplates.KeepsPlaceholder | ksqldb-functional-tests/src/main/java/io/confluent/ksql/test/tools/TestCaseBuilderUtil.java:100-103 | Without a format, the replacement never removes the last placeholder, because the error text reintroduces it. |
| StatementTemplates.Instantiate | ksqldb-functional-tests/src/main/java/io/confluent/ksql/test/tools/TestCaseBuilderUtil.java:100-103 | One statement's substitution is the split at `{FORMAT}` joined with the format or the error text. A statement without the placeholder is unchanged. Without a format, the result contains the placeholder exactly when the statement did. |
| TopicExtraction.IsCsOrCT | ksqldb-functional-tests/src/main/java/io/confluent/ksql/test/tools/TestCaseBuilderUtil.java:228-231 | The test holds exactly for `CREATE STREAM` and `CREATE TABLE`. It never holds for a `REGISTER TYPE`, so the two tests of the loop body never both apply. |
| TopicExtraction.RegisterTypeIn | ksqldb-functional-tests/src/main/java/io/confluent/ksql/test/tools/TestCaseBuilderUtil.java:221-226 | A prepared `REGISTER TYPE` binds its name to its type and adds exactly that name. Every other binding stays. Any other prepared statement leaves the catalog unchanged. |
| TopicExtraction.SerdeOptionsOrNone | ksqldb-functional-tests/src/main/java/io/confluent/ksql/test/tools/TestCaseBuilderUtil.java:156-168 | It gives the factory's serde options when the factory succeeds, and no features when it throws. |
| TopicExtraction.ValueSchema | ksqldb-functional-tests/src/main/java/io/confluent/ksql/test/tools/TestCaseBuilderUtil.java:152-178 | There is no schema when the value format does not infer schemas, or when there are no value columns. A failure to build the logical schema or the native schema propagates. Otherwise the schema is the format's native form of the value columns, with the value features of the serde options in force. |
| TopicExtraction.ExtractTopic | ksqldb-functional-tests/src/main/java/io/confluent/ksql/test/tools/TestCaseBuilderUtil.java:144-187 | A statement other than a create statement fails the cast. Extraction succeeds exactly when both formats resolve and, where the value format infers schemas, the logical schema and the native value schema can be built. The topic carries the statement's Kafka topic name and its partitions and replicas, falling back to 1 and 1. It has a value schema exactly when the format infers schemas and there is at least one value column. |
| TopicExtraction.ExtractedSchema | ksqldb-functional-tests/src/main/java/io/confluent/ksql/test/tools/TestCaseBuilderUtil.java:170-175 | When the extracted topic has a value schema, it is the value format's native schema of the value columns, built with the value features of the serde options (no features if the factory throws) and tagged with the value `FormatInfo`. |
| TopicExtraction.SerdeFailureFallsBack | ksqldb-functional-tests/src/main/java/io/confluent/ksql/test/tools/TestCaseBuilderUtil.java:156-168 | When the serde-options factory throws, extraction gives the same outcome as with a factory that returns no features. |
| TopicExtraction.TopicOfSpec | ksqldb-functional-tests/src/main/java/io/confluent/ksql/test/tools/TestCaseBuilderUtil.java:203-208 | A create statement gives a topic exactly when it prepares against the metastore, the default formats can be injected, and the injected statement is extractable. The topic is the one extracted from the injected statement. |
| TopicExtraction.VisitStatement | ksqldb-functional-tests/src/main/java/io/confluent/ksql/test/tools/TestCaseBuilderUtil.java:196-210 | A `REGISTER TYPE` succeeds exactly when it prepares. On success it yields no topic and the catalog becomes the prepared statement's registration. On failure the catalog is unchanged. A create statement leaves the catalog unchanged and succeeds exactly when its prepare, inject and extract pipeline does, yielding that pipeline's topic. Any other statement yields nothing and changes nothing. |
| TopicExtraction.CollectTopics | ksqldb-functional-tests/src/main/java/io/confluent/ksql/test/tools/TestCaseBuilderUtil.java:195-210 | The loop only adds names to the catalog. On success it finds exactly one topic per create statement. Without a `REGISTER TYPE` among the statements the catalog is unchanged. |
| TopicExtraction.CollectCreates | ksqldb-functional-tests/src/main/java/io/confluent/ksql/test/tools/TestCaseBuilderUtil.java:195-210 | Over create statements alone, the catalog is unchanged. The loop succeeds exactly when every statement's pipeline succeeds, and the topics are then the pipelines' results in statement order. |
| TopicExtraction.CollectSingle | ksqldb-functional-tests/src/main/java/io/confluent/ksql/test/tools/TestCaseBuilderUtil.java:195-212 | Over a single statement, the loop gives that statement's catalog, and its topic (if any) or its exception. |
| TopicExtraction.TryCreateTopic | ksqldb-functional-tests/src/main/java/io/confluent/ksql/test/tools/TestCaseBuilderUtil.java:189-212 | A parse error propagates with the catalog untouched. Several statements raise `IllegalArgumentException("SQL contains more than one statement: " + sql)` before the catalog is touched. No statement gives no topic. A single statement gives exactly what the loop body gives for it. |
| TopicExtraction.CreateTopicFromStatement | ksqldb-functional-tests/src/main/java/io/confluent/ksql/test/tools/TestCaseBuilderUtil.java:137-219 | There is a topic exactly when the string parses to one `CREATE STREAM` or `CREATE TABLE` whose prepare, inject and extract pipeline succeeds, and the topic is that pipeline's result. The catalog changes only by the registration of a single `REGISTER TYPE` statement that prepares successfully. |
| TopicExtraction.RegisteredTypeBound | ksqldb-functional-tests/src/main/java/io/confluent/ksql/test/tools/TestCaseBuilderUtil.java:196-201 | A string holding one `REGISTER TYPE` that prepares yields no topic and binds the type's name to its type in the metastore. |
| TopicExtraction.MultipleStatementsYieldNoTopic | ksqldb-functional-tests/src/main/java/io/confluent/ksql/test/tools/TestCaseBuilderUtil.java:189-218 | Several statements in one string raise `IllegalArgumentException("SQL contains more than one statement: " + sql)` inside the `try`. The handler turns this into no topic and an unchanged catalog. |
| TopicExtraction.InertStatementChangesNothing | ksqldb-functional-tests/src/main/java/io/confluent/ksql/test/tools/TestCaseBuilderUtil.java:189-218 | A string that fails to parse, parses to zero or several statements, or is neither a type registration nor a create statement yields no topic and leaves the catalog alone. |
| TopicAggregation.PutAllKeys | ksqldb-functional-tests/src/main/java/io/confluent/ksql/test/tools/TestCaseBuilderUtil.java:118 | After the `put`s, the names are the old names together with those of the topics. |
| TopicAggregation.PutAllLastWins | ksqldb-functional-tests/src/main/java/io/confluent/ksql/test/tools/TestCaseBuilderUtil.java:118 | After the `put`s, a name maps to the last topic of that name. |
| TopicAggregation.PutAllKeeps | ksqldb-functional-tests/src/main/java/io/confluent/ksql/test/tools/TestCaseBuilderUtil.java:118 | An entry whose name no topic carries is untouched. |
| TopicAggregation.PutAllKeyedByName | ksqldb-functional-tests/src/main/java/io/confluent/ksql/test/tools/TestCaseBuilderUtil.java:118 | `put` by `getName()` keeps every topic filed under its own name. |
| TopicAggregation.PutIfAbsentAllKeeps | ksqldb-functional-tests/src/main/java/io/confluent/ksql/test/tools/TestCaseBuilderUtil.java:125 | After the `putIfAbsent`s, the names are the old names together with those of the topics, and every existing entry is kept. |
| TopicAggregation.PutIfAbsentAllFrom | ksqldb-functional-tests/src/main/java/io/confluent/ksql/test/tools/TestCaseBuilderUtil.java:125 | Every added entry is one of the topics, and filing by name is preserved. |
| TopicAggregation.PutIfAbsentAllFirstWins | ksqldb-functional-tests/src/main/java/io/confluent/ksql/test/tools/TestCaseBuilderUtil.java:125 | A name new to the map maps to the first topic of that name. |
| TopicAggregation.RecordTopics | ksqldb-functional-tests/src/main/java/io/confluent/ksql/test/tools/TestCaseBuilderUtil.java:130-131 | Each record gives one topic of its topic name with default partitions and replicas and no schema. The names are exactly the records' topic names. |
| TopicAggregation.HandleOnlyGrows | ksqldb-functional-tests/src/main/java/io/confluent/ksql/test/tools/TestCaseBuilderUtil.java:121-127 | Handling a statement never removes a type from the metastore. |
| TopicAggregation.StatementTopicsInOrder | ksqldb-functional-tests/src/main/java/io/confluent/ksql/test/tools/TestCaseBuilderUtil.java:121-127 | Every statement that implies a topic contributes it, at the position given by the number of topics its predecessors imply: the statement topics are in statement order. |
| TopicAggregation.StatementTopicsSources | ksqldb-functional-tests/src/main/java/io/confluent/ksql/test/tools/TestCaseBuilderUtil.java:121-127 | Conversely, every statement topic is the topic of some statement, at that statement's position. So the statement topics are exactly the non-null results of `createTopicFromStatement`, in order. |
| TopicAggregation.CatalogStep | ksqldb-functional-tests/src/main/java/io/confluent/ksql/test/tools/TestCaseBuilderUtil.java:121-126 | Each statement is handled against the metastore that the statements before it left. |
| TopicAggregation.AggregateNames | ksqldb-functional-tests/src/main/java/io/confluent/ksql/test/tools/TestCaseBuilderUtil.java:115-134 | The merged names are the declared names, the inferred names and the record topic names. |
| TopicAggregation.AggregateKeyedByName | ksqldb-functional-tests/src/main/java/io/confluent/ksql/test/tools/TestCaseBuilderUtil.java:115-134 | Every merged topic is filed under its own name. |
| TopicAggregation.AggregateDeclaredWins | ksqldb-functional-tests/src/main/java/io/confluent/ksql/test/tools/TestCaseBuilderUtil.java:115-134 | A declared name maps to its last declaration, whatever the statements and records imply. |
| TopicAggregation.AggregateStatementWins | ksqldb-functional-tests/src/main/java/io/confluent/ksql/test/tools/TestCaseBuilderUtil.java:115-134 | An undeclared name implied by statements maps to the topic of the earliest such statement. |
| TopicAggregation.AggregateRecordDefaults | ksqldb-functional-tests/src/main/java/io/confluent/ksql/test/tools/TestCaseBuilderUtil.java:129-134 | A name known only from records maps to a default topic without schema. |
| TopicAggregation.PutTopics | ksqldb-functional-tests/src/main/java/io/confluent/ksql/test/tools/TestCaseBuilderUtil.java:115-118 | The names are the old names together with the declared names. A declared name maps to its last declaration. Any other entry is untouched. |
| TopicAggregation.PutStatementTopics | ksqldb-functional-tests/src/main/java/io/confluent/ksql/test/tools/TestCaseBuilderUtil.java:120-127 | The names are the old names together with the names of the statement topics. Every existing entry is kept. A new name maps to the earliest statement topic of that name. |
| TopicAggregation.PutRecordTopics | ksqldb-functional-tests/src/main/java/io/confluent/ksql/test/tools/TestCaseBuilderUtil.java:129-132 | The names are the old names together with the record topic names. Every existing entry is kept. A new name maps to the default topic of that name. |
| TopicAggregation.GetAllTopics | ksqldb-functional-tests/src/main/java/io/confluent/ksql/test/tools/TestCaseBuilderUtil.java:107-135 | The result is keyed by topic name and holds exactly the declared, inferred and record topic names. Declared topics win, the last declaration winning. Among undeclared names, the earliest inferred topic wins. Names known only from records get a default topic. |
| TopicAggregation.InertStatementIsTransparent | ksqldb-functional-tests/src/main/java/io/confluent/ksql/test/tools/TestCaseBuilderUtil.java:121-127 | Inserting a statement that cannot parse (or is otherwise inert) anywhere in the list changes neither the final metastore nor the statement topics. |
| TopicAggregation.CatalogForGrows | ksqldb-functional-tests/src/main/java/io/confluent/ksql/test/tools/TestCaseBuilderUtil.java:121-127 | The shared metastore only gains type names as statements are handled. |
| TopicAggregation.RegisteredTypeStaysVisible | ksqldb-functional-tests/src/main/java/io/confluent/ksql/test/tools/TestCaseBuilderUtil.java:196-201 | A type registered by one statement is in the metastore that every later statement is handled against. |

## Left out

- Logging: the diagnostic printing of lines 215-216 has no effect on the result and is not modelled.
- Collaborators: the parser, `parser.prepare`, `DefaultFormatInjector`, `FormatFactory.of`, `TableElements.toLogicalSchema`, `SerdeOptionsFactory.buildForCreateStatement` and `Format.toParsedSchema` are parameters of the model (fields of `Engine`). Their code is not part of this model.
- `KsqlConfig`, `FunctionRegistry` and the session configuration are fixed for one test case, so they are captured inside the `Engine` functions rather than passed explicitly.
- `PersistenceSchema.from`: this is not part of this model as a separate step. A failure there is folded into the failure of `toParsedSchema`.
- `MetaStoreImpl.registerType` is not part of this model. Registration is modelled as a map update that overwrites an existing binding of the same name, whatever the real metastore does for a duplicate.
- `Topic`: the class's own code is not part of this model. The model's `Topic` record holds only the four values the constructor receives, and `DEFAULT_PARTITIONS` and `DEFAULT_RF` are taken to be 1 and 1.
- The order of `HashMap.values()` is unspecified in Java. `GetAllTopics` therefore returns the map itself, keyed by name, rather than a sequence of its values.
- Null arguments: `null` collections, names and paths are not modelled. An unparsed statement's `null` result is `None`.
- `Path.toString` and `java.io.File` normalisation: only the removal of trailing `/` characters is modelled. Duplicate separators and platform-specific separators are not.
- Log message text of caught exceptions is not modelled. Only the fact that a failure happened is modelled, apart from the two `IllegalArgumentException` messages.
- CollectTopics: which topics come out is stated for a run of create statements alone (`CollectCreates`) and for a single statement (`CollectSingle`), not for a run that mixes `REGISTER TYPE` with create statements. `createTopicFromStatement` rejects more than one statement before the loop, so the loop only ever sees one statement.
- Strings.Replace: the function carries no contract of its own. Its behaviour is stated by `ReplaceIsJoinOfSplit`, `ReplaceAbsent` and `ReplaceBySelf`.
