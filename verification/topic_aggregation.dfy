/**
 * `getAllTopics`: the topics a test case needs, keyed by name, merged from
 * three sources in a fixed order of precedence: the topics the test declares
 * (a later declaration of a name replaces an earlier one), then the topics
 * its statements imply (the earliest statement for a name wins, and never
 * over a declared topic), then the topics of its input and output records
 * (only for names still missing).
 */
module TopicAggregation {
  import opened Wrappers
  import opened Ksql
  import opened TopicExtraction
  import opened StatementRuns

  /** The aggregate under construction: topics by name (the `HashMap` of the source). */
  type TopicMap = map<string, Topic>

  /** Every topic is filed under its own name. */
  predicate KeyedByName(m: TopicMap) {
    forall n :: n in m ==> m[n].name == n
  }

  function Names(ts: seq<Topic>): set<string> {
    set t | t in ts :: t.name
  }

  /** A topic after position `i` has the same name as the one at `i`. */
  predicate NamedLater(ts: seq<Topic>, i: int)
    requires 0 <= i < |ts|
  {
    exists k :: i < k < |ts| && ts[k].name == ts[i].name
  }

  /** A topic before position `i` has the same name as the one at `i`. */
  predicate NamedEarlier(ts: seq<Topic>, i: int)
    requires 0 <= i < |ts|
  {
    exists k :: 0 <= k < i && ts[k].name == ts[i].name
  }

  lemma NamesOfSnoc(ts: seq<Topic>)
    requires |ts| > 0
    ensures Names(ts) == Names(ts[..|ts| - 1]) + {ts[|ts| - 1].name}
  {
  }

  /** `ts.forEach(t -> m.put(t.getName(), t))`, the last `put` being the last applied. */
  function PutAll(m: TopicMap, ts: seq<Topic>): TopicMap
    decreases |ts|
  {
    if |ts| == 0 then m
    else
      var last := ts[|ts| - 1];
      PutAll(m, ts[..|ts| - 1])[last.name := last]
  }

  /** `ts.forEach(t -> m.putIfAbsent(t.getName(), t))`. */
  function PutIfAbsentAll(m: TopicMap, ts: seq<Topic>): TopicMap
    decreases |ts|
  {
    if |ts| == 0 then m
    else
      var last := ts[|ts| - 1];
      var before := PutIfAbsentAll(m, ts[..|ts| - 1]);
      if last.name in before then before else before[last.name := last]
  }

  /** After `put`s, the names are the old ones and those of the topics. */
  lemma {:induction false} PutAllKeys(m: TopicMap, ts: seq<Topic>)
    ensures PutAll(m, ts).Keys == m.Keys + Names(ts)
    decreases |ts|
  {
    if |ts| > 0 {
      PutAllKeys(m, ts[..|ts| - 1]);
      NamesOfSnoc(ts);
    }
  }

  /** After `put`s, a name among the topics maps to the last topic of that name. */
  lemma {:induction false} PutAllLastWins(m: TopicMap, ts: seq<Topic>)
    ensures forall i :: 0 <= i < |ts| && !NamedLater(ts, i) ==>
              ts[i].name in PutAll(m, ts) && PutAll(m, ts)[ts[i].name] == ts[i]
    decreases |ts|
  {
    if |ts| > 0 {
      var prefix := ts[..|ts| - 1];
      PutAllLastWins(m, prefix);
      var r := PutAll(m, ts);
      forall i | 0 <= i < |ts| && !NamedLater(ts, i)
        ensures ts[i].name in r && r[ts[i].name] == ts[i]
      {
        if i < |ts| - 1 {
          assert prefix[i] == ts[i];
        }
      }
    }
  }

  /** After `put`s, an entry whose name is not among the topics is untouched. */
  lemma {:induction false} PutAllKeeps(m: TopicMap, ts: seq<Topic>)
    ensures forall n :: n in m && n !in Names(ts) ==> n in PutAll(m, ts) && PutAll(m, ts)[n] == m[n]
    decreases |ts|
  {
    if |ts| > 0 {
      PutAllKeeps(m, ts[..|ts| - 1]);
      NamesOfSnoc(ts);
    }
  }

  /** `put`s keep every topic filed under its own name. */
  lemma {:induction false} PutAllKeyedByName(m: TopicMap, ts: seq<Topic>)
    requires KeyedByName(m)
    ensures KeyedByName(PutAll(m, ts))
    decreases |ts|
  {
    if |ts| > 0 {
      PutAllKeyedByName(m, ts[..|ts| - 1]);
    }
  }

  /** After `putIfAbsent`s, every name is present and existing entries are kept. */
  lemma {:induction false} PutIfAbsentAllKeeps(m: TopicMap, ts: seq<Topic>)
    ensures PutIfAbsentAll(m, ts).Keys == m.Keys + Names(ts)
    ensures forall n :: n in m ==> PutIfAbsentAll(m, ts)[n] == m[n]
    decreases |ts|
  {
    if |ts| > 0 {
      PutIfAbsentAllKeeps(m, ts[..|ts| - 1]);
      NamesOfSnoc(ts);
    }
  }

  /** Every entry `putIfAbsent` adds is one of the topics. */
  lemma {:induction false} PutIfAbsentAllFrom(m: TopicMap, ts: seq<Topic>)
    ensures forall n :: n in PutIfAbsentAll(m, ts) && n !in m ==>
              PutIfAbsentAll(m, ts)[n] in ts && PutIfAbsentAll(m, ts)[n].name == n
    ensures KeyedByName(m) ==> KeyedByName(PutIfAbsentAll(m, ts))
    decreases |ts|
  {
    if |ts| > 0 {
      var prefix := ts[..|ts| - 1];
      PutIfAbsentAllFrom(m, prefix);
      var before := PutIfAbsentAll(m, prefix);
      var r := PutIfAbsentAll(m, ts);
      forall n | n in r && n !in m
        ensures r[n] in ts && r[n].name == n
      {
        if n in before {
          var j :| 0 <= j < |prefix| && prefix[j] == before[n];
          assert ts[j] == prefix[j];
        }
      }
    }
  }

  /** A name new to the map gets the first topic of that name. */
  lemma {:induction false} PutIfAbsentAllFirstWins(m: TopicMap, ts: seq<Topic>)
    ensures forall i :: 0 <= i < |ts| && ts[i].name !in m && !NamedEarlier(ts, i) ==>
              ts[i].name in PutIfAbsentAll(m, ts) && PutIfAbsentAll(m, ts)[ts[i].name] == ts[i]
    decreases |ts|
  {
    if |ts| > 0 {
      var prefix := ts[..|ts| - 1];
      var last := ts[|ts| - 1];
      PutIfAbsentAllFirstWins(m, prefix);
      PutIfAbsentAllKeeps(m, prefix);
      var r := PutIfAbsentAll(m, ts);
      forall i | 0 <= i < |ts| && ts[i].name !in m && !NamedEarlier(ts, i)
        ensures ts[i].name in r && r[ts[i].name] == ts[i]
      {
        if i < |ts| - 1 {
          assert prefix[i] == ts[i];
        }
      }
    }
  }

  /** The topic a record's topic name implies: default partitions and replicas, no schema. */
  function RecordTopic(name: string): Topic {
    Topic(name, DefaultPartitions, DefaultReplicas, None)
  }

  function RecordNames(records: seq<Record>): set<string> {
    set r | r in records :: r.topicName
  }

  /** `records.map(record -> new Topic(record.getTopicName(), Optional.empty()))`. */
  function RecordTopics(records: seq<Record>): (ts: seq<Topic>)
    ensures |ts| == |records|
    ensures forall i :: 0 <= i < |records| ==> ts[i] == RecordTopic(records[i].topicName)
    ensures Names(ts) == RecordNames(records)
  {
    var ts := seq(|records|, i requires 0 <= i < |records| => RecordTopic(records[i].topicName));
    assert forall n :: n in Names(ts) ==> n in RecordNames(records) by {
      forall n | n in Names(ts)
        ensures n in RecordNames(records)
      {
        var t :| t in ts && t.name == n;
        var i :| 0 <= i < |ts| && ts[i] == t;
        assert records[i] in records;
      }
    }
    assert forall n :: n in RecordNames(records) ==> n in Names(ts) by {
      forall n | n in RecordNames(records)
        ensures n in Names(ts)
      {
        var r :| r in records && r.topicName == n;
        var i :| 0 <= i < |records| && records[i] == r;
        assert ts[i] in ts;
      }
    }
    ts
  }

  /** Handling one statement of a test case: `createTopicFromStatement`. */
  function Handle(e: Engine): Handler {
    (sql: string, catalog: Catalog) => CreateTopicFromStatement(sql, catalog, e)
  }

  /** No statement removes a type from the metastore. */
  lemma HandleOnlyGrows(e: Engine)
    ensures OnlyGrows(Handle(e))
  {
    forall sql: string, catalog: Catalog
      ensures catalog.Keys <= Handle(e)(sql, catalog).catalog.Keys
    {
      var x := CreateTopicFromStatement(sql, catalog, e);
    }
  }

  /** The metastore statement `i` of a test case is handled against, starting from an empty one. */
  function CatalogFor(statements: seq<string>, i: nat, e: Engine): Catalog
    requires i <= |statements|
  {
    CatalogBefore(statements, i, EmptyCatalog, Handle(e))
  }

  /** The topic statement `i` of a test case implies, if any. */
  function TopicFor(statements: seq<string>, i: nat, e: Engine): Option<Topic>
    requires i < |statements|
  {
    CreateTopicFromStatement(statements[i], CatalogFor(statements, i, e), e).topic
  }

  /** How many topics the statements before `i` imply. */
  function TopicCountBefore(statements: seq<string>, i: nat, e: Engine): nat
    requires i <= |statements|
  {
    |TopicsBefore(statements, i, EmptyCatalog, Handle(e))|
  }

  /** `putIfAbsent` of an optional topic. */
  lemma PutIfAbsentOptional(m: TopicMap, ts: seq<Topic>, o: Option<Topic>)
    ensures PutIfAbsentAll(m, ts + o.ToSeq())
            == if o.Some? && o.value.name !in PutIfAbsentAll(m, ts)
               then PutIfAbsentAll(m, ts)[o.value.name := o.value]
               else PutIfAbsentAll(m, ts)
  {
    if o.None? {
      assert ts + o.ToSeq() == ts;
    } else {
      assert (ts + [o.value])[..|ts|] == ts;
    }
  }

  /** The topics the statements of a test case imply, starting from an empty metastore. */
  function StatementTopics(statements: seq<string>, e: Engine): (ts: seq<Topic>)
    ensures |ts| <= |statements|
  {
    Run(statements, EmptyCatalog, Handle(e)).topics
  }

  /**
   * Every statement that implies a topic contributes it, at the position given
   * by the number of topics the statements before it imply: the statement
   * topics are in statement order.
   */
  lemma StatementTopicsInOrder(statements: seq<string>, e: Engine)
    ensures forall i :: 0 <= i < |statements| && TopicFor(statements, i, e).Some? ==>
              && TopicCountBefore(statements, i, e) < |StatementTopics(statements, e)|
              && StatementTopics(statements, e)[TopicCountBefore(statements, i, e)] == TopicFor(statements, i, e).value
  {
    forall i | 0 <= i < |statements| && TopicFor(statements, i, e).Some? {
      PlacedAt(statements, i, EmptyCatalog, Handle(e));
    }
  }

  /** Some statement implies statement topic `k`: the one whose predecessors imply `k` topics. */
  predicate HasSource(statements: seq<string>, k: nat, e: Engine)
    requires k < |StatementTopics(statements, e)|
  {
    exists i :: 0 <= i < |statements| && TopicCountBefore(statements, i, e) == k
                && TopicFor(statements, i, e) == Some(StatementTopics(statements, e)[k])
  }

  /** Conversely, every statement topic is the topic some statement implies, at that statement's position. */
  lemma StatementTopicsSources(statements: seq<string>, e: Engine)
    ensures forall k: nat :: k < |StatementTopics(statements, e)| ==> HasSource(statements, k, e)
  {
    forall k: nat | k < |StatementTopics(statements, e)|
      ensures HasSource(statements, k, e)
    {
      var i := SourceOf(statements, k, EmptyCatalog, Handle(e));
      assert TopicFor(statements, i, e) == Some(StatementTopics(statements, e)[k]);
    }
  }

  /** The three phases of `getAllTopics`, as one expression. */
  function Aggregate(topics: seq<Topic>, inferred: seq<Topic>, records: seq<Record>): TopicMap {
    PutIfAbsentAll(PutIfAbsentAll(PutAll(map[], topics), inferred), RecordTopics(records))
  }

  /** The names of the aggregate are the names of its three sources. */
  lemma AggregateNames(topics: seq<Topic>, inferred: seq<Topic>, records: seq<Record>)
    ensures Aggregate(topics, inferred, records).Keys == Names(topics) + Names(inferred) + RecordNames(records)
  {
    PutAllKeys(map[], topics);
    PutIfAbsentAllKeeps(PutAll(map[], topics), inferred);
    PutIfAbsentAllKeeps(PutIfAbsentAll(PutAll(map[], topics), inferred), RecordTopics(records));
  }

  /** The aggregate files every topic under its own name. */
  lemma AggregateKeyedByName(topics: seq<Topic>, inferred: seq<Topic>, records: seq<Record>)
    ensures KeyedByName(Aggregate(topics, inferred, records))
  {
    PutAllKeyedByName(map[], topics);
    PutIfAbsentAllFrom(PutAll(map[], topics), inferred);
    PutIfAbsentAllFrom(PutIfAbsentAll(PutAll(map[], topics), inferred), RecordTopics(records));
  }

  /** A declared name maps to its last declaration, whatever the statements and records say. */
  lemma AggregateDeclaredWins(topics: seq<Topic>, inferred: seq<Topic>, records: seq<Record>)
    ensures forall i :: 0 <= i < |topics| && !NamedLater(topics, i) ==>
              topics[i].name in Aggregate(topics, inferred, records)
              && Aggregate(topics, inferred, records)[topics[i].name] == topics[i]
  {
    var declared := PutAll(map[], topics);
    var derived := PutIfAbsentAll(declared, inferred);
    PutAllLastWins(map[], topics);
    PutIfAbsentAllKeeps(declared, inferred);
    PutIfAbsentAllKeeps(derived, RecordTopics(records));
  }

  /** An undeclared name implied by statements maps to the earliest topic implied for it. */
  lemma AggregateStatementWins(topics: seq<Topic>, inferred: seq<Topic>, records: seq<Record>)
    ensures forall i :: 0 <= i < |inferred| && inferred[i].name !in Names(topics) && !NamedEarlier(inferred, i) ==>
              inferred[i].name in Aggregate(topics, inferred, records)
              && Aggregate(topics, inferred, records)[inferred[i].name] == inferred[i]
  {
    var declared := PutAll(map[], topics);
    var derived := PutIfAbsentAll(declared, inferred);
    PutAllKeys(map[], topics);
    PutIfAbsentAllFirstWins(declared, inferred);
    PutIfAbsentAllKeeps(declared, inferred);
    PutIfAbsentAllKeeps(derived, RecordTopics(records));
  }

  /** A name known only from records maps to the default topic of that name. */
  lemma AggregateRecordDefaults(topics: seq<Topic>, inferred: seq<Topic>, records: seq<Record>)
    ensures forall n :: n in RecordNames(records) && n !in Names(topics) && n !in Names(inferred) ==>
              n in Aggregate(topics, inferred, records) && Aggregate(topics, inferred, records)[n] == RecordTopic(n)
  {
    var declared := PutAll(map[], topics);
    var derived := PutIfAbsentAll(declared, inferred);
    var all := Aggregate(topics, inferred, records);
    PutAllKeys(map[], topics);
    PutIfAbsentAllKeeps(declared, inferred);
    PutIfAbsentAllKeeps(derived, RecordTopics(records));
    PutIfAbsentAllFrom(derived, RecordTopics(records));
    AggregateKeyedByName(topics, inferred, records);
    forall n | n in RecordNames(records) && n !in Names(topics) && n !in Names(inferred)
      ensures n in all && all[n] == RecordTopic(n)
    {
      var j :| 0 <= j < |RecordTopics(records)| && RecordTopics(records)[j] == all[n];
    }
  }

  /**
   * `getAllTopics`. The result holds exactly the declared names, the names of
   * the topics the statements imply, and the record topic names; a declared
   * name maps to its last declaration, a name first implied by a statement to
   * the earliest such topic, and a name known only from records to a default
   * topic without schema.
   */
  method GetAllTopics(
    statements: seq<string>, topics: seq<Topic>, outputs: seq<Record>, inputs: seq<Record>, e: Engine)
    returns (all: TopicMap)
    ensures KeyedByName(all)
    ensures all.Keys == Names(topics) + Names(StatementTopics(statements, e)) + RecordNames(inputs + outputs)
    ensures forall i :: 0 <= i < |topics| && !NamedLater(topics, i) ==>
              topics[i].name in all && all[topics[i].name] == topics[i]
    ensures var inferred := StatementTopics(statements, e);
            forall i :: 0 <= i < |inferred| && inferred[i].name !in Names(topics) && !NamedEarlier(inferred, i) ==>
              inferred[i].name in all && all[inferred[i].name] == inferred[i]
    ensures forall n :: n in RecordNames(inputs + outputs) && n !in Names(topics)
                        && n !in Names(StatementTopics(statements, e)) ==>
              n in all && all[n] == RecordTopic(n)
  {
    var declared := PutTopics(map[], topics);
    var derived := PutStatementTopics(declared, statements, e);
    all := PutRecordTopics(derived, inputs + outputs);
    var inferred := StatementTopics(statements, e);
    AggregateNames(topics, inferred, inputs + outputs);
    AggregateKeyedByName(topics, inferred, inputs + outputs);
    AggregateDeclaredWins(topics, inferred, inputs + outputs);
    AggregateStatementWins(topics, inferred, inputs + outputs);
    AggregateRecordDefaults(topics, inferred, inputs + outputs);
  }

  /** The first phase: every declared topic `put` under its name. */
  method PutTopics(m: TopicMap, topics: seq<Topic>) returns (all: TopicMap)
    ensures all == PutAll(m, topics)
    ensures all.Keys == m.Keys + Names(topics)
    ensures forall i :: 0 <= i < |topics| && !NamedLater(topics, i) ==>
              topics[i].name in all && all[topics[i].name] == topics[i]
    ensures forall n :: n in m && n !in Names(topics) ==> n in all && all[n] == m[n]
  {
    all := m;
    for i := 0 to |topics|
      invariant all == PutAll(m, topics[..i])
    {
      assert topics[..i + 1][..i] == topics[..i];
      all := all[topics[i].name := topics[i]];
    }
    assert topics[..|topics|] == topics;
    PutAllKeys(m, topics);
    PutAllLastWins(m, topics);
    PutAllKeeps(m, topics);
  }

  /**
   * The second phase: the statements handled in order against a metastore
   * that starts empty, each implied topic added when its name is new.
   */
  method PutStatementTopics(m: TopicMap, statements: seq<string>, e: Engine) returns (all: TopicMap)
    ensures all == PutIfAbsentAll(m, StatementTopics(statements, e))
    ensures all.Keys == m.Keys + Names(StatementTopics(statements, e))
    ensures forall n :: n in m ==> all[n] == m[n]
    ensures var inferred := StatementTopics(statements, e);
            forall i :: 0 <= i < |inferred| && inferred[i].name !in m && !NamedEarlier(inferred, i) ==>
              inferred[i].name in all && all[inferred[i].name] == inferred[i]
  {
    all := m;
    var catalog := EmptyCatalog;
    for i := 0 to |statements|
      invariant catalog == CatalogFor(statements, i, e)
      invariant all == PutIfAbsentAll(m, TopicsBefore(statements, i, EmptyCatalog, Handle(e)))
    {
      var x := CreateTopicFromStatement(statements[i], catalog, e);
      RunStep(statements, i, EmptyCatalog, Handle(e));
      PutIfAbsentOptional(m, TopicsBefore(statements, i, EmptyCatalog, Handle(e)), x.topic);
      catalog := x.catalog;
      if x.topic.Some? && x.topic.value.name !in all {
        all := all[x.topic.value.name := x.topic.value];
      }
    }
    RunWhole(statements, EmptyCatalog, Handle(e));
    PutIfAbsentAllKeeps(m, StatementTopics(statements, e));
    PutIfAbsentAllFirstWins(m, StatementTopics(statements, e));
  }

  /** The third phase: a default topic for every record topic name still missing. */
  method PutRecordTopics(m: TopicMap, records: seq<Record>) returns (all: TopicMap)
    ensures all == PutIfAbsentAll(m, RecordTopics(records))
    ensures all.Keys == m.Keys + RecordNames(records)
    ensures forall n :: n in m ==> all[n] == m[n]
    ensures forall n :: n in RecordNames(records) && n !in m ==> all[n] == RecordTopic(n)
  {
    all := m;
    for i := 0 to |records|
      invariant all == PutIfAbsentAll(m, RecordTopics(records[..i]))
    {
      assert RecordTopics(records[..i + 1])[..i] == RecordTopics(records[..i]);
      var topic := RecordTopic(records[i].topicName);
      if topic.name !in all {
        all := all[topic.name := topic];
      }
    }
    assert records[..|records|] == records;
    PutIfAbsentAllKeeps(m, RecordTopics(records));
    PutIfAbsentAllFrom(m, RecordTopics(records));
  }

  /**
   * A statement that cannot yield a topic or register a type (one that does not
   * parse, for instance) does not disturb the handling of the others.
   */
  lemma InertStatementIsTransparent(
    before: seq<string>, sql: string, after: seq<string>, catalog: Catalog, e: Engine)
    requires Inert(sql, e)
    ensures Run(before + [sql] + after, catalog, Handle(e)) == Run(before + after, catalog, Handle(e))
  {
    forall c: Catalog
      ensures Handle(e)(sql, c) == Extraction(c, None)
    {
      InertStatementChangesNothing(sql, c, e);
    }
    PassedOver(before, sql, after, catalog, Handle(e));
  }

  /** Statement `i` is handled against the metastore its predecessors left. */
  lemma CatalogStep(statements: seq<string>, i: nat, e: Engine)
    requires i < |statements|
    ensures CatalogFor(statements, i + 1, e)
            == CreateTopicFromStatement(statements[i], CatalogFor(statements, i, e), e).catalog
  {
    RunStep(statements, i, EmptyCatalog, Handle(e));
  }

  /** The metastore only gains types as the statements are handled. */
  lemma CatalogForGrows(statements: seq<string>, i: nat, j: nat, e: Engine)
    requires i <= j <= |statements|
    ensures CatalogFor(statements, i, e).Keys <= CatalogFor(statements, j, e).Keys
  {
    HandleOnlyGrows(e);
    CatalogGrows(statements, i, j, EmptyCatalog, Handle(e));
  }

  /**
   * A type registered by statement `j` is in the metastore every later
   * statement `k` is handled against.
   */
  lemma RegisteredTypeStaysVisible(
    statements: seq<string>, j: nat, k: nat, name: string, sqlType: SqlType, e: Engine)
    requires j < k <= |statements|
    requires SingleStatement(statements[j], e, RegisterTypeContext)
    requires e.prepare(e.parse(statements[j]).value[0], CatalogFor(statements, j, e))
             == Success(RegisterType(name, sqlType))
    ensures name in CatalogFor(statements, k, e)
  {
    var before := CatalogFor(statements, j, e);
    RegisteredTypeBound(statements[j], before, name, sqlType, e);
    CatalogStep(statements, j, e);
    assert CatalogFor(statements, j + 1, e) == before[name := sqlType];
    CatalogForGrows(statements, j + 1, k, e);
  }
}
