/**
 * The loop of `getAllTopics` over a test case's statements, for any way of
 * handling one statement: each statement is handled against the metastore the
 * earlier ones left, and the topics found are collected in statement order.
 * The facts here depend only on this shape, not on how a statement is handled.
 */
module StatementRuns {
  import opened Wrappers
  import opened Ksql

  /** Handling one statement against the current metastore. */
  type Handler = (string, Catalog) -> Extraction

  /** The metastore after a run of statements, and the topics they implied, in statement order. */
  datatype Inference = Inference(catalog: Catalog, topics: seq<Topic>)

  /** Handling a statement never removes a type from the metastore. */
  ghost predicate OnlyGrows(h: Handler) {
    forall sql: string, catalog: Catalog :: catalog.Keys <= h(sql, catalog).catalog.Keys
  }

  /** The statements handled in order against one shared metastore. */
  function Run(statements: seq<string>, catalog: Catalog, h: Handler): (r: Inference)
    ensures |r.topics| <= |statements|
    ensures OnlyGrows(h) ==> catalog.Keys <= r.catalog.Keys
    decreases |statements|
  {
    if |statements| == 0 then Inference(catalog, [])
    else
      var before := Run(statements[..|statements| - 1], catalog, h);
      var x := h(statements[|statements| - 1], before.catalog);
      Inference(x.catalog, before.topics + x.topic.ToSeq())
  }

  /** The metastore statement `i` is handled against: what the statements before it left. */
  function CatalogBefore(statements: seq<string>, i: nat, catalog: Catalog, h: Handler): Catalog
    requires i <= |statements|
  {
    Run(statements[..i], catalog, h).catalog
  }

  /** The topics the statements before `i` imply. */
  function TopicsBefore(statements: seq<string>, i: nat, catalog: Catalog, h: Handler): seq<Topic>
    requires i <= |statements|
  {
    Run(statements[..i], catalog, h).topics
  }

  /** The topic statement `i` yields, if any. */
  function Yield(statements: seq<string>, i: nat, catalog: Catalog, h: Handler): Option<Topic>
    requires i < |statements|
  {
    h(statements[i], CatalogBefore(statements, i, catalog, h)).topic
  }

  /** Statement `i` is handled against the metastore its predecessors left, and appends its topic. */
  lemma RunStep(statements: seq<string>, i: nat, catalog: Catalog, h: Handler)
    requires i < |statements|
    ensures CatalogBefore(statements, i + 1, catalog, h)
            == h(statements[i], CatalogBefore(statements, i, catalog, h)).catalog
    ensures TopicsBefore(statements, i + 1, catalog, h)
            == TopicsBefore(statements, i, catalog, h) + Yield(statements, i, catalog, h).ToSeq()
  {
    assert statements[..i + 1][..i] == statements[..i];
  }

  /** The whole run is the run over all statements. */
  lemma RunWhole(statements: seq<string>, catalog: Catalog, h: Handler)
    ensures TopicsBefore(statements, |statements|, catalog, h) == Run(statements, catalog, h).topics
    ensures CatalogBefore(statements, |statements|, catalog, h) == Run(statements, catalog, h).catalog
  {
    assert statements[..|statements|] == statements;
  }

  /** The topics of a shorter run are a prefix of those of a longer one. */
  lemma {:induction false} TopicsBeforeGrow(statements: seq<string>, i: nat, j: nat, catalog: Catalog, h: Handler)
    requires i <= j <= |statements|
    ensures TopicsBefore(statements, i, catalog, h) <= TopicsBefore(statements, j, catalog, h)
    decreases j - i
  {
    if i < j {
      TopicsBeforeGrow(statements, i, j - 1, catalog, h);
      RunStep(statements, j - 1, catalog, h);
    }
  }

  /** The metastore only gains types from one statement to the next. */
  lemma {:induction false} CatalogGrows(statements: seq<string>, i: nat, j: nat, catalog: Catalog, h: Handler)
    requires OnlyGrows(h)
    requires i <= j <= |statements|
    ensures CatalogBefore(statements, i, catalog, h).Keys <= CatalogBefore(statements, j, catalog, h).Keys
    decreases j - i
  {
    if i < j {
      CatalogGrows(statements, i, j - 1, catalog, h);
      RunStep(statements, j - 1, catalog, h);
    }
  }

  /**
   * A statement that yields a topic contributes it at the position given by
   * the number of topics its predecessors yielded.
   */
  lemma PlacedAt(statements: seq<string>, i: nat, catalog: Catalog, h: Handler)
    requires i < |statements| && Yield(statements, i, catalog, h).Some?
    ensures |TopicsBefore(statements, i, catalog, h)| < |Run(statements, catalog, h).topics|
    ensures Run(statements, catalog, h).topics[|TopicsBefore(statements, i, catalog, h)|]
            == Yield(statements, i, catalog, h).value
  {
    RunStep(statements, i, catalog, h);
    TopicsBeforeGrow(statements, i + 1, |statements|, catalog, h);
    RunWhole(statements, catalog, h);
    var before := TopicsBefore(statements, i, catalog, h);
    var after := TopicsBefore(statements, i + 1, catalog, h);
    var v := Yield(statements, i, catalog, h).value;
    assert Yield(statements, i, catalog, h).ToSeq() == [v];
    assert after == before + [v];
    assert after[|before|] == v;
  }

  /** A statement is handled the same way within a run and within any longer run. */
  lemma PrefixAgrees(statements: seq<string>, n: nat, i: nat, catalog: Catalog, h: Handler)
    requires i < n <= |statements|
    ensures TopicsBefore(statements[..n], i, catalog, h) == TopicsBefore(statements, i, catalog, h)
    ensures Yield(statements[..n], i, catalog, h) == Yield(statements, i, catalog, h)
  {
    assert statements[..n][..i] == statements[..i];
    assert statements[..n][i] == statements[i];
  }

  /** The statement topic `k` of a run comes from: it yields that topic, and its predecessors yield `k` topics. */
  lemma {:induction false} SourceOf(statements: seq<string>, k: nat, catalog: Catalog, h: Handler) returns (i: nat)
    requires k < |Run(statements, catalog, h).topics|
    ensures i < |statements| && |TopicsBefore(statements, i, catalog, h)| == k
    ensures Yield(statements, i, catalog, h) == Some(Run(statements, catalog, h).topics[k])
    decreases |statements|
  {
    var n := |statements|;
    var prefix := statements[..n - 1];
    RunStep(statements, n - 1, catalog, h);
    RunWhole(statements, catalog, h);
    var earlier := TopicsBefore(statements, n - 1, catalog, h);
    var all := Run(statements, catalog, h).topics;
    assert earlier == Run(prefix, catalog, h).topics;
    assert all == earlier + Yield(statements, n - 1, catalog, h).ToSeq();
    if k < |earlier| {
      i := SourceOf(prefix, k, catalog, h);
      PrefixAgrees(statements, n - 1, i, catalog, h);
      assert all[k] == earlier[k];
    } else {
      var last := Yield(statements, n - 1, catalog, h).ToSeq();
      assert k == |earlier| && |last| == 1;
      assert all[k] == last[0];
      i := n - 1;
    }
  }

  /** A run one statement longer handles that statement last. */
  lemma RunSnoc(statements: seq<string>, sql: string, catalog: Catalog, h: Handler)
    ensures var before := Run(statements, catalog, h);
            var x := h(sql, before.catalog);
            Run(statements + [sql], catalog, h) == Inference(x.catalog, before.topics + x.topic.ToSeq())
  {
    assert (statements + [sql])[..|statements|] == statements;
  }

  /** A statement the handler always passes over leaves no trace in a run, wherever it stands. */
  lemma {:induction false} PassedOver(
    before: seq<string>, sql: string, after: seq<string>, catalog: Catalog, h: Handler)
    requires forall c :: h(sql, c) == Extraction(c, None)
    ensures Run(before + [sql] + after, catalog, h) == Run(before + after, catalog, h)
    decreases |after|
  {
    if |after| == 0 {
      RunSnoc(before, sql, catalog, h);
      var r := Run(before, catalog, h);
      assert h(sql, r.catalog) == Extraction(r.catalog, None);
      assert r.topics + [] == r.topics;
      assert before + [sql] + after == before + [sql];
      assert before + after == before;
    } else {
      var shorter := after[..|after| - 1];
      var last := after[|after| - 1];
      PassedOver(before, sql, shorter, catalog, h);
      RunSnoc(before + [sql] + shorter, last, catalog, h);
      RunSnoc(before + shorter, last, catalog, h);
      assert before + [sql] + after == (before + [sql] + shorter) + [last];
      assert before + after == (before + shorter) + [last];
    }
  }
}
