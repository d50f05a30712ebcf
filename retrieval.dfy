/**
 * Similarity retrieval over a tenant's vector table (common-mail-insights.ts:
 * getClosestMails, getClosestResponses and the similarity join of onGetMail;
 * mail-insights-service.ts: the same join in onFindMails).
 *
 * getClosestMails sends one statement: it pairs every row `x` of the table
 * with every "focus" row (a row whose metadata `id` names the mail) of a
 * different primary key, keeps the pairs whose `x.metadata` contains the
 * filter, orders them by the embedding distance and keeps the first `k`.
 *
 * The distance operator belongs to pgvector and is a parameter `dist`
 * (`None` is SQL NULL, e.g. for a missing embedding). SQL leaves the order of
 * equal distances open; the model fixes one: an insertion sort over the join
 * enumerated row by row, with NULL distances last as PostgreSQL sorts them.
 */
module Retrieval {
  import opened JsonValues

  /** A row of the vector table: primary key, page content (NULL allowed) and JSONB metadata. */
  datatype Row = Row(id: nat, pageContent: Option<string>, metadata: Record)

  /** A row of the statement's result set. */
  datatype Match = Match(row: Row, distance: Option<real>)

  /** `[document, _distance]` as getClosestMails returns it. */
  datatype Neighbour = Neighbour(doc: Row, distance: real)

  // ---------------------------------------------------------------------
  // The SQL statement
  // ---------------------------------------------------------------------

  /** PostgreSQL `jsonb ? text`: a top-level key, an array element, or an equal string scalar. */
  predicate JsonbHasKey(v: Option<Json>, key: string) {
    v.Some? &&
    match v.value
    case JStr(s) => s == key
    case JArr(items) => JStr(key) in items
    case JObj(m) => key in m
    case _ => false
  }

  /** `(metadata->'id')::jsonb ? $1`: the row is a focus row for `id`. */
  predicate IsFocus(row: Row, id: string) {
    JsonbHasKey(Get(row.metadata, "id"), id)
  }

  /**
   * `metadata @> filter` for a filter whose values are scalars, which is every
   * filter the handlers pass ({} and {"submitted": true}).
   */
  predicate ContainsFilter(metadata: Record, filter: Record) {
    forall k :: k in filter ==> k in metadata && metadata[k] == filter[k]
  }

  /** The sub-select `focus`. */
  function Focus(table: seq<Row>, id: string): (f: seq<Row>)
    ensures forall r :: r in f <==> r in table && IsFocus(r, id)
  {
    if table == [] then []
    else (if IsFocus(table[0], id) then [table[0]] else []) + Focus(table[1..], id)
  }

  /** At most one focus row (by primary key): the case the join relies on. */
  predicate SingleFocus(table: seq<Row>, id: string) {
    forall f, g :: f in table && g in table && IsFocus(f, id) && IsFocus(g, id) ==> f.id == g.id
  }

  /** The joined pairs of one row `x` with every focus row of a different primary key. */
  function PairsWith(x: Row, focus: seq<Row>, dist: (Row, Row) -> Option<real>): (r: seq<Match>)
  {
    if focus == [] then []
    else (if focus[0].id != x.id then [Match(x, dist(x, focus[0]))] else []) + PairsWith(x, focus[1..], dist)
  }

  /** `FROM x JOIN focus ON focus.id != x.id WHERE x.metadata @> filter`, enumerated row by row. */
  function Join(xs: seq<Row>, focus: seq<Row>, filter: Record, dist: (Row, Row) -> Option<real>): (r: seq<Match>)
  {
    if xs == [] then []
    else (if ContainsFilter(xs[0].metadata, filter) then PairsWith(xs[0], focus, dist) else []) + Join(xs[1..], focus, filter, dist)
  }

  /** A pair the join admits: `x` passes the filter and is paired with a focus row of another key. */
  predicate Admitted(m: Match, xs: seq<Row>, focus: seq<Row>, filter: Record, dist: (Row, Row) -> Option<real>) {
    && m.row in xs
    && ContainsFilter(m.row.metadata, filter)
    && exists f :: f in focus && f.id != m.row.id && m.distance == dist(m.row, f)
  }

  lemma {:induction false} PairsWithSpec(x: Row, focus: seq<Row>, dist: (Row, Row) -> Option<real>, m: Match)
    ensures m in PairsWith(x, focus, dist) <==>
      m.row == x && exists f :: f in focus && f.id != x.id && m.distance == dist(x, f)
  {
    if focus != [] {
      PairsWithSpec(x, focus[1..], dist, m);
      if m.row == x && exists f :: f in focus && f.id != x.id && m.distance == dist(x, f) {
        var f :| f in focus && f.id != x.id && m.distance == dist(x, f);
        if f != focus[0] {
          assert f in focus[1..];
        }
      }
    }
  }

  /** The join admits exactly the pairs the SQL join condition and filter admit. */
  lemma {:induction false} JoinSpec(xs: seq<Row>, focus: seq<Row>, filter: Record, dist: (Row, Row) -> Option<real>, m: Match)
    ensures m in Join(xs, focus, filter, dist) <==> Admitted(m, xs, focus, filter, dist)
  {
    if xs != [] {
      JoinSpec(xs[1..], focus, filter, dist, m);
      PairsWithSpec(xs[0], focus, dist, m);
      if Admitted(m, xs, focus, filter, dist) && m.row != xs[0] {
        assert m.row in xs[1..];
      }
    }
  }

  // ORDER BY _distance (NULLS LAST)

  predicate DistanceLe(a: Option<real>, b: Option<real>) {
    b.None? || (a.Some? && a.value <= b.value)
  }

  predicate SortedByDistance(s: seq<Match>) {
    forall i, j :: 0 <= i < j < |s| ==> DistanceLe(s[i].distance, s[j].distance)
  }

  function Insert(m: Match, s: seq<Match>): (r: seq<Match>)
    ensures multiset(r) == multiset(s) + multiset{m}
    ensures |r| == |s| + 1
  {
    if s == [] then [m]
    else if DistanceLe(m.distance, s[0].distance) then [m] + s
    else
      assert s == [s[0]] + s[1..];
      [s[0]] + Insert(m, s[1..])
  }

  lemma {:induction false} InsertSorted(m: Match, s: seq<Match>)
    requires SortedByDistance(s)
    ensures SortedByDistance(Insert(m, s))
  {
    if s != [] && !DistanceLe(m.distance, s[0].distance) {
      var t := s[1..];
      InsertSorted(m, t);
      var r := Insert(m, t);
      forall x | x in r ensures DistanceLe(s[0].distance, x.distance) {
        assert x in multiset(r);
        if x != m {
          assert x in multiset(t);
        }
      }
    }
  }

  function SortByDistance(s: seq<Match>): (r: seq<Match>)
    ensures multiset(r) == multiset(s)
    ensures |r| == |s|
  {
    if s == [] then []
    else
      assert s == [s[0]] + s[1..];
      Insert(s[0], SortByDistance(s[1..]))
  }

  lemma {:induction false} SortByDistanceSorted(s: seq<Match>)
    ensures SortedByDistance(SortByDistance(s))
  {
    if s != [] {
      SortByDistanceSorted(s[1..]);
      InsertSorted(s[0], SortByDistance(s[1..]));
    }
  }

  function Min(a: nat, b: nat): nat {
    if a <= b then a else b
  }

  /** The result set of the statement. */
  function ClosestQuery(table: seq<Row>, id: string, filter: Record, k: nat, dist: (Row, Row) -> Option<real>): (r: seq<Match>)
  {
    SortByDistance(Join(table, Focus(table, id), filter, dist))[..Min(k, |Join(table, Focus(table, id), filter, dist)|)]
  }

  /**
   * The statement returns the `k` nearest admitted pairs (fewer when fewer
   * exist), nearest first: every admitted pair it leaves out is no nearer than
   * any pair it returns.
   */
  lemma ClosestQuerySpec(table: seq<Row>, id: string, filter: Record, k: nat, dist: (Row, Row) -> Option<real>)
    ensures var r := ClosestQuery(table, id, filter, k, dist);
      && |r| == Min(k, |Join(table, Focus(table, id), filter, dist)|)
      && SortedByDistance(r)
      && (forall m :: m in r ==> Admitted(m, table, Focus(table, id), filter, dist))
      && (forall m :: Admitted(m, table, Focus(table, id), filter, dist) && m !in r ==>
            forall n :: n in r ==> DistanceLe(n.distance, m.distance))
  {
    var focus := Focus(table, id);
    var cands := Join(table, focus, filter, dist);
    var sorted := SortByDistance(cands);
    var n := Min(k, |cands|);
    var r := sorted[..n];
    assert r == ClosestQuery(table, id, filter, k, dist);
    SortByDistanceSorted(cands);
    forall m | m in r ensures Admitted(m, table, focus, filter, dist) {
      InQueryAdmitted(table, id, filter, k, dist, m);
    }
    forall m | Admitted(m, table, focus, filter, dist) && m !in r
      ensures forall x :: x in r ==> DistanceLe(x.distance, m.distance)
    {
      JoinSpec(table, focus, filter, dist, m);
      assert m in multiset(sorted);
      SortedPrefixNearest(sorted, n, m);
    }
  }

  lemma InQueryAdmitted(table: seq<Row>, id: string, filter: Record, k: nat, dist: (Row, Row) -> Option<real>, m: Match)
    requires m in ClosestQuery(table, id, filter, k, dist)
    ensures Admitted(m, table, Focus(table, id), filter, dist)
  {
    var focus := Focus(table, id);
    var cands := Join(table, focus, filter, dist);
    var sorted := SortByDistance(cands);
    assert m in sorted;
    assert m in multiset(cands);
    JoinSpec(table, focus, filter, dist, m);
  }

  /** What a sorted sequence's prefix leaves out is no nearer than anything in it. */
  lemma SortedPrefixNearest(sorted: seq<Match>, n: nat, m: Match)
    requires SortedByDistance(sorted) && n <= |sorted|
    requires m in sorted && m !in sorted[..n]
    ensures forall x :: x in sorted[..n] ==> DistanceLe(x.distance, m.distance)
  {
    var j :| 0 <= j < |sorted| && sorted[j] == m;
    assert j >= n;
    forall x | x in sorted[..n] ensures DistanceLe(x.distance, m.distance) {
      var i :| 0 <= i < n && sorted[..n][i] == x;
      assert sorted[i] == x;
    }
  }

  // ---------------------------------------------------------------------
  // The loop that keeps complete rows
  // ---------------------------------------------------------------------

  predicate IsComplete(m: Match) {
    m.distance.Some? && m.row.pageContent.Some?
  }

  /** `if (doc._distance != null && doc.pageContent != null) results.push([document, doc._distance])` */
  function Complete(documents: seq<Match>): (r: seq<Neighbour>)
    ensures |r| <= |documents|
  {
    if documents == [] then []
    else
      var last := documents[|documents| - 1];
      Complete(documents[..|documents| - 1])
        + (if IsComplete(last) then [Neighbour(last.row, last.distance.value)] else [])
  }

  method DropIncomplete(documents: seq<Match>) returns (results: seq<Neighbour>)
    ensures results == Complete(documents)
  {
    results := [];
    for i := 0 to |documents|
      invariant results == Complete(documents[..i])
    {
      assert documents[..i + 1][..i] == documents[..i];
      var doc := documents[i];
      if doc.distance.Some? && doc.row.pageContent.Some? {
        results := results + [Neighbour(doc.row, doc.distance.value)];
      }
    }
    assert documents[..|documents|] == documents;
  }

  /**
   * Exactly the complete rows survive, as `[row, distance]`; a row with a NULL
   * distance or NULL page content is dropped.
   */
  lemma {:induction false} CompleteSpec(documents: seq<Match>, n: Neighbour)
    ensures n in Complete(documents) <==> Match(n.doc, Some(n.distance)) in documents && n.doc.pageContent.Some?
  {
    if documents != [] {
      var init := documents[..|documents| - 1];
      CompleteSpec(init, n);
      assert documents == init + [documents[|documents| - 1]];
    }
  }

  /** Dropping rows keeps the survivors in query order, so a sorted result stays sorted. */
  /** Distances never decrease along the results. */
  predicate Ascending(r: seq<Neighbour>) {
    forall i, j :: 0 <= i < j < |r| ==> r[i].distance <= r[j].distance
  }

  lemma {:induction false} CompleteSorted(documents: seq<Match>)
    requires SortedByDistance(documents)
    ensures Ascending(Complete(documents))
  {
    if documents != [] {
      var init := documents[..|documents| - 1];
      var last := documents[|documents| - 1];
      CompleteSorted(init);
      var r := Complete(documents);
      var r0 := Complete(init);
      if IsComplete(last) {
        forall i | 0 <= i < |r0| ensures r0[i].distance <= last.distance.value {
          CompleteSpec(init, r0[i]);
          assert r0[i] in r0;
          var j :| 0 <= j < |init| && init[j] == Match(r0[i].doc, Some(r0[i].distance));
          assert DistanceLe(documents[j].distance, documents[|documents| - 1].distance);
        }
        var tail := Neighbour(last.row, last.distance.value);
        assert r == r0 + [tail];
        forall i, j | 0 <= i < j < |r| ensures r[i].distance <= r[j].distance {
          assert r[i] == r0[i];
          if j < |r0| {
            assert r[j] == r0[j];
            assert Ascending(r0);
          } else {
            assert r[j] == tail;
            assert r0[i].distance <= last.distance.value;
          }
        }
      } else {
        assert r == r0;
      }
    }
  }

  /**
   * What getClosestMails returns: at most `k` pairs, nearest first; each row
   * passes the filter, has page content, and was paired with a focus row of a
   * different primary key at the returned distance. With a single focus row
   * no focus row is ever returned.
   */
  lemma NeighboursSpec(table: seq<Row>, id: string, k: nat, filter: Record, dist: (Row, Row) -> Option<real>)
    ensures var results := Complete(ClosestQuery(table, id, filter, k, dist));
      && |results| <= k
      && (forall i, j :: 0 <= i < j < |results| ==> results[i].distance <= results[j].distance)
      && (forall n :: n in results ==>
          && n.doc in table
          && n.doc.pageContent.Some?
          && ContainsFilter(n.doc.metadata, filter)
          && exists f :: f in table && IsFocus(f, id) && f.id != n.doc.id && dist(n.doc, f) == Some(n.distance))
      && (SingleFocus(table, id) ==> forall n :: n in results ==> !IsFocus(n.doc, id))
  {
    var documents := ClosestQuery(table, id, filter, k, dist);
    var results := Complete(documents);
    ClosestQuerySpec(table, id, filter, k, dist);
    CompleteSorted(documents);
    var focus := Focus(table, id);
    forall n | n in results
      ensures n.doc in table && n.doc.pageContent.Some? && ContainsFilter(n.doc.metadata, filter)
      ensures exists f :: f in table && IsFocus(f, id) && f.id != n.doc.id && dist(n.doc, f) == Some(n.distance)
    {
      CompleteSpec(documents, n);
      assert Admitted(Match(n.doc, Some(n.distance)), table, focus, filter, dist);
    }
  }

  /** getClosestMails: runs the statement, then keeps the complete rows. */
  method GetClosestMails(table: seq<Row>, id: string, k: nat, filter: Record, dist: (Row, Row) -> Option<real>)
    returns (results: seq<Neighbour>)
    ensures results == Complete(ClosestQuery(table, id, filter, k, dist))
    ensures |results| <= k
    ensures forall i, j :: 0 <= i < j < |results| ==> results[i].distance <= results[j].distance
    ensures forall n :: n in results ==> n.doc in table && n.doc.pageContent.Some? && ContainsFilter(n.doc.metadata, filter)
  {
    var documents := ClosestQuery(table, id, filter, k, dist);
    results := DropIncomplete(documents);
    NeighboursSpec(table, id, k, filter, dist);
  }

  /**
   * Two rows that share `metadata.id`: each is joined with the other, so a
   * focus row comes back whenever the distance between them is defined.
   */
  lemma DuplicateFocusReturnsFocusRow(dist: (Row, Row) -> Option<real>, d: real)
    requires dist(Row(1, Some("a"), map["id" := JStr("m")]), Row(2, Some("b"), map["id" := JStr("m")])) == Some(d)
    ensures var r1 := Row(1, Some("a"), map["id" := JStr("m")]);
      var r2 := Row(2, Some("b"), map["id" := JStr("m")]);
      IsFocus(r1, "m") && Neighbour(r1, d) in Complete(ClosestQuery([r1, r2], "m", map[], 5, dist))
  {
    var r1 := Row(1, Some("a"), map["id" := JStr("m")]);
    var r2 := Row(2, Some("b"), map["id" := JStr("m")]);
    var table := [r1, r2];
    var focus := Focus(table, "m");
    assert Admitted(Match(r1, Some(d)), table, focus, map[], dist) by {
      assert IsFocus(r2, "m");
      assert r2 in focus;
    }
    FocusLength(table, "m");
    JoinLength(table, focus, map[], dist);
    AdmittedInShortQuery(table, "m", map[], 5, dist, Match(r1, Some(d)));
    CompleteSpec(ClosestQuery(table, "m", map[], 5, dist), Neighbour(r1, d));
  }

  /** When the join has no more than `k` pairs, the statement returns every admitted pair. */
  lemma AdmittedInShortQuery(table: seq<Row>, id: string, filter: Record, k: nat, dist: (Row, Row) -> Option<real>, m: Match)
    requires |Join(table, Focus(table, id), filter, dist)| <= k
    requires Admitted(m, table, Focus(table, id), filter, dist)
    ensures m in ClosestQuery(table, id, filter, k, dist)
  {
    var focus := Focus(table, id);
    var cands := Join(table, focus, filter, dist);
    JoinSpec(table, focus, filter, dist, m);
    assert m in multiset(cands);
    var sorted := SortByDistance(cands);
    assert m in multiset(sorted);
    assert Min(k, |cands|) == |sorted|;
    assert ClosestQuery(table, id, filter, k, dist) == sorted[..|sorted|];
    assert sorted[..|sorted|] == sorted;
  }

  lemma {:induction false} FocusLength(table: seq<Row>, id: string)
    ensures |Focus(table, id)| <= |table|
  {
    if table != [] {
      FocusLength(table[1..], id);
    }
  }

  lemma {:induction false} PairsWithLength(x: Row, focus: seq<Row>, dist: (Row, Row) -> Option<real>)
    ensures |PairsWith(x, focus, dist)| <= |focus|
  {
    if focus != [] {
      PairsWithLength(x, focus[1..], dist);
    }
  }

  lemma {:induction false} JoinLength(xs: seq<Row>, focus: seq<Row>, filter: Record, dist: (Row, Row) -> Option<real>)
    ensures |Join(xs, focus, filter, dist)| <= |xs| * |focus|
  {
    if xs != [] {
      JoinLength(xs[1..], focus, filter, dist);
      PairsWithLength(xs[0], focus, dist);
      assert |xs| * |focus| == |focus| + (|xs| - 1) * |focus|;
    }
  }

  // ---------------------------------------------------------------------
  // Consumers: fetching the mails and attaching `similarity = 1 - distance`
  // ---------------------------------------------------------------------

  /** `doc.metadata.id` of each returned pair. */
  function MetadataIds(results: seq<Neighbour>): (ids: seq<Option<Json>>)
    ensures |ids| == |results|
    ensures forall i :: 0 <= i < |results| ==> ids[i] == Get(results[i].doc.metadata, "id")
  {
    seq(|results|, i requires 0 <= i < |results| => Get(results[i].doc.metadata, "id"))
  }

  /** The selected columns of a record. */
  function Project(r: Record, columns: set<string>): (p: Record)
    ensures forall k :: k in p <==> k in r && k in columns
    ensures forall k :: k in p ==> p[k] == r[k]
  {
    map k | k in r && k in columns :: r[k]
  }

  /**
   * `SELECT columns FROM Mails WHERE ID IN ids`: each stored mail whose key
   * is one of the ids, once, in the order the ids first name them.
   */
  function FetchByIds(store: map<string, Record>, ids: seq<Option<Json>>, columns: set<string>, seen: set<string>): (r: seq<Record>)
    ensures |r| <= |ids|
    ensures forall m :: m in r ==> exists s :: s in store && s !in seen && Some(JStr(s)) in ids && m == Project(store[s], columns)
  {
    if ids == [] then []
    else if ids[0].Some? && ids[0].value.JStr? && ids[0].value.s in store && ids[0].value.s !in seen then
      [Project(store[ids[0].value.s], columns)] + FetchByIds(store, ids[1..], columns, seen + {ids[0].value.s})
    else FetchByIds(store, ids[1..], columns, seen)
  }

  lemma {:induction false} FetchByIdsComplete(store: map<string, Record>, ids: seq<Option<Json>>, columns: set<string>, seen: set<string>, s: string)
    requires s in store && s !in seen && Some(JStr(s)) in ids
    ensures Project(store[s], columns) in FetchByIds(store, ids, columns, seen)
  {
    if ids[0] != Some(JStr(s)) {
      assert Some(JStr(s)) in ids[1..];
      var head := ids[0];
      if head.Some? && head.value.JStr? && head.value.s in store && head.value.s !in seen {
        FetchByIdsComplete(store, ids[1..], columns, seen + {head.value.s}, s);
      } else {
        FetchByIdsComplete(store, ids[1..], columns, seen, s);
      }
    }
  }

  datatype Similar = Similar(similarity: real, mail: Record)

  /** The index of `results.find(([doc]) => id === doc.metadata.id)`, or |results|. */
  function FirstWithId(results: seq<Neighbour>, id: Option<Json>): (j: nat)
    ensures j <= |results|
    ensures forall i :: 0 <= i < j ==> Get(results[i].doc.metadata, "id") != id
    ensures j < |results| ==> Get(results[j].doc.metadata, "id") == id
  {
    if results == [] then 0
    else if Get(results[0].doc.metadata, "id") == id then 0
    else 1 + FirstWithId(results[1..], id)
  }

  /**
   * `mails.map(mail => { const [_, d] = results.find(...); return { similarity: 1 - d, mail } })`;
   * destructuring an unmatched `find` throws.
   */
  function AttachSimilarity(results: seq<Neighbour>, mails: seq<Record>): (r: Outcome<seq<Similar>>)
    ensures r.Ok? <==> forall i :: 0 <= i < |mails| ==> FirstWithId(results, Get(mails[i], "ID")) < |results|
  {
    if mails == [] then Ok([])
    else
      var j := FirstWithId(results, Get(mails[0], "ID"));
      if j == |results| then Thrown
      else match AttachSimilarity(results, mails[1..])
        case Thrown => Thrown
        case Ok(rest) => Ok([Similar(1.0 - results[j].distance, mails[0])] + rest)
  }

  lemma {:induction false} AttachSimilaritySpec(results: seq<Neighbour>, mails: seq<Record>)
    requires AttachSimilarity(results, mails).Ok?
    ensures var r := AttachSimilarity(results, mails).value;
      && |r| == |mails|
      && forall i :: 0 <= i < |mails| ==>
        r[i].mail == mails[i] && r[i].similarity == 1.0 - results[FirstWithId(results, Get(mails[i], "ID"))].distance
  {
    if mails != [] {
      AttachSimilaritySpec(results, mails[1..]);
    }
  }

  /**
   * The closest-mails part of onGetMail and the whole of onFindMails: no mail
   * query when retrieval found nothing, otherwise the fetched mails paired with
   * their similarity.
   */
  function WithSimilarity(results: seq<Neighbour>, store: map<string, Record>, columns: set<string>): (r: Outcome<seq<Similar>>)
    ensures results == [] ==> r == Ok([])
  {
    if |results| > 0 then AttachSimilarity(results, FetchByIds(store, MetadataIds(results), columns, {}))
    else Ok([])
  }

  /** Every stored mail carries its own key as `ID`. */
  predicate KeyedById(store: map<string, Record>) {
    forall s :: s in store ==> Get(store[s], "ID") == Some(JStr(s))
  }

  /**
   * With mails keyed by their ID and the ID column selected, the join never
   * throws: one entry per fetched mail, each a mail some result names, with
   * similarity `1 - distance` of the first result naming it; every mail some
   * result names is among them.
   */
  lemma WithSimilaritySpec(results: seq<Neighbour>, store: map<string, Record>, columns: set<string>)
    requires KeyedById(store) && "ID" in columns
    ensures WithSimilarity(results, store, columns).Ok?
    ensures var r := WithSimilarity(results, store, columns).value;
      && (forall i :: 0 <= i < |r| ==>
          && (exists s :: s in store && Some(JStr(s)) in MetadataIds(results) && r[i].mail == Project(store[s], columns))
          && var j := FirstWithId(results, Get(r[i].mail, "ID"));
             j < |results| && Get(results[j].doc.metadata, "id") == Get(r[i].mail, "ID")
             && r[i].similarity == 1.0 - results[j].distance)
      && (forall s :: s in store && Some(JStr(s)) in MetadataIds(results) ==>
            exists i :: 0 <= i < |r| && r[i].mail == Project(store[s], columns))
  {
    if |results| > 0 {
      var ids := MetadataIds(results);
      var fetched := FetchByIds(store, ids, columns, {});
      forall i | 0 <= i < |fetched| ensures FirstWithId(results, Get(fetched[i], "ID")) < |results| {
        assert fetched[i] in fetched;
        var s :| s in store && Some(JStr(s)) in ids && fetched[i] == Project(store[s], columns);
        var k :| 0 <= k < |ids| && ids[k] == Some(JStr(s));
        assert Get(fetched[i], "ID") == Some(JStr(s));
        assert Get(results[k].doc.metadata, "id") == Some(JStr(s));
      }
      AttachSimilaritySpec(results, fetched);
      var r := WithSimilarity(results, store, columns).value;
      forall i | 0 <= i < |r|
        ensures exists s :: s in store && Some(JStr(s)) in ids && r[i].mail == Project(store[s], columns)
      {
        assert r[i].mail == fetched[i] && fetched[i] in fetched;
      }
      forall s | s in store && Some(JStr(s)) in ids
        ensures exists i :: 0 <= i < |r| && r[i].mail == Project(store[s], columns)
      {
        FetchByIdsComplete(store, ids, columns, {}, s);
        var i :| 0 <= i < |fetched| && fetched[i] == Project(store[s], columns);
        assert r[i].mail == fetched[i];
      }
    }
  }

  /** `new Document({ metadata: { id: mail.id }, pageContent: mail.responseBody })` */
  datatype Document = Document(metadataId: Option<Json>, pageContent: Option<Json>)

  /**
   * getClosestResponses: the response bodies of the mails the results name,
   * as context documents. The metadata reads `mail.id` of a record that only
   * holds the columns ID and responseBody.
   */
  function ClosestResponses(results: seq<Neighbour>, store: map<string, Record>): (docs: seq<Document>)
  {
    if |results| == 0 then []
    else
      var fetched := FetchByIds(store, MetadataIds(results), {"ID", "responseBody"}, {});
      seq(|fetched|, i requires 0 <= i < |fetched| => Document(Get(fetched[i], "id"), Get(fetched[i], "responseBody")))
  }

  /**
   * Every context document carries the stored response body of a mail that
   * one of the results names, at most one per result, and never an id.
   */
  lemma ClosestResponsesSpec(results: seq<Neighbour>, store: map<string, Record>)
    ensures |ClosestResponses(results, store)| <= |results|
    ensures forall d :: d in ClosestResponses(results, store) ==>
      && d.metadataId == None
      && exists s :: s in store && Some(JStr(s)) in MetadataIds(results) && d.pageContent == Get(store[s], "responseBody")
  {
    if |results| > 0 {
      var fetched := FetchByIds(store, MetadataIds(results), {"ID", "responseBody"}, {});
      forall d | d in ClosestResponses(results, store)
        ensures d.metadataId == None
        ensures exists s :: s in store && Some(JStr(s)) in MetadataIds(results) && d.pageContent == Get(store[s], "responseBody")
      {
        var i :| 0 <= i < |fetched| && d == ClosestResponses(results, store)[i];
        assert fetched[i] in fetched;
      }
    }
  }
}
