/**
 The embedding store and the per-facet searcher. The store is a map from table
 name to its rows in storage order; a row keeps its vector as JSON text, so a
 search parses each row's vector and drops the rows that do not parse. The
 embedding model, the JSON encoder and parser, and the floating-point quotient
 of the cosine similarity are parameters: this module only fixes what is done
 with their results.
 */
module Embedding {
  import opened Wrappers
  import opened Seqs
  import opened Sorting
  import opened Fetch

  type Vector = seq<real>

  /** A stored row: condition name, embedded text, and the vector as JSON text. */
  datatype Row = Row(conditionName: string, text: string, vector: string)

  /** One hit of a table search; `embeddingType` is the facet tag set by the caller. */
  datatype SearchResult = SearchResult(conditionName: string, text: string, embeddingType: string)

  /** A row that parsed, with its similarity to the query. */
  datatype Scored = Scored(name: string, text: string, similarity: real)

  /** One `(name, text, vector)` tuple collected for a facet table. */
  datatype Entry = Entry(name: string, text: string, vector: Vector)

  /** The three indexed facets; treatments have no table. */
  datatype Facet = Description | Etiology | Manifestation

  type Store = map<string, seq<Row>>

  const DescriptionTable := "description_embeddings"
  const EtiologyTable := "etiology_embeddings"
  const ManifestationTable := "manifestation_embeddings"

  function TableName(f: Facet): string {
    match f
    case Description => DescriptionTable
    case Etiology => EtiologyTable
    case Manifestation => ManifestationTable
  }

  // ---------------------------------------------------------------- cosine similarity

  function Square(x: real): real {
    x * x
  }

  /** `sum(x * x)` over the components: the squared Euclidean norm. */
  function SumSquares(a: Vector): real {
    if a == [] then 0.0 else Square(a[0]) + SumSquares(a[1..])
  }

  predicate IsZero(a: Vector) {
    forall i :: 0 <= i < |a| ==> a[i] == 0.0
  }

  /** The norm `sqrt(SumSquares(a))` is zero exactly for the zero vector. */
  lemma {:induction false} SumSquaresZero(a: Vector)
    ensures SumSquares(a) >= 0.0
    ensures SumSquares(a) == 0.0 <==> IsZero(a)
  {
    if a != [] {
      SumSquaresZero(a[1..]);
      SquareSign(a[0]);
      if SumSquares(a) == 0.0 {
        forall i | 0 <= i < |a| ensures a[i] == 0.0 {
          if i > 0 { assert a[i] == a[1..][i - 1]; }
        }
      }
      if IsZero(a) {
        assert forall i :: 0 <= i < |a[1..]| ==> a[1..][i] == a[i + 1];
      }
    }
  }

  lemma ProductPositive(x: real, y: real)
    requires x > 0.0 && y > 0.0
    ensures x * y > 0.0
  {
  }

  /** A square is never negative and is zero only for zero. */
  lemma SquareSign(x: real)
    ensures Square(x) >= 0.0
    ensures Square(x) == 0.0 <==> x == 0.0
  {
    if x > 0.0 {
      calc {
        Square(x);
        x * x;
      > { ProductPositive(x, x); }
        0.0;
      }
    } else if x < 0.0 {
      calc {
        Square(x);
        (-x) * (-x);
      > { ProductPositive(-x, -x); }
        0.0;
      }
    }
  }

  /**
   `cosine_similarity`: 0 for vectors of different lengths or with a zero
   norm; otherwise the quotient `dot(a, b) / (|a| |b|)`, supplied as `ratio`.
   */
  function Cosine(a: Vector, b: Vector, ratio: (Vector, Vector) -> real): (r: real)
    ensures |a| != |b| ==> r == 0.0
    ensures IsZero(a) || IsZero(b) ==> r == 0.0
    ensures |a| == |b| && !IsZero(a) && !IsZero(b) ==> r == ratio(a, b)
  {
    SumSquaresZero(a);
    SumSquaresZero(b);
    if |a| != |b| then 0.0
    else if SumSquares(a) == 0.0 || SumSquares(b) == 0.0 then 0.0
    else ratio(a, b)
  }

  // ---------------------------------------------------------------- search_table

  /** A row's score, or nothing when its vector text does not parse. */
  function Scoring(row: Row, query: Vector, parse: string -> Option<Vector>, ratio: (Vector, Vector) -> real): Option<Scored> {
    match parse(row.vector)
    case None => None
    case Some(v) => Some(Scored(row.conditionName, row.text, Cosine(query, v, ratio)))
  }

  /** How many rows have a vector that parses. */
  function ParsedCount(rows: seq<Row>, parse: string -> Option<Vector>): (n: nat)
    ensures n <= |rows|
  {
    if rows == [] then 0
    else (if parse(rows[0].vector).Some? then 1 else 0) + ParsedCount(rows[1..], parse)
  }

  /** Every row whose vector parses, scored once, in storage order; the others dropped. */
  function ScoreRows(rows: seq<Row>, query: Vector, parse: string -> Option<Vector>, ratio: (Vector, Vector) -> real): (r: seq<Scored>)
    ensures |r| == ParsedCount(rows, parse)
    ensures forall x :: x in r ==> exists k :: 0 <= k < |rows| && Scoring(rows[k], query, parse, ratio) == Some(x)
    ensures forall k :: 0 <= k < |rows| && parse(rows[k].vector).Some? ==> Scoring(rows[k], query, parse, ratio).value in r
  {
    if rows == [] then []
    else
      var rest := ScoreRows(rows[1..], query, parse, ratio);
      assert forall x :: x in rest ==> exists k :: 1 <= k < |rows| && Scoring(rows[k], query, parse, ratio) == Some(x) by {
        forall x | x in rest ensures exists k :: 1 <= k < |rows| && Scoring(rows[k], query, parse, ratio) == Some(x) {
          var k :| 0 <= k < |rows[1..]| && Scoring(rows[1..][k], query, parse, ratio) == Some(x);
          assert rows[1..][k] == rows[k + 1];
        }
      }
      assert forall k :: 1 <= k < |rows| ==> rows[k] == rows[1..][k - 1];
      match Scoring(rows[0], query, parse, ratio)
      case None => rest
      case Some(x) => [x] + rest
  }

  /** One row is scored on its own: its scoring when the vector parses, else nothing. */
  lemma ScoreRowsOne(row: Row, query: Vector, parse: string -> Option<Vector>, ratio: (Vector, Vector) -> real)
    ensures ScoreRows([row], query, parse, ratio) ==
      match parse(row.vector)
      case None => []
      case Some(v) => [Scored(row.conditionName, row.text, Cosine(query, v, ratio))]
  {
  }

  /**
   Scoring distributes over concatenation: the rows stored first are scored
   first, so the scores come in storage order and each row contributes its
   own scoring exactly once.
   */
  lemma {:induction false} ScoreRowsAppend(a: seq<Row>, b: seq<Row>, query: Vector, parse: string -> Option<Vector>, ratio: (Vector, Vector) -> real)
    ensures ScoreRows(a + b, query, parse, ratio) == ScoreRows(a, query, parse, ratio) + ScoreRows(b, query, parse, ratio)
  {
    if a == [] {
      assert a + b == b;
    } else {
      assert (a + b)[0] == a[0];
      assert (a + b)[1..] == a[1..] + b;
      ScoreRowsAppend(a[1..], b, query, parse, ratio);
    }
  }

  /**
   Ties are broken by storage order: among ranked hits of one similarity, the
   scorings of the rows stored first (`a`) come before those stored later (`b`).
   */
  lemma RankRowsTies(a: seq<Row>, b: seq<Row>, query: Vector, limit: nat, parse: string -> Option<Vector>, ratio: (Vector, Vector) -> real, v: real)
    ensures WithKey(RankRows(a + b, query, limit, parse, ratio), Similarity, v)
      <= WithKey(ScoreRows(a, query, parse, ratio), Similarity, v) + WithKey(ScoreRows(b, query, parse, ratio), Similarity, v)
  {
    ScoreRowsAppend(a, b, query, parse, ratio);
    WithKeyAppend(ScoreRows(a, query, parse, ratio), ScoreRows(b, query, parse, ratio), Similarity, v);
  }

  function Similarity(s: Scored): real {
    s.similarity
  }

  /**
   The ranking half of `search_table`: the scored rows stably sorted by
   descending similarity, cut to `limit`.
   */
  function RankRows(rows: seq<Row>, query: Vector, limit: nat, parse: string -> Option<Vector>, ratio: (Vector, Vector) -> real): (r: seq<Scored>)
    ensures |r| == Min(limit, ParsedCount(rows, parse))
    ensures SortedDesc(r, Similarity)
    ensures multiset(r) <= multiset(ScoreRows(rows, query, parse, ratio))
    ensures forall x :: x in ScoreRows(rows, query, parse, ratio) && x !in r ==>
      forall i :: 0 <= i < |r| ==> x.similarity <= r[i].similarity
    ensures forall v :: WithKey(r, Similarity, v) <= WithKey(ScoreRows(rows, query, parse, ratio), Similarity, v)
  {
    TopK(ScoreRows(rows, query, parse, ratio), Similarity, limit)
  }

  /** Every ranked hit comes from a stored row whose vector parses. */
  lemma RankedFromRows(rows: seq<Row>, query: Vector, limit: nat, parse: string -> Option<Vector>, ratio: (Vector, Vector) -> real)
    ensures var ranked := RankRows(rows, query, limit, parse, ratio);
      forall i :: 0 <= i < |ranked| ==>
        (exists k :: 0 <= k < |rows| && parse(rows[k].vector).Some?
           && rows[k].conditionName == ranked[i].name && rows[k].text == ranked[i].text)
  {
    var ranked := RankRows(rows, query, limit, parse, ratio);
    var scored := ScoreRows(rows, query, parse, ratio);
    forall i | 0 <= i < |ranked|
      ensures (exists k :: 0 <= k < |rows| && parse(rows[k].vector).Some?
                 && rows[k].conditionName == ranked[i].name && rows[k].text == ranked[i].text)
    {
      assert ranked[i] in multiset(scored);
      var k :| 0 <= k < |rows| && Scoring(rows[k], query, parse, ratio) == Some(ranked[i]);
    }
  }

  /**
   `search_table`: the top `limit` rows by similarity, as results with an
   empty facet tag.
   */
  function SearchTable(rows: seq<Row>, query: Vector, limit: nat, parse: string -> Option<Vector>, ratio: (Vector, Vector) -> real): (r: seq<SearchResult>)
    ensures |r| == Min(limit, ParsedCount(rows, parse))
    ensures forall i :: 0 <= i < |r| ==> r[i].embeddingType == ""
    ensures var ranked := RankRows(rows, query, limit, parse, ratio);
      forall i :: 0 <= i < |r| ==> r[i].conditionName == ranked[i].name && r[i].text == ranked[i].text
    ensures forall i :: 0 <= i < |r| ==>
      (exists k :: 0 <= k < |rows| && parse(rows[k].vector).Some?
         && rows[k].conditionName == r[i].conditionName && rows[k].text == r[i].text)
  {
    var ranked := RankRows(rows, query, limit, parse, ratio);
    var r := ResultsOf(ranked);
    HitsFromRows(rows, query, limit, parse, ratio, r);
    r
  }

  /** Each scored row as a search result with an empty facet tag. */
  function ResultsOf(ranked: seq<Scored>): (r: seq<SearchResult>)
    ensures |r| == |ranked|
    ensures forall i :: 0 <= i < |r| ==> r[i] == SearchResult(ranked[i].name, ranked[i].text, "")
  {
    seq(|ranked|, i requires 0 <= i < |ranked| => SearchResult(ranked[i].name, ranked[i].text, ""))
  }

  lemma HitsFromRows(rows: seq<Row>, query: Vector, limit: nat, parse: string -> Option<Vector>, ratio: (Vector, Vector) -> real,
                     r: seq<SearchResult>)
    requires r == ResultsOf(RankRows(rows, query, limit, parse, ratio))
    ensures forall i :: 0 <= i < |r| ==>
      (exists k :: 0 <= k < |rows| && parse(rows[k].vector).Some?
         && rows[k].conditionName == r[i].conditionName && rows[k].text == r[i].text)
  {
    RankedFromRows(rows, query, limit, parse, ratio);
  }

  // ---------------------------------------------------------------- which fields are embedded

  function FacetText(c: ConditionData, f: Facet): string {
    match f
    case Description => c.description
    case Etiology => c.etiology
    case Manifestation => c.manifestations
  }

  /** The sentinel that marks "nothing to embed" for a facet. */
  function Placeholder(f: Facet): string {
    if f == Description then NoSummary else NotAvailable
  }

  /** `embed_conditions` embeds a field when it is non-empty and not its facet's placeholder. */
  predicate Indexed(c: ConditionData, f: Facet) {
    FacetText(c, f) != "" && FacetText(c, f) != Placeholder(f)
  }

  /**
   The field filter: description unless empty or "No summary available",
   etiology and manifestations unless empty or "N/A"; the "Details
   integrated" sentinel is embedded like real text.
   */
  lemma FieldFilter(c: ConditionData)
    ensures Indexed(c, Description) <==> c.description != "" && c.description != "No summary available"
    ensures Indexed(c, Etiology) <==> c.etiology != "" && c.etiology != "N/A"
    ensures Indexed(c, Manifestation) <==> c.manifestations != "" && c.manifestations != "N/A"
    ensures c.etiology == DetailsSentinel ==> Indexed(c, Etiology)
    ensures c.manifestations == DetailsSentinel ==> Indexed(c, Manifestation)
  {
  }

  function EntryOf(c: ConditionData, f: Facet, embed: string -> Vector): Entry {
    Entry(c.name, FacetText(c, f), embed(FacetText(c, f)))
  }

  /** The tuples `embed_conditions` collects for one facet, in condition order. */
  function FacetEntries(conds: seq<ConditionData>, f: Facet, embed: string -> Vector): (r: seq<Entry>)
    ensures |r| <= |conds|
    ensures forall e :: e in r ==> exists c :: c in conds && Indexed(c, f) && e == EntryOf(c, f, embed)
    ensures forall c :: c in conds && Indexed(c, f) ==> EntryOf(c, f, embed) in r
  {
    if conds == [] then []
    else
      var rest := FacetEntries(conds[1..], f, embed);
      assert forall c :: c in conds[1..] ==> c in conds;
      if Indexed(conds[0], f) then [EntryOf(conds[0], f, embed)] + rest else rest
  }

  /** Collecting distributes over concatenation, so the entries keep the conditions' order. */
  lemma {:induction false} FacetEntriesAppend(a: seq<ConditionData>, b: seq<ConditionData>, f: Facet, embed: string -> Vector)
    ensures FacetEntries(a + b, f, embed) == FacetEntries(a, f, embed) + FacetEntries(b, f, embed)
  {
    if a == [] {
      assert a + b == b;
    } else {
      assert (a + b)[0] == a[0];
      assert (a + b)[1..] == a[1..] + b;
      FacetEntriesAppend(a[1..], b, f, embed);
    }
  }

  // ---------------------------------------------------------------- writing tables

  function RowsOf(data: seq<Entry>, encode: Vector -> string): (rows: seq<Row>)
    ensures |rows| == |data|
    ensures forall i :: 0 <= i < |data| ==> rows[i] == Row(data[i].name, data[i].text, encode(data[i].vector))
  {
    seq(|data|, i requires 0 <= i < |data| => Row(data[i].name, data[i].text, encode(data[i].vector)))
  }

  /** The rows a table holds, none when it was never created. */
  function Existing(store: Store, table: string): seq<Row> {
    if table in store then store[table] else []
  }

  /**
   `create_and_insert_embeddings`: nothing happens for no data; otherwise the
   rows are appended to the table, which is created when it does not exist.
   */
  function CreateAndInsert(store: Store, table: string, data: seq<Entry>, encode: Vector -> string): (r: Store)
    ensures data == [] ==> r == store
    ensures data != [] ==> r.Keys == store.Keys + {table}
    ensures forall t :: t in store ==> t in r && store[t] <= r[t]
    ensures forall t :: t in store && t != table ==> r[t] == store[t]
    ensures data != [] ==> r[table] == Existing(store, table) + RowsOf(data, encode)
  {
    if data == [] then store
    else
      var rows := RowsOf(data, encode);
      if table in store then store[table := store[table] + rows] else store[table := rows]
  }

  /** Appends one facet's entries when there are any, as `embed_conditions` guards each call. */
  function WriteFacet(store: Store, f: Facet, data: seq<Entry>, encode: Vector -> string): (r: Store)
    ensures r.Keys == store.Keys + (if data == [] then {} else {TableName(f)})
    ensures forall t :: t in store && t != TableName(f) ==> r[t] == store[t]
    ensures TableName(f) in r ==> r[TableName(f)] == Existing(store, TableName(f)) + RowsOf(data, encode)
  {
    if |data| > 0 then CreateAndInsert(store, TableName(f), data, encode) else store
  }

  /** The table of facet `f` in `after` is the table in `before` with the facet's entries appended. */
  predicate FacetWritten(before: Store, after: Store, conds: seq<ConditionData>, f: Facet, embed: string -> Vector, encode: Vector -> string) {
    && (TableName(f) in after <==> TableName(f) in before || FacetEntries(conds, f, embed) != [])
    && (TableName(f) in after ==>
          after[TableName(f)] == Existing(before, TableName(f)) + RowsOf(FacetEntries(conds, f, embed), encode))
  }

  /**
   `embed_conditions`: each facet's table receives that facet's entries; a
   table is created or touched only when its facet has entries, and no other
   table changes.
   */
  function EmbedConditions(store: Store, conds: seq<ConditionData>, embed: string -> Vector, encode: Vector -> string): (r: Store)
    ensures forall t :: t in store && t != DescriptionTable && t != EtiologyTable && t != ManifestationTable ==>
      t in r && r[t] == store[t]
    ensures r.Keys <= store.Keys + {DescriptionTable, EtiologyTable, ManifestationTable}
    ensures FacetWritten(store, r, conds, Description, embed, encode)
    ensures FacetWritten(store, r, conds, Etiology, embed, encode)
    ensures FacetWritten(store, r, conds, Manifestation, embed, encode)
  {
    if conds == [] then store
    else
      WriteFacets(store, FacetEntries(conds, Description, embed), FacetEntries(conds, Etiology, embed),
                  FacetEntries(conds, Manifestation, embed), encode)
  }

  /** The three guarded table writes, description first. */
  function WriteFacets(store: Store, d: seq<Entry>, e: seq<Entry>, m: seq<Entry>, encode: Vector -> string): (r: Store)
    ensures forall t :: t in store && t != DescriptionTable && t != EtiologyTable && t != ManifestationTable ==>
      t in r && r[t] == store[t]
    ensures r.Keys <= store.Keys + {DescriptionTable, EtiologyTable, ManifestationTable}
    ensures (DescriptionTable in r <==> DescriptionTable in store || d != [])
      && (DescriptionTable in r ==> r[DescriptionTable] == Existing(store, DescriptionTable) + RowsOf(d, encode))
    ensures (EtiologyTable in r <==> EtiologyTable in store || e != [])
      && (EtiologyTable in r ==> r[EtiologyTable] == Existing(store, EtiologyTable) + RowsOf(e, encode))
    ensures (ManifestationTable in r <==> ManifestationTable in store || m != [])
      && (ManifestationTable in r ==> r[ManifestationTable] == Existing(store, ManifestationTable) + RowsOf(m, encode))
  {
    var s1 := WriteFacet(store, Description, d, encode);
    var s2 := WriteFacet(s1, Etiology, e, encode);
    assert Existing(s1, EtiologyTable) == Existing(store, EtiologyTable);
    assert Existing(s2, ManifestationTable) == Existing(store, ManifestationTable);
    WriteFacet(s2, Manifestation, m, encode)
  }

  /** Treatments are never embedded: the store does not depend on them. */
  lemma TreatmentsIgnored(store: Store, a: seq<ConditionData>, b: seq<ConditionData>, embed: string -> Vector, encode: Vector -> string)
    requires |a| == |b|
    requires forall i :: 0 <= i < |a| ==> a[i].(treatments := "") == b[i].(treatments := "")
    ensures EmbedConditions(store, a, embed, encode) == EmbedConditions(store, b, embed, encode)
  {
    SameEntries(a, b, Description, embed);
    SameEntries(a, b, Etiology, embed);
    SameEntries(a, b, Manifestation, embed);
    assert a == [] <==> b == [];
  }

  lemma {:induction false} SameEntries(a: seq<ConditionData>, b: seq<ConditionData>, f: Facet, embed: string -> Vector)
    requires |a| == |b|
    requires forall i :: 0 <= i < |a| ==> a[i].(treatments := "") == b[i].(treatments := "")
    ensures FacetEntries(a, f, embed) == FacetEntries(b, f, embed)
  {
    if a != [] {
      assert a[0].(treatments := "") == b[0].(treatments := "");
      SameEntries(a[1..], b[1..], f, embed);
    }
  }

  lemma {:induction false} ParsedCountAppend(a: seq<Row>, b: seq<Row>, parse: string -> Option<Vector>)
    ensures ParsedCount(a + b, parse) == ParsedCount(a, parse) + ParsedCount(b, parse)
  {
    if a == [] {
      assert a + b == b;
    } else {
      assert (a + b)[0] == a[0];
      assert (a + b)[1..] == a[1..] + b;
      ParsedCountAppend(a[1..], b, parse);
    }
  }

  /**
   When the vector encoding round-trips, every entry written to a table is
   found again by a search of that table, scored against its own vector.
   */
  lemma WrittenRowsAreSearchable(store: Store, table: string, data: seq<Entry>, encode: Vector -> string,
                                 parse: string -> Option<Vector>, query: Vector, ratio: (Vector, Vector) -> real)
    requires forall v :: parse(encode(v)) == Some(v)
    requires data != []
    ensures var rows := CreateAndInsert(store, table, data, encode)[table];
      && ParsedCount(rows, parse) == ParsedCount(Existing(store, table), parse) + |data|
      && forall e :: e in data ==> Scored(e.name, e.text, Cosine(query, e.vector, ratio)) in ScoreRows(rows, query, parse, ratio)
  {
    var written := RowsOf(data, encode);
    var rows := CreateAndInsert(store, table, data, encode)[table];
    ParsedCountAppend(Existing(store, table), written, parse);
    AllParse(written, parse, data, encode);
    forall e | e in data
      ensures Scored(e.name, e.text, Cosine(query, e.vector, ratio)) in ScoreRows(rows, query, parse, ratio)
    {
      var i :| 0 <= i < |data| && data[i] == e;
      var k := |Existing(store, table)| + i;
      assert rows[k] == written[i];
    }
  }

  lemma {:induction false} AllParse(rows: seq<Row>, parse: string -> Option<Vector>, data: seq<Entry>, encode: Vector -> string)
    requires forall v :: parse(encode(v)) == Some(v)
    requires rows == RowsOf(data, encode)
    ensures ParsedCount(rows, parse) == |rows|
  {
    if rows != [] {
      assert rows[1..] == RowsOf(data[1..], encode);
      AllParse(rows[1..], parse, data[1..], encode);
    }
  }
}
