/**
 Rank fusion across the three facet searches. Every condition named by at
 least one facet hit becomes a candidate; it gets one presence flag per facet,
 a weighted score, and, per facet, the text of that facet's last hit for it.
 The five best candidates by score are the answer. Scores are counted in
 tenths (weights 10, 12 and 15 for 1.0, 1.2 and 1.5), so no rounding arises.
 */
module Search {
  import opened Wrappers
  import opened Seqs
  import opened Sorting
  import opened Embedding

  /** `RankedCondition`; `score` is in tenths. */
  datatype RankedCondition = RankedCondition(
    name: string,
    score: int,
    descriptionMatches: nat,
    etiologyMatches: nat,
    manifestationMatches: nat,
    descriptionText: Option<string>,
    etiologyText: Option<string>,
    manifestationText: Option<string>)

  /** The per-name triple of facet texts kept while the hit lists are read. */
  datatype Texts = Texts(description: Option<string>, etiology: Option<string>, manifestation: Option<string>)

  const NoTexts := Texts(None, None, None)

  /** How many conditions are returned, whatever the per-table limit. */
  const TopCount := 5

  const DescriptionWeight := 10
  const EtiologyWeight := 12
  const ManifestationWeight := 15

  /** The highest score: a name found by all three facets. */
  const FullScore := DescriptionWeight + EtiologyWeight + ManifestationWeight

  /** `name` is the condition of some hit in `hits`. */
  predicate Listed(hits: seq<SearchResult>, name: string) {
    exists i :: 0 <= i < |hits| && hits[i].conditionName == name
  }

  /** The distinct condition names across the three lists: `all_conditions`. */
  function AllNames(d: seq<SearchResult>, e: seq<SearchResult>, m: seq<SearchResult>): (names: set<string>)
    ensures forall n :: n in names <==> Listed(d, n) || Listed(e, n) || Listed(m, n)
  {
    set h | h in d + e + m :: h.conditionName
  }

  // ---------------------------------------------------------------- flags and score

  /** The match count of one facet: the membership test against that facet's name set. */
  function Flag(hits: seq<SearchResult>, name: string): (f: nat)
    ensures f <= 1
    ensures f == 1 <==> Listed(hits, name)
  {
    if name in (set h | h in hits :: h.conditionName) then 1 else 0
  }

  /** `1.0 d + 1.2 e + 1.5 m`, in tenths. */
  function Score(d: nat, e: nat, m: nat): (s: int)
    requires d <= 1 && e <= 1 && m <= 1
    ensures 0 <= s <= FullScore
    ensures s == 0 <==> d == 0 && e == 0 && m == 0
    ensures s == FullScore <==> d == 1 && e == 1 && m == 1
  {
    d * DescriptionWeight + e * EtiologyWeight + m * ManifestationWeight
  }

  /** Setting more flags never lowers the score. */
  lemma ScoreMonotone(d: nat, e: nat, m: nat, d': nat, e': nat, m': nat)
    requires d <= d' <= 1 && e <= e' <= 1 && m <= m' <= 1
    ensures Score(d, e, m) <= Score(d', e', m')
  {
  }

  /** The score tells the flags apart: no two flag triples share a score. */
  lemma ScoreDeterminesFlags(d: nat, e: nat, m: nat, d': nat, e': nat, m': nat)
    requires d <= 1 && e <= 1 && m <= 1 && d' <= 1 && e' <= 1 && m' <= 1
    requires Score(d, e, m) == Score(d', e', m')
    ensures d == d' && e == e' && m == m'
  {
  }

  // ---------------------------------------------------------------- texts

  /** The text of the last hit for `name`, if there is one. */
  function LastText(hits: seq<SearchResult>, name: string): (t: Option<string>)
    ensures t.Some? <==> Listed(hits, name)
    ensures t.Some? ==>
      (exists i :: 0 <= i < |hits| && hits[i].conditionName == name && hits[i].text == t.value
         && forall j :: i < j < |hits| ==> hits[j].conditionName != name)
  {
    if hits == [] then None
    else
      var last := |hits| - 1;
      var rest := LastText(hits[..last], name);
      assert forall i :: 0 <= i < last ==> hits[..last][i] == hits[i];
      if hits[last].conditionName == name then Some(hits[last].text) else rest
  }

  function TextOf(t: Texts, f: Facet): Option<string> {
    match f
    case Description => t.description
    case Etiology => t.etiology
    case Manifestation => t.manifestation
  }

  /** Sets one facet's text (`entry.0 = …`, `entry.1 = …` or `entry.2 = …`). */
  function SetText(t: Texts, f: Facet, text: string): (r: Texts)
    ensures TextOf(r, f) == Some(text)
    ensures forall g :: g != f ==> TextOf(r, g) == TextOf(t, g)
  {
    match f
    case Description => t.(description := Some(text))
    case Etiology => t.(etiology := Some(text))
    case Manifestation => t.(manifestation := Some(text))
  }

  /** `condition_texts.get(name).cloned().unwrap_or((None, None, None))`. */
  function Lookup(texts: map<string, Texts>, name: string): Texts {
    if name in texts then texts[name] else NoTexts
  }

  /**
   One pass of the text-collecting loop: for every hit in order,
   `entry(name).or_insert((None, None, None))` and overwrite facet `f`.
   */
  function RecordTexts(texts: map<string, Texts>, hits: seq<SearchResult>, f: Facet): (r: map<string, Texts>)
    ensures r.Keys == texts.Keys + (set h | h in hits :: h.conditionName)
  {
    if hits == [] then texts
    else
      var last := |hits| - 1;
      var before := RecordTexts(texts, hits[..last], f);
      var name := hits[last].conditionName;
      assert hits == hits[..last] + [hits[last]];
      before[name := SetText(Lookup(before, name), f, hits[last].text)]
  }

  /**
   After a pass over `hits` for facet `f`, a name's `f` text is its last hit's
   text when it has a hit, else what it was; the other facets are untouched.
   */
  lemma {:induction false} RecordTextsSpec(texts: map<string, Texts>, hits: seq<SearchResult>, f: Facet, name: string)
    ensures var t := Lookup(RecordTexts(texts, hits, f), name);
      && TextOf(t, f) == (if Listed(hits, name) then LastText(hits, name) else TextOf(Lookup(texts, name), f))
      && forall g :: g != f ==> TextOf(t, g) == TextOf(Lookup(texts, name), g)
  {
    if hits != [] {
      var last := |hits| - 1;
      RecordTextsSpec(texts, hits[..last], f, name);
      ListedSnoc(hits, name);
    }
  }

  /** A name is listed in a non-empty list iff it is listed before the last hit or is the last hit's. */
  lemma ListedSnoc(hits: seq<SearchResult>, name: string)
    requires hits != []
    ensures Listed(hits, name) <==> Listed(hits[..|hits| - 1], name) || hits[|hits| - 1].conditionName == name
  {
    var last := |hits| - 1;
    assert forall i :: 0 <= i < last ==> hits[..last][i] == hits[i];
  }

  /** `condition_texts` after the three passes: description, etiology, manifestation. */
  function TextsOf(d: seq<SearchResult>, e: seq<SearchResult>, m: seq<SearchResult>): map<string, Texts> {
    RecordTexts(RecordTexts(RecordTexts(map[], d, Description), e, Etiology), m, Manifestation)
  }

  /** Each facet's text for a name is the last text that facet's list gives it, and nothing when the list lacks it. */
  lemma TextsOfSpec(d: seq<SearchResult>, e: seq<SearchResult>, m: seq<SearchResult>)
    ensures forall name :: var t := Lookup(TextsOf(d, e, m), name);
      && t.description == LastText(d, name)
      && t.etiology == LastText(e, name)
      && t.manifestation == LastText(m, name)
  {
    var t1 := RecordTexts(map[], d, Description);
    var t2 := RecordTexts(t1, e, Etiology);
    forall name
      ensures var t := Lookup(TextsOf(d, e, m), name);
        && t.description == LastText(d, name)
        && t.etiology == LastText(e, name)
        && t.manifestation == LastText(m, name)
    {
      RecordTextsSpec(map[], d, Description, name);
      RecordTextsSpec(t1, e, Etiology, name);
      RecordTextsSpec(t2, m, Manifestation, name);
      assert Lookup(map[], name) == NoTexts;
    }
  }

  // ---------------------------------------------------------------- fusion

  /** The `RankedCondition` built for one name in the loop over `all_conditions`. */
  function Candidate(name: string, d: seq<SearchResult>, e: seq<SearchResult>, m: seq<SearchResult>,
                     texts: map<string, Texts>): (c: RankedCondition)
    ensures c.name == name
  {
    var df := Flag(d, name);
    var ef := Flag(e, name);
    var mf := Flag(m, name);
    var t := Lookup(texts, name);
    RankedCondition(name, Score(df, ef, mf), df, ef, mf, t.description, t.etiology, t.manifestation)
  }

  /** What the contract promises of every returned condition. */
  predicate WellFormed(c: RankedCondition, d: seq<SearchResult>, e: seq<SearchResult>, m: seq<SearchResult>) {
    && (c.descriptionMatches == 1 <==> Listed(d, c.name))
    && (c.etiologyMatches == 1 <==> Listed(e, c.name))
    && (c.manifestationMatches == 1 <==> Listed(m, c.name))
    && c.descriptionMatches <= 1 && c.etiologyMatches <= 1 && c.manifestationMatches <= 1
    && c.score == DescriptionWeight * c.descriptionMatches + EtiologyWeight * c.etiologyMatches
                  + ManifestationWeight * c.manifestationMatches
    && c.descriptionText == LastText(d, c.name)
    && c.etiologyText == LastText(e, c.name)
    && c.manifestationText == LastText(m, c.name)
  }

  /** The score of a name, as the candidate built for it would carry. */
  function NameScore(name: string, d: seq<SearchResult>, e: seq<SearchResult>, m: seq<SearchResult>): int {
    Score(Flag(d, name), Flag(e, name), Flag(m, name))
  }

  function ScoreKey(c: RankedCondition): real {
    c.score as real
  }

  /** The candidates in the order the names are enumerated. */
  function Candidates(d: seq<SearchResult>, e: seq<SearchResult>, m: seq<SearchResult>, order: seq<string>): (cs: seq<RankedCondition>)
    ensures |cs| == |order|
    ensures forall i :: 0 <= i < |order| ==> cs[i].name == order[i] && WellFormed(cs[i], d, e, m)
    ensures forall i :: 0 <= i < |order| ==> cs[i].score == NameScore(order[i], d, e, m)
  {
    var texts := TextsOf(d, e, m);
    TextsOfSpec(d, e, m);
    seq(|order|, i requires 0 <= i < |order| => Candidate(order[i], d, e, m, texts))
  }

  /**
   `r` is a fusion of the hit lists `d`, `e` and `m`: the five best names (or
   all, when fewer), each once, each with its flags, score and last texts, in
   score order, and no name left out scoring above one returned.
   */
  predicate IsFusion(r: seq<RankedCondition>, d: seq<SearchResult>, e: seq<SearchResult>, m: seq<SearchResult>) {
    && |r| == Min(TopCount, |AllNames(d, e, m)|)
    && (forall i, j :: 0 <= i < j < |r| ==> r[i].name != r[j].name)
    && (forall i :: 0 <= i < |r| ==> r[i].name in AllNames(d, e, m) && WellFormed(r[i], d, e, m))
    && (forall i, j :: 0 <= i < j < |r| ==> r[i].score >= r[j].score)
    && (forall n :: n in AllNames(d, e, m) && (forall i :: 0 <= i < |r| ==> r[i].name != n) ==>
          forall i :: 0 <= i < |r| ==> NameScore(n, d, e, m) <= r[i].score)
  }

  /**
   Lines 48-105 of `cross_reference_search`: the five best candidates by
   score. `order` is the iteration order of the `all_conditions` hash set,
   which Rust leaves unspecified: any enumeration of the names, each once.
   */
  function Fuse(d: seq<SearchResult>, e: seq<SearchResult>, m: seq<SearchResult>, order: seq<string>): (r: seq<RankedCondition>)
    requires Distinct(order)
    requires (set n | n in order) == AllNames(d, e, m)
    ensures IsFusion(r, d, e, m)
  {
    var cs := Candidates(d, e, m, order);
    DistinctCardinality(order);
    var r := TopK(cs, ScoreKey, TopCount);
    FusedFromCandidates(d, e, m, order, cs, r);
    r
  }

  /** What the top five keep of the candidates: names stay distinct and every kept one is well formed. */
  lemma FusedFromCandidates(d: seq<SearchResult>, e: seq<SearchResult>, m: seq<SearchResult>, order: seq<string>,
                            cs: seq<RankedCondition>, r: seq<RankedCondition>)
    requires Distinct(order)
    requires (set n | n in order) == AllNames(d, e, m)
    requires cs == Candidates(d, e, m, order)
    requires multiset(r) <= multiset(cs)
    requires forall x :: x in cs && x !in r ==> forall i :: 0 <= i < |r| ==> ScoreKey(x) <= ScoreKey(r[i])
    ensures forall i, j :: 0 <= i < j < |r| ==> r[i].name != r[j].name
    ensures forall i :: 0 <= i < |r| ==> r[i].name in AllNames(d, e, m) && WellFormed(r[i], d, e, m)
    ensures forall n :: n in AllNames(d, e, m) && (forall i :: 0 <= i < |r| ==> r[i].name != n) ==>
      forall i :: 0 <= i < |r| ==> NameScore(n, d, e, m) <= r[i].score
  {
    KeptAreCandidates(cs, r);
    KeptNamesDistinct(order, cs, r);
    forall n | n in AllNames(d, e, m) && (forall i :: 0 <= i < |r| ==> r[i].name != n)
      ensures forall i :: 0 <= i < |r| ==> NameScore(n, d, e, m) <= r[i].score
    {
      var k :| 0 <= k < |order| && order[k] == n;
      assert cs[k] in cs;
      assert cs[k] !in r;
    }
  }

  lemma KeptAreCandidates(cs: seq<RankedCondition>, r: seq<RankedCondition>)
    requires multiset(r) <= multiset(cs)
    ensures forall i :: 0 <= i < |r| ==> r[i] in cs
  {
    forall i | 0 <= i < |r| ensures r[i] in cs {
      assert r[i] in multiset(r);
    }
  }

  /** Candidates have distinct names, so any sub-multiset of them does too. */
  lemma KeptNamesDistinct(order: seq<string>, cs: seq<RankedCondition>, r: seq<RankedCondition>)
    requires Distinct(order)
    requires |cs| == |order| && forall k :: 0 <= k < |cs| ==> cs[k].name == order[k]
    requires multiset(r) <= multiset(cs)
    ensures forall i, j :: 0 <= i < j < |r| ==> r[i].name != r[j].name
  {
    KeptAreCandidates(cs, r);
    assert Distinct(cs);
    DistinctCounts(cs);
    forall i, j | 0 <= i < j < |r| ensures r[i].name != r[j].name {
      var ki :| 0 <= ki < |cs| && cs[ki] == r[i];
      var kj :| 0 <= kj < |cs| && cs[kj] == r[j];
      if ki == kj {
        RepeatCounts(r, i, j);
      }
    }
  }

  /** A name found by all three facets scores at least as high as any name. */
  lemma FullMatchOutranks(n: string, other: string, d: seq<SearchResult>, e: seq<SearchResult>, m: seq<SearchResult>)
    requires Listed(d, n) && Listed(e, n) && Listed(m, n)
    ensures NameScore(n, d, e, m) == FullScore
    ensures NameScore(other, d, e, m) <= NameScore(n, d, e, m)
  {
  }

  /** A name found by all three facets is returned unless five names that score as high are. */
  lemma FullMatchReturned(d: seq<SearchResult>, e: seq<SearchResult>, m: seq<SearchResult>, order: seq<string>, n: string)
    requires Distinct(order)
    requires (set x | x in order) == AllNames(d, e, m)
    requires Listed(d, n) && Listed(e, n) && Listed(m, n)
    ensures var r := Fuse(d, e, m, order);
      (forall i :: 0 <= i < |r| ==> r[i].name != n) ==> forall i :: 0 <= i < |r| ==> r[i].score == FullScore
  {
    var r := Fuse(d, e, m, order);
    FullMatchOutranks(n, n, d, e, m);
    assert n in AllNames(d, e, m);
    forall i | 0 <= i < |r| ensures r[i].score <= FullScore {
      assert WellFormed(r[i], d, e, m);
    }
  }

  /** Three empty hit lists fuse to nothing. */
  lemma NoHitsNoConditions(order: seq<string>)
    requires Distinct(order)
    requires (set x | x in order) == AllNames([], [], [])
    ensures Fuse([], [], [], order) == []
  {
    assert AllNames([], [], []) == {};
  }

  // ---------------------------------------------------------------- cross_reference_search

  datatype SearchError = TableNotFound(table: string)

  /** The facet tag the caller writes into each hit's `embedding_type`. */
  function FacetTag(f: Facet): string {
    match f
    case Description => "description"
    case Etiology => "etiology"
    case Manifestation => "manifestation"
  }

  /** Overwrites every hit's `embedding_type` with `tag`, leaving names and texts alone. */
  function Tag(hits: seq<SearchResult>, tag: string): (r: seq<SearchResult>)
    ensures |r| == |hits|
    ensures forall i :: 0 <= i < |r| ==> r[i].embeddingType == tag
    ensures forall i :: 0 <= i < |r| ==> r[i].conditionName == hits[i].conditionName && r[i].text == hits[i].text
  {
    seq(|hits|, i requires 0 <= i < |hits| => hits[i].(embeddingType := tag))
  }

  /** The names of `names`, each once, in order of first appearance. */
  function FirstAppearances(names: seq<string>): (r: seq<string>)
    ensures Distinct(r)
    ensures forall n :: n in r <==> n in names
  {
    if names == [] then []
    else
      var last := |names| - 1;
      var rest := FirstAppearances(names[..last]);
      assert names == names[..last] + [names[last]];
      if names[last] in rest then rest else rest + [names[last]]
  }

  function HitNames(hits: seq<SearchResult>): (r: seq<string>)
    ensures |r| == |hits|
    ensures forall i :: 0 <= i < |r| ==> r[i] == hits[i].conditionName
  {
    seq(|hits|, i requires 0 <= i < |hits| => hits[i].conditionName)
  }

  /**
   One facet's search: the table's top `topK` rows, tagged with the facet.
   There are `topK` hits, or every parsed row when there are fewer, carrying
   the names and texts of the ranked rows in rank order.
   */
  function FacetHits(rows: seq<Row>, f: Facet, query: Vector, topK: nat,
                     parse: string -> Option<Vector>, ratio: (Vector, Vector) -> real): (hits: seq<SearchResult>)
    ensures |hits| <= topK
    ensures |hits| == Min(topK, ParsedCount(rows, parse))
    ensures var ranked := RankRows(rows, query, topK, parse, ratio);
      forall i :: 0 <= i < |hits| ==> hits[i].conditionName == ranked[i].name && hits[i].text == ranked[i].text
    ensures forall i :: 0 <= i < |hits| ==> hits[i].embeddingType == FacetTag(f)
    ensures forall i :: 0 <= i < |hits| ==> StoredName(rows, parse, hits[i].conditionName)
  {
    Tag(SearchTable(rows, query, topK, parse, ratio), FacetTag(f))
  }

  /** Some row of `rows` whose vector parses belongs to condition `name`. */
  predicate StoredName(rows: seq<Row>, parse: string -> Option<Vector>, name: string) {
    exists k :: 0 <= k < |rows| && parse(rows[k].vector).Some? && rows[k].conditionName == name
  }

  /** `r` is a fusion of the three facet searches over `store`. */
  predicate FusesStore(r: seq<RankedCondition>, store: Store, query: Vector, topK: nat,
                       parse: string -> Option<Vector>, ratio: (Vector, Vector) -> real)
    requires DescriptionTable in store && EtiologyTable in store && ManifestationTable in store
  {
    IsFusion(r,
      FacetHits(store[DescriptionTable], Description, query, topK, parse, ratio),
      FacetHits(store[EtiologyTable], Etiology, query, topK, parse, ratio),
      FacetHits(store[ManifestationTable], Manifestation, query, topK, parse, ratio))
  }

  /** `name` has a parsed row in one of the three facet tables. */
  predicate StoredSomewhere(store: Store, parse: string -> Option<Vector>, name: string)
    requires DescriptionTable in store && EtiologyTable in store && ManifestationTable in store
  {
    || StoredName(store[DescriptionTable], parse, name)
    || StoredName(store[EtiologyTable], parse, name)
    || StoredName(store[ManifestationTable], parse, name)
  }

  /**
   `cross_reference_search`: open the three tables in order (the first missing
   one is the error), search each for `topK` hits, and fuse. The hash-set
   order of the names is fixed here as order of first appearance across the
   description, etiology and manifestation hits; `Fuse` holds for every order.
   */
  function CrossReferenceSearch(store: Store, query: Vector, topK: nat,
                                parse: string -> Option<Vector>, ratio: (Vector, Vector) -> real): (r: Result<seq<RankedCondition>, SearchError>)
    ensures r.Failure? <==> DescriptionTable !in store || EtiologyTable !in store || ManifestationTable !in store
    ensures r.Failure? ==> r.error == TableNotFound(
      if DescriptionTable !in store then DescriptionTable
      else if EtiologyTable !in store then EtiologyTable
      else ManifestationTable)
    ensures r.Success? ==> |r.value| <= TopCount && |r.value| <= 3 * topK
    ensures r.Success? ==> forall i, j :: 0 <= i < j < |r.value| ==> r.value[i].name != r.value[j].name
    ensures r.Success? ==> forall i, j :: 0 <= i < j < |r.value| ==> r.value[i].score >= r.value[j].score
    ensures r.Success? ==> forall i :: 0 <= i < |r.value| ==> StoredSomewhere(store, parse, r.value[i].name)
    ensures r.Success? ==> FusesStore(r.value, store, query, topK, parse, ratio)
  {
    if DescriptionTable !in store then Failure(TableNotFound(DescriptionTable))
    else if EtiologyTable !in store then Failure(TableNotFound(EtiologyTable))
    else if ManifestationTable !in store then Failure(TableNotFound(ManifestationTable))
    else Success(SearchAll(store, query, topK, parse, ratio))
  }

  /** The three searches and the fusion, once every table is known to exist. */
  function SearchAll(store: Store, query: Vector, topK: nat,
                     parse: string -> Option<Vector>, ratio: (Vector, Vector) -> real): (r: seq<RankedCondition>)
    requires DescriptionTable in store && EtiologyTable in store && ManifestationTable in store
    ensures |r| <= TopCount && |r| <= 3 * topK
    ensures forall i, j :: 0 <= i < j < |r| ==> r[i].name != r[j].name
    ensures forall i, j :: 0 <= i < j < |r| ==> r[i].score >= r[j].score
    ensures forall i :: 0 <= i < |r| ==> StoredSomewhere(store, parse, r[i].name)
    ensures FusesStore(r, store, query, topK, parse, ratio)
  {
    var d := FacetHits(store[DescriptionTable], Description, query, topK, parse, ratio);
    var e := FacetHits(store[EtiologyTable], Etiology, query, topK, parse, ratio);
    var m := FacetHits(store[ManifestationTable], Manifestation, query, topK, parse, ratio);
    var order := FirstAppearances(HitNames(d + e + m));
    OrderCoversNames(d, e, m);
    SearchedFusion(store, d, e, m, order, topK, parse);
    Fuse(d, e, m, order)
  }

  /** The fusion of three facet searches: what `SearchAll` promises, from what the searches promise. */
  lemma SearchedFusion(store: Store, d: seq<SearchResult>, e: seq<SearchResult>, m: seq<SearchResult>, order: seq<string>,
                       topK: nat, parse: string -> Option<Vector>)
    requires DescriptionTable in store && EtiologyTable in store && ManifestationTable in store
    requires |d| <= topK && |e| <= topK && |m| <= topK
    requires forall i :: 0 <= i < |d| ==> StoredName(store[DescriptionTable], parse, d[i].conditionName)
    requires forall i :: 0 <= i < |e| ==> StoredName(store[EtiologyTable], parse, e[i].conditionName)
    requires forall i :: 0 <= i < |m| ==> StoredName(store[ManifestationTable], parse, m[i].conditionName)
    requires Distinct(order)
    requires (set x | x in order) == AllNames(d, e, m)
    ensures var r := Fuse(d, e, m, order);
      && |r| <= TopCount && |r| <= 3 * topK
      && forall i :: 0 <= i < |r| ==> StoredSomewhere(store, parse, r[i].name)
  {
    var r := Fuse(d, e, m, order);
    SearchedNames(store, d, e, m, parse, r);
    SearchedCount(d, e, m, topK);
  }

  /** Every fused name was found by one facet's search, so it names a stored row of that facet's table. */
  lemma SearchedNames(store: Store, d: seq<SearchResult>, e: seq<SearchResult>, m: seq<SearchResult>,
                      parse: string -> Option<Vector>, fused: seq<RankedCondition>)
    requires DescriptionTable in store && EtiologyTable in store && ManifestationTable in store
    requires forall i :: 0 <= i < |d| ==> StoredName(store[DescriptionTable], parse, d[i].conditionName)
    requires forall i :: 0 <= i < |e| ==> StoredName(store[EtiologyTable], parse, e[i].conditionName)
    requires forall i :: 0 <= i < |m| ==> StoredName(store[ManifestationTable], parse, m[i].conditionName)
    requires forall i :: 0 <= i < |fused| ==> fused[i].name in AllNames(d, e, m)
    ensures forall i :: 0 <= i < |fused| ==> StoredSomewhere(store, parse, fused[i].name)
  {
    forall i | 0 <= i < |fused| ensures StoredSomewhere(store, parse, fused[i].name) {
      var n := fused[i].name;
      if Listed(d, n) {
        var k :| 0 <= k < |d| && d[k].conditionName == n;
        assert StoredName(store[DescriptionTable], parse, n);
      } else if Listed(e, n) {
        var k :| 0 <= k < |e| && e[k].conditionName == n;
        assert StoredName(store[EtiologyTable], parse, n);
      } else {
        var k :| 0 <= k < |m| && m[k].conditionName == n;
        assert StoredName(store[ManifestationTable], parse, n);
      }
    }
  }

  /** The three searches return at most `3 topK` hits, so at most that many names. */
  lemma SearchedCount(d: seq<SearchResult>, e: seq<SearchResult>, m: seq<SearchResult>, topK: nat)
    requires |d| <= topK && |e| <= topK && |m| <= topK
    ensures |AllNames(d, e, m)| <= 3 * topK
  {
    NamesBound(d + e + m);
  }

  /** First appearances over the three lists enumerate exactly the names found. */
  lemma OrderCoversNames(d: seq<SearchResult>, e: seq<SearchResult>, m: seq<SearchResult>)
    ensures (set x | x in FirstAppearances(HitNames(d + e + m))) == AllNames(d, e, m)
  {
    var hits := d + e + m;
    var names := HitNames(hits);
    forall x | x in names ensures x in AllNames(d, e, m) {
      var k :| 0 <= k < |names| && names[k] == x;
      assert hits[k] in hits;
    }
    forall x | x in AllNames(d, e, m) ensures x in names {
      var h :| h in hits && h.conditionName == x;
      var k :| 0 <= k < |hits| && hits[k] == h;
      assert names[k] == x;
    }
  }

  /** There are no more distinct names than hits. */
  lemma {:induction false} NamesBound(hits: seq<SearchResult>)
    ensures |set h | h in hits :: h.conditionName| <= |hits|
  {
    if hits != [] {
      NamesBound(hits[1..]);
      assert (set h | h in hits :: h.conditionName)
          == {hits[0].conditionName} + (set h | h in hits[1..] :: h.conditionName);
    }
  }
}
