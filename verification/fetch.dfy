/**
 The pure part of the MedlinePlus fetch step: which parsed health topics are
 kept, and how a topic's full summary is cut into the four sections
 (description, etiology, manifestations, treatments) that later get embedded.
 The XML itself is not modelled: a topic node arrives with its attributes and
 its already-joined summary text.
 */
module Fetch {
  import opened Wrappers
  import opened Seqs
  import opened Text

  /** A parsed `health-topic` element as `fetch_conditions_sync` reads it. */
  datatype TopicNode = TopicNode(
    title: Option<string>,
    language: Option<string>,
    url: Option<string>,
    fullSummary: string,
    groupTexts: seq<Option<string>>)

  datatype TopicInfo = TopicInfo(title: string, medlineUrl: string, fullSummary: string, groups: seq<string>)

  datatype ConditionData = ConditionData(
    name: string,
    medlineUrl: string,
    groups: seq<string>,
    description: string,
    etiology: string,
    manifestations: string,
    treatments: string)

  datatype Sections = Sections(description: string, etiology: string, manifestations: string, treatments: string)

  const NoSummary := "No summary available"
  const NotAvailable := "N/A"
  /** Returned for a section none of whose keywords occurs; it is still embedded downstream. */
  const DetailsSentinel := "Details integrated in the description above."

  /** Lines kept for the description, lines kept for a section window, characters looked back before a keyword. */
  const LeadLines: nat := 20
  const WindowLines: nat := 15
  const LookBehind: nat := 100

  const EtiologyKeywords: seq<string> := ["cause", "caused by", "etiology", "risk factor"]
  const ManifestationKeywords: seq<string> := ["symptom", "sign", "manifestation", "present with"]
  const TreatmentKeywords: seq<string> := ["treat", "therapy", "treatment", "medication", "surgery"]

  const TitleTerms: seq<string> :=
    ["disease", "disorder", "syndrome", "cancer", "infection", "tumor", "arthritis", "diabetes"]
  const GroupTerms: seq<string> := ["disorder", "cancer", "infection", "injury", "mental health"]

  // ---------------------------------------------------------------- topic selection

  /** The trimmed texts of the `group` children that have text, in document order. */
  function GroupsOf(texts: seq<Option<string>>): (r: seq<string>)
    ensures |r| <= |texts|
    ensures forall g :: g in r ==> exists t :: Some(t) in texts && g == Trim(t)
    ensures forall t :: Some(t) in texts ==> Trim(t) in r
  {
    if texts == [] then []
    else
      var rest := GroupsOf(texts[1..]);
      assert forall t :: Some(t) in texts[1..] ==> Some(t) in texts;
      match texts[0]
      case None => rest
      case Some(t) => [Trim(t)] + rest
  }

  /** The groups of consecutive runs of children are the groups of each run, in order. */
  lemma {:induction false} GroupsOfAppend(a: seq<Option<string>>, b: seq<Option<string>>)
    ensures GroupsOf(a + b) == GroupsOf(a) + GroupsOf(b)
  {
    if a == [] {
      assert a + b == b;
    } else {
      assert (a + b)[0] == a[0];
      assert (a + b)[1..] == a[1..] + b;
      GroupsOfAppend(a[1..], b);
    }
  }

  /** One child gives its trimmed text when it has text, and nothing otherwise. */
  lemma GroupsOfOne(t: Option<string>)
    ensures GroupsOf([t]) == if t.Some? then [Trim(t.value)] else []
  {
  }

  /**
   A `health-topic` node becomes a topic when it has a title and either no
   language attribute or the language "English" or "en".
   */
  function Collect(n: TopicNode): (r: Option<TopicInfo>)
    ensures r.Some? <==> n.title.Some? && (n.language.None? || n.language.value in {"English", "en"})
    ensures r.Some? ==> r.value.title == n.title.value && r.value.fullSummary == n.fullSummary
    ensures r.Some? ==> r.value.medlineUrl == (if n.url.Some? then n.url.value else "")
    ensures r.Some? ==> r.value.groups == GroupsOf(n.groupTexts)
  {
    match n.title
    case None => None
    case Some(title) =>
      if n.language.Some? && n.language.value != "English" && n.language.value != "en" then None
      else Some(TopicInfo(title, n.url.GetOr(""), n.fullSummary, GroupsOf(n.groupTexts)))
  }

  /** A titled node is skipped exactly when it names a language other than English. */
  lemma LanguageSkip(n: TopicNode)
    requires n.title.Some?
    ensures Collect(n).None? <==> exists lang :: n.language == Some(lang) && lang != "English" && lang != "en"
  {
  }

  /**
   Some term of the list occurs in `s`, the terms tried left to right as the
   short-circuit `||` chain of the filter closure does.
   */
  predicate AnyTerm(s: string, terms: seq<string>) {
    terms != [] && (Find(s, terms[0]).Some? || AnyTerm(s, terms[1..]))
  }

  /** The keep-filter over topics: a disease-like lowercased title or a disease-like lowercased group. */
  predicate KeepTopic(t: TopicInfo) {
    || AnyTerm(ToLower(t.title), TitleTerms)
    || exists g :: g in t.groups && AnyTerm(ToLower(g), GroupTerms)
  }

  /** The chain holds exactly when one of its terms occurs. */
  lemma {:induction false} AnyTermIff(s: string, terms: seq<string>)
    ensures AnyTerm(s, terms) <==> exists k :: 0 <= k < |terms| && Contains(s, terms[k])
  {
    if terms != [] {
      AnyTermIff(s, terms[1..]);
      if exists k :: 0 <= k < |terms| && Contains(s, terms[k]) {
        var k :| 0 <= k < |terms| && Contains(s, terms[k]);
        if k > 0 {
          assert Contains(s, terms[1..][k - 1]);
        }
      }
    }
  }

  /** A topic is kept iff one of the title terms is in its lowercased title or one of the group terms in a lowercased group. */
  lemma KeepTopicIff(t: TopicInfo)
    ensures KeepTopic(t) <==>
      || (exists k :: 0 <= k < |TitleTerms| && Contains(ToLower(t.title), TitleTerms[k]))
      || (exists g, k :: 0 <= g < |t.groups| && 0 <= k < |GroupTerms| && Contains(ToLower(t.groups[g]), GroupTerms[k]))
  {
    AnyTermIff(ToLower(t.title), TitleTerms);
    forall g | 0 <= g < |t.groups|
      ensures AnyTerm(ToLower(t.groups[g]), GroupTerms) <==> exists k :: 0 <= k < |GroupTerms| && Contains(ToLower(t.groups[g]), GroupTerms[k])
    {
      AnyTermIff(ToLower(t.groups[g]), GroupTerms);
    }
  }

  // ---------------------------------------------------------------- section extraction

  /** Where a section window opens for a keyword found at `pos`. */
  function WindowStart(pos: nat): (start: nat)
    ensures start <= pos && pos - start <= LookBehind
    ensures start == 0 || pos - start == LookBehind
  {
    if pos > LookBehind then pos - LookBehind else 0
  }

  /**
   The text of a section whose keyword was found at `pos`: from the window
   start up to the first blank line (trimmed), or, with no blank line after
   the start, the first 15 lines from the start.
   */
  function Window(original: string, pos: nat): (r: string)
    requires pos <= |original|
    ensures var slice := original[WindowStart(pos)..];
      forall end :: OccursAt(slice, "\n\n", end) && (forall j :: 0 <= j < end ==> !OccursAt(slice, "\n\n", j)) ==>
        r == Trim(slice[..end])
    ensures Contains(original[WindowStart(pos)..], "\n\n") ==>
      !Contains(r, "\n\n") && Contains(original[WindowStart(pos)..], r)
    ensures !Contains(original[WindowStart(pos)..], "\n\n") ==>
      NewlineCount(r) < WindowLines && ('\r' !in original ==> r <= original[WindowStart(pos)..])
    ensures var slice := original[WindowStart(pos)..];
      !Contains(slice, "\n\n") && '\r' !in slice ==> IsFirstLines(slice, r, WindowLines)
  {
    var slice := original[WindowStart(pos)..];
    match Find(slice, "\n\n")
    case Some(end) =>
      BlankLineCut(slice, end);
      Trim(slice[..end])
    case None =>
      NoOccurrence(slice, "\n\n");
      FirstLinesNewlines(slice, WindowLines);
      FirstLinesCut(original, WindowStart(pos));
      Join(Take(Lines(slice), WindowLines), "\n")
  }

  /** Cut before the first blank line and trimmed, the window holds no blank line and lies inside the slice. */
  lemma BlankLineCut(slice: string, end: nat)
    requires Find(slice, "\n\n") == Some(end)
    ensures forall e :: OccursAt(slice, "\n\n", e) && (forall j :: 0 <= j < e ==> !OccursAt(slice, "\n\n", j)) ==> e == end
    ensures !Contains(Trim(slice[..end]), "\n\n")
    ensures Contains(slice, Trim(slice[..end]))
  {
    var r := Trim(slice[..end]);
    NoBlankLineBeforeFirst(slice, end);
    if Contains(r, "\n\n") {
      ContainsTransitive(slice[..end], r, "\n\n");
    }
    var p :| 0 <= p <= end && OccursAt(slice[..end], r, p);
    assert slice[..end][p..p + |r|] == slice[p..p + |r|];
    assert OccursAt(slice, r, p);
  }

  /** Without carriage returns, the first lines from the window start are a prefix of the rest of the text. */
  lemma FirstLinesCut(original: string, start: nat)
    requires start <= |original|
    ensures '\r' !in original ==> Join(Take(Lines(original[start..]), WindowLines), "\n") <= original[start..]
    ensures '\r' !in original[start..] ==> IsFirstLines(original[start..], Join(Take(Lines(original[start..]), WindowLines), "\n"), WindowLines)
  {
    if '\r' !in original[start..] {
      FirstLinesShape(original[start..], WindowLines);
    }
    if '\r' !in original {
      assert '\r' !in original[start..];
      FirstLinesArePrefix(original[start..], WindowLines);
    }
  }

  /** The text in front of the first blank line holds no blank line. */
  lemma NoBlankLineBeforeFirst(s: string, end: nat)
    requires end <= |s|
    requires forall j :: 0 <= j < end ==> !OccursAt(s, "\n\n", j)
    ensures !Contains(s[..end], "\n\n")
  {
    if Contains(s[..end], "\n\n") {
      var j :| 0 <= j <= end && OccursAt(s[..end], "\n\n", j);
      assert s[..end][j..j + 2] == s[j..j + 2];
      assert OccursAt(s, "\n\n", j);
    }
  }

  /**
   `extract_section`: the keywords are tried in list order against the
   lowercased text and the first one that occurs anywhere decides the window,
   which is cut from the original text.
   */
  function ExtractSection(lower: string, original: string, keywords: seq<string>): (r: string)
    requires |lower| == |original|
    ensures (forall k :: 0 <= k < |keywords| ==> !Contains(lower, keywords[k])) ==> r == DetailsSentinel
  {
    if keywords == [] then DetailsSentinel
    else match Find(lower, keywords[0])
      case Some(pos) => Window(original, pos)
      case None => ExtractSection(lower, original, keywords[1..])
  }

  /** The first keyword of the list that occurs decides the section, wherever the others occur. */
  lemma {:induction false} FirstKeywordWins(lower: string, original: string, keywords: seq<string>, i: nat)
    requires |lower| == |original|
    requires i < |keywords| && Contains(lower, keywords[i])
    requires forall j :: 0 <= j < i ==> !Contains(lower, keywords[j])
    ensures Find(lower, keywords[i]).Some?
    ensures ExtractSection(lower, original, keywords) == Window(original, Find(lower, keywords[i]).value)
  {
    if i > 0 {
      assert !Contains(lower, keywords[0]);
      FirstKeywordWins(lower, original, keywords[1..], i - 1);
    }
  }

  /** Removing the keyword at index `j` changes nothing when that keyword does not occur. */
  lemma {:induction false} AbsentKeywordIrrelevant(lower: string, original: string, keywords: seq<string>, j: nat)
    requires |lower| == |original|
    requires j < |keywords| && !Contains(lower, keywords[j])
    ensures ExtractSection(lower, original, keywords) == ExtractSection(lower, original, keywords[..j] + keywords[j + 1..])
  {
    var dropped := keywords[..j] + keywords[j + 1..];
    if j == 0 {
      assert dropped == keywords[1..];
    } else {
      assert dropped[0] == keywords[0];
      assert dropped[1..] == keywords[1..][..j - 1] + keywords[1..][j..];
      if !Contains(lower, keywords[0]) {
        AbsentKeywordIrrelevant(lower, original, keywords[1..], j - 1);
      }
    }
  }

  /**
   A keyword that contains an earlier keyword of the same list can never decide
   the section: wherever it occurs, the earlier one occurs too.
   */
  lemma {:induction false} ShadowedKeyword(lower: string, original: string, keywords: seq<string>, i: nat, j: nat)
    requires |lower| == |original|
    requires i < j < |keywords| && Contains(keywords[j], keywords[i])
    ensures ExtractSection(lower, original, keywords) == ExtractSection(lower, original, keywords[..j] + keywords[j + 1..])
  {
    var dropped := keywords[..j] + keywords[j + 1..];
    if Contains(lower, keywords[j]) {
      ContainsTransitive(lower, keywords[j], keywords[i]);
      var f := FirstOccurring(lower, keywords, i);
      FirstKeywordWins(lower, original, keywords, f);
      assert |dropped| == |keywords| - 1;
      assert forall g :: 0 <= g <= f ==> dropped[g] == keywords[g];
      FirstKeywordWins(lower, original, dropped, f);
    } else {
      AbsentKeywordIrrelevant(lower, original, keywords, j);
    }
  }

  /** When some keyword up to index `i` occurs, there is a first one that does. */
  lemma {:induction false} FirstOccurring(lower: string, keywords: seq<string>, i: nat) returns (f: nat)
    requires i < |keywords| && Contains(lower, keywords[i])
    ensures f <= i && Contains(lower, keywords[f])
    ensures forall g :: 0 <= g < f ==> !Contains(lower, keywords[g])
  {
    if exists g :: 0 <= g < i && Contains(lower, keywords[g]) {
      var g :| 0 <= g < i && Contains(lower, keywords[g]);
      f := FirstOccurring(lower, keywords, g);
    } else {
      f := i;
    }
  }

  /** "caused by" never decides the etiology: "cause" comes first and is part of it. */
  lemma CausedByNeverDecides(lower: string, original: string)
    requires |lower| == |original|
    ensures ExtractSection(lower, original, EtiologyKeywords)
         == ExtractSection(lower, original, ["cause", "etiology", "risk factor"])
  {
    assert OccursAt(EtiologyKeywords[1], EtiologyKeywords[0], 0);
    ShadowedKeyword(lower, original, EtiologyKeywords, 0, 1);
    assert EtiologyKeywords[..1] + EtiologyKeywords[2..] == ["cause", "etiology", "risk factor"];
  }

  /** "treatment" never decides the treatments: "treat" comes first and is part of it. */
  lemma TreatmentNeverDecides(lower: string, original: string)
    requires |lower| == |original|
    ensures ExtractSection(lower, original, TreatmentKeywords)
         == ExtractSection(lower, original, ["treat", "therapy", "medication", "surgery"])
  {
    assert OccursAt(TreatmentKeywords[2], TreatmentKeywords[0], 0);
    ShadowedKeyword(lower, original, TreatmentKeywords, 0, 2);
    assert TreatmentKeywords[..2] + TreatmentKeywords[3..] == ["treat", "therapy", "medication", "surgery"];
  }

  /** The fixed 20-line lead excerpt used as the description. */
  function Lead(summary: string): string {
    Join(Take(Lines(summary), LeadLines), "\n")
  }

  /**
   `extract_sections`: a blank summary gives the four sentinels; otherwise the
   description is the lead excerpt and each other section is found by its own
   keyword list.
   */
  function ExtractSections(summary: string): (r: Sections)
    ensures Blank(summary) ==> r == Sections(NoSummary, NotAvailable, NotAvailable, NotAvailable)
    ensures !Blank(summary) ==> r.description == Lead(summary)
  {
    if Trim(summary) == "" then Sections(NoSummary, NotAvailable, NotAvailable, NotAvailable)
    else
      var lower := ToLower(summary);
      Sections(
        Lead(summary),
        ExtractSection(lower, summary, EtiologyKeywords),
        ExtractSection(lower, summary, ManifestationKeywords),
        ExtractSection(lower, summary, TreatmentKeywords))
  }

  /**
   The description of a non-blank summary has at most 20 lines and, on text
   without carriage returns, is exactly the summary cut after its 20th line,
   whatever keywords occur.
   */
  lemma DescriptionIsLeadExcerpt(summary: string)
    requires !Blank(summary)
    ensures NewlineCount(ExtractSections(summary).description) < LeadLines
    ensures '\r' !in summary ==> ExtractSections(summary).description <= summary
    ensures '\r' !in summary ==> IsFirstLines(summary, ExtractSections(summary).description, LeadLines)
  {
    FirstLinesNewlines(summary, LeadLines);
    if '\r' !in summary {
      FirstLinesArePrefix(summary, LeadLines);
      FirstLinesShape(summary, LeadLines);
    }
  }

  /**
   What decides a section: with none of its keywords in the lowercased text it
   is the sentinel, and otherwise it is the window opened where the first
   occurring keyword of the list is first found.
   */
  predicate DecidedBy(lower: string, original: string, keywords: seq<string>, section: string)
    requires |lower| == |original|
  {
    && ((forall k :: 0 <= k < |keywords| ==> !Contains(lower, keywords[k])) ==> section == DetailsSentinel)
    && (forall i ::
          (0 <= i < |keywords| && Contains(lower, keywords[i]) && forall j :: 0 <= j < i ==> !Contains(lower, keywords[j]))
          ==> Find(lower, keywords[i]).Some? && section == Window(original, Find(lower, keywords[i]).value))
  }

  lemma SectionDecided(lower: string, original: string, keywords: seq<string>)
    requires |lower| == |original|
    ensures DecidedBy(lower, original, keywords, ExtractSection(lower, original, keywords))
  {
    forall i | 0 <= i < |keywords| && Contains(lower, keywords[i]) && (forall j :: 0 <= j < i ==> !Contains(lower, keywords[j]))
      ensures Find(lower, keywords[i]).Some?
      ensures ExtractSection(lower, original, keywords) == Window(original, Find(lower, keywords[i]).value)
    {
      FirstKeywordWins(lower, original, keywords, i);
    }
  }

  /** Each section of a non-blank summary is decided by its own keyword list over the lowercased summary. */
  lemma SectionsOfSummary(summary: string)
    requires !Blank(summary)
    ensures var r := ExtractSections(summary);
      && DecidedBy(ToLower(summary), summary, EtiologyKeywords, r.etiology)
      && DecidedBy(ToLower(summary), summary, ManifestationKeywords, r.manifestations)
      && DecidedBy(ToLower(summary), summary, TreatmentKeywords, r.treatments)
  {
    var lower := ToLower(summary);
    SectionDecided(lower, summary, EtiologyKeywords);
    SectionDecided(lower, summary, ManifestationKeywords);
    SectionDecided(lower, summary, TreatmentKeywords);
  }

  /** The topic's condition record: its title as name and its summary cut into sections. */
  function ConditionOf(t: TopicInfo): (c: ConditionData)
    ensures c.name == t.title && c.medlineUrl == t.medlineUrl && c.groups == t.groups
    ensures Sections(c.description, c.etiology, c.manifestations, c.treatments) == ExtractSections(t.fullSummary)
  {
    var s := ExtractSections(t.fullSummary);
    ConditionData(t.title, t.medlineUrl, t.groups, s.description, s.etiology, s.manifestations, s.treatments)
  }

  /** A node contributes a condition when it is collected and its topic is kept. */
  predicate Selected(n: TopicNode) {
    Collect(n).Some? && KeepTopic(Collect(n).value)
  }

  /**
   The pure pipeline of `fetch_conditions_sync`: collect the English titled
   topics, keep the disease-like ones, and cut each summary into sections,
   preserving document order.
   */
  function Conditions(nodes: seq<TopicNode>): (r: seq<ConditionData>)
    ensures |r| <= |nodes|
    ensures forall c :: c in r ==> exists n :: n in nodes && Selected(n) && c == ConditionOf(Collect(n).value)
    ensures forall n :: n in nodes && Selected(n) ==> ConditionOf(Collect(n).value) in r
  {
    if nodes == [] then []
    else
      var rest := Conditions(nodes[1..]);
      if Selected(nodes[0]) then [ConditionOf(Collect(nodes[0]).value)] + rest else rest
  }

  /**
   Selection distributes over concatenation: the conditions of earlier nodes
   come first, so the result keeps document order.
   */
  lemma {:induction false} ConditionsAppend(a: seq<TopicNode>, b: seq<TopicNode>)
    ensures Conditions(a + b) == Conditions(a) + Conditions(b)
  {
    if a == [] {
      assert a + b == b;
    } else {
      ConsAppend(a, b);
      ConditionsAppend(a[1..], b);
      ConditionsAppendStep(a[0], a[1..], b);
    }
  }

  /** The induction step of ConditionsAppend: one more node in front. */
  lemma ConditionsAppendStep(head: TopicNode, tail: seq<TopicNode>, b: seq<TopicNode>)
    requires Conditions(tail + b) == Conditions(tail) + Conditions(b)
    ensures Conditions([head] + (tail + b)) == Conditions([head] + tail) + Conditions(b)
  {
    ConditionsCons(head, tail + b);
    ConditionsCons(head, tail);
    AppendAssoc(ConditionsOfOne(head), Conditions(tail), Conditions(b));
  }

  /** The conditions of a node followed by more nodes: the node's own, if selected, then the rest's. */
  lemma ConditionsCons(n: TopicNode, rest: seq<TopicNode>)
    ensures Conditions([n] + rest) == ConditionsOfOne(n) + Conditions(rest)
  {
    assert ([n] + rest)[1..] == rest;
  }

  function ConditionsOfOne(n: TopicNode): seq<ConditionData> {
    if Selected(n) then [ConditionOf(Collect(n).value)] else []
  }

  /** One node gives its condition exactly when it is selected. */
  lemma ConditionsOne(n: TopicNode)
    ensures Conditions([n]) == if Selected(n) then [ConditionOf(Collect(n).value)] else []
  {
  }
}
