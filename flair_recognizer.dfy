/**
 * The Flair recognizer of the de-identifier: it reconciles the labels a
 * Flair sequence tagger predicts with the Presidio entities a caller asks
 * for, and turns every accepted span into a Presidio recognizer result.
 *
 * The tagger itself is not modelled: its prediction for a text is given
 * as an ordered sequence of spans.
 */
module FlairRecognizer {
  import opened Wrappers

  /**
   * One equivalence group: the Presidio entities it stands for and the
   * native Flair labels that count as any of them.
   */
  datatype Group = Group(entities: set<string>, labels: set<string>)

  /**
   * A span predicted by Flair. `labelValue` is the value of the span's
   * first label (what the label check reads); `tag` is what the type
   * mapping reads. Flair keeps the two equal; the model keeps both.
   */
  datatype Span = Span(labelValue: string, tag: string, startPosition: int, endPosition: int)

  /** A Presidio result: entity type and character offsets. */
  datatype RecognizerResult = RecognizerResult(entityType: string, start: int, end: int)

  /** The fields the recognizer's constructor sets and never changes again. */
  datatype Recognizer = Recognizer(
    supportedLanguage: string,
    supportedEntities: seq<string>,
    checkLabelGroups: seq<Group>,
    name: string)

  /** The class attribute ENTITIES. */
  const Entities: seq<string> := ["LOCATION", "PERSON", "ORGANIZATION"]

  /** The class attribute CHECK_LABEL_GROUPS. */
  const CheckLabelGroups: seq<Group> := [
    Group({"LOCATION"}, {"LOC", "LOCATION"}),
    Group({"PERSON"}, {"PER", "PERSON"}),
    Group({"ORGANIZATION"}, {"ORG"})
  ]

  /** The class attribute PRESIDIO_EQUIVALENCES. */
  const PresidioEquivalences: map<string, string> :=
    map["PER" := "PERSON", "LOC" := "LOCATION", "ORG" := "ORGANIZATION"]

  /** The language the constructor assumes when none is given (`supported_language="en"`). */
  const DefaultLanguage: string := "en"

  /** The recognizer name handed to Presidio's base class. */
  const RecognizerName: string := "Flair Analytics"

  /** The constructor: falsy arguments fall back to the class defaults. */
  function New(
    supportedLanguage: string,
    supportedEntities: Option<seq<string>>,
    checkLabelGroups: Option<seq<Group>>): (r: Recognizer)
    ensures Falsy(checkLabelGroups) ==> r.checkLabelGroups == CheckLabelGroups
    ensures !Falsy(checkLabelGroups) ==> r.checkLabelGroups == checkLabelGroups.value
    ensures Falsy(supportedEntities) ==> r.supportedEntities == Entities
    ensures !Falsy(supportedEntities) ==> r.supportedEntities == supportedEntities.value
    ensures r.supportedEntities != [] && r.checkLabelGroups != []
    ensures r.supportedLanguage == supportedLanguage && r.name == RecognizerName
  {
    Recognizer(
      supportedLanguage,
      if Falsy(supportedEntities) then Entities else supportedEntities.value,
      if Falsy(checkLabelGroups) then CheckLabelGroups else checkLabelGroups.value,
      RecognizerName)
  }

  /** `FlairRecognizer()` with every argument left at its default. */
  lemma DefaultRecognizer()
    ensures New(DefaultLanguage, None, None)
         == Recognizer("en", ["LOCATION", "PERSON", "ORGANIZATION"], CheckLabelGroups, "Flair Analytics")
  {
  }

  /** Group `g` admits the pair of a requested entity and a Flair label. */
  predicate Admits(g: Group, entity: string, flairLabel: string)
  {
    entity in g.entities && flairLabel in g.labels
  }

  /** The private static check: does the Flair label count as `entity`? */
  function CheckLabel(entity: string, flairLabel: string, groups: seq<Group>): (r: bool)
    ensures r <==> exists i :: 0 <= i < |groups| && Admits(groups[i], entity, flairLabel)
  {
    if groups == [] then false
    else
      var rest := CheckLabel(entity, flairLabel, groups[1..]);
      assert forall i :: 0 < i < |groups| ==> groups[i] == groups[1..][i - 1];
      Admits(groups[0], entity, flairLabel) || rest
  }

  /** The conversion of one span into a Presidio result. */
  function ConvertToRecognizerResult(span: Span): (r: RecognizerResult)
    ensures r.start == span.startPosition && r.end == span.endPosition
    ensures span.tag == "PER" ==> r.entityType == "PERSON"
    ensures span.tag == "LOC" ==> r.entityType == "LOCATION"
    ensures span.tag == "ORG" ==> r.entityType == "ORGANIZATION"
    ensures span.tag !in {"PER", "LOC", "ORG"} ==> r.entityType == span.tag
  {
    var entityType := if span.tag in PresidioEquivalences then PresidioEquivalences[span.tag] else span.tag;
    RecognizerResult(entityType, span.startPosition, span.endPosition)
  }

  /** The entities `analyze` walks: the supported ones when none are asked for. */
  function EffectiveEntities(rec: Recognizer, entities: Option<seq<string>>): seq<string>
  {
    if Falsy(entities) then rec.supportedEntities else entities.value
  }

  /** Results the span loop produces for one entity: accepted spans, converted, in order. */
  function Matching(entity: string, spans: seq<Span>, groups: seq<Group>): (r: seq<RecognizerResult>)
    ensures |r| <= |spans|
  {
    if spans == [] then []
    else
      var rest := Matching(entity, spans[..|spans| - 1], groups);
      var last := spans[|spans| - 1];
      if CheckLabel(entity, last.labelValue, groups) then rest + [ConvertToRecognizerResult(last)] else rest
  }

  /** Results of one pass of the entity loop: nothing for an unsupported entity. */
  function EntityResults(rec: Recognizer, entity: string, spans: seq<Span>): (r: seq<RecognizerResult>)
    ensures |r| <= |spans|
    ensures entity !in rec.supportedEntities ==> r == []
  {
    if entity in rec.supportedEntities then Matching(entity, spans, rec.checkLabelGroups) else []
  }

  /** Results of the entity loop over `entities`, entity-major. */
  function Collect(rec: Recognizer, spans: seq<Span>, entities: seq<string>): (r: seq<RecognizerResult>)
    ensures |r| <= |entities| * |spans|
  {
    if entities == [] then []
    else
      var n := |entities|;
      var rest := Collect(rec, spans, entities[..n - 1]);
      assert (n - 1) * |spans| + |spans| == n * |spans|;
      rest + EntityResults(rec, entities[n - 1], spans)
  }

  /** The recognizer's `analyze`, over the spans Flair predicted for the text. */
  method Analyze(rec: Recognizer, spans: seq<Span>, entities: Option<seq<string>>)
    returns (results: seq<RecognizerResult>)
    ensures results == Collect(rec, spans, EffectiveEntities(rec, entities))
    ensures Falsy(entities) ==> results == Collect(rec, spans, rec.supportedEntities)
  {
    results := [];
    var requested := if Falsy(entities) then rec.supportedEntities else entities.value;
    var i := 0;
    while i < |requested|
      invariant 0 <= i <= |requested|
      invariant results == Collect(rec, spans, requested[..i])
    {
      var entity := requested[i];
      assert requested[..i + 1][..i] == requested[..i];
      if entity !in rec.supportedEntities {
        i := i + 1;
        continue;
      }
      var k := 0;
      while k < |spans|
        invariant 0 <= k <= |spans|
        invariant results == Collect(rec, spans, requested[..i]) + Matching(entity, spans[..k], rec.checkLabelGroups)
      {
        var ent := spans[k];
        assert spans[..k + 1][..k] == spans[..k];
        if !CheckLabel(entity, ent.labelValue, rec.checkLabelGroups) {
          k := k + 1;
          continue;
        }
        var flairResult := ConvertToRecognizerResult(ent);
        results := results + [flairResult];
        k := k + 1;
      }
      assert spans[..k] == spans;
      i := i + 1;
    }
    assert requested[..i] == requested;
  }

  // ---------------------------------------------------------------------
  // Properties of the label check

  /** With no groups nothing is ever accepted. */
  lemma NoGroupsRejectAll(entity: string, flairLabel: string)
    ensures !CheckLabel(entity, flairLabel, [])
  {
  }

  /** With the default groups, exactly these pairs pass the label check. */
  lemma DefaultGroupsAccept(entity: string, flairLabel: string)
    ensures CheckLabel(entity, flairLabel, CheckLabelGroups) <==>
      || (entity == "LOCATION" && (flairLabel == "LOC" || flairLabel == "LOCATION"))
      || (entity == "PERSON" && (flairLabel == "PER" || flairLabel == "PERSON"))
      || (entity == "ORGANIZATION" && flairLabel == "ORG")
  {
    var b := CheckLabel(entity, flairLabel, CheckLabelGroups);
    if b {
      var i :| 0 <= i < |CheckLabelGroups| && Admits(CheckLabelGroups[i], entity, flairLabel);
      assert i == 0 || i == 1 || i == 2;
    } else {
      assert !Admits(CheckLabelGroups[0], entity, flairLabel);
      assert !Admits(CheckLabelGroups[1], entity, flairLabel);
      assert !Admits(CheckLabelGroups[2], entity, flairLabel);
    }
  }

  /** The four cases the default groups are meant to decide. */
  lemma DefaultGroupsExamples()
    ensures CheckLabel("PERSON", "PER", CheckLabelGroups)
    ensures CheckLabel("PERSON", "PERSON", CheckLabelGroups)
    ensures !CheckLabel("PERSON", "LOC", CheckLabelGroups)
    ensures !CheckLabel("ORGANIZATION", "ORGANIZATION", CheckLabelGroups)
  {
    DefaultGroupsAccept("PERSON", "PER");
    DefaultGroupsAccept("PERSON", "PERSON");
    DefaultGroupsAccept("PERSON", "LOC");
    DefaultGroupsAccept("ORGANIZATION", "ORGANIZATION");
  }

  // ---------------------------------------------------------------------
  // Properties of analyze

  /** Span `s` requested as `entity` yields the result `r`. */
  predicate Produces(rec: Recognizer, entity: string, s: Span, r: RecognizerResult)
  {
    && entity in rec.supportedEntities
    && CheckLabel(entity, s.labelValue, rec.checkLabelGroups)
    && r == ConvertToRecognizerResult(s)
  }

  /** Span loop, in span order: results for `a + b` are those for `a`, then for `b`. */
  lemma {:induction false} MatchingAppend(entity: string, a: seq<Span>, b: seq<Span>, groups: seq<Group>)
    ensures Matching(entity, a + b, groups) == Matching(entity, a, groups) + Matching(entity, b, groups)
    decreases |b|
  {
    if b == [] {
      assert a + b == a;
    } else {
      var b' := b[..|b| - 1];
      assert (a + b)[..|a + b| - 1] == a + b';
      assert (a + b)[|a + b| - 1] == b[|b| - 1];
      MatchingAppend(entity, a, b', groups);
    }
  }

  /** Entity loop, entity-major: results for `a + b` are those for `a`, then for `b`. */
  lemma {:induction false} CollectAppend(rec: Recognizer, spans: seq<Span>, a: seq<string>, b: seq<string>)
    ensures Collect(rec, spans, a + b) == Collect(rec, spans, a) + Collect(rec, spans, b)
    decreases |b|
  {
    if b == [] {
      assert a + b == a;
    } else {
      var b' := b[..|b| - 1];
      assert (a + b)[..|a + b| - 1] == a + b';
      assert (a + b)[|a + b| - 1] == b[|b| - 1];
      CollectAppend(rec, spans, a, b');
    }
  }

  /** Membership in the span loop's output: exactly the converted accepted spans. */
  lemma {:induction false} MatchingMembers(entity: string, spans: seq<Span>, groups: seq<Group>, r: RecognizerResult)
    ensures r in Matching(entity, spans, groups) <==>
      exists k :: 0 <= k < |spans| && CheckLabel(entity, spans[k].labelValue, groups)
                                   && r == ConvertToRecognizerResult(spans[k])
    decreases |spans|
  {
    if spans != [] {
      var init := spans[..|spans| - 1];
      MatchingMembers(entity, init, groups, r);
      assert forall k :: 0 <= k < |init| ==> init[k] == spans[k];
    }
  }

  /**
   * Every result comes from a supported requested entity and a span whose
   * label passes the check for it, and every such pair yields a result.
   */
  lemma {:induction false} CollectMembers(rec: Recognizer, spans: seq<Span>, entities: seq<string>, r: RecognizerResult)
    ensures r in Collect(rec, spans, entities) <==>
      exists i, k :: 0 <= i < |entities| && 0 <= k < |spans| && Produces(rec, entities[i], spans[k], r)
    decreases |entities|
  {
    if entities != [] {
      var init := entities[..|entities| - 1];
      var last := entities[|entities| - 1];
      CollectMembers(rec, spans, init, r);
      MatchingMembers(last, spans, rec.checkLabelGroups, r);
      assert forall i :: 0 <= i < |init| ==> init[i] == entities[i];
      if exists i, k :: 0 <= i < |entities| && 0 <= k < |spans| && Produces(rec, entities[i], spans[k], r) {
        var i, k :| 0 <= i < |entities| && 0 <= k < |spans| && Produces(rec, entities[i], spans[k], r);
        if i < |init| {
          assert Produces(rec, init[i], spans[k], r);
        }
      }
    }
  }

  /** Unsupported requested entities contribute nothing, wherever they stand. */
  lemma UnsupportedContributesNothing(rec: Recognizer, spans: seq<Span>, a: seq<string>, e: string, b: seq<string>)
    requires e !in rec.supportedEntities
    ensures Collect(rec, spans, a + [e] + b) == Collect(rec, spans, a + b)
  {
    assert [e][..0] == [];
    assert Collect(rec, spans, [e]) == [];
    CollectAppend(rec, spans, a, [e]);
    CollectAppend(rec, spans, a + [e], b);
    CollectAppend(rec, spans, a, b);
  }

  /** Nothing is de-duplicated: asking twice for the same entities doubles the results. */
  lemma RepeatedEntitiesRepeatResults(rec: Recognizer, spans: seq<Span>, entities: seq<string>)
    ensures Collect(rec, spans, entities + entities) == Collect(rec, spans, entities) + Collect(rec, spans, entities)
  {
    CollectAppend(rec, spans, entities, entities);
  }

  /**
   * A span accepted for two requested entities (at two positions of the
   * entity list) appears at least twice among the results.
   */
  lemma SpanMatchingTwoEntitiesAppearsTwice(rec: Recognizer, spans: seq<Span>, entities: seq<string>,
                                            k: nat, i1: nat, i2: nat)
    requires k < |spans| && i1 < i2 < |entities|
    requires Produces(rec, entities[i1], spans[k], ConvertToRecognizerResult(spans[k]))
    requires Produces(rec, entities[i2], spans[k], ConvertToRecognizerResult(spans[k]))
    ensures multiset(Collect(rec, spans, entities))[ConvertToRecognizerResult(spans[k])] >= 2
  {
    var r := ConvertToRecognizerResult(spans[k]);
    var a, b, c := entities[..i1 + 1], entities[i1 + 1..i2 + 1], entities[i2 + 1..];
    assert entities == a + b + c;
    assert a[i1] == entities[i1] && b[i2 - i1 - 1] == entities[i2];
    CollectMembers(rec, spans, a, r);
    CollectMembers(rec, spans, b, r);
    CollectAppend(rec, spans, a + b, c);
    CollectAppend(rec, spans, a, b);
    assert multiset(Collect(rec, spans, a))[r] >= 1;
    assert multiset(Collect(rec, spans, b))[r] >= 1;
  }

  /** Number of spans whose label passes the check for `entity`. */
  function MatchCount(entity: string, spans: seq<Span>, groups: seq<Group>): nat
  {
    if spans == [] then 0
    else (if CheckLabel(entity, spans[0].labelValue, groups) then 1 else 0) + MatchCount(entity, spans[1..], groups)
  }

  /** Sum, over the supported requested entities (repeats included), of their match counts. */
  function TotalMatches(rec: Recognizer, spans: seq<Span>, entities: seq<string>): nat
  {
    if entities == [] then 0
    else
      (if entities[0] in rec.supportedEntities then MatchCount(entities[0], spans, rec.checkLabelGroups) else 0)
      + TotalMatches(rec, spans, entities[1..])
  }

  lemma {:induction false} MatchingLength(entity: string, spans: seq<Span>, groups: seq<Group>)
    ensures |Matching(entity, spans, groups)| == MatchCount(entity, spans, groups)
    decreases |spans|
  {
    if spans != [] {
      assert spans == [spans[0]] + spans[1..];
      MatchingAppend(entity, [spans[0]], spans[1..], groups);
      assert [spans[0]][..0] == [];
      MatchingLength(entity, spans[1..], groups);
    }
  }

  /** The number of results is the sum of the per-entity match counts. */
  lemma {:induction false} CollectLength(rec: Recognizer, spans: seq<Span>, entities: seq<string>)
    ensures |Collect(rec, spans, entities)| == TotalMatches(rec, spans, entities)
    decreases |entities|
  {
    if entities != [] {
      assert entities == [entities[0]] + entities[1..];
      CollectAppend(rec, spans, [entities[0]], entities[1..]);
      assert [entities[0]][..0] == [];
      MatchingLength(entities[0], spans, rec.checkLabelGroups);
      CollectLength(rec, spans, entities[1..]);
    }
  }

  /**
   * With the default groups and spans whose tag equals their label, every
   * result of the span loop carries exactly the requested entity type.
   */
  lemma DefaultGroupsYieldRequestedType(entity: string, spans: seq<Span>, r: RecognizerResult)
    requires forall k :: 0 <= k < |spans| ==> spans[k].tag == spans[k].labelValue
    requires r in Matching(entity, spans, CheckLabelGroups)
    ensures r.entityType == entity
  {
    MatchingMembers(entity, spans, CheckLabelGroups, r);
    var k :| 0 <= k < |spans| && CheckLabel(entity, spans[k].labelValue, CheckLabelGroups)
                              && r == ConvertToRecognizerResult(spans[k]);
    DefaultGroupsAccept(entity, spans[k].labelValue);
  }

  /**
   * The label check reads the label, the type mapping reads the tag: a
   * span labelled PER but tagged LOC is accepted as PERSON and reported
   * as LOCATION.
   */
  lemma LabelAndTagDisagree()
    ensures Matching("PERSON", [Span("PER", "LOC", 0, 4)], CheckLabelGroups)
         == [RecognizerResult("LOCATION", 0, 4)]
  {
    DefaultGroupsAccept("PERSON", "PER");
    assert [Span("PER", "LOC", 0, 4)][..0] == [];
  }
}
