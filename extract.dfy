/**
  Entity and location extraction: `get_entities` (faq_skeleton.py:137-151)
  and `get_location_from_user` (faq_skeleton.py:189-211).
 */
module Extract {
  import opened Text
  import opened Nlp

  /** An `(ent.text, ent.label_)` pair. */
  datatype Entity = Entity(text: string, category: string)

  /** The entity labels `get_location_from_user` accepts as places. */
  const PlaceCategories: set<string> := {"GPE", "LOC", "FAC", "ORG"}

  /** `ent.text`. */
  function EntityText(doc: Doc, e: EntitySpan): string {
    SpanText(Slice(doc, e.start, e.end))
  }

  /** One `(text, label)` pair per entity of `doc`, in document order. */
  function EntitiesOf(doc: Doc): seq<Entity> {
    seq(|doc.ents|, k requires 0 <= k < |doc.ents| => Entity(EntityText(doc, doc.ents[k]), doc.ents[k].category))
  }

  /** `get_entities(user_utterance)`: the entities of the lower-cased utterance. */
  method GetEntities(nlp: Analyzer, userUtterance: string) returns (entities: seq<Entity>)
    ensures var doc := nlp.parse(Lower(userUtterance));
      && |entities| == |doc.ents|
      && (forall k :: 0 <= k < |entities| ==>
            entities[k] == Entity(EntityText(doc, doc.ents[k]), doc.ents[k].category))
    ensures entities == EntitiesOf(nlp.parse(Lower(userUtterance)))
  {
    var doc := nlp.parse(Lower(userUtterance));
    entities := [];
    for k := 0 to |doc.ents|
      invariant entities == EntitiesOf(doc)[..k]
    {
      var ent := doc.ents[k];
      entities := entities + [Entity(EntityText(doc, ent), ent.category)];
    }
  }

  /** `doc[start+2:end].text` for every location-phrase match, in order. */
  function MatchedPlaces(doc: Doc): seq<string> {
    seq(|doc.locationMatches|, k requires 0 <= k < |doc.locationMatches| =>
      SpanText(Slice(doc, doc.locationMatches[k].start + 2, doc.locationMatches[k].end)))
  }

  /** `es[k]` is the first entity of `es` with a place label. */
  predicate FirstPlace(es: seq<EntitySpan>, k: int) {
    && 0 <= k < |es|
    && es[k].category in PlaceCategories
    && forall j :: 0 <= j < k ==> es[j].category !in PlaceCategories
  }

  /**
    The texts of the entities in `es` whose label is a place label, in order
    (the list comprehension of faq_skeleton.py:207-209).
   */
  function PlaceEntities(doc: Doc, es: seq<EntitySpan>): (r: seq<string>)
    ensures |r| <= |es|
    ensures r == [] <==> forall k :: 0 <= k < |es| ==> es[k].category !in PlaceCategories
  {
    if es == [] then []
    else
      assert forall k :: 1 <= k < |es| ==> es[k] == es[1..][k - 1];
      (if es[0].category in PlaceCategories then [EntityText(doc, es[0])] else []) + PlaceEntities(doc, es[1..])
  }

  /** One entity contributes its text exactly when its label is a place label. */
  lemma PlaceEntitiesSingle(doc: Doc, e: EntitySpan)
    ensures PlaceEntities(doc, [e]) == if e.category in PlaceCategories then [EntityText(doc, e)] else []
  {
    assert [e][1..] == [];
  }

  /**
    The place texts are collected entity by entity: every place-labelled
    entity contributes its text once, in document order.
   */
  lemma {:induction false} PlaceEntitiesConcat(doc: Doc, a: seq<EntitySpan>, b: seq<EntitySpan>)
    ensures PlaceEntities(doc, a + b) == PlaceEntities(doc, a) + PlaceEntities(doc, b)
  {
    if a == [] {
      assert a + b == b;
    } else {
      assert (a + b)[0] == a[0];
      assert (a + b)[1..] == a[1..] + b;
      PlaceEntitiesConcat(doc, a[1..], b);
    }
  }

  /** The first place text is that of the first entity with a place label. */
  lemma {:induction false} FirstPlaceEntity(doc: Doc, es: seq<EntitySpan>)
    requires PlaceEntities(doc, es) != []
    ensures exists k :: FirstPlace(es, k) && PlaceEntities(doc, es)[0] == EntityText(doc, es[k])
  {
    if es[0].category in PlaceCategories {
      assert FirstPlace(es, 0);
    } else {
      var rest := es[1..];
      FirstPlaceEntity(doc, rest);
      var k :| FirstPlace(rest, k) && PlaceEntities(doc, rest)[0] == EntityText(doc, rest[k]);
      assert forall j :: 1 <= j < |es| ==> es[j] == rest[j - 1];
      assert FirstPlace(es, k + 1);
    }
  }

  /**
    The candidate locations of a parsed utterance: the matched location
    phrases if the matcher found any, otherwise the place entities.
   */
  function Locations(doc: Doc): seq<string> {
    if doc.locationMatches != [] then MatchedPlaces(doc) else PlaceEntities(doc, doc.ents)
  }

  /**
    What `Locations` holds: one `doc[start+2:end].text` per matched location
    phrase, or, when the matcher found none, the place entities' texts.
   */
  lemma LocationsContents(doc: Doc)
    ensures doc.locationMatches != [] ==>
      && |Locations(doc)| == |doc.locationMatches|
      && forall k :: 0 <= k < |doc.locationMatches| ==>
           Locations(doc)[k] == SpanText(Slice(doc, doc.locationMatches[k].start + 2, doc.locationMatches[k].end))
    ensures doc.locationMatches == [] ==> Locations(doc) == PlaceEntities(doc, doc.ents)
    ensures Locations(doc) == [] <==>
      doc.locationMatches == [] && forall k :: 0 <= k < |doc.ents| ==> doc.ents[k].category !in PlaceCategories
  {
  }

  /** `get_location_from_user(user_input)`. */
  method GetLocationFromUser(nlp: Analyzer, userInput: string) returns (locations: seq<string>)
    ensures locations == Locations(nlp.parse(userInput))
  {
    var doc := nlp.parse(userInput);
    var matches := doc.locationMatches;
    locations := [];
    for k := 0 to |matches|
      invariant locations == MatchedPlaces(doc)[..k]
    {
      var m := matches[k];
      locations := locations + [SpanText(Slice(doc, m.start + 2, m.end))];
    }
    if locations == [] {
      var entities := PlaceEntities(doc, doc.ents);
      if entities != [] {
        locations := entities;
      }
    }
  }

  /**
    For a match of the location pattern (a "go" verb, a preposition, an
    optional determiner, a noun), the location is the text of the tokens
    after the preposition: the determiner, if any, and the noun.
   */
  lemma MatchedPlaceIsTail(doc: Doc, k: nat)
    requires k < |doc.locationMatches|
    requires doc.locationMatches[k].start + 3 <= doc.locationMatches[k].end <= |doc.tokens|
    ensures var m := doc.locationMatches[k];
      && MatchedPlaces(doc)[k] == SpanText(doc.tokens[m.start + 2..m.end])
      && 1 <= |doc.tokens[m.start + 2..m.end]| <= |doc.tokens|
  {
  }

  /**
    spaCy never makes a token with empty text, so the location taken from a
    match of the location pattern is never the empty string.
   */
  lemma MatchedPlaceNonEmpty(doc: Doc, k: nat)
    requires k < |doc.locationMatches|
    requires doc.locationMatches[k].start + 3 <= doc.locationMatches[k].end <= |doc.tokens|
    requires forall i :: 0 <= i < |doc.tokens| ==> doc.tokens[i].text != ""
    ensures |MatchedPlaces(doc)[k]| > 0
  {
    var m := doc.locationMatches[k];
    var ts := doc.tokens[m.start + 2..m.end];
    assert ts[|ts| - 1] == doc.tokens[m.end - 1];
    assert |SpanText(ts)| >= |ts[|ts| - 1].text|;
  }
}
