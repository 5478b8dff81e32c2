/**
  The intent pipeline: `understand` (faq_skeleton.py:215-288) and
  `response_generate` (faq_skeleton.py:290-304).

  `understand` lower-cases, strips and cleans the utterance, then
  1. returns the index of the first stored pattern that matches it,
  2. otherwise scores every stored question phrasing against it and returns
     the intent of the best-ranked candidate if that one reaches the
     threshold,
  3. and only when no phrasing scored 50 or more, falls back on the
     linguistic heuristics, which either synthesise a reply (intent -2 with
     its text) or give up (intent -1).
 */
module Pipeline {
  import opened Wrappers
  import opened Text
  import Normalizer
  import opened Nlp
  import Patterns
  import Fuzzy
  import Heuristics
  import Extract
  import Links
  import Knowledge

  /** The foreign capabilities the pipeline calls: the regex engine, `fuzz.ratio` and the language model. */
  datatype Services = Services(regex: Patterns.RegexEngine, ratio: (string, string) -> Fuzzy.Score, nlp: Analyzer)

  /** The `(intent, responseLink)` pair `understand` returns. */
  datatype Intent = Intent(index: int, link: Option<string>)

  /** The replies the heuristics compose, by the branch that composes them. */
  datatype Reply =
    | MapLink(location: string)                   // faq_skeleton.py:267-270
    | EntityLinks(entity: string, question: string) // faq_skeleton.py:272-276
    | AskClarification                            // faq_skeleton.py:277-278
    | CommandLink(entity: string)                 // faq_skeleton.py:281-284
    | CommandClarification                        // faq_skeleton.py:285-286

  /** The branch `understand` ends in: the intent, and for -2 the reply to write out. */
  datatype Decision = Decision(index: int, reply: Option<Reply>)

  /** The intent for "no answer". */
  const Unresolved: int := -1
  /** The intent for a reply composed by the heuristics, whose text is carried in the link. */
  const Synthesized: int := -2
  /** The default `threshold` of `understand`. */
  const DefaultThreshold: int := 60

  const Apology: string := "Sorry, I don't know the answer to that!"
  const AskClarify: string := "I'm not sure what you're asking. Can you please clarify?"
  const CommandClarify: string := "I'm not sure what you want me to do. Can you please clarify?"

  /** `cleaned_utterance`: `clean_input(utterance1.lower().strip())`. */
  function Normalized(utterance: string): string {
    Normalizer.CleanInput(Strip(Lower(utterance)))
  }

  /** `user_utterance.lower()` as `get_entities` parses it, with `user_utterance = clean_input(utterance1.strip())`. */
  function EntityInput(utterance: string): string {
    Lower(Normalizer.CleanInput(Strip(utterance)))
  }

  /** The test of faq_skeleton.py:265. */
  predicate AsksForPlace(cleaned: string) {
    StartsWith(cleaned, "where") || Contains(cleaned, "location")
  }

  /** The text of a composed reply, as the f-strings of faq_skeleton.py:270-286 write it. */
  function Render(reply: Reply): (r: string)
    ensures reply.MapLink? ==>
      StartsWith(r, "It seems like you're asking about " + reply.location) &&
      EndsWith(r, Links.GoogleMapLink(reply.location))
    ensures reply.EntityLinks? ==>
      StartsWith(r, "Sorry, I don't know about " + reply.entity) &&
      EndsWith(r, Links.GoogleLink(reply.entity) + "\n " + Links.GoogleLink(reply.question))
    ensures reply.CommandLink? ==>
      StartsWith(r, "Sorry, I don't know how to do that.") && EndsWith(r, Links.GoogleLink(reply.entity))
    ensures reply == AskClarification ==> r == AskClarify
    ensures reply == CommandClarification ==> r == CommandClarify
  {
    match reply
    case MapLink(location) =>
      var head := "It seems like you're asking about " + location;
      var link := Links.GoogleMapLink(location);
      ConcatEnds(head, ". Here's a Google Maps link: ", link);
      head + ". Here's a Google Maps link: " + link
    case EntityLinks(entity, question) =>
      var head := "Sorry, I don't know about " + entity;
      var links := Links.GoogleLink(entity) + "\n " + Links.GoogleLink(question);
      ConcatEnds(head, ". You can check these links: ", links);
      head + ". You can check these links: " + links
    case AskClarification => AskClarify
    case CommandLink(entity) =>
      var link := Links.GoogleLink(entity);
      ConcatEnds("Sorry, I don't know how to do that.", " You can check this link: ", link);
      "Sorry, I don't know how to do that." + " You can check this link: " + link
    case CommandClarification => CommandClarify
  }

  /** The pair `understand` returns for a decision. */
  function Rendered(d: Decision): Intent {
    Intent(d.index, match d.reply case None => None case Some(reply) => Some(Render(reply)))
  }

  /**
    What the heuristics found about the cleaned utterance: whether it is a
    question, whether it asks for a place, its candidate locations, its
    entities, and whether it is a command.
   */
  datatype Findings = Findings(question: bool, place: bool, locations: seq<string>,
                               entities: seq<Extract.Entity>, command: bool)

  function Inspect(env: Services, cleaned: string, entityInput: string): Findings {
    Findings(Heuristics.IsAskingQuestion(env.nlp, cleaned), AsksForPlace(cleaned),
             Extract.Locations(env.nlp.parse(cleaned)), Extract.EntitiesOf(env.nlp.parse(entityInput)),
             Heuristics.IsCommand(env.nlp, cleaned))
  }

  /** The command branch (faq_skeleton.py:280-286), or -1 when it does not apply. */
  function CommandReply(f: Findings): Decision {
    if f.command then
      if f.entities != [] then Decision(Synthesized, Some(CommandLink(f.entities[0].text)))
      else Decision(Synthesized, Some(CommandClarification))
    else Decision(Unresolved, None)
  }

  /** The branches of faq_skeleton.py:264-288 over the findings. */
  function FallbackTable(f: Findings, cleaned: string): Decision {
    if f.question then
      if f.place then
        if f.locations != [] then Decision(Synthesized, Some(MapLink(f.locations[0])))
        else CommandReply(f)
      else if f.entities != [] then Decision(Synthesized, Some(EntityLinks(f.entities[0].text, cleaned)))
      else Decision(Synthesized, Some(AskClarification))
    else CommandReply(f)
  }

  /**
    The heuristic fallback of faq_skeleton.py:259-288, on the cleaned
    utterance and the text the named-entity pass parses.
   */
  function Heuristic(env: Services, cleaned: string, entityInput: string): Decision {
    FallbackTable(Inspect(env, cleaned, entityInput), cleaned)
  }

  /** The three phases of `understand` on the cleaned utterance. */
  function Decide(env: Services, kb: Knowledge.KnowledgeBase, cleaned: string, entityInput: string, threshold: int): Decision {
    match Patterns.FirstHit(env.regex, kb.patterns, cleaned)
    case Some(i) => Decision(i, None)
    case None =>
      var candidates := Fuzzy.Candidates(env.ratio, cleaned, kb.questions);
      if candidates == [] then Heuristic(env, cleaned, entityInput)
      else
        var best := Fuzzy.SortByKey(candidates)[0];
        if best.score >= threshold then Decision(best.index, None) else Decision(Unresolved, None)
  }

  /** The branch `understand(utterance, threshold)` ends in, against the knowledge base `kb`. */
  function Resolve(env: Services, kb: Knowledge.KnowledgeBase, utterance: string, threshold: int): Decision {
    Decide(env, kb, Normalized(utterance), EntityInput(utterance), threshold)
  }

  /** `understand`: the three phases in order, each running its own loop. */
  method Understand(env: Services, kb: Knowledge.KnowledgeBase, utterance1: string, threshold: int) returns (r: Intent)
    ensures r == Rendered(Resolve(env, kb, utterance1, threshold))
  {
    var utterance := Strip(Lower(utterance1));
    var cleaned := Normalizer.CleanInput(utterance);
    var hit := Patterns.MatchPatterns(env.regex, kb.patterns, cleaned);
    if hit.Some? {
      return Intent(hit.value, None);
    }
    var potential := Fuzzy.CollectCandidates(env.ratio, cleaned, kb.questions);
    potential := Fuzzy.SortByKey(potential);
    if potential != [] {
      var best := potential[0];
      if best.score >= threshold {
        return Intent(best.index, None);
      }
      return Intent(Unresolved, None);
    }
    var userUtterance := Normalizer.CleanInput(Strip(utterance1));
    r := Fallback(env, cleaned, userUtterance);
  }

  /** The heuristic phase of `understand` (faq_skeleton.py:259-288), run when no phrasing scored 50. */
  method Fallback(env: Services, cleaned: string, userUtterance: string) returns (r: Intent)
    ensures r == Rendered(Heuristic(env, cleaned, Lower(userUtterance)))
  {
    var entities := Extract.GetEntities(env.nlp, userUtterance);
    if Heuristics.IsAskingQuestion(env.nlp, cleaned) {
      if StartsWith(cleaned, "where") || Contains(cleaned, "location") {
        var locations := Extract.GetLocationFromUser(env.nlp, cleaned);
        if locations != [] {
          return Intent(Synthesized, Some(Render(MapLink(locations[0]))));
        }
      } else {
        if entities != [] {
          return Intent(Synthesized, Some(Render(EntityLinks(entities[0].text, cleaned))));
        } else {
          return Intent(Synthesized, Some(Render(AskClarification)));
        }
      }
    }
    if Heuristics.IsCommand(env.nlp, cleaned) {
      if entities != [] {
        return Intent(Synthesized, Some(Render(CommandLink(entities[0].text))));
      } else {
        return Intent(Synthesized, Some(Render(CommandClarification)));
      }
    }
    return Intent(Unresolved, None);
  }

  /**
    `response_generate(intent, responseLink)` over the answer list. Any other
    intent indexes the list, from the end when negative, as Python does;
    the precondition excludes the indices that raise `IndexError`.
   */
  function ResponseGenerate(answers: seq<seq<string>>, intent: int, link: Option<string>): (r: Option<string>)
    requires intent == Unresolved || intent == Synthesized || -|answers| <= intent < |answers|
    ensures intent == Unresolved ==> r == Some(Apology)
    ensures intent == Synthesized ==> r == link
    ensures intent != Unresolved && intent != Synthesized ==>
      r == Some(Strip(Join(answers[if intent < 0 then |answers| + intent else intent], " ")))
  {
    if intent == Unresolved then Some(Apology)
    else if intent == Synthesized then link
    else
      var i := if intent < 0 then |answers| + intent else intent;
      Some(Strip(Join(answers[i], " ")))
  }

  // ---------------------------------------------------------------------------
  // Properties of the pipeline

  /**
    The named-entity pass parses the same text as the other heuristics: the
    cleaned utterance. This rests on lower-casing character by character, as
    `Text.Lower` does; a context-dependent mapping such as the Greek final
    sigma can tell the two orders apart.
   */
  lemma EntityInputIsCleaned(utterance: string)
    ensures EntityInput(utterance) == Normalized(utterance)
  {
    Normalizer.LowerCleanInput(Strip(utterance));
    LowerStrip(utterance);
  }

  /** The best-ranked candidate is one of the candidates. */
  lemma SortHeadIsCandidate(candidates: seq<Fuzzy.Candidate>)
    requires candidates != []
    ensures Fuzzy.SortByKey(candidates)[0] in candidates
  {
    Fuzzy.SortByKeyPermutes(candidates);
    assert Fuzzy.SortByKey(candidates)[0] in multiset(Fuzzy.SortByKey(candidates));
  }

  /**
    The pipeline depends on the utterance only through its cleaned form:
    under character-by-character lower-casing, the named-entity pass sees
    the same text as the other phases.
   */
  lemma ResolveOnCleaned(env: Services, kb: Knowledge.KnowledgeBase, utterance: string, threshold: int)
    ensures Resolve(env, kb, utterance, threshold) ==
      Decide(env, kb, Normalized(utterance), Normalized(utterance), threshold)
  {
    EntityInputIsCleaned(utterance);
  }

  /** The fallback either synthesises a reply or gives up; it is the command branch unless a question was answered. */
  lemma FallbackShape(f: Findings, cleaned: string)
    ensures var r := FallbackTable(f, cleaned);
      && (r.index == Synthesized || r.index == Unresolved)
      && (r.index == Synthesized <==> r.reply.Some?)
      && (r.index == Synthesized || r == CommandReply(f))
      && (r.index == Unresolved ==> !f.command)
  {
  }

  /**
    Every intent `understand` returns is -1, -2 or an index of a stored
    pattern or question group; a reply is composed exactly for -2.
   */
  lemma DecideShape(env: Services, kb: Knowledge.KnowledgeBase, cleaned: string, entityInput: string, threshold: int)
    ensures var r := Decide(env, kb, cleaned, entityInput, threshold);
      && (r.index == Synthesized <==> r.reply.Some?)
      && (r.index == Unresolved || r.index == Synthesized || 0 <= r.index)
      && (0 <= r.index ==> r.index < |kb.patterns| || r.index < |kb.questions|)
  {
    var hit := Patterns.FirstHit(env.regex, kb.patterns, cleaned);
    var candidates := Fuzzy.Candidates(env.ratio, cleaned, kb.questions);
    if hit.None? {
      if candidates == [] {
        FallbackShape(Inspect(env, cleaned, entityInput), cleaned);
      } else {
        var best := Fuzzy.SortByKey(candidates)[0];
        SortHeadIsCandidate(candidates);
        Fuzzy.CandidatesExactly(env.ratio, cleaned, kb.questions, best);
      }
    }
  }

  /** Phase 1 decides whenever a stored pattern matches: the first such index is returned. */
  lemma PatternWins(env: Services, kb: Knowledge.KnowledgeBase, cleaned: string, entityInput: string, threshold: int, i: nat)
    requires i < |kb.patterns| && Patterns.Hits(env.regex, kb.patterns[i], cleaned)
    ensures var r := Decide(env, kb, cleaned, entityInput, threshold);
      && r.reply == None
      && 0 <= r.index <= i
      && Patterns.Hits(env.regex, kb.patterns[r.index], cleaned)
  {
  }

  /**
    With no pattern matching and some candidates, the reply is decided by the
    first best candidate (highest score, then longest phrasing, then earliest):
    its intent if it reaches the threshold, -1 otherwise.
   */
  lemma FuzzySelection(env: Services, kb: Knowledge.KnowledgeBase, cleaned: string, entityInput: string, threshold: int)
    requires Patterns.FirstHit(env.regex, kb.patterns, cleaned).None?
    requires Fuzzy.Candidates(env.ratio, cleaned, kb.questions) != []
    ensures var candidates := Fuzzy.Candidates(env.ratio, cleaned, kb.questions);
      exists k :: Fuzzy.FirstBest(candidates, k) &&
        Decide(env, kb, cleaned, entityInput, threshold) ==
          if candidates[k].score >= threshold then Decision(candidates[k].index, None) else Decision(Unresolved, None)
  {
    Fuzzy.SortHeadIsFirstBest(Fuzzy.Candidates(env.ratio, cleaned, kb.questions));
  }

  /**
    With no pattern matching and some candidates, an intent is found exactly
    when some candidate reaches the threshold.
   */
  lemma FuzzyAcceptsIff(env: Services, kb: Knowledge.KnowledgeBase, cleaned: string, entityInput: string, threshold: int)
    requires Patterns.FirstHit(env.regex, kb.patterns, cleaned).None?
    requires Fuzzy.Candidates(env.ratio, cleaned, kb.questions) != []
    ensures var candidates := Fuzzy.Candidates(env.ratio, cleaned, kb.questions);
      Decide(env, kb, cleaned, entityInput, threshold).index != Unresolved <==>
        exists c :: c in candidates && c.score >= threshold
  {
    var candidates := Fuzzy.Candidates(env.ratio, cleaned, kb.questions);
    var best := Fuzzy.SortByKey(candidates)[0];
    SortHeadIsCandidate(candidates);
    Fuzzy.SortHeadIsFirstBest(candidates);
    var k :| Fuzzy.FirstBest(candidates, k) && best == candidates[k];
    if exists c :: c in candidates && c.score >= threshold {
      var c :| c in candidates && c.score >= threshold;
      var j :| 0 <= j < |candidates| && candidates[j] == c;
      assert !Fuzzy.Outranks(candidates[j], candidates[k]);
    }
  }

  /**
    At the default threshold, a first best candidate scoring exactly 60 is
    accepted and one scoring 59 is not.
   */
  lemma DefaultThresholdBoundary(env: Services, kb: Knowledge.KnowledgeBase, cleaned: string, entityInput: string, k: int)
    requires Patterns.FirstHit(env.regex, kb.patterns, cleaned).None?
    requires Fuzzy.FirstBest(Fuzzy.Candidates(env.ratio, cleaned, kb.questions), k)
    ensures var c := Fuzzy.Candidates(env.ratio, cleaned, kb.questions)[k];
      && (c.score == 60 ==> Decide(env, kb, cleaned, entityInput, DefaultThreshold) == Decision(c.index, None))
      && (c.score == 59 ==> Decide(env, kb, cleaned, entityInput, DefaultThreshold) == Decision(Unresolved, None))
  {
    var candidates := Fuzzy.Candidates(env.ratio, cleaned, kb.questions);
    FuzzySelection(env, kb, cleaned, entityInput, DefaultThreshold);
    var k' :| Fuzzy.FirstBest(candidates, k') &&
      Decide(env, kb, cleaned, entityInput, DefaultThreshold) ==
        if candidates[k'].score >= DefaultThreshold then Decision(candidates[k'].index, None) else Decision(Unresolved, None);
    Fuzzy.FirstBestUnique(candidates, k, k');
  }

  /**
    The fallback quirk: once some phrasing scores 50 or more, the heuristics
    are never consulted, so a best score below the threshold gives -1 however
    clearly the utterance is a question or a command.
   */
  lemma CandidatesBelowThresholdUnresolved(env: Services, kb: Knowledge.KnowledgeBase, cleaned: string, entityInput: string, threshold: int)
    requires Patterns.FirstHit(env.regex, kb.patterns, cleaned).None?
    requires var candidates := Fuzzy.Candidates(env.ratio, cleaned, kb.questions);
      candidates != [] && forall c :: c in candidates ==> c.score < threshold
    ensures Decide(env, kb, cleaned, entityInput, threshold) == Decision(Unresolved, None)
  {
    SortHeadIsCandidate(Fuzzy.Candidates(env.ratio, cleaned, kb.questions));
  }

  /** A synthesised reply comes only from the fallback: no pattern matched and no phrasing scored 50. */
  lemma SynthesizedOnlyWithoutCandidates(env: Services, kb: Knowledge.KnowledgeBase, cleaned: string, entityInput: string, threshold: int)
    requires Decide(env, kb, cleaned, entityInput, threshold).index == Synthesized
    ensures Patterns.FirstHit(env.regex, kb.patterns, cleaned).None?
    ensures forall i, j :: 0 <= i < |kb.questions| && 0 <= j < |kb.questions[i]| ==>
      env.ratio(cleaned, kb.questions[i][j]) < Fuzzy.Floor
    ensures Decide(env, kb, cleaned, entityInput, threshold) == Heuristic(env, cleaned, entityInput)
  {
    var candidates := Fuzzy.Candidates(env.ratio, cleaned, kb.questions);
    assert candidates != [] ==> Decide(env, kb, cleaned, entityInput, threshold).index >= Unresolved;
    forall i, j | 0 <= i < |kb.questions| && 0 <= j < |kb.questions[i]|
      ensures env.ratio(cleaned, kb.questions[i][j]) < Fuzzy.Floor
    {
      var q := kb.questions[i][j];
      Fuzzy.CandidatesExactly(env.ratio, cleaned, kb.questions, Fuzzy.Candidate(i, q, env.ratio(cleaned, q)));
    }
  }

  /**
    A question that is not about a place is always answered by the
    heuristics: with a link for its first entity, or with a request to
    clarify.
   */
  lemma QuestionAlwaysAnswered(f: Findings, cleaned: string)
    requires f.question && !f.place
    ensures FallbackTable(f, cleaned) ==
      Decision(Synthesized, Some(if f.entities != [] then EntityLinks(f.entities[0].text, cleaned) else AskClarification))
  {
  }

  /** A place question for which a location is found gets a map link for the first location. */
  lemma PlaceQuestionAnswered(f: Findings, cleaned: string)
    requires f.question && f.place && f.locations != []
    ensures FallbackTable(f, cleaned) == Decision(Synthesized, Some(MapLink(f.locations[0])))
  {
  }

  /**
    A place question for which no location is found is not answered as a
    question: it falls through to the command rules.
   */
  lemma PlaceQuestionWithoutLocation(f: Findings, cleaned: string)
    requires f.question && f.place && f.locations == []
    ensures FallbackTable(f, cleaned) == CommandReply(f)
  {
  }

  /**
    The heuristics give up only when the command rules do not fire, and the
    command rule "some token is not a nominal subject" makes that rare: every
    token of the cleaned utterance must be a nominal subject.
   */
  lemma HeuristicGivesUp(env: Services, cleaned: string, entityInput: string)
    requires Heuristic(env, cleaned, entityInput).index == Unresolved
    ensures Heuristic(env, cleaned, entityInput).reply == None
    ensures !Heuristics.IsCommand(env.nlp, cleaned)
    ensures var ts := env.nlp.parse(cleaned).tokens;
      forall i :: 0 <= i < |ts| ==> ts[i].dep == "nsubj"
  {
    FallbackShape(Inspect(env, cleaned, entityInput), cleaned);
  }

  /** Intent `i` of a complete block is answered with the answer line of block `i`. */
  lemma StoredAnswer(lines: seq<string>, i: int, link: Option<string>)
    requires 0 <= i < |Knowledge.Content(lines)| / 4
    ensures 0 <= i < |Knowledge.Parse(lines).answers|
    ensures ResponseGenerate(Knowledge.Parse(lines).answers, i, link) == Some(Knowledge.Content(lines)[4 * i + 3])
  {
    Knowledge.StoredAnswerLine(lines, i);
    var line := Knowledge.Content(lines)[4 * i + 3];
    assert Join([line], " ") == line;
  }

  /** Writing out a decision keeps its intent, and gives a text exactly when a reply was composed. */
  lemma RenderedShape(d: Decision)
    ensures Rendered(d).index == d.index
    ensures Rendered(d).link.Some? <==> d.reply.Some?
  {
  }

  /** An intent of the shape `understand` produces always gets a reply from a file of whole blocks. */
  lemma AnswerOf(lines: seq<string>, r: Intent)
    requires |Knowledge.Content(lines)| % 4 == 0
    requires r.index == Unresolved || (r.index == Synthesized && r.link.Some?) ||
      0 <= r.index < |Knowledge.Content(lines)| / 4
    ensures r.index == Unresolved || r.index == Synthesized || 0 <= r.index < |Knowledge.Parse(lines).answers|
    ensures ResponseGenerate(Knowledge.Parse(lines).answers, r.index, r.link).Some?
    ensures 0 <= r.index ==>
      ResponseGenerate(Knowledge.Parse(lines).answers, r.index, r.link) == Some(Knowledge.Content(lines)[4 * r.index + 3])
  {
    Knowledge.CompleteBlocksAligned(lines);
    if 0 <= r.index {
      StoredAnswer(lines, r.index, r.link);
    }
  }

  /**
    For a knowledge file of whole blocks, every intent `understand` returns is
    one `response_generate` accepts, it always gives a reply, and a stored
    intent is answered with the answer line of its block.
   */
  lemma AnswerOfDecision(env: Services, lines: seq<string>, cleaned: string, entityInput: string, threshold: int)
    requires |Knowledge.Content(lines)| % 4 == 0
    ensures var r := Rendered(Decide(env, Knowledge.Parse(lines), cleaned, entityInput, threshold));
      r.index == Unresolved || r.index == Synthesized || 0 <= r.index < |Knowledge.Parse(lines).answers|
    ensures var r := Rendered(Decide(env, Knowledge.Parse(lines), cleaned, entityInput, threshold));
      && ResponseGenerate(Knowledge.Parse(lines).answers, r.index, r.link).Some?
      && (0 <= r.index ==>
            ResponseGenerate(Knowledge.Parse(lines).answers, r.index, r.link) == Some(Knowledge.Content(lines)[4 * r.index + 3]))
  {
    var kb := Knowledge.Parse(lines);
    Knowledge.CompleteBlocksAligned(lines);
    DecideShape(env, kb, cleaned, entityInput, threshold);
    var d := Decide(env, kb, cleaned, entityInput, threshold);
    RenderedShape(d);
    AnswerOf(lines, Rendered(d));
  }
}
