/**
  The two heuristic classifiers of unmatched utterances,
  `is_asking_question` (faq_skeleton.py:77-105) and `is_command`
  (faq_skeleton.py:107-135). Each runs its rules in order and answers
  True at the first rule that fires, so each is the disjunction of its rules.
 */
module Heuristics {
  import opened Text
  import opened Nlp

  const WhWords: set<string> := {"who", "what", "when", "where", "why", "how", "which", "whom", "whose"}
  const ModalVerbs: set<string> := {"can", "could", "would", "should", "will"}
  const CommandVerbs: set<string> := {"open", "show", "tell", "find", "give", "go", "bring"}

  /** `token.lower_`. */
  function LowerForm(t: Token): string {
    Lower(t.text)
  }

  /** `is_asking_question(user_input)`, with `nlp` the language model. */
  function IsAskingQuestion(nlp: Analyzer, userInput: string): (r: bool)
    ensures var ts := nlp.parse(userInput).tokens;
      r <==>
        || EndsWith(Strip(userInput), "?")
        || (exists i :: 0 <= i < |ts| && LowerForm(ts[i]) in WhWords)
        || (exists i :: 0 <= i < |ts| && ts[i].tag == "MD" && ts[i].dep == "aux")
        || (exists i :: 0 <= i < |ts| && LowerForm(ts[i]) in ModalVerbs)
  {
    var doc := nlp.parse(userInput);
    || EndsWith(Strip(userInput), "?")
    || SomeToken(doc.tokens, (t: Token) => LowerForm(t) in WhWords)
    || SomeToken(doc.tokens, (t: Token) => t.tag == "MD" && t.dep == "aux")
    || SomeToken(doc.tokens, (t: Token) => LowerForm(t) in ModalVerbs)
  }

  /**
    `is_command(user_input)`. Its second rule fires on any token whose
    dependency label is not `nsubj`, so the classifier answers False only
    when every token is a nominal subject.
   */
  function IsCommand(nlp: Analyzer, userInput: string): (r: bool)
    ensures var ts := nlp.parse(userInput).tokens;
      r <==>
        || (exists i :: 0 <= i < |ts| && ts[i].tag == "VB" && ts[i].dep == "ROOT")
        || (exists i :: 0 <= i < |ts| && ts[i].dep != "nsubj")
        || (exists i :: 0 <= i < |ts| && ts[i].pos == "VERB" && ts[i].lemmaForm in CommandVerbs)
        || Contains(Lower(userInput), "please")
        || Contains(Lower(userInput), "kindly")
    ensures !r ==> var ts := nlp.parse(userInput).tokens;
      forall i :: 0 <= i < |ts| ==> ts[i].dep == "nsubj"
  {
    var doc := nlp.parse(userInput);
    || SomeToken(doc.tokens, (t: Token) => t.tag == "VB" && t.dep == "ROOT")
    || SomeToken(doc.tokens, (t: Token) => t.dep != "nsubj")
    || SomeToken(doc.tokens, (t: Token) => t.pos == "VERB" && t.lemmaForm in CommandVerbs)
    || Contains(Lower(userInput), "please")
    || Contains(Lower(userInput), "kindly")
  }
}
