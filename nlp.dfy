/**
  The interface of the linguistic analyser (spaCy) that the pipeline uses.
  Parsing itself is foreign: an `Analyzer` is any function from text to a
  parsed document. A document holds the tokens with their annotations, the
  named-entity spans, and the spans found by the "location phrase" matcher
  (a "go" lemma, then to/into/toward, an optional determiner, a noun).
 */
module Nlp {

  /** One token; `lemmaForm` is spaCy's `lemma_` and `tag`, `dep`, `pos` its `tag_`, `dep_`, `pos_`. */
  datatype Token = Token(text: string, spaceAfter: bool, tag: string, dep: string, pos: string, lemmaForm: string)

  /** A named entity: tokens `start .. end` of the document, with its label. */
  datatype EntitySpan = EntitySpan(start: nat, end: nat, category: string)

  /** A span reported by the location-phrase matcher. */
  datatype Span = Span(start: nat, end: nat)

  datatype Doc = Doc(tokens: seq<Token>, ents: seq<EntitySpan>, locationMatches: seq<Span>)

  /** A loaded language model: `nlp(text)` in the source. */
  datatype Analyzer = Analyzer(parse: string -> Doc)

  /** `token.text_with_ws`. */
  function TextWithWs(t: Token): string {
    t.text + (if t.spaceAfter then " " else "")
  }

  /** The concatenation of the tokens' `text_with_ws`. */
  function ConcatWithWs(ts: seq<Token>): string {
    if ts == [] then "" else ConcatWithWs(ts[..|ts| - 1]) + TextWithWs(ts[|ts| - 1])
  }

  /**
    `span.text`: the tokens' text with their following spaces, except that
    the space after the last token is not part of the span.
   */
  function SpanText(ts: seq<Token>): string {
    if ts == [] then "" else ConcatWithWs(ts[..|ts| - 1]) + ts[|ts| - 1].text
  }

  /**
    `doc[start:end]`: both bounds are clamped to the document, and an end
    before the start gives the empty span.
   */
  function Slice(doc: Doc, start: nat, end: nat): (r: seq<Token>)
    ensures start <= end <= |doc.tokens| ==> r == doc.tokens[start..end]
    ensures end <= start ==> r == []
    ensures start <= |doc.tokens| <= end ==> r == doc.tokens[start..]
    ensures |doc.tokens| <= start ==> r == []
    ensures |r| <= |doc.tokens|
  {
    var n := |doc.tokens|;
    var lo := if start < n then start else n;
    var hi := if end < lo then lo else if end < n then end else n;
    doc.tokens[lo..hi]
  }

  /** The for-loop with early `return True` over a document's tokens. */
  function SomeToken(ts: seq<Token>, p: Token -> bool): (r: bool)
    ensures r <==> exists i :: 0 <= i < |ts| && p(ts[i])
  {
    if ts == [] then false
    else if p(ts[0]) then true
    else
      assert forall i :: 1 <= i < |ts| ==> ts[i] == ts[1..][i - 1];
      SomeToken(ts[1..], p)
  }
}
