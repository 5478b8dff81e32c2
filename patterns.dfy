/**
  Phase 1 of `understand` (faq_skeleton.py:231-241): the stored patterns are
  tried in index order, each compiled as `^pattern$` with IGNORECASE; a
  pattern that does not compile is skipped, and the first index whose
  compiled pattern matches wins.

  The regular-expression engine is foreign: an engine says which sources
  compile and whether a compiled expression matches a subject.
 */
module Patterns {
  import opened Wrappers

  /** A compiled expression: its source and whether it ignores case. */
  datatype Regex = Regex(source: string, ignoreCase: bool)

  datatype RegexEngine = RegexEngine(valid: string -> bool, search: (Regex, string) -> bool)

  /** `re.compile(source, flags)`: `None` where the source raises `re.error`. */
  function Compile(engine: RegexEngine, source: string, ignoreCase: bool): Option<Regex> {
    if engine.valid(source) then Some(Regex(source, ignoreCase)) else None
  }

  /** The source compiled for a stored pattern: `f"^{pattern}$"`. */
  function Anchored(pattern: string): string {
    "^" + pattern + "$"
  }

  /** The stored pattern compiles and the compiled expression matches `subject`. */
  predicate Hits(engine: RegexEngine, pattern: string, subject: string) {
    match Compile(engine, Anchored(pattern), true)
    case None => false
    case Some(rx) => engine.search(rx, subject)
  }

  /** The first index at or after `from` whose pattern hits. */
  function FirstHitFrom(engine: RegexEngine, patterns: seq<string>, subject: string, from: nat): (r: Option<nat>)
    requires from <= |patterns|
    ensures r.Some? ==> from <= r.value < |patterns| && Hits(engine, patterns[r.value], subject)
    ensures r.Some? ==> forall j :: from <= j < r.value ==> !Hits(engine, patterns[j], subject)
    ensures r.None? ==> forall j :: from <= j < |patterns| ==> !Hits(engine, patterns[j], subject)
    decreases |patterns| - from
  {
    if from == |patterns| then None
    else if Hits(engine, patterns[from], subject) then Some(from)
    else FirstHitFrom(engine, patterns, subject, from + 1)
  }

  /**
    The index phase 1 returns: the smallest index whose pattern compiles and
    matches; `None` when there is none. A pattern that does not compile is
    never the answer.
   */
  function FirstHit(engine: RegexEngine, patterns: seq<string>, subject: string): (r: Option<nat>)
    ensures r.Some? ==> r.value < |patterns| && Hits(engine, patterns[r.value], subject)
    ensures r.Some? ==> engine.valid(Anchored(patterns[r.value]))
    ensures r.Some? ==> forall j :: 0 <= j < r.value ==> !Hits(engine, patterns[j], subject)
    ensures r.None? <==> forall j :: 0 <= j < |patterns| ==> !Hits(engine, patterns[j], subject)
  {
    FirstHitFrom(engine, patterns, subject, 0)
  }

  /** The loop of faq_skeleton.py:233-241, with its early return. */
  method MatchPatterns(engine: RegexEngine, patterns: seq<string>, subject: string) returns (r: Option<nat>)
    ensures r.Some? ==> r.value < |patterns| && Hits(engine, patterns[r.value], subject)
    ensures r.Some? ==> forall j :: 0 <= j < r.value ==> !Hits(engine, patterns[j], subject)
    ensures r.None? ==> forall j :: 0 <= j < |patterns| ==> !Hits(engine, patterns[j], subject)
    ensures r == FirstHit(engine, patterns, subject)
  {
    for index := 0 to |patterns|
      invariant forall j :: 0 <= j < index ==> !Hits(engine, patterns[j], subject)
    {
      var compiled := Compile(engine, Anchored(patterns[index]), true);
      if compiled.Some? {
        if engine.search(compiled.value, subject) {
          return Some(index);
        }
      }
      // a pattern that does not compile is reported and skipped
    }
    return None;
  }

  /** Phase 1's answer is determined by its characterisation. */
  lemma FirstHitUnique(engine: RegexEngine, patterns: seq<string>, subject: string, e: Option<nat>)
    requires e.Some? ==> e.value < |patterns| && Hits(engine, patterns[e.value], subject)
    requires e.Some? ==> forall j :: 0 <= j < e.value ==> !Hits(engine, patterns[j], subject)
    requires e.None? ==> forall j :: 0 <= j < |patterns| ==> !Hits(engine, patterns[j], subject)
    ensures FirstHit(engine, patterns, subject) == e
  {
  }

  /**
    A pattern that does not compile, inserted anywhere, changes nothing but
    the numbering: the same stored pattern still wins.
   */
  lemma {:induction false} MalformedPatternIsolated(engine: RegexEngine, patterns: seq<string>, bad: string, at: nat, subject: string)
    requires at <= |patterns|
    requires !engine.valid(Anchored(bad))
    ensures var r := FirstHit(engine, patterns, subject);
      FirstHit(engine, patterns[..at] + [bad] + patterns[at..], subject) ==
        match r
        case None => None
        case Some(i) => Some(if i < at then i else i + 1)
  {
    var ps := patterns[..at] + [bad] + patterns[at..];
    assert !Hits(engine, ps[at], subject);
    assert forall j :: 0 <= j < at ==> ps[j] == patterns[j];
    assert forall j :: at < j < |ps| ==> ps[j] == patterns[j - 1];
    var e := match FirstHit(engine, patterns, subject)
      case None => None
      case Some(i) => Some(if i < at then i else i + 1);
    forall j | 0 <= j < (if e.Some? then e.value else |ps|)
      ensures !Hits(engine, ps[j], subject)
    {
      if j < at {
        assert ps[j] == patterns[j];
      } else if at < j {
        assert ps[j] == patterns[j - 1];
      }
    }
    FirstHitUnique(engine, ps, subject, e);
  }
}
