/**
  Phase 2 of `understand` (faq_skeleton.py:242-255): every question phrasing
  is scored against the cleaned utterance with `fuzz.ratio`; the pairs
  scoring at least 50 become candidates; the candidates are sorted by score,
  then by phrasing length, both descending; the first one wins if its score
  reaches the threshold.

  `fuzz.ratio` is foreign: any function into 0..100.
 */
module Fuzzy {

  type Score = x: int | 0 <= x <= 100

  /** The pre-filter floor of faq_skeleton.py:247. */
  const Floor: int := 50

  /** A `(index, question, score)` triple of `potential_matches`. */
  datatype Candidate = Candidate(index: nat, phrase: string, score: Score)

  /** The candidates of one question group, in the group's order. */
  function GroupCandidates(ratio: (string, string) -> Score, utterance: string, index: nat, group: seq<string>): seq<Candidate>
  {
    if group == [] then []
    else
      var q := group[|group| - 1];
      var score := ratio(utterance, q);
      GroupCandidates(ratio, utterance, index, group[..|group| - 1])
        + (if score >= Floor then [Candidate(index, q, score)] else [])
  }

  /** `potential_matches` before the sort: in enumeration order, group by group. */
  function Candidates(ratio: (string, string) -> Score, utterance: string, questions: seq<seq<string>>): seq<Candidate>
  {
    if questions == [] then []
    else
      var n := |questions| - 1;
      Candidates(ratio, utterance, questions[..n]) + GroupCandidates(ratio, utterance, n, questions[n])
  }

  /** `c` is a phrasing of intent `c.index`, scored as `fuzz.ratio` scores it, at or above the floor. */
  predicate Eligible(ratio: (string, string) -> Score, utterance: string, questions: seq<seq<string>>, c: Candidate) {
    && c.index < |questions|
    && c.phrase in questions[c.index]
    && c.score == ratio(utterance, c.phrase)
    && c.score >= Floor
  }

  lemma {:induction false} GroupCandidatesExactly(ratio: (string, string) -> Score, utterance: string, index: nat, group: seq<string>, c: Candidate)
    ensures c in GroupCandidates(ratio, utterance, index, group) <==>
      c.index == index && c.phrase in group && c.score == ratio(utterance, c.phrase) && c.score >= Floor
  {
    if group != [] {
      var n := |group| - 1;
      GroupCandidatesExactly(ratio, utterance, index, group[..n], c);
      assert group == group[..n] + [group[n]];
      assert c.phrase in group <==> c.phrase in group[..n] || c.phrase == group[n];
    }
  }

  /** The candidates are exactly the eligible triples: nothing below the floor, nothing missed. */
  lemma {:induction false} CandidatesExactly(ratio: (string, string) -> Score, utterance: string, questions: seq<seq<string>>, c: Candidate)
    ensures c in Candidates(ratio, utterance, questions) <==> Eligible(ratio, utterance, questions, c)
  {
    if questions != [] {
      var n := |questions| - 1;
      CandidatesExactly(ratio, utterance, questions[..n], c);
      GroupCandidatesExactly(ratio, utterance, n, questions[n], c);
      if c.index < n {
        assert questions[..n][c.index] == questions[c.index];
      }
    }
  }

  /** The loops of faq_skeleton.py:243-248, which append to `potential_matches`. */
  method CollectCandidates(ratio: (string, string) -> Score, utterance: string, questions: seq<seq<string>>)
    returns (potential: seq<Candidate>)
    ensures potential == Candidates(ratio, utterance, questions)
  {
    potential := [];
    for index := 0 to |questions|
      invariant potential == Candidates(ratio, utterance, questions[..index])
    {
      var group := questions[index];
      for j := 0 to |group|
        invariant potential == Candidates(ratio, utterance, questions[..index])
                               + GroupCandidates(ratio, utterance, index, group[..j])
      {
        var q := group[j];
        var score := ratio(utterance, q);
        if score >= Floor {
          potential := potential + [Candidate(index, q, score)];
        }
        assert group[..j + 1][..j] == group[..j];
      }
      assert group[..|group|] == group;
      assert questions[..index + 1][..index] == questions[..index];
    }
    assert questions[..|questions|] == questions;
  }

  /**
    `a` sorts strictly before `b` under the key `(-score, -len(question))`:
    a higher score, or the same score and a longer phrasing.
   */
  predicate Outranks(a: Candidate, b: Candidate) {
    a.score > b.score || (a.score == b.score && |a.phrase| > |b.phrase|)
  }

  /** Sorted by the key: no later element sorts strictly before an earlier one. */
  predicate Ranked(s: seq<Candidate>) {
    forall i, j :: 0 <= i < j < |s| ==> !Outranks(s[j], s[i])
  }

  /** Inserts `x` before the first element that does not sort strictly before it. */
  function Insert(x: Candidate, s: seq<Candidate>): (r: seq<Candidate>)
    ensures |r| == |s| + 1
  {
    if s == [] || !Outranks(s[0], x) then [x] + s
    else [s[0]] + Insert(x, s[1..])
  }

  /** Insertion adds `x` and nothing else, and the head is `x` unless `s[0]` sorts strictly before it. */
  lemma {:induction false} InsertFacts(x: Candidate, s: seq<Candidate>)
    ensures multiset(Insert(x, s)) == multiset(s) + multiset{x}
    ensures Insert(x, s)[0] == if s == [] || !Outranks(s[0], x) then x else s[0]
  {
    if s != [] && Outranks(s[0], x) {
      InsertFacts(x, s[1..]);
      assert s == [s[0]] + s[1..];
    }
  }

  /**
    `list.sort(key=lambda x: (-x[2], -len(x[1])))`: a stable sort, written as
    an insertion sort that puts each element before the elements that tie with it
    and come after it in the input.
   */
  function SortByKey(s: seq<Candidate>): (r: seq<Candidate>)
    ensures |r| == |s|
  {
    if s == [] then [] else Insert(s[0], SortByKey(s[1..]))
  }

  lemma {:induction false} InsertRanked(x: Candidate, s: seq<Candidate>)
    requires Ranked(s)
    ensures Ranked(Insert(x, s))
  {
    if s != [] && Outranks(s[0], x) {
      InsertRanked(x, s[1..]);
      InsertFacts(x, s[1..]);
      var t := Insert(x, s[1..]);
      forall j | 0 <= j < |t| ensures !Outranks(t[j], s[0]) {
        assert t[j] in multiset(t);
        assert t[j] == x || t[j] in multiset(s[1..]);
      }
    }
  }

  /** The sort's output is ranked. */
  lemma {:induction false} SortByKeyRanked(s: seq<Candidate>)
    ensures Ranked(SortByKey(s))
  {
    if s != [] {
      SortByKeyRanked(s[1..]);
      InsertRanked(s[0], SortByKey(s[1..]));
    }
  }

  /** The sort's output is a permutation of its input. */
  lemma {:induction false} SortByKeyPermutes(s: seq<Candidate>)
    ensures multiset(SortByKey(s)) == multiset(s)
  {
    if s != [] {
      SortByKeyPermutes(s[1..]);
      InsertFacts(s[0], SortByKey(s[1..]));
      assert s == [s[0]] + s[1..];
    }
  }

  /**
    `s[k]` is the candidate the stable sort puts first: nothing outranks it,
    and it outranks every candidate enumerated before it.
   */
  predicate FirstBest(s: seq<Candidate>, k: int) {
    && 0 <= k < |s|
    && (forall j :: 0 <= j < |s| ==> !Outranks(s[j], s[k]))
    && (forall j :: 0 <= j < k ==> Outranks(s[k], s[j]))
  }

  /**
    The head of the sorted candidates has the maximal score, the longest
    phrasing among those with that score, and among the remaining ties it is
    the one enumerated first (the sort is stable).
   */
  lemma {:induction false} SortHeadIsFirstBest(s: seq<Candidate>)
    requires s != []
    ensures exists k :: FirstBest(s, k) && SortByKey(s)[0] == s[k]
  {
    if |s| == 1 {
      assert FirstBest(s, 0);
    } else {
      var rest := s[1..];
      SortHeadIsFirstBest(rest);
      var k' :| FirstBest(rest, k') && SortByKey(rest)[0] == rest[k'];
      InsertFacts(s[0], SortByKey(rest));
      if !Outranks(rest[k'], s[0]) {
        FirstBestFront(s, k');
      } else {
        FirstBestBehind(s, k');
      }
    }
  }

  /** If the best of the tail does not outrank the front, the front is the first best. */
  lemma FirstBestFront(s: seq<Candidate>, k: int)
    requires s != [] && FirstBest(s[1..], k) && !Outranks(s[1..][k], s[0])
    ensures FirstBest(s, 0)
  {
    forall j | 1 <= j < |s| ensures !Outranks(s[j], s[0]) {
      assert s[j] == s[1..][j - 1];
    }
  }

  /** If the best of the tail outranks the front, it stays the first best. */
  lemma FirstBestBehind(s: seq<Candidate>, k: int)
    requires s != [] && FirstBest(s[1..], k) && Outranks(s[1..][k], s[0])
    ensures FirstBest(s, k + 1)
  {
    var h := s[k + 1];
    assert h == s[1..][k];
    forall j | 1 <= j < |s| ensures !Outranks(s[j], h) && (j < k + 1 ==> Outranks(h, s[j])) {
      assert s[j] == s[1..][j - 1];
    }
  }

  /** Only one position can be the first best candidate. */
  lemma FirstBestUnique(s: seq<Candidate>, k1: int, k2: int)
    requires FirstBest(s, k1) && FirstBest(s, k2)
    ensures k1 == k2
  {
    assert !Outranks(s[k1], s[k2]) && !Outranks(s[k2], s[k1]);
  }
}
