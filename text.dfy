/** Option type shared by the modules of the model (Python's `None` or a value). */
module Wrappers {
  datatype Option<+T> = None | Some(value: T)
}

/**
  The Python string methods the FAQ pipeline relies on: `lower`, `strip`,
  `startswith`, `endswith`, the substring test `in`, and `' '.join`.
  Strings are sequences of characters.
 */
module Text {

  /** Python's `str.isspace` on one character: what `str.strip()` removes. */
  predicate IsSpace(c: char) {
    || ('\t' <= c <= '\r') || ('\U{1C}' <= c <= ' ')
    || c == '\U{85}' || c == '\U{A0}' || c == '\U{1680}' || ('\U{2000}' <= c <= '\U{200A}')
    || c == '\U{2028}' || c == '\U{2029}' || c == '\U{202F}' || c == '\U{205F}' || c == '\U{3000}'
  }

  /** `str.lower()` on one character; only ASCII letters are case-mapped here. */
  function LowerChar(c: char): (r: char)
    ensures 'A' <= c <= 'Z' ==> 'a' <= r <= 'z' && r as int == c as int + 32
    ensures !('A' <= c <= 'Z') ==> r == c
  {
    if 'A' <= c <= 'Z' then (c as int + 32) as char else c
  }

  /** `str.lower()`. */
  function Lower(s: string): (r: string)
    ensures |r| == |s|
  {
    seq(|s|, i requires 0 <= i < |s| => LowerChar(s[i]))
  }

  /** Removes the leading whitespace of `s` (`str.lstrip()`). */
  function TrimStart(s: string): (r: string)
    ensures |r| <= |s|
  {
    if s != [] && IsSpace(s[0]) then TrimStart(s[1..]) else s
  }

  /** `lstrip` keeps a suffix of `s`, removes only whitespace and leaves no whitespace in front. */
  lemma {:induction false} TrimStartFacts(s: string)
    ensures var r := TrimStart(s);
      && r == s[|s| - |r|..]
      && (forall k :: 0 <= k < |s| - |r| ==> IsSpace(s[k]))
      && (r == [] || !IsSpace(r[0]))
  {
    if s != [] && IsSpace(s[0]) {
      var r := TrimStart(s[1..]);
      TrimStartFacts(s[1..]);
      assert s[1..][|s| - 1 - |r|..] == s[|s| - |r|..];
      assert forall k :: 1 <= k < |s| - |r| ==> s[k] == s[1..][k - 1];
    }
  }

  /** Removes the trailing whitespace of `s` (`str.rstrip()`). */
  function TrimEnd(s: string): (r: string)
    ensures |r| <= |s|
  {
    if s != [] && IsSpace(s[|s| - 1]) then TrimEnd(s[..|s| - 1]) else s
  }

  /** `rstrip` keeps a prefix of `s`, removes only whitespace and leaves no whitespace behind. */
  lemma {:induction false} TrimEndFacts(s: string)
    ensures var r := TrimEnd(s);
      && r == s[..|r|]
      && (forall k :: |r| <= k < |s| ==> IsSpace(s[k]))
      && (r == [] || !IsSpace(r[|r| - 1]))
  {
    if s != [] && IsSpace(s[|s| - 1]) {
      var p := s[..|s| - 1];
      TrimEndFacts(p);
      var r := TrimEnd(p);
      assert p[..|r|] == s[..|r|];
      assert forall k :: |r| <= k < |p| ==> s[k] == p[k];
    }
  }

  /** `str.strip()`. */
  function Strip(s: string): (r: string)
    ensures |r| <= |s|
  {
    TrimEnd(TrimStart(s))
  }

  /**
    `strip` keeps a contiguous piece of `s` that neither starts nor ends
    with whitespace; only whitespace was cut off.
   */
  lemma StripFacts(s: string)
    ensures var r := Strip(s);
      && (r == [] || (!IsSpace(r[0]) && !IsSpace(r[|r| - 1])))
      && r == s[|s| - |TrimStart(s)|..][..|r|]
      && (forall k :: 0 <= k < |s| - |TrimStart(s)| ==> IsSpace(s[k]))
      && (forall k :: |s| - |TrimStart(s)| + |r| <= k < |s| ==> IsSpace(s[k]))
  {
    var t := TrimStart(s);
    TrimStartFacts(s);
    TrimEndFacts(t);
    var r := TrimEnd(t);
    assert r == t[..|r|];
    if r != [] {
      assert r[0] == t[0];
    }
    SpacesInSuffix(s, |s| - |t|, |r|);
  }

  /** Whitespace from position `m` of the suffix `s[i..]` on is whitespace from `i + m` on in `s`. */
  lemma SpacesInSuffix(s: string, i: int, m: int)
    requires 0 <= i <= |s| && 0 <= m <= |s| - i
    requires forall k :: m <= k < |s[i..]| ==> IsSpace(s[i..][k])
    ensures forall k :: i + m <= k < |s| ==> IsSpace(s[k])
  {
    forall k | i + m <= k < |s| ensures IsSpace(s[k]) {
      assert s[k] == s[i..][k - i];
    }
  }

  /** A string already free of surrounding whitespace is left as it is. */
  lemma StripUnchanged(s: string)
    requires s == [] || (!IsSpace(s[0]) && !IsSpace(s[|s| - 1]))
    ensures Strip(s) == s
  {
  }

  /** `str.strip()` is idempotent. */
  lemma StripIdempotent(s: string)
    ensures Strip(Strip(s)) == Strip(s)
  {
    StripFacts(s);
    StripUnchanged(Strip(s));
  }

  /** A line strips to the empty string exactly when it is all whitespace. */
  lemma {:induction false} StripEmptyIffBlank(s: string)
    ensures Strip(s) == [] <==> forall k :: 0 <= k < |s| ==> IsSpace(s[k])
  {
    var t := TrimStart(s);
    TrimStartFacts(s);
    if t != [] {
      TrimEndFacts(t);
      assert TrimEnd(t) != [];
      assert s[|s| - |t|] == t[0];
    } else {
      assert forall k :: 0 <= k < |s| ==> IsSpace(s[k]);
    }
  }

  /** `s.startswith(prefix)`. */
  predicate StartsWith(s: string, prefix: string) {
    |prefix| <= |s| && s[..|prefix|] == prefix
  }

  /** `s.endswith(suffix)`. */
  predicate EndsWith(s: string, suffix: string) {
    |suffix| <= |s| && s[|s| - |suffix|..] == suffix
  }

  /** A concatenation starts with its first piece and ends with its last. */
  lemma ConcatEnds(a: string, m: string, b: string)
    ensures StartsWith(a + m + b, a) && EndsWith(a + m + b, b)
  {
    var s := a + m + b;
    assert s[..|a|] == a;
    assert s[|s| - |b|..] == b;
  }

  /** `sub` occurs in `s` starting at position `i`. */
  predicate OccursAt(s: string, sub: string, i: nat) {
    i + |sub| <= |s| && s[i..i + |sub|] == sub
  }

  /** The substring test `sub in s`, scanning `s` from the left. */
  function Contains(s: string, sub: string): (r: bool)
    ensures r <==> exists i: nat :: i <= |s| && OccursAt(s, sub, i)
    decreases |s|
  {
    if |s| < |sub| then false
    else if s[..|sub|] == sub then (assert OccursAt(s, sub, 0); true)
    else if s == [] then false
    else
      var rest := Contains(s[1..], sub);
      assert forall i: nat :: 1 <= i <= |s| ==> (OccursAt(s, sub, i) <==> OccursAt(s[1..], sub, i - 1));
      assert rest ==> exists i: nat :: i <= |s| && OccursAt(s, sub, i) by {
        if rest {
          var i: nat :| i <= |s[1..]| && OccursAt(s[1..], sub, i);
          assert OccursAt(s, sub, i + 1);
        }
      }
      rest
  }

  /** `sep.join(parts)`. */
  function Join(parts: seq<string>, sep: string): (r: string)
    ensures parts == [] ==> r == ""
    ensures |parts| == 1 ==> r == parts[0]
  {
    if parts == [] then ""
    else if |parts| == 1 then parts[0]
    else parts[0] + sep + Join(parts[1..], sep)
  }

  /** Joining one more part appends the separator and the part: the parts appear in order, separated once each. */
  lemma {:induction false} JoinAppend(parts: seq<string>, p: string, sep: string)
    requires parts != []
    ensures Join(parts + [p], sep) == Join(parts, sep) + sep + p
  {
    var q := parts + [p];
    assert q[0] == parts[0];
    if |parts| > 1 {
      assert q[1..] == parts[1..] + [p];
      JoinAppend(parts[1..], p, sep);
    } else {
      assert q[1..] == [p];
    }
  }

  /** Lower-casing never turns a non-space into a space or back. */
  lemma LowerCharKeepsSpace(c: char)
    ensures IsSpace(LowerChar(c)) == IsSpace(c)
  {
  }

  /** Lower-casing commutes with slicing. */
  lemma LowerSlice(s: string, i: nat, j: nat)
    requires i <= j <= |s|
    ensures Lower(s[i..j]) == Lower(s)[i..j]
  {
  }

  /** Lower-casing commutes with concatenation. */
  lemma LowerConcat(a: string, b: string)
    ensures Lower(a + b) == Lower(a) + Lower(b)
  {
  }

  /** Lower-casing commutes with `lstrip`. */
  lemma {:induction false} LowerTrimStart(s: string)
    ensures Lower(TrimStart(s)) == TrimStart(Lower(s))
    decreases |s|
  {
    if s != [] {
      var l := Lower(s);
      assert l[0] == LowerChar(s[0]);
      LowerCharKeepsSpace(s[0]);
      if IsSpace(s[0]) {
        calc {
          Lower(TrimStart(s));
          { assert TrimStart(s) == TrimStart(s[1..]); }
          Lower(TrimStart(s[1..]));
          { LowerTrimStart(s[1..]); }
          TrimStart(Lower(s[1..]));
          { LowerSlice(s, 1, |s|); assert s[1..|s|] == s[1..]; assert l[1..|s|] == l[1..]; }
          TrimStart(l[1..]);
          { assert IsSpace(l[0]); }
          TrimStart(l);
        }
      } else {
        assert TrimStart(l) == l;
      }
    }
  }

  /** Lower-casing commutes with `rstrip`. */
  lemma {:induction false} LowerTrimEnd(s: string)
    ensures Lower(TrimEnd(s)) == TrimEnd(Lower(s))
    decreases |s|
  {
    if s != [] {
      var l := Lower(s);
      assert l[|s| - 1] == LowerChar(s[|s| - 1]);
      LowerCharKeepsSpace(s[|s| - 1]);
      if IsSpace(s[|s| - 1]) {
        LowerTrimEnd(s[..|s| - 1]);
        LowerSlice(s, 0, |s| - 1);
        assert s[0..|s| - 1] == s[..|s| - 1];
        assert l[0..|s| - 1] == l[..|s| - 1];
        assert TrimEnd(l) == TrimEnd(l[..|s| - 1]);
      } else {
        assert TrimEnd(l) == l;
      }
    }
  }

  /** Lower-casing commutes with `strip`: `s.strip().lower() == s.lower().strip()`. */
  lemma LowerStrip(s: string)
    ensures Lower(Strip(s)) == Strip(Lower(s))
  {
    LowerTrimStart(s);
    LowerTrimEnd(TrimStart(s));
  }
}
