/**
  `clean_input` (faq_skeleton.py:306-318): first every character outside the
  class `[\w\s'?.]` is deleted, then every run of `\s` characters becomes one
  space.
 */
module Normalizer {
  import Text

  /** `\w`: letters, digits and the underscore (ASCII only in this model). */
  predicate IsWordChar(c: char) {
    ('a' <= c <= 'z') || ('A' <= c <= 'Z') || ('0' <= c <= '9') || c == '_'
  }

  /** `\s` of the regular-expression engine: the Unicode White_Space characters. */
  predicate IsRegexSpace(c: char) {
    || ('\t' <= c <= '\r') || c == ' '
    || c == '\U{85}' || c == '\U{A0}' || c == '\U{1680}' || ('\U{2000}' <= c <= '\U{200A}')
    || c == '\U{2028}' || c == '\U{2029}' || c == '\U{202F}' || c == '\U{205F}' || c == '\U{3000}'
  }

  /** The characters the first substitution keeps: `[\w\s'?.]`. */
  predicate Kept(c: char) {
    IsWordChar(c) || IsRegexSpace(c) || c == '\'' || c == '?' || c == '.'
  }

  /** `re.sub(r"[^\w\s'?.]", '', s)`: deletes every character that is not kept. */
  function RemoveSpecials(s: string): (r: string)
    ensures |r| <= |s|
    ensures forall c :: c in r <==> c in s && Kept(c)
  {
    if s == [] then []
    else if Kept(s[0]) then [s[0]] + RemoveSpecials(s[1..])
    else RemoveSpecials(s[1..])
  }

  /** Drops the `\s` characters at the front of `s`. */
  function SkipSpaces(s: string): (r: string)
    ensures |r| <= |s|
  {
    if s != [] && IsRegexSpace(s[0]) then SkipSpaces(s[1..]) else s
  }

  /** What was skipped is whitespace, and what is left is the rest of `s`, starting with a non-space. */
  lemma {:induction false} SkipSpacesFacts(s: string)
    ensures var r := SkipSpaces(s);
      && r == s[|s| - |r|..]
      && (r == [] || !IsRegexSpace(r[0]))
      && forall k :: 0 <= k < |s| - |r| ==> IsRegexSpace(s[k])
  {
    if s != [] && IsRegexSpace(s[0]) {
      var r := SkipSpaces(s[1..]);
      SkipSpacesFacts(s[1..]);
      assert s[1..][|s| - 1 - |r|..] == s[|s| - |r|..];
      assert forall k :: 1 <= k < |s| - |r| ==> s[k] == s[1..][k - 1];
    }
  }

  /** No whitespace other than a single space, and no two whitespace characters in a row. */
  predicate Collapsed(s: string) {
    forall i :: 0 <= i < |s| && IsRegexSpace(s[i]) ==>
      s[i] == ' ' && (i + 1 < |s| ==> !IsRegexSpace(s[i + 1]))
  }

  /** `re.sub(r'\s+', ' ', s)`: every maximal run of `\s` characters becomes one space. */
  function CollapseSpaces(s: string): (r: string)
    ensures |r| <= |s|
    decreases |s|
  {
    if s == [] then []
    else if IsRegexSpace(s[0]) then [' '] + CollapseSpaces(SkipSpaces(s[1..]))
    else [s[0]] + CollapseSpaces(s[1..])
  }

  /**
    The result of the second substitution is collapsed, starts with a space
    exactly where `s` starts with whitespace, and brings in no character but
    the space.
   */
  lemma {:induction false} CollapseSpacesFacts(s: string)
    ensures var r := CollapseSpaces(s);
      && Collapsed(r)
      && (forall c :: c in r ==> c == ' ' || c in s)
      && (s == [] <==> r == [])
      && (s != [] ==> r[0] == if IsRegexSpace(s[0]) then ' ' else s[0])
    decreases |s|
  {
    if s != [] {
      var r := CollapseSpaces(s);
      if IsRegexSpace(s[0]) {
        var rest := SkipSpaces(s[1..]);
        SkipSpacesFacts(s[1..]);
        CollapseSpacesFacts(rest);
        assert forall c :: c in rest ==> c in s;
        assert r == [' '] + CollapseSpaces(rest);
      } else {
        CollapseSpacesFacts(s[1..]);
        assert r == [s[0]] + CollapseSpaces(s[1..]);
      }
    }
  }

  /** `clean_input`. */
  function CleanInput(s: string): (r: string)
    ensures |r| <= |s|
    ensures forall k :: 0 <= k < |r| ==> Kept(r[k])
    ensures forall k :: 0 <= k < |r| && IsRegexSpace(r[k]) ==> r[k] == ' '
    ensures forall k :: 0 <= k && k + 1 < |r| ==> !(IsRegexSpace(r[k]) && IsRegexSpace(r[k + 1]))
  {
    var t := RemoveSpecials(s);
    var r := CollapseSpaces(t);
    CollapseSpacesFacts(t);
    assert forall k :: 0 <= k < |r| ==> r[k] in r;
    r
  }

  /** The first substitution deletes one character at a time: a kept character stays, any other goes. */
  lemma RemoveSpecialsSingle(c: char)
    ensures RemoveSpecials([c]) == if Kept(c) then [c] else []
  {
    assert [c][1..] == [];
  }

  /** The first substitution works piece by piece, so it keeps the surviving characters in order and with their multiplicity. */
  lemma {:induction false} RemoveSpecialsConcat(a: string, b: string)
    ensures RemoveSpecials(a + b) == RemoveSpecials(a) + RemoveSpecials(b)
  {
    if a == [] {
      assert a + b == b;
    } else {
      assert (a + b)[0] == a[0];
      assert (a + b)[1..] == a[1..] + b;
      RemoveSpecialsConcat(a[1..], b);
    }
  }

  /** A run of `\s` followed by text that does not start with whitespace is skipped entirely. */
  lemma {:induction false} SkipSpacesRun(w: string, b: string)
    requires forall k :: 0 <= k < |w| ==> IsRegexSpace(w[k])
    requires b == [] || !IsRegexSpace(b[0])
    ensures SkipSpaces(w + b) == b
  {
    if w == [] {
      assert w + b == b;
    } else {
      assert (w + b)[0] == w[0];
      assert (w + b)[1..] == w[1..] + b;
      SkipSpacesRun(w[1..], b);
    }
  }

  /** Skipping stops inside a text that ends with a non-space, whatever follows it. */
  lemma {:induction false} SkipSpacesConcat(x: string, y: string)
    requires x != [] && !IsRegexSpace(x[|x| - 1])
    ensures SkipSpaces(x + y) == SkipSpaces(x) + y
  {
    assert (x + y)[0] == x[0];
    if IsRegexSpace(x[0]) {
      assert |x| >= 2;
      assert (x + y)[1..] == x[1..] + y;
      SkipSpacesConcat(x[1..], y);
    }
  }

  /**
    Every maximal run of `\s` becomes exactly one space: between a text that
    does not end in whitespace and one that does not start with it, a
    non-empty run of whitespace leaves a single `' '`.
   */
  lemma {:induction false} CollapseSpacesRun(a: string, w: string, b: string)
    requires a == [] || !IsRegexSpace(a[|a| - 1])
    requires w != [] && forall k :: 0 <= k < |w| ==> IsRegexSpace(w[k])
    requires b == [] || !IsRegexSpace(b[0])
    ensures CollapseSpaces(a + w + b) == CollapseSpaces(a) + [' '] + CollapseSpaces(b)
    decreases |a|, 1
  {
    if a == [] {
      CollapseSpacesRunAlone(w, b);
      assert a + w + b == w + b;
    } else if IsRegexSpace(a[0]) {
      CollapseSpacesRunAfterSpace(a, w, b);
    } else {
      CollapseSpacesRunAfterChar(a, w, b);
    }
  }

  lemma CollapseSpacesRunAlone(w: string, b: string)
    requires w != [] && forall k :: 0 <= k < |w| ==> IsRegexSpace(w[k])
    requires b == [] || !IsRegexSpace(b[0])
    ensures CollapseSpaces(w + b) == [' '] + CollapseSpaces(b)
  {
    var s := w + b;
    assert s[0] == w[0];
    assert s[1..] == w[1..] + b;
    SkipSpacesRun(w[1..], b);
  }

  lemma {:induction false} CollapseSpacesRunAfterChar(a: string, w: string, b: string)
    requires a != [] && !IsRegexSpace(a[0]) && !IsRegexSpace(a[|a| - 1])
    requires w != [] && forall k :: 0 <= k < |w| ==> IsRegexSpace(w[k])
    requires b == [] || !IsRegexSpace(b[0])
    ensures CollapseSpaces(a + w + b) == CollapseSpaces(a) + [' '] + CollapseSpaces(b)
    decreases |a|, 0
  {
    var s := a + w + b;
    assert s[0] == a[0];
    assert s[1..] == a[1..] + w + b;
    calc {
      CollapseSpaces(s);
      [a[0]] + CollapseSpaces(a[1..] + w + b);
      { CollapseSpacesRun(a[1..], w, b); }
      [a[0]] + (CollapseSpaces(a[1..]) + [' '] + CollapseSpaces(b));
      ([a[0]] + CollapseSpaces(a[1..])) + [' '] + CollapseSpaces(b);
      CollapseSpaces(a) + [' '] + CollapseSpaces(b);
    }
  }

  lemma {:induction false} CollapseSpacesRunAfterSpace(a: string, w: string, b: string)
    requires a != [] && IsRegexSpace(a[0]) && !IsRegexSpace(a[|a| - 1])
    requires w != [] && forall k :: 0 <= k < |w| ==> IsRegexSpace(w[k])
    requires b == [] || !IsRegexSpace(b[0])
    ensures CollapseSpaces(a + w + b) == CollapseSpaces(a) + [' '] + CollapseSpaces(b)
    decreases |a|, 0
  {
    var s := a + w + b;
    var x := a[1..];
    assert s[0] == a[0];
    assert s[1..] == x + (w + b);
    assert x != [] && x[|x| - 1] == a[|a| - 1];
    SkipSpacesConcat(x, w + b);
    var rest := SkipSpaces(x);
    SkipSpacesFacts(x);
    assert rest != [] && rest[|rest| - 1] == a[|a| - 1];
    calc {
      CollapseSpaces(s);
      [' '] + CollapseSpaces(rest + (w + b));
      { assert rest + (w + b) == rest + w + b; }
      [' '] + CollapseSpaces(rest + w + b);
      { CollapseSpacesRun(rest, w, b); }
      [' '] + (CollapseSpaces(rest) + [' '] + CollapseSpaces(b));
      ([' '] + CollapseSpaces(rest)) + [' '] + CollapseSpaces(b);
      CollapseSpaces(a) + [' '] + CollapseSpaces(b);
    }
  }

  /** A string whose characters are all kept passes the first substitution unchanged. */
  lemma {:induction false} RemoveSpecialsUnchanged(s: string)
    requires forall k :: 0 <= k < |s| ==> Kept(s[k])
    ensures RemoveSpecials(s) == s
  {
    if s != [] {
      RemoveSpecialsUnchanged(s[1..]);
    }
  }

  /** A collapsed string passes the second substitution unchanged. */
  lemma {:induction false} CollapseSpacesUnchanged(s: string)
    requires Collapsed(s)
    ensures CollapseSpaces(s) == s
    decreases |s|
  {
    if s != [] {
      assert Collapsed(s[1..]) by {
        forall i | 0 <= i < |s[1..]| && IsRegexSpace(s[1..][i])
          ensures s[1..][i] == ' ' && (i + 1 < |s[1..]| ==> !IsRegexSpace(s[1..][i + 1]))
        {
          assert s[1..][i] == s[i + 1];
        }
      }
      if IsRegexSpace(s[0]) {
        assert SkipSpaces(s[1..]) == s[1..];
      }
      CollapseSpacesUnchanged(s[1..]);
    }
  }

  /** `clean_input(clean_input(x)) == clean_input(x)`. */
  lemma CleanInputIdempotent(s: string)
    ensures CleanInput(CleanInput(s)) == CleanInput(s)
  {
    var r := CleanInput(s);
    RemoveSpecialsUnchanged(r);
    CollapseSpacesUnchanged(r);
  }

  /**
    `clean_input` of two pieces of kept text joined by a run of whitespace is
    the two cleaned pieces joined by exactly one space: the run neither
    vanishes nor survives as more than one character.
   */
  lemma CleanInputRun(a: string, w: string, b: string)
    requires forall k :: 0 <= k < |a| ==> Kept(a[k])
    requires forall k :: 0 <= k < |b| ==> Kept(b[k])
    requires a == [] || !IsRegexSpace(a[|a| - 1])
    requires w != [] && forall k :: 0 <= k < |w| ==> IsRegexSpace(w[k])
    requires b == [] || !IsRegexSpace(b[0])
    ensures CleanInput(a + w + b) == CleanInput(a) + " " + CleanInput(b)
  {
    RemoveSpecialsUnchanged(a);
    RemoveSpecialsUnchanged(w);
    RemoveSpecialsUnchanged(b);
    RemoveSpecialsConcat(a + w, b);
    RemoveSpecialsConcat(a, w);
    CollapseSpacesRun(a, w, b);
  }

  /** The characters of `s` that are neither deleted nor whitespace, in order. */
  function Visible(s: string): string {
    if s == [] then []
    else if Kept(s[0]) && !IsRegexSpace(s[0]) then [s[0]] + Visible(s[1..])
    else Visible(s[1..])
  }

  /** The non-whitespace characters of `s`, in order. */
  function NonSpace(s: string): string {
    if s == [] then []
    else if IsRegexSpace(s[0]) then NonSpace(s[1..])
    else [s[0]] + NonSpace(s[1..])
  }

  lemma {:induction false} NonSpaceSkip(s: string)
    ensures NonSpace(SkipSpaces(s)) == NonSpace(s)
  {
    if s != [] && IsRegexSpace(s[0]) {
      NonSpaceSkip(s[1..]);
    }
  }

  lemma {:induction false} NonSpaceCollapse(s: string)
    ensures NonSpace(CollapseSpaces(s)) == NonSpace(s)
    decreases |s|
  {
    if s != [] {
      if IsRegexSpace(s[0]) {
        NonSpaceCollapse(SkipSpaces(s[1..]));
        NonSpaceSkip(s[1..]);
      } else {
        NonSpaceCollapse(s[1..]);
      }
    }
  }

  lemma {:induction false} NonSpaceRemoveSpecials(s: string)
    ensures NonSpace(RemoveSpecials(s)) == Visible(s)
  {
    if s != [] {
      NonSpaceRemoveSpecials(s[1..]);
    }
  }

  /**
    Cleaning loses no text: apart from whitespace, the cleaned string holds
    exactly the input's kept characters, in their order.
   */
  lemma CleanInputKeepsVisibleText(s: string)
    ensures NonSpace(CleanInput(s)) == Visible(s)
  {
    NonSpaceCollapse(RemoveSpecials(s));
    NonSpaceRemoveSpecials(s);
  }

  /** Lower-casing a character does not change which classes it belongs to. */
  lemma LowerCharClasses(c: char)
    ensures Kept(Text.LowerChar(c)) == Kept(c)
    ensures IsRegexSpace(Text.LowerChar(c)) == IsRegexSpace(c)
  {
  }

  lemma {:induction false} LowerRemoveSpecials(s: string)
    ensures Text.Lower(RemoveSpecials(s)) == RemoveSpecials(Text.Lower(s))
  {
    if s != [] {
      var l := Text.Lower(s);
      LowerCharClasses(s[0]);
      LowerRemoveSpecials(s[1..]);
      assert l[1..] == Text.Lower(s[1..]);
      assert l[0] == Text.LowerChar(s[0]);
      if Kept(s[0]) {
        assert Text.Lower([s[0]] + RemoveSpecials(s[1..])) == [l[0]] + Text.Lower(RemoveSpecials(s[1..]));
      }
    }
  }

  lemma {:induction false} LowerSkipSpaces(s: string)
    ensures Text.Lower(SkipSpaces(s)) == SkipSpaces(Text.Lower(s))
  {
    if s != [] {
      var l := Text.Lower(s);
      LowerCharClasses(s[0]);
      assert l[0] == Text.LowerChar(s[0]);
      if IsRegexSpace(s[0]) {
        calc {
          SkipSpaces(l);
          SkipSpaces(l[1..]);
          { assert l[1..] == Text.Lower(s[1..]); }
          SkipSpaces(Text.Lower(s[1..]));
          { LowerSkipSpaces(s[1..]); }
          Text.Lower(SkipSpaces(s[1..]));
          Text.Lower(SkipSpaces(s));
        }
      } else {
        assert SkipSpaces(l) == l;
        assert SkipSpaces(s) == s;
      }
    }
  }

  lemma {:induction false} LowerCollapseSpaces(s: string)
    ensures Text.Lower(CollapseSpaces(s)) == CollapseSpaces(Text.Lower(s))
    decreases |s|, 1
  {
    if s != [] {
      if IsRegexSpace(s[0]) {
        LowerCollapseAtSpace(s);
      } else {
        var l := Text.Lower(s);
        LowerCharClasses(s[0]);
        assert l[0] == Text.LowerChar(s[0]);
        assert l[1..] == Text.Lower(s[1..]);
        calc {
          CollapseSpaces(l);
          [l[0]] + CollapseSpaces(Text.Lower(s[1..]));
          { LowerCollapseSpaces(s[1..]); }
          [l[0]] + Text.Lower(CollapseSpaces(s[1..]));
          { Text.LowerConcat([s[0]], CollapseSpaces(s[1..])); }
          Text.Lower([s[0]] + CollapseSpaces(s[1..]));
        }
      }
    }
  }

  lemma {:induction false} LowerCollapseAtSpace(s: string)
    requires s != [] && IsRegexSpace(s[0])
    ensures Text.Lower(CollapseSpaces(s)) == CollapseSpaces(Text.Lower(s))
    decreases |s|, 0
  {
    var l := Text.Lower(s);
    LowerCharClasses(s[0]);
    assert l[0] == Text.LowerChar(s[0]);
    assert l[1..] == Text.Lower(s[1..]);
    var rest := SkipSpaces(s[1..]);
    calc {
      CollapseSpaces(l);
      [' '] + CollapseSpaces(SkipSpaces(l[1..]));
      { LowerSkipSpaces(s[1..]); }
      [' '] + CollapseSpaces(Text.Lower(rest));
      { LowerCollapseSpaces(rest); }
      [' '] + Text.Lower(CollapseSpaces(rest));
      { Text.LowerConcat([' '], CollapseSpaces(rest)); }
      Text.Lower([' '] + CollapseSpaces(rest));
    }
  }

  /** Lower-casing commutes with `clean_input`. */
  lemma LowerCleanInput(s: string)
    ensures Text.Lower(CleanInput(s)) == CleanInput(Text.Lower(s))
  {
    LowerRemoveSpecials(s);
    LowerCollapseSpaces(RemoveSpecials(s));
  }
}
