/** `Strings`: case-insensitive literal containment patterns and the null-or-empty test. Case
    folding (Java's Unicode-aware case-insensitive matching) is a parameter `fold` applied to
    every character of both texts. */
module Strings {
  import opened Results

  /** `isNullOrEmpty(value)`: a missing value or one of length zero. */
  predicate IsNullOrEmpty(value: Option<string>) {
    match value
    case None => true
    case Some(s) => |s| == 0
  }

  lemma IsNullOrEmptyCases(value: Option<string>)
    ensures IsNullOrEmpty(value) <==> value == None || value == Some("")
  {
  }

  /** A pattern compiled with `CASE_INSENSITIVE | LITERAL | UNICODE_CASE`: its text is matched
      literally, without any special character. */
  datatype Pattern = Pattern(literal: string)

  /** `containsIgnoreCasePattern(s)`. */
  function ContainsIgnoreCasePattern(s: string): (p: Pattern)
    ensures p.literal == s
  {
    Pattern(s)
  }

  /** `containsPatterns(contains)`: one pattern per string, in iteration order. */
  function ContainsPatterns(contains: seq<string>): (ps: seq<Pattern>)
    ensures |ps| == |contains|
    ensures forall i :: 0 <= i < |contains| ==> ps[i] == ContainsIgnoreCasePattern(contains[i])
  {
    seq(|contains|, i requires 0 <= i < |contains| => ContainsIgnoreCasePattern(contains[i]))
  }

  /** The texts the patterns were compiled from. */
  function Literals(ps: seq<Pattern>): (ls: seq<string>)
    ensures |ls| == |ps|
  {
    if |ps| == 0 then [] else [ps[0].literal] + Literals(ps[1..])
  }

  /** Compiling and reading back the literals gives the strings, in their order. */
  lemma {:induction false} LiteralsOfContainsPatterns(contains: seq<string>)
    ensures Literals(ContainsPatterns(contains)) == contains
    decreases |contains|
  {
    if |contains| > 0 {
      assert ContainsPatterns(contains)[1..] == ContainsPatterns(contains[1..]);
      LiteralsOfContainsPatterns(contains[1..]);
    }
  }

  function Fold(fold: char -> char, s: string): (t: string)
    ensures |t| == |s| && forall i :: 0 <= i < |s| ==> t[i] == fold(s[i])
  {
    seq(|s|, i requires 0 <= i < |s| => fold(s[i]))
  }

  /** `needle` occurs in `text` starting at position k. */
  predicate OccursAt(needle: string, text: string, k: int) {
    0 <= k && k + |needle| <= |text| && text[k..k + |needle|] == needle
  }

  predicate Occurs(needle: string, text: string) {
    exists k :: 0 <= k <= |text| - |needle| && OccursAt(needle, text, k)
  }

  /** `pattern.matcher(value).find()`: the folded literal occurs in the folded value. */
  predicate Matches(p: Pattern, value: string, fold: char -> char) {
    Occurs(Fold(fold, p.literal), Fold(fold, value))
  }

  /** The search `find()` performs: each start position in turn. */
  method Find(p: Pattern, value: string, fold: char -> char) returns (found: bool)
    ensures found <==> Matches(p, value, fold)
  {
    var needle := Fold(fold, p.literal);
    var text := Fold(fold, value);
    if |needle| > |text| {
      return false;
    }
    var k := 0;
    while k <= |text| - |needle|
      invariant 0 <= k <= |text| - |needle| + 1
      invariant forall j :: 0 <= j < k ==> !OccursAt(needle, text, j)
    {
      if text[k..k + |needle|] == needle {
        assert OccursAt(needle, text, k);
        return true;
      }
      k := k + 1;
    }
    assert forall j :: !OccursAt(needle, text, j) by {
      forall j ensures !OccursAt(needle, text, j) {
        if j >= k {
          assert j + |needle| > |text|;
        }
      }
    }
    found := false;
  }

  /** `findAny(patterns, value)`: whether some pattern matches, trying them in order. */
  method FindAny(patterns: seq<Pattern>, value: string, fold: char -> char) returns (found: bool)
    ensures found <==> exists i :: 0 <= i < |patterns| && Matches(patterns[i], value, fold)
  {
    var i := 0;
    while i < |patterns|
      invariant 0 <= i <= |patterns|
      invariant forall j :: 0 <= j < i ==> !Matches(patterns[j], value, fold)
    {
      var m := Find(patterns[i], value, fold);
      if m {
        return true;
      }
      i := i + 1;
    }
    return false;
  }

  /** No pattern, no match. */
  method FindAnyNone(value: string, fold: char -> char) returns (found: bool)
    ensures !found
  {
    found := FindAny([], value, fold);
  }

  /** With patterns from `containsPatterns`, a value matches when it contains one of the strings,
      ignoring case. */
  lemma ContainsPatternsMatch(contains: seq<string>, value: string, fold: char -> char)
    ensures (exists i :: 0 <= i < |contains| && Matches(ContainsPatterns(contains)[i], value, fold))
        <==> (exists i :: 0 <= i < |contains| && Occurs(Fold(fold, contains[i]), Fold(fold, value)))
  {
    var ps := ContainsPatterns(contains);
    forall i | 0 <= i < |contains|
      ensures Matches(ps[i], value, fold) <==> Occurs(Fold(fold, contains[i]), Fold(fold, value))
    {
      assert ps[i].literal == contains[i];
    }
  }

  /** The empty string is found in every value. */
  lemma EmptyPatternMatches(value: string, fold: char -> char)
    ensures Matches(Pattern(""), value, fold)
  {
    assert OccursAt(Fold(fold, ""), Fold(fold, value), 0);
  }

  /** The literal flag: `a.c` is found only where those three characters stand, so `abc` does not
      contain it while `xa.cx` does. */
  lemma LiteralPatternExample()
    ensures !Matches(Pattern("a.c"), "abc", c => c)
    ensures Matches(Pattern("a.c"), "xa.cx", c => c)
  {
    var id := (c: char) => c;
    assert Fold(id, "a.c") == "a.c";
    assert Fold(id, "abc") == "abc";
    assert Fold(id, "xa.cx") == "xa.cx";
    assert OccursAt("a.c", "xa.cx", 1);
    assert !OccursAt("a.c", "abc", 0) by {
      assert "abc"[0..3][1] == 'b';
    }
  }
}
