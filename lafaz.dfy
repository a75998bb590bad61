/**
 * The spelling normaliser applied to announcement text before speech
 * synthesis (`perbaikiLafazIslami` in server.js).
 *
 * The source is a fixed, ordered chain of 22 regular-expression
 * replacements, each global and case-insensitive; the first five also
 * require a word boundary (`\b`) on both sides.  Here a rule is data, the
 * chain is a fold over the rule table, and a replacement is the left-to-right,
 * non-overlapping scan that a global literal regular expression performs.
 * Case folding is ASCII, and `\b` is a change between a word character
 * ([A-Za-z0-9_]) and a non-word character or the edge of the text.
 */
module Lafaz {

  /** A regular expression literal of the chain: never empty. */
  type Pattern = p: string | |p| > 0 witness "x"

  // ---------------------------------------------------------------------
  // Characters
  // ---------------------------------------------------------------------

  function LowerChar(c: char): char {
    if 'A' <= c <= 'Z' then (c as int + 32) as char else c
  }

  function UpperChar(c: char): char {
    if 'a' <= c <= 'z' then (c as int - 32) as char else c
  }

  /** The only characters that fold to the (lower-case) character `c`. */
  lemma FoldedFrom(x: char, c: char)
    requires LowerChar(x) == LowerChar(c)
    ensures x == LowerChar(c) || x == UpperChar(LowerChar(c))
  {
  }

  predicate IsWordChar(c: char) {
    ('a' <= c <= 'z') || ('A' <= c <= 'Z') || ('0' <= c <= '9') || c == '_'
  }

  predicate WordAt(s: string, k: int) {
    0 <= k < |s| && IsWordChar(s[k])
  }

  /** `\b` at position `k` (between `s[k-1]` and `s[k]`). */
  predicate Boundary(s: string, k: int) {
    WordAt(s, k - 1) != WordAt(s, k)
  }

  // ---------------------------------------------------------------------
  // Case-insensitive comparison
  // ---------------------------------------------------------------------

  /** `t` begins with `q`, ignoring ASCII case. */
  predicate StartsWithCI(t: string, q: string)
    ensures StartsWithCI(t, q) ==> |q| <= |t|
  {
    |q| == 0 || (|t| > 0 && LowerChar(t[0]) == LowerChar(q[0]) && StartsWithCI(t[1..], q[1..]))
  }

  /** `a` and `b` agree, ignoring case, on their common length. */
  predicate Agree(a: string, b: string) {
    |a| == 0 || |b| == 0 || (LowerChar(a[0]) == LowerChar(b[0]) && Agree(a[1..], b[1..]))
  }

  lemma {:induction false} StartsAgree(t: string, w: string)
    requires StartsWithCI(t, w)
    ensures Agree(t, w)
  {
    if |w| > 0 {
      StartsAgree(t[1..], w[1..]);
    }
  }

  lemma {:induction false} AgreeConcat(a: string, b: string, w: string)
    requires Agree(a + b, w)
    ensures Agree(a, w)
  {
    if |a| > 0 && |w| > 0 {
      assert (a + b)[1..] == a[1..] + b;
      AgreeConcat(a[1..], b, w[1..]);
    }
  }

  lemma {:induction false} StartsTrans(t: string, p: string, w: string)
    requires StartsWithCI(t, p) && StartsWithCI(p, w)
    ensures StartsWithCI(t, w)
  {
    if |w| > 0 {
      StartsTrans(t[1..], p[1..], w[1..]);
    }
  }

  /** The character at offset `n` of a match. */
  lemma {:induction false} StartsAt(t: string, q: string, n: nat)
    requires StartsWithCI(t, q) && n < |q|
    ensures LowerChar(t[n]) == LowerChar(q[n])
  {
    if n > 0 {
      StartsAt(t[1..], q[1..], n - 1);
    }
  }

  /** A match can be checked character by character. */
  lemma {:induction false} StartsByChars(t: string, q: string)
    requires |q| <= |t|
    requires forall n :: 0 <= n < |q| ==> LowerChar(t[n]) == LowerChar(q[n])
    ensures StartsWithCI(t, q)
  {
    if |q| > 0 {
      forall n | 0 <= n < |q| - 1 ensures LowerChar(t[1..][n]) == LowerChar(q[1..][n]) {
        assert t[1..][n] == t[n + 1] && q[1..][n] == q[n + 1];
      }
      StartsByChars(t[1..], q[1..]);
    }
  }

  lemma {:induction false} AgreeAt(a: string, b: string, n: nat)
    requires Agree(a, b) && n < |a| && n < |b|
    ensures LowerChar(a[n]) == LowerChar(b[n])
  {
    if n > 0 {
      AgreeAt(a[1..], b[1..], n - 1);
    }
  }

  /** One differing position refutes agreement. */
  lemma Disagree(a: string, b: string, n: nat)
    requires n < |a| && n < |b| && LowerChar(a[n]) != LowerChar(b[n])
    ensures !Agree(a, b)
  {
    if Agree(a, b) {
      AgreeAt(a, b, n);
    }
  }

  /** No case-insensitive occurrence of `q` anywhere in `t`. */
  predicate Absent(t: string, q: string) {
    forall k :: 0 <= k <= |t| ==> !StartsWithCI(t[k..], q)
  }

  // ---------------------------------------------------------------------
  // One global replacement
  // ---------------------------------------------------------------------

  /** The regular expression matches at position `i` of `s`. */
  predicate Hit(s: string, i: nat, p: Pattern, whole: bool)
    requires i <= |s|
  {
    StartsWithCI(s[i..], p) && (!whole || (Boundary(s, i) && Boundary(s, i + |p|)))
  }

  /**
   * The output of a global replacement from position `i` on: a match is
   * replaced and the scan resumes after it, otherwise one character is
   * copied and the scan moves on by one.
   */
  function ReplaceFrom(s: string, i: nat, p: Pattern, r: string, whole: bool): string
    requires i <= |s|
    decreases |s| - i
  {
    if i == |s| then []
    else if Hit(s, i, p, whole) then r + ReplaceFrom(s, i + |p|, p, r, whole)
    else [s[i]] + ReplaceFrom(s, i + 1, p, r, whole)
  }

  /** One line of the chain: `fixed.replace(/pattern/gi, replacement)`. */
  datatype Rule = Rule(pattern: Pattern, replacement: string, whole: bool)

  function Apply(rule: Rule, s: string): string {
    ReplaceFrom(s, 0, rule.pattern, rule.replacement, rule.whole)
  }

  /** A stretch without a match is copied unchanged. */
  lemma {:induction false} ReplaceNoHit(s: string, i: nat, p: Pattern, r: string, whole: bool)
    requires i <= |s|
    requires forall k :: i <= k <= |s| ==> !Hit(s, k, p, whole)
    ensures ReplaceFrom(s, i, p, r, whole) == s[i..]
    decreases |s| - i
  {
    if i < |s| {
      ReplaceNoHit(s, i + 1, p, r, whole);
      assert s[i..] == [s[i]] + s[i + 1..];
    }
  }

  /** Where no match starts, the character is copied. */
  lemma ReplaceMiss(s: string, i: nat, p: Pattern, r: string, whole: bool)
    requires i < |s| && !StartsWithCI(s[i..], p)
    ensures ReplaceFrom(s, i, p, r, whole) == [s[i]] + ReplaceFrom(s, i + 1, p, r, whole)
  {
  }

  /** One differing position rules out a match. */
  lemma MissAt(t: string, p: string, n: nat)
    requires n < |p| && n < |t| && LowerChar(t[n]) != LowerChar(p[n])
    ensures !StartsWithCI(t, p)
  {
    if StartsWithCI(t, p) {
      StartsAt(t, p, n);
    }
  }

  /**
   * No match can start in `[i, j)` when the pattern's character at offset
   * `n` occurs, in either case, nowhere in the text it would have to sit on.
   */
  lemma {:induction false} ReplaceRun(s: string, i: nat, j: nat, p: Pattern, r: string, whole: bool, n: nat)
    requires i <= j && j + n <= |s| && n < |p|
    requires forall m :: i + n <= m < j + n ==> LowerChar(s[m]) != LowerChar(p[n])
    ensures ReplaceFrom(s, i, p, r, whole) == s[i..j] + ReplaceFrom(s, j, p, r, whole)
    decreases j - i
  {
    if i < j {
      assert s[i..][n] == s[i + n];
      MissAt(s[i..], p, n);
      ReplaceMiss(s, i, p, r, whole);
      ReplaceRun(s, i + 1, j, p, r, whole, n);
      assert s[i..j] == [s[i]] + s[i + 1..j];
    }
  }

  /** The same, for a stretch that runs to the end of the text. */
  lemma {:induction false} ReplaceTail(s: string, i: nat, p: Pattern, r: string, whole: bool, n: nat)
    requires i + n <= |s| && n < |p|
    requires forall m :: i + n <= m < |s| ==> LowerChar(s[m]) != LowerChar(p[n])
    ensures ReplaceFrom(s, i, p, r, whole) == s[i..]
  {
    forall k | i <= k <= |s| ensures !Hit(s, k, p, whole) {
      if StartsWithCI(s[k..], p) {
        StartsAt(s[k..], p, n);
        assert false;
      }
    }
    ReplaceNoHit(s, i, p, r, whole);
  }

  /** A match at `i` is replaced and the scan resumes after it. */
  lemma ReplaceHit(s: string, i: nat, p: Pattern, r: string, whole: bool)
    requires i <= |s| && Hit(s, i, p, whole)
    ensures i + |p| <= |s|
    ensures ReplaceFrom(s, i, p, r, whole) == r + ReplaceFrom(s, i + |p|, p, r, whole)
  {
  }

  // ---------------------------------------------------------------------
  // When a replacement cannot create an occurrence of a phrase
  // ---------------------------------------------------------------------

  /**
   * Replacing by `rule` cannot produce a fresh occurrence of `q`: no
   * occurrence can begin inside an inserted replacement, and an occurrence
   * that runs into one only ever overlaps the part of the replacement that
   * repeats (up to case) the text it replaced.
   */
  predicate Harmless(rule: Rule, q: string) {
    && (forall j :: 0 <= j < |q| && Agree(rule.replacement, q[j..]) ==> StartsWithCI(rule.pattern, q[j..]))
    && (forall k :: 0 <= k < |rule.replacement| ==> !Agree(rule.replacement[k..], q))
  }

  /** The replacement only changes the case of what it replaces. */
  predicate CaseOnly(rule: Rule) {
    |rule.replacement| == |rule.pattern| && StartsWithCI(rule.replacement, rule.pattern)
  }

  /** An occurrence in the output that starts at a copied character was in the input. */
  lemma {:induction false} OutputPrefix(s: string, i: nat, rule: Rule, q: string, j: nat)
    requires i <= |s| && j < |q| && Harmless(rule, q)
    requires StartsWithCI(ReplaceFrom(s, i, rule.pattern, rule.replacement, rule.whole), q[j..])
    ensures StartsWithCI(s[i..], q[j..])
    decreases |s| - i
  {
    var p, r, whole := rule.pattern, rule.replacement, rule.whole;
    var out := ReplaceFrom(s, i, p, r, whole);
    if i == |s| {
    } else if Hit(s, i, p, whole) {
      var rest := ReplaceFrom(s, i + |p|, p, r, whole);
      assert out == r + rest;
      StartsAgree(out, q[j..]);
      AgreeConcat(r, rest, q[j..]);
      StartsTrans(s[i..], p, q[j..]);
    } else {
      var rest := ReplaceFrom(s, i + 1, p, r, whole);
      assert out == [s[i]] + rest;
      assert out[1..] == rest;
      assert q[j..][1..] == q[j + 1..];
      assert s[i..][1..] == s[i + 1..];
      if j + 1 < |q| {
        OutputPrefix(s, i + 1, rule, q, j + 1);
      }
    }
  }

  /**
   * After a harmless replacement, `q` occurs nowhere in the output, provided
   * that every occurrence of `q` from `i` on in the input was itself a match.
   */
  lemma {:induction false} ReplaceAvoids(s: string, i: nat, rule: Rule, q: string)
    requires i <= |s| && |q| > 0 && Harmless(rule, q)
    requires forall k :: i <= k <= |s| && StartsWithCI(s[k..], q) ==> Hit(s, k, rule.pattern, rule.whole)
    ensures Absent(ReplaceFrom(s, i, rule.pattern, rule.replacement, rule.whole), q)
    decreases |s| - i
  {
    var p, r, whole := rule.pattern, rule.replacement, rule.whole;
    var out := ReplaceFrom(s, i, p, r, whole);
    if i == |s| {
      assert out == [];
    } else if Hit(s, i, p, whole) {
      var rest := ReplaceFrom(s, i + |p|, p, r, whole);
      assert out == r + rest;
      ReplaceAvoids(s, i + |p|, rule, q);
      forall k | 0 <= k <= |out| ensures !StartsWithCI(out[k..], q) {
        if k < |r| {
          assert out[k..] == r[k..] + rest;
          if StartsWithCI(out[k..], q) {
            StartsAgree(out[k..], q);
            AgreeConcat(r[k..], rest, q);
          }
        } else {
          assert out[k..] == rest[k - |r|..];
        }
      }
    } else {
      var rest := ReplaceFrom(s, i + 1, p, r, whole);
      assert out == [s[i]] + rest;
      ReplaceAvoids(s, i + 1, rule, q);
      forall k | 0 <= k <= |out| ensures !StartsWithCI(out[k..], q) {
        if k == 0 {
          if StartsWithCI(out[k..], q) {
            assert q[0..] == q;
            OutputPrefix(s, i, rule, q, 0);
          }
        } else {
          assert out[k..] == rest[k - 1..];
        }
      }
    }
  }

  /** Equal up to ASCII case, position by position. */
  predicate SameFold(a: string, b: string) {
    |a| == |b| && forall n :: 0 <= n < |a| ==> LowerChar(a[n]) == LowerChar(b[n])
  }

  lemma {:induction false} SameFoldStarts(a: string, b: string, q: string)
    requires SameFold(a, b) && StartsWithCI(a, q)
    ensures StartsWithCI(b, q)
  {
    if |q| > 0 {
      assert SameFold(a[1..], b[1..]) by {
        forall n | 0 <= n < |a| - 1 ensures LowerChar(a[1..][n]) == LowerChar(b[1..][n]) {
          assert a[1..][n] == a[n + 1];
        }
      }
      SameFoldStarts(a[1..], b[1..], q[1..]);
    }
  }

  /** A case-only replacement changes no character beyond its case. */
  lemma {:induction false} CaseOnlyFolds(s: string, i: nat, rule: Rule)
    requires i <= |s| && CaseOnly(rule)
    ensures SameFold(ReplaceFrom(s, i, rule.pattern, rule.replacement, rule.whole), s[i..])
    decreases |s| - i
  {
    var p, r, whole := rule.pattern, rule.replacement, rule.whole;
    var out := ReplaceFrom(s, i, p, r, whole);
    if i < |s| {
      if Hit(s, i, p, whole) {
        var rest := ReplaceFrom(s, i + |p|, p, r, whole);
        CaseOnlyFolds(s, i + |p|, rule);
        assert out == r + rest;
        forall n | 0 <= n < |out| ensures LowerChar(out[n]) == LowerChar(s[i..][n]) {
          if n < |r| {
            StartsAt(r, p, n);
            StartsAt(s[i..], p, n);
          } else {
            assert out[n] == rest[n - |r|];
            assert s[i..][n] == s[i + |p|..][n - |r|];
          }
        }
      } else {
        var rest := ReplaceFrom(s, i + 1, p, r, whole);
        CaseOnlyFolds(s, i + 1, rule);
        assert out == [s[i]] + rest;
        forall n | 0 <= n < |out| ensures LowerChar(out[n]) == LowerChar(s[i..][n]) {
          if n > 0 {
            assert out[n] == rest[n - 1];
            assert s[i..][n] == s[i + 1..][n - 1];
          }
        }
      }
    }
  }

  /** A rule that keeps `q` out of a text that does not contain it. */
  predicate Keeps(rule: Rule, q: string) {
    Harmless(rule, q) || CaseOnly(rule)
  }

  lemma KeepsAbsent(s: string, rule: Rule, q: string)
    requires |q| > 0 && Keeps(rule, q) && Absent(s, q)
    ensures Absent(Apply(rule, s), q)
  {
    if Harmless(rule, q) {
      ReplaceAvoids(s, 0, rule, q);
    } else {
      var out := Apply(rule, s);
      CaseOnlyFolds(s, 0, rule);
      assert s[0..] == s;
      forall k | 0 <= k <= |out| ensures !StartsWithCI(out[k..], q) {
        if StartsWithCI(out[k..], q) {
          assert SameFold(out[k..], s[k..]) by {
            forall n | 0 <= n < |out| - k ensures LowerChar(out[k..][n]) == LowerChar(s[k..][n]) {
              assert out[k..][n] == out[k + n];
            }
          }
          SameFoldStarts(out[k..], s[k..], q);
        }
      }
    }
  }

  // ---------------------------------------------------------------------
  // The chain (server.js lines 63-84, in this order)
  // ---------------------------------------------------------------------

  const Lexicon: seq<Rule> := [
    Rule("Allah", "Alloh", true),                             // line 63
    Rule("Alloh", "Alloh", true),                             // line 64
    Rule("Rasulullah", "Rasululloh", true),                   // line 65
    Rule("SWT", "Subhanahu wa Ta'ala", true),                 // line 66
    Rule("SAW", "Shallallahu alaihi wa sallam", true),        // line 67
    Rule("Al-Maidah", "almaidah", false),                     // line 68
    Rule("Al Maidah", "almaidah", false),                     // line 69
    Rule("Almaidah", "almaidah", false),                      // line 70
    Rule("Al-Fatihah", "alfatihah", false),                   // line 71
    Rule("Al-Anfal", "alanfal", false),                       // line 72
    Rule("Al-Quran", "alquran", false),                       // line 73
    Rule("Assalamualaikum", "Assalamu alaikum", false),       // line 74
    Rule("Wassalamualaikum", "Wassalamu alaikum", false),     // line 75
    Rule("Warahmatullahi", "Warohmatullohi", false),          // line 76
    Rule("Wabarakatuh", "Wabarokatuh", false),                // line 77
    Rule("Sholat", "Sholat", false),                          // line 78
    Rule("Salat", "Sholat", false),                           // line 79
    Rule("Dzuhur", "Zuhur", false),                           // line 80
    Rule("Ashar", "Asar", false),                             // line 81
    Rule("Maghrib", "Magrib", false),                         // line 82
    Rule("Isya", "Isya", false),                              // line 83
    Rule("Subuh", "Subuh", false)                             // line 84
  ]

  /** The table has the 22 lines of the chain, and exactly the first five carry `\b`. */
  lemma LexiconTable()
    ensures |Lexicon| == 22
    ensures forall n :: 0 <= n < |Lexicon| ==> (Lexicon[n].whole <==> n < 5)
  {
  }

  /** Each rule runs on the output of the previous one. */
  function ApplyAll(rules: seq<Rule>, s: string): string
    decreases |rules|
  {
    if rules == [] then s else ApplyAll(rules[1..], Apply(rules[0], s))
  }

  function Normalize(text: string): string {
    ApplyAll(Lexicon, text)
  }

  /** The text after the first `k` rules. */
  function Stage(text: string, k: nat): string
    requires k <= |Lexicon|
  {
    ApplyAll(Lexicon[..k], text)
  }

  lemma {:induction false} ApplyAllSnoc(rules: seq<Rule>, rule: Rule, s: string)
    ensures ApplyAll(rules + [rule], s) == Apply(rule, ApplyAll(rules, s))
    decreases |rules|
  {
    if rules != [] {
      assert (rules + [rule])[1..] == rules[1..] + [rule];
      ApplyAllSnoc(rules[1..], rule, Apply(rules[0], s));
    }
  }

  lemma {:induction false} ApplyAllSplit(a: seq<Rule>, b: seq<Rule>, s: string)
    ensures ApplyAll(a + b, s) == ApplyAll(b, ApplyAll(a, s))
    decreases |a|
  {
    if a != [] {
      assert (a + b)[1..] == a[1..] + b;
      ApplyAllSplit(a[1..], b, Apply(a[0], s));
    } else {
      assert a + b == b;
    }
  }

  lemma StageNext(text: string, k: nat)
    requires k < |Lexicon|
    ensures Stage(text, k + 1) == Apply(Lexicon[k], Stage(text, k))
  {
    assert Lexicon[..k + 1] == Lexicon[..k] + [Lexicon[k]];
    ApplyAllSnoc(Lexicon[..k], Lexicon[k], text);
  }

  lemma StageAll(text: string)
    ensures Stage(text, |Lexicon|) == Normalize(text)
  {
    assert Lexicon[..|Lexicon|] == Lexicon;
  }

  /** Applying rules that each keep `q` out keeps `q` out. */
  lemma {:induction false} ApplyAllKeeps(rules: seq<Rule>, s: string, q: string)
    requires |q| > 0 && Absent(s, q)
    requires forall n :: 0 <= n < |rules| ==> Keeps(rules[n], q)
    ensures Absent(ApplyAll(rules, s), q)
    decreases |rules|
  {
    if rules != [] {
      KeepsAbsent(s, rules[0], q);
      ApplyAllKeeps(rules[1..], Apply(rules[0], s), q);
    }
  }

  // ---------------------------------------------------------------------
  // Rules that cannot match
  // ---------------------------------------------------------------------

  /** No character of `s` is `c`, in either case. */
  predicate Lacks(s: string, c: char) {
    forall m :: 0 <= m < |s| ==> LowerChar(s[m]) != LowerChar(c)
  }

  /** A rule whose pattern has a character the text lacks finds no match and changes nothing. */
  lemma MissingKeeps(rule: Rule, s: string, j: nat)
    requires j < |rule.pattern| && Lacks(s, rule.pattern[j])
    ensures forall k :: 0 <= k <= |s| ==> !Hit(s, k, rule.pattern, rule.whole)
    ensures Apply(rule, s) == s
  {
    var p := rule.pattern;
    forall k | 0 <= k <= |s| ensures !Hit(s, k, p, rule.whole) {
      if j < |s| - k {
        MissAt(s[k..], p, j);
      }
    }
    ReplaceNoHit(s, 0, p, rule.replacement, rule.whole);
  }

  /**
   * Each rule `n` from `a` to `b - 1` has a character at position `js[n]`
   * of its pattern whose lower case is in `cs`.
   */
  predicate NeedsOneOf(a: nat, b: nat, js: seq<nat>, cs: string)
    requires a <= b <= |Lexicon| && |js| == |Lexicon|
  {
    forall n :: a <= n < b ==>
      js[n] < |Lexicon[n].pattern| && LowerChar(Lexicon[n].pattern[js[n]]) in cs
  }

  /** Stages `a` to `b` leave a text alone that lacks every letter of `cs`. */
  lemma {:induction false} StagesKeep(text: string, a: nat, b: nat, js: seq<nat>, s: string, cs: string)
    requires a <= b <= |Lexicon| && |js| == |Lexicon| && NeedsOneOf(a, b, js, cs)
    requires Stage(text, a) == s && forall n :: 0 <= n < |cs| ==> Lacks(s, cs[n])
    ensures Stage(text, b) == s
    decreases b - a
  {
    if a < b {
      var p, j := Lexicon[a].pattern, js[a];
      var i :| 0 <= i < |cs| && cs[i] == LowerChar(p[j]);
      assert Lacks(s, cs[i]);
      MissingKeeps(Lexicon[a], s, j);
      StageNext(text, a);
      StagesKeep(text, a + 1, b, js, s, cs);
    }
  }
}
