/**
 * The text rewriting that turns a calculator-style expression into a numpy
 * expression (GraphCanvas.prepare_expression in calculator/graphing.py). Each
 * `re.sub` is a left-to-right scan over the text that replaces
 * non-overlapping matches; text is ASCII.
 */
module Expression {
  import opened Text

  function ToLower(c: char): char {
    if IsUpper(c) then (c as int + 32) as char else c
  }

  /** `str.lower()` on ASCII text. */
  function Lower(s: string): (r: string)
    ensures |r| == |s|
    ensures forall k :: 0 <= k < |s| ==> r[k] == ToLower(s[k])
  {
    if s == [] then [] else [ToLower(s[0])] + Lower(s[1..])
  }

  /**
   * Whether the literal `pat` occurs at index `i` of `s`; with `wordEnd` (a
   * trailing `\b` after a pattern ending in a word character), the next
   * character must also be a non-word character or the end of the text.
   */
  predicate MatchesAt(s: string, i: nat, pat: string, wordEnd: bool) {
    && i + |pat| <= |s|
    && s[i..i + |pat|] == pat
    && (wordEnd ==> i + |pat| == |s| || !IsWordChar(s[i + |pat|]))
  }

  /** No occurrence of the pattern anywhere in `s`. */
  predicate NoMatch(s: string, pat: string, wordEnd: bool) {
    forall i :: 0 <= i < |s| ==> !MatchesAt(s, i, pat, wordEnd)
  }

  /** `re.sub(pat, rep, s)` for a literal pattern, optionally followed by `\b`; also `s.replace(pat, rep)`. */
  function Sub(s: string, pat: string, rep: string, wordEnd: bool): (r: string)
    requires pat != []
    ensures |pat| <= |rep| ==> |s| <= |r|
    ensures |pat| == |rep| ==> |r| == |s|
    decreases |s|
  {
    if s == [] then []
    else if MatchesAt(s, 0, pat, wordEnd) then rep + Sub(s[|pat|..], pat, rep, wordEnd)
    else [s[0]] + Sub(s[1..], pat, rep, wordEnd)
  }

  /** One `re.sub` step of the chain. */
  datatype Rule = Rule(pat: string, rep: string, wordEnd: bool)

  /** The substitutions of prepare_expression that come before implicit multiplication, in order. */
  const Rules: seq<Rule> := [Rule("^", "**", false)] + FunctionRules

  /** Every rule after the power rule. */
  const FunctionRules: seq<Rule> := [
    Rule("sin(", "np.sin(", false),
    Rule("cos(", "np.cos(", false),
    Rule("tan(", "np.tan(", false),
    Rule("log(", "np.log10(", false),
    Rule("ln(", "np.log(", false),
    Rule("sqrt(", "np.sqrt(", false),
    Rule("abs(", "np.abs(", false),
    Rule("pi", "np.pi", true),
    Rule("e", "np.e", true)
  ]

  predicate WellFormed(rules: seq<Rule>) {
    forall r :: r in rules ==> r.pat != []
  }

  /** Applies the rules one after another, each to the whole output of the previous one. */
  function ApplyRules(s: string, rules: seq<Rule>): string
    requires WellFormed(rules)
    decreases |rules|
  {
    if rules == [] then s else ApplyRules(Sub(s, rules[0].pat, rules[0].rep, rules[0].wordEnd), rules[1..])
  }

  /** The end of the run of digits that starts at index `i`. */
  function DigitRunEnd(s: string, i: nat): (j: nat)
    requires i <= |s|
    ensures i <= j <= |s|
    ensures forall k :: i <= k < j ==> IsDigit(s[k])
    ensures j < |s| ==> !IsDigit(s[j])
    decreases |s| - i
  {
    if i < |s| && IsDigit(s[i]) then DigitRunEnd(s, i + 1) else i
  }

  /**
   * `re.sub(r'(\d+)([a-zA-Z])', r'\1*\2', s)`: at each position, a maximal run
   * of digits followed by a letter is copied with `*` before the letter; the
   * scan resumes after the letter.
   */
  function InsertProducts(s: string): (r: string)
    ensures |s| <= |r|
    decreases |s|
  {
    if s == [] then []
    else
      var j := DigitRunEnd(s, 0);
      if 0 < j < |s| && IsLetter(s[j]) then s[..j] + "*" + [s[j]] + InsertProducts(s[j + 1..])
      else [s[0]] + InsertProducts(s[1..])
  }

  /** `prepare_expression(expr)`. */
  function PrepareExpression(expr: string): (r: string)
    ensures XWrapped(r) && NoDigitLetter(r)
  {
    assert WellFormed(Rules);
    var products := InsertProducts(ApplyRules(Lower(expr), Rules));
    InsertProductsSeparates(ApplyRules(Lower(expr), Rules));
    WrapXKeepsSeparation(products);
    WrapX(products)
  }

  // ---------- properties of the steps ----------

  /** Every `x` sits between `(` and `)`. */
  predicate XWrapped(s: string) {
    forall k :: 0 <= k < |s| && s[k] == 'x' ==> 0 < k < |s| - 1 && s[k - 1] == '(' && s[k + 1] == ')'
  }

  /** No digit is immediately followed by a letter. */
  predicate NoDigitLetter(s: string) {
    forall k :: 0 <= k < |s| - 1 ==> !(IsDigit(s[k]) && IsLetter(s[k + 1]))
  }

  predicate NoUpper(s: string) {
    forall k :: 0 <= k < |s| ==> !IsUpper(s[k])
  }

  /** Lowering maps `X` to `x` and leaves every other character except upper-case letters alone. */
  lemma {:induction false} LowerCount(s: string)
    ensures |Lower(s)| == |s|
    ensures Count('x', Lower(s)) == Count('x', s) + Count('X', s)
    ensures forall c :: IsUpper(c) ==> Count(c, Lower(s)) == 0
  {
    if s != [] {
      LowerCount(s[1..]);
      assert Lower(s)[1..] == Lower(s[1..]);
    }
  }

  /** Text without upper-case letters is its own lower-case form. */
  lemma {:induction false} LowerUnchanged(s: string)
    requires NoUpper(s)
    ensures Lower(s) == s
  {
    if s != [] {
      LowerUnchanged(s[1..]);
    }
  }

  /** A substitution keeps the count of `c` when pattern and replacement hold `c` equally often. */
  lemma {:induction false} SubCount(c: char, s: string, pat: string, rep: string, wordEnd: bool)
    requires pat != []
    requires Count(c, pat) == Count(c, rep)
    ensures Count(c, Sub(s, pat, rep, wordEnd)) == Count(c, s)
    decreases |s|
  {
    if s == [] {
    } else if MatchesAt(s, 0, pat, wordEnd) {
      SubCount(c, s[|pat|..], pat, rep, wordEnd);
      assert s == pat + s[|pat|..];
      CountConcat(c, pat, s[|pat|..]);
      CountConcat(c, rep, Sub(s[|pat|..], pat, rep, wordEnd));
    } else {
      SubCount(c, s[1..], pat, rep, wordEnd);
      CountConcat(c, [s[0]], Sub(s[1..], pat, rep, wordEnd));
    }
  }

  /** Replacing the one-character pattern `c` by text without `c` leaves no `c`. */
  lemma {:induction false} SubRemoves(c: char, s: string, rep: string)
    requires c !in rep
    ensures Count(c, Sub(s, [c], rep, false)) == 0
    decreases |s|
  {
    if s != [] {
      SubRemoves(c, s[1..], rep);
      var rest := Sub(s[1..], [c], rep, false);
      if s[0] == c {
        assert MatchesAt(s, 0, [c], false);
        CountPositive(c, rep);
        CountConcat(c, rep, rest);
      } else {
        assert !MatchesAt(s, 0, [c], false);
        CountConcat(c, [s[0]], rest);
      }
    }
  }

  /** A substitution whose pattern never occurs changes nothing. */
  lemma {:induction false} SubUnchanged(s: string, pat: string, rep: string, wordEnd: bool)
    requires pat != []
    requires NoMatch(s, pat, wordEnd)
    ensures Sub(s, pat, rep, wordEnd) == s
    decreases |s|
  {
    if s != [] {
      assert !MatchesAt(s, 0, pat, wordEnd);
      forall i | 0 <= i < |s[1..]| ensures !MatchesAt(s[1..], i, pat, wordEnd) {
        assert !MatchesAt(s, i + 1, pat, wordEnd);
        if i + |pat| <= |s[1..]| {
          assert s[1..][i..i + |pat|] == s[i + 1..i + 1 + |pat|];
        }
      }
      SubUnchanged(s[1..], pat, rep, wordEnd);
    }
  }

  /** The rules keep the count of any character that none of their patterns and replacements holds. */
  lemma {:induction false} ApplyRulesCount(c: char, s: string, rules: seq<Rule>)
    requires WellFormed(rules)
    requires forall r :: r in rules ==> c !in r.pat && c !in r.rep
    ensures Count(c, ApplyRules(s, rules)) == Count(c, s)
    decreases |rules|
  {
    if rules != [] {
      var r := rules[0];
      assert r in rules;
      CountPositive(c, r.pat);
      CountPositive(c, r.rep);
      SubCount(c, s, r.pat, r.rep, r.wordEnd);
      assert forall q :: q in rules[1..] ==> q in rules;
      ApplyRulesCount(c, Sub(s, r.pat, r.rep, r.wordEnd), rules[1..]);
    }
  }

  /** Text in which no rule's pattern occurs passes through the rules unchanged. */
  lemma {:induction false} ApplyRulesUnchanged(s: string, rules: seq<Rule>)
    requires WellFormed(rules)
    requires forall r :: r in rules ==> NoMatch(s, r.pat, r.wordEnd)
    ensures ApplyRules(s, rules) == s
    decreases |rules|
  {
    if rules != [] {
      assert rules[0] in rules;
      SubUnchanged(s, rules[0].pat, rules[0].rep, rules[0].wordEnd);
      assert forall q :: q in rules[1..] ==> q in rules;
      ApplyRulesUnchanged(s, rules[1..]);
    }
  }

  /** The output of implicit multiplication starts with the same character as its input. */
  lemma InsertProductsHead(s: string)
    requires s != []
    ensures InsertProducts(s) != [] && InsertProducts(s)[0] == s[0]
  {
  }

  lemma NoDigitLetterConcat(a: string, b: string)
    requires NoDigitLetter(a) && NoDigitLetter(b)
    requires a != [] && b != [] ==> !(IsDigit(a[|a| - 1]) && IsLetter(b[0]))
    ensures NoDigitLetter(a + b)
  {
    var s := a + b;
    forall k | 0 <= k < |s| - 1 ensures !(IsDigit(s[k]) && IsLetter(s[k + 1])) {
      if k < |a| - 1 {
        assert s[k] == a[k] && s[k + 1] == a[k + 1];
      } else if k >= |a| {
        assert s[k] == b[k - |a|] && s[k + 1] == b[k - |a| + 1];
      }
    }
  }

  /** After implicit multiplication no digit is directly followed by a letter. */
  lemma {:induction false} InsertProductsSeparates(s: string)
    ensures NoDigitLetter(InsertProducts(s))
    decreases |s|
  {
    if s != [] {
      var j := DigitRunEnd(s, 0);
      if 0 < j < |s| && IsLetter(s[j]) {
        InsertProductsSeparates(s[j + 1..]);
        var rest := InsertProducts(s[j + 1..]);
        var head := s[..j] + "*";
        assert NoDigitLetter(head) by {
          forall k | 0 <= k < |head| - 1 ensures !(IsDigit(head[k]) && IsLetter(head[k + 1])) {
            if k + 1 < j { assert IsDigit(head[k + 1]); }
          }
        }
        NoDigitLetterConcat(head, [s[j]]);
        NoDigitLetterConcat(head + [s[j]], rest);
        assert InsertProducts(s) == head + [s[j]] + rest;
      } else {
        InsertProductsSeparates(s[1..]);
        var rest := InsertProducts(s[1..]);
        if rest != [] && IsDigit(s[0]) {
          InsertProductsHead(s[1..]);
          if j == 1 {
            assert !IsLetter(s[1]);
          } else {
            assert IsDigit(s[1]);
          }
        }
        NoDigitLetterConcat([s[0]], rest);
      }
    }
  }

  /** Implicit multiplication only inserts `*`: every other character keeps its count. */
  lemma {:induction false} InsertProductsCount(c: char, s: string)
    requires c != '*'
    ensures Count(c, InsertProducts(s)) == Count(c, s)
    decreases |s|
  {
    if s != [] {
      var j := DigitRunEnd(s, 0);
      if 0 < j < |s| && IsLetter(s[j]) {
        InsertProductsCount(c, s[j + 1..]);
        var rest := InsertProducts(s[j + 1..]);
        CountConcat(c, s[..j] + "*" + [s[j]], rest);
        CountConcat(c, s[..j] + "*", [s[j]]);
        CountConcat(c, s[..j], "*");
        assert s == s[..j] + [s[j]] + s[j + 1..];
        CountConcat(c, s[..j] + [s[j]], s[j + 1..]);
        CountConcat(c, s[..j], [s[j]]);
      } else {
        InsertProductsCount(c, s[1..]);
        CountConcat(c, [s[0]], InsertProducts(s[1..]));
      }
    }
  }

  /** Every digit-letter pair gets its `*`, including later pairs in a chain such as `2x3y`. */
  lemma ChainedImplicitProducts()
    ensures InsertProducts("2x3y") == "2*x3*y"
  {
  }

  /** Text with no digit followed by a letter passes through implicit multiplication unchanged. */
  lemma {:induction false} InsertProductsUnchanged(s: string)
    requires NoDigitLetter(s)
    ensures InsertProducts(s) == s
    decreases |s|
  {
    if s != [] {
      var j := DigitRunEnd(s, 0);
      if 0 < j < |s| {
        assert IsDigit(s[j - 1]) && !IsLetter(s[j]);
      }
      var rest := s[1..];
      assert NoDigitLetter(rest) by {
        forall k | 0 <= k < |rest| - 1 ensures !(IsDigit(rest[k]) && IsLetter(rest[k + 1])) {
          assert rest[k] == s[k + 1] && rest[k + 1] == s[k + 2];
        }
      }
      InsertProductsUnchanged(rest);
      assert InsertProducts(s) == [s[0]] + rest;
      assert [s[0]] + rest == s;
    }
  }

  lemma XWrappedConcat(a: string, b: string)
    requires XWrapped(a) && XWrapped(b)
    ensures XWrapped(a + b)
  {
    var s := a + b;
    forall k | 0 <= k < |s| && s[k] == 'x' ensures 0 < k < |s| - 1 && s[k - 1] == '(' && s[k + 1] == ')' {
      if k < |a| {
        assert a[k] == 'x';
      } else {
        assert b[k - |a|] == 'x';
      }
    }
  }

  /** `replace('x', '(x)')` leaves every `x` wrapped in parentheses. */
  lemma {:induction false} WrapXWraps(s: string)
    ensures XWrapped(Sub(s, "x", "(x)", false))
    decreases |s|
  {
    if s != [] {
      WrapXWraps(s[1..]);
      var rest := Sub(s[1..], "x", "(x)", false);
      if s[0] == 'x' {
        assert MatchesAt(s, 0, "x", false);
        XWrappedConcat("(x)", rest);
      } else {
        assert !MatchesAt(s, 0, "x", false);
        XWrappedConcat([s[0]], rest);
      }
    }
  }

  /** The output of a substitution starts with the replacement or with the input's first character. */
  lemma SubHead(s: string, pat: string, rep: string, wordEnd: bool)
    requires pat != [] && rep != [] && s != []
    ensures var out := Sub(s, pat, rep, wordEnd);
      out != [] && out[0] == (if MatchesAt(s, 0, pat, wordEnd) then rep[0] else s[0])
  {
  }

  /** Wrapping `x` does not put a letter directly after a digit. */
  lemma {:induction false} WrapXKeepsSeparation(s: string)
    requires NoDigitLetter(s)
    ensures NoDigitLetter(Sub(s, "x", "(x)", false))
    decreases |s|
  {
    if s != [] {
      assert NoDigitLetter(s[1..]) by {
        forall k | 0 <= k < |s[1..]| - 1 ensures !(IsDigit(s[1..][k]) && IsLetter(s[1..][k + 1])) {
          assert s[1..][k] == s[k + 1] && s[1..][k + 1] == s[k + 2];
        }
      }
      WrapXKeepsSeparation(s[1..]);
      var rest := Sub(s[1..], "x", "(x)", false);
      if s[0] == 'x' {
        assert MatchesAt(s, 0, "x", false);
        NoDigitLetterConcat("(x)", rest);
      } else {
        assert !MatchesAt(s, 0, "x", false);
        if rest != [] {
          SubHead(s[1..], "x", "(x)", false);
          if s[1] != 'x' { assert !(IsDigit(s[0]) && IsLetter(s[1])); }
        }
        NoDigitLetterConcat([s[0]], rest);
      }
    }
  }

  // ---------- properties of prepare_expression ----------

  /** The stages of prepare_expression: lower-case, the rule chain, implicit multiplication, wrapping `x`. */
  lemma PrepareStages(expr: string)
    ensures WellFormed(Rules)
    ensures PrepareExpression(expr) == WrapX(InsertProducts(ApplyRules(Lower(expr), Rules)))
  {
  }

  /** `replace('x', '(x)')`. */
  function WrapX(s: string): (r: string)
    ensures XWrapped(r)
    ensures |s| <= |r|
  {
    WrapXWraps(s);
    Sub(s, "x", "(x)", false)
  }

  /** No rule mentions `x` or an upper-case letter. */
  lemma RulesAvoid(c: char)
    requires IsUpper(c) || c == 'x'
    ensures forall r :: r in Rules ==> c !in r.pat && c !in r.rep
  {
    forall i | 0 <= i < |FunctionRules|
      ensures c !in FunctionRules[i].pat && c !in FunctionRules[i].rep
    {
    }
    assert Rules == [Rule("^", "**", false)] + FunctionRules;
  }

  /** Only the first rule mentions `^`: it replaces `^` by `**`. */
  lemma RulesCaret()
    ensures Rules[0] == Rule("^", "**", false) && Rules[1..] == FunctionRules
    ensures forall r :: r in FunctionRules ==> '^' !in r.pat && '^' !in r.rep
  {
    assert Rules[1..] == FunctionRules;
  }

  /** Text without `x` has nothing to wrap. */
  lemma WrapXUnchanged(s: string)
    requires 'x' !in s
    ensures WrapX(s) == s
  {
    forall i | 0 <= i < |s| ensures !MatchesAt(s, i, "x", false) {
      assert s[i] != 'x';
      assert i + 1 <= |s| ==> s[i..i + 1] == [s[i]];
    }
    SubUnchanged(s, "x", "(x)", false);
  }

  /** Wrapping `x` keeps the count of every character other than the parentheses. */
  lemma WrapXCount(c: char, s: string)
    requires c != '(' && c != ')'
    ensures Count(c, WrapX(s)) == Count(c, s)
  {
    CountPositive(c, "x");
    CountPositive(c, "(x)");
    if c == 'x' {
      assert Count(c, "x") == 1 && Count(c, "(x)") == 1;
    }
    SubCount(c, s, "x", "(x)", false);
  }

  /** The rule chain and implicit multiplication keep the count of any character none of them inserts or removes. */
  lemma MiddleCount(c: char, s: string)
    requires c != '*'
    requires forall r :: r in Rules ==> c !in r.pat && c !in r.rep
    ensures WellFormed(Rules)
    ensures Count(c, InsertProducts(ApplyRules(s, Rules))) == Count(c, s)
  {
    assert WellFormed(Rules);
    ApplyRulesCount(c, s, Rules);
    InsertProductsCount(c, ApplyRules(s, Rules));
  }

  /** The output of prepare_expression holds no `^`: every power sign became `**`. */
  lemma PrepareHasNoCaret(expr: string)
    ensures '^' !in PrepareExpression(expr)
  {
    PrepareStages(expr);
    var s0 := Lower(expr);
    var s1 := Sub(s0, "^", "**", false);
    SubRemoves('^', s0, "**");
    RulesCaret();
    assert forall q :: q in FunctionRules ==> q in Rules;
    assert ApplyRules(s0, Rules) == ApplyRules(s1, FunctionRules);
    ApplyRulesCount('^', s1, FunctionRules);
    var s2 := ApplyRules(s1, FunctionRules);
    InsertProductsCount('^', s2);
    WrapXCount('^', InsertProducts(s2));
    CountPositive('^', PrepareExpression(expr));
  }

  /** The output of prepare_expression holds no upper-case letter. */
  lemma PrepareHasNoUpper(expr: string)
    ensures NoUpper(PrepareExpression(expr))
  {
    PrepareStages(expr);
    var s0 := Lower(expr);
    var s2 := InsertProducts(ApplyRules(s0, Rules));
    var out := WrapX(s2);
    LowerCount(expr);
    forall k | 0 <= k < |out| ensures !IsUpper(out[k]) {
      var c := out[k];
      if IsUpper(c) {
        RulesAvoid(c);
        MiddleCount(c, s0);
        WrapXCount(c, s2);
        CountPositive(c, out);
        assert false;
      }
    }
  }

  /**
   * Every `x` of the output is written `(x)`, and there are as many as the
   * input had `x` and `X`.
   */
  lemma PrepareWrapsX(expr: string)
    ensures XWrapped(PrepareExpression(expr))
    ensures Count('x', PrepareExpression(expr)) == Count('x', expr) + Count('X', expr)
  {
    PrepareStages(expr);
    var s0 := Lower(expr);
    LowerCount(expr);
    RulesAvoid('x');
    MiddleCount('x', s0);
    var s2 := InsertProducts(ApplyRules(s0, Rules));
    WrapXCount('x', s2);
    WrapXWraps(s2);
  }

  /**
   * Text that is already lower-case and has none of the rewritten forms (`^`,
   * a function name with its parenthesis, `pi` or `e` at a word end, a digit
   * before a letter, `x`) is returned unchanged.
   */
  lemma PrepareUnchanged(expr: string)
    requires NoUpper(expr)
    requires forall r :: r in Rules ==> NoMatch(expr, r.pat, r.wordEnd)
    requires NoDigitLetter(expr)
    requires 'x' !in expr
    ensures PrepareExpression(expr) == expr
  {
    PrepareStages(expr);
    LowerUnchanged(expr);
    ApplyRulesUnchanged(expr, Rules);
    InsertProductsUnchanged(expr);
    WrapXUnchanged(expr);
  }
}
