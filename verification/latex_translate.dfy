/** The string-rewrite pass of `latex_to_python`: the LaTeX parser's output,
    printed as text, is turned into a call string over the `lib` namespace by
    an ordered sequence of Python `str.replace` calls. The parser and the
    printer are parameters of the model. */
module LatexTranslate {
  import opened Wrappers
  import opened Strings

  /** A text to search for; never empty. */
  type Pattern = s: string | |s| > 0 witness "?"

  /** One `str.replace(pattern, replacement)` step. */
  datatype Rule = Rule(pattern: Pattern, replacement: string)

  /** The outcome of `latex_to_python`: the call string with the parsed
      expression, or the `(None, message)` pair of a failed parse. */
  datatype Translation<E> = Translated(code: string, expr: E) | Invalid(message: string)

  // The five names whose LaTeX command and library function coincide, each
  // prefixed with the `lib.` namespace, in the order they are rewritten.
  const SinRule := Rule("sin", "lib.sin")
  const CosRule := Rule("cos", "lib.cos")
  const TanRule := Rule("tan", "lib.tan")
  const ExpRule := Rule("exp", "lib.exp")
  const SqrtRule := Rule("sqrt", "lib.sqrt")

  // The renaming table, in its insertion order.
  const LnRule := Rule("ln", "lib.log")
  const Log10Rule := Rule("log(", "lib.log10(")
  const ArcsinRule := Rule("arcsin", "lib.asin")
  const ArccosRule := Rule("arccos", "lib.acos")
  const ArctanRule := Rule("arctan", "lib.atan")
  const CscRule := Rule("csc", "reciprocal(sin)")
  const SecRule := Rule("sec", "reciprocal(cos)")
  const CotRule := Rule("cot", "reciprocal(tan)")

  /** The first loop of the generic branch: names kept as they are. */
  const DirectRules: seq<Rule> := [SinRule, CosRule, TanRule, ExpRule, SqrtRule]

  /** The second loop of the generic branch: the renaming table. */
  const RenameRules: seq<Rule> := [
    LnRule, Log10Rule, ArcsinRule, ArccosRule, ArctanRule, CscRule, SecRule, CotRule
  ]

  /** The rules of the generic branch, in the order they are applied. */
  const GenericRules: seq<Rule> := DirectRules + RenameRules

  const ErrorPrefix: string := "Invalid LaTeX: "

  /** The printed form of a natural logarithm of the variable `v`. */
  function NaturalLogCall(v: string): string {
    "log(" + v + ", E)"
  }

  /** The library call a natural logarithm of `v` becomes. */
  function NaturalLogTarget(v: string): string {
    "lib.log(" + v + ")"
  }

  /** The test that selects the natural-logarithm branch. */
  predicate IsNaturalLogForm(s: string) {
    Contains(s, "log") && Contains(s, ", E)")
  }

  /** Applies the rules one after another, each to the result of the last. */
  function ApplyRules(s: string, rules: seq<Rule>): string
    decreases |rules|
  {
    if |rules| == 0 then s
    else ApplyRules(ReplaceAll(s, rules[0].pattern, rules[0].replacement), rules[1..])
  }

  /** No rule's pattern occurs in `s`. */
  predicate NoneOccurs(s: string, rules: seq<Rule>) {
    forall j | 0 <= j < |rules| :: !Contains(s, rules[j].pattern)
  }

  /** A pass none of whose patterns occurs changes nothing. */
  lemma {:induction false} ApplyRulesNoHit(s: string, rules: seq<Rule>)
    ensures NoneOccurs(s, rules) ==> ApplyRules(s, rules) == s
    decreases |rules|
  {
    if |rules| > 0 && NoneOccurs(s, rules) {
      assert !Contains(s, rules[0].pattern);
      ApplyRulesNoHit(s, rules[1..]);
    }
  }

  /** A pass over `a + b` is a pass over `a` followed by a pass over `b`. */
  lemma {:induction false} ApplyRulesAppend(s: string, a: seq<Rule>, b: seq<Rule>)
    ensures ApplyRules(s, a + b) == ApplyRules(ApplyRules(s, a), b)
    decreases |a|
  {
    if |a| == 0 {
      assert a + b == b;
    } else {
      assert (a + b)[0] == a[0];
      assert (a + b)[1..] == a[1..] + b;
      ApplyRulesAppend(ReplaceAll(s, a[0].pattern, a[0].replacement), a[1..], b);
    }
  }

  /** A natural-logarithm call contains the text `log(`. */
  lemma LogCallHasLogParen(s: string, v: string)
    ensures Contains(s, NaturalLogCall(v)) ==> Contains(s, "log(")
  {
  }

  /** The rewrite applied to the printed expression `s` for variable `v`:
      the natural-logarithm branch replaces only `log(v, E)`; every other
      text goes through all generic rules in order. */
  function Rewrite(s: string, v: string): (r: string)
    ensures IsNaturalLogForm(s) && !Contains(s, NaturalLogCall(v)) ==> r == s
    ensures NoneOccurs(s, GenericRules) ==> r == s
  {
    if IsNaturalLogForm(s) then
      LogCallHasLogParen(s, v);
      assert GenericRules[6].pattern == "log(";
      ReplaceAll(s, NaturalLogCall(v), NaturalLogTarget(v))
    else
      ApplyRulesNoHit(s, GenericRules);
      ApplyRules(s, GenericRules)
  }

  /** `latex_to_python`: parse, print, rewrite. A parse failure yields the
      error message and no call string; otherwise the parsed expression is
      returned alongside the rewritten text of its printed form. */
  function LatexToPython<E>(latex: string, paramVar: string,
                            parse: string -> Result<E, string>, show: E -> string): (r: Translation<E>)
    ensures r.Invalid? <==> parse(latex).Failure?
    ensures r.Invalid? ==> r.message == ErrorPrefix + parse(latex).error
    ensures r.Translated? ==> r.expr == parse(latex).value
    ensures r.Translated? && NoneOccurs(show(r.expr), GenericRules) ==>
              r.code == show(r.expr)
    ensures r.Translated? && IsNaturalLogForm(show(r.expr)) && !Contains(show(r.expr), NaturalLogCall(paramVar)) ==>
              r.code == show(r.expr)
    ensures r.Translated? && IsNaturalLogForm(show(r.expr)) ==>
              r.code == ReplaceAll(show(r.expr), NaturalLogCall(paramVar), NaturalLogTarget(paramVar))
    ensures r.Translated? && !IsNaturalLogForm(show(r.expr)) ==>
              r.code == ApplyRules(ApplyRules(show(r.expr), DirectRules), RenameRules)
  {
    match parse(latex)
    case Failure(message) => Invalid(ErrorPrefix + message)
    case Success(expr) =>
      var printed := show(expr);
      if IsNaturalLogForm(printed) then Translated(Rewrite(printed, paramVar), expr)
      else
        GenericBranch(printed, paramVar);
        Translated(Rewrite(printed, paramVar), expr)
  }

  // Stepping through a pass one rule at a time.

  /** When none of the first `k` patterns occurs, the pass amounts to rule
      `k`, with result `t`, followed by the rules after it. */
  lemma {:induction false} ApplyRulesFirstHit(s: string, rules: seq<Rule>, k: nat, t: string)
    requires k < |rules|
    requires forall j | 0 <= j < k :: !Contains(s, rules[j].pattern)
    requires ReplaceAll(s, rules[k].pattern, rules[k].replacement) == t
    ensures ApplyRules(s, rules) == ApplyRules(t, rules[k + 1..])
    decreases k
  {
    if k > 0 {
      assert !Contains(s, rules[0].pattern);
      ApplyRulesFirstHit(s, rules[1..], k - 1, t);
      assert rules[1..][k..] == rules[k + 1..];
    }
  }

  /** In the natural-logarithm branch the only rule applied replaces the
      two-argument logarithm of the variable. */
  lemma NaturalLogBranch(s: string, v: string)
    requires IsNaturalLogForm(s)
    ensures Rewrite(s, v) == ReplaceAll(s, NaturalLogCall(v), NaturalLogTarget(v))
  {
  }

  /** Outside the natural-logarithm branch every generic rule is applied in
      order: the loop over the direct names, then the loop over the renaming
      table. */
  lemma GenericBranch(s: string, v: string)
    requires !IsNaturalLogForm(s)
    ensures Rewrite(s, v) == ApplyRules(s, GenericRules)
    ensures Rewrite(s, v) == ApplyRules(ApplyRules(s, DirectRules), RenameRules)
  {
    ApplyRulesAppend(s, DirectRules, RenameRules);
  }

  // The literal behaviour of the rewrite on printed expressions. Most example
  // lemmas take their literal as a parameter pinned by `requires s == "..."`
  // rather than writing it in the `ensures`: a literal argument would make
  // the verifier unfold the recursive scans on it exhaustively. For the same
  // reason the facts that a pattern does not occur are spread over small
  // helpers (`...Lacks`, `...Misses`), each proving a few of them.

  lemma NaturalLogFacts()
    ensures IsNaturalLogForm("log(x, E)")
    ensures NaturalLogCall("x") == "log(x, E)"
    ensures ReplaceAll("log(x, E)", "log(x, E)", "lib.log(x)") == "lib.log(x)"
  {
    var s := "log(x, E)";
    assert OccursAt(s, "log", 0);
    ContainsAt(s, "log", 0);
    assert OccursAt(s, ", E)", 5);
    ContainsAt(s, ", E)", 5);
    assert ReplaceAll("", s, "lib.log(x)") == "";
  }

  /** A natural logarithm of the variable becomes `lib.log`. */
  lemma NaturalLogExample()
    ensures Rewrite("log(x, E)", "x") == "lib.log(x)"
  {
    NaturalLogFacts();
    NaturalLogBranch("log(x, E)", "x");
  }

  lemma MixedIsNaturalLogForm(s: string)
    requires s == "sin(x) + log(x, E)"
    ensures IsNaturalLogForm(s)
  {
    assert OccursAt(s, "log", 9);
    ContainsAt(s, "log", 9);
    assert OccursAt(s, ", E)", 14);
    ContainsAt(s, ", E)", 14);
  }

  lemma MixedReplace(s: string, t: string)
    requires s == "sin(x) + log(x, E)" && t == "sin(x) + lib.log(x)"
    ensures ReplaceAll(s, NaturalLogCall("x"), NaturalLogTarget("x")) == t
  {
    var p := s[..9];
    var pat := s[9..];
    assert p == "sin(x) + ";
    assert pat == NaturalLogCall("x");
    assert s == p + (pat + "");
    ReplaceAllFreshPrefix(p, pat + "", pat, NaturalLogTarget("x"));
    ReplaceAllHead(pat, "", NaturalLogTarget("x"));
    assert t == p + NaturalLogTarget("x");
  }

  /** In the natural-logarithm branch no generic rule is applied: `sin`
      stays unqualified. */
  lemma NaturalLogSkipsGenericExample(s: string)
    requires s == "sin(x) + log(x, E)"
    ensures Rewrite(s, "x") == "sin(x) + lib.log(x)"
  {
    MixedIsNaturalLogForm(s);
    MixedReplace(s, "sin(x) + lib.log(x)");
    NaturalLogBranch(s, "x");
  }

  lemma LogParenLacks(s: string)
    requires s == "log(x)"
    ensures 's' !in s && 'c' !in s && 't' !in s && 'e' !in s && 'n' !in s && 'E' !in s
  {
  }

  lemma LogParenMisses(s: string)
    requires s == "log(x)"
    ensures forall j | 0 <= j < 6 :: !Contains(s, GenericRules[j].pattern)
  {
    LogParenLacks(s);
    MissingChar(s, SinRule.pattern, 's');
    MissingChar(s, CosRule.pattern, 'c');
    MissingChar(s, TanRule.pattern, 't');
    MissingChar(s, ExpRule.pattern, 'e');
    MissingChar(s, SqrtRule.pattern, 's');
    MissingChar(s, LnRule.pattern, 'n');
  }

  lemma LogParenStep(s: string, pat: string, rep: string)
    requires s == "log(x)" && pat == "log(" && rep == "lib.log10("
    ensures ReplaceAll(s, pat, rep) == "lib.log10(x)"
  {
    var q := s[4..];
    assert s == pat + q;
    ReplaceAllHead(pat, q, rep);
    MissingChar(q, pat, 'l');
  }

  lemma Log10Lacks(t: string)
    requires t == "lib.log10(x)"
    ensures 'a' !in t && 's' !in t && 'c' !in t
  {
  }

  lemma Log10Misses(t: string)
    requires t == "lib.log10(x)"
    ensures forall j | 7 <= j < |GenericRules| :: !Contains(t, GenericRules[j].pattern)
  {
    Log10Lacks(t);
    MissingChar(t, ArcsinRule.pattern, 'a');
    MissingChar(t, ArccosRule.pattern, 'a');
    MissingChar(t, ArctanRule.pattern, 'a');
    MissingChar(t, CscRule.pattern, 's');
    MissingChar(t, SecRule.pattern, 's');
    MissingChar(t, CotRule.pattern, 'c');
  }

  lemma Log10Pass(s: string, t: string)
    requires s == "log(x)" && t == "lib.log10(x)"
    ensures ApplyRules(s, GenericRules) == t
  {
    LogParenMisses(s);
    LogParenStep(s, GenericRules[6].pattern, GenericRules[6].replacement);
    ApplyRulesFirstHit(s, GenericRules, 6, t);
    Log10Misses(t);
    forall j | 0 <= j < |GenericRules[7..]| ensures !Contains(t, GenericRules[7..][j].pattern) {
      assert GenericRules[7..][j] == GenericRules[j + 7];
    }
    ApplyRulesNoHit(t, GenericRules[7..]);
  }

  /** A base-10 logarithm becomes `lib.log10`. */
  lemma Log10Example(s: string)
    requires s == "log(x)"
    ensures Rewrite(s, "x") == "lib.log10(x)"
  {
    LogParenLacks(s);
    MissingChar(s, ", E)", 'E');
    Log10Pass(s, "lib.log10(x)");
    GenericBranch(s, "x");
  }

  lemma ArcsinStep(s: string, pat: string, rep: string, t: string)
    requires s == "arcsin(x)" && pat == "sin" && rep == "lib.sin" && t == "arclib.sin(x)"
    ensures ReplaceAll(s, pat, rep) == t
  {
    var p := s[..3];
    var q := s[6..];
    assert s == p + (pat + q);
    ReplaceAllFreshPrefix(p, pat + q, pat, rep);
    ReplaceAllHead(pat, q, rep);
    MissingChar(q, pat, 's');
    assert t == p + (rep + q);
  }

  lemma ArclibLacks(t: string)
    requires t == "arclib.sin(x)"
    ensures 'o' !in t && 't' !in t && 'e' !in t && 'q' !in t
  {
  }

  lemma ArclibMissesNames(t: string)
    requires t == "arclib.sin(x)"
    ensures forall j | 1 <= j < 5 :: !Contains(t, GenericRules[j].pattern)
  {
    ArclibLacks(t);
    MissingChar(t, CosRule.pattern, 'o');
    MissingChar(t, TanRule.pattern, 't');
    MissingChar(t, ExpRule.pattern, 'e');
    MissingChar(t, SqrtRule.pattern, 'q');
  }

  /** The three patterns whose every character does occur in the text. */
  lemma ArclibMissesPairs(t: string, ln: string, arcsin: string, csc: string)
    requires t == "arclib.sin(x)" && ln == "ln" && arcsin == "arcsin" && csc == "csc"
    ensures !Contains(t, ln) && !Contains(t, arcsin) && !Contains(t, csc)
  {
    MissingPair(t, ln, 0);
    MissingPair(t, arcsin, 2);
    MissingPair(t, csc, 0);
  }

  lemma ArclibMissesLogs(t: string)
    requires t == "arclib.sin(x)"
    ensures forall j | 5 <= j < 9 :: !Contains(t, GenericRules[j].pattern)
  {
    ArclibLacks(t);
    ArclibMissesPairs(t, LnRule.pattern, ArcsinRule.pattern, CscRule.pattern);
    MissingChar(t, Log10Rule.pattern, 'o');
    MissingChar(t, ArccosRule.pattern, 'o');
  }

  lemma ArclibMissesTrig(t: string)
    requires t == "arclib.sin(x)"
    ensures forall j | 9 <= j < |GenericRules| :: !Contains(t, GenericRules[j].pattern)
  {
    ArclibLacks(t);
    ArclibMissesPairs(t, LnRule.pattern, ArcsinRule.pattern, CscRule.pattern);
    MissingChar(t, ArctanRule.pattern, 't');
    MissingChar(t, SecRule.pattern, 'e');
    MissingChar(t, CotRule.pattern, 'o');
  }

  lemma ArclibMisses(t: string)
    requires t == "arclib.sin(x)"
    ensures forall j | 0 <= j < |GenericRules[1..]| :: !Contains(t, GenericRules[1..][j].pattern)
  {
    ArclibMissesNames(t);
    ArclibMissesLogs(t);
    ArclibMissesTrig(t);
    forall j | 0 <= j < |GenericRules[1..]| ensures !Contains(t, GenericRules[1..][j].pattern) {
      assert GenericRules[1..][j] == GenericRules[j + 1];
    }
  }

  lemma ArcsinPass(s: string, t: string)
    requires s == "arcsin(x)" && t == "arclib.sin(x)"
    ensures ApplyRules(s, GenericRules) == t
  {
    ArcsinStep(s, GenericRules[0].pattern, GenericRules[0].replacement, t);
    ApplyRulesFirstHit(s, GenericRules, 0, t);
    ArclibMisses(t);
    ApplyRulesNoHit(t, GenericRules[1..]);
  }

  /** `arcsin` is caught by the earlier `sin` rule, so the inverse-sine rule
      never fires and the result names no library function. */
  lemma ArcsinExample(s: string)
    requires s == "arcsin(x)"
    ensures Rewrite(s, "x") == "arclib.sin(x)"
  {
    MissingChar(s, ", E)", 'E');
    ArcsinPass(s, "arclib.sin(x)");
    GenericBranch(s, "x");
  }

}
