/**
 * The `/kalkulator` command (bot.py:739-854). The handler strips spaces,
 * validates the text against a regular expression, rewrites the symbols
 * `√`, `π` and `^` into Python syntax, hands the result to Python's `eval`
 * (modelled here as an oracle), and shows the original text with cosmetic
 * symbols.
 */
module Calculator {
  import opened PyStr

  const SQRT_SIGN: char := '\U{221A}'    // √
  const PI_SIGN: char := '\U{3C0}'       // π
  const TIMES_SIGN: char := '\U{D7}'     // ×
  const DIVIDE_SIGN: char := '\U{F7}'    // ÷

  /** `str(3.14159265359)`, the text π is rewritten to. */
  const PI_TEXT: string := "3.14159265359"

  // Membership in the character class [0-9+\-*/.()√π^% ] of the validation pattern.
  predicate IsAllowed(c: char)
  {
    || ('0' <= c <= '9')
    || c == '+' || c == '-' || c == '*' || c == '/' || c == '.'
    || c == '(' || c == ')'
    || c == SQRT_SIGN || c == PI_SIGN || c == '^' || c == '%' || c == ' '
  }

  predicate AllAllowed(e: string)
  {
    forall i :: 0 <= i < |e| ==> IsAllowed(e[i])
  }

  /** `operasi.replace(" ", "")`: only the ASCII space is removed. */
  function StripSpaces(operasi: string): string
  {
    Replace(operasi, " ", "")
  }

  /** How many characters the greedy `[...]+` of the pattern consumes. */
  function AllowedRunLength(e: string): (k: nat)
    ensures k <= |e|
    ensures forall i :: 0 <= i < k ==> IsAllowed(e[i])
    ensures k < |e| ==> !IsAllowed(e[k])
  {
    if e == [] || !IsAllowed(e[0]) then 0 else 1 + AllowedRunLength(e[1..])
  }

  /** Python's `$` without MULTILINE: the end of the text, or just before one final newline. */
  predicate AtEnd(rest: string)
  {
    rest == [] || rest == "\n"
  }

  /** `allowed_chars.match(e)` succeeds, for the anchored pattern `^[...]+$`. */
  predicate PatternMatches(e: string)
  {
    var k := AllowedRunLength(e);
    k >= 1 && AtEnd(e[k..])
  }

  /** The validation at bot.py:742-745 lets `operasi` through. */
  predicate Accepted(operasi: string)
  {
    PatternMatches(StripSpaces(operasi))
  }

  /** The text given to `eval`: the three replacements of bot.py:765-767, in source order. */
  function Rewrite(e: string): string
  {
    Replace(Replace(Replace(e, [SQRT_SIGN], "sqrt"), [PI_SIGN], PI_TEXT), "^", "**")
  }

  /** The display text of bot.py:798-803, built from the original (unstripped) input. */
  function Display(operasi: string): string
  {
    Replace(Replace(Replace(Replace(operasi, "*", [TIMES_SIGN]), "/", [DIVIDE_SIGN]), "sqrt", [SQRT_SIGN]),
            PI_TEXT, [PI_SIGN])
  }

  /** Reference definition of the rewrite: each character on its own. */
  function Expand(c: char): string
  {
    if c == SQRT_SIGN then "sqrt" else if c == PI_SIGN then PI_TEXT else if c == '^' then "**" else [c]
  }

  function ExpandEach(e: string): string
  {
    if e == [] then [] else Expand(e[0]) + ExpandEach(e[1..])
  }

  /** What `eval` and the result formatting of bot.py:785-792 produce: the
      formatted value, or which exception escaped. */
  datatype Evaluation = Value(formatted: string) | ZeroDivision | BadValue | OtherError

  /** The embeds the handler can send. */
  datatype Reply =
    | InvalidCharacters
    | Computed(display: string, result: string)
    | DivisionByZero
    | InvalidValue
    | CalculationError

  /** The handler: validation, rewriting, evaluation by the oracle `evaluate`, display. */
  method Kalkulator(operasi: string, evaluate: string -> Evaluation) returns (reply: Reply)
    ensures reply.InvalidCharacters? <==> !Accepted(operasi)
    ensures Accepted(operasi) ==>
      var outcome := evaluate(Rewrite(StripSpaces(operasi)));
      && (outcome.Value? ==> reply == Computed(Display(operasi), outcome.formatted))
      && (outcome.ZeroDivision? ==> reply == DivisionByZero)
      && (outcome.BadValue? ==> reply == InvalidValue)
      && (outcome.OtherError? ==> reply == CalculationError)
    ensures reply.Computed? ==> '*' !in reply.display && '/' !in reply.display
  {
    var expression := Replace(operasi, " ", "");
    if !PatternMatches(expression) {
      return InvalidCharacters;
    }
    expression := Replace(expression, [SQRT_SIGN], "sqrt");
    expression := Replace(expression, [PI_SIGN], PI_TEXT);
    expression := Replace(expression, "^", "**");
    var outcome := evaluate(expression);
    match outcome
    case Value(formatted) =>
      var displayExpression := Display(operasi);
      DisplayHasNoStarOrSlash(operasi);
      reply := Computed(displayExpression, formatted);
    case ZeroDivision =>
      reply := DivisionByZero;
    case BadValue =>
      reply := InvalidValue;
    case OtherError =>
      reply := CalculationError;
  }

  // ---------------------------------------------------------------------
  // Validation
  // ---------------------------------------------------------------------

  /** The greedy run loses nothing: any way of splitting the text into a
      non-empty allowed run followed by an end anchor is found. */
  lemma GreedyRunSuffices(e: string, k: nat)
    requires 1 <= k <= |e| && AllAllowed(e[..k]) && AtEnd(e[k..])
    ensures PatternMatches(e)
  {
    var g := AllowedRunLength(e);
    assert forall i :: 0 <= i < k ==> e[..k][i] == e[i];
    if g > k {
      assert e[k..][0] == e[k];
      assert IsAllowed(e[k]);
    }
  }

  /** Input is accepted iff the space-stripped text is a non-empty run of
      allowed characters, optionally followed by a single newline. */
  lemma AcceptedIff(operasi: string)
    ensures Accepted(operasi) <==>
      var e := StripSpaces(operasi);
      || (|e| > 0 && AllAllowed(e))
      || (|e| > 1 && e[|e| - 1] == '\n' && AllAllowed(e[..|e| - 1]))
  {
    var e := StripSpaces(operasi);
    if |e| > 0 && AllAllowed(e) {
      GreedyRunSuffices(e, |e|);
    } else if |e| > 1 && e[|e| - 1] == '\n' && AllAllowed(e[..|e| - 1]) {
      GreedyRunSuffices(e, |e| - 1);
    }
  }

  /** Every character of accepted input is a space, an allowed character or the final newline. */
  lemma AcceptedCharacters(operasi: string, d: char)
    requires Accepted(operasi) && d in operasi
    ensures d == ' ' || IsAllowed(d) || d == '\n'
  {
    if d != ' ' {
      ReplaceCharKeepsOther(operasi, ' ', "", d);
      var e := StripSpaces(operasi);
      var i :| 0 <= i < |e| && e[i] == d;
      AcceptedIff(operasi);
      if i < |e| - 1 {
        assert e[..|e| - 1][i] == d;
      }
    }
  }

  /** Any character outside the pattern other than the ASCII space and a newline is rejected. */
  lemma RejectsForeignCharacter(operasi: string, d: char)
    requires d in operasi && d != ' ' && d != '\n' && !IsAllowed(d)
    ensures !Accepted(operasi)
  {
    if Accepted(operasi) {
      AcceptedCharacters(operasi, d);
    }
  }

  /** Only the ASCII space is stripped, so a tab is rejected. */
  lemma TabRejected(operasi: string)
    requires '\t' in operasi
    ensures !Accepted(operasi)
  {
    RejectsForeignCharacter(operasi, '\t');
  }

  /** `$` tolerates one trailing newline, but not two. */
  lemma OneTrailingNewline(operasi: string)
    requires Accepted(operasi) && '\n' !in operasi
    ensures Accepted(operasi + "\n")
    ensures !Accepted(operasi + "\n\n")
  {
    var e := StripSpaces(operasi);
    ReplaceKeepsAbsent(operasi, " ", "", '\n');
    AcceptedIff(operasi);
    assert |e| > 0 && AllAllowed(e);
    ReplaceCharAppend(operasi, "\n", ' ', "");
    ReplaceCharCons('\n', "", ' ', "");
    assert "\n" == ['\n'] + "";
    ReplaceCharAppend(operasi, "\n\n", ' ', "");
    ReplaceCharCons('\n', "\n", ' ', "");
    assert "\n\n" == ['\n'] + "\n";
    assert StripSpaces(operasi + "\n") == e + "\n";
    assert StripSpaces(operasi + "\n\n") == e + "\n\n";
    AcceptedIff(operasi + "\n");
    assert (e + "\n")[..|e|] == e;
    AcceptedIff(operasi + "\n\n");
    var e2 := e + "\n\n";
    assert !IsAllowed(e2[..|e2| - 1][|e|]);
  }

  // ---------------------------------------------------------------------
  // Rewrite
  // ---------------------------------------------------------------------

  lemma ReplaceCharSingle(x: char, c: char, rep: string)
    ensures Replace([x], [c], rep) == (if x == c then rep else [x])
  {
    ReplaceCharCons(x, [], c, rep);
    assert [x] + [] == [x];
  }

  /** The rewrite replaces each character on its own: `√`, `π` and `^` by their
      Python spellings, and every other character kept, in order. */
  lemma {:induction false} RewriteIsPerCharacter(e: string)
    ensures Rewrite(e) == ExpandEach(e)
    decreases |e|
  {
    if e == [] {
      assert Replace([], [SQRT_SIGN], "sqrt") == [];
    } else {
      var x, t := e[0], e[1..];
      assert e == [x] + t;
      ReplaceCharCons(x, t, SQRT_SIGN, "sqrt");
      var e1 := if x == SQRT_SIGN then "sqrt" else [x];
      ReplaceCharAppend(e1, Replace(t, [SQRT_SIGN], "sqrt"), PI_SIGN, PI_TEXT);
      var e2 := Replace(e1, [PI_SIGN], PI_TEXT);
      ReplaceCharAppend(e2, Replace(Replace(t, [SQRT_SIGN], "sqrt"), [PI_SIGN], PI_TEXT), '^', "**");
      if x == SQRT_SIGN {
        ReplaceAbsent("sqrt", [PI_SIGN], PI_TEXT);
        ReplaceAbsent("sqrt", "^", "**");
      } else if x == PI_SIGN {
        ReplaceCharSingle(x, PI_SIGN, PI_TEXT);
        ReplaceAbsent(PI_TEXT, "^", "**");
      } else {
        ReplaceCharSingle(x, PI_SIGN, PI_TEXT);
        ReplaceCharSingle(x, '^', "**");
      }
      assert Replace(e2, "^", "**") == Expand(x);
      RewriteIsPerCharacter(t);
    }
  }

  /** After the rewrite the expression contains no `√`, `π` or `^`. */
  lemma RewriteRemovesSymbols(e: string)
    ensures SQRT_SIGN !in Rewrite(e) && PI_SIGN !in Rewrite(e) && '^' !in Rewrite(e)
  {
    var r1 := Replace(e, [SQRT_SIGN], "sqrt");
    var r2 := Replace(r1, [PI_SIGN], PI_TEXT);
    ReplaceCharRemoves(e, SQRT_SIGN, "sqrt");
    ReplaceKeepsAbsent(r1, [PI_SIGN], PI_TEXT, SQRT_SIGN);
    ReplaceKeepsAbsent(r2, "^", "**", SQRT_SIGN);
    ReplaceCharRemoves(r1, PI_SIGN, PI_TEXT);
    ReplaceKeepsAbsent(r2, "^", "**", PI_SIGN);
    ReplaceCharRemoves(r2, '^', "**");
  }

  /** The three replacements commute: no replacement introduces a character
      that another one targets, so every order gives the same text. */
  lemma RewriteOrderIrrelevant(e: string)
    ensures
      var s := [SQRT_SIGN]; var p := [PI_SIGN];
      && Rewrite(e) == Replace(Replace(Replace(e, s, "sqrt"), "^", "**"), p, PI_TEXT)
      && Rewrite(e) == Replace(Replace(Replace(e, p, PI_TEXT), s, "sqrt"), "^", "**")
      && Rewrite(e) == Replace(Replace(Replace(e, p, PI_TEXT), "^", "**"), s, "sqrt")
      && Rewrite(e) == Replace(Replace(Replace(e, "^", "**"), s, "sqrt"), p, PI_TEXT)
      && Rewrite(e) == Replace(Replace(Replace(e, "^", "**"), p, PI_TEXT), s, "sqrt")
  {
    var s := [SQRT_SIGN]; var p := [PI_SIGN];
    // swapping the first two steps
    ReplaceCharCommute(e, SQRT_SIGN, "sqrt", PI_SIGN, PI_TEXT);
    ReplaceCharCommute(e, SQRT_SIGN, "sqrt", '^', "**");
    ReplaceCharCommute(e, PI_SIGN, PI_TEXT, '^', "**");
    // swapping the last two steps
    ReplaceCharCommute(Replace(e, s, "sqrt"), PI_SIGN, PI_TEXT, '^', "**");
    ReplaceCharCommute(Replace(e, p, PI_TEXT), SQRT_SIGN, "sqrt", '^', "**");
    ReplaceCharCommute(Replace(e, "^", "**"), SQRT_SIGN, "sqrt", PI_SIGN, PI_TEXT);
  }

  /** Accepted input reaches `eval` with only digits, `+ - * / . ( ) %`, the
      letters of `sqrt` and at most a final newline. */
  lemma EvaluatorAlphabet(operasi: string, c: char)
    requires Accepted(operasi) && c in Rewrite(StripSpaces(operasi))
    ensures IsAllowed(c) || c in "sqrt\n"
    ensures c != SQRT_SIGN && c != PI_SIGN && c != '^' && c != ' '
  {
    var e := StripSpaces(operasi);
    RewriteRemovesSymbols(e);
    RewriteIsPerCharacter(e);
    var i := ExpandEachSource(e, c);
    AcceptedIff(operasi);
    if i < |e| - 1 {
      assert e[..|e| - 1][i] == e[i];
    }
    ReplaceCharRemoves(operasi, ' ', "");
    assert e[i] in e;
  }

  /** Every character of the per-character expansion comes from one source character. */
  lemma {:induction false} ExpandEachSource(e: string, c: char) returns (i: nat)
    requires c in ExpandEach(e)
    ensures i < |e| && c in Expand(e[i])
    decreases |e|
  {
    if c in Expand(e[0]) {
      i := 0;
    } else {
      var j := ExpandEachSource(e[1..], c);
      i := j + 1;
    }
  }

  // ---------------------------------------------------------------------
  // Display
  // ---------------------------------------------------------------------

  /** The display text never contains `*` or `/`. */
  lemma DisplayHasNoStarOrSlash(operasi: string)
    ensures '*' !in Display(operasi) && '/' !in Display(operasi)
  {
    var d1 := Replace(operasi, "*", [TIMES_SIGN]);
    var d2 := Replace(d1, "/", [DIVIDE_SIGN]);
    var d3 := Replace(d2, "sqrt", [SQRT_SIGN]);
    ReplaceCharRemoves(operasi, '*', [TIMES_SIGN]);
    ReplaceKeepsAbsent(d1, "/", [DIVIDE_SIGN], '*');
    ReplaceKeepsAbsent(d2, "sqrt", [SQRT_SIGN], '*');
    ReplaceKeepsAbsent(d3, PI_TEXT, [PI_SIGN], '*');
    ReplaceCharRemoves(d1, '/', [DIVIDE_SIGN]);
    ReplaceKeepsAbsent(d2, "sqrt", [SQRT_SIGN], '/');
    ReplaceKeepsAbsent(d3, PI_TEXT, [PI_SIGN], '/');
  }

  /** The display is built from the original text: every space typed is still there. */
  lemma DisplayKeepsSpaces(operasi: string)
    ensures Count(Display(operasi), ' ') == Count(operasi, ' ')
  {
    var d1 := Replace(operasi, "*", [TIMES_SIGN]);
    var d2 := Replace(d1, "/", [DIVIDE_SIGN]);
    var d3 := Replace(d2, "sqrt", [SQRT_SIGN]);
    ReplaceKeepsCount(operasi, "*", [TIMES_SIGN], ' ');
    ReplaceKeepsCount(d1, "/", [DIVIDE_SIGN], ' ');
    ReplaceKeepsCount(d2, "sqrt", [SQRT_SIGN], ' ');
    ReplaceKeepsCount(d3, PI_TEXT, [PI_SIGN], ' ');
  }

  /** On accepted input the `"sqrt"` → `√` step never fires (letters are
      rejected), so only a literally typed `3.14159265359` becomes `π`. */
  lemma DisplayOfAccepted(operasi: string)
    requires Accepted(operasi)
    ensures Display(operasi) ==
      Replace(Replace(Replace(operasi, "*", [TIMES_SIGN]), "/", [DIVIDE_SIGN]), PI_TEXT, [PI_SIGN])
  {
    if 's' in operasi {
      AcceptedCharacters(operasi, 's');
    }
    var d1 := Replace(operasi, "*", [TIMES_SIGN]);
    var d2 := Replace(d1, "/", [DIVIDE_SIGN]);
    ReplaceKeepsAbsent(operasi, "*", [TIMES_SIGN], 's');
    ReplaceKeepsAbsent(d1, "/", [DIVIDE_SIGN], 's');
    ReplaceAbsent(d2, "sqrt", [SQRT_SIGN]);
  }

  // ---------------------------------------------------------------------
  // The root sign: a name, not a call
  // ---------------------------------------------------------------------

  /** Digits and the decimal point: the characters of a numeral. */
  predicate IsNumeral(c: char)
  {
    ('0' <= c <= '9') || c == '.'
  }

  /** Every `√` is followed by an operand: a numeral or an opening parenthesis. */
  predicate RootsHaveOperands(e: string)
  {
    forall i :: 0 <= i < |e| && e[i] == SQRT_SIGN ==>
      i + 1 < |e| && (IsNumeral(e[i + 1]) || e[i + 1] == '(')
  }

  /** Every `sqrt` in the text is called: its final `t` is followed by `(`.
      On rewritten accepted input the letter `t` only comes from `sqrt`. */
  predicate SqrtAlwaysCalled(s: string)
  {
    forall i :: 0 <= i < |s| && s[i] == 't' ==> i + 1 < |s| && s[i + 1] == '('
  }

  lemma {:induction false} ExpandEachAppend(a: string, b: string)
    ensures ExpandEach(a + b) == ExpandEach(a) + ExpandEach(b)
    decreases |a|
  {
    if a == [] {
      assert a + b == b;
    } else {
      assert (a + b)[0] == a[0];
      assert (a + b)[1..] == a[1..] + b;
      ExpandEachAppend(a[1..], b);
    }
  }

  /** As written, `√` before a numeral is glued to it: `√16` reaches `eval` as
      the name `sqrt16`, which the namespace does not define, so the generic
      calculation error is replied. */
  lemma RootBeforeNumeralIsName(e: string, i: nat)
    requires i + 1 < |e| && e[i] == SQRT_SIGN && IsNumeral(e[i + 1])
    ensures RootsHaveOperands([e[i], e[i + 1]])
    ensures !SqrtAlwaysCalled(Rewrite(e))
  {
    var x := ExpandEach(e[..i]);
    assert e == e[..i] + ([e[i], e[i + 1]] + e[i + 2..]);
    ExpandEachAppend(e[..i], [e[i], e[i + 1]] + e[i + 2..]);
    assert ([e[i], e[i + 1]] + e[i + 2..])[1..] == [e[i + 1]] + e[i + 2..];
    assert ([e[i + 1]] + e[i + 2..])[1..] == e[i + 2..];
    RewriteIsPerCharacter(e);
    var r := Rewrite(e);
    assert r == x + "sqrt" + [e[i + 1]] + ExpandEach(e[i + 2..]);
    assert r[|x| + 3] == 't' && r[|x| + 4] == e[i + 1];
  }

  /** How many numeral characters the text starts with. */
  function NumeralRunLength(e: string): (k: nat)
    ensures k <= |e|
    ensures forall i :: 0 <= i < k ==> IsNumeral(e[i])
    ensures k < |e| ==> !IsNumeral(e[k])
  {
    if e == [] || !IsNumeral(e[0]) then 0 else 1 + NumeralRunLength(e[1..])
  }

  /** The evidently intended rewrite: `√` before a numeral becomes a call
      `sqrt(…)` of that numeral; everything else is rewritten as the code does. */
  function IntendedRewrite(e: string): string
    decreases |e|
  {
    if e == [] then []
    else if e[0] == SQRT_SIGN && NumeralRunLength(e[1..]) > 0 then
      var k := NumeralRunLength(e[1..]);
      "sqrt(" + e[1..k + 1] + ")" + IntendedRewrite(e[k + 1..])
    else Expand(e[0]) + IntendedRewrite(e[1..])
  }

  lemma CalledAppend(a: string, b: string)
    requires SqrtAlwaysCalled(a) && SqrtAlwaysCalled(b)
    ensures SqrtAlwaysCalled(a + b)
  {
    forall i | 0 <= i < |a + b| && (a + b)[i] == 't'
      ensures i + 1 < |a + b| && (a + b)[i + 1] == '('
    {
      if i < |a| {
        assert a[i] == 't';
      } else {
        assert b[i - |a|] == 't';
      }
    }
  }

  /** No character of the validated text other than `√` expands to a name. */
  lemma ExpandCalled(c: char)
    requires IsAllowed(c) && c != SQRT_SIGN
    ensures SqrtAlwaysCalled(Expand(c))
  {
    assert c != 't';
  }

  lemma CallChunkCalled(num: string)
    requires forall i :: 0 <= i < |num| ==> IsNumeral(num[i])
    ensures SqrtAlwaysCalled("sqrt(" + num + ")")
  {
    var chunk := "sqrt(" + num + ")";
    forall i | 0 <= i < |chunk| && chunk[i] == 't'
      ensures i + 1 < |chunk| && chunk[i + 1] == '('
    {
    }
  }

  lemma SuffixKeepsOperands(e: string, m: nat)
    requires m <= |e| && AllAllowed(e) && RootsHaveOperands(e)
    ensures AllAllowed(e[m..]) && RootsHaveOperands(e[m..])
  {
    assert forall j :: 0 <= j < |e[m..]| ==> e[m..][j] == e[m + j];
  }

  lemma CallOfNumeralCalled(e: string)
    requires |e| > 0 && e[0] == SQRT_SIGN && NumeralRunLength(e[1..]) > 0
    requires SqrtAlwaysCalled(IntendedRewrite(e[NumeralRunLength(e[1..]) + 1..]))
    ensures SqrtAlwaysCalled(IntendedRewrite(e))
  {
    var k := NumeralRunLength(e[1..]);
    var num := e[1..k + 1];
    assert forall i :: 0 <= i < |num| ==> num[i] == e[1..][i];
    CallChunkCalled(num);
    CalledAppend("sqrt(" + num + ")", IntendedRewrite(e[k + 1..]));
  }

  lemma CallOfParenthesisCalled(e: string)
    requires |e| > 1 && e[0] == SQRT_SIGN && e[1] == '('
    requires SqrtAlwaysCalled(IntendedRewrite(e[2..]))
    ensures SqrtAlwaysCalled(IntendedRewrite(e))
  {
    assert e[1..][0] == e[1];
    assert !IsNumeral(e[1..][0]);
    assert e[1..][1..] == e[2..];
    assert IntendedRewrite(e[1..]) == "(" + IntendedRewrite(e[2..]);
    assert IntendedRewrite(e) == "sqrt" + IntendedRewrite(e[1..]);
    CalledAppend("sqrt(", IntendedRewrite(e[2..]));
  }

  /** The corrected rewrite calls every `sqrt` it produces, whenever each `√`
      of the validated text has an operand. */
  lemma {:induction false} IntendedRewriteCallsSqrt(e: string)
    requires AllAllowed(e) && RootsHaveOperands(e)
    ensures SqrtAlwaysCalled(IntendedRewrite(e))
    decreases |e|
  {
    if e == [] {
    } else if e[0] == SQRT_SIGN && NumeralRunLength(e[1..]) > 0 {
      var k := NumeralRunLength(e[1..]);
      SuffixKeepsOperands(e, k + 1);
      IntendedRewriteCallsSqrt(e[k + 1..]);
      CallOfNumeralCalled(e);
    } else if e[0] == SQRT_SIGN {
      assert e[1..][0] == e[1];
      SuffixKeepsOperands(e, 2);
      IntendedRewriteCallsSqrt(e[2..]);
      CallOfParenthesisCalled(e);
    } else {
      SuffixKeepsOperands(e, 1);
      IntendedRewriteCallsSqrt(e[1..]);
      ExpandCalled(e[0]);
      CalledAppend(Expand(e[0]), IntendedRewrite(e[1..]));
    }
  }

  /** Without a root sign the corrected rewrite is the code's rewrite. */
  lemma {:induction false} IntendedAgreesWithoutRoot(e: string)
    requires SQRT_SIGN !in e
    ensures IntendedRewrite(e) == Rewrite(e)
    decreases |e|
  {
    RewriteIsPerCharacter(e);
    if e != [] {
      assert e[0] in e;
      assert forall c :: c in e[1..] ==> c in e;
      IntendedAgreesWithoutRoot(e[1..]);
      RewriteIsPerCharacter(e[1..]);
    }
  }

  /** `2π` is glued the same way: it reaches `eval` as the one literal `23.14159265359`. */
  lemma ExamplePiAfterDigit()
    ensures Rewrite(['2', PI_SIGN]) == "23.14159265359"
  {
    RewriteIsPerCharacter(['2', PI_SIGN]);
    assert ['2', PI_SIGN][1..] == [PI_SIGN];
    assert [PI_SIGN][1..] == [];
    assert ExpandEach([PI_SIGN]) == PI_TEXT;
  }

  // ---------------------------------------------------------------------
  // Examples from the command's help text
  // ---------------------------------------------------------------------

  lemma ExampleAccepted()
    ensures Accepted("2+3*4")
  {
    ReplaceAbsent("2+3*4", " ", "");
    AcceptedIff("2+3*4");
  }

  lemma ExampleRejected()
    ensures !Accepted("2;3")
  {
    RejectsForeignCharacter("2;3", ';');
  }

  lemma ExampleRewrite()
    ensures Rewrite("\U{221A}16+5^2") == "sqrt16+5**2"
  {
    RewriteIsPerCharacter("\U{221A}16+5^2");
    var e := "\U{221A}16+5^2";
    assert e[1..] == "16+5^2";
    assert ExpandEach("^2") == "**2";
    assert ExpandEach("5^2") == "5**2";
    assert ExpandEach("+5^2") == "+5**2";
    assert ExpandEach("6+5^2") == "6+5**2";
    assert ExpandEach("16+5^2") == "16+5**2";
  }

  /** The help text's `√16+5^2` under the corrected rewrite is a call of `sqrt`. */
  lemma ExampleIntendedRewrite()
    ensures IntendedRewrite("\U{221A}16+5^2") == "sqrt(16)+5**2"
  {
    var e := "\U{221A}16+5^2";
    assert e[1..] == "16+5^2";
    assert NumeralRunLength("+5^2") == 0;
    assert NumeralRunLength("6+5^2") == 1;
    assert NumeralRunLength(e[1..]) == 2;
    assert e[3..] == "+5^2";
    assert IntendedRewrite("2") == "2";
    assert IntendedRewrite("^2") == "**2";
    assert IntendedRewrite("5^2") == "5**2";
    assert IntendedRewrite("+5^2") == "+5**2";
  }
}
