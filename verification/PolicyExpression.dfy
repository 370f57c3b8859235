/**
  Condition expressions of policy rules: the quote-aware splitter, the recursive evaluator, and the proof that
  evaluating the text of a formula gives the formula's value. What a single comparison means is a parameter.
 */
module PolicyExpression {
  import opened Text

  // ---------- the splitter ----------

  /** Which kind of string literal the scan is inside of. */
  datatype Mode = Outside | InSingle | InDouble

  predicate Toggles(m: Mode, c: char) {
    (c == '\'' && m != InDouble) || (c == '"' && m != InSingle)
  }

  function Toggle(m: Mode, c: char): Mode {
    if c == '\'' then (if m == InSingle then Outside else InSingle)
    else (if m == InDouble then Outside else InDouble)
  }

  function After(m: Mode, c: char): Mode {
    if Toggles(m, c) then Toggle(m, c) else m
  }

  /** The text cut at every separator that starts outside string literals, leftmost first. */
  function Split(s: string, sep: string, m: Mode): (r: seq<string>)
    requires sep != []
    ensures r != []
    decreases |s|
  {
    if |s| < |sep| then [s]
    else if Toggles(m, s[0]) then Prepend([s[0]], Split(s[1..], sep, Toggle(m, s[0])))
    else if m == Outside && StartsWith(s, sep) then [""] + Split(s[|sep|..], sep, Outside)
    else Prepend([s[0]], Split(s[1..], sep, m))
  }

  /** The scan by position: `parts` are cut off already, and the next part begins at `start`. */
  function Scan(expr: string, sep: string, i: nat, start: nat, m: Mode, parts: seq<string>): seq<string>
    requires sep != [] && start <= i <= |expr|
    decreases |expr| - i
  {
    if |expr| - i < |sep| then parts + [expr[start..]]
    else if CutsAt(expr, sep, i, m) then
      Scan(expr, sep, i + |sep|, i + |sep|, Outside, parts + [expr[start..i]])
    else Scan(expr, sep, i + 1, start, After(m, expr[i]), parts)
  }

  lemma PrependOne(text: string, c: char, rest: seq<string>)
    requires rest != []
    ensures Prepend(text, Prepend([c], rest)) == Prepend(text + [c], rest)
  {
    assert text + ([c] + rest[0]) == text + [c] + rest[0];
  }

  lemma PrependCut(parts: seq<string>, text: string, rest: seq<string>)
    requires rest != []
    ensures parts + Prepend(text, [""] + rest) == parts + [text] + rest
    ensures Prepend("", rest) == rest
  {
    assert text + "" == text && "" + rest[0] == rest[0];
    assert Prepend(text, [""] + rest) == [text] + rest;
  }

  /** What the scan gives in the end, from position `i` on. */
  function Result(expr: string, sep: string, i: nat, start: nat, m: Mode, parts: seq<string>): seq<string>
    requires sep != [] && start <= i <= |expr|
  {
    parts + Prepend(expr[start..i], Split(expr[i..], sep, m))
  }

  predicate CutsAt(expr: string, sep: string, i: nat, m: Mode)
    requires i < |expr|
  {
    !Toggles(m, expr[i]) && m == Outside && StartsWith(expr[i..], sep)
  }

  lemma ResultEnd(expr: string, sep: string, i: nat, start: nat, m: Mode, parts: seq<string>)
    requires sep != [] && start <= i <= |expr| && |expr| - i < |sep|
    ensures Result(expr, sep, i, start, m, parts) == parts + [expr[start..]]
  {
    assert expr[start..i] + expr[i..] == expr[start..];
  }

  lemma SplitAtCut(expr: string, sep: string, i: nat)
    requires sep != [] && i + |sep| <= |expr| && CutsAt(expr, sep, i, Outside)
    ensures Split(expr[i..], sep, Outside) == [""] + Split(expr[i + |sep|..], sep, Outside)
  {
    assert expr[i..][|sep|..] == expr[i + |sep|..];
  }

  lemma ResultCut(expr: string, sep: string, i: nat, start: nat, parts: seq<string>)
    requires sep != [] && start <= i && i + |sep| <= |expr| && CutsAt(expr, sep, i, Outside)
    ensures Result(expr, sep, i, start, Outside, parts)
         == Result(expr, sep, i + |sep|, i + |sep|, Outside, parts + [expr[start..i]])
  {
    var j := i + |sep|;
    SplitAtCut(expr, sep, i);
    assert expr[j..j] == "";
    PrependCut(parts, expr[start..i], Split(expr[j..], sep, Outside));
  }

  lemma SplitAtCopy(expr: string, sep: string, i: nat, m: Mode)
    requires sep != [] && i + |sep| <= |expr| && !CutsAt(expr, sep, i, m)
    ensures Split(expr[i..], sep, m) == Prepend([expr[i]], Split(expr[i + 1..], sep, After(m, expr[i])))
  {
    assert expr[i..][1..] == expr[i + 1..];
  }

  lemma ResultCopy(expr: string, sep: string, i: nat, start: nat, m: Mode, parts: seq<string>)
    requires sep != [] && start <= i && i + |sep| <= |expr| && !CutsAt(expr, sep, i, m)
    ensures Result(expr, sep, i, start, m, parts) == Result(expr, sep, i + 1, start, After(m, expr[i]), parts)
  {
    SplitAtCopy(expr, sep, i, m);
    assert expr[start..i + 1] == expr[start..i] + [expr[i]];
    PrependOne(expr[start..i], expr[i], Split(expr[i + 1..], sep, After(m, expr[i])));
  }

  lemma {:induction false} ScanIsSplit(expr: string, sep: string, i: nat, start: nat, m: Mode, parts: seq<string>)
    requires sep != [] && start <= i <= |expr|
    ensures Scan(expr, sep, i, start, m, parts) == Result(expr, sep, i, start, m, parts)
    decreases |expr| - i
  {
    if |expr| - i < |sep| {
      ResultEnd(expr, sep, i, start, m, parts);
    } else if CutsAt(expr, sep, i, m) {
      ResultCut(expr, sep, i, start, parts);
      ScanIsSplit(expr, sep, i + |sep|, i + |sep|, Outside, parts + [expr[start..i]]);
    } else {
      ResultCopy(expr, sep, i, start, m, parts);
      ScanIsSplit(expr, sep, i + 1, start, After(m, expr[i]), parts);
    }
  }

  function ModeOf(inSingle: bool, inDouble: bool): Mode {
    if inSingle then InSingle else if inDouble then InDouble else Outside
  }

  lemma ModeAfter(inSingle: bool, inDouble: bool, c: char)
    requires !(inSingle && inDouble)
    ensures var m := ModeOf(inSingle, inDouble);
            && (Toggles(m, c) <==> (c == '\'' && !inDouble) || (c == '"' && !inSingle))
            && After(m, c) == if c == '\'' && !inDouble then ModeOf(!inSingle, inDouble)
                              else if c == '"' && !inSingle then ModeOf(inSingle, !inDouble)
                              else m
  {
  }

  method SplitOutsideQuotes(expr: string, sep: string) returns (parts: seq<string>)
    requires sep != []
    ensures parts == Split(expr, sep, Outside)
  {
    parts := [];
    var start: nat := 0;
    var inSingle, inDouble := false, false;
    var i: nat := 0;
    WholeScan(expr, sep);
    ghost var whole := Split(expr, sep, Outside);
    while i <= |expr| - |sep|
      invariant !(inSingle && inDouble) && start <= i <= |expr|
      invariant Scan(expr, sep, i, start, ModeOf(inSingle, inDouble), parts) == whole
      decreases |expr| - i
    {
      var ch := expr[i];
      ModeAfter(inSingle, inDouble, ch);
      if ch == '\'' && !inDouble {
        inSingle := !inSingle;
        i := i + 1;
      } else if ch == '"' && !inSingle {
        inDouble := !inDouble;
        i := i + 1;
      } else if !inSingle && !inDouble && StartsWith(expr[i..], sep) {
        parts := parts + [expr[start..i]];
        start := i + |sep|;
        i := i + |sep|;
      } else {
        i := i + 1;
      }
    }
    parts := parts + [expr[start..]];
  }

  lemma WholeScan(expr: string, sep: string)
    requires sep != []
    ensures Scan(expr, sep, 0, 0, Outside, []) == Split(expr, sep, Outside)
  {
    ScanIsSplit(expr, sep, 0, 0, Outside, []);
    assert expr[0..] == expr && expr[0..0] == "";
    PrependCut([], "", Split(expr, sep, Outside));
  }

  lemma JoinCut(s: string, sep: string, rest: seq<string>)
    requires sep <= s && rest != [] && Join(rest, sep) == s[|sep|..]
    ensures Join([""] + rest, sep) == s
  {
    JoinEmpty(sep, rest);
    PrefixAndRest(s, sep);
  }

  lemma JoinEmpty(sep: string, rest: seq<string>)
    requires rest != []
    ensures Join([""] + rest, sep) == sep + Join(rest, sep)
  {
    assert ([""] + rest)[1..] == rest && "" + sep == sep;
  }

  lemma PrefixAndRest(s: string, prefix: string)
    requires prefix <= s
    ensures prefix + s[|prefix|..] == s
  {
  }

  lemma JoinCopy(s: string, sep: string, rest: seq<string>)
    requires s != [] && rest != [] && Join(rest, sep) == s[1..]
    ensures Join(Prepend([s[0]], rest), sep) == s
  {
    JoinPrepend([s[0]], rest, sep);
  }

  /** Nothing is lost: the parts, joined by the separator, are the text. */
  lemma {:induction false} SplitJoins(s: string, sep: string, m: Mode)
    requires sep != []
    ensures Join(Split(s, sep, m), sep) == s
    decreases |s|
  {
    if |s| < |sep| {
    } else if CutsAt(s, sep, 0, m) {
      assert s[0..] == s;
      SplitJoins(s[|sep|..], sep, Outside);
      JoinCut(s, sep, Split(s[|sep|..], sep, Outside));
    } else {
      assert s[0..] == s;
      SplitJoins(s[1..], sep, After(m, s[0]));
      JoinCopy(s, sep, Split(s[1..], sep, After(m, s[0])));
    }
  }

  /** There is nothing to cut at. */
  predicate Uncut(s: string, sep: string, m: Mode)
    requires sep != []
  {
    |Split(s, sep, m)| == 1
  }

  lemma UncutIsWhole(s: string, sep: string)
    requires sep != [] && Uncut(s, sep, Outside)
    ensures Split(s, sep, Outside) == [s]
  {
    SplitJoins(s, sep, Outside);
  }

  /** When there is something to cut at, every part is strictly shorter than the text. */
  lemma {:induction false} PartsAreShorter(s: string, sep: string, m: Mode, i: nat)
    requires sep != [] && i < |Split(s, sep, m)|
    ensures |Split(s, sep, m)[i]| <= |s|
    ensures |Split(s, sep, m)| > 1 ==> |Split(s, sep, m)[i]| < |s|
    decreases |s|
  {
    if |s| < |sep| {
    } else {
      if !Toggles(m, s[0]) && m == Outside && StartsWith(s, sep) {
        if i > 0 {
          PartsAreShorter(s[|sep|..], sep, Outside, i - 1);
        }
      } else {
        PartsAreShorter(s[1..], sep, After(m, s[0]), i);
      }
    }
  }

  // ---------- the evaluator ----------

  const OR := " or "
  const AND := " and "

  /** `atom` is the value of a comparison, for a fixed context. */
  function Evaluate(expr: string, atom: string -> bool): bool
    decreases |expr|
  {
    var trimmed := Trim(expr);
    TrimIsTrimmed(expr);
    var orParts := Split(trimmed, OR, Outside);
    if |orParts| > 1 then
      exists i | 0 <= i < |orParts| ::
        (PartsAreShorter(trimmed, OR, Outside, i); TrimIsTrimmed(orParts[i]); Evaluate(Trim(orParts[i]), atom))
    else
      var andParts := Split(trimmed, AND, Outside);
      if |andParts| > 1 then
        forall i | 0 <= i < |andParts| ::
          (PartsAreShorter(trimmed, AND, Outside, i); TrimIsTrimmed(andParts[i]); Evaluate(Trim(andParts[i]), atom))
      else
        atom(trimmed)
  }

  // ---------- formulas and their text ----------

  /** A disjunction of conjunctions of comparisons. */
  type Formula = seq<seq<string>>

  predicate ClauseHolds(atoms: seq<string>, atom: string -> bool) {
    forall j | 0 <= j < |atoms| :: atom(atoms[j])
  }

  predicate Holds(f: Formula, atom: string -> bool) {
    exists i | 0 <= i < |f| :: ClauseHolds(f[i], atom)
  }

  function RenderClause(atoms: seq<string>): string {
    Join(atoms, AND)
  }

  function RenderClauses(f: Formula): seq<string> {
    seq(|f|, i requires 0 <= i < |f| => RenderClause(f[i]))
  }

  function Render(f: Formula): string {
    Join(RenderClauses(f), OR)
  }

  /** Where the scan is after `s`. */
  function End(s: string, m: Mode): Mode {
    if s == [] then m else End(s[1..], After(m, s[0]))
  }

  function Padded(s: string): string {
    " " + s + " "
  }

  /** A piece of text that neither cuts nor is cut, wherever connectives are put around it. */
  predicate Solid(s: string, sep: string)
    requires sep != []
  {
    s != [] && End(s, Outside) == Outside && Uncut(Padded(s), sep, Outside)
  }

  /** An atom that can be rendered: trimmed, its quotes closed, and no connective outside quotes, not even when
      white space is put around it (which rules out the bare words "or" and "and"). */
  predicate Clean(atom: string) {
    Trimmed(atom) && Solid(atom, OR) && Solid(atom, AND)
  }

  predicate Renderable(f: Formula) {
    f != [] && forall i | 0 <= i < |f| :: f[i] != [] && forall j | 0 <= j < |f[i]| :: Clean(f[i][j])
  }

  // ---------- scanning concatenations ----------

  lemma {:induction false} EndConcat(s: string, t: string, m: Mode)
    ensures End(s + t, m) == End(t, End(s, m))
  {
    if s == [] {
      assert s + t == t;
    } else {
      EndConcat(s[1..], t, After(m, s[0]));
      assert (s + t)[1..] == s[1..] + t;
    }
  }

  predicate IsConnective(sep: string) {
    sep == OR || sep == AND
  }

  /** A connective overlaps what follows a connective, or itself, in at most one character. */
  lemma NoOverlap(p: string, sep: string, conn: string, rest: string)
    requires IsConnective(sep) && IsConnective(conn) && p != [] && |p| + 1 < |sep|
    ensures !StartsWith(p + conn + rest, sep)
  {
    var t := p + conn + rest;
    assert t[|p|] == conn[0] == ' ' && sep[|p|] != ' ';
  }

  lemma {:induction false} UncutTail(c: char, s: string, sep: string, m: Mode)
    requires IsConnective(sep) && Uncut([c] + s, sep, m)
    ensures Uncut(s, sep, After(m, c))
  {
    var t := [c] + s;
    if |t| < |sep| {
    } else {
      assert t[0] == c && t[1..] == s;
    }
  }

  lemma NoCutInFront(p: string, sep: string, conn: string, rest: string, m: Mode)
    requires IsConnective(sep) && IsConnective(conn) && p != [] && Uncut(p + " ", sep, m)
    ensures !(!Toggles(m, p[0]) && m == Outside && StartsWith(p + conn + rest, sep))
  {
    if |p| + 1 < |sep| {
      NoOverlap(p, sep, conn, rest);
    } else {
      assert (p + " ")[0] == p[0];
      SamePrefix(p, conn, rest, |sep|);
    }
  }

  lemma SplitOne(c: char, s: string, sep: string, m: Mode)
    requires sep != [] && |sep| <= |s| + 1 && !(!Toggles(m, c) && m == Outside && StartsWith([c] + s, sep))
    ensures Split([c] + s, sep, m) == Prepend([c], Split(s, sep, After(m, c)))
  {
    assert ([c] + s)[1..] == s;
  }

  /** One step of scanning `p` in front of a connective. */
  lemma ScanStep(p: string, sep: string, conn: string, rest: string, m: Mode)
    requires IsConnective(sep) && IsConnective(conn) && p != [] && Uncut(p + " ", sep, m)
    ensures Split(p + conn + rest, sep, m) == Prepend([p[0]], Split(p[1..] + conn + rest, sep, After(m, p[0])))
    ensures Uncut(p[1..] + " ", sep, After(m, p[0]))
  {
    NoCutInFront(p, sep, conn, rest, m);
    assert p + conn + rest == [p[0]] + (p[1..] + conn + rest);
    SplitOne(p[0], p[1..] + conn + rest, sep, m);
    assert p + " " == [p[0]] + (p[1..] + " ");
    UncutTail(p[0], p[1..] + " ", sep, m);
  }

  lemma SamePrefix(p: string, conn: string, rest: string, n: nat)
    requires conn != [] && conn[0] == ' ' && n <= |p| + 1
    ensures (p + " ")[..n] == (p + conn + rest)[..n]
  {
  }

  /** A solid piece in front of the separator is the first part. */
  lemma {:induction false} SplitFirst(p: string, sep: string, rest: string, m: Mode)
    requires IsConnective(sep) && End(p, m) == Outside && Uncut(p + " ", sep, m)
    ensures Split(p + sep + rest, sep, m) == [p] + Split(rest, sep, Outside)
  {
    var t := p + sep + rest;
    if p == [] {
      assert t == sep + rest && t[|sep|..] == rest;
    } else {
      ScanStep(p, sep, sep, rest, m);
      SplitFirst(p[1..], sep, rest, After(m, p[0]));
      assert [p[0]] + p[1..] == p;
    }
  }

  /** A piece free of `or` in front of ` and ` stays free of it. */
  lemma {:induction false} UncutBeforeAnd(p: string, rest: string, m: Mode)
    requires End(p, m) == Outside && Uncut(p + " ", OR, m) && Uncut(" " + rest, OR, Outside)
    ensures Uncut(p + AND + rest, OR, m)
  {
    var t := p + AND + rest;
    if p == [] {
      assert t == AND + rest;
      AndIsSkipped(rest);
    } else {
      ScanStep(p, OR, AND, rest, m);
      UncutBeforeAnd(p[1..], rest, After(m, p[0]));
    }
  }

  lemma AndIsSkipped(rest: string)
    requires Uncut(" " + rest, OR, Outside)
    ensures Uncut(AND + rest, OR, Outside)
  {
    var t := AND + rest;
    assert t[4..] == " " + rest;
    assert t[1] == 'a' && OR[1] == 'o';
    assert t[1..][1..] == t[2..] && t[2..][1..] == t[3..] && t[3..][1..] == t[4..];
    assert Uncut(t[3..], OR, Outside);
    assert Uncut(t[2..], OR, Outside);
    assert Uncut(t[1..], OR, Outside);
  }

  lemma {:induction false} UncutDropLast(s: string, c: char, sep: string, m: Mode)
    requires IsConnective(sep) && Uncut(s + [c], sep, m)
    ensures Uncut(s, sep, m)
  {
    if |s| < |sep| {
    } else {
      var t := s + [c];
      assert t[0] == s[0] && t[1..] == s[1..] + [c] && t[..|sep|] == s[..|sep|];
      UncutDropLast(s[1..], c, sep, After(m, s[0]));
    }
  }

  /** A solid piece is also uncut without the padding. */
  lemma SolidUncut(s: string, sep: string)
    requires IsConnective(sep) && Solid(s, sep)
    ensures Uncut(s + " ", sep, Outside) && Uncut(s, sep, Outside)
  {
    assert Padded(s) == [' '] + (s + " ");
    UncutTail(' ', s + " ", sep, Outside);
    UncutDropLast(s, ' ', sep, Outside);
  }

  /** Cutting a join of solid pieces at the separator gives the pieces back. */
  lemma {:induction false} SplitJoin(pieces: seq<string>, sep: string)
    requires IsConnective(sep) && pieces != []
    requires forall i | 0 <= i < |pieces| :: Solid(pieces[i], sep)
    ensures Split(Join(pieces, sep), sep, Outside) == pieces
  {
    SolidUncut(pieces[0], sep);
    if |pieces| == 1 {
      UncutIsWhole(pieces[0], sep);
    } else {
      SplitJoin(pieces[1..], sep);
      SplitFirst(pieces[0], sep, Join(pieces[1..], sep), Outside);
      assert [pieces[0]] + pieces[1..] == pieces;
    }
  }

  // ---------- clauses ----------

  /** A clause of clean atoms is solid with respect to `or`. */
  lemma {:induction false} ClauseIsSolid(atoms: seq<string>)
    requires atoms != [] && forall j | 0 <= j < |atoms| :: Clean(atoms[j])
    ensures Solid(RenderClause(atoms), OR)
  {
    if |atoms| <= 1 {
    } else {
      ClauseIsSolid(atoms[1..]);
      SolidAndSolid(atoms[0], RenderClause(atoms[1..]));
    }
  }

  lemma SolidAndSolid(a: string, c: string)
    requires Solid(a, OR) && Solid(c, OR)
    ensures Solid(a + AND + c, OR)
  {
    EndConcat(a + AND, c, Outside);
    EndConcat(a, AND, Outside);
    AndEndsOutside();
    PaddedConcat(a, c);
    EndConcat(" ", a, Outside);
    assert End(" ", Outside) == Outside;
    UncutBeforeAnd(" " + a, c + " ", Outside);
  }

  lemma PaddedConcat(a: string, c: string)
    ensures " " + a + " " == Padded(a) && " " + (c + " ") == Padded(c)
    ensures Padded(a + AND + c) == " " + a + AND + (c + " ")
  {
  }

  lemma AndEndsOutside()
    ensures End(AND, Outside) == Outside
  {
    assert AND[1..] == "and " && "and "[1..] == "nd " && "nd "[1..] == "d " && "d "[1..] == " " && " "[1..] == [];
    assert End(" ", Outside) == Outside;
    assert End("d ", Outside) == Outside;
    assert End("nd ", Outside) == Outside;
    assert End("and ", Outside) == Outside;
  }

  lemma {:induction false} JoinIsTrimmed(pieces: seq<string>, sep: string)
    requires pieces != [] && forall i | 0 <= i < |pieces| :: pieces[i] != [] && Trimmed(pieces[i])
    ensures Join(pieces, sep) != [] && Trimmed(Join(pieces, sep))
  {
    if |pieces| <= 1 {
    } else {
      JoinIsTrimmed(pieces[1..], sep);
      var t, r := Join(pieces, sep), Join(pieces[1..], sep);
      assert t[0] == pieces[0][0] && t[|t| - 1] == r[|r| - 1];
    }
  }

  lemma EvaluateUncut(s: string, atom: string -> bool)
    requires Trimmed(s) && Uncut(s, OR, Outside) && Uncut(s, AND, Outside)
    ensures Evaluate(s, atom) == atom(s)
  {
    TrimmedIsKept(s);
  }

  /** A path named "or" next to a connective: a formula that holds, written out, evaluates to false. */
  lemma BareConnectiveMisparses(atom: string -> bool)
    requires forall s :: atom(s) <==> s == "y"
    ensures Holds([["x", "or"], ["y"]], atom) && !Evaluate(Render([["x", "or"], ["y"]]), atom)
  {
    SecondClauseHolds(atom);
    MisparseText();
    NotY();
    MisparseIsFalse(Render([["x", "or"], ["y"]]), atom);
  }

  lemma NotY()
    ensures "x and" != "y" && "or y" != "y"
  {
    assert |"x and"| != |"y"| && |"or y"| != |"y"|;
  }

  lemma MisparseIsFalse(text: string, atom: string -> bool)
    requires text == "x and" + OR + "or y" && !atom("x and") && !atom("or y")
    ensures !Evaluate(text, atom)
  {
    MisparseValue(atom);
  }

  lemma SecondClauseHolds(atom: string -> bool)
    requires atom("y")
    ensures Holds([["x", "or"], ["y"]], atom)
  {
    var f: Formula := [["x", "or"], ["y"]];
    assert ClauseHolds(f[1], atom);
  }

  lemma MisparseValue(atom: string -> bool)
    ensures Evaluate("x and" + OR + "or y", atom) <==> atom("x and") || atom("or y")
  {
    var p, rest := "x and", "or y";
    var text := p + OR + rest;
    MisparseParts();
    assert text[0] == 'x' && text[|text| - 1] == rest[3];
    TrimmedIsKept(text);
    TrimmedIsKept(p);
    TrimmedIsKept(rest);
    EvaluateUncut(p, atom);
    EvaluateUncut(rest, atom);
    EvaluateParts(text, p, rest, atom);
  }

  lemma EvaluateParts(text: string, p: string, rest: string, atom: string -> bool)
    requires Trim(text) == text && Trim(p) == p && Trim(rest) == rest && Split(text, OR, Outside) == [p, rest]
    ensures Evaluate(text, atom) <==> Evaluate(p, atom) || Evaluate(rest, atom)
  {
    var parts := Split(text, OR, Outside);
    assert Evaluate(text, atom) == exists i | 0 <= i < |parts| :: Evaluate(Trim(parts[i]), atom);
    assert parts[0] == p && parts[1] == rest;
  }

  lemma MisparseText()
    ensures Render([["x", "or"], ["y"]]) == "x and" + OR + "or y"
  {
    var f: Formula := [["x", "or"], ["y"]];
    assert f[0][1..] == ["or"];
    assert RenderClause(f[0]) == "x" + AND + "or";
    assert RenderClauses(f) == [RenderClause(f[0]), RenderClause(f[1])];
    assert RenderClauses(f)[1..] == [RenderClause(f[1])];
  }

  lemma MisparseParts()
    ensures Split("x and" + OR + "or y", OR, Outside) == ["x and", "or y"]
    ensures Uncut("x and", OR, Outside) && Uncut("x and", AND, Outside)
    ensures Uncut("or y", OR, Outside) && Uncut("or y", AND, Outside)
  {
    var p, rest := "x and", "or y";
    assert p[1..] == " and" && rest[1..] == "r y";
    assert Uncut("x ", OR, Outside) && Uncut(" " + "", OR, Outside);
    assert End("x", Outside) == Outside by {
      assert "x"[1..] == [];
    }
    UncutBeforeAnd("x", "", Outside);
    assert "x" + AND + "" == p + " ";
    UncutDropLast(p, ' ', OR, Outside);
    EndConcat("x", " and", Outside);
    assert "x" + " and" == p;
    AndEndsOutside();
    EndConcat(" and", " ", Outside);
    assert " and" + " " == AND;
    assert End(" and", Outside) == Outside;
    SplitFirst(p, OR, rest, Outside);
    assert Uncut(rest, OR, Outside);
    UncutIsWhole(rest, OR);
  }
}
