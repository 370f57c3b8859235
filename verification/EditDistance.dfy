/**
  Edit distance as computed by the MCP tool scanner, and the typosquatting verdict that rests on it.

  The meaning of "distance" is given by edit scripts: sequences of single-character edits, each made
  at any position of the current string. `Lev` is the recurrence the table holds; the two main lemmas
  say it is reached by some script and beaten by none.
 */
module EditDistance {

  /** One single-character edit. */
  datatype Edit =
    | Insert(at: nat, c: char)
    | Delete(at: nat)
    | Substitute(at: nat, c: char)

  predicate Fits(e: Edit, s: string) {
    match e
    case Insert(k, _) => k <= |s|
    case Delete(k) => k < |s|
    case Substitute(k, _) => k < |s|
  }

  function Splice(s: string, k: nat, removed: nat, text: string): string
    requires k + removed <= |s|
  {
    s[..k] + text + s[k + removed..]
  }

  function Apply(e: Edit, s: string): string
    requires Fits(e, s)
  {
    match e
    case Insert(k, c) => Splice(s, k, 0, [c])
    case Delete(k) => Splice(s, k, 1, [])
    case Substitute(k, c) => Splice(s, k, 1, [c])
  }

  lemma SpliceTail(s: string, k: nat, removed: nat, text: string, tail: string)
    requires k + removed <= |s|
    ensures Splice(s + tail, k, removed, text) == Splice(s, k, removed, text) + tail
  {
    assert (s + tail)[..k] == s[..k];
    assert (s + tail)[k + removed..] == s[k + removed..] + tail;
  }

  lemma ApplyTail(e: Edit, s: string, tail: string)
    requires Fits(e, s)
    ensures Fits(e, s + tail) && Apply(e, s + tail) == Apply(e, s) + tail
  {
    match e
    case Insert(k, c) => SpliceTail(s, k, 0, [c], tail);
    case Delete(k) => SpliceTail(s, k, 1, [], tail);
    case Substitute(k, c) => SpliceTail(s, k, 1, [c], tail);
  }

  /** An edit before the last character leaves that character in place. */
  lemma ApplyInit(e: Edit, s: string)
    requires s != [] && Fits(e, Init(s))
    ensures Fits(e, s) && Apply(e, s) != [] && Init(Apply(e, s)) == Apply(e, Init(s)) && Last(Apply(e, s)) == Last(s)
  {
    ApplyTail(e, Init(s), [Last(s)]);
    assert Init(s) + [Last(s)] == s;
  }

  lemma InitLast(s: string)
    requires s != []
    ensures Init(s) + [Last(s)] == s
  {
  }

  lemma ApplyAtEnd(x: string, c: char, d: char)
    ensures Apply(Insert(|x|, c), x) == x + [c]
    ensures Apply(Delete(|x|), x + [c]) == x
    ensures Apply(Substitute(|x|, d), x + [c]) == x + [d]
  {
    assert x[..|x|] == x && (x + [c])[..|x|] == x;
  }

  /** The script can be carried out on `a`, edit by edit, and ends in `b`. */
  predicate Turns(script: seq<Edit>, a: string, b: string) {
    if script == [] then a == b
    else Fits(script[0], a) && Turns(script[1..], Apply(script[0], a), b)
  }

  /** Some script of at most `n` edits turns `a` into `b`. */
  ghost predicate WithinEdits(a: string, b: string, n: nat) {
    exists script: seq<Edit> :: |script| <= n && Turns(script, a, b)
  }

  /** `d` is the least number of edits that turns `a` into `b`. */
  ghost predicate IsDistance(a: string, b: string, d: nat) {
    && WithinEdits(a, b, d)
    && forall script: seq<Edit> :: Turns(script, a, b) ==> d <= |script|
  }

  function Min(x: nat, y: nat): nat {
    if x <= y then x else y
  }

  function Init(s: string): string
    requires s != []
  {
    s[..|s| - 1]
  }

  function Last(s: string): char
    requires s != []
  {
    s[|s| - 1]
  }

  /** The recurrence of the table: the value of cell (|a|, |b|). */
  function Lev(a: string, b: string): nat
    decreases |a| + |b|
  {
    if a == [] then |b|
    else if b == [] then |a|
    else
      var cost := if Last(a) == Last(b) then 0 else 1;
      Min(Min(Lev(Init(a), b) + 1, Lev(a, Init(b)) + 1), Lev(Init(a), Init(b)) + cost)
  }

  // ---------- the recurrence is reached by a script ----------

  lemma {:induction false} TurnsConcat(p: seq<Edit>, q: seq<Edit>, a: string, b: string, c: string)
    requires Turns(p, a, b) && Turns(q, b, c)
    ensures Turns(p + q, a, c)
  {
    if p == [] {
      assert p + q == q;
    } else {
      TurnsConcat(p[1..], q, Apply(p[0], a), b, c);
      assert (p + q)[1..] == p[1..] + q;
    }
  }

  lemma TurnsSnoc(p: seq<Edit>, a: string, b: string, e: Edit)
    requires Turns(p, a, b) && Fits(e, b)
    ensures Turns(p + [e], a, Apply(e, b))
  {
    TurnsConcat(p, [e], a, b, Apply(e, b));
  }

  /** A script that works on a prefix works on the whole string and leaves the tail alone. */
  lemma {:induction false} TurnsPrefix(script: seq<Edit>, a: string, b: string, tail: string)
    requires Turns(script, a, b)
    ensures Turns(script, a + tail, b + tail)
  {
    if script == [] {
    } else {
      TurnsPrefix(script[1..], Apply(script[0], a), b, tail);
      ApplyTail(script[0], a, tail);
    }
  }

  lemma TurnsInsertLast(script: seq<Edit>, a: string, y: string, c: char)
    requires Turns(script, a, y)
    ensures Turns(script + [Insert(|y|, c)], a, y + [c])
  {
    ApplyAtEnd(y, c, c);
    TurnsSnoc(script, a, y, Insert(|y|, c));
  }

  lemma TurnsDeleteLast(script: seq<Edit>, x: string, c: char, b: string)
    requires Turns(script, x, b)
    ensures Turns([Delete(|x|)] + script, x + [c], b)
  {
    ApplyAtEnd(x, c, c);
    TurnsConcat([Delete(|x|)], script, x + [c], x, b);
  }

  lemma TurnsReplaceLast(script: seq<Edit>, x: string, c: char, y: string, d: char)
    requires Turns(script, x, y)
    ensures Turns(script + [Substitute(|y|, d)], x + [c], y + [d])
  {
    TurnsPrefix(script, x, y, [c]);
    ApplyAtEnd(y, c, d);
    TurnsSnoc(script, x + [c], y + [c], Substitute(|y|, d));
  }

  lemma TurnsDiagonal(p: seq<Edit>, a: string, b: string) returns (script: seq<Edit>)
    requires a != [] && b != [] && Turns(p, Init(a), Init(b))
    ensures Turns(script, a, b) && |script| == |p| + if Last(a) == Last(b) then 0 else 1
  {
    InitLast(a);
    InitLast(b);
    if Last(a) == Last(b) {
      TurnsPrefix(p, Init(a), Init(b), [Last(a)]);
      script := p;
    } else {
      TurnsReplaceLast(p, Init(a), Last(a), Init(b), Last(b));
      script := p + [Substitute(|b| - 1, Last(b))];
    }
  }

  lemma {:induction false} LevIsReached(a: string, b: string) returns (script: seq<Edit>)
    ensures Turns(script, a, b) && |script| == Lev(a, b)
    decreases |a| + |b|
  {
    if a == [] && b == [] {
      script := [];
    } else if a == [] || (b != [] && Lev(a, b) == Lev(a, Init(b)) + 1) {
      var p := LevIsReached(a, Init(b));
      InitLast(b);
      TurnsInsertLast(p, a, Init(b), Last(b));
      script := p + [Insert(|b| - 1, Last(b))];
    } else if b == [] || Lev(a, b) == Lev(Init(a), b) + 1 {
      var p := LevIsReached(Init(a), b);
      InitLast(a);
      TurnsDeleteLast(p, Init(a), Last(a), b);
      script := [Delete(|a| - 1)] + p;
    } else {
      var p := LevIsReached(Init(a), Init(b));
      script := TurnsDiagonal(p, a, b);
    }
  }

  // ---------- no script beats the recurrence ----------

  /** Dropping the last character moves the value by at most one. */
  lemma {:induction false} LevDropLast(a: string, b: string)
    requires a != []
    ensures Lev(Init(a), b) <= Lev(a, b) + 1
    decreases |b|
  {
    if b == [] {
    } else {
      LevDropLast(a, Init(b));
    }
  }

  /** A single edit, wherever it is made, moves the value by at most one. */
  lemma {:induction false} LevOneEdit(a: string, e: Edit, b: string)
    requires Fits(e, a)
    ensures Lev(a, b) <= Lev(Apply(e, a), b) + 1
    decreases |a| + |b|
  {
    var a' := Apply(e, a);
    if e.Insert? && e.at == |a| {
      ApplyAtEnd(a, e.c, e.c);
      assert Init(a') == a;
      LevDropLast(a', b);
    } else if Fits(e, Init(a)) {
      ApplyInit(e, a);
      if b != [] {
        LevOneEdit(a, e, Init(b));
        LevOneEdit(Init(a), e, b);
        LevOneEdit(Init(a), e, Init(b));
      }
    } else {
      InitLast(a);
      if e.Delete? {
        ApplyAtEnd(Init(a), Last(a), Last(a));
      } else {
        ApplyAtEnd(Init(a), Last(a), e.c);
        assert Init(a') == Init(a);
        if b != [] {
          LevOneEdit(a, e, Init(b));
        }
      }
    }
  }

  lemma {:induction false} LevIsLowerBound(script: seq<Edit>, a: string, b: string)
    requires Turns(script, a, b)
    ensures Lev(a, b) <= |script|
  {
    if script == [] {
      LevSelf(a);
    } else {
      LevIsLowerBound(script[1..], Apply(script[0], a), b);
      LevOneEdit(a, script[0], b);
    }
  }

  lemma {:induction false} LevSelf(a: string)
    ensures Lev(a, a) == 0
  {
    if a == [] {
    } else {
      LevSelf(Init(a));
    }
  }

  lemma LevIsDistance(a: string, b: string)
    ensures IsDistance(a, b, Lev(a, b))
  {
    var script := LevIsReached(a, b);
    forall s: seq<Edit> | Turns(s, a, b)
      ensures Lev(a, b) <= |s|
    {
      LevIsLowerBound(s, a, b);
    }
  }

  // ---------- distance is a metric ----------

  lemma ZeroIffEqual(a: string, b: string, d: nat)
    requires IsDistance(a, b, d)
    ensures d == 0 <==> a == b
  {
    if a == b {
      assert Turns([], a, b);
    }
  }

  lemma SpliceBack(s: string, k: nat, removed: nat, text: string)
    requires k + removed <= |s|
    ensures Splice(Splice(s, k, removed, text), k, |text|, s[k..k + removed]) == s
  {
    var t := Splice(s, k, removed, text);
    assert t[..k] == s[..k] && t[k + |text|..] == s[k + removed..];
  }

  /** Every edit can be taken back by one edit. */
  lemma Undo(e: Edit, s: string) returns (u: Edit)
    requires Fits(e, s)
    ensures Fits(u, Apply(e, s)) && Apply(u, Apply(e, s)) == s
  {
    var k := e.at;
    if e.Insert? {
      u := Delete(k);
      SpliceBack(s, k, 0, [e.c]);
      assert s[k..k] == [];
    } else {
      assert s[k..k + 1] == [s[k]];
      if e.Delete? {
        u := Insert(k, s[k]);
        SpliceBack(s, k, 1, []);
      } else {
        u := Substitute(k, s[k]);
        SpliceBack(s, k, 1, [e.c]);
      }
    }
  }

  lemma {:induction false} ReverseScript(script: seq<Edit>, a: string, b: string) returns (back: seq<Edit>)
    requires Turns(script, a, b)
    ensures Turns(back, b, a) && |back| == |script|
  {
    if script == [] {
      back := [];
    } else {
      var a' := Apply(script[0], a);
      back := ReverseScript(script[1..], a', b);
      var u := Undo(script[0], a);
      TurnsSnoc(back, b, a', u);
      back := back + [u];
    }
  }

  lemma Symmetric(a: string, b: string, d: nat, e: nat)
    requires IsDistance(a, b, d) && IsDistance(b, a, e)
    ensures d == e
  {
    var p: seq<Edit> :| |p| <= d && Turns(p, a, b);
    var q: seq<Edit> :| |q| <= e && Turns(q, b, a);
    var p' := ReverseScript(p, a, b);
    var q' := ReverseScript(q, b, a);
  }

  lemma TriangleInequality(a: string, b: string, c: string, ab: nat, bc: nat, ac: nat)
    requires IsDistance(a, b, ab) && IsDistance(b, c, bc) && IsDistance(a, c, ac)
    ensures ac <= ab + bc
  {
    var p: seq<Edit> :| |p| <= ab && Turns(p, a, b);
    var q: seq<Edit> :| |q| <= bc && Turns(q, b, c);
    TurnsConcat(p, q, a, b, c);
  }

  // ---------- the table ----------

  /** The value that belongs in cell (i, j): the distance between two prefixes. */
  function Cell(a: string, b: string, i: nat, j: nat): nat
    requires i <= |a| && j <= |b|
  {
    Lev(a[..i], b[..j])
  }

  lemma CellStep(a: string, b: string, i: nat, j: nat)
    requires 0 < i <= |a| && 0 < j <= |b|
    ensures Cell(a, b, i, j) == Min(Min(Cell(a, b, i - 1, j) + 1, Cell(a, b, i, j - 1) + 1),
                                    Cell(a, b, i - 1, j - 1) + if a[i - 1] == b[j - 1] then 0 else 1)
  {
    assert Init(a[..i]) == a[..i - 1] && Init(b[..j]) == b[..j - 1];
  }

  lemma CellBorder(a: string, b: string)
    ensures forall i | 0 <= i <= |a| :: Cell(a, b, i, 0) == i
    ensures forall j | 0 <= j <= |b| :: Cell(a, b, 0, j) == j
  {
  }

  lemma CellLast(a: string, b: string)
    ensures Cell(a, b, |a|, |b|) == Lev(a, b)
  {
    assert a[..|a|] == a && b[..|b|] == b;
  }

  lemma TableIsDistance(a: string, b: string, d: nat)
    requires d == Cell(a, b, |a|, |b|)
    ensures IsDistance(a, b, d)
  {
    CellLast(a, b);
    LevIsDistance(a, b);
  }

  ghost predicate RowFilled(dp: array2<nat>, a: string, b: string, i: nat, upTo: nat)
    requires dp.Length0 == |a| + 1 && dp.Length1 == |b| + 1
    requires i <= |a| && upTo <= |b| + 1
    reads dp
  {
    forall j {:trigger Cell(a, b, i, j)} | 0 <= j < upTo :: dp[i, j] == Cell(a, b, i, j)
  }

  ghost predicate FirstColumnFilled(dp: array2<nat>, upTo: nat)
    requires upTo <= dp.Length0 && 0 < dp.Length1
    reads dp
  {
    forall i {:trigger dp[i, 0]} | 0 <= i < upTo :: dp[i, 0] == i
  }

  /** Fills the table row by row and returns its last cell. */
  method Levenshtein(a: string, b: string) returns (d: nat)
    ensures IsDistance(a, b, d)
  {
    var m, n := |a|, |b|;
    var dp := new nat[m + 1, n + 1]((_, _) => 0);
    CellBorder(a, b);
    for i := 0 to m + 1
      invariant FirstColumnFilled(dp, i)
    {
      dp[i, 0] := i;
    }
    for j := 0 to n + 1
      invariant FirstColumnFilled(dp, m + 1)
      invariant RowFilled(dp, a, b, 0, j)
    {
      dp[0, j] := j;
    }
    for i := 1 to m + 1
      invariant FirstColumnFilled(dp, m + 1)
      invariant RowFilled(dp, a, b, i - 1, n + 1)
    {
      for j := 1 to n + 1
        invariant FirstColumnFilled(dp, m + 1)
        invariant RowFilled(dp, a, b, i - 1, n + 1)
        invariant RowFilled(dp, a, b, i, j)
      {
        var cost := if a[i - 1] == b[j - 1] then 0 else 1;
        CellStep(a, b, i, j);
        dp[i, j] := Min(Min(dp[i - 1, j] + 1, dp[i, j - 1] + 1), dp[i - 1, j - 1] + cost);
      }
    }
    d := dp[m, n];
    TableIsDistance(a, b, d);
  }

  // ---------- typosquatting ----------

  const KNOWN_TOOL_NAMES: seq<string> := [
    "read_file", "write_file", "execute_command", "search", "browse", "fetch", "list_directory",
    "create_file", "delete_file", "run_script", "get_weather", "send_email", "query_database",
    "http_request", "calculator"]

  datatype Severity = Low | Medium | High | Critical

  datatype ThreatType = ToolPoisoning | Typosquatting | HiddenInstruction | RugPull

  datatype Threat = Threat(kind: ThreatType, severity: Severity, evidence: string)

  /** The report on one known name: it is suspicious when it differs and two edits suffice. */
  ghost function TyposquatFinding(name: string, known: string): seq<Threat> {
    if name != known && WithinEdits(name, known, 2)
    then [Threat(Typosquatting, if WithinEdits(name, known, 1) then High else Medium, known)]
    else []
  }

  ghost function TyposquatFindings(name: string, known: seq<string>): seq<Threat> {
    if known == [] then []
    else TyposquatFindings(name, known[..|known| - 1]) + TyposquatFinding(name, known[|known| - 1])
  }

  /** The distance decides the report. */
  lemma FindingByDistance(name: string, known: string, dist: nat)
    requires IsDistance(name, known, dist)
    ensures TyposquatFinding(name, known) ==
            if name != known && 0 < dist <= 2
            then [Threat(Typosquatting, if dist == 1 then High else Medium, known)]
            else []
  {
    ZeroIffEqual(name, known, dist);
    assert forall n: nat :: dist <= n <==> WithinEdits(name, known, n);
  }

  lemma FindingsStep(name: string, known: seq<string>, i: nat)
    requires i < |known|
    ensures TyposquatFindings(name, known[..i + 1]) ==
            TyposquatFindings(name, known[..i]) + TyposquatFinding(name, known[i])
  {
    assert known[..i + 1][..i] == known[..i];
  }

  /** The body of the loop: what one known name contributes. */
  method CheckKnown(name: string, known: string) returns (found: seq<Threat>)
    ensures found == TyposquatFinding(name, known)
  {
    if name == known {
      return [];
    }
    var dist := Levenshtein(name, known);
    FindingByDistance(name, known, dist);
    found := if dist > 0 && dist <= 2
             then [Threat(Typosquatting, if dist == 1 then High else Medium, known)]
             else [];
  }

  /** The loop over the known names; `lower` stands for the library's lower-casing. */
  method DetectTyposquatting(toolName: string, lower: string -> string, knownNames: seq<string>, threats: seq<Threat>)
    returns (threats': seq<Threat>)
    ensures threats' == threats + TyposquatFindings(lower(toolName), knownNames)
  {
    var name := lower(toolName);
    var found: seq<Threat> := [];
    for i := 0 to |knownNames|
      invariant found == TyposquatFindings(name, knownNames[..i])
    {
      var next := CheckKnown(name, knownNames[i]);
      FindingsStep(name, knownNames, i);
      found := found + next;
    }
    assert knownNames[..|knownNames|] == knownNames;
    threats' := threats + found;
  }

  method ScanToolName(toolName: string, lower: string -> string) returns (threats: seq<Threat>)
    ensures threats == TyposquatFindings(lower(toolName), KNOWN_TOOL_NAMES)
  {
    threats := DetectTyposquatting(toolName, lower, KNOWN_TOOL_NAMES, []);
  }

  /** A known name is reported exactly when it differs from the given one and two edits suffice,
      and the report is of high severity exactly when one edit does. */
  lemma {:induction false} FindingsAreExact(name: string, known: seq<string>, k: string, severity: Severity)
    ensures Threat(Typosquatting, severity, k) in TyposquatFindings(name, known) <==>
            && k in known && name != k && WithinEdits(name, k, 2)
            && severity == if WithinEdits(name, k, 1) then High else Medium
  {
    if known == [] {
    } else {
      var rest, last := known[..|known| - 1], known[|known| - 1];
      FindingsAreExact(name, rest, k, severity);
      assert known == rest + [last];
      assert TyposquatFindings(name, known) == TyposquatFindings(name, rest) + TyposquatFinding(name, last);
    }
  }

  lemma KnownNames(k: string)
    ensures k in KNOWN_TOOL_NAMES <==>
            k in {"read_file", "write_file", "execute_command", "search", "browse", "fetch", "list_directory",
                  "create_file", "delete_file", "run_script", "get_weather", "send_email", "query_database",
                  "http_request", "calculator"}
  {
  }

  /** A scan of a tool's name reports exactly the known names that differ from it by one edit, as high, or two, as medium. */
  lemma ScanIsExact(name: string, k: string, severity: Severity)
    ensures Threat(Typosquatting, severity, k) in TyposquatFindings(name, KNOWN_TOOL_NAMES) <==>
            && k in {"read_file", "write_file", "execute_command", "search", "browse", "fetch", "list_directory",
                     "create_file", "delete_file", "run_script", "get_weather", "send_email", "query_database",
                     "http_request", "calculator"}
            && name != k && WithinEdits(name, k, 2)
            && severity == if WithinEdits(name, k, 1) then High else Medium
  {
    KnownNames(k);
    FindingsAreExact(name, KNOWN_TOOL_NAMES, k, severity);
  }
}
