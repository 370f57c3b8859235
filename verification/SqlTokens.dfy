/**
  What a query says, token by token: every text whose quotes and block comments are closed is the writing of a list of
  tokens, stripping leaves the tokens but the comments, and splitting cuts between them.
 */
module SqlTokens {
  import opened Wrappers
  import opened Text
  import opened SqlScanner
  import opened SqlPieces

  /** A single character, a quoted text, a comment, or a semicolon that separates statements. */
  datatype Token =
    | Plain(c: char)
    | Literal(quote: char, body: string)
    | LineComment(text: string)
    | BlockComment(text: string)
    | Cut

  /** The text with each `q` written twice. */
  function Doubled(body: string, q: char): string {
    if body == [] then [] else (if body[0] == q then [q, q] else [body[0]]) + Doubled(body[1..], q)
  }

  /** The rest of a literal behind its opening quote. */
  function Ending(body: string, q: char): string {
    Doubled(body, q) + [q]
  }

  function Spelled(t: Token): string {
    match t
    case Plain(c) => [c]
    case Literal(q, body) => [q] + Ending(body, q)
    case LineComment(text) => "--" + text
    case BlockComment(text) => "/*" + text + "*/"
    case Cut => ";"
  }

  function Written(ts: seq<Token>): string {
    if ts == [] then [] else Spelled(ts[0]) + Written(ts[1..])
  }

  predicate BeginsWith(s: string, c: char) {
    s != [] && s[0] == c
  }

  /** The token may stand in front of this text. */
  predicate Fits(t: Token, rest: string) {
    match t
    case Plain(c) =>
      && c != '\'' && c != '"' && c != '`' && c != ';'
      && !(c == '-' && BeginsWith(rest, '-')) && !(c == '/' && BeginsWith(rest, '*'))
    case Literal(q, _) => (q == '\'' || q == '"' || q == '`') && !BeginsWith(rest, q)
    case LineComment(text) =>
      && (forall i | 0 <= i < |text| :: text[i] != '\n' && text[i] != '\r')
      && (rest == [] || rest[0] == '\n' || rest[0] == '\r')
    case BlockComment(text) => forall i | 0 <= i < |text| - 1 :: !(text[i] == '*' && text[i + 1] == '/')
    case Cut => true
  }

  predicate Readable(ts: seq<Token>) {
    ts == [] || (Fits(ts[0], Written(ts[1..])) && Readable(ts[1..]))
  }

  // ---------- literals ----------

  lemma EndingNext(body: string, q: char)
    requires body != []
    ensures Ending(body, q) == (if body[0] == q then [q, q] else [body[0]]) + Ending(body[1..], q)
  {
  }

  /** Inside a literal everything is copied up to its end. */
  lemma {:induction false} InLiteral(body: string, q: char, rest: string)
    requires !BeginsWith(rest, q)
    ensures Strip(Ending(body, q) + rest, Some(q)) == Ending(body, q) + Strip(rest, None)
    ensures Segments(Ending(body, q) + rest, Some(q)) == Prepend(Ending(body, q), Segments(rest, None))
    ensures EndsOutside(Ending(body, q) + rest, Some(q)) <==> EndsOutside(rest, None)
  {
    if body == [] {
      assert Ending(body, q) == [q];
      LiteralEnds(q, rest);
    } else {
      var first := if body[0] == q then [q, q] else [body[0]];
      var more := Ending(body[1..], q);
      InLiteral(body[1..], q, rest);
      EndingNext(body, q);
      CopyInLiteral(first, body[0], q, more + rest);
      ConcatAssoc(first, more, rest);
      ConcatAssoc(first, more, Strip(rest, None));
      PrependTwice(first, more, Segments(rest, None));
    }
  }

  lemma LiteralEnds(q: char, rest: string)
    requires !BeginsWith(rest, q)
    ensures Strip([q] + rest, Some(q)) == [q] + Strip(rest, None)
    ensures Segments([q] + rest, Some(q)) == Prepend([q], Segments(rest, None))
    ensures EndsOutside([q] + rest, Some(q)) <==> EndsOutside(rest, None)
  {
    var t := [q] + rest;
    assert t[1..] == rest && t[..1] == [q] && (|t| > 1 ==> t[1] == rest[0]);
  }

  lemma CopyInLiteral(first: string, c: char, q: char, rest: string)
    requires first == if c == q then [q, q] else [c]
    ensures Strip(first + rest, Some(q)) == first + Strip(rest, Some(q))
    ensures Segments(first + rest, Some(q)) == Prepend(first, Segments(rest, Some(q)))
    ensures EndsOutside(first + rest, Some(q)) <==> EndsOutside(rest, Some(q))
  {
    var t, n := first + rest, |first|;
    assert t[0] == c && (n == 2 ==> t[1] == q);
    assert t[..n] == first && t[n..] == rest;
  }

  /** From the opening quote on. */
  lemma LiteralIsKept(q: char, body: string, rest: string)
    requires Fits(Literal(q, body), rest)
    ensures var s := Spelled(Literal(q, body));
            && Strip(s + rest, None) == s + Strip(rest, None)
            && Segments(s + rest, None) == Prepend(s, Segments(rest, None))
            && (EndsOutside(s + rest, None) <==> EndsOutside(rest, None))
  {
    var inside := Ending(body, q);
    var t := [q] + (inside + rest);
    assert Spelled(Literal(q, body)) + rest == t;
    assert t[0] == q && t[1..] == inside + rest && t[..1] == [q];
    assert "--"[0] == '-' && "/*"[0] == '/';
    InLiteral(body, q, rest);
    ConcatAssoc([q], inside, Strip(rest, None));
    PrependTwice([q], inside, Segments(rest, None));
  }

  lemma {:induction false} InOpenLiteral(body: string, q: char)
    ensures Strip(Doubled(body, q), Some(q)) == Doubled(body, q)
    ensures Segments(Doubled(body, q), Some(q)) == [Doubled(body, q)]
  {
    if body == [] {
    } else {
      var first := if body[0] == q then [q, q] else [body[0]];
      InOpenLiteral(body[1..], q);
      CopyInLiteral(first, body[0], q, Doubled(body[1..], q));
    }
  }

  /** A literal that is left open goes on to the end of the text. */
  lemma OpenLiteralIsKept(q: char, body: string)
    requires q == '\'' || q == '"' || q == '`'
    ensures Strip([q] + Doubled(body, q), None) == [q] + Doubled(body, q)
    ensures Segments([q] + Doubled(body, q), None) == [[q] + Doubled(body, q)]
  {
    var t := [q] + Doubled(body, q);
    assert t[0] == q && t[1..] == Doubled(body, q) && t[..1] == [q];
    assert "--"[0] == '-' && "/*"[0] == '/';
    InOpenLiteral(body, q);
  }

  // ---------- the other tokens ----------

  lemma PlainIsKept(c: char, rest: string)
    requires Fits(Plain(c), rest)
    ensures Strip([c] + rest, None) == [c] + Strip(rest, None)
    ensures Segments([c] + rest, None) == Prepend([c], Segments(rest, None))
    ensures EndsOutside([c] + rest, None) <==> EndsOutside(rest, None)
  {
    var t := [c] + rest;
    assert t[0] == c && t[1..] == rest && t[..1] == [c] && (|t| > 1 ==> t[1] == rest[0]);
    assert "--"[0] == '-' && "--"[1] == '-' && "/*"[0] == '/' && "/*"[1] == '*';
  }

  lemma CutCuts(rest: string)
    ensures Strip(";" + rest, None) == ";" + Strip(rest, None)
    ensures Segments(";" + rest, None) == [""] + Segments(rest, None)
    ensures EndsOutside(";" + rest, None) <==> EndsOutside(rest, None)
  {
    var t := ";" + rest;
    assert t[0] == ';' && t[1..] == rest && t[..1] == ";";
    assert "--"[0] == '-' && "/*"[0] == '/';
  }

  lemma {:induction false} LineSkipped(text: string, rest: string)
    requires Fits(LineComment(text), rest)
    ensures SkipLine(text + rest) == rest
  {
    if text == [] {
      assert text + rest == rest;
    } else {
      assert (text + rest)[0] == text[0] && (text + rest)[1..] == text[1..] + rest;
      LineSkipped(text[1..], rest);
    }
  }

  lemma LineCommentGoes(text: string, rest: string)
    requires Fits(LineComment(text), rest)
    ensures Strip("--" + text + rest, None) == " " + Strip(rest, None)
    ensures EndsOutside("--" + text + rest, None) <==> EndsOutside(rest, None)
  {
    var t := "--" + text + rest;
    assert t[2..] == text + rest && t[..2] == "--";
    LineSkipped(text, rest);
  }

  lemma BlockEndsHere(text: string, rest: string)
    requires Fits(BlockComment(text), rest)
    ensures var t := text + "*/" + rest; Terminated(t) && SkipBlock(t) == rest
  {
    var t := text + "*/" + rest;
    assert t[|text|] == '*' && t[|text| + 1] == '/';
    forall j: nat | j < |text|
      ensures !EndsAt(t, j)
    {
      assert t[j] == text[j] && (j + 1 < |text| ==> t[j + 1] == text[j + 1]);
    }
    assert FirstEnd(t, |text|);
    SkipBlockIff(t);
    assert t[|text| + 2..] == rest;
  }

  lemma BlockCommentGoes(text: string, rest: string)
    requires Fits(BlockComment(text), rest)
    ensures Strip("/*" + text + "*/" + rest, None) == " " + Strip(rest, None)
    ensures EndsOutside("/*" + text + "*/" + rest, None) <==> EndsOutside(rest, None)
  {
    var t := "/*" + text + "*/" + rest;
    assert t[2..] == text + "*/" + rest && t[..2] == "/*" && t[0] == '/' && "--"[0] == '-';
    BlockEndsHere(text, rest);
  }

  // ---------- what stripping leaves ----------

  predicate IsComment(t: Token) {
    t.LineComment? || t.BlockComment?
  }

  /** The tokens with a space for each comment. */
  function Blanked(ts: seq<Token>): seq<Token> {
    if ts == [] then [] else [if IsComment(ts[0]) then Plain(' ') else ts[0]] + Blanked(ts[1..])
  }

  lemma WrittenNext(t: Token, ts: seq<Token>)
    ensures Written([t] + ts) == Spelled(t) + Written(ts)
  {
    assert ([t] + ts)[1..] == ts;
  }

  lemma TokenStripped(t: Token, rest: string)
    requires Fits(t, rest)
    ensures Strip(Spelled(t) + rest, None) == (if IsComment(t) then " " else Spelled(t)) + Strip(rest, None)
    ensures EndsOutside(Spelled(t) + rest, None) <==> EndsOutside(rest, None)
  {
    match t
    case Plain(c) => PlainIsKept(c, rest);
    case Literal(q, body) => LiteralIsKept(q, body, rest);
    case LineComment(text) => LineCommentGoes(text, rest);
    case BlockComment(text) => BlockCommentGoes(text, rest);
    case Cut => CutCuts(rest);
  }

  lemma BlankedHead(ts: seq<Token>, c: char)
    requires c != ' ' && !BeginsWith(Written(ts), c)
    ensures !BeginsWith(Written(Blanked(ts)), c)
  {
    if ts != [] {
      WrittenNext(if IsComment(ts[0]) then Plain(' ') else ts[0], Blanked(ts[1..]));
    }
  }

  /** Stripping a written query leaves all tokens but the comments, each of which becomes a space. */
  lemma {:induction false} StripReads(ts: seq<Token>)
    requires Readable(ts)
    ensures Strip(Written(ts), None) == Written(Blanked(ts))
    ensures Readable(Blanked(ts)) && EndsOutside(Written(ts), None)
  {
    if ts == [] {
    } else {
      var t, more := ts[0], ts[1..];
      var t' := if IsComment(t) then Plain(' ') else t;
      StripReads(more);
      TokenStripped(t, Written(more));
      WrittenNext(t', Blanked(more));
      assert Blanked(ts)[1..] == Blanked(more);
      match t
      case Plain(c) =>
        if c == '-' {
          BlankedHead(more, '-');
        }
        if c == '/' {
          BlankedHead(more, '*');
        }
      case Literal(q, _) => BlankedHead(more, q);
      case _ =>
    }
  }

  // ---------- where splitting cuts ----------

  /** The tokens between the cuts. */
  function Groups(ts: seq<Token>): (r: seq<seq<Token>>)
    ensures r != []
  {
    if ts == [] then [[]]
    else
      var more := Groups(ts[1..]);
      if ts[0].Cut? then [[]] + more else [[ts[0]] + more[0]] + more[1..]
  }

  function AllWritten(groups: seq<seq<Token>>): seq<string> {
    seq(|groups|, i requires 0 <= i < |groups| => Written(groups[i]))
  }

  predicate NoComment(ts: seq<Token>) {
    forall i | 0 <= i < |ts| :: !IsComment(ts[i])
  }

  lemma {:induction false} BlankedHasNone(ts: seq<Token>)
    ensures NoComment(Blanked(ts))
  {
    if ts == [] {
    } else {
      BlankedHasNone(ts[1..]);
    }
  }

  lemma TokenSplit(t: Token, rest: string)
    requires Fits(t, rest) && !IsComment(t)
    ensures Segments(Spelled(t) + rest, None) ==
            if t.Cut? then [""] + Segments(rest, None) else Prepend(Spelled(t), Segments(rest, None))
  {
    match t
    case Plain(c) => PlainIsKept(c, rest);
    case Literal(q, body) => LiteralIsKept(q, body, rest);
    case Cut => CutCuts(rest);
  }

  lemma EmptyGroupWritten(groups: seq<seq<Token>>)
    ensures AllWritten([[]] + groups) == [""] + AllWritten(groups)
  {
  }

  lemma LongerGroupWritten(t: Token, groups: seq<seq<Token>>)
    requires groups != []
    ensures AllWritten([[t] + groups[0]] + groups[1..]) == Prepend(Spelled(t), AllWritten(groups))
  {
    WrittenNext(t, groups[0]);
  }

  /** Splitting a written text without comments cuts it exactly at its cuts. */
  lemma {:induction false} SegmentsRead(ts: seq<Token>)
    requires Readable(ts) && NoComment(ts)
    ensures Segments(Written(ts), None) == AllWritten(Groups(ts))
  {
    if ts == [] {
    } else {
      var t, more := ts[0], ts[1..];
      SegmentsRead(more);
      TokenSplit(t, Written(more));
      EmptyGroupWritten(Groups(more));
      LongerGroupWritten(t, Groups(more));
    }
  }

  // ---------- the guard ----------

  /** Something other than comments and white space. */
  predicate Says(ts: seq<Token>) {
    exists i | 0 <= i < |ts| :: ts[i].Literal? || (ts[i].Plain? && !IsSpace(ts[i].c))
  }

  lemma BlankIff(s: string)
    ensures Trim(s) == [] <==> forall i | 0 <= i < |s| :: IsSpace(s[i])
  {
    TrimStartIff(s);
    var t := TrimStart(s);
    TrimStartStarts(s);
    TrimEndEnds(t);
    if t != [] {
      FirstStays(t);
    }
  }

  lemma {:induction false} TrimStartIff(s: string)
    ensures TrimStart(s) == [] <==> forall i | 0 <= i < |s| :: IsSpace(s[i])
  {
    if s == [] || !IsSpace(s[0]) {
    } else {
      TrimStartIff(s[1..]);
      assert forall i | 0 < i < |s| :: s[i] == s[1..][i - 1];
      assert forall i | 0 <= i < |s[1..]| :: s[1..][i] == s[i + 1];
    }
  }

  lemma {:induction false} FirstStays(s: string)
    requires s != [] && !IsSpace(s[0])
    ensures TrimEnd(s) != []
  {
    if IsSpace(s[|s| - 1]) {
      FirstStays(s[..|s| - 1]);
    }
  }

  /** Literals and single characters, as the groups of a query without comments hold. */
  predicate Ordinary(t: Token) {
    match t
    case Plain(_) => true
    case Literal(q, _) => q == '\'' || q == '"' || q == '`'
    case _ => false
  }

  predicate AllOrdinary(ts: seq<Token>) {
    forall i | 0 <= i < |ts| :: Ordinary(ts[i])
  }

  lemma AllSpace(s: string, t: string)
    ensures (forall i | 0 <= i < |s + t| :: IsSpace((s + t)[i])) <==>
            (forall i | 0 <= i < |s| :: IsSpace(s[i])) && (forall i | 0 <= i < |t| :: IsSpace(t[i]))
  {
    assert forall i | 0 <= i < |s| :: s[i] == (s + t)[i];
    assert forall i | 0 <= i < |t| :: t[i] == (s + t)[|s| + i];
  }

  /** A group is more than white space exactly if it says something. */
  lemma {:induction false} SaysIff(ts: seq<Token>)
    requires AllOrdinary(ts)
    ensures Trim(Written(ts)) != [] <==> Says(ts)
  {
    BlankIff(Written(ts));
    if ts == [] {
    } else {
      var s, rest := Spelled(ts[0]), Written(ts[1..]);
      SaysIff(ts[1..]);
      BlankIff(rest);
      AllSpace(s, rest);
      SaysNext(ts[0], ts[1..]);
      assert ts == [ts[0]] + ts[1..] && Ordinary(ts[0]);
      assert ts[0].Literal? ==> !IsSpace(s[0]);
    }
  }

  lemma SaysNext(t: Token, ts: seq<Token>)
    ensures Says([t] + ts) <==> t.Literal? || (t.Plain? && !IsSpace(t.c)) || Says(ts)
  {
    var all := [t] + ts;
    assert all[0] == t && forall i | 0 <= i < |ts| :: all[i + 1] == ts[i];
  }

  lemma {:induction false} GroupsAreOrdinary(ts: seq<Token>)
    requires Readable(ts) && NoComment(ts)
    ensures forall k | 0 <= k < |Groups(ts)| :: AllOrdinary(Groups(ts)[k])
  {
    if ts == [] {
    } else {
      GroupsAreOrdinary(ts[1..]);
      assert !IsComment(ts[0]);
    }
  }

  predicate SaySame(a: seq<seq<Token>>, b: seq<seq<Token>>) {
    |a| == |b| && forall k | 0 <= k < |a| :: Says(a[k]) <==> Says(b[k])
  }

  lemma SaySameCut(a: seq<seq<Token>>, b: seq<seq<Token>>)
    requires SaySame(a, b)
    ensures SaySame([[]] + a, [[]] + b)
  {
  }

  lemma SaySameAdd(t: Token, u: Token, a: seq<seq<Token>>, b: seq<seq<Token>>)
    requires SaySame(a, b) && a != []
    requires (t.Literal? || (t.Plain? && !IsSpace(t.c))) <==> (u.Literal? || (u.Plain? && !IsSpace(u.c)))
    ensures SaySame([[t] + a[0]] + a[1..], [[u] + b[0]] + b[1..])
  {
    SaysNext(t, a[0]);
    SaysNext(u, b[0]);
  }

  /** Comments say nothing and cut nothing. */
  lemma {:induction false} BlankedGroups(ts: seq<Token>)
    ensures SaySame(Groups(Blanked(ts)), Groups(ts))
  {
    if ts == [] {
    } else {
      var more := ts[1..];
      BlankedGroups(more);
      var t := Blanked(ts)[0];
      assert Blanked(ts) == [t] + Blanked(more) && Blanked(ts)[1..] == Blanked(more);
      SaySameCut(Groups(Blanked(more)), Groups(more));
      SaySameAdd(t, ts[0], Groups(Blanked(more)), Groups(more));
    }
  }

  /** The statements of a written query are its groups, without comments, white space around them, and blank ones. */
  lemma StatementsRead(ts: seq<Token>)
    requires Readable(ts)
    ensures Statements(Prepared(Written(ts))) == NonBlank(AllWritten(Groups(Blanked(ts))))
  {
    StripReads(ts);
    BlankedHasNone(ts);
    SegmentsRead(Blanked(ts));
    StatementsOfTrim(Written(Blanked(ts)));
  }

  ghost predicate TwoSay(groups: seq<seq<Token>>) {
    exists i, j | 0 <= i < j < |groups| :: Says(groups[i]) && Says(groups[j])
  }

  /** A query is refused exactly if two of its groups say something, whatever its literals and comments hold. */
  lemma RefusedIffTwoSay(ts: seq<Token>)
    requires Readable(ts)
    ensures |Statements(Prepared(Written(ts)))| > 1 <==> TwoSay(Groups(ts))
  {
    var groups := Groups(Blanked(ts));
    StatementsRead(ts);
    StripReads(ts);
    BlankedHasNone(ts);
    GroupsAreOrdinary(Blanked(ts));
    BlankedGroups(ts);
    NonBlankCount(AllWritten(groups));
    forall k | 0 <= k < |groups|
      ensures Trim(AllWritten(groups)[k]) != [] <==> Says(Groups(ts)[k])
    {
      assert AllOrdinary(groups[k]);
      SaysIff(groups[k]);
    }
  }

  lemma BehindLiteral(literal: Token, ts: seq<Token>)
    requires literal.Literal? && Fits(literal, ";" + Written(ts)) && Readable(ts)
    ensures var all := [literal] + ([Cut] + ts);
            && Readable(all) && Written(all) == Spelled(literal) + (";" + Written(ts))
            && Groups(all) == [[literal]] + Groups(ts)
  {
    var rest := [Cut] + ts;
    WrittenNext(Cut, ts);
    WrittenNext(literal, rest);
    assert rest[1..] == ts && ([literal] + rest)[1..] == rest;
    assert Groups(rest) == [[]] + Groups(ts);
    assert [literal] + [] == [literal] && ([[]] + Groups(ts))[1..] == Groups(ts);
  }

  lemma TwoSayBehind(literal: Token, groups: seq<seq<Token>>, i: nat)
    requires literal.Literal? && i < |groups| && Says(groups[i])
    ensures TwoSay([[literal]] + groups)
  {
    var all: seq<seq<Token>> := [[literal]] + groups;
    assert all[0][0].Literal? && all[i + 1] == groups[i];
    assert Says(all[0]) && Says(all[i + 1]);
  }

  /** So no literal hides a statement behind it: `'--'; DROP TABLE x` is refused, like any literal, a semicolon, and text that
      says something. */
  lemma LiteralHidesNothing(q: char, body: string, ts: seq<Token>)
    requires (q == '\'' || q == '"' || q == '`') && Readable(ts)
    requires exists i | 0 <= i < |Groups(ts)| :: Says(Groups(ts)[i])
    ensures |Statements(Prepared([q] + (Doubled(body, q) + [q]) + (";" + Written(ts))))| > 1
  {
    var i :| 0 <= i < |Groups(ts)| && Says(Groups(ts)[i]);
    BehindLiteral(Literal(q, body), ts);
    TwoSayBehind(Literal(q, body), Groups(ts), i);
    RefusedIffTwoSay([Literal(q, body)] + ([Cut] + ts));
  }

  // ---------- every closed text is a list of tokens ----------

  lemma {:induction false} ReadLiteral(s: string, q: char) returns (body: string, rest: string)
    requires EndsOutside(s, Some(q))
    ensures s == Ending(body, q) + rest && !BeginsWith(rest, q) && EndsOutside(rest, None) && |rest| < |s|
    decreases |s|
  {
    if s[0] == q && (|s| == 1 || s[1] != q) {
      body, rest := [], s[1..];
      assert Ending(body, q) == [q];
    } else {
      var n := Advance(s, Some(q)).0;
      var more;
      more, rest := ReadLiteral(s[n..], q);
      body := [s[0]] + more;
      assert body[1..] == more;
      EndingNext(body, q);
      ConcatAssoc(s[..n], Ending(more, q), rest);
      assert s == s[..n] + s[n..];
    }
  }

  lemma {:induction false} ReadLine(s: string) returns (text: string)
    ensures s == text + SkipLine(s) && Fits(LineComment(text), SkipLine(s))
  {
    if s == [] || IsNewline(s[0]) {
      text := [];
    } else {
      var more := ReadLine(s[1..]);
      text := [s[0]] + more;
      assert s == [s[0]] + s[1..];
    }
  }

  lemma ReadBlock(s: string) returns (text: string)
    requires Terminated(s)
    ensures s == text + "*/" + SkipBlock(s) && Fits(BlockComment(text), SkipBlock(s))
  {
    SkipBlockIff(s);
    var k: nat :| FirstEnd(s, k);
    text := s[..k];
    assert s[k..k + 2] == "*/";
    assert s == s[..k] + s[k..k + 2] + s[k + 2..];
    forall i | 0 <= i < |text| - 1
      ensures !(text[i] == '*' && text[i + 1] == '/')
    {
      assert !EndsAt(s, i);
    }
  }

  /** Every text whose quotes and block comments are closed is the writing of some list of tokens. */
  lemma {:induction false} Tokens(s: string) returns (ts: seq<Token>)
    requires EndsOutside(s, None)
    ensures Readable(ts) && Written(ts) == s
    decreases |s|
  {
    if s == [] {
      ts := [];
    } else {
      var t, rest := FirstToken(s);
      var more := Tokens(rest);
      ts := [t] + more;
      assert ts[1..] == more;
    }
  }

  lemma LineFirst(s: string) returns (t: Token)
    requires AtLineComment(s, None)
    ensures s == Spelled(t) + SkipLine(s[2..]) && Fits(t, SkipLine(s[2..]))
  {
    var text := ReadLine(s[2..]);
    t := LineComment(text);
    assert s == "--" + s[2..];
    ConcatAssoc("--", text, SkipLine(s[2..]));
  }

  lemma BlockFirst(s: string) returns (t: Token)
    requires AtBlockComment(s, None) && Terminated(s[2..])
    ensures s == Spelled(t) + SkipBlock(s[2..]) && Fits(t, SkipBlock(s[2..]))
  {
    var text := ReadBlock(s[2..]);
    var rest := SkipBlock(s[2..]);
    t := BlockComment(text);
    assert s == "/*" + s[2..];
    assert "/*" + (text + "*/" + rest) == "/*" + text + "*/" + rest;
  }

  lemma QuoteFirst(s: string) returns (t: Token, rest: string)
    requires s != [] && IsQuote(s[0]) && EndsOutside(s[1..], Some(s[0]))
    ensures s == Spelled(t) + rest && Fits(t, rest) && EndsOutside(rest, None) && |rest| < |s|
  {
    var body;
    body, rest := ReadLiteral(s[1..], s[0]);
    t := Literal(s[0], body);
    assert s == [s[0]] + s[1..];
    ConcatAssoc([s[0]], Ending(body, s[0]), rest);
  }

  lemma PlainFirst(s: string)
    requires s != [] && !AtLineComment(s, None) && !AtBlockComment(s, None) && s[0] != ';' && !IsQuote(s[0])
    ensures s == Spelled(Plain(s[0])) + s[1..] && Fits(Plain(s[0]), s[1..])
  {
    assert s == [s[0]] + s[1..];
    assert |s| > 1 ==> s[..2] == [s[0], s[1]];
  }

  lemma FirstToken(s: string) returns (t: Token, rest: string)
    requires s != [] && EndsOutside(s, None)
    ensures s == Spelled(t) + rest && Fits(t, rest) && EndsOutside(rest, None) && |rest| < |s|
  {
    if AtLineComment(s, None) {
      t := LineFirst(s);
      rest := SkipLine(s[2..]);
    } else if AtBlockComment(s, None) {
      t := BlockFirst(s);
      rest := SkipBlock(s[2..]);
    } else if s[0] == ';' {
      t, rest := Cut, s[1..];
      assert s == [s[0]] + s[1..];
    } else if IsQuote(s[0]) {
      t, rest := QuoteFirst(s);
    } else {
      t, rest := Plain(s[0]), s[1..];
      PlainFirst(s);
    }
  }

  /** So the texts that are read as tokens are exactly those that end outside quotes and block comments. */
  lemma ReadableIff(s: string)
    ensures EndsOutside(s, None) <==> exists ts :: Readable(ts) && Written(ts) == s
  {
    if EndsOutside(s, None) {
      var ts := Tokens(s);
    }
    if ts :| Readable(ts) && Written(ts) == s {
      StripReads(ts);
    }
  }
}
