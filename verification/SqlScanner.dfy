/**
  The SQL comment stripper and statement splitter. Both walk the text with the same quote machine, written once
  as `Advance`: a doubled quote is an escape, any other closing quote ends the literal.
 */
module SqlScanner {
  import opened Wrappers
  import opened Text

  predicate IsQuote(c: char) {
    c == '\'' || c == '"' || c == '`'
  }

  /** The open quote, if any. */
  type Quote = Option<char>

  /** How many characters the quote machine takes from `s`, which is not empty, and the quote that is open then. */
  function Advance(s: string, q: Quote): (r: (nat, Quote))
    requires s != []
    ensures 1 <= r.0 <= |s|
  {
    if q.Some? then
      if s[0] != q.value then (1, q)
      else if |s| > 1 && s[1] == q.value then (2, q)
      else (1, None)
    else if IsQuote(s[0]) then (1, Some(s[0]))
    else (1, None)
  }

  predicate Valid(q: Quote) {
    q.Some? ==> IsQuote(q.value)
  }

  // ---------- comments ----------

  predicate AtLineComment(s: string, q: Quote) {
    q.None? && StartsWith(s, "--")
  }

  predicate AtBlockComment(s: string, q: Quote) {
    q.None? && StartsWith(s, "/*")
  }

  predicate IsNewline(c: char) {
    c == '\n' || c == '\r'
  }

  /** What follows a line comment: the text from the next line break. */
  function SkipLine(s: string): (r: string)
    ensures |r| <= |s|
  {
    if s == [] || IsNewline(s[0]) then s else SkipLine(s[1..])
  }

  predicate Terminated(s: string) {
    |s| >= 2 && (StartsWith(s, "*/") || Terminated(s[1..]))
  }

  /** What follows a block comment. If it is not terminated its last character is left over. */
  function SkipBlock(s: string): (r: string)
    ensures |r| <= |s|
  {
    if |s| < 2 then s
    else if StartsWith(s, "*/") then s[2..]
    else SkipBlock(s[1..])
  }

  predicate EndsAt(s: string, k: nat) {
    k + 2 <= |s| && s[k] == '*' && s[k + 1] == '/'
  }

  /** The first place at which a block comment ends. */
  predicate FirstEnd(s: string, k: nat) {
    EndsAt(s, k) && forall j: nat | j < k :: !EndsAt(s, j)
  }

  lemma FirstEndOfRest(s: string, k: nat)
    requires s != [] && !EndsAt(s, 0)
    ensures FirstEnd(s[1..], k) <==> FirstEnd(s, k + 1)
  {
    assert forall j: nat :: EndsAt(s[1..], j) <==> EndsAt(s, j + 1);
    assert forall j: nat | j < k + 1 :: j == 0 || (EndsAt(s, j) <==> EndsAt(s[1..], j - 1));
  }

  /** What is left of a block comment is the text behind its end exactly if it has one; otherwise it is the last
      character. */
  lemma {:induction false} SkipBlockIff(s: string)
    requires s != []
    ensures Terminated(s) <==> exists k: nat :: FirstEnd(s, k)
    ensures forall k: nat | FirstEnd(s, k) :: SkipBlock(s) == s[k + 2..]
    ensures !Terminated(s) ==> SkipBlock(s) == [s[|s| - 1]]
  {
    if |s| == 1 {
    } else {
      assert s[..2] == [s[0], s[1]];
      if StartsWith(s, "*/") {
        assert FirstEnd(s, 0);
      } else {
        assert !EndsAt(s, 0);
        var rest := s[1..];
        SkipBlockIff(rest);
        forall k: nat
          ensures FirstEnd(rest, k) <==> FirstEnd(s, k + 1)
        {
          FirstEndOfRest(s, k);
        }
        assert !FirstEnd(s, 0);
        assert forall k: nat | FirstEnd(s, k) :: k > 0 && FirstEnd(rest, k - 1);
      }
    }
  }

  /** The text without comments: each is replaced by one space. */
  function Strip(s: string, q: Quote): string
    decreases |s|
  {
    if s == [] then []
    else if AtLineComment(s, q) then " " + Strip(SkipLine(s[2..]), None)
    else if AtBlockComment(s, q) then " " + Strip(SkipBlock(s[2..]), None)
    else
      var (n, q') := Advance(s, q);
      s[..n] + Strip(s[n..], q')
  }

  /** How many characters the quote machine takes at position `i`, and the quote that is open then. */
  function AdvanceAt(sql: string, i: nat, q: Quote): (r: (nat, Quote))
    requires i < |sql|
    ensures 1 <= r.0 <= |sql| - i
    ensures r == Advance(sql[i..], q)
  {
    if q.Some? then
      if sql[i] != q.value then (1, q)
      else if i + 1 < |sql| && sql[i + 1] == q.value then (2, q)
      else (1, None)
    else (1, if IsQuote(sql[i]) then Some(sql[i]) else None)
  }

  /** What the stripper gives in the end, from position `i` on. */
  function Stripped(sql: string, i: nat, q: Quote, out: string): string
    requires i <= |sql|
  {
    out + Strip(sql[i..], q)
  }

  /** A copying step of the stripper. */
  lemma StripCopy(sql: string, i: nat, q: Quote, out: string)
    requires i < |sql| && !AtLineComment(sql[i..], q) && !AtBlockComment(sql[i..], q)
    ensures var (n, q') := AdvanceAt(sql, i, q);
            Stripped(sql, i, q, out) == Stripped(sql, i + n, q', out + sql[i..i + n])
  {
    var (n, q') := AdvanceAt(sql, i, q);
    assert sql[i..][..n] == sql[i..i + n] && sql[i..][n..] == sql[i + n..];
    ConcatAssoc(out, sql[i..i + n], Strip(sql[i + n..], q'));
  }

  /** Putting a space for a comment. */
  lemma StripSpace(sql: string, i: nat, out: string, j: nat)
    requires i < |sql| && j <= |sql|
    requires || (AtLineComment(sql[i..], None) && sql[j..] == SkipLine(sql[i + 2..]))
             || (AtBlockComment(sql[i..], None) && sql[j..] == SkipBlock(sql[i + 2..]))
    ensures Stripped(sql, i, None, out) == Stripped(sql, j, None, out + " ")
  {
    assert sql[i..][2..] == sql[i + 2..];
    assert AtLineComment(sql[i..], None) ==> !AtBlockComment(sql[i..], None) by {
      assert "--"[0] == '-' && "/*"[0] == '/';
    }
    assert Strip(sql[i..], None) == " " + Strip(sql[j..], None);
    ConcatAssoc(out, " ", Strip(sql[j..], None));
  }

  predicate LineCommentAt(sql: string, i: nat) {
    i + 1 < |sql| && sql[i] == '-' && sql[i + 1] == '-'
  }

  predicate BlockCommentAt(sql: string, i: nat) {
    i + 1 < |sql| && sql[i] == '/' && sql[i + 1] == '*'
  }

  lemma CommentAt(sql: string, i: nat)
    requires i <= |sql|
    ensures AtLineComment(sql[i..], None) <==> LineCommentAt(sql, i)
    ensures AtBlockComment(sql[i..], None) <==> BlockCommentAt(sql, i)
  {
    assert "--" == ['-', '-'] && "/*" == ['/', '*'];
    assert i + 1 < |sql| ==> sql[i..][..2] == [sql[i], sql[i + 1]];
  }

  method FindLineEnd(sql: string, start: nat) returns (i: nat)
    requires start <= |sql|
    ensures start <= i <= |sql| && sql[i..] == SkipLine(sql[start..])
  {
    i := start;
    while i < |sql| && !IsNewline(sql[i])
      invariant start <= i <= |sql| && SkipLine(sql[i..]) == SkipLine(sql[start..])
    {
      i := i + 1;
    }
  }

  method FindBlockEnd(sql: string, start: nat) returns (i: nat)
    requires start <= |sql|
    ensures start <= i <= |sql| && sql[i..] == SkipBlock(sql[start..])
    ensures Terminated(sql[start..]) ==> i >= start + 2 && FirstEnd(sql[start..], i - 2 - start)
    ensures !Terminated(sql[start..]) && start < |sql| ==> i == |sql| - 1
  {
    i := start;
    while i + 1 < |sql| && !(sql[i] == '*' && sql[i + 1] == '/')
      invariant start <= i <= |sql| && (start < |sql| ==> i < |sql|)
      invariant forall j: nat | j < i - start :: !EndsAt(sql[start..], j)
    {
      i := i + 1;
    }
    ghost var rest := sql[start..];
    if i + 1 < |sql| {
      assert FirstEnd(rest, i - start);
      SkipBlockIff(rest);
      assert rest[i - start + 2..] == sql[i + 2..];
      i := i + 2;
    } else if start < |sql| {
      BlockNotClosed(rest);
      SkipBlockIff(rest);
      assert sql[i..] == [sql[i]];
    }
  }

  lemma BlockNotClosed(s: string)
    requires s != [] && forall j: nat | j < |s| - 1 :: !EndsAt(s, j)
    ensures !Terminated(s)
  {
    SkipBlockIff(s);
  }

  method StripSqlComments(sql: string) returns (out: string)
    ensures out == Strip(sql, None)
  {
    out := "";
    var quote: Quote := None;
    var i := 0;
    StripWhole(sql);
    ghost var whole := Strip(sql, None);
    while i < |sql|
      invariant i <= |sql| && Stripped(sql, i, quote, out) == whole
    {
      var c := sql[i];
      CommentAt(sql, i);
      if quote.None? && c == '-' && i + 1 < |sql| && sql[i + 1] == '-' {
        var end := FindLineEnd(sql, i + 2);
        StripSpace(sql, i, out, end);
        out := out + " ";
        i := end;
        continue;
      }
      if quote.None? && c == '/' && i + 1 < |sql| && sql[i + 1] == '*' {
        var end := FindBlockEnd(sql, i + 2);
        StripSpace(sql, i, out, end);
        out := out + " ";
        i := end;
        continue;
      }
      StripCopy(sql, i, quote, out);
      if quote.Some? {
        if c == quote.value {
          if i + 1 < |sql| && sql[i + 1] == quote.value {
            out := out + sql[i..i + 2];
            i := i + 2;
            continue;
          }
          quote := None;
        }
      } else if IsQuote(c) {
        quote := Some(c);
      }
      out := out + sql[i..i + 1];
      i := i + 1;
    }
    StripDone(sql, quote, out);
  }

  lemma StripWhole(sql: string)
    ensures Stripped(sql, 0, None, "") == Strip(sql, None)
  {
    assert sql[0..] == sql;
  }

  lemma StripDone(sql: string, q: Quote, out: string)
    ensures Stripped(sql, |sql|, q, out) == out
  {
  }

  lemma ConcatAssoc(x: string, y: string, z: string)
    ensures x + (y + z) == x + y + z
  {
  }

  // ---------- what stripping keeps ----------

  lemma {:induction false} StripNeverLengthens(s: string, q: Quote)
    ensures |Strip(s, q)| <= |s|
    decreases |s|
  {
    if s == [] {
    } else {
      if AtLineComment(s, q) {
        StripNeverLengthens(SkipLine(s[2..]), None);
      } else if AtBlockComment(s, q) {
        StripNeverLengthens(SkipBlock(s[2..]), None);
      } else {
        var (n, q') := Advance(s, q);
        StripNeverLengthens(s[n..], q');
      }
    }
  }

  /** The quote machine meets no comment outside quotes. */
  predicate NoComments(s: string, q: Quote)
    decreases |s|
  {
    s == [] ||
    (!AtLineComment(s, q) && !AtBlockComment(s, q) && NoComments(s[Advance(s, q).0..], Advance(s, q).1))
  }

  /** Stripped text starts like the text, or with the space a comment leaves. */
  lemma StripHead(s: string, q: Quote)
    ensures s == [] <==> Strip(s, q) == []
    ensures s != [] ==> Strip(s, q)[0] == s[0] || Strip(s, q)[0] == ' '
  {
  }

  /** What the quote machine took is copied, and in front of stripped text it takes the same again. */
  lemma AdvanceAgain(s: string, q: Quote)
    requires s != [] && Valid(q) && !AtLineComment(s, q) && !AtBlockComment(s, q)
    ensures var (n, q') := Advance(s, q);
            var t := Strip(s, q);
            && t != [] && !AtLineComment(t, q) && !AtBlockComment(t, q)
            && Advance(t, q) == (n, q') && Valid(q')
            && t[n..] == Strip(s[n..], q') && t[..n] == s[..n]
  {
    var (n, q') := Advance(s, q);
    var u := Strip(s[n..], q');
    var t := s[..n] + u;
    StripHead(s[n..], q');
    assert t[0] == s[0];
    assert n == 2 ==> t[1] == s[1];
    assert n == 1 && u != [] ==> t[1] == u[0] && (u[0] == s[1] || u[0] == ' ');
  }

  /** The space a comment leaves is taken by itself. */
  lemma AfterSpace(u: string)
    ensures var t := " " + u;
            && !AtLineComment(t, None) && !AtBlockComment(t, None)
            && Advance(t, None) == (1, None) && t[..1] == " " && t[1..] == u
  {
    var t := " " + u;
    assert t[0] == ' ' && "--"[0] == '-' && "/*"[0] == '/';
  }

  lemma {:induction false} StripRemovesComments(s: string, q: Quote)
    requires Valid(q)
    ensures NoComments(Strip(s, q), q)
    decreases |s|
  {
    if s == [] {
    } else {
      if AtLineComment(s, q) {
        StripRemovesComments(SkipLine(s[2..]), None);
        AfterSpace(Strip(SkipLine(s[2..]), None));
      } else if AtBlockComment(s, q) {
        StripRemovesComments(SkipBlock(s[2..]), None);
        AfterSpace(Strip(SkipBlock(s[2..]), None));
      } else {
        var (n, q') := Advance(s, q);
        AdvanceAgain(s, q);
        StripRemovesComments(s[n..], q');
      }
    }
  }

  lemma {:induction false} StripKeepsCommentFree(s: string, q: Quote)
    requires NoComments(s, q)
    ensures Strip(s, q) == s
    decreases |s|
  {
    if s == [] {
    } else {
      StripKeepsCommentFree(s[Advance(s, q).0..], Advance(s, q).1);
    }
  }

  /** Text is left as it is exactly when it has no comments, so stripping twice is stripping once. */
  lemma StripIsIdempotent(s: string)
    ensures Strip(Strip(s, None), None) == Strip(s, None)
    ensures Strip(s, None) == s <==> NoComments(s, None)
  {
    StripRemovesComments(s, None);
    StripKeepsCommentFree(Strip(s, None), None);
    if NoComments(s, None) {
      StripKeepsCommentFree(s, None);
    }
  }

  /** The string literals of a text, in order, with their quotes and escapes; comments are passed over. The first
      one continues the open quote, if there is one. */
  function Literals(s: string, q: Quote): (r: seq<string>)
    ensures q.Some? ==> r != []
    decreases |s|
  {
    if s == [] then if q.Some? then [""] else []
    else if AtLineComment(s, q) then Literals(SkipLine(s[2..]), None)
    else if AtBlockComment(s, q) then Literals(SkipBlock(s[2..]), None)
    else
      var (n, q') := Advance(s, q);
      if q'.Some? then Prepend(s[..n], Literals(s[n..], q'))
      else if q.Some? then [s[..n]] + Literals(s[n..], q')
      else Literals(s[n..], q')
  }

  /** Stripping leaves every string literal, escapes included, exactly as it was. */
  lemma {:induction false} StripKeepsLiterals(s: string, q: Quote)
    requires Valid(q)
    ensures Literals(Strip(s, q), q) == Literals(s, q)
    decreases |s|
  {
    if s == [] {
    } else {
      if AtLineComment(s, q) {
        StripKeepsLiterals(SkipLine(s[2..]), None);
        AfterSpace(Strip(SkipLine(s[2..]), None));
      } else if AtBlockComment(s, q) {
        StripKeepsLiterals(SkipBlock(s[2..]), None);
        AfterSpace(Strip(SkipBlock(s[2..]), None));
      } else {
        var (n, q') := Advance(s, q);
        AdvanceAgain(s, q);
        StripKeepsLiterals(s[n..], q');
      }
    }
  }

  // ---------- statements ----------

  /** The text cut at every semicolon outside quotes. */
  function Segments(s: string, q: Quote): (r: seq<string>)
    ensures r != []
    decreases |s|
  {
    if s == [] then [""]
    else if q.None? && s[0] == ';' then [""] + Segments(s[1..], None)
    else
      var (n, q') := Advance(s, q);
      Prepend(s[..n], Segments(s[n..], q'))
  }

  /** The segments that are not blank, trimmed. */
  function NonBlank(segments: seq<string>): seq<string> {
    if segments == [] then []
    else (if Trim(segments[0]) == [] then [] else [Trim(segments[0])]) + NonBlank(segments[1..])
  }

  function Statements(s: string): seq<string> {
    NonBlank(Segments(s, None))
  }

  /** The list with a finished segment added, unless that is blank. */
  function Closed(out: seq<string>, buf: string): seq<string> {
    if Trim(buf) == [] then out else out + [Trim(buf)]
  }

  /** The split by position: what is out, the segment begun, and the rest to go. */
  function SplitFrom(sql: string, i: nat, q: Quote, out: seq<string>, buf: string): seq<string>
    requires i <= |sql|
    decreases |sql| - i
  {
    if i == |sql| then Closed(out, buf)
    else if q.None? && sql[i] == ';' then SplitFrom(sql, i + 1, None, Closed(out, buf), "")
    else
      var (n, q') := AdvanceAt(sql, i, q);
      SplitFrom(sql, i + n, q', out, buf + sql[i..i + n])
  }

  lemma PrependTwice(x: string, y: string, parts: seq<string>)
    requires parts != []
    ensures Prepend(x, Prepend(y, parts)) == Prepend(x + y, parts)
  {
    assert x + (y + parts[0]) == x + y + parts[0];
  }

  lemma CloseSegment(out: seq<string>, buf: string, rest: seq<string>)
    requires rest != []
    ensures out + NonBlank(Prepend(buf, [""] + rest)) == Closed(out, buf) + NonBlank(Prepend("", rest))
  {
    assert buf + "" == buf && "" + rest[0] == rest[0];
    assert Prepend(buf, [""] + rest) == [buf] + rest && Prepend("", rest) == rest;
    assert ([buf] + rest)[1..] == rest;
  }

  lemma LastSegment(sql: string, q: Quote, out: seq<string>, buf: string)
    ensures Closed(out, buf) == out + NonBlank(Prepend(buf, Segments(sql[|sql|..], q)))
  {
    PrependToEmpty(buf);
    assert sql[|sql|..] == [] && [buf][1..] == [];
  }

  lemma SegmentsAtCut(sql: string, i: nat)
    requires i < |sql| && sql[i] == ';'
    ensures Segments(sql[i..], None) == [""] + Segments(sql[i + 1..], None)
  {
    assert sql[i..][1..] == sql[i + 1..];
  }

  lemma SegmentsAtCopy(sql: string, i: nat, q: Quote)
    requires i < |sql| && !(q.None? && sql[i] == ';')
    ensures var (n, q') := AdvanceAt(sql, i, q);
            Segments(sql[i..], q) == Prepend(sql[i..i + n], Segments(sql[i + n..], q'))
  {
    var (n, _) := AdvanceAt(sql, i, q);
    assert sql[i..][..n] == sql[i..i + n] && sql[i..][n..] == sql[i + n..];
  }

  /** What the splitter gives in the end, from position `i` on. */
  function Result(sql: string, i: nat, q: Quote, out: seq<string>, buf: string): seq<string>
    requires i <= |sql|
  {
    out + NonBlank(Prepend(buf, Segments(sql[i..], q)))
  }

  lemma ResultCut(sql: string, i: nat, out: seq<string>, buf: string)
    requires i < |sql| && sql[i] == ';'
    ensures Result(sql, i, None, out, buf) == Result(sql, i + 1, None, Closed(out, buf), "")
  {
    SegmentsAtCut(sql, i);
    CloseSegment(out, buf, Segments(sql[i + 1..], None));
  }

  lemma SegmentsContinued(sql: string, i: nat, q: Quote, buf: string)
    requires i < |sql| && !(q.None? && sql[i] == ';')
    ensures var (n, q') := AdvanceAt(sql, i, q);
            Prepend(buf, Segments(sql[i..], q)) == Prepend(buf + sql[i..i + n], Segments(sql[i + n..], q'))
  {
    var (n, q') := AdvanceAt(sql, i, q);
    SegmentsAtCopy(sql, i, q);
    PrependTwice(buf, sql[i..i + n], Segments(sql[i + n..], q'));
  }

  lemma ResultCopy(sql: string, i: nat, q: Quote, out: seq<string>, buf: string)
    requires i < |sql| && !(q.None? && sql[i] == ';')
    ensures var (n, q') := AdvanceAt(sql, i, q);
            Result(sql, i, q, out, buf) == Result(sql, i + n, q', out, buf + sql[i..i + n])
  {
    SegmentsContinued(sql, i, q, buf);
  }

  /** The split from position `i` on gives the result. */
  ghost predicate GivesResult(sql: string, i: nat, q: Quote, out: seq<string>, buf: string) {
    i <= |sql| && SplitFrom(sql, i, q, out, buf) == Result(sql, i, q, out, buf)
  }

  lemma CutGivesResult(sql: string, i: nat, out: seq<string>, buf: string)
    requires i < |sql| && sql[i] == ';' && GivesResult(sql, i + 1, None, Closed(out, buf), "")
    ensures GivesResult(sql, i, None, out, buf)
  {
    ResultCut(sql, i, out, buf);
  }

  lemma CopyGivesResult(sql: string, i: nat, q: Quote, out: seq<string>, buf: string)
    requires i < |sql| && !(q.None? && sql[i] == ';')
    requires var (n, q') := AdvanceAt(sql, i, q); GivesResult(sql, i + n, q', out, buf + sql[i..i + n])
    ensures GivesResult(sql, i, q, out, buf)
  {
    ResultCopy(sql, i, q, out, buf);
  }

  lemma {:induction false} SplitFromIs(sql: string, i: nat, q: Quote, out: seq<string>, buf: string)
    requires i <= |sql|
    ensures GivesResult(sql, i, q, out, buf)
    decreases |sql| - i
  {
    if i == |sql| {
      LastSegment(sql, q, out, buf);
    } else if q.None? && sql[i] == ';' {
      SplitFromIs(sql, i + 1, None, Closed(out, buf), "");
      CutGivesResult(sql, i, out, buf);
    } else {
      var (n, q') := AdvanceAt(sql, i, q);
      SplitFromIs(sql, i + n, q', out, buf + sql[i..i + n]);
      CopyGivesResult(sql, i, q, out, buf);
    }
  }

  lemma WholeSplit(sql: string)
    ensures SplitFrom(sql, 0, None, [], "") == Statements(sql)
  {
    SplitFromIs(sql, 0, None, [], "");
    var segments := Segments(sql, None);
    assert sql[0..] == sql && "" + segments[0] == segments[0];
    assert Prepend("", segments) == segments;
  }

  method SplitSqlStatements(sql: string) returns (out: seq<string>)
    ensures out == Statements(sql)
  {
    out := [];
    var buf := "";
    var quote: Quote := None;
    var i := 0;
    WholeSplit(sql);
    ghost var whole := Statements(sql);
    while i < |sql|
      invariant i <= |sql| && SplitFrom(sql, i, quote, out, buf) == whole
    {
      var ch := sql[i];
      if quote.None? && ch == ';' {
        var t := Trim(buf);
        if t != [] {
          out := out + [t];
        }
        buf := "";
        i := i + 1;
        continue;
      }
      if quote.Some? {
        if ch == quote.value {
          if i + 1 < |sql| && sql[i + 1] == quote.value {
            buf := buf + sql[i..i + 2];
            i := i + 2;
            continue;
          }
          quote := None;
        }
      } else if IsQuote(ch) {
        quote := Some(ch);
      }
      buf := buf + sql[i..i + 1];
      i := i + 1;
    }
    var tail := Trim(buf);
    if tail != [] {
      out := out + [tail];
    }
  }

  // ---------- what splitting keeps ----------

  lemma JoinOfPrepended(s: string, n: nat, rest: seq<string>)
    requires n <= |s| && rest != [] && Join(rest, ";") == s[n..]
    ensures Join(Prepend(s[..n], rest), ";") == s
  {
    JoinPrepend(s[..n], rest, ";");
  }

  lemma JoinOfCut(s: string, rest: seq<string>)
    requires s != [] && s[0] == ';' && rest != [] && Join(rest, ";") == s[1..]
    ensures Join([""] + rest, ";") == s
  {
    assert ([""] + rest)[1..] == rest;
    assert s == ";" + s[1..];
  }

  /** Nothing is lost: the segments, joined by semicolons, are the text. */
  lemma {:induction false} SegmentsJoin(s: string, q: Quote)
    ensures Join(Segments(s, q), ";") == s
    decreases |s|
  {
    if s == [] {
    } else if q.None? && s[0] == ';' {
      SegmentsJoin(s[1..], None);
      JoinOfCut(s, Segments(s[1..], None));
    } else {
      var (n, q') := Advance(s, q);
      SegmentsJoin(s[n..], q');
      JoinOfPrepended(s, n, Segments(s[n..], q'));
    }
  }

  /** No semicolon outside quotes, for a text read from inside quote `q`. */
  predicate Single(s: string, q: Quote) {
    |Segments(s, q)| == 1
  }

  /** In front of its own first segment the quote machine takes what it took in front of the text. */
  lemma AdvanceInSegment(s: string, q: Quote)
    requires s != [] && Valid(q) && !(q.None? && s[0] == ';')
    ensures var (n, q') := Advance(s, q);
            var t := Segments(s, q)[0];
            && t != [] && t[0] == s[0] && Advance(t, q) == (n, q') && Valid(q')
            && t[n..] == Segments(s[n..], q')[0]
  {
    var (n, q') := Advance(s, q);
    var u := Segments(s[n..], q')[0];
    var t := s[..n] + u;
    assert t[0] == s[0] && (n == 2 ==> t[1] == s[1]);
    if n == 1 && u != [] {
      SegmentHead(s[n..], q');
      assert t[1] == u[0] == s[1];
    }
  }

  lemma SegmentHead(s: string, q: Quote)
    requires Segments(s, q)[0] != []
    ensures s != [] && Segments(s, q)[0][0] == s[0]
  {
  }

  /** Every segment, read on its own, is one segment. */
  lemma {:induction false} SegmentsAreSingle(s: string, q: Quote)
    requires Valid(q)
    ensures Single(Segments(s, q)[0], q)
    ensures forall i | 0 < i < |Segments(s, q)| :: Single(Segments(s, q)[i], None)
    decreases |s|
  {
    if s == [] {
    } else {
      if q.None? && s[0] == ';' {
        SegmentsAreSingle(s[1..], None);
      } else {
        var (n, q') := Advance(s, q);
        AdvanceInSegment(s, q);
        SegmentsAreSingle(s[n..], q');
      }
    }
  }

  /** White space before or after a single segment does not change that. */
  lemma {:induction false} TrimStartKeepsSingle(s: string)
    requires Single(s, None)
    ensures Single(TrimStart(s), None)
  {
    if s == [] || !IsSpace(s[0]) {
    } else {
      assert Advance(s, None) == (1, None);
      TrimStartKeepsSingle(s[1..]);
    }
  }

  lemma {:induction false} DropLastKeepsSingle(s: string, c: char, q: Quote)
    requires Valid(q) && IsSpace(c) && Single(s + [c], q)
    ensures Single(s, q)
    decreases |s|
  {
    var t := s + [c];
    if s == [] {
    } else {
      assert t[0] == s[0];
      if !(q.None? && s[0] == ';') {
        var (n, q') := Advance(s, q);
        assert |s| > 1 ==> t[1] == s[1];
        assert Advance(t, q) == (n, q');
        assert t[n..] == s[n..] + [c];
        DropLastKeepsSingle(s[n..], c, q');
      }
    }
  }

  lemma {:induction false} TrimEndKeepsSingle(s: string)
    requires Single(s, None)
    ensures Single(TrimEnd(s), None)
  {
    if s == [] || !IsSpace(s[|s| - 1]) {
    } else {
      assert s == s[..|s| - 1] + [s[|s| - 1]];
      DropLastKeepsSingle(s[..|s| - 1], s[|s| - 1], None);
      TrimEndKeepsSingle(s[..|s| - 1]);
    }
  }

  lemma {:induction false} NonBlankAre(segments: seq<string>, i: nat)
    requires i < |NonBlank(segments)|
    ensures exists j | 0 <= j < |segments| :: NonBlank(segments)[i] == Trim(segments[j]) != []
  {
    if Trim(segments[0]) == [] {
      NonBlankAre(segments[1..], i);
      var j :| 0 <= j < |segments[1..]| && NonBlank(segments[1..])[i] == Trim(segments[1..][j]);
      assert NonBlank(segments)[i] == Trim(segments[j + 1]);
    } else if i > 0 {
      NonBlankAre(segments[1..], i - 1);
      var j :| 0 <= j < |segments[1..]| && NonBlank(segments[1..])[i - 1] == Trim(segments[1..][j]);
      assert NonBlank(segments)[i] == Trim(segments[j + 1]);
    } else {
      assert NonBlank(segments)[0] == Trim(segments[0]);
    }
  }

  /** Every statement is trimmed, has no semicolon outside quotes, and splits into itself alone. */
  lemma StatementsAreSingle(s: string, i: nat)
    requires i < |Statements(s)|
    ensures var st := Statements(s)[i];
            && st != [] && Trimmed(st)
            && Segments(st, None) == [st]
            && Statements(st) == [st]
  {
    var segments := Segments(s, None);
    NonBlankAre(segments, i);
    var j :| 0 <= j < |segments| && Statements(s)[i] == Trim(segments[j]);
    SegmentsAreSingle(s, None);
    assert Single(segments[j], None);
    TrimStartKeepsSingle(segments[j]);
    TrimEndKeepsSingle(TrimStart(segments[j]));
    var st := Trim(segments[j]);
    TrimIsTrimmed(segments[j]);
    TrimmedIsKept(st);
    SegmentsJoin(st, None);
    assert Segments(st, None) == [st];
    assert NonBlank([st]) == [st] + NonBlank([]);
  }

  // ---------- trailing comments ----------

  /** Scanning ends outside quotes and outside unterminated block comments. */
  predicate EndsOutside(s: string, q: Quote)
    decreases |s|
  {
    if s == [] then q.None?
    else if AtLineComment(s, q) then EndsOutside(SkipLine(s[2..]), None)
    else if AtBlockComment(s, q) then Terminated(s[2..]) && EndsOutside(SkipBlock(s[2..]), None)
    else
      var (n, q') := Advance(s, q);
      EndsOutside(s[n..], q')
  }

  predicate NewlineFree(s: string) {
    forall i | 0 <= i < |s| :: !IsNewline(s[i])
  }

  lemma {:induction false} SkipLineAppend(s: string, x: string)
    requires NewlineFree(x)
    ensures SkipLine(s + x) == if SkipLine(s) == [] then [] else SkipLine(s) + x
  {
    if s == [] {
      assert s + x == x;
      if x != [] {
        SkipLineAppend([], x[1..]);
        assert [] + x[1..] == x[1..];
      }
    } else {
      assert (s + x)[0] == s[0];
      if !IsNewline(s[0]) {
        SkipLineAppend(s[1..], x);
        assert (s + x)[1..] == s[1..] + x;
      }
    }
  }

  lemma {:induction false} SkipBlockAppend(s: string, x: string)
    requires Terminated(s)
    ensures SkipBlock(s + x) == SkipBlock(s) + x
  {
    assert (s + x)[0] == s[0] && (s + x)[1] == s[1];
    assert StartsWith(s + x, "*/") <==> StartsWith(s, "*/");
    if StartsWith(s, "*/") {
      assert (s + x)[2..] == s[2..] + x;
    } else {
      SkipBlockAppend(s[1..], x);
      assert (s + x)[1..] == s[1..] + x;
    }
  }

  /** What the comment turns into: two spaces, or nothing if it continues an open line comment. */
  lemma {:induction false} StripAppendComment(s: string, q: Quote, x: string)
    requires Valid(q) && EndsOutside(s, q) && NewlineFree(x) && StartsWith(x, " --")
    ensures Strip(s + x, q) == Strip(s, q) || Strip(s + x, q) == Strip(s, q) + "  "
    decreases |s|
  {
    var t := s + x;
    if s == [] {
      StripOnlyComment(x);
      assert t == x;
    } else {
      AppendedCommentNotSeen(s, q, x);
      if AtLineComment(s, q) {
        assert t[2..] == s[2..] + x;
        SkipLineAppend(s[2..], x);
        if SkipLine(s[2..]) != [] {
          StripAppendComment(SkipLine(s[2..]), None, x);
          ConcatAssoc(" ", Strip(SkipLine(s[2..]), None), "  ");
        }
      } else if AtBlockComment(s, q) {
        assert t[2..] == s[2..] + x;
        SkipBlockAppend(s[2..], x);
        StripAppendComment(SkipBlock(s[2..]), None, x);
        ConcatAssoc(" ", Strip(SkipBlock(s[2..]), None), "  ");
      } else {
        var (n, q') := Advance(s, q);
        assert t[..n] == s[..n] && t[n..] == s[n..] + x;
        StripAppendComment(s[n..], q', x);
        ConcatAssoc(s[..n], Strip(s[n..], q'), "  ");
      }
    }
  }

  lemma StripOnlyComment(x: string)
    requires NewlineFree(x) && StartsWith(x, " --")
    ensures Strip(x, None) == "  "
  {
    SkipLineAppend([], x[3..]);
    assert [] + x[3..] == x[3..];
    assert x[1..][2..] == x[3..];
    assert AtLineComment(x[1..], None);
    assert Strip(x[1..], None) == " " + Strip([], None) == " ";
    AfterSpace(x[1..]);
    assert x == " " + x[1..];
  }

  /** The scanner's next decision is the same with the comment appended. */
  lemma AppendedCommentNotSeen(s: string, q: Quote, x: string)
    requires s != [] && Valid(q) && StartsWith(x, " --")
    ensures AtLineComment(s + x, q) == AtLineComment(s, q)
    ensures AtBlockComment(s + x, q) == AtBlockComment(s, q)
    ensures !AtLineComment(s, q) && !AtBlockComment(s, q) ==> Advance(s + x, q) == Advance(s, q)
  {
    var t := s + x;
    assert t[0] == s[0] && t[1] == (if |s| > 1 then s[1] else ' ');
    assert "--"[1] == '-' && "/*"[1] == '*';
  }

  /** The text the statements are cut from. */
  function Prepared(raw: string): string {
    Trim(Strip(raw, None))
  }

  /** A line comment put after a query does not change the query, nor therefore its statements. */
  lemma TrailingCommentIsIgnored(raw: string, text: string)
    requires EndsOutside(raw, None) && NewlineFree(text)
    ensures Prepared(raw + " --" + text) == Prepared(raw)
    ensures Statements(Prepared(raw + " --" + text)) == Statements(Prepared(raw))
  {
    var x := " --" + text;
    assert raw + " --" + text == raw + x;
    StripAppendComment(raw, None, x);
    var y := Strip(raw, None);
    TrimTrailing(y, ' ');
    TrimTrailing(y + " ", ' ');
    assert y + "  " == y + " " + " ";
  }

  // ---------- comments that do not end ----------

  /** Of a comment that does not end the last character is kept. */
  lemma UnterminatedCommentLeavesLast(text: string)
    requires text != [] && !Terminated(text)
    ensures Strip("/*" + text, None) == " " + [text[|text| - 1]]
  {
    var s, last := "/*" + text, [text[|text| - 1]];
    assert s[..2] == "/*" && s[2..] == text;
    assert !AtLineComment(s, None) by {
      assert s[0] == '/' && "--"[0] == '-';
    }
    SkipBlockIff(text);
    StripOne(text[|text| - 1]);
  }

  lemma StripOne(c: char)
    ensures Strip([c], None) == [c]
  {
    assert [c][1..] == [] && [c][..1] == [c];
  }

  lemma SegmentsOfOne(c: char)
    requires c != ';'
    ensures Segments([c], None) == [[c]]
  {
    assert [c][1..] == [] && [c][..1] == [c];
    PrependToEmpty([c]);
  }

  lemma NonBlankOne(s: string)
    requires Trim(s) == s != []
    ensures NonBlank([s]) == [s]
  {
    assert [s][1..] == [];
  }

  /** So text inside a comment becomes a statement: every character but white space and a semicolon. */
  lemma LeftOverIsStatement(text: string)
    requires text != [] && !Terminated(text)
    ensures var last := text[|text| - 1];
            !IsSpace(last) && last != ';' ==> Statements(Prepared("/*" + text)) == [[last]]
  {
    var last := text[|text| - 1];
    UnterminatedCommentLeavesLast(text);
    if !IsSpace(last) && last != ';' {
      LastIsTrimmed(last);
      SegmentsOfOne(last);
      TrimmedIsKept([last]);
      NonBlankOne([last]);
    }
  }

  lemma LastIsTrimmed(c: char)
    requires !IsSpace(c)
    ensures Trim(" " + [c]) == [c]
  {
    assert (" " + [c])[1..] == [c];
    assert TrimStart(" " + [c]) == TrimStart([c]) == [c];
  }

  // ---------- the multi-statement guard ----------

  /** What the extractor makes of a query before it looks at words: nothing, a refusal to classify, or one statement. */
  datatype Extraction = Empty | Unknown | Statement(query: string)

  method RegexExtractSql(rawQuery: string) returns (r: Extraction)
    ensures r.Empty? <==> Prepared(rawQuery) == []
    ensures r.Unknown? <==> |Statements(Prepared(rawQuery))| > 1
    ensures r.Statement? && Statements(Prepared(rawQuery)) != [] ==>
              Statements(Prepared(rawQuery)) == [r.query] && Segments(r.query, None) == [r.query]
    ensures r.Statement? && Statements(Prepared(rawQuery)) == [] ==> r.query == Prepared(rawQuery)
  {
    var text := StripSqlComments(rawQuery);
    var stripped := Trim(text);
    if stripped == [] {
      assert Segments([], None) == [""] && NonBlank([""]) == [] + NonBlank([]);
      return Empty;
    }
    var statements := SplitSqlStatements(stripped);
    if |statements| > 1 {
      return Unknown;
    }
    if |statements| == 1 {
      StatementsAreSingle(stripped, 0);
      return Statement(statements[0]);
    }
    r := Statement(stripped);
  }

  lemma {:induction false} NonBlankCount(segments: seq<string>)
    ensures |NonBlank(segments)| > 0 <==> exists i | 0 <= i < |segments| :: Trim(segments[i]) != []
    ensures |NonBlank(segments)| > 1 <==>
            exists i, j | 0 <= i < j < |segments| :: Trim(segments[i]) != [] && Trim(segments[j]) != []
  {
    if segments == [] {
    } else {
      var rest := segments[1..];
      NonBlankCount(rest);
      assert forall i | 0 <= i < |rest| :: rest[i] == segments[i + 1];
      assert forall i | 0 < i < |segments| :: segments[i] == rest[i - 1];
    }
  }

  /** A query is refused exactly when two of the pieces between its unquoted semicolons are not blank. */
  lemma RefusedIffTwoStatements(raw: string)
    ensures |Statements(Prepared(raw))| > 1 <==>
            var segments := Segments(Prepared(raw), None);
            exists i, j | 0 <= i < j < |segments| :: Trim(segments[i]) != [] && Trim(segments[j]) != []
  {
    var segments := Segments(Prepared(raw), None);
    NonBlankCount(segments);
    assert Statements(Prepared(raw)) == NonBlank(segments);
  }
}
