/**
  The multi-statement guard seen from the query as it was written: its statements are the pieces between the semicolons
  that stand outside quotes and comments, each stripped of its own comments.
 */
module SqlPieces {
  import opened Wrappers
  import opened Text
  import opened SqlScanner

  /** The length of the comment `s` starts with. */
  function CommentLength(s: string): (n: nat)
    requires AtLineComment(s, None) || AtBlockComment(s, None)
    ensures 2 <= n <= |s|
  {
    if AtLineComment(s, None) then |s| - |SkipLine(s[2..])| else |s| - |SkipBlock(s[2..])|
  }

  predicate AtComment(s: string, q: Quote) {
    AtLineComment(s, q) || AtBlockComment(s, q)
  }

  /** The query cut at every semicolon outside quotes and comments. */
  function Pieces(s: string, q: Quote): (r: seq<string>)
    ensures r != []
    decreases |s|
  {
    if s == [] then [""]
    else if AtComment(s, q) then
      var n := CommentLength(s);
      Prepend(s[..n], Pieces(s[n..], None))
    else if q.None? && s[0] == ';' then [""] + Pieces(s[1..], None)
    else
      var (n, q') := Advance(s, q);
      Prepend(s[..n], Pieces(s[n..], q'))
  }

  /** A block comment starts here and does not end. */
  predicate AtOpenComment(s: string, q: Quote) {
    AtBlockComment(s, q) && !Terminated(s[2..])
  }

  /** No block comment is left open, or the one that is holds at most one character, or the text does not end in a
      semicolon. */
  predicate Harmless(s: string, q: Quote)
    decreases |s|
  {
    if s == [] then true
    else if AtOpenComment(s, q) then |s| <= 3 || s[|s| - 1] != ';'
    else if AtComment(s, q) then Harmless(s[CommentLength(s)..], None)
    else
      var (n, q') := Advance(s, q);
      Harmless(s[n..], q')
  }

  /** Each piece without its comments; the first is read from inside quote `q`. */
  function StripAll(pieces: seq<string>, q: Quote): seq<string> {
    if pieces == [] then [] else [Strip(pieces[0], q)] + StripAll(pieces[1..], None)
  }

  /** Nothing is lost: the pieces, joined by semicolons, are the query. */
  lemma {:induction false} PiecesJoin(s: string, q: Quote)
    ensures Join(Pieces(s, q), ";") == s
    decreases |s|
  {
    if s == [] {
    } else if AtComment(s, q) {
      PiecesJoin(s[CommentLength(s)..], None);
      JoinOfPrepended(s, CommentLength(s), Pieces(s[CommentLength(s)..], None));
    } else if q.None? && s[0] == ';' {
      PiecesJoin(s[1..], None);
      JoinOfCut(s, Pieces(s[1..], None));
    } else {
      var (n, q') := Advance(s, q);
      PiecesJoin(s[n..], q');
      JoinOfPrepended(s, n, Pieces(s[n..], q'));
    }
  }

  lemma {:induction false} FirstPieceIsPrefix(s: string, q: Quote)
    ensures Pieces(s, q)[0] <= s
    decreases |s|
  {
    if s == [] || (!AtComment(s, q) && q.None? && s[0] == ';') {
    } else if AtComment(s, q) {
      var n := CommentLength(s);
      FirstPieceIsPrefix(s[n..], None);
      PrefixExtends(s, n, Pieces(s[n..], None)[0]);
    } else {
      var (n, q') := Advance(s, q);
      FirstPieceIsPrefix(s[n..], q');
      PrefixExtends(s, n, Pieces(s[n..], q')[0]);
    }
  }

  lemma PrefixExtends(s: string, n: nat, x: string)
    requires n <= |s| && x <= s[n..]
    ensures s[..n] + x <= s
  {
  }

  // ---------- comments in front of less text ----------

  /** A line comment ends where it ended, whatever follows from there. */
  lemma {:induction false} SkipLineOf(s: string, x: string)
    requires x <= SkipLine(s)
    ensures SkipLine(s[..|s| - |SkipLine(s)|] + x) == x
  {
    var pre := s[..|s| - |SkipLine(s)|];
    if s == [] || IsNewline(s[0]) {
      assert pre + x == x;
    } else {
      SkipLineOf(s[1..], x);
      assert pre == [s[0]] + s[1..][..|s[1..]| - |SkipLine(s[1..])|];
      assert (pre + x)[0] == s[0] && (pre + x)[1..] == s[1..][..|s[1..]| - |SkipLine(s[1..])|] + x;
    }
  }

  lemma {:induction false} SkipBlockOf(s: string, x: string)
    requires Terminated(s)
    ensures SkipBlock(s[..|s| - |SkipBlock(s)|] + x) == x
  {
    var pre := s[..|s| - |SkipBlock(s)|];
    var t := pre + x;
    if StartsWith(s, "*/") {
      assert pre == "*/" && t[..2] == "*/" && t[2..] == x;
    } else {
      SkipBlockOf(s[1..], x);
      var pre' := s[1..][..|s[1..]| - |SkipBlock(s[1..])|];
      SkipBlockLonger(s[1..]);
      assert pre == [s[0]] + pre' && t[1..] == pre' + x;
      assert t[0] == s[0] && t[1] == s[1] && s[..2] == [s[0], s[1]] && t[..2] == [t[0], t[1]];
    }
  }

  lemma {:induction false} SkipBlockLonger(s: string)
    requires Terminated(s)
    ensures |SkipBlock(s)| + 2 <= |s|
  {
    if StartsWith(s, "*/") {
    } else {
      SkipBlockLonger(s[1..]);
    }
  }

  /** A comment in front of part of what followed it strips to the same space. */
  lemma CommentStrips(s: string, x: string)
    requires AtComment(s, None) && (AtBlockComment(s, None) ==> Terminated(s[2..]))
    requires x <= s[CommentLength(s)..]
    ensures Strip(s[..CommentLength(s)] + x, None) == " " + Strip(x, None)
  {
    if AtLineComment(s, None) {
      LineCommentStrips(s, x);
    } else {
      BlockCommentStrips(s, x);
    }
  }

  lemma CommentAndMore(s: string, n: nat, x: string)
    requires 2 <= n <= |s|
    ensures (s[..n] + x)[..2] == s[..2] && (s[..n] + x)[2..] == s[2..][..n - 2] + x
  {
  }

  lemma LineCommentStrips(s: string, x: string)
    requires AtLineComment(s, None) && x <= s[CommentLength(s)..]
    ensures Strip(s[..CommentLength(s)] + x, None) == " " + Strip(x, None)
  {
    CommentAndMore(s, CommentLength(s), x);
    BehindComment(s);
    SkipLineOf(s[2..], x);
  }

  lemma BlockCommentStrips(s: string, x: string)
    requires AtBlockComment(s, None) && !AtLineComment(s, None) && Terminated(s[2..])
    ensures Strip(s[..CommentLength(s)] + x, None) == " " + Strip(x, None)
  {
    var t := s[..CommentLength(s)] + x;
    CommentAndMore(s, CommentLength(s), x);
    assert !AtLineComment(t, None) by {
      assert t[0] == '/' && "--"[0] == '-';
    }
    SkipBlockOf(s[2..], x);
  }

  lemma {:induction false} SkipLineSuffix(s: string)
    ensures SkipLine(s) == s[|s| - |SkipLine(s)|..]
  {
    if s == [] || IsNewline(s[0]) {
    } else {
      SkipLineSuffix(s[1..]);
    }
  }

  lemma {:induction false} SkipBlockSuffix(s: string)
    ensures SkipBlock(s) == s[|s| - |SkipBlock(s)|..]
  {
    if |s| < 2 || StartsWith(s, "*/") {
    } else {
      SkipBlockSuffix(s[1..]);
    }
  }

  lemma BehindComment(s: string)
    requires AtComment(s, None)
    ensures s[CommentLength(s)..] == if AtLineComment(s, None) then SkipLine(s[2..]) else SkipBlock(s[2..])
  {
    SkipLineSuffix(s[2..]);
    SkipBlockSuffix(s[2..]);
    var n := CommentLength(s);
    assert s[2..][n - 2..] == s[n..];
  }

  /** What the quote machine takes, in front of part of what followed, is copied. */
  lemma CopyStrips(s: string, q: Quote, x: string)
    requires s != [] && !AtComment(s, q)
    requires var (n, _) := Advance(s, q); x <= s[n..]
    ensures var (n, q') := Advance(s, q);
            Strip(s[..n] + x, q) == s[..n] + Strip(x, q')
  {
    var (n, q') := Advance(s, q);
    var t := s[..n] + x;
    assert t <= s;
    assert !AtComment(t, q);
    assert t[0] == s[0] && (|t| > 1 ==> t[1] == s[1]);
    assert Advance(t, q) == (n, q');
    assert t[..n] == s[..n] && t[n..] == x;
  }

  // ---------- the statements of a query ----------

  /** A comment that ends adds a space to the first piece, before and after cutting. */
  lemma CommentCase(s: string)
    requires AtComment(s, None) && !AtOpenComment(s, None)
    ensures var rest := s[CommentLength(s)..];
            && Segments(Strip(s, None), None) == Prepend(" ", Segments(Strip(rest, None), None))
            && StripAll(Pieces(s, None), None) == Prepend(" ", StripAll(Pieces(rest, None), None))
  {
    var rest := s[CommentLength(s)..];
    BehindComment(s);
    AfterSpace(Strip(rest, None));
    FirstPieceIsPrefix(rest, None);
    CommentStrips(s, Pieces(rest, None)[0]);
    CutPrepended(s, None, CommentLength(s), None, " ");
  }

  lemma CutCase(s: string)
    requires s != [] && s[0] == ';'
    ensures Segments(Strip(s, None), None) == [""] + Segments(Strip(s[1..], None), None)
    ensures StripAll(Pieces(s, None), None) == [""] + StripAll(Pieces(s[1..], None), None)
  {
    assert !AtComment(s, None) by {
      assert "--"[0] == '-' && "/*"[0] == '/';
    }
    AdvanceAgain(s, None);
    assert Strip("", None) == "";
    assert ([""] + Pieces(s[1..], None))[1..] == Pieces(s[1..], None);
  }

  lemma CopyCase(s: string, q: Quote)
    requires Valid(q) && s != [] && !AtComment(s, q) && !(q.None? && s[0] == ';')
    ensures var (n, q') := Advance(s, q);
            && Valid(q')
            && Segments(Strip(s, q), q) == Prepend(s[..n], Segments(Strip(s[n..], q'), q'))
            && StripAll(Pieces(s, q), q) == Prepend(s[..n], StripAll(Pieces(s[n..], q'), q'))
  {
    var (n, q') := Advance(s, q);
    AdvanceAgain(s, q);
    FirstPieceIsPrefix(s[n..], q');
    CopyStrips(s, q, Pieces(s[n..], q')[0]);
    CutPrepended(s, q, n, q', s[..n]);
  }

  lemma PiecesOfOne(c: char)
    ensures Pieces([c], None) == if c == ';' then ["", ""] else [[c]]
  {
    assert [c][1..] == [] && [c][..1] == [c];
    assert !AtComment([c], None);
    PrependToEmpty([c]);
  }

  lemma SegmentsAfterSpace(c: char)
    ensures Segments(" " + [c], None) == if c == ';' then [" ", ""] else [" " + [c]]
  {
    AfterSpace([c]);
    assert Segments(" " + [c], None) == Prepend(" ", Segments([c], None));
    if c == ';' {
      assert [c][1..] == [];
      PrependToTwo(" ");
    } else {
      SegmentsOfOne(c);
      assert Prepend(" ", [[c]]) == [" " + [c]];
    }
  }

  lemma PrependToTwo(x: string)
    ensures Prepend(x, ["", ""]) == [x, ""]
  {
    assert x + "" == x;
  }

  lemma StripAllOne(piece: string)
    ensures StripAll([piece], None) == [Strip(piece, None)]
    ensures StripAll([piece, ""], None) == [Strip(piece, None), ""]
  {
    assert [piece][1..] == [] && [piece, ""][1..] == [""] && [""][1..] == [];
    assert Strip("", None) == "";
  }

  /** An open comment, all of which is in one piece, but for a semicolon at its end. */
  lemma OpenComment(s: string)
    requires AtOpenComment(s, None)
    ensures var last := s[|s| - 1];
            if |s| > 2 && last == ';' then
              Segments(Strip(s, None), None) == [" ", ""] && StripAll(Pieces(s, None), None) == [Strip(s[..|s| - 1], None), ""]
            else Segments(Strip(s, None), None) == StripAll(Pieces(s, None), None)
  {
    if |s| == 2 {
      EmptyOpenComment(s);
    } else if s[|s| - 1] == ';' {
      OpenBeforeSemicolon(s);
    } else {
      OpenToTheEnd(s);
    }
  }

  lemma OpenBeforeSemicolon(s: string)
    requires AtOpenComment(s, None) && |s| > 2 && s[|s| - 1] == ';'
    ensures Segments(Strip(s, None), None) == [" ", ""]
    ensures StripAll(Pieces(s, None), None) == [Strip(s[..|s| - 1], None), ""]
  {
    LastOfOpenComment(s);
    PiecesOfOne(';');
    SegmentsAfterSpace(';');
    PrependToTwo(s[..|s| - 1]);
    StripAllOne(s[..|s| - 1]);
  }

  lemma OpenToTheEnd(s: string)
    requires AtOpenComment(s, None) && |s| > 2 && s[|s| - 1] != ';'
    ensures Segments(Strip(s, None), None) == StripAll(Pieces(s, None), None)
  {
    var last := s[|s| - 1];
    LastOfOpenComment(s);
    PiecesOfOne(last);
    SegmentsAfterSpace(last);
    assert s[..|s| - 1] + [last] == s && Prepend(s[..|s| - 1], [[last]]) == [s];
    StripAllOne(s);
  }

  lemma EmptyOpenComment(s: string)
    requires AtOpenComment(s, None) && |s| == 2
    ensures Segments(Strip(s, None), None) == StripAll(Pieces(s, None), None)
  {
    assert s[2..] == "" && s[..2] == s && !AtLineComment(s, None) by {
      assert s[0] == '/' && "--"[0] == '-';
    }
    assert Strip(s, None) == " " + "" == [' '];
    SegmentsOfOne(' ');
    PrependToEmpty(s);
    StripAllOne(s);
  }

  lemma LastOfOpenComment(s: string)
    requires AtOpenComment(s, None) && |s| > 2
    ensures Strip(s, None) == " " + [s[|s| - 1]]
    ensures CommentLength(s) == |s| - 1 && Pieces(s, None) == Prepend(s[..|s| - 1], Pieces([s[|s| - 1]], None))
  {
    assert s == "/*" + s[2..];
    UnterminatedCommentLeavesLast(s[2..]);
    SkipBlockIff(s[2..]);
    assert !AtLineComment(s, None) by {
      assert s[0] == '/' && "--"[0] == '-';
    }
    assert s[|s| - 1..] == [s[|s| - 1]];
  }

  /** Cutting the stripped query gives the stripped pieces of the query, if it is harmless. */
  lemma {:induction false} StripThenCut(s: string, q: Quote)
    requires Valid(q) && Harmless(s, q)
    ensures Segments(Strip(s, q), q) == StripAll(Pieces(s, q), q)
    decreases |s|
  {
    if s == [] {
      assert [""][1..] == [];
    } else if AtOpenComment(s, q) {
      OpenComment(s);
      if |s| == 3 && s[2] == ';' {
        assert s[..2] == "/*";
        EmptyOpenCommentStrips();
      }
    } else if AtComment(s, q) {
      CommentCase(s);
      StripThenCut(s[CommentLength(s)..], None);
    } else if q.None? && s[0] == ';' {
      CutCase(s);
      StripThenCut(s[1..], None);
    } else {
      var (n, q') := Advance(s, q);
      CopyCase(s, q);
      StripThenCut(s[n..], q');
    }
  }

  lemma EmptyOpenCommentStrips()
    ensures Strip("/*", None) == " "
  {
    assert "/*"[2..] == "" && !AtLineComment("/*", None) by {
      assert "/*"[0] == '/' && "--"[0] == '-';
    }
  }

  /** Text put before the first piece goes before the first stripped piece. */
  lemma CutPrepended(s: string, q: Quote, n: nat, q': Quote, out: string)
    requires n <= |s| && Strip(s[..n] + Pieces(s[n..], q')[0], q) == out + Strip(Pieces(s[n..], q')[0], q')
    ensures StripAll(Prepend(s[..n], Pieces(s[n..], q')), q) == Prepend(out, StripAll(Pieces(s[n..], q'), q'))
  {
  }

  // ---------- white space around the text ----------

  function AddToLast(parts: seq<string>, c: char): seq<string>
    requires parts != []
  {
    if |parts| == 1 then [parts[0] + [c]] else [parts[0]] + AddToLast(parts[1..], c)
  }

  lemma AddToLastPrepended(x: string, parts: seq<string>, c: char)
    requires parts != []
    ensures AddToLast(Prepend(x, parts), c) == Prepend(x, AddToLast(parts, c))
    ensures AddToLast([x] + parts, c) == [x] + AddToLast(parts, c)
  {
    assert x + (parts[0] + [c]) == x + parts[0] + [c];
    assert Prepend(x, parts)[1..] == parts[1..] && ([x] + parts)[1..] == parts;
  }

  lemma {:induction false} SegmentsOfSpaceEnd(s: string, c: char, q: Quote)
    requires Valid(q) && IsSpace(c)
    ensures Segments(s + [c], q) == AddToLast(Segments(s, q), c)
    decreases |s|
  {
    var t := s + [c];
    if s == [] {
      assert t == [c] && t[1..] == [] && t[..1] == [c];
      assert !IsQuote(c) && Advance(t, q) == (1, q);
      PrependToEmpty([c]);
    } else if q.None? && s[0] == ';' {
      assert t[0] == ';' && t[1..] == s[1..] + [c];
      SegmentsOfSpaceEnd(s[1..], c, None);
      AddToLastPrepended("", Segments(s[1..], None), c);
    } else {
      var (n, q') := Advance(s, q);
      assert t[0] == s[0] && (|s| > 1 ==> t[1] == s[1]);
      assert Advance(t, q) == (n, q');
      assert t[n..] == s[n..] + [c] && t[..n] == s[..n];
      SegmentsOfSpaceEnd(s[n..], c, q');
      AddToLastPrepended(s[..n], Segments(s[n..], q'), c);
    }
  }

  lemma {:induction false} SpaceAddsNoStatement(parts: seq<string>, c: char)
    requires parts != [] && IsSpace(c)
    ensures NonBlank(AddToLast(parts, c)) == NonBlank(parts)
  {
    if |parts| == 1 {
      TrimTrailing(parts[0], c);
      assert parts[1..] == [] && [parts[0] + [c]][1..] == [];
    } else {
      SpaceAddsNoStatement(parts[1..], c);
      assert ([parts[0]] + AddToLast(parts[1..], c))[1..] == AddToLast(parts[1..], c);
    }
  }

  // ---------- an open comment in front of a final semicolon ----------

  lemma AddToLastOfTwo(a: seq<string>, x: string)
    requires a != []
    ensures Prepend(x, a + [""]) == Prepend(x, a) + [""] && [x] + (a + [""]) == [x] + a + [""]
  {
    assert (a + [""])[1..] == a[1..] + [""] && (a + [""])[0] == a[0];
  }

  /** Cut after stripping the text gives `a` and a blank piece; cut before, the last of `a` has one more character. */
  ghost predicate DiffersAtEnd(s: string, q: Quote, a: seq<string>) {
    && |s| > 3 && a != []
    && Segments(Strip(s, q), q) == a + [""]
    && StripAll(Pieces(s, q), q) == AddToLast(a, s[|s| - 2]) + [""]
  }

  lemma CommentDiffers(s: string, a: seq<string>)
    requires AtComment(s, None) && !AtOpenComment(s, None) && DiffersAtEnd(s[CommentLength(s)..], None, a)
    ensures DiffersAtEnd(s, None, Prepend(" ", a))
  {
    CommentCase(s);
    ShapePrepended(a, " ", s[|s| - 2]);
  }

  lemma CutDiffers(s: string, a: seq<string>)
    requires s != [] && s[0] == ';' && DiffersAtEnd(s[1..], None, a)
    ensures DiffersAtEnd(s, None, [""] + a)
  {
    CutCase(s);
    ShapePrepended(a, "", s[|s| - 2]);
  }

  lemma CopyDiffers(s: string, q: Quote, a: seq<string>)
    requires Valid(q) && s != [] && !AtComment(s, q) && !(q.None? && s[0] == ';')
    requires var (n, q') := Advance(s, q); DiffersAtEnd(s[n..], q', a)
    ensures DiffersAtEnd(s, q, Prepend(s[..Advance(s, q).0], a))
  {
    CopyCase(s, q);
    ShapePrepended(a, s[..Advance(s, q).0], s[|s| - 2]);
  }

  lemma OpenDiffers(s: string)
    requires AtOpenComment(s, None) && |s| > 3 && s[|s| - 1] == ';'
    ensures DiffersAtEnd(s, None, [" "])
  {
    OpenComment(s);
    ShorterOpenComment(s);
  }

  /** A query that is not harmless differs in the last character its open comment holds before the semicolon. */
  lemma {:induction false} HarmfulShape(s: string, q: Quote) returns (a: seq<string>)
    requires Valid(q) && !Harmless(s, q)
    ensures DiffersAtEnd(s, q, a)
    decreases |s|
  {
    if AtOpenComment(s, q) {
      a := [" "];
      OpenDiffers(s);
    } else if AtComment(s, q) {
      var b := HarmfulShape(s[CommentLength(s)..], None);
      a := Prepend(" ", b);
      CommentDiffers(s, b);
    } else if q.None? && s[0] == ';' {
      var b := HarmfulShape(s[1..], None);
      a := [""] + b;
      CutDiffers(s, b);
    } else {
      var (n, q') := Advance(s, q);
      var b := HarmfulShape(s[n..], q');
      a := Prepend(s[..n], b);
      CopyDiffers(s, q, b);
    }
  }

  lemma ShapePrepended(b: seq<string>, x: string, c: char)
    requires b != []
    ensures Prepend(x, b + [""]) == Prepend(x, b) + [""] && [x] + (b + [""]) == [x] + b + [""]
    ensures Prepend(x, AddToLast(b, c) + [""]) == AddToLast(Prepend(x, b), c) + [""]
    ensures [x] + (AddToLast(b, c) + [""]) == AddToLast([x] + b, c) + [""]
  {
    AddToLastOfTwo(b, x);
    AddToLastOfTwo(AddToLast(b, c), x);
    AddToLastPrepended(x, b, c);
  }

  lemma ShorterOpenComment(s: string)
    requires AtOpenComment(s, None) && |s| > 3 && s[|s| - 1] == ';'
    ensures Strip(s[..|s| - 1], None) == " " + [s[|s| - 2]]
  {
    var t := s[..|s| - 1];
    assert t[..2] == s[..2] && t[2..] == s[2..][..|s| - 3];
    OpenWithoutLast(s[2..]);
    LastOfOpenComment(t);
  }

  lemma {:induction false} StaysTerminated(s: string, x: string)
    requires Terminated(s)
    ensures Terminated(s + x)
  {
    if StartsWith(s, "*/") {
      assert StartsWith(s + x, "*/");
    } else {
      StaysTerminated(s[1..], x);
      assert (s + x)[1..] == s[1..] + x;
    }
  }

  lemma OpenWithoutLast(text: string)
    requires |text| > 1 && !Terminated(text)
    ensures !Terminated(text[..|text| - 1])
  {
    var t, last := text[..|text| - 1], [text[|text| - 1]];
    assert t + last == text;
    if Terminated(t) {
      StaysTerminated(t, last);
    }
  }

  lemma {:induction false} AddToLastDiffers(a: seq<string>, c: char)
    requires a != []
    ensures AddToLast(a, c) != a
  {
    if |a| == 1 {
      assert |AddToLast(a, c)[0]| == |a[0]| + 1;
    } else {
      AddToLastDiffers(a[1..], c);
      assert AddToLast(a, c)[1..] == AddToLast(a[1..], c);
    }
  }

  lemma AppendKeepsDifference<T>(a: seq<T>, b: seq<T>, x: seq<T>)
    ensures a + x == b + x <==> a == b
    ensures x + a == x + b <==> a == b
  {
    if a + x == b + x {
      assert |a| == |b| && a == (a + x)[..|a|] && b == (b + x)[..|b|];
    }
    if x + a == x + b {
      assert a == (x + a)[|x|..] && b == (x + b)[|x|..];
    }
  }

  /** Stripping and cutting can be exchanged exactly on the harmless queries. */
  lemma StripThenCutIff(s: string, q: Quote)
    requires Valid(q)
    ensures Segments(Strip(s, q), q) == StripAll(Pieces(s, q), q) <==> Harmless(s, q)
  {
    if Harmless(s, q) {
      StripThenCut(s, q);
    } else {
      var a := HarmfulShape(s, q);
      AddToLastDiffers(a, s[|s| - 2]);
      AppendKeepsDifference(a, AddToLast(a, s[|s| - 2]), [""]);
    }
  }

  lemma {:induction false} TrimStartBefore(p: string, c: char)
    requires !IsSpace(c)
    ensures TrimStart(p + [c]) == TrimStart(p) + [c]
  {
    if p == [] {
      assert p + [c] == [c];
    } else {
      assert (p + [c])[0] == p[0] && (p + [c])[1..] == p[1..] + [c];
      if IsSpace(p[0]) {
        TrimStartBefore(p[1..], c);
      }
    }
  }

  lemma TrimLonger(p: string, c: char)
    requires !IsSpace(c)
    ensures |Trim(p + [c])| > |Trim(p)|
  {
    TrimStartBefore(p, c);
    TrimEndEnds(TrimStart(p));
    var u := TrimStart(p) + [c];
    assert u[|u| - 1] == c;
  }

  lemma {:induction false} BlankAtEnd(a: seq<string>)
    ensures NonBlank(a + [""]) == NonBlank(a)
  {
    if a == [] {
      assert a + [""] == [""] && [""][1..] == [];
    } else {
      BlankAtEnd(a[1..]);
      assert (a + [""])[1..] == a[1..] + [""];
    }
  }

  lemma NonBlankSingle(s: string)
    ensures NonBlank([s]) == if Trim(s) == [] then [] else [Trim(s)]
  {
    assert [s][1..] == [];
  }

  lemma NonBlankOfRest(first: string, x: seq<string>, y: seq<string>)
    ensures NonBlank([first] + x) == NonBlank([first] + y) <==> NonBlank(x) == NonBlank(y)
    ensures |NonBlank([first] + x)| - |NonBlank([first] + y)| == |NonBlank(x)| - |NonBlank(y)|
  {
    assert ([first] + x)[1..] == x && ([first] + y)[1..] == y;
    AppendKeepsDifference(NonBlank(x), NonBlank(y), if Trim(first) == [] then [] else [Trim(first)]);
  }

  /** Any other character makes the last statement longer, or one of nothing. */
  lemma {:induction false} CharAddsToStatements(a: seq<string>, c: char)
    requires a != [] && !IsSpace(c)
    ensures NonBlank(AddToLast(a, c)) != NonBlank(a)
    ensures |NonBlank(a)| <= |NonBlank(AddToLast(a, c))|
    ensures Trim(a[|a| - 1]) == [] ==> |NonBlank(AddToLast(a, c))| == |NonBlank(a)| + 1
    ensures Trim(a[|a| - 1]) != [] ==> |NonBlank(AddToLast(a, c))| == |NonBlank(a)|
  {
    if |a| == 1 {
      TrimLonger(a[0], c);
      NonBlankSingle(a[0]);
      NonBlankSingle(a[0] + [c]);
      assert a == [a[0]];
      assert [Trim(a[0] + [c])][0] != [Trim(a[0])][0];
    } else {
      CharAddsToStatements(a[1..], c);
      NonBlankOfRest(a[0], AddToLast(a[1..], c), a[1..]);
      assert [a[0]] + a[1..] == a;
    }
  }

  lemma {:induction false} StatementsOfTrimEnd(s: string)
    ensures Statements(TrimEnd(s)) == Statements(s)
  {
    if s == [] || !IsSpace(s[|s| - 1]) {
    } else {
      var init, c := s[..|s| - 1], s[|s| - 1];
      assert s == init + [c];
      SegmentsOfSpaceEnd(init, c, None);
      SpaceAddsNoStatement(Segments(init, None), c);
      StatementsOfTrimEnd(init);
    }
  }

  lemma {:induction false} StatementsOfTrimStart(s: string)
    ensures Statements(TrimStart(s)) == Statements(s)
  {
    if s == [] || !IsSpace(s[0]) {
    } else {
      StatementsOfTrimStart(s[1..]);
      assert Advance(s, None) == (1, None);
      var rest := Segments(s[1..], None);
      assert s[..1] + rest[0] == [s[0]] + rest[0];
      assert ([s[0]] + rest[0])[1..] == rest[0];
      assert Trim([s[0]] + rest[0]) == Trim(rest[0]);
    }
  }

  /** White space around a text does not matter to its statements. */
  lemma StatementsOfTrim(s: string)
    ensures Statements(Trim(s)) == Statements(s)
  {
    StatementsOfTrimStart(s);
    StatementsOfTrimEnd(TrimStart(s));
  }

  /** As harmless as need be for statements: what an open comment leaves in front of a final semicolon may be white
      space. */
  predicate Faithful(raw: string) {
    Harmless(raw, None) || (|raw| > 1 && IsSpace(raw[|raw| - 2]))
  }

  /** The statements of a query are its pieces, stripped, trimmed, and without the blank ones, exactly if it is
      faithful. */
  lemma StatementsOfQuery(raw: string)
    ensures Statements(Prepared(raw)) == NonBlank(StripAll(Pieces(raw, None), None)) <==> Faithful(raw)
    ensures |Statements(Prepared(raw))| <= |NonBlank(StripAll(Pieces(raw, None), None))|
  {
    StatementsOfTrim(Strip(raw, None));
    if Harmless(raw, None) {
      StripThenCut(raw, None);
    } else {
      var a := HarmfulShape(raw, None);
      var c := raw[|raw| - 2];
      BlankAtEnd(a);
      BlankAtEnd(AddToLast(a, c));
      if IsSpace(c) {
        SpaceAddsNoStatement(a, c);
      } else {
        CharAddsToStatements(a, c);
      }
    }
  }

  /** A piece is more than comments and white space. */
  predicate Meaningful(piece: string) {
    Trim(Strip(piece, None)) != []
  }

  lemma {:induction false} StripAllAt(pieces: seq<string>, i: nat)
    requires i < |pieces|
    ensures |StripAll(pieces, None)| == |pieces| && StripAll(pieces, None)[i] == Strip(pieces[i], None)
  {
    if |pieces| == 1 {
    } else {
      StripAllAt(pieces[1..], if i == 0 then 0 else i - 1);
    }
  }

  lemma MeaningfulCount(pieces: seq<string>)
    requires pieces != []
    ensures |NonBlank(StripAll(pieces, None))| > 1 <==>
            exists i, j | 0 <= i < j < |pieces| :: Meaningful(pieces[i]) && Meaningful(pieces[j])
  {
    var stripped := StripAll(pieces, None);
    NonBlankCount(stripped);
    StripAllAt(pieces, 0);
    forall i | 0 <= i < |pieces|
      ensures Meaningful(pieces[i]) <==> Trim(stripped[i]) != []
    {
      StripAllAt(pieces, i);
    }
    if i, j :| 0 <= i < j < |pieces| && Meaningful(pieces[i]) && Meaningful(pieces[j]) {
      assert Trim(stripped[i]) != [] && Trim(stripped[j]) != [];
    }
  }

  /** Of the two pieces that are not blank, one is nothing but an open comment in front of the final semicolon, and
      white space. */
  predicate SecondIsComment(raw: string) {
    && !Faithful(raw) && |NonBlank(StripAll(Pieces(raw, None), None))| == 2
    && BlankBeforeEnd(Segments(Strip(raw, None), None))
  }

  /** The last part but one is blank. */
  predicate BlankBeforeEnd(parts: seq<string>) {
    |parts| > 1 && Trim(parts[|parts| - 2]) == []
  }

  lemma BlankBeforeBlank(a: seq<string>)
    requires a != []
    ensures BlankBeforeEnd(a + [""]) <==> Trim(a[|a| - 1]) == []
  {
    assert (a + [""])[|a| - 1] == a[|a| - 1];
  }

  lemma CharCounts(a: seq<string>, c: char)
    requires a != [] && !IsSpace(c)
    ensures |NonBlank(AddToLast(a, c) + [""])| == |NonBlank(a + [""])| + if BlankBeforeEnd(a + [""]) then 1 else 0
  {
    BlankAtEnd(a);
    BlankAtEnd(AddToLast(a, c));
    CharAddsToStatements(a, c);
    BlankBeforeBlank(a);
  }

  lemma UnfaithfulCounts(raw: string)
    requires !Faithful(raw)
    ensures |NonBlank(StripAll(Pieces(raw, None), None))| ==
            |NonBlank(Segments(Strip(raw, None), None))| + if BlankBeforeEnd(Segments(Strip(raw, None), None)) then 1 else 0
  {
    var a := HarmfulShape(raw, None);
    CharCounts(a, raw[|raw| - 2]);
  }

  /** A query is refused exactly if two of the pieces between its semicolons outside quotes and comments are more than
      comments and white space, unless there are only two and one is an open comment that leaves a character. */
  lemma RefusedIffTwoPieces(raw: string)
    ensures var pieces := Pieces(raw, None);
            var two := exists i, j | 0 <= i < j < |pieces| :: Meaningful(pieces[i]) && Meaningful(pieces[j]);
            |Statements(Prepared(raw))| > 1 <==> two && !SecondIsComment(raw)
  {
    StatementsOfQuery(raw);
    MeaningfulCount(Pieces(raw, None));
    if !Faithful(raw) {
      UnfaithfulCounts(raw);
      StatementsOfTrim(Strip(raw, None));
    }
  }

  lemma OpenPiece()
    ensures var open := "/*b;";
            && AtOpenComment(open, None) && CommentLength(open) == 3
            && Strip(open, None) == " ;" && Pieces(open, None) == ["/*b", ""]
  {
    var open := "/*b;";
    assert open[..2] == "/*" && open[0] == '/' && open[2..] == "b;";
    OpenText();
    assert open[..3] == "/*b" && open[3..] == ";" && "/*b" + "" == "/*b";
  }

  lemma OpenText()
    ensures SkipBlock("b;") == ";" && !Terminated("b;")
    ensures Pieces(";", None) == ["", ""] && Strip(";", None) == ";"
  {
    assert "b;"[1..] == ";" && ";"[1..] == "" && ";"[..1] == ";" && "b;"[..2] == "b;";
    assert StartsWith("b;", "*/") == false by {
      assert "*/"[0] == '*';
    }
  }

  lemma PieceTexts()
    ensures Strip("/*b", None) == " b" && Trim(" b") == "b" && Strip("a", None) == "a" && Trim("a") == "a"
    ensures Strip("", None) == "" && Trim("") == "" && Trim(" ") == ""
  {
    assert "/*b"[2..] == "b" && "/*b"[..2] == "/*" && "/*b"[0] == '/';
    assert "b"[1..] == "" && " b"[1..] == "b" && "a"[1..] == "" && " "[1..] == "";
    assert "a"[..1] == "a" && "b"[..1] == "b";
  }

  lemma BehindCut(x: string)
    ensures Pieces(";" + x, None) == [""] + Pieces(x, None) && Segments(";" + x, None) == [""] + Segments(x, None)
    ensures Strip(";" + x, None) == ";" + Strip(x, None)
    ensures Harmless(";" + x, None) <==> Harmless(x, None)
  {
    var t := ";" + x;
    assert t[0] == ';' && t[1..] == x && t[..1] == ";" && "--"[0] == '-' && "/*"[0] == '/';
  }

  lemma BehindLetter(x: string)
    ensures Pieces("a" + x, None) == Prepend("a", Pieces(x, None)) && Segments("a" + x, None) == Prepend("a", Segments(x, None))
    ensures Strip("a" + x, None) == "a" + Strip(x, None)
    ensures Harmless("a" + x, None) <==> Harmless(x, None)
  {
    var t := "a" + x;
    assert t[0] == 'a' && t[1..] == x && t[..1] == "a" && "--"[0] == '-' && "/*"[0] == '/';
  }

  lemma AfterFirst(x: string)
    ensures var s := "a" + (";" + x);
            && Pieces(s, None) == ["a"] + Pieces(x, None) && Segments(s, None) == ["a"] + Segments(x, None)
            && Strip(s, None) == "a" + (";" + Strip(x, None))
            && (Harmless(s, None) <==> Harmless(x, None))
  {
    BehindCut(x);
    BehindLetter(";" + x);
    PrependToCut(Pieces(x, None));
    PrependToCut(Segments(x, None));
  }

  lemma PrependToCut(parts: seq<string>)
    ensures Prepend("a", [""] + parts) == ["a"] + parts
  {
    assert "a" + "" == "a" && ([""] + parts)[1..] == parts;
  }

  lemma SegmentsOfOpen()
    ensures Segments(" ;", None) == [" ", ""]
  {
    assert " ;"[1..] == ";" && ";"[1..] == "" && " ;"[..1] + "" == " ";
    assert Segments(";", None) == ["", ""];
  }

  lemma StripAllOfThree()
    ensures StripAll(["a", "/*b", ""], None) == ["a", " b", ""]
  {
    PieceTexts();
    var pieces := ["a", "/*b", ""];
    assert pieces[1..] == ["/*b", ""] && ["/*b", ""][1..] == [""] && [""][1..] == [];
    assert StripAll([""], None) == [""];
    assert StripAll(["/*b", ""], None) == [" b", ""];
  }

  lemma PiecesOfExample(raw: string, open: string)
    requires raw == "a" + (";" + open) && open == "/*b;"
    ensures Pieces(raw, None) == ["a", "/*b", ""] && !Harmless(raw, None)
  {
    AfterFirst(open);
    OpenPiece();
    NotHarmless(open);
  }

  lemma NotHarmless(open: string)
    requires AtOpenComment(open, None) && |open| > 3 && open[|open| - 1] == ';'
    ensures !Harmless(open, None)
  {
  }

  lemma SegmentsOfExample(raw: string, open: string, rest: string)
    requires raw == "a" + (";" + open) && open == "/*b;" && rest == " ;"
    ensures Segments(Strip(raw, None), None) == ["a", " ", ""]
  {
    AfterFirst(open);
    AfterFirst(rest);
    OpenPiece();
    SegmentsOfOpen();
  }

  /** A query of this kind has two pieces that are more than comments, and passes the guard. */
  lemma SecondCommentIsNotRefused(raw: string)
    requires raw == "a;/*b;"
    ensures Pieces(raw, None) == ["a", "/*b", ""] && Meaningful("a") && Meaningful("/*b")
    ensures SecondIsComment(raw) && |Statements(Prepared(raw))| == 1
  {
    assert raw == "a" + (";" + "/*b;") && raw[4] == 'b';
    PiecesOfExample(raw, "/*b;");
    SegmentsOfExample(raw, "/*b;", " ;");
    PieceTexts();
    StripAllOfThree();
    NonBlankOfThree("a", " b", "");
    NonBlankOfThree("a", " ", "");
    StatementsOfTrim(Strip(raw, None));
  }

  lemma NonBlankOfThree(x: string, y: string, z: string)
    requires Trim(x) != [] && Trim(z) == []
    ensures NonBlank([x, y, z]) == [Trim(x)] + if Trim(y) == [] then [] else [Trim(y)]
  {
    NonBlankSingle(z);
    assert [x, y, z][1..] == [y, z] && [y, z][1..] == [z];
    assert NonBlank([y, z]) == if Trim(y) == [] then [] else [Trim(y)];
  }

  // ---------- what an open comment adds to the text before it ----------

  /** Scanning ends outside quotes and comments, line comments included. */
  predicate EndsPlain(s: string, q: Quote)
    decreases |s|
  {
    if s == [] then q.None?
    else if AtLineComment(s, q) then SkipLine(s[2..]) != [] && EndsPlain(SkipLine(s[2..]), None)
    else if AtBlockComment(s, q) then Terminated(s[2..]) && EndsPlain(SkipBlock(s[2..]), None)
    else
      var (n, q') := Advance(s, q);
      EndsPlain(s[n..], q')
  }

  lemma {:induction false} SkipLineBefore(s: string, x: string)
    requires SkipLine(s) != []
    ensures SkipLine(s + x) == SkipLine(s) + x
  {
    assert (s + x)[0] == s[0];
    if IsNewline(s[0]) {
    } else {
      SkipLineBefore(s[1..], x);
      assert (s + x)[1..] == s[1..] + x;
    }
  }

  lemma OpeningNotSeen(s: string, q: Quote, x: string)
    requires s != [] && Valid(q) && StartsWith(x, "/*")
    ensures AtLineComment(s + x, q) == AtLineComment(s, q) && AtBlockComment(s + x, q) == AtBlockComment(s, q)
    ensures !AtComment(s, q) ==> Advance(s + x, q) == Advance(s, q)
  {
    var t := s + x;
    assert x[0] == '/' && "--"[1] == '-' && "/*"[1] == '*';
    assert t[0] == s[0] && t[1] == if |s| > 1 then s[1] else '/';
  }

  /** Text that starts with a block comment is stripped by itself behind text that ends plainly. */
  lemma {:induction false} StripBehind(s: string, q: Quote, x: string)
    requires Valid(q) && EndsPlain(s, q) && StartsWith(x, "/*")
    ensures Strip(s + x, q) == Strip(s, q) + Strip(x, None)
    decreases |s|
  {
    var t := s + x;
    if s == [] {
      assert t == x;
    } else {
      OpeningNotSeen(s, q, x);
      if AtLineComment(s, q) {
        assert t[2..] == s[2..] + x;
        SkipLineBefore(s[2..], x);
        StripBehind(SkipLine(s[2..]), None, x);
        ConcatAssoc(" ", Strip(SkipLine(s[2..]), None), Strip(x, None));
      } else if AtBlockComment(s, q) {
        assert t[2..] == s[2..] + x;
        SkipBlockAppend(s[2..], x);
        StripBehind(SkipBlock(s[2..]), None, x);
        ConcatAssoc(" ", Strip(SkipBlock(s[2..]), None), Strip(x, None));
      } else {
        var (n, q') := Advance(s, q);
        assert t[..n] == s[..n] && t[n..] == s[n..] + x;
        StripBehind(s[n..], q', x);
        ConcatAssoc(s[..n], Strip(s[n..], q'), Strip(x, None));
      }
    }
  }

  /** Of an open comment behind other text a space and the last character are kept. */
  lemma OpenCommentBehind(p: string, text: string)
    requires EndsPlain(p, None) && text != [] && !Terminated(text)
    ensures Strip(p + "/*" + text, None) == Strip(p, None) + " " + [text[|text| - 1]]
  {
    var last := [text[|text| - 1]];
    assert p + "/*" + text == p + ("/*" + text);
    StripBehind(p, None, "/*" + text);
    UnterminatedCommentLeavesLast(text);
    ConcatAssoc(Strip(p, None), " ", last);
  }

  /** The quote machine ends outside quotes. */
  predicate Unquoted(s: string, q: Quote)
    decreases |s|
  {
    if s == [] then q.None?
    else
      var (n, q') := Advance(s, q);
      Unquoted(s[n..], q')
  }

  lemma {:induction false} StrippedIsUnquoted(s: string, q: Quote)
    requires Valid(q) && EndsPlain(s, q)
    ensures Unquoted(Strip(s, q), q)
    decreases |s|
  {
    if s == [] {
    } else if AtLineComment(s, q) {
      StrippedIsUnquoted(SkipLine(s[2..]), None);
      AfterSpace(Strip(SkipLine(s[2..]), None));
    } else if AtBlockComment(s, q) {
      StrippedIsUnquoted(SkipBlock(s[2..]), None);
      AfterSpace(Strip(SkipBlock(s[2..]), None));
    } else {
      var (n, q') := Advance(s, q);
      AdvanceAgain(s, q);
      StrippedIsUnquoted(s[n..], q');
    }
  }

  /** A space and one more character, no semicolon, go to the end of the last segment. */
  lemma {:induction false} SegmentsOfTail(s: string, q: Quote, c: char)
    requires Valid(q) && Unquoted(s, q) && c != ';'
    ensures Segments(s + " " + [c], q) == AddToLast(AddToLast(Segments(s, q), ' '), c)
    decreases |s|
  {
    var t := s + " " + [c];
    if s == [] {
      assert t == " " + [c];
      SegmentsAfterSpace(c);
      assert [""][0] + [' '] == " ";
    } else {
      assert t[0] == s[0] && t[1] == if |s| > 1 then s[1] else ' ';
      var (n, q') := Advance(s, q);
      if q.None? && s[0] == ';' {
        assert t[1..] == s[1..] + " " + [c];
        SegmentsOfTail(s[1..], None, c);
        AddToLastPrepended("", Segments(s[1..], None), ' ');
        AddToLastPrepended("", AddToLast(Segments(s[1..], None), ' '), c);
      } else {
        assert Advance(t, q) == (n, q');
        assert t[n..] == s[n..] + " " + [c] && t[..n] == s[..n];
        SegmentsOfTail(s[n..], q', c);
        AddToLastPrepended(s[..n], Segments(s[n..], q'), ' ');
        AddToLastPrepended(s[..n], AddToLast(Segments(s[n..], q'), ' '), c);
      }
    }
  }

  /** So behind a finished statement, text inside a comment that does not end is a statement of its own: a query of one
      statement is refused. */
  lemma LeftOverAddsStatement(p: string, text: string)
    requires EndsPlain(p, None) && text != [] && !Terminated(text)
    requires var segments := Segments(Strip(p, None), None); Trim(segments[|segments| - 1]) == []
    requires !IsSpace(text[|text| - 1]) && text[|text| - 1] != ';'
    ensures |Statements(Prepared(p + "/*" + text))| == |Statements(Prepared(p))| + 1
  {
    var c := text[|text| - 1];
    var segments := Segments(Strip(p, None), None);
    OpenCommentBehind(p, text);
    StrippedIsUnquoted(p, None);
    SegmentsOfTail(Strip(p, None), None, c);
    StatementsOfTrim(Strip(p, None));
    StatementsOfTrim(Strip(p + "/*" + text, None));
    SpaceAddsNoStatement(segments, ' ');
    BlankStaysBlank(segments);
    CharAddsToStatements(AddToLast(segments, ' '), c);
  }

  lemma {:induction false} BlankStaysBlank(parts: seq<string>)
    requires parts != [] && Trim(parts[|parts| - 1]) == []
    ensures var more := AddToLast(parts, ' '); |more| == |parts| && Trim(more[|more| - 1]) == []
  {
    if |parts| == 1 {
      TrimTrailing(parts[0], ' ');
    } else {
      BlankStaysBlank(parts[1..]);
    }
  }
}
