/**
  How a policy expression is read: every text as an `or` of `and`s, and exactly which formulas, written out, are read
  back as themselves.
 */
module PolicyReading {
  import opened Text
  import opened PolicyExpression

  // ---------- reading a text as a formula ----------

  function TrimAll(parts: seq<string>): seq<string> {
    seq(|parts|, i requires 0 <= i < |parts| => Trim(parts[i]))
  }

  function Parts(text: string, sep: string): seq<string>
    requires sep != []
  {
    TrimAll(Split(Trim(text), sep, Outside))
  }

  function Parse(text: string): Formula {
    var clauses := Parts(text, OR);
    seq(|clauses|, i requires 0 <= i < |clauses| => Parts(clauses[i], AND))
  }

  // ---------- pieces of uncut text are uncut ----------

  lemma {:induction false} UncutPrefix(s: string, more: string, sep: string, m: Mode)
    requires IsConnective(sep) && Uncut(s + more, sep, m)
    ensures Uncut(s, sep, m)
  {
    if more == [] {
      assert s + more == s;
    } else {
      var init, last := more[..|more| - 1], more[|more| - 1];
      assert s + more == s + init + [last];
      UncutDropLast(s + init, last, sep, m);
      UncutPrefix(s, init, sep, m);
    }
  }

  lemma {:induction false} UncutSuffix(before: string, s: string, sep: string, m: Mode)
    requires IsConnective(sep) && Uncut(before + s, sep, m)
    ensures Uncut(s, sep, End(before, m))
  {
    if before == [] {
      assert before + s == s;
    } else {
      assert before + s == [before[0]] + (before[1..] + s);
      UncutTail(before[0], before[1..] + s, sep, m);
      UncutSuffix(before[1..], s, sep, After(m, before[0]));
    }
  }

  lemma {:induction false} TrimStartKeepsUncut(s: string, sep: string)
    requires IsConnective(sep) && Uncut(s, sep, Outside)
    ensures Uncut(TrimStart(s), sep, Outside)
  {
    if s == [] || !IsSpace(s[0]) {
    } else {
      assert s == [s[0]] + s[1..];
      UncutTail(s[0], s[1..], sep, Outside);
      TrimStartKeepsUncut(s[1..], sep);
    }
  }

  lemma TrimKeepsUncut(s: string, sep: string)
    requires IsConnective(sep) && Uncut(s, sep, Outside)
    ensures Uncut(Trim(s), sep, Outside)
  {
    TrimStartKeepsUncut(s, sep);
    var t := TrimStart(s);
    TrimEndEnds(t);
    var u := TrimEnd(t);
    assert t == u + t[|u|..];
    UncutPrefix(u, t[|u|..], sep, Outside);
  }

  lemma {:induction false} FirstPartIsPrefix(s: string, sep: string, m: Mode)
    requires sep != []
    ensures Split(s, sep, m)[0] <= s
    decreases |s|
  {
    if |s| < |sep| || (!Toggles(m, s[0]) && m == Outside && StartsWith(s, sep)) {
    } else {
      FirstPartIsPrefix(s[1..], sep, After(m, s[0]));
    }
  }

  /** Every part, read on its own, is one part. */
  lemma {:induction false} PartsAreUncut(s: string, sep: string, m: Mode, i: nat)
    requires sep != [] && i < |Split(s, sep, m)|
    ensures Uncut(Split(s, sep, m)[i], sep, if i == 0 then m else Outside)
    decreases |s|
  {
    if |s| < |sep| {
    } else {
      if !Toggles(m, s[0]) && m == Outside && StartsWith(s, sep) {
        if i > 0 {
          PartsAreUncut(s[|sep|..], sep, Outside, i - 1);
        }
      } else {
        PartsAreUncut(s[1..], sep, After(m, s[0]), i);
        if i == 0 {
          FirstPartIsPrefix(s, sep, m);
          var p := Split(s, sep, m)[0];
          assert p[1..] == Split(s[1..], sep, After(m, s[0]))[0];
        }
      }
    }
  }

  lemma FirstAndPartIsUncut(s: string, m: Mode)
    requires Uncut(s, OR, m)
    ensures Uncut(Split(s, AND, m)[0], OR, m)
  {
    FirstPartIsPrefix(s, AND, m);
    var p := Split(s, AND, m)[0];
    assert s == p + s[|p|..];
    UncutPrefix(p, s[|p|..], OR, m);
  }

  lemma UncutBehindAnd(rest: string)
    requires Uncut(AND + rest, OR, Outside)
    ensures Uncut(rest, OR, Outside)
  {
    UncutSuffix(AND, rest, OR, Outside);
    AndEndsOutside();
  }

  /** Cutting at `and` makes no new place to cut at `or`. */
  lemma {:induction false} AndPartsAreUncut(s: string, m: Mode, i: nat)
    requires Uncut(s, OR, m) && i < |Split(s, AND, m)|
    ensures Uncut(Split(s, AND, m)[i], OR, if i == 0 then m else Outside)
    decreases |s|
  {
    if i == 0 {
      FirstAndPartIsUncut(s, m);
    } else if !Toggles(m, s[0]) && m == Outside && StartsWith(s, AND) {
      assert s == AND + s[|AND|..];
      UncutBehindAnd(s[|AND|..]);
      AndPartsAreUncut(s[|AND|..], Outside, i - 1);
    } else {
      assert s == [s[0]] + s[1..];
      UncutTail(s[0], s[1..], OR, m);
      AndPartsAreUncut(s[1..], After(m, s[0]), i);
    }
  }

  // ---------- evaluation is reading ----------

  lemma EvaluateClauseText(text: string, atom: string -> bool)
    requires Trimmed(text) && Uncut(text, OR, Outside)
    ensures Evaluate(text, atom) <==> ClauseHolds(Parts(text, AND), atom)
  {
    TrimmedIsKept(text);
    var parts := Split(text, AND, Outside);
    forall i | 0 <= i < |parts|
      ensures Evaluate(Trim(parts[i]), atom) == atom(Trim(parts[i]))
    {
      PartsAreUncut(text, AND, Outside, i);
      AndPartsAreUncut(text, Outside, i);
      TrimKeepsUncut(parts[i], AND);
      TrimKeepsUncut(parts[i], OR);
      TrimIsTrimmed(parts[i]);
      EvaluateUncut(Trim(parts[i]), atom);
    }
    if |parts| == 1 {
      UncutIsWhole(text, AND);
      assert Parts(text, AND) == [text];
      EvaluateUncut(text, atom);
      assert ClauseHolds([text], atom) <==> atom([text][0]);
    } else {
      assert Evaluate(text, atom) == forall i | 0 <= i < |parts| :: Evaluate(Trim(parts[i]), atom);
      assert forall i | 0 <= i < |parts| :: Parts(text, AND)[i] == Trim(parts[i]);
    }
  }

  /** On every text, well formed or not, evaluation gives the value of the formula the text is read as. */
  lemma EvaluateReads(text: string, atom: string -> bool)
    ensures Evaluate(text, atom) <==> Holds(Parse(text), atom)
  {
    var trimmed := Trim(text);
    TrimIsTrimmed(text);
    TrimmedIsKept(trimmed);
    var parts := Split(trimmed, OR, Outside);
    forall i | 0 <= i < |parts|
      ensures Evaluate(Trim(parts[i]), atom) == ClauseHolds(Parse(text)[i], atom)
    {
      PartsAreUncut(trimmed, OR, Outside, i);
      TrimKeepsUncut(parts[i], OR);
      TrimIsTrimmed(parts[i]);
      EvaluateClauseText(Trim(parts[i]), atom);
    }
    if |parts| == 1 {
      UncutIsWhole(trimmed, OR);
      assert Evaluate(text, atom) == Evaluate(Trim(parts[0]), atom);
    } else {
      assert Evaluate(text, atom) == exists i | 0 <= i < |parts| :: Evaluate(Trim(parts[i]), atom);
    }
  }

  // ---------- which joins are cut where they were joined ----------

  /** In front of the separator, `p` is cut off at its end and nowhere before. */
  predicate Closed(p: string, sep: string, m: Mode)
    requires sep != []
  {
    End(p, m) == Outside && Uncut(p + sep[..|sep| - 1], sep, m)
  }

  /** A piece in front of the separator is the first part exactly if it is closed. */
  lemma {:induction false} FirstPartIff(p: string, sep: string, rest: string, m: Mode)
    requires IsConnective(sep)
    ensures var parts := Split(p + sep + rest, sep, m);
            && (Closed(p, sep, m) <==> |parts| > 1 && parts[0] == p)
            && (Closed(p, sep, m) ==> parts == [p] + Split(rest, sep, Outside))
  {
    var t := p + sep + rest;
    if p == [] {
      assert t == sep + rest && t[|sep|..] == rest;
      assert p + sep[..|sep| - 1] == sep[..|sep| - 1];
    } else {
      FirstPartIff(p[1..], sep, rest, After(m, p[0]));
      assert t[0] == p[0] && t[1..] == p[1..] + sep + rest;
      FirstCharIff(p, sep, rest, m);
    }
  }

  /** Whether `p` is cut at its first character shows before the separator ends. */
  lemma FirstCharIff(p: string, sep: string, rest: string, m: Mode)
    requires IsConnective(sep) && p != []
    ensures StartsWith(p + sep + rest, sep) <==> StartsWith(p + sep[..|sep| - 1], sep)
    ensures Closed(p, sep, m) <==>
            && !(!Toggles(m, p[0]) && m == Outside && StartsWith(p + sep + rest, sep))
            && Closed(p[1..], sep, After(m, p[0]))
  {
    var t, u := p + sep + rest, p + sep[..|sep| - 1];
    assert t[..|sep|] == u[..|sep|];
    assert u[0] == p[0] && u[1..] == p[1..] + sep[..|sep| - 1];
  }

  predicate AllClosed(pieces: seq<string>, sep: string)
    requires sep != []
  {
    pieces != [] &&
    if |pieces| == 1 then Uncut(pieces[0], sep, Outside)
    else Closed(pieces[0], sep, Outside) && AllClosed(pieces[1..], sep)
  }

  /** Cutting a join gives the pieces back exactly if all but the last are closed and the last is uncut. */
  lemma {:induction false} SplitJoinIff(pieces: seq<string>, sep: string)
    requires IsConnective(sep)
    ensures Split(Join(pieces, sep), sep, Outside) == pieces <==> AllClosed(pieces, sep)
  {
    if pieces == [] {
    } else if |pieces| == 1 {
      if Uncut(pieces[0], sep, Outside) {
        UncutIsWhole(pieces[0], sep);
      }
    } else {
      SplitJoinIff(pieces[1..], sep);
      FirstPartIff(pieces[0], sep, Join(pieces[1..], sep), Outside);
      assert [pieces[0]] + pieces[1..] == pieces;
      if Closed(pieces[0], sep, Outside) {
        var more := Split(Join(pieces[1..], sep), sep, Outside);
        assert ([pieces[0]] + more)[1..] == more;
      }
    }
  }

  // ---------- which formulas are read back ----------

  /** The pieces are cut where they were joined, and no white space is lost. */
  predicate Sound(pieces: seq<string>, sep: string)
    requires sep != []
  {
    AllClosed(pieces, sep) && Trimmed(Join(pieces, sep)) && forall i | 0 <= i < |pieces| :: Trimmed(pieces[i])
  }

  lemma {:induction false} JoinSizes(a: seq<string>, b: seq<string>, sep: string)
    requires |a| == |b| && forall i | 0 <= i < |a| :: |a[i]| <= |b[i]|
    ensures |Join(a, sep)| <= |Join(b, sep)|
    ensures |Join(a, sep)| == |Join(b, sep)| ==> forall i | 0 <= i < |a| :: |a[i]| == |b[i]|
  {
    if |a| <= 1 {
    } else {
      JoinSizes(a[1..], b[1..], sep);
      assert forall i | 1 <= i < |a| :: a[i] == a[1..][i - 1] && b[i] == b[1..][i - 1];
    }
  }

  lemma {:induction false} TrimStartSameSize(s: string)
    requires |TrimStart(s)| == |s|
    ensures TrimStart(s) == s
  {
    if s == [] {
    } else {
      TrimStartStarts(s[1..]);
    }
  }

  lemma TrimSameSize(s: string)
    requires |Trim(s)| == |s|
    ensures Trim(s) == s && Trimmed(s)
  {
    TrimStartStarts(s);
    TrimEndEnds(TrimStart(s));
    TrimStartSameSize(s);
    TrimIsTrimmed(s);
  }

  /** Reading makes text no longer: the trimmed parts, joined again, are at most as long as the text; and if they are as
      long, nothing was trimmed. */
  lemma PartsSizes(text: string, sep: string)
    requires sep != []
    ensures |Join(Parts(text, sep), sep)| <= |Trim(text)| <= |text|
    ensures |Join(Parts(text, sep), sep)| == |text| ==> Trim(text) == text && Parts(text, sep) == Split(text, sep, Outside)
  {
    var trimmed := Trim(text);
    TrimIsTrimmed(text);
    var parts := Split(trimmed, sep, Outside);
    forall i | 0 <= i < |parts|
      ensures |Trim(parts[i])| <= |parts[i]|
      ensures |Trim(parts[i])| == |parts[i]| ==> Trim(parts[i]) == parts[i]
    {
      TrimIsTrimmed(parts[i]);
      if |Trim(parts[i])| == |parts[i]| {
        TrimSameSize(parts[i]);
      }
    }
    SplitJoins(trimmed, sep, Outside);
    JoinSizes(TrimAll(parts), parts, sep);
    if |Join(Parts(text, sep), sep)| == |text| {
      TrimSameSize(text);
      assert TrimAll(parts) == parts;
    }
  }

  /** A joined text is read as its pieces exactly if the pieces are sound. */
  lemma PartsIff(pieces: seq<string>, sep: string)
    requires IsConnective(sep)
    ensures Parts(Join(pieces, sep), sep) == pieces <==> Sound(pieces, sep)
  {
    var text := Join(pieces, sep);
    PartsSizes(text, sep);
    SplitJoinIff(pieces, sep);
    if Parts(text, sep) == pieces {
      TrimIsTrimmed(text);
      PartsTrimmed(text, sep);
    }
    if Sound(pieces, sep) {
      TrimmedIsKept(text);
      forall i | 0 <= i < |pieces|
        ensures Trim(pieces[i]) == pieces[i]
      {
        TrimmedIsKept(pieces[i]);
      }
      assert TrimAll(pieces) == pieces;
    }
  }

  lemma PartsTrimmed(text: string, sep: string)
    requires sep != []
    ensures forall i | 0 <= i < |Parts(text, sep)| :: Trimmed(Parts(text, sep)[i])
  {
    var parts := Split(Trim(text), sep, Outside);
    forall i | 0 <= i < |parts| ensures Trimmed(Trim(parts[i])) {
      TrimIsTrimmed(parts[i]);
    }
  }

  predicate ReadBack(f: Formula) {
    Sound(RenderClauses(f), OR) && forall i | 0 <= i < |f| :: Sound(f[i], AND)
  }

  /** If a written formula is read back, then clause by clause. */
  lemma ClausesReadBack(f: Formula)
    requires Parse(Render(f)) == f
    ensures Parts(Render(f), OR) == RenderClauses(f)
  {
    var text, clauses, rendered := Render(f), Parts(Render(f), OR), RenderClauses(f);
    forall i | 0 <= i < |f|
      ensures |rendered[i]| <= |clauses[i]|
      ensures |rendered[i]| == |clauses[i]| ==> clauses[i] == rendered[i]
    {
      assert f[i] == Parts(clauses[i], AND);
      PartsSizes(clauses[i], AND);
      if |rendered[i]| == |clauses[i]| {
        SplitJoins(clauses[i], AND, Outside);
      }
    }
    PartsSizes(text, OR);
    JoinSizes(rendered, clauses, OR);
  }

  /** A formula, written out, is read back as itself exactly if its clauses and their atoms are sound. */
  lemma ReadBackIff(f: Formula)
    ensures Parse(Render(f)) == f <==> ReadBack(f)
  {
    var rendered := RenderClauses(f);
    PartsIff(rendered, OR);
    forall i | 0 <= i < |f|
      ensures Parts(rendered[i], AND) == f[i] <==> Sound(f[i], AND)
    {
      PartsIff(f[i], AND);
    }
    if Parse(Render(f)) == f {
      ClausesReadBack(f);
      assert forall i | 0 <= i < |f| :: f[i] == Parse(Render(f))[i] == Parts(rendered[i], AND);
    }
  }

  /** Atoms that are trimmed, have their quotes closed and hold no connective, not even at an edge, are always sound. */
  lemma RenderableIsReadBack(f: Formula)
    requires Renderable(f)
    ensures ReadBack(f)
  {
    var clauses := RenderClauses(f);
    forall i | 0 <= i < |f|
      ensures Sound(f[i], AND) && Solid(clauses[i], OR) && clauses[i] != [] && Trimmed(clauses[i])
    {
      SplitJoin(f[i], AND);
      SplitJoinIff(f[i], AND);
      JoinIsTrimmed(f[i], AND);
      ClauseIsSolid(f[i]);
    }
    SplitJoin(clauses, OR);
    SplitJoinIff(clauses, OR);
    JoinIsTrimmed(clauses, OR);
  }

  /** Evaluating the text of a formula gives the value of the formula, whatever the comparisons evaluate to. */
  lemma EvaluateRender(f: Formula, atom: string -> bool)
    requires ReadBack(f)
    ensures Evaluate(Render(f), atom) <==> Holds(f, atom)
  {
    ReadBackIff(f);
    EvaluateReads(Render(f), atom);
  }
}
