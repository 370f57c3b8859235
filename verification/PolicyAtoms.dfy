/**
  Comparisons as their authors write them, character by character and string literal by string literal, and which of them
  can be joined by connectives and read back.
 */
module PolicyAtoms {
  import opened Text
  import opened PolicyExpression
  import opened PolicyReading

  /** A character other than a quote, or a string literal: a text between quotes of one kind, without that kind inside. */
  datatype Part = Plain(c: char) | Quoted(quote: char, text: string)

  predicate IsPart(p: Part) {
    match p
    case Plain(c) => c != '\'' && c != '"'
    case Quoted(q, text) => (q == '\'' || q == '"') && q !in text
  }

  predicate AllParts(parts: seq<Part>) {
    forall i | 0 <= i < |parts| :: IsPart(parts[i])
  }

  function Spelled(p: Part): string {
    match p
    case Plain(c) => [c]
    case Quoted(q, text) => [q] + (text + [q])
  }

  function Written(parts: seq<Part>): string {
    if parts == [] then [] else Spelled(parts[0]) + Written(parts[1..])
  }

  function Emptied(p: Part): string {
    match p
    case Plain(c) => [c]
    case Quoted(q, _) => [q, q]
  }

  /** The text with its string literals emptied. */
  function Outline(parts: seq<Part>): string {
    if parts == [] then []
    else Emptied(parts[0]) + Outline(parts[1..])
  }

  predicate Contains(s: string, word: string) {
    word <= s || (s != [] && Contains(s[1..], word))
  }

  // ---------- scanning parts ----------

  lemma {:induction false} ContainsInRest(before: string, s: string, word: string)
    requires Contains(s, word)
    ensures Contains(before + s, word)
  {
    if before == [] {
      assert before + s == s;
    } else {
      ContainsInRest(before[1..], s, word);
      assert (before + s)[1..] == before[1..] + s;
    }
  }

  lemma {:induction false} ContainsInFront(s: string, behind: string, word: string)
    requires Contains(s, word)
    ensures Contains(s + behind, word)
  {
    if word <= s {
      assert word <= s + behind;
    } else {
      ContainsInFront(s[1..], behind, word);
      assert (s + behind)[1..] == s[1..] + behind;
    }
  }

  /** Unquoted text at the beginning is the same with the literals emptied. */
  lemma {:induction false} PlainPrefix(parts: seq<Part>, word: string)
    requires word <= Written(parts) && AllParts(parts) && '\'' !in word && '"' !in word
    ensures word <= Outline(parts)
  {
    if word == [] {
    } else {
      var s := Spelled(parts[0]);
      assert word[0] == (s + Written(parts[1..]))[0] == s[0];
      assert word[0] in word && IsPart(parts[0]);
      assert parts[0].Plain?;
      assert word[1..] <= Written(parts[1..]);
      PlainPrefix(parts[1..], word[1..]);
      assert word == [word[0]] + word[1..];
    }
  }

  lemma OneMore(c: char, s: string, sep: string, m: Mode)
    requires sep != [] && !(!Toggles(m, c) && m == Outside && sep <= [c] + s)
    ensures Uncut([c] + s, sep, m) <==> Uncut(s, sep, After(m, c))
  {
    assert ([c] + s)[1..] == s;
  }

  function Inside(q: char): Mode {
    if q == '\'' then InSingle else InDouble
  }

  lemma {:induction false} LiteralUncut(text: string, q: char, rest: string, sep: string)
    requires sep != [] && (q == '\'' || q == '"') && q !in text
    ensures Uncut(text + [q] + rest, sep, Inside(q)) <==> Uncut(rest, sep, Outside)
    ensures End(text + [q] + rest, Inside(q)) == End(rest, Outside)
  {
    var t := text + [q] + rest;
    if text == [] {
      assert t == [q] + rest && t[1..] == rest;
      OneMore(q, rest, sep, Inside(q));
    } else {
      var more := text[1..] + [q] + rest;
      assert t == [text[0]] + more && t[1..] == more && text[0] in text;
      OneMore(text[0], more, sep, Inside(q));
      LiteralUncut(text[1..], q, rest, sep);
    }
  }

  lemma PartUncut(p: Part, rest: string, sep: string)
    requires IsPart(p) && sep != [] && (p.Plain? ==> !(sep <= [p.c] + rest))
    ensures Uncut(Spelled(p) + rest, sep, Outside) <==> Uncut(rest, sep, Outside)
    ensures End(Spelled(p) + rest, Outside) == End(rest, Outside)
  {
    match p
    case Plain(c) =>
      OneMore(c, rest, sep, Outside);
      assert ([c] + rest)[1..] == rest;
    case Quoted(q, text) =>
      var more := text + [q] + rest;
      assert Spelled(p) + rest == [q] + more && ([q] + more)[1..] == more;
      OneMore(q, more, sep, Outside);
      LiteralUncut(text, q, rest, sep);
  }

  /** A text is not cut if, with its literals emptied, it does not hold the connective; and its quotes are closed. */
  lemma {:induction false} PartsUncut(parts: seq<Part>, sep: string)
    requires AllParts(parts) && sep != [] && '\'' !in sep && '"' !in sep && !Contains(Outline(parts), sep)
    ensures Uncut(Written(parts), sep, Outside) && End(Written(parts), Outside) == Outside
  {
    if parts == [] {
    } else {
      var rest := parts[1..];
      if Contains(Outline(rest), sep) {
        ContainsInRest(Emptied(parts[0]), Outline(rest), sep);
      }
      if sep <= Written(parts) {
        PlainPrefix(parts, sep);
      }
      PartsUncut(rest, sep);
      PartUncut(parts[0], Written(rest), sep);
    }
  }

  // ---------- comparisons ----------

  /** Neither empty nor white space at an end, and no connective outside its string literals, not even one made with a blank
      put around the text. */
  predicate IsComparison(parts: seq<Part>) {
    && AllParts(parts) && parts != []
    && Trimmed(Written(parts))
    && !Contains(" " + Outline(parts) + " ", " or ") && !Contains(" " + Outline(parts) + " ", " and ")
  }

  lemma Assoc(x: string, y: string, z: string)
    ensures x + y + z == x + (y + z)
  {
  }

  lemma {:induction false} BlankBehind(parts: seq<Part>)
    ensures Written(parts + [Plain(' ')]) == Written(parts) + " "
    ensures Outline(parts + [Plain(' ')]) == Outline(parts) + " "
  {
    var blank := [Plain(' ')];
    if parts == [] {
      assert parts + blank == blank && blank[1..] == [];
      assert Written(blank) == [' '] + [] && Outline(blank) == [' '] + [];
    } else {
      BlankBehind(parts[1..]);
      PartBefore(parts[0], parts[1..] + blank);
      assert parts + blank == [parts[0]] + (parts[1..] + blank);
      Assoc(Spelled(parts[0]), Written(parts[1..]), " ");
      Assoc(Emptied(parts[0]), Outline(parts[1..]), " ");
    }
  }

  lemma PartBefore(p: Part, parts: seq<Part>)
    ensures Written([p] + parts) == Spelled(p) + Written(parts) && Outline([p] + parts) == Emptied(p) + Outline(parts)
  {
    assert ([p] + parts)[1..] == parts;
  }

  lemma PaddedParts(parts: seq<Part>)
    ensures var padded := [Plain(' ')] + (parts + [Plain(' ')]);
            Written(padded) == " " + Written(parts) + " " && Outline(padded) == " " + Outline(parts) + " "
  {
    BlankBehind(parts);
    PartBefore(Plain(' '), parts + [Plain(' ')]);
    Assoc(" ", Written(parts), " ");
    Assoc(" ", Outline(parts), " ");
  }

  lemma ComparisonSolid(parts: seq<Part>, sep: string)
    requires IsComparison(parts) && (sep == " or " || sep == " and ")
    ensures Solid(Written(parts), sep)
  {
    var padded := [Plain(' ')] + (parts + [Plain(' ')]);
    PaddedParts(parts);
    assert sep == " or " || sep == " and ";
    assert " or " == [' ', 'o', 'r', ' '] && " and " == [' ', 'a', 'n', 'd', ' '];
    PartsUncut(padded, sep);
    NotInMiddle(parts, sep);
    PartsUncut(parts, sep);
  }

  lemma NotInMiddle(parts: seq<Part>, sep: string)
    requires !Contains(" " + Outline(parts) + " ", sep)
    ensures !Contains(Outline(parts), sep)
  {
    var s := Outline(parts);
    if Contains(s, sep) {
      ContainsInRest(" ", s, sep);
      ContainsInFront(" " + s, " ", sep);
    }
  }

  function Texts(atoms: seq<seq<Part>>): seq<string> {
    seq(|atoms|, j requires 0 <= j < |atoms| => Written(atoms[j]))
  }

  function ClauseTexts(f: seq<seq<seq<Part>>>): seq<string> {
    seq(|f|, i requires 0 <= i < |f| => Join(Texts(f[i]), " and "))
  }

  /** Some clause has all its comparisons true. */
  predicate IsTrue(f: seq<seq<seq<Part>>>, atom: string -> bool) {
    exists i | 0 <= i < |f| :: AllTrue(f[i], atom)
  }

  predicate AllTrue(atoms: seq<seq<Part>>, atom: string -> bool) {
    forall j | 0 <= j < |atoms| :: atom(Written(atoms[j]))
  }

  predicate AreComparisons(f: seq<seq<seq<Part>>>) {
    forall i | 0 <= i < |f| :: f[i] != [] && forall j | 0 <= j < |f[i]| :: IsComparison(f[i][j])
  }

  lemma AtomsClean(f: seq<seq<seq<Part>>>, g: Formula)
    requires |f| == |g| && forall i | 0 <= i < |f| :: g[i] == Texts(f[i])
    requires AreComparisons(f)
    ensures forall i | 0 <= i < |f| :: g[i] != [] && forall j | 0 <= j < |g[i]| :: Clean(g[i][j])
  {
    forall i, j | 0 <= i < |f| && 0 <= j < |f[i]|
      ensures Clean(g[i][j])
    {
      ComparisonSolid(f[i][j], " or ");
      ComparisonSolid(f[i][j], " and ");
    }
  }

  lemma TextsHold(f: seq<seq<seq<Part>>>, g: Formula, atom: string -> bool)
    requires |f| == |g| && forall i | 0 <= i < |f| :: g[i] == Texts(f[i])
    ensures Holds(g, atom) <==> IsTrue(f, atom)
  {
    forall i | 0 <= i < |f|
      ensures ClauseHolds(g[i], atom) <==> AllTrue(f[i], atom)
    {
      ClauseOfTexts(f[i], atom);
    }
  }

  lemma EvaluateText(text: string, g: Formula, atom: string -> bool)
    requires text == Render(g) && Renderable(g)
    ensures Evaluate(text, atom) <==> Holds(g, atom)
  {
    RenderableIsReadBack(g);
    EvaluateRender(g, atom);
  }

  /** Comparisons joined by ` and ` to clauses, and those by ` or `, evaluate to what the formula says, whatever their string
      literals hold. */
  lemma EvaluateWritten(f: seq<seq<seq<Part>>>, atom: string -> bool)
    requires f != [] && AreComparisons(f)
    ensures Evaluate(Join(ClauseTexts(f), " or "), atom) <==> IsTrue(f, atom)
  {
    var g: Formula := seq(|f|, i requires 0 <= i < |f| => Texts(f[i]));
    AtomsClean(f, g);
    RenderedTexts(f, g);
    EvaluateText(Join(ClauseTexts(f), " or "), g, atom);
    TextsHold(f, g, atom);
  }

  lemma RenderedTexts(f: seq<seq<seq<Part>>>, g: Formula)
    requires |f| == |g| && forall i | 0 <= i < |f| :: g[i] == Texts(f[i])
    ensures Render(g) == Join(ClauseTexts(f), " or ")
  {
    assert ClauseTexts(f) == RenderClauses(g);
  }

  lemma ClauseOfTexts(atoms: seq<seq<Part>>, atom: string -> bool)
    ensures ClauseHolds(Texts(atoms), atom) <==> AllTrue(atoms, atom)
  {
    assert forall j | 0 <= j < |atoms| :: Texts(atoms)[j] == Written(atoms[j]);
  }
}
