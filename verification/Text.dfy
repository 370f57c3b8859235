/** The string operations the scanners share. */
module Text {

  /** The characters that JavaScript's `trim` and `\s` treat as white space. */
  predicate IsSpace(c: char) {
    || c == ' ' || '\t' <= c <= '\r'
    || c == '\U{00A0}' || c == '\U{1680}' || '\U{2000}' <= c <= '\U{200A}'
    || c == '\U{2028}' || c == '\U{2029}' || c == '\U{202F}' || c == '\U{205F}' || c == '\U{3000}' || c == '\U{FEFF}'
  }

  function TrimStart(s: string): string {
    if s != [] && IsSpace(s[0]) then TrimStart(s[1..]) else s
  }

  function TrimEnd(s: string): string {
    if s != [] && IsSpace(s[|s| - 1]) then TrimEnd(s[..|s| - 1]) else s
  }

  function Trim(s: string): string {
    TrimEnd(TrimStart(s))
  }

  predicate Trimmed(s: string) {
    s != [] ==> !IsSpace(s[0]) && !IsSpace(s[|s| - 1])
  }

  lemma {:induction false} TrimStartStarts(s: string)
    ensures var t := TrimStart(s); t != [] ==> !IsSpace(t[0])
    ensures |TrimStart(s)| <= |s|
  {
    if s == [] || !IsSpace(s[0]) {
    } else {
      TrimStartStarts(s[1..]);
    }
  }

  lemma {:induction false} TrimEndEnds(s: string)
    ensures var t := TrimEnd(s); (t != [] ==> !IsSpace(t[|t| - 1])) && t <= s
  {
    if s == [] || !IsSpace(s[|s| - 1]) {
    } else {
      TrimEndEnds(s[..|s| - 1]);
    }
  }

  lemma TrimIsTrimmed(s: string)
    ensures Trimmed(Trim(s)) && |Trim(s)| <= |s|
  {
    TrimStartStarts(s);
    TrimEndEnds(TrimStart(s));
  }

  lemma TrimmedIsKept(s: string)
    requires Trimmed(s)
    ensures Trim(s) == s
  {
  }

  /** White space at the end does not matter. */
  lemma {:induction false} TrimTrailing(s: string, c: char)
    requires IsSpace(c)
    ensures Trim(s + [c]) == Trim(s)
  {
    if s == [] {
      assert s + [c] == [c] && TrimStart([c]) == TrimStart([c][1..]);
    } else if IsSpace(s[0]) {
      TrimTrailing(s[1..], c);
      assert (s + [c])[1..] == s[1..] + [c];
    } else {
      assert (s + [c])[..|s|] == s;
    }
  }

  /** Trimming takes away, at both ends, exactly what is white space: blanks, tabs, the line and page breaks, and the
      other space characters and separators of Unicode. */
  lemma TrimTakesSpace(s: string) returns (before: string, behind: string)
    ensures s == before + Trim(s) + behind
    ensures forall c | c in before || c in behind :: SpaceCode(c as int)
    ensures Trim(s) != [] ==> !SpaceCode(Trim(s)[0] as int) && !SpaceCode(Trim(s)[|Trim(s)| - 1] as int)
  {
    before := TrimStartTakes(s);
    behind := TrimEndTakes(TrimStart(s));
    TrimIsTrimmed(s);
  }

  /** The code points of white space. */
  predicate SpaceCode(code: int) {
    0x9 <= code <= 0xD || 0x2000 <= code <= 0x200A ||
    code in {0x20, 0xA0, 0x1680, 0x2028, 0x2029, 0x202F, 0x205F, 0x3000, 0xFEFF}
  }

  lemma {:induction false} TrimStartTakes(s: string) returns (before: string)
    ensures s == before + TrimStart(s) && forall c | c in before :: IsSpace(c)
  {
    if s == [] || !IsSpace(s[0]) {
      before := [];
    } else {
      var more := TrimStartTakes(s[1..]);
      before := [s[0]] + more;
      assert s == [s[0]] + s[1..];
    }
  }

  lemma {:induction false} TrimEndTakes(s: string) returns (behind: string)
    ensures s == TrimEnd(s) + behind && forall c | c in behind :: IsSpace(c)
  {
    if s == [] || !IsSpace(s[|s| - 1]) {
      behind := [];
    } else {
      var more := TrimEndTakes(s[..|s| - 1]);
      behind := more + [s[|s| - 1]];
    }
  }

  predicate StartsWith(s: string, prefix: string) {
    prefix <= s
  }

  function Join(parts: seq<string>, sep: string): string {
    if parts == [] then []
    else if |parts| == 1 then parts[0]
    else parts[0] + sep + Join(parts[1..], sep)
  }

  /** The same parts with `x` put before the first. */
  function Prepend(x: string, parts: seq<string>): seq<string>
    requires parts != []
  {
    [x + parts[0]] + parts[1..]
  }

  lemma PrependToEmpty(x: string)
    ensures Prepend(x, [""]) == [x]
  {
    assert x + "" == x && [""][1..] == [];
  }

  lemma JoinPrepend(x: string, parts: seq<string>, sep: string)
    requires parts != []
    ensures Join(Prepend(x, parts), sep) == x + Join(parts, sep)
  {
    if |parts| > 1 {
      assert Prepend(x, parts)[1..] == parts[1..];
      assert x + parts[0] + sep + Join(parts[1..], sep) == x + (parts[0] + sep + Join(parts[1..], sep));
    }
  }
}
