/**
  Credential placeholders, `{{cred:NAME}}`, in payloads: scanning for them, collecting their names, and
  substituting values for them.
 */
module Placeholders {
  import opened Wrappers
  import opened Text

  // ---------- the scanner ----------

  predicate IsNameChar(c: char) {
    'A' <= c <= 'Z' || 'a' <= c <= 'z' || '0' <= c <= '9' || c == '_' || c == '.' || c == '-'
  }

  function SkipSpace(s: string): (r: string)
    ensures |r| <= |s|
  {
    if s != [] && IsSpace(s[0]) then SkipSpace(s[1..]) else s
  }

  /** The length of the run of name characters `s` starts with. */
  function NameLength(s: string): (n: nat)
    ensures n <= |s|
  {
    if s != [] && IsNameChar(s[0]) then 1 + NameLength(s[1..]) else 0
  }

  const MAX_NAME := 128

  datatype Match = Match(name: string, length: nat)

  /** The placeholder `s` starts with, if it starts with one. A run of more than 128 name characters is none. */
  function MatchAt(s: string): (m: Option<Match>)
    ensures m.Some? ==> 0 < m.value.length <= |s|
  {
    if !StartsWith(s, "{{") then None
    else
      var afterOpen := SkipSpace(s[2..]);
      if !StartsWith(afterOpen, "cred:") then None
      else
        var body := afterOpen[5..];
        var n := NameLength(body);
        if n < 1 || n > MAX_NAME then None
        else
          var afterName := SkipSpace(body[n..]);
          if !StartsWith(afterName, "}}") then None
          else Some(Match(body[..n], |s| - (|afterName| - 2)))
  }

  /** A piece of text: one character to keep, or a placeholder with the text that spells it. */
  datatype Segment = Literal(c: char) | Placeholder(name: string, text: string)

  /** The piece a text starts with. */
  function First(s: string): (segment: Segment)
    requires s != []
    ensures 0 < |Spelling(segment)| <= |s| && Spelling(segment) == s[..|Spelling(segment)|]
  {
    var m := MatchAt(s);
    if m.Some? then Placeholder(m.value.name, s[..m.value.length]) else Literal(s[0])
  }

  function Spelling(segment: Segment): string {
    match segment
    case Literal(c) => [c]
    case Placeholder(_, text) => text
  }

  function NameOf(segment: Segment): seq<string> {
    match segment
    case Literal(_) => []
    case Placeholder(name, _) => [name]
  }

  function FillOf(segment: Segment, resolved: map<string, string>): string {
    match segment
    case Literal(c) => [c]
    case Placeholder(name, text) => if name in resolved then resolved[name] else text
  }

  /** The text cut into pieces, leftmost placeholders first. */
  function Cut(s: string): seq<Segment>
    decreases |s|
  {
    if s == [] then [] else [First(s)] + Cut(s[|Spelling(First(s))|..])
  }

  function Print(segments: seq<Segment>): string {
    if segments == [] then [] else Spelling(segments[0]) + Print(segments[1..])
  }

  function Names(segments: seq<Segment>): seq<string> {
    if segments == [] then [] else NameOf(segments[0]) + Names(segments[1..])
  }

  /** The text with each placeholder that has a value replaced by it. */
  function Fill(segments: seq<Segment>, resolved: map<string, string>): string {
    if segments == [] then [] else FillOf(segments[0], resolved) + Fill(segments[1..], resolved)
  }

  function Replace(s: string, resolved: map<string, string>): string {
    Fill(Cut(s), resolved)
  }

  function NamesOfText(s: string): seq<string> {
    Names(Cut(s))
  }

  /** Scanning `s`, which starts with the piece `segment`, followed by `rest`. */
  lemma ScanStep(s: string, segment: Segment, rest: string, resolved: map<string, string>)
    requires s != [] && First(s) == segment && s[|Spelling(segment)|..] == rest
    ensures Replace(s, resolved) == FillOf(segment, resolved) + Replace(rest, resolved)
    ensures NamesOfText(s) == NameOf(segment) + NamesOfText(rest)
  {
    assert Cut(s) == [segment] + Cut(rest);
    assert ([segment] + Cut(rest))[1..] == Cut(rest);
  }

  lemma PrintStep(segment: Segment, rest: seq<Segment>)
    ensures Print([segment] + rest) == Spelling(segment) + Print(rest)
  {
    assert ([segment] + rest)[1..] == rest;
  }

  /** Nothing is lost by cutting. */
  lemma {:induction false} CutPrints(s: string)
    ensures Print(Cut(s)) == s
    decreases |s|
  {
    if s == [] {
    } else {
      var segment := First(s);
      var rest := s[|Spelling(segment)|..];
      CutPrints(rest);
      PrintStep(segment, Cut(rest));
      assert Spelling(segment) + rest == s;
    }
  }

  lemma {:induction false} FillWithNothing(segments: seq<Segment>)
    ensures Fill(segments, map[]) == Print(segments)
  {
    if segments == [] {
    } else {
      FillWithNothing(segments[1..]);
    }
  }

  /** Only the values of names that occur matter. */
  lemma {:induction false} FillAgrees(segments: seq<Segment>, a: map<string, string>, b: map<string, string>)
    requires forall n | n in Names(segments) :: (n in a <==> n in b) && (n in a ==> a[n] == b[n])
    ensures Fill(segments, a) == Fill(segments, b)
  {
    if segments == [] {
    } else {
      assert Names(segments) == NameOf(segments[0]) + Names(segments[1..]);
      FillAgrees(segments[1..], a, b);
    }
  }

  // ---------- the placeholder of a handle ----------

  predicate IsName(name: string) {
    1 <= |name| <= MAX_NAME && forall i | 0 <= i < |name| :: IsNameChar(name[i])
  }

  function PlaceholderText(name: string): string {
    "{{cred:" + name + "}}"
  }

  lemma {:induction false} NameLengthOf(name: string, rest: string)
    requires forall i | 0 <= i < |name| :: IsNameChar(name[i])
    requires rest != [] && !IsNameChar(rest[0])
    ensures NameLength(name + rest) == |name|
  {
    if name == [] {
      assert name + rest == rest;
    } else {
      NameLengthOf(name[1..], rest);
      assert (name + rest)[1..] == name[1..] + rest;
    }
  }

  /** What the scan finds behind the opening of a placeholder. */
  lemma PlaceholderParts(name: string, rest: string)
    ensures var s := PlaceholderText(name) + rest;
            && StartsWith(s, "{{")
            && s[2..] == "cred:" + (name + ("}}" + rest))
            && |s| == |PlaceholderText(name)| + |rest|
  {
    assert PlaceholderText(name) + rest == "{{" + ("cred:" + (name + ("}}" + rest)));
  }

  lemma NothingToSkip(s: string)
    requires s != [] && !IsSpace(s[0])
    ensures SkipSpace(s) == s
  {
  }

  lemma BehindCred(name: string, tail: string)
    ensures var t := "cred:" + (name + tail);
            SkipSpace(t) == t && StartsWith(t, "cred:") && t[5..] == name + tail
  {
    var t := "cred:" + (name + tail);
    assert t[0] == 'c';
    NothingToSkip(t);
  }

  lemma PlaceholderMatches(name: string, rest: string)
    requires IsName(name)
    ensures MatchAt(PlaceholderText(name) + rest) == Some(Match(name, |PlaceholderText(name)|))
  {
    var tail := "}}" + rest;
    PlaceholderParts(name, rest);
    BehindCred(name, tail);
    NameLengthOf(name, tail);
    assert (name + tail)[..|name|] == name && (name + tail)[|name|..] == tail;
    assert tail[0] == '}';
    NothingToSkip(tail);
    assert StartsWith(tail, "}}");
  }

  // ---------- the pattern ----------

  predicate AllSpace(w: string) {
    forall i | 0 <= i < |w| :: IsSpace(w[i])
  }

  /** What the pattern `\{\{\s*cred:([A-Za-z0-9_.\-]{1,128})\s*\}\}` matches, with this name in its group. */
  ghost predicate Matches(text: string, name: string) {
    && 1 <= |name| <= 128
    && (forall c | c in name ::
          'A' <= c <= 'Z' || 'a' <= c <= 'z' || '0' <= c <= '9' || c == '_' || c == '.' || c == '-')
    && exists w1, w2 :: AllSpace(w1) && AllSpace(w2) && text == "{{" + (w1 + ("cred:" + (name + (w2 + "}}"))))
  }

  lemma {:induction false} SpaceSkipped(s: string) returns (w: string)
    ensures s == w + SkipSpace(s) && AllSpace(w)
  {
    if s == [] || !IsSpace(s[0]) {
      w := [];
    } else {
      var more := SpaceSkipped(s[1..]);
      w := [s[0]] + more;
      assert s == [s[0]] + s[1..];
      AppendAssoc([s[0]], more, SkipSpace(s[1..]));
    }
  }

  lemma {:induction false} SkipsSpace(w: string, t: string)
    requires AllSpace(w) && t != [] && !IsSpace(t[0])
    ensures SkipSpace(w + t) == t
  {
    if w == [] {
      assert w + t == t;
    } else {
      assert (w + t)[0] == w[0] && (w + t)[1..] == w[1..] + t;
      SkipsSpace(w[1..], t);
    }
  }

  lemma {:induction false} NameRun(s: string)
    ensures forall i | 0 <= i < NameLength(s) :: IsNameChar(s[i])
  {
    if s == [] || !IsNameChar(s[0]) {
    } else {
      NameRun(s[1..]);
      assert forall i | 0 < i < |s| :: s[i] == s[1..][i - 1];
    }
  }

  lemma SpaceThen(s: string, word: string) returns (w: string)
    requires word <= SkipSpace(s)
    ensures AllSpace(w) && s == w + (word + SkipSpace(s)[|word|..])
  {
    w := SpaceSkipped(s);
  }

  lemma NameThenClose(body: string) returns (w: string)
    requires "}}" <= SkipSpace(body[NameLength(body)..])
    ensures AllSpace(w)
    ensures var n := NameLength(body);
            body == body[..n] + (w + ("}}" + SkipSpace(body[n..])[2..])) && forall c | c in body[..n] :: IsNameChar(c)
  {
    var n := NameLength(body);
    w := SpaceThen(body[n..], "}}");
    NameRun(body);
    assert body == body[..n] + body[n..];
  }

  lemma MatchIsPattern(s: string)
    requires MatchAt(s).Some?
    ensures Matches(s[..MatchAt(s).value.length], MatchAt(s).value.name)
  {
    var w1 := SpaceThen(s[2..], "cred:");
    var body := SkipSpace(s[2..])[5..];
    var w2 := NameThenClose(body);
    var n := NameLength(body);
    var rest := SkipSpace(body[n..])[2..];
    assert s == "{{" + s[2..];
    PatternText(s, w1, body[..n], w2, rest);
  }

  lemma PatternText(s: string, w1: string, name: string, w2: string, rest: string)
    requires s == "{{" + (w1 + ("cred:" + (name + (w2 + ("}}" + rest)))))
    ensures s == "{{" + (w1 + ("cred:" + (name + (w2 + "}}")))) + rest
    ensures s[..|s| - |rest|] == "{{" + (w1 + ("cred:" + (name + (w2 + "}}"))))
    ensures s[2..] == w1 + ("cred:" + (name + (w2 + ("}}" + rest))))
  {
  }

  lemma NameRead(name: string, w2: string, rest: string)
    requires AllSpace(w2) && forall c | c in name :: IsNameChar(c)
    ensures var behind := w2 + ("}}" + rest);
            && NameLength(name + behind) == |name| && SkipSpace(behind) == "}}" + rest
            && (name + behind)[..|name|] == name && (name + behind)[|name|..] == behind
  {
    var behind := w2 + ("}}" + rest);
    assert behind[0] == if w2 == [] then '}' else w2[0];
    NameLengthOf(name, behind);
    assert ("}}" + rest)[0] == '}' && !IsSpace('}');
    SkipsSpace(w2, "}}" + rest);
  }

  lemma CredRead(w1: string, body: string)
    requires AllSpace(w1)
    ensures var t := SkipSpace(w1 + ("cred:" + body)); StartsWith(t, "cred:") && t[5..] == body
  {
    var t := "cred:" + body;
    assert t[0] == 'c' && t[5..] == body && !IsSpace('c');
    SkipsSpace(w1, t);
  }

  lemma PatternIsMatch(text: string, name: string, rest: string)
    requires Matches(text, name)
    ensures MatchAt(text + rest) == Some(Match(name, |text|))
  {
    var w1, w2 :| AllSpace(w1) && AllSpace(w2) && text == "{{" + (w1 + ("cred:" + (name + (w2 + "}}"))));
    var s, body := text + rest, name + (w2 + ("}}" + rest));
    PatternText("{{" + (w1 + ("cred:" + body)), w1, name, w2, rest);
    assert s == "{{" + (w1 + ("cred:" + body));
    CredRead(w1, body);
    NameRead(name, w2, rest);
  }

  /** A text starts with a placeholder exactly where the pattern matches, and no two ways. */
  lemma MatchIff(s: string, name: string, n: nat)
    requires n <= |s|
    ensures MatchAt(s) == Some(Match(name, n)) <==> Matches(s[..n], name)
  {
    if MatchAt(s) == Some(Match(name, n)) {
      MatchIsPattern(s);
    }
    if Matches(s[..n], name) {
      PatternIsMatch(s[..n], name, s[n..]);
      assert s[..n] + s[n..] == s;
    }
  }

  /** A message as its author means it: words without `{`, and handles. */
  datatype Piece = Word(text: string) | Handle(name: string)

  predicate Meant(pieces: seq<Piece>) {
    forall i | 0 <= i < |pieces| ::
      match pieces[i] case Word(text) => '{' !in text case Handle(name) => IsName(name)
  }

  /** The message written out with placeholders. */
  function Written(pieces: seq<Piece>): string {
    if pieces == [] then []
    else
      (match pieces[0] case Word(text) => text case Handle(name) => PlaceholderText(name)) + Written(pieces[1..])
  }

  /** The message with the value of each handle in its place. */
  function Filled(pieces: seq<Piece>, resolved: map<string, string>): string {
    if pieces == [] then []
    else
      (match pieces[0]
       case Word(text) => text
       case Handle(name) => if name in resolved then resolved[name] else PlaceholderText(name))
      + Filled(pieces[1..], resolved)
  }

  function Handles(pieces: seq<Piece>): seq<string> {
    if pieces == [] then []
    else (match pieces[0] case Word(_) => [] case Handle(name) => [name]) + Handles(pieces[1..])
  }

  lemma AppendAssoc<T>(a: seq<T>, b: seq<T>, c: seq<T>)
    ensures a + (b + c) == a + b + c
  {
  }

  lemma CharStays(c: char, rest: string, resolved: map<string, string>)
    requires c != '{'
    ensures Replace([c] + rest, resolved) == [c] + Replace(rest, resolved)
    ensures NamesOfText([c] + rest) == NamesOfText(rest)
  {
    var s := [c] + rest;
    assert s[0] == c && s[1..] == rest;
    assert MatchAt(s).None?;
    ScanStep(s, Literal(c), rest, resolved);
  }

  /** Words without braces are copied as they are, up to whatever follows them. */
  lemma {:induction false} WordStays(text: string, rest: string, resolved: map<string, string>)
    requires '{' !in text
    ensures Replace(text + rest, resolved) == text + Replace(rest, resolved)
    ensures NamesOfText(text + rest) == NamesOfText(rest)
  {
    if text == [] {
      assert text + rest == rest;
      assert text + Replace(rest, resolved) == Replace(rest, resolved);
    } else {
      var c, more := text[0], text[1..];
      assert text == [c] + more;
      WordStays(more, rest, resolved);
      CharStays(c, more + rest, resolved);
      AppendAssoc([c], more, rest);
      AppendAssoc([c], more, Replace(rest, resolved));
    }
  }

  lemma HandleIsFilled(name: string, rest: string, resolved: map<string, string>)
    requires IsName(name)
    ensures Replace(PlaceholderText(name) + rest, resolved)
         == (if name in resolved then resolved[name] else PlaceholderText(name)) + Replace(rest, resolved)
    ensures NamesOfText(PlaceholderText(name) + rest) == [name] + NamesOfText(rest)
  {
    var p := PlaceholderText(name);
    PlaceholderMatches(name, rest);
    assert (p + rest)[..|p|] == p && (p + rest)[|p|..] == rest;
    ScanStep(p + rest, Placeholder(name, p), rest, resolved);
  }

  /** Substitution is one pass: every handle of a message is replaced by its value, the words stay, and a value put in
      is not scanned again, whatever braces it holds. */
  lemma {:induction false} ReplaceFillsMessage(pieces: seq<Piece>, resolved: map<string, string>)
    requires Meant(pieces)
    ensures Replace(Written(pieces), resolved) == Filled(pieces, resolved)
    ensures NamesOfText(Written(pieces)) == Handles(pieces)
  {
    if pieces == [] {
    } else {
      ReplaceFillsMessage(pieces[1..], resolved);
      match pieces[0]
      case Word(text) =>
        WordStays(text, Written(pieces[1..]), resolved);
      case Handle(name) =>
        HandleIsFilled(name, Written(pieces[1..]), resolved);
    }
  }

  // ---------- payloads ----------

  /** A payload: a string, an array, an object with its entries in order, or anything else. */
  datatype Payload =
    | Str(s: string)
    | Arr(items: seq<Payload>)
    | Obj(fields: seq<Field>)
    | Other(token: int)

  datatype Field = Field(key: string, value: Payload)

  /** Every string of a payload, keys included, in the order of the walk. */
  function Strings(p: Payload): seq<string>
    decreases p, 0
  {
    match p
    case Str(s) => [s]
    case Arr(items) => StringsOfItems(items)
    case Obj(fields) => StringsOfFields(fields)
    case Other(_) => []
  }

  function StringsOfItems(items: seq<Payload>): seq<string>
    decreases items, 1
  {
    if items == [] then [] else Strings(items[0]) + StringsOfItems(items[1..])
  }

  function StringsOfFields(fields: seq<Field>): seq<string>
    decreases fields, 1
  {
    if fields == [] then []
    else [fields[0].key] + Strings(fields[0].value) + StringsOfFields(fields[1..])
  }

  /** Setting an entry of an object: an existing key keeps its place, a new one goes last. */
  function Put(fields: seq<Field>, key: string, value: Payload): seq<Field> {
    if fields == [] then [Field(key, value)]
    else if fields[0].key == key then [Field(key, value)] + fields[1..]
    else [fields[0]] + Put(fields[1..], key, value)
  }

  /** The payload with each string substituted. */
  function Substitute(p: Payload, resolved: map<string, string>): Payload
    decreases p, 0
  {
    match p
    case Str(s) => Str(Replace(s, resolved))
    case Arr(items) => Arr(SubstituteItems(items, resolved))
    case Obj(fields) => Obj(SubstituteFields(fields, resolved, []))
    case Other(_) => p
  }

  function SubstituteItems(items: seq<Payload>, resolved: map<string, string>): seq<Payload>
    decreases items, 1
  {
    if items == [] then [] else [Substitute(items[0], resolved)] + SubstituteItems(items[1..], resolved)
  }

  function SubstituteFields(fields: seq<Field>, resolved: map<string, string>, out: seq<Field>): seq<Field>
    decreases fields, 1
  {
    if fields == [] then out
    else SubstituteFields(fields[1..], resolved,
                          Put(out, Replace(fields[0].key, resolved), Substitute(fields[0].value, resolved)))
  }

  /** Every object has each key once, as objects do. */
  predicate WellFormed(p: Payload)
    decreases p, 0
  {
    match p
    case Str(_) => true
    case Arr(items) => forall i | 0 <= i < |items| :: WellFormed(items[i])
    case Obj(fields) =>
      && (forall i | 0 <= i < |fields| :: WellFormed(fields[i].value))
      && (forall i, j | 0 <= i < j < |fields| :: fields[i].key != fields[j].key)
    case Other(_) => true
  }

  lemma {:induction false} PutNew(fields: seq<Field>, key: string, value: Payload)
    requires forall i | 0 <= i < |fields| :: fields[i].key != key
    ensures Put(fields, key, value) == fields + [Field(key, value)]
  {
    if fields == [] {
    } else {
      PutNew(fields[1..], key, value);
      assert [fields[0]] + (fields[1..] + [Field(key, value)]) == fields + [Field(key, value)];
    }
  }

  /** Substituting nothing changes nothing. */
  lemma {:induction false} SubstituteNothing(p: Payload)
    requires WellFormed(p)
    ensures Substitute(p, map[]) == p
    decreases p, 0
  {
    match p
    case Str(s) => ReplaceNothing(s);
    case Arr(items) => SubstituteNothingItems(items);
    case Obj(fields) =>
      SubstituteNothingFields(fields, []);
      assert [] + fields == fields;
    case Other(_) =>
  }

  lemma ReplaceNothing(s: string)
    ensures Replace(s, map[]) == s
  {
    CutPrints(s);
    FillWithNothing(Cut(s));
  }

  lemma {:induction false} SubstituteNothingItems(items: seq<Payload>)
    requires forall i | 0 <= i < |items| :: WellFormed(items[i])
    ensures SubstituteItems(items, map[]) == items
    decreases items, 1
  {
    if items == [] {
    } else {
      SubstituteNothing(items[0]);
      SubstituteNothingItems(items[1..]);
    }
  }

  lemma {:induction false} SubstituteNothingFields(fields: seq<Field>, out: seq<Field>)
    requires forall i | 0 <= i < |fields| :: WellFormed(fields[i].value)
    requires forall i, j | 0 <= i < j < |out + fields| :: (out + fields)[i].key != (out + fields)[j].key
    ensures SubstituteFields(fields, map[], out) == out + fields
    decreases fields, 1
  {
    if fields == [] {
      assert out + fields == out;
    } else {
      SubstituteNothing(fields[0].value);
      ReplaceNothing(fields[0].key);
      forall i | 0 <= i < |out|
        ensures out[i].key != fields[0].key
      {
        assert (out + fields)[i].key != (out + fields)[|out|].key;
      }
      PutNew(out, fields[0].key, fields[0].value);
      assert out + [fields[0]] + fields[1..] == out + fields;
      SubstituteNothingFields(fields[1..], out + [fields[0]]);
    }
  }

  // ---------- collecting ----------

  /** Adding names to an insertion-ordered set. */
  function AddAll(out: seq<string>, names: seq<string>): seq<string>
    decreases |names|
  {
    if names == [] then out else AddAll(Add(out, names[0]), names[1..])
  }

  function Add(out: seq<string>, name: string): seq<string> {
    if name in out then out else out + [name]
  }

  function NamesIn(strings: seq<string>): seq<string> {
    if strings == [] then [] else NamesOfText(strings[0]) + NamesIn(strings[1..])
  }

  /** The distinct placeholder names of a payload, in order of first occurrence. */
  function Requested(p: Payload): seq<string> {
    AddAll([], NamesIn(Strings(p)))
  }

  predicate NoDuplicates(names: seq<string>) {
    forall i, j | 0 <= i < j < |names| :: names[i] != names[j]
  }

  lemma {:induction false} AddAllIsUnion(out: seq<string>, names: seq<string>)
    requires NoDuplicates(out)
    ensures NoDuplicates(AddAll(out, names))
    ensures forall n :: n in AddAll(out, names) <==> n in out || n in names
    decreases |names|
  {
    if names == [] {
    } else {
      AddAllIsUnion(Add(out, names[0]), names[1..]);
    }
  }

  lemma {:induction false} AddAllConcat(out: seq<string>, a: seq<string>, b: seq<string>)
    ensures AddAll(out, a + b) == AddAll(AddAll(out, a), b)
    decreases |a|
  {
    if a == [] {
      assert a + b == b;
    } else {
      AddAllConcat(Add(out, a[0]), a[1..], b);
      assert (a + b)[1..] == a[1..] + b;
    }
  }

  /** Adding the names of a text, after its first piece. */
  lemma CollectStep(s: string, out: seq<string>)
    requires s != []
    ensures AddAll(out, NamesOfText(s)) == AddAll(AddAll(out, NameOf(First(s))), NamesOfText(s[|Spelling(First(s))|..]))
  {
    ScanStep(s, First(s), s[|Spelling(First(s))|..], map[]);
    AddAllConcat(out, NameOf(First(s)), NamesOfText(s[|Spelling(First(s))|..]));
  }

  lemma AddOne(out: seq<string>, name: string)
    ensures AddAll(out, [name]) == Add(out, name)
  {
    assert [name][1..] == [];
  }

  /** Collecting the names of one string, match by match. */
  method CollectString(s: string, out: seq<string>) returns (out': seq<string>)
    ensures out' == AddAll(out, NamesOfText(s))
  {
    out' := out;
    var rest := s;
    while rest != []
      invariant AddAll(out', NamesOfText(rest)) == AddAll(out, NamesOfText(s))
      decreases |rest|
    {
      CollectStep(rest, out');
      var segment := First(rest);
      rest := rest[|Spelling(segment)|..];
      if segment.Placeholder? {
        AddOne(out', segment.name);
        out' := Add(out', segment.name);
      }
    }
  }

  method CollectPlaceholders(p: Payload) returns (out: seq<string>)
    ensures out == Requested(p)
  {
    out := Walk(p, []);
  }

  method Walk(p: Payload, out: seq<string>) returns (out': seq<string>)
    ensures out' == AddAll(out, NamesIn(Strings(p)))
    decreases p, 0
  {
    match p
    case Str(s) =>
      out' := CollectString(s, out);
      NamesInOne(s);
    case Arr(items) =>
      out' := WalkItems(items, out);
    case Obj(fields) =>
      out' := WalkFields(fields, out);
    case Other(_) =>
      out' := out;
  }

  lemma NamesInOne(s: string)
    ensures NamesIn([s]) == NamesOfText(s)
  {
    assert [s][1..] == [];
  }

  lemma NamesInCons(s: string, rest: seq<string>)
    ensures NamesIn([s] + rest) == NamesOfText(s) + NamesIn(rest)
  {
    assert ([s] + rest)[1..] == rest;
  }

  lemma {:induction false} NamesInConcat(a: seq<string>, b: seq<string>)
    ensures NamesIn(a + b) == NamesIn(a) + NamesIn(b)
  {
    if a == [] {
      assert a + b == b;
      assert NamesIn(a) + NamesIn(b) == NamesIn(b);
    } else {
      var s, more := a[0], a[1..];
      assert a == [s] + more;
      AppendAssoc([s], more, b);
      NamesInCons(s, more + b);
      NamesInConcat(more, b);
      AppendAssoc(NamesOfText(s), NamesIn(more), NamesIn(b));
    }
  }

  method WalkItems(items: seq<Payload>, out: seq<string>) returns (out': seq<string>)
    ensures out' == AddAll(out, NamesIn(StringsOfItems(items)))
    decreases items, 1
  {
    if items == [] {
      return out;
    }
    var mid := Walk(items[0], out);
    out' := WalkItems(items[1..], mid);
    NamesInConcat(Strings(items[0]), StringsOfItems(items[1..]));
    AddAllConcat(out, NamesIn(Strings(items[0])), NamesIn(StringsOfItems(items[1..])));
  }

  method WalkFields(fields: seq<Field>, out: seq<string>) returns (out': seq<string>)
    ensures out' == AddAll(out, NamesIn(StringsOfFields(fields)))
    decreases fields, 1
  {
    if fields == [] {
      return out;
    }
    var key, value, rest := fields[0].key, fields[0].value, StringsOfFields(fields[1..]);
    var afterKey := CollectString(key, out);
    var afterValue := Walk(value, afterKey);
    out' := WalkFields(fields[1..], afterValue);
    NamesInOne(key);
    NamesInConcat([key], Strings(value));
    NamesInConcat([key] + Strings(value), rest);
    AddAllConcat(out, NamesIn([key]), NamesIn(Strings(value)));
    AddAllConcat(out, NamesIn([key]) + NamesIn(Strings(value)), NamesIn(rest));
  }

  // ---------- collecting and substituting agree ----------

  lemma {:induction false} InNamesIn(strings: seq<string>, n: string)
    ensures n in NamesIn(strings) <==> exists i | 0 <= i < |strings| :: n in NamesOfText(strings[i])
  {
    if strings == [] {
    } else {
      InNamesIn(strings[1..], n);
      assert forall i | 0 <= i < |strings[1..]| :: strings[1..][i] == strings[i + 1];
      assert forall i | 0 < i < |strings| :: strings[i] == strings[1..][i - 1];
    }
  }

  /** A name is requested, once, exactly when it is the name of a placeholder in some string of the payload. */
  lemma RequestedAreTheNames(p: Payload, n: string)
    ensures NoDuplicates(Requested(p))
    ensures n in Requested(p) <==> exists i | 0 <= i < |Strings(p)| :: n in NamesOfText(Strings(p)[i])
  {
    var strings := Strings(p);
    AddAllIsUnion([], NamesIn(strings));
    assert n in Requested(p) <==> n in NamesIn(strings);
    InNamesIn(strings, n);
  }

  ghost predicate Agree(a: map<string, string>, b: map<string, string>, strings: seq<string>) {
    forall n | n in NamesIn(strings) :: (n in a <==> n in b) && (n in a ==> a[n] == b[n])
  }

  lemma AgreeSplit(a: map<string, string>, b: map<string, string>, x: seq<string>, y: seq<string>)
    requires Agree(a, b, x + y)
    ensures Agree(a, b, x) && Agree(a, b, y)
  {
    NamesInConcat(x, y);
  }

  lemma ReplaceAgrees(s: string, a: map<string, string>, b: map<string, string>)
    requires Agree(a, b, [s])
    ensures Replace(s, a) == Replace(s, b)
  {
    NamesInOne(s);
    FillAgrees(Cut(s), a, b);
  }

  /** Substitution looks up the requested names and nothing else. */
  lemma {:induction false} SubstituteAgrees(p: Payload, a: map<string, string>, b: map<string, string>)
    requires Agree(a, b, Strings(p))
    ensures Substitute(p, a) == Substitute(p, b)
    decreases p, 0
  {
    match p
    case Str(s) => ReplaceAgrees(s, a, b);
    case Arr(items) => SubstituteAgreesItems(items, a, b);
    case Obj(fields) => SubstituteAgreesFields(fields, a, b, []);
    case Other(_) =>
  }

  lemma {:induction false} SubstituteAgreesItems(items: seq<Payload>, a: map<string, string>, b: map<string, string>)
    requires Agree(a, b, StringsOfItems(items))
    ensures SubstituteItems(items, a) == SubstituteItems(items, b)
    decreases items, 1
  {
    if items == [] {
    } else {
      AgreeSplit(a, b, Strings(items[0]), StringsOfItems(items[1..]));
      SubstituteAgrees(items[0], a, b);
      SubstituteAgreesItems(items[1..], a, b);
    }
  }

  lemma {:induction false} SubstituteAgreesFields(fields: seq<Field>, a: map<string, string>, b: map<string, string>,
                                                  out: seq<Field>)
    requires Agree(a, b, StringsOfFields(fields))
    ensures SubstituteFields(fields, a, out) == SubstituteFields(fields, b, out)
    decreases fields, 1
  {
    if fields == [] {
    } else {
      var key, value := fields[0].key, fields[0].value;
      AgreeSplit(a, b, [key] + Strings(value), StringsOfFields(fields[1..]));
      AgreeSplit(a, b, [key], Strings(value));
      ReplaceAgrees(key, a, b);
      SubstituteAgrees(value, a, b);
      SubstituteAgreesFields(fields[1..], a, b, Put(out, Replace(key, a), Substitute(value, a)));
    }
  }

  // ---------- every collected name matters ----------

  /** The two maps give every name but `n` the same value, and both give `n` one. */
  predicate DifferAt(a: map<string, string>, b: map<string, string>, n: string) {
    && n in a && n in b
    && (forall m | m in a :: m in b && (m == n || a[m] == b[m]))
    && (forall m | m in b :: m in a)
  }

  lemma FillOfDiffers(segment: Segment, a: map<string, string>, b: map<string, string>, n: string)
    requires DifferAt(a, b, n)
    ensures NameOf(segment) != [n] ==> FillOf(segment, a) == FillOf(segment, b)
    ensures NameOf(segment) == [n] ==> FillOf(segment, a) == a[n] && FillOf(segment, b) == b[n]
  {
  }

  /** A longer value makes a longer text. */
  lemma {:induction false} LongerValueLongerText(
    segments: seq<Segment>, a: map<string, string>, b: map<string, string>, n: string)
    requires DifferAt(a, b, n) && |b[n]| <= |a[n]|
    ensures |Fill(segments, b)| <= |Fill(segments, a)|
    ensures n in Names(segments) && |b[n]| < |a[n]| ==> |Fill(segments, b)| < |Fill(segments, a)|
  {
    if segments == [] {
    } else {
      FillOfDiffers(segments[0], a, b, n);
      LongerValueLongerText(segments[1..], a, b, n);
    }
  }

  lemma SplitEqual(x: string, y: string, u: string, v: string)
    requires |x| == |u| && x + y == u + v
    ensures x == u && y == v
  {
    assert x == (x + y)[..|x|] && u == (u + v)[..|u|];
    assert y == (x + y)[|x|..] && v == (u + v)[|u|..];
  }

  lemma {:induction false} SameTextSameValue(
    segments: seq<Segment>, a: map<string, string>, b: map<string, string>, n: string)
    requires DifferAt(a, b, n) && |a[n]| == |b[n]| && n in Names(segments)
    requires Fill(segments, a) == Fill(segments, b)
    ensures a[n] == b[n]
  {
    FillOfDiffers(segments[0], a, b, n);
    SplitEqual(FillOf(segments[0], a), Fill(segments[1..], a), FillOf(segments[0], b), Fill(segments[1..], b));
    if NameOf(segments[0]) == [n] {
    } else {
      SameTextSameValue(segments[1..], a, b, n);
    }
  }

  /** A text with the placeholder of `n` comes out different for different values of `n`. */
  lemma ReplaceTells(s: string, a: map<string, string>, b: map<string, string>, n: string)
    requires DifferAt(a, b, n) && n in NamesOfText(s) && a[n] != b[n]
    ensures Replace(s, a) != Replace(s, b)
  {
    if |b[n]| < |a[n]| {
      LongerValueLongerText(Cut(s), a, b, n);
    } else if |a[n]| < |b[n]| {
      LongerValueLongerText(Cut(s), b, a, n);
    } else if Replace(s, a) == Replace(s, b) {
      SameTextSameValue(Cut(s), a, b, n);
    }
  }

  predicate Apart(fields: seq<Field>, resolved: map<string, string>) {
    forall i, j | 0 <= i < j < |fields| :: Replace(fields[i].key, resolved) != Replace(fields[j].key, resolved)
  }

  /** No object gets the same key twice. */
  predicate KeysStayApart(p: Payload, resolved: map<string, string>)
    decreases p, 0
  {
    match p
    case Str(_) => true
    case Arr(items) => forall i | 0 <= i < |items| :: KeysStayApart(items[i], resolved)
    case Obj(fields) =>
      && (forall i | 0 <= i < |fields| :: KeysStayApart(fields[i].value, resolved))
      && Apart(fields, resolved)
    case Other(_) => true
  }

  /** The fields substituted one by one. */
  function FieldByField(fields: seq<Field>, resolved: map<string, string>): seq<Field> {
    seq(|fields|, i requires 0 <= i < |fields| =>
      Field(Replace(fields[i].key, resolved), Substitute(fields[i].value, resolved)))
  }

  lemma FieldByFieldSnoc(fields: seq<Field>, field: Field, resolved: map<string, string>)
    ensures FieldByField(fields + [field], resolved) ==
            FieldByField(fields, resolved)
            + [Field(Replace(field.key, resolved), Substitute(field.value, resolved))]
  {
  }

  lemma NewKey(fields: seq<Field>, resolved: map<string, string>, k: nat)
    requires Apart(fields, resolved) && k < |fields|
    ensures forall i | 0 <= i < |FieldByField(fields[..k], resolved)| ::
              FieldByField(fields[..k], resolved)[i].key != Replace(fields[k].key, resolved)
  {
    forall i | 0 <= i < k
      ensures FieldByField(fields[..k], resolved)[i].key != Replace(fields[k].key, resolved)
    {
      assert Replace(fields[i].key, resolved) != Replace(fields[k].key, resolved);
    }
  }

  lemma TakeSnoc<T>(s: seq<T>, k: nat)
    requires k < |s|
    ensures s[..k + 1] == s[..k] + [s[k]]
  {
  }

  lemma OneFieldMore(fields: seq<Field>, resolved: map<string, string>, k: nat)
    requires Apart(fields, resolved) && k < |fields|
    ensures Put(FieldByField(fields[..k], resolved),
                Replace(fields[k].key, resolved), Substitute(fields[k].value, resolved))
         == FieldByField(fields[..k + 1], resolved)
  {
    NewKey(fields, resolved, k);
    PutNew(FieldByField(fields[..k], resolved),
           Replace(fields[k].key, resolved), Substitute(fields[k].value, resolved));
    TakeSnoc(fields, k);
    FieldByFieldSnoc(fields[..k], fields[k], resolved);
  }

  lemma {:induction false} FieldsStayApart(fields: seq<Field>, resolved: map<string, string>, k: nat)
    requires k <= |fields| && Apart(fields, resolved)
    ensures SubstituteFields(fields[k..], resolved, FieldByField(fields[..k], resolved)) == FieldByField(fields, resolved)
    decreases |fields| - k
  {
    if k == |fields| {
      assert fields[..k] == fields;
    } else {
      OneFieldMore(fields, resolved, k);
      FieldsStayApart(fields, resolved, k + 1);
      assert fields[k..][0] == fields[k] && fields[k..][1..] == fields[k + 1..];
    }
  }

  lemma ObjectFieldByField(fields: seq<Field>, resolved: map<string, string>)
    requires KeysStayApart(Obj(fields), resolved)
    ensures SubstituteFields(fields, resolved, []) == FieldByField(fields, resolved)
  {
    FieldsStayApart(fields, resolved, 0);
    assert fields[0..] == fields && FieldByField(fields[..0], resolved) == [];
  }

  lemma {:induction false} ItemsSubstituted(items: seq<Payload>, resolved: map<string, string>, i: nat)
    requires i < |items|
    ensures |SubstituteItems(items, resolved)| == |items|
    ensures SubstituteItems(items, resolved)[i] == Substitute(items[i], resolved)
    decreases |items|
  {
    if |items| == 1 {
    } else {
      ItemsSubstituted(items[1..], resolved, if i == 0 then 0 else i - 1);
    }
  }

  // ---------- whole payloads filled ----------

  /** The text is that of a message with the value of each handle in its place. */
  ghost predicate FillsText(s: string, t: string, resolved: map<string, string>) {
    exists pieces :: Meant(pieces) && s == Written(pieces) && t == Filled(pieces, resolved)
  }

  /** The same payload, keys included, with the messages filled. */
  ghost predicate Fills(p: Payload, q: Payload, resolved: map<string, string>)
    decreases p
  {
    match p
    case Str(s) => q.Str? && FillsText(s, q.s, resolved)
    case Arr(items) =>
      q.Arr? && |q.items| == |items| && forall i | 0 <= i < |items| :: Fills(items[i], q.items[i], resolved)
    case Obj(fields) =>
      && q.Obj? && |q.fields| == |fields|
      && forall i | 0 <= i < |fields| ::
           FillsText(fields[i].key, q.fields[i].key, resolved) && Fills(fields[i].value, q.fields[i].value, resolved)
    case Other(_) => q == p
  }

  /** Every string of the payload is a message. */
  ghost predicate IsMessage(p: Payload)
    decreases p
  {
    match p
    case Str(s) => exists pieces :: Meant(pieces) && s == Written(pieces)
    case Arr(items) => forall i | 0 <= i < |items| :: IsMessage(items[i])
    case Obj(fields) =>
      forall i | 0 <= i < |fields| ::
        (exists pieces :: Meant(pieces) && fields[i].key == Written(pieces)) && IsMessage(fields[i].value)
    case Other(_) => true
  }

  lemma TextFilled(s: string, resolved: map<string, string>)
    requires exists pieces :: Meant(pieces) && s == Written(pieces)
    ensures FillsText(s, Replace(s, resolved), resolved)
  {
    var pieces :| Meant(pieces) && s == Written(pieces);
    ReplaceFillsMessage(pieces, resolved);
  }

  /** Substitution fills every message of a payload, wherever it stands, and changes nothing else, as long as no two keys of
      an object become equal. */
  lemma {:induction false} SubstituteFills(p: Payload, resolved: map<string, string>)
    requires IsMessage(p) && KeysStayApart(p, resolved)
    ensures Fills(p, Substitute(p, resolved), resolved)
    decreases p
  {
    match p
    case Str(s) => TextFilled(s, resolved);
    case Arr(items) =>
      forall i | 0 <= i < |items|
        ensures |SubstituteItems(items, resolved)| == |items|
        ensures Fills(items[i], SubstituteItems(items, resolved)[i], resolved)
      {
        ItemsSubstituted(items, resolved, i);
        SubstituteFills(items[i], resolved);
      }
      assert items == [] ==> SubstituteItems(items, resolved) == [];
    case Obj(fields) =>
      ObjectFieldByField(fields, resolved);
      forall i | 0 <= i < |fields|
        ensures FillsText(fields[i].key, FieldByField(fields, resolved)[i].key, resolved)
        ensures Fills(fields[i].value, FieldByField(fields, resolved)[i].value, resolved)
      {
        TextFilled(fields[i].key, resolved);
        SubstituteFills(fields[i].value, resolved);
      }
    case Other(_) =>
  }

  lemma {:induction false} NameInItem(items: seq<Payload>, n: string) returns (i: nat)
    requires n in NamesIn(StringsOfItems(items))
    ensures i < |items| && n in NamesIn(Strings(items[i]))
  {
    NamesInConcat(Strings(items[0]), StringsOfItems(items[1..]));
    if n in NamesIn(Strings(items[0])) {
      i := 0;
    } else {
      var j := NameInItem(items[1..], n);
      i := j + 1;
    }
  }

  lemma {:induction false} NameInField(fields: seq<Field>, n: string) returns (i: nat)
    requires n in NamesIn(StringsOfFields(fields))
    ensures i < |fields| && (n in NamesOfText(fields[i].key) || n in NamesIn(Strings(fields[i].value)))
  {
    var key, value, rest := fields[0].key, Strings(fields[0].value), StringsOfFields(fields[1..]);
    NamesInConcat([key] + value, rest);
    NamesInConcat([key], value);
    NamesInOne(key);
    if n in NamesOfText(key) || n in NamesIn(value) {
      i := 0;
    } else {
      var j := NameInField(fields[1..], n);
      i := j + 1;
    }
  }

  /** A payload that asks for `n` comes out different for different values of `n`, as long as no object's keys
      become equal. */
  lemma {:induction false} SubstituteTells(p: Payload, a: map<string, string>, b: map<string, string>, n: string)
    requires DifferAt(a, b, n) && n in NamesIn(Strings(p)) && a[n] != b[n]
    requires KeysStayApart(p, a) && KeysStayApart(p, b)
    ensures Substitute(p, a) != Substitute(p, b)
    decreases p
  {
    match p
    case Str(s) =>
      NamesInOne(s);
      ReplaceTells(s, a, b, n);
    case Arr(items) =>
      var i := NameInItem(items, n);
      ItemsSubstituted(items, a, i);
      ItemsSubstituted(items, b, i);
      SubstituteTells(items[i], a, b, n);
    case Obj(fields) =>
      var i := NameInField(fields, n);
      ObjectFieldByField(fields, a);
      ObjectFieldByField(fields, b);
      if n in NamesOfText(fields[i].key) {
        ReplaceTells(fields[i].key, a, b, n);
      } else {
        SubstituteTells(fields[i].value, a, b, n);
      }
      assert FieldByField(fields, a)[i] != FieldByField(fields, b)[i];
  }

  /** No key of an object holds a placeholder. */
  predicate PlainKeys(p: Payload)
    decreases p, 0
  {
    match p
    case Str(_) => true
    case Arr(items) => forall i | 0 <= i < |items| :: PlainKeys(items[i])
    case Obj(fields) => forall i | 0 <= i < |fields| :: NamesOfText(fields[i].key) == [] && PlainKeys(fields[i].value)
    case Other(_) => true
  }

  lemma PlainKeyStays(key: string, resolved: map<string, string>)
    requires NamesOfText(key) == []
    ensures Replace(key, resolved) == key
  {
    FillAgrees(Cut(key), resolved, map[]);
    ReplaceNothing(key);
  }

  /** Plain keys stay apart whatever the values are, so whoever builds a payload can tell without knowing any. */
  lemma {:induction false} PlainKeysStayApart(p: Payload, resolved: map<string, string>)
    requires WellFormed(p) && PlainKeys(p)
    ensures KeysStayApart(p, resolved)
    decreases p
  {
    match p
    case Str(_) =>
    case Arr(items) =>
      forall i | 0 <= i < |items|
        ensures KeysStayApart(items[i], resolved)
      {
        PlainKeysStayApart(items[i], resolved);
      }
    case Obj(fields) =>
      forall i | 0 <= i < |fields|
        ensures KeysStayApart(fields[i].value, resolved) && Replace(fields[i].key, resolved) == fields[i].key
      {
        PlainKeysStayApart(fields[i].value, resolved);
        PlainKeyStays(fields[i].key, resolved);
      }
    case Other(_) =>
  }

  /** So in a payload with plain keys every collected name matters. */
  lemma RequestedTells(p: Payload, a: map<string, string>, b: map<string, string>, n: string)
    requires WellFormed(p) && PlainKeys(p) && n in Requested(p) && DifferAt(a, b, n) && a[n] != b[n]
    ensures Substitute(p, a) != Substitute(p, b)
  {
    RequestedIsInStrings(p, n);
    PlainKeysStayApart(p, a);
    PlainKeysStayApart(p, b);
    SubstituteTells(p, a, b, n);
  }

  lemma RequestedIsInStrings(p: Payload, n: string)
    ensures n in Requested(p) <==> n in NamesIn(Strings(p))
  {
    AddAllIsUnion([], NamesIn(Strings(p)));
  }

  /** Where keys do become equal a later entry takes the place of an earlier one, and what that asked for is lost. */
  lemma EqualKeysLoseName(key: string, n: string, m: string, a: map<string, string>)
    requires '{' !in key && IsName(n) && IsName(m) && m in a && a[m] == key
    ensures var p := Obj([Field(key, Str(PlaceholderText(n))), Field(PlaceholderText(m), Other(0))]);
            n in Requested(p) && Substitute(p, a) == Obj([Field(key, Other(0))])
  {
    var first, second := Field(key, Str(PlaceholderText(n))), Field(PlaceholderText(m), Other(0));
    var p := Obj([first, second]);
    HandleAlone(n, a);
    HandleAlone(m, a);
    WordAlone(key, a);
    assert [first, second][1..] == [second] && [second][1..] == [];
    NamesInOne(PlaceholderText(n));
    assert StringsOfFields([first, second])
        == [key] + [PlaceholderText(n)] + StringsOfFields([second]);
    NamesInConcat([key] + [PlaceholderText(n)], StringsOfFields([second]));
    NamesInConcat([key], [PlaceholderText(n)]);
    assert n in NamesIn(Strings(p));
    RequestedIsInStrings(p, n);
    var value := Substitute(first.value, a);
    assert Put([], key, value) == [Field(key, value)];
    assert Put([Field(key, value)], key, Other(0)) == [Field(key, Other(0))] + [Field(key, value)][1..];
    assert SubstituteFields([second], a, [Field(key, value)]) == [Field(key, Other(0))];
  }

  lemma HandleAlone(n: string, a: map<string, string>)
    requires IsName(n)
    ensures Replace(PlaceholderText(n), a) == if n in a then a[n] else PlaceholderText(n)
    ensures NamesOfText(PlaceholderText(n)) == [n]
  {
    assert PlaceholderText(n) + "" == PlaceholderText(n);
    HandleIsFilled(n, "", a);
    assert Replace("", a) == "" && NamesOfText("") == [];
  }

  lemma WordAlone(text: string, a: map<string, string>)
    requires '{' !in text
    ensures Replace(text, a) == text
  {
    assert text + "" == text;
    WordStays(text, "", a);
  }
}
