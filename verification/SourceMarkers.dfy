/** The markers of 4s source, and the backslash that keeps a line from being read as one. */
module SourceMarkers {
  import opened Outcomes
  import opened SourceText

  /** The type of an element. A blank line, a tour and a tour counted from the end have no marker of their own. */
  datatype Kind =
    | Meta | Section | Heading | LjHeading | Battle | Round | Theme | Editor | Date
    | Question | Number | SetCounter | Answer | Zachet | Nezachet | Source | Comment | Author | Handout
    | Blank | Tour | TourFromEnd

  /** The marker table. */
  function KindOf(token: string): Option<Kind> {
    if token == "#" then Some(Meta)
    else if token == "##" then Some(Section)
    else if token == "###" then Some(Heading)
    else if token == "###LJ" then Some(LjHeading)
    else if token == "#B" then Some(Battle)
    else if token == "#R" then Some(Round)
    else if token == "#T" then Some(Theme)
    else if token == "#EDITOR" then Some(Editor)
    else if token == "#DATE" then Some(Date)
    else if token == "?" then Some(Question)
    else if token == "№" then Some(Number)
    else if token == "№№" then Some(SetCounter)
    else if token == "!" then Some(Answer)
    else if token == "=" then Some(Zachet)
    else if token == "!=" then Some(Nezachet)
    else if token == "^" then Some(Source)
    else if token == "/" then Some(Comment)
    else if token == "@" then Some(Author)
    else if token == ">" then Some(Handout)
    else None
  }

  predicate IsMarker(token: string) {
    KindOf(token).Some?
  }

  /** The prefix an element of the kind is written with; the numbers of a question are written apart. */
  function Prefix(k: Kind): Option<string> {
    match k
    case Meta => Some("#")
    case Section => Some("##")
    case Tour => Some("##")
    case TourFromEnd => Some("##")
    case Battle => Some("#B")
    case Round => Some("#R")
    case Theme => Some("#T")
    case Editor => Some("#EDITOR")
    case Heading => Some("###")
    case LjHeading => Some("###LJ")
    case Date => Some("#DATE")
    case Question => Some("?")
    case Answer => Some("!")
    case Zachet => Some("=")
    case Nezachet => Some("!=")
    case Source => Some("^")
    case Comment => Some("/")
    case Author => Some("@")
    case Handout => Some(">")
    case Number => None
    case SetCounter => None
    case Blank => None
  }

  /** The printer writes what the parser reads, except that three kinds share a marker. */
  lemma PrefixIsRead(k: Kind)
    ensures k !in {Tour, TourFromEnd} && Prefix(k).Some? ==> KindOf(Prefix(k).value) == Some(k)
    ensures k in {Tour, TourFromEnd} ==> KindOf(Prefix(k).value) == Some(Section)
    ensures KindOf("№") == Some(Number) && KindOf("№№") == Some(SetCounter)
  {
    match k {
      case Tour | TourFromEnd | Number | SetCounter | Blank =>
      case _ =>
    }
  }

  /** A marker is one token without a backslash. */
  lemma MarkersArePlain(token: string)
    requires IsMarker(token)
    ensures SpaceFree(token) && |token| <= 7 && '\\' !in token && OneLine(token)
  {
  }

  lemma DashIsNoMarker()
    ensures !IsMarker("-") && !IsMarker("")
  {
  }

  // ---- escaping ----

  function WithoutSlashes(s: string): (r: string)
    ensures |r| <= |s| && (r != "" ==> r[0] != '\\')
    ensures s != "" && s[0] != '\\' ==> r == s
  {
    if s != "" && s[0] == '\\' then WithoutSlashes(s[1..]) else s
  }

  /** The line begins with a marker, or with a marker behind backslashes. */
  predicate LooksLikeMarker(line: string) {
    FirstField(line).Some? && IsMarker(WithoutSlashes(FirstField(line).value))
  }

  function WithoutFirstSlash(line: string): string {
    if line == "" then "" else if line[0] == '\\' then line[1..] else [line[0]] + WithoutFirstSlash(line[1..])
  }

  /** The line as the parser takes it into the value before it. */
  function UnescapeLine(line: string): (string, bool) {
    var first := FirstField(line);
    if first.None? || first.value[0] != '\\' || !IsMarker(WithoutSlashes(first.value)) then (line, false)
    else (WithoutFirstSlash(line), true)
  }

  /** One more backslash in front of what looks like a marker. */
  function EscapeLine(line: string): string {
    if LooksLikeMarker(line) then line[..Indent(line)] + "\\" + line[Indent(line)..] else line
  }

  lemma {:induction false} IndentOf(space: string, rest: string)
    requires forall k :: 0 <= k < |space| ==> IsSpace(space[k])
    requires rest != "" && !IsSpace(rest[0])
    ensures Indent(space + rest) == |space|
  {
    if space == "" {
      assert space + rest == rest;
    } else {
      IndentOf(space[1..], rest);
      assert (space + rest)[1..] == space[1..] + rest;
    }
  }

  lemma {:induction false} FirstSlashGoes(space: string, rest: string)
    requires forall k :: 0 <= k < |space| ==> IsSpace(space[k])
    ensures WithoutFirstSlash(space + "\\" + rest) == space + rest
  {
    var line := space + "\\" + rest;
    if space == "" {
      assert line[1..] == rest;
    } else {
      assert IsSpace(space[0]);
      FirstSlashGoes(space[1..], rest);
      assert line[1..] == space[1..] + "\\" + rest;
      assert [space[0]] + (space[1..] + rest) == space + rest;
    }
  }

  lemma SlashedField(space: string, rest: string)
    requires forall k :: 0 <= k < |space| ==> IsSpace(space[k])
    ensures FirstField(space + "\\" + rest) == Some("\\" + rest[..TokenLength(rest)])
  {
    var more := "\\" + rest;
    IndentOf(space, more);
    assert space + "\\" + rest == space + more && (space + more)[|space|..] == more;
    assert more[1..] == rest && more[0] == '\\';
    assert TokenLength(more) == 1 + TokenLength(rest);
    assert more[..1 + TokenLength(rest)] == "\\" + rest[..TokenLength(rest)];
  }

  /** The first token of an escaped line has one more backslash. */
  lemma EscapedField(line: string)
    requires LooksLikeMarker(line)
    ensures FirstField(EscapeLine(line)) == Some("\\" + FirstField(line).value)
  {
    hide KindOf, WithoutSlashes;
    var n := Indent(line);
    SlashedField(line[..n], line[n..]);
  }

  lemma EscapedSlashGoes(line: string)
    requires LooksLikeMarker(line)
    ensures WithoutFirstSlash(EscapeLine(line)) == line
  {
    hide KindOf, WithoutSlashes, TokenLength;
    FirstSlashGoes(line[..Indent(line)], line[Indent(line)..]);
    assert line[..Indent(line)] + line[Indent(line)..] == line;
  }

  lemma OneMoreSlash(first: string)
    ensures WithoutSlashes("\\" + first) == WithoutSlashes(first)
  {
    assert ("\\" + first)[1..] == first;
  }

  /** The parser takes back exactly what the printer added, on every line. */
  lemma UnescapeInvertsEscape(line: string)
    ensures UnescapeLine(EscapeLine(line)) == (line, LooksLikeMarker(line))
  {
    hide KindOf, WithoutSlashes, WithoutFirstSlash, FirstField, Indent;
    if LooksLikeMarker(line) {
      EscapedField(line);
      EscapedSlashGoes(line);
      OneMoreSlash(FirstField(line).value);
    }
  }

  /** An escaped line never begins with a marker, so that it stays in its value. */
  lemma EscapedIsNoMarker(line: string)
    ensures FirstField(EscapeLine(line)).Some? <==> FirstField(line).Some?
    ensures FirstField(EscapeLine(line)).Some? ==> !IsMarker(FirstField(EscapeLine(line)).value)
  {
    if LooksLikeMarker(line) {
      EscapedField(line);
      if IsMarker("\\" + FirstField(line).value) {
        MarkersArePlain("\\" + FirstField(line).value);
        assert false;
      }
    } else if FirstField(line).Some? && IsMarker(FirstField(line).value) {
      MarkersArePlain(FirstField(line).value);
      assert false;
    }
  }

  /** Different lines are escaped differently. */
  lemma EscapeIsInjective(a: string, b: string)
    requires EscapeLine(a) == EscapeLine(b)
    ensures a == b
  {
    UnescapeInvertsEscape(a);
    UnescapeInvertsEscape(b);
  }

  // ---- a whole value ----

  function EscapeTail(lines: seq<string>): (r: seq<string>)
    requires lines != []
    ensures |r| == |lines| && r[0] == lines[0]
    ensures forall k :: 0 < k < |lines| ==> r[k] == EscapeLine(lines[k])
  {
    seq(|lines|, k requires 0 <= k < |lines| => if k == 0 then lines[0] else EscapeLine(lines[k]))
  }

  /** Every line of the value after the first is escaped. */
  function EscapeMarkers(value: string): string {
    Joined(EscapeTail(Lines(value)))
  }

  method EscapeValue(value: string) returns (r: string)
    ensures r == EscapeMarkers(value)
  {
    hide EscapeLine;
    var lines := Lines(value);
    for i := 1 to |lines|
      invariant |lines| == |Lines(value)| && lines[0] == Lines(value)[0]
      invariant forall k :: 0 < k < i ==> lines[k] == EscapeLine(Lines(value)[k])
      invariant forall k :: i <= k < |lines| ==> lines[k] == Lines(value)[k]
    {
      var escaped := EscapeLine(lines[i]);
      lines := lines[i := escaped];
    }
    assert lines == EscapeTail(Lines(value));
    r := Joined(lines);
  }
}
