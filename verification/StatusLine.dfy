/**
 A line of `git status --porcelain=v2` read as a state and a path (ConvertFrom-XmipStatusLine,
 Xmip/Get-XmipStatus.ps1), against the lines git prints ("Porcelain Format Version 2" of git-status).
 */
module StatusLine {
  import opened Text

  datatype Parsed = Nothing | Change(state: string, path: string) | Throws

  /** String.Split with a count: so many parts at most, the last holding the rest as it is. */
  function SplitAtMost(s: string, c: char, count: nat): (parts: seq<string>)
    requires count >= 1
    ensures 1 <= |parts| <= count
    decreases |s|
  {
    var first := Before(s, c);
    if count == 1 || first == s then [s] else [first] + SplitAtMost(s[|first| + 1..], c, count - 1)
  }

  /** Replace('.', ' ') */
  function Undot(xy: string): string {
    if xy == "" then "" else [if xy[0] == '.' then ' ' else xy[0]] + Undot(xy[1..])
  }

  /** How many fields stand before the path, by the line's kind. */
  const FIELDS: map<string, nat> := map["1" := 8, "2" := 9, "u" := 10]

  /** ConvertFrom-XmipStatusLine. */
  function ReadLine(line: string): Parsed {
    var kind := if |line| > 1 then line[..1] else "";
    if kind == "?" || kind == "!" then Change(kind + kind, Trim(line[2..], QUOTE))
    else if kind in FIELDS then
      var part := SplitAtMost(line, ' ', FIELDS[kind] + 1);
      if |part| < 2 then Throws
      else Change(Undot(part[1]), Trim(Before(part[|part| - 1], '\t'), QUOTE))
    else Nothing
  }

  // ---------------------------------------------------------------- what git prints

  /** A change, with the fields git prints between the two-letter state and the path. */
  datatype Status =
    | Ordinary(xy: string, field: seq<string>, path: string)
    | Renamed(xy: string, field: seq<string>, path: string, from: string)
    | Unmerged(xy: string, field: seq<string>, path: string)
    | Untracked(path: string)
    | Ignored(path: string)

  predicate WellFormed(s: Status) {
    s.Untracked? || s.Ignored? ||
    (' ' !in s.xy && Free(s.field, ' ') && |s.field| == if s.Ordinary? then 6 else if s.Renamed? then 7 else 8)
  }

  /** The UTF-8 bytes of a character. */
  function Utf8(c: char): seq<nat> {
    var n := c as nat;
    if n < 0x80 then [n]
    else if n < 0x800 then [0xC0 + n / 0x40, 0x80 + n % 0x40]
    else if n < 0x1_0000 then [0xE0 + n / 0x1000, 0x80 + n / 0x40 % 0x40, 0x80 + n % 0x40]
    else [0xF0 + n / 0x4_0000, 0x80 + n / 0x1000 % 0x40, 0x80 + n / 0x40 % 0x40, 0x80 + n % 0x40]
  }

  /** A backslash and the byte in three octal digits. */
  function Octal(byte: nat): string {
    ['\\', DigitOf(byte / 64 % 8), DigitOf(byte / 8 % 8), DigitOf(byte % 8)]
  }

  function OctalEach(bytes: seq<nat>): string {
    if bytes == [] then "" else Octal(bytes[0]) + OctalEach(bytes[1..])
  }

  /** What git calls unusual in a path, core.quotePath being on: controls, quote, backslash, non-ASCII. */
  predicate Unusual(c: char) {
    c < ' ' || c == '"' || c == '\\' || c as nat >= 0x7F
  }

  /** The letters C has for some of the controls. */
  const LETTERS: map<nat, char> :=
    map[7 := 'a', 8 := 'b', 9 := 't', 10 := 'n', 11 := 'v', 12 := 'f', 13 := 'r', 34 := '"', 92 := '\\']

  /** A character as git writes it between quotes. */
  function Escape(c: char): string {
    if !Unusual(c) then [c]
    else if c as nat in LETTERS then ['\\', LETTERS[c as nat]]
    else OctalEach(Utf8(c))
  }

  function EscapeEach(s: string): string {
    if s == "" then "" else Escape(s[0]) + EscapeEach(s[1..])
  }

  predicate Usual(path: string) {
    forall c :: c in path ==> !Unusual(c)
  }

  /** A path as git prints it: as it is, or escaped between quotes if anything in it is unusual. */
  function Quoted(path: string): string {
    if Usual(path) then path else "\"" + EscapeEach(path) + "\""
  }

  function Print(s: Status): string {
    match s
    case Ordinary(xy, field, path) => Join(["1", xy] + field + [Quoted(path)], ' ')
    case Renamed(xy, field, path, from) => Join(["2", xy] + field + [Quoted(path) + "\t" + Quoted(from)], ' ')
    case Unmerged(xy, field, path) => Join(["u", xy] + field + [Quoted(path)], ' ')
    case Untracked(path) => "? " + Quoted(path)
    case Ignored(path) => "! " + Quoted(path)
  }

  /** The letters of the short format, which has a blank for what did not change. */
  function Short(xy: string): string {
    seq(|xy|, i requires 0 <= i < |xy| => if xy[i] == '.' then ' ' else xy[i])
  }

  lemma {:induction false} UndotIsShort(xy: string)
    ensures Undot(xy) == Short(xy)
  {
    if xy != "" {
      UndotIsShort(xy[1..]);
    }
  }

  /** The state the short format shows for a change. */
  function StateOf(s: Status): string {
    match s
    case Untracked(_) => "??"
    case Ignored(_) => "!!"
    case _ => Short(s.xy)
  }

  lemma {:induction false} SplitAtMostOfJoin(parts: seq<string>, rest: string, c: char)
    requires Free(parts, c)
    ensures SplitAtMost(Join(parts + [rest], c), c, |parts| + 1) == parts + [rest]
  {
    if parts == [] {
      assert parts + [rest] == [rest];
    } else {
      var s, tail := Join(parts + [rest], c), Join(parts[1..] + [rest], c);
      assert (parts + [rest])[1..] == parts[1..] + [rest] && parts[0] in parts;
      assert s == parts[0] + [c] + tail;
      BeforeFirst(parts[0], c, tail);
      assert s[|parts[0]| + 1..] == tail;
      SplitAtMostOfJoin(parts[1..], rest, c);
      assert [parts[0]] + (parts[1..] + [rest]) == parts + [rest];
    }
  }

  lemma PrintStarts(kind: string, more: seq<string>)
    requires |kind| == 1 && more != []
    ensures |Join([kind] + more, ' ')| > 1 && Join([kind] + more, ' ')[..1] == kind
  {
    assert ([kind] + more)[1..] == more;
  }

  /** A tracked line is taken apart as it was put together. */
  lemma TrackedIsRead(kind: string, xy: string, field: seq<string>, rest: string)
    requires kind in FIELDS && |kind| == 1 && kind != "?" && kind != "!" && |field| + 2 == FIELDS[kind]
    requires ' ' !in kind && ' ' !in xy && Free(field, ' ')
    ensures ReadLine(Join([kind, xy] + field + [rest], ' ')) == Change(Short(xy), Trim(Before(rest, '\t'), QUOTE))
  {
    hide Join, SplitAtMost, Undot, Short, Trim, Before;
    UndotIsShort(xy);
    var parts := [kind, xy] + field;
    assert Free(parts, ' ') by {
      assert forall p :: p in parts ==> p == kind || p == xy || p in field;
    }
    SplitAtMostOfJoin(parts, rest, ' ');
    PrintStarts(kind, ([xy] + field) + [rest]);
    assert [kind] + (([xy] + field) + [rest]) == parts + [rest];
    assert (parts + [rest])[1] == xy;
  }

  // ---------------------------------------------------------------- git's quoting and the reader's trimming

  function Backslashes(s: string): nat {
    if s == "" then 0 else (if s[0] == '\\' then 1 else 0) + Backslashes(s[1..])
  }

  lemma {:induction false} BackslashesAppend(a: string, b: string)
    ensures Backslashes(a + b) == Backslashes(a) + Backslashes(b)
  {
    if a == "" {
      assert a + b == b;
    } else {
      assert (a + b)[1..] == a[1..] + b;
      BackslashesAppend(a[1..], b);
    }
  }

  lemma {:induction false} OctalHoldsNoTab(bytes: seq<nat>)
    ensures '\t' !in OctalEach(bytes)
    ensures bytes != [] ==> Backslashes(OctalEach(bytes)) >= 1
  {
    if bytes != [] {
      OctalHoldsNoTab(bytes[1..]);
      var s := Octal(bytes[0]);
      assert OctalEach(bytes) == s + OctalEach(bytes[1..]) && OctalEach(bytes)[0] == '\\';
    }
  }

  /** Escaping holds no tab, and an unusual character gains a backslash by it. */
  lemma EscapeAdds(c: char)
    ensures '\t' !in Escape(c)
    ensures Backslashes(Escape(c)) >= Backslashes([c]) + if Unusual(c) then 1 else 0
  {
    if c as nat in LETTERS && Unusual(c) {
      var s := Escape(c);
      assert s[1..] == [LETTERS[c as nat]] && s[1..][1..] == "";
      assert c == '\\' <==> c as nat == 92;
    } else if Unusual(c) {
      OctalHoldsNoTab(Utf8(c));
    }
    assert [c][1..] == "";
  }

  lemma {:induction false} EscapingAdds(s: string)
    ensures '\t' !in EscapeEach(s)
    ensures Backslashes(EscapeEach(s)) >= Backslashes(s)
    ensures !Usual(s) ==> Backslashes(EscapeEach(s)) > Backslashes(s)
  {
    hide Escape, Unusual;
    if s != "" {
      EscapeAdds(s[0]);
      EscapingAdds(s[1..]);
      BackslashesAppend(Escape(s[0]), EscapeEach(s[1..]));
      BackslashesAppend([s[0]], s[1..]);
      assert s == [s[0]] + s[1..];
    }
  }

  lemma {:induction false} TrimStartTakesNoBackslash(s: string)
    ensures Backslashes(TrimStart(s, QUOTE)) == Backslashes(s)
  {
    if s != "" && s[0] in QUOTE {
      TrimStartTakesNoBackslash(s[1..]);
    }
  }

  lemma {:induction false} TrimEndTakesNoBackslash(s: string)
    ensures Backslashes(TrimEnd(s, QUOTE)) == Backslashes(s)
    decreases |s|
  {
    if s != "" && s[|s| - 1] in QUOTE {
      var front := s[..|s| - 1];
      assert s == front + [s[|s| - 1]] && [s[|s| - 1]][1..] == "";
      BackslashesAppend(front, [s[|s| - 1]]);
      TrimEndTakesNoBackslash(front);
    }
  }

  lemma TrimTakesNoBackslash(s: string)
    ensures Backslashes(Trim(s, QUOTE)) == Backslashes(s)
  {
    TrimStartTakesNoBackslash(s);
    TrimEndTakesNoBackslash(TrimStart(s, QUOTE));
  }

  lemma QuotedHoldsNoTab(path: string)
    ensures '\t' !in Quoted(path)
  {
    EscapingAdds(path);
    assert '\t' in path ==> Unusual('\t');
  }

  /** What the reader makes of a path as git prints it. */
  function PathRead(path: string): string {
    Trim(Quoted(path), QUOTE)
  }

  /** Trimming quotes undoes git's quoting exactly where there was none to do. */
  lemma TrimUndoesQuoted(path: string)
    ensures PathRead(path) == path <==> Usual(path)
  {
    hide EscapeEach;
    if Usual(path) {
      assert Trimmed(path, QUOTE) by {
        assert forall i :: 0 <= i < |path| ==> path[i] in path;
        assert Unusual('"');
      }
      TrimGives(path, QUOTE);
    } else {
      var inner := EscapeEach(path);
      EscapingAdds(path);
      TrimTakesNoBackslash(Quoted(path));
      BackslashesAppend("\"" + inner, "\"");
      BackslashesAppend("\"", inner);
      assert Backslashes("\"") == 0;
    }
  }

  /**
   The state is always got back; the path is, exactly when nothing in it is unusual: git quotes any
   other, and the reader takes off the quotes and leaves the escapes.
   */
  lemma StatusIsReadBack(s: Status)
    requires WellFormed(s)
    ensures ReadLine(Print(s)) == Change(StateOf(s), PathRead(s.path))
    ensures PathRead(s.path) == s.path <==> Usual(s.path)
  {
    hide Quoted, Usual, Trim;
    TrimUndoesQuoted(s.path);
    if s.Untracked? || s.Ignored? {
      assert Print(s)[2..] == Quoted(s.path);
    } else {
      hide ReadLine, Join, Short, Before;
      var kind := if s.Ordinary? then "1" else if s.Renamed? then "2" else "u";
      var path := Quoted(s.path);
      var rest := if s.Renamed? then path + "\t" + Quoted(s.from) else path;
      TrackedIsRead(kind, s.xy, s.field, rest);
      QuotedHoldsNoTab(s.path);
      if s.Renamed? {
        assert rest == path + ['\t'] + Quoted(s.from);
        BeforeFirst(path, '\t', Quoted(s.from));
      }
    }
  }

  /** What is listed for an unusual name is its escapes, taken out of their quotes. */
  lemma EscapesAreLeft(path: string, inner: string)
    requires !Usual(path) && EscapeEach(path) == inner
    requires inner != "" && inner[0] != '"' && inner[|inner| - 1] != '"'
    ensures ReadLine(Print(Untracked(path))) == Change("??", inner)
  {
    hide EscapeEach, Usual;
    var quoted, back := "\"" + inner + "\"", inner + "\"";
    assert Print(Untracked(path)) == "? " + quoted && ("? " + quoted)[2..] == quoted;
    assert quoted[1..] == back && back[..|inner|] == inner;
    assert TrimStart(quoted, QUOTE) == TrimStart(back, QUOTE) == back;
    assert TrimEnd(back, QUOTE) == TrimEnd(inner, QUOTE) == inner;
  }

  /** The new file a"b is listed as a\"b ... */
  lemma QuoteIsLost()
    ensures ReadLine(Print(Untracked("a\"b"))) == Change("??", "a\\\"b")
  {
    var path := "a\"b";
    assert path[1] in path && Unusual(path[1]);
    assert path[1..] == "\"b" && path[1..][1..] == "b" && path[1..][1..][1..] == "";
    assert EscapeEach(path) == "a" + ("\\\"" + ("b" + "")) == "a\\\"b";
    hide EscapeEach, Unusual;
    EscapesAreLeft(path, "a\\\"b");
  }

  /** ... and one named by an e with an acute accent as \303\251. */
  lemma AccentIsLost()
    ensures ReadLine(Print(Untracked("\U{00E9}"))) == Change("??", "\\303\\251")
  {
    var path := "\U{00E9}";
    assert path[0] in path && Unusual(path[0]) && path[1..] == "";
    assert Utf8(path[0]) == [0xC3, 0xA9] && [0xC3, 0xA9][1..] == [0xA9] && [0xA9][1..] == [];
    assert Octal(0xC3) == "\\303" && Octal(0xA9) == "\\251";
    assert OctalEach([0xC3, 0xA9]) == Octal(0xC3) + (Octal(0xA9) + "") == "\\303\\251";
    assert EscapeEach(path) == Escape(path[0]) + "" == "\\303\\251";
    hide EscapeEach, Unusual;
    EscapesAreLeft(path, "\\303\\251");
  }

  /** The two-letter state as git printed it, from the one read. */
  function Dot(state: string): string {
    if state == "" then "" else [if state[0] == ' ' then '.' else state[0]] + Dot(state[1..])
  }

  /** A state has no dot, and blanks where git printed dots, so git's letters can be had from it. */
  lemma {:induction false} DotOfUndot(xy: string)
    requires ' ' !in xy
    ensures Dot(Undot(xy)) == xy && '.' !in Undot(xy) && |Undot(xy)| == |xy|
  {
    if xy != "" {
      DotOfUndot(xy[1..]);
      assert xy == [xy[0]] + xy[1..];
    }
  }

  // ---------------------------------------------------------------- a whole status

  /** Get-XmipRepositoryStatus's entries, one for every line that names a path. */
  function Changes(lines: seq<string>): seq<Parsed> {
    if lines == [] then []
    else
      var p := ReadLine(lines[0]);
      (if p.Nothing? then [] else [p]) + Changes(lines[1..])
  }

  function PrintAll(header: seq<string>, status: seq<Status>): seq<string> {
    if status == [] then header else PrintAll(header, status[..|status| - 1]) + [Print(status[|status| - 1])]
  }

  function Readings(status: seq<Status>): seq<Parsed> {
    if status == [] then []
    else
      var last := status[|status| - 1];
      Readings(status[..|status| - 1]) + [Change(StateOf(last), PathRead(last.path))]
  }

  /** An entry for every change, in order, with its state, and with its path exactly where nothing in it is unusual. */
  ghost predicate Lists(entry: seq<Parsed>, status: seq<Status>) {
    |entry| == |status| && forall i :: 0 <= i < |status| ==>
      entry[i].Change? && entry[i].state == StateOf(status[i])
      && (entry[i].path == status[i].path <==> Usual(status[i].path))
  }

  lemma {:induction false} ReadingsList(status: seq<Status>)
    ensures Lists(Readings(status), status)
  {
    hide PathRead, StateOf, Usual;
    if status != [] {
      ReadingsList(status[..|status| - 1]);
      TrimUndoesQuoted(status[|status| - 1].path);
    }
  }

  lemma {:induction false} ChangesAppend(lines: seq<string>, line: string)
    ensures Changes(lines + [line]) == Changes(lines) + if ReadLine(line).Nothing? then [] else [ReadLine(line)]
  {
    if lines == [] {
      assert [] + [line] == [line] && [line][1..] == [];
    } else {
      assert (lines + [line])[1..] == lines[1..] + [line];
      ChangesAppend(lines[1..], line);
    }
  }

  lemma {:induction false} HeadersSayNothing(header: seq<string>)
    requires forall h :: h in header ==> |h| > 1 && h[0] == '#'
    ensures Changes(header) == []
  {
    if header != [] {
      assert header[0] in header && forall h :: h in header[1..] ==> h in header;
      assert header[0][..1][0] == '#';
      HeadersSayNothing(header[1..]);
    }
  }

  /**
   Behind git's header lines every change is listed once, in order, with its own state, and with its
   own path exactly where nothing in it is unusual.
   */
  lemma {:induction false} EveryChangeIsListed(header: seq<string>, status: seq<Status>)
    requires forall h :: h in header ==> |h| > 1 && h[0] == '#'
    requires forall s :: s in status ==> WellFormed(s)
    ensures Changes(PrintAll(header, status)) == Readings(status) && Lists(Readings(status), status)
  {
    ReadingsList(status);
    hide ReadLine, Print, StateOf, PathRead, Usual, WellFormed;
    if status == [] {
      HeadersSayNothing(header);
    } else {
      var last := status[|status| - 1];
      assert last in status && forall s :: s in status[..|status| - 1] ==> s in status;
      EveryChangeIsListed(header, status[..|status| - 1]);
      StatusIsReadBack(last);
      ChangesAppend(PrintAll(header, status[..|status| - 1]), Print(last));
    }
  }
}
