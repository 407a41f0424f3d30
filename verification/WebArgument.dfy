/**
 How a web host is told its snapshots, and how they are read off its command line again
 (Get-XmipOperationWebSnapshotArgument and Read-XmipOperationWebArgument, Xmip/Get-XmipOperationWeb.ps1).

 The reader's pattern is `--Name`, an index where every value is asked for, `=`, and a quoted or a
 bare value; the scanner below takes its matches left to right as a regular expression does.
 */
module WebArgument {
  import opened Wrappers
  import opened Text

  // ---------------------------------------------------------------- the reader

  /** The longest beginning of non-blank characters: \S+ */
  function Bare(s: string): (v: string)
    ensures v <= s && forall c :: c in v ==> c !in WHITE
  {
    if s == "" || s[0] in WHITE then "" else [s[0]] + Bare(s[1..])
  }

  function Digits(s: string): (v: string)
    ensures v <= s
  {
    if s == "" || !IsDigit(s[0]) then "" else [s[0]] + Digits(s[1..])
  }

  /** What follows the key up to and with the equals sign: (?::\d+)?= */
  function AfterKey(s: string, every: bool): (rest: Option<string>)
    ensures rest.Some? ==> |rest.value| < |s|
  {
    if s != "" && s[0] == '=' then Some(s[1..])
    else if every && s != "" && s[0] == ':' then
      var digits := Digits(s[1..]);
      var rest := s[1..][|digits|..];
      if digits != "" && rest != "" && rest[0] == '=' then Some(rest[1..]) else None
    else None
  }

  /** The value there: "[^"]*" where a quote closes, else \S+ */
  function ValueAt(s: string): (v: Option<string>)
    ensures v.Some? ==> v.value != "" && v.value <= s
  {
    if s != "" && s[0] == '"' && |Before(s[1..], '"')| < |s| - 1 then
      var inner := Before(s[1..], '"');
      assert s[1..][|inner|] == '"';
      Some(s[..|inner| + 2])
    else if Bare(s) != "" then Some(Bare(s))
    else None
  }

  /** A match at the start of s: the value as matched, and what follows it. */
  function MatchAt(s: string, key: string, every: bool): (m: Option<(string, string)>)
    ensures m.Some? ==> |m.value.1| < |s|
  {
    if !(key <= s) then None
    else
      var rest := AfterKey(s[|key|..], every);
      if rest.None? then None
      else
        var v := ValueAt(rest.value);
        if v.None? then None else Some((v.value, rest.value[|v.value|..]))
  }

  /** [regex]::Matches, each value with its quotes trimmed. */
  function Matches(s: string, key: string, every: bool): seq<string>
    decreases |s|
  {
    if s == "" then []
    else
      var m := MatchAt(s, key, every);
      if m.Some? then [Trim(m.value.0, QUOTE)] + Matches(m.value.1, key, every) else Matches(s[1..], key, every)
  }

  /** Read-XmipOperationWebArgument without -Every: the plain key's first value, empty where it has none. */
  function ReadOne(commandLine: string, name: string): string {
    var m := Matches(commandLine, "--" + name, false);
    if m == [] then "" else m[0]
  }

  /** Read-XmipOperationWebArgument -Every. */
  function ReadEvery(commandLine: string, name: string): seq<string> {
    Matches(commandLine, "--" + name, true)
  }

  // ---------------------------------------------------------------- the printer

  const SNAPSHOT := "Xmip:Snapshot"

  /** The key of snapshot i: plain for one, indexed for several. */
  function KeyText(name: string, count: nat, i: nat): string {
    "--" + name + (if count == 1 then "" else ":" + Decimal(i))
  }

  function ArgumentsFrom(snapshot: seq<string>, i: nat): seq<string>
    requires i <= |snapshot|
    decreases |snapshot| - i
  {
    if i == |snapshot| then []
    else [KeyText(SNAPSHOT, |snapshot|, i) + "=" + snapshot[i]] + ArgumentsFrom(snapshot, i + 1)
  }

  /** Get-XmipOperationWebSnapshotArgument. */
  function SnapshotArguments(snapshot: seq<string>): seq<string>
    requires snapshot != []
  {
    if |snapshot| == 1 then ["--Xmip:Snapshot=" + snapshot[0]] else ArgumentsFrom(snapshot, 0)
  }

  lemma {:induction false} ArgumentsNumber(snapshot: seq<string>, from: nat)
    requires from <= |snapshot|
    ensures |ArgumentsFrom(snapshot, from)| == |snapshot| - from
    decreases |snapshot| - from
  {
    if from < |snapshot| {
      ArgumentsNumber(snapshot, from + 1);
    }
  }

  lemma {:induction false} ArgumentAt(snapshot: seq<string>, from: nat, i: nat)
    requires |snapshot| > 1 && from <= i < |snapshot|
    ensures |ArgumentsFrom(snapshot, from)| == |snapshot| - from
    ensures ArgumentsFrom(snapshot, from)[i - from] == "--Xmip:Snapshot:" + Decimal(i) + "=" + snapshot[i]
    decreases i - from
  {
    hide Decimal;
    if from < i {
      ArgumentAt(snapshot, from + 1, i);
    } else {
      assert "--" + SNAPSHOT + (":" + Decimal(i)) == "--Xmip:Snapshot:" + Decimal(i);
      ArgumentsNumber(snapshot, from);
    }
  }

  /** The key of snapshot i of several. */
  function IndexedKey(i: nat): string {
    "--Xmip:Snapshot:" + Decimal(i)
  }

  /** Of several snapshots each has an argument with a key of its own, numbered from zero in their order. */
  lemma SnapshotsAreNumbered(snapshot: seq<string>, i: nat, j: nat)
    requires |snapshot| > 1 && i < |snapshot| && j < |snapshot|
    ensures |SnapshotArguments(snapshot)| == |snapshot|
    ensures SnapshotArguments(snapshot)[i] == IndexedKey(i) + "=" + snapshot[i]
    ensures IndexedKey(i) == IndexedKey(j) ==> i == j
  {
    ArgumentAt(snapshot, 0, i);
    NumberOfDecimal(i);
    NumberOfDecimal(j);
    hide Decimal;
    var head := "--Xmip:Snapshot:";
    assert IndexedKey(i)[|head|..] == Decimal(i) && IndexedKey(j)[|head|..] == Decimal(j);
  }

  // ---------------------------------------------------------------- the line

  /** A value on the line, bare or quoted after its equals sign. */
  function ValueText(v: string, quoted: bool): string {
    if quoted then "\"" + v + "\"" else v
  }

  /** The arguments from snapshot i on, each after a space, and then the rest of the line. */
  function Tail(name: string, snapshot: seq<string>, quoted: seq<bool>, i: nat, suffix: string): string
    requires |quoted| == |snapshot| && i <= |snapshot|
    decreases |snapshot| - i
  {
    if i == |snapshot| then suffix
    else " " + KeyText(name, |snapshot|, i) + "=" + ValueText(snapshot[i], quoted[i])
         + Tail(name, snapshot, quoted, i + 1, suffix)
  }

  /** A value the reader gets back: quoted, any without a quote; bare, any without a blank or an outer quote. */
  predicate Readable(v: string, quoted: bool) {
    if quoted then '"' !in v else v != "" && Trimmed(v, QUOTE) && forall c :: c in v ==> c !in WHITE
  }

  /** The key stands nowhere in a text. */
  predicate NoKey(s: string, key: string) {
    forall k :: 0 <= k <= |s| ==> !(key <= s[k..])
  }

  predicate EndsThere(s: string) {
    s == "" || s[0] == ' '
  }

  lemma {:induction false} BareStops(v: string, rest: string)
    requires (forall c :: c in v ==> c !in WHITE) && EndsThere(rest)
    ensures Bare(v + rest) == v
  {
    if v == "" {
      assert "" + rest == rest;
    } else {
      assert (v + rest)[1..] == v[1..] + rest;
      BareStops(v[1..], rest);
    }
  }

  /** A bare value holding a blank is cut short there. */
  lemma {:induction false} BareCutsShort(v: string, rest: string)
    requires exists c :: c in v && c in WHITE
    ensures |Bare(v + rest)| < |v|
  {
    if v[0] !in WHITE {
      assert (v + rest)[1..] == v[1..] + rest && v == [v[0]] + v[1..];
      BareCutsShort(v[1..], rest);
    }
  }

  lemma {:induction false} DigitsStop(n: string, rest: string)
    requires (forall c :: c in n ==> IsDigit(c)) && rest != "" && !IsDigit(rest[0])
    ensures Digits(n + rest) == n
  {
    if n == "" {
      assert "" + rest == rest;
    } else {
      assert (n + rest)[1..] == n[1..] + rest;
      DigitsStop(n[1..], rest);
    }
  }

  /** After the key, plain or indexed, the value is what follows the equals sign. */
  lemma KeyIsRead(name: string, count: nat, i: nat, rest: string)
    ensures "--" + name <= KeyText(name, count, i) + "=" + rest
    ensures AfterKey((KeyText(name, count, i) + "=" + rest)[|"--" + name|..], true) == Some(rest)
  {
    var key := "--" + name;
    var s := (KeyText(name, count, i) + "=" + rest)[|key|..];
    if count == 1 {
      assert KeyText(name, count, i) == key;
      assert s == "=" + rest;
      assert s[1..] == rest;
    } else {
      var n := Decimal(i);
      assert s == ":" + (n + ("=" + rest));
      assert s[1..] == n + ("=" + rest);
      DigitsStop(n, "=" + rest);
      assert s[1..][|n|..] == "=" + rest;
      assert ("=" + rest)[1..] == rest;
    }
  }

  lemma QuotedIsRead(v: string, rest: string)
    requires '"' !in v
    ensures ValueAt("\"" + v + "\"" + rest) == Some("\"" + v + "\"")
  {
    var s := "\"" + v + "\"" + rest;
    assert s[1..] == v + ['"'] + rest;
    BeforeFirst(v, '"', rest);
    assert s[..|v| + 2] == "\"" + v + "\"";
  }

  lemma QuotedIsTrimmed(v: string)
    requires '"' !in v
    ensures Trim("\"" + v + "\"", QUOTE) == v
  {
    var q, back := "\"" + v + "\"", v + "\"";
    assert q[1..] == back && q[0] in QUOTE;
    assert back[..|v|] == v && back[|back| - 1] in QUOTE;
    TrimEndGives(v, QUOTE);
    assert v != "" ==> v[0] in v && v[|v| - 1] in v;
    if v == "" {
      assert back == "\"" && back[1..] == "";
      assert TrimStart(q, QUOTE) == TrimStart(back, QUOTE) == TrimStart("", QUOTE) == "";
    } else {
      assert TrimStart(q, QUOTE) == TrimStart(back, QUOTE) == back;
      assert TrimEnd(back, QUOTE) == TrimEnd(v, QUOTE) == v;
    }
  }

  /** A readable value is matched whole, and trimmed of the quotes around it. */
  lemma ValueIsRead(v: string, quoted: bool, rest: string)
    requires Readable(v, quoted) && EndsThere(rest)
    ensures ValueAt(ValueText(v, quoted) + rest) == Some(ValueText(v, quoted))
    ensures Trim(ValueText(v, quoted), QUOTE) == v
  {
    if quoted {
      hide ValueAt, Trim;
      QuotedIsRead(v, rest);
      QuotedIsTrimmed(v);
    } else {
      BareStops(v, rest);
      TrimGives(v, QUOTE);
      assert v[0] in v && (v + rest)[0] == v[0];
    }
  }

  lemma MatchHere(name: string, count: nat, i: nat, text: string, v: string, every: bool)
    requires ValueAt(text) == Some(v) && (every || count == 1)
    ensures var s := KeyText(name, count, i) + "=" + text;
      Matches(s, "--" + name, every) == [Trim(v, QUOTE)] + Matches(text[|v|..], "--" + name, every)
  {
    KeyIsRead(name, count, i, text);
  }

  lemma KeyNotHere(prefix: string, rest: string, key: string)
    requires NoKey(prefix, key) && ' ' !in key
    ensures !(key <= prefix + (" " + rest))
  {
    var s := prefix + (" " + rest);
    assert prefix[0..] == prefix && s[..|prefix|] == prefix && s[|prefix|] == ' ';
    assert |key| <= |prefix| ==> s[..|key|] == prefix[..|key|];
    assert |key| > |prefix| ==> key[|prefix|] in key;
  }

  /** Nothing is matched that begins before a key-free text and the space after it end. */
  lemma {:induction false} SkipToSpace(prefix: string, rest: string, key: string, every: bool)
    requires NoKey(prefix, key) && ' ' !in key
    ensures Matches(prefix + (" " + rest), key, every) == Matches(rest, key, every)
    decreases |prefix|
  {
    var s := prefix + (" " + rest);
    KeyNotHere(prefix, rest, key);
    if prefix == "" {
      assert s == " " + rest && s[1..] == rest;
    } else {
      assert s[1..] == prefix[1..] + (" " + rest);
      assert forall k :: 0 <= k <= |prefix[1..]| ==> prefix[1..][k..] == prefix[k + 1..];
      SkipToSpace(prefix[1..], rest, key, every);
    }
  }

  lemma SkipPrefix(prefix: string, text: string, key: string, every: bool)
    requires NoKey(prefix, key) && ' ' !in key && text != "" && text[0] == ' '
    ensures Matches(prefix + text, key, every) == Matches(text, key, every)
  {
    hide Matches;
    assert text == " " + text[1..] && "" + text == text;
    assert prefix[|prefix|..] == "";
    SkipToSpace(prefix, text[1..], key, every);
    SkipToSpace("", text[1..], key, every);
  }

  lemma {:induction false} NoKeyNoMatch(s: string, key: string)
    requires NoKey(s, key)
    ensures Matches(s, key, true) == []
    decreases |s|
  {
    if s != "" {
      assert s[0..] == s;
      assert forall k :: 0 <= k <= |s[1..]| ==> s[1..][k..] == s[k + 1..];
      NoKeyNoMatch(s[1..], key);
    }
  }

  lemma {:induction false} NoPlainKeyNoMatch(s: string, key: string)
    requires NoKey(s, key + "=")
    ensures Matches(s, key, false) == []
    decreases |s|
  {
    if s != "" {
      assert s[0..] == s;
      assert forall k :: 0 <= k <= |s[1..]| ==> s[1..][k..] == s[k + 1..];
      NoPlainKeyNoMatch(s[1..], key);
      assert !(key + "=" <= s);
      assert key <= s && |s| > |key| ==> s[|key|] != '=';
    }
  }

  /** The reader that knows no index reads no indexed key: without the plain key it reads nothing. */
  lemma PlainReaderNeedsPlainKey(commandLine: string, name: string)
    requires NoKey(commandLine, "--" + name + "=")
    ensures ReadOne(commandLine, name) == ""
  {
    NoPlainKeyNoMatch(commandLine, "--" + name);
  }

  lemma TailEndsThere(name: string, snapshot: seq<string>, quoted: seq<bool>, i: nat, suffix: string)
    requires |quoted| == |snapshot| && i <= |snapshot| && EndsThere(suffix)
    ensures EndsThere(Tail(name, snapshot, quoted, i, suffix))
  {
  }

  lemma NothingBefore(name: string)
    ensures NoKey("", "--" + name)
  {
  }

  /** Snapshot i's argument is read, and the reading goes on behind it. */
  lemma TailStep(name: string, snapshot: seq<string>, quoted: seq<bool>, i: nat, suffix: string, v: string)
    requires |quoted| == |snapshot| && i < |snapshot| && ' ' !in name
    requires ValueAt(ValueText(snapshot[i], quoted[i]) + Tail(name, snapshot, quoted, i + 1, suffix)) == Some(v)
    ensures var text := ValueText(snapshot[i], quoted[i]) + Tail(name, snapshot, quoted, i + 1, suffix);
      Matches(Tail(name, snapshot, quoted, i, suffix), "--" + name, true) ==
      [Trim(v, QUOTE)] + Matches(text[|v|..], "--" + name, true)
  {
    hide Matches, ValueAt, NoKey, KeyText, ValueText;
    NothingBefore(name);
    var text := ValueText(snapshot[i], quoted[i]) + Tail(name, snapshot, quoted, i + 1, suffix);
    var key := "--" + name;
    assert Tail(name, snapshot, quoted, i, suffix) == "" + (" " + (KeyText(name, |snapshot|, i) + "=" + text));
    SkipToSpace("", KeyText(name, |snapshot|, i) + "=" + text, key, true);
    MatchHere(name, |snapshot|, i, text, v, true);
  }

  lemma {:induction false} TailIsRead(name: string, snapshot: seq<string>, quoted: seq<bool>, i: nat, suffix: string)
    requires |quoted| == |snapshot| && i <= |snapshot| && ' ' !in name
    requires EndsThere(suffix) && NoKey(suffix, "--" + name)
    requires forall j :: i <= j < |snapshot| ==> Readable(snapshot[j], quoted[j])
    ensures Matches(Tail(name, snapshot, quoted, i, suffix), "--" + name, true) == snapshot[i..]
    decreases |snapshot| - i
  {
    hide Matches, ValueAt, NoKey, KeyText, ValueText, Readable;
    if i == |snapshot| {
      NoKeyNoMatch(suffix, "--" + name);
    } else {
      var value, after := ValueText(snapshot[i], quoted[i]), Tail(name, snapshot, quoted, i + 1, suffix);
      TailEndsThere(name, snapshot, quoted, i + 1, suffix);
      ValueIsRead(snapshot[i], quoted[i], after);
      TailStep(name, snapshot, quoted, i, suffix, value);
      assert (value + after)[|value|..] == after;
      TailIsRead(name, snapshot, quoted, i + 1, suffix);
      assert snapshot[i..] == [snapshot[i]] + snapshot[i + 1..];
    }
  }

  /** The snapshots are read back in order from the arguments, bare or quoted, wherever they stand on the line. */
  lemma EverySnapshotIsReadBack(prefix: string, name: string, snapshot: seq<string>, quoted: seq<bool>, suffix: string)
    requires |quoted| == |snapshot| && snapshot != [] && ' ' !in name
    requires EndsThere(suffix) && NoKey(suffix, "--" + name) && NoKey(prefix, "--" + name)
    requires forall j :: 0 <= j < |snapshot| ==> Readable(snapshot[j], quoted[j])
    ensures ReadEvery(prefix + Tail(name, snapshot, quoted, 0, suffix), name) == snapshot
  {
    var text := Tail(name, snapshot, quoted, 0, suffix);
    TailIsRead(name, snapshot, quoted, 0, suffix);
    SkipPrefix(prefix, text, "--" + name, true);
    assert snapshot[0..] == snapshot;
  }

  lemma OneArgument(name: string, v: string, quoted: bool, suffix: string)
    ensures Tail(name, [v], [quoted], 0, suffix) == " " + (KeyText(name, 1, 0) + "=" + (ValueText(v, quoted) + suffix))
  {
    assert Tail(name, [v], [quoted], 1, suffix) == suffix;
  }

  /** One snapshot keeps the plain key, so the reader that knows no index reads it too. */
  lemma OneSnapshotIsReadPlainly(prefix: string, name: string, v: string, quoted: bool, suffix: string)
    requires ' ' !in name && EndsThere(suffix) && NoKey(prefix, "--" + name) && Readable(v, quoted)
    ensures ReadOne(prefix + Tail(name, [v], [quoted], 0, suffix), name) == v
  {
    hide Matches, ValueAt, Trim, Tail, KeyText, ValueText, Readable;
    var text, key := ValueText(v, quoted) + suffix, "--" + name;
    var argument := KeyText(name, 1, 0) + "=" + text;
    OneArgument(name, v, quoted, suffix);
    ValueIsRead(v, quoted, suffix);
    SkipPrefix(prefix, " " + argument, key, false);
    NothingBefore(name);
    SkipToSpace("", argument, key, false);
    assert "" + (" " + argument) == " " + argument;
    MatchHere(name, 1, 0, text, ValueText(v, quoted), false);
  }

  // ---------------------------------------------------------------- the line Start-Process makes

  function AllBare(n: nat): seq<bool> {
    seq(n, _ => false)
  }

  lemma Glue(a: string, b: string, c: string)
    ensures " " + (a + " " + b) + c == " " + a + (" " + b + c)
  {
  }

  /** Start-Process joins its arguments with spaces and quotes none of them. */
  lemma {:induction false} ArgumentsMakeTail(snapshot: seq<string>, i: nat, suffix: string)
    requires |snapshot| > 1 && i < |snapshot|
    ensures " " + Join(ArgumentsFrom(snapshot, i), ' ') + suffix == Tail(SNAPSHOT, snapshot, AllBare(|snapshot|), i, suffix)
    decreases |snapshot| - i
  {
    hide KeyText;
    var key := KeyText(SNAPSHOT, |snapshot|, i);
    var first, more := key + "=" + snapshot[i], ArgumentsFrom(snapshot, i + 1);
    assert ArgumentsFrom(snapshot, i) == [first] + more;
    assert " " + first == " " + key + "=" + snapshot[i];
    if i + 1 < |snapshot| {
      ArgumentsMakeTail(snapshot, i + 1, suffix);
      assert ([first] + more)[1..] == more;
      Glue(first, Join(more, ' '), suffix);
    } else {
      assert [first] + more == [first];
    }
  }

  lemma PrintedLine(snapshot: seq<string>, suffix: string)
    requires snapshot != []
    ensures " " + Join(SnapshotArguments(snapshot), ' ') + suffix == Tail(SNAPSHOT, snapshot, AllBare(|snapshot|), 0, suffix)
  {
    if |snapshot| == 1 {
      assert "--Xmip:Snapshot=" == "--" + SNAPSHOT + "" + "=";
    } else {
      ArgumentsMakeTail(snapshot, 0, suffix);
    }
  }

  /** A full path begins with no blank. */
  predicate BeginsLikeAPath(v: string) {
    v != "" && v[0] !in WHITE
  }

  lemma UnreadableIsMisread(v: string, rest: string)
    requires BeginsLikeAPath(v) && !Readable(v, false)
    ensures var m := ValueAt(v + rest); m.Some? && Trim(m.value, QUOTE) != v
  {
    var s := v + rest;
    assert s[0] == v[0] && Bare(s) != "";
    var m := ValueAt(s);
    TrimGives(m.value, QUOTE);
    if Trimmed(v, QUOTE) {
      BareCutsShort(v, rest);
      assert v[0] !in QUOTE;
    }
  }

  lemma {:induction false} UnreadableTailIsMisread(snapshot: seq<string>, i: nat, suffix: string)
    requires i <= |snapshot| && EndsThere(suffix)
    requires forall j :: i <= j < |snapshot| ==> BeginsLikeAPath(snapshot[j])
    requires exists j :: i <= j < |snapshot| && !Readable(snapshot[j], false)
    ensures Matches(Tail(SNAPSHOT, snapshot, AllBare(|snapshot|), i, suffix), "--" + SNAPSHOT, true) != snapshot[i..]
    decreases |snapshot| - i
  {
    hide Matches, ValueAt, KeyText, Readable, BeginsLikeAPath, Trim;
    var quoted := AllBare(|snapshot|);
    var v, after := snapshot[i], Tail(SNAPSHOT, snapshot, quoted, i + 1, suffix);
    assert SNAPSHOT == ['X', 'm', 'i', 'p', ':', 'S', 'n', 'a', 'p', 's', 'h', 'o', 't'];
    TailEndsThere(SNAPSHOT, snapshot, quoted, i + 1, suffix);
    assert snapshot[i..] == [v] + snapshot[i + 1..];
    if Readable(v, false) {
      ValueIsRead(v, false, after);
      TailStep(SNAPSHOT, snapshot, quoted, i, suffix, v);
      assert (v + after)[|v|..] == after;
      UnreadableTailIsMisread(snapshot, i + 1, suffix);
    } else {
      UnreadableIsMisread(v, after);
      TailStep(SNAPSHOT, snapshot, quoted, i, suffix, ValueAt(v + after).value);
    }
  }

  /**
   On the line the host is started with, full paths are read back if and only if none holds a blank
   or begins or ends with a quote: nothing on the way quotes them.
   */
  lemma PrintedSnapshotsAreReadBackExactly(prefix: string, snapshot: seq<string>, suffix: string)
    requires snapshot != [] && forall v :: v in snapshot ==> BeginsLikeAPath(v)
    requires EndsThere(suffix) && NoKey(suffix, "--" + SNAPSHOT) && NoKey(prefix, "--" + SNAPSHOT)
    ensures ReadEvery(prefix + (" " + Join(SnapshotArguments(snapshot), ' ') + suffix), SNAPSHOT) == snapshot <==>
      forall v :: v in snapshot ==> Readable(v, false)
  {
    var quoted := AllBare(|snapshot|);
    var text := Tail(SNAPSHOT, snapshot, quoted, 0, suffix);
    assert SNAPSHOT == ['X', 'm', 'i', 'p', ':', 'S', 'n', 'a', 'p', 's', 'h', 'o', 't'];
    PrintedLine(snapshot, suffix);
    if forall v :: v in snapshot ==> Readable(v, false) {
      EverySnapshotIsReadBack(prefix, SNAPSHOT, snapshot, quoted, suffix);
    } else {
      UnreadableTailIsMisread(snapshot, 0, suffix);
      SkipPrefix(prefix, text, "--" + SNAPSHOT, true);
      assert snapshot[0..] == snapshot;
    }
  }

  lemma ClusterHoldsNoKey()
    ensures NoKey(" cluster", "--" + SNAPSHOT)
  {
    var s, key := " cluster", "--" + SNAPSHOT;
    assert s == [' ', 'c', 'l', 'u', 's', 't', 'e', 'r'];
    forall k | 0 <= k <= |s|
      ensures !(key <= s[k..])
    {
      assert key[0] == '-' && (k < |s| ==> s[k..][0] == s[k] != '-');
    }
  }

  lemma BlankEndsValue()
    ensures ValueAt("/run/my cluster") == Some("/run/my") && Trim("/run/my", QUOTE) == "/run/my"
  {
    var path, cut := "/run/my cluster", "/run/my";
    assert cut == ['/', 'r', 'u', 'n', '/', 'm', 'y'] && path == cut + " cluster";
    BareStops(cut, " cluster");
    assert path[0] == '/' && cut[0] == '/' && cut[6] == 'y';
    TrimGives(cut, QUOTE);
  }

  /** The one snapshot /run/my cluster is read as /run/my. */
  lemma BlankCutsSnapshot()
    ensures ReadEvery(" " + Join(SnapshotArguments(["/run/my cluster"]), ' ') + "", SNAPSHOT) == ["/run/my"]
  {
    hide Matches, ValueAt, Trim, Join, SnapshotArguments, NoKey;
    var path, cut, quoted := "/run/my cluster", "/run/my", AllBare(1);
    PrintedLine([path], "");
    ClusterHoldsNoKey();
    BlankEndsValue();
    assert Tail(SNAPSHOT, [path], quoted, 1, "") == "" && ValueText(path, quoted[0]) == path && path + "" == path;
    assert path[|cut|..] == " cluster";
    assert SNAPSHOT == ['X', 'm', 'i', 'p', ':', 'S', 'n', 'a', 'p', 's', 'h', 'o', 't'];
    hide Tail, ValueText;
    TailStep(SNAPSHOT, [path], quoted, 0, "", cut);
    NoKeyNoMatch(" cluster", "--" + SNAPSHOT);
  }
}
