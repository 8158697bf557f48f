/** `format`: build the shell command that pipes a Kotlin document into
    ktlint, run it, strip ktlint's own log lines from what it prints, and
    classify a failure as "ktlint missing" or as ktlint's own error.
    The shell, the SHA-1 digest and the presence probe are inputs. */
module Formatter {
  import opened Wrappers
  import opened Strings
  import opened Paths
  import opened Platform
  import Config
  import Output

  // ---------------------------------------------------------------------
  // Command line pieces

  /** The `--editorconfig` flag: the found path between single quotes, or
      nothing at all. The path can be read back from the flag. */
  function EditorConfigParam(configPath: Option<Path>): (param: string)
    ensures param == "" <==> configPath.None?
    ensures configPath.Some? ==>
      StartsWith(param, "--editorconfig '") && |param| > |"--editorconfig '"| && param[|param| - 1] == '\'' &&
      param[|"--editorconfig '"|..|param| - 1] == Render(configPath.value)
  {
    match configPath
    case None => ""
    case Some(p) => "--editorconfig '" + Render(p) + "'"
  }

  /** Where ktlint's jar is looked for when no path is configured. */
  const DefaultKtlintPath := ".\\ktlint"

  /** The `ktlintPath` setting when it is set to a non-empty string, the
      default relative path otherwise; never empty. */
  function KtlintPath(setting: Option<string>): (path: string)
    ensures path != ""
    ensures setting.Some? && setting.value != "" ==> path == setting.value
    ensures setting.None? || setting == Some("") ==> path == DefaultKtlintPath
  {
    if setting.Some? && setting.value != "" then setting.value else DefaultKtlintPath
  }

  // ---------------------------------------------------------------------
  // The Windows variant: the text as a chain of echo statements

  /** The characters `split(/\n|\r/)` cuts at. */
  predicate IsBreak(c: char)
  {
    c == '\n' || c == '\r'
  }

  predicate NoBreak(s: string)
  {
    forall i :: 0 <= i < |s| ==> !IsBreak(s[i])
  }

  /** `text.split(/\n|\r/)`: the pieces between single break characters, so
      "\r\n" and a blank line each leave an empty piece. */
  function SplitLines(s: string): (pieces: seq<string>)
    ensures |pieces| >= 1
    ensures forall k :: 0 <= k < |pieces| ==> NoBreak(pieces[k])
  {
    if s == [] then [[]]
    else if IsBreak(s[0]) then [[]] + SplitLines(s[1..])
    else
      var rest := SplitLines(s[1..]);
      [[s[0]] + rest[0]] + rest[1..]
  }

  /** Text without break characters is a single piece. */
  lemma {:induction false} SplitUnbroken(s: string)
    requires NoBreak(s)
    ensures SplitLines(s) == [s]
  {
    if s != [] {
      SplitUnbroken(s[1..]);
      assert [s[0]] + s[1..] == s;
    }
  }

  /** Splitting cuts at every break character and nowhere else. */
  lemma {:induction false} SplitAtBreak(x: string, c: char, y: string)
    requires IsBreak(c)
    ensures SplitLines(x + [c] + y) == SplitLines(x) + SplitLines(y)
  {
    if x == [] {
      assert x + [c] + y == [c] + y;
      assert ([c] + y)[1..] == y;
    } else {
      assert (x + [c] + y)[0] == x[0];
      assert (x + [c] + y)[1..] == x[1..] + [c] + y;
      SplitAtBreak(x[1..], c, y);
    }
  }

  /** `.filter(Boolean)`: the non-empty pieces, in order. */
  function NonEmpty(pieces: seq<string>): (kept: seq<string>)
    ensures forall k :: 0 <= k < |kept| ==> kept[k] != [] && kept[k] in pieces
  {
    if pieces == [] then []
    else if pieces[0] == [] then NonEmpty(pieces[1..])
    else [pieces[0]] + NonEmpty(pieces[1..])
  }

  lemma {:induction false} NonEmptyAppend(xs: seq<string>, ys: seq<string>)
    ensures NonEmpty(xs + ys) == NonEmpty(xs) + NonEmpty(ys)
  {
    if xs != [] {
      var both := xs + ys;
      assert both[0] == xs[0] && both[1..] == xs[1..] + ys;
      NonEmptyAppend(xs[1..], ys);
      var rest := NonEmpty(xs[1..]);
      if xs[0] != [] {
        assert NonEmpty(both) == [xs[0]] + (rest + NonEmpty(ys));
        assert NonEmpty(xs) == [xs[0]] + rest;
      } else {
        assert NonEmpty(both) == rest + NonEmpty(ys);
        assert NonEmpty(xs) == rest;
      }
    } else {
      assert xs + ys == ys;
      assert NonEmpty(xs) == [];
    }
  }

  /** The fragments that become echo statements. */
  function EchoFragments(text: string): (fragments: seq<string>)
    ensures forall k :: 0 <= k < |fragments| ==> fragments[k] != [] && NoBreak(fragments[k])
  {
    NonEmpty(SplitLines(text))
  }

  /** A break character separates the fragments before it from those after
      it; a line without breaks is one fragment, or none when it is empty. */
  lemma {:induction false} FragmentsAtBreak(x: string, c: char, y: string)
    requires IsBreak(c)
    ensures EchoFragments(x + [c] + y) == EchoFragments(x) + EchoFragments(y)
  {
    SplitAtBreak(x, c, y);
    NonEmptyAppend(SplitLines(x), SplitLines(y));
  }

  lemma {:induction false} FragmentsOfLine(s: string)
    requires NoBreak(s)
    ensures EchoFragments(s) == if s == [] then [] else [s]
  {
    SplitUnbroken(s);
    var none: seq<string> := [];
    assert [s][1..] == none;
    assert NonEmpty(none) == [];
  }

  /** A blank line, or the second half of "\r\n", leaves no fragment: the
      chain for two breaks in a row is the chain for one. */
  lemma {:induction false} BlankLinesVanish(x: string, c: char, d: char, y: string)
    requires IsBreak(c) && IsBreak(d)
    ensures EchoFragments(x + [c, d] + y) == EchoFragments(x + [c] + y)
  {
    assert x + [c, d] + y == x + [c] + ([d] + y);
    FragmentsAtBreak(x, c, [d] + y);
    assert [d] + y == [] + [d] + y;
    FragmentsAtBreak([], d, y);
    FragmentsOfLine([]);
    FragmentsAtBreak(x, c, y);
  }

  /** The text with every break character removed. */
  function WithoutBreaks(s: string): string
  {
    if s == [] then []
    else if IsBreak(s[0]) then WithoutBreaks(s[1..])
    else [s[0]] + WithoutBreaks(s[1..])
  }

  /** Dropping empty pieces loses no character. */
  lemma {:induction false} NonEmptyKeepsCharacters(pieces: seq<string>)
    ensures Concat(NonEmpty(pieces)) == Concat(pieces)
  {
    if pieces != [] {
      NonEmptyKeepsCharacters(pieces[1..]);
      if pieces[0] != [] {
        var kept := [pieces[0]] + NonEmpty(pieces[1..]);
        assert kept[0] == pieces[0] && kept[1..] == NonEmpty(pieces[1..]);
      }
    }
  }

  /** Splitting loses exactly the break characters. */
  lemma {:induction false} SplitKeepsCharacters(s: string)
    ensures Concat(SplitLines(s)) == WithoutBreaks(s)
  {
    if s == [] {
      var one: seq<string> := [[]];
      assert one[1..] == [];
    } else {
      SplitKeepsCharacters(s[1..]);
      var rest := SplitLines(s[1..]);
      if IsBreak(s[0]) {
        var pieces := [[]] + rest;
        assert pieces[0] == [] && pieces[1..] == rest;
      } else {
        var pieces := [[s[0]] + rest[0]] + rest[1..];
        assert pieces[0] == [s[0]] + rest[0] && pieces[1..] == rest[1..];
      }
    }
  }

  /** The fragments hold every other character of the text, in order. */
  lemma {:induction false} FragmentsKeepAllText(s: string)
    ensures Concat(EchoFragments(s)) == WithoutBreaks(s)
  {
    NonEmptyKeepsCharacters(SplitLines(s));
    SplitKeepsCharacters(s);
  }

  const EchoOpen := "echo|set /p=\""
  const EchoClose := "\" & echo."

  /** One echo statement: prints the fragment, then a line break. The
      fragment is read back between the fixed opening and closing. */
  function EchoStatement(fragment: string): (stmt: string)
    ensures |stmt| == |EchoOpen| + |fragment| + |EchoClose|
    ensures StartsWith(stmt, EchoOpen) && stmt[|stmt| - |EchoClose|..] == EchoClose
    ensures stmt[|EchoOpen|..|stmt| - |EchoClose|] == fragment
  {
    EchoOpen + fragment + EchoClose
  }

  /** `.map(...)`: one statement per fragment, in order, each reading back
      as its fragment. */
  function EchoStatements(fragments: seq<string>): (stmts: seq<string>)
    ensures |stmts| == |fragments|
    ensures forall i {:trigger fragments[i]} :: 0 <= i < |stmts| ==>
      |stmts[i]| == |EchoOpen| + |fragments[i]| + |EchoClose| &&
      StartsWith(stmts[i], EchoOpen) && stmts[i][|EchoOpen|..|stmts[i]| - |EchoClose|] == fragments[i]
  {
    seq(|fragments|, i requires 0 <= i < |fragments| => EchoStatement(fragments[i]))
  }

  const StatementSeparator := " & "

  function WindowsPrefix(dir: string): string
  {
    "cd " + dir + " & ( "
  }

  function WindowsSuffix(ktlintPath: string, param: string): string
  {
    ") | java -jar " + ktlintPath + " " + param + " --stdin -F"
  }

  /** The Windows command: change to the document's directory, echo the
      text fragment by fragment, and pipe that into the ktlint jar. With no
      fragment (a text of line breaks only) nothing is echoed at all. */
  function WindowsCommand(dir: string, text: string, ktlintPath: string, param: string): (cmd: string)
    ensures StartsWith(cmd, WindowsPrefix(dir))
    ensures |WindowsPrefix(dir)| + |WindowsSuffix(ktlintPath, param)| <= |cmd|
    ensures cmd[|cmd| - |WindowsSuffix(ktlintPath, param)|..] == WindowsSuffix(ktlintPath, param)
    ensures EchoFragments(text) == [] <==> cmd == WindowsPrefix(dir) + WindowsSuffix(ktlintPath, param)
  {
    WindowsPrefix(dir) + Join(EchoStatements(EchoFragments(text)), StatementSeparator) +
    WindowsSuffix(ktlintPath, param)
  }

  /** The Windows command is its prefix, then exactly one echo statement per
      fragment in order, separated by " & ", then the java suffix. */
  lemma {:induction false} WindowsCommandLayout(dir: string, text: string, ktlintPath: string, param: string, i: nat)
    requires i < |EchoFragments(text)|
    ensures var fragments := EchoFragments(text);
      var stmts := EchoStatements(fragments);
      stmts[i] == EchoStatement(fragments[i]) &&
      JoinedAt(WindowsCommand(dir, text, ktlintPath, param), WindowsPrefix(dir), stmts, StatementSeparator,
        WindowsSuffix(ktlintPath, param), i)
  {
    var pre, suf := WindowsPrefix(dir), WindowsSuffix(ktlintPath, param);
    var stmts := EchoStatements(EchoFragments(text));
    assert WindowsCommand(dir, text, ktlintPath, param) == pre + Join(stmts, StatementSeparator) + suf;
    JoinLayoutWithin(pre, stmts, StatementSeparator, suf, i);
  }

  // ---------------------------------------------------------------------
  // The default variant: a here-document delimited by the text's digest

  function HeredocHeader(hash: string, param: string): string
  {
    "cat <<'" + hash + "' |ktlint " + param + " --stdin -F"
  }

  /** The default command: the header line, the text, and the digest as the
      line that ends the here-document. */
  function HeredocCommand(hash: string, param: string, text: string): (cmd: string)
    ensures |cmd| == |HeredocHeader(hash, param)| + 1 + |text| + 1 + |hash|
    ensures StartsWith(cmd, HeredocHeader(hash, param) + "\n")
    ensures cmd[|HeredocHeader(hash, param)| + 1..|cmd| - |hash| - 1] == text
    ensures cmd[|cmd| - |hash| - 1..] == "\n" + hash
  {
    HeredocHeader(hash, param) + "\n" + text + "\n" + hash
  }

  /** When neither the digest nor the flag holds a line feed, the first line
      feed of the command ends the header, the command ends with a line
      feed and the digest, and what lies between is the text verbatim. */
  lemma {:induction false} HeredocCarriesText(hash: string, param: string, text: string)
    requires '\n' !in hash && '\n' !in param
    ensures var cmd := HeredocCommand(hash, param, text);
      var h := |HeredocHeader(hash, param)|;
      IndexOf(cmd, "\n") == h &&
      cmd[..h] == HeredocHeader(hash, param) &&
      h + 1 + |text| + 1 + |hash| == |cmd| &&
      cmd[h + 1..h + 1 + |text|] == text &&
      cmd[h + 1 + |text|..] == "\n" + hash
  {
    var header := HeredocHeader(hash, param);
    var cmd := HeredocCommand(hash, param, text);
    var h := |header|;
    assert h + 1 + |text| == |cmd| - |hash| - 1;
    assert cmd[h + 1..h + 1 + |text|] == text && cmd[h + 1 + |text|..] == "\n" + hash;
    assert IndexOf(cmd, "\n") == |header| by {
      HeaderHasNoLineFeed(hash, param);
      var body := text + "\n" + hash;
      assert cmd == header + "\n" + body;
      FirstLineFeed(header, body);
    }
    assert cmd[..|header|] == header by {
      assert cmd[..|header| + 1][..|header|] == cmd[..|header|];
    }
  }

  lemma {:induction false} HeaderHasNoLineFeed(hash: string, param: string)
    requires '\n' !in hash && '\n' !in param
    ensures '\n' !in HeredocHeader(hash, param)
  {
    assert '\n' !in "cat <<'" && '\n' !in "' |ktlint " && '\n' !in " --stdin -F";
  }

  /** The first line feed after a line without one is the one that ends it. */
  lemma {:induction false} FirstLineFeed(head: string, tail: string)
    requires '\n' !in head
    ensures IndexOf(head + "\n" + tail, "\n") == |head|
  {
    var s := head + "\n" + tail;
    assert s[|head|..][..1] == "\n";
    forall j | 0 <= j < |head|
      ensures !StartsWith(s[j..], "\n")
    {
      assert s[j..][0] == head[j];
    }
    var r := IndexOf(s, "\n");
    assert r >= 0;
  }

  /** The command for the current platform. */
  function FormatCommand(platform: string, doc: Document, configPath: Option<Path>,
                         ktlintSetting: Option<string>, hash: string): (cmd: string)
    ensures platform == "win32" ==>
      cmd == WindowsCommand(Render(Dirname(doc.path)), doc.text, KtlintPath(ktlintSetting), EditorConfigParam(configPath))
    ensures platform != "win32" ==>
      cmd == HeredocCommand(hash, EditorConfigParam(configPath), doc.text)
  {
    var param := EditorConfigParam(configPath);
    PlatformSelect(platform,
      WindowsCommand(Render(Dirname(doc.path)), doc.text, KtlintPath(ktlintSetting), param),
      HeredocCommand(hash, param, doc.text))
  }

  // ---------------------------------------------------------------------
  // Stripping ktlint's log lines from its output

  /** The characters a regular expression's `.` does not match. */
  predicate IsLineTerminator(c: char)
  {
    c == '\n' || c == '\r' || c == '\U{2028}' || c == '\U{2029}'
  }

  predicate IsDigit(c: char)
  {
    '0' <= c <= '9'
  }

  /** `[0-9]{2}:[0-9]{2}:[0-9]{2}` at the start of `s`. */
  predicate IsClock(s: string)
    requires |s| >= 8
  {
    IsDigit(s[0]) && IsDigit(s[1]) && s[2] == ':' &&
    IsDigit(s[3]) && IsDigit(s[4]) && s[5] == ':' &&
    IsDigit(s[6]) && IsDigit(s[7])
  }

  /** The number of digits `s` starts with. */
  function DigitRun(s: string): (n: nat)
    ensures n <= |s|
    ensures forall i :: 0 <= i < n ==> IsDigit(s[i])
    ensures n < |s| ==> !IsDigit(s[n])
  {
    if s == [] || !IsDigit(s[0]) then 0 else 1 + DigitRun(s[1..])
  }

  /** The number of characters before the first line terminator of `s`. */
  function LineLength(s: string): (n: nat)
    ensures n <= |s|
    ensures forall i :: 0 <= i < n ==> !IsLineTerminator(s[i])
    ensures n < |s| ==> IsLineTerminator(s[n])
  {
    if s == [] || IsLineTerminator(s[0]) then 0 else 1 + LineLength(s[1..])
  }

  /** `.+\] .*` over a stretch without line terminators: "] " occurs after
      at least one character. */
  predicate HasTagClose(m: string)
  {
    exists j | 1 <= j && j + 2 <= |m| :: m[j] == ']' && m[j + 1] == ' '
  }

  /** The length of the match of
      `[0-9]{2}:[0-9]{2}:[0-9]{2}.[0-9]+ \[.+\] .*(?:\n|\r)` at the start of
      `s`, if any. It never reaches past the first line terminator, and it
      ends with a line feed or a carriage return. */
  function LogLineMatch(s: string): (r: Option<nat>)
    ensures r.Some? ==> 0 < r.value <= |s| && IsBreak(s[r.value - 1])
    ensures r.Some? ==> forall i :: 0 <= i < r.value - 1 ==> !IsLineTerminator(s[i])
  {
    if |s| < 9 || !IsClock(s) || IsLineTerminator(s[8]) then None
    else
      assert forall i :: 9 <= i < |s| ==> s[i] == s[9..][i - 9];
      MatchTag(s, 9 + DigitRun(s[9..]))
  }

  /** The rest of the match once the milliseconds end at `k`: " [", then
      the tag up to the end of the line. */
  function MatchTag(s: string, k: nat): (r: Option<nat>)
    requires 9 <= k <= |s|
    ensures r.Some? ==> k + 2 < r.value <= |s| && IsBreak(s[r.value - 1])
    ensures r.Some? ==> forall i :: k <= i < r.value - 1 ==> !IsLineTerminator(s[i])
    ensures r.Some? ==> 9 < k && s[k] == ' ' && s[k + 1] == '[' && HasTagClose(s[k + 2..r.value - 1])
  {
    if k == 9 || k + 2 > |s| || s[k] != ' ' || s[k + 1] != '[' then None
    else
      assert forall i :: k + 2 <= i < |s| ==> s[i] == s[k + 2..][i - (k + 2)];
      MatchLineEnd(s, k + 2, k + 2 + LineLength(s[k + 2..]))
  }

  /** The end of the match once the line is known to end at `e`. */
  function MatchLineEnd(s: string, t: nat, e: nat): (r: Option<nat>)
    requires t <= e <= |s|
    ensures r.Some? ==> r.value == e + 1 && e < |s| && IsBreak(s[e]) && HasTagClose(s[t..e])
    ensures e < |s| && IsBreak(s[e]) && HasTagClose(s[t..e]) ==> r == Some(e + 1)
  {
    if e == |s| || !IsBreak(s[e]) || !HasTagClose(s[t..e]) then None
    else Some(e + 1)
  }

  /** `res.replace(/.../g, "")`: scan from the left, cut out each match and
      go on after it; never lengthens the text. */
  function StripLogLines(s: string): (r: string)
    ensures |r| <= |s|
  {
    if s == [] then []
    else match LogLineMatch(s)
      case Some(n) => StripLogLines(s[n..])
      case None => [s[0]] + StripLogLines(s[1..])
  }

  /** No log line starts anywhere in `s`. */
  ghost predicate NoLogLine(s: string)
  {
    forall i :: 0 <= i < |s| ==> LogLineMatch(s[i..]).None?
  }

  /** Stripping changes the text exactly when a log line starts somewhere in it. */
  lemma {:induction false} StripChangesOnlyLogLines(s: string)
    ensures StripLogLines(s) == s <==> NoLogLine(s)
  {
    if NoLogLine(s) {
      CleanTextUnchanged(s);
    } else {
      var i :| 0 <= i < |s| && LogLineMatch(s[i..]).Some?;
      StripShortensAtLogLine(s, i);
    }
  }

  /** Text without log lines comes through unchanged. */
  lemma {:induction false} CleanTextUnchanged(s: string)
    requires NoLogLine(s)
    ensures StripLogLines(s) == s
  {
    if s != [] {
      assert s[0..] == s;
      assert forall i :: 1 <= i < |s| ==> s[1..][i - 1..] == s[i..];
      CleanTextUnchanged(s[1..]);
      assert [s[0]] + s[1..] == s;
    }
  }

  /** A log line starting at `i` makes the stripped text strictly shorter. */
  lemma {:induction false} StripShortensAtLogLine(s: string, i: nat)
    requires i < |s| && LogLineMatch(s[i..]).Some?
    ensures |StripLogLines(s)| < |s|
  {
    if i == 0 {
      assert s[0..] == s;
    } else if LogLineMatch(s).None? {
      assert s[1..][i - 1..] == s[i..];
      StripShortensAtLogLine(s[1..], i - 1);
    }
  }

  /** A match is decided within the first line: text after a line
      terminator cannot change it. */
  lemma {:induction false} LogLineMatchIsLocal(u: string, x: string, p: nat)
    requires p < |u| && IsLineTerminator(u[p])
    ensures LogLineMatch(u + x) == LogLineMatch(u)
  {
    var s := u + x;
    if |u| >= 9 {
      StampIsLocal(u, x);
      if IsClock(u) && !IsLineTerminator(u[8]) {
        var k := 9 + DigitRun(u[9..]);
        assert u[9..][p - 9] == u[p];
        DigitRunIsLocal(u[9..], x);
        assert LogLineMatch(u) == MatchTag(u, k);
        assert LogLineMatch(s) == MatchTag(s, k);
        MatchTagIsLocal(u, x, k, p);
      } else {
        assert LogLineMatch(u) == None == LogLineMatch(s);
      }
    } else {
      assert s[p] == u[p];
      NoMatchThroughStamp(u, p);
      NoMatchThroughStamp(s, p);
    }
  }

  /** The first nine characters are the same in any extension. */
  lemma {:induction false} StampIsLocal(u: string, x: string)
    requires |u| >= 9
    ensures IsClock(u + x) == IsClock(u) && (u + x)[8] == u[8]
    ensures (u + x)[9..] == u[9..] + x
  {
    assert (u + x)[..9] == u[..9];
  }

  /** A line terminator within the first nine characters rules out a match. */
  lemma {:induction false} NoMatchThroughStamp(s: string, p: nat)
    requires p <= 8 && p < |s| && IsLineTerminator(s[p])
    ensures LogLineMatch(s) == None
  {
    if |s| >= 9 && p < 8 {
      assert !IsClock(s);
    }
  }

  lemma {:induction false} MatchTagIsLocal(u: string, x: string, k: nat, p: nat)
    requires 9 <= k <= p < |u| && IsLineTerminator(u[p])
    ensures MatchTag(u + x, k) == MatchTag(u, k)
  {
    var s := u + x;
    if k + 2 <= |u| {
      assert s[k] == u[k] && s[k + 1] == u[k + 1];
      if k > 9 && u[k] == ' ' && u[k + 1] == '[' {
        assert s[k + 2..] == u[k + 2..] + x;
        assert u[k + 2..][p - (k + 2)] == u[p];
        LineLengthIsLocal(u[k + 2..], x);
        MatchLineEndIsLocal(u, x, k + 2, k + 2 + LineLength(u[k + 2..]));
      }
    } else {
      assert s[k] == u[k];
    }
  }

  lemma {:induction false} MatchLineEndIsLocal(u: string, x: string, t: nat, e: nat)
    requires t <= e < |u|
    ensures MatchLineEnd(u + x, t, e) == MatchLineEnd(u, t, e)
  {
    assert (u + x)[e] == u[e];
    assert (u + x)[t..e] == u[t..e];
  }

  /** A run of digits that stops inside `a` is not lengthened by what follows. */
  lemma {:induction false} DigitRunIsLocal(a: string, x: string)
    requires DigitRun(a) < |a|
    ensures DigitRun(a + x) == DigitRun(a)
  {
    if IsDigit(a[0]) {
      assert (a + x)[1..] == a[1..] + x;
      DigitRunIsLocal(a[1..], x);
    }
  }

  /** A line that ends inside `a` is not lengthened by what follows. */
  lemma {:induction false} LineLengthIsLocal(a: string, x: string)
    requires LineLength(a) < |a|
    ensures LineLength(a + x) == LineLength(a)
  {
    if !IsLineTerminator(a[0]) {
      assert (a + x)[1..] == a[1..] + x;
      LineLengthIsLocal(a[1..], x);
    }
  }

  /** A stretch without log lines that ends at a line break comes through
      stripping unchanged, whatever follows it. */
  lemma {:induction false} StripKeepsCleanLines(a: string, x: string)
    requires NoLogLine(a)
    requires a == [] || IsBreak(a[|a| - 1])
    ensures StripLogLines(a + x) == a + StripLogLines(x)
  {
    if a != [] {
      var s := a + x;
      var tail := a[1..];
      assert a[0..] == a;
      LogLineMatchIsLocal(a, x, |a| - 1);
      assert StripLogLines(s) == [a[0]] + StripLogLines(s[1..]);
      assert s[1..] == tail + x;
      NoLogLineInTail(a);
      assert tail == [] || IsBreak(tail[|tail| - 1]);
      StripKeepsCleanLines(tail, x);
      assert a == [a[0]] + tail;
    } else {
      assert a + x == x;
    }
  }

  /** Dropping the first character keeps a text free of log lines. */
  lemma {:induction false} NoLogLineInTail(a: string)
    requires a != [] && NoLogLine(a)
    ensures NoLogLine(a[1..])
  {
    forall i | 0 <= i < |a| - 1
      ensures LogLineMatch(a[1..][i..]).None?
    {
      assert a[1..][i..] == a[i + 1..];
    }
  }

  /** Text at none of whose positions a log line starts is kept as it is,
      whatever follows it: the pattern is not anchored, so `replace` removes
      only the match, also when a log line begins later on the same line. */
  lemma {:induction false} StripKeepsTextBeforeMatch(a: string, x: string)
    requires forall i :: 0 <= i < |a| ==> LogLineMatch((a + x)[i..]).None?
    ensures StripLogLines(a + x) == a + StripLogLines(x)
  {
    if a == [] {
      assert a + x == x;
    } else {
      var s := a + x;
      assert s[0..] == s;
      assert s[1..] == a[1..] + x;
      forall i | 0 <= i < |a[1..]|
        ensures LogLineMatch((a[1..] + x)[i..]).None?
      {
        assert (a[1..] + x)[i..] == s[i + 1..];
      }
      StripKeepsTextBeforeMatch(a[1..], x);
      assert a == [a[0]] + a[1..];
    }
  }

  /** A ktlint log line: clock, one character, milliseconds, " [", a
      non-empty tag, "] ", a message, and the line break. */
  function LogLine(clock: string, dot: char, millis: string, tag: string, message: string, end: char): string
  {
    clock + [dot] + millis + " [" + tag + "] " + message + [end]
  }

  predicate WellFormedLogLine(clock: string, dot: char, millis: string, tag: string, message: string, end: char)
  {
    |clock| == 8 && IsClock(clock) && !IsLineTerminator(dot) &&
    millis != [] && (forall i :: 0 <= i < |millis| ==> IsDigit(millis[i])) &&
    tag != [] && (forall i :: 0 <= i < |tag| ==> !IsLineTerminator(tag[i])) &&
    (forall i :: 0 <= i < |message| ==> !IsLineTerminator(message[i])) &&
    IsBreak(end)
  }

  /** Every well-formed log line is matched whole, so stripping drops it and
      goes on with what follows. */
  lemma {:induction false} StripDropsLogLine(clock: string, dot: char, millis: string, tag: string, message: string, end: char, x: string)
    requires WellFormedLogLine(clock, dot, millis, tag, message, end)
    ensures var line := LogLine(clock, dot, millis, tag, message, end);
      LogLineMatch(line + x) == Some(|line|) &&
      StripLogLines(line + x) == StripLogLines(x)
  {
    var line := LogLine(clock, dot, millis, tag, message, end);
    LogLineReachesTag(clock, dot, millis, tag, message, end, x);
    TagReachesLineEnd(clock, dot, millis, tag, message, end, x);
    assert (line + x)[|line|..] == x;
  }

  /** A clock, one character and milliseconds lead to the tag. */
  lemma {:induction false} LogLineReachesTag(clock: string, dot: char, millis: string, tag: string, message: string, end: char, x: string)
    requires WellFormedLogLine(clock, dot, millis, tag, message, end)
    ensures var s := LogLine(clock, dot, millis, tag, message, end) + x;
      9 + |millis| <= |s| && LogLineMatch(s) == MatchTag(s, 9 + |millis|)
  {
    var rest := " [" + tag + "] " + message + [end] + x;
    var s := LogLine(clock, dot, millis, tag, message, end) + x;
    assert s == clock + [dot] + millis + rest;
    assert s[..8] == clock && s[8] == dot;
    assert s[9..] == millis + rest;
    DigitRunOfDigits(millis, rest);
  }

  /** After " [", a non-empty tag, "] " and a message, the match ends at
      the line break. */
  lemma {:induction false} TagReachesLineEnd(clock: string, dot: char, millis: string, tag: string, message: string, end: char, x: string)
    requires WellFormedLogLine(clock, dot, millis, tag, message, end)
    ensures var line := LogLine(clock, dot, millis, tag, message, end);
      9 + |millis| <= |line + x| && MatchTag(line + x, 9 + |millis|) == Some(|line|)
  {
    var stretch := tag + "] " + message;
    var line := LogLine(clock, dot, millis, tag, message, end);
    var s := line + x;
    var k := 9 + |millis|;
    assert s == clock + [dot] + millis + " [" + stretch + ([end] + x);
    assert s[k] == ' ' && s[k + 1] == '[';
    assert s[k + 2..] == stretch + ([end] + x);
    LineLengthOfLine(stretch, [end] + x);
    var e := k + 2 + |stretch|;
    assert s[e] == end;
    assert s[k + 2..e] == stretch;
    assert stretch[|tag|] == ']' && stretch[|tag| + 1] == ' ';
  }

  /** A run of digits followed by a non-digit is counted exactly. */
  lemma {:induction false} DigitRunOfDigits(digits: string, rest: string)
    requires forall i :: 0 <= i < |digits| ==> IsDigit(digits[i])
    requires rest != [] && !IsDigit(rest[0])
    ensures DigitRun(digits + rest) == |digits|
  {
    if digits != [] {
      assert (digits + rest)[1..] == digits[1..] + rest;
      DigitRunOfDigits(digits[1..], rest);
    } else {
      assert digits + rest == rest;
    }
  }

  /** A stretch without line terminators followed by one is measured exactly. */
  lemma {:induction false} LineLengthOfLine(stretch: string, rest: string)
    requires forall i :: 0 <= i < |stretch| ==> !IsLineTerminator(stretch[i])
    requires rest != [] && IsLineTerminator(rest[0])
    ensures LineLength(stretch + rest) == |stretch|
  {
    if stretch != [] {
      assert (stretch + rest)[1..] == stretch[1..] + rest;
      LineLengthOfLine(stretch[1..], rest);
    } else {
      assert stretch + rest == rest;
    }
  }

  /** A match at the start of `s` is exactly a well-formed log line: what
      the pattern accepts is a clock, one character, milliseconds, " [", a
      tag, "] ", a message and a line break, and nothing else. */
  lemma {:induction false} LogLineMatchCharacterized(s: string, n: nat)
    ensures LogLineMatch(s) == Some(n) <==>
      n <= |s| &&
      exists clock, dot, millis, tag, message, end ::
        WellFormedLogLine(clock, dot, millis, tag, message, end) &&
        s[..n] == LogLine(clock, dot, millis, tag, message, end)
  {
    if LogLineMatch(s) == Some(n) {
      MatchIsLogLine(s);
    }
    if n <= |s| && exists clock, dot, millis, tag, message, end ::
        WellFormedLogLine(clock, dot, millis, tag, message, end) &&
        s[..n] == LogLine(clock, dot, millis, tag, message, end)
    {
      var clock, dot, millis, tag, message, end :|
        WellFormedLogLine(clock, dot, millis, tag, message, end) &&
        s[..n] == LogLine(clock, dot, millis, tag, message, end);
      assert s == LogLine(clock, dot, millis, tag, message, end) + s[n..];
      StripDropsLogLine(clock, dot, millis, tag, message, end, s[n..]);
    }
  }

  /** The text a match covers splits into the parts of a log line. */
  lemma {:induction false} MatchIsLogLine(s: string)
    requires LogLineMatch(s).Some?
    ensures var n := LogLineMatch(s).value;
      exists clock, dot, millis, tag, message, end ::
        WellFormedLogLine(clock, dot, millis, tag, message, end) &&
        s[..n] == LogLine(clock, dot, millis, tag, message, end)
  {
    var k, j, e := MatchPositions(s);
    PositionsGiveLogLine(s, k, j, e);
  }

  /** Where the milliseconds end (`k`), the tag closes (`j`) and the line
      breaks (`e`) in a match. */
  lemma {:induction false} MatchPositions(s: string) returns (k: nat, j: nat, e: nat)
    requires LogLineMatch(s).Some?
    ensures LogLineMatch(s) == Some(e + 1)
    ensures LogLinePositions(s, k, j, e)
  {
    k := 9 + DigitRun(s[9..]);
    assert LogLineMatch(s) == MatchTag(s, k);
    e := k + 2 + LineLength(s[k + 2..]);
    assert MatchTag(s, k) == MatchLineEnd(s, k + 2, e);
    var m := s[k + 2..e];
    var t :| 1 <= t && t + 2 <= |m| && m[t] == ']' && m[t + 1] == ' ';
    j := k + 2 + t;
    assert s[j] == m[t] && s[j + 1] == m[t + 1];
    forall i | 9 <= i < k
      ensures IsDigit(s[i])
    {
      assert s[i] == s[9..][i - 9];
    }
    forall i | k + 2 <= i < e
      ensures !IsLineTerminator(s[i])
    {
      assert s[i] == s[k + 2..][i - (k + 2)];
    }
  }

  /** The layout of a log line by position: clock, one character, digits
      up to `k`, " [", a tag up to `j`, "] ", a message up to `e`, and the
      break at `e`. */
  predicate LogLinePositions(s: string, k: nat, j: nat, e: nat)
  {
    9 < k && k + 2 < j && j + 2 <= e < |s| &&
    IsClock(s) && !IsLineTerminator(s[8]) &&
    (forall i :: 9 <= i < k ==> IsDigit(s[i])) &&
    s[k] == ' ' && s[k + 1] == '[' &&
    (forall i :: k + 2 <= i < e ==> !IsLineTerminator(s[i])) &&
    s[j] == ']' && s[j + 1] == ' ' && IsBreak(s[e])
  }

  lemma {:induction false} PositionsGiveLogLine(s: string, k: nat, j: nat, e: nat)
    requires LogLinePositions(s, k, j, e)
    ensures exists clock, dot, millis, tag, message, end ::
      WellFormedLogLine(clock, dot, millis, tag, message, end) &&
      s[..e + 1] == LogLine(clock, dot, millis, tag, message, end)
  {
    var clock, millis, tag, message := s[..8], s[9..k], s[k + 2..j], s[j + 2..e];
    assert WellFormedLogLine(clock, s[8], millis, tag, message, s[e]);
    var line := LogLine(clock, s[8], millis, tag, message, s[e]);
    assert s[..e + 1] == line;
  }

  /** Text around a log line stays intact: wherever the log line starts,
      at a line start or in the middle of a line, it is cut out and nothing
      in front of it changes. */
  lemma {:induction false} StripRemovesInterleavedLogLine(code: string, clock: string, dot: char, millis: string,
                                       tag: string, message: string, end: char, rest: string)
    requires forall i :: 0 <= i < |code| ==>
      LogLineMatch((code + LogLine(clock, dot, millis, tag, message, end) + rest)[i..]).None?
    requires WellFormedLogLine(clock, dot, millis, tag, message, end)
    ensures StripLogLines(code + LogLine(clock, dot, millis, tag, message, end) + rest) ==
      code + StripLogLines(rest)
  {
    var line := LogLine(clock, dot, millis, tag, message, end);
    assert code + line + rest == code + (line + rest);
    StripKeepsTextBeforeMatch(code, line + rest);
    StripDropsLogLine(clock, dot, millis, tag, message, end, rest);
  }

  // ---------------------------------------------------------------------
  // format

  /** The document being formatted: where it is and what it holds. */
  datatype Document = Document(path: Path, text: string)

  /** How the shell command ended: its standard output, or the message of
      the error it was rejected with. */
  datatype ProcessResult = Completed(stdout: string) | Rejected(message: string)

  /** Everything `format` takes from its surroundings. */
  datatype Host = Host(
    platform: string,                 // process.platform
    ktlintSetting: Option<string>,    // the kotlin-formatter.ktlintPath setting
    fs: Config.FileSystem,
    sha1Hex: string -> string,        // hex SHA-1 digest of a text
    run: string -> ProcessResult,     // the shell
    ktlintFound: bool)                // what checkIfKTlintExist answers

  /** What `format` rejects with. */
  datatype FormatError =
    | ConfigLookupFailed(error: Config.FsError)  // findEditorConfig threw
    | NoKtlint(message: string)                  // Error("no ktlint")
    | Rethrown(message: string)                  // the shell's error, unchanged

  const NoKtlintMessage := "no ktlint"

  /** `format`: find the editorconfig, build and run the command, strip the
      log lines from a success, and on failure consult the presence probe.
      `channel` is what is appended to the output channel, in order. */
  method Format(host: Host, doc: Document) returns (r: Result<string, FormatError>, channel: seq<string>, popups: seq<string>)
    ensures var found := Config.Walk(host.fs, doc.path);
      found.Err? ==> r == Err(ConfigLookupFailed(found.error)) && channel == [] && popups == []
    ensures var found := Config.Walk(host.fs, doc.path);
      found.Ok? ==>
        var command := FormatCommand(host.platform, doc, found.value, host.ktlintSetting, host.sha1Hex(doc.text));
        var outcome := host.run(command);
        var missing := outcome.Rejected? && !host.ktlintFound;
        (outcome.Completed? ==> r == Ok(StripLogLines(outcome.stdout))) &&
        (missing ==> r == Err(NoKtlint(NoKtlintMessage))) &&
        (outcome.Rejected? && host.ktlintFound ==> r == Err(Rethrown(outcome.message))) &&
        channel ==
          (if found.value.Some? then [Output.ShowInfo("Found editorconfig file at: " + Render(found.value.value))] else []) +
          [Output.ShowInfo("Formatting file: " + Render(doc.path))] +
          (if missing then [Output.NoKtlintError(host.platform).channelLine] else []) &&
        popups == (if missing then [Output.NoKtlintError(host.platform).popup] else [])
  {
    var editorConfigPath := Config.FindEditorConfig(host.fs, doc.path);
    if editorConfigPath.Err? {
      r, channel, popups := Err(ConfigLookupFailed(editorConfigPath.error)), [], [];
      return;
    }
    var configPath := editorConfigPath.value;
    var found: seq<string> := [];
    if configPath.Some? {
      found := [Output.ShowInfo("Found editorconfig file at: " + Render(configPath.value))];
    }
    var hash := host.sha1Hex(doc.text);
    var command := FormatCommand(host.platform, doc, configPath, host.ktlintSetting, hash);
    var before := found + [Output.ShowInfo("Formatting file: " + Render(doc.path))];
    match host.run(command) {
      case Completed(res) =>
        r, channel, popups := Ok(StripLogLines(res)), before, [];
        assert channel == before + [];
      case Rejected(e) =>
        if !host.ktlintFound {
          var notice := Output.NoKtlintError(host.platform);
          r, channel, popups := Err(NoKtlint(NoKtlintMessage)), before + [notice.channelLine], [notice.popup];
        } else {
          r, channel, popups := Err(Rethrown(e)), before, [];
          assert channel == before + [];
        }
    }
  }
}
