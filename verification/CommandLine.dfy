/** SplitCommandToArgs and SplitOptionAndCommand, the loops over their buffers and strings. */
module CommandLine {
  import opened Bytes
  import opened Tokenizer

  // ---- C strings in a buffer -----------------------------------------------------------------

  // The string that starts at an offset of a buffer.
  function CString(buf: seq<char>, at: nat): string
    decreases |buf| - at
  {
    if at >= |buf| || buf[at] == '\0' then "" else [buf[at]] + CString(buf, at + 1)
  }

  // Strings one after the other, each with its terminator.
  function Packed(ws: seq<string>): string {
    if ws == [] then "" else Packed(ws[..|ws| - 1]) + ws[|ws| - 1] + "\0"
  }

  predicate NoNul(s: string) {
    '\0' !in s
  }

  lemma PackedOne(ws: seq<string>, w: string)
    ensures Packed(ws + [w]) == Packed(ws) + w + "\0"
  {
    assert (ws + [w])[..|ws|] == ws;
  }

  lemma {:induction false} CStringAt(before: string, w: string, after: string)
    requires NoNul(w)
    ensures CString(before + w + "\0" + after, |before|) == w
    decreases |w|
  {
    var buf := before + w + "\0" + after;
    if w == "" {
      assert buf[|before|] == '\0';
    } else {
      assert buf[|before|] == w[0];
      assert buf == (before + [w[0]]) + w[1..] + "\0" + after;
      CStringAt(before + [w[0]], w[1..], after);
    }
  }

  // Every packed string is found at its offset.
  lemma {:induction false} PackedAt(ws: seq<string>, k: nat, tail: string)
    requires k < |ws| && NoNul(ws[k])
    ensures CString(Packed(ws) + tail, |Packed(ws[..k])|) == ws[k]
    decreases |ws|
  {
    var n := |ws| - 1;
    if k == n {
      CStringAt(Packed(ws[..n]), ws[n], tail);
    } else {
      PackedAt(ws[..n], k, ws[n] + "\0" + tail);
      assert ws[..n][..k] == ws[..k];
      assert Packed(ws) + tail == Packed(ws[..n]) + (ws[n] + "\0" + tail);
    }
  }

  // ---- the rest of a line, seen from inside the loop ---------------------------------------------

  // What is still to come in the current word, and the words after it.
  function Coming(s: string, isQuoted: bool, isSpace: bool): (string, seq<string>) {
    if isQuoted then
      var (q, rest) := UpToQuote(s);
      var (w, rest1) := Word(rest);
      (q + w, Tokens(rest1))
    else if isSpace then ("", Tokens(s))
    else
      var (w, rest) := Word(s);
      (w, Tokens(rest))
  }

  // All words of the line: those finished, the current one, those to come.
  function Words(done: seq<string>, cur: string, s: string, isQuoted: bool, isSpace: bool): seq<string> {
    var (w, more) := Coming(s, isQuoted, isSpace);
    if isSpace then done + more else done + [cur + w] + more
  }

  // One character, in each state of the loop.
  lemma OneChar(done: seq<string>, cur: string, s: string, isQuoted: bool, isSpace: bool)
    requires s != "" && (isQuoted ==> !isSpace)
    ensures isQuoted && s[0] == '"' ==> Words(done, cur, s, true, false) == Words(done, cur, s[1..], false, false)
    ensures isQuoted && s[0] != '"' ==> Words(done, cur, s, true, false) == Words(done, cur + [s[0]], s[1..], true, false)
    ensures !isQuoted && IsBlank(s[0]) ==>
              Words(done, cur, s, false, isSpace) == Words(if isSpace then done else done + [cur], "", s[1..], false, true)
    ensures !isQuoted && s[0] == '"' ==>
              Words(done, cur, s, false, isSpace) == Words(done, if isSpace then "" else cur, s[1..], true, false)
    ensures !isQuoted && !IsBlank(s[0]) && s[0] != '"' ==>
              Words(done, cur, s, false, isSpace) == Words(done, (if isSpace then "" else cur) + [s[0]], s[1..], false, false)
  {
    if isQuoted {
      var (q, rest) := UpToQuote(s[1..]);
      if s[0] == '"' {
        assert "" + Word(s[1..]).0 == Word(s[1..]).0;
      } else {
        assert cur + ([s[0]] + q + Word(rest).0) == cur + [s[0]] + (q + Word(rest).0);
      }
    } else if IsBlank(s[0]) {
      assert cur + "" == cur;
    } else if s[0] == '"' {
      var w := UpToQuote(s[1..]).0 + Word(UpToQuote(s[1..]).1).0;
      assert "" + w == w;
      assert isSpace ==> done + ([w] + Coming(s[1..], true, false).1) == done + [w] + Coming(s[1..], true, false).1;
    } else {
      var w := Word(s[1..]).0;
      assert cur + ([s[0]] + w) == cur + [s[0]] + w;
      assert "" + [s[0]] + w == [s[0]] + w;
      assert isSpace ==> done + ([[s[0]] + w] + Coming(s[1..], false, false).1) == done + [[s[0]] + w] + Coming(s[1..], false, false).1;
    }
  }

  lemma NoMore(done: seq<string>, cur: string, isQuoted: bool, isSpace: bool)
    requires isQuoted ==> !isSpace
    ensures Words(done, cur, "", isQuoted, isSpace) == if isSpace then done else done + [cur]
  {
    assert UpToQuote("") == ("", "") && Word("") == ("", "") && Tokens("") == [];
    assert cur + ("" + "") == cur && cur + "" == cur;
    assert done + [] == done && done + [cur] + [] == done + [cur];
  }

  // ---- SplitCommandToArgs ----------------------------------------------------------------------------

  // Stores at the end of what is in use.
  method Put<T>(a: array<T>, n: nat, x: T) returns (next: nat)
    requires n < a.Length
    modifies a
    ensures next == n + 1 && a[..next] == old(a[..n]) + [x]
  {
    a[n] := x;
    next := n + 1;
  }

  // The block the source allocates holds ((len + 2) / 2) + 1 pointers, here offsets, and len + 2
  // characters behind them. Each write goes to one of the two parts.
  method SplitCommandToArgs(cmd: string) returns (found: bool, argc: nat, argv: array<nat>, temp: array<char>)
    requires NoNul(cmd)
    ensures fresh(argv) && fresh(temp)
    ensures found == (cmd != "")
    ensures found ==> argc == |Tokens(cmd)| <= (|cmd| + 1) / 2
    ensures found ==> argc < argv.Length && forall k | 0 <= k < argc :: CString(temp[..], argv[k]) == Tokens(cmd)[k]
  {
    hide Tokens, Word, UpToQuote, CString, Packed, Words, Coming, Laid;
    var len := |cmd|;
    argc := 0;
    if len < 1 {
      argv, temp := new nat[0], new char[0];
      return false, argc, argv, temp;
    }
    argv := new nat[(len + 2) / 2 + 1](_ => 0);
    temp := new char[len + 2](_ => '\0');
    var i, j, isQuoted, isText, isSpace := 0, 0, false, false, true;
    ghost var done: seq<string>, cur: string := [], "";
    StartOfLine(cmd);
    while i < len
      invariant 0 <= i <= len && j <= i
      invariant isText == !isSpace && (isQuoted ==> !isSpace)
      invariant Words(done, cur, cmd[i..], isQuoted, isSpace) == Tokens(cmd)
      invariant argc == |done| + (if isSpace then 0 else 1) && 2 * argc <= i + (if isSpace then 0 else 1)
      invariant isSpace ==> cur == ""
      invariant Laid(done, cur, isSpace, temp[..j], argv[..argc])
    {
      var a := cmd[i];
      ghost var buf, at := temp[..j], argv[..argc];
      OneChar(done, cur, cmd[i..], isQuoted, isSpace);
      assert cmd[i..][1..] == cmd[i + 1..];
      LaidOn(done, cur, isSpace, buf, at, a);
      if isQuoted {
        if a == '"' {
          isQuoted := false;
        } else {
          j := Put(temp, j, a);
          cur := cur + [a];
        }
      } else if a == '"' {
        cur := if isSpace then "" else cur;
        isQuoted, isText := true, true;
        if isSpace {
          argc := Put(argv, argc, j);
        }
        isSpace := false;
      } else if IsBlank(a) {
        if isText {
          j := Put(temp, j, '\0');
          done, cur := done + [cur], "";
        }
        isText, isSpace := false, true;
      } else {
        isText := true;
        if isSpace {
          argc := Put(argv, argc, j);
        }
        j := Put(temp, j, a);
        isSpace := false;
        cur := cur + [a];
      }
      i := i + 1;
    }
    assert cmd[i..] == "";
    NoMore(done, cur, isQuoted, isSpace);
    ghost var buf := temp[..j];
    temp[j] := '\0';
    argv[argc] := 0;
    found := true;
    assert temp[..] == buf + "\0" + temp[j + 1..];
    StringsFound(done, cur, isSpace, buf, temp[j + 1..], argv[..argc]);
  }

  lemma StartOfLine(cmd: string)
    ensures Words([], "", cmd[0..], false, true) == Tokens(cmd) && Laid([], "", true, "", [])
  {
    assert cmd[0..] == cmd && [] + Tokens(cmd) == Tokens(cmd);
  }

  // The words so far as they lie in the buffer, and where each begins.
  predicate Laid(done: seq<string>, cur: string, isSpace: bool, buf: string, at: seq<nat>) {
    && NoNul(cur) && (forall k | 0 <= k < |done| :: NoNul(done[k]))
    && (isSpace ==> cur == "")
    && buf == Packed(done) + cur
    && |at| == |done| + (if isSpace then 0 else 1)
    && forall k | 0 <= k < |at| :: at[k] == |Packed(if k <= |done| then done[..k] else [])|
  }

  // A character is added, a word ended or begun.
  lemma LaidOn(done: seq<string>, cur: string, isSpace: bool, buf: string, at: seq<nat>, a: char)
    requires Laid(done, cur, isSpace, buf, at) && a != '\0'
    ensures !isSpace ==> Laid(done, cur + [a], false, buf + [a], at)
    ensures !isSpace ==> Laid(done + [cur], "", true, buf + "\0", at)
    ensures isSpace ==> Laid(done, "", false, buf, at + [|buf|])
    ensures isSpace ==> Laid(done, "" + [a], false, buf + [a], at + [|buf|])
  {
    hide Packed;
    assert done[..|done|] == done;
    assert Packed(done) + cur + [a] == Packed(done) + (cur + [a]);
    PackedOne(done, cur);
    assert forall k | 0 <= k <= |done| :: (done + [cur])[..k] == done[..k];
    assert Packed(done + [cur]) + "" == Packed(done + [cur]);
    assert Packed(done) + "" == Packed(done);
  }

  lemma StringsFound(done: seq<string>, cur: string, isSpace: bool, buf: string, tail: string, at: seq<nat>)
    requires Laid(done, cur, isSpace, buf, at)
    ensures var ws := if isSpace then done else done + [cur];
            |at| == |ws| && forall k | 0 <= k < |at| :: CString(buf + "\0" + tail, at[k]) == ws[k]
  {
    hide CString;
    var ws := if isSpace then done else done + [cur];
    PackedOne(done, cur);
    forall k | 0 <= k < |at| ensures CString(buf + "\0" + tail, at[k]) == ws[k] {
      assert ws[..k] == done[..k];
      if isSpace {
        PackedAt(ws, k, "\0" + tail);
        assert Packed(done) + ("\0" + tail) == Packed(done) + cur + "\0" + tail;
      } else {
        PackedAt(ws, k, tail);
      }
    }
  }

  // ---- SplitOptionAndCommand -----------------------------------------------------------------------------

  const REGISTERED: seq<string> := [
    "version", "help", "discover", "list targets", "any", "tconn", "shell", "file send", "file recv", "fport", "rport",
    "kill", "start", "keygen", "kserver", "kdaemon", "install", "uninstall", "target mount", "hilog", "smode",
    "bugreport", "tmode", "sideload", "target boot", "jpid", "track-jpid"]

  const NEEDS_CWD: seq<string> := ["file send", "file recv", "install", "sideload"]

  // A command found: how many arguments it takes up, and its name.
  datatype Found = Found(width: nat, name: string)

  function Match(names: seq<string>, cmd: string, next: string): (f: Found)
    ensures f.width <= 2
  {
    if names == [] then Found(0, "")
    else if cmd + " " + next == names[0] then Found(2, names[0])
    else if cmd == names[0] then Found(1, names[0])
    else Match(names[1..], cmd, next)
  }

  // The argument at i, with the one after it or nothing.
  function MatchAt(argv: seq<string>, i: nat): Found
    requires i < |argv|
  {
    Match(REGISTERED, argv[i], if i == |argv| - 1 then "" else argv[i + 1])
  }

  method IsRegisterCommand(cmd: string, next: string) returns (width: nat, outCommand: string)
    ensures Found(width, outCommand) == Match(REGISTERED, cmd, next)
  {
    hide Match;
    width, outCommand := FindIn(REGISTERED, cmd, next);
  }

  method FindIn(registerCommand: seq<string>, cmd: string, next: string) returns (width: nat, outCommand: string)
    ensures Found(width, outCommand) == Match(registerCommand, cmd, next)
  {
    hide Match;
    var doubleCommand := cmd + " " + next;
    for i := 0 to |registerCommand|
      invariant Match(registerCommand, cmd, next) == Match(registerCommand[i..], cmd, next)
    {
      MatchStep(registerCommand[i..], cmd, next);
      assert registerCommand[i..][1..] == registerCommand[i + 1..];
      if doubleCommand == registerCommand[i] {
        return 2, doubleCommand;
      }
      if cmd == registerCommand[i] {
        return 1, cmd;
      }
    }
    MatchNone(cmd, next);
    return 0, "";
  }

  lemma MatchStep(names: seq<string>, cmd: string, next: string)
    requires names != []
    ensures Match(names, cmd, next) ==
            if cmd + " " + next == names[0] then Found(2, names[0])
            else if cmd == names[0] then Found(1, names[0])
            else Match(names[1..], cmd, next)
  {
  }

  lemma MatchNone(cmd: string, next: string)
    ensures Match([], cmd, next) == Found(0, "")
  {
  }

  // The working directory, with its separator at the end, goes behind the commands that need it.
  function WithCwd(command: string, cwd: Option<string>): string {
    if command in NEEDS_CWD && cwd.Some? then command + (if command != "" then " -cwd " else "-cwd ") + cwd.value else command
  }

  function Plainly(line: string, args: seq<string>): string
    decreases |args|
  {
    if args == [] then line else Plainly(Appended(line, args[0]), args[1..])
  }

  datatype Divided = Divided(option: string, command: string)

  // Arguments before the command make up the option string, those after it are quoted and joined.
  function Divide(argv: seq<string>, i: nat, option: string, cwd: Option<string>): Divided
    requires i <= |argv|
    decreases |argv| - i
  {
    if i == |argv| then Divided(option, "")
    else
      var m := MatchAt(argv, i);
      if m.width > 0 then Divided(option, Join(WithCwd(m.name, cwd), argv[Min(i + m.width, |argv|)..]))
      else Divide(argv, i + 1, Appended(option, argv[i]), cwd)
  }

  method SplitOptionAndCommand(argv: seq<string>, cwd: Option<string>) returns (outOption: string, outCommand: string)
    ensures Divided(outOption, outCommand) == Divide(argv, 0, "", cwd)
  {
    hide Match, Join, WithCwd;
    outOption, outCommand := "", "";
    var foundCommand, i := false, 0;
    while i < |argv|
      invariant !foundCommand ==> i <= |argv| && outCommand == "" && Divide(argv, 0, "", cwd) == Divide(argv, i, outOption, cwd)
      invariant foundCommand ==> Divide(argv, 0, "", cwd) == Divided(outOption, Join(outCommand, argv[Min(i, |argv|)..]))
      decreases |argv| - i
    {
      if !foundCommand {
        DivideStep(argv, i, outOption, cwd);
        var width, name := IsRegisterCommand(argv[i], if i == |argv| - 1 then "" else argv[i + 1]);
        if width > 0 {
          outCommand := name;
          foundCommand := true;
          if width == 2 {
            i := i + 1;
          }
          outCommand := AppendCwdWhenTransfer(outCommand, cwd);
          i := i + 1;
          continue;
        }
      }
      if foundCommand {
        JoinStep(outCommand, argv[i..]);
        assert argv[i..][1..] == argv[i + 1..];
        outCommand := Appended(outCommand, Quote(argv[i]));
      } else {
        outOption := Appended(outOption, argv[i]);
      }
      i := i + 1;
    }
    JoinDone(outCommand);
    assert argv[Min(i, |argv|)..] == [];
    if !foundCommand {
      DivideNone(argv, outOption, cwd);
    }
  }

  lemma DivideNone(argv: seq<string>, option: string, cwd: Option<string>)
    ensures Divide(argv, |argv|, option, cwd) == Divided(option, "")
  {
  }

  method AppendCwdWhenTransfer(command: string, cwd: Option<string>) returns (outCommand: string)
    ensures outCommand == WithCwd(command, cwd)
  {
    outCommand := command;
    if command !in NEEDS_CWD || cwd.None? {
      return;
    }
    outCommand := outCommand + (if |outCommand| > 0 then " -cwd " else "-cwd ");
    outCommand := outCommand + cwd.value;
  }

  lemma DivideStep(argv: seq<string>, i: nat, option: string, cwd: Option<string>)
    requires i < |argv|
    ensures var m := MatchAt(argv, i);
            Divide(argv, i, option, cwd) ==
            if m.width > 0 then Divided(option, Join(WithCwd(m.name, cwd), argv[Min(i + m.width, |argv|)..]))
            else Divide(argv, i + 1, Appended(option, argv[i]), cwd)
  {
  }

  lemma JoinStep(line: string, args: seq<string>)
    requires args != []
    ensures Join(line, args) == Join(Appended(line, Quote(args[0])), args[1..])
  {
  }

  lemma JoinDone(line: string)
    ensures Join(line, []) == line
  {
  }

  // ---- through both -----------------------------------------------------------------------------------------

  lemma {:induction false} DivideAt(argv: seq<string>, from: nat, i: nat, option: string, cwd: Option<string>)
    requires from <= i < |argv| && MatchAt(argv, i).width > 0
    requires forall k | from <= k < i :: MatchAt(argv, k).width == 0
    ensures var m := MatchAt(argv, i);
            Divide(argv, from, option, cwd) ==
            Divided(Plainly(option, argv[from..i]), Join(WithCwd(m.name, cwd), argv[Min(i + m.width, |argv|)..]))
    decreases i - from
  {
    hide Match, Join, WithCwd;
    if from < i {
      DivideAt(argv, from + 1, i, Appended(option, argv[from]), cwd);
      assert argv[from..i][1..] == argv[from + 1..i];
    }
  }

  // A command line divided on the host and split on the other side: what stands before the command is
  // the option string, and the arguments after it come back exactly if each survives quoting, when the
  // command with the working directory has its quotes in pairs.
  lemma ArgumentsComeBackIff(argv: seq<string>, i: nat, cwd: Option<string>)
    requires i < |argv| && MatchAt(argv, i).width > 0 && forall k | 0 <= k < i :: MatchAt(argv, k).width == 0
    requires Balanced(WithCwd(MatchAt(argv, i).name, cwd))
    ensures var m, d := MatchAt(argv, i), Divide(argv, 0, "", cwd);
            var args := argv[Min(i + m.width, |argv|)..];
            && d.option == Plainly("", argv[..i])
            && (Tokens(d.command) == Tokens(WithCwd(m.name, cwd)) + args <==> forall k | 0 <= k < |args| :: Survives(args[k]))
  {
    hide Match, Join, WithCwd, Divide, Tokens, Balanced, Plainly;
    DivideAt(argv, 0, i, "", cwd);
    assert argv[0..i] == argv[..i];
    SplitAfterJoinIff(WithCwd(MatchAt(argv, i).name, cwd), argv[Min(i + MatchAt(argv, i).width, |argv|)..]);
  }

  // Without a registered command everything is the option string.
  lemma {:induction false} NoCommand(argv: seq<string>, from: nat, option: string, cwd: Option<string>)
    requires from <= |argv| && forall k | from <= k < |argv| :: MatchAt(argv, k).width == 0
    ensures Divide(argv, from, option, cwd) == Divided(Plainly(option, argv[from..]), "")
    decreases |argv| - from
  {
    hide Match, Join, WithCwd;
    if from < |argv| {
      NoCommand(argv, from + 1, Appended(option, argv[from]), cwd);
      assert argv[from..][1..] == argv[from + 1..];
    }
  }

  // ---- the words of the command line ---------------------------------------------------------------------------

  // What is matched: the argument, or it and the next, as they were given, and nothing that is not registered.
  lemma {:induction false} MatchMeans(names: seq<string>, cmd: string, next: string)
    ensures var m := Match(names, cmd, next);
            && (m.width == 0 <==> cmd !in names && cmd + " " + next !in names)
            && (m.width == 1 ==> m.name == cmd && cmd in names)
            && (m.width == 2 ==> m.name == cmd + " " + next && m.name in names)
  {
    if names != [] {
      MatchMeans(names[1..], cmd, next);
      assert names == [names[0]] + names[1..];
    }
  }

  lemma RegisteredIsPlain(name: string)
    requires name in REGISTERED
    ensures name != "" && Unquoted(name) && Balanced(name)
  {
    assert forall k | 0 <= k < |REGISTERED| :: REGISTERED[k] != "" && Unquoted(REGISTERED[k]);
    NoQuotes(name);
  }

  // Names of two words are split, all others are one word.
  lemma TwoWords(a: string, b: string)
    requires a != "" && b != "" && Unquoted(a) && Unquoted(b) && NoBlanks(a) && NoBlanks(b)
    ensures Tokens(a + " " + b) == [a, b]
  {
    BlanksSeparate(a, ' ', b);
    BlanksSeparate(b, ' ', "");
    assert a + [' '] + b == a + " " + b;
  }

  lemma {:induction false} JoinExtends(line: string, args: seq<string>)
    ensures line <= Join(line, args)
    decreases |args|
  {
    if args != [] {
      JoinExtends(Appended(line, Quote(args[0])), args[1..]);
    }
  }

  // Behind the four commands that need it, and only if there is one.
  predicate GetsDirectory(name: string, cwd: Option<string>) {
    cwd.Some? && (name == "file send" || name == "file recv" || name == "install" || name == "sideload")
  }

  function CommandWords(name: string, cwd: Option<string>): seq<string> {
    Tokens(name) + (if GetsDirectory(name, cwd) then ["-cwd"] + Tokens(cwd.value) else [])
  }

  lemma CwdWords(name: string, dir: string)
    requires Balanced(name) && Balanced(dir)
    ensures Tokens(name + " -cwd " + dir) == Tokens(name) + ["-cwd"] + Tokens(dir)
    ensures Balanced(name + " -cwd " + dir)
  {
    hide Tokens, Quotes, Word, UpToQuote;
    var line := name + " " + "-cwd";
    PlainTokens("-cwd");
    TokensSplit(name, "-cwd");
    NoQuotes(" -cwd ");
    QuotesConcat(name, " -cwd ");
    QuotesConcat(name + " -cwd ", dir);
    NoQuotes(" -cwd");
    QuotesConcat(name, " -cwd");
    assert name + " -cwd" == line;
    TokensSplit(line, dir);
    assert name + " -cwd " + dir == line + " " + dir;
  }

  lemma DirectoryWords(name: string, cwd: Option<string>)
    requires name != "" && Balanced(name) && (cwd.Some? ==> Balanced(cwd.value))
    ensures name <= WithCwd(name, cwd) && Balanced(WithCwd(name, cwd))
    ensures Tokens(WithCwd(name, cwd)) == CommandWords(name, cwd)
  {
    hide Tokens, Balanced;
    if GetsDirectory(name, cwd) {
      CwdWords(name, cwd.value);
      Assoc(Tokens(name), ["-cwd"], Tokens(cwd.value));
    } else {
      assert Tokens(name) + [] == Tokens(name);
    }
  }

  // The name with its directory and the arguments joined behind it.
  lemma LineWords(name: string, cwd: Option<string>, args: seq<string>)
    requires name != "" && Balanced(name) && (cwd.Some? ==> Balanced(cwd.value))
    ensures name <= Join(WithCwd(name, cwd), args)
    ensures Tokens(Join(WithCwd(name, cwd), args)) == CommandWords(name, cwd) + args
            <==> forall k | 0 <= k < |args| :: Survives(args[k])
  {
    hide Join, WithCwd, Tokens, Balanced, CommandWords;
    DirectoryWords(name, cwd);
    JoinExtends(WithCwd(name, cwd), args);
    SplitAfterJoinIff(WithCwd(name, cwd), args);
  }

  // The command line begins with the name of the first registered command among the arguments. Its words
  // are those of the name, then -cwd and the words of the directory exactly for the four commands that
  // move files, then the arguments behind the name, these exactly if each survives quoting.
  lemma CommandLineWords(argv: seq<string>, i: nat, cwd: Option<string>)
    requires i < |argv| && MatchAt(argv, i).width > 0 && forall k | 0 <= k < i :: MatchAt(argv, k).width == 0
    requires cwd.Some? ==> Balanced(cwd.value)
    ensures var m, d := MatchAt(argv, i), Divide(argv, 0, "", cwd);
            var args := argv[Min(i + m.width, |argv|)..];
            && m.name in REGISTERED && m.name <= d.command
            && (m.width == 1 ==> m.name == argv[i]) && (m.width == 2 && i + 1 < |argv| ==> m.name == argv[i] + " " + argv[i + 1])
            && (Tokens(d.command) == CommandWords(m.name, cwd) + args <==> forall k | 0 <= k < |args| :: Survives(args[k]))
  {
    hide Match, Join, WithCwd, Divide, Tokens, Balanced, Plainly, CommandWords, Survives;
    var m := MatchAt(argv, i);
    MatchMeans(REGISTERED, argv[i], if i == |argv| - 1 then "" else argv[i + 1]);
    RegisteredIsPlain(m.name);
    LineWords(m.name, cwd, argv[Min(i + m.width, |argv|)..]);
    DivideAt(argv, 0, i, "", cwd);
    assert argv[0..i] == argv[..i];
  }
}
