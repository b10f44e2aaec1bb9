/** The words of a command line, as src/common/base.cpp splits them and src/host/main.cpp joins them. */
module Tokenizer {
  import opened Bytes

  predicate IsBlank(a: char) {
    a == ' ' || a == '\t' || a == '\n' || a == '\r'
  }

  // Text up to a double quote, and what follows the quote.
  function UpToQuote(s: string): (r: (string, string))
    ensures |r.1| <= |s|
  {
    if s == "" then ("", "")
    else if s[0] == '"' then ("", s[1..])
    else
      var (q, rest) := UpToQuote(s[1..]);
      ([s[0]] + q, rest)
  }

  // A word up to a blank outside quotes, the quotes dropped.
  function Word(s: string): (r: (string, string))
    ensures |r.1| <= |s|
    ensures s != "" && !IsBlank(s[0]) ==> |r.1| < |s|
    decreases |s|
  {
    if s == "" || IsBlank(s[0]) then ("", s)
    else if s[0] == '"' then
      var (q, rest) := UpToQuote(s[1..]);
      var (w, rest1) := Word(rest);
      (q + w, rest1)
    else
      var (w, rest) := Word(s[1..]);
      ([s[0]] + w, rest)
  }

  function Tokens(s: string): seq<string>
    decreases |s|
  {
    if s == "" then []
    else if IsBlank(s[0]) then Tokens(s[1..])
    else
      var (w, rest) := Word(s);
      [w] + Tokens(rest)
  }

  // ---- joining ---------------------------------------------------------------------------

  const MAX_SIZE_IOBUF: nat := 15360

  // StringFormat prints into a buffer of this size with its terminator; what does not fit is nothing.
  function StringFormat(text: string): string {
    if |text| <= MAX_SIZE_IOBUF - 1 then text else ""
  }

  // One argument as SplitOptionAndCommand appends it.
  function Quote(arg: string): string {
    if ' ' in arg then StringFormat("\"" + arg + "\"") else arg
  }

  function Appended(line: string, word: string): string {
    line + (if line != "" then " " else "") + word
  }

  function Join(line: string, args: seq<string>): string
    decreases |args|
  {
    if args == [] then line else Join(Appended(line, Quote(args[0])), args[1..])
  }

  // What survives joining and splitting.
  predicate Survives(arg: string) {
    && arg != "" && '"' !in arg
    && ((exists i :: 0 <= i < |arg| && IsBlank(arg[i])) ==> ' ' in arg)
    && (' ' in arg ==> |arg| + 2 <= MAX_SIZE_IOBUF - 1)
  }

  predicate Unquoted(s: string) {
    '"' !in s
  }

  // ---- quotes in pairs ----------------------------------------------------------------------

  function Quotes(s: string): nat {
    if s == "" then 0 else (if s[0] == '"' then 1 else 0) + Quotes(s[1..])
  }

  predicate Balanced(s: string) {
    Quotes(s) % 2 == 0
  }

  lemma {:induction false} QuotesConcat(a: string, b: string)
    ensures Quotes(a + b) == Quotes(a) + Quotes(b)
  {
    if a == "" {
      assert a + b == b;
    } else {
      assert (a + b)[1..] == a[1..] + b;
      QuotesConcat(a[1..], b);
    }
  }

  lemma {:induction false} NoQuotes(s: string)
    requires Unquoted(s)
    ensures Quotes(s) == 0
  {
    if s != "" {
      NoQuotes(s[1..]);
    }
  }

  // An odd number of quotes ahead: the next one closes.
  lemma {:induction false} UpToQuoteSplit(s: string, tail: string)
    requires Quotes(s) % 2 == 1
    ensures UpToQuote(s + tail) == (UpToQuote(s).0, UpToQuote(s).1 + tail)
    ensures Balanced(UpToQuote(s).1)
    decreases |s|
  {
    if s[0] == '"' {
      assert (s + tail)[1..] == s[1..] + tail;
    } else {
      assert (s + tail)[1..] == s[1..] + tail;
      UpToQuoteSplit(s[1..], tail);
    }
  }

  lemma {:induction false} WordSplit(s: string, tail: string)
    requires Balanced(s) && tail != "" && IsBlank(tail[0])
    ensures Word(s + tail) == (Word(s).0, Word(s).1 + tail) && Balanced(Word(s).1)
    decreases |s|
  {
    hide UpToQuote;
    if s == "" {
      assert s + tail == tail;
    } else if !IsBlank(s[0]) {
      assert (s + tail)[1..] == s[1..] + tail;
      if s[0] == '"' {
        UpToQuoteSplit(s[1..], tail);
        WordSplit(UpToQuote(s[1..]).1, tail);
      } else {
        WordSplit(s[1..], tail);
      }
    }
  }

  // A blank outside quotes separates.
  lemma {:induction false} TokensSplit(s: string, rest: string)
    requires Balanced(s)
    ensures Tokens(s + " " + rest) == Tokens(s) + Tokens(rest)
    decreases |s|
  {
    hide Word;
    var tail := " " + rest;
    assert s + " " + rest == s + tail && tail[1..] == rest;
    if s == "" {
      assert s + tail == tail;
    } else {
      assert (s + tail)[1..] == s[1..] + tail;
      if IsBlank(s[0]) {
        TokensSplit(s[1..], rest);
        assert s[1..] + " " + rest == s[1..] + tail;
      } else {
        WordSplit(s, tail);
        TokensSplit(Word(s).1, rest);
        assert Word(s).1 + " " + rest == Word(s).1 + tail;
      }
    }
  }

  lemma TokensAppended(line: string, word: string)
    requires Balanced(line)
    ensures Tokens(Appended(line, word)) == Tokens(line) + Tokens(word)
  {
    if line == "" {
      assert line + "" + word == word;
    } else {
      TokensSplit(line, word);
    }
  }

  // ---- what words look like --------------------------------------------------------------------

  lemma {:induction false} UpToQuoteHasNone(s: string)
    ensures Unquoted(UpToQuote(s).0)
  {
    if s != "" && s[0] != '"' {
      UpToQuoteHasNone(s[1..]);
    }
  }

  lemma {:induction false} WordHasNone(s: string)
    ensures Unquoted(Word(s).0)
    decreases |s|
  {
    if s != "" && !IsBlank(s[0]) {
      if s[0] == '"' {
        UpToQuoteHasNone(s[1..]);
        WordHasNone(UpToQuote(s[1..]).1);
      } else {
        WordHasNone(s[1..]);
      }
    }
  }

  // No word has a double quote in it.
  lemma {:induction false} TokensHaveNone(s: string)
    ensures forall k | 0 <= k < |Tokens(s)| :: Unquoted(Tokens(s)[k])
    decreases |s|
  {
    if s != "" {
      if IsBlank(s[0]) {
        TokensHaveNone(s[1..]);
      } else {
        WordHasNone(s);
        TokensHaveNone(Word(s).1);
      }
    }
  }

  predicate NoBlanks(s: string) {
    forall i | 0 <= i < |s| :: !IsBlank(s[i])
  }

  lemma {:induction false} PlainWord(s: string)
    requires Unquoted(s)
    ensures NoBlanks(Word(s).0) && Unquoted(Word(s).1) && Unquoted(Word(s).0)
    ensures s != "" && !IsBlank(s[0]) ==> Word(s).0 != ""
    ensures NoBlanks(s) ==> Word(s) == (s, "")
    decreases |s|
  {
    if s != "" && !IsBlank(s[0]) {
      PlainWord(s[1..]);
      assert s == [s[0]] + s[1..];
    }
  }

  // Text without quotes splits at its blanks.
  lemma {:induction false} PlainTokens(s: string)
    requires Unquoted(s)
    ensures forall k | 0 <= k < |Tokens(s)| :: Survives(Tokens(s)[k])
    ensures s != "" && NoBlanks(s) ==> Tokens(s) == [s]
    decreases |s|
  {
    if s != "" {
      if IsBlank(s[0]) {
        PlainTokens(s[1..]);
      } else {
        PlainWord(s);
        PlainTokens(Word(s).1);
        assert NoBlanks(s) ==> Tokens("") == [];
      }
    }
  }

  lemma {:induction false} UpToQuoteAll(s: string)
    requires Unquoted(s)
    ensures UpToQuote(s + "\"") == (s, "")
  {
    if s == "" {
      assert s + "\"" == "\"";
    } else {
      assert (s + "\"")[1..] == s[1..] + "\"";
      UpToQuoteAll(s[1..]);
      assert s == [s[0]] + s[1..];
    }
  }

  // An argument without quotes joined on its own.
  lemma QuoteTokens(arg: string)
    requires Unquoted(arg)
    ensures forall k | 0 <= k < |Tokens(Quote(arg))| :: Survives(Tokens(Quote(arg))[k])
    ensures Survives(arg) ==> Tokens(Quote(arg)) == [arg]
    ensures Balanced(Quote(arg))
  {
    NoQuotes(arg);
    if ' ' in arg && |arg| + 2 <= MAX_SIZE_IOBUF - 1 {
      var s := Quote(arg);
      assert s[1..] == arg + "\"";
      UpToQuoteAll(arg);
      assert Word("") == ("", "") && arg + "" == arg;
      assert Tokens(s) == [arg] + Tokens("");
      QuotesConcat("\"" + arg, "\"");
      QuotesConcat("\"", arg);
      assert Quotes("\"") == 1;
    } else if ' ' !in arg {
      PlainTokens(arg);
    }
  }

  lemma {:induction false} JoinTokens(line: string, args: seq<string>) returns (words: seq<string>)
    requires Balanced(line) && forall k | 0 <= k < |args| :: Unquoted(args[k])
    ensures Tokens(Join(line, args)) == Tokens(line) + words
    ensures forall k | 0 <= k < |words| :: Survives(words[k])
    ensures (forall k | 0 <= k < |args| :: Survives(args[k])) ==> words == args
    decreases |args|
  {
    hide Tokens, Quote, Survives, Unquoted, Balanced;
    if args == [] {
      words := [];
      assert Tokens(line) + [] == Tokens(line);
    } else {
      QuoteTokens(args[0]);
      TokensAppended(line, Quote(args[0]));
      AppendedBalanced(line, Quote(args[0]));
      var more := JoinTokens(Appended(line, Quote(args[0])), args[1..]);
      var first := Tokens(Quote(args[0]));
      words := first + more;
      assert Tokens(line) + first + more == Tokens(line) + words;
      assert [args[0]] + args[1..] == args;
    }
  }

  lemma AppendedBalanced(line: string, word: string)
    requires Balanced(line) && Balanced(word)
    ensures Balanced(Appended(line, word))
  {
    var gap := if line != "" then " " else "";
    QuotesConcat(line + gap, word);
    QuotesConcat(line, gap);
    assert Quotes(gap) == 0;
  }

  // Splitting what was joined behind a line with its quotes in pairs gives the words of the line and
  // the arguments back exactly if every argument is not empty, has no double quote, has a space if it
  // has a tab, a carriage return or a line feed, and is no longer than 15357 characters if it has a space.
  lemma SplitAfterJoinIff(line: string, args: seq<string>)
    requires Balanced(line)
    ensures Tokens(Join(line, args)) == Tokens(line) + args <==> forall k | 0 <= k < |args| :: Survives(args[k])
  {
    hide Tokens, Join, Balanced;
    if Tokens(Join(line, args)) == Tokens(line) + args {
      TokensHaveNone(Join(line, args));
      forall k | 0 <= k < |args| ensures Unquoted(args[k]) {
        assert args[k] == Tokens(Join(line, args))[|Tokens(line)| + k];
      }
      var words := JoinTokens(line, args);
      SamePrefix(Tokens(line), words, args);
    } else if forall k | 0 <= k < |args| :: Survives(args[k]) {
      var words := JoinTokens(line, args);
    }
  }

  lemma SplitOfJoinIff(args: seq<string>)
    ensures Tokens(Join("", args)) == args <==> forall k | 0 <= k < |args| :: Survives(args[k])
  {
    hide Join, Survives, Tokens;
    Nothing();
    SplitAfterJoinIff("", args);
    assert [] + args == args;
  }

  lemma Nothing()
    ensures Tokens("") == [] && Balanced("")
  {
  }

  // What separates, seen from outside: between other characters than these four and the double quote, each
  // of the four ends a word, at the front they are skipped, and nothing else splits.
  lemma BlanksSeparate(w: string, c: char, rest: string)
    requires w != "" && forall i | 0 <= i < |w| :: w[i] !in {' ', '\t', '\n', '\r', '"'}
    requires c in {' ', '\t', '\n', '\r'}
    ensures Tokens(w) == [w]
    ensures Tokens(w + [c] + rest) == [w] + Tokens(rest)
    ensures Tokens([c] + rest) == Tokens(rest)
  {
    hide Word;
    PlainTokens(w);
    PlainWord(w);
    NoQuotes(w);
    var tail := [c] + rest;
    assert tail[1..] == rest && w + [c] + rest == w + tail;
    WordSplit(w, tail);
    assert "" + tail == tail && (w + tail)[0] == w[0];
  }

  predicate NoSeparator(s: string) {
    forall i | 0 <= i < |s| :: s[i] !in {' ', '\t', '\n', '\r', '"'}
  }

  // A quoted part belongs to the word around it, blanks and all; an empty one makes an empty word.
  lemma QuotedPart(a: string, q: string, b: string)
    requires NoSeparator(a) && Unquoted(q) && NoSeparator(b)
    ensures Tokens(a + "\"" + q + "\"" + b) == [a + q + b]
  {
    hide Tokens;
    var s := a + "\"" + q + "\"" + b;
    QuotedWord(a, q, b);
    assert s != "" && !IsBlank(s[0]) by {
      if a == "" {
        assert s[0] == '"';
      } else {
        assert s[0] == a[0];
      }
    }
    OneWord(s, a + q + b);
  }

  lemma OneWord(s: string, w: string)
    requires s != "" && !IsBlank(s[0]) && Word(s) == (w, "")
    ensures Tokens(s) == [w]
  {
    assert Tokens("") == [];
  }

  lemma {:induction false} QuotedWord(a: string, q: string, b: string)
    requires NoSeparator(a) && Unquoted(q) && NoSeparator(b)
    ensures Word(a + "\"" + q + "\"" + b) == (a + q + b, "")
    decreases |a|
  {
    var s := a + "\"" + q + "\"" + b;
    if a == "" {
      assert s[1..] == q + "\"" + b;
      UpToQuoteOf(q, b);
      assert Unquoted(b) && NoBlanks(b);
      PlainWord(b);
      assert "" + q + b == q + b;
    } else {
      assert s[0] == a[0] && s[1..] == a[1..] + "\"" + q + "\"" + b;
      QuotedWord(a[1..], q, b);
      assert [a[0]] + (a[1..] + q + b) == a + q + b;
    }
  }

  lemma {:induction false} UpToQuoteOf(q: string, b: string)
    requires Unquoted(q)
    ensures UpToQuote(q + "\"" + b) == (q, b)
  {
    var s := q + "\"" + b;
    if q == "" {
      assert s == "\"" + b && s[1..] == b;
    } else {
      assert s[1..] == q[1..] + "\"" + b;
      UpToQuoteOf(q[1..], b);
      assert [q[0]] + q[1..] == q;
    }
  }

  // A quote that is never closed runs to the end of the line.
  lemma {:induction false} UnclosedQuote(q: string)
    requires Unquoted(q)
    ensures Tokens("\"" + q) == [q]
  {
    var s := "\"" + q;
    assert s[1..] == q;
    UpToEnd(q);
    assert Word("") == ("", "") && q + "" == q;
    OneWord(s, q);
  }

  lemma {:induction false} UpToEnd(q: string)
    requires Unquoted(q)
    ensures UpToQuote(q) == (q, "")
  {
    if q != "" {
      UpToEnd(q[1..]);
      assert [q[0]] + q[1..] == q;
    }
  }

  // A longer argument with a space leaves no word behind, whatever stands before it.
  lemma LongArgumentIsLost(line: string, arg: string)
    requires Balanced(line) && ' ' in arg && |arg| + 2 > MAX_SIZE_IOBUF - 1
    ensures Tokens(Join(line, [arg])) == Tokens(line)
    ensures !Survives(arg)
  {
    hide Tokens, Balanced;
    Nothing();
    TokensAppended(line, "");
    assert [arg][1..] == [];
    assert Join(line, [arg]) == Join(Appended(line, ""), []) == Appended(line, "");
    assert Tokens(line) + [] == Tokens(line);
  }

  function Spaces(n: nat): string {
    seq(n, _ => ' ')
  }

  // At the limit: 15357 spaces come back, one more is lost.
  lemma LongestArgument()
    ensures Tokens(Join("", [Spaces(15357)])) == [Spaces(15357)]
    ensures Tokens(Join("", [Spaces(15358)])) == []
  {
    hide Tokens, Join;
    Nothing();
    assert Spaces(15357)[0] == ' ' && Spaces(15358)[0] == ' ';
    assert Survives(Spaces(15357));
    SplitOfJoinIff([Spaces(15357)]);
    LongArgumentIsLost("", Spaces(15358));
  }
}
