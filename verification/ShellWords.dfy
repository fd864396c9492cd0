/**
 Command lines printed for a POSIX shell, and read back: the three quoters of the
 repository, the shell's own tokenising of quoted words (sections 2.2.1, 2.2.2 and
 2.3 of the Shell Command Language chapter of POSIX.1-2017), and the repository's
 best-effort tokenizer of recorded commands.
 */
module ShellWords {
  import opened Options
  import opened Text

  // ---------- The shell's side ----------

  /** Characters that mean something to a shell when not quoted.  A text with one of
      them is not a plain list of words. */
  predicate IsSpecial(c: char) {
    c in {'|', '&', ';', '<', '>', '(', ')', '$', '`', '"', '\n', '*', '?', '[', ']', '#', '~', '!', '{', '}', '^'}
  }

  predicate IsBlank(c: char) {
    c == ' ' || c == '\t'
  }

  datatype Mode = Plain | Single | Escaped

  /** The word being read, if one has started, and the words before it. */
  datatype Lexer = Lexer(mode: Mode, word: Option<string>, words: seq<string>)

  const START := Lexer(Plain, None, [])

  function Read(word: Option<string>): string {
    if word.Some? then word.value else ""
  }

  function Finish(word: Option<string>, words: seq<string>): seq<string> {
    if word.Some? then words + [word.value] else words
  }

  /** One character; None where the text is not a plain list of words. */
  function LexChar(l: Lexer, c: char): Option<Lexer> {
    match l.mode
    case Plain =>
      if c == '\'' then Some(l.(mode := Single, word := Some(Read(l.word))))
      else if c == '\\' then Some(l.(mode := Escaped))
      else if IsBlank(c) then Some(Lexer(Plain, None, Finish(l.word, l.words)))
      else if IsSpecial(c) then None
      else Some(l.(word := Some(Read(l.word) + [c])))
    case Single =>
      if c == '\'' then Some(l.(mode := Plain)) else Some(l.(word := Some(Read(l.word) + [c])))
    case Escaped =>
      if c == '\n' then Some(l.(mode := Plain))
      else Some(l.(mode := Plain, word := Some(Read(l.word) + [c])))
  }

  function LexAll(l: Lexer, s: string): Option<Lexer>
    decreases |s|
  {
    if s == "" then Some(l) else
      var next := LexChar(l, s[0]);
      if next.None? then None else LexAll(next.value, s[1..])
  }

  /** The words a shell reads in `s`, when `s` is a plain list of words. */
  function PosixWords(s: string): Option<seq<string>> {
    var l := LexAll(START, s);
    if l.Some? && l.value.mode == Plain then Some(Finish(l.value.word, l.value.words)) else None
  }

  lemma {:induction false} LexConcat(l: Lexer, a: string, b: string)
    ensures LexAll(l, a + b) == var m := LexAll(l, a); if m.None? then None else LexAll(m.value, b)
    decreases |a|
  {
    if a == "" {
      assert a + b == b;
    } else {
      assert (a + b)[1..] == a[1..] + b;
      var next := LexChar(l, a[0]);
      if next.Some? {
        LexConcat(next.value, a[1..], b);
      }
    }
  }

  lemma LexCharPrefix(l: Lexer, p: seq<string>, c: char)
    ensures LexChar(l.(words := p + l.words), c) ==
      var m := LexChar(l, c); if m.None? then None else Some(m.value.(words := p + m.value.words))
  {
    hide IsSpecial;
    assert p + l.words + [Read(l.word)] == p + (l.words + [Read(l.word)]);
  }

  /** Words already read have no influence on those that follow. */
  lemma {:induction false} LexPrefix(l: Lexer, p: seq<string>, s: string)
    ensures LexAll(l.(words := p + l.words), s) ==
      var m := LexAll(l, s); if m.None? then None else Some(m.value.(words := p + m.value.words))
    decreases |s|
  {
    hide LexChar;
    if s != "" {
      LexCharPrefix(l, p, s[0]);
      var next := LexChar(l, s[0]);
      if next.Some? {
        LexPrefix(next.value, p, s[1..]);
      }
    }
  }

  lemma PlainChar(l: Lexer, c: char)
    requires l.mode == Plain
    ensures c in " \t" ==> LexChar(l, c) == Some(START.(words := Finish(l.word, l.words)))
    ensures c in "|&;<>()$`\"\n*?[]#~!{}^" ==> LexChar(l, c) == None
  {
    hide Finish;
    if c in "|&;<>()$`\"\n*?[]#~!{}^" {
      SpecialListed(c);
    }
  }

  lemma SpecialListed(c: char)
    requires c in "|&;<>()$`\"\n*?[]#~!{}^"
    ensures IsSpecial(c) && !IsBlank(c) && c != '\'' && c != '\\'
  {
  }

  lemma FinishAfter(p: seq<string>, l: Lexer)
    ensures Finish(l.word, p + l.words) == p + Finish(l.word, l.words)
  {
    assert l.word.Some? ==> p + l.words + [l.word.value] == p + (l.words + [l.word.value]);
  }

  /** What the reader is: behind a plain list of words a blank starts the next word, and any
      of the listed characters, unquoted, means that the whole is no plain list. */
  lemma PosixWordsAre(a: string, c: char, b: string)
    requires PosixWords(a).Some?
    ensures PosixWords("") == Some([])
    ensures c in " \t" ==>
      PosixWords(a + [c] + b) ==
        (if PosixWords(b).None? then None else Some(PosixWords(a).value + PosixWords(b).value))
    ensures c in "|&;<>()$`\"\n*?[]#~!{}^" ==> PosixWords(a + [c] + b) == None
  {
    hide LexAll, LexChar, Finish;
    LexNothing(START);
    FinishNothing();
    var l := LexAll(START, a).value;
    LexConcat(START, a + [c], b);
    LexConcat(START, a, [c]);
    LexOne(l, c);
    PlainChar(l, c);
    var words := Finish(l.word, l.words);
    assert words + [] == words;
    LexPrefix(START, words, b);
    var m := LexAll(START, b);
    if m.Some? {
      FinishAfter(words, m.value);
    }
  }

  lemma FinishNothing()
    ensures Finish(None, []) == []
  {
  }

  lemma LexNothing(l: Lexer)
    ensures LexAll(l, "") == Some(l)
  {
  }

  lemma LexOne(l: Lexer, c: char)
    ensures LexAll(l, [c]) == LexChar(l, c)
  {
    hide LexChar;
    assert [c][1..] == "";
    if LexChar(l, c).Some? {
      LexNothing(LexChar(l, c).value);
    }
  }

  // ---------- The quoters ----------

  function Escape(w: string): string {
    if w == "" then ""
    else (if w[0] == '\'' then "'\\''" else [w[0]]) + Escape(w[1..])
  }

  /** Between single quotes, each quote inside closed, escaped and reopened. */
  function SingleQuoted(w: string): string {
    "'" + Escape(w) + "'"
  }

  predicate IsAlnum(c: char) {
    'a' <= c <= 'z' || 'A' <= c <= 'Z' || '0' <= c <= '9'
  }

  const RUST_SAFE: set<char> := {'_', '-', '.', '/', ':', '=', '@', '+', ','}
  const JS_SAFE: set<char> := {'_', '.', ',', ':', '@', '%', '+', '=', '/', '-'}

  predicate AllIn(w: string, extra: set<char>) {
    forall i :: 0 <= i < |w| ==> IsAlnum(w[i]) || w[i] in extra
  }

  /** `shell_word` of src/budget.rs. */
  function ShellWord(w: string): string {
    if w != "" && AllIn(w, RUST_SAFE) then w else SingleQuoted(w)
  }

  /** `shellQuoteArg` of cg-answer.js. */
  function ShellQuoteArg(w: string): string {
    if w != "" && AllIn(w, JS_SAFE) then w else SingleQuoted(w)
  }

  /** `shellQuote` of adopt.js. */
  function ShellQuote(w: string): string {
    SingleQuoted(w)
  }

  function MapWords(quote: string -> string, ws: seq<string>): (r: seq<string>)
    ensures |r| == |ws| && forall i :: 0 <= i < |ws| ==> r[i] == quote(ws[i])
  {
    if ws == [] then [] else [quote(ws[0])] + MapWords(quote, ws[1..])
  }

  /** `NextCommand`'s printed form. */
  function Display(words: seq<string>): string {
    JoinQuoted(ShellWord, words)
  }

  /** `formatCgCommand`. */
  function FormatCgCommand(args: seq<string>, invocation: string): string {
    invocation + " " + JoinQuoted(ShellQuoteArg, args)
  }

  function AdoptCommand(script: string): string {
    "node " + ShellQuote(script) + " adopt"
  }

  // ---------- Every quoted word is read back ----------

  lemma {:induction false} EscapeRead(l: Lexer, w: string)
    requires l.mode == Single
    ensures LexAll(l, Escape(w)) == Some(l.(word := if w == "" then l.word else Some(Read(l.word) + w)))
    decreases |w|
  {
    if w != "" {
      var t := Read(l.word);
      var next := l.(word := Some(t + [w[0]]));
      var head := if w[0] == '\'' then "'\\''" else [w[0]];
      assert LexAll(l, head) == Some(next) by {
        if w[0] == '\'' {
          QuoteRead(l);
        } else {
          LexOne(l, w[0]);
        }
      }
      LexConcat(l, head, Escape(w[1..]));
      EscapeRead(next, w[1..]);
      assert t + [w[0]] + w[1..] == t + w;
      assert w[1..] == "" ==> t + [w[0]] == t + w;
    }
  }

  /** Close, an escaped quote, reopen. */
  lemma QuoteRead(l: Lexer)
    requires l.mode == Single
    ensures LexAll(l, "'\\''") == Some(l.(word := Some(Read(l.word) + "'")))
  {
    var l1 := l.(mode := Plain);
    var l2 := l.(mode := Escaped);
    var l3 := l.(mode := Plain, word := Some(Read(l.word) + "'"));
    var l4 := l.(word := Some(Read(l.word) + "'"));
    LexOne(l3, '\'');
    LexOne(l2, '\'');
    LexOne(l1, '\\');
    LexOne(l, '\'');
    LexConcat(l2, "'", "'");
    LexConcat(l1, "\\", "''");
    LexConcat(l, "'", "\\''");
    assert "'\\''" == "'" + ("\\" + ("'" + "'"));
  }

  lemma SingleQuotedRead(l: Lexer, w: string)
    requires l.mode == Plain
    ensures LexAll(l, SingleQuoted(w)) == Some(l.(word := Some(Read(l.word) + w)))
  {
    var inside := l.(mode := Single, word := Some(Read(l.word)));
    LexOne(l, '\'');
    EscapeRead(inside, w);
    var closing := inside.(word := Some(Read(l.word) + w));
    assert w == "" ==> Read(l.word) + w == Read(l.word);
    LexOne(closing, '\'');
    LexConcat(l, "'" + Escape(w), "'");
    LexConcat(l, "'", Escape(w));
  }

  /** A bare word: no character a shell would treat specially. */
  predicate Bare(w: string) {
    forall i :: 0 <= i < |w| ==> w[i] != '\'' && w[i] != '\\' && !IsBlank(w[i]) && !IsSpecial(w[i])
  }

  lemma {:induction false} BareRead(l: Lexer, w: string)
    requires l.mode == Plain && Bare(w)
    ensures LexAll(l, w) == Some(l.(word := if w == "" then l.word else Some(Read(l.word) + w)))
    decreases |w|
  {
    hide IsSpecial;
    if w != "" {
      var t := Read(l.word);
      BareRead(l.(word := Some(t + [w[0]])), w[1..]);
      assert t + [w[0]] + w[1..] == t + w;
      assert w[1..] == "" ==> t + [w[0]] == t + w;
    }
  }

  /** A word of other characters than those, blanks, quotes and the backslash is read as it is. */
  lemma BareWordRead(w: string)
    requires w != "" && forall i :: 0 <= i < |w| ==> w[i] !in " \t'\\" && w[i] !in "|&;<>()$`\"\n*?[]#~!{}^"
    ensures PosixWords(w) == Some([w])
  {
    hide LexAll, IsSpecial;
    forall i | 0 <= i < |w|
      ensures !IsBlank(w[i]) && !IsSpecial(w[i]) && w[i] != '\'' && w[i] != '\\'
    {
      OrdinaryChar(w[i]);
    }
    BareRead(START, w);
    assert "" + w == w;
    assert [] + [w] == [w];
  }

  lemma OrdinaryChar(c: char)
    requires c !in " \t'\\" && c !in "|&;<>()$`\"\n*?[]#~!{}^"
    ensures !IsBlank(c) && !IsSpecial(c) && c != '\'' && c != '\\'
  {
    assert " \t'\\"[0] == ' ' && " \t'\\"[1] == '\t' && " \t'\\"[2] == '\'' && " \t'\\"[3] == '\\';
  }

  lemma SafeCharIsBare(c: char)
    requires IsAlnum(c) || c in RUST_SAFE || c in JS_SAFE
    ensures c != '\'' && c != '\\' && !IsBlank(c) && !IsSpecial(c)
  {
  }

  lemma SafeIsBare(w: string, extra: set<char>)
    requires AllIn(w, extra) && extra <= RUST_SAFE + JS_SAFE
    ensures Bare(w)
  {
    hide IsSpecial, IsAlnum;
    forall i | 0 <= i < |w|
      ensures w[i] != '\'' && w[i] != '\\' && !IsBlank(w[i]) && !IsSpecial(w[i])
    {
      SafeCharIsBare(w[i]);
    }
  }

  /** The quoters leave a word as it is exactly when it is not empty and made of letters,
      digits and the listed marks. */
  lemma BareIff(w: string)
    ensures ShellWord(w) == w <==> w != "" && forall i :: 0 <= i < |w| ==>
      'a' <= w[i] <= 'z' || 'A' <= w[i] <= 'Z' || '0' <= w[i] <= '9' || w[i] in "_-./:=@+,"
    ensures ShellQuoteArg(w) == w <==> w != "" && forall i :: 0 <= i < |w| ==>
      'a' <= w[i] <= 'z' || 'A' <= w[i] <= 'Z' || '0' <= w[i] <= '9' || w[i] in "_.,:@%+=/-"
  {
    hide SingleQuoted, AllIn;
    SafeSets();
    AllInIs(w, RUST_SAFE, "_-./:=@+,");
    AllInIs(w, JS_SAFE, "_.,:@%+=/-");
    QuotedLonger(w);
  }

  lemma AllInIs(w: string, extra: set<char>, marks: string)
    requires forall c :: c in extra <==> c in marks
    ensures AllIn(w, extra) <==> forall i :: 0 <= i < |w| ==> IsAlnum(w[i]) || w[i] in marks
  {
    hide IsAlnum;
  }

  lemma QuotedLonger(w: string)
    ensures SingleQuoted(w) != w
  {
    hide Escape;
    EscapeLonger(w);
    assert |SingleQuoted(w)| == |Escape(w)| + 2;
  }

  lemma SafeSets()
    ensures forall c :: c in RUST_SAFE <==> c in "_-./:=@+,"
    ensures forall c :: c in JS_SAFE <==> c in "_.,:@%+=/-"
  {
  }

  lemma {:induction false} EscapeLonger(w: string)
    ensures |Escape(w)| >= |w|
  {
    if w != "" {
      EscapeLonger(w[1..]);
    }
  }

  /** A quoter whose output, wherever a word may start, is read as that word. */
  ghost predicate ReadsBack(quote: string -> string) {
    forall w: string, words: seq<string> ::
      LexAll(Lexer(Plain, None, words), quote(w)) == Some(Lexer(Plain, Some(w), words))
  }

  lemma QuotedWordRead(w: string, words: seq<string>)
    ensures LexAll(Lexer(Plain, None, words), SingleQuoted(w)) == Some(Lexer(Plain, Some(w), words))
  {
    hide LexAll, SingleQuoted;
    SingleQuotedRead(Lexer(Plain, None, words), w);
    assert "" + w == w;
  }

  lemma SafeWordRead(w: string, extra: set<char>, words: seq<string>)
    requires w != "" && AllIn(w, extra) && extra <= RUST_SAFE + JS_SAFE
    ensures LexAll(Lexer(Plain, None, words), w) == Some(Lexer(Plain, Some(w), words))
  {
    hide LexAll, Bare, AllIn;
    SafeIsBare(w, extra);
    BareRead(Lexer(Plain, None, words), w);
    assert "" + w == w;
  }

  lemma QuotersReadBack()
    ensures ReadsBack(ShellWord) && ReadsBack(ShellQuoteArg) && ReadsBack(ShellQuote)
  {
    hide LexAll, SingleQuoted, AllIn;
    forall w: string, words: seq<string>
      ensures var l, m := Lexer(Plain, None, words), Some(Lexer(Plain, Some(w), words));
        LexAll(l, ShellWord(w)) == m && LexAll(l, ShellQuoteArg(w)) == m && LexAll(l, ShellQuote(w)) == m
    {
      QuotedWordRead(w, words);
      if w != "" && AllIn(w, RUST_SAFE) {
        SafeWordRead(w, RUST_SAFE, words);
      }
      if w != "" && AllIn(w, JS_SAFE) {
        SafeWordRead(w, JS_SAFE, words);
      }
    }
  }

  lemma BlankRead(w: string, words: seq<string>)
    ensures LexAll(Lexer(Plain, Some(w), words), " ") == Some(Lexer(Plain, None, words + [w]))
  {
    LexOne(Lexer(Plain, Some(w), words), ' ');
  }

  /** One more word in front: the reader ends it at the blank and starts afresh. */
  lemma WordThenRest(quote: string -> string, w: string, rest: string, words: seq<string>)
    requires ReadsBack(quote)
    ensures LexAll(Lexer(Plain, None, words), quote(w) + " " + rest) == LexAll(Lexer(Plain, None, words + [w]), rest)
  {
    hide LexAll;
    var l := Lexer(Plain, None, words);
    assert LexAll(l, quote(w)) == Some(Lexer(Plain, Some(w), words));
    LexConcat(l, quote(w) + " ", rest);
    LexConcat(l, quote(w), " ");
    BlankRead(w, words);
  }

  function JoinQuoted(quote: string -> string, ws: seq<string>): string {
    Join(MapWords(quote, ws), " ")
  }

  lemma JoinQuotedFirst(quote: string -> string, ws: seq<string>)
    requires ws != []
    ensures JoinQuoted(quote, ws) == quote(ws[0]) + if |ws| == 1 then "" else " " + JoinQuoted(quote, ws[1..])
    ensures |ws| == 1 ==> JoinQuoted(quote, ws) == quote(ws[0])
  {
    assert MapWords(quote, ws)[1..] == MapWords(quote, ws[1..]);
  }

  lemma {:induction false} JoinedRead(quote: string -> string, ws: seq<string>, words: seq<string>)
    requires ReadsBack(quote)
    ensures var l := LexAll(Lexer(Plain, None, words), JoinQuoted(quote, ws));
      l.Some? && l.value.mode == Plain && Finish(l.value.word, l.value.words) == words + ws
    decreases |ws|
  {
    hide LexAll, ReadsBack, JoinQuoted;
    var l := Lexer(Plain, None, words);
    if ws == [] {
      assert words + ws == words;
      NothingJoined(quote, l);
    } else {
      JoinQuotedFirst(quote, ws);
      if |ws| == 1 {
        assert ws == [ws[0]];
        WordRead(quote, ws[0], words);
      } else {
        var rest := JoinQuoted(quote, ws[1..]);
        assert quote(ws[0]) + (" " + rest) == quote(ws[0]) + " " + rest;
        WordThenRest(quote, ws[0], rest, words);
        JoinedRead(quote, ws[1..], words + [ws[0]]);
        assert words + [ws[0]] + ws[1..] == words + ws;
      }
    }
  }

  lemma NothingJoined(quote: string -> string, l: Lexer)
    ensures LexAll(l, JoinQuoted(quote, [])) == Some(l)
  {
  }

  lemma WordRead(quote: string -> string, w: string, words: seq<string>)
    requires ReadsBack(quote)
    ensures LexAll(Lexer(Plain, None, words), quote(w)) == Some(Lexer(Plain, Some(w), words))
  {
  }

  /** What a shell passes to the program is the list of words that was printed. */
  lemma DisplayReadBack(words: seq<string>)
    ensures PosixWords(Display(words)) == Some(words)
  {
    hide LexAll, JoinQuoted, ReadsBack;
    QuotersReadBack();
    JoinedRead(ShellWord, words, []);
    assert [] + words == words;
  }

  /** ... whatever plain text names the program. */
  lemma FormatReadBack(args: seq<string>, invocation: string)
    requires PosixWords(invocation).Some?
    ensures PosixWords(FormatCgCommand(args, invocation)) == Some(PosixWords(invocation).value + args)
  {
    hide LexAll, JoinQuoted, ReadsBack;
    QuotersReadBack();
    var l := LexAll(START, invocation).value;
    var rest := JoinQuoted(ShellQuoteArg, args);
    LexConcat(START, invocation + " ", rest);
    LexConcat(START, invocation, " ");
    LexOne(l, ' ');
    JoinedRead(ShellQuoteArg, args, Finish(l.word, l.words));
  }

  lemma BareWord(w: string, words: seq<string>)
    requires w != "" && AllIn(w, {})
    ensures LexAll(Lexer(Plain, None, words), w) == Some(Lexer(Plain, Some(w), words))
  {
    SafeIsBare(w, {});
    BareRead(Lexer(Plain, None, words), w);
    assert "" + w == w;
  }

  lemma AdoptCommandReadBack(script: string)
    ensures PosixWords(AdoptCommand(script)) == Some(["node", script, "adopt"])
  {
    hide LexAll, IsSpecial, SingleQuoted, ReadsBack;
    QuotersReadBack();
    BareWord("node", []);
    LexConcat(START, "node", " ");
    BlankRead("node", []);
    assert "node" + " " == "node ";
    LexConcat(START, "node ", ShellQuote(script) + " " + "adopt");
    assert "node " + (ShellQuote(script) + " " + "adopt") == AdoptCommand(script);
    WordThenRest(ShellQuote, script, "adopt", ["node"]);
    BareWord("adopt", ["node", script]);
    assert [] + ["node"] == ["node"] && ["node"] + [script] == ["node", script];
    assert ["node", script] + ["adopt"] == ["node", script, "adopt"];
  }

  // ---------- The repository's own tokenizer ----------

  /** Reading `s` with the quote we are inside of, the token so far, whether one has
      started, and the tokens before it. */
  function TokensFrom(s: string, quote: Option<char>, cur: string, has: bool, toks: seq<string>): seq<string>
    decreases |s|
  {
    if s == "" then (if has then toks + [cur] else toks)
    else if quote.Some? then
      if s[0] == quote.value then TokensFrom(s[1..], None, cur, has, toks)
      else TokensFrom(s[1..], quote, cur + [s[0]], has, toks)
    else if s[0] == '"' || s[0] == '\'' then TokensFrom(s[1..], Some(s[0]), cur, true, toks)
    else if IsWhitespace(s[0]) then
      if has then TokensFrom(s[1..], None, "", false, toks + [cur]) else TokensFrom(s[1..], None, cur, false, toks)
    else TokensFrom(s[1..], None, cur + [s[0]], true, toks)
  }

  function ShellTokens(s: string): seq<string> {
    TokensFrom(s, None, "", false, [])
  }

  lemma TokensStep(s: string, p: nat)
    requires p < |s|
    ensures s[p..][0] == s[p] && s[p..][1..] == s[p + 1..]
  {
  }

  method ReadShellTokens(s: string) returns (toks: seq<string>)
    ensures toks == ShellTokens(s)
  {
    hide IsWhitespace;
    toks := [];
    var cur := "";
    var has := false;
    var p := 0;
    assert s[0..] == s;
    while p < |s|
      invariant 0 <= p <= |s|
      invariant TokensFrom(s[p..], None, cur, has, toks) == ShellTokens(s)
      decreases |s| - p
    {
      TokensStep(s, p);
      var c := s[p];
      p := p + 1;
      if c == '"' || c == '\'' {
        has := true;
        while p < |s|
          invariant 0 < p <= |s|
          invariant TokensFrom(s[p..], Some(c), cur, has, toks) == ShellTokens(s)
          decreases |s| - p
        {
          TokensStep(s, p);
          var n := s[p];
          p := p + 1;
          if n == c {
            break;
          }
          cur := cur + [n];
        }
      } else if IsWhitespace(c) {
        if has {
          toks := toks + [cur];
          cur := "";
          has := false;
        }
      } else {
        has := true;
        cur := cur + [c];
      }
    }
    if has {
      toks := toks + [cur];
    }
  }

  // ---------- Reading a printed command with the repository's tokenizer ----------

  predicate QuoteFree(w: string) {
    '\'' !in w
  }

  lemma {:induction false} EscapeQuoteFree(w: string)
    requires QuoteFree(w)
    ensures Escape(w) == w
  {
    if w != "" {
      EscapeQuoteFree(w[1..]);
    }
  }

  lemma {:induction false} EscapeConcat(a: string, b: string)
    ensures Escape(a + b) == Escape(a) + Escape(b)
  {
    if a == "" {
      assert a + b == b;
    } else {
      assert (a + b)[1..] == a[1..] + b;
      EscapeConcat(a[1..], b);
    }
  }

  /** Text between quotation marks is taken over as it is. */
  lemma {:induction false} InsideQuotes(mark: char, w: string, rest: string, cur: string, has: bool, toks: seq<string>)
    requires mark !in w
    ensures TokensFrom(w + rest, Some(mark), cur, has, toks) == TokensFrom(rest, Some(mark), cur + w, has, toks)
    decreases |w|
  {
    if w == "" {
      assert w + rest == rest && cur + w == cur;
    } else {
      assert (w + rest)[1..] == w[1..] + rest;
      InsideQuotes(mark, w[1..], rest, cur + [w[0]], has, toks);
      assert cur + [w[0]] + w[1..] == cur + w;
    }
  }

  /** No white space and no quotation mark. */
  ghost predicate PlainText(w: string) {
    forall i :: 0 <= i < |w| ==> !IsWhitespace(w[i]) && w[i] != '"' && w[i] != '\''
  }

  lemma SafeIsPlain(w: string)
    requires AllIn(w, RUST_SAFE)
    ensures PlainText(w)
  {
    hide IsWhitespace;
    forall i | 0 <= i < |w|
      ensures !IsWhitespace(w[i]) && w[i] != '"' && w[i] != '\''
    {
      SafeNotWhitespace(w[i]);
    }
  }

  lemma {:induction false} BareTokens(w: string, rest: string, cur: string, has: bool, toks: seq<string>)
    requires PlainText(w)
    ensures TokensFrom(w + rest, None, cur, has, toks) == TokensFrom(rest, None, cur + w, has || w != "", toks)
    decreases |w|
  {
    hide IsWhitespace;
    if w == "" {
      assert w + rest == rest && cur + w == cur;
    } else {
      assert (w + rest)[1..] == w[1..] + rest;
      BareTokens(w[1..], rest, cur + [w[0]], true, toks);
      assert cur + [w[0]] + w[1..] == cur + w;
    }
  }

  lemma SafeNotWhitespace(c: char)
    requires IsAlnum(c) || c in RUST_SAFE
    ensures !IsWhitespace(c) && c != '"' && c != '\''
  {
  }

  /** An opening quote starts or continues the word; the closing one leaves it as it is. */
  lemma QuoteOpens(mark: char, rest: string, cur: string, has: bool, toks: seq<string>)
    requires mark == '"' || mark == '\''
    ensures TokensFrom([mark] + rest, None, cur, has, toks) == TokensFrom(rest, Some(mark), cur, true, toks)
  {
    hide IsWhitespace;
    assert ([mark] + rest)[1..] == rest;
  }

  lemma QuoteFreeIs(w: string)
    requires QuoteFree(w)
    ensures '\'' !in w
  {
  }

  lemma QuoteCloses(mark: char, rest: string, cur: string, has: bool, toks: seq<string>)
    ensures TokensFrom([mark] + rest, Some(mark), cur, has, toks) == TokensFrom(rest, None, cur, has, toks)
  {
    hide IsWhitespace;
    assert ([mark] + rest)[1..] == rest;
  }

  lemma QuoteFreeForm(w: string, rest: string)
    requires QuoteFree(w)
    ensures ShellWord(w) + rest == if w != "" && AllIn(w, RUST_SAFE) then w + rest else "'" + (w + ("'" + rest))
  {
    hide AllIn, QuoteFree, Escape;
    EscapeQuoteFree(w);
  }

  /** A word without single quotes is read as itself. */
  lemma WordToken(w: string, rest: string, toks: seq<string>)
    requires QuoteFree(w)
    ensures TokensFrom(ShellWord(w) + rest, None, "", false, toks) == TokensFrom(rest, None, w, true, toks)
  {
    hide TokensFrom, ShellWord, AllIn, QuoteFree, Escape, IsWhitespace;
    QuoteFreeForm(w, rest);
    assert "" + w == w;
    if w != "" && AllIn(w, RUST_SAFE) {
      SafeIsPlain(w);
      BareTokens(w, rest, "", false, toks);
    } else {
      QuoteFreeIs(w);
      QuoteOpens('\'', w + ("'" + rest), "", false, toks);
      InsideQuotes('\'', w, "'" + rest, "", true, toks);
      QuoteCloses('\'', rest, w, true, toks);
    }
  }

  lemma BlankToken(rest: string, cur: string, toks: seq<string>)
    ensures TokensFrom(" " + rest, None, cur, true, toks) == TokensFrom(rest, None, "", false, toks + [cur])
  {
    assert (" " + rest)[1..] == rest;
  }

  /** Printed words without single quotes are read off one by one. */
  lemma {:induction false} WordsToken(ws: seq<string>, k: nat, toks: seq<string>)
    requires k < |ws| && forall i :: 0 <= i < k ==> QuoteFree(ws[i])
    ensures TokensFrom(Display(ws), None, "", false, toks)
         == TokensFrom(Display(ws[k..]), None, "", false, toks + ws[..k])
    decreases k
  {
    hide TokensFrom, QuoteFree, ShellWord, JoinQuoted;
    if k == 0 {
      assert ws[0..] == ws && toks + ws[..0] == toks;
    } else {
      JoinQuotedFirst(ShellWord, ws);
      var rest := Display(ws[1..]);
      WordToken(ws[0], " " + rest, toks);
      BlankToken(rest, ws[0], toks);
      WordsToken(ws[1..], k - 1, toks + [ws[0]]);
      assert ws[1..][k - 1..] == ws[k..];
      assert toks + [ws[0]] + ws[1..][..k - 1] == toks + ws[..k];
    }
  }

  // ---------- What the tokenizer reads in any text ----------

  /** A stretch of a token: plain text, or text between two marks of one kind. */
  datatype Span = Bare(text: string) | Quoted(mark: char, text: string)

  ghost predicate GoodSpan(p: Span) {
    match p
    case Bare(text) => text != "" && PlainText(text)
    case Quoted(mark, text) => (mark == '"' || mark == '\'') && mark !in text
  }

  function ShowSpan(p: Span): string {
    match p case Bare(text) => text case Quoted(mark, text) => [mark] + (text + [mark])
  }

  function ShowSpans(spans: seq<Span>): string {
    if spans == [] then "" else ShowSpan(spans[0]) + ShowSpans(spans[1..])
  }

  /** What the stretches stand for: their texts, one after the other. */
  function Value(spans: seq<Span>): string {
    if spans == [] then "" else spans[0].text + Value(spans[1..])
  }

  ghost predicate GoodToken(spans: seq<Span>) {
    spans != [] && forall i :: 0 <= i < |spans| ==> GoodSpan(spans[i])
  }

  ghost predicate Gap(g: string) {
    g != "" && forall i :: 0 <= i < |g| ==> IsWhitespace(g[i])
  }

  /** Tokens, each with the white space behind it. */
  function ShowTokens(tokens: seq<seq<Span>>, gaps: seq<string>): string
    requires |gaps| == |tokens|
  {
    if tokens == [] then "" else ShowSpans(tokens[0]) + (gaps[0] + ShowTokens(tokens[1..], gaps[1..]))
  }

  function Values(tokens: seq<seq<Span>>): seq<string> {
    if tokens == [] then [] else [Value(tokens[0])] + Values(tokens[1..])
  }

  lemma SpanRead(p: Span, rest: string, cur: string, has: bool, toks: seq<string>)
    requires GoodSpan(p)
    ensures TokensFrom(ShowSpan(p) + rest, None, cur, has, toks) == TokensFrom(rest, None, cur + p.text, true, toks)
  {
    hide TokensFrom, IsWhitespace, PlainText;
    match p
    case Bare(text) =>
      BareTokens(text, rest, cur, has, toks);
    case Quoted(mark, text) =>
      assert [mark] + (text + [mark]) + rest == [mark] + (text + ([mark] + rest));
      QuoteOpens(mark, text + ([mark] + rest), cur, has, toks);
      InsideQuotes(mark, text, [mark] + rest, cur, true, toks);
      QuoteCloses(mark, rest, cur + text, true, toks);
  }

  lemma {:induction false} SpansRead(spans: seq<Span>, rest: string, cur: string, has: bool, toks: seq<string>)
    requires forall i :: 0 <= i < |spans| ==> GoodSpan(spans[i])
    ensures TokensFrom(ShowSpans(spans) + rest, None, cur, has, toks)
      == TokensFrom(rest, None, cur + Value(spans), has || spans != [], toks)
    decreases |spans|
  {
    hide TokensFrom, GoodSpan, ShowSpan;
    if spans == [] {
      assert "" + rest == rest && cur + "" == cur;
    } else {
      var more := ShowSpans(spans[1..]);
      assert ShowSpan(spans[0]) + more + rest == ShowSpan(spans[0]) + (more + rest);
      SpanRead(spans[0], more + rest, cur, has, toks);
      SpansRead(spans[1..], rest, cur + spans[0].text, true, toks);
      assert cur + spans[0].text + Value(spans[1..]) == cur + (spans[0].text + Value(spans[1..]));
    }
  }

  lemma {:induction false} GapSkipped(g: string, rest: string, toks: seq<string>)
    requires forall i :: 0 <= i < |g| ==> IsWhitespace(g[i])
    ensures TokensFrom(g + rest, None, "", false, toks) == TokensFrom(rest, None, "", false, toks)
    decreases |g|
  {
    if g == "" {
      assert g + rest == rest;
    } else {
      assert (g + rest)[1..] == g[1..] + rest;
      QuotesNotWhitespace(g[0]);
      hide IsWhitespace;
      GapSkipped(g[1..], rest, toks);
    }
  }

  lemma QuotesNotWhitespace(c: char)
    requires IsWhitespace(c)
    ensures c != '"' && c != '\''
  {
  }

  /** White space ends the token before it. */
  lemma GapEnds(g: string, rest: string, cur: string, toks: seq<string>)
    requires Gap(g)
    ensures TokensFrom(g + rest, None, cur, true, toks) == TokensFrom(rest, None, "", false, toks + [cur])
  {
    assert (g + rest)[1..] == g[1..] + rest;
    QuotesNotWhitespace(g[0]);
    hide IsWhitespace;
    GapSkipped(g[1..], rest, toks + [cur]);
  }

  lemma {:induction false} TokensRead(tokens: seq<seq<Span>>, gaps: seq<string>, rest: string, toks: seq<string>)
    requires |gaps| == |tokens|
    requires forall i :: 0 <= i < |tokens| ==> GoodToken(tokens[i]) && Gap(gaps[i])
    ensures TokensFrom(ShowTokens(tokens, gaps) + rest, None, "", false, toks)
      == TokensFrom(rest, None, "", false, toks + Values(tokens))
    decreases |tokens|
  {
    hide TokensFrom, GoodSpan, ShowSpans, Value, Gap;
    if tokens == [] {
      assert "" + rest == rest && toks + [] == toks;
    } else {
      var more := ShowTokens(tokens[1..], gaps[1..]);
      assert ShowTokens(tokens, gaps) + rest == ShowSpans(tokens[0]) + (gaps[0] + (more + rest));
      SpansRead(tokens[0], gaps[0] + (more + rest), "", false, toks);
      assert "" + Value(tokens[0]) == Value(tokens[0]);
      GapEnds(gaps[0], more + rest, Value(tokens[0]), toks);
      TokensRead(tokens[1..], gaps[1..], rest, toks + [Value(tokens[0])]);
      assert toks + [Value(tokens[0])] + Values(tokens[1..]) == toks + ([Value(tokens[0])] + Values(tokens[1..]));
    }
  }

  /** In any text: runs of white space outside quotation marks, at the edges or between,
      separate the tokens; quoted stretches of either kind lose their marks, keep what is
      inside, white space and the other mark included, and join what they touch; an empty
      pair of marks is an empty token; and an unclosed mark takes the rest of the text. */
  lemma TokensOfText(lead: string, tokens: seq<seq<Span>>, gaps: seq<string>, last: seq<Span>, mark: char, open: string)
    requires |gaps| == |tokens| && (lead == "" || Gap(lead))
    requires forall i :: 0 <= i < |tokens| ==> GoodToken(tokens[i]) && Gap(gaps[i])
    requires GoodToken(last) && (mark == '"' || mark == '\'') && mark !in open
    ensures var text := lead + ShowTokens(tokens, gaps);
      && ShellTokens(text) == Values(tokens)
      && ShellTokens(text + ShowSpans(last)) == Values(tokens) + [Value(last)]
      && ShellTokens(text + (ShowSpans(last) + ([mark] + open))) == Values(tokens) + [Value(last) + open]
      && ShellTokens(text + ([mark] + open)) == Values(tokens) + [open]
  {
    hide TokensFrom, GoodSpan, ShowSpans, Value, ShowTokens, Values;
    var shown, values := ShowTokens(tokens, gaps), Values(tokens);
    forall rest: string
      ensures TokensFrom(lead + shown + rest, None, "", false, []) == TokensFrom(rest, None, "", false, values)
    {
      assert lead + shown + rest == lead + (shown + rest);
      GapSkipped(lead, shown + rest, []);
      TokensRead(tokens, gaps, rest, []);
      assert [] + values == values;
    }
    assert lead + shown + "" == lead + shown;
    TextEnds("", false, values);
    SpansRead(last, "", "", false, values);
    assert ShowSpans(last) + "" == ShowSpans(last) && "" + Value(last) == Value(last);
    TextEnds(Value(last), true, values);
    SpansRead(last, [mark] + open, "", false, values);
    UnclosedRead(mark, open, Value(last), true, values);
    UnclosedRead(mark, open, "", false, values);
    assert "" + open == open;
  }

  lemma TextEnds(cur: string, has: bool, toks: seq<string>)
    ensures TokensFrom("", None, cur, has, toks) == if has then toks + [cur] else toks
  {
  }

  lemma UnclosedRead(mark: char, open: string, cur: string, has: bool, toks: seq<string>)
    requires (mark == '"' || mark == '\'') && mark !in open
    ensures TokensFrom([mark] + open, None, cur, has, toks) == toks + [cur + open]
  {
    hide TokensFrom;
    QuoteOpens(mark, open, cur, has, toks);
    InsideQuotes(mark, open, "", cur, true, toks);
    assert open + "" == open;
    UnclosedEnds(mark, cur + open, toks);
  }

  lemma UnclosedEnds(mark: char, cur: string, toks: seq<string>)
    ensures TokensFrom("", Some(mark), cur, true, toks) == toks + [cur]
  {
  }

  /** Tokens already read stay, and a token once begun only grows. */
  lemma {:induction false} TokenGrows(s: string, quote: Option<char>, cur: string, toks: seq<string>)
    ensures var r := TokensFrom(s, quote, cur, true, toks);
      |r| > |toks| && cur <= r[|toks|]
    decreases |s|
  {
    hide IsWhitespace;
    if s != "" {
      if quote.Some? {
        TokenGrows(s[1..], if s[0] == quote.value then None else quote,
          if s[0] == quote.value then cur else cur + [s[0]], toks);
      } else if s[0] == '"' || s[0] == '\'' {
        TokenGrows(s[1..], Some(s[0]), cur, toks);
      } else if IsWhitespace(s[0]) {
        TokensKept(s[1..], None, "", false, toks + [cur]);
      } else {
        TokenGrows(s[1..], None, cur + [s[0]], toks);
      }
    }
  }

  lemma {:induction false} TokensKept(s: string, quote: Option<char>, cur: string, has: bool, toks: seq<string>)
    ensures toks <= TokensFrom(s, quote, cur, has, toks)
    decreases |s|
  {
    hide IsWhitespace;
    if s != "" {
      if quote.Some? {
        TokensKept(s[1..], if s[0] == quote.value then None else quote,
          if s[0] == quote.value then cur else cur + [s[0]], has, toks);
      } else if s[0] == '"' || s[0] == '\'' {
        TokensKept(s[1..], Some(s[0]), cur, true, toks);
      } else if IsWhitespace(s[0]) {
        if has {
          TokensKept(s[1..], None, "", false, toks + [cur]);
        } else {
          TokensKept(s[1..], None, cur, false, toks);
        }
      } else {
        TokensKept(s[1..], None, cur + [s[0]], true, toks);
      }
    }
  }

  /** How a word with a single quote after `a` is printed. */
  lemma QuotedForm(a: string, b: string) returns (more: string)
    requires QuoteFree(a)
    ensures ShellWord(a + "'" + b) == "'" + (a + ("'" + ("\\" + more)))
  {
    hide Escape, QuoteFree;
    var w := a + "'" + b;
    QuoteNotSafe(a, b);
    EscapeQuoteFree(a);
    EscapeConcat(a + "'", b);
    EscapeConcat(a, "'");
    EscapeOneQuote();
    more := "''" + Escape(b) + "'";
    QuotedParts(a, Escape(b));
  }

  lemma QuoteNotSafe(a: string, b: string)
    ensures a + "'" + b != "" && !AllIn(a + "'" + b, RUST_SAFE)
  {
    assert (a + "'" + b)[|a|] == '\'';
  }

  lemma EscapeOneQuote()
    ensures Escape("'") == "'\\''"
  {
    assert "'"[1..] == "";
  }

  lemma QuotedParts(a: string, escaped: string)
    ensures "'" + (a + "'\\''" + escaped) + "'" == "'" + (a + ("'" + ("\\" + ("''" + escaped + "'"))))
  {
    assert "'\\''" == "'" + ("\\" + "''");
  }

  /** A word with a single quote is read with a backslash where the quote was. */
  lemma QuotedWordMisread(a: string, b: string, rest: string, toks: seq<string>)
    requires QuoteFree(a)
    ensures var r := TokensFrom(ShellWord(a + "'" + b) + rest, None, "", false, toks);
      |r| > |toks| && a + "\\" <= r[|toks|]
  {
    hide IsWhitespace, ShellWord, TokensFrom;
    var more := QuotedForm(a, b);
    MisreadSteps(a, more + rest, toks);
    assert ("'" + (a + ("'" + ("\\" + more)))) + rest == "'" + (a + ("'" + ("\\" + (more + rest))));
  }

  lemma MisreadSteps(a: string, more: string, toks: seq<string>)
    requires QuoteFree(a)
    ensures var r := TokensFrom("'" + (a + ("'" + ("\\" + more))), None, "", false, toks);
      |r| > |toks| && a + "\\" <= r[|toks|]
  {
    hide IsWhitespace, QuoteFree;
    var tail := "\\" + more;
    var closing := "'" + tail;
    assert ("'" + (a + closing))[1..] == a + closing;
    QuoteFreeIs(a);
    InsideQuotes('\'', a, closing, "", true, toks);
    assert "" + a == a;
    assert closing[1..] == tail;
    BackslashNotWhitespace();
    assert tail[1..] == more;
    TokenGrows(more, None, a + "\\", toks);
  }

  lemma BackslashNotWhitespace()
    ensures !IsWhitespace('\\')
  {
  }

  lemma SplitAtQuote(w: string) returns (a: string, b: string)
    requires !QuoteFree(w)
    ensures w == a + "'" + b && QuoteFree(a)
  {
    var i := 0;
    while w[i] != '\''
      invariant 0 <= i < |w| && QuoteFree(w[..i]) && '\'' in w[i..]
      decreases |w| - i
    {
      assert w[i..] == [w[i]] + w[i + 1..];
      assert w[..i + 1] == w[..i] + [w[i]];
      i := i + 1;
    }
    a, b := w[..i], w[i + 1..];
  }

  /** The repository reads its own printed command back exactly when no word holds a
      single quote. */
  lemma TokensReadBackIff(ws: seq<string>)
    ensures ShellTokens(Display(ws)) == ws <==> forall w :: w in ws ==> QuoteFree(w)
  {
    hide TokensFrom, QuoteFree, ShellWord, JoinQuoted;
    if ws == [] {
      NoTokens();
    } else if forall i :: 0 <= i < |ws| ==> QuoteFree(ws[i]) {
      var k := |ws| - 1;
      WordsToken(ws, k, []);
      assert ws[k..] == [ws[k]];
      JoinQuotedFirst(ShellWord, [ws[k]]);
      assert ShellWord(ws[k]) + "" == ShellWord(ws[k]);
      WordToken(ws[k], "", [] + ws[..k]);
      LastToken(ws[k], [] + ws[..k]);
      assert [] + ws[..k] + [ws[k]] == ws;
    } else {
      var k := 0;
      while QuoteFree(ws[k])
        invariant 0 <= k < |ws| && forall i :: 0 <= i < k ==> QuoteFree(ws[i])
        invariant exists i :: k <= i < |ws| && !QuoteFree(ws[i])
        decreases |ws| - k
      {
        k := k + 1;
      }
      WordsToken(ws, k, []);
      var a, b := SplitAtQuote(ws[k]);
      var rest := if |ws| == k + 1 then "" else " " + Display(ws[k + 1..]);
      JoinQuotedFirst(ShellWord, ws[k..]);
      assert ws[k..][1..] == ws[k + 1..];
      QuotedWordMisread(a, b, rest, [] + ws[..k]);
      assert |[] + ws[..k]| == k;
      assert (a + "\\")[|a|] == '\\' && ws[k][|a|] == '\'';
    }
  }

  lemma NoTokens()
    ensures ShellTokens(Display([])) == []
  {
  }

  lemma LastToken(cur: string, toks: seq<string>)
    ensures TokensFrom("", None, cur, true, toks) == toks + [cur]
  {
  }
}
