/** The Unix install command the client prints, and how a POSIX shell splits it into words
    (IEEE Std 1003.1 Shell Command Language, sections 2.2.1, 2.2.2, 2.3 and 2.6.7). */
module ShellCommand {
  import opened Results
  import opened Paths

  // ---- printing ----

  /** Letters, digits and _ @ % = + , - . / : (the last six and the digits are one range). */
  predicate Safe(c: char) {
    'A' <= c <= 'Z' || 'a' <= c <= 'z' || '+' <= c <= ':' || c == '_' || c == '@' || c == '%' || c == '='
  }

  predicate AllSafe(s: string) {
    forall i | 0 <= i < |s| :: Safe(s[i])
  }

  /** Every single quote becomes: end of quotation, escaped quote, start of quotation. */
  function EscapeQuotes(s: string): string {
    if |s| == 0 then "" else (if s[0] == '\'' then "'\\''" else [s[0]]) + EscapeQuotes(s[1..])
  }

  function ShellQuote(value: string): string {
    if |value| == 0 then "''"
    else if AllSafe(value) then value
    else "'" + EscapeQuotes(value) + "'"
  }

  /** Letters, digits and ten other characters. */
  predicate Listed(c: char) {
    'A' <= c <= 'Z' || 'a' <= c <= 'z' || '0' <= c <= '9' || c in "_@%+=:,./-"
  }

  lemma SafeIsListed(c: char)
    ensures Safe(c) <==> Listed(c)
  {
  }

  /** A value is printed as it is exactly if it consists of listed characters, at least one; otherwise
      the printed text is in single quotes. */
  lemma BareExactlyWhen(value: string)
    ensures var printed := ShellQuote(value);
            if value != "" && forall i | 0 <= i < |value| :: Listed(value[i]) then printed == value
            else |printed| >= 2 && printed[0] == '\'' && printed[|printed| - 1] == '\''
  {
    hide Listed, Safe;
    forall c: char { SafeIsListed(c); }
  }

  datatype InstallInput = InstallInput(backendUrl: string, workspaceId: string, daemonToken: string, staticBaseUrl: Option<string>)

  function BackendUrl(input: InstallInput): string {
    StripSlashes(Trim(input.backendUrl, JsSpace))
  }

  function StaticBaseUrl(input: InstallInput): string {
    var given := if input.staticBaseUrl.Some? then Trim(input.staticBaseUrl.value, JsSpace) else "";
    StripSlashes(if given != "" then given else BackendUrl(input) + "/daemons")
  }

  function ArgLine(flag: string, value: string): string {
    "  " + flag + " " + ShellQuote(value)
  }

  /** The lines are joined by a newline after a backslash. */
  const NEXT_LINE := " \\\n"

  function InstallCommand(input: InstallInput): string {
    "curl -fsSL " + (ShellQuote(StaticBaseUrl(input) + "/install.sh") + (" | sh -s --" + (NEXT_LINE
    + (ArgLine("--backend-url", BackendUrl(input)) + (NEXT_LINE
    + (ArgLine("--workspace-id", input.workspaceId) + (NEXT_LINE
    + (ArgLine("--daemon-token", input.daemonToken) + (NEXT_LINE
    + (ArgLine("--static-base", StaticBaseUrl(input)) + ""))))))))))
  }

  // ---- reading ----

  datatype Token = Word(text: string) | Pipe | NewLine

  /** The reader's position: the word begun, if any; whether inside single quotes; tokens so far. */
  datatype Reader = Reader(word: Option<string>, quoted: bool, done: seq<Token>)

  function Flush(r: Reader): Reader {
    if r.word.Some? then Reader(None, r.quoted, r.done + [Word(r.word.value)]) else r
  }

  function Append(r: Reader, text: string): Reader {
    r.(word := Some((if r.word.Some? then r.word.value else "") + text))
  }

  /** Characters that mean something else to the shell; commands using them are not read here. */
  predicate Special(c: char) {
    c in "!\"#$&()*;<>?[]^`{|}~"
  }

  /** None: an unfinished quotation or escape, or syntax beyond words, quotes and pipes. */
  function Lex(s: string, r: Reader): Option<seq<Token>> {
    if |s| == 0 then if r.quoted then None else Some(Flush(r).done)
    else if r.quoted then
      if s[0] == '\'' then Lex(s[1..], r.(quoted := false)) else Lex(s[1..], Append(r, [s[0]]))
    else if s[0] == '\\' then
      if |s| == 1 then None
      else if s[1] == '\n' then Lex(s[2..], r)
      else Lex(s[2..], Append(r, [s[1]]))
    else if s[0] == '\'' then Lex(s[1..], Append(r, "").(quoted := true))
    else if s[0] == ' ' || s[0] == '\t' then Lex(s[1..], Flush(r))
    else if s[0] == '\n' then var f := Flush(r); Lex(s[1..], f.(done := f.done + [NewLine]))
    else if s[0] == '|' then
      if |s| > 1 && s[1] == '|' then None
      else var f := Flush(r); Lex(s[1..], f.(done := f.done + [Pipe]))
    else if Special(s[0]) then None
    else Lex(s[1..], Append(r, [s[0]]))
  }

  function Tokens(s: string): Option<seq<Token>> {
    Lex(s, Reader(None, false, []))
  }

  // ---- quoting and reading ----

  lemma AppendTwice(r: Reader, a: string, b: string)
    ensures Append(Append(r, a), b) == Append(r, a + b)
  {
    var w := if r.word.Some? then r.word.value else "";
    assert (w + a) + b == w + (a + b);
  }

  lemma LexOneQuoted(c: char, rest: string, r: Reader)
    requires r.quoted && c != '\''
    ensures Lex([c] + rest, r) == Lex(rest, Append(r, [c]))
  {
    assert ([c] + rest)[1..] == rest;
  }

  /** The four characters that stand for one single quote inside a quotation. */
  lemma LexEscapedQuote(rest: string, r: Reader)
    requires r.quoted
    ensures Lex("'\\''" + rest, r) == Lex(rest, Append(r, "'"))
  {
    var s := "'\\''" + rest;
    var open := r.(quoted := false);
    assert s[1..] == "\\''" + rest;
    assert ("\\''" + rest)[2..] == "'" + rest;
    assert ("'" + rest)[1..] == rest;
    assert Lex(s, r) == Lex("\\''" + rest, open);
    assert Lex("\\''" + rest, open) == Lex("'" + rest, Append(open, ['\'']));
    assert Lex("'" + rest, Append(open, "'")) == Lex(rest, Append(Append(open, "'"), "").(quoted := true));
    AppendTwice(open, "'", "");
    assert "'" + "" == "'";
  }

  lemma {:induction false} LexQuoted(value: string, rest: string, r: Reader)
    requires r.quoted && r.word.Some?
    ensures Lex(EscapeQuotes(value) + ("'" + rest), r) == Lex(rest, Append(r, value).(quoted := false))
    decreases |value|
  {
    if |value| == 0 {
      assert EscapeQuotes(value) + ("'" + rest) == "'" + rest;
      assert ("'" + rest)[1..] == rest;
      assert r.word.value + "" == r.word.value;
    } else {
      var c, tail := value[0], EscapeQuotes(value[1..]) + ("'" + rest);
      var unit := if c == '\'' then "'\\''" else [c];
      assert EscapeQuotes(value) + ("'" + rest) == unit + tail;
      if c == '\'' {
        LexEscapedQuote(tail, r);
      } else {
        LexOneQuoted(c, tail, r);
      }
      LexQuoted(value[1..], rest, Append(r, [c]));
      AppendTwice(r, [c], value[1..]);
      assert [c] + value[1..] == value;
    }
  }

  /** A character that stands for itself. */
  predicate Ordinary(c: char) {
    c != '\\' && c != '\'' && c != ' ' && c != '\t' && c != '\n' && c != '|' && !Special(c)
  }

  /** A word that needs no quoting. */
  predicate PlainWord(text: string) {
    |text| > 0 && forall i | 0 <= i < |text| :: Ordinary(text[i])
  }

  lemma SafeIsOrdinary(c: char)
    requires Safe(c)
    ensures Ordinary(c)
  {
  }

  lemma {:induction false} LexPlain(text: string, rest: string, r: Reader)
    requires !r.quoted && (r.word.Some? || |text| > 0) && forall i | 0 <= i < |text| :: Ordinary(text[i])
    ensures Lex(text + rest, r) == Lex(rest, Append(r, text))
    decreases |text|
  {
    if |text| == 0 {
      assert text + rest == rest && r.word.value + "" == r.word.value;
    } else {
      assert (text + rest)[0] == text[0] && Ordinary(text[0]);
      assert (text + rest)[1..] == text[1..] + rest;
      LexPlain(text[1..], rest, Append(r, [text[0]]));
      AppendTwice(r, [text[0]], text[1..]);
      assert [text[0]] + text[1..] == text;
    }
  }

  /** An opening quote, the escaped value and a closing quote. */
  lemma QuotationReadsBack(value: string, rest: string, r: Reader)
    requires !r.quoted
    ensures Lex("'" + (EscapeQuotes(value) + ("'" + rest)), r) == Lex(rest, Append(r, value))
  {
    hide EscapeQuotes;
    var inner := EscapeQuotes(value) + ("'" + rest);
    assert ("'" + inner)[1..] == inner;
    LexQuoted(value, rest, Append(r, "").(quoted := true));
    AppendTwice(r, "", value);
    assert "" + value == value;
  }

  /** Whatever the value holds (quotes, newlines, blanks, backslashes, nothing at all), reading
      its quoted form adds exactly the value to the current word. */
  lemma QuoteReadsBack(value: string, rest: string, r: Reader)
    requires !r.quoted
    ensures Lex(ShellQuote(value) + rest, r) == Lex(rest, Append(r, value))
  {
    hide Safe, Lex, Append;
    if |value| > 0 && AllSafe(value) {
      forall i | 0 <= i < |value| { SafeIsOrdinary(value[i]); }
      LexPlain(value, rest, r);
    } else {
      assert ShellQuote(value) + rest == "'" + (EscapeQuotes(value) + ("'" + rest));
      QuotationReadsBack(value, rest, r);
    }
  }

  /** As a whole word: quoting then reading is the identity. */
  lemma QuotedWordRoundTrip(value: string)
    ensures Tokens(ShellQuote(value)) == Some([Word(value)])
  {
    QuoteReadsBack(value, "", Reader(None, false, []));
    assert ShellQuote(value) + "" == ShellQuote(value);
    assert "" + value == value && [] + [Word(value)] == [Word(value)];
  }

  // ---- the command ----

  lemma LexBlank(rest: string, r: Reader)
    requires !r.quoted
    ensures Lex(" " + rest, r) == Lex(rest, Flush(r))
  {
    assert (" " + rest)[1..] == rest;
  }

  /** A plain word and the blank after it. */
  lemma LexWord(text: string, rest: string, done: seq<Token>)
    requires PlainWord(text)
    ensures Lex(text + (" " + rest), Reader(None, false, done)) == Lex(rest, Reader(None, false, done + [Word(text)]))
  {
    LexPlain(text, " " + rest, Reader(None, false, done));
    assert "" + text == text;
    LexBlank(rest, Reader(Some(text), false, done));
  }

  /** The end of a line that goes on: the word ends, the line break disappears. */
  lemma LexNextLine(value: string, rest: string, done: seq<Token>)
    ensures Lex(NEXT_LINE + rest, Reader(Some(value), false, done)) == Lex(rest, Reader(None, false, done + [Word(value)]))
  {
    var after := "\\\n" + rest;
    assert NEXT_LINE + rest == " " + after;
    LexBlank(after, Reader(Some(value), false, done));
    assert after[2..] == rest;
  }

  /** An option and its value on a line of their own. */
  lemma LexArgLine(flag: string, value: string, rest: string, done: seq<Token>)
    requires PlainWord(flag)
    ensures Lex(ArgLine(flag, value) + rest, Reader(None, false, done)) ==
            Lex(rest, Reader(Some(value), false, done + [Word(flag)]))
  {
    hide Lex, ShellQuote, PlainWord;
    var r := Reader(None, false, done);
    var tail := ShellQuote(value) + rest;
    var body := flag + (" " + tail);
    assert ArgLine(flag, value) + rest == " " + (" " + body);
    LexBlank(" " + body, r);
    LexBlank(body, r);
    LexWord(flag, tail, done);
    LexValue(value, rest, done + [Word(flag)]);
  }

  lemma LexTwoWords(first: string, second: string, rest: string, done: seq<Token>)
    requires PlainWord(first) && PlainWord(second)
    ensures Lex(first + (" " + (second + (" " + rest))), Reader(None, false, done)) ==
            Lex(rest, Reader(None, false, done + [Word(first), Word(second)]))
  {
    hide Lex, PlainWord;
    LexWord(first, second + (" " + rest), done);
    LexWord(second, rest, done + [Word(first)]);
    assert done + [Word(first)] + [Word(second)] == done + [Word(first), Word(second)];
  }

  lemma LexValue(value: string, rest: string, done: seq<Token>)
    ensures Lex(ShellQuote(value) + rest, Reader(None, false, done)) == Lex(rest, Reader(Some(value), false, done))
  {
    hide Lex, ShellQuote;
    QuoteReadsBack(value, rest, Reader(None, false, done));
    assert "" + value == value;
  }

  /** A word, a pipe between blanks, and what follows it. */
  lemma LexPipe(word: string, rest: string, done: seq<Token>)
    ensures Lex(" " + ("|" + (" " + rest)), Reader(Some(word), false, done)) ==
            Lex(rest, Reader(None, false, done + [Word(word), Pipe]))
  {
    var blank := " " + rest;
    var pipe := "|" + blank;
    LexBlank(pipe, Reader(Some(word), false, done));
    assert pipe[0] == '|' && pipe[1] == ' ' && pipe[1..] == blank;
    LexBlank(rest, Reader(None, false, done + [Word(word)] + [Pipe]));
    assert done + [Word(word)] + [Pipe] == done + [Word(word), Pipe];
  }

  lemma DashedWordIsPlain(text: string)
    requires |text| > 0 && forall i | 0 <= i < |text| :: text[i] == '-' || 'A' <= text[i] <= 'Z' || 'a' <= text[i] <= 'z'
    ensures PlainWord(text)
  {
  }

  lemma PlainLiterals()
    ensures PlainWord("curl") && PlainWord("-fsSL") && PlainWord("sh") && PlainWord("-s") && PlainWord("--")
  {
    hide PlainWord;
    DashedWordIsPlain("curl");
    DashedWordIsPlain("-fsSL");
    DashedWordIsPlain("sh");
    DashedWordIsPlain("-s");
    DashedWordIsPlain("--");
  }

  lemma PlainFlags()
    ensures PlainWord("--backend-url") && PlainWord("--workspace-id")
    ensures PlainWord("--daemon-token") && PlainWord("--static-base")
  {
    hide PlainWord;
    DashedWordIsPlain("--backend-url");
    DashedWordIsPlain("--workspace-id");
    DashedWordIsPlain("--daemon-token");
    DashedWordIsPlain("--static-base");
  }

  lemma CurlHead(rest: string)
    ensures "curl -fsSL " + rest == "curl" + (" " + ("-fsSL" + (" " + rest)))
  {
  }

  lemma PipeTail(rest: string)
    ensures " | sh -s --" + rest == " " + ("|" + (" " + ("sh" + (" " + ("-s" + (" " + ("--" + rest)))))))
  {
  }

  lemma LexPipeLine(url: string, rest: string)
    ensures Lex("curl -fsSL " + (ShellQuote(url) + (" | sh -s --" + rest)), Reader(None, false, [])) ==
            Lex(rest, Reader(Some("--"), false, [Word("curl"), Word("-fsSL"), Word(url), Pipe, Word("sh"), Word("-s")]))
  {
    hide Lex, ShellQuote, PlainWord;
    var afterUrl := " | sh -s --" + rest;
    var dashes := "--" + rest;
    PlainLiterals();
    CurlHead(ShellQuote(url) + afterUrl);
    LexTwoWords("curl", "-fsSL", ShellQuote(url) + afterUrl, []);
    var start := [Word("curl"), Word("-fsSL")];
    assert [] + start == start;
    LexValue(url, afterUrl, start);
    PipeTail(rest);
    LexPipe(url, "sh" + (" " + ("-s" + (" " + dashes))), start);
    LexTwoWords("sh", "-s", dashes, start + [Word(url), Pipe]);
    LexDashes(rest, start + [Word(url), Pipe] + [Word("sh"), Word("-s")]);
    assert start + [Word(url), Pipe] + [Word("sh"), Word("-s")] ==
           [Word("curl"), Word("-fsSL"), Word(url), Pipe, Word("sh"), Word("-s")];
  }

  lemma LexDashes(rest: string, done: seq<Token>)
    ensures Lex("--" + rest, Reader(None, false, done)) == Lex(rest, Reader(Some("--"), false, done))
  {
    hide Lex;
    PlainLiterals();
    LexPlain("--", rest, Reader(None, false, done));
    assert "" + "--" == "--";
  }

  /** A text less the slashes at its end. */
  ghost predicate Unslashed(url: string, text: string) {
    url <= text && (forall i | |url| <= i < |text| :: text[i] == '/') && (|url| > 0 ==> url[|url| - 1] != '/')
  }

  lemma {:induction false} StripsSlashes(text: string)
    ensures Unslashed(StripSlashes(text), text)
    decreases |text|
  {
    if |text| > 0 && text[|text| - 1] == '/' { StripsSlashes(text[..|text| - 1]); }
  }

  /** The two addresses: the trimmed backend address, and the trimmed static one or, if none is given
      or it is blank, "/daemons" below the backend; both without slashes at the end. */
  lemma Addresses(input: InstallInput)
    ensures Unslashed(BackendUrl(input), Trim(input.backendUrl, JsSpace))
    ensures input.staticBaseUrl.Some? && Trim(input.staticBaseUrl.value, JsSpace) != "" ==>
              Unslashed(StaticBaseUrl(input), Trim(input.staticBaseUrl.value, JsSpace))
    ensures input.staticBaseUrl.None? || Trim(input.staticBaseUrl.value, JsSpace) == "" ==>
              StaticBaseUrl(input) == BackendUrl(input) + "/daemons"
  {
    hide Trim, StripSlashes;
    StripsSlashes(Trim(input.backendUrl, JsSpace));
    if input.staticBaseUrl.Some? { StripsSlashes(Trim(input.staticBaseUrl.value, JsSpace)); }
    DefaultKept(BackendUrl(input));
  }

  lemma DefaultKept(url: string)
    ensures StripSlashes(url + "/daemons") == url + "/daemons"
  {
    assert (url + "/daemons")[|url| + 7] == 's';
  }

  /** The words the command is meant to have. */
  function IntendedTokens(input: InstallInput): seq<Token> {
    [Word("curl"), Word("-fsSL"), Word(StaticBaseUrl(input) + "/install.sh"), Pipe, Word("sh"), Word("-s"), Word("--"),
     Word("--backend-url"), Word(BackendUrl(input)), Word("--workspace-id"), Word(input.workspaceId),
     Word("--daemon-token"), Word(input.daemonToken), Word("--static-base"), Word(StaticBaseUrl(input))]
  }

  /** The printed command splits into exactly the intended words, each argument equal to the
      value it stands for, for every input. */
  lemma InstallCommandReadsBack(input: InstallInput)
    ensures Tokens(InstallCommand(input)) == Some(IntendedTokens(input))
  {
    hide Lex, ArgLine, ShellQuote, StaticBaseUrl, BackendUrl, PlainWord;
    PlainFlags();
    var last := ArgLine("--static-base", StaticBaseUrl(input)) + "";
    var token := ArgLine("--daemon-token", input.daemonToken) + (NEXT_LINE + last);
    var workspace := ArgLine("--workspace-id", input.workspaceId) + (NEXT_LINE + token);
    var backend := ArgLine("--backend-url", BackendUrl(input)) + (NEXT_LINE + workspace);
    var d0 := [Word("curl"), Word("-fsSL"), Word(StaticBaseUrl(input) + "/install.sh"), Pipe, Word("sh"), Word("-s")];
    LexPipeLine(StaticBaseUrl(input) + "/install.sh", NEXT_LINE + backend);
    LexNextLine("--", backend, d0);
    var d1 := d0 + [Word("--")];
    LexArgument("--backend-url", BackendUrl(input), workspace, d1);
    var d2 := d1 + [Word("--backend-url"), Word(BackendUrl(input))];
    LexArgument("--workspace-id", input.workspaceId, token, d2);
    var d3 := d2 + [Word("--workspace-id"), Word(input.workspaceId)];
    LexArgument("--daemon-token", input.daemonToken, last, d3);
    var d4 := d3 + [Word("--daemon-token"), Word(input.daemonToken)];
    LexArgLine("--static-base", StaticBaseUrl(input), "", d4);
    LexEnd(StaticBaseUrl(input), d4 + [Word("--static-base")]);
    assert d4 + [Word("--static-base")] + [Word(StaticBaseUrl(input))] == IntendedTokens(input);
  }

  lemma LexArgument(flag: string, value: string, rest: string, done: seq<Token>)
    requires PlainWord(flag)
    ensures Lex(ArgLine(flag, value) + (NEXT_LINE + rest), Reader(None, false, done)) ==
            Lex(rest, Reader(None, false, done + [Word(flag), Word(value)]))
  {
    hide Lex, ArgLine, PlainWord;
    LexArgLine(flag, value, NEXT_LINE + rest, done);
    LexNextLine(value, rest, done + [Word(flag)]);
    assert done + [Word(flag)] + [Word(value)] == done + [Word(flag), Word(value)];
  }

  lemma LexEnd(value: string, done: seq<Token>)
    ensures Lex("", Reader(Some(value), false, done)) == Some(done + [Word(value)])
  {
  }
}
