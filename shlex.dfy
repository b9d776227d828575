/**
 * Python's `shlex.quote` and, as the reference it is checked against, a
 * reader for POSIX shell words (IEEE Std 1003.1, Shell Command Language,
 * section 2.2 "Quoting" and section 2.3 "Token Recognition") restricted to
 * one simple command with no expansions.
 */
module Shlex {
  import opened Wrappers

  /** The characters `shlex.quote` leaves unquoted: ASCII letters, digits and `_@%+=:,./-`. */
  predicate IsSafeChar(c: char) {
    'a' <= c <= 'z' || 'A' <= c <= 'Z' || '0' <= c <= '9'
    || c == '_' || c == '@' || c == '%' || c == '+' || c == '=' || c == ':'
    || c == ',' || c == '.' || c == '/' || c == '-'
  }

  predicate IsSafe(s: string) {
    forall i :: 0 <= i < |s| ==> IsSafeChar(s[i])
  }

  lemma SafeConcat(a: string, b: string)
    requires IsSafe(a) && IsSafe(b)
    ensures IsSafe(a + b)
  {
    forall i | 0 <= i < |a + b|
      ensures IsSafeChar((a + b)[i])
    {
      if i >= |a| {
        assert (a + b)[i] == b[i - |a|];
      }
    }
  }

  /** Every `'` rewritten as `'"'"'`: close the single quotes, a double-quoted `'`, reopen them. */
  function Escape(s: string): (e: string)
    ensures |e| >= |s|
    ensures |e| == |s| <==> '\'' !in s
    ensures '\'' !in s ==> e == s
    decreases |s|
  {
    if s == [] then []
    else (if s[0] == '\'' then "'\"'\"'" else [s[0]]) + Escape(s[1..])
  }

  /**
   * `shlex.quote(s)`: `''` for the empty string, `s` itself when it is made
   * of safe characters only, and otherwise `s` in single quotes.
   */
  function Quote(s: string): (q: string)
    ensures q != []
    ensures q[0] != ' ' && q[0] != '\t' && q[0] != '\\'
    ensures q[|q| - 1] != '\\'
  {
    if s == [] then "''"
    else if IsSafe(s) then s
    else "'" + Escape(s) + "'"
  }

  /** Space and tab separate words. */
  predicate IsBlank(c: char) { c == ' ' || c == '\t' }

  /**
   * Characters that, outside quotes, are not ordinary word characters: the
   * operator characters and newline end the command, `$` and backquote start
   * expansions, `*`, `?` and `[` start patterns, `#` starts a comment and `~`
   * a tilde expansion. The reader refuses them rather than interpret them.
   */
  predicate IsSpecial(c: char) {
    c == '|' || c == '&' || c == ';' || c == '<' || c == '>' || c == '(' || c == ')'
    || c == '$' || c == '`' || c == '*' || c == '?' || c == '[' || c == '#' || c == '~'
    || c == '\n'
  }

  /** Where the reader is: outside quotes, inside single quotes, inside double quotes. */
  datatype Mode = Unquoted | InSingle | InDouble

  /** What the character (or backslash pair) at the start of the input does to the word being read. */
  datatype Step =
    | Take(out: string, consumed: nat, next: Mode)  // consume `consumed` characters, add `out` to the word
    | EndOfWord                                     // an unquoted blank: the word is complete
    | Refuse                                        // not part of a plain word

  /**
   * The quoting rules, one character at a time. Outside quotes a backslash
   * keeps the next character literal and a backslash-newline pair is
   * removed. Inside single quotes every character is literal up to the next
   * `'`. Inside double quotes a backslash escapes only `$`, backquote, `"`,
   * backslash and newline, and `$` or backquote would start an expansion.
   */
  function StepAt(s: string, mode: Mode): (st: Step)
    requires s != []
    ensures st.Take? ==> 1 <= st.consumed <= |s|
    ensures st.EndOfWord? ==> mode == Unquoted && IsBlank(s[0])
  {
    var c := s[0];
    match mode
    case Unquoted =>
      if IsBlank(c) then EndOfWord
      else if c == '\'' then Take([], 1, InSingle)
      else if c == '"' then Take([], 1, InDouble)
      else if c == '\\' then
        if |s| < 2 then Refuse
        else if s[1] == '\n' then Take([], 2, Unquoted)
        else Take([s[1]], 2, Unquoted)
      else if IsSpecial(c) then Refuse
      else Take([c], 1, Unquoted)
    case InSingle =>
      if c == '\'' then Take([], 1, Unquoted) else Take([c], 1, InSingle)
    case InDouble =>
      if c == '"' then Take([], 1, Unquoted)
      else if c == '$' || c == '`' then Refuse
      else if c == '\\' then
        if |s| < 2 then Refuse
        else if s[1] == '\n' then Take([], 2, InDouble)
        else if s[1] == '$' || s[1] == '`' || s[1] == '"' || s[1] == '\\' then Take([s[1]], 2, InDouble)
        else Take(['\\'], 1, InDouble)
      else Take([c], 1, InDouble)
  }

  /** Adds text in front of the word that was read. */
  function PrependAll(w: string, r: Option<(string, string)>): Option<(string, string)> {
    match r
    case None => None
    case Some(p) => Some((w + p.0, p.1))
  }

  /**
   * Reads one word from the start of `s`, in the given mode, and returns its
   * value after quote removal together with the unread rest, which starts at
   * the blank that ended the word (or is empty). `None` when the text is not a
   * plain word: an unterminated quote, a special character outside quotes, an
   * expansion inside double quotes, or a trailing backslash.
   */
  function ReadWord(s: string, mode: Mode): (r: Option<(string, string)>)
    ensures r.Some? ==> |r.value.1| <= |s|
    ensures r.Some? && s != [] && (mode != Unquoted || !IsBlank(s[0])) ==> |r.value.1| < |s|
    ensures r.Some? ==> r.value.1 == [] || IsBlank(r.value.1[0])
    decreases |s|
  {
    if s == [] then (if mode == Unquoted then Some(([], [])) else None)
    else
      match StepAt(s, mode)
      case EndOfWord => Some(([], s))
      case Refuse => None
      case Take(out, n, next) => PrependAll(out, ReadWord(s[n..], next))
  }

  /** The value of `s` read as exactly one shell word. */
  function ReadOneWord(s: string): Option<string> {
    match ReadWord(s, Unquoted)
    case Some(p) => if p.1 == [] then Some(p.0) else None
    case None => None
  }

  /** Adds a word in front of a list of words. */
  function Cons(w: string, r: Option<seq<string>>): Option<seq<string>> {
    match r
    case None => None
    case Some(ws) => Some([w] + ws)
  }

  /**
   * The words of a one-line command: blanks and backslash-newline pairs
   * between words are skipped, every other character starts a word.
   */
  function Words(s: string): Option<seq<string>>
    decreases |s|
  {
    if s == [] then Some([])
    else if IsBlank(s[0]) then Words(s[1..])
    else if s[0] == '\\' && |s| >= 2 && s[1] == '\n' then Words(s[2..])
    else
      match ReadWord(s, Unquoted)
      case None => None
      case Some(p) => Cons(p.0, Words(p.1))
  }

  /** A safe character is taken as it is. */
  lemma StepSafe(c: char, t: string)
    requires IsSafeChar(c)
    ensures StepAt([c] + t, Unquoted) == Take([c], 1, Unquoted)
  {
    assert ([c] + t)[0] == c;
  }

  /** One step of the reader: what the step takes, in front of the rest of the word. */
  lemma ReadTake(s: string, mode: Mode)
    requires s != [] && StepAt(s, mode).Take?
    ensures var st := StepAt(s, mode);
      ReadWord(s, mode) == PrependAll(st.out, ReadWord(s[st.consumed..], st.next))
  {
  }

  /** Safe characters are read as themselves, up to the blank (or the end) that follows. */
  lemma {:induction false} ReadSafe(x: string, rest: string)
    requires IsSafe(x)
    requires rest == [] || IsBlank(rest[0])
    ensures ReadWord(x + rest, Unquoted) == Some((x, rest))
    decreases |x|
  {
    if x == [] {
      assert x + rest == rest;
      ReadWordEnd(rest);
    } else {
      SafeTail(x);
      ReadSafe(x[1..], rest);
      ConsSplit(x, rest);
      ReadSafeStep(x[0], x[1..], rest);
    }
  }

  /** A safe character in front of a word that was read is read with it. */
  lemma ReadSafeStep(c: char, x: string, rest: string)
    requires IsSafeChar(c)
    requires ReadWord(x + rest, Unquoted) == Some((x, rest))
    ensures ReadWord([c] + (x + rest), Unquoted) == Some(([c] + x, rest))
  {
    var t := x + rest;
    StepSafe(c, t);
    ReadTake([c] + t, Unquoted);
    assert ([c] + t)[1..] == t;
  }

  lemma ConsSplit(x: string, rest: string)
    requires x != []
    ensures x + rest == [x[0]] + (x[1..] + rest)
    ensures [x[0]] + x[1..] == x
  {
  }

  /** Outside quotes, the end of the input or a blank ends an empty word. */
  lemma ReadWordEnd(rest: string)
    requires rest == [] || IsBlank(rest[0])
    ensures ReadWord(rest, Unquoted) == Some(([], rest))
  {
  }

  lemma SafeTail(x: string)
    requires x != [] && IsSafe(x)
    ensures IsSafe(x[1..])
  {
    forall i | 0 <= i < |x[1..]|
      ensures IsSafeChar(x[1..][i])
    {
      assert x[1..][i] == x[i + 1];
    }
  }

  /** Inside single quotes, `'"'"'` stands for one `'` and leaves the reader inside single quotes again. */
  lemma ReadEscapedQuote(tail: string)
    ensures ReadWord("'\"'\"'" + tail, InSingle) == PrependAll("'", ReadWord(tail, InSingle))
  {
    var t4 := ['\''] + tail;
    var t3 := ['"'] + t4;
    var t2 := ['\''] + t3;
    var t1 := ['"'] + t2;
    EscapedQuoteSpelling(tail);
    ReadChar('\'', t1, InSingle);
    ReadChar('"', t2, Unquoted);
    ReadChar('\'', t3, InDouble);
    ReadChar('"', t4, InDouble);
    ReadChar('\'', tail, Unquoted);
    var r := ReadWord(tail, InSingle);
    PrependNothing(r);
    PrependNothing(PrependAll("'", r));
  }

  lemma EscapedQuoteSpelling(tail: string)
    ensures "'\"'\"'" + tail == ['\''] + (['"'] + (['\''] + (['"'] + (['\''] + tail))))
  {
  }

  /** A step that takes one character puts what it takes in front of the rest of the word. */
  lemma ReadChar(c: char, t: string, mode: Mode)
    requires StepAt([c] + t, mode).Take? && StepAt([c] + t, mode).consumed == 1
    ensures ReadWord([c] + t, mode) == PrependAll(StepAt([c] + t, mode).out, ReadWord(t, StepAt([c] + t, mode).next))
  {
    ReadTake([c] + t, mode);
    assert ([c] + t)[1..] == t;
  }

  lemma PrependNothing(r: Option<(string, string)>)
    ensures PrependAll([], r) == r
  {
    if r.Some? {
      assert [] + r.value.0 == r.value.0;
    }
  }

  /** Inside single quotes, the escaped form of the first character reads as that character. */
  lemma ReadEscapedStep(x: string, rest: string)
    requires x != []
    ensures ReadWord(Escape(x) + "'" + rest, InSingle)
         == PrependAll([x[0]], ReadWord(Escape(x[1..]) + "'" + rest, InSingle))
  {
    var tail := Escape(x[1..]) + "'" + rest;
    var s := Escape(x) + "'" + rest;
    if x[0] == '\'' {
      assert s == "'\"'\"'" + tail;
      ReadEscapedQuote(tail);
    } else {
      assert s == [x[0]] + tail;
      assert s[0] == x[0] && s[1..] == tail;
      assert StepAt(s, InSingle) == Take([x[0]], 1, InSingle);
    }
  }

  /** The closing quote leaves single quotes. */
  lemma ReadClosingQuote(rest: string)
    ensures ReadWord("'" + rest, InSingle) == ReadWord(rest, Unquoted)
  {
    var s := "'" + rest;
    assert s[0] == '\'' && s[1..] == rest;
    assert StepAt(s, InSingle) == Take([], 1, Unquoted);
    var r := ReadWord(rest, Unquoted);
    if r.Some? {
      assert [] + r.value.0 == r.value.0;
    }
  }

  lemma PrependAllTwice(v: string, w: string, r: Option<(string, string)>)
    ensures PrependAll(v, PrependAll(w, r)) == PrependAll(v + w, r)
  {
    if r.Some? {
      assert v + (w + r.value.0) == v + w + r.value.0;
    }
  }

  /** Inside single quotes, `Escape(x)` and the closing quote read back as `x`. */
  lemma {:induction false} ReadEscaped(x: string, rest: string)
    ensures ReadWord(Escape(x) + "'" + rest, InSingle) == PrependAll(x, ReadWord(rest, Unquoted))
    decreases |x|
  {
    var r := ReadWord(rest, Unquoted);
    if x == [] {
      assert Escape(x) + "'" + rest == "'" + rest;
      ReadClosingQuote(rest);
      if r.Some? {
        assert x + r.value.0 == r.value.0;
      }
    } else {
      ReadEscaped(x[1..], rest);
      ReadEscapedStep(x, rest);
      PrependAllTwice([x[0]], x[1..], r);
      assert [x[0]] + x[1..] == x;
    }
  }

  /** `''` is read as the empty word. */
  lemma ReadEmptyQuotes(rest: string)
    requires rest == [] || IsBlank(rest[0])
    ensures ReadWord("''" + rest, Unquoted) == Some(([], rest))
  {
    var s := "''" + rest;
    assert s[0] == '\'' && s[1..] == "'" + rest;
    assert StepAt(s, Unquoted) == Take([], 1, InSingle);
    ReadClosingQuote(rest);
    ReadSafe([], rest);
    assert [] + ([] + rest) == rest;
  }

  /** A string in single quotes, with its own quotes escaped, is read back as itself. */
  lemma ReadSingleQuoted(x: string, rest: string)
    requires rest == [] || IsBlank(rest[0])
    ensures ReadWord("'" + Escape(x) + "'" + rest, Unquoted) == Some((x, rest))
  {
    var t := Escape(x) + "'" + rest;
    OpeningQuote(Escape(x), rest);
    ReadChar('\'', t, Unquoted);
    ReadEscaped(x, rest);
    ReadWordEnd(rest);
    PrependNothing(PrependAll(x, Some(([], rest))));
    assert x + [] == x;
  }

  lemma OpeningQuote(e: string, rest: string)
    ensures "'" + e + "'" + rest == ['\''] + (e + "'" + rest)
  {
  }

  /** A quoted string reads back as the original, up to the blank (or the end) that follows. */
  lemma ReadQuoted(x: string, rest: string)
    requires rest == [] || IsBlank(rest[0])
    ensures ReadWord(Quote(x) + rest, Unquoted) == Some((x, rest))
  {
    if x == [] {
      ReadEmptyQuotes(rest);
    } else if IsSafe(x) {
      ReadSafe(x, rest);
    } else {
      ReadSingleQuoted(x, rest);
    }
  }

  /** Quoting round-trips: the shell reads the quoted form back as the original string. */
  lemma QuoteRoundTrip(x: string)
    ensures ReadOneWord(Quote(x)) == Some(x)
  {
    ReadQuoted(x, []);
    assert Quote(x) + [] == Quote(x);
  }

  /** Different strings have different quoted forms. */
  lemma QuoteInjective(x: string, y: string)
    requires Quote(x) == Quote(y)
    ensures x == y
  {
    QuoteRoundTrip(x);
    QuoteRoundTrip(y);
  }

  /** In a command line, a quoted string followed by a blank is one word whose value is the original string. */
  lemma WordsQuoted(x: string, rest: string)
    requires rest == [] || IsBlank(rest[0])
    ensures Words(Quote(x) + rest) == Cons(x, Words(rest))
  {
    ReadQuoted(x, rest);
    var s := Quote(x) + rest;
    assert s[0] == Quote(x)[0];
  }

  /** Quoting leaves a string unchanged exactly when it is non-empty and made of safe characters. */
  lemma QuoteKeepsIff(s: string)
    ensures Quote(s) == s <==> s != [] && IsSafe(s)
  {
    if s != [] && !IsSafe(s) {
      assert |Quote(s)| > |s|;
    }
  }

  /** In a command line, a non-empty safe string followed by a blank is one word, itself. */
  lemma WordsSafe(x: string, rest: string)
    requires x != [] && IsSafe(x)
    requires rest == [] || IsBlank(rest[0])
    ensures Words(x + rest) == Cons(x, Words(rest))
  {
    ReadSafe(x, rest);
    assert (x + rest)[0] == x[0];
  }
}
