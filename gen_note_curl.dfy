/**
 * The request-shaping logic of the note-curl generator: reading a note URL,
 * building the note-feed request payload, rendering the signed request as a
 * multi-line curl command, and the input resolution of the command-line
 * entry point (which inputs win, and when it stops with exit code 2).
 *
 * The request signer is not part of this model; the entry point takes it as
 * a function from (cookie string, API path, payload, HTTP method) to the
 * header list and the serialized body.
 */
module GenNoteCurl {
  import opened Wrappers
  import opened Text
  import opened UrlParse
  import opened Shlex

  const ApiPath: string := "/api/sns/web/v1/feed"
  const ApiUrl: string := "https://edith.xiaohongshu.com" + ApiPath

  /** The source used when none is given. */
  const DefaultSource: string := "pc_search"

  // ---------------------------------------------------------------------
  // Note URL

  /** Which note to fetch, with its security token and source. */
  datatype NoteRef = NoteRef(noteId: string, xsecToken: string, xsecSource: string)

  /**
   * Reads a note URL: the note id is the last `/`-separated segment of the
   * path once every trailing `/` is removed; `xsec_token` and `xsec_source`
   * are the first values of those query fields, or `""` and `"pc_search"`.
   */
  function ParseNoteUrl(noteUrl: string, unquote: string -> string): (r: NoteRef)
    ensures '/' !in r.noteId
  {
    var parsed := SplitUrl(noteUrl);
    var noteId := NoteIdOfPath(parsed.path);
    var qs := ParseQs(parsed.Query(), unquote);
    NoteRef(noteId, GetFirst(qs, "xsec_token", ""), GetFirst(qs, "xsec_source", DefaultSource))
  }

  /** The last `/`-separated segment of a path once its trailing `/` are removed. */
  function NoteIdOfPath(path: string): (id: string)
    ensures IsLastPiece(id, RStrip(path, '/'), '/')
  {
    LastPieceIsSuffix(RStrip(path, '/'), '/');
    Last(Split(RStrip(path, '/'), '/'))
  }

  /** The note id depends on the path of the URL only. */
  lemma NoteIdField(noteUrl: string, unquote: string -> string)
    ensures ParseNoteUrl(noteUrl, unquote).noteId == NoteIdOfPath(SplitUrl(noteUrl).path)
  {
  }

  /** The path of the URL without its trailing slashes. */
  function StrippedPath(noteUrl: string): string {
    RStrip(SplitUrl(noteUrl).path, '/')
  }

  /**
   * The note id is the text after the last `/` of the path once all trailing
   * `/` are removed (the whole stripped path when it holds no `/`).
   */
  lemma NoteIdIsLastSegment(noteUrl: string, unquote: string -> string)
    ensures IsLastPiece(ParseNoteUrl(noteUrl, unquote).noteId, StrippedPath(noteUrl), '/')
  {
    NoteIdField(noteUrl, unquote);
  }

  /** The note id is empty exactly when the path is made of slashes only (a bare domain, or `/`). */
  lemma NoteIdEmptyIff(noteUrl: string, unquote: string -> string)
    ensures ParseNoteUrl(noteUrl, unquote).noteId == [] <==> AllAre(SplitUrl(noteUrl).path, '/')
  {
    LastStrippedPieceEmptyIff(SplitUrl(noteUrl).path, '/');
  }

  /** A URL with a host and no path, such as `https://www.xiaohongshu.com`, gives an empty note id. */
  lemma BareDomainNoteId(host: string, unquote: string -> string)
    requires '/' !in host && '?' !in host && '#' !in host
    ensures ParseNoteUrl("https://" + host, unquote).noteId == ""
  {
    BareDomainPath(host);
    NoteIdEmptyIff("https://" + host, unquote);
  }

  /** `https://host` has an empty path. */
  lemma BareDomainPath(host: string)
    requires '/' !in host && '?' !in host && '#' !in host
    ensures SplitUrl("https://" + host).path == []
  {
    var url := "https://" + host;
    assert url == "https:" + ("//" + host);
    HttpsScheme("//" + host);
    NetlocOnly(host);
    var afterNetloc := SplitNetloc(SplitScheme(url).1).1;
    assert afterNetloc == [];
    assert SplitAt(afterNetloc, '#') == ([], None);
    assert SplitAt([], '?') == ([], None);
  }

  /** `//host` is all network location when the host holds no `/`, `?` or `#`. */
  lemma NetlocOnly(host: string)
    requires '/' !in host && '?' !in host && '#' !in host
    ensures SplitNetloc("//" + host) == (Some(host), [])
  {
    var s := "//" + host;
    assert StartsWithSlashes(s);
    assert s[2..] == host;
    FirstOfNone(host, {'/', '?', '#'});
    assert s[2..|s|] == host && s[|s|..] == [];
  }

  /** `https:...` has the scheme `https`. */
  lemma HttpsScheme(rest: string)
    ensures SplitScheme("https:" + rest) == ("https", rest)
  {
    var url := "https:" + rest;
    FirstOfAt(url, {':'}, 5);
    assert IsAsciiAlpha(url[0]);
    assert forall j :: 0 <= j < 5 ==> IsSchemeChar(url[j]);
    assert url[..5] == "https" && url[6..] == rest;
  }

  /**
   * `xsec_token` is the decoded value of the first query field that gives it
   * a non-empty value, and `""` when no field does.
   */
  lemma TokenIsFirstValue(noteUrl: string, unquote: string -> string)
    ensures var fields := Split(SplitUrl(noteUrl).Query(), '&');
      var token := ParseNoteUrl(noteUrl, unquote).xsecToken;
      && (NoBinding(fields, "xsec_token", unquote) ==> token == "")
      && forall i :: FirstBinding(fields, "xsec_token", unquote, i) ==> token == FieldValue(fields[i], unquote)
  {
    FirstValueLookup(SplitUrl(noteUrl).Query(), "xsec_token", "", unquote);
  }

  /**
   * `xsec_source` is the decoded value of the first query field that gives it
   * a non-empty value, and `"pc_search"` when no field does.
   */
  lemma SourceIsFirstValue(noteUrl: string, unquote: string -> string)
    ensures var fields := Split(SplitUrl(noteUrl).Query(), '&');
      var source := ParseNoteUrl(noteUrl, unquote).xsecSource;
      && (NoBinding(fields, "xsec_source", unquote) ==> source == DefaultSource)
      && forall i :: FirstBinding(fields, "xsec_source", unquote, i) ==> source == FieldValue(fields[i], unquote)
  {
    FirstValueLookup(SplitUrl(noteUrl).Query(), "xsec_source", DefaultSource, unquote);
  }

  // ---------------------------------------------------------------------
  // Payload

  /** The nested `extra` object of the payload. */
  datatype Extra = Extra(needBodyTopic: string)

  /** The JSON body of a note-feed request, field by field. */
  datatype Payload = Payload(
    sourceNoteId: string,
    imageFormats: seq<string>,
    extra: Extra,
    xsecSource: string,
    xsecToken: string)

  /**
   * The payload for a note: fixed image formats and `extra`, the given id and
   * token, and the given source unless it is empty.
   */
  function BuildPayload(noteId: string, xsecToken: string, xsecSource: string): (p: Payload)
    ensures p.sourceNoteId == noteId && p.xsecToken == xsecToken
    ensures p.imageFormats == ["jpg", "webp", "avif"] && p.extra == Extra("1")
    ensures p.xsecSource != []
    ensures p.xsecSource == (if xsecSource != [] then xsecSource else DefaultSource)
  {
    Payload(noteId, ["jpg", "webp", "avif"], Extra("1"), if xsecSource != "" then xsecSource else DefaultSource, xsecToken)
  }

  /**
   * Two builds give the same payload exactly when id and token agree and the
   * sources agree once an empty source is read as `"pc_search"`.
   */
  lemma BuildPayloadSameIff(id1: string, token1: string, source1: string, id2: string, token2: string, source2: string)
    ensures BuildPayload(id1, token1, source1) == BuildPayload(id2, token2, source2)
      <==> id1 == id2 && token1 == token2
           && (if source1 == "" then DefaultSource else source1) == (if source2 == "" then DefaultSource else source2)
  {
  }

  /** Rebuilding a payload from its own fields changes nothing: the default is applied once. */
  lemma BuildPayloadIdempotent(noteId: string, xsecToken: string, xsecSource: string)
    ensures var p := BuildPayload(noteId, xsecToken, xsecSource);
      BuildPayload(p.sourceNoteId, p.xsecToken, p.xsecSource) == p
  {
  }

  // ---------------------------------------------------------------------
  // curl command

  /** A header, as the signer's header dictionary yields it: name and value. */
  type Header = (string, string)

  /** One line of the command: an indent, a word, a blank and a shell-quoted argument. */
  function Line(indent: string, word: string, arg: string): string {
    indent + word + " " + Quote(arg)
  }

  /** `curl <url> \` */
  function FirstLine(): (l: string)
    ensures EndsWithContinuation(l)
  {
    Continued(Line("", "curl", ApiUrl));
    Line("", "curl", ApiUrl) + " \\"
  }

  /** `  -H '<name>: <value>' \` */
  function HeaderLine(h: Header): (l: string)
    ensures EndsWithContinuation(l)
  {
    Continued(Line("  ", "-H", h.0 + ": " + h.1));
    Line("  ", "-H", h.0 + ": " + h.1) + " \\"
  }

  /** `  -H 'cookie: <cookies>' \` */
  function CookieLine(cookies: string): (l: string)
    ensures EndsWithContinuation(l)
  {
    Continued(Line("  ", "-H", "cookie: " + cookies));
    Line("  ", "-H", "cookie: " + cookies) + " \\"
  }

  /** `  --data-raw '<body>'` */
  function DataLine(data: string): (l: string)
    ensures !EndsWithContinuation(l)
  {
    var l := Line("  ", "--data-raw", data);
    assert l[|l| - 1] == Quote(data)[|Quote(data)| - 1];
    l
  }

  function HeaderLines(headers: seq<Header>): seq<string> {
    Map(HeaderLine, headers)
  }

  /** The lines of the command, in order. */
  function CurlLines(headers: seq<Header>, data: string, cookies: string): (lines: seq<string>)
    ensures |lines| == |headers| + 3
  {
    [FirstLine()] + HeaderLines(headers) + [CookieLine(cookies), DataLine(data)]
  }

  /** The arguments curl receives for each header. */
  function HeaderArgs(headers: seq<Header>): seq<string>
    decreases |headers|
  {
    if headers == [] then []
    else ["-H", headers[0].0 + ": " + headers[0].1] + HeaderArgs(headers[1..])
  }

  /** The command the text stands for: program name, URL, one `-H` per header, the cookie header, the body. */
  function CurlArgv(headers: seq<Header>, data: string, cookies: string): seq<string> {
    ["curl", ApiUrl] + HeaderArgs(headers) + ["-H", "cookie: " + cookies, "--data-raw", data]
  }

  predicate EndsWithContinuation(line: string) {
    |line| >= 2 && line[|line| - 2..] == " \\"
  }

  /**
   * Renders the request as a curl command: the URL line, one `-H` line per
   * header in the given order, the cookie header line and the `--data-raw`
   * line, joined by newlines; every argument is shell-quoted. Read back by a
   * shell, the text is exactly the intended command.
   */
  method ToCurl(headers: seq<Header>, dataStr: string, cookiesStr: string) returns (text: string)
    ensures text == Join(CurlLines(headers, dataStr, cookiesStr), '\n')
    ensures Words(text) == Some(CurlArgv(headers, dataStr, cookiesStr))
  {
    var lines := [FirstLine()];
    assert headers[..0] == [];
    for i := 0 to |headers|
      invariant lines == [FirstLine()] + HeaderLines(headers[..i])
    {
      HeaderLinesSnoc([FirstLine()], headers, i);
      lines := lines + [HeaderLine(headers[i])];
    }
    assert headers[..|headers|] == headers;
    AppendTwo(lines, CookieLine(cookiesStr), DataLine(dataStr));
    lines := lines + [CookieLine(cookiesStr)];
    lines := lines + [DataLine(dataStr)];
    text := Join(lines, '\n');
    CurlCommandWords(headers, dataStr, cookiesStr);
  }

  /** The loop step of `ToCurl`, behind any prefix of lines. */
  lemma HeaderLinesSnoc(prefix: seq<string>, headers: seq<Header>, i: int)
    requires 0 <= i < |headers|
    ensures prefix + HeaderLines(headers[..i]) + [HeaderLine(headers[i])] == prefix + HeaderLines(headers[..i + 1])
  {
    MapPush(HeaderLine, headers, i);
    Assoc(prefix, HeaderLines(headers[..i]), [HeaderLine(headers[i])]);
  }

  lemma AppendTwo(prefix: seq<string>, a: string, b: string)
    ensures prefix + [a] + [b] == prefix + [a, b]
  {
  }

  /** The API URL needs no quoting. */
  lemma ApiUrlIsSafe()
    ensures Quote(ApiUrl) == ApiUrl
  {
    var host: string, path: string := "https://edith.xiaohongshu.com", ApiPath;
    assert IsSafe(host);
    assert IsSafe(path);
    SafeConcat(host, path);
    QuoteKeepsIff(ApiUrl);
  }

  /**
   * The command has `|headers| + 3` lines: the URL line (exactly
   * `curl https://edith.xiaohongshu.com/api/sns/web/v1/feed \`), the header
   * lines in order, the cookie line and the body line; every line but the
   * last ends with ` \`.
   */
  lemma CurlLinesShape(headers: seq<Header>, data: string, cookies: string)
    ensures var lines := CurlLines(headers, data, cookies);
      && |lines| == |headers| + 3
      && lines[0] == "curl " + ApiUrl + " \\"
      && (forall i :: 0 <= i < |headers| ==> lines[i + 1] == HeaderLine(headers[i]))
      && lines[|headers| + 1] == CookieLine(cookies)
      && lines[|headers| + 2] == DataLine(data)
      && (forall i :: 0 <= i < |headers| + 2 ==> EndsWithContinuation(lines[i]))
      && !EndsWithContinuation(lines[|headers| + 2])
  {
    var first, middle, before, last := FirstLine(), HeaderLines(headers), CookieLine(cookies), DataLine(data);
    Layout(first, middle, before, last);
    Continued(Line("", "curl", ApiUrl));
    Continued(Line("  ", "-H", "cookie: " + cookies));
    HeaderLinesContinued(headers);
    LayoutContinued(first, middle, before, last);
    HeaderLinesAt(headers);
    FirstLineIsPlain();
  }

  /** The URL line, with the URL left unquoted. */
  lemma FirstLineIsPlain()
    ensures FirstLine() == "curl " + ApiUrl + " \\"
  {
    ApiUrlIsSafe();
    assert "" + "curl" + " " == "curl ";
  }

  /** A line with ` \` appended ends with a continuation. */
  lemma Continued(line: string)
    ensures EndsWithContinuation(line + " \\")
  {
    assert (line + " \\")[|line|..] == " \\";
  }

  /** Header line `i` is the line of header `i`. */
  lemma HeaderLinesAt(headers: seq<Header>)
    ensures |HeaderLines(headers)| == |headers|
    ensures forall i :: 0 <= i < |headers| ==> HeaderLines(headers)[i] == HeaderLine(headers[i])
  {
    forall i | 0 <= i < |headers|
      ensures HeaderLines(headers)[i] == HeaderLine(headers[i])
    {
      MapAt(HeaderLine, headers, i);
    }
  }

  /** Every header line ends with a continuation. */
  lemma HeaderLinesContinued(headers: seq<Header>)
    ensures forall i :: 0 <= i < |HeaderLines(headers)| ==> EndsWithContinuation(HeaderLines(headers)[i])
  {
    forall i | 0 <= i < |HeaderLines(headers)|
      ensures EndsWithContinuation(HeaderLines(headers)[i])
    {
      MapAt(HeaderLine, headers, i);
      Continued(Line("  ", "-H", headers[i].0 + ": " + headers[i].1));
    }
  }

  /** Where each part sits in `[first] + middle + [before, last]`. */
  lemma Layout(first: string, middle: seq<string>, before: string, last: string)
    ensures var lines := [first] + middle + [before, last];
      && |lines| == |middle| + 3
      && lines[0] == first
      && (forall i :: 0 <= i < |middle| ==> lines[i + 1] == middle[i])
      && lines[|middle| + 1] == before
      && lines[|middle| + 2] == last
  {
  }

  /** When all parts but the last end with a continuation, so do all lines but the last. */
  lemma LayoutContinued(first: string, middle: seq<string>, before: string, last: string)
    requires EndsWithContinuation(first) && EndsWithContinuation(before)
    requires forall i :: 0 <= i < |middle| ==> EndsWithContinuation(middle[i])
    ensures var lines := [first] + middle + [before, last];
      forall i :: 0 <= i < |middle| + 2 ==> EndsWithContinuation(lines[i])
  {
    var lines := [first] + middle + [before, last];
    forall i | 0 <= i < |middle| + 2
      ensures EndsWithContinuation(lines[i])
    {
      if 1 <= i <= |middle| {
        assert lines[i] == middle[i - 1];
      }
    }
  }

  /** A blank before a word is skipped. */
  lemma SkipBlank(c: char, rest: string)
    requires IsBlank(c)
    ensures Words([c] + rest) == Words(rest)
  {
    assert ([c] + rest)[0] == c && ([c] + rest)[1..] == rest;
  }

  /** Blanks before a word are skipped. */
  lemma {:induction false} SkipBlanks(blanks: string, rest: string)
    requires forall i :: 0 <= i < |blanks| ==> IsBlank(blanks[i])
    ensures Words(blanks + rest) == Words(rest)
    decreases |blanks|
  {
    if blanks != [] {
      SkipBlanks(blanks[1..], rest);
      assert blanks + rest == [blanks[0]] + (blanks[1..] + rest);
      SkipBlank(blanks[0], blanks[1..] + rest);
    } else {
      assert blanks + rest == rest;
    }
  }

  /** ` \` followed by a newline, between words, is skipped. */
  lemma SkipContinuation(rest: string)
    ensures Words(" \\" + "\n" + rest) == Words(rest)
  {
    var s := " \\" + "\n" + rest;
    assert s[1..] == "\\\n" + rest;
    assert s[1..][2..] == rest;
  }

  /** An option and its quoted argument are two words. */
  lemma OptionWords(opt: string, arg: string, rest: string)
    requires opt != [] && IsSafe(opt)
    requires rest == [] || IsBlank(rest[0])
    ensures Words(opt + " " + Quote(arg) + rest) == Cons(opt, Cons(arg, Words(rest)))
  {
    var quoted := Quote(arg) + rest;
    assert opt + " " + Quote(arg) + rest == opt + ([' '] + quoted);
    WordsSafe(opt, [' '] + quoted);
    SkipBlank(' ', quoted);
    WordsQuoted(arg, rest);
  }

  /** A line `indent word 'arg' \` followed by a newline contributes `word` and `arg`. */
  lemma ContinuedLineWords(indent: string, word: string, arg: string, rest: string)
    requires forall i :: 0 <= i < |indent| ==> IsBlank(indent[i])
    requires word != [] && IsSafe(word)
    ensures Words(Line(indent, word, arg) + " \\" + ['\n'] + rest) == Cons(word, Cons(arg, Words(rest)))
  {
    var tail := " \\" + "\n" + rest;
    Regroup(indent, word, Quote(arg), rest);
    SkipBlanks(indent, word + " " + Quote(arg) + tail);
    OptionWords(word, arg, tail);
    SkipContinuation(rest);
  }

  lemma Regroup(indent: string, word: string, quoted: string, rest: string)
    ensures indent + word + " " + quoted + " \\" + ['\n'] + rest == indent + (word + " " + quoted + (" \\" + "\n" + rest))
  {
  }

  /** The last line `indent word 'arg'` contributes `word` and `arg`. */
  lemma LastLineWords(indent: string, word: string, arg: string)
    requires forall i :: 0 <= i < |indent| ==> IsBlank(indent[i])
    requires word != [] && IsSafe(word)
    ensures Words(Line(indent, word, arg)) == Some([word, arg])
  {
    var line := word + " " + Quote(arg);
    assert Line(indent, word, arg) == indent + line;
    SkipBlanks(indent, line);
    assert line + [] == line;
    OptionWords(word, arg, []);
    assert [word] + ([arg] + []) == [word, arg];
  }

  /** The option words of the command need no quoting. */
  lemma OptionsAreSafe()
    ensures IsSafe("curl") && IsSafe("-H") && IsSafe("--data-raw")
  {
  }

  /** The cookie line and the body line read as `-H`, the cookie header, `--data-raw` and the body. */
  lemma LastLinesWords(data: string, cookies: string)
    ensures Words(Join([CookieLine(cookies), DataLine(data)], '\n')) == Some(["-H", "cookie: " + cookies, "--data-raw", data])
  {
    JoinTwo(CookieLine(cookies), DataLine(data), '\n');
    OptionsAreSafe();
    ContinuedThenLast("  ", "-H", "cookie: " + cookies, "  ", "--data-raw", data);
  }

  /** A continued line followed by a last line gives the words of both. */
  lemma ContinuedThenLast(indent1: string, word1: string, arg1: string, indent2: string, word2: string, arg2: string)
    requires forall i :: 0 <= i < |indent1| ==> IsBlank(indent1[i])
    requires forall i :: 0 <= i < |indent2| ==> IsBlank(indent2[i])
    requires word1 != [] && IsSafe(word1) && word2 != [] && IsSafe(word2)
    ensures Words(Line(indent1, word1, arg1) + " \\" + ['\n'] + Line(indent2, word2, arg2)) == Some([word1, arg1, word2, arg2])
  {
    ContinuedLineWords(indent1, word1, arg1, Line(indent2, word2, arg2));
    LastLineWords(indent2, word2, arg2);
    ConsTwice(word1, arg1, word2, arg2);
  }

  lemma ConsTwice(a: string, b: string, c: string, d: string)
    ensures Cons(a, Cons(b, Some([c, d]))) == Some([a, b, c, d])
  {
    assert [a] + ([b] + [c, d]) == [a, b, c, d];
  }

  /** A header line followed by a newline contributes `-H` and `name: value` before the words of the rest. */
  lemma HeaderLineWords(h: Header, rest: string, restWords: seq<string>)
    requires Words(rest) == Some(restWords)
    ensures Words(HeaderLine(h) + ['\n'] + rest) == Some(["-H", h.0 + ": " + h.1] + restWords)
  {
    OptionsAreSafe();
    ContinuedLineWords("  ", "-H", h.0 + ": " + h.1, rest);
    assert ["-H"] + ([h.0 + ": " + h.1] + restWords) == ["-H", h.0 + ": " + h.1] + restWords;
  }

  /** The first header line comes first, then a newline, then the other lines. */
  lemma JoinHeaderLines(headers: seq<Header>, tail: seq<string>)
    requires headers != [] && tail != []
    ensures Join(HeaderLines(headers) + tail, '\n') == HeaderLine(headers[0]) + ['\n'] + Join(HeaderLines(headers[1..]) + tail, '\n')
  {
    MapCons(HeaderLine, headers);
    Assoc([HeaderLine(headers[0])], HeaderLines(headers[1..]), tail);
    JoinCons(HeaderLine(headers[0]), HeaderLines(headers[1..]) + tail, '\n');
  }

  /** The first header's arguments come first. */
  lemma HeaderArgsCons(headers: seq<Header>, more: seq<string>)
    requires headers != []
    ensures HeaderArgs(headers) + more == ["-H", headers[0].0 + ": " + headers[0].1] + (HeaderArgs(headers[1..]) + more)
  {
  }

  /** Header lines, then the cookie line and the body line, read as the matching arguments. */
  lemma {:induction false} TailWords(headers: seq<Header>, data: string, cookies: string)
    ensures Words(Join(HeaderLines(headers) + [CookieLine(cookies), DataLine(data)], '\n'))
         == Some(HeaderArgs(headers) + ["-H", "cookie: " + cookies, "--data-raw", data])
    decreases |headers|
  {
    var tail := [CookieLine(cookies), DataLine(data)];
    var tailArgs := ["-H", "cookie: " + cookies, "--data-raw", data];
    var lines := HeaderLines(headers) + tail;
    if headers == [] {
      assert lines == tail;
      assert HeaderArgs(headers) + tailArgs == tailArgs;
      LastLinesWords(data, cookies);
    } else {
      var h := headers[0];
      var restText := Join(HeaderLines(headers[1..]) + tail, '\n');
      TailWords(headers[1..], data, cookies);
      HeaderLineWords(h, restText, HeaderArgs(headers[1..]) + tailArgs);
      JoinHeaderLines(headers, tail);
      HeaderArgsCons(headers, tailArgs);
    }
  }

  /** The URL line comes first, then a newline, then the other lines. */
  lemma JoinFirstLine(headers: seq<Header>, data: string, cookies: string)
    ensures Join(CurlLines(headers, data, cookies), '\n')
         == FirstLine() + ['\n'] + Join(HeaderLines(headers) + [CookieLine(cookies), DataLine(data)], '\n')
  {
    JoinAfter(FirstLine(), HeaderLines(headers), [CookieLine(cookies), DataLine(data)], '\n');
  }

  /** The program name and the URL come first. */
  lemma CurlArgvCons(headers: seq<Header>, data: string, cookies: string)
    ensures CurlArgv(headers, data, cookies)
         == ["curl"] + ([ApiUrl] + (HeaderArgs(headers) + ["-H", "cookie: " + cookies, "--data-raw", data]))
  {
  }

  /**
   * Read by a POSIX shell, the command text is exactly one command whose
   * words are `curl`, the API URL, `-H` and `name: value` for each header in
   * order, `-H` and `cookie: <cookies>`, `--data-raw` and the body.
   */
  lemma CurlCommandWords(headers: seq<Header>, data: string, cookies: string)
    ensures Words(Join(CurlLines(headers, data, cookies), '\n')) == Some(CurlArgv(headers, data, cookies))
  {
    var rest := HeaderLines(headers) + [CookieLine(cookies), DataLine(data)];
    JoinFirstLine(headers, data, cookies);
    TailWords(headers, data, cookies);
    OptionsAreSafe();
    ContinuedLineWords("", "curl", ApiUrl, Join(rest, '\n'));
    CurlArgvCons(headers, data, cookies);
  }

  // ---------------------------------------------------------------------
  // Entry point

  /** The command-line arguments; an option that was not given is `None`. */
  datatype Args = Args(
    noteUrl: Option<string>,
    noteId: Option<string>,
    xsecToken: Option<string>,
    xsecSource: string,
    cookies: Option<string>)

  /** An optional string that is present and non-empty (what the entry point tests as true). */
  predicate Given(o: Option<string>) {
    o.Some? && o.value != ""
  }

  /** Everything the request needs once the inputs are resolved. */
  datatype Request = Request(note: NoteRef, cookies: string)

  const MissingNoteMessage: string := "Error: provide --note-url or both --note-id and --xsec-token."
  const MissingCookiesMessage: string := "Error: COOKIES not found. Set .env COOKIES or pass --cookies."

  /**
   * Resolves the inputs: a note URL wins over `--note-id`/`--xsec-token`;
   * without one, both of those must be given. Then `--cookies` wins over the
   * cookie string from the environment file, and one of them must be
   * non-empty. The error is the message printed before exiting with code 2.
   */
  function Resolve(args: Args, envCookies: Option<string>, unquote: string -> string): (r: Result<Request, string>)
    ensures r.Ok? <==> (Given(args.noteUrl) || (Given(args.noteId) && Given(args.xsecToken)))
                       && (Given(args.cookies) || Given(envCookies))
    ensures r.Err? ==> r.error == if Given(args.noteUrl) || (Given(args.noteId) && Given(args.xsecToken))
                                  then MissingCookiesMessage else MissingNoteMessage
    ensures r.Ok? && Given(args.noteUrl) ==> r.value.note == ParseNoteUrl(args.noteUrl.value, unquote)
    ensures r.Ok? && !Given(args.noteUrl) ==> r.value.note == NoteRef(args.noteId.value, args.xsecToken.value, args.xsecSource)
    ensures r.Ok? ==> r.value.cookies != "" && r.value.cookies == if Given(args.cookies) then args.cookies.value else envCookies.value
  {
    var note :=
      if Given(args.noteUrl) then Some(ParseNoteUrl(args.noteUrl.value, unquote))
      else if !Given(args.noteId) || !Given(args.xsecToken) then None
      else Some(NoteRef(args.noteId.value, args.xsecToken.value, args.xsecSource));
    if note.None? then Err(MissingNoteMessage)
    else
      var cookies := if Given(args.cookies) then args.cookies else envCookies;
      if !Given(cookies) then Err(MissingCookiesMessage)
      else Ok(Request(note.value, cookies.value))
  }

  /** With a note URL, `--note-id`, `--xsec-token` and `--xsec-source` make no difference. */
  lemma UrlTakesPrecedence(args: Args, envCookies: Option<string>, unquote: string -> string,
                           noteId: Option<string>, xsecToken: Option<string>, xsecSource: string)
    requires Given(args.noteUrl)
    ensures Resolve(args, envCookies, unquote)
         == Resolve(args.(noteId := noteId, xsecToken := xsecToken, xsecSource := xsecSource), envCookies, unquote)
  {
  }

  /** Without a note URL, a missing id or token stops the run whatever the cookies are. */
  lemma MissingNoteBeforeCookies(args: Args, envCookies: Option<string>, unquote: string -> string)
    requires !Given(args.noteUrl) && !(Given(args.noteId) && Given(args.xsecToken))
    ensures Resolve(args, envCookies, unquote) == Err(MissingNoteMessage)
  {
  }

  /**
   * The entry point: exit code 2 with one diagnostic line when the inputs do
   * not resolve; otherwise the payload is built and signed, and exactly one
   * curl command is printed, with exit code 0.
   */
  method Run(args: Args, envCookies: Option<string>, unquote: string -> string,
              sign: (string, string, Payload, string) -> (seq<Header>, string))
    returns (exitCode: int, stdout: seq<string>, stderr: seq<string>)
    ensures exitCode == 0 || exitCode == 2
    ensures exitCode == 0 <==> Resolve(args, envCookies, unquote).Ok?
    ensures exitCode == 2 ==> stdout == [] && stderr == [Resolve(args, envCookies, unquote).error]
    ensures exitCode == 0 ==>
      var req := Resolve(args, envCookies, unquote).value;
      var signed := sign(req.cookies, ApiPath, BuildPayload(req.note.noteId, req.note.xsecToken, req.note.xsecSource), "POST");
      && stderr == [] && |stdout| == 1
      && stdout[0] == Join(CurlLines(signed.0, signed.1, req.cookies), '\n')
      && Words(stdout[0]) == Some(CurlArgv(signed.0, signed.1, req.cookies))
  {
    match Resolve(args, envCookies, unquote)
    case Err(message) =>
      exitCode, stdout, stderr := 2, [], [message];
    case Ok(req) =>
      var payload := BuildPayload(req.note.noteId, req.note.xsecToken, req.note.xsecSource);
      var signed := sign(req.cookies, ApiPath, payload, "POST");
      var text := ToCurl(signed.0, signed.1, req.cookies);
      exitCode, stdout, stderr := 0, [text], [];
  }
}
