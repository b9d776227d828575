# Note-curl generator: a verified model

This project models `scripts/gen_note_curl.py` from the Spider_XHS
repository. The script turns a Xiaohongshu note URL, or a note id with its
security token, into a ready-to-run `curl` command that fetches the note
through the web API's note-feed endpoint (`POST
https://edith.xiaohongshu.com/api/sns/web/v1/feed`). The model covers:

- reading the note URL (`parse_note_url`): the note id is the last path
  segment; `xsec_token` and `xsec_source` come from the query string, with
  their defaults;
- building the request payload (`build_payload`), including the
  `"pc_search"` default for an empty source;
- rendering the signed request as a multi-line curl command (`to_curl`).
  This is an imperative loop over the header list, proved against a
  specification of the lines. It is also proved that a POSIX shell reading
  the text gets exactly the intended argument vector: `curl`, the URL, one
  `-H name: value` per header in order, the cookie header and
  `--data-raw` with the body;
- the decisions of the entry point (`main`): a note URL wins over the
  id/token options; both of those are needed without one; `--cookies`
  wins over the environment file; the run exits with code 2 and one
  diagnostic line when the inputs do not resolve, and otherwise prints
  exactly one command and exits with 0.

The script leans on Python's standard library. The parts it uses are
written out as their own modules, with the properties the script relies on:

- `Text`: `str.split`, `str.join` and `str.rstrip` for one character;
- `UrlParse`: `urllib.parse.urlsplit` and `parse_qs` with default flags;
- `Shlex`: `shlex.quote`. It is checked against an independent reader of
  POSIX shell words (IEEE Std 1003.1, Shell Command Language, sections 2.2
  and 2.3).

`Wrappers` holds the `Option` and `Result` types.

The request signer (`generate_request_params`) is a function parameter of
`GenNoteCurl.Run`. The cookie string of the environment file is a
parameter, and so is percent-decoding. What the script writes is returned
by `Run`: standard output as the list of strings passed to `print`, which
is one string on success, the whole multi-line command; standard error as
the list of diagnostic messages.

Two behaviours of the code are worth stating, and the model states them:

- `rstrip("/")` removes every trailing slash from the path, not just one,
  before the last segment is taken. `Text.RStrip` and
  `GenNoteCurl.NoteIdEmptyIff` state this.
- Passing `--note-url` together with `--note-id` or `--xsec-token` is not
  rejected: the URL silently wins. `GenNoteCurl.UrlTakesPrecedence` states
  this.

## Model

| member | source | states |
|---|---|---|
| Text.Split | scripts/gen_note_curl.py:27 | `split("/")` gives at least one piece, no piece holds the separator, and there is exactly one piece when the separator does not occur |
| Text.Join | scripts/gen_note_curl.py:50 | `"\n".join(lines)` starts with the first line, and when there are more lines the first is followed by the separator; with `SplitJoin` and `JoinSplit` it is the inverse of `split` |
| Text.JoinSplit | scripts/gen_note_curl.py:27 | joining the pieces of a split with the separator gives the original string back |
| Text.SplitJoin | scripts/gen_note_curl.py:50 | splitting a newline join of separator-free lines gives the lines back |
| Text.NoSeparator | scripts/gen_note_curl.py:27 | a string without the separator splits into itself alone |
| Text.SplitAppend | scripts/gen_note_curl.py:27 | splitting `a + sep + b`, with no separator in `a`, gives `a` followed by the pieces of `b` |
| Text.RStrip | scripts/gen_note_curl.py:27 | `rstrip("/")` gives a prefix of the input that does not end in `/`, and everything it removed was `/` |
| Text.LastPieceIsSuffix | scripts/gen_note_curl.py:27 | `split(...)[-1]` is the longest separator-free suffix: a suffix without the separator, preceded by the separator unless it is the whole string |
| Text.LastStrippedPieceEmptyIff | scripts/gen_note_curl.py:27 | after `rstrip`, the last piece is empty exactly when the string is made only of the stripped character |
| Text.Cut | scripts/gen_note_curl.py:28 | splitting at the first `=` gives a separator-free head, and head, `=` and tail rebuild the field |
| UrlParse.SplitUrl | scripts/gen_note_curl.py:26 | `urlparse` splits the URL into components that reassemble to it; a scheme is reported exactly when the URL has one, and it ends at the first `:`; a network location is split off exactly when `//` follows the scheme; the path holds no `?` or `#` and follows the network location at a `/`; the query holds no `#` |
| UrlParse.SplitScheme | scripts/gen_note_curl.py:26 | a scheme is split off exactly when the URL starts with a valid scheme and `:`, it holds no `:`, and scheme, `:` and rest rebuild the URL |
| UrlParse.SplitNetloc | scripts/gen_note_curl.py:26 | a network location is split off exactly when the text starts with `//`; it holds no `/`, `?` or `#`, the rest starts with one of them or is empty, and `//`, location and rest rebuild the text |
| UrlParse.PlusToSpace | scripts/gen_note_curl.py:28 | `parse_qs` turns every `+` of a name or value into a space and keeps every other character, before percent-decoding |
| UrlParse.FieldPairs | scripts/gen_note_curl.py:28 | `parse_qsl` gives at most one pair per `&`-separated field, and no pair exactly when no field holds `=` followed by a non-empty value |
| UrlParse.QueryPairs | scripts/gen_note_curl.py:28 | a query without `&` is a single field |
| UrlParse.CollectPairs | scripts/gen_note_curl.py:28 | the `parse_qs` dictionary has an entry for every name that occurs, and never maps a name to an empty list |
| UrlParse.ParseQs | scripts/gen_note_curl.py:28 | `parse_qs(query)` never maps a name to an empty list, so `qs.get(key) or [default]` falls back only for a missing name |
| UrlParse.GetFirst | scripts/gen_note_curl.py:29-30 | `(qs.get(key) or [default])[0]` is the first value of the name when it has one, and the default when the name is missing or its list is empty |
| UrlParse.SplitAt | scripts/gen_note_curl.py:26 | splitting at the first `?` or `#` rebuilds the text, and the part before holds no such character |
| UrlParse.CollectPairsValues | scripts/gen_note_curl.py:28 | the dictionary of `parse_qs` holds exactly the names that occur, each mapped to all its values in order of appearance |
| UrlParse.FirstValueOfFields | scripts/gen_note_curl.py:28-30 | a name has no values exactly when no field gives it a non-empty value; otherwise its first value is the decoded value of the first field that does |
| UrlParse.FirstValueLookup | scripts/gen_note_curl.py:29-30 | `(qs.get(key) or [default])[0]` is the default when no field binds the key, and otherwise the decoded value of the first field that binds it |
| Shlex.Quote | scripts/gen_note_curl.py:45-49 | `shlex.quote` never gives the empty string, and its result never starts with a blank or a backslash |
| Shlex.Escape | scripts/gen_note_curl.py:45-49 | the rewriting of `'` inside `shlex.quote` changes the text exactly when it holds a `'`, and never shortens it |
| Shlex.QuoteKeepsIff | scripts/gen_note_curl.py:45-49 | `shlex.quote` leaves a string unchanged exactly when it is non-empty and made only of safe characters |
| Shlex.QuoteRoundTrip | scripts/gen_note_curl.py:45-49 | a POSIX shell reads `shlex.quote(x)` back as exactly one word whose value is `x` (`ReadOneWord`) |
| Shlex.QuoteInjective | scripts/gen_note_curl.py:45-49 | different strings are quoted differently |
| Shlex.WordsQuoted | scripts/gen_note_curl.py:47-49 | a quoted argument followed by a blank or the end of the text is one word, the original argument, in a command line |
| Shlex.WordsSafe | scripts/gen_note_curl.py:45-49 | a non-empty safe word followed by a blank or the end of the text is read as itself |
| GenNoteCurl.ParseNoteUrl | scripts/gen_note_curl.py:25-31 | the note id read from a URL never contains `/` |
| GenNoteCurl.NoteIdOfPath | scripts/gen_note_curl.py:27 | the id taken from a path is its last `/`-separated piece once every trailing `/` is removed: a suffix of the stripped path without `/`, either all of it or preceded by a `/` |
| GenNoteCurl.NoteIdIsLastSegment | scripts/gen_note_curl.py:27 | the note id is the text after the last `/` of the path once every trailing `/` is removed, or the whole stripped path when it has no `/` |
| GenNoteCurl.NoteIdEmptyIff | scripts/gen_note_curl.py:27 | the note id is empty exactly when the URL path is empty or made only of slashes |
| GenNoteCurl.BareDomainNoteId | scripts/gen_note_curl.py:26-27 | a URL made of `https://` and a host, with no path, gives the empty note id |
| GenNoteCurl.TokenIsFirstValue | scripts/gen_note_curl.py:28-29 | `xsec_token` is the decoded value of the first query field that gives it a non-empty value, and `""` when none does |
| GenNoteCurl.SourceIsFirstValue | scripts/gen_note_curl.py:28-30 | `xsec_source` is the decoded value of the first query field that gives it a non-empty value, and `"pc_search"` when none does |
| GenNoteCurl.BuildPayload | scripts/gen_note_curl.py:34-41 | the payload carries the given id and token, the image formats `jpg`, `webp`, `avif`, `extra.need_body_topic = "1"`, and the given source, or `"pc_search"` when the source is empty |
| GenNoteCurl.BuildPayloadSameIff | scripts/gen_note_curl.py:34-41 | two payloads are equal exactly when ids and tokens agree and the sources agree once an empty source is read as `"pc_search"` |
| GenNoteCurl.BuildPayloadIdempotent | scripts/gen_note_curl.py:39 | building a payload from a payload's own fields gives it back |
| GenNoteCurl.ToCurl | scripts/gen_note_curl.py:44-50 | the text is the newline join of the URL line, one `-H` line per header in order, the cookie line and the `--data-raw` line; a shell reads it as exactly `curl`, the URL, `-H name: value` per header, `-H cookie: ...` and `--data-raw` with the body |
| GenNoteCurl.ApiUrlIsSafe | scripts/gen_note_curl.py:21-22 | the API URL needs no quoting |
| GenNoteCurl.FirstLine | scripts/gen_note_curl.py:45 | the URL line ends with a line continuation |
| GenNoteCurl.FirstLineIsPlain | scripts/gen_note_curl.py:45 | the URL line is exactly `curl https://edith.xiaohongshu.com/api/sns/web/v1/feed \`, the URL left unquoted |
| GenNoteCurl.HeaderLine | scripts/gen_note_curl.py:47 | each header line ends with a line continuation |
| GenNoteCurl.CookieLine | scripts/gen_note_curl.py:48 | the cookie line ends with a line continuation |
| GenNoteCurl.DataLine | scripts/gen_note_curl.py:49 | the body line does not end with a line continuation, so the command ends there |
| GenNoteCurl.CurlLines | scripts/gen_note_curl.py:44-50 | the command has one line per header plus three |
| GenNoteCurl.CurlLinesShape | scripts/gen_note_curl.py:44-50 | the command has one line per header plus three, the first is `curl https://edith.xiaohongshu.com/api/sns/web/v1/feed \`, the header lines follow in order, then the cookie and body lines; every line but the last ends with a line continuation, and the last does not |
| GenNoteCurl.CurlCommandWords | scripts/gen_note_curl.py:44-50 | read by a POSIX shell, the joined lines give exactly the intended argument vector |
| GenNoteCurl.Resolve | scripts/gen_note_curl.py:62-75 | the inputs resolve exactly when a URL, or both id and token, are given and the cookie option or the environment file gives cookies; the error message names what is missing first; a URL is parsed for id, token and source; `--cookies` wins over the environment |
| GenNoteCurl.UrlTakesPrecedence | scripts/gen_note_curl.py:62-63 | with a note URL, the id, token and source options make no difference |
| GenNoteCurl.MissingNoteBeforeCookies | scripts/gen_note_curl.py:64-67 | without a URL, a missing id or token stops the run with its message whatever the cookies are |
| GenNoteCurl.Run | scripts/gen_note_curl.py:62-82 | the exit code is 0 or 2; it is 2, with one diagnostic message and no output, exactly when the inputs do not resolve; otherwise nothing goes to standard error and one string is printed: the whole multi-line curl command for the signed payload, which a shell reads as the intended argument vector |

## Left out

- UrlParse.SplitUrl: the `;params` component of `urlparse` is not split off the last path segment. The note id therefore keeps any `;...` suffix that Python would move to `params`.
- UrlParse.SplitUrl: the stripping of leading C0 controls and spaces, the removal of tabs and newlines, and the lowercasing of the scheme are not modelled. Note URLs are ordinary `https` URLs.
- UrlParse.SplitUrl: no `ValueError` that `urlsplit` raises is modelled. These are an unbalanced `[` or `]` in the network location, a bracketed host that is not a valid IPv6 or IPvFuture address (`https://[zz]/x`), and a non-ASCII network location whose NFKC normalisation introduces one of `/`, `?`, `#`, `@` or `:`. The model splits such URLs like any other.
- GenNoteCurl.Run: its exit-code contract (0 or 2) assumes that `urlsplit` raises no `ValueError` and that the signer does not raise. On such inputs the script ends with a traceback and exit status 1, which the model does not capture.
- Percent-decoding (`urllib.parse.unquote` with UTF-8 and `replace` errors) is a function parameter, `unquote` (not to be confused with shell quote removal, `Shlex.ReadOneWord`). It is not written out.
- UrlParse.FieldPairs: only `&` separates fields. This is the separator `parse_qs` uses by default since Python 3.9.2. The `max_num_fields` limit is not modelled, since the script does not set it.
- The request signer `generate_request_params` (`xhs_utils/xhs_util.py`) is a function parameter of `Run`. It is assumed to return the data already as a string. The `json.dumps` branch of line 79 is not modelled.
- The environment-file loader `load_env` (`xhs_utils/common_util.py`) is not part of this model. Its result is a parameter of `Run` and `Resolve`. The script calls it only when `--cookies` is empty; that laziness, and any side effects of loading the file, are not modelled.
- Argument parsing by `argparse` is not modelled, including `--help` and usage errors. The parsed options are a datatype where an option that was not given is `None`, except `xsecSource`, which holds the value `argparse` produces: `"pc_search"` when `--xsec-source` was not given (scripts/gen_note_curl.py line 58).
- Writing to standard output and standard error is modelled as the returned lists of printed strings, one per `print` call. `SystemExit` is the returned exit code.
- The import guard of lines 13-18, the `sys.path` set-up of lines 9-11 and its diagnostic are not modelled.
- The signer's header dictionary is a sequence of (name, value) pairs, in the dictionary's iteration order. Duplicate names cannot occur in a Python dictionary; the model does not rely on their absence.
- Shlex.Words is a reference reader for one simple command. It refuses operators, expansions, comments and glob characters outside quotes rather than interpret them. It is not a full shell.
