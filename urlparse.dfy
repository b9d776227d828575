/**
 * The part of Python's `urllib.parse` the note-curl script uses: `urlsplit`
 * (RFC 3986, sections 3.3 and 3.4: the path ends at the first `?` or `#`, the
 * query at the first `#`) and `parse_qs` with its default flags, which reads
 * the query as `application/x-www-form-urlencoded` fields (section 5.1 of the
 * WHATWG URL Standard): `&`-separated `name=value` fields, where a field
 * without `=` or with an empty value is dropped and every value of a name is
 * kept in order of appearance.
 *
 * Percent-decoding (`unquote`) is passed in as a function; the `+`-to-space
 * step that precedes it is written out.
 */
module UrlParse {
  import opened Wrappers
  import opened Text

  /**
   * The components of a URL. A component that is absent is `None`; Python
   * reports both an absent and an empty query (or fragment, or network
   * location) as `""`, which `Query()` reproduces.
   */
  datatype SplitResult = SplitResult(
    scheme: string,
    netloc: Option<string>,
    path: string,
    query: Option<string>,
    fragment: Option<string>)
  {
    /** The `query` attribute Python reports. */
    function Query(): string { query.GetOr("") }
  }

  predicate IsAsciiAlpha(c: char) { 'a' <= c <= 'z' || 'A' <= c <= 'Z' }

  predicate IsSchemeChar(c: char) {
    IsAsciiAlpha(c) || '0' <= c <= '9' || c == '+' || c == '-' || c == '.'
  }

  /**
   * A scheme is present when the text before the first `:` is non-empty,
   * starts with an ASCII letter and holds only scheme characters.
   */
  predicate HasScheme(url: string) {
    var i := FirstOf(url, {':'});
    && 0 < i < |url|
    && IsAsciiAlpha(url[0])
    && forall j :: 0 <= j < i ==> IsSchemeChar(url[j])
  }

  /** Puts the components back together (Python's `urlunsplit`, keeping empty components that were present). */
  function Unsplit(r: SplitResult): string {
    (if r.scheme != "" then r.scheme + ":" else "")
    + Delimited("//", r.netloc) + r.path + Delimited("?", r.query) + Delimited("#", r.fragment)
  }

  /** A present component with the delimiter that introduces it; nothing for an absent one. */
  function Delimited(delimiter: string, component: Option<string>): string {
    match component
    case Some(c) => delimiter + c
    case None => ""
  }

  /** The chain of splits `SplitUrl` performs, read backwards, rebuilds the URL. */
  lemma ReassembleParts(url: string, schemePart: string, afterScheme: string, netlocPart: string,
                        afterNetloc: string, beforeFragment: string, path: string, queryPart: string,
                        fragmentPart: string)
    requires url == schemePart + afterScheme
    requires afterScheme == netlocPart + afterNetloc
    requires afterNetloc == beforeFragment + fragmentPart
    requires beforeFragment == path + queryPart
    ensures url == schemePart + netlocPart + path + queryPart + fragmentPart
  {
  }

  /** Removes the scheme and its `:`, when there is one. */
  function SplitScheme(url: string): (r: (string, string))
    ensures url == (if r.0 != "" then r.0 + ":" else "") + r.1
    ensures r.0 != "" <==> HasScheme(url)
    ensures ':' !in r.0
  {
    if HasScheme(url) then
      var i := FirstOf(url, {':'});
      assert url == url[..i] + ":" + url[i + 1..];
      (url[..i], url[i + 1..])
    else ("", url)
  }

  /** The text starts with `//`, which introduces a network location. */
  predicate StartsWithSlashes(s: string) {
    |s| >= 2 && s[0] == '/' && s[1] == '/'
  }

  /** Removes a leading `//` and the network location after it, which runs to the first `/`, `?` or `#`. */
  function SplitNetloc(s: string): (r: (Option<string>, string))
    ensures r.0.Some? <==> StartsWithSlashes(s)
    ensures s == Delimited("//", r.0) + r.1
    ensures r.0.Some? ==> '/' !in r.0.value && '?' !in r.0.value && '#' !in r.0.value
    ensures r.0.Some? ==> r.1 == [] || r.1[0] == '/' || r.1[0] == '?' || r.1[0] == '#'
  {
    if StartsWithSlashes(s) then
      var k := 2 + FirstOf(s[2..], {'/', '?', '#'});
      assert s == "//" + s[2..k] + s[k..];
      (Some(s[2..k]), s[k..])
    else (None, s)
  }

  /** Splits at the first `c`, if there is one. */
  function SplitAt(s: string, c: char): (r: (string, Option<string>))
    ensures s == r.0 + Delimited([c], r.1)
    ensures c !in r.0
  {
    if c in s then var p := Cut(s, c); (p.0, Some(p.1)) else (s, None)
  }

  /**
   * `urlsplit(url)`: scheme, then a network location when what follows starts
   * with `//`, then the fragment after the first `#`, then the query after
   * the first `?`.
   */
  function SplitUrl(url: string): (r: SplitResult)
    ensures Unsplit(r) == url
    ensures r.scheme != "" <==> HasScheme(url)
    ensures ':' !in r.scheme
    ensures r.netloc.Some? <==> StartsWithSlashes(SplitScheme(url).1)
    ensures r.netloc.Some? ==> '/' !in r.netloc.value && '?' !in r.netloc.value && '#' !in r.netloc.value
    ensures r.netloc.Some? ==> r.path == [] || r.path[0] == '/'
    ensures '?' !in r.path && '#' !in r.path
    ensures r.query.Some? ==> '#' !in r.query.value
  {
    var schemeSplit := SplitScheme(url);
    var netlocSplit := SplitNetloc(schemeSplit.1);
    var fragmentSplit := SplitAt(netlocSplit.1, '#');
    var querySplit := SplitAt(fragmentSplit.0, '?');
    var r := SplitResult(schemeSplit.0, netlocSplit.0, querySplit.0, querySplit.1, fragmentSplit.1);
    ReassembleParts(url, if r.scheme != "" then r.scheme + ":" else "", schemeSplit.1,
      Delimited("//", r.netloc), netlocSplit.1, fragmentSplit.0, r.path, Delimited("?", r.query),
      Delimited("#", r.fragment));
    r
  }

  /** The `replace('+', ' ')` applied to names and values before percent-decoding. */
  function PlusToSpace(s: string): (r: string)
    ensures |r| == |s|
    ensures forall i :: 0 <= i < |s| ==> r[i] == (if s[i] == '+' then ' ' else s[i])
  {
    seq(|s|, i requires 0 <= i < |s| => if s[i] == '+' then ' ' else s[i])
  }

  /** No field contributes a pair. */
  predicate NoneContributes(fields: seq<string>) {
    forall i :: 0 <= i < |fields| ==> !Contributes(fields[i])
  }

  /** A field contributes a pair when it holds `=` and the text after the first `=` is non-empty. */
  predicate Contributes(field: string) {
    '=' in field && Cut(field, '=').1 != ""
  }

  /** The decoded name of a field that holds `=`. */
  function FieldName(field: string, unquote: string -> string): string
    requires '=' in field
  {
    unquote(PlusToSpace(Cut(field, '=').0))
  }

  /** The decoded value of a field that holds `=`. */
  function FieldValue(field: string, unquote: string -> string): string
    requires '=' in field
  {
    unquote(PlusToSpace(Cut(field, '=').1))
  }

  /** The (name, value) pairs of the fields that contribute, in order (`parse_qsl` with default flags). */
  function FieldPairs(fields: seq<string>, unquote: string -> string): (pairs: seq<(string, string)>)
    ensures |pairs| <= |fields|
    ensures pairs == [] <==> NoneContributes(fields)
    decreases |fields|
  {
    if fields == [] then []
    else
      var rest := FieldPairs(fields[1..], unquote);
      if Contributes(fields[0]) then [(FieldName(fields[0], unquote), FieldValue(fields[0], unquote))] + rest
      else rest
  }

  /** `parse_qsl(query)`. */
  function QueryPairs(query: string, unquote: string -> string): (pairs: seq<(string, string)>)
    ensures '&' !in query ==> pairs == FieldPairs([query], unquote)
  {
    var fields := Split(query, '&');
    assert '&' !in query ==> fields == [query] by {
      if '&' !in query {
        NoSeparator(query, '&');
      }
    }
    FieldPairs(fields, unquote)
  }

  /** The values given for `key`, in order of appearance. */
  function Values(pairs: seq<(string, string)>, key: string): seq<string>
    decreases |pairs|
  {
    if pairs == [] then []
    else (if pairs[0].0 == key then [pairs[0].1] else []) + Values(pairs[1..], key)
  }

  /** `parse_qs`: every name that occurs, mapped to the list of its values. */
  function CollectPairs(pairs: seq<(string, string)>): (m: map<string, seq<string>>)
    ensures forall k :: k in m ==> m[k] != []
    ensures forall i :: 0 <= i < |pairs| ==> pairs[i].0 in m
    decreases |pairs|
  {
    if pairs == [] then map[]
    else
      var m := CollectPairs(pairs[1..]);
      var (k, v) := pairs[0];
      m[k := [v] + (if k in m then m[k] else [])]
  }

  /** `parse_qs(query)`. */
  function ParseQs(query: string, unquote: string -> string): (qs: map<string, seq<string>>)
    ensures forall k :: k in qs ==> qs[k] != []
  {
    CollectPairs(QueryPairs(query, unquote))
  }

  /** `(qs.get(key) or [default])[0]`. */
  function GetFirst(qs: map<string, seq<string>>, key: string, default: string): (r: string)
    ensures key in qs && qs[key] != [] ==> r == qs[key][0]
    ensures key !in qs || qs[key] == [] ==> r == default
  {
    if key in qs && qs[key] != [] then qs[key][0] else default
  }

  /** The dictionary `parse_qs` builds holds exactly the names that occur, each with all its values in order. */
  lemma {:induction false} CollectPairsValues(pairs: seq<(string, string)>, key: string)
    ensures key in CollectPairs(pairs) <==> Values(pairs, key) != []
    ensures key in CollectPairs(pairs) ==> CollectPairs(pairs)[key] == Values(pairs, key)
    decreases |pairs|
  {
    if pairs != [] {
      CollectPairsValues(pairs[1..], key);
    }
  }

  /** The field gives a (non-empty) value for `key`. */
  predicate Binds(field: string, key: string, unquote: string -> string) {
    Contributes(field) && FieldName(field, unquote) == key
  }

  /** Field `i` is the first field that gives a value for `key`. */
  predicate FirstBinding(fields: seq<string>, key: string, unquote: string -> string, i: int) {
    && 0 <= i < |fields|
    && Binds(fields[i], key, unquote)
    && forall j :: 0 <= j < i ==> !Binds(fields[j], key, unquote)
  }

  /** No field gives a value for `key`. */
  predicate NoBinding(fields: seq<string>, key: string, unquote: string -> string) {
    forall i :: 0 <= i < |fields| ==> !Binds(fields[i], key, unquote)
  }

  /** The values of `key` are non-empty exactly when some field binds it, and the first one is that field's value. */
  lemma {:induction false} FirstValueOfFields(fields: seq<string>, key: string, unquote: string -> string)
    ensures var vs := Values(FieldPairs(fields, unquote), key);
      && (vs == [] <==> NoBinding(fields, key, unquote))
      && forall i :: FirstBinding(fields, key, unquote, i) ==> vs != [] && vs[0] == FieldValue(fields[i], unquote)
    decreases |fields|
  {
    if fields != [] {
      FirstValueOfFields(fields[1..], key, unquote);
      var f := fields[0];
      var rest := FieldPairs(fields[1..], unquote);
      if Contributes(f) {
        ValuesCons((FieldName(f, unquote), FieldValue(f, unquote)), rest, key);
      }
      NoBindingCons(fields, key, unquote);
      forall i | FirstBinding(fields, key, unquote, i) && i > 0
        ensures FirstBinding(fields[1..], key, unquote, i - 1)
      {
        FirstBindingShift(fields, key, unquote, i);
      }
    }
  }

  /** The values of `key` in a sequence of pairs, split at the first pair. */
  lemma ValuesCons(p: (string, string), rest: seq<(string, string)>, key: string)
    ensures Values([p] + rest, key) == (if p.0 == key then [p.1] + Values(rest, key) else Values(rest, key))
  {
    assert ([p] + rest)[1..] == rest;
    assert [] + Values(rest, key) == Values(rest, key);
  }

  /** No field binds `key` exactly when the first does not and no later one does. */
  lemma NoBindingCons(fields: seq<string>, key: string, unquote: string -> string)
    requires fields != []
    ensures NoBinding(fields, key, unquote) <==> !Binds(fields[0], key, unquote) && NoBinding(fields[1..], key, unquote)
  {
    forall i | 0 <= i < |fields[1..]|
      ensures fields[1..][i] == fields[i + 1]
    {
    }
  }

  /** A first binding after the first field is a first binding among the later fields. */
  lemma FirstBindingShift(fields: seq<string>, key: string, unquote: string -> string, i: int)
    requires FirstBinding(fields, key, unquote, i) && i > 0
    ensures FirstBinding(fields[1..], key, unquote, i - 1)
  {
    assert fields[1..][i - 1] == fields[i];
    forall j | 0 <= j < i - 1
      ensures !Binds(fields[1..][j], key, unquote)
    {
      assert fields[1..][j] == fields[j + 1];
    }
  }

  /**
   * `(parse_qs(query).get(key) or [default])[0]` is the decoded value of the
   * first field that binds `key` with a non-empty value, and `default` when no
   * field does.
   */
  lemma FirstValueLookup(query: string, key: string, default: string, unquote: string -> string)
    ensures var fields := Split(query, '&');
      var found := GetFirst(ParseQs(query, unquote), key, default);
      && (NoBinding(fields, key, unquote) ==> found == default)
      && forall i :: FirstBinding(fields, key, unquote, i) ==> found == FieldValue(fields[i], unquote)
  {
    var fields := Split(query, '&');
    CollectPairsValues(FieldPairs(fields, unquote), key);
    FirstValueOfFields(fields, key, unquote);
  }
}
