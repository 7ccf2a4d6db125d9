/**
  The two pure pieces of the Ollama client: the URL of an endpoint built
  from the configured base URL (`buildOllamaUrl`), and the splitting of the
  streamed response into newline-terminated lines (the buffer handling of
  `streamChat`).
*/
module Llm {
  import opened Text

  const DefaultBaseUrl: string := "http://localhost:11434"

  /** The two endpoints the client calls. */
  datatype Endpoint = Tags | ChatApi

  /** The endpoint's path without its leading `/api`. */
  function Resource(e: Endpoint): string
  {
    match e
    case Tags => "/tags"
    case ChatApi => "/chat"
  }

  /** `"/api/tags"` or `"/api/chat"`. */
  function EndpointPath(e: Endpoint): (path: string)
    ensures path == "/api" + Resource(e)
  {
    match e
    case Tags => "/api/tags"
    case ChatApi => "/api/chat"
  }

  /** `s.replace(/\/+$/, "")`. */
  function StripTrailingSlashes(s: string): (r: string)
    ensures |r| <= |s| && r == s[..|r|]
    ensures r == [] || r[|r| - 1] != '/'
    ensures forall i :: |r| <= i < |s| ==> s[i] == '/'
  {
    if s != [] && s[|s| - 1] == '/' then StripTrailingSlashes(s[..|s| - 1]) else s
  }

  /** The base URL as used: the default for an empty setting, then trimmed,
      then without trailing slashes. */
  function NormalizedBase(baseUrl: string): string
  {
    StripTrailingSlashes(Trim(if baseUrl == "" then DefaultBaseUrl else baseUrl))
  }

  /** The URL built from an already normalised base. A base ending in `/api`
      takes the endpoint without its own `/api`; a base ending in `/v1` loses
      those three characters. */
  function UrlFrom(b: string, e: Endpoint): (url: string)
    ensures EndsWith(url, EndpointPath(e))
  {
    if EndsWith(b, "/api") then
      EndsWithAppend(b, "/api", Resource(e));
      b + Resource(e)
    else if EndsWith(b, "/v1") then
      EndsWithSelf(b[..|b| - 3], EndpointPath(e));
      b[..|b| - 3] + EndpointPath(e)
    else
      EndsWithSelf(b, EndpointPath(e));
      b + EndpointPath(e)
  }

  /** `buildOllamaUrl`: the URL always ends in the endpoint's full path. */
  function BuildOllamaUrl(baseUrl: string, e: Endpoint): (url: string)
    ensures EndsWith(url, EndpointPath(e))
  {
    UrlFrom(NormalizedBase(baseUrl), e)
  }

  lemma AppendAssoc(a: string, b: string, c: string)
    ensures (a + b) + c == a + (b + c)
  {
  }

  lemma EndsWithSelf(p: string, q: string)
    ensures EndsWith(p + q, q)
  {
    assert (p + q)[|p + q| - |q|..] == q;
  }

  lemma EndsWithAppend(s: string, suffix: string, more: string)
    requires EndsWith(s, suffix)
    ensures EndsWith(s + more, suffix + more)
  {
    var t := s + more;
    assert t[|t| - |suffix + more|..] == s[|s| - |suffix|..] + more;
  }

  lemma UrlFromShape(b: string, e: Endpoint)
    ensures var url := UrlFrom(b, e);
      && (EndsWith(b, "/api") ==> url == b[..|b| - 4] + EndpointPath(e))
      && (!EndsWith(b, "/api") && EndsWith(b, "/v1") ==> url == b[..|b| - 3] + EndpointPath(e))
      && (!EndsWith(b, "/api") && !EndsWith(b, "/v1") ==> url == b + EndpointPath(e))
  {
    if EndsWith(b, "/api") {
      var stem := b[..|b| - 4];
      assert b == stem + "/api";
      AppendAssoc(stem, "/api", Resource(e));
    }
  }

  /** The URL is always a stem followed by the full endpoint path, where the
      stem is the normalised base with one trailing `/api` or `/v1` removed:
      the endpoint's `/api` is never appended after a trailing `/api`. */
  lemma UrlShape(baseUrl: string, e: Endpoint)
    ensures var b := NormalizedBase(baseUrl);
      var url := BuildOllamaUrl(baseUrl, e);
      && (EndsWith(b, "/api") ==> url == b[..|b| - 4] + EndpointPath(e))
      && (!EndsWith(b, "/api") && EndsWith(b, "/v1") ==> url == b[..|b| - 3] + EndpointPath(e))
      && (!EndsWith(b, "/api") && !EndsWith(b, "/v1") ==> url == b + EndpointPath(e))
  {
    UrlFromShape(NormalizedBase(baseUrl), e);
  }

  /** Trailing slashes in the setting make no difference, as long as the
      setting has no surrounding whitespace and is not empty. */
  lemma TrailingSlashIgnored(baseUrl: string, e: Endpoint)
    requires baseUrl != [] && Trim(baseUrl) == baseUrl
    ensures BuildOllamaUrl(baseUrl + "/", e) == BuildOllamaUrl(baseUrl, e)
  {
    var s := baseUrl + "/";
    assert s[0] == baseUrl[0] && s[|s| - 1] == '/';
    assert Trim(s) == s;
    assert s[..|s| - 1] == baseUrl;
  }

  /** A setting without surrounding whitespace or a trailing slash is used as it is. */
  lemma PlainBase(s: string)
    requires s != [] && !IsWhitespace(s[0]) && !IsWhitespace(s[|s| - 1]) && s[|s| - 1] != '/'
    ensures NormalizedBase(s) == s
  {
  }

  lemma NotEndsWith(s: string, suffix: string)
    requires 0 < |suffix| <= |s| && s[|s| - 1] != suffix[|suffix| - 1]
    ensures !EndsWith(s, suffix)
  {
    assert s[|s| - |suffix|..][|suffix| - 1] == s[|s| - 1];
  }

  lemma DefaultBaseIsPlain()
    ensures NormalizedBase(DefaultBaseUrl) == DefaultBaseUrl
    ensures !EndsWith(DefaultBaseUrl, "/api") && !EndsWith(DefaultBaseUrl, "/v1")
  {
    var d := DefaultBaseUrl;
    assert d[0] == 'h' && d[|d| - 1] == '4';
    PlainBase(d);
    NotEndsWith(d, "/api");
    NotEndsWith(d, "/v1");
  }

  /** An empty setting means the local default server. */
  lemma EmptyBaseUsesDefault(e: Endpoint)
    ensures BuildOllamaUrl("", e) == DefaultBaseUrl + EndpointPath(e)
  {
    DefaultBaseIsPlain();
    assert NormalizedBase("") == NormalizedBase(DefaultBaseUrl);
  }

  /** Only the empty string falls back to the default: a blank setting trims
      to nothing and leaves the bare path. */
  lemma BlankBaseGivesBarePath()
    ensures BuildOllamaUrl(" ", ChatApi) == "/api/chat"
  {
    assert Trim(" ") == "";
  }

  /** A base ending in `/api/` keeps its `/api` and does not get another. */
  lemma ApiSuffixKept(stem: string, e: Endpoint)
    requires stem != [] && !IsWhitespace(stem[0])
    ensures BuildOllamaUrl(stem + "/api/", e) == stem + EndpointPath(e)
  {
    var b := stem + "/api";
    assert b[0] == stem[0] && b[|b| - 1] == 'i';
    PlainBase(b);
    assert b + "/" == stem + "/api/";
    TrailingSlashIgnored(b, e);
    EndsWithSelf(stem, "/api");
    AppendAssoc(stem, "/api", Resource(e));
  }

  /** A base ending in `/v1` is cut back to what precedes it. */
  lemma V1SuffixDropped(stem: string, e: Endpoint)
    requires stem != [] && !IsWhitespace(stem[0])
    ensures BuildOllamaUrl(stem + "/v1", e) == stem + EndpointPath(e)
  {
    var v := stem + "/v1";
    assert v[0] == stem[0] && v[|v| - 1] == '1';
    PlainBase(v);
    NotEndsWith(v, "/api");
    EndsWithSelf(stem, "/v1");
    assert v[..|v| - 3] == stem;
  }

  lemma ApiV1Literals()
    ensures "/api" + "/v1" == "/api/v1"
    ensures "/api" + EndpointPath(ChatApi) == "/api/api/chat"
  {
  }

  /** Only one suffix is removed: a base ending in `/api/v1` loses its `/v1`
      and then receives the full endpoint path after its `/api`. */
  lemma ApiV1GetsSecondApi(stem: string)
    requires stem != [] && !IsWhitespace(stem[0])
    ensures BuildOllamaUrl(stem + "/api/v1", ChatApi) == stem + "/api/api/chat"
  {
    var b := stem + "/api";
    assert b[0] == stem[0];
    V1SuffixDropped(b, ChatApi);
    AppendAssoc(stem, "/api", "/v1");
    AppendAssoc(stem, "/api", "/api/chat");
    ApiV1Literals();
  }

  // ---- splitting the stream into lines ----

  /** Lines each followed by a newline. */
  function JoinLines(lines: seq<string>): string
  {
    if lines == [] then "" else lines[0] + "\n" + JoinLines(lines[1..])
  }

  predicate NoNewline(s: string)
  {
    forall i :: 0 <= i < |s| ==> s[i] != '\n'
  }

  predicate AllNoNewline(lines: seq<string>)
  {
    forall i :: 0 <= i < |lines| ==> NoNewline(lines[i])
  }

  /** The position of the first newline, or `|s|`. */
  function NewlineIndex(s: string): (i: nat)
    ensures i <= |s| && NoNewline(s[..i])
    ensures i < |s| ==> s[i] == '\n'
  {
    if s == [] then 0
    else if s[0] == '\n' then 0
    else
      var i := NewlineIndex(s[1..]);
      assert s[..i + 1] == [s[0]] + s[1..][..i];
      i + 1
  }

  lemma JoinLinesCons(line: string, lines: seq<string>)
    ensures JoinLines([line] + lines) == line + "\n" + JoinLines(lines)
  {
    assert ([line] + lines)[1..] == lines;
  }

  lemma SplitAt(s: string, i: nat)
    requires i < |s| && s[i] == '\n'
    ensures s == s[..i] + "\n" + s[i + 1..]
    ensures s == s[..i] + ("\n" + s[i + 1..])
  {
  }

  datatype Split = Split(lines: seq<string>, rest: string)

  lemma ConsLine(line: string, tail: Split, buffer: string)
    requires NoNewline(line) && AllNoNewline(tail.lines)
    requires buffer == line + "\n" + (JoinLines(tail.lines) + tail.rest)
    ensures JoinLines([line] + tail.lines) + tail.rest == buffer
    ensures AllNoNewline([line] + tail.lines)
  {
    JoinLinesCons(line, tail.lines);
  }

  /** `buffer.split("\n")` followed by `pop()`: the complete lines, and the
      unterminated tail kept as the new buffer. */
  function SplitLines(buffer: string): (r: Split)
    ensures JoinLines(r.lines) + r.rest == buffer
    ensures AllNoNewline(r.lines) && NoNewline(r.rest)
    decreases |buffer|
  {
    var i := NewlineIndex(buffer);
    if i == |buffer| then
      assert buffer[..i] == buffer;
      Split([], buffer)
    else
      var tail := SplitLines(buffer[i + 1..]);
      SplitAt(buffer, i);
      ConsLine(buffer[..i], tail, buffer);
      Split([buffer[..i]] + tail.lines, tail.rest)
  }

  /** A split is determined by what it joins back to: newline-free lines and
      a newline-free rest that join to `buffer` are the split of `buffer`. */
  lemma {:induction false} SplitLinesUnique(lines: seq<string>, rest: string, buffer: string)
    requires AllNoNewline(lines) && NoNewline(rest)
    requires JoinLines(lines) + rest == buffer
    ensures SplitLines(buffer) == Split(lines, rest)
    decreases |lines|
  {
    if lines == [] {
      assert buffer == rest;
      NoNewlineIndex(buffer);
    } else {
      var first := lines[0];
      var more := JoinLines(lines[1..]) + rest;
      assert buffer == first + ("\n" + more);
      FirstNewline(first, more);
      assert AllNoNewline(lines[1..]);
      SplitLinesUnique(lines[1..], rest, more);
      assert lines == [first] + lines[1..];
    }
  }

  lemma NoNewlineIndex(s: string)
    requires NoNewline(s)
    ensures NewlineIndex(s) == |s|
  {
  }

  /** The first newline of `first + "\n" + more` ends `first`, and splitting
      continues after it. */
  lemma FirstNewline(first: string, more: string)
    requires NoNewline(first)
    ensures var buffer := first + ("\n" + more);
      && NewlineIndex(buffer) == |first|
      && SplitLines(buffer) == Split([first] + SplitLines(more).lines, SplitLines(more).rest)
  {
    var buffer := first + ("\n" + more);
    var i := NewlineIndex(buffer);
    assert buffer[|first|] == '\n';
    assert forall k :: 0 <= k < |first| ==> buffer[k] == first[k];
    assert buffer[..|first|] == first;
    assert buffer[|first| + 1..] == more;
  }

  lemma {:induction false} JoinLinesAppend(a: seq<string>, b: seq<string>)
    ensures JoinLines(a + b) == JoinLines(a) + JoinLines(b)
    decreases |a|
  {
    if a != [] {
      assert (a + b)[0] == a[0];
      assert (a + b)[1..] == a[1..] + b;
      JoinLinesAppend(a[1..], b);
      calc {
        JoinLines(a + b);
        a[0] + "\n" + JoinLines(a[1..] + b);
        a[0] + "\n" + (JoinLines(a[1..]) + JoinLines(b));
        (a[0] + "\n" + JoinLines(a[1..])) + JoinLines(b);
        JoinLines(a) + JoinLines(b);
      }
    } else {
      assert a + b == b;
    }
  }

  /** The concatenated text of the chunks read so far. */
  function Concat(chunks: seq<string>): string
  {
    if chunks == [] then "" else Concat(chunks[..|chunks| - 1]) + chunks[|chunks| - 1]
  }

  /** Lines the parser is given: blank ones are skipped. */
  function NonBlank(lines: seq<string>): seq<string>
  {
    if lines == [] then []
    else NonBlank(lines[..|lines| - 1]) + (if Trim(lines[|lines| - 1]) != [] then [lines[|lines| - 1]] else [])
  }

  lemma {:induction false} NonBlankAppend(a: seq<string>, b: seq<string>)
    ensures NonBlank(a + b) == NonBlank(a) + NonBlank(b)
    decreases |b|
  {
    if b == [] {
      assert a + b == a;
    } else {
      var last := b[|b| - 1];
      assert (a + b)[..|a + b| - 1] == a + b[..|b| - 1];
      NonBlankAppend(a, b[..|b| - 1]);
    }
  }

  lemma ConcatStep(chunks: seq<string>, i: nat)
    requires i < |chunks|
    ensures Concat(chunks[..i + 1]) == Concat(chunks[..i]) + chunks[i]
  {
    assert chunks[..i + 1][..i] == chunks[..i];
  }

  lemma AllNoNewlineAppend(a: seq<string>, b: seq<string>)
    requires AllNoNewline(a) && AllNoNewline(b)
    ensures AllNoNewline(a + b)
  {
    forall k | 0 <= k < |a + b| ensures NoNewline((a + b)[k]) {
      if k >= |a| {
        assert (a + b)[k] == b[k - |a|];
      } else {
        assert (a + b)[k] == a[k];
      }
    }
  }

  /** One chunk read: the lines split off extend the lines so far. */
  lemma ReadStep(lines: seq<string>, buffer: string, before: string, chunk: string)
    requires JoinLines(lines) + buffer == before
    requires AllNoNewline(lines)
    ensures var split := SplitLines(buffer + chunk);
      && JoinLines(lines + split.lines) + split.rest == before + chunk
      && AllNoNewline(lines + split.lines)
  {
    var split := SplitLines(buffer + chunk);
    var done := JoinLines(lines);
    var added := JoinLines(split.lines);
    JoinLinesAppend(lines, split.lines);
    assert added + split.rest == buffer + chunk;
    AppendAssoc(done, added, split.rest);
    AppendAssoc(done, buffer, chunk);
    AllNoNewlineAppend(lines, split.lines);
  }

  lemma LinesAssoc(a: seq<string>, b: seq<string>, c: seq<string>)
    ensures (a + b) + c == a + (b + c)
  {
  }

  lemma NonBlankStep(lines: seq<string>, j: nat)
    requires j < |lines|
    ensures NonBlank(lines[..j + 1]) == NonBlank(lines[..j]) + (if Trim(lines[j]) != [] then [lines[j]] else [])
  {
    assert lines[..j + 1][..j] == lines[..j];
  }

  /** The inner loop of `streamChat`: blank lines are skipped, the others
      handed to the parser in order. */
  method HandOn(parsed: seq<string>, lines: seq<string>) returns (next: seq<string>)
    ensures next == parsed + NonBlank(lines)
  {
    next := parsed;
    for j := 0 to |lines|
      invariant next == parsed + NonBlank(lines[..j])
    {
      NonBlankStep(lines, j);
      if Trim(lines[j]) != [] {
        LinesAssoc(parsed, NonBlank(lines[..j]), [lines[j]]);
        next := next + [lines[j]];
      } else {
        assert NonBlank(lines[..j + 1]) == NonBlank(lines[..j]) + [];
      }
    }
    assert lines[..|lines|] == lines;
  }

  /** The read loop of `streamChat`: each chunk is appended to the buffer,
      the complete lines are split off and the non-blank ones handed on; the
      unterminated tail waits for the next chunk. The lines handed on are
      those of the whole text, however it was cut into chunks. */
  method ReadStream(chunks: seq<string>) returns (parsed: seq<string>, buffer: string)
    ensures parsed == NonBlank(SplitLines(Concat(chunks)).lines)
    ensures buffer == SplitLines(Concat(chunks)).rest
  {
    ghost var lines: seq<string> := [];
    parsed := [];
    buffer := "";
    for i := 0 to |chunks|
      invariant JoinLines(lines) + buffer == Concat(chunks[..i])
      invariant AllNoNewline(lines) && NoNewline(buffer)
      invariant parsed == NonBlank(lines)
    {
      ConcatStep(chunks, i);
      ReadStep(lines, buffer, Concat(chunks[..i]), chunks[i]);
      buffer := buffer + chunks[i];
      var split := SplitLines(buffer);
      NonBlankAppend(lines, split.lines);
      parsed := HandOn(parsed, split.lines);
      lines := lines + split.lines;
      buffer := split.rest;
    }
    assert chunks[..|chunks|] == chunks;
    SplitLinesUnique(lines, buffer, Concat(chunks));
  }

  /** Cutting the stream differently changes nothing the parser sees. */
  method ReadStreamIgnoresChunking(a: seq<string>, b: seq<string>)
    returns (same: bool)
    requires Concat(a) == Concat(b)
    ensures same
  {
    var pa, ra := ReadStream(a);
    var pb, rb := ReadStream(b);
    same := pa == pb && ra == rb;
  }
}
