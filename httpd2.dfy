/** The HTTP/1.0 responder of `2/main.go`: one read of at most 1024 bytes,
    a scan of the request line (method, spaces, URL), the split of the URL
    into path and query string at the first `?`, the `&`/`=` query parser,
    the router `execute`, and the response `header`. */
module Httpd2 {
  import opened Bytes
  import opened Transport
  import Text

  const Space: Byte := 0x20
  const Question: Byte := 0x3f
  const Ampersand: Byte := 0x26
  const Equals: Byte := 0x3d
  const Quote: Byte := 0x22
  const Backslash: Byte := 0x5c

  /** The one method served: `GET`. */
  const Get: seq<Byte> := [0x47, 0x45, 0x54]

  /** `make([]byte, 1024)`: the most one request read takes. */
  const BufferSize: nat := 1024

  const Crlf: seq<Byte> := [0x0d, 0x0a]

  // ---------------------------------------------------------------------------
  // The request line
  // ---------------------------------------------------------------------------

  /** Where the run of non-space bytes from `i` on ends: at the first space at
      or after `i`, or at the end of the buffer. */
  function RunEnd(s: seq<Byte>, i: nat): (r: nat)
    requires i <= |s|
    ensures i <= r <= |s|
    ensures forall k :: i <= k < r ==> s[k] != Space
    ensures r < |s| ==> s[r] == Space
    decreases |s| - i
  {
    if i == |s| || s[i] == Space then i else RunEnd(s, i + 1)
  }

  /** Where the run of spaces from `i` on ends: at the first non-space at or
      after `i`, or at the end of the buffer. */
  function SpacesEnd(s: seq<Byte>, i: nat): (r: nat)
    requires i <= |s|
    ensures i <= r <= |s|
    ensures forall k :: i <= k < r ==> s[k] == Space
    ensures r < |s| ==> s[r] != Space
    decreases |s| - i
  {
    if i == |s| || s[i] != Space then i else SpacesEnd(s, i + 1)
  }

  datatype RequestLine = RequestLine(verb: seq<Byte>, url: seq<Byte>)

  /** The method and the URL `accept_request_thread` scans out of the bytes
      it read. */
  function ParseRequestLine(buf: seq<Byte>): (line: RequestLine)
    ensures line.verb <= buf && Space !in line.verb && Space !in line.url
    ensures |line.verb| + |line.url| <= |buf|
  {
    var m := RunEnd(buf, 0);
    var u := SpacesEnd(buf, m);
    RequestLine(buf[..m], buf[u..RunEnd(buf, u)])
  }

  /** The method (`verb`) is the longest space-free prefix of the buffer;
      only spaces follow it up to some position `u`, where the URL starts;
      the URL is the longest space-free run from there, so what follows it is
      a space or the end. */
  lemma RequestLineSpec(buf: seq<Byte>)
    ensures var line := ParseRequestLine(buf);
            var m := |line.verb|;
            && m <= |buf| && buf[..m] == line.verb && Space !in line.verb
            && (m < |buf| ==> buf[m] == Space)
            && Space !in line.url
            && exists u, e :: && m <= u <= e <= |buf|
                              && (forall k :: m <= k < u ==> buf[k] == Space)
                              && (u < |buf| ==> buf[u] != Space)
                              && buf[u..e] == line.url
                              && (e < |buf| ==> buf[e] == Space)
  {
    var m := RunEnd(buf, 0);
    var u := SpacesEnd(buf, m);
    var e := RunEnd(buf, u);
    assert buf[u..e] == ParseRequestLine(buf).url;
  }

  /** `for i < n && buf[i] != ' ' { b.WriteByte(buf[i]); i++ }`: the bytes up
      to the next space and where the scan stopped. Every index read is below
      the buffer's length. */
  method ScanWord(buf: seq<Byte>, start: nat) returns (word: seq<Byte>, i: nat)
    requires start <= |buf|
    ensures i == RunEnd(buf, start) && word == buf[start..i]
  {
    word, i := [], start;
    while i < |buf| && buf[i] != Space
      invariant start <= i <= |buf|
      invariant word == buf[start..i]
      invariant RunEnd(buf, i) == RunEnd(buf, start)
      decreases |buf| - i
    {
      word := word + [buf[i]];
      i := i + 1;
    }
  }

  /** `for i < n && buf[i] == ' ' { i++ }`. */
  method SkipSpaces(buf: seq<Byte>, start: nat) returns (i: nat)
    requires start <= |buf|
    ensures i == SpacesEnd(buf, start)
  {
    i := start;
    while i < |buf| && buf[i] == Space
      invariant start <= i <= |buf|
      invariant SpacesEnd(buf, i) == SpacesEnd(buf, start)
      decreases |buf| - i
    {
      i := i + 1;
    }
  }

  // ---------------------------------------------------------------------------
  // Path and query string
  // ---------------------------------------------------------------------------

  /** `strings.IndexAny(s, string(b))` for one byte: the first index of `b`,
      or -1. */
  function IndexOf(s: seq<Byte>, b: Byte): (j: int)
    ensures -1 <= j < |s|
    ensures j == -1 <==> b !in s
    ensures j >= 0 ==> s[j] == b && b !in s[..j]
    decreases |s|
  {
    if s == [] then -1
    else if s[0] == b then 0
    else
      var j := IndexOf(s[1..], b);
      assert s == [s[0]] + s[1..];
      if j == -1 then -1
      else
        assert s[..j + 1] == [s[0]] + s[1..][..j];
        j + 1
  }

  datatype Target = Target(path: seq<Byte>, query: seq<Byte>)

  /** The path and the query string of a URL as `accept_request_thread`
      computes them. */
  function SplitTarget(url: seq<Byte>): (t: Target)
    ensures t.path <= url && |t.path| + |t.query| <= |url|
  {
    var j := IndexOf(url, Question);
    if j != -1 then Target(url[..j], if j + 1 < |url| then url[j + 1..] else [])
    else Target(url, [])
  }

  /** With a `?`, the path is everything before the first one and the query
      string everything after it (empty when the `?` is last; the guard
      `j+1 < len(url)` only spells out that case); with none, the path is the
      whole URL and the query string is empty. */
  lemma SplitTargetSpec(url: seq<Byte>)
    ensures Question !in SplitTarget(url).path
    ensures Question in url ==> url == SplitTarget(url).path + [Question] + SplitTarget(url).query
    ensures Question !in url ==> SplitTarget(url) == Target(url, [])
  {
    var j := IndexOf(url, Question);
    if j != -1 {
      assert url == url[..j] + [Question] + url[j + 1..];
    }
  }

  // ---------------------------------------------------------------------------
  // parse_query_string
  // ---------------------------------------------------------------------------

  /** An `&`-segment that `strings.Split(kv, "=")` cuts into exactly two parts. */
  predicate IsPair(kv: seq<Byte>)
  {
    |Text.Split(kv, Equals)| == 2
  }

  function Key(kv: seq<Byte>): seq<Byte>
    requires IsPair(kv)
  {
    Text.Split(kv, Equals)[0]
  }

  function Value(kv: seq<Byte>): seq<Byte>
    requires IsPair(kv)
  {
    Text.Split(kv, Equals)[1]
  }

  /** A segment is a pair exactly when it holds one `=`; it is then the key,
      the `=` and the value, neither of which holds an `=`. */
  lemma PairSpec(kv: seq<Byte>)
    ensures IsPair(kv) <==> Text.Count(kv, Equals) == 1
    ensures IsPair(kv) ==>
              && kv == Key(kv) + [Equals] + Value(kv)
              && Equals !in Key(kv) && Equals !in Value(kv)
  {
    var p := Text.Split(kv, Equals);
    if |p| == 2 {
      assert p[1..] == [p[1]];
      assert Text.Join(p, Equals) == p[0] + [Equals] + Text.Join([p[1]], Equals);
    }
  }

  /** The map after storing one segment: `query_param[kv[0]] = kv[1]` when
      it is a pair, no change otherwise. */
  function StorePair(m: map<seq<Byte>, seq<Byte>>, kv: seq<Byte>): (r: map<seq<Byte>, seq<Byte>>)
    ensures IsPair(kv) ==> Key(kv) in r && r[Key(kv)] == Value(kv)
    ensures forall k :: k in m && !(IsPair(kv) && Key(kv) == k) ==> k in r && r[k] == m[k]
    ensures forall k :: k in r ==> k in m || (IsPair(kv) && Key(kv) == k)
  {
    if IsPair(kv) then m[Key(kv) := Value(kv)] else m
  }

  /** The map after storing the segments in order: it keeps the keys it had,
      gains the key of every pair, and nothing else. */
  function StorePairs(m: map<seq<Byte>, seq<Byte>>, kvs: seq<seq<Byte>>): (r: map<seq<Byte>, seq<Byte>>)
    ensures forall k :: k in m ==> k in r
    ensures forall j :: 0 <= j < |kvs| && IsPair(kvs[j]) ==> Key(kvs[j]) in r
    ensures forall k :: k in r ==> k in m || exists j :: 0 <= j < |kvs| && IsPair(kvs[j]) && Key(kvs[j]) == k
    decreases |kvs|
  {
    if kvs == [] then m
    else
      var init := kvs[..|kvs| - 1];
      assert forall j :: 0 <= j < |init| ==> init[j] == kvs[j];
      StorePair(StorePairs(m, init), kvs[|kvs| - 1])
  }

  /** The parameters `execute` ends up with: the query string's pairs stored
      into an empty map, so the parameters are exactly the keys of its pairs. */
  function QueryParams(query: seq<Byte>): (r: map<seq<Byte>, seq<Byte>>)
    ensures var kvs := Text.Split(query, Ampersand);
            forall j :: 0 <= j < |kvs| && IsPair(kvs[j]) ==> Key(kvs[j]) in r
    ensures var kvs := Text.Split(query, Ampersand);
            forall k :: k in r ==> exists j :: 0 <= j < |kvs| && IsPair(kvs[j]) && Key(kvs[j]) == k
  {
    StorePairs(map[], Text.Split(query, Ampersand))
  }

  /** Segment `j` is the last pair among `kvs` whose key is `k`. */
  ghost predicate LastPairFor(kvs: seq<seq<Byte>>, j: int, k: seq<Byte>)
  {
    && 0 <= j < |kvs| && IsPair(kvs[j]) && Key(kvs[j]) == k
    && forall j' :: j < j' < |kvs| && IsPair(kvs[j']) ==> Key(kvs[j']) != k
  }

  /** The last pair with key `k` gives `k` its value. */
  lemma {:induction false} StorePairsLast(m: map<seq<Byte>, seq<Byte>>, kvs: seq<seq<Byte>>, k: seq<Byte>, j: int)
    requires LastPairFor(kvs, j, k)
    ensures k in StorePairs(m, kvs) && StorePairs(m, kvs)[k] == Value(kvs[j])
    decreases |kvs|
  {
    var init := kvs[..|kvs| - 1];
    var last := kvs[|kvs| - 1];
    if j < |kvs| - 1 {
      assert forall i :: 0 <= i < |init| ==> init[i] == kvs[i];
      assert LastPairFor(init, j, k);
      StorePairsLast(m, init, k, j);
    }
  }

  /** A key that no pair has keeps what it had. */
  lemma {:induction false} StorePairsUntouched(m: map<seq<Byte>, seq<Byte>>, kvs: seq<seq<Byte>>, k: seq<Byte>)
    requires forall j :: 0 <= j < |kvs| && IsPair(kvs[j]) ==> Key(kvs[j]) != k
    ensures k in StorePairs(m, kvs) <==> k in m
    ensures k in m ==> StorePairs(m, kvs)[k] == m[k]
    decreases |kvs|
  {
    if kvs != [] {
      var init := kvs[..|kvs| - 1];
      assert forall i :: 0 <= i < |init| ==> init[i] == kvs[i];
      StorePairsUntouched(m, init, k);
    }
  }

  /** A key ends up in the map iff it was there already or some segment is a
      pair with that key; the last such pair gives its value; a key no pair
      mentions keeps what it had. */
  lemma StorePairsSpec(m: map<seq<Byte>, seq<Byte>>, kvs: seq<seq<Byte>>, k: seq<Byte>)
    ensures k in StorePairs(m, kvs) <==>
              k in m || exists j :: 0 <= j < |kvs| && IsPair(kvs[j]) && Key(kvs[j]) == k
    ensures forall j :: LastPairFor(kvs, j, k) ==>
              k in StorePairs(m, kvs) && StorePairs(m, kvs)[k] == Value(kvs[j])
    ensures (forall j :: 0 <= j < |kvs| && IsPair(kvs[j]) ==> Key(kvs[j]) != k) ==>
              (k in StorePairs(m, kvs) <==> k in m) && (k in m ==> StorePairs(m, kvs)[k] == m[k])
  {
    forall j | LastPairFor(kvs, j, k)
      ensures k in StorePairs(m, kvs) && StorePairs(m, kvs)[k] == Value(kvs[j])
    {
      StorePairsLast(m, kvs, k, j);
    }
    if forall j :: 0 <= j < |kvs| && IsPair(kvs[j]) ==> Key(kvs[j]) != k {
      StorePairsUntouched(m, kvs, k);
    }
  }

  /** The map `parse_query_string` fills; a Go map is shared by reference, so
      it is an object the parser updates in place. */
  class Params {
    var entries: map<seq<Byte>, seq<Byte>>

    constructor ()
      ensures entries == map[]
    {
      entries := map[];
    }
  }

  /** `parse_query_string`: split on `&`, and store every segment that splits
      on `=` into exactly two parts. `strings.Split` always returns at least
      one part, so the source's `len(kvs) == 0` early return never fires and
      has no counterpart here. */
  method ParseQueryString(query: seq<Byte>, params: Params)
    modifies params
    ensures params.entries == StorePairs(old(params.entries), Text.Split(query, Ampersand))
  {
    var kvs := Text.Split(query, Ampersand);
    for i := 0 to |kvs|
      invariant params.entries == StorePairs(old(params.entries), kvs[..i])
    {
      var kv := Text.Split(kvs[i], Equals);
      if |kv| == 2 {
        params.entries := params.entries[kv[0] := kv[1]];
      }
      assert kvs[..i + 1][..i] == kvs[..i];
    }
    assert kvs[..|kvs|] == kvs;
  }

  // ---------------------------------------------------------------------------
  // JSON strings
  // ---------------------------------------------------------------------------

  /** A lower-case hexadecimal digit. */
  function Hex(d: nat): (b: Byte)
    requires d < 16
  {
    if d < 10 then 0x30 + d else 0x61 + (d - 10)
  }

  predicate IsHex(b: Byte)
  {
    0x30 <= b <= 0x39 || 0x61 <= b <= 0x66
  }

  function HexValue(b: Byte): (d: nat)
    requires IsHex(b)
    ensures d < 16
  {
    if b <= 0x39 then b - 0x30 else b - 0x61 + 10
  }

  lemma HexRoundTrip(d: nat)
    requires d < 16
    ensures IsHex(Hex(d)) && HexValue(Hex(d)) == d
  {
  }

  /** How `json.Marshal` writes one byte inside a string: `"` and `\` behind
      a backslash; newline, carriage return, tab, backspace and form feed as
      their two-character escapes; other control bytes and the HTML-sensitive
      `<`, `>`, `&` as `\u00XX`; every other byte as it is. */
  function EscapeByte(b: Byte): (r: seq<Byte>)
    ensures |r| >= 1
  {
    if b == Quote || b == Backslash then [Backslash, b]
    else if b == 0x0a then [Backslash, 0x6e]
    else if b == 0x0d then [Backslash, 0x72]
    else if b == 0x09 then [Backslash, 0x74]
    else if b == 0x08 then [Backslash, 0x62]
    else if b == 0x0c then [Backslash, 0x66]
    else if b < 0x20 || b == 0x3c || b == 0x3e || b == 0x26 then
      [Backslash, 0x75, 0x30, 0x30, Hex(b / 16), Hex(b % 16)]
    else [b]
  }

  function Escape(s: seq<Byte>): seq<Byte>
    decreases |s|
  {
    if s == [] then [] else EscapeByte(s[0]) + Escape(s[1..])
  }

  /** A JSON string literal. */
  function JsonString(s: seq<Byte>): seq<Byte>
  {
    [Quote] + Escape(s) + [Quote]
  }

  /** The byte a two-character escape stands for. */
  function ShortEscape(c: Byte): Option<Byte>
  {
    if c == Quote || c == Backslash || c == 0x2f then Some(c)
    else if c == 0x6e then Some(0x0a)
    else if c == 0x72 then Some(0x0d)
    else if c == 0x74 then Some(0x09)
    else if c == 0x62 then Some(0x08)
    else if c == 0x66 then Some(0x0c)
    else None
  }

  function Prepend(b: Byte, r: Option<(seq<Byte>, seq<Byte>)>): Option<(seq<Byte>, seq<Byte>)>
  {
    if r.None? then None else Some(([b] + r.value.0, r.value.1))
  }

  /** A JSON reader for the inside of a string literal, up to and including
      its closing quote: the bytes it stands for and what follows the quote.
      `\u00XX` is read for XX below 0x80, which is every `\u` escape the
      writer above emits. */
  function ReadString(s: seq<Byte>): Option<(seq<Byte>, seq<Byte>)>
    decreases |s|
  {
    if s == [] then None
    else if s[0] == Quote then Some(([], s[1..]))
    else if s[0] < 0x20 then None
    else if s[0] != Backslash then Prepend(s[0], ReadString(s[1..]))
    else if |s| < 2 then None
    else if s[1] == 0x75 then
      if |s| < 6 || s[2] != 0x30 || s[3] != 0x30 || !IsHex(s[4]) || !IsHex(s[5]) || HexValue(s[4]) >= 8 then None
      else Prepend(HexValue(s[4]) * 16 + HexValue(s[5]), ReadString(s[6..]))
    else
      var c := ShortEscape(s[1]);
      if c.None? then None else Prepend(c.value, ReadString(s[2..]))
  }

  /** A reader reads one escaped byte back and goes on after it. */
  lemma ReadEscapedByte(b: Byte, t: seq<Byte>)
    ensures ReadString(EscapeByte(b) + t) == Prepend(b, ReadString(t))
  {
    var s := EscapeByte(b) + t;
    if b == Quote || b == Backslash || b == 0x0a || b == 0x0d || b == 0x09 || b == 0x08 || b == 0x0c {
      assert s[2..] == t;
    } else if b < 0x20 || b == 0x3c || b == 0x3e || b == 0x26 {
      HexRoundTrip(b / 16);
      HexRoundTrip(b % 16);
      assert s[6..] == t;
    } else {
      assert s[1..] == t;
    }
  }

  /** `Escape` round-trips: a reader gets every byte back and stops exactly
      at the closing quote. */
  lemma {:induction false} ReadEscaped(s: seq<Byte>, rest: seq<Byte>)
    ensures ReadString(Escape(s) + [Quote] + rest) == Some((s, rest))
    decreases |s|
  {
    if s == [] {
      assert Escape(s) + [Quote] + rest == [Quote] + rest;
    } else {
      var tail := Escape(s[1..]) + [Quote] + rest;
      AppendAssoc(EscapeByte(s[0]), Escape(s[1..]), [Quote]);
      AppendAssoc(EscapeByte(s[0]), Escape(s[1..]) + [Quote], rest);
      ReadEscapedByte(s[0], tail);
      ReadEscaped(s[1..], rest);
      assert [s[0]] + s[1..] == s;
    }
  }

  // ---------------------------------------------------------------------------
  // execute
  // ---------------------------------------------------------------------------

  const Root: seq<Byte> := [0x2f]
  const CameraIdKey: seq<Byte> := Ascii("camera_id")
  const GetAbc: seq<Byte> := Ascii("get_abc")
  const NoMatch: seq<Byte> := Ascii("do't match")
  const JsonPrefix: seq<Byte> := Ascii("{\"camera_id\":")
  const JsonSuffix: seq<Byte> := Ascii(",\"code\":200,\"msg\":\"ok\"}")

  /** `json.Marshal` of `{"camera_id": id, "code": 200, "msg": "ok"}`: the
      keys in sorted order, no white space. */
  function CameraJson(id: seq<Byte>): (body: seq<Byte>)
    ensures JsonPrefix <= body && |body| >= |JsonPrefix| + |JsonSuffix|
    ensures body[|body| - |JsonSuffix|..] == JsonSuffix
  {
    JsonPrefix + JsonString(id) + JsonSuffix
  }

  /** The `camera_id` parameter, or `""` (the zero value of a missing key). */
  function CameraId(params: map<seq<Byte>, seq<Byte>>): seq<Byte>
  {
    if CameraIdKey in params then params[CameraIdKey] else []
  }

  /** What `execute(path, query_string)` returns. */
  function Response(path: seq<Byte>, query: seq<Byte>): (body: seq<Byte>)
    ensures path == Root ==> JsonPrefix <= body && |body| >= |JsonSuffix| && body[|body| - |JsonSuffix|..] == JsonSuffix
    ensures path != Root ==> (body == GetAbc <==> path == GetAbc)
  {
    if path == Root then CameraJson(CameraId(QueryParams(query)))
    else if path == GetAbc then GetAbc
    else NoMatch
  }

  /** The object starts with its `camera_id` key, and its string value
      reads back as `id`, followed by the `code` and `msg` members. */
  lemma CameraJsonReads(id: seq<Byte>)
    ensures CameraJson(id)[..|JsonPrefix|] == JsonPrefix
    ensures ReadString(CameraJson(id)[|JsonPrefix| + 1..]) == Some((id, JsonSuffix))
  {
    var body := CameraJson(id);
    var tail := Escape(id) + [Quote] + JsonSuffix;
    assert body == JsonPrefix + ([Quote] + tail);
    assert body[|JsonPrefix| + 1..] == tail;
    ReadEscaped(id, JsonSuffix);
  }

  /** For path `/` the body is the JSON object whose `camera_id` string reads
      back as the last `camera_id=...` pair of the query string (empty when
      there is none); `get_abc` is echoed; any other path gets `do't match`. */
  lemma ResponseSpec(path: seq<Byte>, query: seq<Byte>)
    ensures path == Root ==>
              var body := Response(path, query);
              && body[..|JsonPrefix|] == JsonPrefix
              && ReadString(body[|JsonPrefix| + 1..]) == Some((CameraId(QueryParams(query)), JsonSuffix))
    ensures path != Root && path == GetAbc ==> Response(path, query) == GetAbc
    ensures path != Root && path != GetAbc ==> Response(path, query) == NoMatch
  {
    if path == Root {
      CameraJsonReads(CameraId(QueryParams(query)));
    }
  }

  /** `execute`. */
  method Execute(path: seq<Byte>, query: seq<Byte>) returns (resp: seq<Byte>)
    ensures resp == Response(path, query)
  {
    var params := new Params();
    ParseQueryString(query, params);
    if path == Root {
      var cameraId := if CameraIdKey in params.entries then params.entries[CameraIdKey] else [];
      resp := CameraJson(cameraId);
    } else if GetAbc == path {
      resp := GetAbc;
    } else {
      resp := NoMatch;
    }
  }

  // ---------------------------------------------------------------------------
  // Writing the response
  // ---------------------------------------------------------------------------

  const ApplicationJson: seq<Byte> := Ascii("application/json")
  const StatusOk: seq<Byte> := Ascii("HTTP/1.0 200 OK\r\n")
  const ServerLine: seq<Byte> := Ascii("Server: httpd/0.1.0\r\n")
  const ContentTypeName: seq<Byte> := Ascii("Content-Type: ")
  const ContentLengthName: seq<Byte> := Ascii("Content-Length: ")
  const CustomDataLine: seq<Byte> := Ascii("Custom-Data: test\r\n")

  /** The six writes of `header(conn, content_type, length)`. */
  function HeaderChunks(contentType: seq<Byte>, length: nat): (r: seq<seq<Byte>>)
    ensures |r| == 6
  {
    [StatusOk,
     ServerLine,
     ContentTypeName + contentType + Crlf,
     ContentLengthName + Text.Decimal(length) + Crlf,
     CustomDataLine,
     Crlf]
  }

  const StatusNotImplemented: seq<Byte> := Ascii("HTTP/1.0 501 Method Not Implemented\r\n")

  /** The eight writes of `unimplemented`. */
  const UnimplementedChunks: seq<seq<Byte>> :=
    [StatusNotImplemented,
     ServerLine,
     Ascii("Content-Type: text/html\r\n"),
     Crlf,
     Ascii("<HTML><HEAD><TITLE>Methord Not Implemented\r\n"),
     Ascii("</TITLE></HEAD>\r\n"),
     Ascii("<BODY><P>HTTP request method not supported.</P>\r\n"),
     Ascii("</BODY></HTML>\r\n")]

  /** `header`: six writes whose errors are ignored. */
  method Header(c: Conn, contentType: seq<Byte>, length: nat)
    modifies c
    ensures c.State() == WriteAll(old(c.State()), HeaderChunks(contentType, length))
  {
    ghost var chunks := HeaderChunks(contentType, length);
    assert chunks[0..] == chunks;
    WriteAllStep(c.State(), chunks, 0);
    var _ := c.Write(StatusOk);
    WriteAllStep(c.State(), chunks, 1);
    var _ := c.Write(ServerLine);
    WriteAllStep(c.State(), chunks, 2);
    var _ := c.Write(ContentTypeName + contentType + Crlf);
    WriteAllStep(c.State(), chunks, 3);
    var _ := c.Write(ContentLengthName + Text.Decimal(length) + Crlf);
    WriteAllStep(c.State(), chunks, 4);
    var _ := c.Write(CustomDataLine);
    WriteAllStep(c.State(), chunks, 5);
    var _ := c.Write(Crlf);
    assert chunks[6..] == [];
  }

  /** `unimplemented`: eight writes whose errors are ignored. */
  method Unimplemented(c: Conn)
    modifies c
    ensures c.State() == WriteAll(old(c.State()), UnimplementedChunks)
  {
    var chunks := UnimplementedChunks;
    assert chunks[0..] == chunks;
    WriteAllStep(c.State(), chunks, 0);
    var _ := c.Write(chunks[0]);
    WriteAllStep(c.State(), chunks, 1);
    var _ := c.Write(chunks[1]);
    WriteAllStep(c.State(), chunks, 2);
    var _ := c.Write(chunks[2]);
    WriteAllStep(c.State(), chunks, 3);
    var _ := c.Write(chunks[3]);
    WriteAllStep(c.State(), chunks, 4);
    var _ := c.Write(chunks[4]);
    WriteAllStep(c.State(), chunks, 5);
    var _ := c.Write(chunks[5]);
    WriteAllStep(c.State(), chunks, 6);
    var _ := c.Write(chunks[6]);
    WriteAllStep(c.State(), chunks, 7);
    var _ := c.Write(chunks[7]);
    assert chunks[8..] == [];
  }

  // ---------------------------------------------------------------------------
  // accept_request_thread
  // ---------------------------------------------------------------------------

  /** How many bytes the one `conn.Read` returns. */
  function ReadCount(w: Wire): nat
  {
    if |w.input| < BufferSize then |w.input| else BufferSize
  }

  /** The writes of one request whose read succeeded. */
  function Reply(buf: seq<Byte>): (chunks: seq<seq<Byte>>)
    ensures |chunks| == if ParseRequestLine(buf).verb == Get then 7 else 8
    ensures ParseRequestLine(buf).verb != Get ==> chunks[0] == StatusNotImplemented
    ensures ParseRequestLine(buf).verb == Get ==>
              chunks[0] == StatusOk && chunks[3] == ContentLengthName + Text.Decimal(|chunks[6]|) + Crlf
  {
    var line := ParseRequestLine(buf);
    if line.verb != Get then UnimplementedChunks
    else GetReply(line.url)
  }

  /** The writes answering a `GET` of `url`: the header, whose
      `Content-Length` line carries the body's length, then the body. */
  function GetReply(url: seq<Byte>): (chunks: seq<seq<Byte>>)
    ensures |chunks| == 7
    ensures chunks[0] == StatusOk && chunks[3] == ContentLengthName + Text.Decimal(|chunks[6]|) + Crlf
  {
    var target := SplitTarget(url);
    var body := Response(target.path, target.query);
    HeaderChunks(ApplicationJson, |body|) + [body]
  }

  /** `accept_request_thread` on a connection: a failed read (the peer sent
      nothing more) writes nothing; otherwise the reply to the bytes read. */
  function AfterAccept(w: Wire): (r: Wire)
    ensures r.input == w.input[ReadCount(w)..]
    ensures w.output <= r.output
    ensures w.input == [] ==> r == w
  {
    if w.input == [] then w
    else
      var n := ReadCount(w);
      WriteAll(w.(input := w.input[n..]), Reply(w.input[..n]))
  }

  /** `accept_request_thread` after a successful read of `buf`. */
  lemma AcceptRead(w: Wire, buf: seq<Byte>)
    requires w.input != [] && buf == w.input[..ReadCount(w)]
    ensures AfterAccept(w) == WriteAll(w.(input := w.input[|buf|..]), Reply(buf))
  {
  }

  /** The reply to a `GET` in terms of the scanned URL's path and query. */
  lemma ReplyToGet(buf: seq<Byte>, url: seq<Byte>, path: seq<Byte>, query: seq<Byte>)
    requires ParseRequestLine(buf) == RequestLine(Get, url)
    requires SplitTarget(url) == Target(path, query)
    ensures Reply(buf) == HeaderChunks(ApplicationJson, |Response(path, query)|) + [Response(path, query)]
  {
  }

  /** A method other than `GET` is answered by `unimplemented` alone:
      nothing is routed and no header with a length is written. */
  lemma NonGetUnimplemented(w: Wire)
    requires w.input != [] && ParseRequestLine(w.input[..ReadCount(w)]).verb != Get
    requires w.writesLeft >= |UnimplementedChunks|
    ensures AfterAccept(w).output == w.output + Concat(UnimplementedChunks)
  {
    AcceptRead(w, w.input[..ReadCount(w)]);
    WriteAllDelivers(w.(input := w.input[ReadCount(w)..]), UnimplementedChunks);
  }

  /** The `Content-Length` line `header` writes carries `length` in decimal
      digits, which a reader reads back as `length`. */
  lemma ContentLengthLine(contentType: seq<Byte>, length: nat)
    ensures exists digits ::
              && HeaderChunks(contentType, length)[3] == ContentLengthName + digits + Crlf
              && (forall i :: 0 <= i < |digits| ==> '0' as int <= digits[i] <= '9' as int)
              && Text.DecimalValue(digits) == length
  {
    Text.DecimalRoundTrip(length);
    var digits := Text.Decimal(length);
    assert HeaderChunks(contentType, length)[3] == ContentLengthName + digits + Crlf;
  }

  /** A `GET` is answered by the header block and then the body `execute`
      returns for the request's path and query string; the header block's
      `Content-Length` line carries that body's length. */
  lemma GetAnswered(w: Wire)
    requires w.input != []
    requires ParseRequestLine(w.input[..ReadCount(w)]).verb == Get
    requires w.writesLeft >= 7
    ensures var target := SplitTarget(ParseRequestLine(w.input[..ReadCount(w)]).url);
            var body := Response(target.path, target.query);
            AfterAccept(w).output == w.output + Concat(HeaderChunks(ApplicationJson, |body|)) + body
  {
    var buf := w.input[..ReadCount(w)];
    var url := ParseRequestLine(buf).url;
    var target := SplitTarget(url);
    var body := Response(target.path, target.query);
    AcceptRead(w, buf);
    ReplyToGet(buf, url, target.path, target.query);
    HeadersThenBody(w.(input := w.input[ReadCount(w)..]), HeaderChunks(ApplicationJson, |body|), body);
  }

  /** Writing a header block and then a body, every write accepted. */
  lemma HeadersThenBody(w: Wire, chunks: seq<seq<Byte>>, body: seq<Byte>)
    requires w.writesLeft >= |chunks| + 1
    ensures WriteAll(w, chunks + [body]).output == w.output + Concat(chunks) + body
  {
    WriteAllDelivers(w, chunks + [body]);
    assert Concat(chunks + [body]) == Concat(chunks) + body by {
      ConcatAppend(chunks, [body]);
      assert Concat([body]) == body + Concat([]);
    }
    AppendAssoc(w.output, Concat(chunks), body);
  }

  /** Nothing is written when the read fails. */
  lemma FailedReadSilent(w: Wire)
    requires w.input == []
    ensures AfterAccept(w) == w
  {
  }

  /** The rest of `accept_request_thread` once `buf` has been read. */
  method Respond(c: Conn, buf: seq<Byte>)
    modifies c
    ensures c.State() == WriteAll(old(c.State()), Reply(buf))
  {
    var verb, i := ScanWord(buf, 0);
    if verb != Get {
      Unimplemented(c);
      return;
    }
    RespondToGet(c, buf, i);
  }

  /** The scans of the `GET` branch: skip the spaces after the method, scan
      the URL, and split it at the first `?`. */
  method ScanTarget(buf: seq<Byte>, start: nat) returns (path: seq<Byte>, query: seq<Byte>)
    requires start == RunEnd(buf, 0)
    ensures Target(path, query) == SplitTarget(ParseRequestLine(buf).url)
  {
    var i := SkipSpaces(buf, start);
    var url;
    url, i := ScanWord(buf, i);
    assert ParseRequestLine(buf).url == url;
    path, query := url, [];
    var j := IndexOf(url, Question);
    if j != -1 {
      path := url[..j];
      if j + 1 < |url| {
        query := url[j + 1..];
      }
    }
  }

  /** `header(conn, "application/json", len(resp))`, then the body. */
  method SendJson(c: Conn, resp: seq<Byte>)
    modifies c
    ensures c.State() == WriteAll(old(c.State()), HeaderChunks(ApplicationJson, |resp|) + [resp])
  {
    Header(c, ApplicationJson, |resp|);
    var _ := c.Write(resp);
    WriteAllSnoc(old(c.State()), HeaderChunks(ApplicationJson, |resp|), resp);
  }

  /** The `GET` branch of `accept_request_thread`, from the end of the method
      on. */
  method RespondToGet(c: Conn, buf: seq<Byte>, start: nat)
    requires start == RunEnd(buf, 0) && buf[..start] == Get
    modifies c
    ensures c.State() == WriteAll(old(c.State()), Reply(buf))
  {
    var path, query := ScanTarget(buf, start);
    var resp := Execute(path, query);
    SendJson(c, resp);
    ReplyToGet(buf, ParseRequestLine(buf).url, path, query);
  }

  /** `accept_request_thread`: one read into a 1024-byte buffer, then the
      reply to what was read. */
  method AcceptRequest(c: Conn)
    modifies c
    ensures c.State() == AfterAccept(old(c.State()))
  {
    ghost var start := c.State();
    var buf, ok := c.Read(BufferSize);
    if !ok {
      return;
    }
    AcceptRead(start, buf);
    Respond(c, buf);
  }
}
