/**
 * The framing helpers of servers/g_net.go: readLine, readHeaders,
 * parseQueryString and writeResponse, with the fixed acknowledgement the
 * server writes for an accepted payment. Each decoder is paired with the
 * text it accepts (JoinLines, a query written out) and the encoder is
 * paired with the decoders.
 */
module HttpCodec {
  import opened Wrappers
  import opened ByteStrings

  // ---------------------------------------------------------------------------
  // readLine

  /** The (line, rest, ok) triple that readLine returns. */
  datatype LineRead = LineRead(line: Bytes, rest: Bytes, ok: bool)

  /** readLine: cut data at its first CRLF; without one, report failure and keep all of data. */
  function ReadLine(data: Bytes): (r: LineRead)
    ensures !r.ok <==> NoCRLF(data)
    ensures !r.ok ==> r.line == [] && r.rest == data
    ensures r.ok ==> r.line + CRLF + r.rest == data && NoCRLFBefore(data, |r.line|)
  {
    var idx := IndexCRLF(data);
    if idx < 0 then LineRead([], data, false)
    else
      assert data[..idx] + CRLF + data[idx + 2..] == data;
      LineRead(data[..idx], data[idx + 2..], true)
  }

  /** A line with no CRLF of its own, followed by CRLF, is read back exactly. */
  lemma ReadLineOf(line: Bytes, rest: Bytes)
    requires NoCRLF(line)
    ensures ReadLine(line + CRLF + rest) == LineRead(line, rest, true)
  {
    var data := line + CRLF + rest;
    assert CRLFAt(data, |line|);
    assert forall i :: 0 <= i < |line| - 1 ==> CRLFAt(data, i) == CRLFAt(line, i);
    assert forall i :: 0 <= i < |line| ==> !CRLFAt(data, i);
    var r := ReadLine(data);
    assert |r.line| == |line|;
    assert r.line == data[..|line|] == line;
    assert r.rest == data[|line| + 2..] == rest;
  }

  // ---------------------------------------------------------------------------
  // readHeaders

  /** The (headers, rest, ok) triple that readHeaders returns; Go's nil map is the empty map. */
  datatype HeaderRead = HeaderRead(headers: map<Bytes, Bytes>, rest: Bytes, ok: bool)

  /**
   * The key readHeaders stores for a header line: the text before the line's
   * first ':', trimmed and lower-cased. Only lines holding a ':' reach it.
   */
  function HeaderKey(line: Bytes): Bytes {
    var sep := IndexByte(line, ':');
    if sep < 0 then [] else ToLower(TrimSpace(line[..sep]))
  }

  /** The value readHeaders stores for a header line: the text after its first ':', trimmed. */
  function HeaderValue(line: Bytes): Bytes {
    var sep := IndexByte(line, ':');
    if sep < 0 then [] else TrimSpace(line[sep + 1..])
  }

  /** readHeaders: header lines up to and including the blank line that ends the block. */
  function ReadHeaders(data: Bytes): (r: HeaderRead)
    ensures r.ok ==> |r.rest| + 2 <= |data|
    ensures !r.ok ==> r.headers == map[]
  {
    ReadHeadersInto(data, map[])
  }

  /** The loop of readHeaders, with the map filled so far. */
  function ReadHeadersInto(data: Bytes, acc: map<Bytes, Bytes>): (r: HeaderRead)
    ensures r.ok ==> |r.rest| + 2 <= |data|
    ensures !r.ok ==> r.headers == map[]
    decreases |data|
  {
    var l := ReadLine(data);
    if !l.ok then HeaderRead(map[], l.rest, false)
    else if |l.line| == 0 then
      assert data == CRLF + l.rest;
      HeaderRead(acc, l.rest, true)
    else
      var sep := IndexByte(l.line, ':');
      if sep < 0 then HeaderRead(map[], l.rest, false)
      else
        ReadHeadersInto(l.rest, acc[HeaderKey(l.line) := HeaderValue(l.line)])
  }

  /** A line readLine cuts off holds no CRLF, so it is read back the same whatever follows it. */
  lemma ReadLineRebase(data: Bytes, other: Bytes)
    requires ReadLine(data).ok
    ensures var l := ReadLine(data); NoCRLF(l.line) && ReadLine(l.line + CRLF + other) == LineRead(l.line, other, true)
  {
    var l := ReadLine(data);
    assert forall i :: 0 <= i < |l.line| && CRLFAt(l.line, i) ==> CRLFAt(data, i);
    ReadLineOf(l.line, other);
  }

  /** readHeaders fails as soon as it meets a non-blank line without ':'. */
  lemma ReadHeadersNoColon(line: Bytes, rest: Bytes)
    requires line != [] && NoCRLF(line) && ':' !in line
    ensures ReadHeaders(line + CRLF + rest) == HeaderRead(map[], rest, false)
  {
    ReadLineOf(line, rest);
  }

  /** readHeaders fails when the data holds no CRLF at all. */
  lemma ReadHeadersNoCRLF(data: Bytes)
    requires NoCRLF(data)
    ensures ReadHeaders(data) == HeaderRead(map[], data, false)
  {
  }

  /** A header line readHeaders accepts: not blank, no CRLF of its own, and a ':' in it. */
  predicate IsHeaderLine(line: Bytes) {
    line != [] && NoCRLF(line) && ':' in line
  }

  /** Header lines, each followed by CRLF. */
  function JoinLines(lines: seq<Bytes>): Bytes {
    if lines == [] then [] else lines[0] + CRLF + JoinLines(lines[1..])
  }

  /** The map readHeaders builds from lines, in order, starting from acc: a later key overwrites. */
  function ApplyLines(acc: map<Bytes, Bytes>, lines: seq<Bytes>): map<Bytes, Bytes>
    decreases |lines|
  {
    if lines == [] then acc else ApplyLines(acc[HeaderKey(lines[0]) := HeaderValue(lines[0])], lines[1..])
  }

  /** readHeaders reads back any block of header lines closed by a blank line, and nothing after it. */
  lemma {:induction false} ReadHeadersOfLines(lines: seq<Bytes>, rest: Bytes, acc: map<Bytes, Bytes>)
    requires forall l <- lines :: IsHeaderLine(l)
    ensures ReadHeadersInto(JoinLines(lines) + CRLF + rest, acc) == HeaderRead(ApplyLines(acc, lines), rest, true)
  {
    if lines == [] {
      assert JoinLines(lines) + CRLF + rest == [] + CRLF + rest;
      ReadLineOf([], rest);
    } else {
      var l0 := lines[0];
      assert l0 in lines;
      var tail := JoinLines(lines[1..]) + CRLF + rest;
      assert JoinLines(lines) + CRLF + rest == l0 + CRLF + tail;
      ReadLineOf(l0, tail);
      ReadHeadersOfLines(lines[1..], rest, acc[HeaderKey(l0) := HeaderValue(l0)]);
    }
  }

  /**
   * Conversely, whatever readHeaders accepts is a block of header lines closed
   * by a blank line, read to the map those lines build, with the bytes after
   * the blank line left over.
   */
  lemma {:induction false} HeaderBlockLines(data: Bytes, acc: map<Bytes, Bytes>) returns (lines: seq<Bytes>)
    requires ReadHeadersInto(data, acc).ok
    ensures var r := ReadHeadersInto(data, acc);
      && (forall l <- lines :: IsHeaderLine(l))
      && data == JoinLines(lines) + CRLF + r.rest
      && r.headers == ApplyLines(acc, lines)
    decreases |data|
  {
    var r := ReadHeadersInto(data, acc);
    var l := ReadLine(data);
    assert l.ok && data == l.line + CRLF + l.rest;
    if |l.line| == 0 {
      lines := [];
      assert JoinLines(lines) + CRLF + r.rest == l.line + CRLF + l.rest;
    } else {
      var acc' := acc[HeaderKey(l.line) := HeaderValue(l.line)];
      assert IndexByte(l.line, ':') >= 0;
      assert r == ReadHeadersInto(l.rest, acc');
      ReadLineRebase(data, []);
      var tail := HeaderBlockLines(l.rest, acc');
      lines := [l.line] + tail;
      JoinLinesCons(l.line, tail, r.rest);
      ApplyLinesCons(acc, l.line, tail);
    }
  }

  lemma JoinLinesCons(line: Bytes, lines: seq<Bytes>, rest: Bytes)
    ensures JoinLines([line] + lines) + CRLF + rest == line + CRLF + (JoinLines(lines) + CRLF + rest)
  {
    assert ([line] + lines)[1..] == lines;
  }

  /** Of two header lines with the same stored key, the later one's value is kept. */
  lemma ReadHeadersLaterWins(first: Bytes, second: Bytes, rest: Bytes)
    requires IsHeaderLine(first) && IsHeaderLine(second)
    requires HeaderKey(first) == HeaderKey(second)
    ensures ReadHeaders(first + CRLF + second + CRLF + CRLF + rest)
      == HeaderRead(map[HeaderKey(second) := HeaderValue(second)], rest, true)
  {
    JoinTwoLines(first, second, rest);
    ReadHeadersOfLines([first, second], rest, map[]);
    ApplyLinesCons(map[], first, [second]);
    ApplyOneLine(map[HeaderKey(first) := HeaderValue(first)], second);
    MapOverwrite(HeaderKey(second), HeaderValue(first), HeaderValue(second));
  }

  lemma JoinTwoLines(first: Bytes, second: Bytes, rest: Bytes)
    ensures JoinLines([first, second]) + CRLF + rest == first + CRLF + second + CRLF + CRLF + rest
  {
    var lines := [first, second];
    assert lines[1..] == [second] && [second][1..] == [];
    assert JoinLines([second]) == second + CRLF;
  }

  lemma ApplyLinesCons(acc: map<Bytes, Bytes>, line: Bytes, lines: seq<Bytes>)
    ensures ApplyLines(acc, [line] + lines) == ApplyLines(acc[HeaderKey(line) := HeaderValue(line)], lines)
  {
    assert ([line] + lines)[1..] == lines;
  }

  lemma ApplyOneLine(acc: map<Bytes, Bytes>, line: Bytes)
    ensures ApplyLines(acc, [line]) == acc[HeaderKey(line) := HeaderValue(line)]
  {
    ApplyLinesCons(acc, line, []);
    assert [line] + [] == [line];
  }

  lemma MapOverwrite(k: Bytes, v1: Bytes, v2: Bytes)
    ensures map[k := v1][k := v2] == map[k := v2]
  {
  }

  // ---------------------------------------------------------------------------
  // parseQueryString

  /** parseQueryString: exactly two '&'-separated pairs, each cut at its first '='. */
  function ParseQueryString(qs: Bytes): (r: Option<map<Bytes, Bytes>>)
    ensures r.Some? <==> Count(qs, '&') == 1 && forall p <- Split(qs, '&') :: '=' in p
  {
    var pairs := Split(qs, '&');
    if |pairs| != 2 then None else AddPairs(pairs, map[])
  }

  /** The loop of parseQueryString over the pairs, with the map filled so far. */
  function AddPairs(pairs: seq<Bytes>, acc: map<Bytes, Bytes>): (r: Option<map<Bytes, Bytes>>)
    ensures r.Some? <==> forall p <- pairs :: '=' in p
  {
    if pairs == [] then Some(acc)
    else
      var i := IndexByte(pairs[0], '=');
      if i < 0 then None
      else
        assert forall p <- pairs :: p == pairs[0] || p in pairs[1..];
        AddPairs(pairs[1..], acc[pairs[0][..i] := pairs[0][i + 1..]])
  }

  /** A query of two written-out pairs is read back; when both keys are equal the second value is kept. */
  lemma ParseQueryStringOf(k1: Bytes, v1: Bytes, k2: Bytes, v2: Bytes)
    requires '=' !in k1 && '&' !in k1 && '&' !in v1
    requires '=' !in k2 && '&' !in k2 && '&' !in v2
    ensures ParseQueryString(k1 + "=" + v1 + "&" + k2 + "=" + v2) == Some(map[k1 := v1][k2 := v2])
  {
    var p1, p2 := k1 + "=" + v1, k2 + "=" + v2;
    assert '&' !in p1 && '&' !in p2;
    assert Join([p1, p2], '&') == k1 + "=" + v1 + "&" + k2 + "=" + v2;
    SplitJoin([p1, p2], '&');
    FirstEquals(k1, v1);
    FirstEquals(k2, v2);
    assert AddPairs([p2], map[k1 := v1]) == Some(map[k1 := v1][k2 := v2]);
    assert [p1, p2][1..] == [p2];
    assert AddPairs([p1, p2], map[]) == AddPairs([p2], map[k1 := v1]);
  }

  /** In k = v with no '=' in k, the first '=' is the one after k. */
  lemma FirstEquals(k: Bytes, v: Bytes)
    requires '=' !in k
    ensures var p := k + "=" + v; IndexByte(p, '=') == |k| && p[..|k|] == k && p[|k| + 1..] == v
  {
    var p := k + "=" + v;
    assert p[..|k|] == k;
    assert p[|k|] == '=';
    assert forall j :: 0 <= j < |k| ==> p[j] == k[j];
  }

  // ---------------------------------------------------------------------------
  // writeResponse

  function StatusText(code: int): Bytes {
    if code == 200 then "OK" else "Error"
  }

  /** The status line writeResponse writes, without its CRLF. */
  function StatusLine(code: int): Bytes {
    "HTTP/1.1 " + Itoa(code) + " " + StatusText(code)
  }

  /** A header field as writeResponse spells it. */
  datatype Field = Field(name: Bytes, value: Bytes)

  /** The line of a field: its name, ": ", then its value. */
  function FieldLine(f: Field): Bytes {
    f.name + ": " + f.value
  }

  function FieldLines(fs: seq<Field>): seq<Bytes> {
    seq(|fs|, i requires 0 <= i < |fs| => FieldLine(fs[i]))
  }

  /** The value of the Connection header writeResponse writes. */
  function ConnectionValue(keepAlive: bool): Bytes {
    if keepAlive then "keep-alive" else "close"
  }

  /** The three header fields of every response, in the order writeResponse writes them. */
  function ResponseFields(bodyLength: int, keepAlive: bool): seq<Field> {
    [Field("Content-Type", "application/json"),
     Field("Content-Length", Itoa(bodyLength)),
     Field("Connection", ConnectionValue(keepAlive))]
  }

  /** writeResponse: the status line, the header fields, a blank line, then the body; every line closed by CRLF. */
  function WriteResponse(code: int, body: Bytes, keepAlive: bool): Bytes {
    StatusLine(code) + CRLF + JoinLines(FieldLines(ResponseFields(|body|, keepAlive))) + CRLF + body
  }

  /** The bytes sendWithBlockingWrite writes for every accepted payment, whatever the keep-alive state. */
  const AckPrefix: Bytes :=
    "HTTP/1.1 200 OK" + "\r\n"
      + "Content-Type: application/json" + "\r\n"
      + "Content-Length: 0" + "\r\n"
      + "Connection: keep-alive" + "\r\n"
      + "\r\n"

  /** The fixed acknowledgement is exactly the 200, empty-body, keep-alive response. */
  lemma AckPrefixIsResponse()
    ensures AckPrefix == WriteResponse(200, [], true)
  {
    AckStatusLine();
    AckFieldLines();
    JoinThreeLines("Content-Type: application/json", "Content-Length: 0", "Connection: keep-alive");
  }

  lemma AckStatusLine()
    ensures StatusLine(200) == "HTTP/1.1 200 OK"
  {
    assert Itoa(200) == "200";
  }

  lemma AckFieldLines()
    ensures FieldLines(ResponseFields(0, true)) == ["Content-Type: application/json", "Content-Length: 0", "Connection: keep-alive"]
  {
    assert Itoa(0) == "0";
    var fs := ResponseFields(0, true);
    assert FieldLine(fs[0]) == "Content-Type: application/json";
    assert FieldLine(fs[1]) == "Content-Length: 0";
    assert FieldLine(fs[2]) == "Connection: keep-alive";
  }

  lemma JoinThreeLines(a: Bytes, b: Bytes, c: Bytes)
    ensures JoinLines([a, b, c]) == a + CRLF + b + CRLF + c + CRLF
  {
    assert [a, b, c][1..] == [b, c];
    assert [b, c][1..] == [c];
    assert [c][1..] == [];
    assert JoinLines([c]) == c + CRLF;
  }

  /** A field that reads back as written: no ':' in the name, no CR and no padding in name or value. */
  predicate Spellable(f: Field) {
    ':' !in f.name && '\r' !in f.name && Trimmed(f.name) && '\r' !in f.value && Trimmed(f.value)
  }

  /** A field in ASCII, so that Go lower-cases and trims it without changing its length. */
  predicate AsciiField(f: Field) {
    Ascii(f.name) && Ascii(f.value)
  }

  /** The map of fields as readHeaders keys them: lower-cased names, a later field overwriting an earlier one. */
  function FieldMap(acc: map<Bytes, Bytes>, fs: seq<Field>): map<Bytes, Bytes>
    decreases |fs|
  {
    if fs == [] then acc else FieldMap(acc[ToLower(fs[0].name) := fs[0].value], fs[1..])
  }

  /** A spellable field's line is a header line, and readHeaders stores its lower-cased name and its value. */
  lemma FieldLineReadsBack(f: Field)
    requires Spellable(f)
    ensures IsHeaderLine(FieldLine(f))
    ensures HeaderKey(FieldLine(f)) == ToLower(f.name) && HeaderValue(FieldLine(f)) == f.value
  {
    var line := FieldLine(f);
    assert line == f.name + ":" + (" " + f.value);
    FirstColon(f.name, " " + f.value);
    HeaderKeyOf(f.name, " " + f.value);
    HeaderValueOf(f.name, f.value);
    assert '\r' !in line;
    NoCRLFWithoutCR(line);
  }

  lemma FieldLinesAreHeaderLines(fs: seq<Field>)
    requires forall f <- fs :: Spellable(f)
    ensures forall l <- FieldLines(fs) :: IsHeaderLine(l)
  {
    var lines := FieldLines(fs);
    forall i | 0 <= i < |lines|
      ensures IsHeaderLine(lines[i])
    {
      assert fs[i] in fs;
      FieldLineReadsBack(fs[i]);
    }
  }

  /** The map readHeaders builds from the lines of spellable fields is their field map. */
  lemma {:induction false} ApplyFieldLines(acc: map<Bytes, Bytes>, fs: seq<Field>)
    requires forall f <- fs :: Spellable(f)
    ensures ApplyLines(acc, FieldLines(fs)) == FieldMap(acc, fs)
    decreases |fs|
  {
    if fs != [] {
      assert fs[0] in fs;
      FieldLinesCons(fs);
      ApplyFieldLine(acc, fs[0], FieldLines(fs[1..]));
      ApplyFieldLines(acc[ToLower(fs[0].name) := fs[0].value], fs[1..]);
    }
  }

  lemma FieldLinesCons(fs: seq<Field>)
    requires fs != []
    ensures FieldLines(fs) == [FieldLine(fs[0])] + FieldLines(fs[1..])
  {
  }

  lemma ApplyFieldLine(acc: map<Bytes, Bytes>, f: Field, lines: seq<Bytes>)
    requires Spellable(f)
    ensures ApplyLines(acc, [FieldLine(f)] + lines) == ApplyLines(acc[ToLower(f.name) := f.value], lines)
  {
    ApplyLinesCons(acc, FieldLine(f), lines);
    FieldLineReadsBack(f);
  }

  /** readHeaders reads back any list of spellable fields closed by a blank line, and nothing after it. */
  lemma ReadHeadersOfFields(fs: seq<Field>, rest: Bytes)
    requires forall f <- fs :: Spellable(f)
    ensures ReadHeaders(JoinLines(FieldLines(fs)) + CRLF + rest) == HeaderRead(FieldMap(map[], fs), rest, true)
  {
    FieldLinesAreHeaderLines(fs);
    ReadHeadersOfLines(FieldLines(fs), rest, map[]);
    ApplyFieldLines(map[], fs);
  }

  /**
   * The decoder reads back what the encoder writes: readLine yields the status
   * line, and readHeaders yields the three fields keyed by their lower-cased
   * names, with the body as the bytes after the blank line.
   */
  lemma WriteResponseReadsBack(code: int, body: Bytes, keepAlive: bool)
    ensures var l := ReadLine(WriteResponse(code, body, keepAlive));
      && l.ok
      && l.line == StatusLine(code)
      && ReadHeaders(l.rest) == HeaderRead(FieldMap(map[], ResponseFields(|body|, keepAlive)), body, true)
  {
    var rest := JoinLines(FieldLines(ResponseFields(|body|, keepAlive))) + CRLF + body;
    assert WriteResponse(code, body, keepAlive) == StatusLine(code) + CRLF + rest;
    StatusLineNoCRLF(code);
    ReadLineOf(StatusLine(code), rest);
    ResponseFieldsSpellable(|body|, keepAlive);
    ReadHeadersOfFields(ResponseFields(|body|, keepAlive), body);
  }

  lemma StatusLineNoCRLF(code: int)
    ensures NoCRLF(StatusLine(code))
  {
    var a, b, c := "HTTP/1.1 ", Itoa(code), " " + StatusText(code);
    assert '\r' !in a && '\r' !in c;
    assert StatusLine(code) == a + b + c;
    NoCRLFWithoutCR(a + b + c);
  }

  lemma ResponseFieldsSpellable(bodyLength: nat, keepAlive: bool)
    ensures forall f <- ResponseFields(bodyLength, keepAlive) :: Spellable(f)
  {
    ContentTypeSpellable();
    ContentLengthSpellable(bodyLength);
    ConnectionSpellable(keepAlive);
  }

  lemma ContentTypeSpellable()
    ensures Spellable(Field("Content-Type", "application/json"))
  {
    assert ':' !in "Content-Type" && '\r' !in "Content-Type";
    assert '\r' !in "application/json";
  }

  lemma ContentLengthSpellable(bodyLength: nat)
    ensures Spellable(Field("Content-Length", Itoa(bodyLength)))
  {
    var n := Itoa(bodyLength);
    assert IsDigit(n[0]) && IsDigit(n[|n| - 1]);
    assert ':' !in "Content-Length" && '\r' !in "Content-Length";
  }

  lemma ConnectionSpellable(keepAlive: bool)
    ensures Spellable(Field("Connection", ConnectionValue(keepAlive)))
  {
    assert ':' !in "Connection" && '\r' !in "Connection";
    assert '\r' !in ConnectionValue(keepAlive);
  }

  /** The headers a response carries, as readHeaders keys them; Content-Length parses back to the body size. */
  lemma ResponseHeaderMap(bodyLength: nat, keepAlive: bool)
    requires bodyLength <= Int64Max
    ensures var h := FieldMap(map[], ResponseFields(bodyLength, keepAlive));
      && h == map["content-type" := "application/json",
                  "content-length" := Itoa(bodyLength),
                  "connection" := ConnectionValue(keepAlive)]
      && Atoi(h["content-length"]) == Some(bodyLength)
  {
    var fs := ResponseFields(bodyLength, keepAlive);
    assert ToLower("Content-Type") == "content-type";
    assert ToLower("Content-Length") == "content-length";
    assert ToLower("Connection") == "connection";
    assert fs[1..] == [fs[1], fs[2]] && fs[2..] == [fs[2]];
    assert FieldMap(map[], fs) == FieldMap(map["content-type" := "application/json"], fs[1..]);
    assert FieldMap(map["content-type" := "application/json"], fs[1..])
      == FieldMap(map["content-type" := "application/json", "content-length" := Itoa(bodyLength)], fs[2..]);
    assert fs[2..][1..] == [];
    var m := map["content-type" := "application/json", "content-length" := Itoa(bodyLength)];
    assert FieldMap(m, fs[2..]) == FieldMap(m["connection" := ConnectionValue(keepAlive)], []);
    AtoiItoa(bodyLength);
  }

  /** In name ++ ":" ++ tail with no ':' in name, the first ':' is the one after name. */
  lemma FirstColon(name: Bytes, tail: Bytes)
    requires ':' !in name
    ensures IndexByte(name + ":" + tail, ':') == |name|
  {
    var line := name + ":" + tail;
    assert line[|name|] == ':';
    assert forall j :: 0 <= j < |name| ==> line[j] == name[j];
  }

  /**
   * Whatever the line, the stored key is lower-case and the key and value
   * have no white space at either end; a line without ':' gives neither.
   */
  lemma HeaderFieldShape(line: Bytes)
    ensures forall i :: 0 <= i < |HeaderKey(line)| ==> !IsUpper(HeaderKey(line)[i])
    ensures Trimmed(HeaderKey(line)) && Trimmed(HeaderValue(line))
    ensures ':' !in line ==> HeaderKey(line) == [] && HeaderValue(line) == []
  {
    var sep := IndexByte(line, ':');
    if sep >= 0 {
      ToLowerChanges(TrimSpace(line[..sep]));
    }
  }

  lemma HeaderKeyOf(name: Bytes, tail: Bytes)
    requires ':' !in name && Trimmed(name)
    ensures HeaderKey(name + ":" + tail) == ToLower(name)
  {
    FirstColon(name, tail);
    assert (name + ":" + tail)[..|name|] == name;
  }

  lemma HeaderValueOf(name: Bytes, value: Bytes)
    requires ':' !in name && Trimmed(value)
    ensures HeaderValue(name + ": " + value) == value
  {
    assert name + ": " + value == name + ":" + (" " + value);
    FirstColon(name, " " + value);
    assert (name + ": " + value)[|name| + 1..] == " " + value;
    TrimSpaceLeadingSpace(value);
  }
}
