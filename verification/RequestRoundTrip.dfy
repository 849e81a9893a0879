/**
 Rendering a request and getting it back: parsing undoes rendering up to blanks in front of
 values, and a rendered request is exactly one head.
 */
module RequestRoundTrip {
  import opened Text
  import opened Framing
  import opened RequestParser

  /** A request as it is sent: fields in order, keys possibly repeated. */
  datatype RawRequest = RawRequest(verb: string, uri: string, version: string, fields: seq<Field>)

  /** Only a CR could end the line early; a bare LF ends none. */
  predicate OneLine(s: string) {
    '\r' !in s
  }

  predicate WellFormedField(f: Field) {
    OneLine(f.key) && OneLine(f.value) && ':' !in f.key
  }

  predicate WellFormed(r: RawRequest) {
    && OneLine(r.verb) && OneLine(r.uri) && OneLine(r.version)
    && ' ' !in r.verb && ' ' !in r.uri
    && forall f :: f in r.fields ==> WellFormedField(f)
  }

  function RequestLine(r: RawRequest): string {
    r.verb + " " + r.uri + " " + r.version
  }

  function FieldLine(f: Field): string {
    f.key + ": " + f.value
  }

  function FieldLines(fields: seq<Field>): (ls: seq<string>)
    ensures |ls| == |fields|
  {
    if fields == [] then [] else [FieldLine(fields[0])] + FieldLines(fields[1..])
  }

  function Render(r: RawRequest): string {
    Lines([RequestLine(r)] + FieldLines(r.fields)) + CRLF
  }

  /** What that is byte by byte: the request line, a line for each field, and an empty line. */
  lemma RenderBytes(r: RawRequest, f: Field)
    ensures r.fields == [] ==> Render(r) == r.verb + " " + r.uri + " " + r.version + "\r\n\r\n"
    ensures Render(r.(fields := r.fields + [f])) ==
      Render(r)[..|Render(r)| - 2] + (f.key + ": " + f.value + "\r\n\r\n")
  {
    var line := RequestLine(r);
    if r.fields == [] {
      assert Lines([line]) == line + CRLF + "" && [line] + [] == [line];
    }
    FieldLinesMore(r.fields, f);
    LinesMore([line] + FieldLines(r.fields), FieldLine(f));
    assert [line] + (FieldLines(r.fields) + [FieldLine(f)]) == [line] + FieldLines(r.fields) + [FieldLine(f)];
  }

  lemma {:induction false} FieldLinesMore(fields: seq<Field>, f: Field)
    ensures FieldLines(fields + [f]) == FieldLines(fields) + [FieldLine(f)]
  {
    if fields != [] {
      FieldLinesMore(fields[1..], f);
      assert (fields + [f])[0] == fields[0] && (fields + [f])[1..] == fields[1..] + [f];
    }
  }

  lemma {:induction false} LinesMore(ls: seq<string>, l: string)
    ensures Lines(ls + [l]) == Lines(ls) + (l + CRLF)
  {
    if ls == [] {
      assert [l][1..] == [] && Lines([l]) == l + CRLF + "";
    } else {
      LinesMore(ls[1..], l);
      assert (ls + [l])[0] == ls[0] && (ls + [l])[1..] == ls[1..] + [l];
      Regroup(ls[0] + CRLF, Lines(ls[1..]), l + CRLF);
    }
  }

  /** What a receiver makes of a field: blanks in front of the value do not belong to it. */
  function Received(f: Field): Field {
    Field(f.key, SkipBlank(f.value))
  }

  function ReceivedAll(fields: seq<Field>): (received: seq<Field>)
    ensures |received| == |fields|
    ensures forall i :: 0 <= i < |fields| ==> received[i] == Received(fields[i])
  {
    if fields == [] then [] else [Received(fields[0])] + ReceivedAll(fields[1..])
  }

  function ReceivedRequest(r: RawRequest): Request {
    Request(r.verb, r.uri, r.version, Headers(ReceivedAll(r.fields)))
  }

  lemma ParseValue(value: string, rest: string)
    requires '\r' !in value
    ensures Token(SkipBlank(" " + value + CRLF + rest), CRLF) == SkipBlank(value)
    ensures Rest(SkipBlank(" " + value + CRLF + rest), CRLF) == rest
  {
    var behind, tail := " " + value + CRLF + rest, CRLF + rest;
    assert behind[0] == ' ' && behind[1..] == value + tail;
    SkipBlankBeforeCR(value, tail);
    assert SkipBlank(behind) == SkipBlank(value) + tail == SkipBlank(value) + CRLF + rest;
    var n := SkipBlankIsSuffix(value);
    TokenAndRest(SkipBlank(value), CRLF, rest);
  }

  lemma ParseFirstField(f: Field, rest: string)
    requires WellFormedField(f)
    ensures ParseFields(FieldLine(f) + CRLF + rest) == [Received(f)] + ParseFields(rest)
  {
    var s, behind := FieldLine(f) + CRLF + rest, " " + f.value + CRLF + rest;
    assert s == f.key + ":" + behind;
    TokenAndRest(f.key, ":", behind);
    ParseValue(f.value, rest);
  }

  lemma {:induction false} ParseFieldLines(fields: seq<Field>)
    requires forall f :: f in fields ==> WellFormedField(f)
    ensures ParseFields(Lines(FieldLines(fields))) == ReceivedAll(fields)
  {
    if fields != [] {
      assert WellFormedField(fields[0]);
      assert forall f :: f in fields[1..] ==> f in fields;
      ParseFieldLines(fields[1..]);
      ParseFirstField(fields[0], Lines(FieldLines(fields[1..])));
      assert Lines(FieldLines(fields)) == FieldLine(fields[0]) + CRLF + Lines(FieldLines(fields[1..]));
    }
  }

  lemma RenderIsLineAndFields(r: RawRequest)
    ensures Render(r) == r.verb + " " + (r.uri + " " + (r.version + CRLF + Lines(FieldLines(r.fields)))) + CRLF
  {
    var ls := [RequestLine(r)] + FieldLines(r.fields);
    assert ls[0] == RequestLine(r) && ls[1..] == FieldLines(r.fields);
    var fields := Lines(ls[1..]);
    assert Lines(ls) == RequestLine(r) + CRLF + fields;
    assert RequestLine(r) + CRLF + fields == r.verb + " " + (r.uri + " " + (r.version + CRLF + fields));
  }

  /** Parsing undoes rendering, up to blanks in front of values. */
  lemma ParseUndoesRender(r: RawRequest)
    requires WellFormed(r)
    ensures |Render(r)| >= 2
    ensures ParseRequest(Render(r)[..|Render(r)| - 2]) == ReceivedRequest(r)
    ensures MapsToLast(ReceivedRequest(r).headers, ReceivedAll(r.fields))
  {
    HeadersMapToLast(ReceivedAll(r.fields));
    RenderIsLineAndFields(r);
    var fields := Lines(FieldLines(r.fields));
    var version := r.version + CRLF + fields;
    var line := r.uri + " " + version;
    assert Render(r)[..|Render(r)| - 2] == r.verb + " " + line;
    TokenAndRest(r.verb, " ", line);
    TokenAndRest(r.uri, " ", version);
    TokenAndRest(r.version, CRLF, fields);
    ParseFieldLines(r.fields);
  }

  /**
   What that means, field by field: method, uri and version come back, a key is there exactly if a field
   was sent with it, and it maps to the value of the last such field, without the blanks in front of it.
   */
  lemma ParsedIsWhatWasSent(r: RawRequest)
    requires WellFormed(r)
    ensures |Render(r)| >= 2
    ensures var got := ParseRequest(Render(r)[..|Render(r)| - 2]);
      && got.verb == r.verb && got.uri == r.uri && got.version == r.version
      && (forall key :: key in got.headers <==> exists i :: 0 <= i < |r.fields| && r.fields[i].key == key)
      && forall i, key :: LastField(r.fields, i, key) ==>
           key in got.headers && got.headers[key] == SkipBlank(r.fields[i].value)
  {
    hide ParseRequest, Render, Headers;
    ParseUndoesRender(r);
    var received := ReceivedAll(r.fields);
    var headers := ReceivedRequest(r).headers;
    forall key
      ensures key in headers <==> exists i :: 0 <= i < |r.fields| && r.fields[i].key == key
    {
      if i :| 0 <= i < |received| && received[i].key == key {
        assert r.fields[i].key == key;
      }
      if i :| 0 <= i < |r.fields| && r.fields[i].key == key {
        assert received[i].key == key;
      }
    }
    forall i, key | LastField(r.fields, i, key) ensures LastField(received, i, key) {
    }
  }

  lemma ReceivedIsSentIff(f: Field)
    ensures Received(f) == f <==> f.value == "" || !IsBlank(f.value[0])
  {
    var n := SkipBlankIsSuffix(f.value);
    assert f.value[0..] == f.value;
  }

  predicate NoLeadingBlanks(fields: seq<Field>) {
    forall i :: 0 <= i < |fields| ==> fields[i].value == "" || !IsBlank(fields[i].value[0])
  }

  /** It gives the very fields back exactly if no value starts with a blank. */
  lemma FieldsSurviveIffNoLeadingBlanks(fields: seq<Field>)
    requires forall f :: f in fields ==> WellFormedField(f)
    ensures ParseFields(Lines(FieldLines(fields))) == fields <==> NoLeadingBlanks(fields)
  {
    ParseFieldLines(fields);
    forall i | 0 <= i < |fields|
      ensures ReceivedAll(fields)[i] == fields[i] <==> fields[i].value == "" || !IsBlank(fields[i].value[0])
    {
      ReceivedIsSentIff(fields[i]);
    }
  }

  /** A blank in front of a value is lost, for one. */
  lemma LeadingBlankIsLost()
    ensures WellFormedField(Field("A", " b"))
    ensures ParseFields(Lines(FieldLines([Field("A", " b")]))) == [Field("A", "b")]
  {
    hide ParseFields, Lines, FieldLines, OneLine;
    var f := Field("A", " b");
    BlankSkipped();
    assert WellFormedField(f);
    ParseFieldLines([f]);
    assert ReceivedAll([f]) == [Received(f)];
  }

  lemma BlankSkipped()
    ensures SkipBlank(" b") == "b" && OneLine("A") && OneLine(" b") && ':' !in "A"
  {
    assert " b"[1..] == "b" && SkipBlank("b") == "b";
  }

  /** Without leading blanks, what is received is the request that was sent, its headers as a map. */
  lemma ReceivedIsSent(r: RawRequest)
    requires NoLeadingBlanks(r.fields)
    ensures ReceivedRequest(r) == Request(r.verb, r.uri, r.version, Headers(r.fields))
  {
    forall i | 0 <= i < |r.fields| ensures ReceivedAll(r.fields)[i] == r.fields[i] {
      ReceivedIsSentIff(r.fields[i]);
    }
    assert ReceivedAll(r.fields) == r.fields;
  }

  lemma {:induction false} FieldLinesAreLines(fields: seq<Field>)
    requires forall f :: f in fields ==> WellFormedField(f)
    ensures forall l :: l in FieldLines(fields) ==> IsLine(l)
  {
    if fields != [] {
      assert WellFormedField(fields[0]);
      assert forall f :: f in fields[1..] ==> f in fields;
      FieldLinesAreLines(fields[1..]);
      assert IsLine(FieldLine(fields[0]));
    }
  }

  /** A rendered request is exactly one head, whatever is sent behind it. */
  lemma RenderIsOneHead(r: RawRequest, t: string)
    requires WellFormed(r)
    ensures HeadLength(Render(r) + t) == |Render(r)| >= 4
  {
    var ls := [RequestLine(r)] + FieldLines(r.fields);
    FieldLinesAreLines(r.fields);
    assert IsLine(RequestLine(r));
    assert forall l :: l in ls ==> IsLine(l);
    SeparatorEndsLines(ls, t);
    assert Render(r) + t == Lines(ls) + CRLF + t;
  }

  function RenderAll(rs: seq<RawRequest>): string {
    if rs == [] then "" else Render(rs[0]) + RenderAll(rs[1..])
  }

  function Renderings(rs: seq<RawRequest>): seq<string> {
    if rs == [] then [] else [Render(rs[0])] + Renderings(rs[1..])
  }

  /** A stream of rendered requests is split into just these requests. */
  lemma {:induction false} SplitUndoesRenderAll(rs: seq<RawRequest>)
    requires forall r :: r in rs ==> WellFormed(r)
    ensures Split(RenderAll(rs)) == Renderings(rs)
  {
    if rs == [] {
      assert HeadLength("") == 0;
    } else {
      assert WellFormed(rs[0]);
      assert forall r :: r in rs[1..] ==> r in rs;
      SplitUndoesRenderAll(rs[1..]);
      RenderIsOneHead(rs[0], RenderAll(rs[1..]));
      var s, n := RenderAll(rs), |Render(rs[0])|;
      assert s[..n] == Render(rs[0]) && s[n..] == RenderAll(rs[1..]);
    }
  }
}
