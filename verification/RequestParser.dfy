/**
 Parsing a head into a request: first on values, then with the cursor the program uses, whose
 whitespace loop looks one byte past its end.
 */
module RequestParser {
  import opened Text

  datatype Field = Field(key: string, value: string)

  datatype Request = Request(verb: string, uri: string, version: string, headers: map<string, string>)

  /** The request of an empty head. */
  const NO_REQUEST := Request("", "", "", map[])

  function ParseFields(s: string): seq<Field>
    decreases |s|
  {
    if s == "" then []
    else
      var value := SkipBlank(Rest(s, ":"));
      [Field(Token(s, ":"), Token(value, CRLF))] + ParseFields(Rest(value, CRLF))
  }

  /** The fields as a map; of fields with the same key the last one counts. */
  function Headers(fields: seq<Field>): map<string, string> {
    if fields == [] then map[]
    else Headers(fields[..|fields| - 1])[fields[|fields| - 1].key := fields[|fields| - 1].value]
  }

  /** A key maps to the value of its last field. */
  lemma {:induction false} LastFieldCounts(fields: seq<Field>, i: nat)
    requires i < |fields| && forall j :: i < j < |fields| ==> fields[j].key != fields[i].key
    ensures fields[i].key in Headers(fields) && Headers(fields)[fields[i].key] == fields[i].value
  {
    if i < |fields| - 1 {
      LastFieldCounts(fields[..|fields| - 1], i);
    }
  }

  /** Field `i` is the last one with this key. */
  predicate LastField(fields: seq<Field>, i: int, key: string) {
    0 <= i < |fields| && fields[i].key == key && forall j :: i < j < |fields| ==> fields[j].key != key
  }

  /** Exactly the keys of the fields are there, each with the value of its last field. */
  ghost predicate MapsToLast(headers: map<string, string>, fields: seq<Field>) {
    && (forall key :: key in headers <==> exists i :: 0 <= i < |fields| && fields[i].key == key)
    && (forall i, key :: LastField(fields, i, key) ==> key in headers && headers[key] == fields[i].value)
  }

  lemma {:induction false} HeadersMapToLast(fields: seq<Field>)
    ensures MapsToLast(Headers(fields), fields)
  {
    if fields != [] {
      var front, last := fields[..|fields| - 1], fields[|fields| - 1];
      HeadersMapToLast(front);
      var before, headers := Headers(front), Headers(fields);
      assert headers == before[last.key := last.value];
      forall key
        ensures key in headers <==> exists i :: 0 <= i < |fields| && fields[i].key == key
      {
        if i :| 0 <= i < |front| && front[i].key == key {
          assert fields[i].key == key;
        }
        assert key == last.key ==> fields[|front|].key == key;
        if i :| 0 <= i < |fields| && fields[i].key == key {
          assert i < |front| ==> front[i].key == key;
        }
      }
      forall i, key | LastField(fields, i, key)
        ensures key in headers && headers[key] == fields[i].value
      {
        assert i < |front| ==> LastField(front, i, key) && fields[|front|].key != key;
      }
    }
  }

  function ParseRequest(s: string): Request {
    var line := Rest(s, " ");
    var version := Rest(line, " ");
    Request(Token(s, " "), Token(line, " "), Token(version, CRLF), Headers(ParseFields(Rest(version, CRLF))))
  }

  // ---- the cursor ----------------------------------------------------------------------

  /** The test of the whitespace loop; it reads `*it` even when `it` is at the end. */
  predicate GoesOn(text: string, it: nat, end: nat)
    requires it < |text|
  {
    (it != end && text[it] == ' ') || text[it] == '\t'
  }

  /** Where the loop stops, if the text goes on far enough. */
  function StopsAt(text: string, it: nat, end: nat): nat
    requires it <= |text|
    decreases |text| - it
  {
    if it < |text| && GoesOn(text, it, end) then StopsAt(text, it + 1, end) else it
  }

  lemma PassesEndOnlyOnTab(text: string, end: nat)
    requires end < |text|
    ensures StopsAt(text, end, end) <= end <==> text[end] != '\t'
    ensures StopsAt(text, end, end) >= end
  {
    StopsBehind(text, end, end);
    if text[end] == '\t' {
      StopsBehind(text, end + 1, end);
    }
  }

  lemma {:induction false} StopsBehind(text: string, it: nat, end: nat)
    requires it <= |text|
    ensures StopsAt(text, it, end) >= it
    decreases |text| - it
  {
    if it < |text| && GoesOn(text, it, end) {
      StopsBehind(text, it + 1, end);
    }
  }

  /**
   The whitespace loop stays inside its range exactly if the range has something else than
   whitespace left, or the byte behind it is not a tab. The heads' final CR guarantees that.
   */
  lemma {:induction false} SkipStaysInsideIff(text: string, it: nat, end: nat)
    requires it <= end < |text|
    ensures StopsAt(text, it, end) <= end <==> !(SkipBlank(text[it..end]) == "" && text[end] == '\t')
    decreases end - it
  {
    if it == end {
      PassesEndOnlyOnTab(text, end);
      assert text[it..end] == "";
    } else {
      assert text[it..end][0] == text[it] && text[it..end][1..] == text[it + 1..end];
      SkipStaysInsideIff(text, it + 1, end);
    }
  }

  /** With a tab behind the range, the loop leaves it: here from its end at 2 to 3. */
  lemma TabRunsPast()
    ensures StopsAt("A:\t", 2, 2) == 3
  {
    assert StopsAt("A:\t", 3, 2) == 3;
  }

  class Parser {
    const text: string
    const end: nat
    var it: nat

    /** The two bytes behind the end are the head's last line break. */
    predicate Valid()
      reads this
    {
      it <= end && end + 2 == |text| && text[end..] == CRLF
    }

    function Remaining(): string
      requires it <= end <= |text|
      reads this
    {
      text[it..end]
    }

    constructor (head: string)
      requires |head| >= 2 && head[|head| - 2..] == CRLF
      ensures Valid() && Remaining() == head[..|head| - 2] && text == head
    {
      text, it, end := head, 0, |head| - 2;
    }

    method Find(c: char) returns (token: string)
      requires Valid()
      modifies this
      ensures Valid() && old(it) <= it && (old(it) < end ==> old(it) < it)
      ensures token == Token(old(Remaining()), [c]) && Remaining() == Rest(old(Remaining()), [c])
    {
      var begin, f := it, it + IndexOf(text[it..end], [c]);
      it := f;
      token := text[begin..it];
      if it != end {
        it := it + 1;
      }
    }

    method SkipWhitespace()
      requires Valid()
      modifies this
      ensures Valid() && old(it) <= it
      ensures Remaining() == SkipBlank(old(Remaining()))
    {
      while GoesOn(text, it, end)
        invariant Valid() && old(it) <= it
        invariant SkipBlank(Remaining()) == SkipBlank(old(Remaining()))
        decreases end - it
      {
        assert text[end] == text[end..][0] == '\r';
        assert Remaining()[1..] == text[it + 1..end];
        it := it + 1;
      }
    }

    method Search(v: string) returns (token: string)
      requires Valid() && v != ""
      modifies this
      ensures Valid() && old(it) <= it
      ensures token == Token(old(Remaining()), v) && Remaining() == Rest(old(Remaining()), v)
    {
      var begin, s := it, it + IndexOf(text[it..end], v);
      IndexIsFirst(text[it..end], v);
      assert s < end ==> v <= text[it..end][s - it..];
      it := if s != end then s + |v| else s;
      token := text[begin..s];
    }
  }

  /** One round of the header loop, which shortens what remains. */
  method ParseField(p: Parser) returns (f: Field)
    requires p.Valid() && p.it != p.end
    modifies p
    ensures p.Valid() && old(p.it) < p.it
    ensures ParseFields(old(p.Remaining())) == [f] + ParseFields(p.Remaining())
  {
    var key := p.Find(':');
    p.SkipWhitespace();
    var value := p.Search(CRLF);
    f := Field(key, value);
  }

  lemma OneMoreField(fields: seq<Field>, f: Field, rest: seq<Field>)
    ensures Headers(fields + [f]) == Headers(fields)[f.key := f.value]
    ensures fields + ([f] + rest) == (fields + [f]) + rest
  {
    assert (fields + [f])[..|fields|] == fields;
  }

  /** The header loop. */
  method ParseHeaders(p: Parser) returns (headers: map<string, string>)
    requires p.Valid()
    modifies p
    ensures headers == Headers(ParseFields(old(p.Remaining())))
    ensures MapsToLast(headers, ParseFields(old(p.Remaining())))
  {
    HeadersMapToLast(ParseFields(p.Remaining()));
    headers := map[];
    ghost var fields: seq<Field> := [];
    while p.it != p.end
      invariant p.Valid()
      invariant ParseFields(old(p.Remaining())) == fields + ParseFields(p.Remaining())
      invariant headers == Headers(fields)
      decreases p.end - p.it
    {
      var f := ParseField(p);
      OneMoreField(fields, f, ParseFields(p.Remaining()));
      headers := headers[f.key := f.value];
      fields := fields + [f];
    }
    assert fields + [] == fields;
  }

  /** What is behind the request line. */
  function FieldText(s: string): string {
    Rest(Rest(Rest(s, " "), " "), CRLF)
  }

  /** The parse of a non-empty head. */
  method ParseHead(head: string) returns (r: Request)
    requires |head| >= 2 && head[|head| - 2..] == CRLF
    ensures r == ParseRequest(head[..|head| - 2])
    ensures MapsToLast(r.headers, ParseFields(FieldText(head[..|head| - 2])))
  {
    var p := new Parser(head);
    var verb := p.Find(' ');
    var uri := p.Find(' ');
    var version := p.Search(CRLF);
    var headers := ParseHeaders(p);
    r := Request(verb, uri, version, headers);
  }
}
