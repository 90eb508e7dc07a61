/** `HttpResponse`: a status code, a header map seeded with the content type
    and length, and a body. `to_string` writes the status line (its reason
    phrase is always `OK`), one `key: value` line per map entry, one more
    `Content-Length` line, an empty line and the body.

    The map is a Rust `HashMap`, whose iteration order is unspecified; the
    order in which `to_string` visits the keys is therefore a parameter,
    `order`, which may be any arrangement of the keys with each key once. */
module HttpResponses {
  import opened Text

  /** Rust's `u16`, the type of the status code. */
  type u16 = x: int | 0 <= x < 0x1_0000

  const ContentType := "Content-Type"
  const ContentLength := "Content-Length"
  const TextHtml := "text/html"

  /** `order` lists every key of `h` exactly once: a possible iteration
      order of the map. */
  predicate IsOrderOf(order: seq<string>, h: map<string, string>) {
    && (forall i, j :: 0 <= i < j < |order| ==> order[i] != order[j])
    && (forall i :: 0 <= i < |order| ==> order[i] in h)
    && (forall k :: k in h ==> k in order)
  }

  /** The headers `HttpResponse::new` starts with. */
  function SeededHeaders(body: string): (h: map<string, string>)
    ensures h.Keys == {ContentType, ContentLength}
    ensures h[ContentType] == TextHtml
    ensures h[ContentLength] == Decimal(Utf8Length(body))
  {
    map[ContentType := TextHtml, ContentLength := Decimal(Utf8Length(body))]
  }

  /** A header line without its line ending. */
  function FieldLine(key: string, value: string): string {
    key + ": " + value
  }

  /** The header lines `to_string` writes for the map, in `order`. */
  function Fields(h: map<string, string>, order: seq<string>): (ls: seq<string>)
    requires forall i :: 0 <= i < |order| ==> order[i] in h
    ensures |ls| == |order|
    ensures forall i :: 0 <= i < |order| ==> ls[i] == FieldLine(order[i], h[order[i]])
  {
    if order == [] then [] else [FieldLine(order[0], h[order[0]])] + Fields(h, order[1..])
  }

  /** The status line without its line ending. */
  function StatusLine(status: u16): string {
    "HTTP/1.1 " + Decimal(status) + " OK"
  }

  /** `HttpResponse::to_string` on the values of the fields: the headers
      collected from `format!("{}: {}\r\n", k, v)` in map order, framed by
      the status line and the extra `Content-Length` line. The text starts
      with the status line, whatever the status, holds the header lines
      next, and ends with the trailer, whose end is the body. */
  function Serialize(status: u16, h: map<string, string>, body: string, order: seq<string>): (r: string)
    requires IsOrderOf(order, h)
    ensures var p, t := StatusLine(status) + "\r\n", Trailer(body);
      && |p| + |t| <= |r|
      && r[..|p|] == p
      && r[|p|..|r| - |t|] == Unlines(Fields(h, order))
      && r[|r| - |t|..] == t
      && r[|r| - |body|..] == body
  {
    var p := StatusLine(status) + "\r\n";
    var m := Unlines(Fields(h, order));
    var t := Trailer(body);
    assert (p + m + t)[..|p|] == p;
    assert (p + m + t)[|p|..|p| + |m|] == m;
    assert (p + m + t)[|p| + |m|..] == t;
    assert t[|t| - |body|..] == body;
    p + m + t
  }

  /** The end of every serialised response: the extra `Content-Length`
      line, the empty line and the body. */
  function Trailer(body: string): string {
    "Content-Length: " + Decimal(Utf8Length(body)) + "\r\n\r\n" + body
  }

  class HttpResponse {
    var statusCode: u16
    var headers: map<string, string>
    var body: string

    /** `HttpResponse::new`: status and body stored unchanged, and exactly
        the two seeded headers. */
    constructor (statusCode: u16, body: string)
      ensures this.statusCode == statusCode && this.body == body
      ensures headers == SeededHeaders(body)
    {
      this.statusCode := statusCode;
      this.body := body;
      headers := map[ContentType := TextHtml, ContentLength := Decimal(Utf8Length(body))];
    }

    /** `HttpResponse::add_header`: sets one key, overwriting its old value,
        and changes nothing else. */
    method AddHeader(key: string, value: string)
      modifies this
      ensures headers == old(headers)[key := value]
      ensures statusCode == old(statusCode) && body == old(body)
    {
      headers := headers[key := value];
    }

    /** `HttpResponse::to_string`: starts with the status line, whatever the
        status, ends with the extra `Content-Length` line, the empty line and
        the body, and holds the header lines in between. */
    function ToString(order: seq<string>): (r: string)
      reads this
      requires IsOrderOf(order, headers)
      ensures var p, t := StatusLine(statusCode) + "\r\n", Trailer(body);
        && |p| + |t| <= |r|
        && r[..|p|] == p
        && r[|p|..|r| - |t|] == Unlines(Fields(headers, order))
        && r[|r| - |t|..] == t
        && r[|r| - |body|..] == body
    {
      Serialize(statusCode, headers, body, order)
    }
  }

  // ---------------------------------------------------------------------
  // Properties of the serialisation

  /** A list of distinct keys is as long as the set it holds. */
  lemma {:induction false} DistinctLength(order: seq<string>)
    requires forall i, j :: 0 <= i < j < |order| ==> order[i] != order[j]
    ensures |set k | k in order| == |order|
  {
    if order != [] {
      var rest := order[1..];
      DistinctLength(rest);
      var s, t := set k | k in order, set k | k in rest;
      assert order[0] !in t;
      assert s == t + {order[0]};
    }
  }

  /** An iteration order visits as many keys as the map holds. */
  lemma OrderLength(order: seq<string>, h: map<string, string>)
    requires IsOrderOf(order, h)
    ensures |order| == |h|
  {
    DistinctLength(order);
    assert (set k | k in order) == h.Keys;
  }

  /** `to_string` writes one header line per map entry: as many lines as
      entries, line `i` for the `i`-th key visited, and a line for every
      entry. */
  lemma FieldsCoverHeaders(h: map<string, string>, order: seq<string>)
    requires IsOrderOf(order, h)
    ensures var ls := Fields(h, order);
      && |ls| == |h|
      && (forall i :: 0 <= i < |ls| ==> order[i] in h && ls[i] == FieldLine(order[i], h[order[i]]))
      && (forall k :: k in h ==> exists i :: 0 <= i < |ls| && ls[i] == FieldLine(k, h[k]))
  {
    OrderLength(order, h);
    var ls := Fields(h, order);
    forall k | k in h
      ensures exists i :: 0 <= i < |ls| && ls[i] == FieldLine(k, h[k])
    {
      var i :| 0 <= i < |order| && order[i] == k;
      assert ls[i] == FieldLine(k, h[k]);
    }
  }

  /** The lines of the part of a response before its body: the status
      line, one line per header, the extra `Content-Length` line and the
      empty line. */
  function HeadLines(status: u16, h: map<string, string>, body: string, order: seq<string>): seq<string>
    requires IsOrderOf(order, h)
  {
    [StatusLine(status)] + Fields(h, order) + [FieldLine(ContentLength, Decimal(Utf8Length(body))), ""]
  }

  /** The serialised response is its head lines, each ended by CR LF,
      followed by the body. */
  lemma SerializeUnlines(status: u16, h: map<string, string>, body: string, order: seq<string>)
    requires IsOrderOf(order, h)
    ensures Serialize(status, h, body, order) == Unlines(HeadLines(status, h, body, order)) + body
  {
    FrameUnlines(Decimal(status), Fields(h, order), Decimal(Utf8Length(body)), body);
  }

  /** The framing of `to_string`, for any status digits `d`, header lines
      `fs` and length digits `n`. */
  lemma FrameUnlines(d: string, fs: seq<string>, n: string, body: string)
    ensures "HTTP/1.1 " + d + " OK\r\n" + Unlines(fs) + ("Content-Length: " + n + "\r\n\r\n" + body)
      == Unlines(["HTTP/1.1 " + d + " OK"] + fs + [FieldLine(ContentLength, n), ""]) + body
  {
    var s, cl := "HTTP/1.1 " + d + " OK", FieldLine(ContentLength, n);
    var p, m, tl := "HTTP/1.1 " + d + " OK\r\n", Unlines(fs), Unlines([cl, ""]);
    UnlinesAppend([s], fs);
    UnlinesAppend([s] + fs, [cl, ""]);
    assert Unlines([s]) == s + "\r\n" + Unlines([]) == p;
    assert [cl, ""][1..] == [""] && [""][1..] == [];
    assert tl == cl + "\r\n" + ("" + "\r\n" + Unlines([]));
    assert tl + body == "Content-Length: " + n + "\r\n\r\n" + body;
    AppendAssoc(p + m, tl, body);
  }

  /** No head line holds an LF when no header key or value does. */
  lemma HeadLinesNoLF(status: u16, h: map<string, string>, body: string, order: seq<string>)
    requires IsOrderOf(order, h)
    requires forall k :: k in h ==> '\n' !in k && '\n' !in h[k]
    ensures var ls := HeadLines(status, h, body, order);
      forall k :: 0 <= k < |ls| ==> '\n' !in ls[k]
  {
    var ls, fs := HeadLines(status, h, body, order), Fields(h, order);
    NoLFInDecimal(Decimal(status));
    NoLFInDecimal(Decimal(Utf8Length(body)));
    forall k | 0 <= k < |ls|
      ensures '\n' !in ls[k]
    {
      if 1 <= k <= |fs| {
        var key := order[k - 1];
        assert ls[k] == key + ": " + h[key];
      }
    }
  }

  /** Read back with `str::lines`, a response whose header keys and values
      hold no LF is its status line, one line per header, the extra
      `Content-Length` line, one empty line, and then the lines of the
      body. */
  lemma SerializedLines(status: u16, h: map<string, string>, body: string, order: seq<string>)
    requires IsOrderOf(order, h)
    requires forall k :: k in h ==> '\n' !in k && '\n' !in h[k]
    ensures Lines(Serialize(status, h, body, order)) == HeadLines(status, h, body, order) + Lines(body)
  {
    var ls := HeadLines(status, h, body, order);
    SerializeUnlines(status, h, body, order);
    HeadLinesNoLF(status, h, body, order);
    LinesUnlines(ls);
    var head := Unlines(ls);
    assert head[|head| - 1] == '\n' by {
      UnlinesAppend(ls[..|ls| - 1], [""]);
      assert ls[..|ls| - 1] + [""] == ls;
    }
    LinesAppend(head, body);
  }

  /** Decimal digits hold no LF. */
  lemma NoLFInDecimal(d: string)
    requires AllDigits(d)
    ensures '\n' !in d
  {
    forall k | 0 <= k < |d|
      ensures d[k] != '\n'
    {
      assert IsDigit(d[k]);
    }
  }

  /** `Unlines` of two sequences of lines is the concatenation. */
  lemma {:induction false} UnlinesAppend(a: seq<string>, b: seq<string>)
    ensures Unlines(a + b) == Unlines(a) + Unlines(b)
  {
    if a != [] {
      assert (a + b)[1..] == a[1..] + b;
      UnlinesAppend(a[1..], b);
    } else {
      assert a + b == b;
    }
  }

  /** A fresh response already carries a `Content-Length` header, and
      `to_string` writes another: its header block announces the body
      length on two lines. */
  lemma ContentLengthTwice(status: u16, body: string, order: seq<string>)
    requires IsOrderOf(order, SeededHeaders(body))
    ensures var ls := Lines(Serialize(status, SeededHeaders(body), body, order));
      var cl := FieldLine(ContentLength, Decimal(Utf8Length(body)));
      exists i, j :: 0 <= i < j < |ls| && ls[i] == cl && ls[j] == cl
  {
    var h := SeededHeaders(body);
    SeededNoLF(body);
    SerializedLines(status, h, body, order);
    HeadLinesRepeatLength(status, h, body, order);
    var pre := HeadLines(status, h, body, order);
    var ls := Lines(Serialize(status, h, body, order));
    var cl := FieldLine(ContentLength, Decimal(Utf8Length(body)));
    var i, j :| 0 <= i < j < |pre| && pre[i] == cl && pre[j] == cl;
    assert ls[i] == pre[i] && ls[j] == pre[j];
  }

  /** The seeded header keys and values hold no LF. */
  lemma SeededNoLF(body: string)
    ensures var h := SeededHeaders(body);
      forall k :: k in h ==> '\n' !in k && '\n' !in h[k]
  {
    NoLFInDecimal(Decimal(Utf8Length(body)));
  }

  /** When the map holds the body length under `Content-Length`, the head
      lines carry that header twice: once from the map, once from the extra
      line. */
  lemma HeadLinesRepeatLength(status: u16, h: map<string, string>, body: string, order: seq<string>)
    requires IsOrderOf(order, h)
    requires ContentLength in h && h[ContentLength] == Decimal(Utf8Length(body))
    ensures var ls, cl := HeadLines(status, h, body, order), FieldLine(ContentLength, Decimal(Utf8Length(body)));
      exists i, j :: 0 <= i < j < |ls| && ls[i] == cl && ls[j] == cl
  {
    var fs := Fields(h, order);
    var cl := FieldLine(ContentLength, Decimal(Utf8Length(body)));
    var i :| 0 <= i < |order| && order[i] == ContentLength;
    assert fs[i] == cl;
    RepeatedLine(StatusLine(status), fs, cl, i);
    var ls := HeadLines(status, h, body, order);
    assert ls == [StatusLine(status)] + fs + [cl, ""];
    assert ls[1 + i] == cl && ls[1 + |fs|] == cl;
  }

  lemma RepeatedLine(first: string, fs: seq<string>, cl: string, i: nat)
    requires i < |fs| && fs[i] == cl
    ensures var ls := [first] + fs + [cl, ""];
      0 <= 1 + i < 1 + |fs| < |ls| && ls[1 + i] == cl && ls[1 + |fs|] == cl
  {
  }
}
