/** The request parser, `HttpRequest::from_buffer`: the request line is cut
    into method, path and version, then header lines are read up to the
    first empty line, each split at its first `:` with both halves trimmed.

    `ParseRequest` states what the parser computes, as a function of the
    whole text; `FromBuffer` is the parser itself, the loop over the lines
    that fills a header map, proved to compute `ParseRequest`. The lemmas
    below say what `ParseRequest` means: which error each malformed input
    gets, which tokens become method, path and version, which header value
    wins, and that nothing after the blank line counts. */
module HttpRequests {
  import opened Results
  import opened Text

  /** One constructor per `ok_or` in the parser. */
  datatype ParseError =
    | RequestLineMissing
    | MethodMissing
    | PathMissing
    | VersionMissing
    | HeaderKeyMissing
    | HeaderValueMissing

  /** The error strings the parser returns: the missing piece, then
      ` is missing`. */
  function Message(e: ParseError): (r: string)
    ensures |r| > |IsMissing| && r[|r| - |IsMissing|..] == IsMissing
  {
    var piece :=
      match e
      case RequestLineMissing => "Request line"
      case MethodMissing => "Method"
      case PathMissing => "Path"
      case VersionMissing => "HTTP version"
      case HeaderKeyMissing => "Header key"
      case HeaderValueMissing => "Header value";
    assert (piece + IsMissing)[|piece|..] == IsMissing;
    piece + IsMissing
  }

  const IsMissing := " is missing"

  /** The six errors have six different strings, so the string returned
      tells which piece was missing. */
  lemma MessageInjective(a: ParseError, b: ParseError)
    requires Message(a) == Message(b)
    ensures a == b
  {
    var m := Message(a);
    if |m| == 23 {
      assert m[0] == Message(b)[0] && m[1] == Message(b)[1];
    }
  }

  /** A parsed request; `HttpRequest::new` is this constructor. The path is
      kept as received, leading `/` included. */
  datatype HttpRequest = HttpRequest(
    httpMethod: string,
    path: string,
    httpVersion: string,
    headers: map<string, string>)

  // ---------------------------------------------------------------------
  // Header lines

  /** One header line: `splitn(2, ":")`, then both parts trimmed. The first
      part always exists, so the only error is a missing value. */
  function ParseHeaderLine(line: string): (r: Result<(string, string), ParseError>)
    ensures r.Success? <==> ':' in line
    ensures r.Failure? ==> r.error == HeaderValueMissing
  {
    var parts := SplitOnce(line, ':');
    if |parts| == 0 then Failure(HeaderKeyMissing)
    else if |parts| == 1 then Failure(HeaderValueMissing)
    else Success((Trim(parts[0]), Trim(parts[1])))
  }

  /** A header line splits at its first `:` only, so the value may itself
      hold `:`; key and value are the trimmed halves. */
  lemma HeaderLineSplit(line: string, i: nat)
    requires i < |line| && line[i] == ':' && ':' !in line[..i]
    ensures ParseHeaderLine(line) == Success((Trim(line[..i]), Trim(line[i + 1..])))
  {
    var parts := SplitOnce(line, ':');
    assert line[..|parts[0]|] == parts[0];
    IndexOfUnique(line, ':', i);
  }

  /** The trimmed key and value of a line that has a `:`. */
  function Field(line: string): (string, string)
    requires ':' in line
  {
    var parts := SplitOnce(line, ':');
    (Trim(parts[0]), Trim(parts[1]))
  }

  /** A line with a `:` parses to its field. */
  lemma ParsedField(line: string)
    requires ':' in line
    ensures ParseHeaderLine(line) == Success(Field(line))
  {
  }

  /** Index of the first empty line, or `|ls|` when there is none. */
  function FirstBlank(ls: seq<string>): (k: nat)
    ensures k <= |ls|
    ensures forall j :: 0 <= j < k ==> |ls[j]| > 0
    ensures k < |ls| ==> |ls[k]| == 0
  {
    if ls == [] || |ls[0]| == 0 then 0 else 1 + FirstBlank(ls[1..])
  }

  /** The two properties of `FirstBlank` determine it. */
  lemma FirstBlankUnique(ls: seq<string>, k: nat)
    requires k <= |ls|
    requires forall j :: 0 <= j < k ==> |ls[j]| > 0
    requires k < |ls| ==> |ls[k]| == 0
    ensures FirstBlank(ls) == k
  {
  }

  /** The header block: the lines before the first empty one. */
  function HeaderBlock(ls: seq<string>): seq<string> {
    ls[..FirstBlank(ls)]
  }

  predicate AllFields(block: seq<string>) {
    forall j :: 0 <= j < |block| ==> ':' in block[j]
  }

  /** The key/value pairs of a block whose every line has a `:`, in order. */
  function FieldsOf(block: seq<string>): (pairs: seq<(string, string)>)
    requires AllFields(block)
    ensures |pairs| == |block|
  {
    if block == [] then []
    else
      var init := block[..|block| - 1];
      assert forall j :: 0 <= j < |init| ==> init[j] == block[j];
      FieldsOf(init) + [Field(block[|block| - 1])]
  }

  /** The `j`-th pair is the field of the `j`-th line. */
  lemma {:induction false} FieldsOfAt(block: seq<string>, j: nat)
    requires AllFields(block) && j < |block|
    ensures FieldsOf(block)[j] == Field(block[j])
    decreases |block|
  {
    var init, line := block[..|block| - 1], block[|block| - 1];
    FieldsOfSnoc(init, line, block);
    if j < |init| {
      FieldsOfAt(init, j);
      assert init[j] == block[j];
      assert FieldsOf(block)[j] == FieldsOf(init)[j];
    } else {
      assert FieldsOf(block)[j] == Field(line);
    }
  }

  /** The map that inserting `pairs` one after the other builds. */
  function Assign(pairs: seq<(string, string)>): map<string, string> {
    if pairs == [] then map[]
    else Assign(pairs[..|pairs| - 1])[pairs[|pairs| - 1].0 := pairs[|pairs| - 1].1]
  }

  /** One more field line adds its pair at the end. */
  lemma FieldsOfSnoc(block: seq<string>, line: string, next: seq<string>)
    requires AllFields(block) && ':' in line && next == block + [line]
    ensures AllFields(next)
    ensures FieldsOf(next) == FieldsOf(block) + [Field(line)]
  {
    assert next[..|block|] == block;
    assert forall k :: 0 <= k < |block| ==> next[k] == block[k];
  }

  /** One more pair inserts its key and value into the map. */
  lemma AssignSnoc(pairs: seq<(string, string)>, p: (string, string))
    ensures Assign(pairs + [p]) == Assign(pairs)[p.0 := p.1]
  {
    assert (pairs + [p])[..|pairs|] == pairs;
  }

  /** The header map of a block: all its fields inserted in order, or a
      missing value when some line has no `:`. */
  function ParseHeaders(block: seq<string>): Result<map<string, string>, ParseError> {
    if AllFields(block) then Success(Assign(FieldsOf(block))) else Failure(HeaderValueMissing)
  }

  // ---------------------------------------------------------------------
  // The whole request

  /** What the parser computes from the lines of the request. */
  function ParseLines(ls: seq<string>): Result<HttpRequest, ParseError> {
    if ls == [] then Failure(RequestLineMissing)
    else
      var parts := Words(ls[0]);
      if |parts| == 0 then Failure(MethodMissing)
      else if |parts| == 1 then Failure(PathMissing)
      else if |parts| == 2 then Failure(VersionMissing)
      else
        match ParseHeaders(HeaderBlock(ls[1..]))
        case Failure(e) => Failure(e)
        case Success(headers) => Success(HttpRequest(parts[0], parts[1], parts[2], headers))
  }

  /** What the parser computes from the text of the request. */
  function ParseRequest(buffer: string): Result<HttpRequest, ParseError> {
    ParseLines(Lines(buffer))
  }

  /** `HttpRequest::from_buffer`: the request line gives method, path and
      version, then the header lines follow; the first missing piece ends
      the parse with its error. */
  method FromBuffer(buffer: string) returns (r: Result<HttpRequest, ParseError>)
    ensures r == ParseRequest(buffer)
  {
    var lines := Lines(buffer);
    if |lines| == 0 {
      return Failure(RequestLineMissing);
    }
    var parts := Words(lines[0]);
    if |parts| == 0 {
      return Failure(MethodMissing);
    }
    if |parts| == 1 {
      return Failure(PathMissing);
    }
    if |parts| == 2 {
      return Failure(VersionMissing);
    }
    var httpMethod, path, httpVersion := parts[0], parts[1], parts[2];
    var headers := ReadHeaders(lines);
    if headers.Failure? {
      return Failure(headers.error);
    }
    return Success(HttpRequest(httpMethod, path, httpVersion, headers.value));
  }

  /** The header loop of `from_buffer`: walks the lines after the request
      line, stops at the first empty one, and inserts each header into the
      map. */
  method ReadHeaders(lines: seq<string>) returns (r: Result<map<string, string>, ParseError>)
    requires |lines| >= 1
    ensures r == ParseHeaders(HeaderBlock(lines[1..]))
  {
    var headers: map<string, string> := map[];
    var i := 1;
    while i < |lines|
      invariant 1 <= i <= |lines|
      invariant forall j :: 1 <= j < i ==> |lines[j]| > 0
      invariant AllFields(lines[1..i])
      invariant headers == Assign(FieldsOf(lines[1..i]))
    {
      var line := lines[i];
      if |line| == 0 {
        break;
      }
      var field := ParseHeaderLine(line);
      if field.Failure? {
        BadHeaderLine(lines, i);
        return Failure(field.error);
      }
      ParsedField(line);
      NonBlankStep(lines, i);
      HeaderStep(lines, i, headers);
      headers := headers[field.value.0 := field.value.1];
      i := i + 1;
    }
    EndOfHeaders(lines, i);
    return Success(headers);
  }

  /** A line without `:` inside the header block fails the parse. */
  lemma BadHeaderLine(lines: seq<string>, i: nat)
    requires 1 <= i < |lines|
    requires forall j :: 1 <= j <= i ==> |lines[j]| > 0
    requires ':' !in lines[i]
    ensures ParseHeaders(HeaderBlock(lines[1..])) == Failure(HeaderValueMissing)
  {
    var block := HeaderBlock(lines[1..]);
    assert FirstBlank(lines[1..]) >= i;
    assert block[i - 1] == lines[i];
  }

  /** The loop ends at the first empty line, or at the last line. */
  lemma EndOfHeaders(lines: seq<string>, i: nat)
    requires 1 <= i <= |lines|
    requires forall j :: 1 <= j < i ==> |lines[j]| > 0
    requires i < |lines| ==> |lines[i]| == 0
    ensures HeaderBlock(lines[1..]) == lines[1..i]
  {
    FirstBlankUnique(lines[1..], i - 1);
  }

  lemma SliceSnoc<T>(s: seq<T>, lo: nat, hi: nat)
    requires lo <= hi < |s|
    ensures s[lo..hi + 1] == s[lo..hi] + [s[hi]]
  {
  }

  /** One more line that is not empty. */
  lemma NonBlankStep(lines: seq<string>, i: nat)
    requires 1 <= i < |lines| && |lines[i]| > 0
    requires forall j :: 1 <= j < i ==> |lines[j]| > 0
    ensures forall j :: 1 <= j < i + 1 ==> |lines[j]| > 0
  {
  }

  /** Inserting the field of line `i` extends the map of lines `1..i` to the
      map of lines `1..i+1`. */
  lemma HeaderStep(lines: seq<string>, i: nat, headers: map<string, string>)
    requires 1 <= i < |lines| && ':' in lines[i]
    requires AllFields(lines[1..i]) && headers == Assign(FieldsOf(lines[1..i]))
    ensures AllFields(lines[1..i + 1])
    ensures Assign(FieldsOf(lines[1..i + 1])) == headers[Field(lines[i]).0 := Field(lines[i]).1]
  {
    SliceSnoc(lines, 1, i);
    FieldsOfSnoc(lines[1..i], lines[i], lines[1..i + 1]);
    AssignSnoc(FieldsOf(lines[1..i]), Field(lines[i]));
  }

  // ---------------------------------------------------------------------
  // Properties of the header block

  /** The map built from a sequence of pairs holds exactly their keys, and
      each key holds the value of the last pair that carries it. */
  lemma {:induction false} AssignLastWins(pairs: seq<(string, string)>)
    ensures forall key :: key in Assign(pairs) <==> exists j :: 0 <= j < |pairs| && pairs[j].0 == key
    ensures forall j :: 0 <= j < |pairs| && (forall j' :: j < j' < |pairs| ==> pairs[j'].0 != pairs[j].0) ==>
      Assign(pairs)[pairs[j].0] == pairs[j].1
  {
    AssignKeys(pairs);
    AssignValues(pairs);
  }

  lemma {:induction false} AssignKeys(pairs: seq<(string, string)>)
    ensures forall key :: key in Assign(pairs) <==> exists j :: 0 <= j < |pairs| && pairs[j].0 == key
  {
    if pairs != [] {
      var n := |pairs|;
      var init := pairs[..n - 1];
      AssignKeys(init);
      assert forall j :: 0 <= j < n - 1 ==> init[j] == pairs[j];
      assert Assign(pairs) == Assign(init)[pairs[n - 1].0 := pairs[n - 1].1];
      forall key | key in Assign(pairs)
        ensures exists j :: 0 <= j < n && pairs[j].0 == key
      {
        if key != pairs[n - 1].0 {
          assert key in Assign(init);
          var j :| 0 <= j < n - 1 && init[j].0 == key;
          assert pairs[j].0 == key;
        }
      }
    }
  }

  lemma {:induction false} AssignValues(pairs: seq<(string, string)>)
    ensures forall j :: 0 <= j < |pairs| && (forall j' :: j < j' < |pairs| ==> pairs[j'].0 != pairs[j].0) ==>
      pairs[j].0 in Assign(pairs) && Assign(pairs)[pairs[j].0] == pairs[j].1
  {
    if pairs != [] {
      var n := |pairs|;
      var init := pairs[..n - 1];
      var last := pairs[n - 1];
      AssignValues(init);
      assert Assign(pairs) == Assign(init)[last.0 := last.1];
      forall j | 0 <= j < n - 1 && (forall j' :: j < j' < n ==> pairs[j'].0 != pairs[j].0)
        ensures pairs[j].0 in Assign(pairs) && Assign(pairs)[pairs[j].0] == pairs[j].1
      {
        assert init[j] == pairs[j];
        assert forall j' :: j < j' < n - 1 ==> init[j'] == pairs[j'];
      }
    }
  }

  /** The empty line ends the header block, and nothing after it counts. */
  lemma {:induction false} HeaderBlockIgnoresRest(ls: seq<string>, rest: seq<string>)
    ensures HeaderBlock(ls + [[]] + rest) == HeaderBlock(ls + [[]])
    decreases |ls|
  {
    var a, b := ls + [[]] + rest, ls + [[]];
    var k := FirstBlank(b);
    assert |b[|ls|]| == 0;
    assert forall j :: 0 <= j <= |ls| ==> a[j] == b[j];
    FirstBlankUnique(a, k);
    assert a[..k] == b[..k];
  }

  // ---------------------------------------------------------------------
  // Properties of the request parser

  /** "Request line is missing" is the error of, and only of, the empty
      text. */
  lemma RequestLineMissingIffEmpty(buffer: string)
    ensures ParseRequest(buffer) == Failure(RequestLineMissing) <==> buffer == []
  {
  }

  /** On a non-empty text, a request line with fewer than three tokens is
      refused with the error that names the first missing one. */
  lemma MissingTokenErrors(buffer: string)
    requires buffer != []
    ensures var n := |Words(Lines(buffer)[0])|;
      && (ParseRequest(buffer) == Failure(MethodMissing) <==> n == 0)
      && (ParseRequest(buffer) == Failure(PathMissing) <==> n == 1)
      && (ParseRequest(buffer) == Failure(VersionMissing) <==> n == 2)
  {
  }

  /** A parse succeeds exactly when the text is not empty, its first line
      has at least three tokens, and every header line before the first
      empty line has a `:`. Method, path and version are then the first
      three tokens; any further token is ignored. */
  lemma ParseSucceeds(buffer: string)
    ensures ParseRequest(buffer).Success? <==>
      && buffer != []
      && |Words(Lines(buffer)[0])| >= 3
      && forall j :: 0 <= j < |HeaderBlock(Lines(buffer)[1..])| ==> ':' in HeaderBlock(Lines(buffer)[1..])[j]
    ensures ParseRequest(buffer).Success? ==>
      var parts, req := Words(Lines(buffer)[0]), ParseRequest(buffer).value;
      req.httpMethod == parts[0] && req.path == parts[1] && req.httpVersion == parts[2]
  {
  }

  /** Only the first three tokens of the request line matter. */
  lemma ExtraTokensIgnored(ls: seq<string>, line: string)
    requires ls != [] && |Words(ls[0])| >= 3 && |Words(line)| >= 3
    requires Words(line)[..3] == Words(ls[0])[..3]
    ensures ParseLines([line] + ls[1..]) == ParseLines(ls)
  {
    var a, b := Words(line), Words(ls[0]);
    assert a[0] == a[..3][0] == b[..3][0] == b[0];
    assert a[1] == a[..3][1] == b[..3][1] == b[1];
    assert a[2] == a[..3][2] == b[..3][2] == b[2];
    assert ([line] + ls[1..])[0] == line;
    assert ([line] + ls[1..])[1..] == ls[1..];
  }

  /** A non-empty header line without `:` before the first empty line makes
      the parse fail with "Header value is missing". */
  lemma HeaderValueMissingIff(buffer: string)
    requires buffer != [] && |Words(Lines(buffer)[0])| >= 3
    ensures ParseRequest(buffer) == Failure(HeaderValueMissing) <==>
      exists j :: 0 <= j < |HeaderBlock(Lines(buffer)[1..])| && ':' !in HeaderBlock(Lines(buffer)[1..])[j]
  {
  }

  /** "Header key is missing" is never returned: `splitn` always yields a
      first part. */
  lemma NeverHeaderKeyMissing(buffer: string)
    ensures ParseRequest(buffer) != Failure(HeaderKeyMissing)
  {
  }

  /** On success the headers are those of the lines before the first empty
      line: every key comes from one of them, and each key holds the value
      of the last line that carries it. */
  lemma ParsedHeaders(buffer: string)
    requires ParseRequest(buffer).Success?
    ensures var block, h := HeaderBlock(Lines(buffer)[1..]), ParseRequest(buffer).value.headers;
      && (forall j :: 0 <= j < |block| ==> ':' in block[j])
      && (forall key :: key in h <==> exists j :: 0 <= j < |block| && Field(block[j]).0 == key)
      && (forall j :: 0 <= j < |block| && (forall j' :: j < j' < |block| ==> Field(block[j']).0 != Field(block[j]).0) ==>
            h[Field(block[j]).0] == Field(block[j]).1)
  {
    var block := HeaderBlock(Lines(buffer)[1..]);
    var pairs := FieldsOf(block);
    AssignLastWins(pairs);
    forall j | 0 <= j < |block| ensures pairs[j] == Field(block[j]) {
      FieldsOfAt(block, j);
    }
  }

  /** Header parsing stops at the first empty line, whether written CR LF
      or bare LF: whatever follows it cannot change the result nor cause an
      error. */
  lemma StopsAtBlankLine(head: string, eol: string, blank: string, tail: string)
    requires eol == "\n" || eol == "\r\n"
    requires blank == "\n" || blank == "\r\n"
    ensures ParseRequest(head + eol + blank + tail) == ParseRequest(head + eol + blank)
  {
    var x := head + eol;
    LinesAfterTerminatedLine(x, blank, tail);
    ParseLinesIgnoresRest(Lines(x), Lines(tail));
  }

  /** The lines of `x + blank + tail`, when `x` ends with an LF. */
  lemma LinesAfterTerminatedLine(x: string, blank: string, tail: string)
    requires |x| > 0 && x[|x| - 1] == '\n'
    requires blank == "\n" || blank == "\r\n"
    ensures Lines(x + blank + tail) == Lines(x) + [[]] + Lines(tail)
    ensures Lines(x + blank) == Lines(x) + [[]]
  {
    assert x + blank + tail == x + (blank + tail);
    LinesAppend(x, blank + tail);
    LinesAppend(x, blank);
    BlankLine(blank, tail);
    BlankLine(blank, []);
    assert blank + [] == blank;
  }

  /** A line ending alone is one empty line. */
  lemma BlankLine(blank: string, tail: string)
    requires blank == "\n" || blank == "\r\n"
    ensures Lines(blank + tail) == [[]] + Lines(tail)
  {
    var s := blank + tail;
    if blank == "\n" {
      assert s[0] == '\n' && s[1..] == tail;
      assert DropCR([]) == [];
    } else {
      var u := "\n" + tail;
      assert s[0] == '\r' && s[1..] == u;
      assert LinesFrom([], s) == LinesFrom("\r", u);
      assert u[0] == '\n' && u[1..] == tail;
      assert LinesFrom("\r", u) == [DropCR("\r")] + LinesFrom([], tail);
    }
  }

  /** Whatever lines follow the first empty header line do not count. */
  lemma ParseLinesIgnoresRest(ls: seq<string>, rest: seq<string>)
    requires ls != []
    ensures ParseLines(ls + [[]] + rest) == ParseLines(ls + [[]])
  {
    var a, b := ls + [[]] + rest, ls + [[]];
    assert a[0] == b[0] == ls[0];
    assert a[1..] == ls[1..] + [[]] + rest;
    assert b[1..] == ls[1..] + [[]];
    HeaderBlockIgnoresRest(ls[1..], rest);
  }
}
