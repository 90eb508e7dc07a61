/** The pieces of Rust's `str` and integer formatting that the server code
    relies on: `lines`, `split_whitespace`, `trim`, `splitn(2, ..)`, `len`
    (a UTF-8 byte count) and the decimal `Display` of unsigned integers.
    `trim`, `splitn` and `Display` come with lemmas that characterise them
    uniquely; `lines` and `split_whitespace` with round-trip lemmas on text
    joined by CR LF or by single spaces; `len` with a bound and its value on
    ASCII text. */
module Text {

  /** `char::is_whitespace`: the Unicode White_Space property, which both
      `split_whitespace` and `trim` use. */
  predicate IsSpace(c: char) {
    var n := c as int;
    (9 <= n <= 13) || n == 0x20 || n == 0x85 || n == 0xA0 || n == 0x1680
    || (0x2000 <= n <= 0x200A) || n == 0x2028 || n == 0x2029 || n == 0x202F
    || n == 0x205F || n == 0x3000
  }

  predicate AllSpace(s: string) {
    forall k :: 0 <= k < |s| ==> IsSpace(s[k])
  }

  /** A non-empty run of non-whitespace characters. */
  predicate IsWord(w: string) {
    |w| > 0 && forall k :: 0 <= k < |w| ==> !IsSpace(w[k])
  }

  // ---------------------------------------------------------------------
  // Searching

  /** Index of the first `c` in `s`, or `|s|` when `s` has none. */
  function IndexOf(s: string, c: char): (i: nat)
    ensures i <= |s|
    ensures forall k :: 0 <= k < i ==> s[k] != c
    ensures i < |s| ==> s[i] == c
  {
    if s == [] then 0
    else if s[0] == c then 0
    else 1 + IndexOf(s[1..], c)
  }

  /** The two properties of `IndexOf` determine it. */
  lemma IndexOfUnique(s: string, c: char, k: nat)
    requires k <= |s| && (forall j :: 0 <= j < k ==> s[j] != c) && (k < |s| ==> s[k] == c)
    ensures IndexOf(s, c) == k
  {
  }

  // ---------------------------------------------------------------------
  // str::lines

  /** Removes one carriage return at the end of a line. */
  function DropCR(l: string): (r: string)
    ensures r <= l
  {
    if |l| > 0 && l[|l| - 1] == '\r' then l[..|l| - 1] else l
  }

  /** `str::lines`, read one character at a time; `cur` is the part of the
      current line read so far. An LF ends the line and a CR just before it
      belongs to the line ending; a final LF ends the last line rather than
      starting a new, empty one; and a bare CR at the very end, with no LF
      after it, stays in the last line. */
  function LinesFrom(cur: string, s: string): (ls: seq<string>)
    ensures ls == [] <==> cur == [] && s == []
    decreases |s|
  {
    if s == [] then (if cur == [] then [] else [cur])
    else if s[0] == '\n' then [DropCR(cur)] + LinesFrom([], s[1..])
    else LinesFrom(cur + [s[0]], s[1..])
  }

  /** `str::lines` of the whole text. */
  function Lines(s: string): (ls: seq<string>)
    ensures ls == [] <==> s == []
  {
    LinesFrom([], s)
  }

  lemma {:induction false} LinesFromNoLF(cur: string, s: string)
    requires '\n' !in cur
    ensures forall k :: 0 <= k < |LinesFrom(cur, s)| ==> '\n' !in LinesFrom(cur, s)[k]
    decreases |s|
  {
    if s != [] {
      if s[0] == '\n' {
        assert DropCR(cur) == cur[..|DropCR(cur)|];
        LinesFromNoLF([], s[1..]);
      } else {
        LinesFromNoLF(cur + [s[0]], s[1..]);
      }
    }
  }

  /** No line holds an LF. */
  lemma LinesHaveNoLF(s: string)
    ensures forall k :: 0 <= k < |Lines(s)| ==> '\n' !in Lines(s)[k]
  {
    LinesFromNoLF([], s);
  }

  /** Text without an LF only extends the current line. */
  lemma {:induction false} LinesFromSkip(cur: string, l: string, s: string)
    requires '\n' !in l
    ensures LinesFrom(cur, l + s) == LinesFrom(cur + l, s)
    decreases |l|
  {
    if l == [] {
      assert l + s == s && cur + l == cur;
    } else {
      var u := l + s;
      assert u[0] == l[0] && u[1..] == l[1..] + s;
      LinesFromSkip(cur + [l[0]], l[1..], s);
      assert cur + [l[0]] + l[1..] == cur + l;
    }
  }

  /** Every line followed by CR LF. */
  function Unlines(ls: seq<string>): string {
    if ls == [] then [] else ls[0] + "\r\n" + Unlines(ls[1..])
  }

  /** `Lines` undoes `Unlines` on lines that hold no LF. */
  lemma {:induction false} LinesUnlines(ls: seq<string>)
    requires forall k :: 0 <= k < |ls| ==> '\n' !in ls[k]
    ensures Lines(Unlines(ls)) == ls
  {
    if ls != [] {
      var l, rest := ls[0], Unlines(ls[1..]);
      var e := "\r\n" + rest;
      assert Unlines(ls) == l + e;
      LinesFromSkip([], l, e);
      assert [] + l == l;
      assert e[0] == '\r' && e[1..] == "\n" + rest;
      assert ("\n" + rest)[0] == '\n' && ("\n" + rest)[1..] == rest;
      assert DropCR(l + ['\r']) == l;
      LinesUnlines(ls[1..]);
    }
  }

  /** Text that ends with an LF ends its current line: what follows starts
      afresh. */
  lemma {:induction false} LinesFromAppend(cur: string, x: string, t: string)
    requires |x| > 0 && x[|x| - 1] == '\n'
    ensures LinesFrom(cur, x + t) == LinesFrom(cur, x) + LinesFrom([], t)
    decreases |x|
  {
    var u, y := x + t, x[1..];
    assert u[0] == x[0] && u[1..] == y + t;
    if x[0] == '\n' {
      if y == [] {
        assert y + t == t;
      } else {
        assert y[|y| - 1] == '\n';
        LinesFromAppend([], y, t);
        AppendAssoc([DropCR(cur)], LinesFrom([], y), LinesFrom([], t));
      }
    } else {
      assert y[|y| - 1] == '\n';
      LinesFromAppend(cur + [x[0]], y, t);
    }
  }

  /** `Lines` of text whose first part ends with an LF. */
  lemma LinesAppend(x: string, t: string)
    requires |x| > 0 && x[|x| - 1] == '\n'
    ensures Lines(x + t) == Lines(x) + Lines(t)
  {
    LinesFromAppend([], x, t);
  }

  lemma AppendAssoc<T>(a: seq<T>, b: seq<T>, c: seq<T>)
    ensures a + b + c == a + (b + c)
  {
  }

  // ---------------------------------------------------------------------
  // str::split_whitespace

  /** Length of the run of non-whitespace characters that starts `s`. */
  function WordEnd(s: string): (n: nat)
    ensures n <= |s|
    ensures forall k :: 0 <= k < n ==> !IsSpace(s[k])
    ensures n < |s| ==> IsSpace(s[n])
  {
    if s == [] || IsSpace(s[0]) then 0 else 1 + WordEnd(s[1..])
  }

  /** The two properties of `WordEnd` determine it. */
  lemma WordEndUnique(s: string, n: nat)
    requires n <= |s|
    requires forall k :: 0 <= k < n ==> !IsSpace(s[k])
    requires n < |s| ==> IsSpace(s[n])
    ensures WordEnd(s) == n
  {
  }

  /** `str::split_whitespace`: the maximal runs of non-whitespace
      characters, in order. */
  function Words(s: string): (ws: seq<string>)
    ensures forall k :: 0 <= k < |ws| ==> IsWord(ws[k])
    decreases |s|
  {
    if s == [] then []
    else if IsSpace(s[0]) then Words(s[1..])
    else
      var n := WordEnd(s);
      [s[..n]] + Words(s[n..])
  }

  /** Words joined by single spaces. */
  function Unwords(ws: seq<string>): string {
    if ws == [] then []
    else if |ws| == 1 then ws[0]
    else ws[0] + " " + Unwords(ws[1..])
  }

  /** `Words` undoes `Unwords` on a sequence of words. */
  lemma {:induction false} WordsUnwords(ws: seq<string>)
    requires forall k :: 0 <= k < |ws| ==> IsWord(ws[k])
    ensures Words(Unwords(ws)) == ws
  {
    if ws != [] {
      var w := ws[0];
      var s := Unwords(ws);
      if |ws| == 1 {
        WordEndUnique(s, |w|);
        assert s[..|w|] == w && s[|w|..] == [];
      } else {
        var rest := Unwords(ws[1..]);
        assert s == w + " " + rest;
        assert s[|w|] == ' ';
        WordEndUnique(s, |w|);
        assert s[..|w|] == w;
        assert s[|w|..] == " " + rest;
        assert (" " + rest)[1..] == rest;
        WordsUnwords(ws[1..]);
      }
    }
  }

  // ---------------------------------------------------------------------
  // str::trim

  /** Number of whitespace characters that start `s`. */
  function LeadingSpaces(s: string): (n: nat)
    ensures n <= |s| && AllSpace(s[..n])
    ensures n < |s| ==> !IsSpace(s[n])
  {
    if s != [] && IsSpace(s[0]) then
      var m := LeadingSpaces(s[1..]);
      assert s[..m + 1] == [s[0]] + s[1..][..m];
      m + 1
    else 0
  }

  /** Number of whitespace characters that end `s`. */
  function TrailingSpaces(s: string): (n: nat)
    ensures n <= |s|
    ensures forall k :: |s| - n <= k < |s| ==> IsSpace(s[k])
    ensures n < |s| ==> !IsSpace(s[|s| - n - 1])
  {
    if s != [] && IsSpace(s[|s| - 1]) then
      var p := s[..|s| - 1];
      var m := TrailingSpaces(p);
      assert forall k :: |p| - m <= k < |p| ==> p[k] == s[k];
      m + 1
    else 0
  }

  /** `s` without the whitespace at its start. */
  function TrimStart(s: string): string {
    if s != [] && IsSpace(s[0]) then TrimStart(s[1..]) else s
  }

  /** `s` without the whitespace at its end. */
  function TrimEnd(s: string): string {
    if s != [] && IsSpace(s[|s| - 1]) then TrimEnd(s[..|s| - 1]) else s
  }

  /** `str::trim`: `s` without the whitespace at either end; what is left
      neither starts nor ends with whitespace. */
  function Trim(s: string): (r: string)
    ensures |r| <= |s|
    ensures r == [] || (!IsSpace(r[0]) && !IsSpace(r[|r| - 1]))
  {
    var u := TrimStart(s);
    TrimStartDrops(s);
    TrimEndDrops(u);
    var r := TrimEnd(u);
    assert r != [] ==> r[0] == u[0];
    r
  }

  lemma {:induction false} TrimStartDrops(s: string)
    ensures TrimStart(s) == s[LeadingSpaces(s)..]
  {
    if s != [] && IsSpace(s[0]) {
      TrimStartDrops(s[1..]);
    }
  }

  lemma {:induction false} TrimEndDrops(s: string)
    ensures TrimEnd(s) == s[..|s| - TrailingSpaces(s)]
  {
    if s != [] && IsSpace(s[|s| - 1]) {
      TrimEndDrops(s[..|s| - 1]);
    }
  }

  /** The result of `Trim` is the infix of its input between a
      whitespace-only prefix and a whitespace-only suffix; with `Trim`'s own
      contract, that its result neither starts nor ends with whitespace,
      this determines it. */
  lemma TrimSpec(s: string)
    ensures exists i, j :: 0 <= i <= j <= |s| && Trim(s) == s[i..j] && AllSpace(s[..i]) && AllSpace(s[j..])
  {
    var i := LeadingSpaces(s);
    var u := s[i..];
    var t := TrailingSpaces(u);
    var j := |s| - t;
    TrimStartDrops(s);
    TrimEndDrops(u);
    forall k | 0 <= k < |s[j..]|
      ensures IsSpace(s[j..][k])
    {
      assert s[j..][k] == u[|u| - t + k];
    }
    assert s[i..j] == u[..|u| - t];
  }

  // ---------------------------------------------------------------------
  // str::splitn(2, sep)

  /** `splitn(2, sep)`: the text before the first `sep`, then the text
      after it when there is one. It always yields a first part. */
  function SplitOnce(s: string, sep: char): (parts: seq<string>)
    ensures 1 <= |parts| <= 2
    ensures |parts| == 1 <==> sep !in s
  {
    var i := IndexOf(s, sep);
    if i == |s| then [s] else [s[..i], s[i + 1..]]
  }

  /** Joining the parts with `sep` gives back the text, and the first part
      holds no `sep`. */
  lemma SplitOnceJoin(s: string, sep: char)
    ensures var parts := SplitOnce(s, sep);
      sep !in parts[0] &&
      (|parts| == 1 ==> parts[0] == s) &&
      (|parts| == 2 ==> s == parts[0] + [sep] + parts[1])
  {
    var i := IndexOf(s, sep);
    if i == |s| {
      assert s[..i] == s;
    } else {
      assert s == s[..i] + [sep] + s[i + 1..];
    }
  }

  // ---------------------------------------------------------------------
  // Decimal formatting of unsigned integers

  predicate IsDigit(c: char) {
    '0' <= c <= '9'
  }

  predicate AllDigits(s: string) {
    forall k :: 0 <= k < |s| ==> IsDigit(s[k])
  }

  function DigitChar(d: nat): (c: char)
    requires d < 10
    ensures IsDigit(c)
  {
    ('0' as int + d) as char
  }

  /** `Display` of an unsigned integer: its decimal digits, with no sign
      and no leading zero. */
  function Decimal(n: nat): (s: string)
    ensures |s| >= 1 && AllDigits(s)
    ensures s[0] == '0' ==> n == 0
    decreases n
  {
    if n < 10 then [DigitChar(n)] else Decimal(n / 10) + [DigitChar(n % 10)]
  }

  /** The number that a string of decimal digits denotes. */
  function DigitsValue(s: string): nat
    requires AllDigits(s)
  {
    if s == [] then 0
    else 10 * DigitsValue(s[..|s| - 1]) + ((s[|s| - 1] as int) - ('0' as int))
  }

  /** Reading the digits back gives the number. */
  lemma {:induction false} DecimalValue(n: nat)
    ensures DigitsValue(Decimal(n)) == n
    decreases n
  {
    if n >= 10 {
      var d := Decimal(n / 10);
      assert (d + [DigitChar(n % 10)])[..|d|] == d;
      DecimalValue(n / 10);
    }
  }

  /** Distinct numbers print differently. */
  lemma DecimalInjective(m: nat, n: nat)
    requires Decimal(m) == Decimal(n)
    ensures m == n
  {
    DecimalValue(m);
    DecimalValue(n);
  }

  // ---------------------------------------------------------------------
  // str::len

  /** Number of bytes UTF-8 uses for `c`. */
  function Utf8Width(c: char): nat {
    var n := c as int;
    if n < 0x80 then 1 else if n < 0x800 then 2 else if n < 0x1_0000 then 3 else 4
  }

  /** `str::len`: the length in bytes of the UTF-8 encoding of `s`. */
  function Utf8Length(s: string): (n: nat)
    ensures |s| <= n <= 4 * |s|
  {
    if s == [] then 0 else Utf8Width(s[0]) + Utf8Length(s[1..])
  }

  predicate IsAscii(s: string) {
    forall k :: 0 <= k < |s| ==> (s[k] as int) < 0x80
  }

  /** On ASCII text the byte length is the character count. */
  lemma {:induction false} AsciiLength(s: string)
    requires IsAscii(s)
    ensures Utf8Length(s) == |s|
  {
    if s != [] {
      AsciiLength(s[1..]);
    }
  }
}
