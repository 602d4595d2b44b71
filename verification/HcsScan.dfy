/**
 What the HCS include scanner has to recognise, stated over the whole text of a file:
 the lexeme that starts at or after a position, the stream of lexemes of a text, and the
 row and column of a position.  `HcsLexer` refines these functions with the scanner's loops.
 */
module HcsScan {
  import opened Runs

  /** The two character classes the scanner takes from its run-time library. */
  datatype CharTests = CharTests(isSpace: char -> bool, isAlpha: char -> bool)

  /** Facts about those classes that hold for Unicode text. */
  ghost predicate Sensible(t: CharTests) {
    && t.isSpace(' ') && t.isSpace('\n') && !t.isSpace('#') && !t.isSpace('"') && !t.isSpace('/')
    && !t.isAlpha('"') && (forall c | t.isSpace(c) :: !t.isAlpha(c))
    && (forall c | 'a' <= c <= 'z' :: t.isAlpha(c))
  }

  type Charset = t: CharTests | Sensible(t)
    witness CharTests(c => c == ' ' || c == '\n', c => 'a' <= c <= 'z')

  datatype TokenType = Unknown | EndOfFile | Comment | Include | String

  datatype TokenView = TokenView(kind: TokenType, value: string, row: nat, col: nat)

  /** The end-of-file token carries the position of a freshly cleaned token. */
  const END_TOKEN := TokenView(EndOfFile, "", 1, 1)

  /** A token together with the part of the text it was read from, `s[start..next]`. */
  datatype Lexeme = Lexeme(token: TokenView, start: nat, next: nat)

  // ---- Positions ----

  /** Number of line breaks in `s[..i]`. */
  function Newlines(s: string, i: nat): nat
    requires i <= |s|
  {
    if i == 0 then 0 else Newlines(s, i - 1) + (if s[i - 1] == '\n' then 1 else 0)
  }

  /** Where the line containing position `i` starts. */
  function LineStart(s: string, i: nat): (r: nat)
    requires i <= |s|
    ensures r <= i
  {
    if i == 0 || s[i - 1] == '\n' then i else LineStart(s, i - 1)
  }

  lemma {:induction false} LineStartIsLast(s: string, i: nat)
    requires i <= |s|
    ensures LineStart(s, i) == 0 || s[LineStart(s, i) - 1] == '\n'
    ensures forall k | LineStart(s, i) <= k < i :: s[k] != '\n'
  {
    if i > 0 && s[i - 1] != '\n' {
      LineStartIsLast(s, i - 1);
    }
  }

  function Row(s: string, i: nat): nat
    requires i <= |s|
  {
    1 + Newlines(s, i)
  }

  function Col(s: string, i: nat): nat
    requires i <= |s|
  {
    1 + i - LineStart(s, i)
  }

  /** Positions start in row and column one; a line break starts the next row, any other character moves
      on one column. */
  lemma PositionSteps(s: string, i: nat)
    requires i <= |s|
    ensures i == 0 ==> Row(s, i) == Col(s, i) == 1
    ensures i > 0 && s[i - 1] == '\n' ==> Row(s, i) == Row(s, i - 1) + 1 && Col(s, i) == 1
    ensures i > 0 && s[i - 1] != '\n' ==> Row(s, i) == Row(s, i - 1) && Col(s, i) == Col(s, i - 1) + 1
  {
  }

  // ---- Comment ends ----

  predicate NotQuote(c: char) { c != '"' }

  predicate NotNewline(c: char) { c != '\n' }

  predicate ClosesAt(s: string, k: int) {
    0 <= k && k + 1 < |s| && s[k] == '*' && s[k + 1] == '/'
  }

  /** Just past the first comment terminator at or after `i`, or the end of the text. */
  function BlockEnd(s: string, i: nat): (r: nat)
    requires i <= |s|
    ensures i <= r <= |s|
    decreases |s| - i
  {
    if i == |s| then i else if ClosesAt(s, i) then i + 2 else BlockEnd(s, i + 1)
  }

  ghost predicate IsBlockEnd(s: string, i: nat, e: nat) {
    && i <= e <= |s|
    && (forall k | i <= k < e - 2 :: !ClosesAt(s, k))
    && ((i + 2 <= e && ClosesAt(s, e - 2)) || (e == |s| && forall k | i <= k < e :: !ClosesAt(s, k)))
  }

  lemma {:induction false} BlockEndIsFirst(s: string, i: nat, e: nat)
    requires i <= |s|
    ensures IsBlockEnd(s, i, e) <==> e == BlockEnd(s, i)
    decreases |s| - i
  {
    if i < |s| && !ClosesAt(s, i) {
      BlockEndIsFirst(s, i + 1, e);
      if IsBlockEnd(s, i, e) {
        assert i < e;
        assert e - 2 != i || !ClosesAt(s, e - 2);
      }
      if IsBlockEnd(s, i + 1, e) {
        assert IsBlockEnd(s, i, e);
      }
    } else if i < |s| && IsBlockEnd(s, i, e) {
      assert e == i + 2;
    }
  }

  // ---- Lexemes ----

  predicate EndsWithClose(v: string) {
    2 <= |v| && v[|v| - 2] == '*' && v[|v| - 1] == '/'
  }

  datatype Shape = Shape(kind: TokenType, value: string, next: nat)

  function DirectiveShape(cs: Charset, s: string, j: nat): (r: Shape)
    requires j < |s|
    ensures j < r.next <= |s| && r.kind != EndOfFile
  {
    var e := RunEnd(cs.isAlpha, s, j + 1);
    Shape(if s[j..e] == "#include" then Include else Unknown, s[j..e], e)
  }

  function StringShape(s: string, j: nat): (r: Shape)
    requires j < |s|
    ensures j < r.next <= |s| && r.kind != EndOfFile
  {
    var q := RunEnd(NotQuote, s, j + 1);
    if q < |s| then Shape(String, s[j + 1..q], q + 1) else Shape(Unknown, s[j + 1..q], q)
  }

  function LineCommentShape(s: string, j: nat): (r: Shape)
    requires j + 1 < |s|
    ensures j < r.next <= |s| && r.kind != EndOfFile
  {
    var e := RunEnd(NotNewline, s, j + 2);
    Shape(Comment, s[j..e], if e < |s| then e + 1 else e)
  }

  function BlockCommentShape(s: string, j: nat): (r: Shape)
    requires j + 1 < |s|
    ensures j < r.next <= |s| && r.kind != EndOfFile
  {
    var e := BlockEnd(s, j + 2);
    Shape(if EndsWithClose(s[j..e]) then Comment else Unknown, s[j..e], e)
  }

  /** The lexeme whose first character is the non-space `s[j]`. */
  function ShapeAt(cs: Charset, s: string, j: nat): (r: Shape)
    requires j < |s|
    ensures j < r.next <= |s| && r.kind != EndOfFile
  {
    if s[j] == '#' then DirectiveShape(cs, s, j)
    else if s[j] == '"' then StringShape(s, j)
    else if s[j] == '/' && j + 1 < |s| && s[j + 1] == '/' then LineCommentShape(s, j)
    else if s[j] == '/' && j + 1 < |s| && s[j + 1] == '*' then BlockCommentShape(s, j)
    else Shape(Unknown, [s[j]], j + 1)
  }

  /** The next lexeme at or after `i`. At the end of the text its position is the reset one. */
  function Scan(cs: Charset, s: string, i: nat): (r: Lexeme)
    requires i <= |s|
    ensures r.token.kind == EndOfFile ==> r.next == |s| && r.token == END_TOKEN
    ensures r.token.kind != EndOfFile ==> i <= r.start < r.next <= |s|
  {
    var j := RunEnd(cs.isSpace, s, i);
    if j == |s| then
      Lexeme(END_TOKEN, j, j)
    else
      var t := ShapeAt(cs, s, j);
      Lexeme(TokenView(t.kind, t.value, Row(s, j), Col(s, j)), j, t.next)
  }

  /** All lexemes from position `i` on, end of file excluded. */
  function Stream(cs: Charset, s: string, i: nat): seq<Lexeme>
    requires i <= |s|
    decreases |s| - i
  {
    var x := Scan(cs, s, i);
    if x.token.kind == EndOfFile then [] else [x] + Stream(cs, s, x.next)
  }

  /** The tokens from position `i` on, end of file excluded. */
  function Tokens(cs: Charset, s: string, i: nat): (r: seq<TokenView>)
    requires i <= |s|
    ensures r != [] ==> r[0].kind != EndOfFile
    decreases |s| - i
  {
    var x := Scan(cs, s, i);
    if x.token.kind == EndOfFile then [] else [x.token] + Tokens(cs, s, x.next)
  }

  lemma {:induction false} TokensOfStream(cs: Charset, s: string, i: nat)
    requires i <= |s|
    ensures |Tokens(cs, s, i)| == |Stream(cs, s, i)|
    ensures forall k | 0 <= k < |Tokens(cs, s, i)| :: Tokens(cs, s, i)[k] == Stream(cs, s, i)[k].token
    decreases |s| - i
  {
    var x := Scan(cs, s, i);
    if x.token.kind != EndOfFile {
      TokensOfStream(cs, s, x.next);
    }
  }

  // ---- What a scan means ----

  predicate AllSpace(cs: Charset, s: string) {
    forall k | 0 <= k < |s| :: cs.isSpace(s[k])
  }

  /** The lexemes `xs` and the white space between them cover `s[i..]` without gap or overlap. */
  predicate Tiles(cs: Charset, s: string, i: nat, xs: seq<Lexeme>)
    decreases |xs|
  {
    i <= |s| &&
    if xs == [] then
      AllSpace(cs, s[i..])
    else
      && i <= xs[0].start < xs[0].next <= |s|
      && AllSpace(cs, s[i..xs[0].start])
      && !cs.isSpace(s[xs[0].start])
      && Tiles(cs, s, xs[0].next, xs[1..])
  }

  /** `span` is the spelling of a token of kind `kind` with value `v`; `ended` tells whether it reaches the
      end of the text. The value determines the span unless an unclosed string or a comment without a line
      break ends the text. */
  predicate Spells(kind: TokenType, v: string, span: string, ended: bool) {
    match kind
    case Include => v == "#include" == span
    case String => span == "\"" + v + "\"" && '"' !in v
    case Comment =>
      || (2 <= |v| && v[..2] == "//" && '\n' !in v && (span == v + "\n" || (ended && span == v)))
      || (2 <= |v| && v[..2] == "/*" && EndsWithClose(v) && span == v)
    case Unknown =>
      || (span == v && v != [] && v[0] != '"')
      || (ended && span == "\"" + v && '"' !in v)
    case EndOfFile => false
  }

  lemma SpellingIsUnique(kind: TokenType, v: string, a: string, b: string)
    requires Spells(kind, v, a, false) && Spells(kind, v, b, false)
    ensures a == b
  {
  }

  lemma StringSpells(s: string, j: nat)
    requires j < |s| && s[j] == '"'
    ensures var t := StringShape(s, j); Spells(t.kind, t.value, s[j..t.next], t.next == |s|)
  {
    var q := RunEnd(NotQuote, s, j + 1);
    var v := s[j + 1..q];
    RunEndIsMaximal(NotQuote, s, j + 1);
    assert s[j..q] == "\"" + v;
    assert forall k | 0 <= k < |v| :: NotQuote(v[k]);
    if q < |s| {
      assert s[j..q + 1] == s[j..q] + "\"";
    }
  }

  lemma LineCommentSpells(s: string, j: nat)
    requires j + 1 < |s| && s[j] == '/' && s[j + 1] == '/'
    ensures var t := LineCommentShape(s, j); Spells(t.kind, t.value, s[j..t.next], t.next == |s|)
  {
    var e := RunEnd(NotNewline, s, j + 2);
    var v := s[j..e];
    RunEndIsMaximal(NotNewline, s, j + 2);
    assert v[..2] == "//";
    assert forall k | 0 <= k < |v| :: v[k] == s[j + k] && NotNewline(v[k]);
    if e < |s| {
      assert s[j..e + 1] == v + "\n";
    }
  }

  lemma BlockCommentSpells(s: string, j: nat)
    requires j + 1 < |s| && s[j] == '/' && s[j + 1] == '*'
    ensures var t := BlockCommentShape(s, j); Spells(t.kind, t.value, s[j..t.next], t.next == |s|)
  {
  }

  lemma ShapeSpells(cs: Charset, s: string, j: nat)
    requires j < |s|
    ensures var t := ShapeAt(cs, s, j);
      && Spells(t.kind, t.value, s[j..t.next], t.next == |s|)
      && (t.kind == Include && t.next < |s| ==> !cs.isAlpha(s[t.next]))
  {
    if s[j] == '#' {
      RunEndIsMaximal(cs.isAlpha, s, j + 1);
      assert s[j..RunEnd(cs.isAlpha, s, j + 1)] != [];
    } else if s[j] == '"' {
      StringSpells(s, j);
    } else if s[j] == '/' && j + 1 < |s| && s[j + 1] == '/' {
      LineCommentSpells(s, j);
    } else if s[j] == '/' && j + 1 < |s| && s[j + 1] == '*' {
      BlockCommentSpells(s, j);
    }
  }

  // ---- Which lexeme a text begins with ----

  predicate StartsWith(s: string, j: nat, t: string) {
    j + |t| <= |s| && s[j..j + |t|] == t
  }

  lemma StartsWithAt(s: string, j: nat, t: string, k: nat)
    requires StartsWith(s, j, t) && k < |t|
    ensures s[j + k] == t[k]
  {
    assert s[j..j + |t|][k] == s[j + k];
  }

  /** An include token is exactly the word `#include` that no further letter follows. */
  lemma IncludeIff(cs: Charset, s: string, j: nat)
    requires j < |s|
    ensures ShapeAt(cs, s, j).kind == Include <==>
      StartsWith(s, j, "#include") && (j + 8 == |s| || !cs.isAlpha(s[j + 8]))
  {
    var word := "#include";
    if s[j] == '#' {
      RunEndIsMaximal(cs.isAlpha, s, j + 1);
    }
    if StartsWith(s, j, word) {
      forall k | 0 <= k < 8 ensures s[j + k] == word[k] {
        StartsWithAt(s, j, word, k);
      }
      assert s[j] == '#';
      assert forall k | j + 1 <= k < j + 8 :: 'a' <= word[k - j] <= 'z' && cs.isAlpha(s[k]);
      if j + 8 == |s| || !cs.isAlpha(s[j + 8]) {
        RunEndIs(cs.isAlpha, s, j + 1, j + 8);
      }
    }
  }

  /** A string token is exactly a quote with another one after it. */
  lemma StringIff(cs: Charset, s: string, j: nat)
    requires j < |s|
    ensures ShapeAt(cs, s, j).kind == String <==> s[j] == '"' && '"' in s[j + 1..]
  {
    if s[j] == '"' {
      var q := RunEnd(NotQuote, s, j + 1);
      RunEndIsMaximal(NotQuote, s, j + 1);
      if q < |s| {
        assert s[j + 1..][q - j - 1] == '"';
      } else {
        assert forall k | j + 1 <= k < |s| :: NotQuote(s[k]);
      }
    }
  }

  /** A comment is exactly a line comment, or a block comment that is closed or ends the text in an opener
      overlapping a closer. */
  lemma CommentIff(cs: Charset, s: string, j: nat)
    requires j < |s|
    ensures ShapeAt(cs, s, j).kind == Comment <==>
      || StartsWith(s, j, "//")
      || (StartsWith(s, j, "/*") && ((exists k :: j + 2 <= k && ClosesAt(s, k)) || s[j..] == "/*/"))
  {
    if j + 1 < |s| {
      assert s[j..j + 2] == [s[j], s[j + 1]];
      if s[j] == '/' && s[j + 1] == '*' {
        BlockCommentKind(s, j);
      }
    }
  }

  /** An unknown directive is as long as its letters go; an unclosed string or comment takes the rest of the
      text; every other unknown token is one character. */
  lemma UnknownExtent(cs: Charset, s: string, j: nat)
    requires j < |s| && ShapeAt(cs, s, j).kind == Unknown
    ensures var next := ShapeAt(cs, s, j).next;
      if s[j] == '#' then
        (forall k | j + 1 <= k < next :: cs.isAlpha(s[k])) && (next == |s| || !cs.isAlpha(s[next]))
      else if s[j] == '"' || StartsWith(s, j, "/*") then next == |s|
      else next == j + 1
  {
    if s[j] == '#' {
      RunEndIsMaximal(cs.isAlpha, s, j + 1);
    } else if StartsWith(s, j, "/*") {
      StartsWithAt(s, j, "/*", 0);
      StartsWithAt(s, j, "/*", 1);
      BlockCommentKind(s, j);
      BlockEndIsFirst(s, j + 2, BlockEnd(s, j + 2));
    } else if j + 1 < |s| {
      assert s[j..j + 2] == [s[j], s[j + 1]];
    }
  }

  /** Every text is partitioned into white space and the lexemes of its stream, each spelling its span. */
  lemma {:induction false} StreamPartitions(cs: Charset, s: string, i: nat)
    requires i <= |s|
    ensures Tiles(cs, s, i, Stream(cs, s, i))
    ensures forall x | x in Stream(cs, s, i) ::
      && x.start < x.next <= |s|
      && Spells(x.token.kind, x.token.value, s[x.start..x.next], x.next == |s|)
      && x.token.row == Row(s, x.start) && x.token.col == Col(s, x.start)
    decreases |s| - i
  {
    hide Spells;
    hide Row;
    hide Col;
    var x := Scan(cs, s, i);
    RunEndIsMaximal(cs.isSpace, s, i);
    if x.token.kind != EndOfFile {
      ShapeSpells(cs, s, x.start);
      StreamPartitions(cs, s, x.next);
      assert Stream(cs, s, i)[1..] == Stream(cs, s, x.next);
    }
  }

  /** Rows and columns of a lexeme determine where in the text it starts. */
  lemma {:induction false} PositionIsUnique(s: string, i: nat, j: nat)
    requires i < j <= |s|
    ensures Row(s, i) < Row(s, j) || (Row(s, i) == Row(s, j) && Col(s, i) < Col(s, j))
    decreases j
  {
    if i < j - 1 {
      PositionIsUnique(s, i, j - 1);
    }
  }

  /** An unterminated block comment is accepted as a comment in one case only: the text ends in the
      three characters of an opener overlapping a closer. */
  lemma {:induction false} BlockCommentKind(s: string, j: nat)
    requires j + 1 < |s| && s[j] == '/' && s[j + 1] == '*'
    ensures BlockCommentShape(s, j).kind == Comment <==>
      ((exists k :: j + 2 <= k && ClosesAt(s, k)) || s[j..] == "/*/")
  {
    var e := BlockEnd(s, j + 2);
    var v := s[j..e];
    BlockEndIsFirst(s, j + 2, e);
    assert v[|v| - 1] == s[e - 1] && v[|v| - 2] == s[e - 2];
    if s[j..] == "/*/" {
      assert |s| == j + 3 && s[j + 2] == s[j..][2];
      assert e == j + 3;
    } else if EndsWithClose(v) {
      assert ClosesAt(s, e - 2);
    }
  }
}
