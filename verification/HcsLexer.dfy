/** The scanner object: character access, one token of lookahead in a reused token object, and the
    character loops, each proved to compute the lexeme that `HcsScan` specifies. */
module HcsLexer {
  import opened HcsScan
  import opened Runs

  datatype Char = Char(isEof: bool, ch: char)

  class Token {
    var kind: TokenType
    var value: string
    var row: nat
    var col: nat

    constructor (kind: TokenType, value: string)
      ensures View() == TokenView(kind, value, 1, 1)
    {
      this.kind := kind;
      this.value := value;
      row := 1;
      col := 1;
    }

    function View(): TokenView
      reads this
    {
      TokenView(kind, value, row, col)
    }

    method Clean()
      modifies this
      ensures View() == TokenView(Unknown, "", 1, 1)
    {
      kind := Unknown;
      value := "";
      row := 1;
      col := 1;
    }
  }

  /** What the lookahead protocol depends on. */
  datatype LexState = LexState(readIndex: nat, havePeek: bool, cur: TokenView)

  ghost function Peek(cs: Charset, s: string, st: LexState): LexState
    requires st.readIndex <= |s|
  {
    if st.havePeek then st
    else
      var x := Scan(cs, s, st.readIndex);
      LexState(x.next, true, x.token)
  }

  ghost function Get(cs: Charset, s: string, st: LexState): LexState
    requires st.readIndex <= |s|
  {
    Peek(cs, s, st).(havePeek := false)
  }

  ghost predicate Proper(s: string, st: LexState) {
    && st.readIndex <= |s|
    && (st.havePeek && st.cur.kind == EndOfFile ==> st.readIndex == |s| && st.cur == END_TOKEN)
  }

  /** The tokens still to be handed out, end of file excluded. */
  ghost function Pending(cs: Charset, s: string, st: LexState): seq<TokenView>
    requires Proper(s, st)
  {
    if !st.havePeek then Tokens(cs, s, st.readIndex)
    else if st.cur.kind == EndOfFile then []
    else [st.cur] + Tokens(cs, s, st.readIndex)
  }

  /** Looking past the end of the text yields the end-of-file token. */
  function Nth(ts: seq<TokenView>, k: nat): TokenView {
    if k < |ts| then ts[k] else END_TOKEN
  }

  lemma PeekShowsNext(cs: Charset, s: string, st: LexState)
    requires Proper(s, st)
    ensures var st' := Peek(cs, s, st);
      Proper(s, st') && Pending(cs, s, st') == Pending(cs, s, st) && st'.cur == Nth(Pending(cs, s, st), 0)
      && (st'.cur.kind == EndOfFile <==> Pending(cs, s, st) == [])
  {
  }

  lemma GetTakesNext(cs: Charset, s: string, st: LexState)
    requires Proper(s, st)
    ensures var st', q := Get(cs, s, st), Pending(cs, s, st);
      Proper(s, st') && Pending(cs, s, st') == (if q == [] then [] else q[1..]) && st'.cur == Nth(q, 0)
  {
  }

  datatype Access = PeekToken | GetToken

  /** Tokens handed out by the `GetToken` accesses of a sequence of accesses. */
  ghost function Taken(cs: Charset, s: string, st: LexState, ops: seq<Access>): seq<TokenView>
    requires st.readIndex <= |s|
    decreases |ops|
  {
    if ops == [] then []
    else if ops[0] == PeekToken then Taken(cs, s, Peek(cs, s, st), ops[1..])
    else [Get(cs, s, st).cur] + Taken(cs, s, Get(cs, s, st), ops[1..])
  }

  function Gets(ops: seq<Access>): nat {
    if ops == [] then 0 else (if ops[0] == GetToken then 1 else 0) + Gets(ops[1..])
  }

  /** Lookahead is invisible: however many peeks are interleaved, the tokens taken are the pending
      tokens of the text in order, the end-of-file token repeating after them. */
  lemma {:induction false} PeeksAreInvisible(cs: Charset, s: string, st: LexState, ops: seq<Access>)
    requires Proper(s, st)
    ensures |Taken(cs, s, st, ops)| == Gets(ops)
    ensures forall k | 0 <= k < Gets(ops) :: Taken(cs, s, st, ops)[k] == Nth(Pending(cs, s, st), k)
    decreases |ops|
  {
    if ops == [] {
    } else if ops[0] == PeekToken {
      PeekShowsNext(cs, s, st);
      PeeksAreInvisible(cs, s, Peek(cs, s, st), ops[1..]);
    } else {
      GetTakesNext(cs, s, st);
      PeeksAreInvisible(cs, s, Get(cs, s, st), ops[1..]);
    }
  }

  class Lexer {
    const cs: Charset
    const data: string
    var readIndex: nat
    var curRow: nat
    var curCol: nat
    var havePeek: bool
    const curToken: Token

    constructor (cs: Charset, text: string)
      ensures Ready() && fresh(curToken)
      ensures this.cs == cs && data == text
      ensures State() == LexState(0, false, TokenView(Unknown, "", 1, 1))
      ensures Rest() == Tokens(cs, text, 0)
    {
      this.cs := cs;
      data := text;
      havePeek := false;
      readIndex := 0;
      curToken := new Token(Unknown, "");
      curRow := 1;
      curCol := 1;
    }

    ghost predicate Valid()
      reads this
    {
      readIndex <= |data| && curRow == Row(data, readIndex) && curCol == Col(data, readIndex)
    }

    ghost function State(): LexState
      reads this, curToken
    {
      LexState(readIndex, havePeek, curToken.View())
    }

    /** Fit to hand out tokens. */
    ghost predicate Ready()
      reads this, curToken
    {
      Valid() && Proper(data, State())
    }

    ghost function Rest(): seq<TokenView>
      requires Ready()
      reads this, curToken
    {
      Pending(cs, data, State())
    }

    function PeekChar(peekCount: nat := 0): (r: Char)
      reads this
      ensures r.isEof <==> readIndex + peekCount >= |data|
      ensures r.isEof ==> r.ch == '0'
      ensures !r.isEof ==> r.ch == data[readIndex + peekCount]
    {
      var index := readIndex + peekCount;
      if index >= |data| then Char(true, '0') else Char(false, data[index])
    }

    method GetChar() returns (r: Char)
      requires Valid()
      modifies `readIndex, `curRow, `curCol
      ensures Valid() && r == old(PeekChar())
      ensures readIndex == if r.isEof then old(readIndex) else old(readIndex) + 1
    {
      if readIndex >= |data| {
        return Char(true, '0');
      }
      var index := readIndex;
      readIndex := readIndex + 1;
      if data[index] == '\n' {
        curRow := curRow + 1;
        curCol := 1;
      } else {
        curCol := curCol + 1;
      }
      return Char(false, data[index]);
    }

    method PeekToken() returns (t: Token)
      requires Ready()
      modifies this, curToken
      ensures Ready() && t == curToken && State() == Peek(cs, data, old(State()))
      ensures Rest() == old(Rest()) && t.View() == Nth(Rest(), 0)
      ensures t.kind == EndOfFile <==> Rest() == []
    {
      PeekShowsNext(cs, data, State());
      if !havePeek {
        ReadToken();
        havePeek := true;
      }
      return curToken;
    }

    method GetToken() returns (t: Token)
      requires Ready()
      modifies this, curToken
      ensures Ready() && t == curToken && State() == Get(cs, data, old(State()))
      ensures Rest() == (if old(Rest()) == [] then [] else old(Rest())[1..])
      ensures t.View() == Nth(old(Rest()), 0)
    {
      GetTakesNext(cs, data, State());
      if !havePeek {
        ReadToken();
      }
      havePeek := false;
      return curToken;
    }

    method ReadToken()
      requires Valid()
      modifies `readIndex, `curRow, `curCol, curToken
      ensures Valid()
      ensures readIndex == Scan(cs, data, old(readIndex)).next
      ensures curToken.View() == Scan(cs, data, old(readIndex)).token
    {
      curToken.Clean();
      while !PeekChar().isEof
        invariant Valid() && old(readIndex) <= readIndex
        invariant curToken.View() == TokenView(Unknown, "", 1, 1)
        invariant RunEnd(cs.isSpace, data, readIndex) == RunEnd(cs.isSpace, data, old(readIndex))
        decreases |data| - readIndex
      {
        var newChar := PeekChar();
        if cs.isSpace(newChar.ch) {
          var _ := GetChar();
          continue;
        }
        curToken.row := curRow;
        curToken.col := curCol;
        if newChar.ch == '#' {
          ReadInclude();
          return;
        }
        if newChar.ch == '"' {
          ReadString();
          return;
        }
        if newChar.ch == '/' {
          ReadComment();
          return;
        }
        curToken.value := [newChar.ch];
        curToken.kind := Unknown;
        var _ := GetChar();
        return;
      }
      curToken.kind := EndOfFile;
    }

    method ReadInclude()
      requires Valid() && readIndex < |data| && data[readIndex] == '#'
      modifies `readIndex, `curRow, `curCol, curToken`kind, curToken`value
      ensures Valid()
      ensures Shape(curToken.kind, curToken.value, readIndex) == DirectiveShape(cs, data, old(readIndex))
    {
      hide RunEnd;
      hide Row;
      hide Col;
      ghost var j, e := readIndex, RunEnd(cs.isAlpha, data, readIndex + 1);
      RunEndIsMaximal(cs.isAlpha, data, j + 1);
      var c := GetChar();
      var tokenValue := [c.ch];
      assert data[j..readIndex] == [data[j]];
      while !PeekChar().isEof
        invariant Valid() && j < readIndex <= e && tokenValue == data[j..readIndex]
        decreases |data| - readIndex
      {
        var newChar := PeekChar();
        if cs.isAlpha(newChar.ch) {
          tokenValue := tokenValue + [newChar.ch];
          var _ := GetChar();
          continue;
        }
        break;
      }
      assert readIndex == e;
      if tokenValue == "#include" {
        curToken.kind := Include;
      } else {
        curToken.kind := Unknown;
      }
      curToken.value := tokenValue;
    }

    method ReadString()
      requires Valid() && readIndex < |data| && data[readIndex] == '"'
      modifies `readIndex, `curRow, `curCol, curToken`kind, curToken`value
      ensures Valid()
      ensures Shape(curToken.kind, curToken.value, readIndex) == StringShape(data, old(readIndex))
    {
      hide RunEnd;
      hide Row;
      hide Col;
      ghost var j, q := readIndex, RunEnd(NotQuote, data, readIndex + 1);
      RunEndIsMaximal(NotQuote, data, j + 1);
      var tokenValue := [];
      var _ := GetChar();
      while !PeekChar().isEof && PeekChar().ch != '"'
        invariant Valid() && j < readIndex <= q && tokenValue == data[j + 1..readIndex]
        decreases |data| - readIndex
      {
        var c := GetChar();
        tokenValue := tokenValue + [c.ch];
      }
      assert readIndex == q;
      if PeekChar().ch == '"' {
        curToken.kind := String;
        var _ := GetChar();
      } else {
        curToken.kind := Unknown;
      }
      curToken.value := tokenValue;
    }

    method ReadComment()
      requires Valid() && readIndex < |data| && data[readIndex] == '/'
      modifies `readIndex, `curRow, `curCol, curToken`kind, curToken`value
      ensures Valid()
      ensures Shape(curToken.kind, curToken.value, readIndex) == ShapeAt(cs, data, old(readIndex))
    {
      var c := GetChar();
      var tokenValue := [c.ch];
      var newChar := PeekChar();
      if !newChar.isEof {
        if newChar.ch == '/' {
          ReadLineComment(tokenValue);
          return;
        } else if newChar.ch == '*' {
          ReadBlockComment(tokenValue);
          return;
        }
      }
      curToken.kind := Unknown;
      curToken.value := tokenValue;
    }

    method ReadLineComment(prefix: string)
      requires Valid() && 0 < readIndex < |data| && data[readIndex - 1] == '/' && data[readIndex] == '/'
      requires prefix == [data[readIndex - 1]]
      modifies `readIndex, `curRow, `curCol, curToken`kind, curToken`value
      ensures Valid()
      ensures Shape(curToken.kind, curToken.value, readIndex) == LineCommentShape(data, old(readIndex) - 1)
    {
      hide RunEnd;
      hide Row;
      hide Col;
      ghost var j, e := readIndex - 1, RunEnd(NotNewline, data, readIndex + 1);
      RunEndIsMaximal(NotNewline, data, j + 2);
      var c := GetChar();
      var tokenValue := prefix + [c.ch];
      while !PeekChar().isEof
        invariant Valid() && j + 2 <= readIndex <= e && tokenValue == data[j..readIndex]
        decreases |data| - readIndex
      {
        var newChar := GetChar();
        if newChar.ch == '\n' {
          break;
        }
        tokenValue := tokenValue + [newChar.ch];
      }
      assert tokenValue == data[j..e];
      curToken.kind := Comment;
      curToken.value := tokenValue;
    }

    method ReadBlockComment(prefix: string)
      requires Valid() && 0 < readIndex < |data| && data[readIndex - 1] == '/' && data[readIndex] == '*'
      requires prefix == [data[readIndex - 1]]
      modifies `readIndex, `curRow, `curCol, curToken`kind, curToken`value
      ensures Valid()
      ensures Shape(curToken.kind, curToken.value, readIndex) == BlockCommentShape(data, old(readIndex) - 1)
    {
      hide BlockEnd;
      hide Row;
      hide Col;
      ghost var j := readIndex - 1;
      var c := GetChar();
      var tokenValue := prefix + [c.ch];
      while !PeekChar().isEof
        invariant Valid() && j + 2 <= readIndex && tokenValue == data[j..readIndex]
        invariant forall k | j + 2 <= k < readIndex :: !ClosesAt(data, k)
        decreases |data| - readIndex
      {
        var newChar := GetChar();
        tokenValue := tokenValue + [newChar.ch];
        assert tokenValue == data[j..readIndex];
        if newChar.ch == '*' && PeekChar().ch == '/' {
          c := GetChar();
          tokenValue := tokenValue + [c.ch];
          assert ClosesAt(data, readIndex - 2);
          break;
        }
      }
      BlockEndIsFirst(data, j + 2, readIndex);
      assert tokenValue == data[j..BlockEnd(data, j + 2)];
      if EndsWithClose(tokenValue) {
        curToken.kind := Comment;
      } else {
        curToken.kind := Unknown;
      }
      curToken.value := tokenValue;
    }
  }
}
