/** A printer for HCS text and the proof that scanning the printed text gives back the included names,
    whatever comments and strings stand between the include lines. */
module HcsRender {
  import opened HcsScan
  import opened Runs
  import opened HcsIncludes
  import opened HcsWalk

  datatype Item =
    | IncludeLine(gap: string, name: string)
    | LineNote(text: string)
    | BlockNote(text: string)
    | Quoted(text: string)
    | Blank(text: string)

  /** An item whose text does not end the item early. */
  ghost predicate Printable(cs: Charset, it: Item) {
    match it
    case IncludeLine(gap, name) => AllSpace(cs, gap) && '"' !in name
    case LineNote(text) => '\n' !in text
    case BlockNote(text) => forall k :: !ClosesAt(text, k)
    case Quoted(text) => '"' !in text
    case Blank(text) => AllSpace(cs, text)
  }

  function Print(it: Item): string {
    match it
    case IncludeLine(gap, name) => "#include" + gap + "\"" + name + "\"\n"
    case LineNote(text) => "//" + text + "\n"
    case BlockNote(text) => "/*" + text + "*/\n"
    case Quoted(text) => "\"" + text + "\"\n"
    case Blank(text) => text
  }

  function PrintAll(items: seq<Item>): string {
    if items == [] then "" else Print(items[0]) + PrintAll(items[1..])
  }

  function NamesOf(it: Item): seq<string> {
    if it.IncludeLine? then [it.name] else []
  }

  function AllNames(items: seq<Item>): seq<string> {
    if items == [] then [] else NamesOf(items[0]) + AllNames(items[1..])
  }

  // ---- Stepping through a text ----

  predicate Holds(s: string, i: nat, t: string) {
    i + |t| <= |s| && s[i..i + |t|] == t
  }

  lemma HoldsAt(s: string, i: nat, t: string, k: nat)
    requires Holds(s, i, t) && k < |t|
    ensures s[i + k] == t[k]
  {
  }

  lemma {:induction false} SkipSpace(cs: Charset, s: string, i: nat, e: nat)
    requires i <= e <= |s| && AllSpace(cs, s[i..e])
    ensures Tokens(cs, s, i) == Tokens(cs, s, e)
    decreases e - i
  {
    if i < e {
      assert s[i..e][0] == s[i] && s[i..e][1..] == s[i + 1..e];
      SkipSpace(cs, s, i + 1, e);
    }
  }

  /** `pre` are the tokens of `s` between positions `i` and `e`. */
  ghost predicate Between(cs: Charset, s: string, i: nat, e: nat, pre: seq<TokenView>) {
    i <= e <= |s| && Tokens(cs, s, i) == pre + Tokens(cs, s, e)
  }

  lemma FirstToken(cs: Charset, s: string, i: nat, t: Shape) returns (a: TokenView)
    requires i < |s| && !cs.isSpace(s[i]) && ShapeAt(cs, s, i) == t
    ensures a.kind == t.kind && a.value == t.value
    ensures Between(cs, s, i, t.next, [a])
  {
    a := TokenView(t.kind, t.value, Row(s, i), Col(s, i));
  }

  lemma BetweenJoins(cs: Charset, s: string, i: nat, j: nat, e: nat, a: seq<TokenView>, b: seq<TokenView>)
    requires Between(cs, s, i, j, a) && Between(cs, s, j, e, b)
    ensures Between(cs, s, i, e, a + b)
  {
  }

  lemma QuotedShape(cs: Charset, s: string, i: nat, text: string)
    requires Holds(s, i, "\"" + text + "\"") && '"' !in text
    ensures ShapeAt(cs, s, i) == Shape(String, text, i + |text| + 2)
  {
    var q := i + 1 + |text|;
    assert "\"" + text + "\"" == "\"" + (text + "\"");
    HoldsPart(s, i, "\"", text + "\"");
    HoldsPart(s, i + 1, text, "\"");
    HoldsAt(s, i, "\"", 0);
    HoldsAt(s, q, "\"", 0);
    forall k | i + 1 <= k < q ensures NotQuote(s[k]) {
      HoldsAt(s, i + 1, text, k - i - 1);
    }
    RunEndIs(NotQuote, s, i + 1, q);
  }

  lemma IncludeShape(cs: Charset, s: string, i: nat)
    requires Holds(s, i, "#include") && i + 8 < |s| && !cs.isAlpha(s[i + 8])
    ensures ShapeAt(cs, s, i) == Shape(Include, "#include", i + 8)
  {
    IncludeIff(cs, s, i);
    ShapeSpells(cs, s, i);
    HoldsAt(s, i, "#include", 0);
  }

  lemma LineNoteShape(cs: Charset, s: string, i: nat, text: string)
    requires Holds(s, i, "//" + text + "\n") && '\n' !in text
    ensures ShapeAt(cs, s, i).kind == Comment && ShapeAt(cs, s, i).next == i + |text| + 3
  {
    var e := i + 2 + |text|;
    assert "//" + text + "\n" == "//" + (text + "\n");
    HoldsPart(s, i, "//", text + "\n");
    HoldsPart(s, i + 2, text, "\n");
    HoldsAt(s, i, "//", 0);
    HoldsAt(s, i, "//", 1);
    HoldsAt(s, e, "\n", 0);
    forall k | i + 2 <= k < e ensures NotNewline(s[k]) {
      HoldsAt(s, i + 2, text, k - i - 2);
    }
    RunEndIs(NotNewline, s, i + 2, e);
  }

  lemma BlockNoteEnd(s: string, i: nat, text: string)
    requires Holds(s, i, "/*" + text + "*/") && forall k :: !ClosesAt(text, k)
    ensures BlockEnd(s, i + 2) == i + |text| + 4
  {
    var t := "/*" + text + "*/";
    var e := i + |t|;
    HoldsAt(s, i, t, |text| + 2);
    HoldsAt(s, i, t, |text| + 3);
    assert ClosesAt(s, e - 2);
    forall k | i + 2 <= k < e - 2 ensures !ClosesAt(s, k) {
      var m := k - i - 2;
      assert !ClosesAt(text, m);
      HoldsAt(s, i, t, m + 2);
      HoldsAt(s, i, t, m + 3);
      assert t[m + 2] == text[m] && (m + 1 < |text| ==> t[m + 3] == text[m + 1]);
    }
    BlockEndIsFirst(s, i + 2, e);
  }

  lemma BlockNoteShape(cs: Charset, s: string, i: nat, text: string)
    requires Holds(s, i, "/*" + text + "*/") && forall k :: !ClosesAt(text, k)
    ensures ShapeAt(cs, s, i).kind == Comment && ShapeAt(cs, s, i).next == i + |text| + 4
  {
    var t := "/*" + text + "*/";
    HoldsAt(s, i, t, 0);
    HoldsAt(s, i, t, 1);
    BlockNoteEnd(s, i, text);
    assert EndsWithClose(t);
  }

  lemma HoldsPart(s: string, i: nat, a: string, b: string)
    requires Holds(s, i, a + b)
    ensures Holds(s, i, a) && Holds(s, i + |a|, b)
  {
    var t := a + b;
    assert s[i..i + |a|] == t[..|a|];
    assert s[i + |a|..i + |a| + |b|] == t[|a|..];
  }

  /** A token followed by a line break. */
  lemma TokenThenNewline(cs: Charset, s: string, i: nat, t: Shape) returns (a: TokenView)
    requires i < |s| && !cs.isSpace(s[i]) && ShapeAt(cs, s, i) == t && Holds(s, t.next, "\n")
    ensures a.kind == t.kind && a.value == t.value
    ensures Between(cs, s, i, t.next + 1, [a])
  {
    hide Tokens;
    a := FirstToken(cs, s, i, t);
    HoldsAt(s, t.next, "\n", 0);
    SkipSpace(cs, s, t.next, t.next + 1);
  }

  /** The tokens printed for an item. */
  predicate TokensOf(it: Item, pre: seq<TokenView>) {
    match it
    case IncludeLine(_, name) =>
      |pre| == 2 && pre[0].kind == Include && pre[1].kind == String && pre[1].value == name
    case Blank(_) => pre == []
    case _ => |pre| == 1 && pre[0].kind != Include
  }

  /** The include word, up to the quote that follows the white space after it. */
  lemma IncludeWordToken(cs: Charset, s: string, i: nat, gap: string) returns (a: TokenView)
    requires Holds(s, i, "#include" + gap + "\"") && AllSpace(cs, gap)
    ensures a.kind == Include && Between(cs, s, i, i + 8 + |gap|, [a])
  {
    hide Tokens;
    var e := i + 8 + |gap|;
    HoldsPart(s, i, "#include" + gap, "\"");
    HoldsPart(s, i, "#include", gap);
    HoldsAt(s, i, "#include", 0);
    HoldsAt(s, e, "\"", 0);
    if gap != "" {
      HoldsAt(s, i + 8, gap, 0);
    }
    IncludeShape(cs, s, i);
    a := FirstToken(cs, s, i, Shape(Include, "#include", i + 8));
    SkipSpace(cs, s, i + 8, e);
  }

  lemma NameToken(cs: Charset, s: string, i: nat, name: string) returns (a: TokenView)
    requires Holds(s, i, "\"" + name + "\"" + "\n") && '"' !in name
    ensures a.kind == String && a.value == name && Between(cs, s, i, i + |name| + 3, [a])
  {
    hide Tokens;
    var t := "\"" + name + "\"";
    HoldsPart(s, i, t, "\n");
    HoldsAt(s, i, t, 0);
    QuotedShape(cs, s, i, name);
    a := TokenThenNewline(cs, s, i, Shape(String, name, i + |name| + 2));
  }

  lemma IncludeLineTokens(cs: Charset, s: string, i: nat, gap: string, name: string) returns (pre: seq<TokenView>)
    requires Holds(s, i, Print(IncludeLine(gap, name))) && AllSpace(cs, gap) && '"' !in name
    ensures TokensOf(IncludeLine(gap, name), pre) && Between(cs, s, i, i + |gap| + |name| + 11, pre)
  {
    hide Tokens;
    var word, line := "#include" + gap, "\"" + name + "\"" + "\n";
    assert Print(IncludeLine(gap, name)) == word + line;
    assert Print(IncludeLine(gap, name)) == (word + "\"") + (name + "\"\n");
    HoldsPart(s, i, word, line);
    HoldsPart(s, i, word + "\"", name + "\"\n");
    var a := IncludeWordToken(cs, s, i, gap);
    var b := NameToken(cs, s, i + |word|, name);
    BetweenJoins(cs, s, i, i + |word|, i + |word| + |name| + 3, [a], [b]);
    pre := [a, b];
    assert pre == [a] + [b];
  }

  lemma BlockNoteTokens(cs: Charset, s: string, i: nat, text: string) returns (pre: seq<TokenView>)
    requires Holds(s, i, Print(BlockNote(text))) && forall k :: !ClosesAt(text, k)
    ensures TokensOf(BlockNote(text), pre) && Between(cs, s, i, i + |text| + 5, pre)
  {
    hide Tokens;
    var t := "/*" + text + "*/";
    HoldsPart(s, i, t, "\n");
    HoldsAt(s, i, t, 0);
    BlockNoteShape(cs, s, i, text);
    var a := TokenThenNewline(cs, s, i, ShapeAt(cs, s, i));
    pre := [a];
  }

  lemma LineNoteTokens(cs: Charset, s: string, i: nat, text: string) returns (pre: seq<TokenView>)
    requires Holds(s, i, Print(LineNote(text))) && '\n' !in text
    ensures TokensOf(LineNote(text), pre) && Between(cs, s, i, i + |text| + 3, pre)
  {
    hide Tokens;
    HoldsAt(s, i, Print(LineNote(text)), 0);
    LineNoteShape(cs, s, i, text);
    var a := FirstToken(cs, s, i, ShapeAt(cs, s, i));
    pre := [a];
  }

  lemma QuotedTokens(cs: Charset, s: string, i: nat, text: string) returns (pre: seq<TokenView>)
    requires Holds(s, i, Print(Quoted(text))) && '"' !in text
    ensures TokensOf(Quoted(text), pre) && Between(cs, s, i, i + |text| + 3, pre)
  {
    hide Tokens;
    var a := NameToken(cs, s, i, text);
    pre := [a];
  }

  lemma BlankTokens(cs: Charset, s: string, i: nat, text: string) returns (pre: seq<TokenView>)
    requires Holds(s, i, Print(Blank(text))) && AllSpace(cs, text)
    ensures TokensOf(Blank(text), pre) && Between(cs, s, i, i + |text|, pre)
  {
    hide Tokens;
    SkipSpace(cs, s, i, i + |text|);
    pre := [];
  }

  lemma ItemTokens(cs: Charset, s: string, i: nat, it: Item) returns (pre: seq<TokenView>)
    requires Holds(s, i, Print(it)) && Printable(cs, it)
    ensures TokensOf(it, pre) && Between(cs, s, i, i + |Print(it)|, pre)
  {
    hide Between;
    hide TokensOf;
    hide Holds;
    match it
    case IncludeLine(gap, name) => pre := IncludeLineTokens(cs, s, i, gap, name);
    case LineNote(text) => pre := LineNoteTokens(cs, s, i, text);
    case BlockNote(text) => pre := BlockNoteTokens(cs, s, i, text);
    case Quoted(text) => pre := QuotedTokens(cs, s, i, text);
    case Blank(text) => pre := BlankTokens(cs, s, i, text);
  }

  /** The names contributed by the tokens of an item do not depend on what follows. */
  lemma NamesOfTokens(it: Item, pre: seq<TokenView>, rest: seq<TokenView>)
    requires TokensOf(it, pre)
    ensures IncludeNames(pre + rest) == NamesOf(it) + IncludeNames(rest)
  {
    var ts := pre + rest;
    if pre == [] {
      assert ts == rest;
    } else if |pre| == 1 {
      assert ts[1..] == rest;
    } else {
      assert ts[1..][1..] == rest;
      assert IncludeNames(ts[1..]) == IncludeNames(rest);
    }
  }

  lemma ItemNames(cs: Charset, s: string, i: nat, it: Item, rest: string)
    requires i <= |s| && s[i..] == Print(it) + rest && Printable(cs, it)
    ensures i + |Print(it)| <= |s| && s[i + |Print(it)|..] == rest
    ensures IncludeNames(Tokens(cs, s, i)) == NamesOf(it) + IncludeNames(Tokens(cs, s, i + |Print(it)|))
  {
    hide Tokens;
    hide IncludeNames;
    assert Holds(s, i, Print(it) + rest);
    HoldsPart(s, i, Print(it), rest);
    var pre := ItemTokens(cs, s, i, it);
    NamesOfTokens(it, pre, Tokens(cs, s, i + |Print(it)|));
  }

  lemma NothingLeft(cs: Charset, s: string)
    ensures IncludeNames(Tokens(cs, s, |s|)) == []
  {
  }

  lemma {:induction false} SuffixNames(cs: Charset, s: string, i: nat, items: seq<Item>)
    requires i <= |s| && s[i..] == PrintAll(items)
    requires forall it | it in items :: Printable(cs, it)
    ensures IncludeNames(Tokens(cs, s, i)) == AllNames(items)
    decreases |items|
  {
    hide Tokens;
    hide IncludeNames;
    hide Print;
    hide Printable;
    hide NamesOf;
    if items == [] {
      NothingLeft(cs, s);
    } else {
      ItemNames(cs, s, i, items[0], PrintAll(items[1..]));
      SuffixNames(cs, s, i + |Print(items[0])|, items[1..]);
    }
  }

  /** Scanning inverts printing: the include names of a printed text are the names of its include
      lines, in order; comments and other strings never contribute, even if they contain include
      lines themselves. */
  lemma ScanInvertsPrint(cs: Charset, items: seq<Item>)
    requires forall it | it in items :: Printable(cs, it)
    ensures IncludeNames(Tokens(cs, PrintAll(items), 0)) == AllNames(items)
  {
    assert PrintAll(items)[0..] == PrintAll(items);
    SuffixNames(cs, PrintAll(items), 0, items);
  }

  /** The include edges of a printed file are the existing targets of its include lines. */
  lemma IncludesOfPrinted(fs: FileSystem, f: FilePath, items: seq<Item>)
    requires f in fs.texts && fs.texts[f] == PrintAll(items)
    requires forall it | it in items :: Printable(fs.cs, it)
    ensures Includes(fs, f) == Targets(fs, fs.dirname(f), AllNames(items))
  {
    ScanInvertsPrint(fs.cs, items);
  }
}
