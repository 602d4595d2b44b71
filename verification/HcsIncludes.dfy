/** The include graph of a fixed file system. */
module HcsIncludes {
  import opened HcsScan
  import opened HcsWalk

  /** A file system that does not change while it is scanned: the text of every file by absolute
      path, and the path operations of the host system. */
  datatype FileSystem = FileSystem(
    cs: Charset,
    texts: map<FilePath, string>,
    dirname: FilePath -> FilePath,
    join: (FilePath, FilePath) -> FilePath,
    abspath: FilePath -> FilePath)
  {
    predicate Exists(p: FilePath) {
      abspath(p) in texts
    }
  }

  /** Values of the string tokens that directly follow an include token. */
  function IncludeNames(ts: seq<TokenView>): seq<string> {
    if |ts| < 2 then []
    else (if ts[0].kind == Include && ts[1].kind == String then [ts[1].value] else []) + IncludeNames(ts[1..])
  }

  /** The file a name stands for relative to `dir`, if it exists. */
  function Target(fs: FileSystem, dir: FilePath, name: string): (r: seq<FilePath>)
    ensures forall c | c in r :: c in fs.texts
  {
    var p := fs.join(dir, name);
    if fs.Exists(p) then [fs.abspath(p)] else []
  }

  /** The names that exist relative to `dir`, as absolute paths, in order. */
  function Targets(fs: FileSystem, dir: FilePath, names: seq<string>): (r: seq<FilePath>)
    ensures forall c | c in r :: c in fs.texts
  {
    if names == [] then [] else Target(fs, dir, names[0]) + Targets(fs, dir, names[1..])
  }

  /** The include edges of file `f`, in source order and with repetitions. */
  function Includes(fs: FileSystem, f: FilePath): (r: seq<FilePath>)
    ensures forall c | c in r :: c in fs.texts
  {
    if f in fs.texts then
      Targets(fs, fs.dirname(f), IncludeNames(Tokens(fs.cs, fs.texts[f], 0)))
    else []
  }

  /** Token `k` is an include token directly followed by the string `name`. */
  predicate Names(ts: seq<TokenView>, k: nat, name: string) {
    k + 1 < |ts| && ts[k].kind == Include && ts[k + 1].kind == String && ts[k + 1].value == name
  }

  lemma {:induction false} NamedIff(ts: seq<TokenView>, name: string)
    ensures name in IncludeNames(ts) <==> exists k: nat :: Names(ts, k, name)
    decreases |ts|
  {
    if |ts| >= 2 {
      var rest := ts[1..];
      NamedIff(rest, name);
      assert Names(ts, 0, name) <==> ts[0].kind == Include && ts[1].kind == String && ts[1].value == name;
      if k: nat :| Names(rest, k, name) {
        assert Names(ts, k + 1, name);
      }
      if k: nat :| Names(ts, k, name) && k > 0 {
        assert Names(rest, k - 1, name);
      }
    }
  }

  /** `name`, written in a file of directory `dir`, names the existing file `c`. */
  predicate Resolves(fs: FileSystem, dir: FilePath, name: string, c: FilePath) {
    fs.Exists(fs.join(dir, name)) && c == fs.abspath(fs.join(dir, name))
  }

  lemma {:induction false} TargetIff(fs: FileSystem, dir: FilePath, names: seq<string>, c: FilePath)
    ensures c in Targets(fs, dir, names) <==> exists name :: name in names && Resolves(fs, dir, name, c)
    decreases |names|
  {
    if names != [] {
      var rest := names[1..];
      TargetIff(fs, dir, rest, c);
      assert names == [names[0]] + rest;
      assert c in Targets(fs, dir, names) <==> Resolves(fs, dir, names[0], c) || c in Targets(fs, dir, rest);
      if name :| name in rest && Resolves(fs, dir, name, c) {
        assert name in names;
      }
    }
  }

  lemma TargetOfName(fs: FileSystem, dir: FilePath, ts: seq<TokenView>, k: nat, name: string, c: FilePath)
    requires Names(ts, k, name) && Resolves(fs, dir, name, c)
    ensures c in Targets(fs, dir, IncludeNames(ts))
  {
    var names := IncludeNames(ts);
    NamedIff(ts, name);
    TargetIff(fs, dir, names, c);
    assert name in names && Resolves(fs, dir, name, c);
  }

  lemma NameOfTarget(fs: FileSystem, dir: FilePath, ts: seq<TokenView>, c: FilePath)
    returns (k: nat, name: string)
    requires c in Targets(fs, dir, IncludeNames(ts))
    ensures Names(ts, k, name) && Resolves(fs, dir, name, c)
  {
    TargetIff(fs, dir, IncludeNames(ts), c);
    name :| name in IncludeNames(ts) && Resolves(fs, dir, name, c);
    NamedIff(ts, name);
    k :| Names(ts, k, name);
  }

  /** Token `k` of `f` includes the existing file `c` under the name `name`. */
  ghost predicate EdgeAt(fs: FileSystem, f: FilePath, c: FilePath, k: nat, name: string)
    requires f in fs.texts
  {
    Names(Tokens(fs.cs, fs.texts[f], 0), k, name) && Resolves(fs, fs.dirname(f), name, c)
  }

  /** `c` is an include of `f` exactly when some include token of `f` is directly followed by a string
      that names the existing file `c` relative to the directory of `f`. */
  lemma EdgeIff(fs: FileSystem, f: FilePath, c: FilePath)
    requires f in fs.texts
    ensures c in Includes(fs, f) <==> exists k: nat, name :: EdgeAt(fs, f, c, k, name)
  {
    var ts := Tokens(fs.cs, fs.texts[f], 0);
    if c in Includes(fs, f) {
      var k, name := NameOfTarget(fs, fs.dirname(f), ts, c);
      assert EdgeAt(fs, f, c, k, name);
    }
    if k: nat, name :| EdgeAt(fs, f, c, k, name) {
      TargetOfName(fs, fs.dirname(f), ts, k, name, c);
    }
  }

  // ---- One edge for each occurrence ----

  lemma {:induction false} TargetsConcat(fs: FileSystem, dir: FilePath, a: seq<string>, b: seq<string>)
    ensures Targets(fs, dir, a + b) == Targets(fs, dir, a) + Targets(fs, dir, b)
  {
    hide Target;
    if a == [] {
      assert a + b == b;
    } else {
      TargetsConcat(fs, dir, a[1..], b);
      assert (a + b)[1..] == a[1..] + b;
    }
  }

  /** The name contributed by the first of the tokens `ts`, if any. */
  ghost function FirstName(ts: seq<TokenView>): seq<string> {
    if |ts| >= 2 && ts[0].kind == Include && ts[1].kind == String then [ts[1].value] else []
  }

  lemma NamesStep(ts: seq<TokenView>)
    requires ts != []
    ensures IncludeNames(ts) == FirstName(ts) + IncludeNames(ts[1..])
  {
  }

  /** The file that token `k` includes in a file of directory `dir`, if it does. */
  ghost function EdgeOf(fs: FileSystem, dir: FilePath, ts: seq<TokenView>, k: nat): seq<FilePath> {
    if k + 1 < |ts| && ts[k].kind == Include && ts[k + 1].kind == String && fs.Exists(fs.join(dir, ts[k + 1].value))
    then [fs.abspath(fs.join(dir, ts[k + 1].value))]
    else []
  }

  /** The files that the tokens from `k` on include, token by token. */
  ghost function EdgesFrom(fs: FileSystem, dir: FilePath, ts: seq<TokenView>, k: nat): seq<FilePath>
    decreases |ts| - k
  {
    if k >= |ts| then [] else EdgeOf(fs, dir, ts, k) + EdgesFrom(fs, dir, ts, k + 1)
  }

  lemma {:induction false} SuffixEdges(fs: FileSystem, dir: FilePath, ts: seq<TokenView>, k: nat)
    requires k <= |ts|
    ensures Targets(fs, dir, IncludeNames(ts[k..])) == EdgesFrom(fs, dir, ts, k)
    decreases |ts| - k
  {
    if k < |ts| {
      var rest := ts[k..];
      NamesStep(rest);
      TargetsConcat(fs, dir, FirstName(rest), IncludeNames(rest[1..]));
      assert rest[1..] == ts[k + 1..];
      SuffixEdges(fs, dir, ts, k + 1);
      FirstEdge(fs, dir, ts, k);
    }
  }

  lemma FirstEdge(fs: FileSystem, dir: FilePath, ts: seq<TokenView>, k: nat)
    requires k < |ts|
    ensures Targets(fs, dir, FirstName(ts[k..])) == EdgeOf(fs, dir, ts, k)
  {
    assert Targets(fs, dir, []) == [];
  }

  /** The edges of a file are, in order and as often as they occur, what its tokens include one by one. */
  lemma EdgesInOrder(fs: FileSystem, f: FilePath)
    requires f in fs.texts
    ensures Includes(fs, f) == EdgesFrom(fs, fs.dirname(f), Tokens(fs.cs, fs.texts[f], 0), 0)
  {
    var ts := Tokens(fs.cs, fs.texts[f], 0);
    SuffixEdges(fs, fs.dirname(f), ts, 0);
    assert ts[0..] == ts;
  }

  function IncludeGraph(fs: FileSystem): Graph {
    RawGraph(fs.texts.Keys, f => Includes(fs, f))
  }
}
