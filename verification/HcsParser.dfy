/** The include parser object: one pass over a file queues the files it includes, and the outer loop
    works the queue off.  Proved against `HcsIncludes` and `HcsWalk`. */
module HcsParser {
  import opened HcsScan
  import opened HcsLexer
  import opened HcsIncludes
  import opened HcsWalk

  /** The target queued when an include token is followed by the tokens `ts`. */
  ghost function TargetAt(fs: FileSystem, dir: FilePath, ts: seq<TokenView>): seq<FilePath> {
    if Nth(ts, 0).kind == String then Targets(fs, dir, [ts[0].value]) else []
  }

  lemma TargetsStep(fs: FileSystem, dir: FilePath, ts: seq<TokenView>)
    requires ts != []
    ensures Targets(fs, dir, FirstName(ts)) == if ts[0].kind == Include then TargetAt(fs, dir, ts[1..]) else []
  {
  }

  /** What is left to queue, before and after the first of the tokens `ts`. */
  lemma QueueStep(fs: FileSystem, dir: FilePath, queue: seq<FilePath>, ts: seq<TokenView>)
    requires ts != []
    ensures queue + Targets(fs, dir, IncludeNames(ts)) ==
      (if ts[0].kind == Include then queue + TargetAt(fs, dir, ts[1..]) else queue)
      + Targets(fs, dir, IncludeNames(ts[1..]))
  {
    hide Targets;
    hide IncludeNames;
    hide FirstName;
    hide TargetAt;
    NamesStep(ts);
    TargetsStep(fs, dir, ts);
    TargetsConcat(fs, dir, FirstName(ts), IncludeNames(ts[1..]));
  }

  lemma TargetsOfNothing(fs: FileSystem, dir: FilePath)
    ensures Targets(fs, dir, IncludeNames([])) == []
  {
  }

  /** `v` is the state after `n` turns of the walk from `root`. */
  ghost predicate Walks(fs: FileSystem, root: FilePath, files: set<FilePath>, n: nat, v: Worklist) {
    && root in fs.texts && CycleFree(IncludeGraph(fs), root)
    && v == Run(IncludeGraph(fs), Worklist([root], files), n) && n <= TreeSize(IncludeGraph(fs), root)
    && forall f | f in v.queue :: f in fs.texts
  }

  lemma Start(fs: FileSystem, rootHcsFile: FilePath, files: set<FilePath>)
    requires fs.Exists(rootHcsFile) && CycleFree(IncludeGraph(fs), fs.abspath(rootHcsFile))
    ensures var root := fs.abspath(rootHcsFile);
      root in IncludeGraph(fs).files && Walks(fs, root, files, 0, Worklist([root], files))
  {
  }

  lemma Turn(fs: FileSystem, root: FilePath, files: set<FilePath>, n: nat, v: Worklist)
    requires Walks(fs, root, files, n, v) && v.queue != []
    ensures v.queue[0] in fs.texts && n < TreeSize(IncludeGraph(fs), root)
    ensures Walks(fs, root, files, n + 1,
                  Worklist(v.queue[1..] + Includes(fs, v.queue[0]), v.files + {v.queue[0]}))
  {
    WalkEndsIffCycleFree(IncludeGraph(fs), root, files, n);
    RunUnfolds(IncludeGraph(fs), Worklist([root], files), n);
  }

  lemma Finish(fs: FileSystem, root: FilePath, files: set<FilePath>, n: nat, v: Worklist)
    requires Walks(fs, root, files, n, v) && v.queue == []
    ensures v == Run(IncludeGraph(fs), Worklist([root], files), TreeSize(IncludeGraph(fs), root))
    ensures AddsReachable(IncludeGraph(fs), files, root, v.files)
  {
    WalkResult(IncludeGraph(fs), root, files, n);
  }

  class HcsParser {
    const fs: FileSystem
    var allHcsFiles: set<FilePath>
    var srcQueue: seq<FilePath>

    constructor (fs: FileSystem)
      ensures this.fs == fs && allHcsFiles == {} && srcQueue == []
    {
      this.fs := fs;
      allHcsFiles := {};
      srcQueue := [];
    }

    /** Collects what is reachable from one root. The walk of a root that reaches an include cycle
        does not end (`HcsWalk.WalkEndsIffCycleFree`), so only the other roots have a result. */
    method Parse(rootHcsFile: FilePath)
      requires srcQueue == []
      requires fs.Exists(rootHcsFile) ==> CycleFree(IncludeGraph(fs), fs.abspath(rootHcsFile))
      modifies this
      ensures srcQueue == []
      ensures !fs.Exists(rootHcsFile) ==> allHcsFiles == old(allHcsFiles)
      ensures fs.Exists(rootHcsFile) ==>
        var g, root := IncludeGraph(fs), fs.abspath(rootHcsFile);
        && Worklist(srcQueue, allHcsFiles) == Run(g, Worklist([root], old(allHcsFiles)), TreeSize(g, root))
        && AddsReachable(g, old(allHcsFiles), root, allHcsFiles)
    {
      hide *;
      if !fs.Exists(rootHcsFile) {
        return;
      }
      srcQueue := srcQueue + [fs.abspath(rootHcsFile)];
      ghost var root := fs.abspath(rootHcsFile);
      assert srcQueue == [root];
      Start(fs, rootHcsFile, allHcsFiles);
      ghost var n, size := 0, TreeSize(IncludeGraph(fs), root);
      while srcQueue != []
        invariant n <= size && Walks(fs, root, old(allHcsFiles), n, Worklist(srcQueue, allHcsFiles))
        decreases size - n
      {
        var curHcsFile := srcQueue[0];
        Turn(fs, root, old(allHcsFiles), n, Worklist(srcQueue, allHcsFiles));
        srcQueue := srcQueue[1..];
        allHcsFiles := allHcsFiles + {curHcsFile};
        ParseOne(curHcsFile);
        n := n + 1;
      }
      Finish(fs, root, old(allHcsFiles), n, Worklist(srcQueue, allHcsFiles));
    }

    /** Queues the existing include targets of one file, in source order. */
    method ParseOne(curHcsFilePath: FilePath)
      requires curHcsFilePath in fs.texts
      modifies `srcQueue
      ensures srcQueue == old(srcQueue) + Includes(fs, curHcsFilePath)
    {
      hide IncludeNames;
      hide Targets;
      hide Tokens;
      var hcsFileDir := fs.dirname(curHcsFilePath);
      var lex := new Lexer(fs.cs, fs.texts[curHcsFilePath]);
      ghost var goal := srcQueue + Includes(fs, curHcsFilePath);
      var token := lex.PeekToken();
      while token.kind != EndOfFile
        invariant lex.Ready() && token == lex.curToken && fresh(lex) && fresh(token)
        invariant token.View() == Nth(lex.Rest(), 0)
        invariant srcQueue + Targets(fs, hcsFileDir, IncludeNames(lex.Rest())) == goal
        decreases |lex.Rest()|
      {
        QueueStep(fs, hcsFileDir, srcQueue, lex.Rest());
        if token.kind == Include {
          ParseInclude(lex, hcsFileDir);
        } else {
          var _ := lex.GetToken();
        }
        token := lex.PeekToken();
      }
      assert srcQueue == goal by {
        TargetsOfNothing(fs, hcsFileDir);
      }
    }

    method ParseInclude(lex: Lexer, hcsFileDir: FilePath)
      requires lex.Ready() && lex.Rest() != []
      modifies `srcQueue, lex, lex.curToken
      ensures lex.Ready() && lex.Rest() == old(lex.Rest())[1..]
      ensures srcQueue == old(srcQueue) + TargetAt(fs, hcsFileDir, lex.Rest())
    {
      var _ := lex.GetToken();  // the include token
      var token := lex.PeekToken();
      if token.kind == String {
        var hcsFilePath := fs.join(hcsFileDir, token.value);
        assert Targets(fs, hcsFileDir, [token.value]) ==
          if fs.Exists(hcsFilePath) then [fs.abspath(hcsFilePath)] else [];
        // a file that does not exist is not parsed
        if !fs.Exists(hcsFilePath) {
          return;
        }
        srcQueue := srcQueue + [fs.abspath(hcsFilePath)];
      }
    }
  }

  /** The command: parse every root in turn with one parser. */
  method CollectHcsFiles(fs: FileSystem, roots: seq<FilePath>) returns (files: set<FilePath>)
    requires forall r | r in roots && fs.Exists(r) :: CycleFree(IncludeGraph(fs), fs.abspath(r))
    ensures forall f :: f in files <==>
      exists r :: r in roots && fs.Exists(r) && Reachable(IncludeGraph(fs), fs.abspath(r), f)
  {
    var parser := new HcsParser(fs);
    for i := 0 to |roots|
      invariant parser.fs == fs && parser.srcQueue == [] && fresh(parser)
      invariant forall f :: f in parser.allHcsFiles <==>
        exists r :: r in roots[..i] && fs.Exists(r) && Reachable(IncludeGraph(fs), fs.abspath(r), f)
    {
      assert roots[..i + 1] == roots[..i] + [roots[i]];
      parser.Parse(roots[i]);
    }
    assert roots[..|roots|] == roots;
    files := parser.allHcsFiles;
  }
}
