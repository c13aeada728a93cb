/** Worked examples of the matcher and the walker on concrete patterns and
    trees. */
module Scenarios {
  import opened Strings
  import opened Exclude
  import opened Zipf
  import opened CrawlerProperties

  /** The pattern `*` slash `*` matches any name partially, leaving the
      wildcard, which then matches any name one level down exactly. */
  lemma TwoLevelWildcard(a: string, b: string)
    ensures Recurse(ItemFromString("*/*"), a) == Matches.Partial(WILDCARD)
    ensures Recurse(WILDCARD, b) == Matches.Exact
  {
    SplitWithoutSep("*", '/');
    SplitAfterPiece("*", '/', "*");
    assert "*/*" == "*" + ['/'] + "*";
    ItemParse("*/*");
  }

  /** `a.*` matches `a.` followed by any single token, and neither `a` nor a
      name with three tokens. */
  lemma TokenWildcard(t: string, u: string)
    requires '.' !in t && '.' !in u
    ensures ComponentMatches(ComponentFromString("a.*"), "a." + t)
    ensures !ComponentMatches(ComponentFromString("a.*"), "a")
    ensures !ComponentMatches(ComponentFromString("a.*"), "a." + t + "." + u)
  {
    SplitTwo("a", "*");
    SplitTwo("a", t);
    assert "a." + t == "a" + "." + t;
    SplitWithoutSep("a", '.');
    SplitAfterPiece("a", '.', t + "." + u);
    SplitTwo(t, u);
    assert "a." + t + "." + u == "a" + ['.'] + (t + "." + u);
  }

  /** An exclude pattern naming an entry removes that entry and everything
      below it, whatever the include patterns say. */
  lemma ExcludeIsAbsolute(path: seq<string>, node: Node, incl: seq<Item>)
    requires !node.Unreadable? && '/' !in node.name
    ensures Visit(path, node, incl, [ItemFromString(node.name)]) == []
  {
    assert Join([node.name], '/') == node.name;
    PatternFollowsItsPath([node.name], [ItemFromString(node.name)], 0);
  }

  /** With `*` included and `n/m` excluded, the directory `n` is archived
      but nothing at or below `n/m` is. */
  lemma ExcludeNarrows(path: seq<string>, n: string, m: string, sub: Listing)
    requires '/' !in n && '/' !in m && !Ignored(n)
    ensures var r := Visit(path, Dir(n, sub), [WILDCARD], [ItemFromString(n + "/" + m)]);
      && r != [] && r[0] == Emitted(path + [n], true)
      && forall e :: e in r ==> !AtOrBelow(path, [n, m], e)
  {
    var excl := [ItemFromString(n + "/" + m)];
    assert Join([n, m], '/') == n + "/" + m;
    PatternFollowsItsPath([n, m], excl, 0);
    WildcardAbsorbs(n, [WILDCARD]);
    SplitJoin([n, m], '/');
    ItemParse(n + "/" + m);
    assert |excl[0]| == 2;
    assert Recurse(excl[0], n) != Matches.Exact;
    CollectionExact(n, excl);
    PatternExcludesItsPathNode(path, Dir(n, sub), [WILDCARD], excl, [n, m]);
  }

  // ---------------------------------------------------------------------
  // Matching one-segment patterns

  /** A pattern without `/` is a single segment: against a name without `/`
      it is `Exact` when the segment matches and `No` otherwise. */
  lemma OneSegment(s: string, u: string)
    requires '/' !in s && '/' !in u
    ensures Recurse(ItemFromString(s), u) == (if SegmentGlob(s, u) then Matches.Exact else Matches.No)
  {
    SplitWithoutSep(s, '/');
    LastPiece(u, '/');
    RecurseOnText(s, u);
  }

  /** The segment `x.y` against the name `u.v`, token by token. */
  lemma TwoTokens(x: string, y: string, u: string, v: string)
    requires '.' !in x && '.' !in y && '.' !in u && '.' !in v && x != ""
    ensures SegmentGlob(x + "." + y, u + "." + v) <==> (x == "*" || x == u) && (y == "*" || y == v)
    ensures !SegmentGlob(x + "." + y, u)
  {
    SplitTwo(x, y);
    SplitTwo(u, v);
    SplitWithoutSep(u, '.');
    assert (x + "." + y)[0] == x[0];
    assert !IsWildcardSegment(x + "." + y) by {
      assert |x + "." + y| > 1;
    }
    var ps := Split(x + "." + y, '.');
    var fs := Split(u + "." + v, '.');
    if (x == "*" || x == u) && (y == "*" || y == v) {
      forall i | 0 <= i < |ps| ensures ps[i] == "*" || ps[i] == fs[i] {
        assert i == 0 || i == 1;
      }
    } else if !(x == "*" || x == u) {
      assert !(ps[0] == "*" || ps[0] == fs[0]);
    } else {
      assert !(ps[1] == "*" || ps[1] == fs[1]);
    }
  }

  /** The pattern `x.y` misses a name `u.v` whose first token differs, and
      every name without a `.`. */
  lemma DottedPatternMisses(x: string, y: string, u: string, v: string)
    requires '.' !in x && '.' !in y && '.' !in u && '.' !in v
    requires '/' !in x && '/' !in y && '/' !in u && '/' !in v
    requires x != "" && x != "*" && x != u
    ensures Collection(u + "." + v, [ItemFromString(x + "." + y)]).No?
    ensures Collection(u, [ItemFromString(x + "." + y)]).No?
  {
    TwoTokens(x, y, u, v);
    OneSegment(x + "." + y, u + "." + v);
    OneSegment(x + "." + y, u);
    CollectionNo(u + "." + v, [ItemFromString(x + "." + y)]);
    CollectionNo(u, [ItemFromString(x + "." + y)]);
  }

  // ---------------------------------------------------------------------
  // End-to-end runs on a tree of two files and a directory holding a file

  /** Two files `a` and `b` and a directory `s` holding a file `c`. */
  function Tree(a: string, b: string, s: string, c: string): Listing
  {
    Listed([File(a), File(b), Dir(s, Listed([File(c)]))])
  }

  /** A name that can be a path component of an archived entry and is
      stored as itself. */
  predicate PlainName(x: string)
  {
    x != "." && '/' !in x && !Ignored(x)
  }

  lemma EverythingOfOne(path: seq<string>, node: Node)
    requires !node.Unreadable?
    ensures EverythingEntries(path, [node]) == EverythingNode(path, node)
  {
    assert [node][1..] == [];
  }

  lemma EverythingAfterOne(path: seq<string>, node: Node, rest: seq<Node>)
    requires !node.Unreadable?
    ensures EverythingEntries(path, [node] + rest) == EverythingNode(path, node) + EverythingEntries(path, rest)
  {
    assert ([node] + rest)[1..] == rest;
  }

  lemma EverythingOfTree(a: string, b: string, s: string, c: string)
    requires PlainName(a) && PlainName(b) && PlainName(s) && PlainName(c)
    ensures Everything(["."], Tree(a, b, s, c)) ==
      [Emitted([".", a], false), Emitted([".", b], false), Emitted([".", s], true), Emitted([".", s, c], false)]
  {
    var sub := Listed([File(c)]);
    EverythingOfOne([".", s], File(c));
    assert [".", s] + [c] == [".", s, c];
    var below := [Emitted([".", s, c], false)];
    assert Everything([".", s], sub) == below;
    assert ["."] + [s] == [".", s];
    var dir := Dir(s, sub);
    assert EverythingNode(["."], dir) == [Emitted([".", s], true)] + below;
    EverythingOfOne(["."], dir);
    EverythingAfterOne(["."], File(b), [dir]);
    assert ["."] + [b] == [".", b];
    EverythingAfterOne(["."], File(a), [File(b), dir]);
    assert ["."] + [a] == [".", a];
    assert Tree(a, b, s, c).entries == [File(a)] + [File(b), dir];
    assert [File(b)] + [dir] == [File(b), dir];
  }

  lemma RenderOne(e: Emitted)
    ensures Render([e]) == [Record(FileName(e.path), e.isDir)]
  {
    assert [e][1..] == [];
  }

  lemma RenderOfFour(e1: Emitted, e2: Emitted, e3: Emitted, e4: Emitted)
    ensures Render([e1, e2, e3, e4]) ==
      [Record(FileName(e1.path), e1.isDir), Record(FileName(e2.path), e2.isDir),
       Record(FileName(e3.path), e3.isDir), Record(FileName(e4.path), e4.isDir)]
  {
    RenderOfTwo(e1, e2);
    RenderOfTwo(e3, e4);
    RenderAppend([e1, e2], [e3, e4]);
    assert [e1, e2] + [e3, e4] == [e1, e2, e3, e4];
  }

  lemma RenderOfTwo(e1: Emitted, e2: Emitted)
    ensures Render([e1, e2]) == [Record(FileName(e1.path), e1.isDir), Record(FileName(e2.path), e2.isDir)]
  {
    RenderOne(e1);
    RenderOne(e2);
    RenderAppend([e1], [e2]);
    assert [e1] + [e2] == [e1, e2];
  }

  lemma StoredNamesOfTree(a: string, b: string, s: string, c: string)
    requires PlainName(a) && PlainName(b) && PlainName(s) && PlainName(c)
    ensures FileName([".", a]) == a && FileName([".", b]) == b && FileName([".", s]) == s
    ensures FileName([".", s, c]) == s + "/" + c
  {
    StoredName([a]);
    StoredName([b]);
    StoredName([s]);
    StoredName([s, c]);
    assert [".", a] == ["."] + [a] && [".", b] == ["."] + [b] && [".", s] == ["."] + [s];
    assert [".", s, c] == ["."] + [s, c];
    assert [s, c][1..] == [c];
  }

  lemma RenderOfTree(a: string, b: string, s: string, c: string)
    requires PlainName(a) && PlainName(b) && PlainName(s) && PlainName(c)
    ensures Render([Emitted([".", a], false), Emitted([".", b], false), Emitted([".", s], true), Emitted([".", s, c], false)]) ==
      [Record(a, false), Record(b, false), Record(s, true), Record(s + "/" + c, false)]
  {
    StoredNamesOfTree(a, b, s, c);
    RenderOfFour(Emitted([".", a], false), Emitted([".", b], false), Emitted([".", s], true), Emitted([".", s, c], false));
  }

  /** With the include pattern `*`, and an output path whose pattern
      matches none of the top-level names, everything is archived in
      pre-order: `a`, `b`, the directory `s` and `s/c`. */
  lemma IncludeAllScenario(a: string, b: string, s: string, c: string, output: string)
    requires PlainName(a) && PlainName(b) && PlainName(s) && PlainName(c)
    requires Collection(a, [ItemFromString(output)]).No?
    requires Collection(b, [ItemFromString(output)]).No?
    requires Collection(s, [ItemFromString(output)]).No?
    ensures Render(RunAsWritten(Tree(a, b, s, c), Args(output, ["*"], []))) ==
      [Record(a, false), Record(b, false), Record(s, true), Record(s + "/" + c, false)]
  {
    var args := Args(output, ["*"], []);
    var es := Tree(a, b, s, c).entries;
    var excl := ExcludeItemsAsWritten(args);
    WildcardPatterns();
    assert IncludeItems(args) == [WILDCARD];
    assert excl == [ItemFromString(output)];
    forall k | 0 <= k < |es| && !es[k].Unreadable? ensures Collection(es[k].name, excl).No? {
      assert k == 0 || k == 1 || k == 2;
    }
    UnmatchedExcludesAreInert(["."], es, [WILDCARD], excl);
    WildcardIncludesEntries(["."], es, [WILDCARD]);
    EverythingOfTree(a, b, s, c);
    RenderOfTree(a, b, s, c);
  }

  lemma CrawlOfThree(path: seq<string>, n1: Node, n2: Node, n3: Node, incl: seq<Item>, excl: seq<Item>)
    requires !n1.Unreadable? && !n2.Unreadable? && !n3.Unreadable?
    ensures CrawlEntries(path, [n1, n2, n3], incl, excl) ==
      Visit(path, n1, incl, excl) + Visit(path, n2, incl, excl) + Visit(path, n3, incl, excl)
  {
    CrawlOfTwo(path, n2, n3, incl, excl);
    CrawlAfterOne(path, n1, [n2, n3], incl, excl);
    assert [n1] + [n2, n3] == [n1, n2, n3];
  }

  lemma CrawlOfTwo(path: seq<string>, n1: Node, n2: Node, incl: seq<Item>, excl: seq<Item>)
    requires !n1.Unreadable? && !n2.Unreadable?
    ensures CrawlEntries(path, [n1, n2], incl, excl) == Visit(path, n1, incl, excl) + Visit(path, n2, incl, excl)
  {
    CrawlAfterOne(path, n2, [], incl, excl);
    CrawlAfterOne(path, n1, [n2], incl, excl);
    assert [n2] + [] == [n2] && [n1] + [n2] == [n1, n2];
  }

  lemma CrawlAfterOne(path: seq<string>, node: Node, rest: seq<Node>, incl: seq<Item>, excl: seq<Item>)
    requires !node.Unreadable?
    ensures CrawlEntries(path, [node] + rest, incl, excl) == Visit(path, node, incl, excl) + CrawlEntries(path, rest, incl, excl)
  {
    assert ([node] + rest)[1..] == rest;
  }

  /** A dotted name `u.t` with `u` non-empty is never an ignored name. */
  lemma DottedNameNotIgnored(u: string, t: string)
    requires u != "" && '.' !in u
    ensures !Ignored(u + "." + t)
  {
    assert (u + "." + t)[0] == u[0];
  }

  /** The include pattern `*.t` matches `u.t` exactly and misses every name
      without a `.`. */
  lemma StarDotToken(t: string, u: string, s: string)
    requires '.' !in t && '.' !in u && '.' !in s && '/' !in t && '/' !in u && '/' !in s
    ensures Collection(u + "." + t, [ItemFromString("*." + t)]).Exact?
    ensures Collection(s, [ItemFromString("*." + t)]).No?
  {
    assert "*." + t == "*" + "." + t;
    TwoTokens("*", t, u, t);
    TwoTokens("*", t, s, "");
    OneSegment("*." + t, u + "." + t);
    OneSegment("*." + t, s);
    CollectionExact(u + "." + t, [ItemFromString("*." + t)]);
    CollectionNo(s, [ItemFromString("*." + t)]);
  }

  /** The exclude patterns `b.t` and an output pattern that misses `a.t`:
      `b.t` is excluded exactly, `a.t` not at all. */
  lemma ExcludeOneToken(a: string, b: string, t: string, out: Item)
    requires a != "" && b != "" && b != "*" && a != b
    requires '.' !in a && '.' !in b && '.' !in t && '/' !in a && '/' !in b && '/' !in t
    requires Collection(a + "." + t, [out]).No?
    ensures Collection(b + "." + t, [ItemFromString(b + "." + t), out]).Exact?
    ensures !Collection(a + "." + t, [ItemFromString(b + "." + t), out]).Exact?
  {
    var at, bt := a + "." + t, b + "." + t;
    var excl := [ItemFromString(bt), out];
    TwoTokens(b, t, a, t);
    TwoTokens(b, t, b, t);
    OneSegment(bt, at);
    OneSegment(bt, bt);
    CollectionNo(at, [out]);
    assert Recurse(excl[0], at).No?;
    assert Recurse(excl[1], at).No?;
    CollectionExact(at, excl);
    CollectionExact(bt, excl);
  }

  /** The verdicts of the scenario below, entry by entry. */
  lemma TokenScenarioVisits(a: string, b: string, t: string, s: string, c: string, out: Item, incl: seq<Item>, excl: seq<Item>)
    requires a != "" && b != "" && b != "*" && a != b
    requires '.' !in a && '.' !in b && '.' !in t && '.' !in s
    requires '/' !in a && '/' !in b && '/' !in t && '/' !in s
    requires !Ignored(s)
    requires Collection(a + "." + t, [out]).No?
    requires incl == [ItemFromString("*." + t)] && excl == [ItemFromString(b + "." + t), out]
    ensures Visit(["."], File(a + "." + t), incl, excl) == [Emitted([".", a + "." + t], false)]
    ensures Visit(["."], File(b + "." + t), incl, excl) == []
    ensures Visit(["."], Dir(s, Listed([File(c)])), incl, excl) == []
  {
    DottedNameNotIgnored(a, t);
    StarDotToken(t, a, s);
    StarDotToken(t, b, s);
    ExcludeOneToken(a, b, t, out);
    FileAdmitted(["."], a + "." + t, incl, excl);
    assert [".", a + "." + t] == ["."] + [a + "." + t];
    FileExcluded(["."], b + "." + t, incl, excl);
    DirNotIncluded(["."], s, Listed([File(c)]), incl, excl);
  }

  /** A file that is not ignored, is included exactly and is not excluded
      exactly contributes its own record. */
  lemma FileAdmitted(path: seq<string>, n: string, incl: seq<Item>, excl: seq<Item>)
    requires !Ignored(n) && Collection(n, incl).Exact? && !Collection(n, excl).Exact?
    ensures Visit(path, File(n), incl, excl) == [Emitted(path + [n], false)]
  {
  }

  /** A file excluded exactly contributes nothing. */
  lemma FileExcluded(path: seq<string>, n: string, incl: seq<Item>, excl: seq<Item>)
    requires Collection(n, excl).Exact?
    ensures Visit(path, File(n), incl, excl) == []
  {
  }

  /** A directory that no include pattern matches contributes nothing. */
  lemma DirNotIncluded(path: seq<string>, n: string, sub: Listing, incl: seq<Item>, excl: seq<Item>)
    requires Collection(n, incl).No?
    ensures Visit(path, Dir(n, sub), incl, excl) == []
  {
  }

  /** With the include pattern `*.t` and the exclude pattern `b.t`, only
      `a.t` is archived: `b.t` is excluded, and the directory `s`, whose
      name has no `.t` token, is neither archived nor entered. */
  lemma TokenPatternScenario(a: string, b: string, t: string, s: string, c: string, output: string)
    requires a != "" && b != "" && b != "*" && a != b
    requires '.' !in a && '.' !in b && '.' !in t && '.' !in s
    requires '/' !in a && '/' !in b && '/' !in t && '/' !in s
    requires !Ignored(s)
    requires Collection(a + "." + t, [ItemFromString(output)]).No?
    ensures Render(RunAsWritten(Tree(a + "." + t, b + "." + t, s, c), Args(output, ["*." + t], [b + "." + t]))) ==
      [Record(a + "." + t, false)]
  {
    var at, bt := a + "." + t, b + "." + t;
    var args := Args(output, ["*." + t], [bt]);
    var incl := IncludeItems(args);
    var excl := ExcludeItemsAsWritten(args);
    var out := ItemFromString(output);
    PatternsOfArgs(args);
    var dir := Dir(s, Listed([File(c)]));
    TokenScenarioVisits(a, b, t, s, c, out, incl, excl);
    CrawlOfThree(["."], File(at), File(bt), dir, incl, excl);
    assert RunAsWritten(Tree(at, bt, s, c), args) == [Emitted([".", at], false)];
    StoredName([at]);
    assert [".", at] == ["."] + [at];
    RenderOne(Emitted([".", at], false));
  }

  lemma PatternsOfArgs(args: Args)
    requires |args.inputs| == 1 && |args.excludes| == 1
    ensures IncludeItems(args) == [ItemFromString(args.inputs[0])]
    ensures ExcludeItemsAsWritten(args) == [ItemFromString(args.excludes[0]), ItemFromString(args.output)]
  {
  }

  /** An output path with no `/` is its own pattern. */
  lemma OutputIsPlain(output: string)
    requires '/' !in output && output != "." && output != ""
    ensures OutputPattern(output) == output
  {
    SplitWithoutSep(output, '/');
    assert Named([output]) == [output];
  }
}
