/** What the walker guarantees about the archive it builds: where emitted
    entries lie, which entries are admitted, that excludes only prune, that
    a fully matched directory is included with everything below it, that
    directories come before their contents, how read failures cut a walk
    short, and that the archive never lists itself. */
module CrawlerProperties {
  import opened Strings
  import opened Exclude
  import opened Zipf

  // ---------------------------------------------------------------------
  // Where emitted entries lie

  /** `e` lies strictly below `path`, and none of its components below
      `path` is an ignored name. */
  predicate Below(path: seq<string>, e: Emitted)
  {
    && |e.path| > |path|
    && e.path[..|path|] == path
    && forall k :: |path| <= k < |e.path| ==> !Ignored(e.path[k])
  }

  /** Everything emitted for a directory lies below it, and no emitted entry
      is, or lies inside, an entry named `.git` or `.gitignore`. */
  lemma {:induction false} CrawlBelow(path: seq<string>, listing: Listing, incl: seq<Item>, excl: seq<Item>)
    ensures forall e :: e in Crawl(path, listing, incl, excl) ==> Below(path, e)
    decreases listing, 2
  {
    if listing.Listed? {
      EntriesBelow(path, listing.entries, incl, excl);
    }
  }

  lemma {:induction false} EntriesBelow(path: seq<string>, es: seq<Node>, incl: seq<Item>, excl: seq<Item>)
    ensures forall e :: e in CrawlEntries(path, es, incl, excl) ==> Below(path, e)
    decreases es, 1
  {
    if es != [] && !es[0].Unreadable? {
      VisitBelow(path, es[0], incl, excl);
      EntriesBelow(path, es[1..], incl, excl);
    }
  }

  /** What one entry contributes lies at or below `path + [name]`; the only
      record at that level is the entry's own, of the entry's kind. */
  lemma {:induction false} VisitBelow(path: seq<string>, node: Node, incl: seq<Item>, excl: seq<Item>)
    requires !node.Unreadable?
    ensures forall e :: e in Visit(path, node, incl, excl) ==>
      && Below(path, e)
      && e.path[|path|] == node.name
      && (|e.path| == |path| + 1 ==> e == Emitted(path + [node.name], node.Dir?))
    decreases node, 0
  {
    if !Ignored(node.name) && node.Dir? {
      var inc := Collection(node.name, incl);
      var exc := Collection(node.name, excl);
      if !inc.No? && !exc.Exact? {
        var next := if exc.Partial? then exc.residual else [];
        var p := path + [node.name];
        CrawlBelow(p, node.listing, inc.residual, next);
        forall e | e in Crawl(p, node.listing, inc.residual, next)
          ensures Below(path, e) && e.path[|path|] == node.name && |e.path| > |path| + 1
        {
          assert e.path[..|p|] == p;
          assert e.path[|path|] == e.path[..|p|][|path|];
          assert e.path[..|path|] == e.path[..|p|][..|path|];
        }
      }
    }
  }

  // ---------------------------------------------------------------------
  // Admission at one level

  /** The entries of a listing before its first unreadable entry. */
  function Readable(es: seq<Node>): (r: seq<Node>)
    ensures |r| <= |es| && r == es[..|r|]
    ensures forall k :: 0 <= k < |r| ==> !r[k].Unreadable?
    ensures |r| < |es| ==> es[|r|].Unreadable?
  {
    if es == [] || es[0].Unreadable? then [] else [es[0]] + Readable(es[1..])
  }

  /** A file is emitted exactly when it comes before any unreadable entry,
      its name is not ignored, the include verdict is `Exact` and the
      exclude verdict is not `Exact`: a `Partial` include never admits a
      file and a `Partial` exclude never suppresses one. */
  lemma {:induction false} FileEmittedIff(path: seq<string>, es: seq<Node>, incl: seq<Item>, excl: seq<Item>, n: string)
    ensures Emitted(path + [n], false) in CrawlEntries(path, es, incl, excl) <==>
      && File(n) in Readable(es)
      && !Ignored(n)
      && Collection(n, incl).Exact?
      && !Collection(n, excl).Exact?
  {
    if es != [] && !es[0].Unreadable? {
      FileEmittedIff(path, es[1..], incl, excl, n);
      VisitBelow(path, es[0], incl, excl);
      assert Readable(es) == [es[0]] + Readable(es[1..]);
      if Emitted(path + [n], false) in Visit(path, es[0], incl, excl) {
        assert (path + [n])[|path|] == n;
      }
    }
  }

  /** A directory is emitted exactly when it comes before any unreadable
      entry, its name is not ignored, the include verdict is not `No` and
      the exclude verdict is not `Exact`. */
  lemma {:induction false} DirEmittedIff(path: seq<string>, es: seq<Node>, incl: seq<Item>, excl: seq<Item>, n: string)
    ensures Emitted(path + [n], true) in CrawlEntries(path, es, incl, excl) <==>
      && (exists sub :: Dir(n, sub) in Readable(es))
      && !Ignored(n)
      && !Collection(n, incl).No?
      && !Collection(n, excl).Exact?
  {
    if es != [] && !es[0].Unreadable? {
      DirEmittedIff(path, es[1..], incl, excl, n);
      VisitBelow(path, es[0], incl, excl);
      assert Readable(es) == [es[0]] + Readable(es[1..]);
      if Emitted(path + [n], true) in Visit(path, es[0], incl, excl) {
        assert (path + [n])[|path|] == n;
        assert Dir(n, es[0].listing) in Readable(es);
      }
      if es[0].Dir? && es[0].name == n && !Ignored(n) && !Collection(n, incl).No? && !Collection(n, excl).Exact? {
        assert Emitted(path + [n], true) in Visit(path, es[0], incl, excl);
      }
      if exists sub :: Dir(n, sub) in Readable(es) {
        var sub :| Dir(n, sub) in Readable(es);
        if Dir(n, sub) == es[0] && !Ignored(n) && !Collection(n, incl).No? && !Collection(n, excl).Exact? {
          assert Emitted(path + [n], true) in Visit(path, es[0], incl, excl);
        }
      }
    }
  }

  /** An entry is pruned when its name is ignored, no include pattern
      matches it, or an exclude pattern matches it exactly. */
  predicate Pruned(n: string, incl: seq<Item>, excl: seq<Item>)
  {
    Ignored(n) || Collection(n, incl).No? || Collection(n, excl).Exact?
  }

  /** Nothing at or below a pruned name is emitted: a directory whose include
      verdict is `No`, or whose exclude verdict is `Exact`, is neither
      emitted nor descended into. */
  lemma {:induction false} PrunedNameEmitsNothing(path: seq<string>, es: seq<Node>, incl: seq<Item>, excl: seq<Item>, n: string)
    requires Pruned(n, incl, excl)
    ensures forall e :: e in CrawlEntries(path, es, incl, excl) ==> |e.path| > |path| && e.path[|path|] != n
  {
    if es != [] && !es[0].Unreadable? {
      VisitBelow(path, es[0], incl, excl);
      PrunedNameEmitsNothing(path, es[1..], incl, excl, n);
      if es[0].name == n {
        assert Visit(path, es[0], incl, excl) == [];
      }
    }
  }

  // ---------------------------------------------------------------------
  // Read failures

  /** Whatever follows an unreadable entry in a listing is never looked at. */
  lemma {:induction false} UnreadableAbandonsRest(path: seq<string>, a: seq<Node>, b: seq<Node>, incl: seq<Item>, excl: seq<Item>)
    ensures CrawlEntries(path, a + [Unreadable] + b, incl, excl) == CrawlEntries(path, a, incl, excl)
  {
    if a != [] && !a[0].Unreadable? {
      assert (a + [Unreadable] + b)[1..] == a[1..] + [Unreadable] + b;
      UnreadableAbandonsRest(path, a[1..], b, incl, excl);
    }
  }

  /** Only the readable prefix of a listing matters; walking a directory
      that cannot be listed adds nothing below it. */
  lemma {:induction false} OnlyReadablePrefix(path: seq<string>, es: seq<Node>, incl: seq<Item>, excl: seq<Item>)
    ensures CrawlEntries(path, es, incl, excl) == CrawlEntries(path, Readable(es), incl, excl)
    ensures Crawl(path, ListError, incl, excl) == []
  {
    var r := Readable(es);
    if |r| < |es| {
      assert es == r + [Unreadable] + es[|r| + 1..];
      UnreadableAbandonsRest(path, r, es[|r| + 1..], incl, excl);
    } else {
      assert r == es;
    }
  }

  /** An admitted directory that cannot be listed still gets its own
      record: the record is written before the directory is read. */
  lemma UnlistableDirectoryIsRecorded(path: seq<string>, n: string, incl: seq<Item>, excl: seq<Item>)
    requires !Ignored(n) && !Collection(n, incl).No? && !Collection(n, excl).Exact?
    ensures Visit(path, Dir(n, ListError), incl, excl) == [Emitted(path + [n], true)]
  {
  }

  // ---------------------------------------------------------------------
  // Excludes only prune

  /** On the same tree and include patterns, every entry emitted with some
      exclude patterns is also emitted with none. */
  lemma {:induction false} ExcludesOnlyPrune(path: seq<string>, listing: Listing, incl: seq<Item>, excl: seq<Item>)
    ensures forall e :: e in Crawl(path, listing, incl, excl) ==> e in Crawl(path, listing, incl, [])
    decreases listing, 2
  {
    if listing.Listed? {
      EntriesPrune(path, listing.entries, incl, excl);
    }
  }

  lemma {:induction false} EntriesPrune(path: seq<string>, es: seq<Node>, incl: seq<Item>, excl: seq<Item>)
    ensures forall e :: e in CrawlEntries(path, es, incl, excl) ==> e in CrawlEntries(path, es, incl, [])
    decreases es, 1
  {
    if es != [] && !es[0].Unreadable? {
      VisitPrune(path, es[0], incl, excl);
      EntriesPrune(path, es[1..], incl, excl);
    }
  }

  lemma {:induction false} VisitPrune(path: seq<string>, node: Node, incl: seq<Item>, excl: seq<Item>)
    requires !node.Unreadable?
    ensures forall e :: e in Visit(path, node, incl, excl) ==> e in Visit(path, node, incl, [])
    decreases node, 0
  {
    if !Ignored(node.name) {
      var n := node.name;
      CollectionNo(n, []);
      var inc := Collection(n, incl);
      var exc := Collection(n, excl);
      if node.Dir? && !inc.No? && !exc.Exact? {
        var next := if exc.Partial? then exc.residual else [];
        ExcludesOnlyPrune(path + [n], node.listing, inc.residual, next);
        assert Visit(path, node, incl, []) == [Emitted(path + [n], true)] + Crawl(path + [n], node.listing, inc.residual, []);
      }
    }
  }

  // ---------------------------------------------------------------------
  // Folders are included recursively

  /** Every entry of a tree in pre-order, skipping ignored names and
      honouring read failures: what "include everything" means. */
  function Everything(path: seq<string>, listing: Listing): seq<Emitted>
    decreases listing, 2
  {
    match listing
    case ListError => []
    case Listed(es) => EverythingEntries(path, es)
  }

  function EverythingEntries(path: seq<string>, es: seq<Node>): seq<Emitted>
    decreases es, 1
  {
    if es == [] || es[0].Unreadable? then []
    else EverythingNode(path, es[0]) + EverythingEntries(path, es[1..])
  }

  function EverythingNode(path: seq<string>, node: Node): seq<Emitted>
    requires !node.Unreadable?
    decreases node, 0
  {
    if Ignored(node.name) then []
    else match node
      case File(n) => [Emitted(path + [n], false)]
      case Dir(n, sub) => [Emitted(path + [n], true)] + Everything(path + [n], sub)
  }

  /** With the wildcard pattern among the include patterns and no exclude
      patterns, the walk emits the whole tree. */
  lemma {:induction false} WildcardIncludesEverything(path: seq<string>, listing: Listing, incl: seq<Item>)
    requires WILDCARD in incl
    ensures Crawl(path, listing, incl, []) == Everything(path, listing)
    decreases listing, 2
  {
    if listing.Listed? {
      WildcardIncludesEntries(path, listing.entries, incl);
    }
  }

  lemma {:induction false} WildcardIncludesEntries(path: seq<string>, es: seq<Node>, incl: seq<Item>)
    requires WILDCARD in incl
    ensures CrawlEntries(path, es, incl, []) == EverythingEntries(path, es)
    decreases es, 1
  {
    if es != [] && !es[0].Unreadable? {
      WildcardIncludesNode(path, es[0], incl);
      WildcardIncludesEntries(path, es[1..], incl);
    }
  }

  lemma {:induction false} WildcardIncludesNode(path: seq<string>, node: Node, incl: seq<Item>)
    requires WILDCARD in incl
    requires !node.Unreadable?
    ensures Visit(path, node, incl, []) == EverythingNode(path, node)
    decreases node, 0
  {
    if !Ignored(node.name) {
      var n := node.name;
      WildcardAbsorbs(n, incl);
      CollectionNo(n, []);
      if node.Dir? {
        ExactCarriesWildcard(n, incl);
        WildcardIncludesEverything(path + [n], node.listing, Collection(n, incl).residual);
      }
    }
  }

  /** A directory whose include verdict is `Exact` and to which no exclude
      pattern applies goes into the archive with every entry below it
      except `.git` and `.gitignore`. */
  lemma ExactDirectoryIncludesAll(path: seq<string>, n: string, sub: Listing, incl: seq<Item>, excl: seq<Item>)
    requires !Ignored(n)
    requires Collection(n, incl).Exact? && Collection(n, excl).No?
    ensures Visit(path, Dir(n, sub), incl, excl) == [Emitted(path + [n], true)] + Everything(path + [n], sub)
  {
    ExactCarriesWildcard(n, incl);
    WildcardIncludesEverything(path + [n], sub, Collection(n, incl).residual);
  }

  // ---------------------------------------------------------------------
  // Pre-order

  /** Every emitted entry more than one level below `path` is preceded by
      the record of its parent directory. */
  predicate ParentsFirst(path: seq<string>, r: seq<Emitted>)
  {
    forall j :: 0 <= j < |r| && |r[j].path| > |path| + 1 ==>
      exists i :: 0 <= i < j && r[i] == Emitted(r[j].path[..|r[j].path| - 1], true)
  }

  lemma ParentsFirstAppend(path: seq<string>, a: seq<Emitted>, b: seq<Emitted>)
    requires ParentsFirst(path, a) && ParentsFirst(path, b)
    ensures ParentsFirst(path, a + b)
  {
    var r := a + b;
    forall j | 0 <= j < |r| && |r[j].path| > |path| + 1
      ensures exists i :: 0 <= i < j && r[i] == Emitted(r[j].path[..|r[j].path| - 1], true)
    {
      if j < |a| {
        assert r[j] == a[j];
        var i :| 0 <= i < j && a[i] == Emitted(a[j].path[..|a[j].path| - 1], true);
        assert r[i] == a[i];
      } else {
        var jb := j - |a|;
        assert r[j] == b[jb];
        var i :| 0 <= i < jb && b[i] == Emitted(b[jb].path[..|b[jb].path| - 1], true);
        assert r[i + |a|] == b[i];
      }
    }
  }

  /** The walk is pre-order: a directory's record precedes everything
      emitted below it. */
  lemma {:induction false} CrawlPreOrder(path: seq<string>, listing: Listing, incl: seq<Item>, excl: seq<Item>)
    ensures ParentsFirst(path, Crawl(path, listing, incl, excl))
    decreases listing, 2
  {
    if listing.Listed? {
      EntriesPreOrder(path, listing.entries, incl, excl);
    }
  }

  lemma {:induction false} EntriesPreOrder(path: seq<string>, es: seq<Node>, incl: seq<Item>, excl: seq<Item>)
    ensures ParentsFirst(path, CrawlEntries(path, es, incl, excl))
    decreases es, 1
  {
    if es != [] && !es[0].Unreadable? {
      VisitPreOrder(path, es[0], incl, excl);
      EntriesPreOrder(path, es[1..], incl, excl);
      ParentsFirstAppend(path, Visit(path, es[0], incl, excl), CrawlEntries(path, es[1..], incl, excl));
    }
  }

  lemma {:induction false} VisitPreOrder(path: seq<string>, node: Node, incl: seq<Item>, excl: seq<Item>)
    requires !node.Unreadable?
    ensures ParentsFirst(path, Visit(path, node, incl, excl))
    decreases node, 0
  {
    if !Ignored(node.name) && node.Dir? {
      var n := node.name;
      var inc := Collection(n, incl);
      var exc := Collection(n, excl);
      if !inc.No? && !exc.Exact? {
        var next := if exc.Partial? then exc.residual else [];
        CrawlPreOrder(path + [n], node.listing, inc.residual, next);
        CrawlBelow(path + [n], node.listing, inc.residual, next);
        ParentsFirstUnderDir(path, n, Crawl(path + [n], node.listing, inc.residual, next));
      }
    }
  }

  /** A directory's record followed by entries below it, themselves in
      pre-order, is in pre-order. */
  lemma ParentsFirstUnderDir(path: seq<string>, n: string, below: seq<Emitted>)
    requires ParentsFirst(path + [n], below)
    requires forall e :: e in below ==> Below(path + [n], e)
    ensures ParentsFirst(path, [Emitted(path + [n], true)] + below)
  {
    var p := path + [n];
    var r := [Emitted(p, true)] + below;
    forall j | 0 <= j < |r| && |r[j].path| > |path| + 1
      ensures exists i :: 0 <= i < j && r[i] == Emitted(r[j].path[..|r[j].path| - 1], true)
    {
      assert j >= 1 && r[j] == below[j - 1];
      assert below[j - 1] in below;
      ParentUnderDir(p, below, j);
    }
  }

  /** Entry `j` of a directory's record followed by entries below it has
      its parent earlier: the directory's record itself, or the parent it
      has among the entries below. */
  lemma ParentUnderDir(p: seq<string>, below: seq<Emitted>, j: nat)
    requires 1 <= j <= |below|
    requires |below[j - 1].path| > |p| && below[j - 1].path[..|p|] == p
    requires |below[j - 1].path| > |p| + 1 ==>
      (exists i :: 0 <= i < j - 1 && below[i] == Emitted(below[j - 1].path[..|below[j - 1].path| - 1], true))
    ensures exists i :: 0 <= i < j && ([Emitted(p, true)] + below)[i] == Emitted(below[j - 1].path[..|below[j - 1].path| - 1], true)
  {
    var r := [Emitted(p, true)] + below;
    var e := below[j - 1];
    if |e.path| > |p| + 1 {
      var i :| 0 <= i < j - 1 && below[i] == Emitted(e.path[..|e.path| - 1], true);
      assert r[i + 1] == below[i];
    } else {
      assert e.path[..|e.path| - 1] == p;
      assert r[0] == Emitted(p, true);
    }
  }

  // ---------------------------------------------------------------------
  // The archive never includes itself

  /** `e` is the entry at `path + P` or lies below it. */
  predicate AtOrBelow(path: seq<string>, P: seq<string>, e: Emitted)
  {
    |e.path| >= |path| + |P| && e.path[|path|..|path| + |P|] == P
  }

  /** With the pattern of a path `P` among the exclude patterns, no entry at
      or below `path + P` is emitted, whatever the include patterns. */
  lemma {:induction false} PatternExcludesItsPath(path: seq<string>, listing: Listing, incl: seq<Item>, excl: seq<Item>, P: seq<string>)
    requires |P| >= 1 && forall k :: 0 <= k < |P| ==> '/' !in P[k]
    requires ItemFromString(Join(P, '/')) in excl
    ensures forall e :: e in Crawl(path, listing, incl, excl) ==> !AtOrBelow(path, P, e)
    decreases listing, 2
  {
    if listing.Listed? {
      PatternExcludesItsPathEntries(path, listing.entries, incl, excl, P);
    }
  }

  lemma {:induction false} PatternExcludesItsPathEntries(path: seq<string>, es: seq<Node>, incl: seq<Item>, excl: seq<Item>, P: seq<string>)
    requires |P| >= 1 && forall k :: 0 <= k < |P| ==> '/' !in P[k]
    requires ItemFromString(Join(P, '/')) in excl
    ensures forall e :: e in CrawlEntries(path, es, incl, excl) ==> !AtOrBelow(path, P, e)
    decreases es, 1
  {
    if es != [] && !es[0].Unreadable? {
      PatternExcludesItsPathNode(path, es[0], incl, excl, P);
      PatternExcludesItsPathEntries(path, es[1..], incl, excl, P);
    }
  }

  lemma {:induction false} PatternExcludesItsPathNode(path: seq<string>, node: Node, incl: seq<Item>, excl: seq<Item>, P: seq<string>)
    requires !node.Unreadable?
    requires |P| >= 1 && forall k :: 0 <= k < |P| ==> '/' !in P[k]
    requires ItemFromString(Join(P, '/')) in excl
    ensures forall e :: e in Visit(path, node, incl, excl) ==> !AtOrBelow(path, P, e)
    decreases node, 0
  {
    VisitBelow(path, node, incl, excl);
    var n := node.name;
    if n != P[0] {
      forall e | e in Visit(path, node, incl, excl)
        ensures !AtOrBelow(path, P, e)
      {
        AtOrBelowHead(path, P, e);
      }
    } else if !Ignored(n) {
      var i :| 0 <= i < |excl| && excl[i] == ItemFromString(Join(P, '/'));
      PatternFollowsItsPath(P, excl, i);
      if |P| > 1 {
        var inc := Collection(n, incl);
        var exc := Collection(n, excl);
        if node.Dir? && !inc.No? && exc.Partial? {
          var p := path + [n];
          forall k | 0 <= k < |P[1..]| ensures '/' !in P[1..][k] { assert P[1..][k] == P[k + 1]; }
          PatternExcludesItsPath(p, node.listing, inc.residual, exc.residual, P[1..]);
          forall e | e in Crawl(p, node.listing, inc.residual, exc.residual)
            ensures !AtOrBelow(path, P, e)
          {
            AtOrBelowTail(path, n, P, e);
          }
        }
      }
    }
  }

  /** An entry at or below `path + P` has `P[0]` as its component below
      `path`. */
  lemma AtOrBelowHead(path: seq<string>, P: seq<string>, e: Emitted)
    requires |P| >= 1
    ensures AtOrBelow(path, P, e) ==> e.path[|path|] == P[0]
  {
    if AtOrBelow(path, P, e) {
      assert e.path[|path|..|path| + |P|][0] == e.path[|path|];
    }
  }

  /** An entry at or below `path + P` is at or below `(path + [P[0]]) + P[1..]`. */
  lemma AtOrBelowTail(path: seq<string>, n: string, P: seq<string>, e: Emitted)
    requires |P| >= 1
    ensures AtOrBelow(path, P, e) ==> AtOrBelow(path + [n], P[1..], e)
  {
    var p := path + [n];
    if AtOrBelow(path, P, e) {
      assert e.path[|path|..|path| + |P|][1..] == e.path[|p|..|p| + |P[1..]|];
    }
  }

  /** An exclude set that matches no name of a listing acts like none: below
      the top level the walker drops it anyway. */
  lemma {:induction false} UnmatchedExcludesAreInert(path: seq<string>, es: seq<Node>, incl: seq<Item>, excl: seq<Item>)
    requires forall k :: 0 <= k < |es| && !es[k].Unreadable? ==> Collection(es[k].name, excl).No?
    ensures CrawlEntries(path, es, incl, excl) == CrawlEntries(path, es, incl, [])
  {
    if es != [] && !es[0].Unreadable? {
      CollectionNo(es[0].name, []);
      assert Visit(path, es[0], incl, excl) == Visit(path, es[0], incl, []);
      UnmatchedExcludesAreInert(path, es[1..], incl, excl);
    }
  }

  // ---------------------------------------------------------------------
  // Stored names

  lemma {:induction false} WithoutCurDirKeepsNames(q: seq<string>)
    requires forall k :: 0 <= k < |q| ==> q[k] != "."
    ensures WithoutCurDir(q) == q
  {
    if q != [] {
      WithoutCurDirKeepsNames(q[1..]);
      assert [q[0]] + q[1..] == q;
    }
  }

  /** Dropping `.` components distributes over concatenation: every other
      component is kept, in order. */
  lemma {:induction false} WithoutCurDirAppend(a: seq<string>, b: seq<string>)
    ensures WithoutCurDir(a + b) == WithoutCurDir(a) + WithoutCurDir(b)
  {
    if a != [] {
      assert (a + b)[0] == a[0] && (a + b)[1..] == a[1..] + b;
      WithoutCurDirAppend(a[1..], b);
    } else {
      assert a + b == b;
    }
  }

  /** An entry at `./q` is stored under the components of `q` joined with
      `/`, and that name splits back into `q`. */
  lemma StoredName(q: seq<string>)
    requires q != []
    requires forall k :: 0 <= k < |q| ==> q[k] != "." && '/' !in q[k]
    ensures FileName(["."] + q) == Join(q, '/')
    ensures Split(FileName(["."] + q), '/') == q
  {
    var path := ["."] + q;
    assert path[0] == "." && path[1..] == q;
    WithoutCurDirKeepsNames(q);
    assert WithoutCurDir(path) == q;
    SplitJoin(q, '/');
  }

  // ---------------------------------------------------------------------
  // The program's entry point

  /** Parsing a concatenation of pattern lists parses each list in turn. */
  lemma ItemsAppend(a: seq<string>, b: seq<string>)
    ensures Items(a + b) == Items(a) + Items(b)
  {
    assert |Items(a + b)| == |Items(a) + Items(b)|;
    forall i | 0 <= i < |a + b| ensures Items(a + b)[i] == (Items(a) + Items(b))[i] {
      if i >= |a| {
        assert (a + b)[i] == b[i - |a|];
      }
    }
  }

  /** The exclude list the program builds is the user's patterns, parsed
      in order, followed by the output path parsed verbatim; the corrected
      list differs only in that last pattern. */
  lemma ExcludeListShape(args: Args)
    ensures Items(args.excludes) + [ItemFromString(args.output)] == ExcludeItemsAsWritten(args)
    ensures Items(args.excludes) + [ItemFromString(OutputPattern(args.output))] == ExcludeItemsCorrected(args)
  {
    ItemsAppend(args.excludes, [args.output]);
    ItemsAppend(args.excludes, [OutputPattern(args.output)]);
  }

  /** With the corrected exclude patterns the archive never contains its own
      output path: no emitted entry sits at, or below, the named components
      of the output under `.`. */
  lemma ArchiveExcludesItself(root: Listing, args: Args)
    requires OutputParts(args.output) != []
    ensures forall e :: e in RunCorrected(root, args) ==> !AtOrBelow(["."], OutputParts(args.output), e)
  {
    var P := OutputParts(args.output);
    var parts := Split(args.output, '/');
    forall k | 0 <= k < |P| ensures '/' !in P[k] {
      var j :| 0 <= j < |parts| && parts[j] == P[k];
    }
    var patterns := args.excludes + [OutputPattern(args.output)];
    assert patterns[|args.excludes|] == Join(P, '/');
    assert ExcludeItemsCorrected(args)[|args.excludes|] == ItemFromString(Join(P, '/'));
    PatternExcludesItsPath(["."], root, IncludeItems(args), ExcludeItemsCorrected(args), P);
  }

  /** Dropping `.` and empty components distributes over concatenation:
      every other component is kept, in order. */
  lemma {:induction false} NamedAppend(a: seq<string>, b: seq<string>)
    ensures Named(a + b) == Named(a) + Named(b)
  {
    if a != [] {
      assert (a + b)[0] == a[0] && (a + b)[1..] == a[1..] + b;
      NamedAppend(a[1..], b);
    } else {
      assert a + b == b;
    }
  }

  lemma {:induction false} NamedKeepsNames(parts: seq<string>)
    requires forall k :: 0 <= k < |parts| ==> parts[k] != "." && parts[k] != ""
    ensures Named(parts) == parts
  {
    if parts != [] {
      NamedKeepsNames(parts[1..]);
      assert [parts[0]] + parts[1..] == parts;
    }
  }

  /** For an output path with no `.` component and no empty component the
      corrected exclude set is the one the program builds. */
  lemma CorrectionAgreesOnPlainOutput(args: Args)
    requires forall k :: 0 <= k < |Split(args.output, '/')| ==>
      Split(args.output, '/')[k] != "." && Split(args.output, '/')[k] != ""
    ensures ExcludeItemsCorrected(args) == ExcludeItemsAsWritten(args)
  {
    NamedKeepsNames(Split(args.output, '/'));
    JoinSplit(args.output, '/');
    assert OutputPattern(args.output) == args.output;
  }

  /** The program as written excludes its own archive when the output path
      has no `.` and no empty component: nothing at or below that path
      under `.` is emitted. */
  lemma PlainOutputExcludesItself(root: Listing, args: Args)
    requires forall k :: 0 <= k < |Split(args.output, '/')| ==>
      Split(args.output, '/')[k] != "." && Split(args.output, '/')[k] != ""
    ensures forall e :: e in RunAsWritten(root, args) ==> !AtOrBelow(["."], Split(args.output, '/'), e)
  {
    NamedKeepsNames(Split(args.output, '/'));
    assert OutputParts(args.output) == Split(args.output, '/');
    CorrectionAgreesOnPlainOutput(args);
    ArchiveExcludesItself(root, args);
  }

  /** A listing holding one file contributes what that file's visit does. */
  lemma SingleFileListing(path: seq<string>, n: string, incl: seq<Item>, excl: seq<Item>)
    ensures Crawl(path, Listed([File(n)]), incl, excl) == Visit(path, File(n), incl, excl)
  {
    var es := [File(n)];
    assert es[1..] == [];
    assert CrawlEntries(path, es, incl, excl) == Visit(path, es[0], incl, excl) + CrawlEntries(path, [], incl, excl);
  }

  /** `./n` splits into `.` and `n`; parsed, its head is a wildcard segment,
      so it matches every name, and only partially. */
  lemma DotSlashPatternIsPartial(n: string, m: string)
    requires '/' !in n
    ensures Split("./" + n, '/') == [".", n]
    ensures Recurse(ItemFromString("./" + n), m).Partial?
  {
    SplitWithoutSep(n, '/');
    SplitAfterPiece(".", '/', n);
    assert "./" + n == "." + ['/'] + n;
    RecurseOnText("./" + n, m);
  }

  /** The program as written, given an output path `./n` (such as
      `./out.zip`) and the include pattern `*`, puts the archive file `n`
      itself into the archive: the leading `.` parses to a wildcard
      segment, so the pattern matches `n` only one level down. */
  lemma DotSlashOutputIncludesItself(n: string)
    requires '/' !in n && !Ignored(n)
    ensures RunAsWritten(Listed([File(n)]), Args("./" + n, ["*"], [])) == [Emitted([".", n], false)]
  {
    var args := Args("./" + n, ["*"], []);
    var incl := IncludeItems(args);
    var excl := ExcludeItemsAsWritten(args);
    WildcardPatterns();
    assert incl == [WILDCARD];
    WildcardAbsorbs(n, incl);
    DotSlashPatternIsPartial(n, n);
    assert excl == [ItemFromString("./" + n)];
    CollectionExact(n, excl);
    assert !Collection(n, excl).Exact?;
    assert ["."] + [n] == [".", n];
    assert Visit(["."], File(n), incl, excl) == [Emitted([".", n], false)];
    SingleFileListing(["."], n, incl, excl);
  }

  /** The named components of the output path `./n` are just `n`. */
  lemma DotSlashOutputParts(n: string)
    requires '/' !in n && n != "" && n != "."
    ensures OutputParts("./" + n) == [n]
  {
    DotSlashPatternIsPartial(n, n);
    assert Split("./" + n, '/')[1..] == [n] && [n][1..] == [];
    assert Named([n]) == [n];
  }

  /** A file contributes either nothing or its own record. */
  lemma FileVisitShape(path: seq<string>, n: string, incl: seq<Item>, excl: seq<Item>)
    ensures Visit(path, File(n), incl, excl) == [] || Visit(path, File(n), incl, excl) == [Emitted(path + [n], false)]
  {
  }

  /** With the corrected exclude set the same run leaves `n` out. */
  lemma DotSlashOutputExcludedWhenCorrected(n: string)
    requires '/' !in n && n != "" && n != "."
    ensures RunCorrected(Listed([File(n)]), Args("./" + n, ["*"], [])) == []
  {
    var root := Listed([File(n)]);
    var args := Args("./" + n, ["*"], []);
    var v := Visit(["."], File(n), IncludeItems(args), ExcludeItemsCorrected(args));
    SingleFileListing(["."], n, IncludeItems(args), ExcludeItemsCorrected(args));
    DotSlashOutputParts(n);
    ArchiveExcludesItself(root, args);
    FileVisitShape(["."], n, IncludeItems(args), ExcludeItemsCorrected(args));
    assert ["."] + [n] == [".", n];
    assert AtOrBelow(["."], [n], Emitted([".", n], false));
  }
}
