/** Include/exclude path patterns: parsing a pattern string into segments
    and dot-separated tokens, matching the head segment of one pattern
    against an entry name, and folding that over a list of patterns. */
module Exclude {
  import opened Strings

  /** One `.`-separated token of a segment. */
  datatype PathComponent = Wildcard | Str(literal: string)

  function PathComponentFromString(s: string): PathComponent
  {
    if s == "*" then PathComponent.Wildcard else Str(s)
  }

  predicate PathComponentMatches(c: PathComponent, f: string)
  {
    match c
    case Wildcard => true
    case Str(s) => f == s
  }

  /** One `/`-separated segment of a pattern. */
  datatype Component = Wildcard | Path(components: seq<PathComponent>)

  predicate IsWildcardSegment(s: string)
  {
    s == "*" || s == "." || s == ""
  }

  function ComponentFromString(s: string): Component
  {
    if IsWildcardSegment(s) then Component.Wildcard
    else
      var parts := Split(s, '.');
      Path(seq(|parts|, i requires 0 <= i < |parts| => PathComponentFromString(parts[i])))
  }

  /** `zip(..).all(..)`: pairwise agreement over the shorter of the two. */
  predicate ZipAll(fs: seq<string>, pcs: seq<PathComponent>)
  {
    if fs == [] || pcs == [] then true
    else PathComponentMatches(pcs[0], fs[0]) && ZipAll(fs[1..], pcs[1..])
  }

  predicate ComponentMatches(c: Component, file: string)
  {
    match c
    case Wildcard => true
    case Path(pcs) =>
      if CountChar(file, '.') + 1 != |pcs| then false
      else ZipAll(Split(file, '.'), pcs)
  }

  /** A pattern: never empty. */
  type Item = path: seq<Component> | |path| > 0 witness [Component.Wildcard]

  /** The one-segment pattern that matches every name. */
  const WILDCARD: Item := [Component.Wildcard]

  function ItemFromString(s: string): (item: Item)
    ensures |item| == CountChar(s, '/') + 1
  {
    var parts := Split(s, '/');
    seq(|parts|, i requires 0 <= i < |parts| => ComponentFromString(parts[i]))
  }

  /** The pattern without its head segment. */
  function Slice(item: Item): Item
    requires |item| > 1
  {
    item[1..]
  }

  datatype Matches = Exact | Partial(rest: Item) | No

  /** Match the head segment of `item` against the last `/`-piece of `file`. */
  function Recurse(item: Item, file: string): Matches
  {
    var name := Last(file, '/');
    if ComponentMatches(item[0], name) then
      if |item| == 1 then Matches.Exact else Matches.Partial(Slice(item))
    else Matches.No
  }

  datatype CollectionMatches = Exact(residual: seq<Item>) | Partial(residual: seq<Item>) | No

  /** What one pattern's verdict adds to the residual list. */
  function Contribution(m: Matches): seq<Item>
  {
    match m
    case Exact => [WILDCARD]
    case Partial(p) => [p]
    case No => []
  }

  /** The residual list accumulated over `items`, in input order. */
  function Residuals(file: string, items: seq<Item>): seq<Item>
  {
    if items == [] then []
    else Residuals(file, items[..|items| - 1]) + Contribution(Recurse(items[|items| - 1], file))
  }

  predicate AnyExact(file: string, items: seq<Item>)
  {
    exists i :: 0 <= i < |items| && Recurse(items[i], file) == Matches.Exact
  }

  /** The collection verdict, as a function of the patterns and the name. */
  function Collection(file: string, items: seq<Item>): CollectionMatches
  {
    var acc := Residuals(file, items);
    if acc == [] then CollectionMatches.No
    else if AnyExact(file, items) then CollectionMatches.Exact(acc)
    else CollectionMatches.Partial(acc)
  }

  /** The loop that computes the collection verdict, with its mutable flag
      and accumulator. */
  method RecurseCollection(file: string, items: seq<Item>) returns (r: CollectionMatches)
    ensures r == Collection(file, items)
  {
    var exact := false;
    var acc: seq<Item> := [];
    for i := 0 to |items|
      invariant exact == AnyExact(file, items[..i])
      invariant acc == Residuals(file, items[..i])
    {
      assert items[..i + 1][..i] == items[..i];
      match Recurse(items[i], file)
      case Exact =>
        exact := true;
        acc := acc + [WILDCARD];
      case Partial(p) =>
        acc := acc + [p];
      case No =>
    }
    assert items[..|items|] == items;
    if acc == [] {
      r := CollectionMatches.No;
    } else if exact {
      r := CollectionMatches.Exact(acc);
    } else {
      r := CollectionMatches.Partial(acc);
    }
  }

  // ---------------------------------------------------------------------
  // Parsing

  /** A segment is the wildcard segment exactly when its text is `*`, `.`
      or empty; otherwise it has one token per `.`-piece, each the wildcard
      token when the piece is `*` and the literal piece otherwise. */
  lemma ComponentParse(s: string)
    ensures ComponentFromString(s).Wildcard? <==> IsWildcardSegment(s)
    ensures ComponentFromString(s).Path? ==>
      var pcs := ComponentFromString(s).components;
      var parts := Split(s, '.');
      && |pcs| == CountChar(s, '.') + 1
      && forall i :: 0 <= i < |pcs| ==>
           (pcs[i].Wildcard? <==> parts[i] == "*") &&
           (pcs[i].Str? ==> pcs[i].literal == parts[i])
  {
  }

  /** A pattern has one segment per `/`-piece of its text, each parsed on
      its own, and joining the pieces back gives the text. */
  lemma ItemParse(s: string)
    ensures |ItemFromString(s)| == |Split(s, '/')| == CountChar(s, '/') + 1
    ensures forall i :: 0 <= i < |ItemFromString(s)| ==>
      ItemFromString(s)[i] == ComponentFromString(Split(s, '/')[i])
    ensures Join(Split(s, '/'), '/') == s
  {
    JoinSplit(s, '/');
  }

  // ---------------------------------------------------------------------
  // Matching one segment

  /** A wildcard token matches every string, a literal only itself. */
  lemma TokenMatches(t: string, f: string)
    ensures PathComponentMatches(PathComponentFromString(t), f) <==> (t == "*" || t == f)
  {
  }

  /** `zip(..).all(..)` over sequences of equal length is pairwise agreement. */
  lemma {:induction false} ZipAllPairwise(fs: seq<string>, pcs: seq<PathComponent>)
    requires |fs| == |pcs|
    ensures ZipAll(fs, pcs) <==> forall i :: 0 <= i < |fs| ==> PathComponentMatches(pcs[i], fs[i])
  {
    if fs != [] {
      ZipAllPairwise(fs[1..], pcs[1..]);
      if ZipAll(fs, pcs) {
        forall i | 0 <= i < |fs| ensures PathComponentMatches(pcs[i], fs[i]) {
          if i > 0 { assert fs[1..][i - 1] == fs[i] && pcs[1..][i - 1] == pcs[i]; }
        }
      }
      if forall i :: 0 <= i < |fs| ==> PathComponentMatches(pcs[i], fs[i]) {
        forall i | 0 <= i < |fs| - 1 ensures PathComponentMatches(pcs[1..][i], fs[1..][i]) {
          assert PathComponentMatches(pcs[i + 1], fs[i + 1]);
        }
      }
    }
  }

  /** A tokenized segment with N tokens matches a name only when the name has
      exactly N `.`-pieces and every piece agrees with its token. */
  lemma ComponentMatchesPairwise(pcs: seq<PathComponent>, file: string)
    ensures ComponentMatches(Path(pcs), file) <==>
      var fs := Split(file, '.');
      |fs| == |pcs| && forall i :: 0 <= i < |fs| ==> PathComponentMatches(pcs[i], fs[i])
  {
    var fs := Split(file, '.');
    if |fs| == |pcs| {
      ZipAllPairwise(fs, pcs);
    }
  }

  /** Glob semantics of one segment stated on the texts alone: the segment
      matches the name exactly when it is a wildcard segment, or it has as
      many `.`-pieces as the name and each of its pieces is `*` or equal to
      the name's piece. */
  predicate SegmentGlob(p: string, f: string)
  {
    var ps := Split(p, '.');
    var fs := Split(f, '.');
    IsWildcardSegment(p) ||
    (|ps| == |fs| && forall i :: 0 <= i < |ps| ==> ps[i] == "*" || ps[i] == fs[i])
  }

  lemma SegmentMatchesGlob(p: string, f: string)
    ensures ComponentMatches(ComponentFromString(p), f) <==> SegmentGlob(p, f)
  {
    if !IsWildcardSegment(p) {
      var ps := Split(p, '.');
      var pcs := ComponentFromString(p).components;
      ComponentMatchesPairwise(pcs, f);
      forall i | 0 <= i < |ps| && i < |Split(f, '.')|
        ensures PathComponentMatches(pcs[i], Split(f, '.')[i]) <==> (ps[i] == "*" || ps[i] == Split(f, '.')[i])
      {
        TokenMatches(ps[i], Split(f, '.')[i]);
      }
    }
  }

  /** Every segment matches its own text. */
  lemma SegmentMatchesItself(p: string)
    ensures ComponentMatches(ComponentFromString(p), p)
  {
    SegmentMatchesGlob(p, p);
  }

  /** `a.b` does not match `a.b.c`: the number of pieces must agree. */
  lemma DotCountExample()
    ensures !ComponentMatches(ComponentFromString("a.b"), "a.b.c")
  {
    SplitTwo("a", "b");
    SplitTwo("b", "c");
    SplitAfterPiece("a", '.', "b.c");
    assert "a" + ['.'] + "b.c" == "a.b.c";
    SegmentMatchesGlob("a.b", "a.b.c");
  }

  /** `a.*` matches `a.txt` but not `a`. */
  lemma WildcardTokenExample()
    ensures ComponentMatches(ComponentFromString("a.*"), "a.txt")
    ensures !ComponentMatches(ComponentFromString("a.*"), "a")
  {
    SplitTwo("a", "*");
    SplitTwo("a", "txt");
    SplitWithoutSep("a", '.');
    SegmentMatchesGlob("a.*", "a.txt");
    SegmentMatchesGlob("a.*", "a");
  }

  // ---------------------------------------------------------------------
  // Matching one pattern

  /** The verdict depends only on the part of the name after its last `/`. */
  lemma RecurseUsesLastPiece(item: Item, file: string)
    ensures Recurse(item, file) == Recurse(item, Last(file, '/'))
  {
    LastPiece(file, '/');
  }

  /** The verdict of a parsed pattern, stated on its text: the head `/`-piece
      must match the name; a one-piece pattern is then `Exact`, a longer one
      is `Partial` with the parse of the text after the first `/`, one
      segment shorter. */
  lemma RecurseOnText(s: string, file: string)
    ensures var parts := Split(s, '/');
      var m := Recurse(ItemFromString(s), file);
      && (m.No? <==> !SegmentGlob(parts[0], Last(file, '/')))
      && (m == Matches.Exact <==> SegmentGlob(parts[0], Last(file, '/')) && |parts| == 1)
      && (m.Partial? ==>
            |parts| > 1 && |m.rest| == |parts| - 1 &&
            m.rest == ItemFromString(Join(parts[1..], '/')))
  {
    var parts := Split(s, '/');
    var item := ItemFromString(s);
    SegmentMatchesGlob(parts[0], Last(file, '/'));
    if |parts| > 1 {
      SplitJoin(parts[1..], '/');
      var tail := ItemFromString(Join(parts[1..], '/'));
      assert |tail| == |parts| - 1;
      assert forall i :: 0 <= i < |tail| ==> tail[i] == item[1..][i];
      assert tail == item[1..];
    }
  }

  // ---------------------------------------------------------------------
  // Matching a collection

  lemma {:induction false} ResidualsEmpty(file: string, items: seq<Item>)
    ensures Residuals(file, items) == [] <==>
      forall i :: 0 <= i < |items| ==> Recurse(items[i], file).No?
  {
    if items != [] {
      var init := items[..|items| - 1];
      ResidualsEmpty(file, init);
      assert forall i :: 0 <= i < |init| ==> init[i] == items[i];
    }
  }

  lemma {:induction false} ExactContributes(file: string, items: seq<Item>, i: nat)
    requires i < |items| && Recurse(items[i], file) == Matches.Exact
    ensures WILDCARD in Residuals(file, items)
  {
    var init := items[..|items| - 1];
    if i < |items| - 1 {
      assert init[i] == items[i];
      ExactContributes(file, init, i);
    }
  }

  lemma {:induction false} PartialContributes(file: string, items: seq<Item>, i: nat)
    requires i < |items| && Recurse(items[i], file).Partial?
    ensures Recurse(items[i], file).rest in Residuals(file, items)
  {
    var init := items[..|items| - 1];
    if i < |items| - 1 {
      assert init[i] == items[i];
      PartialContributes(file, init, i);
    }
  }

  /** `No` exactly when every pattern says `No`; the empty list is `No`. */
  lemma CollectionNo(file: string, items: seq<Item>)
    ensures Collection(file, items).No? <==>
      forall i :: 0 <= i < |items| ==> Recurse(items[i], file).No?
    ensures Collection(file, []).No?
  {
    ResidualsEmpty(file, items);
    if !Collection(file, items).No? && AnyExact(file, items) {
      var i :| 0 <= i < |items| && Recurse(items[i], file) == Matches.Exact;
    }
  }

  /** `Exact` exactly when some pattern says `Exact`; `Partial` when some
      pattern matches but none exactly. */
  lemma CollectionExact(file: string, items: seq<Item>)
    ensures Collection(file, items).Exact? <==>
      exists i :: 0 <= i < |items| && Recurse(items[i], file) == Matches.Exact
    ensures Collection(file, items).Partial? <==>
      (exists i :: 0 <= i < |items| && Recurse(items[i], file).Partial?) &&
      (forall i :: 0 <= i < |items| ==> Recurse(items[i], file) != Matches.Exact)
  {
    ResidualsEmpty(file, items);
    if AnyExact(file, items) {
      var i :| 0 <= i < |items| && Recurse(items[i], file) == Matches.Exact;
      ExactContributes(file, items, i);
    }
  }

  /** The patterns that do not say `No`, in input order. */
  function Matching(file: string, items: seq<Item>): seq<Item>
  {
    if items == [] then []
    else Matching(file, items[..|items| - 1]) +
         (if Recurse(items[|items| - 1], file).No? then [] else [items[|items| - 1]])
  }

  /** The residual list has one entry per pattern that does not say `No`, in
      input order: the wildcard pattern for an `Exact`, the shortened pattern
      for a `Partial`. */
  lemma {:induction false} ResidualsInOrder(file: string, items: seq<Item>)
    ensures |Residuals(file, items)| == |Matching(file, items)|
    ensures forall k :: 0 <= k < |Matching(file, items)| ==>
      !Recurse(Matching(file, items)[k], file).No? &&
      Residuals(file, items)[k] == Contribution(Recurse(Matching(file, items)[k], file))[0]
  {
    if items != [] {
      ResidualsInOrder(file, items[..|items| - 1]);
    }
  }

  /** Every residual is the wildcard pattern or one segment shorter than the
      pattern it came from. */
  lemma ResidualsShrink(file: string, items: seq<Item>)
    ensures |Residuals(file, items)| == |Matching(file, items)|
    ensures forall k :: 0 <= k < |Residuals(file, items)| ==>
      Residuals(file, items)[k] == WILDCARD ||
      |Residuals(file, items)[k]| == |Matching(file, items)[k]| - 1
  {
    ResidualsInOrder(file, items);
  }

  /** A list holding the wildcard pattern gives `Exact` for every name. */
  lemma WildcardAbsorbs(file: string, items: seq<Item>)
    requires WILDCARD in items
    ensures Collection(file, items).Exact?
  {
    var i :| 0 <= i < |items| && items[i] == WILDCARD;
    assert Recurse(items[i], file) == Matches.Exact;
    CollectionExact(file, items);
  }

  /** An `Exact` collection verdict carries the wildcard pattern forward, so
      everything below a fully matched directory matches `Exact` as well. */
  lemma ExactCarriesWildcard(file: string, items: seq<Item>)
    requires Collection(file, items).Exact?
    ensures WILDCARD in Collection(file, items).residual
  {
    CollectionExact(file, items);
    var i :| 0 <= i < |items| && Recurse(items[i], file) == Matches.Exact;
    ExactContributes(file, items, i);
  }

  /** The patterns `*`, `.` and the empty pattern all parse to the universal
      wildcard. */
  lemma WildcardPatterns()
    ensures ItemFromString("*") == WILDCARD
    ensures ItemFromString(".") == WILDCARD
    ensures ItemFromString("") == WILDCARD
  {
    ItemParse("*");
    ItemParse(".");
    ItemParse("");
    SplitWithoutSep("*", '/');
    SplitWithoutSep(".", '/');
  }

  /** A `Partial` pattern's shortened pattern is carried forward. */
  lemma PartialCarriesRest(file: string, items: seq<Item>, i: nat)
    requires i < |items| && Recurse(items[i], file).Partial?
    ensures !Collection(file, items).No?
    ensures Recurse(items[i], file).rest in Collection(file, items).residual
  {
    PartialContributes(file, items, i);
  }

  /** The pattern written as the path `P` matches the name `P[0]`: exactly
      when `P` has one component, and otherwise the collection carries the
      pattern of the rest of `P` forward. */
  lemma PatternFollowsItsPath(P: seq<string>, items: seq<Item>, i: nat)
    requires |P| >= 1 && forall k :: 0 <= k < |P| ==> '/' !in P[k]
    requires i < |items| && items[i] == ItemFromString(Join(P, '/'))
    ensures |P| == 1 ==> Collection(P[0], items).Exact?
    ensures |P| > 1 ==>
      && !Collection(P[0], items).No?
      && ItemFromString(Join(P[1..], '/')) in Collection(P[0], items).residual
  {
    var n := P[0];
    SplitJoin(P, '/');
    LastPiece(n, '/');
    SegmentMatchesItself(n);
    SegmentMatchesGlob(n, n);
    RecurseOnText(Join(P, '/'), n);
    CollectionExact(n, items);
    if |P| == 1 {
      assert Recurse(items[i], n) == Matches.Exact;
    } else {
      PartialCarriesRest(n, items, i);
    }
  }
}
