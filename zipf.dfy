/** The directory walker and the program's entry point: which entries of a
    tree go into the archive, in which order and under which names, given
    the include patterns and the exclude patterns. */
module Zipf {
  import opened Strings
  import opened Exclude

  /** An entry of a directory listing, as the walker sees it.
      `Unreadable` is an entry record that could not be read. */
  datatype Node = File(name: string) | Dir(name: string, listing: Listing) | Unreadable

  /** The result of listing a directory: its entries in listing order, or
      a failure to list it. */
  datatype Listing = Listed(entries: seq<Node>) | ListError

  /** An entry admitted into the archive: its path components (the root
      directory is `.`) and whether it is a directory. */
  datatype Emitted = Emitted(path: seq<string>, isDir: bool)

  /** What the archive writer is given for one entry. */
  datatype Record = Record(name: string, isDir: bool)

  /** The archive writer, seen as an append-only list of entries. */
  class ZipSink {
    var records: seq<Record>

    constructor ()
      ensures records == []
    {
      records := [];
    }

    method AddDirectory(name: string)
      modifies this
      ensures records == old(records) + [Record(name, true)]
    {
      records := records + [Record(name, true)];
    }

    method StartFile(name: string)
      modifies this
      ensures records == old(records) + [Record(name, false)]
    {
      records := records + [Record(name, false)];
    }
  }

  /** Names skipped before any pattern is consulted. */
  predicate Ignored(name: string)
  {
    name == ".git" || name == ".gitignore"
  }

  /** The components of `path` other than `.`, in order. */
  function WithoutCurDir(path: seq<string>): (r: seq<string>)
    ensures |r| <= |path|
    ensures forall k :: 0 <= k < |r| ==> r[k] in path && r[k] != "."
  {
    if path == [] then []
    else (if path[0] == "." then [] else [path[0]]) + WithoutCurDir(path[1..])
  }

  /** The name under which an entry is stored: its components other than
      `.`, joined with `/`. */
  function FileName(path: seq<string>): string
  {
    Join(WithoutCurDir(path), '/')
  }

  /** The archive records for a sequence of admitted entries. */
  function Render(es: seq<Emitted>): seq<Record>
  {
    if es == [] then [] else [Record(FileName(es[0].path), es[0].isDir)] + Render(es[1..])
  }

  // ---------------------------------------------------------------------
  // What the walker emits, as functions of the tree

  /** The entries emitted for the directory at `path` whose listing is
      `listing`, with the include and exclude patterns that apply there. */
  function Crawl(path: seq<string>, listing: Listing, incl: seq<Item>, excl: seq<Item>): seq<Emitted>
    decreases listing, 2
  {
    match listing
    case ListError => []
    case Listed(es) => CrawlEntries(path, es, incl, excl)
  }

  /** Entries are handled in listing order; an unreadable entry ends the
      listing. */
  function CrawlEntries(path: seq<string>, es: seq<Node>, incl: seq<Item>, excl: seq<Item>): seq<Emitted>
    decreases es, 1
  {
    if es == [] || es[0].Unreadable? then []
    else Visit(path, es[0], incl, excl) + CrawlEntries(path, es[1..], incl, excl)
  }

  /** The admission policy for one entry. */
  function Visit(path: seq<string>, node: Node, incl: seq<Item>, excl: seq<Item>): seq<Emitted>
    requires !node.Unreadable?
    decreases node, 0
  {
    if Ignored(node.name) then []
    else
      var inc := Collection(node.name, incl);
      var exc := Collection(node.name, excl);
      match node
      case Dir(n, sub) =>
        if inc.No? || exc.Exact? then []
        else
          var nextExclude := if exc.Partial? then exc.residual else [];
          [Emitted(path + [n], true)] + Crawl(path + [n], sub, inc.residual, nextExclude)
      case File(n) =>
        if inc.Exact? && !exc.Exact? then [Emitted(path + [n], false)] else []
  }

  // ---------------------------------------------------------------------
  // The walker

  lemma {:induction false} RenderAppend(a: seq<Emitted>, b: seq<Emitted>)
    ensures Render(a + b) == Render(a) + Render(b)
  {
    if a != [] {
      assert (a + b)[1..] == a[1..] + b;
      RenderAppend(a[1..], b);
    } else {
      assert a + b == b;
    }
  }

  /** Walks the directory at `path`, appending every admitted entry to the
      archive in pre-order. Walking a directory that cannot be listed adds
      nothing below it (its own record was written by the caller); an entry that cannot be read ends the walk of its directory. */
  method Crawler(path: seq<string>, listing: Listing, includeItems: seq<Item>, excludeItems: seq<Item>, zip: ZipSink)
    modifies zip
    ensures zip.records == old(zip.records) + Render(Crawl(path, listing, includeItems, excludeItems))
    decreases listing, 1
  {
    if listing.ListError? {
      return;
    }
    var files := listing.entries;
    assert files[0..] == files;
    for i := 0 to |files|
      invariant zip.records + Render(CrawlEntries(path, files[i..], includeItems, excludeItems))
                == old(zip.records) + Render(Crawl(path, listing, includeItems, excludeItems))
    {
      var file := files[i];
      if file.Unreadable? {
        return;
      }
      ghost var visited := Visit(path, file, includeItems, excludeItems);
      ghost var rest := CrawlEntries(path, files[i + 1..], includeItems, excludeItems);
      RenderStep(path, files, i, includeItems, excludeItems);
      ghost var before := zip.records;
      assert before + Render(visited) + Render(rest) == old(zip.records) + Render(Crawl(path, listing, includeItems, excludeItems));
      assert file in listing.entries;
      CrawlEntry(path, file, includeItems, excludeItems, zip);
      assert zip.records == before + Render(visited);
    }
  }

  /** One step of the walker's loop: the records of the remaining entries
      are those of the next entry followed by those of the rest. */
  lemma RenderStep(path: seq<string>, files: seq<Node>, i: nat, incl: seq<Item>, excl: seq<Item>)
    requires i < |files| && !files[i].Unreadable?
    ensures Render(CrawlEntries(path, files[i..], incl, excl))
            == Render(Visit(path, files[i], incl, excl)) + Render(CrawlEntries(path, files[i + 1..], incl, excl))
  {
    assert files[i..][1..] == files[i + 1..];
    RenderAppend(Visit(path, files[i], incl, excl), CrawlEntries(path, files[i + 1..], incl, excl));
  }

  /** The body of the walker's loop for one readable entry; returning early
      is the loop's `continue`. */
  method CrawlEntry(path: seq<string>, file: Node, includeItems: seq<Item>, excludeItems: seq<Item>, zip: ZipSink)
    requires !file.Unreadable?
    modifies zip
    ensures zip.records == old(zip.records) + Render(Visit(path, file, includeItems, excludeItems))
    decreases file, 0
  {
    if Ignored(file.name) {
      return;
    }
    var includeMatches := RecurseCollection(file.name, includeItems);
    var excludeMatches := RecurseCollection(file.name, excludeItems);
    if file.Dir? {
      if !includeMatches.No? {
        var v := includeMatches.residual;
        var nextExclude: seq<Item>;
        match excludeMatches {
          case Exact(_) => return;
          case Partial(x) => nextExclude := x;
          case No => nextExclude := [];
        }
        ghost var below := Crawl(path + [file.name], file.listing, v, nextExclude);
        assert Visit(path, file, includeItems, excludeItems) == [Emitted(path + [file.name], true)] + below;
        RenderAppend([Emitted(path + [file.name], true)], below);
        var name := FileName(path + [file.name]);
        zip.AddDirectory(name);
        ghost var before := zip.records;
        Crawler(path + [file.name], file.listing, v, nextExclude, zip);
        assert zip.records == before + Render(below);
      }
    } else {
      if includeMatches.Exact? {
        if excludeMatches.Exact? {
          return;
        }
        assert Visit(path, file, includeItems, excludeItems) == [Emitted(path + [file.name], false)];
        var name := FileName(path + [file.name]);
        zip.StartFile(name);
      }
    }
  }

  // ---------------------------------------------------------------------
  // The program's entry point

  /** The command line: the archive to write, the patterns to include and
      the patterns to exclude. */
  datatype Args = Args(output: string, inputs: seq<string>, excludes: seq<string>)

  /** Each pattern string parsed, in order. */
  function Items(patterns: seq<string>): seq<Item>
  {
    seq(|patterns|, i requires 0 <= i < |patterns| => ItemFromString(patterns[i]))
  }

  function IncludeItems(args: Args): seq<Item>
  {
    Items(args.inputs)
  }

  /** The exclude patterns as the program builds them: the user's patterns
      followed by the output path, parsed verbatim. */
  function ExcludeItemsAsWritten(args: Args): seq<Item>
  {
    Items(args.excludes + [args.output])
  }

  /** The components of the output path that name entries: without `.` and
      without the empty pieces of repeated or leading `/`. */
  function OutputParts(output: string): seq<string>
  {
    Named(Split(output, '/'))
  }

  function Named(parts: seq<string>): (r: seq<string>)
    ensures forall k :: 0 <= k < |r| ==> r[k] in parts && r[k] != "." && r[k] != ""
  {
    if parts == [] then []
    else (if parts[0] == "." || parts[0] == "" then [] else [parts[0]]) + Named(parts[1..])
  }

  /** The pattern that excludes the archive itself: the output path with
      its `.` and empty components dropped. */
  function OutputPattern(output: string): string
  {
    var parts := OutputParts(output);
    if parts == [] then output else Join(parts, '/')
  }

  /** The exclude patterns with the output path normalised before it is
      parsed. */
  function ExcludeItemsCorrected(args: Args): seq<Item>
  {
    Items(args.excludes + [OutputPattern(args.output)])
  }

  /** Everything the program puts in the archive for the tree under `.`. */
  function RunAsWritten(root: Listing, args: Args): seq<Emitted>
  {
    Crawl(["."], root, IncludeItems(args), ExcludeItemsAsWritten(args))
  }

  /** The same walk with the corrected exclude patterns. */
  function RunCorrected(root: Listing, args: Args): seq<Emitted>
  {
    Crawl(["."], root, IncludeItems(args), ExcludeItemsCorrected(args))
  }

  /** Builds the pattern lists as the program does, walks the tree under
      `.` and returns the archive. */
  method Archive(root: Listing, args: Args) returns (zip: ZipSink)
    ensures fresh(zip)
    ensures zip.records == Render(RunAsWritten(root, args))
  {
    var includeItems := IncludeItems(args);
    var excludeItems := ExcludeItemsAsWritten(args);
    zip := new ZipSink();
    Crawler(["."], root, includeItems, excludeItems, zip);
  }
}
