/** String helpers with the meaning of the Rust standard-library calls the
    matcher and the walker rely on: `str::split` with a one-character
    pattern, `str::matches(..).count()`, and `intersperse` followed by
    `collect::<String>()`. */
module Strings {

  /** Number of occurrences of `c` in `s` (`s.matches(c).count()`). */
  function CountChar(s: string, c: char): nat
  {
    if s == [] then 0 else (if s[0] == c then 1 else 0) + CountChar(s[1..], c)
  }

  /** `s.split(sep)`: the pieces between separators, keeping empty pieces;
      there is always one more piece than there are separators, and no
      piece contains the separator. */
  function Split(s: string, sep: char): (parts: seq<string>)
    ensures |parts| == CountChar(s, sep) + 1
    ensures forall i :: 0 <= i < |parts| ==> sep !in parts[i]
  {
    if s == [] then [""]
    else
      var rest := Split(s[1..], sep);
      if s[0] == sep then [""] + rest
      else [[s[0]] + rest[0]] + rest[1..]
  }

  /** `parts.intersperse(sep).collect()`: the pieces glued with `sep`
      between neighbours; no pieces give the empty string. */
  function Join(parts: seq<string>, sep: char): string
  {
    if parts == [] then ""
    else if |parts| == 1 then parts[0]
    else parts[0] + [sep] + Join(parts[1..], sep)
  }

  /** `s.split(sep).last()`: the piece after the last separator. */
  function Last(s: string, sep: char): string
  {
    var parts := Split(s, sep);
    parts[|parts| - 1]
  }

  /** Joining the pieces of a split gives back the original string. */
  lemma {:induction false} JoinSplit(s: string, sep: char)
    ensures Join(Split(s, sep), sep) == s
  {
    if s != [] {
      var rest := Split(s[1..], sep);
      JoinSplit(s[1..], sep);
      if s[0] == sep {
        assert Split(s, sep) == [""] + rest;
        assert s == [] + [sep] + s[1..];
      } else {
        var parts := Split(s, sep);
        assert parts == [[s[0]] + rest[0]] + rest[1..];
        if |rest| == 1 {
          assert s == [s[0]] + s[1..];
        } else {
          assert parts[1..] == rest[1..];
          assert Join(rest, sep) == rest[0] + [sep] + Join(rest[1..], sep);
          assert s == [s[0]] + s[1..];
        }
      }
    }
  }

  /** A string free of the separator splits into itself alone. */
  lemma {:induction false} SplitWithoutSep(s: string, sep: char)
    requires sep !in s
    ensures Split(s, sep) == [s]
  {
    if s != [] {
      SplitWithoutSep(s[1..], sep);
      assert [s[0]] + s[1..] == s;
    }
  }

  /** Splitting `a + sep + b`, where `a` has no separator, yields `a`
      followed by the pieces of `b`. */
  lemma {:induction false} SplitAfterPiece(a: string, sep: char, b: string)
    requires sep !in a
    ensures Split(a + [sep] + b, sep) == [a] + Split(b, sep)
  {
    if a == [] {
      assert a + [sep] + b == [sep] + b;
      assert ([sep] + b)[1..] == b;
    } else {
      var s := a + [sep] + b;
      assert s[0] == a[0];
      assert s[1..] == a[1..] + [sep] + b;
      SplitAfterPiece(a[1..], sep, b);
      assert [a[0]] + a[1..] == a;
    }
  }

  /** A name with one `.` between two dot-free parts splits into those
      two parts. */
  lemma SplitTwo(a: string, b: string)
    requires '.' !in a && '.' !in b
    ensures Split(a + "." + b, '.') == [a, b]
  {
    SplitAfterPiece(a, '.', b);
    SplitWithoutSep(b, '.');
  }

  /** Splitting a join gives back the pieces, provided there is at least one
      piece and no piece contains the separator. */
  lemma {:induction false} SplitJoin(parts: seq<string>, sep: char)
    requires |parts| >= 1
    requires forall i :: 0 <= i < |parts| ==> sep !in parts[i]
    ensures Split(Join(parts, sep), sep) == parts
  {
    if |parts| == 1 {
      SplitWithoutSep(parts[0], sep);
    } else {
      SplitJoin(parts[1..], sep);
      SplitAfterPiece(parts[0], sep, Join(parts[1..], sep));
      assert [parts[0]] + parts[1..] == parts;
    }
  }

  /** A string containing `c` counts at least one `c`. */
  lemma {:induction false} CountCharPositive(s: string, c: char)
    requires c in s
    ensures CountChar(s, c) > 0
  {
    if s[0] != c {
      assert c in s[1..];
      CountCharPositive(s[1..], c);
    }
  }

  /** The last piece is the text after the last separator: it contains no
      separator, it is the whole string when the string contains none, and
      otherwise it is the suffix after some separator of the string (the
      last one, as the suffix holds none). */
  lemma {:induction false} LastPiece(s: string, sep: char)
    ensures sep !in Last(s, sep)
    ensures sep !in s ==> Last(s, sep) == s
    ensures sep in s ==> exists k :: 0 <= k < |s| && s[k] == sep && Last(s, sep) == s[k + 1..]
    ensures Last(Last(s, sep), sep) == Last(s, sep)
  {
    if sep !in s {
      SplitWithoutSep(s, sep);
    } else {
      var rest := Split(s[1..], sep);
      if sep in s[1..] {
        CountCharPositive(s[1..], sep);
        assert Last(s, sep) == Last(s[1..], sep);
        LastPiece(s[1..], sep);
        var k' :| 0 <= k' < |s[1..]| && s[1..][k'] == sep && Last(s[1..], sep) == s[1..][k' + 1..];
        assert s[k' + 1] == sep && s[k' + 2..] == s[1..][k' + 1..];
      } else {
        assert s[0] == sep;
        SplitWithoutSep(s[1..], sep);
        assert Split(s, sep) == [""] + [s[1..]];
        assert Last(s, sep) == s[0 + 1..];
      }
    }
    SplitWithoutSep(Last(s, sep), sep);
  }
}
