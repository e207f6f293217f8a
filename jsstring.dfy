/**
 * The JavaScript string operations the worker relies on: `String.prototype.endsWith`
 * and `String.prototype.split` with a one-character separator. Strings are sequences
 * of characters, `seq<char>`. A JavaScript string is a sequence of UTF-16 code units
 * instead, but the worker only splits at the ASCII separators `/`, `-` and `\n`, which
 * gives the same pieces either way.
 */
module JsString {

  /** `s.endsWith(suffix)`. */
  predicate EndsWith(s: string, suffix: string)
  {
    |suffix| <= |s| && s[|s| - |suffix|..] == suffix
  }

  /** The inverse of Split: the parts glued back together with the separator between them. */
  function Join(parts: seq<string>, sep: char): string
    requires |parts| >= 1
    decreases |parts|
  {
    if |parts| == 1 then parts[0] else parts[0] + [sep] + Join(parts[1..], sep)
  }

  /**
   * `s.split(sep)`: the pieces of `s` between consecutive occurrences of `sep`.
   * There is always at least one piece; an empty string gives `[""]`, and two
   * adjacent separators give an empty piece between them.
   */
  function Split(s: string, sep: char): (parts: seq<string>)
    ensures |parts| >= 1
    ensures forall p :: p in parts ==> sep !in p
    ensures Join(parts, sep) == s
    decreases |s|
  {
    if |s| == 0 then [""]
    else if s[0] == sep then [""] + Split(s[1..], sep)
    else
      var rest := Split(s[1..], sep);
      [[s[0]] + rest[0]] + rest[1..]
  }

  /** `a.slice(-1)[0]` on a non-empty array: its last element. */
  function Last<T>(a: seq<T>): T
    requires |a| >= 1
  {
    a[|a| - 1]
  }

  /** A string without the separator is not split at all. */
  lemma {:induction false} SplitNoSeparator(s: string, sep: char)
    requires sep !in s
    ensures Split(s, sep) == [s]
    decreases |s|
  {
    if |s| > 0 {
      assert sep !in s[1..];
      SplitNoSeparator(s[1..], sep);
      assert [s[0]] + s[1..] == s;
    }
  }

  /** A string is split into two pieces or more exactly when it holds the separator. */
  lemma SplitSeparator(s: string, sep: char)
    ensures |Split(s, sep)| >= 2 <==> sep in s
  {
    if sep !in s {
      SplitNoSeparator(s, sep);
    }
  }

  /** Splitting at the first separator: the piece before it, then the pieces of the rest. */
  lemma {:induction false} SplitAtFirst(x: string, sep: char, y: string)
    requires sep !in x
    ensures Split(x + [sep] + y, sep) == [x] + Split(y, sep)
    decreases |x|
  {
    var s := x + [sep] + y;
    if |x| == 0 {
      assert s[1..] == y;
    } else {
      assert s[0] == x[0] && s[0] != sep;
      assert s[1..] == x[1..] + [sep] + y;
      assert sep !in x[1..];
      SplitAtFirst(x[1..], sep, y);
      assert [x[0]] + x[1..] == x;
    }
  }

  /** Splitting at the last separator: the pieces of what precedes it, then the piece after it. */
  lemma {:induction false} SplitAtLast(x: string, sep: char, y: string)
    requires sep !in y
    ensures Split(x + [sep] + y, sep) == Split(x, sep) + [y]
    decreases |x|
  {
    var s := x + [sep] + y;
    if |x| == 0 {
      assert s[1..] == y;
      SplitNoSeparator(y, sep);
    } else {
      assert s[1..] == x[1..] + [sep] + y;
      SplitAtLast(x[1..], sep, y);
      if x[0] != sep {
        var rest := Split(x[1..], sep);
        assert Split(s[1..], sep) == rest + [y];
        assert (rest + [y])[0] == rest[0];
        assert (rest + [y])[1..] == rest[1..] + [y];
      }
    }
  }

  /**
   * The first piece is the longest separator-free prefix: it is a prefix of `s`,
   * and unless it is all of `s` the separator comes right after it.
   */
  lemma {:induction false} FirstPieceIsPrefix(s: string, sep: char)
    ensures var p := Split(s, sep)[0];
      |p| <= |s| && s[..|p|] == p && (|p| < |s| ==> s[|p|] == sep)
    decreases |s|
  {
    if |s| > 0 && s[0] != sep {
      FirstPieceIsPrefix(s[1..], sep);
    }
  }

  /** Joining peels off the last part: what precedes it, the separator, then the part. */
  lemma {:induction false} JoinLast(parts: seq<string>, sep: char)
    requires |parts| >= 2
    ensures Join(parts, sep) == Join(parts[..|parts| - 1], sep) + [sep] + Last(parts)
    decreases |parts|
  {
    var n := |parts|;
    if n > 2 {
      JoinLast(parts[1..], sep);
      assert parts[1..][..n - 2] == parts[..n - 1][1..];
    }
  }

  /**
   * The last piece is the longest separator-free suffix: it is a suffix of `s`,
   * and unless it is all of `s` the separator comes right before it.
   */
  lemma LastPieceIsSuffix(s: string, sep: char)
    ensures var p := Last(Split(s, sep));
      |p| <= |s| && s[|s| - |p|..] == p && (|p| < |s| ==> s[|s| - |p| - 1] == sep)
  {
    var parts := Split(s, sep);
    if |parts| >= 2 {
      JoinLast(parts, sep);
      var j := Join(parts[..|parts| - 1], sep);
      assert s == j + [sep] + Last(parts);
      assert s[|s| - |Last(parts)|..] == Last(parts);
    }
  }
}
