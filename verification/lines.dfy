/**
 Splitting a string on a separator character and joining a list of strings
 with one, with the behaviour of Python's `str.split(sep)` and `sep.join(xs)`
 for a one-character separator: splitting never yields an empty list
 (`''.split('\n') == ['']`) and joining the empty list gives the empty string.
 */
module Lines {

  /** The number of occurrences of `c` in `s`. */
  function Count(s: string, c: char): (n: nat)
    ensures n <= |s|
    ensures n == 0 <==> c !in s
  {
    if |s| == 0 then 0
    else (if s[0] == c then 1 else 0) + Count(s[1..], c)
  }

  /** The pieces of `s` between occurrences of `sep`, in order. */
  function Split(s: string, sep: char): (parts: seq<string>)
    ensures |parts| > 0
    ensures forall i :: 0 <= i < |parts| ==> sep !in parts[i]
    decreases |s|
  {
    if |s| == 0 then [""]
    else if s[0] == sep then [""] + Split(s[1..], sep)
    else
      var rest := Split(s[1..], sep);
      [[s[0]] + rest[0]] + rest[1..]
  }

  /** The strings of `parts` with `sep` between each neighbouring pair. */
  function Join(parts: seq<string>, sep: char): (s: string)
    ensures |parts| == 0 ==> s == ""
    ensures |parts| > 0 ==> |s| == TotalLength(parts) + |parts| - 1
    decreases |parts|
  {
    if |parts| == 0 then ""
    else if |parts| == 1 then parts[0]
    else parts[0] + [sep] + Join(parts[1..], sep)
  }

  /** The summed lengths of the pieces. */
  function TotalLength(parts: seq<string>): nat {
    if |parts| == 0 then 0 else |parts[0]| + TotalLength(parts[1..])
  }

  /** A list of pieces none of which contains the separator. */
  ghost predicate SeparatorFree(parts: seq<string>, sep: char) {
    forall i :: 0 <= i < |parts| ==> sep !in parts[i]
  }

  /** Joining prepends the first piece and a separator to the join of the rest. */
  lemma JoinCons(p: string, rest: seq<string>, sep: char)
    requires |rest| > 0
    ensures Join([p] + rest, sep) == p + [sep] + Join(rest, sep)
  {
    assert ([p] + rest)[1..] == rest;
  }

  /** Splitting a string whose first piece is the separator-free `h`
      gives `h` followed by the split of what comes after the separator. */
  lemma {:induction false} SplitAtFirst(h: string, b: string, sep: char)
    requires sep !in h
    ensures Split(h + [sep] + b, sep) == [h] + Split(b, sep)
    decreases |h|
  {
    var s := h + [sep] + b;
    if |h| == 0 {
      assert s[0] == sep && s[1..] == b;
    } else {
      assert s[0] == h[0] && s[0] != sep;
      assert s[1..] == h[1..] + [sep] + b;
      SplitAtFirst(h[1..], b, sep);
      assert [h[0]] + h[1..] == h;
    }
  }

  /** Splitting a separator-free string gives that string alone. */
  lemma {:induction false} SplitNoSeparator(s: string, sep: char)
    requires sep !in s
    ensures Split(s, sep) == [s]
    decreases |s|
  {
    if |s| > 0 {
      assert s[0] in s;
      assert forall c :: c in s[1..] ==> c in s;
      SplitNoSeparator(s[1..], sep);
      assert [s[0]] + s[1..] == s;
    }
  }

  /** Join undoes Split: nothing of the input is lost or reordered. */
  lemma {:induction false} JoinSplit(s: string, sep: char)
    ensures Join(Split(s, sep), sep) == s
    decreases |s|
  {
    if |s| > 0 {
      var rest := Split(s[1..], sep);
      JoinSplit(s[1..], sep);
      if s[0] == sep {
        JoinCons("", rest, sep);
      } else if |rest| == 1 {
        assert Split(s, sep) == [[s[0]] + rest[0]];
      } else {
        var tail := rest[1..];
        assert rest == [rest[0]] + tail;
        JoinCons(rest[0], tail, sep);
        JoinCons([s[0]] + rest[0], tail, sep);
      }
      assert [s[0]] + s[1..] == s;
    }
  }

  /** Split undoes Join on every non-empty list of separator-free pieces, so
      Split is the only such decomposition of a string. */
  lemma {:induction false} SplitJoin(parts: seq<string>, sep: char)
    requires |parts| > 0
    requires SeparatorFree(parts, sep)
    ensures Split(Join(parts, sep), sep) == parts
    decreases |parts|
  {
    if |parts| == 1 {
      SplitNoSeparator(parts[0], sep);
    } else {
      var rest := parts[1..];
      assert parts == [parts[0]] + rest;
      JoinCons(parts[0], rest, sep);
      assert sep !in parts[0];
      SplitAtFirst(parts[0], Join(rest, sep), sep);
      SplitJoin(rest, sep);
    }
  }

  /** A string with n separators splits into exactly n + 1 pieces. */
  lemma {:induction false} SplitLength(s: string, sep: char)
    ensures |Split(s, sep)| == Count(s, sep) + 1
    decreases |s|
  {
    if |s| > 0 {
      SplitLength(s[1..], sep);
    }
  }
}
