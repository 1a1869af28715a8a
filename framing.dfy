/**
 * Text framing underneath the payload codec of scratch/tp4.cc: joining
 * segments with a separator character, splitting text at every occurrence of
 * a delimiter character (the `boost::split` behaviour, empty segments kept),
 * and reading a C string, i.e. the text before the first NUL byte.
 */
module Framing {

  /** The byte that ends a C string. */
  const NullTerminator: char := '\0'

  /** No character of `s` is one of `chars`. */
  predicate NoneOf(s: seq<char>, chars: set<char>)
  {
    forall k | 0 <= k < |s| :: s[k] !in chars
  }

  /** How many positions of `s` hold one of `chars`. */
  function CountOf(s: seq<char>, chars: set<char>): nat
  {
    if s == [] then 0 else (if s[0] in chars then 1 else 0) + CountOf(s[1..], chars)
  }

  /** Sum of the lengths of the segments. */
  function TotalLength(parts: seq<seq<char>>): nat
  {
    if parts == [] then 0 else |parts[0]| + TotalLength(parts[1..])
  }

  /** The segments written one after another with `sep` between neighbours. */
  function Join(parts: seq<seq<char>>, sep: char): seq<char>
  {
    if |parts| == 0 then []
    else if |parts| == 1 then parts[0]
    else parts[0] + [sep] + Join(parts[1..], sep)
  }

  /**
   * `s` cut at every character of `delims`. Adjacent delimiters give an empty
   * segment, and so do a leading or trailing one; the empty text is one empty
   * segment. There is always at least one segment.
   */
  function Split(s: seq<char>, delims: set<char>): (parts: seq<seq<char>>)
    ensures |parts| >= 1
  {
    if s == [] then [[]]
    else
      var rest := Split(s[1..], delims);
      if s[0] in delims then [[]] + rest
      else [[s[0]] + rest[0]] + rest[1..]
  }

  /**
   * The C string stored in `buf`: everything before its first NUL byte.
   * A buffer without a NUL has no C string (reading one runs past its end).
   */
  function UntilNul(buf: seq<char>): (s: seq<char>)
    requires NullTerminator in buf
    ensures |s| < |buf| && buf[..|s|] == s
    ensures buf[|s|] == NullTerminator && NullTerminator !in s
  {
    if buf[0] == NullTerminator then [] else [buf[0]] + UntilNul(buf[1..])
  }

  // ---------------------------------------------------------------------------
  // Counting

  lemma {:induction false} CountOfAppend(a: seq<char>, b: seq<char>, chars: set<char>)
    ensures CountOf(a + b, chars) == CountOf(a, chars) + CountOf(b, chars)
  {
    if a == [] {
      assert a + b == b;
    } else {
      assert (a + b)[1..] == a[1..] + b;
      CountOfAppend(a[1..], b, chars);
    }
  }

  /** A text has no character of `chars` exactly when it counts none of them. */
  lemma {:induction false} CountOfZero(s: seq<char>, chars: set<char>)
    ensures CountOf(s, chars) == 0 <==> NoneOf(s, chars)
  {
    if s != [] {
      CountOfZero(s[1..], chars);
      assert NoneOf(s, chars) <==> s[0] !in chars && NoneOf(s[1..], chars) by {
        if NoneOf(s[1..], chars) && s[0] !in chars {
          forall k | 0 <= k < |s| ensures s[k] !in chars {
            if k > 0 { assert s[k] == s[1..][k - 1]; }
          }
        }
      }
    }
  }

  // ---------------------------------------------------------------------------
  // Joining

  /** Appending one more segment to a non-empty list adds the separator and that segment. */
  lemma {:induction false} JoinSnoc(parts: seq<seq<char>>, t: seq<char>, sep: char)
    requires |parts| >= 1
    ensures Join(parts + [t], sep) == Join(parts, sep) + [sep] + t
  {
    if |parts| == 1 {
      assert (parts + [t])[1..] == [t];
    } else {
      assert (parts + [t])[1..] == parts[1..] + [t];
      JoinSnoc(parts[1..], t, sep);
    }
  }

  /** The joined text is the segments plus one separator between each two of them. */
  lemma {:induction false} JoinLength(parts: seq<seq<char>>, sep: char)
    requires |parts| >= 1
    ensures |Join(parts, sep)| + 1 == TotalLength(parts) + |parts|
  {
    if |parts| > 1 {
      JoinLength(parts[1..], sep);
    }
  }

  /**
   * When no segment holds a character of `chars`, the joined text holds one
   * for each separator if the separator is one of them, and none otherwise.
   */
  lemma {:induction false} JoinCount(parts: seq<seq<char>>, sep: char, chars: set<char>)
    requires |parts| >= 1
    requires forall k | 0 <= k < |parts| :: NoneOf(parts[k], chars)
    ensures CountOf(Join(parts, sep), chars) == if sep in chars then |parts| - 1 else 0
  {
    CountOfZero(parts[0], chars);
    if |parts| > 1 {
      JoinCount(parts[1..], sep, chars);
      CountOfAppend(parts[0] + [sep], Join(parts[1..], sep), chars);
      CountOfAppend(parts[0], [sep], chars);
    }
  }

  // ---------------------------------------------------------------------------
  // Splitting

  /** A leading run free of delimiters becomes the front of the first segment. */
  lemma {:induction false} SplitDelimiterFree(t: seq<char>, rest: seq<char>, delims: set<char>)
    requires NoneOf(t, delims)
    ensures Split(t + rest, delims) == [t + Split(rest, delims)[0]] + Split(rest, delims)[1..]
  {
    var r := Split(rest, delims);
    if t == [] {
      assert t + rest == rest && t + r[0] == r[0];
      assert [r[0]] + r[1..] == r;
    } else {
      assert (t + rest)[1..] == t[1..] + rest;
      assert t[0] !in delims;
      SplitDelimiterFree(t[1..], rest, delims);
      assert [t[0]] + (t[1..] + Split(rest, delims)[0]) == t + Split(rest, delims)[0];
    }
  }

  /** A delimiter-free segment followed by a delimiter is cut off as a whole. */
  lemma SplitField(t: seq<char>, sep: char, rest: seq<char>, delims: set<char>)
    requires NoneOf(t, delims) && sep in delims
    ensures Split(t + [sep] + rest, delims) == [t] + Split(rest, delims)
  {
    assert t + [sep] + rest == t + ([sep] + rest);
    assert ([sep] + rest)[1..] == rest;
    var r := Split([sep] + rest, delims);
    assert r == [[]] + Split(rest, delims);
    assert r[0] == [] && r[1..] == Split(rest, delims);
    SplitDelimiterFree(t, [sep] + rest, delims);
    assert t + r[0] == t;
  }

  /** Text without delimiters is one segment. */
  lemma SplitWhole(t: seq<char>, delims: set<char>)
    requires NoneOf(t, delims)
    ensures Split(t, delims) == [t]
  {
    assert t + [] == t;
    SplitDelimiterFree(t, [], delims);
  }

  /** There is one segment more than there are delimiters. */
  lemma {:induction false} SplitCount(s: seq<char>, delims: set<char>)
    ensures |Split(s, delims)| == CountOf(s, delims) + 1
  {
    if s != [] {
      SplitCount(s[1..], delims);
    }
  }

  /** No segment contains a delimiter. */
  lemma {:induction false} SplitSegmentsFree(s: seq<char>, delims: set<char>)
    ensures forall k | 0 <= k < |Split(s, delims)| :: NoneOf(Split(s, delims)[k], delims)
  {
    if s != [] {
      SplitSegmentsFree(s[1..], delims);
      var rest := Split(s[1..], delims);
      if s[0] !in delims {
        var first := [s[0]] + rest[0];
        assert NoneOf(rest[0], delims);
        forall j | 0 <= j < |first| ensures first[j] !in delims {
          if j > 0 { assert first[j] == rest[0][j - 1]; }
        }
      }
    }
  }

  /** Two delimiter sets that agree on every character of `s` cut it the same way. */
  lemma {:induction false} SplitSameDelimiters(s: seq<char>, d1: set<char>, d2: set<char>)
    requires forall k | 0 <= k < |s| :: (s[k] in d1 <==> s[k] in d2)
    ensures Split(s, d1) == Split(s, d2)
  {
    if s != [] {
      assert forall k | 0 <= k < |s[1..]| :: s[1..][k] == s[k + 1];
      SplitSameDelimiters(s[1..], d1, d2);
    }
  }

  // ---------------------------------------------------------------------------
  // Joining and splitting are inverse

  /** Splitting undoes joining, for segments free of the delimiters. */
  lemma {:induction false} SplitJoin(parts: seq<seq<char>>, sep: char, delims: set<char>)
    requires |parts| >= 1 && sep in delims
    requires forall k | 0 <= k < |parts| :: NoneOf(parts[k], delims)
    ensures Split(Join(parts, sep), delims) == parts
  {
    if |parts| == 1 {
      SplitWhole(parts[0], delims);
    } else {
      SplitJoin(parts[1..], sep, delims);
      SplitField(parts[0], sep, Join(parts[1..], sep), delims);
      assert [parts[0]] + parts[1..] == parts;
    }
  }

  /** Joining undoes splitting at a single separator: no character is lost or added. */
  lemma {:induction false} JoinSplit(s: seq<char>, sep: char)
    ensures Join(Split(s, {sep}), sep) == s
  {
    if s != [] {
      var rest := Split(s[1..], {sep});
      JoinSplit(s[1..], sep);
      if s[0] == sep {
        var parts := [[]] + rest;
        assert parts[0] == [] && parts[1..] == rest;
        assert Join(parts, sep) == [] + [sep] + s[1..];
      } else {
        var parts := [[s[0]] + rest[0]] + rest[1..];
        assert parts[0] == [s[0]] + rest[0] && parts[1..] == rest[1..];
      }
    }
  }

  // ---------------------------------------------------------------------------
  // C strings

  /** Bytes after the first NUL do not change the C string. */
  lemma {:induction false} UntilNulIgnoresSuffix(buf: seq<char>, junk: seq<char>)
    requires NullTerminator in buf
    ensures NullTerminator in buf + junk
    ensures UntilNul(buf + junk) == UntilNul(buf)
  {
    assert (buf + junk)[0] == buf[0];
    if buf[0] != NullTerminator {
      assert buf == [buf[0]] + buf[1..];
      assert (buf + junk)[1..] == buf[1..] + junk;
      UntilNulIgnoresSuffix(buf[1..], junk);
    }
  }

  /** A NUL-free text followed by a NUL is read back exactly, whatever follows. */
  lemma {:induction false} UntilNulOfTerminated(s: seq<char>, junk: seq<char>)
    requires NullTerminator !in s
    ensures NullTerminator in s + [NullTerminator] + junk
    ensures UntilNul(s + [NullTerminator] + junk) == s
  {
    var buf := s + [NullTerminator] + junk;
    assert buf[|s|] == NullTerminator;
    if s != [] {
      assert buf[0] == s[0] && s[0] != NullTerminator;
      assert buf[1..] == s[1..] + [NullTerminator] + junk;
      UntilNulOfTerminated(s[1..], junk);
      assert [s[0]] + s[1..] == s;
    }
  }
}
