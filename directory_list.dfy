/** Specification of a separator-delimited directory list.

    `Split` is the textbook split on one separator character: it always yields
    at least one part, keeps every empty part, and `Join` is its inverse.
    `Segments` is what the directory-list parser of openrave-core produces.
    It is defined on its own, one character at a time, and `SegmentsIsSplit`
    proves it equal to the textbook split with the last part dropped exactly
    when that part is empty. The parser's loop stops as soon as its cursor
    reaches the end of the string, so an empty string gives no segment at all
    and a trailing separator gives no trailing empty segment. `Unsplit` builds,
    for any list of separator-free directories, a string whose segments are
    that list.
 */
module DirectoryList {

  /** The separator on POSIX builds. */
  const PosixSeparator: char := ':'

  /** The separator on Windows builds. */
  const WindowsSeparator: char := ';'

  /** Number of occurrences of `c` in `s`. */
  function Count(s: string, c: char): nat
  {
    if s == [] then 0 else (if s[0] == c then 1 else 0) + Count(s[1..], c)
  }

  /** True when the last character of `s` is `sep`. */
  predicate EndsWith(s: string, sep: char)
  {
    s != [] && s[|s| - 1] == sep
  }

  /** No part of `parts` contains `sep`. */
  predicate SeparatorFree(parts: seq<string>, sep: char)
  {
    forall k :: 0 <= k < |parts| ==> sep !in parts[k]
  }

  /** Textbook split of `s` on `sep`, defined one character at a time. */
  function Split(s: string, sep: char): (parts: seq<string>)
    ensures |parts| >= 1
    decreases |s|
  {
    if s == [] then [[]]
    else
      var rest := Split(s[1..], sep);
      if s[0] == sep then [[]] + rest
      else [[s[0]] + rest[0]] + rest[1..]
  }

  /** The parts joined back together, `sep` between each two neighbours. */
  function Join(parts: seq<string>, sep: char): string
  {
    if parts == [] then []
    else if |parts| == 1 then parts[0]
    else parts[0] + [sep] + Join(parts[1..], sep)
  }

  /** `parts` without its last element when that element is empty. */
  function DropTrailingEmpty(parts: seq<string>): seq<string>
  {
    if parts != [] && parts[|parts| - 1] == [] then parts[..|parts| - 1] else parts
  }

  /** The segments the directory-list parser produces for a non-null input,
      defined one character at a time: a separator closes the current
      segment, the end of the input closes one only if it is non-empty. */
  function Segments(s: string, sep: char): (segs: seq<string>)
    ensures segs == [] <==> s == []
    decreases |s|
  {
    if s == [] then []
    else
      var rest := Segments(s[1..], sep);
      if s[0] == sep then [[]] + rest
      else if rest == [] then [[s[0]]]
      else [[s[0]] + rest[0]] + rest[1..]
  }

  /** The directory-list string whose segments are `dirs`: the joined segments,
      plus one separator when the last segment is empty (without it the parser
      would not produce that empty segment). */
  function Unsplit(dirs: seq<string>, sep: char): string
  {
    Join(dirs, sep) + (if dirs != [] && dirs[|dirs| - 1] == [] then [sep] else [])
  }

  // ---------------------------------------------------------------------
  // Properties of the textbook split

  /** Splitting a separator-free prefix `p` followed by `t` glues `p` onto
      the first part of `t`'s split. */
  lemma {:induction false} SplitPrefix(p: string, t: string, sep: char)
    requires sep !in p
    ensures Split(p + t, sep) == [p + Split(t, sep)[0]] + Split(t, sep)[1..]
    decreases |p|
  {
    var parts := Split(t, sep);
    if p != [] {
      assert (p + t)[0] == p[0] != sep;
      assert (p + t)[1..] == p[1..] + t;
      SplitPrefix(p[1..], t, sep);
      assert [p[0]] + (p[1..] + parts[0]) == p + parts[0];
    } else {
      assert p + t == t && p + parts[0] == parts[0];
      assert parts == [parts[0]] + parts[1..];
    }
  }

  /** A separator-free string splits into itself alone. */
  lemma SplitNoSeparator(s: string, sep: char)
    requires sep !in s
    ensures Split(s, sep) == [s]
  {
    SplitPrefix(s, [], sep);
    assert s + [] == s;
  }

  /** A separator-free prefix followed by a separator becomes a part of its own. */
  lemma SplitAtSeparator(p: string, t: string, sep: char)
    requires sep !in p
    ensures Split(p + [sep] + t, sep) == [p] + Split(t, sep)
  {
    assert p + [sep] + t == p + ([sep] + t);
    assert ([sep] + t)[0] == sep && ([sep] + t)[1..] == t;
    assert Split([sep] + t, sep) == [[]] + Split(t, sep);
    SplitPrefix(p, [sep] + t, sep);
    assert p + [] == p;
  }

  /** No part of the split contains the separator. */
  lemma {:induction false} SplitSeparatorFree(s: string, sep: char)
    ensures SeparatorFree(Split(s, sep), sep)
    decreases |s|
  {
    if s != [] {
      SplitSeparatorFree(s[1..], sep);
    }
  }

  /** The split has exactly one more part than the string has separators. */
  lemma {:induction false} SplitLength(s: string, sep: char)
    ensures |Split(s, sep)| == Count(s, sep) + 1
    decreases |s|
  {
    if s != [] {
      SplitLength(s[1..], sep);
    }
  }

  /** Joining the parts of the split gives back the string. */
  lemma {:induction false} JoinSplit(s: string, sep: char)
    ensures Join(Split(s, sep), sep) == s
    decreases |s|
  {
    if s != [] {
      var rest := Split(s[1..], sep);
      JoinSplit(s[1..], sep);
      if s[0] == sep {
        assert [[]] + rest != [];
        assert ([[]] + rest)[1..] == rest;
      } else {
        var parts := [[s[0]] + rest[0]] + rest[1..];
        assert parts[1..] == rest[1..];
        if |rest| > 1 {
          assert Join(rest, sep) == rest[0] + [sep] + Join(rest[1..], sep);
        }
      }
    }
  }

  /** Splitting a join of separator-free parts gives back the parts. */
  lemma {:induction false} SplitJoin(parts: seq<string>, sep: char)
    requires parts != []
    requires SeparatorFree(parts, sep)
    ensures Split(Join(parts, sep), sep) == parts
    decreases |parts|
  {
    assert sep !in parts[0];
    if |parts| == 1 {
      SplitNoSeparator(parts[0], sep);
    } else {
      assert SeparatorFree(parts[1..], sep) by {
        forall k | 0 <= k < |parts| - 1 ensures sep !in parts[1..][k] {
          assert parts[1..][k] == parts[k + 1];
        }
      }
      SplitJoin(parts[1..], sep);
      SplitAtSeparator(parts[0], Join(parts[1..], sep), sep);
    }
  }

  /** Joining with one more part appends a separator and that part. */
  lemma {:induction false} JoinSnoc(parts: seq<string>, q: string, sep: char)
    requires parts != []
    ensures Join(parts + [q], sep) == Join(parts, sep) + [sep] + q
    decreases |parts|
  {
    if |parts| > 1 {
      assert (parts + [q])[1..] == parts[1..] + [q];
      JoinSnoc(parts[1..], q, sep);
    } else {
      assert (parts + [q])[1..] == [q];
    }
  }

  /** The last part of the split is empty exactly when the string is empty or
      ends with the separator. */
  lemma {:induction false} SplitLastEmpty(s: string, sep: char)
    ensures Split(s, sep)[|Split(s, sep)| - 1] == [] <==> (s == [] || EndsWith(s, sep))
    decreases |s|
  {
    if s != [] {
      var t := s[1..];
      var rest := Split(t, sep);
      var n := |rest|;
      SplitLastEmpty(t, sep);
      assert t != [] ==> s[|s| - 1] == t[|t| - 1];
      if s[0] == sep {
        assert Split(s, sep) == [[]] + rest;
      } else if n == 1 {
        // The only part of `rest` is all of `t`, so `t` holds no separator.
        JoinSplit(t, sep);
        SplitSeparatorFree(t, sep);
        assert Split(s, sep) == [[s[0]] + t];
        assert t != [] ==> t[|t| - 1] in t;
      } else {
        SplitLength(t, sep);
        assert Split(s, sep)[n - 1] == rest[n - 1];
      }
    }
  }

  // ---------------------------------------------------------------------
  // Properties of the parser's segments

  /** The parser's segments are the textbook split with its last part dropped
      exactly when that part is empty. */
  lemma {:induction false} SegmentsIsSplit(s: string, sep: char)
    ensures Segments(s, sep) == DropTrailingEmpty(Split(s, sep))
    decreases |s|
  {
    if s != [] {
      var t := s[1..];
      SegmentsIsSplit(t, sep);
      if s[0] == sep {
        assert Split(s, sep) == [[]] + Split(t, sep);
        DropAfterEmpty(Split(t, sep));
      } else {
        assert Split(s, sep) == [[s[0]] + Split(t, sep)[0]] + Split(t, sep)[1..];
        DropAfterGlue(s[0], Split(t, sep));
      }
    }
  }

  /** Dropping a trailing empty part commutes with a leading empty part. */
  lemma DropAfterEmpty(parts: seq<string>)
    requires parts != []
    ensures DropTrailingEmpty([[]] + parts) == [[]] + DropTrailingEmpty(parts)
  {
  }

  /** Dropping a trailing empty part commutes with gluing a character onto the
      first part, the way `Segments` glues it. */
  lemma DropAfterGlue(c: char, parts: seq<string>)
    requires parts != []
    ensures var rest := DropTrailingEmpty(parts);
      DropTrailingEmpty([[c] + parts[0]] + parts[1..])
        == if rest == [] then [[c]] else [[c] + rest[0]] + rest[1..]
  {
    var n := |parts|;
    var whole := [[c] + parts[0]] + parts[1..];
    assert |whole| == n;
    if n == 1 {
      assert whole == [[c] + parts[0]];
      if parts[0] == [] {
        assert [c] + parts[0] == [c];
      }
    } else {
      assert whole[n - 1] == parts[n - 1];
      if parts[n - 1] == [] {
        assert whole[..n - 1] == [[c] + parts[0]] + parts[..n - 1][1..];
      }
    }
  }

  /** Dropping a trailing empty part commutes with a leading part. */
  lemma DropAfterPrefix(p: string, parts: seq<string>)
    requires parts != []
    ensures DropTrailingEmpty([p] + parts) == [p] + DropTrailingEmpty(parts)
  {
  }

  /** An empty input has no segments. */
  lemma SegmentsEmpty(sep: char)
    ensures Segments([], sep) == []
  {
  }

  /** An input whose first separator is at `i` has the text before it as its
      first segment, then the segments of the text after it. */
  lemma SegmentsStep(t: string, sep: char, i: nat)
    requires i < |t| && t[i] == sep && sep !in t[..i]
    ensures Segments(t, sep) == [t[..i]] + Segments(t[i + 1..], sep)
  {
    assert t == t[..i] + [sep] + t[i + 1..];
    SplitAtSeparator(t[..i], t[i + 1..], sep);
    SegmentsIsSplit(t, sep);
    SegmentsIsSplit(t[i + 1..], sep);
    DropAfterPrefix(t[..i], Split(t[i + 1..], sep));
  }

  /** A non-empty input without a separator is one segment. */
  lemma SegmentsLast(t: string, sep: char)
    requires t != [] && sep !in t
    ensures Segments(t, sep) == [t]
  {
    SplitNoSeparator(t, sep);
    SegmentsIsSplit(t, sep);
  }

  /** Two separators in a row give an empty segment between the run before
      them and the segments after them. */
  lemma SegmentsConsecutive(p: string, t: string, sep: char)
    requires sep !in p
    ensures Segments(p + [sep, sep] + t, sep) == [p, []] + Segments(t, sep)
  {
    var s := p + [sep, sep] + t;
    var i := |p|;
    assert s[..i] == p && s[i] == sep;
    assert s[i + 1..] == [sep] + t;
    SegmentsStep(s, sep, i);
    assert ([sep] + t)[..0] == [] && ([sep] + t)[1..] == t;
    SegmentsStep([sep] + t, sep, 0);
  }

  /** No segment contains the separator. */
  lemma {:induction false} SegmentsSeparatorFree(s: string, sep: char)
    ensures SeparatorFree(Segments(s, sep), sep)
  {
    SplitSeparatorFree(s, sep);
    SegmentsIsSplit(s, sep);
  }

  /** There is one segment per separator, plus one when the input is non-empty
      and does not end with the separator. */
  lemma {:induction false} SegmentsLength(s: string, sep: char)
    ensures |Segments(s, sep)| == Count(s, sep) + (if s != [] && !EndsWith(s, sep) then 1 else 0)
  {
    SplitLength(s, sep);
    SplitLastEmpty(s, sep);
    SegmentsIsSplit(s, sep);
  }

  /** Joining the segments gives back the input, short of the one trailing
      separator the parser drops. */
  lemma {:induction false} SegmentsJoin(s: string, sep: char)
    ensures Join(Segments(s, sep), sep) + (if EndsWith(s, sep) then [sep] else []) == s
  {
    SegmentsIsSplit(s, sep);
    JoinSplit(s, sep);
    SplitLastEmpty(s, sep);
    if EndsWith(s, sep) {
      SplitLength(s, sep);
      CountLast(s, sep);
      JoinDropTrailingEmpty(Split(s, sep), sep);
    }
  }

  /** Dropping a trailing empty part from two or more parts removes exactly
      the final separator from their join. */
  lemma JoinDropTrailingEmpty(parts: seq<string>, sep: char)
    requires |parts| >= 2 && parts[|parts| - 1] == []
    ensures Join(DropTrailingEmpty(parts), sep) + [sep] == Join(parts, sep)
  {
    var init := parts[..|parts| - 1];
    assert parts == init + [[]];
    JoinSnoc(init, [], sep);
  }

  /** A string ending with `c` contains at least one `c`. */
  lemma {:induction false} CountLast(s: string, c: char)
    requires EndsWith(s, c)
    ensures Count(s, c) >= 1
    decreases |s|
  {
    if s[0] != c {
      assert s[1..][|s[1..]| - 1] == s[|s| - 1];
      CountLast(s[1..], c);
    }
  }

  /** Every list of separator-free directories is what the parser produces
      for its `Unsplit`. */
  lemma SegmentsUnsplit(dirs: seq<string>, sep: char)
    requires SeparatorFree(dirs, sep)
    ensures Segments(Unsplit(dirs, sep), sep) == dirs
  {
    SegmentsIsSplit(Unsplit(dirs, sep), sep);
    if dirs == [] {
      assert Unsplit(dirs, sep) == [];
    } else if dirs[|dirs| - 1] == [] {
      JoinSnoc(dirs, [], sep);
      assert Unsplit(dirs, sep) == Join(dirs + [[]], sep);
      assert SeparatorFree(dirs + [[]], sep) by {
        forall k | 0 <= k < |dirs| + 1 ensures sep !in (dirs + [[]])[k] {
          if k < |dirs| { assert (dirs + [[]])[k] == dirs[k]; }
        }
      }
      SplitJoin(dirs + [[]], sep);
      assert (dirs + [[]])[..|dirs|] == dirs;
    } else {
      assert Unsplit(dirs, sep) == Join(dirs, sep);
      SplitJoin(dirs, sep);
    }
  }

  // ---------------------------------------------------------------------
  // Worked examples

  /** Three directories. */
  lemma ExampleThree()
    ensures Segments("/a:/b:/c", PosixSeparator) == ["/a", "/b", "/c"]
  {
    var s, t, u := "/a:/b:/c", "/b:/c", "/c";
    assert s[..2] == "/a" && s[3..] == t;
    assert t[..2] == "/b" && t[3..] == u;
    SegmentsLast(u, PosixSeparator);
    SegmentsStep(t, PosixSeparator, 2);
    assert Segments(t, PosixSeparator) == ["/b", "/c"];
    SegmentsStep(s, PosixSeparator, 2);
  }

  /** Consecutive separators give an empty segment. */
  lemma ExampleConsecutive()
    ensures Segments("/a::/b", PosixSeparator) == ["/a", "", "/b"]
  {
    assert "/a::/b"[..2] == "/a" && "/a::/b"[3..] == ":/b";
    SegmentsStep("/a::/b", PosixSeparator, 2);
    assert ":/b"[..0] == "" && ":/b"[1..] == "/b";
    SegmentsStep(":/b", PosixSeparator, 0);
    SegmentsLast("/b", PosixSeparator);
  }

  /** A trailing separator gives no trailing empty segment. */
  lemma ExampleTrailing()
    ensures Segments("/a:", PosixSeparator) == ["/a"]
  {
    assert "/a:"[..2] == "/a" && "/a:"[3..] == "";
    SegmentsStep("/a:", PosixSeparator, 2);
  }

  /** On Windows builds `;` separates directories and `:` is an ordinary
      character. */
  lemma ExampleWindows()
    ensures Segments("C:/a;D:/b", WindowsSeparator) == ["C:/a", "D:/b"]
  {
    var s, t := "C:/a;D:/b", "D:/b";
    assert s[..4] == "C:/a" && s[5..] == t;
    assert WindowsSeparator !in t;
    SegmentsLast(t, WindowsSeparator);
    SegmentsStep(s, WindowsSeparator, 4);
  }
}
