/** The directory-list parser of openrave-core (`ParseDirectories`).

    The C++ function takes a `const char*` that may be NULL and an output
    vector it fills by reference; here the pointer is an `Option<string>`
    (`None` for NULL), the vector is passed in as `vdirs` and comes back as
    `dirs`, and the separator, fixed by conditional compilation in the source,
    is a parameter.
 */
module OpenRaveCore {
  import opened DirectoryList

  datatype Option<T> = None | Some(value: T)

  /** `std::string::find(c, pos)`: the first index at or after `pos` holding
      `c`, or `None` (the source's `npos`) when there is none; `FindSpec`
      states that it is the first. */
  function Find(s: string, c: char, pos: nat): (r: Option<nat>)
    ensures r.Some? ==> pos <= r.value < |s|
    decreases |s| - pos
  {
    if pos >= |s| then None
    else if s[pos] == c then Some(pos)
    else Find(s, c, pos + 1)
  }

  /** `Find` reports an occurrence of `c` with none before it from `pos` on,
      and reports `None` only when `c` does not occur from `pos` on. */
  lemma {:induction false} FindSpec(s: string, c: char, pos: nat)
    ensures Find(s, c, pos).Some? ==>
      var i := Find(s, c, pos).value; s[i] == c && c !in s[pos..i]
    ensures Find(s, c, pos).None? ==> pos >= |s| || c !in s[pos..]
    decreases |s| - pos
  {
    if pos < |s| && s[pos] != c {
      FindSpec(s, c, pos + 1);
      assert s[pos..] == [s[pos]] + s[pos + 1..];
      var r := Find(s, c, pos + 1);
      if r.Some? {
        assert s[pos..r.value] == [s[pos]] + s[pos + 1..r.value];
      }
    }
  }

  /** Splits the directory list `pdirs` on `sep`. A null list gives `false`
      and no directories; any other list gives `true` and its segments, which
      keep empty directories between separators but drop a trailing one. The
      caller's previous vector contents `vdirs` never reach the result. */
  method ParseDirectories(pdirs: Option<string>, sep: char, vdirs: seq<string>)
    returns (ok: bool, dirs: seq<string>)
    ensures ok <==> pdirs.Some?
    ensures pdirs.None? ==> dirs == []
    ensures pdirs.Some? ==> dirs == Segments(pdirs.value, sep)
  {
    dirs := vdirs[..0];
    if pdirs.None? {
      return false, dirs;
    }
    var tmp := pdirs.value;
    var pos: nat := 0;
    ParseStart(tmp, sep);
    while pos < |tmp|
      invariant pos <= |tmp|
      invariant dirs + Segments(tmp[pos..], sep) == Segments(tmp, sep)
      decreases |tmp| - pos
    {
      var newpos := Find(tmp, sep, pos);
      var n := if newpos.None? then |tmp| - pos else newpos.value - pos;
      ParseStep(tmp, sep, pos, newpos, n, dirs);
      dirs := dirs + [tmp[pos..pos + n]];
      if newpos.None? {
        break;
      }
      pos := newpos.value + 1;
    }
    // Either the loop ran off the end, or it stopped at the last segment.
    assert dirs == Segments(tmp, sep) by {
      if pos == |tmp| { ParseEnd(tmp, sep, pos, dirs); }
    }
    ok := true;
  }

  /** Before the first round of the parser's loop nothing is parsed yet. */
  lemma ParseStart(s: string, sep: char)
    ensures [] + Segments(s[0..], sep) == Segments(s, sep)
  {
  }

  /** When the parser's cursor reaches the end, every segment is parsed. */
  lemma ParseEnd(s: string, sep: char, pos: nat, done: seq<string>)
    requires pos == |s|
    requires done + Segments(s[pos..], sep) == Segments(s, sep)
    ensures done == Segments(s, sep)
  {
  }

  /** One round of the parser's loop, with `n` the length it computes: the
      segments from `pos` on are the `n` characters up to the separator `Find`
      reports (or up to the end), then the segments after that separator (or
      none). */
  lemma ParseStep(s: string, sep: char, pos: nat, newpos: Option<nat>, n: nat, done: seq<string>)
    requires pos < |s| && newpos == Find(s, sep, pos)
    requires n == if newpos.None? then |s| - pos else newpos.value - pos
    requires done + Segments(s[pos..], sep) == Segments(s, sep)
    ensures pos + n <= |s|
    ensures newpos.None? ==> done + [s[pos..pos + n]] == Segments(s, sep)
    ensures newpos.Some? ==>
      newpos.value == pos + n && (done + [s[pos..pos + n]]) + Segments(s[pos + n + 1..], sep) == Segments(s, sep)
  {
    var t := s[pos..];
    FindSpec(s, sep, pos);
    if newpos.None? {
      assert sep !in t;
      SegmentsLast(t, sep);
      assert t == s[pos..pos + n];
    } else {
      assert t[..n] == s[pos..pos + n] && t[n + 1..] == s[pos + n + 1..];
      SegmentsStep(t, sep, n);
    }
  }
}
