/**
 * The parts of Go's `strings` and `path` packages that the publishing tool
 * relies on, with Go's semantics: `strings.Index`, `strings.Split` on a
 * one-character separator, `strings.Join`, `strings.Replace(s, old, new, 1)`,
 * `path.Base` and `path.Join` of two elements.
 */
module GoStrings {

  /** No character of `s` is `c`. */
  predicate Lacks(s: string, c: char)
  {
    forall k :: 0 <= k < |s| ==> s[k] != c
  }

  /** `pat` occurs in `s` starting at index `i`. */
  predicate OccursAt(s: string, pat: string, i: int)
  {
    0 <= i && i + |pat| <= |s| && s[i..i + |pat|] == pat
  }

  /** `strings.Index`: the first index at which `pat` occurs in `s`, or -1. */
  function Index(s: string, pat: string): (r: int)
    ensures r == -1 || OccursAt(s, pat, r)
    ensures forall i :: 0 <= i && (r == -1 || i < r) ==> !OccursAt(s, pat, i)
    decreases |s|
  {
    if |s| < |pat| then -1
    else if s[..|pat|] == pat then 0
    else
      var k := Index(s[1..], pat);
      assert !OccursAt(s, pat, 0) by {
        assert s[0..|pat|] == s[..|pat|];
      }
      assert forall i :: 1 <= i ==> (OccursAt(s[1..], pat, i - 1) <==> OccursAt(s, pat, i)) by {
        forall i | 1 <= i
          ensures OccursAt(s[1..], pat, i - 1) <==> OccursAt(s, pat, i)
        {
          if i + |pat| <= |s| {
            assert s[1..][i - 1..i - 1 + |pat|] == s[i..i + |pat|];
          }
        }
      }
      if k == -1 then -1 else k + 1
  }

  /** The index of the first `c` in `s`, or -1 (Go's `strings.IndexByte`). */
  function IndexByte(s: string, c: char): (r: int)
    ensures r == -1 ==> Lacks(s, c)
    ensures r != -1 ==> 0 <= r < |s| && s[r] == c && Lacks(s[..r], c)
    decreases |s|
  {
    if |s| == 0 then -1
    else if s[0] == c then 0
    else
      var k := IndexByte(s[1..], c);
      if k == -1 then -1 else k + 1
  }

  /** The index of the last `c` in `s`, or -1 (Go's `strings.LastIndex` on a one-character string). */
  function LastIndexByte(s: string, c: char): (r: int)
    ensures r == -1 ==> Lacks(s, c)
    ensures r != -1 ==> 0 <= r < |s| && s[r] == c && Lacks(s[r + 1..], c)
    decreases |s|
  {
    if |s| == 0 then -1
    else if s[|s| - 1] == c then |s| - 1
    else
      var k := LastIndexByte(s[..|s| - 1], c);
      if k == -1 then -1 else k
  }

  /** `strings.Join(parts, string(sep))`. */
  function Join(parts: seq<string>, sep: char): string
    decreases |parts|
  {
    if |parts| == 0 then ""
    else if |parts| == 1 then parts[0]
    else parts[0] + [sep] + Join(parts[1..], sep)
  }

  /**
   * `strings.Split(s, string(sep))`: the maximal `sep`-free pieces between
   * separators, in order. `Split("", sep) == [""]` and two adjacent separators
   * give an empty piece.
   */
  function Split(s: string, sep: char): (r: seq<string>)
    ensures |r| >= 1
    ensures forall k :: 0 <= k < |r| ==> Lacks(r[k], sep)
    decreases |s|
  {
    var i := IndexByte(s, sep);
    if i == -1 then [s] else [s[..i]] + Split(s[i + 1..], sep)
  }

  /** One step of `Split`: the piece before the first separator, then the split of the rest. */
  lemma SplitStep(s: string, sep: char)
    requires IndexByte(s, sep) != -1
    ensures Split(s, sep) == [s[..IndexByte(s, sep)]] + Split(s[IndexByte(s, sep) + 1..], sep)
  {
  }

  /** Join of a piece followed by at least one more piece. */
  lemma JoinCons(head: string, rest: seq<string>, sep: char)
    requires |rest| >= 1
    ensures Join([head] + rest, sep) == head + [sep] + Join(rest, sep)
  {
  }

  /** Joining the pieces of a split with the same separator gives the string back. */
  lemma {:induction false} JoinSplit(s: string, sep: char)
    ensures Join(Split(s, sep), sep) == s
    decreases |s|
  {
    var i := IndexByte(s, sep);
    if i != -1 {
      var tail := s[i + 1..];
      SplitStep(s, sep);
      JoinSplit(tail, sep);
      JoinCons(s[..i], Split(tail, sep), sep);
      assert s[..i] + [s[i]] + s[i + 1..] == s;
    }
  }

  /** In `a + [sep] + b` with no separator in `a`, the first separator is the one after `a`. */
  lemma FirstSeparatorAfter(a: string, sep: char, b: string)
    requires Lacks(a, sep)
    ensures IndexByte(a + [sep] + b, sep) == |a|
  {
    var s := a + [sep] + b;
    assert s[|a|] == sep;
  }

  /** Split is the only way to cut `s` into `sep`-free pieces that join back to `s`. */
  lemma {:induction false} SplitUnique(parts: seq<string>, sep: char)
    requires |parts| >= 1
    requires forall k :: 0 <= k < |parts| ==> Lacks(parts[k], sep)
    ensures Split(Join(parts, sep), sep) == parts
    decreases |parts|
  {
    if |parts| > 1 {
      var head, rest := parts[0], parts[1..];
      var tail := Join(rest, sep);
      assert parts == [head] + rest;
      JoinCons(head, rest, sep);
      var s := head + [sep] + tail;
      FirstSeparatorAfter(head, sep, tail);
      SplitStep(s, sep);
      assert s[..|head|] == head;
      assert s[|head| + 1..] == tail;
      SplitUnique(rest, sep);
    }
  }

  /**
   * `w` stands at index `i` of `s` as a whole `sep`-delimited piece: it is
   * preceded by the start of `s` or a separator and followed by the end of
   * `s` or a separator.
   */
  predicate DelimitedAt(s: string, sep: char, w: string, i: int)
  {
    OccursAt(s, w, i)
    && (i == 0 || s[i - 1] == sep)
    && (i + |w| == |s| || s[i + |w|] == sep)
  }

  /** With no separator in `s`, the only delimited word is `s` itself. */
  lemma DelimitedWithoutSeparator(s: string, sep: char, w: string, j: int)
    requires Lacks(s, sep) && DelimitedAt(s, sep, w, j)
    ensures w == s
  {
  }

  /**
   * A separator-free word delimited at or before the first separator (at
   * index `i`) is the whole piece before that separator.
   */
  lemma DelimitedBeforeFirstSeparator(s: string, sep: char, w: string, i: int, j: int)
    requires Lacks(w, sep) && i == IndexByte(s, sep) && i != -1
    requires DelimitedAt(s, sep, w, j) && j <= i
    ensures w == s[..i]
  {
  }

  /** Delimited words after the first separator are those of the rest of the string. */
  lemma DelimitedAfterFirstSeparator(s: string, sep: char, w: string, i: int, j: int)
    requires i == IndexByte(s, sep) && i != -1 && 0 <= j
    ensures DelimitedAt(s[i + 1..], sep, w, j) <==> DelimitedAt(s, sep, w, i + 1 + j)
  {
    var tail := s[i + 1..];
    if i + 1 + j + |w| <= |s| {
      assert tail[j..j + |w|] == s[i + 1 + j..i + 1 + j + |w|];
    }
  }

  /** `w` stands somewhere in `s` as a whole `sep`-delimited piece. */
  ghost predicate HasDelimited(s: string, sep: char, w: string)
  {
    exists i :: DelimitedAt(s, sep, w, i)
  }

  /**
   * A separator-free word is one of the pieces of `Split(s, sep)` exactly
   * when it stands somewhere in `s` delimited by separators or the ends of `s`.
   */
  lemma {:induction false} SplitContainsIffDelimited(s: string, sep: char, w: string)
    requires Lacks(w, sep)
    ensures w in Split(s, sep) <==> HasDelimited(s, sep, w)
    decreases |s|
  {
    var i := IndexByte(s, sep);
    if i == -1 {
      SplitWithoutSeparator(s, sep, w);
    } else {
      SplitContainsIffDelimited(s[i + 1..], sep, w);
      SplitAtFirstSeparator(s, sep, w, i);
    }
  }

  /** The base case of `SplitContainsIffDelimited`: no separator in `s`. */
  lemma SplitWithoutSeparator(s: string, sep: char, w: string)
    requires Lacks(w, sep) && Lacks(s, sep)
    ensures w in Split(s, sep) <==> HasDelimited(s, sep, w)
  {
    assert Split(s, sep) == [s];
    if w == s {
      assert DelimitedAt(s, sep, w, 0);
    }
    if HasDelimited(s, sep, w) {
      var j :| DelimitedAt(s, sep, w, j);
      DelimitedWithoutSeparator(s, sep, w, j);
    }
  }

  /** The inductive step of `SplitContainsIffDelimited`, at the first separator `i`. */
  lemma SplitAtFirstSeparator(s: string, sep: char, w: string, i: int)
    requires Lacks(w, sep) && i == IndexByte(s, sep) && i != -1
    requires w in Split(s[i + 1..], sep) <==> HasDelimited(s[i + 1..], sep, w)
    ensures w in Split(s, sep) <==> HasDelimited(s, sep, w)
  {
    SplitStep(s, sep);
    DelimitedFirstPiece(s, sep, w, i);
    DelimitedLaterPiece(s, sep, w, i);
  }

  /** The piece before the first separator is a delimited word. */
  lemma DelimitedFirstPiece(s: string, sep: char, w: string, i: int)
    requires Lacks(w, sep) && i == IndexByte(s, sep) && i != -1
    ensures w == s[..i] ==> HasDelimited(s, sep, w)
  {
    if w == s[..i] {
      assert DelimitedAt(s, sep, w, 0);
    }
  }

  /**
   * A delimited word of the rest after the first separator is a delimited
   * word of `s`, and a delimited word of `s` is either the first piece or
   * one of the rest.
   */
  lemma DelimitedLaterPiece(s: string, sep: char, w: string, i: int)
    requires Lacks(w, sep) && i == IndexByte(s, sep) && i != -1
    ensures HasDelimited(s[i + 1..], sep, w) ==> HasDelimited(s, sep, w)
    ensures HasDelimited(s, sep, w) ==> w == s[..i] || HasDelimited(s[i + 1..], sep, w)
  {
    var tail := s[i + 1..];
    if HasDelimited(tail, sep, w) {
      var j :| DelimitedAt(tail, sep, w, j);
      DelimitedAfterFirstSeparator(s, sep, w, i, j);
    }
    if HasDelimited(s, sep, w) {
      var j :| DelimitedAt(s, sep, w, j);
      if j <= i {
        DelimitedBeforeFirstSeparator(s, sep, w, i, j);
      } else {
        DelimitedAfterFirstSeparator(s, sep, w, i, j - i - 1);
      }
    }
  }

  /**
   * `strings.Replace(s, pat, rep, 1)`: the first occurrence of `pat` is
   * replaced by `rep`; with no occurrence, `s` is returned unchanged. (For an
   * empty `pat` Go matches at index 0, and so does this definition.)
   */
  function ReplaceFirst(s: string, pat: string, rep: string): (r: string)
    ensures (forall i :: !OccursAt(s, pat, i)) ==> r == s
    ensures forall i ::
              OccursAt(s, pat, i) && (forall j :: 0 <= j < i ==> !OccursAt(s, pat, j)) ==>
                r == s[..i] + rep + s[i + |pat|..]
  {
    var i := Index(s, pat);
    if i == -1 then s else s[..i] + rep + s[i + |pat|..]
  }

  /** `s` with every trailing `/` removed. */
  function TrimTrailingSlashes(s: string): (r: string)
    ensures |r| <= |s| && r == s[..|r|]
    ensures r == "" || r[|r| - 1] != '/'
    ensures forall k :: |r| <= k < |s| ==> s[k] == '/'
    decreases |s|
  {
    if |s| > 0 && s[|s| - 1] == '/' then TrimTrailingSlashes(s[..|s| - 1]) else s
  }

  /**
   * `path.Base`: the last element of a slash-separated path. Trailing slashes
   * are ignored; the empty path gives "." and a path of only slashes gives "/".
   */
  function Base(p: string): (r: string)
    ensures r != ""
    ensures r == "/" || Lacks(r, '/')
  {
    if p == "" then "."
    else
      var q := TrimTrailingSlashes(p);
      if q == "" then "/" else q[LastIndexByte(q, '/') + 1..]
  }

  /**
   * For a path that does not end in `/`, `Base` is its final element: the
   * path is a directory prefix (empty or ending in `/`) followed by the base.
   */
  lemma BaseIsLastElement(p: string)
    requires p != "" && p[|p| - 1] != '/'
    ensures Lacks(Base(p), '/')
    ensures exists d :: p == d + Base(p) && (d == "" || d[|d| - 1] == '/')
  {
    BaseWithoutTrailingSlash(p);
    var i := LastIndexByte(p, '/');
    var d := p[..i + 1];
    assert p == d + Base(p);
  }

  /** For a path that does not end in `/`, `Base` is what follows the last `/`. */
  lemma BaseWithoutTrailingSlash(p: string)
    requires p != "" && p[|p| - 1] != '/'
    ensures Base(p) == p[LastIndexByte(p, '/') + 1..]
  {
    var q := TrimTrailingSlashes(p);
    assert q == p;
    assert Base(p) == q[LastIndexByte(q, '/') + 1..];
  }

  /**
   * `path.Join(dir, elem)` without the final `path.Clean`: the two parts
   * joined with exactly one `/` between them; an empty `dir` is dropped.
   */
  function PathJoin(dir: string, elem: string): (r: string)
    ensures dir == "" ==> r == elem
    ensures dir != "" ==> |r| >= |dir| + |elem| && r[..|dir|] == dir && r[|r| - |elem| - 1] == '/'
    ensures dir != "" ==> |r| <= |dir| + |elem| + 1
    ensures |r| >= |elem| && r[|r| - |elem|..] == elem
  {
    if dir == "" then elem
    else if dir[|dir| - 1] == '/' then dir + elem
    else dir + "/" + elem
  }

  /** Joining a plain name onto a directory and taking the base gives the name back. */
  lemma BaseOfPathJoin(dir: string, name: string)
    requires name != "" && Lacks(name, '/')
    ensures Base(PathJoin(dir, name)) == name
  {
    // Dafny also finds this unaided, at several times the cost; these steps keep it cheap.
    var p := PathJoin(dir, name);
    assert p[|p| - 1] == name[|name| - 1];
    assert TrimTrailingSlashes(p) == p;
    var i := LastIndexByte(p, '/');
    if dir == "" {
      assert i == -1;
    } else {
      var k := |p| - |name|;
      assert p[k - 1] == '/';
      assert p[k..] == name;
      assert i == k - 1;
    }
  }

  /** The base of a plain name under a directory (empty, or ending in `/`) is the name. */
  lemma BaseAfterDirectory(dir: string, name: string)
    requires dir == "" || dir[|dir| - 1] == '/'
    requires name != "" && Lacks(name, '/')
    ensures Base(dir + name) == name
  {
    assert PathJoin(dir, name) == dir + name;
    BaseOfPathJoin(dir, name);
  }
}
