/**
 * Finding the notes to publish: the depth-first walk that collects markdown
 * paths under the vault (`CollectMarkdownFiles`) and the filter that keeps
 * the ones marked for publication (`FilterNotPublishedMarkdownFile`).
 */
module Discovery {
  import opened GoStrings
  import opened Settings

  /**
   * An entry of the scanned tree as the walk sees it. `File` is anything the
   * walk's directory test reports as not a directory, which includes an
   * entry whose `stat` fails; `UnreadableDir` is a directory whose listing
   * fails. The name of a node is its base name inside its parent.
   */
  datatype Node =
    | File(name: string)
    | Dir(name: string, children: seq<Node>)
    | UnreadableDir(name: string)

  /** The path separator of the platform (a Unix one). */
  const PathSeparator: char := '/'

  /** The path of a child entry: the parent path, one separator, the child's name. */
  function ChildPath(entry: string, name: string): string
  {
    entry + [PathSeparator] + name
  }

  /** Whether `element` is one of the entries of `slice`: a scan that stops at the first match. */
  method IsIncludeElement(element: string, slice: seq<string>) returns (found: bool)
    ensures found <==> element in slice
  {
    var i := 0;
    while i < |slice|
      invariant 0 <= i <= |slice|
      invariant element !in slice[..i]
    {
      if element == slice[i] {
        return true;
      }
      i := i + 1;
    }
    return false;
  }

  /** The markdown test: the whole path, cut at every `.`, has a piece that is exactly "md". */
  predicate IsMarkdownPath(path: string)
  {
    "md" in Split(path, '.')
  }

  /** The publication test: the whole path, cut at every `#`, has a piece that is exactly "pub". */
  predicate IsPublishedPath(path: string)
  {
    "pub" in Split(path, '#')
  }

  /**
   * A path passes the markdown test exactly when "md" stands in it between
   * two dots, or between a dot and an end of the path. This is why
   * `x/a.md.bak` passes, `x/a.mdx` does not, and a directory named `a.md.b`
   * makes every file below it pass.
   */
  lemma MarkdownPathIffDelimited(path: string)
    ensures IsMarkdownPath(path) <==> HasDelimited(path, '.', "md")
  {
    SplitContainsIffDelimited(path, '.', "md");
  }

  /**
   * A path passes the publication test exactly when "pub" stands in it
   * between two `#`, or between a `#` and an end of the path.
   */
  lemma PublishedPathIffDelimited(path: string)
    ensures IsPublishedPath(path) <==> HasDelimited(path, '#', "pub")
  {
    SplitContainsIffDelimited(path, '#', "pub");
  }

  /** Every path that contains the marker `#pub#` passes the publication test. */
  lemma MarkerMeansPublished(path: string, i: int)
    requires OccursAt(path, "#pub#", i)
    ensures IsPublishedPath(path)
  {
    assert path[i + 1..i + 4] == path[i..i + 5][1..4];
    assert DelimitedAt(path, '#', "pub", i + 1);
    PublishedPathIffDelimited(path);
  }

  /** A path ending in the extension ".md" passes the markdown test (`x/a.md`). */
  lemma MarkdownExtension(stem: string)
    ensures IsMarkdownPath(stem + ".md")
  {
    var p := stem + ".md";
    assert p[|stem| + 1..|stem| + 3] == "md";
    assert DelimitedAt(p, '.', "md", |stem| + 1);
    MarkdownPathIffDelimited(p);
  }

  /**
   * So does any path with ".md." inside it: a backup such as `x/a.md.bak`,
   * and every file below a directory named like `a.md.b`.
   */
  lemma MarkdownInsidePath(stem: string, rest: string)
    ensures IsMarkdownPath(stem + ".md." + rest)
  {
    var p := stem + ".md." + rest;
    assert p[|stem| + 1..|stem| + 3] == "md";
    assert p[|stem| + 3] == '.';
    assert DelimitedAt(p, '.', "md", |stem| + 1);
    MarkdownPathIffDelimited(p);
  }

  /**
   * A path with exactly one dot passes the markdown test exactly when one of
   * the two sides is "md": `x/a.mdx` does not pass.
   */
  lemma MarkdownOneDot(stem: string, ext: string)
    requires Lacks(stem, '.') && Lacks(ext, '.')
    ensures IsMarkdownPath(stem + "." + ext) <==> stem == "md" || ext == "md"
  {
    assert Join([stem, ext], '.') == stem + "." + ext by {
      JoinCons(stem, [ext], '.');
    }
    SplitUnique([stem, ext], '.');
  }

  /**
   * A path without any dot passes the markdown test only if it is exactly
   * "md": a file named `md` inside a directory is not collected.
   */
  lemma MarkdownNoDot(path: string)
    requires Lacks(path, '.')
    ensures IsMarkdownPath(path) <==> path == "md"
  {
    SplitUnique([path], '.');
  }

  // ---------------------------------------------------------------------
  // The walk

  /**
   * The paths the walk appends for `node` reached at path `entry`, in order:
   * a file's own path if it passes the markdown test; nothing for an
   * unreadable directory; for a directory, the children's contributions in
   * listing order. The root's own name is never compared with `exclude`.
   */
  function Collected(exclude: seq<string>, entry: string, node: Node): seq<string>
    decreases node, 0
  {
    match node
    case File(_) => if IsMarkdownPath(entry) then [entry] else []
    case UnreadableDir(_) => []
    case Dir(_, children) => CollectedChildren(exclude, entry, children)
  }

  /** The contributions of the entries of a listing, in listing order. */
  function CollectedChildren(exclude: seq<string>, entry: string, children: seq<Node>): seq<string>
    decreases children, 2
  {
    if children == [] then []
    else
      CollectedChildren(exclude, entry, children[..|children| - 1])
      + ChildContribution(exclude, entry, children[|children| - 1])
  }

  /** What one entry of the listing of `entry` contributes: nothing if its name is excluded. */
  function ChildContribution(exclude: seq<string>, entry: string, child: Node): seq<string>
    decreases child, 1
  {
    if child.name in exclude then [] else Collected(exclude, ChildPath(entry, child.name), child)
  }

  /** The accumulator the walk appends to (a slice passed by pointer). */
  class FileList {
    var paths: seq<string>

    constructor ()
      ensures paths == []
    {
      paths := [];
    }
  }

  /**
   * The recursive walk: appends to `files` the markdown paths under `node`,
   * which sits at path `entry`, skipping every child whose name is excluded.
   */
  method CollectMarkdownFiles(config: Config, entry: string, node: Node, files: FileList)
    modifies files
    ensures files.paths == old(files.paths) + Collected(config.src.exclude, entry, node)
    decreases node
  {
    match node
    case Dir(_, children) =>
      ghost var before := files.paths;
      var i := 0;
      while i < |children|
        invariant 0 <= i <= |children|
        invariant files.paths == before + CollectedChildren(config.src.exclude, entry, children[..i])
      {
        var child := children[i];
        assert children[..i + 1][..i] == children[..i];
        var ok := IsIncludeElement(child.name, config.src.exclude);
        if !ok {
          CollectMarkdownFiles(config, ChildPath(entry, child.name), child, files);
        }
        i := i + 1;
      }
      assert children[..|children|] == children;
    case UnreadableDir(_) =>
      return;
    case File(_) =>
      var split := Split(entry, '.');
      var isMarkdown := IsIncludeElement("md", split);
      if isMarkdown {
        files.paths := files.paths + [entry];
      }
  }

  // ---------------------------------------------------------------------
  // What the walk collects

  /**
   * `names` leads from `node` down to a file through directories whose
   * listings could be read, and no name on the way is excluded.
   */
  ghost predicate Walk(exclude: seq<string>, node: Node, names: seq<string>)
    decreases names
  {
    if names == [] then node.File?
    else
      && node.Dir?
      && names[0] !in exclude
      && exists c :: c in node.children && c.name == names[0] && Walk(exclude, c, names[1..])
  }

  /** The path reached from `entry` by following `names`. */
  function PathOf(entry: string, names: seq<string>): string
    decreases names
  {
    if names == [] then entry else PathOf(ChildPath(entry, names[0]), names[1..])
  }

  /** Every path a child contributes is among the paths of the whole listing. */
  lemma {:induction false} ChildContributes(exclude: seq<string>, entry: string, children: seq<Node>, i: int, p: string)
    requires 0 <= i < |children| && children[i].name !in exclude
    requires p in Collected(exclude, ChildPath(entry, children[i].name), children[i])
    ensures p in CollectedChildren(exclude, entry, children)
    decreases children
  {
    if i < |children| - 1 {
      var init := children[..|children| - 1];
      assert init[i] == children[i];
      ChildContributes(exclude, entry, init, i, p);
    }
  }

  /** Every path of a listing comes from one child whose name is not excluded. */
  lemma {:induction false} CollectedChildrenSound(exclude: seq<string>, entry: string, children: seq<Node>, p: string)
    requires p in CollectedChildren(exclude, entry, children)
    ensures IsMarkdownPath(p)
    ensures exists i, names ::
              0 <= i < |children| && children[i].name !in exclude
              && Walk(exclude, children[i], names)
              && p == PathOf(ChildPath(entry, children[i].name), names)
    decreases children
  {
    var n := |children| - 1;
    var child := children[n];
    var init := children[..n];
    if p in CollectedChildren(exclude, entry, init) {
      CollectedChildrenSound(exclude, entry, init, p);
      var i, names :| 0 <= i < |init| && init[i].name !in exclude
                      && Walk(exclude, init[i], names)
                      && p == PathOf(ChildPath(entry, init[i].name), names);
      assert init[i] == children[i];
    } else {
      CollectedSound(exclude, ChildPath(entry, child.name), child, p);
    }
  }

  /**
   * Soundness of the walk: every collected path passes the markdown test and
   * is reached from `entry` along a chain of names none of which is excluded.
   */
  lemma {:induction false} CollectedSound(exclude: seq<string>, entry: string, node: Node, p: string)
    requires p in Collected(exclude, entry, node)
    ensures IsMarkdownPath(p)
    ensures exists names :: Walk(exclude, node, names) && p == PathOf(entry, names)
    decreases node
  {
    match node
    case File(_) =>
      assert Walk(exclude, node, []) && p == PathOf(entry, []);
    case Dir(_, children) =>
      CollectedChildrenSound(exclude, entry, children, p);
      var i, names :| 0 <= i < |children| && children[i].name !in exclude
                      && Walk(exclude, children[i], names)
                      && p == PathOf(ChildPath(entry, children[i].name), names);
      var c := children[i];
      var path := [c.name] + names;
      assert path[1..] == names;
      assert c in node.children;
      assert Walk(exclude, node, path);
      assert p == PathOf(entry, path);
  }

  /**
   * Completeness of the walk: every file reached along a chain of names none
   * of which is excluded, whose path passes the markdown test, is collected.
   */
  lemma {:induction false} CollectedComplete(exclude: seq<string>, entry: string, node: Node, names: seq<string>)
    requires Walk(exclude, node, names) && IsMarkdownPath(PathOf(entry, names))
    ensures PathOf(entry, names) in Collected(exclude, entry, node)
    decreases names
  {
    if names != [] {
      var c :| c in node.children && c.name == names[0] && Walk(exclude, c, names[1..]);
      var sub := ChildPath(entry, names[0]);
      CollectedComplete(exclude, sub, c, names[1..]);
      var i :| 0 <= i < |node.children| && node.children[i] == c;
      ChildContributes(exclude, entry, node.children, i, PathOf(entry, names));
    }
  }

  /** The contributions of a listing split at any point are those of its two parts. */
  lemma {:induction false} CollectedChildrenAppend(exclude: seq<string>, entry: string, a: seq<Node>, b: seq<Node>)
    ensures CollectedChildren(exclude, entry, a + b)
         == CollectedChildren(exclude, entry, a) + CollectedChildren(exclude, entry, b)
    decreases |b|
  {
    if b != [] {
      var n := |b| - 1;
      assert (a + b)[..|a + b| - 1] == a + b[..n];
      assert (a + b)[|a + b| - 1] == b[n];
      CollectedChildrenAppend(exclude, entry, a, b[..n]);
    } else {
      assert a + b == a;
    }
  }

  /** The contributions of a listing are those before an entry, the entry's, and those after it. */
  lemma CollectedAround(exclude: seq<string>, entry: string, a: seq<Node>, child: Node, b: seq<Node>)
    ensures CollectedChildren(exclude, entry, a + [child] + b)
         == CollectedChildren(exclude, entry, a) + ChildContribution(exclude, entry, child)
            + CollectedChildren(exclude, entry, b)
  {
    CollectedChildrenAppend(exclude, entry, a + [child], b);
    assert (a + [child])[..|a|] == a;
  }

  /**
   * An unreadable directory contributes nothing, and the walk goes on with
   * its siblings: the listing collects what it would without that entry.
   */
  lemma UnreadableDirSkipped(exclude: seq<string>, entry: string, a: seq<Node>, name: string, b: seq<Node>)
    ensures CollectedChildren(exclude, entry, a + [UnreadableDir(name)] + b)
         == CollectedChildren(exclude, entry, a + b)
  {
    CollectedAround(exclude, entry, a, UnreadableDir(name), b);
    CollectedChildrenAppend(exclude, entry, a, b);
  }

  /** An entry whose name is excluded contributes nothing, whatever lies below it. */
  lemma ExcludedChildSkipped(exclude: seq<string>, entry: string, a: seq<Node>, child: Node, b: seq<Node>)
    requires child.name in exclude
    ensures CollectedChildren(exclude, entry, a + [child] + b)
         == CollectedChildren(exclude, entry, a + b)
  {
    CollectedAround(exclude, entry, a, child, b);
    CollectedChildrenAppend(exclude, entry, a, b);
  }

  // ---------------------------------------------------------------------
  // The publication filter

  /** The paths of `files` that pass the publication test, in their input order. */
  function Selected(files: seq<string>): seq<string>
    decreases |files|
  {
    if files == [] then []
    else
      var last := files[|files| - 1];
      Selected(files[..|files| - 1]) + if IsPublishedPath(last) then [last] else []
  }

  /** Builds a new list of the marked paths, appending one at a time. */
  method FilterNotPublishedMarkdownFile(files: seq<string>) returns (res: seq<string>)
    ensures res == Selected(files)
  {
    res := [];
    var i := 0;
    while i < |files|
      invariant 0 <= i <= |files|
      invariant res == Selected(files[..i])
    {
      var filename := files[i];
      assert files[..i + 1][..i] == files[..i];
      var split := Split(filename, '#');
      var ok := IsIncludeElement("pub", split);
      if ok {
        res := res + [filename];
      }
      i := i + 1;
    }
    assert files[..|files|] == files;
  }

  /** The filter keeps exactly the input paths that pass the publication test. */
  lemma {:induction false} SelectedMembers(files: seq<string>, p: string)
    ensures p in Selected(files) <==> p in files && IsPublishedPath(p)
    decreases |files|
  {
    if files != [] {
      var init := files[..|files| - 1];
      SelectedMembers(init, p);
      assert files == init + [files[|files| - 1]];
    }
  }

  /** The filter never lengthens its input. */
  lemma {:induction false} SelectedLength(files: seq<string>)
    ensures |Selected(files)| <= |files|
    decreases |files|
  {
    if files != [] {
      SelectedLength(files[..|files| - 1]);
    }
  }

  /** Filtering a concatenation filters each part, keeping the input order. */
  lemma {:induction false} SelectedAppend(a: seq<string>, b: seq<string>)
    ensures Selected(a + b) == Selected(a) + Selected(b)
    decreases |b|
  {
    if b == [] {
      assert a + b == a;
    } else {
      var n := |b| - 1;
      assert (a + b)[..|a + b| - 1] == a + b[..n];
      assert (a + b)[|a + b| - 1] == b[n];
      SelectedAppend(a, b[..n]);
    }
  }

  /** A list whose every path is marked passes the filter unchanged. */
  lemma {:induction false} SelectedKeepsMarked(files: seq<string>)
    requires forall k :: 0 <= k < |files| ==> IsPublishedPath(files[k])
    ensures Selected(files) == files
    decreases |files|
  {
    if files != [] {
      var n := |files| - 1;
      SelectedKeepsMarked(files[..n]);
      assert files == files[..n] + [files[n]];
    }
  }

  /** Filtering twice is filtering once. */
  lemma SelectedIdempotent(files: seq<string>)
    ensures Selected(Selected(files)) == Selected(files)
  {
    var s := Selected(files);
    forall k | 0 <= k < |s|
      ensures IsPublishedPath(s[k])
    {
      SelectedMembers(files, s[k]);
    }
    SelectedKeepsMarked(s);
  }
}
