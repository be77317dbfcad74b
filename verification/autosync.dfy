/**
 * One run of the program: collect the markdown notes under the vault, keep
 * the marked ones, turn each into a post, and rebuild and push the site
 * only if there was something to publish.
 */
module AutoSync {
  import opened Settings
  import opened GoStrings
  import opened Discovery
  import opened Materializer

  /** How a run ends, with the disk it leaves. */
  datatype RunResult =
    | Published(fs: FileSystem)
    | PublishFailed(fs: FileSystem)
    | NothingToDo(fs: FileSystem)
    | Stopped(fs: FileSystem, file: string, failure: Failure)
  {
    /** Whether the run went on to build and push the site. */
    predicate Publishing()
    {
      Published? || PublishFailed?
    }
  }

  /** The notes a run turns into posts: the marked ones among the collected paths, in walk order. */
  function Notes(config: Config, vault: Node): seq<string>
  {
    Selected(Collected(config.src.exclude, config.src.baseDir, vault))
  }

  /**
   * The whole run. The site step is reached only when every note was
   * prepared, and it runs only when there was at least one note.
   */
  function Run(env: Environment, config: Config, vault: Node, fs: FileSystem): RunResult
  {
    var notes := Notes(config, vault);
    match PrepareAll(env, config, fs, notes)
    case Aborted(fs', file, failure) => Stopped(fs', file, failure)
    case Finished(fs') =>
      if |notes| > 0 then
        if env.siteUpdates then Published(fs') else PublishFailed(fs')
      else NothingToDo(fs')
  }

  /** The program's steps in order, on a fresh list of paths and the given disk. */
  method AutoSyncOnce(env: Environment, config: Config, vault: Node, disk: Disk) returns (result: RunResult)
    modifies disk
    ensures result == Run(env, config, vault, old(disk.files))
    ensures disk.files == result.fs
  {
    var files := new FileList();
    CollectMarkdownFiles(config, config.src.baseDir, vault, files);
    assert disk.files == old(disk.files);
    assert [] + Collected(config.src.exclude, config.src.baseDir, vault) == Collected(config.src.exclude, config.src.baseDir, vault);
    var notPublished := FilterNotPublishedMarkdownFile(files.paths);
    assert notPublished == Notes(config, vault);
    var outcome := PrepareBlogPost(env, config, disk, notPublished);
    match outcome
    case Aborted(fs, file, failure) =>
      result := Stopped(fs, file, failure);
    case Finished(fs) =>
      if |notPublished| > 0 {
        result := if env.siteUpdates then Published(fs) else PublishFailed(fs);
      } else {
        result := NothingToDo(fs);
      }
  }

  /**
   * The site is rebuilt and pushed exactly when some collected path is
   * marked for publication and every note was prepared.
   */
  lemma PublishingIff(env: Environment, config: Config, vault: Node, fs: FileSystem)
    ensures Run(env, config, vault, fs).Publishing() <==>
              && (exists p :: p in Collected(config.src.exclude, config.src.baseDir, vault) && IsPublishedPath(p))
              && PrepareAll(env, config, fs, Notes(config, vault)).Finished?
  {
    var files := Collected(config.src.exclude, config.src.baseDir, vault);
    var notes := Notes(config, vault);
    if |notes| > 0 {
      SelectedMembers(files, notes[0]);
    }
    forall p | p in files && IsPublishedPath(p)
      ensures |notes| > 0
    {
      SelectedMembers(files, p);
    }
  }

  /**
   * The same in terms of the vault: the site step is reached exactly when
   * some file reached without entering an excluded name has a path that
   * passes both the markdown and the publication test, and no note failed.
   */
  lemma PublishingIffMarkedNoteInVault(env: Environment, config: Config, vault: Node, fs: FileSystem)
    ensures Run(env, config, vault, fs).Publishing() <==>
              && (exists names ::
                    && Walk(config.src.exclude, vault, names)
                    && IsMarkdownPath(PathOf(config.src.baseDir, names))
                    && IsPublishedPath(PathOf(config.src.baseDir, names)))
              && PrepareAll(env, config, fs, Notes(config, vault)).Finished?
  {
    var exclude, root := config.src.exclude, config.src.baseDir;
    PublishingIff(env, config, vault, fs);
    if p :| p in Collected(exclude, root, vault) && IsPublishedPath(p) {
      CollectedSound(exclude, root, vault, p);
    }
    if names :| Walk(exclude, vault, names) && IsMarkdownPath(PathOf(root, names)) && IsPublishedPath(PathOf(root, names)) {
      CollectedComplete(exclude, root, vault, names);
    }
  }

  /** With no marked note the run changes nothing on disk and publishes nothing. */
  lemma NothingToDoIff(env: Environment, config: Config, vault: Node, fs: FileSystem)
    ensures Run(env, config, vault, fs).NothingToDo? <==>
              forall p :: p in Collected(config.src.exclude, config.src.baseDir, vault) ==> !IsPublishedPath(p)
    ensures Run(env, config, vault, fs).NothingToDo? ==> Run(env, config, vault, fs).fs == fs
  {
    var files := Collected(config.src.exclude, config.src.baseDir, vault);
    var notes := Notes(config, vault);
    if |notes| == 0 {
      assert PrepareAll(env, config, fs, notes) == Finished(fs);
      forall p | p in files
        ensures !IsPublishedPath(p)
      {
        SelectedMembers(files, p);
      }
    } else {
      SelectedMembers(files, notes[0]);
    }
  }

  /**
   * A run that stops never reaches the site step; it stops at a marked note
   * it collected, and that note's destination is not on disk afterwards.
   */
  lemma StoppedRunRemovesDestination(env: Environment, config: Config, vault: Node, fs: FileSystem)
    requires Run(env, config, vault, fs).Stopped?
    ensures var r := Run(env, config, vault, fs);
      && r.file in Collected(config.src.exclude, config.src.baseDir, vault)
      && IsPublishedPath(r.file)
      && Destination(config, r.file) !in r.fs
  {
    var notes := Notes(config, vault);
    PrepareAllFailureRemovesDestination(env, config, fs, notes);
    SelectedMembers(Collected(config.src.exclude, config.src.baseDir, vault), PrepareAll(env, config, fs, notes).file);
  }

  /**
   * A vault holding an unmarked note, a marked note and an excluded
   * directory (in that listing order) yields exactly the marked note, and
   * nothing below the excluded directory is looked at.
   */
  lemma VaultWithExcludedDirectory(config: Config, name: string, plain: string, marked: string, skipped: string, below: seq<Node>)
    requires plain !in config.src.exclude && marked !in config.src.exclude && skipped in config.src.exclude
    requires IsMarkdownPath(ChildPath(config.src.baseDir, plain)) && !IsPublishedPath(ChildPath(config.src.baseDir, plain))
    requires IsMarkdownPath(ChildPath(config.src.baseDir, marked)) && IsPublishedPath(ChildPath(config.src.baseDir, marked))
    ensures Notes(config, Dir(name, [File(plain), File(marked), Dir(skipped, below)]))
         == [ChildPath(config.src.baseDir, marked)]
  {
    var p, m := ChildPath(config.src.baseDir, plain), ChildPath(config.src.baseDir, marked);
    VaultWithExcludedDirectoryCollects(config.src.exclude, config.src.baseDir, name, plain, marked, skipped, below);
    assert [p, m][..1] == [p] && [p][..0] == [];
    assert Selected([p]) == [];
  }

  /** The walk over that vault: both notes, in listing order, and nothing from the excluded directory. */
  lemma VaultWithExcludedDirectoryCollects(exclude: seq<string>, root: string, name: string, plain: string, marked: string, skipped: string, below: seq<Node>)
    requires plain !in exclude && marked !in exclude && skipped in exclude
    requires IsMarkdownPath(ChildPath(root, plain)) && IsMarkdownPath(ChildPath(root, marked))
    ensures Collected(exclude, root, Dir(name, [File(plain), File(marked), Dir(skipped, below)]))
         == [ChildPath(root, plain), ChildPath(root, marked)]
  {
    var first, second := [File(plain)], [File(plain), File(marked)];
    var children := [File(plain), File(marked), Dir(skipped, below)];
    var p, m := ChildPath(root, plain), ChildPath(root, marked);
    assert first[..0] == [] && second[..1] == first && children[..2] == second;
    assert ChildContribution(exclude, root, File(plain)) == [p];
    assert ChildContribution(exclude, root, File(marked)) == [m];
    assert ChildContribution(exclude, root, Dir(skipped, below)) == [];
    assert CollectedChildren(exclude, root, first) == [] + [p];
    assert CollectedChildren(exclude, root, second) == [p] + [m];
    assert CollectedChildren(exclude, root, children) == [p, m] + [];
  }

  /**
   * The publication test and the marker removal do not agree: a name ending
   * in `#pub` (with no `#` before it) passes the test but has no `#pub#` to
   * cut, so its new name is the old one and the next run selects it again.
   */
  lemma TrailingMarkerStaysSelected(stem: string)
    requires Lacks(stem, '#')
    ensures IsPublishedPath(stem + "#pub")
    ensures PublishedName(stem + "#pub") == stem + "#pub"
  {
    var s := stem + "#pub";
    assert s[|stem| + 1..] == "pub";
    assert DelimitedAt(s, '#', "pub", |stem| + 1);
    PublishedPathIffDelimited(s);
    forall i | 0 <= i < |stem|
      ensures !OccursAt(s, Marker, i)
    {
      assert s[i..i + |Marker|][0] == stem[i];
    }
    PublishedNameUnchangedIffUnmarked(s);
  }
}
