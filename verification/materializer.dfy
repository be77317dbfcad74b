/**
 * Turning marked notes into blog posts (`PrepareBlogPost`): for each note,
 * the site generator scaffolds a post named after the note without its
 * `#pub#` marker, the note's bytes are written over the scaffold, and the
 * note is renamed to drop the marker. The disk is a map from paths to file
 * contents; the generator and the permission checks are parameters.
 */
module Materializer {
  import opened GoStrings
  import opened Settings

  /** The marker a note carries in its file name while it waits to be published. */
  const Marker: string := "#pub#"

  newtype byte = x: int | 0 <= x < 256

  /** The files on disk, by path. */
  type FileSystem = map<string, seq<byte>>

  datatype Option<T> = None | Some(value: T)

  /**
   * What the world outside the model decides: `newPost(fs, base)` is the
   * scaffold `hugo new posts/<base>` writes at the post's destination, or
   * `None` when the command fails; `canWrite` and `canRename` say whether
   * writing a path and renaming one path to another succeed; `siteUpdates`
   * says whether the site build and the pushes that follow all succeed.
   */
  datatype Environment = Environment(
    newPost: (FileSystem, string) -> Option<seq<byte>>,
    canWrite: string -> bool,
    canRename: (string, string) -> bool,
    siteUpdates: bool)

  /** Why processing stopped: each of these ends the program. */
  datatype Failure = GeneratorFailed | ReadFailed | WriteFailed

  /** The disk after a run over some notes, and whether the run got to the end. */
  datatype Outcome =
    | Finished(fs: FileSystem)
    | Aborted(fs: FileSystem, file: string, failure: Failure)

  /** The note's new name: its path with the first marker cut out. */
  function PublishedName(filename: string): string
  {
    ReplaceFirst(filename, Marker, "")
  }

  /** Where the post for a note is written: the posts directory joined with the base of the new name. */
  function Destination(config: Config, filename: string): string
  {
    PathJoin(config.blog.postsDir, Base(PublishedName(filename)))
  }

  /** `os.Rename(from, to)`: the file moves, replacing whatever was at `to`. */
  function Move(fs: FileSystem, from: string, to: string): FileSystem
    requires from in fs
  {
    (fs - {from})[to := fs[from]]
  }

  /**
   * One note, as one iteration of the loop does it: scaffold the post, read
   * the note, write it over the scaffold, rename the note. A failed
   * scaffold, read or write removes the destination and stops; a failed
   * rename is ignored.
   */
  function PrepareOne(env: Environment, config: Config, fs: FileSystem, filename: string): Outcome
  {
    var newPath := PublishedName(filename);
    var dest := Destination(config, filename);
    match env.newPost(fs, Base(newPath))
    case None => Aborted(fs - {dest}, filename, GeneratorFailed)
    case Some(scaffold) =>
      var scaffolded := fs[dest := scaffold];
      if filename !in scaffolded then Aborted(scaffolded - {dest}, filename, ReadFailed)
      else if !env.canWrite(dest) then Aborted(scaffolded - {dest}, filename, WriteFailed)
      else
        var written := scaffolded[dest := scaffolded[filename]];
        Finished(if env.canRename(filename, newPath) then Move(written, filename, newPath) else written)
  }

  /** The notes in order, stopping at the first one that fails. */
  function PrepareAll(env: Environment, config: Config, fs: FileSystem, filenames: seq<string>): Outcome
    decreases |filenames|
  {
    if filenames == [] then Finished(fs)
    else
      match PrepareOne(env, config, fs, filenames[0])
      case Aborted(fs', file, failure) => Aborted(fs', file, failure)
      case Finished(fs') => PrepareAll(env, config, fs', filenames[1..])
  }

  // ---------------------------------------------------------------------
  // The new name and the destination

  /**
   * When no marker starts before `before` ends, the marker after it is the
   * first one: only that one is cut out, and the rest of the name is kept
   * as it is (`a#pub#b#pub#.md` becomes `ab#pub#.md`).
   */
  lemma PublishedNameCutsFirstMarker(before: string, after: string)
    requires forall j :: 0 <= j < |before| ==> !OccursAt(before + Marker + after, Marker, j)
    ensures PublishedName(before + Marker + after) == before + after
  {
    var s := before + Marker + after;
    var i := |before|;
    assert s[i..i + |Marker|] == Marker;
    assert OccursAt(s, Marker, i);
    assert ReplaceFirst(s, Marker, "") == s[..i] + "" + s[i + |Marker|..];
    assert s[..i] == before;
    assert s[i + |Marker|..] == after;
  }

  /** A part of a name without `#` holds no marker, even one that runs past its end. */
  lemma NoMarkerBefore(before: string, after: string)
    requires Lacks(before, '#')
    ensures forall j :: 0 <= j < |before| ==> !OccursAt(before + Marker + after, Marker, j)
  {
    var s := before + Marker + after;
    forall j | 0 <= j < |before|
      ensures !OccursAt(s, Marker, j)
    {
      assert s[j..j + |Marker|][0] == before[j];
    }
  }

  /** A name is left as it is exactly when it has no marker; otherwise it loses the marker's five characters. */
  lemma PublishedNameUnchangedIffUnmarked(filename: string)
    ensures PublishedName(filename) == filename <==> forall i :: !OccursAt(filename, Marker, i)
    ensures (exists i :: OccursAt(filename, Marker, i)) ==> |PublishedName(filename)| == |filename| - |Marker|
  {
    var i := Index(filename, Marker);
    if i != -1 {
      assert PublishedName(filename) == filename[..i] + "" + filename[i + |Marker|..];
    }
  }

  /**
   * The post for a note `<dir><before>#pub#<after>` (with `dir` empty or
   * ending in `/`, and no `#` before the marker) lands in the posts
   * directory under the name `<before><after>`.
   */
  lemma DestinationOfMarkedNote(config: Config, dir: string, before: string, after: string)
    requires dir == "" || dir[|dir| - 1] == '/'
    requires Lacks(dir + before, '#')
    requires Lacks(before + after, '/') && before + after != ""
    ensures Destination(config, dir + before + Marker + after)
         == PathJoin(config.blog.postsDir, before + after)
  {
    NoMarkerBefore(dir + before, after);
    PublishedNameCutsFirstMarker(dir + before, after);
    ConcatAssociative(dir, before, after);
    BaseAfterDirectory(dir, before + after);
  }

  /**
   * Whatever the posts directory, the destination's own base name is the
   * note's new base name (unless that new name is made only of slashes).
   */
  lemma DestinationKeepsBase(config: Config, filename: string)
    ensures Base(PublishedName(filename)) != "/" ==>
              Base(Destination(config, filename)) == Base(PublishedName(filename))
    ensures config.blog.postsDir != "" ==>
              Destination(config, filename)[..|config.blog.postsDir|] == config.blog.postsDir
  {
    if Base(PublishedName(filename)) != "/" {
      BaseOfPathJoin(config.blog.postsDir, Base(PublishedName(filename)));
    }
  }

  // ---------------------------------------------------------------------
  // One note

  /** Any failure leaves the disk as it was before the note, except that the destination is gone. */
  lemma PrepareOneFailureRemovesDestination(env: Environment, config: Config, fs: FileSystem, filename: string)
    requires PrepareOne(env, config, fs, filename).Aborted?
    ensures PrepareOne(env, config, fs, filename).fs == fs - {Destination(config, filename)}
    ensures PrepareOne(env, config, fs, filename).file == filename
  {
    var dest := Destination(config, filename);
    match env.newPost(fs, Base(PublishedName(filename)))
    case None =>
    case Some(scaffold) =>
      RemoveOverwritten(fs, dest, scaffold);
  }

  /** Removing a path just written leaves the disk as it was, minus that path. */
  lemma RemoveOverwritten(fs: FileSystem, path: string, contents: seq<byte>)
    ensures fs[path := contents] - {path} == fs - {path}
  {
  }

  /**
   * A note fails exactly when the generator fails, the note cannot be read,
   * or the destination cannot be written; the note cannot be read exactly
   * when it is missing (and is not the destination itself).
   */
  lemma PrepareOneFailsIff(env: Environment, config: Config, fs: FileSystem, filename: string)
    requires filename != Destination(config, filename)
    ensures PrepareOne(env, config, fs, filename).Aborted? <==>
              env.newPost(fs, Base(PublishedName(filename))).None?
              || filename !in fs
              || !env.canWrite(Destination(config, filename))
  {
  }

  /**
   * On success the destination holds the note's original bytes; the note
   * itself moves to its new name if the rename succeeds and stays where it
   * was if not. (The note is assumed not to be its own destination: the
   * read would then see the scaffold instead of the note.)
   */
  lemma PrepareOneSuccessCopies(env: Environment, config: Config, fs: FileSystem, filename: string)
    requires PrepareOne(env, config, fs, filename).Finished?
    requires filename != Destination(config, filename)
    ensures filename in fs
    ensures var fs' := PrepareOne(env, config, fs, filename).fs;
      && Destination(config, filename) in fs'
      && fs'[Destination(config, filename)] == fs[filename]
      && (env.canRename(filename, PublishedName(filename)) ==>
            PublishedName(filename) in fs' && fs'[PublishedName(filename)] == fs[filename]
            && (filename != PublishedName(filename) ==> filename !in fs'))
      && (!env.canRename(filename, PublishedName(filename)) ==> filename in fs' && fs'[filename] == fs[filename])
  {
  }

  /** A note touches only three paths: the note, its new name and the destination. */
  lemma PrepareOneFrame(env: Environment, config: Config, fs: FileSystem, filename: string, other: string)
    requires other != filename && other != PublishedName(filename) && other != Destination(config, filename)
    ensures var fs' := PrepareOne(env, config, fs, filename).fs;
      && (other in fs' <==> other in fs)
      && (other in fs ==> fs'[other] == fs[other])
  {
    var newPath := PublishedName(filename);
    var dest := Destination(config, filename);
    match env.newPost(fs, Base(newPath))
    case None =>
    case Some(scaffold) =>
      var scaffolded := fs[dest := scaffold];
      if filename in scaffolded && env.canWrite(dest) {
        var written := scaffolded[dest := scaffolded[filename]];
        KeepsOther(written, fs, filename, newPath, other);
      }
  }

  /** A move between two paths leaves every third path as it was. */
  lemma KeepsOther(written: FileSystem, fs: FileSystem, from: string, to: string, other: string)
    requires from in written && other != from && other != to
    requires (other in written <==> other in fs) && (other in fs ==> written[other] == fs[other])
    ensures var moved := Move(written, from, to);
      && (other in moved <==> other in fs)
      && (other in fs ==> moved[other] == fs[other])
  {
  }

  // ---------------------------------------------------------------------
  // All the notes

  /** Processing `a` then `b` is processing `a`, and then `b` from where `a` left the disk unless `a` failed. */
  lemma {:induction false} PrepareAllAppend(env: Environment, config: Config, fs: FileSystem, a: seq<string>, b: seq<string>)
    ensures PrepareAll(env, config, fs, a + b)
         == match PrepareAll(env, config, fs, a)
            case Finished(fs') => PrepareAll(env, config, fs', b)
            case Aborted(_, _, _) => PrepareAll(env, config, fs, a)
    decreases |a|
  {
    if a != [] {
      assert (a + b)[0] == a[0];
      assert (a + b)[1..] == a[1..] + b;
      match PrepareOne(env, config, fs, a[0])
      case Aborted(_, _, _) =>
      case Finished(fs') =>
        PrepareAllAppend(env, config, fs', a[1..], b);
    } else {
      assert a + b == b;
    }
  }

  /**
   * A run that fails stops at one note: every note before it succeeded, that
   * note failed from the disk they left, and no note after it was touched.
   */
  lemma {:induction false} PrepareAllStopsAtFailure(env: Environment, config: Config, fs: FileSystem, filenames: seq<string>)
    requires PrepareAll(env, config, fs, filenames).Aborted?
    ensures exists i ::
              && 0 <= i < |filenames|
              && filenames[i] == PrepareAll(env, config, fs, filenames).file
              && PrepareAll(env, config, fs, filenames[..i]).Finished?
              && PrepareAll(env, config, fs, filenames)
                 == PrepareOne(env, config, PrepareAll(env, config, fs, filenames[..i]).fs, filenames[i])
    decreases |filenames|
  {
    var first := PrepareOne(env, config, fs, filenames[0]);
    assert filenames[..0] == [];
    if first.Aborted? {
      PrepareOneFailureRemovesDestination(env, config, fs, filenames[0]);
      assert PrepareAll(env, config, fs, filenames[..0]) == Finished(fs);
    } else {
      var rest := filenames[1..];
      PrepareAllStopsAtFailure(env, config, first.fs, rest);
      var j :| && 0 <= j < |rest|
               && rest[j] == PrepareAll(env, config, first.fs, rest).file
               && PrepareAll(env, config, first.fs, rest[..j]).Finished?
               && PrepareAll(env, config, first.fs, rest)
                  == PrepareOne(env, config, PrepareAll(env, config, first.fs, rest[..j]).fs, rest[j]);
      PrefixAfterHead(filenames, j);
      PrepareAllAppend(env, config, fs, [filenames[0]], rest[..j]);
      assert PrepareAll(env, config, fs, [filenames[0]]) == Finished(first.fs);
      assert filenames[j + 1] == rest[j];
    }
  }

  /** After a failed run the destination of the note that failed does not exist. */
  lemma PrepareAllFailureRemovesDestination(env: Environment, config: Config, fs: FileSystem, filenames: seq<string>)
    requires PrepareAll(env, config, fs, filenames).Aborted?
    ensures PrepareAll(env, config, fs, filenames).file in filenames
    ensures Destination(config, PrepareAll(env, config, fs, filenames).file) !in PrepareAll(env, config, fs, filenames).fs
  {
    PrepareAllStopsAtFailure(env, config, fs, filenames);
    var i :| && 0 <= i < |filenames|
             && filenames[i] == PrepareAll(env, config, fs, filenames).file
             && PrepareAll(env, config, fs, filenames[..i]).Finished?
             && PrepareAll(env, config, fs, filenames)
                == PrepareOne(env, config, PrepareAll(env, config, fs, filenames[..i]).fs, filenames[i]);
    PrepareOneFailureRemovesDestination(env, config, PrepareAll(env, config, fs, filenames[..i]).fs, filenames[i]);
  }

  /**
   * Regrouping a concatenation of three strings. Kept as a lemma of its own:
   * stated inline inside `DestinationOfMarkedNote`, where the string
   * functions' definitions are in scope, the same fact is far costlier.
   */
  lemma ConcatAssociative(a: string, b: string, c: string)
    ensures (a + b) + c == a + (b + c)
  {
  }

  /** The first `j + 1` names are the head followed by the first `j` names of the tail. */
  lemma PrefixAfterHead(names: seq<string>, j: int)
    requires 0 <= j < |names|
    ensures names[..j + 1] == [names[0]] + names[1..][..j]
  {
  }

  // ---------------------------------------------------------------------
  // The disk and the loop

  /** The disk the program changes as it goes. */
  class Disk {
    var files: FileSystem

    constructor (files: FileSystem)
      ensures this.files == files
    {
      this.files := files;
    }
  }

  /** One note, step by step on the disk. */
  method PreparePost(env: Environment, config: Config, disk: Disk, filename: string) returns (outcome: Outcome)
    modifies disk
    ensures outcome == PrepareOne(env, config, old(disk.files), filename)
    ensures disk.files == outcome.fs
  {
    var newPath := PublishedName(filename);
    var base := Base(newPath);
    var dest := Destination(config, filename);
    var scaffold := env.newPost(disk.files, base);
    if scaffold.None? {
      disk.files := disk.files - {dest};
      return Aborted(disk.files, filename, GeneratorFailed);
    }
    disk.files := disk.files[dest := scaffold.value];
    if filename !in disk.files {
      disk.files := disk.files - {dest};
      return Aborted(disk.files, filename, ReadFailed);
    }
    var contents := disk.files[filename];
    if !env.canWrite(dest) {
      disk.files := disk.files - {dest};
      return Aborted(disk.files, filename, WriteFailed);
    }
    disk.files := disk.files[dest := contents];
    if env.canRename(filename, newPath) {
      disk.files := Move(disk.files, filename, newPath);
    }
    return Finished(disk.files);
  }

  /** The remaining notes from position `i`: the note at `i`, then the rest unless it failed. */
  lemma PrepareAllFrom(env: Environment, config: Config, fs: FileSystem, filenames: seq<string>, i: int)
    requires 0 <= i < |filenames|
    ensures PrepareAll(env, config, fs, filenames[i..])
         == if PrepareOne(env, config, fs, filenames[i]).Aborted? then PrepareOne(env, config, fs, filenames[i])
            else PrepareAll(env, config, PrepareOne(env, config, fs, filenames[i]).fs, filenames[i + 1..])
  {
    assert filenames[i..][0] == filenames[i] && filenames[i..][1..] == filenames[i + 1..];
  }

  /** The loop over the selected notes; it returns as soon as one fails, as the program exits there. */
  method PrepareBlogPost(env: Environment, config: Config, disk: Disk, filenames: seq<string>) returns (outcome: Outcome)
    modifies disk
    ensures outcome == PrepareAll(env, config, old(disk.files), filenames)
    ensures disk.files == outcome.fs
  {
    var i := 0;
    while i < |filenames|
      invariant 0 <= i <= |filenames|
      invariant PrepareAll(env, config, old(disk.files), filenames) == PrepareAll(env, config, disk.files, filenames[i..])
    {
      PrepareAllFrom(env, config, disk.files, filenames, i);
      outcome := PreparePost(env, config, disk, filenames[i]);
      if outcome.Aborted? {
        return;
      }
      i := i + 1;
    }
    return Finished(disk.files);
  }
}
