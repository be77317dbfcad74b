/**
 * The configuration the tool loads from its JSON file: where the blog's
 * projects live and which part of the note vault to scan.
 */
module Settings {

  /** The `blog` section: the site project, the generator's working directory,
      the generated-site repository and the directory new posts go to. */
  datatype BlogConfig = BlogConfig(
    projectDir: string,
    hugoBuildDir: string,
    githubPageDir: string,
    postsDir: string)

  /** The `src` section: the root of the vault and the base names never entered. */
  datatype SourceConfig = SourceConfig(baseDir: string, exclude: seq<string>)

  datatype Config = Config(blog: BlogConfig, src: SourceConfig)
}
