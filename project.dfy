/**
 * The project configuration record of include/project_management/parser.hpp,
 * as the dependency manager, the rebuild cache and the compile-command
 * generator consume it (its TOML reader is not part of this model).
 */
module Project {
  /** One `[dependencies]` entry: a git URL with an optional tag, or a local path. */
  datatype Dependency = Dependency(git: string, tag: string, path: string)

  datatype Config = Config(
    version: string,
    name: string,
    language: string,
    standard: string,
    compiler: string,
    sources: string,
    includeDir: string,
    build: string,
    dependencies: map<string, Dependency>,
    libraries: seq<string>,
    libDirs: seq<string>)
}
