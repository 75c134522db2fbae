/**
 * The line-oriented reader of the tool's settings file (`parser::parse_config`):
 * `[section]` headers, `key = value` lines routed through a table of string
 * fields and a table of boolean fields, and the `[dependencies]` section
 * collected line by line.
 *
 * The reader applies its per-line step from concurrent tasks that share
 * the current section; the model applies it to the lines in file order.
 */
module Parser {
  import opened Wrappers
  import opened Text

  datatype Linting = Linting(linter: string, configFile: string, enableChecks: bool, treatWarningsAsErrors: bool)
  datatype Analysis = Analysis(staticAnalyzer: string, cppcheckEnable: bool, cppcheckInconclusive: bool, cppcheckForce: bool)
  datatype Profiling = Profiling(tool: string)

  /** The settings record the reader fills in. */
  datatype Config = Config(
    version: string,
    project: string,
    language: string,
    standard: string,
    buildType: string,
    compiler: string,
    warnings: string,
    optimization: string,
    cCache: string,
    sourcesDir: string,
    includeDir: string,
    buildDir: string,
    dependencies: seq<string>,
    linting: Linting,
    analysis: Analysis,
    profiling: Profiling)

  // ---------------------------------------------------------------------
  // trim and parse_bool

  /**
   * `trim(s)`: erase up to the first character not in " \t\r\n", then
   * after the last one. What it computes is `Trimmed`, the single
   * definition of trimming in the model.
   */
  method Trim(s: string) returns (r: string)
    ensures r == Trimmed(s)
    ensures IsTrimmed(r)
  {
    var rest := SkipLeadingSpace(s);
    r := DropTrailingSpace(rest);
    TrimmedEnds(s);
  }

  /** `find_first_not_of(ws)` and the erase before it. */
  method SkipLeadingSpace(s: string) returns (r: string)
    ensures r == TrimLeading(s)
  {
    var i := 0;
    while i < |s| && IsSpace(s[i])
      invariant 0 <= i <= |s|
      invariant TrimLeading(s) == TrimLeading(s[i..])
    {
      assert s[i..][1..] == s[i + 1..];
      i := i + 1;
    }
    r := s[i..];
  }

  /** `find_last_not_of(ws)` and the erase after it. */
  method DropTrailingSpace(s: string) returns (r: string)
    ensures r == TrimTrailing(s)
  {
    var j := |s|;
    assert s[..j] == s;
    while j > 0 && IsSpace(s[j - 1])
      invariant 0 <= j <= |s|
      invariant TrimTrailing(s) == TrimTrailing(s[..j])
    {
      assert s[..j][..j - 1] == s[..j - 1];
      j := j - 1;
    }
    r := s[..j];
  }

  /** `parse_bool(value)`: exactly "true", "1", "on" and "all" are true; case matters. */
  function ParseBool(value: string): (b: bool)
    ensures b <==> value in {"true", "1", "on", "all"}
    ensures b ==> 1 <= |value| <= 4
  {
    value == "true" || value == "1" || value == "on" || value == "all"
  }

  // ---------------------------------------------------------------------
  // The two field tables

  /** The string fields of the record that a key can name. */
  datatype TextField =
    | Version | Project | Language | Standard | BuildType | Compiler | Warnings
    | Optimization | CCache | SourcesDir | IncludeDir | BuildDir
    | Linter | LinterConfigFile | StaticAnalyzer | ProfilingTool

  /** The boolean fields of the record that a key can name. */
  datatype FlagField =
    | EnableChecks | TreatWarningsAsErrors | CppcheckEnable | CppcheckInconclusive | CppcheckForce

  /** `str_fields`: `section.key` to the string field it writes. */
  const StringFields: map<string, TextField> := map[
    "config.version" := Version,
    "config.project" := Project,
    "config.language" := Language,
    "config.standard" := Standard,
    "config.build_type" := BuildType,
    "config.compiler" := Compiler,
    "config.warnings" := Warnings,
    "config.optimization" := Optimization,
    "config.c_cache" := CCache,
    "directories.sources" := SourcesDir,
    "directories.include" := IncludeDir,
    "directories.build" := BuildDir,
    "linting.linter" := Linter,
    "linting.config_file" := LinterConfigFile,
    "analysis.static_analyzer" := StaticAnalyzer,
    "profiling.tool" := ProfilingTool]

  /** `bool_fields`: `section.key` to the boolean field it writes. */
  const BoolFields: map<string, FlagField> := map[
    "linting.enable_checks" := EnableChecks,
    "linting.treat_warnings_as_errors" := TreatWarningsAsErrors,
    "analysis.cppcheck_enable" := CppcheckEnable,
    "analysis.cppcheck_inconclusive" := CppcheckInconclusive,
    "analysis.cppcheck_force" := CppcheckForce]

  function GetString(c: Config, f: TextField): string {
    match f
      case Version => c.version
      case Project => c.project
      case Language => c.language
      case Standard => c.standard
      case BuildType => c.buildType
      case Compiler => c.compiler
      case Warnings => c.warnings
      case Optimization => c.optimization
      case CCache => c.cCache
      case SourcesDir => c.sourcesDir
      case IncludeDir => c.includeDir
      case BuildDir => c.buildDir
      case Linter => c.linting.linter
      case LinterConfigFile => c.linting.configFile
      case StaticAnalyzer => c.analysis.staticAnalyzer
      case ProfilingTool => c.profiling.tool
  }

  function GetBool(c: Config, f: FlagField): bool {
    match f
      case EnableChecks => c.linting.enableChecks
      case TreatWarningsAsErrors => c.linting.treatWarningsAsErrors
      case CppcheckEnable => c.analysis.cppcheckEnable
      case CppcheckInconclusive => c.analysis.cppcheckInconclusive
      case CppcheckForce => c.analysis.cppcheckForce
  }

  /** `*str_fields[key] = value`: writes the field and no other. */
  function SetString(c: Config, f: TextField, value: string): (r: Config)
    ensures GetString(r, f) == value
    ensures forall g :: g != f ==> GetString(r, g) == GetString(c, g)
    ensures forall g :: GetBool(r, g) == GetBool(c, g)
    ensures r.dependencies == c.dependencies
  {
    match f
      case Version => c.(version := value)
      case Project => c.(project := value)
      case Language => c.(language := value)
      case Standard => c.(standard := value)
      case BuildType => c.(buildType := value)
      case Compiler => c.(compiler := value)
      case Warnings => c.(warnings := value)
      case Optimization => c.(optimization := value)
      case CCache => c.(cCache := value)
      case SourcesDir => c.(sourcesDir := value)
      case IncludeDir => c.(includeDir := value)
      case BuildDir => c.(buildDir := value)
      case Linter => c.(linting := c.linting.(linter := value))
      case LinterConfigFile => c.(linting := c.linting.(configFile := value))
      case StaticAnalyzer => c.(analysis := c.analysis.(staticAnalyzer := value))
      case ProfilingTool => c.(profiling := c.profiling.(tool := value))
  }

  /** `*bool_fields[key] = flag`: writes the field and no other. */
  function SetBool(c: Config, f: FlagField, flag: bool): (r: Config)
    ensures GetBool(r, f) == flag
    ensures forall g :: g != f ==> GetBool(r, g) == GetBool(c, g)
    ensures forall g :: GetString(r, g) == GetString(c, g)
    ensures r.dependencies == c.dependencies
  {
    match f
      case EnableChecks => c.(linting := c.linting.(enableChecks := flag))
      case TreatWarningsAsErrors => c.(linting := c.linting.(treatWarningsAsErrors := flag))
      case CppcheckEnable => c.(analysis := c.analysis.(cppcheckEnable := flag))
      case CppcheckInconclusive => c.(analysis := c.analysis.(cppcheckInconclusive := flag))
      case CppcheckForce => c.(analysis := c.analysis.(cppcheckForce := flag))
  }

  // ---------------------------------------------------------------------
  // The per-line step

  /** The settings read so far and the section the last header opened. */
  datatype State = State(config: Config, section: string)

  /** A trimmed line that opens a section: '[' first and ']' last. */
  predicate IsHeader(line: string) {
    |line| >= 2 && line[0] == '[' && line[|line| - 1] == ']'
  }

  /** A trimmed line the step ignores: empty, or a '#' comment. */
  predicate IsBlank(line: string) {
    line == [] || line[0] == '#'
  }

  /** `section.key = value` routed through the string table, else the boolean table, else dropped. */
  function Assign(c: Config, fullKey: string, value: string): (r: Config)
    ensures fullKey !in StringFields && fullKey !in BoolFields ==> r == c
    ensures r.dependencies == c.dependencies
  {
    if fullKey in StringFields then SetString(c, StringFields[fullKey], value)
    else if fullKey in BoolFields then SetBool(c, BoolFields[fullKey], ParseBool(value))
    else c
  }

  /** One line of the settings file, applied to the state the earlier lines left. */
  function Step(st: State, raw: string): State {
    var line := Trimmed(raw);
    if IsBlank(line) then st
    else if IsHeader(line) then st.(section := Trimmed(line[1..|line| - 1]))
    else if st.section == "dependencies" then
      st.(config := st.config.(dependencies := st.config.dependencies + [line]))
    else st.(config := Setting(st.config, st.section, line))
  }

  /** A `key = value` line in `section`; a line without '=' changes nothing. */
  function Setting(c: Config, section: string, line: string): (r: Config)
    ensures '=' !in line ==> r == c
    ensures r.dependencies == c.dependencies
  {
    match FindChar(line, '=')
      case None => c
      case Some(i) => Assign(c, section + "." + Trimmed(line[..i]), Trimmed(line[i + 1..]))
  }

  /** The lines applied in file order. */
  function Fold(st: State, lines: seq<string>): State {
    if lines == [] then st else Step(Fold(st, lines[..|lines| - 1]), lines[|lines| - 1])
  }

  /** The step as the reader performs it, on its two variables. */
  method ApplyLine(config: Config, section: string, raw: string) returns (config': Config, section': string)
    ensures State(config', section') == Step(State(config, section), raw)
  {
    config', section' := config, section;
    var line := Trim(raw);
    if line == [] || line[0] == '#' {
      assert IsBlank(Trimmed(raw));
    } else if line[0] == '[' && line[|line| - 1] == ']' {
      assert IsHeader(line);
      section' := Trim(line[1..|line| - 1]);
    } else if section == "dependencies" {
      assert !IsBlank(line) && !IsHeader(line);
      config' := config.(dependencies := config.dependencies + [line]);
    } else {
      assert !IsBlank(line) && !IsHeader(line);
      config' := ApplySetting(config, section, line);
    }
  }

  /** Splits at the first '=', trims both halves and writes the field the key names. */
  method ApplySetting(config: Config, section: string, line: string) returns (config': Config)
    ensures config' == Setting(config, section, line)
  {
    config' := config;
    var eq := FindChar(line, '=');
    if eq.None? {
      return;
    }
    var key := Trim(line[..eq.value]);
    var value := Trim(line[eq.value + 1..]);
    var fullKey := section + "." + key;
    if fullKey in StringFields {
      config' := SetString(config, StringFields[fullKey], value);
    } else if fullKey in BoolFields {
      config' := SetBool(config, BoolFields[fullKey], ParseBool(value));
    }
  }

  /**
   * `parse_config` on the text of the file, starting from the record's
   * initial values and no section.
   */
  method ParseConfig(text: string, init: Config) returns (config: Config)
    ensures config == Fold(State(init, ""), Lines(text)).config
  {
    var lines := Lines(text);
    config := init;
    var section := "";
    for i := 0 to |lines|
      invariant State(config, section) == Fold(State(init, ""), lines[..i])
    {
      assert lines[..i + 1][..i] == lines[..i];
      config, section := ApplyLine(config, section, lines[i]);
    }
    assert lines[..|lines|] == lines;
  }

  // ---------------------------------------------------------------------
  // What the step does to each kind of line

  /** Blank and comment lines leave whatever came before them as it was. */
  lemma {:induction false} IgnoredLinesVanish(st: State, before: seq<string>, ignored: seq<string>)
    requires forall j :: 0 <= j < |ignored| ==> IsBlank(Trimmed(ignored[j]))
    ensures Fold(st, before + ignored) == Fold(st, before)
  {
    if ignored == [] {
      assert before + ignored == before;
    } else {
      var n := |ignored| - 1;
      var all := before + ignored;
      assert all[..|all| - 1] == before + ignored[..n];
      assert all[|all| - 1] == ignored[n];
      IgnoredLinesVanish(st, before, ignored[..n]);
      BlankLineIgnored(Fold(st, before + ignored[..n]), ignored[n]);
    }
  }

  lemma BlankLineIgnored(st: State, raw: string)
    requires IsBlank(Trimmed(raw))
    ensures Step(st, raw) == st
  {
  }

  /**
   * `[name]` opens section `name` trimmed, whatever section was open (so it
   * ends a `[dependencies]` section) and whatever `name` holds, '=' included.
   */
  lemma HeaderOpensSection(st: State, name: string)
    ensures Step(st, "[" + name + "]") == State(st.config, Trimmed(name))
  {
    var line := "[" + name + "]";
    assert TrimLeading(line) == line;
    assert TrimTrailing(line) == line;
    assert line[1..|line| - 1] == name;
  }

  /** The trimmed form of every line, in order. */
  function TrimmedAll(lines: seq<string>): (r: seq<string>)
    ensures |r| == |lines|
    ensures forall j :: 0 <= j < |lines| ==> r[j] == Trimmed(lines[j])
  {
    if lines == [] then [] else TrimmedAll(lines[..|lines| - 1]) + [Trimmed(lines[|lines| - 1])]
  }

  /** Inside `[dependencies]`, every line up to the next header is kept, trimmed, in order. */
  lemma {:induction false} DependencyLinesCollected(st: State, lines: seq<string>)
    requires st.section == "dependencies"
    requires forall j :: 0 <= j < |lines| ==> !IsBlank(Trimmed(lines[j])) && !IsHeader(Trimmed(lines[j]))
    ensures Fold(st, lines) == st.(config := st.config.(dependencies := st.config.dependencies + TrimmedAll(lines)))
  {
    if lines != [] {
      var n := |lines| - 1;
      DependencyLinesCollected(st, lines[..n]);
      assert TrimmedAll(lines) == TrimmedAll(lines[..n]) + [Trimmed(lines[n])];
    }
  }

  /**
   * Outside `[dependencies]`, a `key=value` line with a trimmed key and a
   * trimmed value is the assignment of `section.key`.
   */
  lemma SettingLine(st: State, key: string, value: string)
    requires st.section != "dependencies"
    requires key != [] && IsTrimmed(key) && '=' !in key && key[0] != '#' && key[0] != '['
    requires IsTrimmed(value)
    ensures Step(st, key + "=" + value) == st.(config := Assign(st.config, st.section + "." + key, value))
  {
    var line := key + "=" + value;
    SettingLineTrimmed(key, value);
    SettingLineSplit(st.config, st.section, key, value);
    assert !IsHeader(line) by {
      assert line[0] == key[0];
    }
  }

  lemma SettingLineTrimmed(key: string, value: string)
    requires key != [] && IsTrimmed(key) && IsTrimmed(value)
    ensures Trimmed(key + "=" + value) == key + "=" + value
  {
    var line := key + "=" + value;
    assert line[0] == key[0];
    if value == [] {
      assert line[|line| - 1] == '=';
    } else {
      assert line[|line| - 1] == value[|value| - 1];
    }
    TrimmedKeeps(line);
  }

  lemma SettingLineSplit(c: Config, section: string, key: string, value: string)
    requires IsTrimmed(key) && '=' !in key && IsTrimmed(value)
    ensures Setting(c, section, key + "=" + value) == Assign(c, section + "." + key, value)
  {
    TrimmedKeeps(key);
    TrimmedKeeps(value);
    var line := key + "=" + value;
    assert line == key + ['='] + value;
    FindCharAfter(key, '=', value);
    assert line[..|key|] == key;
    assert line[|key| + 1..] == value;
  }

  /**
   * A key of the string table: the field it names takes the value, every
   * other field and the section stay as they were.
   */
  lemma StringSettingLine(st: State, key: string, value: string)
    requires st.section != "dependencies"
    requires key != [] && IsTrimmed(key) && '=' !in key && key[0] != '#' && key[0] != '['
    requires IsTrimmed(value)
    requires st.section + "." + key in StringFields
    ensures var r := Step(st, key + "=" + value); var f := StringFields[st.section + "." + key];
      && r.section == st.section
      && GetString(r.config, f) == value
      && (forall g :: g != f ==> GetString(r.config, g) == GetString(st.config, g))
      && (forall g :: GetBool(r.config, g) == GetBool(st.config, g))
      && r.config.dependencies == st.config.dependencies
  {
    SettingLine(st, key, value);
  }

  /**
   * A key of the boolean table: the flag it names becomes `parse_bool` of
   * the value, every other field and the section stay as they were.
   */
  lemma BoolSettingLine(st: State, key: string, value: string)
    requires st.section != "dependencies"
    requires key != [] && IsTrimmed(key) && '=' !in key && key[0] != '#' && key[0] != '['
    requires IsTrimmed(value)
    requires st.section + "." + key in BoolFields
    ensures var r := Step(st, key + "=" + value); var f := BoolFields[st.section + "." + key];
      && r.section == st.section
      && GetBool(r.config, f) == ParseBool(value)
      && (forall g :: g != f ==> GetBool(r.config, g) == GetBool(st.config, g))
      && (forall g :: GetString(r.config, g) == GetString(st.config, g))
      && r.config.dependencies == st.config.dependencies
  {
    SettingLine(st, key, value);
    TablesDisjoint(st.section + "." + key);
  }

  /** No key is in both tables. */
  lemma TablesDisjoint(k: string)
    ensures !(k in StringFields && k in BoolFields)
  {
  }

  /** A key in neither table changes nothing. */
  lemma UnknownKeyIgnored(st: State, key: string, value: string)
    requires st.section != "dependencies"
    requires key != [] && IsTrimmed(key) && '=' !in key && key[0] != '#' && key[0] != '['
    requires IsTrimmed(value)
    requires st.section + "." + key !in StringFields && st.section + "." + key !in BoolFields
    ensures Step(st, key + "=" + value) == st
  {
    SettingLine(st, key, value);
  }

  /** Outside `[dependencies]`, a line that is not a header and has no '=' changes nothing. */
  lemma LineWithoutEqualsIgnored(st: State, raw: string)
    requires st.section != "dependencies"
    requires !IsHeader(Trimmed(raw))
    requires '=' !in raw
    ensures Step(st, raw) == st
  {
    TrimmedIsInterior(raw);
  }

  /** The reader only ever appends to the dependency list. */
  lemma {:induction false} DependenciesOnlyGrow(st: State, lines: seq<string>)
    ensures st.config.dependencies <= Fold(st, lines).config.dependencies
  {
    if lines != [] {
      var n := |lines| - 1;
      DependenciesOnlyGrow(st, lines[..n]);
      var prev := Fold(st, lines[..n]);
      assert prev.config.dependencies <= Step(prev, lines[n]).config.dependencies;
    }
  }
}
