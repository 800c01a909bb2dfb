/**
 * com.gc.iotools.fmt.deflen.DefiniteModuleFactory (droid-integration branch):
 * reads a line-oriented `ENUM=mode:params` configuration and builds one
 * definite-length detector module per configuration line.
 */
module DefiniteModuleFactoryModule {
  import opened Wrappers
  import opened FmtBase
  import opened JavaStrings

  const DEF_CONF := "deflen.properties"

  /** The name of `FormatEnum.class`, the default enum class. */
  const FORMAT_ENUM_CLASS := "com.gc.iotools.fmt.base.FormatEnum"

  /** The detection modes the factory's switch names. */
  datatype DetectMode = REGEXP | STRING | CLASS

  /**
   * A DefiniteLengthModule after `init(fenum, params)`: a RegexpDetectorModule,
   * a StringDetectorModule, or an instance of the class named by `params`.
   */
  datatype DefiniteLengthModule =
    | RegexpDetectorModule(fenum: FormatEnum, params: string)
    | StringDetectorModule(fenum: FormatEnum, params: string)
    | LoadedModule(className: string, fenum: FormatEnum, params: string)

  /** `FormatEnum.getEnum(enumClazz, name)`, which is not part of this model. */
  type GetEnum = (string, string) -> FormatEnum

  /**
   * Whether `Class.forName(name).newInstance()` yields a DefiniteLengthModule;
   * reflection is not part of this model.
   */
  type Instantiate = string -> bool

  /** `DetectMode.valueOf`: the exact constant name, otherwise IllegalArgumentException. */
  function ValueOf(name: string): (r: Result<DetectMode>)
    ensures r.Ok? <==> name == "REGEXP" || name == "STRING" || name == "CLASS"
    ensures r.Err? ==> r.error == IllegalArgument
  {
    if name == "REGEXP" then Ok(REGEXP)
    else if name == "STRING" then Ok(STRING)
    else if name == "CLASS" then Ok(CLASS)
    else Err(IllegalArgument)
  }

  /** `instantiateClass`: any failure of reflection becomes IllegalStateException. */
  function InstantiateClass(lineNo: int, params: string, fenum: FormatEnum, instantiate: Instantiate): (r: Result<DefiniteLengthModule>)
    ensures r.Ok? <==> instantiate(params)
    ensures r.Ok? ==> r.value.LoadedModule? && r.value.className == params
    ensures r.Err? ==> r.error == IllegalState
  {
    if instantiate(params) then Ok(LoadedModule(params, fenum, params)) else Err(IllegalState)
  }

  /** The switch on the selected mode, followed by `result.init(fenum, params)`. */
  function SelectModule(mode: DetectMode, fenum: FormatEnum, params: string, lineNo: int,
                        instantiate: Instantiate): (r: Result<DefiniteLengthModule>)
    ensures mode != CLASS ==> r.Ok?
    ensures r.Ok? ==> r.value.fenum == fenum && r.value.params == params
    ensures r.Ok? ==>
      && (r.value.RegexpDetectorModule? <==> mode == REGEXP)
      && (r.value.StringDetectorModule? <==> mode == STRING)
      && (r.value.LoadedModule? <==> mode == CLASS)
  {
    match mode
    case REGEXP => Ok(RegexpDetectorModule(fenum, params))
    case STRING => Ok(StringDetectorModule(fenum, params))
    case CLASS => InstantiateClass(lineNo, params, fenum, instantiate)
  }

  /**
   * `getInstance` from line 64 on, once `enumName` and `method` are known: the
   * upper-cased method picks the mode and `params` is the rest of the line after
   * `enumName`, `method` and two separator characters.
   */
  function ParseTail(curLine: string, enumName: string, methodName: string, fenum: FormatEnum, lineNo: int,
                     instantiate: Instantiate): (r: Result<DefiniteLengthModule>)
    ensures ValueOf(ToUpperCase(methodName)).Err? ==> r == Err(IllegalArgument)
    ensures |enumName| + |methodName| + 2 > |curLine| && ValueOf(ToUpperCase(methodName)).Ok? ==> r == Err(IndexOutOfBounds)
    ensures r.Ok? ==>
      && |enumName| + |methodName| + 2 <= |curLine|
      && r.value.params == curLine[|enumName| + |methodName| + 2..]
      && r.value.fenum == fenum
    ensures r.Ok? && ToUpperCase(methodName) != "CLASS" ==>
      r.value == (if ToUpperCase(methodName) == "REGEXP" then RegexpDetectorModule(fenum, curLine[|enumName| + |methodName| + 2..])
                  else StringDetectorModule(fenum, curLine[|enumName| + |methodName| + 2..]))
  {
    var selectedMode :- ValueOf(ToUpperCase(methodName));
    var params :- SubstringFrom(curLine, |enumName| + |methodName| + 2);
    SelectModule(selectedMode, fenum, params, lineNo, instantiate)
  }

  /**
   * `getInstance(curLine, lineNo)` as written: `enumName` is the text before the
   * first `=`, and the method is `curLine.substring(enumName.length() + 1,
   * enumName.indexOf(':'))` — its end index is taken from `enumName`.
   */
  function GetInstance(curLine: string, lineNo: int, enumClazz: string, getEnum: GetEnum,
                       instantiate: Instantiate): Result<DefiniteLengthModule>
  {
    var enumName :- SplitHead(curLine, '=');
    var fenum := getEnum(enumClazz, enumName);
    var methodName :- Substring(curLine, |enumName| + 1, IndexOf(enumName, ':'));
    ParseTail(curLine, enumName, methodName, fenum, lineNo, instantiate)
  }

  /**
   * The begin index `enumName.length() + 1` always exceeds the end index
   * `enumName.indexOf(':')`, which is at most `enumName.length() - 1`: every line
   * that reaches `getInstance` raises an index-out-of-bounds exception.
   */
  lemma GetInstanceAlwaysFails(curLine: string, lineNo: int, enumClazz: string, getEnum: GetEnum,
                               instantiate: Instantiate)
    ensures GetInstance(curLine, lineNo, enumClazz, getEnum, instantiate) == Err(IndexOutOfBounds)
  {
    var split := SplitHead(curLine, '=');
    if split.Ok? {
      var enumName := split.value;
      assert IndexOf(enumName, ':') < |enumName| + 1;
    }
  }

  /**
   * `getInstance` as evidently intended: the method name ends at the first `:`
   * of the whole line, `curLine.indexOf(':')`.
   */
  function GetInstanceIntended(curLine: string, lineNo: int, enumClazz: string, getEnum: GetEnum,
                               instantiate: Instantiate): Result<DefiniteLengthModule>
  {
    var enumName :- SplitHead(curLine, '=');
    var fenum := getEnum(enumClazz, enumName);
    var methodName :- Substring(curLine, |enumName| + 1, IndexOf(curLine, ':'));
    ParseTail(curLine, enumName, methodName, fenum, lineNo, instantiate)
  }

  /**
   * A line `E=m:p`, with no `=` in `E` and no `:` before the one after `m`, yields
   * the module that mode `m` (upper-cased) selects for `getEnum(E)` with parameters `p`.
   */
  lemma GetInstanceIntendedParses(e: string, m: string, p: string, lineNo: int, enumClazz: string,
                                  getEnum: GetEnum, instantiate: Instantiate)
    requires '=' !in e && ':' !in e && ':' !in m
    ensures GetInstanceIntended(e + "=" + m + ":" + p, lineNo, enumClazz, getEnum, instantiate)
            == match ValueOf(ToUpperCase(m))
               case Err(x) => Err(x)
               case Ok(mode) => SelectModule(mode, getEnum(enumClazz, e), p, lineNo, instantiate)
  {
    var line := e + "=" + m + ":" + p;
    var colon := |e| + 1 + |m|;
    assert line[|e|] == '=' && line[colon] == ':';
    assert line[..|e|] == e && line[|e| + 1..colon] == m && line[colon + 1..] == p;
    assert forall k :: 0 <= k < |e| ==> line[k] == e[k];
    assert forall k :: |e| < k < colon ==> line[k] == m[k - |e| - 1];
    assert SplitHead(line, '=') == Ok(e);
    assert IndexOf(line, ':') == colon;
  }

  /** The sample configuration line parses under the intended `getInstance`, where the written one throws. */
  lemma ZipLineIntended(lineNo: int, enumClazz: string, getEnum: GetEnum, instantiate: Instantiate)
    ensures GetInstanceIntended("ZIP=regexp:PK.*", lineNo, enumClazz, getEnum, instantiate)
            == Ok(RegexpDetectorModule(getEnum(enumClazz, "ZIP"), "PK.*"))
    ensures GetInstance("ZIP=regexp:PK.*", lineNo, enumClazz, getEnum, instantiate) == Err(IndexOutOfBounds)
  {
    assert "ZIP" + "=" + "regexp" + ":" + "PK.*" == "ZIP=regexp:PK.*";
    assert ToUpperCase("regexp") == "REGEXP";
    GetInstanceIntendedParses("ZIP", "regexp", "PK.*", lineNo, enumClazz, getEnum, instantiate);
    GetInstanceAlwaysFails("ZIP=regexp:PK.*", lineNo, enumClazz, getEnum, instantiate);
  }

  /** A line the constructor skips: a `#` comment, or blank. */
  predicate Skipped(line: string)
  {
    StartsWith(line, "#") || IsBlank(Some(line))
  }

  /**
   * The constructor's line loop over the first lines of the file: skipped lines
   * are passed over, every other line is handed to `getInstance` with its
   * one-based line number, and the first exception escapes.
   */
  function ModulesOf(lines: seq<string>, enumClazz: string, getEnum: GetEnum, instantiate: Instantiate)
    : Result<seq<DefiniteLengthModule>>
  {
    if |lines| == 0 then Ok([])
    else
      var modules :- ModulesOf(lines[..|lines| - 1], enumClazz, getEnum, instantiate);
      var curLine := lines[|lines| - 1];
      if Skipped(curLine) then Ok(modules)
      else
        var dm :- GetInstance(curLine, |lines|, enumClazz, getEnum, instantiate);
        Ok(modules + [dm])
  }

  /** What the factory keeps. */
  datatype DefiniteModuleFactory = DefiniteModuleFactory(enumClazz: string, modules: seq<DefiniteLengthModule>)
  {
    function GetConfiguredModules(): seq<DefiniteLengthModule> { modules }
  }

  /** The configuration name actually opened: a blank name means `deflen.properties`. */
  function ConfName(confFile: Option<string>): (r: string)
    ensures IsBlank(confFile) ==> r == DEF_CONF
    ensures !IsBlank(confFile) ==> r == confFile.value
  {
    if IsBlank(confFile) then DEF_CONF else confFile.value
  }

  /** The enum class actually used: null means `FormatEnum.class`. */
  function EnumClazz(enumClass: Option<string>): (r: string)
    ensures enumClass.None? ==> r == FORMAT_ENUM_CLASS
    ensures enumClass.Some? ==> r == enumClass.value
  {
    match enumClass
    case None => FORMAT_ENUM_CLASS
    case Some(c) => c
  }

  /** The classpath resources, each the lines of a file; `getResourceAsStream` gives null for a missing one. */
  type Resources = string -> Option<seq<string>>

  /** What the two-argument constructor builds, or the exception it throws. */
  function FactorySpec(confFile: Option<string>, enumClass: Option<string>, resources: Resources,
                       getEnum: GetEnum, instantiate: Instantiate): Result<DefiniteModuleFactory>
  {
    var clazz := EnumClazz(enumClass);
    match resources(ConfName(confFile))
    case None => Err(IllegalArgument)
    case Some(lines) =>
      var modules :- ModulesOf(lines, clazz, getEnum, instantiate);
      Ok(DefiniteModuleFactory(clazz, modules))
  }

  /** The constructor `DefiniteModuleFactory(confFile, enumClass)`. */
  method NewFactory(confFile: Option<string>, enumClass: Option<string>, resources: Resources,
                    getEnum: GetEnum, instantiate: Instantiate) returns (r: Result<DefiniteModuleFactory>)
    ensures resources(ConfName(confFile)).None? ==> r == Err(IllegalArgument)
    ensures r.Ok? ==> r.value.enumClazz == EnumClazz(enumClass)
    ensures r == FactorySpec(confFile, enumClass, resources, getEnum, instantiate)
  {
    var clazz := EnumClazz(enumClass);
    var confFile1 := ConfName(confFile);
    var istream := resources(confFile1);
    if istream.None? {
      return Err(IllegalArgument);
    }
    var lines := istream.value;
    var modulesColl: seq<DefiniteLengthModule> := [];
    var i := 0;
    while i < |lines|
      invariant 0 <= i <= |lines|
      invariant ModulesOf(lines[..i], clazz, getEnum, instantiate) == Ok(modulesColl)
    {
      var curLine := lines[i];
      assert lines[..i + 1][..i] == lines[..i];
      if !(StartsWith(curLine, "#")) && !IsBlank(Some(curLine)) {
        var lineNumber := i + 1;
        var dm := GetInstance(curLine, lineNumber, clazz, getEnum, instantiate);
        match dm
        case Ok(m) =>
          modulesColl := modulesColl + [m];
        case Err(e) =>
          assert ModulesOf(lines[..i + 1], clazz, getEnum, instantiate).Err?;
          ModulesOfErrSticks(lines, i + 1, clazz, getEnum, instantiate);
          assert lines[..|lines|] == lines;
          return Err(e);
      }
      i := i + 1;
    }
    assert lines[..i] == lines;
    r := Ok(DefiniteModuleFactory(clazz, modulesColl));
  }

  /** Once a prefix of the file throws, the whole file throws the same exception. */
  lemma {:induction false} ModulesOfErrSticks(lines: seq<string>, n: nat, enumClazz: string, getEnum: GetEnum,
                                              instantiate: Instantiate)
    requires n <= |lines|
    requires ModulesOf(lines[..n], enumClazz, getEnum, instantiate).Err?
    ensures ModulesOf(lines, enumClazz, getEnum, instantiate) == ModulesOf(lines[..n], enumClazz, getEnum, instantiate)
    decreases |lines| - n
  {
    if n < |lines| {
      assert lines[..n + 1][..n] == lines[..n];
      ModulesOfErrSticks(lines, n + 1, enumClazz, getEnum, instantiate);
    } else {
      assert lines[..n] == lines;
    }
  }

  /** The no-argument constructor: `deflen.properties` and `FormatEnum.class`. */
  method NewDefaultFactory(resources: Resources, getEnum: GetEnum, instantiate: Instantiate)
    returns (r: Result<DefiniteModuleFactory>)
    ensures resources(DEF_CONF).None? ==> r == Err(IllegalArgument)
    ensures r.Ok? ==> r.value.enumClazz == FORMAT_ENUM_CLASS
    ensures r == FactorySpec(None, None, resources, getEnum, instantiate)
  {
    r := NewFactory(Some(DEF_CONF), Some(FORMAT_ENUM_CLASS), resources, getEnum, instantiate);
    DefaultsApply(Some(DEF_CONF), resources, getEnum, instantiate);
  }

  /** A blank configuration name and a null enum class fall back to the defaults. */
  lemma DefaultsApply(confFile: Option<string>, resources: Resources, getEnum: GetEnum, instantiate: Instantiate)
    requires IsBlank(confFile) || confFile == Some(DEF_CONF)
    ensures FactorySpec(confFile, None, resources, getEnum, instantiate)
         == FactorySpec(Some(DEF_CONF), Some(FORMAT_ENUM_CLASS), resources, getEnum, instantiate)
  {
    assert !IsBlank(Some(DEF_CONF)) by { assert !IsWhitespace(DEF_CONF[0]); }
  }

  /**
   * As written, a configuration file yields a factory iff every one of its lines
   * is a comment or blank, and then the factory has no module; the first real
   * line makes the constructor throw an index-out-of-bounds exception.
   */
  lemma {:induction false} ModulesOfAsWritten(lines: seq<string>, enumClazz: string, getEnum: GetEnum,
                                              instantiate: Instantiate)
    ensures ModulesOf(lines, enumClazz, getEnum, instantiate).Ok?
        <==> forall i :: 0 <= i < |lines| ==> Skipped(lines[i])
    ensures ModulesOf(lines, enumClazz, getEnum, instantiate).Ok? ==>
      ModulesOf(lines, enumClazz, getEnum, instantiate).value == []
    ensures ModulesOf(lines, enumClazz, getEnum, instantiate).Err? ==>
      ModulesOf(lines, enumClazz, getEnum, instantiate).error == IndexOutOfBounds
  {
    if |lines| > 0 {
      var init := lines[..|lines| - 1];
      ModulesOfAsWritten(init, enumClazz, getEnum, instantiate);
      GetInstanceAlwaysFails(lines[|lines| - 1], |lines|, enumClazz, getEnum, instantiate);
      assert forall i :: 0 <= i < |init| ==> init[i] == lines[i];
    }
  }

  /** The example configuration line `ZIP=regexp:PK.*` makes the constructor throw. */
  lemma ExampleLineThrows(getEnum: GetEnum, instantiate: Instantiate, resources: Resources)
    requires resources(DEF_CONF) == Some(["# definite length modules", "ZIP=regexp:PK.*"])
    ensures FactorySpec(None, None, resources, getEnum, instantiate) == Err(IndexOutOfBounds)
  {
    var lines := ["# definite length modules", "ZIP=regexp:PK.*"];
    assert Skipped(lines[0]) by { assert lines[0][..1] == "#"; }
    assert !Skipped(lines[1]) by { assert lines[1][0] == 'Z'; assert !IsWhitespace('Z'); assert lines[1][..1] != "#"; }
    ModulesOfAsWritten(lines, FORMAT_ENUM_CLASS, getEnum, instantiate);
  }
}
