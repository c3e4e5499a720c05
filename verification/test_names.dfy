/**
 * Test-name utilities of the test-case builder: a test is displayed as
 * `<file-stem> - <testName>[ - <format>]`, and the simple name is recovered
 * from such a display name by stripping the `<file-stem> - ` prefix.
 */
module TestNames {
  import opened Wrappers
  import opened Strings

  /** The exception `extractSimpleTestName` throws. */
  datatype NameError = IllegalArgument(message: string)

  /** The length of `path` once its trailing `/` characters are dropped, looking at the first `n`. */
  function TrimmedLength(path: string, n: nat): (k: nat)
    requires n <= |path|
    ensures k <= n
    decreases n
  {
    if n == 0 || path[n - 1] != '/' then n else TrimmedLength(path, n - 1)
  }

  /** `path` without the trailing `/` characters that `java.io.File` normalises away. */
  function StripTrailingSlashes(path: string): string {
    path[..TrimmedLength(path, |path|)]
  }

  /** `new File(path).getName()`: the last name of the normalised path. */
  function FileName(path: string): string {
    AfterLast(StripTrailingSlashes(path), '/')
  }

  /** Guava's `Files.getNameWithoutExtension`: the file name cut at its last `.`. */
  function Stem(path: string): string {
    BeforeLast(FileName(path), '.')
  }

  lemma {:induction false} TrimmedLengthSpec(path: string, n: nat)
    requires n <= |path|
    ensures var k := TrimmedLength(path, n);
            && (k == 0 || path[k - 1] != '/')
            && (forall i :: k <= i < n ==> path[i] == '/')
    decreases n
  {
    if n > 0 && path[n - 1] == '/' {
      TrimmedLengthSpec(path, n - 1);
    }
  }

  /** Normalisation drops exactly the trailing run of `/` characters. */
  lemma StripTrailingSlashesSpec(path: string)
    ensures StripTrailingSlashes(path) <= path
    ensures |StripTrailingSlashes(path)| == 0 || path[|StripTrailingSlashes(path)| - 1] != '/'
    ensures forall i :: |StripTrailingSlashes(path)| <= i < |path| ==> path[i] == '/'
  {
    TrimmedLengthSpec(path, |path|);
  }

  /**
   * The file name is the last name of the normalised path: its longest suffix
   * holding no `/`.
   */
  lemma FileNameSpec(path: string)
    ensures '/' !in FileName(path)
    ensures |FileName(path)| <= |StripTrailingSlashes(path)|
    ensures FileName(path) == StripTrailingSlashes(path)[|StripTrailingSlashes(path)| - |FileName(path)|..]
    ensures |FileName(path)| < |StripTrailingSlashes(path)| ==>
              StripTrailingSlashes(path)[|StripTrailingSlashes(path)| - |FileName(path)| - 1] == '/'
  {
    AfterLastSpec(StripTrailingSlashes(path), '/');
  }

  /** The stem is the file name up to (excluding) its last `.`, and holds no `/`. */
  lemma StemSpec(path: string)
    ensures '/' !in Stem(path)
    ensures Stem(path) <= FileName(path)
    ensures '.' !in FileName(path) ==> Stem(path) == FileName(path)
    ensures '.' in FileName(path) ==>
              |Stem(path)| < |FileName(path)| && FileName(path)[|Stem(path)|] == '.' && '.' !in FileName(path)[|Stem(path)| + 1..]
  {
    FileNameSpec(path);
    BeforeLastSpec(FileName(path), '.');
    var f := FileName(path);
    var st := Stem(path);
    assert forall ch :: ch in st ==> ch in f;
  }

  /**
   * `filePrefix`: the stem followed by the separator ` - `. The separator is
   * the only `/`-free tail the prefix adds: the stem part holds no `/`.
   */
  function FilePrefix(path: string): (r: string)
    ensures |r| == |Stem(path)| + 3
    ensures r[..|Stem(path)|] == Stem(path) && r[|Stem(path)|..] == " - "
    ensures '/' !in r
  {
    StemSpec(path);
    Stem(path) + " - "
  }

  /** The ` - <format>` suffix, present only when an explicit format was given. */
  function FormatSuffix(explicitFormat: Option<string>): (r: string)
    ensures explicitFormat.None? <==> r == []
    ensures explicitFormat.Some? ==> |r| == 3 + |explicitFormat.value| && r[3..] == explicitFormat.value
  {
    match explicitFormat
    case Some(f) => " - " + f
    case None => ""
  }

  /** `buildTestName`. */
  function BuildTestName(path: string, testName: string, explicitFormat: Option<string>): (r: string)
    ensures FilePrefix(path) <= r
    ensures |r| == |FilePrefix(path)| + |testName| + |FormatSuffix(explicitFormat)|
    ensures r[|FilePrefix(path)|..|FilePrefix(path)| + |testName|] == testName
    ensures explicitFormat.Some? ==> r[|r| - |explicitFormat.value| - 3..] == " - " + explicitFormat.value
  {
    FilePrefix(path) + testName + FormatSuffix(explicitFormat)
  }

  /**
   * `extractSimpleTestName`: the part of `testName` after the file prefix, or
   * the `IllegalArgumentException` raised when `testName` does not start with it.
   */
  function ExtractSimpleTestName(path: string, testName: string): (r: Result<string, NameError>)
    ensures r.Failure? <==> !(FilePrefix(path) <= testName)
    ensures r.Failure? ==> r.error == IllegalArgument("Not prefixed test name: " + testName)
    ensures r.Success? ==> FilePrefix(path) + r.value == testName
  {
    var prefix := FilePrefix(path);
    if !(prefix <= testName) then
      Failure(IllegalArgument("Not prefixed test name: " + testName))
    else
      assert testName == prefix + testName[|prefix|..];
      Success(testName[|prefix|..])
  }

  /** Extracting from a built name never fails and gives the test name with its format suffix. */
  lemma ExtractBuiltName(path: string, testName: string, explicitFormat: Option<string>)
    ensures ExtractSimpleTestName(path, BuildTestName(path, testName, explicitFormat))
            == Success(testName + FormatSuffix(explicitFormat))
  {
    var prefix := FilePrefix(path);
    var built := BuildTestName(path, testName, explicitFormat);
    assert built == prefix + (testName + FormatSuffix(explicitFormat));
    assert built[|prefix|..] == testName + FormatSuffix(explicitFormat);
  }

  /** Conversely, whatever is extracted rebuilds the same name (without a format suffix). */
  lemma BuildExtractedName(path: string, testName: string)
    requires ExtractSimpleTestName(path, testName).Success?
    ensures BuildTestName(path, ExtractSimpleTestName(path, testName).value, None) == testName
  {
  }

  lemma FileNameExample()
    ensures FileName("dir/MyTest.json") == "MyTest.json"
  {
    var path := "dir/MyTest.json";
    assert TrimmedLength(path, |path|) == |path|;
    assert StripTrailingSlashes(path) == path;
    LastIndexOfSpec(path, '/');
    assert path[3] == '/';
    assert LastIndexOf(path, '/') == 3;
  }

  lemma StemExample()
    ensures Stem("dir/MyTest.json") == "MyTest"
  {
    FileNameExample();
    var name := "MyTest.json";
    LastIndexOfSpec(name, '.');
    assert name[6] == '.';
    assert LastIndexOf(name, '.') == 6;
  }

  /** The display name of a test example: a file in a directory, with and without a format. */
  lemma BuildTestNameExample()
    ensures BuildTestName("dir/MyTest.json", "case1", Some("JSON")) == "MyTest - case1 - JSON"
    ensures BuildTestName("dir/MyTest.json", "case1", None) == "MyTest - case1"
  {
    StemExample();
  }

  /** Extracting the simple name of the example. */
  lemma ExtractSimpleTestNameExample()
    ensures ExtractSimpleTestName("dir/MyTest.json", "MyTest - case1 - JSON") == Success("case1 - JSON")
    ensures ExtractSimpleTestName("dir/MyTest.json", "case1").Failure?
  {
    StemExample();
    assert FilePrefix("dir/MyTest.json") == "MyTest - ";
    assert "MyTest - " <= "MyTest - case1 - JSON";
  }

  /** The name does not determine the format: the suffix can also come from the test name. */
  lemma FormatNotRecoverable(path: string, testName: string, format: string)
    ensures BuildTestName(path, testName + " - " + format, None) == BuildTestName(path, testName, Some(format))
  {
    var prefix := FilePrefix(path);
    var suffix := FormatSuffix(Some(format));
    assert suffix == " - " + format;
    assert FormatSuffix(None) == [];
    assert testName + " - " + format == testName + suffix;
    assert prefix + (testName + suffix) + [] == prefix + testName + suffix;
  }
}
