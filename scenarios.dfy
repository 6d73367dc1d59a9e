/** Small packages files and what the catalog answers for them. */
module PackagesScenarios {
  import opened Wrappers
  import opened JsonValue
  import opened PackagesCatalog
  import CommentStripper

  /** `{"shared": ["foo"], "packages": {"t1": ["foo", "bar"]}}` */
  lemma SharedAndPackages()
    ensures var doc := JObject([("shared", StringArray(["foo"])),
                                ("packages", JObject([("t1", StringArray(["foo", "bar"]))]))]);
      && WellShaped(doc)
      && FromDocument(doc).Success?
      && IsSharedPackage(FromDocument(doc).value, "foo")
      && !IsSharedPackage(FromDocument(doc).value, "bar")
      && GetPackages(FromDocument(doc).value, "t1") == Some(["foo", "bar"])
      && GetPackages(FromDocument(doc).value, "missing") == None
  {
    StringsOfStringArray(["foo"]);
    StringsOfStringArray(["foo", "bar"]);
    var packages := JObject([("t1", StringArray(["foo", "bar"]))]);
    assert ListMap(packages.members)[0] == ("t1", ["foo", "bar"]);
  }

  /** `{"package_targets": {"linux": {"x64": ["t1", "t2"]}}}` */
  lemma TwoLevelTargets()
    ensures var doc := JObject([("package_targets", JObject([("linux", JObject([("x64", StringArray(["t1", "t2"]))]))]))]);
      && WellShaped(doc)
      && FromDocument(doc).Success?
      && GetPackageTargets(FromDocument(doc).value, "linux", "x64") == ["t1", "t2"]
      && GetPackageTargets(FromDocument(doc).value, "linux", "arm") == []
      && GetPackageTargets(FromDocument(doc).value, "mac", "x64") == []
  {
    StringsOfStringArray(["t1", "t2"]);
    var archs := JObject([("x64", StringArray(["t1", "t2"]))]);
    var targets := JObject([("linux", archs)]);
    assert ListMap(archs.members)[0] == ("x64", ["t1", "t2"]);
    assert TargetsMap(targets.members)[0] == ("linux", ListMap(archs.members));
  }

  /** A trailing comment is gone before the text is parsed; the blank before it stays. */
  lemma TrailingComment()
    ensures CommentStripper.StripLine("\"packages\": {\"t1\": [\"a\"]} # comment") == "\"packages\": {\"t1\": [\"a\"]} "
  {
    var code, comment := "\"packages\": {\"t1\": [\"a\"]} ", " comment";
    assert code + "#" + comment == "\"packages\": {\"t1\": [\"a\"]} # comment";
    CommentStripper.CutAtFirstHash(code, comment);
  }

  /** A comment followed by blanks and the newline `readlines` keeps is removed all the same. */
  lemma CommentEndingInBlanks()
    ensures CommentStripper.StripLine("\"a\": 1 # note  \n") == "\"a\": 1 "
  {
    var code, comment := "\"a\": 1 ", " note  \n";
    assert code + "#" + comment == "\"a\": 1 # note  \n";
    CommentStripper.CutAtFirstHash(code, comment);
  }

  /** A document that is an array is refused. */
  lemma ArrayDocument()
    ensures FromDocument(JArray([])) == Failure(ConfigError)
  {
  }

  /** `{"packages": {"t1": [], "t2": ["x"]}}` */
  lemma EmptyTargetIsDefined()
    ensures var doc := JObject([("packages", JObject([("t1", StringArray([])), ("t2", StringArray(["x"]))]))]);
      && WellShaped(doc)
      && FromDocument(doc).Success?
      && GetPackages(FromDocument(doc).value, "t1") == Some([])
      && GetPackageTargetsForPackage(FromDocument(doc).value, "x") == ["t2"]
  {
    StringsOfStringArray([]);
    StringsOfStringArray(["x"]);
    var packages := JObject([("t1", StringArray([])), ("t2", StringArray(["x"]))]);
    var info := ListMap(packages.members);
    assert info[0] == ("t1", []) && info[1] == ("t2", ["x"]);
    assert info[1..][1..] == [];
    assert TargetsListing(info[1..], "x") == ["t2"];
  }
}
