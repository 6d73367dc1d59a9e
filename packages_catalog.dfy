/**
 * `PackagesInfo`: a packages file describes, per host platform and
 * architecture, the package targets to use; the packages of each package
 * target; and the packages shared by all hosts. The catalog is built once
 * from the parsed document and then only answers queries.
 */
module PackagesCatalog {
  import opened Wrappers
  import opened JsonValue
  import CommentStripper

  /** The ways building a catalog fails. */
  datatype LoadError =
    | ParseError         // the stripped text is not JSON (`json.loads` raises)
    | ConfigError        // the document is not an object (the `assert`)
    | InvalidInputError  // the argument is neither a path nor a file (`RuntimeError`)

  /**
   * What the constructor is given. Opening and reading the file is I/O; both
   * kinds carry the lines `readlines` returns for it.
   */
  datatype PackagesFile =
    | PathName(path: string, lines: seq<string>)
    | OpenFile(lines: seq<string>)
    | OtherValue

  /** The three fields `__init__` sets; none changes afterwards. */
  datatype PackagesInfo = PackagesInfo(
    platformTargets: Assoc<Assoc<seq<string>>>,  // platform -> arch -> package targets
    sharedPackages: set<string>,                 // packages shared by all hosts
    packages: Assoc<seq<string>>)                // package target -> packages

  /** The invariant construction establishes: every mapping has unique keys, like a dict. */
  predicate Valid(info: PackagesInfo) {
    && UniqueKeys(info.packages)
    && UniqueKeys(info.platformTargets)
    && forall i | 0 <= i < |info.platformTargets| :: UniqueKeys(info.platformTargets[i].1)
  }

  // ---------------------------------------------------------------------------
  // Shapes of the document's fields. The source checks none of them; the model
  // asks for them of the document it is given.

  /** A JSON array of strings. */
  predicate IsStringList(j: Json) {
    j.JArray? && forall n | 0 <= n < |j.items| :: j.items[n].JString?
  }

  /** A JSON object whose values are arrays of strings (`packages`). */
  predicate IsListMap(j: Json) {
    && j.JObject?
    && UniqueKeys(j.members)
    && forall i | 0 <= i < |j.members| :: IsStringList(j.members[i].1)
  }

  /** A JSON object of objects of arrays of strings (`package_targets`). */
  predicate IsTargetsMap(j: Json) {
    && j.JObject?
    && UniqueKeys(j.members)
    && forall i | 0 <= i < |j.members| :: IsListMap(j.members[i].1)
  }

  /** Whatever the document is, each of the three fields it has is of its shape. */
  predicate WellShaped(doc: Json) {
    doc.JObject? ==>
      && UniqueKeys(doc.members)
      && (match Lookup(doc.members, "package_targets") case Some(t) => IsTargetsMap(t) case None => true)
      && (match Lookup(doc.members, "shared") case Some(s) => IsStringList(s) case None => true)
      && (match Lookup(doc.members, "packages") case Some(p) => IsListMap(p) case None => true)
  }

  /** `j` is an object with the member `key: v`. */
  ghost predicate HasMember(j: Json, key: string, v: Json) {
    j.JObject? && exists i | 0 <= i < |j.members| :: j.members[i] == (key, v)
  }

  /** A list of names written as a JSON array. */
  function StringArray(names: seq<string>): (j: Json)
    ensures IsStringList(j)
  {
    JArray(seq(|names|, n requires 0 <= n < |names| => JString(names[n])))
  }

  // ---------------------------------------------------------------------------
  // Construction

  /** The names in a JSON array of strings. */
  function Strings(items: seq<Json>): (names: seq<string>)
    requires forall n | 0 <= n < |items| :: items[n].JString?
    ensures StringArray(names) == JArray(items)
  {
    seq(|items|, n requires 0 <= n < |items| => items[n].str)
  }

  /** Reading back a list of names written as a JSON array gives the list. */
  lemma StringsOfStringArray(names: seq<string>)
    ensures Strings(StringArray(names).items) == names
  {
    var r := Strings(StringArray(names).items);
    assert |r| == |names|;
    forall n | 0 <= n < |names| ensures r[n] == names[n] {
      assert StringArray(names).items[n] == JString(names[n]);
    }
  }

  /** The members of a `packages`-shaped object, values as name lists. */
  function ListMap(members: Assoc<Json>): (a: Assoc<seq<string>>)
    requires forall i | 0 <= i < |members| :: IsStringList(members[i].1)
    ensures Keys(a) == Keys(members)
    ensures forall i | 0 <= i < |members| :: StringArray(a[i].1) == members[i].1
  {
    var a := seq(|members|, i requires 0 <= i < |members| =>
      assert IsStringList(members[i].1);
      (members[i].0, Strings(members[i].1.items)));
    assert forall i | 0 <= i < |members| :: StringArray(a[i].1) == members[i].1 by {
      forall i | 0 <= i < |members| ensures StringArray(a[i].1) == members[i].1 {
        assert IsStringList(members[i].1);
        assert a[i].1 == Strings(members[i].1.items);
      }
    }
    a
  }

  /** The members of a `package_targets`-shaped object, as nested association lists. */
  function TargetsMap(members: Assoc<Json>): (a: Assoc<Assoc<seq<string>>>)
    requires forall i | 0 <= i < |members| :: IsListMap(members[i].1)
    ensures Keys(a) == Keys(members)
    ensures forall i | 0 <= i < |members| ::
      && members[i].1.JObject?
      && Keys(a[i].1) == Keys(members[i].1.members)
      && forall j | 0 <= j < |a[i].1| :: StringArray(a[i].1[j].1) == members[i].1.members[j].1
  {
    var a := seq(|members|, i requires 0 <= i < |members| =>
      assert IsListMap(members[i].1);
      (members[i].0, ListMap(members[i].1.members)));
    assert forall i | 0 <= i < |members| :: IsListMap(members[i].1) && a[i].1 == ListMap(members[i].1.members);
    a
  }

  /**
   * `__init__` after the file is parsed: a document that is not an object is
   * refused; otherwise the three fields are read, each absent one as empty.
   */
  function FromDocument(doc: Json): (r: Result<PackagesInfo, LoadError>)
    requires WellShaped(doc)
    ensures r.Failure? <==> !doc.JObject?
    ensures r.Failure? ==> r.error == ConfigError
    ensures r.Success? ==> Valid(r.value)
    ensures r.Success? && Lookup(doc.members, "package_targets").None? ==> r.value.platformTargets == []
    ensures r.Success? && Lookup(doc.members, "shared").None? ==> r.value.sharedPackages == {}
    ensures r.Success? && Lookup(doc.members, "packages").None? ==> r.value.packages == []
  {
    if !doc.JObject? then Failure(ConfigError)
    else
      var targets := match Lookup(doc.members, "package_targets")
        case Some(t) => TargetsMap(t.members)
        case None => [];
      var shared := match Lookup(doc.members, "shared")
        case Some(s) => set n | n in Strings(s.items)
        case None => {};
      var packages := match Lookup(doc.members, "packages")
        case Some(p) => ListMap(p.members)
        case None => [];
      Success(PackagesInfo(targets, shared, packages))
  }

  /** `PackagesInfo(packages_file)`, with `loads` standing for `json.loads`. */
  method Create(packagesFile: PackagesFile, loads: string -> Option<Json>)
    returns (r: Result<PackagesInfo, LoadError>)
    requires !packagesFile.OtherValue? ==>
      var parsed := loads(CommentStripper.StrippedText(packagesFile.lines));
      parsed.Some? ==> WellShaped(parsed.value)
    ensures packagesFile.OtherValue? ==> r == Failure(InvalidInputError)
    ensures !packagesFile.OtherValue? ==>
      match loads(CommentStripper.StrippedText(packagesFile.lines))
      case None => r == Failure(ParseError)
      case Some(doc) => r == FromDocument(doc)
  {
    var packagesJson: Option<Json>;
    match packagesFile {
      case PathName(_, lines) =>
        packagesJson := CommentStripper.LoadJSONStripComments(lines, loads);
      case OpenFile(lines) =>
        packagesJson := CommentStripper.LoadJSONStripComments(lines, loads);
      case OtherValue =>
        return Failure(InvalidInputError);
    }
    match packagesJson {
      case None =>
        r := Failure(ParseError);
      case Some(doc) =>
        r := FromDocument(doc);
    }
  }

  // ---------------------------------------------------------------------------
  // Queries

  /** Whether a package is shared between all host platforms. */
  function IsSharedPackage(info: PackagesInfo, packageName: string): bool {
    packageName in info.sharedPackages
  }

  /** The package targets of a host, or `[]` when the platform or the arch is not listed. */
  function GetPackageTargets(info: PackagesInfo, hostPlatform: string, hostArch: string): (r: seq<string>)
    ensures Valid(info) ==>
      forall i, j | 0 <= i < |info.platformTargets| && 0 <= j < |info.platformTargets[i].1| ::
        info.platformTargets[i].0 == hostPlatform && info.platformTargets[i].1[j].0 == hostArch ==>
          r == info.platformTargets[i].1[j].1
    ensures (forall i, j | 0 <= i < |info.platformTargets| && 0 <= j < |info.platformTargets[i].1| ::
        !(info.platformTargets[i].0 == hostPlatform && info.platformTargets[i].1[j].0 == hostArch)) ==>
      r == []
  {
    Lookup(Lookup(info.platformTargets, hostPlatform).GetOr([]), hostArch).GetOr([])
  }

  /** The packages of a package target; `None` when it is not one, `Some([])` when it has none. */
  function GetPackages(info: PackagesInfo, packageTarget: string): (r: Option<seq<string>>)
    ensures r.None? <==> forall i | 0 <= i < |info.packages| :: info.packages[i].0 != packageTarget
    ensures Valid(info) ==>
      forall i | 0 <= i < |info.packages| && info.packages[i].0 == packageTarget ::
        r == Some(info.packages[i].1)
  {
    Lookup(info.packages, packageTarget)
  }

  /** The package targets that list `package`, in the order of the `packages` field. */
  function GetPackageTargetsForPackage(info: PackagesInfo, package: string): (r: seq<string>)
    ensures forall t :: t in r <==>
      exists i | 0 <= i < |info.packages| :: info.packages[i].0 == t && package in info.packages[i].1
    ensures IsSubsequence(r, Keys(info.packages))
    ensures Valid(info) ==> NoDuplicates(r)
  {
    TargetsListing(info.packages, package)
  }

  /** `r` is `s` with some elements left out, the rest in their order. */
  predicate IsSubsequence(r: seq<string>, s: seq<string>) {
    r == [] || (s != [] && ((r[0] == s[0] && IsSubsequence(r[1..], s[1..])) || IsSubsequence(r, s[1..])))
  }

  predicate NoDuplicates(r: seq<string>) {
    forall i, j | 0 <= i < j < |r| :: r[i] != r[j]
  }

  /** The list comprehension over `packages.iteritems()`. */
  function TargetsListing(packages: Assoc<seq<string>>, package: string): (r: seq<string>)
    ensures forall t :: t in r <==> exists i | 0 <= i < |packages| :: packages[i].0 == t && package in packages[i].1
    ensures IsSubsequence(r, Keys(packages))
    ensures UniqueKeys(packages) ==> NoDuplicates(r)
  {
    if packages == [] then []
    else
      var rest := TargetsListing(packages[1..], package);
      assert Keys(packages)[1..] == Keys(packages[1..]);
      if package in packages[0].1 then
        assert UniqueKeys(packages) ==> packages[0].0 !in rest;
        [packages[0].0] + rest
      else rest
  }
}

