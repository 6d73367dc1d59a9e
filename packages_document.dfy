/**
 * What the queries answer, stated against the parsed document rather than
 * against the catalog's fields.
 */
module PackagesDocument {
  import opened Wrappers
  import opened JsonValue
  import opened PackagesCatalog

  /** The document has `package_targets[plat][arch]`. */
  ghost predicate HasTargetEntry(doc: Json, plat: string, arch: string) {
    exists targets, archs, list ::
      HasMember(doc, "package_targets", targets) && HasMember(targets, plat, archs) && HasMember(archs, arch, list)
  }

  /** The document has `packages[t]`. */
  ghost predicate HasPackagesEntry(doc: Json, t: string) {
    exists packages, list :: HasMember(doc, "packages", packages) && HasMember(packages, t, list)
  }

  /** In an object with unique keys, a member is exactly what `get` finds. */
  lemma MemberIsLookup(j: Json, key: string)
    requires j.JObject? && UniqueKeys(j.members)
    ensures forall v :: HasMember(j, key, v) <==> Lookup(j.members, key) == Some(v)
  {
    forall v ensures HasMember(j, key, v) <==> Lookup(j.members, key) == Some(v) {
      if Lookup(j.members, key) == Some(v) {
        var i :| 0 <= i < |j.members| && j.members[i] == (key, v);
      }
    }
  }

  lemma StringsHold(items: seq<Json>, p: string)
    requires forall n | 0 <= n < |items| :: items[n].JString?
    ensures p in Strings(items) <==> JString(p) in items
  {
    var names := Strings(items);
    assert StringArray(names).items == items;
    if JString(p) in items {
      var n :| 0 <= n < |items| && items[n] == JString(p);
      assert names[n] == p;
    }
  }

  /** `IsSharedPackage(p)` holds exactly when `p` is in the document's `shared` list. */
  lemma SharedPackageIff(doc: Json, p: string)
    requires WellShaped(doc) && doc.JObject?
    ensures FromDocument(doc).Success?
    ensures IsSharedPackage(FromDocument(doc).value, p) <==>
      exists shared :: HasMember(doc, "shared", shared) && shared.JArray? && JString(p) in shared.items
  {
    MemberIsLookup(doc, "shared");
    match Lookup(doc.members, "shared")
    case None =>
    case Some(s) =>
      StringsHold(s.items, p);
  }

  /** `GetPackageTargets(plat, arch)` is exactly the array at `package_targets[plat][arch]`. */
  lemma PackageTargetsFound(doc: Json, targets: Json, archs: Json, list: Json, plat: string, arch: string)
    requires WellShaped(doc)
    requires HasMember(doc, "package_targets", targets)
    requires HasMember(targets, plat, archs)
    requires HasMember(archs, arch, list)
    ensures FromDocument(doc).Success?
    ensures StringArray(GetPackageTargets(FromDocument(doc).value, plat, arch)) == list
  {
    MemberIsLookup(doc, "package_targets");
    var info := FromDocument(doc).value;
    assert info.platformTargets == TargetsMap(targets.members);
    var i :| 0 <= i < |targets.members| && targets.members[i] == (plat, archs);
    var j :| 0 <= j < |archs.members| && archs.members[j] == (arch, list);
    assert Keys(info.platformTargets)[i] == plat;
    assert Keys(info.platformTargets[i].1)[j] == arch;
  }

  /** Without `package_targets[plat][arch]`, `GetPackageTargets(plat, arch)` is empty. */
  lemma PackageTargetsMissing(doc: Json, plat: string, arch: string)
    requires WellShaped(doc) && doc.JObject?
    requires !HasTargetEntry(doc, plat, arch)
    ensures FromDocument(doc).Success?
    ensures GetPackageTargets(FromDocument(doc).value, plat, arch) == []
  {
    var t := FromDocument(doc).value.platformTargets;
    forall i, j | 0 <= i < |t| && 0 <= j < |t[i].1| ensures !(t[i].0 == plat && t[i].1[j].0 == arch) {
      var targets := Lookup(doc.members, "package_targets").value;
      MemberIsLookup(doc, "package_targets");
      assert t == TargetsMap(targets.members);
      var archs := targets.members[i].1;
      assert Keys(t)[i] == targets.members[i].0;
      assert HasMember(targets, t[i].0, archs);
      assert Keys(t[i].1)[j] == archs.members[j].0;
      assert HasMember(archs, t[i].1[j].0, archs.members[j].1);
    }
  }

  /** `GetPackages(t)` is the array at `packages[t]`: an empty one gives `Some([])`. */
  lemma PackagesFound(doc: Json, packages: Json, list: Json, t: string)
    requires WellShaped(doc)
    requires HasMember(doc, "packages", packages)
    requires HasMember(packages, t, list)
    ensures FromDocument(doc).Success?
    ensures GetPackages(FromDocument(doc).value, t).Some?
    ensures StringArray(GetPackages(FromDocument(doc).value, t).value) == list
  {
    MemberIsLookup(doc, "packages");
    var info := FromDocument(doc).value;
    assert info.packages == ListMap(packages.members);
    var i :| 0 <= i < |packages.members| && packages.members[i] == (t, list);
    assert Keys(info.packages)[i] == t;
  }

  /** `GetPackages(t)` is `None` exactly when the document has no `packages[t]`. */
  lemma PackagesNotFound(doc: Json, t: string)
    requires WellShaped(doc) && doc.JObject?
    ensures FromDocument(doc).Success?
    ensures GetPackages(FromDocument(doc).value, t) == None <==> !HasPackagesEntry(doc, t)
  {
    var info := FromDocument(doc).value;
    MemberIsLookup(doc, "packages");
    if HasPackagesEntry(doc, t) {
      var packages, list :| HasMember(doc, "packages", packages) && HasMember(packages, t, list);
      PackagesFound(doc, packages, list, t);
    } else if GetPackages(info, t).Some? {
      var packages := Lookup(doc.members, "packages").value;
      assert info.packages == ListMap(packages.members);
      var i :| 0 <= i < |info.packages| && info.packages[i].0 == t;
      assert Keys(info.packages)[i] == packages.members[i].0;
      assert HasMember(packages, t, packages.members[i].1);
    }
  }

  /**
   * `GetPackageTargetsForPackage(package)` lists exactly the targets of the
   * document whose packages include `package`, each once, in document order.
   */
  lemma TargetsForPackageExact(doc: Json, package: string)
    requires WellShaped(doc) && doc.JObject?
    ensures FromDocument(doc).Success?
    ensures var r := GetPackageTargetsForPackage(FromDocument(doc).value, package);
      && NoDuplicates(r)
      && (forall t :: t in r <==>
            exists packages, list ::
              HasMember(doc, "packages", packages) && HasMember(packages, t, list)
              && list.JArray? && JString(package) in list.items)
      && (forall packages | HasMember(doc, "packages", packages) ::
            packages.JObject? && IsSubsequence(r, Keys(packages.members)))
  {
    var info := FromDocument(doc).value;
    var r := GetPackageTargetsForPackage(info, package);
    MemberIsLookup(doc, "packages");
    match Lookup(doc.members, "packages")
    case None =>
    case Some(packages) =>
      assert info.packages == ListMap(packages.members);
      forall t ensures t in r <==>
            exists packages, list ::
              HasMember(doc, "packages", packages) && HasMember(packages, t, list)
              && list.JArray? && JString(package) in list.items
      {
        if t in r {
          var i :| 0 <= i < |info.packages| && info.packages[i].0 == t && package in info.packages[i].1;
          assert Keys(info.packages)[i] == packages.members[i].0;
          var list := packages.members[i].1;
          StringsHold(list.items, package);
          assert HasMember(packages, t, list);
        } else {
          forall packages', list | HasMember(doc, "packages", packages') && HasMember(packages', t, list)
            ensures !(list.JArray? && JString(package) in list.items)
          {
            var i :| 0 <= i < |packages.members| && packages.members[i] == (t, list);
            assert Keys(info.packages)[i] == t;
            StringsHold(list.items, package);
            assert info.packages[i].1 == Strings(list.items);
          }
        }
      }
  }
}
