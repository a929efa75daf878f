/** The domain/project catalog (`ConfigData`) and the path classifier
    (`getDomainProjectName`, `getDomainProjectID`, `isOutProjectDef`) of both
    versions of DataUtility.cpp. The two versions differ only in the pattern a
    name must appear as inside a path, so the classifier is written once and
    parameterised by that pattern. */
module Catalog {
  import opened Wrappers
  import opened Text

  /** Domain names in registration order (index = domain ID) and, index-aligned,
      each domain's project names in registration order. */
  datatype ConfigData = ConfigData(domainName: seq<string>, projectName: seq<seq<string>>)
  {
    /** Every domain owns exactly one project list. */
    predicate Valid()
    {
      |domainName| == |projectName|
    }
  }

  /** The catalog before the configuration file is read. */
  function EmptyConfig(): (c: ConfigData)
    ensures c.Valid() && |c.domainName| == 0
  {
    ConfigData([], [])
  }

  /** `ConfigData::addDomainName`: register a domain with no projects yet. */
  function AddDomainName(c: ConfigData, name: string): (c': ConfigData)
    requires c.Valid()
    ensures c'.Valid()
    ensures |c'.domainName| == |c.domainName| + 1
    ensures c'.domainName[|c.domainName|] == name && c'.projectName[|c.domainName|] == []
    ensures c'.domainName[..|c.domainName|] == c.domainName
    ensures c'.projectName[..|c.domainName|] == c.projectName
  {
    ConfigData(c.domainName + [name], c.projectName + [[]])
  }

  /** `ConfigData::addProjectName`: append a project to one domain only. */
  function AddProjectName(c: ConfigData, domainIndex: nat, name: string): (c': ConfigData)
    requires c.Valid() && domainIndex < |c.projectName|
    ensures c'.Valid() && c'.domainName == c.domainName
    ensures |c'.projectName[domainIndex]| == |c.projectName[domainIndex]| + 1
    ensures c'.projectName[domainIndex] == c.projectName[domainIndex] + [name]
    ensures forall i :: 0 <= i < |c.projectName| && i != domainIndex ==>
      c'.projectName[i] == c.projectName[i]
  {
    c.(projectName := c.projectName[domainIndex := c.projectName[domainIndex] + [name]])
  }

  /** How a name must appear in a path. The clang-ehminer version looks for
      `/name/`; the src version looks for `/name`, so a name also matches any
      path segment it is a prefix of. */
  datatype Variant = TrailingSeparator | PrefixOnly

  function Pattern(name: string, variant: Variant): string
  {
    "/" + name + Terminator(variant)
  }

  /** What must follow the name. */
  function Terminator(variant: Variant): string
  {
    if variant == TrailingSeparator then "/" else ""
  }

  predicate Mentions(path: string, name: string, variant: Variant)
  {
    Contains(path, Pattern(name, variant))
  }

  /** Domain `i` is mentioned and so is at least one of its projects. */
  predicate Selectable(c: ConfigData, path: string, variant: Variant, i: nat)
    requires c.Valid() && i < |c.domainName|
  {
    && Mentions(path, c.domainName[i], variant)
    && exists j :: 0 <= j < |c.projectName[i]| && Mentions(path, c.projectName[i][j], variant)
  }

  /** The inner loop: the first project at or after `j` mentioned in the path. */
  function FirstProject(names: seq<string>, path: string, variant: Variant, j: nat): (r: Option<nat>)
    requires j <= |names|
    ensures r.Some? ==> j <= r.value < |names| && Mentions(path, names[r.value], variant)
    ensures r.Some? ==> forall k :: j <= k < r.value ==> !Mentions(path, names[k], variant)
    ensures r.None? ==> forall k :: j <= k < |names| ==> !Mentions(path, names[k], variant)
    decreases |names| - j
  {
    if j == |names| then None
    else if Mentions(path, names[j], variant) then Some(j)
    else FirstProject(names, path, variant, j + 1)
  }

  /** The outer loop from domain `i` on. A mentioned domain none of whose
      projects is mentioned does not stop the search. */
  function LocateFrom(c: ConfigData, path: string, variant: Variant, i: nat): (r: Option<(nat, nat)>)
    requires c.Valid() && i <= |c.domainName|
    ensures r.Some? ==> i <= r.value.0 < |c.domainName| && r.value.1 < |c.projectName[r.value.0]|
    decreases |c.domainName| - i
  {
    if i == |c.domainName| then None
    else if Mentions(path, c.domainName[i], variant) then
      match FirstProject(c.projectName[i], path, variant, 0)
      case Some(j) => Some((i, j))
      case None => LocateFrom(c, path, variant, i + 1)
    else LocateFrom(c, path, variant, i + 1)
  }

  /** The search from `i` picks the least selectable domain at or after `i`
      and, within it, the least mentioned project; it fails only when no
      domain from `i` on is selectable. */
  lemma {:induction false} LocateFromChoice(c: ConfigData, path: string, variant: Variant, i: nat)
    requires c.Valid() && i <= |c.domainName|
    ensures var r := LocateFrom(c, path, variant, i);
      && (r.None? <==> forall k :: i <= k < |c.domainName| ==> !Selectable(c, path, variant, k))
      && (r.Some? ==> FirstChoice(c, path, variant, i, r.value.0, r.value.1))
    decreases |c.domainName| - i
  {
    if i < |c.domainName| {
      var f := FirstProject(c.projectName[i], path, variant, 0);
      if Mentions(path, c.domainName[i], variant) && f.Some? {
        LocateHere(c, path, variant, i);
      } else {
        LocateFromChoice(c, path, variant, i + 1);
        LocateSkip(c, path, variant, i);
        var r := LocateFrom(c, path, variant, i + 1);
        if r.Some? {
          FirstChoiceExtend(c, path, variant, i, r.value.0, r.value.1);
        }
      }
    }
  }

  /** The first choice from `i + 1` is also the first from `i` when domain
      `i` is not selectable. */
  lemma FirstChoiceExtend(c: ConfigData, path: string, variant: Variant, i: nat, a: nat, b: nat)
    requires c.Valid() && i < a < |c.domainName| && b < |c.projectName[a]|
    requires FirstChoice(c, path, variant, i + 1, a, b) && !Selectable(c, path, variant, i)
    ensures FirstChoice(c, path, variant, i, a, b)
  {
  }

  /** A selectable domain `i` is where the search from `i` stops. */
  lemma LocateHere(c: ConfigData, path: string, variant: Variant, i: nat)
    requires c.Valid() && i < |c.domainName|
    requires Mentions(path, c.domainName[i], variant) && FirstProject(c.projectName[i], path, variant, 0).Some?
    ensures var j := FirstProject(c.projectName[i], path, variant, 0).value;
      LocateFrom(c, path, variant, i) == Some((i, j)) && FirstChoice(c, path, variant, i, i, j)
  {
  }

  /** A domain that is not selectable is passed over. */
  lemma LocateSkip(c: ConfigData, path: string, variant: Variant, i: nat)
    requires c.Valid() && i < |c.domainName|
    requires !(Mentions(path, c.domainName[i], variant) && FirstProject(c.projectName[i], path, variant, 0).Some?)
    ensures LocateFrom(c, path, variant, i) == LocateFrom(c, path, variant, i + 1)
    ensures !Selectable(c, path, variant, i)
  {
  }

  /** (a, b) is the first choice from domain `i` on. */
  predicate FirstChoice(c: ConfigData, path: string, variant: Variant, i: nat, a: nat, b: nat)
    requires c.Valid() && i <= a < |c.domainName| && b < |c.projectName[a]|
  {
    && Selectable(c, path, variant, a)
    && (forall k :: i <= k < a ==> !Selectable(c, path, variant, k))
    && Mentions(path, c.projectName[a][b], variant)
    && (forall k :: 0 <= k < b ==> !Mentions(path, c.projectName[a][k], variant))
  }

  /** The (domain index, project index) the classifier picks, if any. */
  function Locate(c: ConfigData, path: string, variant: Variant): Option<(nat, nat)>
    requires c.Valid()
  {
    LocateFrom(c, path, variant, 0)
  }

  /** `getDomainProjectName`: the names of the located pair, or ("", ""). */
  function GetDomainProjectName(c: ConfigData, path: string, variant: Variant): (string, string)
    requires c.Valid()
  {
    match Locate(c, path, variant)
    case Some((i, j)) => (c.domainName[i], c.projectName[i][j])
    case None => ("", "")
  }

  /** The test every caller applies to the returned pair. A registered empty
      name makes a located pair count as unresolved too. */
  predicate Resolved(names: (string, string))
  {
    names.0 != "" && names.1 != ""
  }

  /** The classifier picks the least selectable domain and, within it, the
      least mentioned project. With no selectable domain it returns
      ("", ""); a catalog that registers empty names can also produce that
      pair from a real choice. */
  lemma ClassifierChoice(c: ConfigData, path: string, variant: Variant)
    requires c.Valid()
    ensures var r := GetDomainProjectName(c, path, variant);
      || (r == ("", "") && forall k :: 0 <= k < |c.domainName| ==> !Selectable(c, path, variant, k))
      || (exists i, j :: 0 <= i < |c.domainName| && 0 <= j < |c.projectName[i]|
            && r == (c.domainName[i], c.projectName[i][j])
            && FirstChoice(c, path, variant, 0, i, j))
  {
    LocateFromChoice(c, path, variant, 0);
  }

  /** Whenever a `/name/` segment is present, so is the `/name` prefix. */
  lemma TrailingImpliesPrefix(path: string, name: string)
    requires Mentions(path, name, TrailingSeparator)
    ensures Mentions(path, name, PrefixOnly)
  {
    var v := Pattern(name, TrailingSeparator);
    var p: nat :| p <= |path| - |v| && OccursAt(path, v, p);
    var w := Pattern(name, PrefixOnly);
    assert path[p..p + |w|] == path[p..p + |v|][..|w|];
    ContainsAt(path, w, p);
  }

  /** The prefix variant matches `lib` inside `/libX/`; the trailing-separator
      variant does not. */
  lemma PrefixMatchesLongerSegment()
    ensures Mentions("/libX/a.c", "lib", PrefixOnly)
    ensures !Mentions("/libX/a.c", "lib", TrailingSeparator)
  {
    var path := "/libX/a.c";
    assert Pattern("lib", PrefixOnly) == "/lib";
    assert Pattern("lib", TrailingSeparator) == "/lib/";
    assert path[0..4] == "/lib";
    ContainsAt(path, "/lib", 0);
    forall p: nat | p <= |path| - 5
      ensures !OccursAt(path, "/lib/", p)
    {
      if p == 0 {
        assert path[0..5][4] == 'X';
      } else if p == 1 {
        assert path[1..6][0] == 'l';
      } else if p == 2 {
        assert path[2..7][0] == 'i';
      } else if p == 3 {
        assert path[3..8][0] == 'b';
      } else {
        assert path[4..9][0] == 'X';
      }
    }
  }

  /** A mentioned domain without a mentioned project is passed over. */
  lemma SearchMovesPastDomain()
    ensures var c := ConfigData(["a", "b"], [["x"], ["y"]]);
      GetDomainProjectName(c, "/a/b/y/f.c", TrailingSeparator) == ("b", "y")
  {
    var c := ConfigData(["a", "b"], [["x"], ["y"]]);
    var path := "/a/b/y/f.c";
    assert Pattern("a", TrailingSeparator) == "/a/";
    assert Pattern("b", TrailingSeparator) == "/b/";
    assert Pattern("x", TrailingSeparator) == "/x/";
    assert Pattern("y", TrailingSeparator) == "/y/";
    assert path[0..3] == "/a/";
    ContainsAt(path, "/a/", 0);
    assert path[2..5] == "/b/";
    ContainsAt(path, "/b/", 2);
    assert path[4..7] == "/y/";
    ContainsAt(path, "/y/", 4);
    assert "/x/"[1] == 'x';
    MissingChar(path, "/x/", 1);
    assert !Mentions(path, c.projectName[0][0], TrailingSeparator);
    assert FirstProject(c.projectName[0], path, TrailingSeparator, 1).None?;
    assert FirstProject(c.projectName[0], path, TrailingSeparator, 0).None?;
    assert Mentions(path, c.projectName[1][0], TrailingSeparator);
    assert FirstProject(c.projectName[1], path, TrailingSeparator, 0) == Some(0);
    assert LocateFrom(c, path, TrailingSeparator, 1) == Some((1, 0));
  }

  /** Sum of the project counts of the domains before `i`: the global ID of
      the first project of domain `i`. */
  function Offset(c: ConfigData, i: nat): nat
    requires c.Valid() && i <= |c.domainName|
  {
    if i == 0 then 0 else Offset(c, i - 1) + |c.projectName[i - 1]|
  }

  lemma {:induction false} OffsetMonotone(c: ConfigData, i: nat, k: nat)
    requires c.Valid() && i < k <= |c.domainName|
    ensures Offset(c, i) + |c.projectName[i]| <= Offset(c, k)
  {
    if k > i + 1 {
      OffsetMonotone(c, i, k - 1);
    }
  }

  /** Flattening (domain, local project) to a global project ID loses nothing. */
  lemma GlobalIDInjective(c: ConfigData, i: nat, j: nat, i': nat, j': nat)
    requires c.Valid() && i < |c.domainName| && i' < |c.domainName|
    requires j < |c.projectName[i]| && j' < |c.projectName[i']|
    requires Offset(c, i) + j == Offset(c, i') + j'
    ensures i == i' && j == j'
  {
    if i < i' {
      OffsetMonotone(c, i, i');
    } else if i' < i {
      OffsetMonotone(c, i', i);
    }
  }

  /** Registering a project in domain `k` leaves the global IDs of domains up
      to `k` alone and shifts every later one by one. */
  lemma {:induction false} AddProjectShiftsLaterIDs(c: ConfigData, k: nat, name: string, i: nat)
    requires c.Valid() && k < |c.domainName| && i <= |c.domainName|
    ensures Offset(AddProjectName(c, k, name), i) == Offset(c, i) + (if i > k then 1 else 0)
  {
    if i > 0 {
      AddProjectShiftsLaterIDs(c, k, name, i - 1);
    }
  }

  /** Registering a domain leaves every existing global ID alone. */
  lemma {:induction false} AddDomainKeepsIDs(c: ConfigData, name: string, i: nat)
    requires c.Valid() && i <= |c.domainName|
    ensures Offset(AddDomainName(c, name), i) == Offset(c, i)
  {
    if i > 0 {
      AddDomainKeepsIDs(c, name, i - 1);
    }
  }

  /** The first position of `p` in `names`. */
  function IndexOf(names: seq<string>, p: string): (r: Option<nat>)
    ensures r.Some? ==> r.value < |names| && names[r.value] == p && forall k :: 0 <= k < r.value ==> names[k] != p
    ensures r.None? <==> p !in names
  {
    if |names| == 0 then None
    else if names[0] == p then Some(0)
    else match IndexOf(names[1..], p)
      case Some(k) => Some(k + 1)
      case None => None
  }

  /** `getDomainProjectID` of src/DataUtility.cpp as written: scanning from
      domain `i` with running offset `projID`. A domain whose name equals `d`
      but which lacks `p` does not add its project count to the offset. */
  function IDScan(c: ConfigData, d: string, p: string, i: nat, projID: nat): (r: (int, int))
    requires c.Valid() && i <= |c.domainName|
    ensures r.0 == -1 <==> r.1 == -1
    ensures r.0 == -1 <==> forall k :: i <= k < |c.domainName| ==> c.domainName[k] != d || p !in c.projectName[k]
    ensures r.0 >= 0 ==> i <= r.0 < |c.domainName| && c.domainName[r.0] == d && p in c.projectName[r.0]
    ensures r.0 >= 0 ==> r.1 >= projID
    decreases |c.domainName| - i
  {
    if i == |c.domainName| then (-1, -1)
    else if d == c.domainName[i] then
      match IndexOf(c.projectName[i], p)
      case Some(j) => (i, projID + j)
      case None => IDScan(c, d, p, i + 1, projID)
    else IDScan(c, d, p, i + 1, projID + |c.projectName[i]|)
  }

  /** `getDomainProjectID` as written. It finds a pair exactly when one is
      registered and names it correctly; only the global project ID can be
      wrong (see `RepeatedDomainCollides`). */
  function GetDomainProjectIDAsWritten(c: ConfigData, d: string, p: string): (r: (int, int))
    requires c.Valid()
    ensures r.0 == -1 <==> r.1 == -1
    ensures r.0 == -1 <==> forall k :: 0 <= k < |c.domainName| ==> c.domainName[k] != d || p !in c.projectName[k]
    ensures r.0 >= 0 ==> r.0 < |c.domainName| && c.domainName[r.0] == d && p in c.projectName[r.0]
  {
    IDScan(c, d, p, 0, 0)
  }

  /** The first domain at or after `i` named `d` that has a project `p`. */
  function FindPair(c: ConfigData, d: string, p: string, i: nat): (r: Option<(nat, nat)>)
    requires c.Valid() && i <= |c.domainName|
    ensures r.Some? ==> (i <= r.value.0 < |c.domainName| && c.domainName[r.value.0] == d
      && IndexOf(c.projectName[r.value.0], p) == Some(r.value.1))
    ensures r.Some? ==> forall k :: i <= k < r.value.0 ==> c.domainName[k] != d || p !in c.projectName[k]
    ensures r.None? <==> forall k :: i <= k < |c.domainName| ==> c.domainName[k] != d || p !in c.projectName[k]
    decreases |c.domainName| - i
  {
    if i == |c.domainName| then None
    else if d == c.domainName[i] && IndexOf(c.projectName[i], p).Some? then
      Some((i, IndexOf(c.projectName[i], p).value))
    else FindPair(c, d, p, i + 1)
  }

  /** The ID pair reported for a located (domain, project) position. */
  function GlobalIDs(c: ConfigData, found: Option<(nat, nat)>): (int, int)
    requires c.Valid() && (found.Some? ==> found.value.0 < |c.domainName|)
  {
    match found
    case Some((i, j)) => (i, Offset(c, i) + j)
    case None => (-1 as int, -1 as int)
  }

  /** `getDomainProjectID` as intended: the domain ID and the flattened global
      project ID of the first registered pair with these names, or (-1, -1). */
  function GetDomainProjectID(c: ConfigData, d: string, p: string): (r: (int, int))
    requires c.Valid()
    ensures r.0 == -1 <==> r.1 == -1
    ensures r.0 == -1 <==> forall k :: 0 <= k < |c.domainName| ==> c.domainName[k] != d || p !in c.projectName[k]
    ensures r.0 >= 0 ==> (r.0 < |c.domainName| && c.domainName[r.0] == d
      && Offset(c, r.0) <= r.1 < Offset(c, r.0) + |c.projectName[r.0]|
      && c.projectName[r.0][r.1 - Offset(c, r.0)] == p)
    ensures r.0 >= 0 ==> (r.0 < |c.domainName| && Offset(c, r.0) <= r.1
      && (forall k :: 0 <= k < r.0 ==> c.domainName[k] != d || p !in c.projectName[k])
      && forall j :: 0 <= j < r.1 - Offset(c, r.0) ==> c.projectName[r.0][j] != p)
  {
    GlobalIDs(c, FindPair(c, d, p, 0))
  }

  /** With no domain named `d` from `i` on, the scan fails whatever the offset. */
  lemma {:induction false} IDScanMisses(c: ConfigData, d: string, p: string, i: nat, projID: nat)
    requires c.Valid() && i <= |c.domainName|
    requires forall k :: i <= k < |c.domainName| ==> c.domainName[k] != d
    ensures IDScan(c, d, p, i, projID) == (-1, -1)
    decreases |c.domainName| - i
  {
    if i < |c.domainName| {
      IDScanMisses(c, d, p, i + 1, projID + |c.projectName[i]|);
    }
  }

  predicate DistinctDomains(c: ConfigData)
  {
    forall a, b :: 0 <= a < b < |c.domainName| ==> c.domainName[a] != c.domainName[b]
  }

  lemma {:induction false} IDScanAgrees(c: ConfigData, d: string, p: string, i: nat)
    requires c.Valid() && DistinctDomains(c) && i <= |c.domainName|
    ensures IDScan(c, d, p, i, Offset(c, i)) == GlobalIDs(c, FindPair(c, d, p, i))
    decreases |c.domainName| - i
  {
    if i < |c.domainName| {
      if d == c.domainName[i] {
        match IndexOf(c.projectName[i], p)
        case Some(j) =>
          assert FindPair(c, d, p, i) == Some((i, j));
          assert IDScan(c, d, p, i, Offset(c, i)) == (i, Offset(c, i) + j);
        case None =>
          IDScanMisses(c, d, p, i + 1, Offset(c, i));
          assert FindPair(c, d, p, i) == FindPair(c, d, p, i + 1) == None;
      } else {
        IDScanAgrees(c, d, p, i + 1);
        assert Offset(c, i + 1) == Offset(c, i) + |c.projectName[i]|;
        assert IDScan(c, d, p, i, Offset(c, i)) == IDScan(c, d, p, i + 1, Offset(c, i + 1));
        assert FindPair(c, d, p, i) == FindPair(c, d, p, i + 1);
      }
    }
  }

  /** With distinct domain names the code as written computes the intended IDs. */
  lemma AsWrittenAgreesOnDistinctDomains(c: ConfigData, d: string, p: string)
    requires c.Valid() && DistinctDomains(c)
    ensures GetDomainProjectIDAsWritten(c, d, p) == GetDomainProjectID(c, d, p)
  {
    IDScanAgrees(c, d, p, 0);
  }

  /** With a repeated domain name `a`, where the first `a` lists `x` and the
      second lists `y`, the code as written gives `(a, y)` the global ID 0,
      which is already that of `(a, x)`; the intended ID is 1. */
  lemma RepeatedDomainCollides(a: string, x: string, y: string)
    requires x != y
    ensures var c := ConfigData([a, a], [[x], [y]]);
      && GetDomainProjectIDAsWritten(c, a, y) == (1, 0)
      && GetDomainProjectIDAsWritten(c, a, x) == (0, 0)
      && GetDomainProjectID(c, a, y) == (1, 1)
  {
    var c := ConfigData([a, a], [[x], [y]]);
    assert IndexOf(c.projectName[0], y).None?;
    assert IndexOf(c.projectName[1], y) == Some(0);
    assert IndexOf(c.projectName[0], x) == Some(0);
    assert FindPair(c, a, y, 0) == Some((1, 0));
    assert IDScan(c, a, y, 1, 0) == (1, 0);
    assert Offset(c, 1) == 1;
  }

  /** The names the classifier returns always have IDs, and they are the
      located pair's own: the (-1, -1) branch after a successful
      classification is never taken. */
  lemma LocatedPairIDs(c: ConfigData, path: string, variant: Variant)
    requires c.Valid() && Locate(c, path, variant).Some?
    ensures var (i, j) := Locate(c, path, variant).value;
      GetDomainProjectID(c, c.domainName[i], c.projectName[i][j]) == (i, Offset(c, i) + j)
  {
    LocateFromChoice(c, path, variant, 0);
    var (i, j) := Locate(c, path, variant).value;
    var d := c.domainName[i];
    var p := c.projectName[i][j];
    assert p in c.projectName[i];
    var (i0, j0) := FindPair(c, d, p, 0).value;
    if i0 < i {
      assert Mentions(path, c.projectName[i0][j0], variant);
      assert Selectable(c, path, variant, i0);
      assert false;
    }
    assert i0 == i;
    assert c.projectName[i][j0] == p;
    assert j0 == j;
  }

  /** `isOutProjectDef`: the definition path lacks `/domain` or `/project`. */
  function IsOutProjectDef(defLocation: string, d: string, p: string): bool
  {
    !(Contains(defLocation, "/" + d) && Contains(defLocation, "/" + p))
  }

  /** Read as the source's two `find` calls: the definition is in project
      exactly when both searches succeed. */
  lemma OutProjectDefByFind(defLocation: string, d: string, p: string)
    ensures !IsOutProjectDef(defLocation, d, p) <==>
      Find(defLocation, "/" + d, 0).Some? && Find(defLocation, "/" + p, 0).Some?
  {
    FindContains(defLocation, "/" + d);
    FindContains(defLocation, "/" + p);
  }

  /** A definition whose own path classifies (src variant) to the same pair
      is never out of project. */
  lemma InProjectDefinition(c: ConfigData, defLocation: string)
    requires c.Valid() && Resolved(GetDomainProjectName(c, defLocation, PrefixOnly))
    ensures var (d, p) := GetDomainProjectName(c, defLocation, PrefixOnly);
      !IsOutProjectDef(defLocation, d, p)
  {
    LocateFromChoice(c, defLocation, PrefixOnly, 0);
    var (i, j) := Locate(c, defLocation, PrefixOnly).value;
    assert Pattern(c.domainName[i], PrefixOnly) == "/" + c.domainName[i];
    assert Pattern(c.projectName[i][j], PrefixOnly) == "/" + c.projectName[i][j];
  }

  /** The catalog `projA -> [libX]`, a call in `/src/projA/libX/foo.c` and a
      definition in `/usr/include/bar.h`: the call site classifies, the
      definition is out of project. */
  lemma OutOfProjectScenario()
    ensures var c := ConfigData(["projA"], [["libX"]]);
      && GetDomainProjectName(c, "/src/projA/libX/foo.c", PrefixOnly) == ("projA", "libX")
      && IsOutProjectDef("/usr/include/bar.h", "projA", "libX")
  {
    ScenarioCallSite();
    ScenarioDefinition();
    assert "/" + "projA" == "/projA";
  }

  lemma ScenarioCallSite()
    ensures LocateFrom(ConfigData(["projA"], [["libX"]]), "/src/projA/libX/foo.c", PrefixOnly, 0) == Some((0, 0))
  {
    var c := ConfigData(["projA"], [["libX"]]);
    var call := "/src/projA/libX/foo.c";
    assert Pattern("projA", PrefixOnly) == "/projA";
    assert Pattern("libX", PrefixOnly) == "/libX";
    assert call[4..10] == "/projA";
    ContainsAt(call, "/projA", 4);
    assert call[10..15] == "/libX";
    ContainsAt(call, "/libX", 10);
    assert Mentions(call, c.projectName[0][0], PrefixOnly);
    assert FirstProject(c.projectName[0], call, PrefixOnly, 0) == Some(0);
  }

  lemma ScenarioDefinition()
    ensures !Contains("/usr/include/bar.h", "/projA")
  {
    assert "/projA"[3] == 'o';
    assert "/projA"[4] == 'j';
    MissingChar("/usr/include/bar.h", "/projA", 4);
  }
}
