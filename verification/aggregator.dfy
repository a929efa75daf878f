/** The in-memory call aggregator of src/DataUtility.cpp: `CallInfo`, the
    `CallData` tables and `CallData::addCallExpression`. Per call name it keeps
    a total count, per-domain and per-project buckets of fixed capacity
    (`MAX_PROJECT`, a parameter here), the numbers of distinct domains and
    projects seen, the `#`-joined definition locations and two flags. */
module Aggregator {
  import opened Wrappers
  import opened Text
  import opened Seqs
  import opened Catalog

  datatype CallInfo = CallInfo(
    callName: string,
    numDomain: nat,
    numProject: nat,
    numCallTotal: nat,
    numCallInDomain: seq<nat>,
    numCallInProject: seq<nat>,
    defLocation: string,
    multiDef: bool,
    outProjectDef: bool)

  /** The relations between a record's counters and its buckets. */
  predicate Consistent(info: CallInfo, maxProject: nat)
  {
    && |info.numCallInDomain| == maxProject
    && |info.numCallInProject| == maxProject
    && info.numCallTotal == Sum(info.numCallInDomain)
    && info.numCallTotal == Sum(info.numCallInProject)
    && info.numDomain == NonZero(info.numCallInDomain)
    && info.numProject == NonZero(info.numCallInProject)
  }

  /** `CallInfo::CallInfo()`: no calls, zero-filled buckets, no flags. */
  function EmptyCallInfo(maxProject: nat): (r: CallInfo)
    ensures Consistent(r, maxProject) && r.numCallTotal == 0
  {
    SumZeros(maxProject);
    CallInfo("", 0, 0, 0, Zeros(maxProject), Zeros(maxProject), "", false, false)
  }

  /** The record made on the first observation of a name (source lines 250-260). */
  function FirstObservation(callName: string, maxProject: nat, domainID: nat, projectID: nat,
                            defLocation: string, out: bool): (r: CallInfo)
    requires domainID < maxProject && projectID < maxProject
    ensures Consistent(r, maxProject)
    ensures r.numCallTotal == 1 && r.numDomain == 1 && r.numProject == 1
    ensures forall k :: 0 <= k < maxProject ==> r.numCallInDomain[k] == (if k == domainID then 1 else 0)
    ensures forall k :: 0 <= k < maxProject ==> r.numCallInProject[k] == (if k == projectID then 1 else 0)
    ensures r.callName == callName && r.defLocation == defLocation
    ensures !r.multiDef && r.outProjectDef == out
  {
    var e := EmptyCallInfo(maxProject);
    BumpBucket(e.numCallInDomain, domainID);
    BumpBucket(e.numCallInProject, projectID);
    e.(callName := callName,
       numDomain := 1,
       numProject := 1,
       numCallTotal := 1,
       numCallInDomain := e.numCallInDomain[domainID := 1],
       numCallInProject := e.numCallInProject[projectID := 1],
       defLocation := defLocation,
       multiDef := false,
       outProjectDef := out)
  }

  /** One more call in the given domain and project buckets (source lines
      269-276): the distinct counts grow exactly when the bucket was empty. */
  function Bump(info: CallInfo, domainID: nat, projectID: nat): (r: CallInfo)
    requires domainID < |info.numCallInDomain| && projectID < |info.numCallInProject|
    ensures Consistent(info, |info.numCallInDomain|) ==> Consistent(r, |info.numCallInDomain|)
    ensures r.numCallTotal == info.numCallTotal + 1
    ensures r.numCallInDomain == info.numCallInDomain[domainID := info.numCallInDomain[domainID] + 1]
    ensures r.numCallInProject == info.numCallInProject[projectID := info.numCallInProject[projectID] + 1]
    ensures r.callName == info.callName && r.defLocation == info.defLocation
    ensures r.multiDef == info.multiDef && r.outProjectDef == info.outProjectDef
  {
    var domains := info.numCallInDomain[domainID := info.numCallInDomain[domainID] + 1];
    var projects := info.numCallInProject[projectID := info.numCallInProject[projectID] + 1];
    var numDomain := info.numDomain + (if info.numCallInDomain[domainID] == 0 then 1 else 0);
    var numProject := info.numProject + (if info.numCallInProject[projectID] == 0 then 1 else 0);
    BumpBucket(info.numCallInDomain, domainID);
    BumpBucket(info.numCallInProject, projectID);
    assert Sum(domains) == Sum(info.numCallInDomain) + 1 && Sum(projects) == Sum(info.numCallInProject) + 1;
    assert NonZero(info.numCallInDomain) == info.numDomain ==> NonZero(domains) == numDomain;
    assert NonZero(info.numCallInProject) == info.numProject ==> NonZero(projects) == numProject;
    info.(numCallTotal := info.numCallTotal + 1, numDomain := numDomain, numProject := numProject,
          numCallInDomain := domains, numCallInProject := projects)
  }

  /** The `#`-joined definition list after seeing `def` (source lines 277-281):
      a location already found in the list leaves it as it is, a new one is
      appended after a `#`. */
  function RecordDefinition(locations: string, def: string): (r: string)
    ensures Contains(r, def)
    ensures Contains(locations, def) ==> r == locations
    ensures !Contains(locations, def) ==> r == locations + "#" + def
  {
    if Contains(locations, def) then locations
    else
      ContainsSuffix(locations + "#", def);
      locations + "#" + def
  }

  /** Nothing already in the definition list is lost. */
  lemma RecordDefinitionKeeps(locations: string, def: string, w: string)
    requires Contains(locations, w)
    ensures Contains(RecordDefinition(locations, def), w)
  {
    if !Contains(locations, def) {
      ContainsExtend(locations, "#" + def, w);
      assert locations + ("#" + def) == locations + "#" + def;
    }
  }

  /** A later observation of a known name (source lines 267-284). */
  function Observe(info: CallInfo, domainID: nat, projectID: nat, defLocation: string, out: bool): (r: CallInfo)
    requires domainID < |info.numCallInDomain| && projectID < |info.numCallInProject|
    ensures Consistent(info, |info.numCallInDomain|) ==> Consistent(r, |info.numCallInDomain|)
    ensures r.callName == info.callName
    ensures |r.numCallInDomain| == |info.numCallInDomain| && |r.numCallInProject| == |info.numCallInProject|
    ensures r.numCallTotal == info.numCallTotal + 1
    ensures r.numDomain == info.numDomain + (if info.numCallInDomain[domainID] == 0 then 1 else 0)
    ensures r.numProject == info.numProject + (if info.numCallInProject[projectID] == 0 then 1 else 0)
    ensures r.numCallInDomain[domainID] == info.numCallInDomain[domainID] + 1
    ensures r.numCallInProject[projectID] == info.numCallInProject[projectID] + 1
    ensures forall d :: 0 <= d < |r.numCallInDomain| && d != domainID ==> r.numCallInDomain[d] == info.numCallInDomain[d]
    ensures forall q :: 0 <= q < |r.numCallInProject| && q != projectID ==> r.numCallInProject[q] == info.numCallInProject[q]
    ensures Contains(r.defLocation, defLocation)
    ensures r.defLocation == RecordDefinition(info.defLocation, defLocation)
    ensures r.multiDef <==> info.multiDef || !Contains(info.defLocation, defLocation)
    ensures r.outProjectDef <==> info.outProjectDef || out
  {
    Bump(info, domainID, projectID).(
      defLocation := RecordDefinition(info.defLocation, defLocation),
      multiDef := info.multiDef || !Contains(info.defLocation, defLocation),
      outProjectDef := info.outProjectDef || out)
  }

  /** `totalIndex`, `call2index` (1-based; a missing name reads as 0) and
      `callInfoVec`. */
  datatype CallData = CallData(totalIndex: nat, call2index: map<string, nat>, callInfoVec: seq<CallInfo>)

  /** The tables before the first observation. */
  function EmptyCallData(): CallData
  {
    CallData(0, map[], [])
  }

  /** `call2index[callName]`, which is 0 for a name never seen. */
  function IndexOfCall(data: CallData, callName: string): nat
  {
    if callName in data.call2index then data.call2index[callName] else 0
  }

  /** The index maps each name to its own record and back, and every record
      keeps its counters consistent with its buckets. */
  predicate Valid(data: CallData, maxProject: nat)
  {
    Indexed(data) && AllConsistent(data.callInfoVec, maxProject)
  }

  /** The name of the record at 1-based position `i`. */
  function NameAt(vec: seq<CallInfo>, i: nat): string
    requires 1 <= i <= |vec|
  {
    vec[i - 1].callName
  }

  /** The index maps each name to its 1-based position and back. */
  predicate Indexed(data: CallData)
  {
    && data.totalIndex == |data.callInfoVec|
    && (forall n :: n in data.call2index ==>
          1 <= data.call2index[n] <= data.totalIndex && NameAt(data.callInfoVec, data.call2index[n]) == n)
    && (forall i :: 1 <= i <= |data.callInfoVec| ==>
          NameAt(data.callInfoVec, i) in data.call2index && data.call2index[NameAt(data.callInfoVec, i)] == i)
  }

  /** Every record holds a call and keeps its counters consistent with its buckets. */
  predicate AllConsistent(vec: seq<CallInfo>, maxProject: nat)
  {
    forall k :: 0 <= k < |vec| ==> Consistent(vec[k], maxProject) && vec[k].numCallTotal >= 1
  }

  lemma RenameFreeIndexed(data: CallData, vec: seq<CallInfo>)
    requires Indexed(data) && |vec| == |data.callInfoVec|
    requires forall j :: 0 <= j < |vec| ==> vec[j].callName == data.callInfoVec[j].callName
    ensures Indexed(data.(callInfoVec := vec))
  {
    forall i | 1 <= i <= |vec|
      ensures NameAt(vec, i) == NameAt(data.callInfoVec, i)
    {
    }
  }

  lemma AppendIndexed(data: CallData, callName: string, info: CallInfo)
    requires Indexed(data) && callName !in data.call2index && info.callName == callName
    ensures Indexed(CallData(data.totalIndex + 1, data.call2index[callName := data.totalIndex + 1],
                             data.callInfoVec + [info]))
  {
    var vec := data.callInfoVec + [info];
    forall i | 1 <= i <= |data.callInfoVec|
      ensures NameAt(vec, i) == NameAt(data.callInfoVec, i) != callName
    {
      assert NameAt(data.callInfoVec, i) in data.call2index;
    }
    assert NameAt(vec, |vec|) == callName;
  }

  lemma EmptyCallDataValid(maxProject: nat)
    ensures Valid(EmptyCallData(), maxProject)
  {
  }

  /** Why an observation was dropped, or that it was recorded. */
  datatype Outcome = Recorded | Unclassified | UnknownID | OverCapacity

  /** Source lines 213-227: classify the call site, falling back to the
      definition location when the call site does not resolve. */
  function ClassifyCall(c: ConfigData, callLocation: string, defLocation: string): (r: Option<(string, string)>)
    requires c.Valid()
    ensures r.Some? ==> Resolved(r.value)
    ensures r.Some? <==> (Resolved(GetDomainProjectName(c, callLocation, PrefixOnly))
                          || Resolved(GetDomainProjectName(c, defLocation, PrefixOnly)))
    ensures Resolved(GetDomainProjectName(c, callLocation, PrefixOnly)) ==>
              r == Some(GetDomainProjectName(c, callLocation, PrefixOnly))
    ensures !Resolved(GetDomainProjectName(c, callLocation, PrefixOnly))
            && Resolved(GetDomainProjectName(c, defLocation, PrefixOnly)) ==>
              r == Some(GetDomainProjectName(c, defLocation, PrefixOnly))
  {
    var fromCall := GetDomainProjectName(c, callLocation, PrefixOnly);
    if Resolved(fromCall) then Some(fromCall)
    else
      var fromDef := GetDomainProjectName(c, defLocation, PrefixOnly);
      if Resolved(fromDef) then Some(fromDef) else None
  }

  /** One observation of a name as the record sees it. */
  datatype Observation = Observation(domainID: nat, projectID: nat, defLocation: string, out: bool)

  /** Both IDs index a bucket of capacity `maxProject`. */
  predicate Fits(o: Observation, maxProject: nat)
  {
    o.domainID < maxProject && o.projectID < maxProject
  }

  /** What a call contributes to its name's record (source lines 213-239):
      the IDs of its classified pair, its definition location and whether
      that lies outside the pair's project. Every classified pair has IDs, so
      a call contributes exactly when it classifies. */
  function ObservationOf(c: ConfigData, callLocation: string, defLocation: string): (r: Option<Observation>)
    requires c.Valid()
    ensures r.Some? <==> ClassifyCall(c, callLocation, defLocation).Some?
    ensures r.Some? ==> var (d, p) := ClassifyCall(c, callLocation, defLocation).value;
      && r.value.domainID == GetDomainProjectID(c, d, p).0
      && r.value.projectID == GetDomainProjectID(c, d, p).1
      && r.value.defLocation == defLocation
      && r.value.out == IsOutProjectDef(defLocation, d, p)
  {
    match ClassifyCall(c, callLocation, defLocation)
    case None => None
    case Some((d, p)) =>
      ClassifiedCallsHaveIDs(c, callLocation, defLocation);
      var (domainID, projectID) := GetDomainProjectID(c, d, p);
      Some(Observation(domainID, projectID, defLocation, IsOutProjectDef(defLocation, d, p)))
  }

  /** A call is stored when it classifies and both IDs fit the capacity. */
  predicate Recordable(c: ConfigData, maxProject: nat, callLocation: string, defLocation: string)
    requires c.Valid()
  {
    ObservationOf(c, callLocation, defLocation).Some? && Fits(ObservationOf(c, callLocation, defLocation).value, maxProject)
  }

  /** The record a name holds after one more observation: a fresh record on
      its first call (source lines 243-263), its old record observed again
      otherwise (source lines 266-284). */
  function NextRecord(data: CallData, maxProject: nat, callName: string, o: Observation): CallInfo
    requires Valid(data, maxProject) && Fits(o, maxProject)
  {
    var idx := IndexOfCall(data, callName);
    if idx == 0 then FirstObservation(callName, maxProject, o.domainID, o.projectID, o.defLocation, o.out)
    else
      KnownIndex(data, maxProject, callName);
      Observe(data.callInfoVec[idx - 1], o.domainID, o.projectID, o.defLocation, o.out)
  }

  /** The record at the name's 1-based index is `info`. */
  predicate Holds(data: CallData, callName: string, info: CallInfo)
  {
    && 1 <= IndexOfCall(data, callName) <= |data.callInfoVec|
    && data.callInfoVec[IndexOfCall(data, callName) - 1] == info
  }

  /** How `r` stores `info` for `callName` over `data`: the name's record is
      `info`, appended with the next index when the name is new and written
      in place otherwise; every other name keeps its index and record. */
  ghost predicate Stored(data: CallData, r: CallData, callName: string, info: CallInfo)
  {
    && Holds(r, callName, info)
    && (forall n :: n != callName ==> IndexOfCall(r, n) == IndexOfCall(data, n))
    && (IndexOfCall(data, callName) == 0 ==>
          && r.totalIndex == data.totalIndex + 1 && IndexOfCall(r, callName) == r.totalIndex
          && r.callInfoVec == data.callInfoVec + [info])
    && (IndexOfCall(data, callName) != 0 ==>
          && r.totalIndex == data.totalIndex && r.call2index == data.call2index
          && |r.callInfoVec| == |data.callInfoVec|)
    && |data.callInfoVec| <= |r.callInfoVec|
    && (forall k :: 0 <= k < |data.callInfoVec| && k != IndexOfCall(data, callName) - 1 ==>
          r.callInfoVec[k] == data.callInfoVec[k])
  }

  /** Source lines 240-284: store one classified observation, creating the
      name's record on its first call. Other names keep their index and record. */
  function Record(data: CallData, maxProject: nat, callName: string, o: Observation): (r: CallData)
    requires Valid(data, maxProject) && Fits(o, maxProject)
    ensures Valid(r, maxProject)
    ensures Stored(data, r, callName, NextRecord(data, maxProject, callName, o))
  {
    var idx := IndexOfCall(data, callName);
    if idx == 0 then
      AdmitStored(data, maxProject, callName, o);
      Admit(data, maxProject, callName, NextRecord(data, maxProject, callName, o))
    else
      RevisitStored(data, maxProject, callName, o);
      Revisit(data, maxProject, idx - 1, o.domainID, o.projectID, o.defLocation, o.out)
  }

  lemma AdmitStored(data: CallData, maxProject: nat, callName: string, o: Observation)
    requires Valid(data, maxProject) && Fits(o, maxProject) && IndexOfCall(data, callName) == 0
    ensures var info := NextRecord(data, maxProject, callName, o);
      && info.callName == callName && Consistent(info, maxProject) && info.numCallTotal >= 1
      && Stored(data, Admit(data, maxProject, callName, info), callName, info)
  {
  }

  lemma RevisitStored(data: CallData, maxProject: nat, callName: string, o: Observation)
    requires Valid(data, maxProject) && Fits(o, maxProject) && IndexOfCall(data, callName) != 0
    ensures var k := IndexOfCall(data, callName) - 1;
      && k < |data.callInfoVec|
      && Stored(data, Revisit(data, maxProject, k, o.domainID, o.projectID, o.defLocation, o.out), callName,
                NextRecord(data, maxProject, callName, o))
  {
    NextRecordAgain(data, maxProject, callName, o);
  }

  /** The first observation of a name: its record is appended and the name
      gets the next 1-based index. */
  function Admit(data: CallData, maxProject: nat, callName: string, info: CallInfo): (r: CallData)
    requires Valid(data, maxProject) && IndexOfCall(data, callName) == 0
    requires info.callName == callName && Consistent(info, maxProject) && info.numCallTotal >= 1
    ensures Valid(r, maxProject)
    ensures r.totalIndex == data.totalIndex + 1 && IndexOfCall(r, callName) == r.totalIndex
    ensures forall n :: n != callName ==> IndexOfCall(r, n) == IndexOfCall(data, n)
    ensures r.callInfoVec == data.callInfoVec + [info]
  {
    FirstKeepsValid(data, maxProject, callName, info);
    CallData(data.totalIndex + 1, data.call2index[callName := data.totalIndex + 1], data.callInfoVec + [info])
  }

  /** A later observation of the name whose record is at position `k`:
      that record is observed again and nothing else changes. */
  function Revisit(data: CallData, maxProject: nat, k: nat,
                   domainID: nat, projectID: nat, defLocation: string, out: bool): (r: CallData)
    requires Valid(data, maxProject) && k < |data.callInfoVec| && domainID < maxProject && projectID < maxProject
    ensures Valid(r, maxProject)
    ensures r.totalIndex == data.totalIndex && r.call2index == data.call2index
    ensures |r.callInfoVec| == |data.callInfoVec|
    ensures r.callInfoVec[k] == Observe(data.callInfoVec[k], domainID, projectID, defLocation, out)
    ensures forall j :: 0 <= j < |data.callInfoVec| && j != k ==> r.callInfoVec[j] == data.callInfoVec[j]
  {
    var info := Observe(data.callInfoVec[k], domainID, projectID, defLocation, out);
    UpdateKeepsValid(data, maxProject, k, info);
    data.(callInfoVec := data.callInfoVec[k := info])
  }

  /** `CallData::addCallExpression`, in-memory part: an observation is stored
      only when its call site or definition classifies and both IDs fit the
      capacity; otherwise the tables are left as they were. A stored
      observation gives the name its next record and leaves every other
      record and index alone. */
  function AddCallExpression(c: ConfigData, maxProject: nat, data: CallData,
                             callName: string, callLocation: string, defLocation: string): (r: (CallData, Outcome))
    requires c.Valid() && Valid(data, maxProject)
    ensures Valid(r.0, maxProject)
    ensures r.1 == Recorded <==> Recordable(c, maxProject, callLocation, defLocation)
    ensures r.1 != Recorded ==> r.0 == data
    ensures r.1 == Unclassified <==> ClassifyCall(c, callLocation, defLocation).None?
    ensures r.1 == Recorded ==>
      Stored(data, r.0, callName, NextRecord(data, maxProject, callName, ObservationOf(c, callLocation, defLocation).value))
  {
    match ClassifyCall(c, callLocation, defLocation)
    case None => (data, Unclassified)
    case Some((d, p)) =>
      var (domainID, projectID) := GetDomainProjectID(c, d, p);
      if domainID == -1 || projectID == -1 then (data, UnknownID)
      else if domainID >= maxProject || projectID >= maxProject then (data, OverCapacity)
      else
        (Record(data, maxProject, callName, Observation(domainID, projectID, defLocation, IsOutProjectDef(defLocation, d, p))),
         Recorded)
  }

  lemma FirstKeepsValid(data: CallData, maxProject: nat, callName: string, info: CallInfo)
    requires Valid(data, maxProject) && IndexOfCall(data, callName) == 0
    requires info.callName == callName && Consistent(info, maxProject) && info.numCallTotal >= 1
    ensures Valid(CallData(data.totalIndex + 1, data.call2index[callName := data.totalIndex + 1],
                           data.callInfoVec + [info]), maxProject)
  {
    AppendIndexed(data, callName, info);
    var vec := data.callInfoVec + [info];
    forall k | 0 <= k < |vec|
      ensures Consistent(vec[k], maxProject) && vec[k].numCallTotal >= 1
    {
      if k < |data.callInfoVec| {
        assert vec[k] == data.callInfoVec[k];
      }
    }
  }

  lemma UpdateKeepsValid(data: CallData, maxProject: nat, k: nat, info: CallInfo)
    requires Valid(data, maxProject) && k < |data.callInfoVec|
    requires info.callName == data.callInfoVec[k].callName && Consistent(info, maxProject) && info.numCallTotal >= 1
    ensures Valid(data.(callInfoVec := data.callInfoVec[k := info]), maxProject)
  {
    var vec := data.callInfoVec[k := info];
    forall j | 0 <= j < |vec|
      ensures vec[j].callName == data.callInfoVec[j].callName
    {
    }
    RenameFreeIndexed(data, vec);
    forall j | 0 <= j < |vec|
      ensures Consistent(vec[j], maxProject) && vec[j].numCallTotal >= 1
    {
      if j != k {
        assert vec[j] == data.callInfoVec[j];
      }
    }
  }

  /** The first observation of a name appends one record: one call, counted
      in the bucket of the classified domain ID and of the classified project
      ID, the definition location as given, no second definition, and the
      out-of-project flag as computed for the classified pair. The name gets
      the next 1-based index. */
  lemma AddCallExpressionFirst(c: ConfigData, maxProject: nat, data: CallData,
                               callName: string, callLocation: string, defLocation: string)
    requires c.Valid() && Valid(data, maxProject) && IndexOfCall(data, callName) == 0
    ensures var (data', outcome) := AddCallExpression(c, maxProject, data, callName, callLocation, defLocation);
      outcome == Recorded ==>
        var o := ObservationOf(c, callLocation, defLocation).value;
        && data'.totalIndex == data.totalIndex + 1
        && IndexOfCall(data', callName) == data'.totalIndex
        && data'.callInfoVec == data.callInfoVec
             + [FirstObservation(callName, maxProject, o.domainID, o.projectID, defLocation, o.out)]
  {
  }

  /** A later observation of a known name observes its record again (one more
      call in the classified buckets, distinct counts grown for empty buckets,
      a new definition listed and marking a second definition, the flag OR'd)
      and changes no other record or index. */
  lemma AddCallExpressionAgain(c: ConfigData, maxProject: nat, data: CallData,
                               callName: string, callLocation: string, defLocation: string)
    requires c.Valid() && Valid(data, maxProject) && IndexOfCall(data, callName) != 0
    ensures var (data', outcome) := AddCallExpression(c, maxProject, data, callName, callLocation, defLocation);
      var k := IndexOfCall(data, callName) - 1;
      outcome == Recorded ==>
        var o := ObservationOf(c, callLocation, defLocation).value;
        && k < |data.callInfoVec|
        && data'.totalIndex == data.totalIndex && data'.call2index == data.call2index
        && |data'.callInfoVec| == |data.callInfoVec|
        && data'.callInfoVec[k] == Observe(data.callInfoVec[k], o.domainID, o.projectID, defLocation, o.out)
        && (forall j :: 0 <= j < |data.callInfoVec| && j != k ==> data'.callInfoVec[j] == data.callInfoVec[j])
  {
    KnownIndex(data, maxProject, callName);
    var (data', outcome) := AddCallExpression(c, maxProject, data, callName, callLocation, defLocation);
    if outcome == Recorded {
      var o := ObservationOf(c, callLocation, defLocation).value;
      NextRecordAgain(data, maxProject, callName, o);
      StoredInPlace(data, data', callName, NextRecord(data, maxProject, callName, o));
    }
  }

  lemma NextRecordAgain(data: CallData, maxProject: nat, callName: string, o: Observation)
    requires Valid(data, maxProject) && Fits(o, maxProject) && IndexOfCall(data, callName) != 0
    ensures var k := IndexOfCall(data, callName) - 1;
      && k < |data.callInfoVec|
      && o.domainID < |data.callInfoVec[k].numCallInDomain| && o.projectID < |data.callInfoVec[k].numCallInProject|
      && NextRecord(data, maxProject, callName, o)
         == Observe(data.callInfoVec[k], o.domainID, o.projectID, o.defLocation, o.out)
  {
    KnownIndex(data, maxProject, callName);
  }

  /** A known name's record is written in place. */
  lemma StoredInPlace(data: CallData, r: CallData, callName: string, info: CallInfo)
    requires Stored(data, r, callName, info) && IndexOfCall(data, callName) != 0
    ensures var k := IndexOfCall(data, callName) - 1;
      && r.totalIndex == data.totalIndex && r.call2index == data.call2index
      && |r.callInfoVec| == |data.callInfoVec| && k < |r.callInfoVec| && r.callInfoVec[k] == info
  {
  }

  lemma KnownIndex(data: CallData, maxProject: nat, callName: string)
    requires Valid(data, maxProject) && IndexOfCall(data, callName) != 0
    ensures 1 <= IndexOfCall(data, callName) <= |data.callInfoVec|
  {
    assert callName in data.call2index;
  }

  /** A classified call always has IDs: the drop for an unknown ID is never taken. */
  lemma ClassifiedCallsHaveIDs(c: ConfigData, callLocation: string, defLocation: string)
    requires c.Valid() && ClassifyCall(c, callLocation, defLocation).Some?
    ensures var (d, p) := ClassifyCall(c, callLocation, defLocation).value;
      GetDomainProjectID(c, d, p).0 >= 0
  {
    var path := if Resolved(GetDomainProjectName(c, callLocation, PrefixOnly)) then callLocation else defLocation;
    assert Locate(c, path, PrefixOnly).Some?;
    LocatedPairIDs(c, path, PrefixOnly);
  }

  /** The drop outcomes: a classified call is dropped exactly when one of its
      IDs is beyond the capacity, and never for an unknown ID. */
  lemma DropConditions(c: ConfigData, maxProject: nat, data: CallData,
                       callName: string, callLocation: string, defLocation: string)
    requires c.Valid() && Valid(data, maxProject)
    ensures var outcome := AddCallExpression(c, maxProject, data, callName, callLocation, defLocation).1;
      && outcome != UnknownID
      && (outcome == OverCapacity <==>
            && ClassifyCall(c, callLocation, defLocation).Some?
            && var (d, p) := ClassifyCall(c, callLocation, defLocation).value;
               (GetDomainProjectID(c, d, p).0 >= maxProject || GetDomainProjectID(c, d, p).1 >= maxProject))
  {
    if ClassifyCall(c, callLocation, defLocation).Some? {
      ClassifiedCallsHaveIDs(c, callLocation, defLocation);
    }
  }


  function DomainIDs(obs: seq<Observation>): (ids: seq<nat>)
    ensures |ids| == |obs|
  {
    seq(|obs|, k requires 0 <= k < |obs| => obs[k].domainID)
  }

  function ProjectIDs(obs: seq<Observation>): (ids: seq<nat>)
    ensures |ids| == |obs|
  {
    seq(|obs|, k requires 0 <= k < |obs| => obs[k].projectID)
  }

  predicate InCapacity(obs: seq<Observation>, maxProject: nat)
  {
    forall k :: 0 <= k < |obs| ==> obs[k].domainID < maxProject && obs[k].projectID < maxProject
  }

  /** The record after a first observation and then every later one; its
      total is the number of observations. */
  function History(callName: string, maxProject: nat, obs: seq<Observation>): (r: CallInfo)
    requires |obs| >= 1 && InCapacity(obs, maxProject)
    ensures Consistent(r, maxProject)
    ensures r.numCallTotal == |obs|
  {
    if |obs| == 1 then
      FirstObservation(callName, maxProject, obs[0].domainID, obs[0].projectID, obs[0].defLocation, obs[0].out)
    else
      var n := |obs| - 1;
      Observe(History(callName, maxProject, obs[..n]), obs[n].domainID, obs[n].projectID, obs[n].defLocation, obs[n].out)
  }

  lemma HistorySnoc(callName: string, maxProject: nat, obs: seq<Observation>)
    requires |obs| >= 2 && InCapacity(obs, maxProject)
    ensures var n := |obs| - 1;
      && obs == obs[..n] + [obs[n]]
      && DomainIDs(obs) == DomainIDs(obs[..n]) + [obs[n].domainID]
      && ProjectIDs(obs) == ProjectIDs(obs[..n]) + [obs[n].projectID]
  {
  }

  lemma ObserveBuckets(info: CallInfo, domainID: nat, projectID: nat, defLocation: string, out: bool)
    requires domainID < |info.numCallInDomain| && projectID < |info.numCallInProject|
    ensures var r := Observe(info, domainID, projectID, defLocation, out);
      && r.numCallInDomain == info.numCallInDomain[domainID := info.numCallInDomain[domainID] + 1]
      && r.numCallInProject == info.numCallInProject[projectID := info.numCallInProject[projectID] + 1]
  {
  }

  /** A bucket vector that counts the IDs seen so far still counts them after
      one more ID bumps its bucket. */
  lemma {:induction false} BucketsStep(buckets: seq<nat>, ids: seq<nat>, x: nat, maxProject: nat)
    requires |buckets| == maxProject && x < maxProject
    requires forall d: nat :: d < maxProject ==> buckets[d] == Count(ids, d)
    ensures forall d: nat :: d < maxProject ==> buckets[x := buckets[x] + 1][d] == Count(ids + [x], d)
  {
    forall d: nat | d < maxProject
      ensures buckets[x := buckets[x] + 1][d] == Count(ids + [x], d)
    {
      CountSnoc(ids, d, x);
    }
  }

  /** The buckets of a record count the IDs of the observations it has seen. */
  predicate BucketsCount(r: CallInfo, maxProject: nat, obs: seq<Observation>)
    requires |r.numCallInDomain| == maxProject && |r.numCallInProject| == maxProject
  {
    && (forall d: nat :: d < maxProject ==> r.numCallInDomain[d] == Count(DomainIDs(obs), d))
    && (forall p: nat :: p < maxProject ==> r.numCallInProject[p] == Count(ProjectIDs(obs), p))
  }

  lemma HistoryBucketsFirst(callName: string, maxProject: nat, obs: seq<Observation>)
    requires |obs| == 1 && InCapacity(obs, maxProject)
    ensures BucketsCount(History(callName, maxProject, obs), maxProject, obs)
  {
    var o := obs[0];
    assert History(callName, maxProject, obs)
        == FirstObservation(callName, maxProject, o.domainID, o.projectID, o.defLocation, o.out);
    assert DomainIDs(obs) == [o.domainID];
    assert ProjectIDs(obs) == [o.projectID];
    assert [o.domainID][..0] == [] && [o.projectID][..0] == [];
  }

  lemma HistoryBucketsNext(callName: string, maxProject: nat, obs: seq<Observation>)
    requires |obs| >= 2 && InCapacity(obs, maxProject)
    requires BucketsCount(History(callName, maxProject, obs[..|obs| - 1]), maxProject, obs[..|obs| - 1])
    ensures BucketsCount(History(callName, maxProject, obs), maxProject, obs)
  {
    var n := |obs| - 1;
    var prev := obs[..n];
    HistorySnoc(callName, maxProject, obs);
    HistoryStepBuckets(callName, maxProject, obs);
    var before := History(callName, maxProject, prev);
    BucketsStep(before.numCallInDomain, DomainIDs(prev), obs[n].domainID, maxProject);
    BucketsStep(before.numCallInProject, ProjectIDs(prev), obs[n].projectID, maxProject);
  }

  lemma HistoryStepBuckets(callName: string, maxProject: nat, obs: seq<Observation>)
    requires |obs| >= 2 && InCapacity(obs, maxProject)
    ensures var n := |obs| - 1;
      var before := History(callName, maxProject, obs[..n]);
      var r := History(callName, maxProject, obs);
      && r.numCallInDomain == before.numCallInDomain[obs[n].domainID := before.numCallInDomain[obs[n].domainID] + 1]
      && r.numCallInProject == before.numCallInProject[obs[n].projectID := before.numCallInProject[obs[n].projectID] + 1]
  {
    var n := |obs| - 1;
    var before := History(callName, maxProject, obs[..n]);
    ObserveBuckets(before, obs[n].domainID, obs[n].projectID, obs[n].defLocation, obs[n].out);
  }

  /** Each bucket counts the observations with its ID. */
  lemma {:induction false} HistoryBuckets(callName: string, maxProject: nat, obs: seq<Observation>)
    requires |obs| >= 1 && InCapacity(obs, maxProject)
    ensures var r := History(callName, maxProject, obs);
      && (forall d: nat :: d < maxProject ==> r.numCallInDomain[d] == Count(DomainIDs(obs), d))
      && (forall p: nat :: p < maxProject ==> r.numCallInProject[p] == Count(ProjectIDs(obs), p))
  {
    if |obs| == 1 {
      HistoryBucketsFirst(callName, maxProject, obs);
    } else {
      var prev := obs[..|obs| - 1];
      assert InCapacity(prev, maxProject);
      HistoryBuckets(callName, maxProject, prev);
      HistoryBucketsNext(callName, maxProject, obs);
    }
  }

  /** One more ID adds a distinct ID exactly when it had not occurred. */
  lemma DistinctSnoc(ids: seq<nat>, x: nat)
    ensures |Dedup(ids + [x])| == |Dedup(ids)| + (if Count(ids, x) == 0 then 1 else 0)
  {
    CountZeroIffAbsent(ids, x);
    DedupSnoc(ids, x);
  }

  /** The distinct counts are the numbers of distinct IDs observed. */
  lemma {:induction false} HistoryDistinct(callName: string, maxProject: nat, obs: seq<Observation>)
    requires |obs| >= 1 && InCapacity(obs, maxProject)
    ensures var r := History(callName, maxProject, obs);
      && r.numDomain == |Dedup(DomainIDs(obs))|
      && r.numProject == |Dedup(ProjectIDs(obs))|
  {
    var n := |obs| - 1;
    var o := obs[n];
    if n == 0 {
      assert DomainIDs(obs) == [] + [o.domainID];
      assert ProjectIDs(obs) == [] + [o.projectID];
      DistinctSnoc([], o.domainID);
      DistinctSnoc([], o.projectID);
    } else {
      var prev := obs[..n];
      HistorySnoc(callName, maxProject, obs);
      HistoryDistinct(callName, maxProject, prev);
      HistoryBuckets(callName, maxProject, prev);
      var before := History(callName, maxProject, prev);
      assert o.domainID < maxProject && o.projectID < maxProject;
      DistinctStep(before, History(callName, maxProject, obs), DomainIDs(prev), ProjectIDs(prev), o);
    }
  }

  lemma DistinctStep(before: CallInfo, r: CallInfo, domainIDs: seq<nat>, projectIDs: seq<nat>, o: Observation)
    requires o.domainID < |before.numCallInDomain| && o.projectID < |before.numCallInProject|
    requires r == Observe(before, o.domainID, o.projectID, o.defLocation, o.out)
    requires before.numDomain == |Dedup(domainIDs)| && before.numProject == |Dedup(projectIDs)|
    requires forall d: nat :: d < |before.numCallInDomain| ==> before.numCallInDomain[d] == Count(domainIDs, d)
    requires forall p: nat :: p < |before.numCallInProject| ==> before.numCallInProject[p] == Count(projectIDs, p)
    ensures r.numDomain == |Dedup(domainIDs + [o.domainID])|
    ensures r.numProject == |Dedup(projectIDs + [o.projectID])|
  {
    DistinctSnoc(domainIDs, o.domainID);
    DistinctSnoc(projectIDs, o.projectID);
  }

  /** The definition list alone, as the observations build it. */
  function Definitions(obs: seq<Observation>): string
    requires |obs| >= 1
  {
    if |obs| == 1 then obs[0].defLocation
    else RecordDefinition(Definitions(obs[..|obs| - 1]), obs[|obs| - 1].defLocation)
  }

  lemma {:induction false} HistoryDefinitionList(callName: string, maxProject: nat, obs: seq<Observation>)
    requires |obs| >= 1 && InCapacity(obs, maxProject)
    ensures History(callName, maxProject, obs).defLocation == Definitions(obs)
  {
    if |obs| > 1 {
      HistoryDefinitionList(callName, maxProject, obs[..|obs| - 1]);
    }
  }

  lemma {:induction false} DefinitionListed(obs: seq<Observation>, k: nat)
    requires |obs| >= 1 && k < |obs|
    ensures Contains(Definitions(obs), obs[k].defLocation)
  {
    var n := |obs| - 1;
    var def := obs[n].defLocation;
    if n == 0 {
      assert def[0..|def|] == def;
      ContainsAt(def, def, 0);
    } else if k < n {
      assert obs[k] == obs[..n][k];
      DefinitionListed(obs[..n], k);
      RecordDefinitionKeeps(Definitions(obs[..n]), def, obs[k].defLocation);
    }
  }

  /** Every observed definition location is listed in the record. */
  lemma HistoryDefinitions(callName: string, maxProject: nat, obs: seq<Observation>)
    requires |obs| >= 1 && InCapacity(obs, maxProject)
    ensures forall k :: 0 <= k < |obs| ==> Contains(History(callName, maxProject, obs).defLocation, obs[k].defLocation)
  {
    HistoryDefinitionList(callName, maxProject, obs);
    forall k | 0 <= k < |obs|
      ensures Contains(Definitions(obs), obs[k].defLocation)
    {
      DefinitionListed(obs, k);
    }
  }

  /** Some observation's definition lay outside its project. */
  predicate SomeOut(obs: seq<Observation>)
  {
    exists k :: 0 <= k < |obs| && obs[k].out
  }

  lemma SomeOutSnoc(obs: seq<Observation>)
    requires |obs| >= 1
    ensures SomeOut(obs) <==> SomeOut(obs[..|obs| - 1]) || obs[|obs| - 1].out
  {
    var n := |obs| - 1;
    if SomeOut(obs[..n]) {
      var k :| 0 <= k < n && obs[..n][k].out;
      assert obs[k].out;
    }
    if SomeOut(obs) && !obs[n].out {
      var k :| 0 <= k < |obs| && obs[k].out;
      assert obs[..n][k].out;
    }
  }

  /** The out-of-project flag is set exactly when some observation was out of
      its project. */
  lemma {:induction false} HistoryOutOfProject(callName: string, maxProject: nat, obs: seq<Observation>)
    requires |obs| >= 1 && InCapacity(obs, maxProject)
    ensures History(callName, maxProject, obs).outProjectDef <==> SomeOut(obs)
  {
    var n := |obs| - 1;
    SomeOutSnoc(obs);
    if n > 0 {
      HistoryOutOfProject(callName, maxProject, obs[..n]);
    } else {
      assert !SomeOut(obs[..0]);
    }
  }

  /** The arguments of one `addCallExpression`. */
  datatype CallSite = CallSite(callName: string, callLocation: string, defLocation: string)

  /** The tables after one `addCallExpression` per call, in order. */
  function Run(c: ConfigData, maxProject: nat, data: CallData, calls: seq<CallSite>): (r: CallData)
    requires c.Valid() && Valid(data, maxProject)
    ensures Valid(r, maxProject)
  {
    if |calls| == 0 then data
    else
      var e := calls[|calls| - 1];
      AddCallExpression(c, maxProject, Run(c, maxProject, data, calls[..|calls| - 1]),
                        e.callName, e.callLocation, e.defLocation).0
  }

  /** The stored observations of `callName` after one more call. */
  function ObserveCall(c: ConfigData, maxProject: nat, callName: string, prev: seq<Observation>, e: CallSite)
    : (obs: seq<Observation>)
    requires c.Valid()
    ensures InCapacity(prev, maxProject) ==> InCapacity(obs, maxProject)
  {
    if e.callName == callName && Recordable(c, maxProject, e.callLocation, e.defLocation)
    then prev + [ObservationOf(c, e.callLocation, e.defLocation).value]
    else prev
  }

  /** The observations of `callName` that a run stores, in order. */
  function RecordedObservations(c: ConfigData, maxProject: nat, callName: string, calls: seq<CallSite>)
    : (obs: seq<Observation>)
    requires c.Valid()
    ensures InCapacity(obs, maxProject)
  {
    if |calls| == 0 then []
    else
      ObserveCall(c, maxProject, callName, RecordedObservations(c, maxProject, callName, calls[..|calls| - 1]),
                  calls[|calls| - 1])
  }

  /** Two different known names sit at different positions. */
  lemma IndexDistinct(data: CallData, maxProject: nat, a: string, b: string)
    requires Valid(data, maxProject) && a != b && IndexOfCall(data, a) != 0
    ensures IndexOfCall(data, a) != IndexOfCall(data, b)
  {
    if b in data.call2index {
      assert NameAt(data.callInfoVec, data.call2index[a]) == a;
      assert NameAt(data.callInfoVec, data.call2index[b]) == b;
    }
  }

  /** One stored observation of the name extends its history by that
      observation. */
  lemma NextRecordExtends(data: CallData, maxProject: nat, callName: string, obs: seq<Observation>, o: Observation)
    requires Valid(data, maxProject) && Fits(o, maxProject)
    requires InCapacity(obs, maxProject) && InCapacity(obs + [o], maxProject)
    requires |obs| == 0 <==> IndexOfCall(data, callName) == 0
    requires |obs| >= 1 ==> Holds(data, callName, History(callName, maxProject, obs))
    ensures NextRecord(data, maxProject, callName, o) == History(callName, maxProject, obs + [o])
  {
    assert (obs + [o])[..|obs|] == obs;
    assert (obs + [o])[|obs|] == o;
  }

  /** One call keeps the name's record equal to the fold of its stored
      observations. */
  lemma HistoryStep(c: ConfigData, maxProject: nat, data: CallData, prev: seq<Observation>, e: CallSite,
                    callName: string)
    requires c.Valid() && Valid(data, maxProject) && InCapacity(prev, maxProject)
    requires |prev| == 0 <==> IndexOfCall(data, callName) == 0
    requires |prev| >= 1 ==> Holds(data, callName, History(callName, maxProject, prev))
    ensures var r := AddCallExpression(c, maxProject, data, e.callName, e.callLocation, e.defLocation).0;
      var obs := ObserveCall(c, maxProject, callName, prev, e);
      && (|obs| == 0 <==> IndexOfCall(r, callName) == 0)
      && (|obs| >= 1 ==> Holds(r, callName, History(callName, maxProject, obs)))
  {
    var step := AddCallExpression(c, maxProject, data, e.callName, e.callLocation, e.defLocation);
    var obs := ObserveCall(c, maxProject, callName, prev, e);
    if step.1 != Recorded {
      assert obs == prev && step.0 == data;
    } else if e.callName == callName {
      assert obs == prev + [ObservationOf(c, e.callLocation, e.defLocation).value];
      StoredCallExtends(c, maxProject, data, prev, e);
    } else {
      assert obs == prev;
      if |prev| >= 1 {
        OtherCallKeeps(c, maxProject, data, e, callName, History(callName, maxProject, prev));
      } else {
        OtherCallKeeps(c, maxProject, data, e, callName, EmptyCallInfo(maxProject));
      }
    }
  }

  /** A stored call of the name extends its record's history. */
  lemma StoredCallExtends(c: ConfigData, maxProject: nat, data: CallData, prev: seq<Observation>, e: CallSite)
    requires c.Valid() && Valid(data, maxProject) && InCapacity(prev, maxProject)
    requires |prev| == 0 <==> IndexOfCall(data, e.callName) == 0
    requires |prev| >= 1 ==> Holds(data, e.callName, History(e.callName, maxProject, prev))
    requires Recordable(c, maxProject, e.callLocation, e.defLocation)
    ensures var o := ObservationOf(c, e.callLocation, e.defLocation).value;
      && InCapacity(prev + [o], maxProject)
      && Holds(AddCallExpression(c, maxProject, data, e.callName, e.callLocation, e.defLocation).0, e.callName,
               History(e.callName, maxProject, prev + [o]))
  {
    var o := ObservationOf(c, e.callLocation, e.defLocation).value;
    NextRecordExtends(data, maxProject, e.callName, prev, o);
  }

  /** A call of another name leaves this name's index and record alone. */
  lemma OtherCallKeeps(c: ConfigData, maxProject: nat, data: CallData, e: CallSite, callName: string, info: CallInfo)
    requires c.Valid() && Valid(data, maxProject) && e.callName != callName
    ensures var r := AddCallExpression(c, maxProject, data, e.callName, e.callLocation, e.defLocation).0;
      && IndexOfCall(r, callName) == IndexOfCall(data, callName)
      && (Holds(data, callName, info) ==> Holds(r, callName, info))
  {
    var step := AddCallExpression(c, maxProject, data, e.callName, e.callLocation, e.defLocation);
    if Holds(data, callName, info) && step.1 == Recorded {
      IndexDistinct(data, maxProject, callName, e.callName);
      var o := ObservationOf(c, e.callLocation, e.defLocation).value;
      StoredElsewhere(data, step.0, e.callName, NextRecord(data, maxProject, e.callName, o), callName, info);
    }
  }

  /** Storing one name's record keeps every other name's record. */
  lemma StoredElsewhere(data: CallData, r: CallData, callName: string, info: CallInfo,
                        other: string, otherInfo: CallInfo)
    requires Stored(data, r, callName, info) && other != callName && Holds(data, other, otherInfo)
    requires IndexOfCall(data, other) != IndexOfCall(data, callName)
    ensures Holds(r, other, otherInfo)
  {
    var k := IndexOfCall(data, other) - 1;
    assert r.callInfoVec[k] == data.callInfoVec[k];
  }

  /** Over any run from tables that have not seen `callName`, the name has a
      record exactly when one of its calls was stored, and that record is the
      fold of its stored observations, so the `History` lemmas give its total,
      buckets, distinct counts, definition list and flag. */
  lemma {:induction false} RunHistory(c: ConfigData, maxProject: nat, data: CallData, calls: seq<CallSite>,
                                      callName: string)
    requires c.Valid() && Valid(data, maxProject) && IndexOfCall(data, callName) == 0
    ensures var obs := RecordedObservations(c, maxProject, callName, calls);
      var r := Run(c, maxProject, data, calls);
      && (|obs| == 0 <==> IndexOfCall(r, callName) == 0)
      && (|obs| >= 1 ==> Holds(r, callName, History(callName, maxProject, obs)))
  {
    if |calls| > 0 {
      var n := |calls| - 1;
      RunHistory(c, maxProject, data, calls[..n], callName);
      HistoryStep(c, maxProject, Run(c, maxProject, data, calls[..n]),
                  RecordedObservations(c, maxProject, callName, calls[..n]), calls[n], callName);
    }
  }
}
