/** The ehminer persistence layer (clang-ehminer/src/DataUtility.cpp): the
    six tables the `add*` operations of `CallData` write, with the SQLite
    store replaced by the abstract tables of `Store`. Every operation first
    classifies the call site with the trailing-separator rule and writes
    nothing when that fails. */
module Recorder {
  import opened Text
  import opened Fields
  import opened Catalog
  import opened Store
  import opened Seqs

  /** What the AST visitor gathered about one branch on a call's result. */
  datatype BranchInfo = BranchInfo(
    callName: string,
    callDefLoc: string,
    callID: string,
    callStr: string,
    callReturnVec: seq<string>,
    callArgVec: seq<string>,
    exprNodeVec: seq<string>,
    exprStrVec: seq<string>,
    pathNumberVec: seq<int>,
    caseLabelVec: seq<string>,
    logName: string,
    logDefLoc: string,
    logID: string,
    logStr: string,
    logArgVec: seq<string>,
    logRetType: string,
    logArgTypeVec: seq<string>)

  /** A `branch_call` row: the text of every value the insert statement
      quotes, in column order (the `ID` column is left to SQLite). */
  datatype BranchRow = BranchRow(
    domainName: string,
    projectName: string,
    callName: string,
    callDefLoc: string,
    callID: string,
    callStr: string,
    callReturn: string,
    callArgVec: string,
    callArgNum: string,
    exprNodeVec: string,
    exprNodeNum: string,
    exprStrVec: string,
    pathNumberVec: string,
    caseLabelVec: string,
    branchLevel: string,
    logName: string,
    logDefLoc: string,
    logID: string,
    logStr: string,
    logArgVec: string,
    logArgNum: string,
    logRetType: string,
    logArgTypeVec: string,
    logArgTypeNum: string)

  /** `prebranch_call` is looked up by all six of these columns. */
  datatype PreKey = PreKey(logName: string, logDefLoc: string, callName: string, callDefLoc: string,
                           domainName: string, projectName: string)

  /** `postbranch_call` is looked up by the log function and the project. */
  datatype PostKey = PostKey(logName: string, logDefLoc: string, domainName: string, projectName: string)

  /** `call_statistic` is looked up by the callee and the project. */
  datatype StatKey = StatKey(callName: string, callDefLoc: string, domainName: string, projectName: string)

  datatype CallGraphRow = CallGraphRow(funcName: string, funcDefLoc: string, funcSize: nat,
                                       domainName: string, projectName: string,
                                       callName: string, callDefLoc: string)

  datatype FunctionCallRow = FunctionCallRow(callName: string, callDefLoc: string,
                                             domainName: string, projectName: string,
                                             callID: string, callStr: string)

  datatype Database = Database(
    branchCall: seq<BranchRow>,
    prebranchCall: Table<PreKey, nat>,
    postbranchCall: Table<PostKey, PostValue>,
    callGraph: seq<CallGraphRow>,
    functionCall: seq<FunctionCallRow>,
    callStatistic: Table<StatKey, nat>)

  function EmptyDatabase(): Database
  {
    Database([], [], [], [], [], [])
  }

  /** The `(domain, project)` pair of a path, by the ehminer rule. */
  function Classify(c: ConfigData, path: string): (string, string)
    requires c.Valid()
  {
    GetDomainProjectName(c, path, TrailingSeparator)
  }

  /** The row `addBranchCall` inserts for a branch in the given project.
      Vector columns are encoded with `#-_-#` and the `-` placeholder, count
      columns are decimal lengths, and the free-text columns go through the
      quote doubling of `replace_all_distinct`. The argument-type column uses
      the corrected encoding; `TypeColumnAsWritten` is the line as written,
      and `TypeColumnAgrees` relates the two. */
  function BranchRowOf(info: BranchInfo, domainName: string, projectName: string): BranchRow
  {
    BranchRow(
      domainName,
      projectName,
      info.callName,
      info.callDefLoc,
      info.callID,
      Escape(info.callStr),
      Escape(Encode(info.callReturnVec)),
      Escape(Encode(info.callArgVec)),
      NatToDecimal(|info.callArgVec|),
      Escape(Encode(info.exprNodeVec)),
      NatToDecimal(|info.exprNodeVec|),
      Escape(Encode(info.exprStrVec)),
      Encode(DecimalEach(info.pathNumberVec)),
      Escape(Encode(info.caseLabelVec)),
      NatToDecimal(|info.exprStrVec|),
      info.logName,
      info.logDefLoc,
      info.logID,
      Escape(info.logStr),
      Escape(Encode(info.logArgVec)),
      NatToDecimal(|info.logArgVec|),
      info.logRetType,
      Encode(info.logArgTypeVec),
      NatToDecimal(|info.logArgTypeVec|))
  }

  /** The argument-type column as the source builds it: the loop runs over
      `logArgTypeVec` but tests the last index of `logArgVec` (an unsigned
      `size() - 1`, so an empty `logArgVec` never matches). */
  function TypeColumnAsWritten(info: BranchInfo): string
  {
    WithPlaceholder(LoopJoin(info.logArgTypeVec, |info.logArgTypeVec|, |info.logArgVec| - 1))
  }

  /** The column as written equals the corrected one whenever the two log
      vectors have the same length, and gains a trailing separator when the
      argument list is the longer one. */
  lemma TypeColumnAgrees(info: BranchInfo, domainName: string, projectName: string)
    ensures |info.logArgTypeVec| == |info.logArgVec| ==>
      TypeColumnAsWritten(info) == BranchRowOf(info, domainName, projectName).logArgTypeVec
    ensures 0 < |info.logArgTypeVec| < |info.logArgVec| ==>
      TypeColumnAsWritten(info) == Join(info.logArgTypeVec, Sep) + Sep
  {
    var v := info.logArgTypeVec;
    if |v| == |info.logArgVec| {
      LoopJoinAligned(v);
    }
    if 0 < |v| < |info.logArgVec| {
      LoopJoinTrailing(v, |v|, |info.logArgVec| - 1);
      assert v[..|v|] == v;
    }
  }

  /** SQL reads a quoted literal by collapsing each doubled quote. */
  function ReadLiteral(literal: string): string
  {
    Unescape(literal)
  }

  /** What the stored row says about the branch: each count column parses
      back to its vector's length, each escaped column reads back as its
      field's encoding, and each vector of `#`-free elements other than the
      two that collide with the placeholder decodes back to itself. */
  lemma BranchRowReadsBack(info: BranchInfo, domainName: string, projectName: string)
    ensures var row := BranchRowOf(info, domainName, projectName);
      && ParseDecimal(row.callArgNum) == |info.callArgVec|
      && ParseDecimal(row.exprNodeNum) == |info.exprNodeVec|
      && ParseDecimal(row.branchLevel) == |info.exprStrVec|
      && ParseDecimal(row.logArgNum) == |info.logArgVec|
      && ParseDecimal(row.logArgTypeNum) == |info.logArgTypeVec|
      && ReadLiteral(row.callStr) == info.callStr
      && ReadLiteral(row.logStr) == info.logStr
      && ReadLiteral(row.callReturn) == Encode(info.callReturnVec)
      && ReadLiteral(row.callArgVec) == Encode(info.callArgVec)
      && ReadLiteral(row.exprNodeVec) == Encode(info.exprNodeVec)
      && ReadLiteral(row.exprStrVec) == Encode(info.exprStrVec)
      && ReadLiteral(row.caseLabelVec) == Encode(info.caseLabelVec)
      && ReadLiteral(row.logArgVec) == Encode(info.logArgVec)
      && (HashFree(info.callArgVec) && info.callArgVec != [""] && info.callArgVec != ["-"] ==>
            Decode(ReadLiteral(row.callArgVec)) == info.callArgVec)
      && Decode(row.pathNumberVec) == DecimalEach(info.pathNumberVec)
  {
    ParseNatToDecimal(|info.callArgVec|);
    ParseNatToDecimal(|info.exprNodeVec|);
    ParseNatToDecimal(|info.exprStrVec|);
    ParseNatToDecimal(|info.logArgVec|);
    ParseNatToDecimal(|info.logArgTypeVec|);
    UnescapeEscape(info.callStr);
    UnescapeEscape(info.logStr);
    UnescapeEscape(Encode(info.callReturnVec));
    UnescapeEscape(Encode(info.callArgVec));
    UnescapeEscape(Encode(info.exprNodeVec));
    UnescapeEscape(Encode(info.exprStrVec));
    UnescapeEscape(Encode(info.caseLabelVec));
    UnescapeEscape(Encode(info.logArgVec));
    if HashFree(info.callArgVec) {
      DecodeEncode(info.callArgVec);
    }
    PathNumbersRoundTrip(info.pathNumberVec);
  }

  /** Escaping an encoded vector column is encoding the escaped elements. */
  lemma BranchRowEscapesElements(info: BranchInfo, domainName: string, projectName: string)
    ensures var row := BranchRowOf(info, domainName, projectName);
      && row.callArgVec == Encode(EscapeEach(info.callArgVec))
      && row.logArgVec == Encode(EscapeEach(info.logArgVec))
      && row.callReturn == Encode(EscapeEach(info.callReturnVec))
      && row.exprNodeVec == Encode(EscapeEach(info.exprNodeVec))
      && row.exprStrVec == Encode(EscapeEach(info.exprStrVec))
      && row.caseLabelVec == Encode(EscapeEach(info.caseLabelVec))
  {
    EscapeEncode(info.callArgVec);
    EscapeEncode(info.logArgVec);
    EscapeEncode(info.callReturnVec);
    EscapeEncode(info.exprNodeVec);
    EscapeEncode(info.exprStrVec);
    EscapeEncode(info.caseLabelVec);
  }

  /** `addBranchCall`: one row appended for a classified call site, nothing
      written otherwise. */
  function AddBranchCall(c: ConfigData, db: Database, info: BranchInfo): (r: Database)
    requires c.Valid()
    ensures !Resolved(Classify(c, info.callID)) ==> r == db
    ensures Resolved(Classify(c, info.callID)) ==>
      && |r.branchCall| == |db.branchCall| + 1
      && r.branchCall[..|db.branchCall|] == db.branchCall
      && r.branchCall[|db.branchCall|].domainName == Classify(c, info.callID).0
      && r.branchCall[|db.branchCall|].projectName == Classify(c, info.callID).1
      && r.branchCall[|db.branchCall|].callName == info.callName
      && r.branchCall == db.branchCall + [BranchRowOf(info, Classify(c, info.callID).0, Classify(c, info.callID).1)]
      && r == db.(branchCall := r.branchCall)
  {
    var (d, p) := Classify(c, info.callID);
    if !Resolved((d, p)) then db
    else
      var rows := db.branchCall + [BranchRowOf(info, d, p)];
      assert rows[..|db.branchCall|] == db.branchCall;
      db.(branchCall := rows)
  }

  /** `addPrebranchCall`: count one more call of the callee before the log
      call, under the full six-column key. */
  function AddPrebranchCall(c: ConfigData, db: Database, callName: string, callLoc: string, callDef: string,
                            logName: string, logDef: string): (r: Database)
    requires c.Valid()
    ensures !Resolved(Classify(c, callLoc)) ==> r == db
    ensures Resolved(Classify(c, callLoc)) ==>
      var key := PreKey(logName, logDef, callName, callDef, Classify(c, callLoc).0, Classify(c, callLoc).1);
      && r == db.(prebranchCall := r.prebranchCall)
      && Select(r.prebranchCall, key) == Incremented(Select(db.prebranchCall, key))
      && forall k :: k != key ==> Select(r.prebranchCall, k) == Select(db.prebranchCall, k)
  {
    var (d, p) := Classify(c, callLoc);
    if !Resolved((d, p)) then db
    else
      var key := PreKey(logName, logDef, callName, callDef, d, p);
      BumpCounterSelect(db.prebranchCall, key, key);
      forall k | k != key
        ensures Select(BumpCounter(db.prebranchCall, key), k) == Select(db.prebranchCall, k)
      {
        BumpCounterSelect(db.prebranchCall, key, k);
      }
      db.(prebranchCall := BumpCounter(db.prebranchCall, key))
  }

  /** `addPostbranchCall`: record that `callName` was called after the log
      function, in the `#a#b#` list of distinct callers and the two counts. */
  function AddPostbranchCall(c: ConfigData, db: Database, callName: string, callLoc: string, callDef: string,
                             logName: string, logDef: string): (r: Database)
    requires c.Valid()
    ensures !Resolved(Classify(c, callLoc)) ==> r == db
    ensures Resolved(Classify(c, callLoc)) ==>
      var key := PostKey(logName, logDef, Classify(c, callLoc).0, Classify(c, callLoc).1);
      && r == db.(postbranchCall := r.postbranchCall)
      && Select(r.postbranchCall, key).Found?
      && Select(r.postbranchCall, key) == Stepped(Select(db.postbranchCall, key), callName)
      && (ListsClosed(db.postbranchCall) ==>
            ListsClosed(r.postbranchCall) && Listed(Select(r.postbranchCall, key).value.prebranchCall, callName))
      && forall k :: k != key ==> Select(r.postbranchCall, k) == Select(db.postbranchCall, k)
  {
    var (d, p) := Classify(c, callLoc);
    if !Resolved((d, p)) then db
    else
      var key := PostKey(logName, logDef, d, p);
      PostStepOnClosed(db.postbranchCall, key, callName);
      PostStepSelect(db.postbranchCall, key, callName, key);
      forall k | k != key
        ensures Select(PostStep(db.postbranchCall, key, callName), k) == Select(db.postbranchCall, k)
      {
        PostStepSelect(db.postbranchCall, key, callName, k);
      }
      db.(postbranchCall := PostStep(db.postbranchCall, key, callName))
  }

  /** Every list in the table ends with `#`, as every list the step writes
      does. */
  predicate ListsClosed(t: Table<PostKey, PostValue>)
  {
    forall i :: 0 <= i < |t| ==> EndsWithHash(t[i].value.prebranchCall)
  }

  predicate EndsWithHash(s: string)
  {
    |s| >= 1 && s[|s| - 1] == '#'
  }

  /** A post-branch step keeps every list closed. */
  lemma PostStepKeepsClosed(t: Table<PostKey, PostValue>, key: PostKey, name: string)
    requires ListsClosed(t)
    ensures ListsClosed(PostStep(t, key, name))
  {
    var r := PostStep(t, key, name);
    match Select(t, key)
    case NoRow =>
    case Found(v, _) =>
      SelectFirst(t, key);
      var i :| 0 <= i < |t| && t[i].key == key && t[i].value == v;
      assert EndsWithHash(v.prebranchCall);
      forall j | 0 <= j < |r|
        ensures EndsWithHash(r[j].value.prebranchCall)
      {
      }
  }

  lemma PostStepOnClosed(t: Table<PostKey, PostValue>, key: PostKey, name: string)
    ensures Select(PostStep(t, key, name), key).Found?
    ensures ListsClosed(t) ==>
      ListsClosed(PostStep(t, key, name)) && Listed(Select(PostStep(t, key, name), key).value.prebranchCall, name)
  {
    if ListsClosed(t) {
      PostStepListed(t, key, name);
      PostStepKeepsClosed(t, key, name);
    }
  }

  /** After a post-branch step on a closed table the caller is listed for its
      key. */
  lemma PostStepListed(t: Table<PostKey, PostValue>, key: PostKey, name: string)
    requires ListsClosed(t)
    ensures Select(PostStep(t, key, name), key).Found?
    ensures Listed(Select(PostStep(t, key, name), key).value.prebranchCall, name)
  {
    PostStepSelect(t, key, name, key);
    var pat := "#" + name + "#";
    match Select(t, key)
    case NoRow =>
      assert pat[0..|pat|] == pat;
      ContainsAt(pat, pat, 0);
    case Found(v, _) =>
      if !Listed(v.prebranchCall, name) {
        SelectFirst(t, key);
        var i :| 0 <= i < |t| && t[i].key == key && t[i].value == v;
        var list := v.prebranchCall;
        assert EndsWithHash(list);
        var x := list[..|list| - 1];
        assert list + name + "#" == x + pat;
        ContainsSuffix(x, pat);
      }
  }

  /** `addCallGraph`: one edge appended per classified call site, never
      merged with an equal edge. */
  function AddCallGraph(c: ConfigData, db: Database, funcName: string, funcDef: string, callName: string,
                        callDef: string, callLoc: string, funcSize: nat): (r: Database)
    requires c.Valid()
    ensures !Resolved(Classify(c, callLoc)) ==> r == db
    ensures Resolved(Classify(c, callLoc)) ==>
      r == db.(callGraph := db.callGraph + [CallGraphRow(funcName, funcDef, funcSize, Classify(c, callLoc).0,
                                                         Classify(c, callLoc).1, callName, callDef)])
  {
    var (d, p) := Classify(c, callLoc);
    if !Resolved((d, p)) then db
    else db.(callGraph := db.callGraph + [CallGraphRow(funcName, funcDef, funcSize, d, p, callName, callDef)])
  }

  /** `addFunctionCall`: one `function_call` row appended per classified call
      site, and the call counted in `call_statistic`. */
  function AddFunctionCall(c: ConfigData, db: Database, callName: string, callLoc: string, callDef: string,
                           callStr: string): (r: Database)
    requires c.Valid()
    ensures !Resolved(Classify(c, callLoc)) ==> r == db
    ensures Resolved(Classify(c, callLoc)) ==>
      var (d, p) := Classify(c, callLoc);
      var key := StatKey(callName, callDef, d, p);
      && r.functionCall == db.functionCall + [FunctionCallRow(callName, callDef, d, p, callLoc, Escape(callStr))]
      && ReadLiteral(r.functionCall[|db.functionCall|].callStr) == callStr
      && Select(r.callStatistic, key) == Incremented(Select(db.callStatistic, key))
      && (forall k :: k != key ==> Select(r.callStatistic, k) == Select(db.callStatistic, k))
      && r == db.(functionCall := r.functionCall, callStatistic := r.callStatistic)
  {
    var (d, p) := Classify(c, callLoc);
    if !Resolved((d, p)) then db
    else
      var key := StatKey(callName, callDef, d, p);
      UnescapeEscape(callStr);
      BumpCounterSelect(db.callStatistic, key, key);
      forall k | k != key
        ensures Select(BumpCounter(db.callStatistic, key), k) == Select(db.callStatistic, k)
      {
        BumpCounterSelect(db.callStatistic, key, k);
      }
      db.(functionCall := db.functionCall + [FunctionCallRow(callName, callDef, d, p, callLoc, Escape(callStr))],
          callStatistic := BumpCounter(db.callStatistic, key))
  }

  /** The same call reported twice gives two equal `function_call` rows and a
      count of two. */
  lemma FunctionCallsNotDeduplicated(c: ConfigData, callName: string, callLoc: string, callDef: string,
                                     callStr: string)
    requires c.Valid() && Resolved(Classify(c, callLoc))
    ensures var once := AddFunctionCall(c, EmptyDatabase(), callName, callLoc, callDef, callStr);
      var twice := AddFunctionCall(c, once, callName, callLoc, callDef, callStr);
      var (d, p) := Classify(c, callLoc);
      && |twice.functionCall| == 2 && twice.functionCall[0] == twice.functionCall[1]
      && Select(twice.callStatistic, StatKey(callName, callDef, d, p)) == Found(2, false)
  {
  }

  /** The arguments of one `addFunctionCall`. */
  datatype FunctionCall = FunctionCall(callName: string, callLoc: string, callDef: string, callStr: string)

  /** The database after one `addFunctionCall` per call, in order. */
  function RunFunctionCall(c: ConfigData, db: Database, calls: seq<FunctionCall>): Database
    requires c.Valid()
  {
    if |calls| == 0 then db
    else
      var e := calls[|calls| - 1];
      AddFunctionCall(c, RunFunctionCall(c, db, calls[..|calls| - 1]), e.callName, e.callLoc, e.callDef, e.callStr)
  }

  /** The `function_call` rows of the calls whose site classifies, in order. */
  function FunctionCallRows(c: ConfigData, calls: seq<FunctionCall>): seq<FunctionCallRow>
    requires c.Valid()
  {
    if |calls| == 0 then []
    else
      var e := calls[|calls| - 1];
      var names := Classify(c, e.callLoc);
      FunctionCallRows(c, calls[..|calls| - 1])
        + (if Resolved(names) then [FunctionCallRow(e.callName, e.callDef, names.0, names.1, e.callLoc, Escape(e.callStr))]
           else [])
  }

  /** The `call_statistic` keys of the calls whose site classifies, in order. */
  function StatKeys(c: ConfigData, calls: seq<FunctionCall>): seq<StatKey>
    requires c.Valid()
  {
    if |calls| == 0 then []
    else
      var e := calls[|calls| - 1];
      var names := Classify(c, e.callLoc);
      StatKeys(c, calls[..|calls| - 1]) + (if Resolved(names) then [StatKey(e.callName, e.callDef, names.0, names.1)] else [])
  }

  /** A run of `addFunctionCall` appends one row per classified call, never
      merging equal rows, and is one counter upsert per classified call; no
      other table changes. */
  lemma {:induction false} RunFunctionCallIsCounters(c: ConfigData, db: Database, calls: seq<FunctionCall>)
    requires c.Valid()
    ensures RunFunctionCall(c, db, calls) == db.(functionCall := db.functionCall + FunctionCallRows(c, calls),
                                                 callStatistic := Counters(db.callStatistic, StatKeys(c, calls)))
  {
    if |calls| > 0 {
      var n := |calls| - 1;
      var e := calls[n];
      var names := Classify(c, e.callLoc);
      RunFunctionCallIsCounters(c, db, calls[..n]);
      var rows := FunctionCallRows(c, calls[..n]);
      var ks := StatKeys(c, calls[..n]);
      if Resolved(names) {
        var row := FunctionCallRow(e.callName, e.callDef, names.0, names.1, e.callLoc, Escape(e.callStr));
        var k := StatKey(e.callName, e.callDef, names.0, names.1);
        assert db.functionCall + rows + [row] == db.functionCall + (rows + [row]);
        assert (ks + [k])[..|ks|] == ks;
      } else {
        assert rows + [] == rows && ks + [] == ks;
      }
    }
  }

  /** After any run of `addFunctionCall` into a table without the key,
      `CallNumber` for the key is the number of classified calls with that
      key, in a single row. */
  lemma RunFunctionCallCounts(c: ConfigData, db: Database, calls: seq<FunctionCall>, key: StatKey)
    requires c.Valid() && !HasKey(db.callStatistic, key)
    ensures var n := Count(StatKeys(c, calls), key);
      Select(RunFunctionCall(c, db, calls).callStatistic, key) == if n == 0 then NoRow else Found(n, false)
  {
    RunFunctionCallIsCounters(c, db, calls);
    CountersCount(db.callStatistic, StatKeys(c, calls), key);
  }

  /** The arguments of one `addPrebranchCall` or `addPostbranchCall`. */
  datatype LogCall = LogCall(callName: string, callLoc: string, callDef: string, logName: string, logDef: string)

  /** The database after one `addPrebranchCall` per call, in order. */
  function RunPrebranch(c: ConfigData, db: Database, calls: seq<LogCall>): Database
    requires c.Valid()
  {
    if |calls| == 0 then db
    else
      var e := calls[|calls| - 1];
      AddPrebranchCall(c, RunPrebranch(c, db, calls[..|calls| - 1]), e.callName, e.callLoc, e.callDef, e.logName, e.logDef)
  }

  /** The `prebranch_call` keys of the calls whose site classifies, in order. */
  function PreKeys(c: ConfigData, calls: seq<LogCall>): seq<PreKey>
    requires c.Valid()
  {
    if |calls| == 0 then []
    else
      var e := calls[|calls| - 1];
      var names := Classify(c, e.callLoc);
      PreKeys(c, calls[..|calls| - 1])
        + (if Resolved(names) then [PreKey(e.logName, e.logDef, e.callName, e.callDef, names.0, names.1)] else [])
  }

  /** A run of `addPrebranchCall` is one counter upsert per classified call
      and touches no other table. */
  lemma {:induction false} RunPrebranchIsCounters(c: ConfigData, db: Database, calls: seq<LogCall>)
    requires c.Valid()
    ensures RunPrebranch(c, db, calls) == db.(prebranchCall := Counters(db.prebranchCall, PreKeys(c, calls)))
  {
    if |calls| > 0 {
      var n := |calls| - 1;
      var e := calls[n];
      var names := Classify(c, e.callLoc);
      RunPrebranchIsCounters(c, db, calls[..n]);
      var ks := PreKeys(c, calls[..n]);
      if Resolved(names) {
        var k := PreKey(e.logName, e.logDef, e.callName, e.callDef, names.0, names.1);
        assert (ks + [k])[..|ks|] == ks;
      } else {
        assert ks + [] == ks;
      }
    }
  }

  /** After any run of `addPrebranchCall` into a table without the key,
      `NumLogTime` for the key is the number of classified calls with that
      key, and the key has a single row. */
  lemma RunPrebranchCounts(c: ConfigData, db: Database, calls: seq<LogCall>, key: PreKey)
    requires c.Valid() && !HasKey(db.prebranchCall, key)
    ensures var n := Count(PreKeys(c, calls), key);
      Select(RunPrebranch(c, db, calls).prebranchCall, key) == if n == 0 then NoRow else Found(n, false)
  {
    RunPrebranchIsCounters(c, db, calls);
    CountersCount(db.prebranchCall, PreKeys(c, calls), key);
  }

  /** The database after one `addPostbranchCall` per call, in order. */
  function RunPostbranch(c: ConfigData, db: Database, calls: seq<LogCall>): Database
    requires c.Valid()
  {
    if |calls| == 0 then db
    else
      var e := calls[|calls| - 1];
      AddPostbranchCall(c, RunPostbranch(c, db, calls[..|calls| - 1]), e.callName, e.callLoc, e.callDef, e.logName, e.logDef)
  }

  /** The `postbranch_call` key and caller of each call whose site classifies. */
  function PostSteps(c: ConfigData, calls: seq<LogCall>): (steps: seq<(PostKey, string)>)
    requires c.Valid()
    ensures forall i :: 0 <= i < |steps| ==> exists j :: 0 <= j < |calls| && steps[i].1 == calls[j].callName
  {
    if |calls| == 0 then []
    else
      var n := |calls| - 1;
      var e := calls[n];
      var names := Classify(c, e.callLoc);
      var prev := PostSteps(c, calls[..n]);
      var steps := prev + (if Resolved(names) then [(PostKey(e.logName, e.logDef, names.0, names.1), e.callName)] else []);
      assert forall i :: 0 <= i < |prev| ==> exists j :: 0 <= j < |calls| && prev[i].1 == calls[j].callName by {
        forall i | 0 <= i < |prev|
          ensures exists j :: 0 <= j < |calls| && prev[i].1 == calls[j].callName
        {
          var j :| 0 <= j < n && prev[i].1 == calls[..n][j].callName;
          assert calls[..n][j] == calls[j];
        }
      }
      steps
  }

  /** A run of `addPostbranchCall` is one list step per classified call and
      touches no other table. */
  lemma {:induction false} RunPostbranchIsPostCalls(c: ConfigData, db: Database, calls: seq<LogCall>)
    requires c.Valid()
    ensures RunPostbranch(c, db, calls) == db.(postbranchCall := PostCalls(db.postbranchCall, PostSteps(c, calls)))
  {
    if |calls| > 0 {
      var n := |calls| - 1;
      var e := calls[n];
      var names := Classify(c, e.callLoc);
      RunPostbranchIsPostCalls(c, db, calls[..n]);
      var ss := PostSteps(c, calls[..n]);
      if Resolved(names) {
        var s := (PostKey(e.logName, e.logDef, names.0, names.1), e.callName);
        assert (ss + [s])[..|ss|] == ss;
      } else {
        assert ss + [] == ss;
      }
    }
  }

  /** The `postbranch_call` invariant over any run of calls whose callee names
      hold no `#`: for a key absent at the start, the row lists the distinct
      callers in first-seen order between `#`s, counts them, and counts all
      calls. */
  lemma RunPostbranchInvariant(c: ConfigData, db: Database, calls: seq<LogCall>, key: PostKey)
    requires c.Valid() && !HasKey(db.postbranchCall, key)
    requires forall j :: 0 <= j < |calls| ==> '#' !in calls[j].callName
    ensures var names := NamesFor(PostSteps(c, calls), key);
      Select(RunPostbranch(c, db, calls).postbranchCall, key) ==
        if |names| == 0 then NoRow
        else Found(PostValue(Wrapped(Dedup(names)), |Dedup(names)|, |names|), false)
  {
    RunPostbranchIsPostCalls(c, db, calls);
    var steps := PostSteps(c, calls);
    assert CallsHashFree(steps) by {
      forall i | 0 <= i < |steps|
        ensures '#' !in steps[i].1
      {
        var j :| 0 <= j < |calls| && steps[i].1 == calls[j].callName;
      }
    }
    PostCallsInvariant(db.postbranchCall, steps, key);
  }
}
