/** An abstract SQLite table as the ehminer persistence layer uses it: rows in
    insertion order, each with a natural key (the columns of the `where`
    clause) and the remaining columns. Nothing makes the key unique, so a
    table may hold several rows for one key. */
module Store {
  import opened Text
  import opened Seqs
  import opened Fields

  datatype Row<K, V> = Row(key: K, value: V)

  type Table<K, V> = seq<Row<K, V>>

  predicate HasKey<K(==), V>(t: Table<K, V>, k: K)
  {
    exists i :: 0 <= i < |t| && t[i].key == k
  }

  /** What `cb_get_info` leaves behind after `select * ... where <key>`: no
      row, or the values of the first matching row together with whether a
      further matching row made the callback report an error. */
  datatype Selection<V> = NoRow | Found(value: V, duplicate: bool)

  function Select<K(==), V>(t: Table<K, V>, k: K): Selection<V>
  {
    if |t| == 0 then NoRow
    else if t[0].key == k then Found(t[0].value, HasKey(t[1..], k))
    else Select(t[1..], k)
  }

  /** `cb_get_info` keeps the first matching row in insertion order and flags a
      duplicate exactly when another matching row follows it. */
  lemma {:induction false} SelectFirst<K, V>(t: Table<K, V>, k: K)
    ensures Select(t, k).NoRow? <==> !HasKey(t, k)
    ensures Select(t, k).Found? ==>
      exists i :: 0 <= i < |t| && t[i].key == k && t[i].value == Select(t, k).value
               && (forall j :: 0 <= j < i ==> t[j].key != k)
               && (Select(t, k).duplicate <==> HasKey(t[i + 1..], k))
  {
    if |t| > 0 && t[0].key != k {
      SelectFirst(t[1..], k);
      if HasKey(t, k) {
        var i :| 0 <= i < |t| && t[i].key == k;
        assert t[1..][i - 1].key == k;
      }
      if HasKey(t[1..], k) {
        var i :| 0 <= i < |t[1..]| && t[1..][i].key == k;
        assert t[i + 1].key == k;
      }
      if Select(t, k).Found? {
        var i :| 0 <= i < |t[1..]| && t[1..][i].key == k && t[1..][i].value == Select(t, k).value
                 && (forall j :: 0 <= j < i ==> t[1..][j].key != k)
                 && (Select(t, k).duplicate <==> HasKey(t[1..][i + 1..], k));
        assert t[1..][i + 1..] == t[i + 2..];
        forall j | 0 <= j < i + 1
          ensures t[j].key != k
        {
          if j > 0 {
            assert t[j] == t[1..][j - 1];
          }
        }
        assert t[i + 1] == t[1..][i];
      }
    } else if |t| > 0 {
      assert t[0 + 1..] == t[1..];
    }
  }

  /** Appending a row only adds to what the key already selects. */
  lemma {:induction false} SelectAppend<K, V>(t: Table<K, V>, row: Row<K, V>, k: K)
    ensures Select(t + [row], k) ==
      match Select(t, k)
      case NoRow => if row.key == k then Found(row.value, false) else NoRow
      case Found(v, d) => Found(v, d || row.key == k)
  {
    if |t| == 0 {
      assert (t + [row])[1..] == [];
    } else {
      assert (t + [row])[1..] == t[1..] + [row];
      SelectAppend(t[1..], row, k);
      if t[0].key == k {
        HasKeyAppend(t[1..], row, k);
      }
    }
  }

  lemma HasKeyAppend<K, V>(t: Table<K, V>, row: Row<K, V>, k: K)
    ensures HasKey(t + [row], k) <==> HasKey(t, k) || row.key == k
  {
    if HasKey(t, k) {
      var i :| 0 <= i < |t| && t[i].key == k;
      assert (t + [row])[i].key == k;
    }
    if HasKey(t + [row], k) && row.key != k {
      var i :| 0 <= i < |t + [row]| && (t + [row])[i].key == k;
      assert (t + [row])[|t|] == row;
      assert t[i].key == k;
    }
  }

  /** `update ... set <value> where <key>`: every matching row is rewritten. */
  function UpdateWhere<K(==), V>(t: Table<K, V>, k: K, v: V): (r: Table<K, V>)
    ensures |r| == |t|
    ensures forall i :: 0 <= i < |t| ==> r[i].key == t[i].key
    ensures forall i :: 0 <= i < |t| ==> r[i].value == (if t[i].key == k then v else t[i].value)
  {
    seq(|t|, i requires 0 <= i < |t| => if t[i].key == k then Row(k, v) else t[i])
  }

  /** After an update the key selects the new value, with the same duplicate
      flag; every other key selects what it did before. */
  lemma {:induction false} SelectUpdate<K, V>(t: Table<K, V>, k: K, v: V, k': K)
    ensures Select(UpdateWhere(t, k, v), k') ==
      if k' != k then Select(t, k')
      else match Select(t, k)
           case NoRow => NoRow
           case Found(_, d) => Found(v, d)
  {
    if |t| > 0 {
      var r := UpdateWhere(t, k, v);
      assert r[1..] == UpdateWhere(t[1..], k, v);
      SelectUpdate(t[1..], k, v, k');
      HasKeyUpdate(t[1..], k, v, k');
    }
  }

  lemma HasKeyUpdate<K, V>(t: Table<K, V>, k: K, v: V, k': K)
    ensures HasKey(UpdateWhere(t, k, v), k') <==> HasKey(t, k')
  {
    var r := UpdateWhere(t, k, v);
    if HasKey(t, k') {
      var i :| 0 <= i < |t| && t[i].key == k';
      assert r[i].key == k';
    }
    if HasKey(r, k') {
      var i :| 0 <= i < |r| && r[i].key == k';
      assert t[i].key == k';
    }
  }

  /** The counter upsert of `addPrebranchCall` (`NumLogTime`) and
      `addFunctionCall` (`CallNumber`): insert 1 for a new key, otherwise
      write the first matching row's count plus one into every matching row. */
  function BumpCounter<K(==)>(t: Table<K, nat>, k: K): (r: Table<K, nat>)
    ensures Select(r, k).Found? && |r| >= |t|
    ensures Select(t, k).NoRow? ==> r == t + [Row(k, 1)]
    ensures Select(t, k).Found? ==> forall i :: 0 <= i < |t| && t[i].key == k ==> r[i].value == Select(t, k).value + 1
  {
    match Select(t, k)
    case NoRow =>
      SelectAppend(t, Row(k, 1), k);
      t + [Row(k, 1)]
    case Found(n, _) =>
      SelectUpdate(t, k, n + 1, k);
      UpdateWhere(t, k, n + 1)
  }

  /** A count one higher, or 1 where there was none; a duplicate stays flagged. */
  function Incremented(s: Selection<nat>): Selection<nat>
  {
    match s
    case NoRow => Found(1, false)
    case Found(n, d) => Found(n + 1, d)
  }

  /** One upsert: the key's count goes up by one (from nothing to 1 for a new
      key), the duplicate flag is kept, and every other key selects what it
      did before. */
  lemma BumpCounterSelect<K>(t: Table<K, nat>, k: K, k': K)
    ensures Select(BumpCounter(t, k), k') == if k' != k then Select(t, k') else Incremented(Select(t, k))
  {
    match Select(t, k)
    case NoRow =>
      assert BumpCounter(t, k) == t + [Row(k, 1)];
      SelectAppend(t, Row(k, 1), k');
    case Found(n, _) =>
      assert BumpCounter(t, k) == UpdateWhere(t, k, n + 1);
      SelectUpdate(t, k, n + 1, k');
  }

  /** The table after one upsert per key in `ks`, in order. */
  function Counters<K(==)>(t: Table<K, nat>, ks: seq<K>): Table<K, nat>
  {
    if |ks| == 0 then t else BumpCounter(Counters(t, ks[..|ks| - 1]), ks[|ks| - 1])
  }

  /** After a run of upserts into a table that starts without the keys
      involved, each key's count is the number of calls made with it, and a
      key never called is still absent. */
  lemma {:induction false} CountersCount<K>(t: Table<K, nat>, ks: seq<K>, k: K)
    requires !HasKey(t, k)
    ensures Select(Counters(t, ks), k) == if Count(ks, k) == 0 then NoRow else Found(Count(ks, k), false)
  {
    if |ks| == 0 {
      SelectFirst(t, k);
    } else {
      var n := |ks| - 1;
      CountersCount(t, ks[..n], k);
      BumpCounterSelect(Counters(t, ks[..n]), ks[n], k);
      assert ks == ks[..n] + [ks[n]];
      CountSnoc(ks[..n], k, ks[n]);
    }
  }

  /** N upserts with one new key leave the table as it was plus a single row
      holding N. */
  lemma {:induction false} CountersSingleRow<K>(t: Table<K, nat>, k: K, n: nat)
    requires !HasKey(t, k) && n >= 1
    ensures Counters(t, seq(n, _ => k)) == t + [Row(k, n)]
  {
    var ks := seq(n, _ => k);
    if n == 1 {
      assert ks[..0] == [];
      SelectFirst(t, k);
    } else {
      assert ks[..n - 1] == seq(n - 1, _ => k);
      CountersSingleRow(t, k, n - 1);
      var before := t + [Row(k, n - 1)];
      SelectFirst(t, k);
      SelectAppend(t, Row(k, n - 1), k);
      var after := UpdateWhere(before, k, n);
      forall i | 0 <= i < |after|
        ensures after[i] == (t + [Row(k, n)])[i]
      {
        if i < |t| {
          assert t[i].key != k;
        }
      }
    }
  }

  /** With duplicate rows for a key, an upsert writes the first row's count
      plus one into all of them, and the duplicate is still reported. */
  lemma DuplicateRowsResync<K>(t: Table<K, nat>, k: K)
    requires Select(t, k).Found? && Select(t, k).duplicate
    ensures var r := BumpCounter(t, k);
      && |r| == |t|
      && (forall i :: 0 <= i < |t| && t[i].key == k ==> r[i] == Row(k, Select(t, k).value + 1))
      && Select(r, k) == Found(Select(t, k).value + 1, true)
  {
    BumpCounterSelect(t, k, k);
  }

  /** The remaining columns of a `postbranch_call` row. */
  datatype PostValue = PostValue(prebranchCall: string, numPrebranchCall: nat, numPostbranchCall: nat)

  /** The `#a#b#` list of distinct names in first-seen order. */
  function Wrapped(names: seq<string>): (s: string)
    ensures |s| >= 1 && s[|s| - 1] == '#'
  {
    if |names| == 0 then "#" else Wrapped(names[..|names| - 1]) + names[|names| - 1] + "#"
  }

  /** The membership test of `addPostbranchCall`. */
  predicate Listed(list: string, name: string)
  {
    Contains(list, "#" + name + "#")
  }

  /** A known key's value after one more call from `name`: the name is
      appended when the list does not yet hold it (adding one distinct
      caller), and the total count goes up by one. */
  function Advance(v: PostValue, name: string): PostValue
  {
    var known := Listed(v.prebranchCall, name);
    PostValue(if known then v.prebranchCall else v.prebranchCall + name + "#",
              if known then v.numPrebranchCall else v.numPrebranchCall + 1,
              v.numPostbranchCall + 1)
  }

  /** What a key selects after one more call from `name`: `#name#` with both
      counts 1 for a new key; a duplicate stays flagged. */
  function Stepped(s: Selection<PostValue>, name: string): Selection<PostValue>
  {
    match s
    case NoRow => Found(PostValue("#" + name + "#", 1, 1), false)
    case Found(v, d) => Found(Advance(v, name), d)
  }

  /** One `addPostbranchCall` on a classified call. */
  function PostStep<K(==)>(t: Table<K, PostValue>, k: K, name: string): (r: Table<K, PostValue>)
    ensures Select(r, k).Found?
  {
    match Select(t, k)
    case NoRow =>
      SelectAppend(t, Row(k, PostValue("#" + name + "#", 1, 1)), k);
      t + [Row(k, PostValue("#" + name + "#", 1, 1))]
    case Found(v, _) =>
      SelectUpdate(t, k, Advance(v, name), k);
      UpdateWhere(t, k, Advance(v, name))
  }

  lemma PostStepSelect<K>(t: Table<K, PostValue>, k: K, name: string, k': K)
    ensures Select(PostStep(t, k, name), k') == if k' != k then Select(t, k') else Stepped(Select(t, k), name)
  {
    match Select(t, k)
    case NoRow => SelectAppend(t, Row(k, PostValue("#" + name + "#", 1, 1)), k');
    case Found(v, _) => SelectUpdate(t, k, Advance(v, name), k');
  }

  /** No name holds the list separator. */
  predicate NamesHashFree(names: seq<string>)
  {
    forall i :: 0 <= i < |names| ==> '#' !in names[i]
  }

  /** For names without `#`, the membership test is exact: `#n#` occurs in
      the list precisely when `n` is one of its names. */
  lemma {:induction false} ListedIff(names: seq<string>, n: string)
    requires NamesHashFree(names) && '#' !in n
    ensures Listed(Wrapped(names), n) <==> n in names
  {
    if |names| > 0 {
      var k := |names| - 1;
      var prev := names[..k];
      var m := names[k];
      var w := Wrapped(prev);
      var pat := "#" + n + "#";
      assert names == prev + [m];
      assert NamesHashFree(prev) by {
        forall i | 0 <= i < |prev| ensures '#' !in prev[i] { assert prev[i] == names[i]; }
      }
      ListedIff(prev, n);
      assert Wrapped(names) == w + m + "#";
      if n in prev {
        ContainsExtend(w, m + "#", pat);
        assert w + (m + "#") == w + m + "#";
      } else if n == m {
        var x := w[..|w| - 1];
        assert w == x + "#";
        assert w + m + "#" == x + pat;
        ContainsSuffix(x, pat);
      } else {
        assert '#' !in m;
        TailMiss(w, m, n);
      }
    }
  }

  /** An occurrence of `#n#` that is not inside `w` would have to end at the
      final `#` of `w + m + "#"`, and then `n` would be `m`. */
  lemma TailMiss(w: string, m: string, n: string)
    requires |w| >= 1 && w[|w| - 1] == '#'
    requires '#' !in m && '#' !in n && n != m
    requires !Contains(w, "#" + n + "#")
    ensures !Contains(w + m + "#", "#" + n + "#")
  {
    var s := w + m + "#";
    var pat := "#" + n + "#";
    forall p: nat | p <= |s| - |pat|
      ensures !OccursAt(s, pat, p)
    {
      if p + |pat| <= |w| {
        if OccursAt(s, pat, p) {
          assert w[p..p + |pat|] == s[p..p + |pat|];
          ContainsAt(w, pat, p);
        }
      } else {
        NoOccurrenceAcross(w, m, n, p);
      }
    }
  }

  lemma NoOccurrenceAcross(w: string, m: string, n: string, p: nat)
    requires |w| >= 1 && w[|w| - 1] == '#'
    requires '#' !in m && '#' !in n && n != m
    requires p + |n| + 2 > |w| && p + |n| + 2 <= |w| + |m| + 1
    ensures !OccursAt(w + m + "#", "#" + n + "#", p)
  {
    var s := w + m + "#";
    var pat := "#" + n + "#";
    var e := p + |n| + 1;
    assert pat[0] == '#' && pat[|n| + 1] == '#' && pat[1..|n| + 1] == n;
    if e < |w| + |m| {
      assert s[e] == m[e - |w|] && m[e - |w|] in m;
      assert s[p..p + |pat|][|n| + 1] == s[e] != '#';
    } else if p >= |w| {
      assert s[p] == m[p - |w|] && m[p - |w|] in m;
      assert s[p..p + |pat|][0] == s[p] != '#';
    } else if p < |w| - 1 {
      var q := |w| - 1 - p;
      assert s[p + q] == w[|w| - 1] == '#';
      assert pat[q] == n[q - 1] && n[q - 1] in n;
      assert s[p..p + |pat|][q] == '#' != pat[q];
    } else {
      assert p + 1 == |w| && |n| == |m|;
      assert s[p..p + |pat|][1..|n| + 1] == s[|w|..|w| + |m|] == m;
    }
  }

  /** The names sent to one key by a run of `(key, name)` calls. */
  function NamesFor<K(==)>(calls: seq<(K, string)>, k: K): (names: seq<string>)
    ensures |names| <= |calls|
  {
    if |calls| == 0 then []
    else
      var rest := NamesFor(calls[..|calls| - 1], k);
      if calls[|calls| - 1].0 == k then rest + [calls[|calls| - 1].1] else rest
  }

  /** The table after one `addPostbranchCall` per call, in order. */
  function PostCalls<K(==)>(t: Table<K, PostValue>, calls: seq<(K, string)>): Table<K, PostValue>
  {
    if |calls| == 0 then t
    else PostStep(PostCalls(t, calls[..|calls| - 1]), calls[|calls| - 1].0, calls[|calls| - 1].1)
  }

  predicate CallsHashFree<K>(calls: seq<(K, string)>)
  {
    forall i :: 0 <= i < |calls| ==> '#' !in calls[i].1
  }

  /** What a key selects once the names in `names` have called it, in order. */
  function PostSummary(names: seq<string>): Selection<PostValue>
  {
    if |names| == 0 then NoRow
    else Found(PostValue(Wrapped(Dedup(names)), |Dedup(names)|, |names|), false)
  }

  /** One more call from a `#`-free name moves the summary along. */
  lemma SummaryStep(names: seq<string>, name: string)
    requires NamesHashFree(names) && '#' !in name
    ensures Stepped(PostSummary(names), name) == PostSummary(names + [name])
  {
    DedupSnoc(names, name);
    if |names| == 0 {
      assert Dedup(names + [name]) == [name] by { assert Dedup(names) == []; }
      assert Wrapped([name]) == Wrapped([]) + name + "#";
    } else {
      DedupHashFree(names);
      ListedIff(Dedup(names), name);
      if name !in names {
        SummaryNewName(names, name);
      }
    }
  }

  lemma SummaryNewName(names: seq<string>, name: string)
    requires |names| > 0 && name !in names
    ensures Wrapped(Dedup(names + [name])) == Wrapped(Dedup(names)) + name + "#"
    ensures |Dedup(names + [name])| == |Dedup(names)| + 1
  {
    DedupSnoc(names, name);
    var d := Dedup(names);
    assert (d + [name])[..|d|] == d;
  }

  /** The `postbranch_call` invariant: for a key absent at the start, after
      any run of calls with `#`-free names its row lists the distinct names
      in first-seen order, counts them, and counts all calls for the key. */
  lemma {:induction false} PostCallsInvariant<K>(t: Table<K, PostValue>, calls: seq<(K, string)>, k: K)
    requires !HasKey(t, k) && CallsHashFree(calls)
    ensures var names := NamesFor(calls, k);
      Select(PostCalls(t, calls), k) ==
        if |names| == 0 then NoRow
        else Found(PostValue(Wrapped(Dedup(names)), |Dedup(names)|, |names|), false)
  {
    if |calls| == 0 {
      SelectFirst(t, k);
    } else {
      var n := |calls| - 1;
      var prev := calls[..n];
      var (k0, name) := calls[n];
      assert CallsHashFree(prev) by {
        forall i | 0 <= i < |prev| ensures '#' !in prev[i].1 { assert prev[i] == calls[i]; }
      }
      PostCallsInvariant(t, prev, k);
      assert Select(PostCalls(t, prev), k) == PostSummary(NamesFor(prev, k));
      PostStepSelect(PostCalls(t, prev), k0, name, k);
      if k0 == k {
        NamesForHashFree(prev, k);
        SummaryStep(NamesFor(prev, k), name);
      }
    }
  }

  lemma {:induction false} NamesForHashFree<K>(calls: seq<(K, string)>, k: K)
    requires CallsHashFree(calls)
    ensures NamesHashFree(NamesFor(calls, k))
  {
    if |calls| > 0 {
      var n := |calls| - 1;
      assert CallsHashFree(calls[..n]) by {
        forall i | 0 <= i < n ensures '#' !in calls[..n][i].1 { assert calls[..n][i] == calls[i]; }
      }
      NamesForHashFree(calls[..n], k);
    }
  }

  lemma DedupHashFree(names: seq<string>)
    requires NamesHashFree(names)
    ensures NamesHashFree(Dedup(names))
  {
    var d := Dedup(names);
    forall i | 0 <= i < |d|
      ensures '#' !in d[i]
    {
      assert d[i] in names;
    }
  }

  /** Calling again with a name already listed adds one to the total and
      nothing to the distinct count. */
  lemma RepeatCallerCountsOnce<K>(t: Table<K, PostValue>, k: K, name: string)
    requires Select(t, k).Found? && Listed(Select(t, k).value.prebranchCall, name)
    ensures var v := Select(t, k).value;
      Select(PostStep(t, k, name), k).value == v.(numPostbranchCall := v.numPostbranchCall + 1)
  {
    PostStepSelect(t, k, name, k);
  }

  /** The list the appends build is `#`, the names joined by `#`, and `#`. */
  lemma {:induction false} WrappedIsJoin(names: seq<string>)
    requires |names| > 0
    ensures Wrapped(names) == "#" + Join(names, "#") + "#"
  {
    var n := |names| - 1;
    if n == 0 {
      assert names[..0] == [];
    } else {
      WrappedIsJoin(names[..n]);
      assert names == names[..n] + [names[n]];
      JoinSnoc(names[..n], names[n], "#");
    }
  }
}
