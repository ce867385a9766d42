/**
 * `process_all_cpp_files` (Main.py:87-102): the per-file tables are folded,
 * in the order the files are given, into one table. For each namespace of a
 * file an empty table is created if the namespace is new, then the file's
 * entries are merged into it with `dict.update`.
 */
module Aggregator {
  import opened Wrappers
  import opened Dicts
  import opened Parser
  import opened Patterns

  /** One iteration of the inner loop (Main.py:97-100). */
  function MergeNamespace(all: Table, ns: string, inner: Dict<string>): (r: Table)
    requires TableValid(all) && Valid(inner)
    ensures TableValid(r)
  {
    var withNs := if ns in all.items then all else Put(all, ns, Empty());
    Put(withNs, ns, Update(withNs.items[ns], inner))
  }

  /** The inner loop over the first `n` namespaces of one file's table. */
  function MergePrefix(all: Table, t: Table, n: nat): (r: Table)
    requires TableValid(all) && TableValid(t) && n <= |t.keys|
    ensures TableValid(r)
    decreases n
  {
    if n == 0 then all
    else
      var ns := t.keys[n - 1];
      MergeNamespace(MergePrefix(all, t, n - 1), ns, t.items[ns])
  }

  function MergeFile(all: Table, t: Table): (r: Table)
    requires TableValid(all) && TableValid(t)
    ensures TableValid(r)
  {
    MergePrefix(all, t, |t.keys|)
  }

  ghost predicate AllValid(ts: seq<Table>)
  {
    forall i :: 0 <= i < |ts| ==> TableValid(ts[i])
  }

  /** The outer loop over the per-file tables, starting from `{}` (Main.py:88). */
  function MergeAll(ts: seq<Table>): (r: Table)
    requires AllValid(ts)
    ensures TableValid(r)
    decreases |ts|
  {
    if ts == [] then Empty()
    else MergeFile(MergeAll(ts[..|ts| - 1]), ts[|ts| - 1])
  }

  /** The table `parse_cpp_offsets` returns for each file. */
  function ParseEach(files: seq<seq<string>>): (ts: seq<Table>)
    ensures |ts| == |files| && AllValid(ts)
    ensures forall i :: 0 <= i < |files| ==> ts[i] == Parse(files[i])
  {
    seq(|files|, i requires 0 <= i < |files| => Parse(files[i]))
  }

  function Aggregate(files: seq<seq<string>>): (t: Table)
    ensures TableValid(t)
  {
    MergeAll(ParseEach(files))
  }

  lemma MergeNamespaceShape(all: Table, ns: string, inner: Dict<string>)
    requires TableValid(all) && Valid(inner)
    ensures MergeNamespace(all, ns, inner).keys == if ns in all.items then all.keys else all.keys + [ns]
    ensures MergeNamespace(all, ns, inner).items ==
            all.items[ns := Update(if ns in all.items then all.items[ns] else Empty(), inner)]
  {
  }

  lemma MergeAllSnoc(ts: seq<Table>, t: Table)
    requires AllValid(ts) && TableValid(t)
    ensures AllValid(ts + [t]) && MergeAll(ts + [t]) == MergeFile(MergeAll(ts), t)
  {
    assert (ts + [t])[..|ts|] == ts;
  }

  lemma ParseEachSnoc(files: seq<seq<string>>, i: nat)
    requires i < |files|
    ensures ParseEach(files[..i + 1]) == ParseEach(files[..i]) + [Parse(files[i])]
  {
    assert files[..i + 1][..i] == files[..i];
  }

  lemma MergePrefixSnoc(all: Table, t: Table, j: nat)
    requires TableValid(all) && TableValid(t) && j < |t.keys|
    ensures t.keys[j] in t.items
    ensures MergePrefix(all, t, j + 1) == MergeNamespace(MergePrefix(all, t, j), t.keys[j], t.items[t.keys[j]])
  {
  }

  /** The body of the inner loop (Main.py:98-100) for one namespace `ns` of a file. */
  method MergeNamespaceInto(all: Table, ns: string, inner: Dict<string>) returns (allOffsets: Table)
    requires TableValid(all) && Valid(inner)
    ensures allOffsets == MergeNamespace(all, ns, inner)
  {
    allOffsets := all;
    if ns !in allOffsets.items {
      allOffsets := Put(allOffsets, ns, Empty());
    }
    allOffsets := Put(allOffsets, ns, Update(allOffsets.items[ns], inner));
  }

  lemma AggregateSnoc(files: seq<seq<string>>, i: nat)
    requires i < |files|
    ensures Aggregate(files[..i + 1]) == MergeFile(Aggregate(files[..i]), Parse(files[i]))
  {
    ParseEachSnoc(files, i);
    MergeAllSnoc(ParseEach(files[..i]), Parse(files[i]));
  }

  /** The inner loop of Main.py:97-100: one file's table merged into the running table. */
  method MergeInto(all: Table, offsets: Table) returns (allOffsets: Table)
    requires TableValid(all) && TableValid(offsets)
    ensures allOffsets == MergeFile(all, offsets)
  {
    allOffsets := all;
    ValidKeysPresent(offsets);
    var j := 0;
    while j < |offsets.keys|
      invariant 0 <= j <= |offsets.keys|
      invariant allOffsets == MergePrefix(all, offsets, j)
    {
      var ns := offsets.keys[j];
      allOffsets := MergeNamespaceInto(allOffsets, ns, offsets.items[ns]);
      j := j + 1;
    }
  }

  /** The loops of Main.py:88-102, the file list given in place of the `glob` result. */
  method ProcessAllCppFiles(files: seq<seq<string>>) returns (allOffsets: Table)
    ensures allOffsets == Aggregate(files)
  {
    allOffsets := Empty();
    var i := 0;
    while i < |files|
      invariant 0 <= i <= |files|
      invariant allOffsets == Aggregate(files[..i])
    {
      var offsets := ParseCppOffsets(files[i]);
      AggregateSnoc(files, i);
      allOffsets := MergeInto(allOffsets, offsets);
      i := i + 1;
    }
    assert files[..|files|] == files;
  }

  // ---- the merge is a right-biased union

  /** The value of (ns, name) in the last table that has one. */
  function LastIn(ts: seq<Table>, ns: string, name: string): Option<string>
    decreases |ts|
  {
    if ts == [] then None
    else
      var e := Entry(ts[|ts| - 1], ns, name);
      if e.Some? then e else LastIn(ts[..|ts| - 1], ns, name)
  }

  lemma MergeNamespaceEntry(all: Table, ns: string, inner: Dict<string>, ns2: string, name: string)
    requires TableValid(all) && Valid(inner)
    ensures Entry(MergeNamespace(all, ns, inner), ns2, name) ==
            if ns2 == ns && name in inner.items then Some(inner.items[name]) else Entry(all, ns2, name)
  {
    var withNs := if ns in all.items then all else Put(all, ns, Empty());
    UpdateIsRightBiasedUnion(withNs.items[ns], inner);
  }

  lemma {:induction false} MergePrefixEntry(all: Table, t: Table, n: nat, ns: string, name: string)
    requires TableValid(all) && TableValid(t) && n <= |t.keys|
    ensures Entry(MergePrefix(all, t, n), ns, name) ==
            if ns in t.keys[..n] && Entry(t, ns, name).Some? then Entry(t, ns, name) else Entry(all, ns, name)
    decreases n
  {
    if n > 0 {
      MergePrefixEntry(all, t, n - 1, ns, name);
      var k := t.keys[n - 1];
      MergeNamespaceEntry(MergePrefix(all, t, n - 1), k, t.items[k], ns, name);
      assert ns in t.keys[..n] <==> ns in t.keys[..n - 1] || ns == k;
    }
  }

  /** For a pair present in the file, the file's value wins; other pairs are kept. */
  lemma MergeFileEntry(all: Table, t: Table, ns: string, name: string)
    requires TableValid(all) && TableValid(t)
    ensures Entry(MergeFile(all, t), ns, name) ==
            if Entry(t, ns, name).Some? then Entry(t, ns, name) else Entry(all, ns, name)
  {
    MergePrefixEntry(all, t, |t.keys|, ns, name);
    assert t.keys[..|t.keys|] == t.keys;
  }

  /** The key sequence after one namespace is merged, for a table whose keys are `base + prev`. */
  lemma MergeNamespaceKeys(p: Table, base: seq<string>, prev: seq<string>, k: string, inner: Dict<string>)
    requires TableValid(p) && Valid(inner)
    requires p.keys == base + prev && k !in prev
    ensures MergeNamespace(p, k, inner).keys == base + (prev + if k in base then [] else [k])
  {
    MergeNamespaceShape(p, k, inner);
    assert k in p.keys <==> k in base || k in prev;
    assert k in p.items <==> k in base;
    if k !in base {
      assert base + prev + [k] == base + (prev + [k]);
    }
  }

  lemma {:induction false} MergePrefixKeys(all: Table, t: Table, n: nat)
    requires TableValid(all) && TableValid(t) && n <= |t.keys|
    ensures MergePrefix(all, t, n).keys == all.keys + NewKeys(all.keys, t.keys[..n])
    decreases n
  {
    if n > 0 {
      MergePrefixKeys(all, t, n - 1);
      var k := t.keys[n - 1];
      NewKeysSnoc(all.keys, t.keys, n);
      MergeNamespaceKeys(MergePrefix(all, t, n - 1), all.keys, NewKeys(all.keys, t.keys[..n - 1]), k, t.items[k]);
    }
  }

  /** Namespaces already present keep their position; new ones follow in the file's order. */
  lemma MergeFileKeys(all: Table, t: Table)
    requires TableValid(all) && TableValid(t)
    ensures MergeFile(all, t).keys == all.keys + NewKeys(all.keys, t.keys)
  {
    MergePrefixKeys(all, t, |t.keys|);
    assert t.keys[..|t.keys|] == t.keys;
  }

  /** Each (ns, name) takes its value from the last file that declares it. */
  lemma {:induction false} MergeAllEntry(ts: seq<Table>, ns: string, name: string)
    requires AllValid(ts)
    ensures Entry(MergeAll(ts), ns, name) == LastIn(ts, ns, name)
    decreases |ts|
  {
    if ts != [] {
      MergeAllEntry(ts[..|ts| - 1], ns, name);
      MergeFileEntry(MergeAll(ts[..|ts| - 1]), ts[|ts| - 1], ns, name);
    }
  }

  /** The merged namespaces are the union of the per-file namespaces. */
  lemma {:induction false} MergeAllNamespaces(ts: seq<Table>, ns: string)
    requires AllValid(ts)
    ensures ns in MergeAll(ts).items <==> exists i :: 0 <= i < |ts| && ns in ts[i].items
    decreases |ts|
  {
    if ts != [] {
      var prefix := ts[..|ts| - 1];
      MergeAllNamespaces(prefix, ns);
      var t := ts[|ts| - 1];
      MergePrefixKeys(MergeAll(prefix), t, |t.keys|);
      assert t.keys[..|t.keys|] == t.keys;
      assert forall i :: 0 <= i < |prefix| ==> prefix[i] == ts[i];
      if exists i :: 0 <= i < |ts| && ns in ts[i].items {
        var i :| 0 <= i < |ts| && ns in ts[i].items;
        if i < |prefix| {
          assert ns in prefix[i].items;
        }
      }
    }
  }

  // ---- the order of namespaces and of the names inside them

  /** One namespace merged: its names gain the new names of `inner`, in `inner`'s order. */
  lemma MergeNamespaceNames(all: Table, ns: string, inner: Dict<string>, ns2: string)
    requires TableValid(all) && Valid(inner)
    ensures NamesOf(MergeNamespace(all, ns, inner), ns2) ==
            if ns2 == ns then NamesOf(all, ns) + NewKeys(NamesOf(all, ns), inner.keys) else NamesOf(all, ns2)
  {
    MergeNamespaceShape(all, ns, inner);
    UpdateIsRightBiasedUnion(if ns in all.items then all.items[ns] else Empty(), inner);
  }

  /** The inner loop's step on the namespace it merges. */
  lemma MergePrefixNamesStep(all: Table, t: Table, n: nat, ns: string)
    requires TableValid(all) && TableValid(t) && 0 < n <= |t.keys| && ns == t.keys[n - 1]
    ensures
      var before := NamesOf(MergePrefix(all, t, n - 1), ns);
      NamesOf(MergePrefix(all, t, n), ns) == before + NewKeys(before, NamesOf(t, ns))
  {
    MergeNamespaceNames(MergePrefix(all, t, n - 1), ns, t.items[ns], ns);
  }

  /** The inner loop's step on any other namespace. */
  lemma MergePrefixNamesOther(all: Table, t: Table, n: nat, ns: string)
    requires TableValid(all) && TableValid(t) && 0 < n <= |t.keys| && ns != t.keys[n - 1]
    ensures NamesOf(MergePrefix(all, t, n), ns) == NamesOf(MergePrefix(all, t, n - 1), ns)
  {
    var k := t.keys[n - 1];
    MergeNamespaceShape(MergePrefix(all, t, n - 1), k, t.items[k]);
  }

  /**
   * The names of `ns` along the inner loop: a step on another namespace
   * keeps them, the one step on `ns` (the keys are distinct) appends the new
   * ones of `extra`.
   */
  lemma {:induction false} NamesAlongSteps(keys: seq<string>, names: seq<seq<string>>, ns: string, extra: seq<string>, m: nat)
    requires Distinct(keys) && |names| == |keys| + 1 && m <= |keys|
    requires forall i :: 0 <= i < |keys| && keys[i] != ns ==> names[i + 1] == names[i]
    requires forall i :: 0 <= i < |keys| && keys[i] == ns ==> names[i + 1] == names[i] + NewKeys(names[i], extra)
    ensures names[m] == if ns in keys[..m] then names[0] + NewKeys(names[0], extra) else names[0]
    decreases m
  {
    if m > 0 {
      NamesAlongSteps(keys, names, ns, extra, m - 1);
      assert keys[..m] == keys[..m - 1] + [keys[m - 1]];
      if keys[m - 1] == ns {
        assert ns !in keys[..m - 1] by {
          assert forall i :: 0 <= i < m - 1 ==> keys[i] != ns;
        }
      }
    }
  }

  /** A file merged: each namespace's names gain the file's new names for it, in the file's order. */
  lemma MergeFileNames(all: Table, t: Table, ns: string)
    requires TableValid(all) && TableValid(t)
    ensures NamesOf(MergeFile(all, t), ns) == NamesOf(all, ns) + NewKeys(NamesOf(all, ns), NamesOf(t, ns))
  {
    var n := |t.keys|;
    var names := seq(n + 1, i requires 0 <= i <= n => NamesOf(MergePrefix(all, t, i), ns));
    forall i | 0 <= i < n && t.keys[i] != ns
      ensures names[i + 1] == names[i]
    {
      assert names[i] == NamesOf(MergePrefix(all, t, i), ns);
      MergePrefixNamesOther(all, t, i + 1, ns);
    }
    forall i | 0 <= i < n && t.keys[i] == ns
      ensures names[i + 1] == names[i] + NewKeys(names[i], NamesOf(t, ns))
    {
      assert names[i] == NamesOf(MergePrefix(all, t, i), ns);
      MergePrefixNamesStep(all, t, i + 1, ns);
    }
    NamesAlongSteps(t.keys, names, ns, NamesOf(t, ns), n);
    assert t.keys[..n] == t.keys;
  }

  /** The namespaces of the files, in file order, each at its first appearance. */
  function AggregatedNamespaces(files: seq<seq<string>>): seq<string>
    decreases |files|
  {
    if files == [] then []
    else
      var p := AggregatedNamespaces(files[..|files| - 1]);
      p + NewKeys(p, Parse(files[|files| - 1]).keys)
  }

  /**
   * The names declared under `ns` across the files, in file order and, within
   * a file, in order of first declaration; each at its first appearance.
   */
  function AggregatedNames(files: seq<seq<string>>, ns: string): seq<string>
    decreases |files|
  {
    if files == [] then []
    else
      var p := AggregatedNames(files[..|files| - 1], ns);
      p + NewKeys(p, FirstDeclarations(files[|files| - 1], ns))
  }

  /** The merged namespaces are ordered by their first appearance across the files, in file order. */
  lemma {:induction false} AggregateKeys(files: seq<seq<string>>)
    ensures Aggregate(files).keys == AggregatedNamespaces(files)
    decreases |files|
  {
    if files != [] {
      var n := |files| - 1;
      AggregateKeys(files[..n]);
      AggregateSnoc(files, n);
      assert files[..n + 1] == files;
      MergeFileKeys(Aggregate(files[..n]), Parse(files[n]));
    }
  }

  /** The names of each merged namespace are ordered by first declaration across the files, in file order. */
  lemma {:induction false} AggregateNames(files: seq<seq<string>>, ns: string)
    ensures NamesOf(Aggregate(files), ns) == AggregatedNames(files, ns)
    decreases |files|
  {
    if files != [] {
      var n := |files| - 1;
      AggregateNames(files[..n], ns);
      AggregateSnoc(files, n);
      assert files[..n + 1] == files;
      MergeFileNames(Aggregate(files[..n]), Parse(files[n]), ns);
      ParseNamesAreFirstDeclarations(files[n], ns);
    }
  }

  /** Scenario with two files: the later file's value wins, names only in the first survive. */
  lemma TwoFilesRightBiased(t1: Table, t2: Table, ns: string, name: string)
    requires TableValid(t1) && TableValid(t2)
    ensures Entry(MergeAll([t1, t2]), ns, name) ==
            if Entry(t2, ns, name).Some? then Entry(t2, ns, name) else Entry(t1, ns, name)
  {
    MergeAllSnoc([], t1);
    MergeAllSnoc([t1], t2);
    assert [t1] + [t2] == [t1, t2];
    MergeFileEntry(MergeAll([t1]), t2, ns, name);
    MergeFileEntry(Empty(), t1, ns, name);
  }

  ghost predicate NoEmptyNamespace(t: Table)
  {
    forall ns :: ns in t.items ==> t.items[ns].keys != []
  }

  lemma MergeNamespaceKeepsNonEmpty(p: Table, k: string, inner: Dict<string>)
    requires TableValid(p) && Valid(inner) && NoEmptyNamespace(p) && inner.keys != []
    ensures NoEmptyNamespace(MergeNamespace(p, k, inner))
  {
    var r := MergeNamespace(p, k, inner);
    forall ns | ns in r.items
      ensures r.items[ns].keys != []
    {
      MergeNamespaceNames(p, k, inner, ns);
      if ns == k && NamesOf(p, k) == [] {
        NewKeysFromEmpty(inner.keys);
      }
    }
  }

  lemma {:induction false} MergePrefixKeepsNonEmpty(all: Table, t: Table, n: nat)
    requires TableValid(all) && TableValid(t) && n <= |t.keys|
    requires NoEmptyNamespace(all) && NoEmptyNamespace(t)
    ensures NoEmptyNamespace(MergePrefix(all, t, n))
    decreases n
  {
    ValidKeysPresent(t);
    if n > 0 {
      MergePrefixKeepsNonEmpty(all, t, n - 1);
      var k := t.keys[n - 1];
      MergePrefixSnoc(all, t, n - 1);
      MergeNamespaceKeepsNonEmpty(MergePrefix(all, t, n - 1), k, t.items[k]);
    }
  }

  /** Without empty namespaces in the per-file tables, the merged table has none either. */
  lemma {:induction false} MergeAllKeepsNonEmpty(ts: seq<Table>)
    requires AllValid(ts)
    requires forall i :: 0 <= i < |ts| ==> NoEmptyNamespace(ts[i])
    ensures NoEmptyNamespace(MergeAll(ts))
    decreases |ts|
  {
    if ts != [] {
      MergeAllKeepsNonEmpty(ts[..|ts| - 1]);
      var t := ts[|ts| - 1];
      MergePrefixKeepsNonEmpty(MergeAll(ts[..|ts| - 1]), t, |t.keys|);
    }
  }

  /** The aggregated table has no empty namespace, since each parsed table has none. */
  lemma AggregateHasNoEmptyNamespace(files: seq<seq<string>>)
    ensures NoEmptyNamespace(Aggregate(files))
  {
    var ts := ParseEach(files);
    forall i | 0 <= i < |ts| ensures NoEmptyNamespace(ts[i]) {
      ParsedNamespaces(files[i]);
    }
    MergeAllKeepsNonEmpty(ts);
  }

  lemma {:induction false} LastInComesFromSomeTable(ts: seq<Table>, ns: string, name: string)
    requires LastIn(ts, ns, name).Some?
    ensures exists i :: 0 <= i < |ts| && Entry(ts[i], ns, name) == LastIn(ts, ns, name)
    decreases |ts|
  {
    if Entry(ts[|ts| - 1], ns, name).None? {
      var prefix := ts[..|ts| - 1];
      LastInComesFromSomeTable(prefix, ns, name);
      var i :| 0 <= i < |prefix| && Entry(prefix[i], ns, name) == LastIn(prefix, ns, name);
      assert ts[i] == prefix[i];
    }
  }

  /** Merging keeps every namespace and name a `\w+` capture and every value a hexadecimal capture. */
  lemma MergeAllIsWellFormed(ts: seq<Table>)
    requires AllValid(ts) && forall i :: 0 <= i < |ts| ==> WellFormed(ts[i])
    ensures WellFormed(MergeAll(ts))
  {
    var m := MergeAll(ts);
    forall ns | ns in m.items
      ensures IsIdentifier(ns)
      ensures forall name :: name in m.items[ns].items ==>
                IsIdentifier(name) && IsHexLiteral(m.items[ns].items[name])
    {
      MergeAllNamespaces(ts, ns);
      forall name | name in m.items[ns].items
        ensures IsIdentifier(name) && IsHexLiteral(m.items[ns].items[name])
      {
        MergeAllEntry(ts, ns, name);
        LastInComesFromSomeTable(ts, ns, name);
      }
    }
  }

  lemma AggregateIsWellFormed(files: seq<seq<string>>)
    ensures WellFormed(Aggregate(files))
  {
    var ts := ParseEach(files);
    forall i | 0 <= i < |ts| ensures WellFormed(ts[i]) {
      ParseIsWellFormed(files[i]);
    }
    MergeAllIsWellFormed(ts);
  }
}
