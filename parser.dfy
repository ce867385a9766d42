/**
 * `parse_cpp_offsets` (Main.py:23-55): one pass over the lines of a header
 * with a "current namespace" cursor, filling an ordered
 * namespace -> (name -> value) table, then dropping the namespaces that
 * received no entry.
 *
 * `Scan` is the loop as a left fold over the lines; `ParseCppOffsets` is the
 * loop itself and is proved to compute `Parse`.  The lemmas describe `Parse`
 * without reference to the fold: the cursor is the last namespace seen, an
 * entry is the last declaration of its name under its namespace, and the
 * surviving namespaces are the non-empty ones in order of first appearance.
 */
module Parser {
  import opened Wrappers
  import opened Dicts
  import opened Patterns

  datatype ScanState = ScanState(current: Option<string>, offsets: Table)

  /** The cursor always names a namespace already present in the table. */
  ghost predicate StateValid(st: ScanState)
  {
    TableValid(st.offsets) && (st.current.Some? ==> st.current.value in st.offsets.items)
  }

  function Init(): (st: ScanState)
    ensures StateValid(st)
    ensures st.current == None && st.offsets.keys == [] && st.offsets.items == map[]
  {
    ScanState(None, Empty())
  }

  /** The body of the `for line in content` loop (Main.py:39-50). */
  function Step(st: ScanState, line: string): (r: ScanState)
    requires StateValid(st)
    ensures StateValid(r)
  {
    var m := ClassifyLine(line);
    var afterNs :=
      if m.ns.None? then st
      else
        var ns := m.ns.value;
        ScanState(m.ns, if ns in st.offsets.items then st.offsets else Put(st.offsets, ns, Empty()));
    if m.decl.Some? && afterNs.current.Some? then
      var ns := afterNs.current.value;
      var inner := Put(afterNs.offsets.items[ns], m.decl.value.name, m.decl.value.value);
      ScanState(afterNs.current, Put(afterNs.offsets, ns, inner))
    else afterNs
  }

  /** The loop run from state `st` over `lines`. */
  function ScanFrom(st: ScanState, lines: seq<string>): (r: ScanState)
    requires StateValid(st)
    ensures StateValid(r)
    decreases |lines|
  {
    if lines == [] then st
    else Step(ScanFrom(st, lines[..|lines| - 1]), lines[|lines| - 1])
  }

  function Scan(lines: seq<string>): (r: ScanState)
    ensures StateValid(r)
  {
    ScanFrom(Init(), lines)
  }

  /** The first `n` namespaces of `t` whose inner table is non-empty. */
  function PrunePrefix(t: Table, n: nat): (r: Table)
    requires TableValid(t) && n <= |t.keys|
    ensures TableValid(r)
    decreases n
  {
    if n == 0 then Empty()
    else
      var p := PrunePrefix(t, n - 1);
      var ns := t.keys[n - 1];
      ValidKeysPresent(t);
      if t.items[ns].keys != [] then Put(p, ns, t.items[ns]) else p
  }

  /** The surviving namespaces are the non-empty ones among the first `n`, with their tables. */
  lemma {:induction false} PrunePrefixItems(t: Table, n: nat)
    requires TableValid(t) && n <= |t.keys|
    ensures forall ns :: ns in PrunePrefix(t, n).items <==> ns in t.keys[..n] && t.items[ns].keys != []
    ensures forall ns :: ns in PrunePrefix(t, n).items ==> PrunePrefix(t, n).items[ns] == t.items[ns]
    decreases n
  {
    if n > 0 {
      PrunePrefixItems(t, n - 1);
      assert forall x :: x in t.keys[..n] <==> x in t.keys[..n - 1] || x == t.keys[n - 1];
    }
  }

  /** The keys of `keys` whose table in `t` is non-empty, in the order of `keys`. */
  function NonEmptyKeys(t: Table, keys: seq<string>): (r: seq<string>)
    decreases |keys|
  {
    if keys == [] then []
    else
      var last := keys[|keys| - 1];
      NonEmptyKeys(t, keys[..|keys| - 1]) + if last in t.items && t.items[last].keys != [] then [last] else []
  }

  /** One more namespace survives pruning exactly when its table is non-empty; it goes last. */
  lemma PrunePrefixKeysStep(t: Table, n: nat)
    requires TableValid(t) && 0 < n <= |t.keys|
    ensures t.keys[n - 1] in t.items
    ensures PrunePrefix(t, n).keys ==
            PrunePrefix(t, n - 1).keys + if t.items[t.keys[n - 1]].keys != [] then [t.keys[n - 1]] else []
  {
    ValidKeysPresent(t);
    var ns := t.keys[n - 1];
    if t.items[ns].keys != [] {
      PrunePrefixItems(t, n - 1);
      assert ns !in t.keys[..n - 1] by {
        assert forall i :: 0 <= i < n - 1 ==> t.keys[i] != ns;
      }
    }
  }

  /** The surviving namespaces are the non-empty ones among the first `n`, in their order in `t`. */
  lemma {:induction false} PrunePrefixKeys(t: Table, n: nat)
    requires TableValid(t) && n <= |t.keys|
    ensures PrunePrefix(t, n).keys == NonEmptyKeys(t, t.keys[..n])
    decreases n
  {
    if n > 0 {
      PrunePrefixKeys(t, n - 1);
      PrunePrefixKeysStep(t, n);
      assert t.keys[..n][..n - 1] == t.keys[..n - 1];
    }
  }

  /**
   * `{ns: vars for ns, vars in offsets.items() if vars}` (Main.py:53):
   * exactly the namespaces with a non-empty table remain, with their tables
   * and in their original relative order.
   */
  function Prune(t: Table): (r: Table)
    requires TableValid(t)
    ensures TableValid(r)
    ensures forall ns :: ns in r.items <==> ns in t.items && t.items[ns].keys != []
    ensures forall ns :: ns in r.items ==> r.items[ns] == t.items[ns]
    ensures r.keys == NonEmptyKeys(t, t.keys)
  {
    assert t.keys[..|t.keys|] == t.keys;
    PrunePrefixItems(t, |t.keys|);
    PrunePrefixKeys(t, |t.keys|);
    PrunePrefix(t, |t.keys|)
  }

  /** What `parse_cpp_offsets` returns for a file with these lines. */
  function Parse(lines: seq<string>): (t: Table)
    ensures TableValid(t)
  {
    Prune(Scan(lines).offsets)
  }

  /** The loop of Main.py:24-53, over the lines `readlines` would return. */
  method ParseCppOffsets(lines: seq<string>) returns (offsets: Table)
    ensures offsets == Parse(lines)
  {
    offsets := Empty();
    var current: Option<string> := None;
    var i := 0;
    while i < |lines|
      invariant 0 <= i <= |lines|
      invariant ScanState(current, offsets) == Scan(lines[..i])
    {
      var line := lines[i];
      assert lines[..i + 1][..i] == lines[..i];
      var nsMatch := SearchNamespace(line);
      if nsMatch.Some? {
        current := nsMatch;
        if nsMatch.value !in offsets.items {
          offsets := Put(offsets, nsMatch.value, Empty());
        }
      }
      var offsetMatch := SearchOffset(line);
      if offsetMatch.Some? && current.Some? {
        var inner := Put(offsets.items[current.value], offsetMatch.value.name, offsetMatch.value.value);
        offsets := Put(offsets, current.value, inner);
      }
      i := i + 1;
    }
    assert lines[..|lines|] == lines;
    offsets := Prune(offsets);
  }

  // ---- reference definitions, stated on the lines alone

  /** The namespace opened by the last line that opens one. */
  function LastNamespace(lines: seq<string>): Option<string>
    decreases |lines|
  {
    if lines == [] then None
    else
      var m := ClassifyLine(lines[|lines| - 1]);
      if m.ns.Some? then m.ns else LastNamespace(lines[..|lines| - 1])
  }

  /** The namespaces opened by the lines, each at its first opening. */
  function FirstAppearances(lines: seq<string>): seq<string>
    decreases |lines|
  {
    if lines == [] then []
    else
      var p := FirstAppearances(lines[..|lines| - 1]);
      var m := ClassifyLine(lines[|lines| - 1]);
      if m.ns.Some? && m.ns.value !in p then p + [m.ns.value] else p
  }

  /**
   * The value of the last line declaring `name` while the cursor stands on
   * `ns`; the cursor after a line is the last namespace up to and including it.
   */
  function LastWrite(lines: seq<string>, ns: string, name: string): Option<string>
    decreases |lines|
  {
    if lines == [] then None
    else
      var d := ClassifyLine(lines[|lines| - 1]).decl;
      if d.Some? && d.value.name == name && LastNamespace(lines) == Some(ns) then Some(d.value.value)
      else LastWrite(lines[..|lines| - 1], ns, name)
  }

  /**
   * The names declared while the cursor stands on `ns`, each at its first
   * such declaration: the order in which `offsets[ns]` receives its keys.
   */
  function FirstDeclarations(lines: seq<string>, ns: string): seq<string>
    decreases |lines|
  {
    if lines == [] then []
    else
      var p := FirstDeclarations(lines[..|lines| - 1], ns);
      var d := ClassifyLine(lines[|lines| - 1]).decl;
      if d.Some? && LastNamespace(lines) == Some(ns) && d.value.name !in p then p + [d.value.name] else p
  }

  /** The names of namespace `ns` in `t`, in order; none when `ns` is absent. */
  function NamesOf(t: Table, ns: string): seq<string>
  {
    if ns in t.items then t.items[ns].keys else []
  }

  // ---- the fold agrees with the reference definitions

  /** The cursor is only moved by namespace lines and never reset. */
  lemma {:induction false} CursorIsLastNamespace(lines: seq<string>)
    ensures Scan(lines).current == LastNamespace(lines)
    decreases |lines|
  {
    if lines != [] {
      CursorIsLastNamespace(lines[..|lines| - 1]);
    }
  }

  /** Before pruning, the table has one key per namespace line, in order of first appearance. */
  lemma {:induction false} ScanKeysAreFirstAppearances(lines: seq<string>)
    ensures Scan(lines).offsets.keys == FirstAppearances(lines)
    decreases |lines|
  {
    if lines != [] {
      ScanKeysAreFirstAppearances(lines[..|lines| - 1]);
    }
  }

  /** One line changes the cursor only if it opens a namespace, and at most one entry. */
  lemma StepEffect(st: ScanState, line: string, ns: string, name: string)
    requires StateValid(st)
    ensures Step(st, line).current == (if ClassifyLine(line).ns.Some? then ClassifyLine(line).ns else st.current)
    ensures
      var d := ClassifyLine(line).decl;
      Entry(Step(st, line).offsets, ns, name) ==
        if d.Some? && d.value.name == name && Step(st, line).current == Some(ns) then Some(d.value.value)
        else Entry(st.offsets, ns, name)
  {
  }

  /** The entry for (ns, name) is the last declaration of name made under ns. */
  lemma {:induction false} ScanEntryIsLastWrite(lines: seq<string>, ns: string, name: string)
    ensures Entry(Scan(lines).offsets, ns, name) == LastWrite(lines, ns, name)
    decreases |lines|
  {
    if lines != [] {
      var prefix := lines[..|lines| - 1];
      ScanEntryIsLastWrite(prefix, ns, name);
      CursorIsLastNamespace(lines);
      StepEffect(Scan(prefix), lines[|lines| - 1], ns, name);
    }
  }

  /** After pruning too, each entry is the last declaration of its name under its namespace. */
  lemma ParseEntryIsLastWrite(lines: seq<string>, ns: string, name: string)
    ensures Entry(Parse(lines), ns, name) == LastWrite(lines, ns, name)
  {
    ScanEntryIsLastWrite(lines, ns, name);
    var t := Scan(lines).offsets;
    if ns in t.items && t.items[ns].keys == [] {
      assert name !in t.items[ns].items;
    }
  }

  /** One line appends the name it declares to the cursor's namespace, unless already there. */
  lemma StepNames(st: ScanState, line: string, ns: string)
    requires StateValid(st)
    ensures
      var d := ClassifyLine(line).decl;
      var p := NamesOf(st.offsets, ns);
      NamesOf(Step(st, line).offsets, ns) ==
        if d.Some? && Step(st, line).current == Some(ns) && d.value.name !in p then p + [d.value.name] else p
  {
  }

  /** Before pruning, the names of each namespace are in order of first declaration under it. */
  lemma {:induction false} ScanNamesAreFirstDeclarations(lines: seq<string>, ns: string)
    ensures NamesOf(Scan(lines).offsets, ns) == FirstDeclarations(lines, ns)
    decreases |lines|
  {
    if lines != [] {
      var prefix := lines[..|lines| - 1];
      ScanNamesAreFirstDeclarations(prefix, ns);
      CursorIsLastNamespace(lines);
      StepNames(Scan(prefix), lines[|lines| - 1], ns);
    }
  }

  /**
   * A namespace survives pruning exactly when some name was declared under
   * it, and its names are in order of first declaration.
   */
  lemma ParseNamesAreFirstDeclarations(lines: seq<string>, ns: string)
    ensures ns in Parse(lines).items <==> FirstDeclarations(lines, ns) != []
    ensures ns in Parse(lines).items ==> Parse(lines).items[ns].keys == FirstDeclarations(lines, ns)
    ensures NamesOf(Parse(lines), ns) == FirstDeclarations(lines, ns)
  {
    ScanNamesAreFirstDeclarations(lines, ns);
  }

  lemma FirstAppearancesSnoc(lines: seq<string>, ns: string)
    requires lines != []
    ensures ns in FirstAppearances(lines) <==>
            ns in FirstAppearances(lines[..|lines| - 1]) || ClassifyLine(lines[|lines| - 1]).ns == Some(ns)
  {
  }

  /** A namespace among the first appearances was captured on some line `j`. */
  lemma {:induction false} FirstAppearanceOpenedAt(lines: seq<string>, ns: string) returns (j: nat)
    requires ns in FirstAppearances(lines)
    ensures j < |lines| && ClassifyLine(lines[j]).ns == Some(ns)
    decreases |lines|
  {
    var prefix := lines[..|lines| - 1];
    FirstAppearancesSnoc(lines, ns);
    if ClassifyLine(lines[|lines| - 1]).ns == Some(ns) {
      j := |lines| - 1;
    } else {
      j := FirstAppearanceOpenedAt(prefix, ns);
      assert prefix[j] == lines[j];
    }
  }

  /** A namespace captured on any line is among the first appearances. */
  lemma {:induction false} OpenedIsFirstAppearance(lines: seq<string>, j: nat, ns: string)
    requires j < |lines| && ClassifyLine(lines[j]).ns == Some(ns)
    ensures ns in FirstAppearances(lines)
    decreases |lines|
  {
    var prefix := lines[..|lines| - 1];
    FirstAppearancesSnoc(lines, ns);
    if j < |lines| - 1 {
      assert prefix[j] == lines[j];
      OpenedIsFirstAppearance(prefix, j, ns);
    }
  }

  /**
   * No namespace of the result is empty; every one was captured by the
   * namespace pattern on some line; they keep the order of first appearance.
   */
  lemma ParsedNamespaces(lines: seq<string>)
    ensures forall ns :: ns in Parse(lines).items ==>
              Parse(lines).items[ns].keys != [] &&
              exists j :: 0 <= j < |lines| && ClassifyLine(lines[j]).ns == Some(ns)
    ensures Parse(lines).keys == NonEmptyKeys(Scan(lines).offsets, FirstAppearances(lines))
  {
    ScanKeysAreFirstAppearances(lines);
    forall ns | ns in Parse(lines).items
      ensures exists j :: 0 <= j < |lines| && ClassifyLine(lines[j]).ns == Some(ns)
    {
      var j := FirstAppearanceOpenedAt(lines, ns);
    }
  }

  /** Every name is a `\w+` capture and every value a `0x` hexadecimal capture. */
  ghost predicate EntriesWellFormed(inner: Dict<string>)
  {
    forall name :: name in inner.items ==> IsIdentifier(name) && IsHexLiteral(inner.items[name])
  }

  /** Every namespace is a `\w+` capture and its entries are well formed. */
  ghost predicate WellFormed(t: Table)
  {
    forall ns :: ns in t.items ==> IsIdentifier(ns) && EntriesWellFormed(t.items[ns])
  }

  lemma PutKeepsWellFormed(t: Table, ns: string, inner: Dict<string>)
    requires Valid(t) && WellFormed(t) && IsIdentifier(ns) && EntriesWellFormed(inner)
    ensures WellFormed(Put(t, ns, inner))
  {
  }

  lemma PutKeepsEntriesWellFormed(inner: Dict<string>, name: string, value: string)
    requires Valid(inner) && EntriesWellFormed(inner) && IsIdentifier(name) && IsHexLiteral(value)
    ensures EntriesWellFormed(Put(inner, name, value))
  {
  }

  lemma StepKeepsWellFormed(st: ScanState, line: string)
    requires StateValid(st) && WellFormed(st.offsets)
    ensures WellFormed(Step(st, line).offsets)
  {
    var m := ClassifyLine(line);
    var afterNs := st;
    if m.ns.Some? && m.ns.value !in st.offsets.items {
      PutKeepsWellFormed(st.offsets, m.ns.value, Empty());
      afterNs := ScanState(m.ns, Put(st.offsets, m.ns.value, Empty()));
    } else if m.ns.Some? {
      afterNs := ScanState(m.ns, st.offsets);
    }
    if m.decl.Some? && afterNs.current.Some? {
      var ns := afterNs.current.value;
      PutKeepsEntriesWellFormed(afterNs.offsets.items[ns], m.decl.value.name, m.decl.value.value);
      var inner := Put(afterNs.offsets.items[ns], m.decl.value.name, m.decl.value.value);
      PutKeepsWellFormed(afterNs.offsets, ns, inner);
    }
  }

  lemma {:induction false} ScanIsWellFormed(lines: seq<string>)
    ensures WellFormed(Scan(lines).offsets)
    decreases |lines|
  {
    if lines != [] {
      ScanIsWellFormed(lines[..|lines| - 1]);
      StepKeepsWellFormed(Scan(lines[..|lines| - 1]), lines[|lines| - 1]);
    }
  }

  /** Values are the captured text, verbatim; names are never rewritten. */
  lemma ParseIsWellFormed(lines: seq<string>)
    ensures WellFormed(Parse(lines))
  {
    ScanIsWellFormed(lines);
  }

  lemma {:induction false} ScanFromAppend(st: ScanState, a: seq<string>, b: seq<string>)
    requires StateValid(st)
    ensures ScanFrom(st, a + b) == ScanFrom(ScanFrom(st, a), b)
    decreases |b|
  {
    if b == [] {
      assert a + b == a;
    } else {
      assert (a + b)[..|a + b| - 1] == a + b[..|b| - 1];
      ScanFromAppend(st, a, b[..|b| - 1]);
    }
  }

  lemma {:induction false} ScanWithoutNamespaceIsIdle(lines: seq<string>)
    requires forall j :: 0 <= j < |lines| ==> ClassifyLine(lines[j]).ns.None?
    ensures Scan(lines) == Init()
    decreases |lines|
  {
    if lines != [] {
      ScanWithoutNamespaceIsIdle(lines[..|lines| - 1]);
    }
  }

  /** Declarations before the first namespace line are dropped. */
  lemma OrphanDeclarationsDropped(pre: seq<string>, post: seq<string>)
    requires forall j :: 0 <= j < |pre| ==> ClassifyLine(pre[j]).ns.None?
    ensures Parse(pre + post) == Parse(post)
  {
    ScanWithoutNamespaceIsIdle(pre);
    ScanFromAppend(Init(), pre, post);
  }

  /** A file that never opens a namespace yields an empty table. */
  lemma NoNamespaceNoOffsets(lines: seq<string>)
    requires forall j :: 0 <= j < |lines| ==> ClassifyLine(lines[j]).ns.None?
    ensures Parse(lines) == Empty()
  {
    ScanWithoutNamespaceIsIdle(lines);
  }

  /** The latest declaration of a name under the cursor's namespace overwrites earlier ones. */
  lemma LastDeclarationWins(lines: seq<string>, line: string, ns: string, name: string, value: string)
    requires ClassifyLine(line).decl == Some(Decl(name, value))
    requires LastNamespace(lines + [line]) == Some(ns)
    ensures Entry(Parse(lines + [line]), ns, name) == Some(value)
  {
    ParseEntryIsLastWrite(lines + [line], ns, name);
  }

  /** On a line matching both patterns, the namespace is opened first and receives the entry. */
  lemma SameLineDeclarationGoesToNewNamespace(lines: seq<string>, line: string, ns: string, name: string, value: string)
    requires ClassifyLine(line) == LineMatch(Some(ns), Some(Decl(name, value)))
    ensures Entry(Parse(lines + [line]), ns, name) == Some(value)
  {
    LastDeclarationWins(lines, line, ns, name, value);
  }
}
