/**
 * The two text emitters of Main.py:
 *
 *  - `generate_hpp` (Main.py:11-20): one struct stub per namespace, one
 *    `DWORD` field per offset name, built from the keys alone;
 *  - the line-building loop of `generate_cpp_offset_code` (Main.py:68-79)
 *    and its `"\n".join` (Main.py:84): per namespace two comment lines, one
 *    `findOffsetByName` assignment per name and an empty separator line.
 *
 * Each is specified by a function over the key prefixes of the table, the
 * methods with the source's loops are proved to compute those functions, and
 * the lemmas state what the text contains: its line structure, which parts
 * of the table it depends on, and where each assignment line sits.
 */
module Emitters {
  import opened Dicts
  import opened Names

  // ---- generate_hpp

  /** `inline struct <ns>Offsets {` (Main.py:15). */
  function StructHead(ns: string): string
  {
    "inline struct " + ConvertName(ns) + "Offsets {\n"
  }

  /** `\tDWORD <name>;` (Main.py:17). */
  function FieldLine(name: string): string
  {
    "\tDWORD " + ConvertName(name) + ";\n"
  }

  /** `} <ns>;` and a blank line (Main.py:18). */
  function StructTail(ns: string): string
  {
    "} " + ConvertName(ns) + ";\n\n"
  }

  /** One field line per name, in order (Main.py:16-17). */
  function FieldLines(names: seq<string>): string
    decreases |names|
  {
    if names == [] then ""
    else FieldLines(names[..|names| - 1]) + FieldLine(names[|names| - 1])
  }

  /** The struct stub of one namespace (Main.py:15-18). */
  function StructBlock(ns: string, inner: Dict<string>): string
  {
    StructHead(ns) + FieldLines(inner.keys) + StructTail(ns)
  }

  /** The stubs of the first `n` namespaces, in table order. */
  function HppPrefix(t: Table, n: nat): string
    requires KeysPresent(t) && n <= |t.keys|
    decreases n
  {
    if n == 0 then ""
    else HppPrefix(t, n - 1) + StructBlock(t.keys[n - 1], t.items[t.keys[n - 1]])
  }

  /** What `generate_hpp` returns. */
  function Hpp(t: Table): string
    requires KeysPresent(t)
  {
    HppPrefix(t, |t.keys|)
  }

  /** The nested loops of Main.py:12-20, accumulating `hpp_content`. */
  method GenerateHpp(structs: Table) returns (hppContent: string)
    requires KeysPresent(structs)
    ensures hppContent == Hpp(structs)
  {
    hppContent := "";
    var i := 0;
    while i < |structs.keys|
      invariant 0 <= i <= |structs.keys|
      invariant hppContent == HppPrefix(structs, i)
    {
      var structName := structs.keys[i];
      var variables := structs.items[structName];
      hppContent := hppContent + StructHead(structName);
      ghost var head := hppContent;
      var j := 0;
      while j < |variables.keys|
        invariant 0 <= j <= |variables.keys|
        invariant hppContent == head + FieldLines(variables.keys[..j])
      {
        var varName := variables.keys[j];
        FieldLinesStep(head, variables.keys, j);
        hppContent := hppContent + FieldLine(varName);
        j := j + 1;
      }
      HppPrefixStep(structs, i);
      hppContent := hppContent + StructTail(structName);
      i := i + 1;
    }
  }

  /** One more name adds its field line after those of the names before it. */
  lemma FieldLinesStep(head: string, names: seq<string>, j: nat)
    requires j < |names|
    ensures head + FieldLines(names[..j + 1]) == head + FieldLines(names[..j]) + FieldLine(names[j])
  {
    assert names[..j + 1][..j] == names[..j];
    SeqAssociative(head, FieldLines(names[..j]), FieldLine(names[j]));
  }

  /** One more namespace adds its head, its field lines and its tail after the stubs before it. */
  lemma HppPrefixStep(t: Table, i: nat)
    requires KeysPresent(t) && i < |t.keys|
    ensures HppPrefix(t, i + 1) ==
            HppPrefix(t, i) + StructHead(t.keys[i]) + FieldLines(t.items[t.keys[i]].keys[..|t.items[t.keys[i]].keys|])
            + StructTail(t.keys[i])
  {
    var ns := t.keys[i];
    var names := t.items[ns].keys;
    assert names[..|names|] == names;
    SeqAssociative(HppPrefix(t, i), StructHead(ns), FieldLines(names));
    SeqAssociative(HppPrefix(t, i), StructHead(ns) + FieldLines(names), StructTail(ns));
  }

  /** The two tables have the same namespaces and names in the same order; values may differ. */
  ghost predicate SameKeys(t1: Table, t2: Table)
  {
    && t1.keys == t2.keys
    && (forall ns :: ns in t1.items <==> ns in t2.items)
    && (forall ns :: ns in t1.items && ns in t2.items ==> t1.items[ns].keys == t2.items[ns].keys)
  }

  lemma {:induction false} HppPrefixIgnoresValues(t1: Table, t2: Table, n: nat)
    requires KeysPresent(t1) && KeysPresent(t2) && SameKeys(t1, t2) && n <= |t1.keys|
    ensures HppPrefix(t1, n) == HppPrefix(t2, n)
    decreases n
  {
    if n > 0 {
      HppPrefixIgnoresValues(t1, t2, n - 1);
      var ns := t1.keys[n - 1];
      assert t1.items[ns].keys == t2.items[ns].keys;
    }
  }

  /** Offset values never reach the stub header: it is a function of the keys alone. */
  lemma HppIgnoresValues(t1: Table, t2: Table)
    requires KeysPresent(t1) && KeysPresent(t2) && SameKeys(t1, t2)
    ensures Hpp(t1) == Hpp(t2)
  {
    HppPrefixIgnoresValues(t1, t2, |t1.keys|);
  }

  /** The number of occurrences of `c` in `s`. */
  function Count(s: string, c: char): nat
    decreases |s|
  {
    if s == [] then 0 else (if s[0] == c then 1 else 0) + Count(s[1..], c)
  }

  lemma {:induction false} CountConcat(a: string, b: string, c: char)
    ensures Count(a + b, c) == Count(a, c) + Count(b, c)
    decreases |a|
  {
    if a == [] {
      assert a + b == b;
    } else {
      assert (a + b)[0] == a[0];
      assert (a + b)[1..] == a[1..] + b;
      CountConcat(a[1..], b, c);
    }
  }

  lemma {:induction false} CountAbsent(s: string, c: char)
    requires c !in s
    ensures Count(s, c) == 0
    decreases |s|
  {
    if s != [] {
      assert forall x :: x in s[1..] ==> x in s;
      CountAbsent(s[1..], c);
    }
  }

  /** `convert_name` never introduces a newline. */
  lemma ConvertNameKeepsNewlines(s: string)
    requires '\n' !in s
    ensures '\n' !in ConvertName(s)
  {
    ConvertNameIsNormalize(s);
    NormalizeAddsOnlyUnderscores(s, '\n');
  }

  /** Every namespace and every name of the table is a single line of text. */
  ghost predicate SingleLineNames(t: Table)
    requires KeysPresent(t)
  {
    forall i :: 0 <= i < |t.keys| ==>
      '\n' !in t.keys[i] && forall name :: name in t.items[t.keys[i]].keys ==> '\n' !in name
  }

  /** The number of lines of the first `n` namespaces' stubs: a header, one per field, a closer, a blank. */
  function StubLines(t: Table, n: nat): nat
    requires KeysPresent(t) && n <= |t.keys|
    decreases n
  {
    if n == 0 then 0 else StubLines(t, n - 1) + |t.items[t.keys[n - 1]].keys| + 3
  }

  /** A text holding no newline, then one newline. */
  lemma CountLine(text: string)
    requires '\n' !in text
    ensures Count(text + "\n", '\n') == 1
  {
    CountConcat(text, "\n", '\n');
    CountAbsent(text, '\n');
    assert "\n"[1..] == [];
  }

  /** Around a name without newlines, the literal pieces of a stub hold one newline each, the closer two. */
  lemma StubPiecesNewlines(c: string)
    requires '\n' !in c
    ensures Count("inline struct " + c + "Offsets {\n", '\n') == 1
    ensures Count("\tDWORD " + c + ";\n", '\n') == 1
    ensures Count("} " + c + ";\n\n", '\n') == 2
  {
    assert "inline struct " + c + "Offsets {\n" == "inline struct " + c + "Offsets {" + "\n";
    CountLine("inline struct " + c + "Offsets {");
    assert "\tDWORD " + c + ";\n" == "\tDWORD " + c + ";" + "\n";
    CountLine("\tDWORD " + c + ";");
    assert "} " + c + ";\n\n" == ("} " + c + ";" + "\n") + "\n";
    CountLine("} " + c + ";");
    CountLine("");
    assert "" + "\n" == "\n";
    CountConcat("} " + c + ";" + "\n", "\n", '\n');
  }

  lemma {:induction false} FieldLinesNewlines(names: seq<string>)
    requires forall k :: k in names ==> '\n' !in k
    ensures Count(FieldLines(names), '\n') == |names|
    decreases |names|
  {
    if names != [] {
      var init := names[..|names| - 1];
      var last := names[|names| - 1];
      assert forall k :: k in init ==> k in names;
      FieldLinesNewlines(init);
      ConvertNameKeepsNewlines(last);
      StubPiecesNewlines(ConvertName(last));
      CountConcat(FieldLines(init), FieldLine(last), '\n');
    }
  }

  lemma StructBlockNewlines(ns: string, inner: Dict<string>)
    requires '\n' !in ns && forall k :: k in inner.keys ==> '\n' !in k
    ensures Count(StructBlock(ns, inner), '\n') == |inner.keys| + 3
  {
    ConvertNameKeepsNewlines(ns);
    StubPiecesNewlines(ConvertName(ns));
    FieldLinesNewlines(inner.keys);
    CountConcat(StructHead(ns), FieldLines(inner.keys), '\n');
    CountConcat(StructHead(ns) + FieldLines(inner.keys), StructTail(ns), '\n');
  }

  lemma {:induction false} HppPrefixNewlines(t: Table, n: nat)
    requires KeysPresent(t) && SingleLineNames(t) && n <= |t.keys|
    ensures Count(HppPrefix(t, n), '\n') == StubLines(t, n)
    decreases n
  {
    if n > 0 {
      HppPrefixNewlines(t, n - 1);
      var ns := t.keys[n - 1];
      StructBlockNewlines(ns, t.items[ns]);
      CountConcat(HppPrefix(t, n - 1), StructBlock(ns, t.items[ns]), '\n');
    }
  }

  /**
   * The stub header has exactly one line per namespace header, per field,
   * per closing `} <ns>;` and per blank separator; an empty table gives "".
   */
  lemma HppShape(t: Table)
    requires KeysPresent(t) && SingleLineNames(t)
    ensures Count(Hpp(t), '\n') == StubLines(t, |t.keys|)
    ensures t.keys == [] ==> Hpp(t) == ""
  {
    HppPrefixNewlines(t, |t.keys|);
  }

  // ---- generate_cpp_offset_code

  /** The statement generated for one name (Main.py:77); the namespace is used as written. */
  function AssignmentLine(ns: string, name: string): string
  {
    ns + "." + ConvertName(name) + " = findOffsetByName(j, \"" + ns + "\", \"" + name + "\");"
  }

  function AssignmentLines(ns: string, names: seq<string>): (r: seq<string>)
    decreases |names|
  {
    if names == [] then []
    else AssignmentLines(ns, names[..|names| - 1]) + [AssignmentLine(ns, names[|names| - 1])]
  }

  /** The two comment lines that open the block of a namespace (Main.py:72-73). */
  function CommentLines(ns: string): seq<string>
  {
    ["// Assignments for " + ns, "// " + ns + " Offsets"]
  }

  /** The lines generated for the first `n` namespaces. */
  function CppLinesPrefix(t: Table, n: nat): seq<string>
    requires KeysPresent(t) && n <= |t.keys|
    decreases n
  {
    if n == 0 then []
    else
      var ns := t.keys[n - 1];
      CppLinesPrefix(t, n - 1) + CommentLines(ns) + AssignmentLines(ns, t.items[ns].keys) + [""]
  }

  /** The `cpp_code` list once the loop of Main.py:71-79 is done. */
  function CppLines(t: Table): seq<string>
    requires KeysPresent(t)
  {
    CppLinesPrefix(t, |t.keys|)
  }

  /** `"\n".join(lines)` */
  function Join(lines: seq<string>): string
    decreases |lines|
  {
    if lines == [] then ""
    else if |lines| == 1 then lines[0]
    else Join(lines[..|lines| - 1]) + "\n" + lines[|lines| - 1]
  }

  /** The text written to the generated C++ file (Main.py:84). */
  function CppCode(t: Table): string
    requires KeysPresent(t)
  {
    Join(CppLines(t))
  }

  /** Main.py:68-79 and 84, fed with the table the JSON file holds. */
  method GenerateCppOffsetCode(jsonData: Table) returns (code: string)
    requires KeysPresent(jsonData)
    ensures code == CppCode(jsonData)
  {
    var cppCode: seq<string> := [];
    var i := 0;
    while i < |jsonData.keys|
      invariant 0 <= i <= |jsonData.keys|
      invariant cppCode == CppLinesPrefix(jsonData, i)
    {
      var namespace := jsonData.keys[i];
      var offsets := jsonData.items[namespace];
      cppCode := cppCode + ["// Assignments for " + namespace];
      cppCode := cppCode + ["// " + namespace + " Offsets"];
      var j := 0;
      while j < |offsets.keys|
        invariant 0 <= j <= |offsets.keys|
        invariant cppCode == CppLinesPrefix(jsonData, i) + CommentLines(namespace)
                             + AssignmentLines(namespace, offsets.keys[..j])
      {
        assert offsets.keys[..j + 1][..j] == offsets.keys[..j];
        var varName := offsets.keys[j];
        cppCode := cppCode + [namespace + "." + ConvertName(varName) + " = findOffsetByName(j, \""
                              + namespace + "\", \"" + varName + "\");"];
        j := j + 1;
      }
      assert offsets.keys[..j] == offsets.keys;
      cppCode := cppCode + [""];
      i := i + 1;
    }
    code := Join(cppCode);
  }

  /** The number of lines of the first `n` namespaces' blocks: two comments, the names, a blank. */
  function BlockLines(t: Table, n: nat): nat
    requires KeysPresent(t) && n <= |t.keys|
    decreases n
  {
    if n == 0 then 0 else BlockLines(t, n - 1) + 3 + |t.items[t.keys[n - 1]].keys|
  }

  lemma {:induction false} AssignmentLinesAt(ns: string, names: seq<string>, j: nat)
    requires j < |names|
    ensures |AssignmentLines(ns, names)| == |names|
    ensures AssignmentLines(ns, names)[j] == AssignmentLine(ns, names[j])
    decreases |names|
  {
    if j < |names| - 1 {
      AssignmentLinesAt(ns, names[..|names| - 1], j);
    } else if |names| > 1 {
      AssignmentLinesAt(ns, names[..|names| - 1], 0);
    }
  }

  lemma {:induction false} CppLinesPrefixLength(t: Table, n: nat)
    requires KeysPresent(t) && n <= |t.keys|
    ensures |CppLinesPrefix(t, n)| == BlockLines(t, n)
    decreases n
  {
    if n > 0 {
      CppLinesPrefixLength(t, n - 1);
      var ns := t.keys[n - 1];
      if t.items[ns].keys != [] {
        AssignmentLinesAt(ns, t.items[ns].keys, 0);
      }
    }
  }

  /** Later namespaces only append lines: a line once written keeps its position. */
  lemma {:induction false} CppLinesPrefixStable(t: Table, n: nat, m: nat, idx: nat)
    requires KeysPresent(t) && n <= m <= |t.keys| && idx < |CppLinesPrefix(t, n)|
    ensures idx < |CppLinesPrefix(t, m)| && CppLinesPrefix(t, m)[idx] == CppLinesPrefix(t, n)[idx]
    decreases m
  {
    if n < m {
      CppLinesPrefixStable(t, n, m - 1, idx);
    }
  }

  /** The lines the block of the namespace at position `i` adds. */
  lemma BlockAt(t: Table, i: nat)
    requires KeysPresent(t) && i < |t.keys|
    ensures |CppLinesPrefix(t, i + 1)| == BlockLines(t, i + 1)
    ensures CppLinesPrefix(t, i + 1)[BlockLines(t, i)] == "// Assignments for " + t.keys[i]
    ensures CppLinesPrefix(t, i + 1)[BlockLines(t, i) + 1] == "// " + t.keys[i] + " Offsets"
    ensures CppLinesPrefix(t, i + 1)[BlockLines(t, i + 1) - 1] == ""
  {
    CppLinesPrefixLength(t, i);
    var ns := t.keys[i];
    var names := t.items[ns].keys;
    if names != [] {
      AssignmentLinesAt(ns, names, 0);
    }
  }

  lemma BlockAssignmentAt(t: Table, i: nat, k: nat)
    requires KeysPresent(t) && i < |t.keys| && k < |t.items[t.keys[i]].keys|
    ensures BlockLines(t, i) + 2 + k < |CppLinesPrefix(t, i + 1)|
    ensures CppLinesPrefix(t, i + 1)[BlockLines(t, i) + 2 + k] == AssignmentLine(t.keys[i], t.items[t.keys[i]].keys[k])
  {
    CppLinesPrefixLength(t, i);
    AssignmentLinesAt(t.keys[i], t.items[t.keys[i]].keys, k);
  }

  /**
   * The block of the namespace at position `i` starts at line
   * `BlockLines(t, i)` with its two comment lines and ends with a blank
   * line, `BlockLines(t, i + 1)` being where the next block starts.
   */
  lemma CppBlockAt(t: Table, i: nat)
    requires KeysPresent(t) && i < |t.keys|
    ensures BlockLines(t, i + 1) <= |CppLines(t)|
    ensures CppLines(t)[BlockLines(t, i)] == "// Assignments for " + t.keys[i]
    ensures CppLines(t)[BlockLines(t, i) + 1] == "// " + t.keys[i] + " Offsets"
    ensures CppLines(t)[BlockLines(t, i + 1) - 1] == ""
  {
    var start := BlockLines(t, i);
    BlockAt(t, i);
    CppLinesPrefixStable(t, i + 1, |t.keys|, start);
    CppLinesPrefixStable(t, i + 1, |t.keys|, start + 1);
    CppLinesPrefixStable(t, i + 1, |t.keys|, BlockLines(t, i + 1) - 1);
  }

  /**
   * The `k`-th name of the namespace at position `i` gives the assignment
   * line two lines below the start of that namespace's block.
   */
  lemma CppAssignmentAt(t: Table, i: nat, k: nat)
    requires KeysPresent(t) && i < |t.keys| && k < |t.items[t.keys[i]].keys|
    ensures BlockLines(t, i) + 2 + k < |CppLines(t)|
    ensures CppLines(t)[BlockLines(t, i) + 2 + k] == AssignmentLine(t.keys[i], t.items[t.keys[i]].keys[k])
  {
    PrefixAssignmentAt(t, i, k, |t.keys|);
  }

  /** The assignment line of a name stays in place in the lines of every longer prefix. */
  lemma {:induction false} PrefixAssignmentAt(t: Table, i: nat, k: nat, m: nat)
    requires KeysPresent(t) && i < m <= |t.keys| && k < |t.items[t.keys[i]].keys|
    ensures BlockLines(t, i) + 2 + k < |CppLinesPrefix(t, m)|
    ensures CppLinesPrefix(t, m)[BlockLines(t, i) + 2 + k] == AssignmentLine(t.keys[i], t.items[t.keys[i]].keys[k])
    decreases m
  {
    if m == i + 1 {
      BlockAssignmentAt(t, i, k);
    } else {
      PrefixAssignmentAt(t, i, k, m - 1);
    }
  }

  /** The lines written: the sum over namespaces of three plus the number of names. */
  lemma CppLineCount(t: Table)
    requires KeysPresent(t)
    ensures |CppLines(t)| == BlockLines(t, |t.keys|)
    ensures t.keys == [] <==> CppCode(t) == ""
  {
    CppLinesPrefixLength(t, |t.keys|);
    if t.keys != [] {
      CppBlockAt(t, |t.keys| - 1);
      assert |CppLines(t)| > 1;
    }
  }

  // ---- reading the text back: `str.split("\n")` undoes the join

  /** Python's `s.split("\n")`. */
  function Split(s: string): (r: seq<string>)
    ensures |r| > 0
    decreases |s|
  {
    if s == [] then [""]
    else if s[0] == '\n' then [""] + Split(s[1..])
    else
      var rest := Split(s[1..]);
      [[s[0]] + rest[0]] + rest[1..]
  }

  lemma {:induction false} SplitSingleLine(a: string, s: string)
    requires '\n' !in a
    ensures Split(a + "\n" + s) == [a] + Split(s)
    ensures Split(a) == [a]
    decreases |a|
  {
    if a == [] {
      assert a + "\n" + s == "\n" + s;
      assert ("\n" + s)[1..] == s;
    } else {
      assert (a + "\n" + s)[0] == a[0];
      assert (a + "\n" + s)[1..] == a[1..] + "\n" + s;
      assert forall x :: x in a[1..] ==> x in a;
      SplitSingleLine(a[1..], s);
      assert [a[0]] + a[1..] == a;
    }
  }

  /** `"\n".join(lines)` as a right fold, the shape `Split` reads it in. */
  lemma {:induction false} JoinCons(lines: seq<string>)
    requires |lines| > 1
    ensures Join(lines) == lines[0] + "\n" + Join(lines[1..])
    decreases |lines|
  {
    if |lines| > 2 {
      JoinCons(lines[..|lines| - 1]);
      assert lines[..|lines| - 1][1..] == lines[1..][..|lines[1..]| - 1];
    }
  }

  /** Splitting at newlines gives back the joined lines, provided none holds a newline. */
  lemma {:induction false} SplitJoin(lines: seq<string>)
    requires |lines| > 0
    requires forall k :: 0 <= k < |lines| ==> '\n' !in lines[k]
    ensures Split(Join(lines)) == lines
    decreases |lines|
  {
    if |lines| == 1 {
      SplitSingleLine(lines[0], "");
    } else {
      JoinCons(lines);
      SplitJoin(lines[1..]);
      SplitSingleLine(lines[0], Join(lines[1..]));
    }
  }

  lemma {:induction false} AssignmentLinesSingleLine(ns: string, names: seq<string>)
    requires '\n' !in ns && forall k :: k in names ==> '\n' !in k
    ensures forall k :: 0 <= k < |AssignmentLines(ns, names)| ==> '\n' !in AssignmentLines(ns, names)[k]
    decreases |names|
  {
    if names != [] {
      var init := names[..|names| - 1];
      var last := names[|names| - 1];
      assert forall k :: k in init ==> k in names;
      AssignmentLinesSingleLine(ns, init);
      ConvertNameKeepsNewlines(last);
    }
  }

  lemma {:induction false} CppLinesPrefixSingleLine(t: Table, n: nat)
    requires KeysPresent(t) && SingleLineNames(t) && n <= |t.keys|
    ensures forall k :: 0 <= k < |CppLinesPrefix(t, n)| ==> '\n' !in CppLinesPrefix(t, n)[k]
    decreases n
  {
    if n > 0 {
      CppLinesPrefixSingleLine(t, n - 1);
      var ns := t.keys[n - 1];
      AssignmentLinesSingleLine(ns, t.items[ns].keys);
    }
  }

  /**
   * The generated C++ text, split at its newlines, gives back exactly the
   * `cpp_code` lines: for a non-empty table the join loses nothing.
   */
  lemma CppCodeSplitsIntoLines(t: Table)
    requires KeysPresent(t) && SingleLineNames(t) && t.keys != []
    ensures Split(CppCode(t)) == CppLines(t)
  {
    CppLinesPrefixSingleLine(t, |t.keys|);
    CppBlockAt(t, 0);
    SplitJoin(CppLines(t));
  }
}
