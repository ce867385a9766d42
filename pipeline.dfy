/**
 * `generate_files` (Main.py:105-120) without its file writes: the merged
 * table, the stub header and the assignment code, computed from the lines
 * of the input files. The JSON file written at Main.py:111 and read back at
 * Main.py:66 is taken to hold the merged table unchanged.
 */
module Pipeline {
  import opened Wrappers
  import opened Dicts
  import opened Patterns
  import opened Parser
  import opened Aggregator
  import opened Emitters

  /** The three outputs of Main.py:107-120, in the order they are produced. */
  method GenerateFiles(files: seq<seq<string>>) returns (allOffsets: Table, hpp: string, cpp: string)
    ensures allOffsets == Aggregate(files) && KeysPresent(allOffsets)
    ensures hpp == Hpp(allOffsets)
    ensures cpp == CppCode(allOffsets)
  {
    allOffsets := ProcessAllCppFiles(files);
    ValidKeysPresent(allOffsets);
    hpp := GenerateHpp(allOffsets);
    cpp := GenerateCppOffsetCode(allOffsets);
  }

  /** A `\w+` capture never spans a line break. */
  lemma IdentifierIsSingleLine(s: string)
    requires IsIdentifier(s)
    ensures '\n' !in s
  {
  }

  /** Names that are `\w+` captures give one-line stubs and assignments. */
  lemma WellFormedIsSingleLine(t: Table)
    requires TableValid(t) && WellFormed(t)
    ensures KeysPresent(t) && SingleLineNames(t)
  {
    ValidKeysPresent(t);
    forall i | 0 <= i < |t.keys|
      ensures '\n' !in t.keys[i] && forall name :: name in t.items[t.keys[i]].keys ==> '\n' !in name
    {
      var ns := t.keys[i];
      IdentifierIsSingleLine(ns);
      forall name | name in t.items[ns].keys ensures '\n' !in name {
        IdentifierIsSingleLine(name);
      }
    }
  }

  /**
   * The shape of the generated files: no namespace without entries, one
   * line per stub header, field and closer plus a blank line per struct in
   * the header, and the assignment code splitting back into its lines.
   */
  lemma GeneratedFilesShape(files: seq<seq<string>>)
    ensures NoEmptyNamespace(Aggregate(files)) && KeysPresent(Aggregate(files))
    ensures Count(Hpp(Aggregate(files)), '\n') == StubLines(Aggregate(files), |Aggregate(files).keys|)
    ensures |CppLines(Aggregate(files))| == BlockLines(Aggregate(files), |Aggregate(files).keys|)
    ensures Aggregate(files).keys != [] ==> Split(CppCode(Aggregate(files))) == CppLines(Aggregate(files))
  {
    var t := Aggregate(files);
    AggregateHasNoEmptyNamespace(files);
    AggregateIsWellFormed(files);
    WellFormedIsSingleLine(t);
    HppShape(t);
    CppLineCount(t);
    if t.keys != [] {
      CppCodeSplitsIntoLines(t);
    }
  }

  /** No input files: an empty table, an empty header and empty assignment code. */
  lemma NoFilesNoOutput(files: seq<seq<string>>)
    requires files == []
    ensures Aggregate(files) == Empty()
    ensures Hpp(Aggregate(files)) == "" && CppCode(Aggregate(files)) == ""
  {
    assert ParseEach(files) == [];
    HppShape(Empty());
    CppLineCount(Empty());
  }

  /** Of two files, the later one's value wins; names only in the earlier one survive. */
  lemma LaterFileWins(f1: seq<string>, f2: seq<string>, ns: string, name: string)
    ensures Entry(Aggregate([f1, f2]), ns, name) ==
            if Entry(Parse(f2), ns, name).Some? then Entry(Parse(f2), ns, name) else Entry(Parse(f1), ns, name)
  {
    assert ParseEach([f1, f2]) == [Parse(f1), Parse(f2)];
    TwoFilesRightBiased(Parse(f1), Parse(f2), ns, name);
  }

  /** `namespace <ns> {` followed by a line break. */
  function OpenLine(ns: string): string
  {
    "namespace " + ns + " {" + "\n"
  }

  /** An indented `constexpr std::ptrdiff_t <name> = <value>;` followed by a line break. */
  function DeclLine(name: string, value: string): string
  {
    "    " + "constexpr std::ptrdiff_t " + name + " = " + value + ";" + "\n"
  }

  lemma OpenLineMatches(ns: string)
    requires IsIdentifier(ns)
    ensures ClassifyLine(OpenLine(ns)) == LineMatch(Some(ns), None)
  {
    assert ';' !in "\n";
    ClassifyNamespaceLine(ns, "\n");
  }

  lemma DeclLineMatches(name: string, value: string)
    requires IsIdentifier(name) && IsHexLiteral(value)
    ensures ClassifyLine(DeclLine(name, value)) == LineMatch(None, Some(Decl(name, value)))
  {
    assert AllIn("    ", Space);
    assert '{' !in "\n";
    ClassifyOffsetLine("    ", name, value, "\n");
  }

  /** A declaration right after a namespace opening is stored under that namespace, verbatim. */
  lemma DeclarationAfterOpening(ns: string, name: string, value: string)
    requires IsIdentifier(ns) && IsIdentifier(name) && IsHexLiteral(value)
    ensures Entry(Parse([OpenLine(ns), DeclLine(name, value)]), ns, name) == Some(value)
  {
    OpenLineMatches(ns);
    DeclLineMatches(name, value);
    assert LastNamespace([OpenLine(ns)]) == Some(ns);
    assert [OpenLine(ns)] + [DeclLine(name, value)] == [OpenLine(ns), DeclLine(name, value)];
    LastDeclarationWins([OpenLine(ns)], DeclLine(name, value), ns, name, value);
  }

  /** A closing `}` line neither opens a namespace nor declares anything, so the table is unchanged. */
  lemma ClosingLineIsIgnored(lines: seq<string>, close: string)
    requires close == "}\n"
    ensures Parse(lines + [close]) == Parse(lines)
  {
    assert '{' !in close && ';' !in close;
    NoBraceNoNamespace(close);
    NoSemicolonNoOffset(close);
    assert (lines + [close])[..|lines|] == lines;
  }

  /** The namespaces of a one-declaration file: only the one it opens. */
  lemma SingleDeclarationFileKeys(ns: string, name: string, value: string)
    requires IsIdentifier(ns) && IsIdentifier(name) && IsHexLiteral(value)
    ensures Parse([OpenLine(ns), DeclLine(name, value)]).keys == [ns]
  {
    var lines := [OpenLine(ns), DeclLine(name, value)];
    OpenLineMatches(ns);
    DeclLineMatches(name, value);
    DeclarationAfterOpening(ns, name, value);
    ParsedNamespaces(lines);
    assert lines[..1] == [OpenLine(ns)];
    assert FirstAppearances(lines[..1]) == [ns];
    assert FirstAppearances(lines) == [ns];
  }

  /**
   * One file holding one namespace with one declaration, closed by `}`:
   * the table has that namespace only, holding that value verbatim.
   */
  lemma SingleDeclarationFile(ns: string, name: string, value: string, close: string)
    requires IsIdentifier(ns) && IsIdentifier(name) && IsHexLiteral(value)
    requires close == "}\n"
    ensures Entry(Parse([OpenLine(ns), DeclLine(name, value), close]), ns, name) == Some(value)
    ensures Parse([OpenLine(ns), DeclLine(name, value), close]).keys == [ns]
  {
    ClosingLineIsIgnored([OpenLine(ns), DeclLine(name, value)], close);
    assert [OpenLine(ns), DeclLine(name, value)] + [close] == [OpenLine(ns), DeclLine(name, value), close];
    DeclarationAfterOpening(ns, name, value);
    SingleDeclarationFileKeys(ns, name, value);
  }

  /** Two files declaring the same name under the same namespace: the second value wins. */
  lemma SecondFileOverrides(ns: string, name: string, v1: string, v2: string)
    requires IsIdentifier(ns) && IsIdentifier(name) && IsHexLiteral(v1) && IsHexLiteral(v2)
    ensures Entry(Aggregate([[OpenLine(ns), DeclLine(name, v1)], [OpenLine(ns), DeclLine(name, v2)]]), ns, name)
            == Some(v2)
  {
    DeclarationAfterOpening(ns, name, v2);
    LaterFileWins([OpenLine(ns), DeclLine(name, v1)], [OpenLine(ns), DeclLine(name, v2)], ns, name);
  }
}
