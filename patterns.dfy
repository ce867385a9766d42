/**
 * The two line patterns of `parse_cpp_offsets` (Main.py:28 and Main.py:30)
 * and Python's `re.search` over them.
 *
 *   namespace\s+(\w+)\s*\{
 *   constexpr\s+std::ptrdiff_t\s+(\w+)\s*=\s*(0x[0-9a-fA-F]+);
 *
 * Every repetition in both patterns is followed by a character outside
 * the repeated class, so at a given start position the backtracking matcher
 * has exactly one way to succeed: each run is taken in full. The anchored
 * matchers below take each run in full and then test what must follow.
 */
module Patterns {
  import opened Wrappers
  import Names

  datatype CharClass = Space | Word | Hex

  /** `\s` (the characters for which Python's `str.isspace` holds), `\w` and `[0-9a-fA-F]`. */
  predicate InClass(c: char, k: CharClass)
  {
    match k
    case Space =>
      || c == ' ' || ('\t' <= c <= '\r') || ('\U{1c}' <= c <= '\U{1f}')
      || c == '\U{85}' || c == '\U{a0}' || c == '\U{1680}'
      || ('\U{2000}' <= c <= '\U{200a}') || c == '\U{2028}' || c == '\U{2029}'
      || c == '\U{202f}' || c == '\U{205f}' || c == '\U{3000}'
    case Word => ('a' <= c <= 'z') || ('A' <= c <= 'Z') || ('0' <= c <= '9') || c == '_'
    case Hex => ('0' <= c <= '9') || ('a' <= c <= 'f') || ('A' <= c <= 'F')
  }

  predicate AllIn(s: string, k: CharClass)
  {
    forall i :: 0 <= i < |s| ==> InClass(s[i], k)
  }

  /** What the capture group `(\w+)` can hold. */
  predicate IsIdentifier(s: string)
  {
    |s| > 0 && AllIn(s, Word)
  }

  /** What the capture group `(0x[0-9a-fA-F]+)` can hold. */
  predicate IsHexLiteral(v: string)
  {
    |v| >= 3 && v[..2] == "0x" && AllIn(v[2..], Hex)
  }

  /** The length of the longest prefix of `s` inside class `k`. */
  function Span(s: string, k: CharClass): (n: nat)
    ensures n <= |s|
    ensures AllIn(s[..n], k)
    ensures n < |s| ==> !InClass(s[n], k)
    decreases |s|
  {
    if |s| > 0 && InClass(s[0], k) then
      var m := Span(s[1..], k);
      assert s[..m + 1] == [s[0]] + s[1..][..m];
      1 + m
    else 0
  }

  /** What is left of `s` once its leading run of class `k` is consumed. */
  function Skip(s: string, k: CharClass): (t: string)
    ensures |t| <= |s| && (|t| > 0 ==> !InClass(t[0], k))
  {
    s[Span(s, k)..]
  }

  predicate HasPrefix(s: string, lit: string)
  {
    |lit| <= |s| && s[..|lit|] == lit
  }

  /** The captures of the offset pattern: group 1 and group 2. */
  datatype Decl = Decl(name: string, value: string)

  /** The namespace pattern anchored at the start of `s`; the result is group 1. */
  function MatchNamespaceAt(s: string): (r: Option<string>)
    ensures r.Some? ==> IsIdentifier(r.value)
    ensures r.Some? ==> HasPrefix(s, "namespace") && '{' in s
  {
    if !HasPrefix(s, "namespace") then None
    else
      var t := s[9..];
      var a := Span(t, Space);
      if a == 0 then None
      else
        var u := t[a..];
        var b := Span(u, Word);
        if b == 0 then None
        else
          var w := Skip(u[b..], Space);
          if |w| > 0 && w[0] == '{' then Some(u[..b]) else None
  }

  /** The offset pattern anchored at the start of `s`; the result is groups 1 and 2. */
  function MatchOffsetAt(s: string): (r: Option<Decl>)
    ensures r.Some? ==> IsIdentifier(r.value.name) && IsHexLiteral(r.value.value)
    ensures r.Some? ==> HasPrefix(s, "constexpr") && ';' in s
  {
    if !HasPrefix(s, "constexpr") then None
    else
      var t := s[9..];
      var a := Span(t, Space);
      if a == 0 then None
      else
        var r := OffsetAfterKeyword(t[a..]);
        assert r.Some? ==> ';' in t;
        r
  }

  /** `std::ptrdiff_t\s+(\w+)` and the rest of the offset pattern. */
  function OffsetAfterKeyword(t: string): (r: Option<Decl>)
    ensures r.Some? ==> IsIdentifier(r.value.name) && IsHexLiteral(r.value.value)
    ensures r.Some? ==> ';' in t
  {
    if !HasPrefix(t, "std::ptrdiff_t") then None
    else
      var u := t[14..];
      var a := Span(u, Space);
      if a == 0 then None
      else
        var w := u[a..];
        var b := Span(w, Word);
        if b == 0 then None
        else
          var r := OffsetAfterName(w[..b], w[b..]);
          assert r.Some? ==> ';' in w;
          r
  }

  /** `\s*=\s*(0x[0-9a-fA-F]+);` once group 1 has been captured as `name`. */
  function OffsetAfterName(name: string, t: string): (r: Option<Decl>)
    requires IsIdentifier(name)
    ensures r.Some? ==> r.value.name == name && IsHexLiteral(r.value.value)
    ensures r.Some? ==> ';' in t
  {
    var u := Skip(t, Space);
    if |u| == 0 || u[0] != '=' then None
    else
      var w := Skip(u[1..], Space);
      if !HasPrefix(w, "0x") then None
      else
        var h := Span(w[2..], Hex);
        if h == 0 || 2 + h == |w| || w[2 + h] != ';' then None
        else
          var v := w[..2 + h];
          assert v[..2] == "0x" && v[2..] == w[2..][..h];
          assert w[2 + h] in u;
          Some(Decl(name, v))
  }

  /** `re.search` with the namespace pattern: the match at the leftmost position that has one. */
  function SearchNamespace(s: string): (r: Option<string>)
    ensures r.Some? ==> IsIdentifier(r.value)
    decreases |s|
  {
    var m := MatchNamespaceAt(s);
    if m.Some? || |s| == 0 then m else SearchNamespace(s[1..])
  }

  /** `re.search` with the offset pattern. */
  function SearchOffset(s: string): (r: Option<Decl>)
    ensures r.Some? ==> IsIdentifier(r.value.name) && IsHexLiteral(r.value.value)
    decreases |s|
  {
    var m := MatchOffsetAt(s);
    if m.Some? || |s| == 0 then m else SearchOffset(s[1..])
  }

  /** The two independent `search` calls made on every line. */
  datatype LineMatch = LineMatch(ns: Option<string>, decl: Option<Decl>)

  function ClassifyLine(line: string): (m: LineMatch)
    ensures m.ns.Some? ==> IsIdentifier(m.ns.value)
    ensures m.decl.Some? ==> IsIdentifier(m.decl.value.name) && IsHexLiteral(m.decl.value.value)
  {
    LineMatch(SearchNamespace(line), SearchOffset(line))
  }

  // ---- re.search finds the leftmost match, and only fails when there is none

  /** Dropping one character, then `j` more, drops `j + 1`. */
  lemma DropDrop(s: string, j: nat)
    requires j + 1 <= |s|
    ensures s[1..][j..] == s[j + 1..]
  {
  }

  lemma {:induction false} SearchNamespaceFailsIffNoMatch(s: string)
    ensures SearchNamespace(s).None? <==> forall k :: 0 <= k <= |s| ==> MatchNamespaceAt(s[k..]).None?
    decreases |s|
  {
    assert s[0..] == s;
    if MatchNamespaceAt(s).None? && |s| > 0 {
      SearchNamespaceFailsIffNoMatch(s[1..]);
      forall k | 0 < k <= |s| ensures MatchNamespaceAt(s[k..]) == MatchNamespaceAt(s[1..][k - 1..]) {
        DropDrop(s, k - 1);
      }
    }
  }

  lemma {:induction false} SearchNamespaceIsLeftmost(s: string, k: nat)
    requires k <= |s| && MatchNamespaceAt(s[k..]).Some?
    requires forall j :: 0 <= j < k ==> MatchNamespaceAt(s[j..]).None?
    ensures SearchNamespace(s) == MatchNamespaceAt(s[k..])
    decreases k
  {
    assert s[0..] == s;
    if k > 0 {
      forall j | 0 <= j < k - 1 ensures MatchNamespaceAt(s[1..][j..]).None? {
        DropDrop(s, j);
      }
      DropDrop(s, k - 1);
      SearchNamespaceIsLeftmost(s[1..], k - 1);
    }
  }

  lemma {:induction false} SearchOffsetFailsIffNoMatch(s: string)
    ensures SearchOffset(s).None? <==> forall k :: 0 <= k <= |s| ==> MatchOffsetAt(s[k..]).None?
    decreases |s|
  {
    assert s[0..] == s;
    if MatchOffsetAt(s).None? && |s| > 0 {
      SearchOffsetFailsIffNoMatch(s[1..]);
      forall k | 0 < k <= |s| ensures MatchOffsetAt(s[k..]) == MatchOffsetAt(s[1..][k - 1..]) {
        DropDrop(s, k - 1);
      }
    }
  }

  lemma {:induction false} SearchOffsetIsLeftmost(s: string, k: nat)
    requires k <= |s| && MatchOffsetAt(s[k..]).Some?
    requires forall j :: 0 <= j < k ==> MatchOffsetAt(s[j..]).None?
    ensures SearchOffset(s) == MatchOffsetAt(s[k..])
    decreases k
  {
    assert s[0..] == s;
    if k > 0 {
      forall j | 0 <= j < k - 1 ensures MatchOffsetAt(s[1..][j..]).None? {
        DropDrop(s, j);
      }
      DropDrop(s, k - 1);
      SearchOffsetIsLeftmost(s[1..], k - 1);
    }
  }

  /** A line without `{` never opens a namespace. */
  lemma {:induction false} NoBraceNoNamespace(s: string)
    requires '{' !in s
    ensures SearchNamespace(s).None?
    decreases |s|
  {
    if |s| > 0 {
      assert forall c :: c in s[1..] ==> c in s;
      NoBraceNoNamespace(s[1..]);
    }
  }

  /** A line without `;` never declares an offset. */
  lemma {:induction false} NoSemicolonNoOffset(s: string)
    requires ';' !in s
    ensures SearchOffset(s).None?
    decreases |s|
  {
    if |s| > 0 {
      assert forall c :: c in s[1..] ==> c in s;
      NoSemicolonNoOffset(s[1..]);
    }
  }

  // ---- the lines the patterns are written for are recognised

  lemma {:induction false} SpanOfConcat(x: string, y: string, k: CharClass)
    requires AllIn(x, k) && (|y| > 0 ==> !InClass(y[0], k))
    ensures Span(x + y, k) == |x|
    decreases |x|
  {
    if |x| > 0 {
      assert (x + y)[0] == x[0];
      assert (x + y)[1..] == x[1..] + y;
      SpanOfConcat(x[1..], y, k);
    } else {
      assert x + y == y;
    }
  }

  lemma NamespaceLineMatches(ws1: string, n: string, ws2: string, rest: string)
    requires |ws1| > 0 && AllIn(ws1, Space) && IsIdentifier(n) && AllIn(ws2, Space)
    ensures MatchNamespaceAt("namespace" + ws1 + n + ws2 + "{" + rest) == Some(n)
  {
    var s := "namespace" + ws1 + n + ws2 + "{" + rest;
    var t := ws1 + (n + (ws2 + ("{" + rest)));
    assert s[..9] == "namespace" && s[9..] == t;
    SpanOfConcat(ws1, n + (ws2 + ("{" + rest)), Space);
    assert t[|ws1|..] == n + (ws2 + ("{" + rest));
    assert !InClass(n[0], Space);
    SpanOfConcat(n, ws2 + ("{" + rest), Word);
    var u := n + (ws2 + ("{" + rest));
    assert u[..|n|] == n && u[|n|..] == ws2 + ("{" + rest);
    SpanOfConcat(ws2, "{" + rest, Space);
    assert (ws2 + ("{" + rest))[|ws2|..] == "{" + rest;
  }

  lemma SkipOfConcat(x: string, y: string, k: CharClass)
    requires AllIn(x, k) && (|y| > 0 ==> !InClass(y[0], k))
    ensures Skip(x + y, k) == y
  {
    SpanOfConcat(x, y, k);
    assert (x + y)[|x|..] == y;
  }

  lemma HexValueMatches(v: string, rest: string)
    requires IsHexLiteral(v)
    ensures HasPrefix(v + (";" + rest), "0x")
    ensures Span((v + (";" + rest))[2..], Hex) == |v| - 2
    ensures (v + (";" + rest))[|v|] == ';' && (v + (";" + rest))[..|v|] == v
  {
    var w := v + (";" + rest);
    assert w[..2] == v[..2];
    assert w[2..] == v[2..] + (";" + rest);
    SpanOfConcat(v[2..], ";" + rest, Hex);
    assert w[..|v|] == v;
  }

  lemma OffsetTailMatches(n: string, ws3: string, ws4: string, v: string, rest: string)
    requires IsIdentifier(n) && AllIn(ws3, Space) && AllIn(ws4, Space) && IsHexLiteral(v)
    ensures OffsetAfterName(n, ws3 + ("=" + (ws4 + (v + (";" + rest))))) == Some(Decl(n, v))
  {
    var w := v + (";" + rest);
    var x := ws4 + w;
    var u := "=" + x;
    SkipOfConcat(ws3, u, Space);
    assert u[1..] == x;
    assert !InClass(w[0], Space) by { assert w[0] == v[0] == '0'; }
    SkipOfConcat(ws4, w, Space);
    HexValueMatches(v, rest);
  }

  lemma KeywordMatches(ws1: string, a: string)
    requires |ws1| > 0 && AllIn(ws1, Space) && |a| > 0 && !InClass(a[0], Space)
    ensures MatchOffsetAt("constexpr" + ws1 + a) == OffsetAfterKeyword(a)
  {
    var s := "constexpr" + ws1 + a;
    assert s[..9] == "constexpr" && s[9..] == ws1 + a;
    SpanOfConcat(ws1, a, Space);
    assert (ws1 + a)[|ws1|..] == a;
  }

  lemma TypeAndNameMatch(ws2: string, n: string, tail: string)
    requires |ws2| > 0 && AllIn(ws2, Space) && IsIdentifier(n)
    requires |tail| > 0 ==> !InClass(tail[0], Word)
    ensures OffsetAfterKeyword("std::ptrdiff_t" + ws2 + n + tail) == OffsetAfterName(n, tail)
  {
    var nt := n + tail;
    var b := ws2 + nt;
    var a := "std::ptrdiff_t" + ws2 + n + tail;
    assert a == "std::ptrdiff_t" + b;
    assert a[..14] == "std::ptrdiff_t" && a[14..] == b;
    assert !InClass(n[0], Space);
    SpanOfConcat(ws2, nt, Space);
    assert b[|ws2|..] == nt;
    SpanOfConcat(n, tail, Word);
    assert nt[..|n|] == n && nt[|n|..] == tail;
  }

  lemma OffsetLineMatches(ws1: string, ws2: string, n: string, tail: string)
    requires |ws1| > 0 && AllIn(ws1, Space) && |ws2| > 0 && AllIn(ws2, Space) && IsIdentifier(n)
    requires |tail| > 0 ==> !InClass(tail[0], Word)
    ensures MatchOffsetAt("constexpr" + ws1 + "std::ptrdiff_t" + ws2 + n + tail) == OffsetAfterName(n, tail)
  {
    var a := "std::ptrdiff_t" + ws2 + n + tail;
    assert "constexpr" + ws1 + "std::ptrdiff_t" + ws2 + n + tail == "constexpr" + ws1 + a;
    KeywordMatches(ws1, a);
    TypeAndNameMatch(ws2, n, tail);
  }

  /** Leading whitespace is skipped by the search. */
  lemma {:induction false} SearchOffsetSkipsIndent(indent: string, s: string)
    requires AllIn(indent, Space)
    ensures SearchOffset(indent + s) == SearchOffset(s)
    decreases |indent|
  {
    if |indent| > 0 {
      assert (indent + s)[0] == indent[0];
      assert !HasPrefix(indent + s, "constexpr") by { assert "constexpr"[0] != indent[0]; }
      assert (indent + s)[1..] == indent[1..] + s;
      SearchOffsetSkipsIndent(indent[1..], s);
    } else {
      assert indent + s == s;
    }
  }

  lemma PunctuationNotInRun(s: string, k: CharClass)
    requires AllIn(s, k)
    ensures ';' !in s && '{' !in s
  {
  }

  lemma NamespaceLiteralsHaveNoSemicolon()
    ensures ';' !in "namespace " && ';' !in " {"
  {
  }

  /** `namespace <n> {` as written in a generated offsets header. */
  lemma ClassifyNamespaceLine(n: string, rest: string)
    requires IsIdentifier(n) && ';' !in rest
    ensures ClassifyLine("namespace " + n + " {" + rest) == LineMatch(Some(n), None)
  {
    var s := "namespace " + n + " {" + rest;
    assert s == "namespace" + " " + n + " " + "{" + rest;
    NamespaceLineMatches(" ", n, " ", rest);
    PunctuationNotInRun(n, Word);
    NamespaceLiteralsHaveNoSemicolon();
    NoSemicolonNoOffset(s);
  }

  lemma OffsetLineFound(n: string, v: string, rest: string)
    requires IsIdentifier(n) && IsHexLiteral(v)
    ensures SearchOffset("constexpr std::ptrdiff_t " + n + " = " + v + ";" + rest) == Some(Decl(n, v))
  {
    var line := "constexpr std::ptrdiff_t " + n + " = " + v + ";" + rest;
    var tail := " " + ("=" + (" " + (v + (";" + rest))));
    assert line == "constexpr" + " " + "std::ptrdiff_t" + " " + n + tail;
    OffsetLineMatches(" ", " ", n, tail);
    OffsetTailMatches(n, " ", " ", v, rest);
  }

  lemma OffsetLineHasNoBrace(indent: string, n: string, v: string, rest: string)
    requires AllIn(indent, Space) && IsIdentifier(n) && IsHexLiteral(v) && '{' !in rest
    ensures '{' !in indent + "constexpr std::ptrdiff_t " + n + " = " + v + ";" + rest
  {
    PunctuationNotInRun(indent, Space);
    PunctuationNotInRun(n, Word);
    PunctuationNotInRun(v[2..], Hex);
    assert v == "0x" + v[2..];
    assert '{' !in "constexpr std::ptrdiff_t " && '{' !in " = " && '{' !in ";" && '{' !in "0x";
  }

  /** `<indent>constexpr std::ptrdiff_t <n> = <v>;` as written in a generated offsets header. */
  lemma ClassifyOffsetLine(indent: string, n: string, v: string, rest: string)
    requires AllIn(indent, Space) && IsIdentifier(n) && IsHexLiteral(v) && '{' !in rest
    ensures ClassifyLine(indent + "constexpr std::ptrdiff_t " + n + " = " + v + ";" + rest)
            == LineMatch(None, Some(Decl(n, v)))
  {
    var line := "constexpr std::ptrdiff_t " + n + " = " + v + ";" + rest;
    var s := indent + "constexpr std::ptrdiff_t " + n + " = " + v + ";" + rest;
    assert s == indent + line;
    OffsetLineFound(n, v, rest);
    SearchOffsetSkipsIndent(indent, line);
    OffsetLineHasNoBrace(indent, n, v, rest);
    NoBraceNoNamespace(s);
  }
}
