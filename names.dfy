/**
 * The name normaliser `convert_name` (Main.py:7-8): three chained calls of
 * Python's `str.replace`, turning every `::`, space and `-` into `_`.
 */
module Names {

  /**
   * Python's `s.replace(pat, rep)` for a non-empty pattern: occurrences are
   * found from left to right and never overlap.
   */
  function ReplaceAll(s: string, pat: string, rep: string): string
    requires |pat| > 0
    decreases |s|
  {
    if |s| == 0 then ""
    else if |pat| <= |s| && s[..|pat|] == pat then rep + ReplaceAll(s[|pat|..], pat, rep)
    else [s[0]] + ReplaceAll(s[1..], pat, rep)
  }

  function ConvertName(name: string): string
  {
    ReplaceAll(ReplaceAll(ReplaceAll(name, "::", "_"), " ", "_"), "-", "_")
  }

  /** One left-to-right pass that does what the three replacements do together. */
  function Normalize(s: string): string
    decreases |s|
  {
    if |s| == 0 then ""
    else if 2 <= |s| && s[0] == ':' && s[1] == ':' then "_" + Normalize(s[2..])
    else [if s[0] == ' ' || s[0] == '-' then '_' else s[0]] + Normalize(s[1..])
  }

  /** No space, no `-` and no two adjacent colons. */
  predicate Clean(s: string)
  {
    && (forall i :: 0 <= i < |s| ==> s[i] != ' ' && s[i] != '-')
    && (forall i :: 0 < i < |s| ==> !(s[i - 1] == ':' && s[i] == ':'))
  }

  /** Replacing a single character distributes over concatenation. */
  lemma {:induction false} ReplaceCharDistributes(a: string, b: string, c: char, rep: string)
    ensures ReplaceAll(a + b, [c], rep) == ReplaceAll(a, [c], rep) + ReplaceAll(b, [c], rep)
    decreases |a|
  {
    if a == [] {
      assert a + b == b;
    } else {
      assert (a + b)[0] == a[0];
      assert (a + b)[1..] == a[1..] + b;
      ReplaceCharDistributes(a[1..], b, c, rep);
    }
  }

  /** Replacing the two single characters of one character. */
  lemma CharStep(x: char, rest: string)
    ensures ReplaceAll(ReplaceAll([x] + rest, " ", "_"), "-", "_")
         == [if x == ' ' || x == '-' then '_' else x]
            + ReplaceAll(ReplaceAll(rest, " ", "_"), "-", "_")
  {
    ReplaceCharDistributes([x], rest, ' ', "_");
    var y := if x == ' ' then "_" else [x];
    assert ReplaceAll([x], " ", "_") == y by {
      assert [x][1..] == [];
    }
    ReplaceCharDistributes(y, ReplaceAll(rest, " ", "_"), '-', "_");
    assert y[1..] == [];
  }

  /** The three chained replacements equal the single pass `Normalize`. */
  lemma {:induction false} ConvertNameIsNormalize(s: string)
    ensures ConvertName(s) == Normalize(s)
    decreases |s|
  {
    if |s| == 0 {
    } else if 2 <= |s| && s[0] == ':' && s[1] == ':' {
      assert s[..2] == "::";
      ConvertNameIsNormalize(s[2..]);
      CharStep('_', ReplaceAll(s[2..], "::", "_"));
    } else {
      assert !(2 <= |s| && s[..2] == "::") by {
        if 2 <= |s| { assert s[..2][0] == s[0] && s[..2][1] == s[1]; }
      }
      ConvertNameIsNormalize(s[1..]);
      CharStep(s[0], ReplaceAll(s[1..], "::", "_"));
    }
  }

  lemma {:induction false} NormalizeIsClean(s: string)
    ensures Clean(Normalize(s))
    decreases |s|
  {
    if |s| == 0 {
    } else if 2 <= |s| && s[0] == ':' && s[1] == ':' {
      NormalizeIsClean(s[2..]);
      var r := Normalize(s);
      assert r == "_" + Normalize(s[2..]);
      assert forall i :: 0 < i < |r| ==> r[i] == Normalize(s[2..])[i - 1];
    } else {
      NormalizeIsClean(s[1..]);
      var t := Normalize(s[1..]);
      var r := Normalize(s);
      assert r == [r[0]] + t;
      assert forall i :: 0 < i < |r| ==> r[i] == t[i - 1];
      assert |t| > 0 && r[0] == ':' ==> t[0] != ':' by {
        if |t| > 0 && r[0] == ':' {
          assert s[0] == ':' && |s| >= 2 && s[1] != ':';
          assert s[1..][0] == s[1];
        }
      }
    }
  }

  lemma {:induction false} NormalizeKeepsClean(s: string)
    requires Clean(s)
    ensures Normalize(s) == s
    decreases |s|
  {
    if |s| > 0 {
      assert !(2 <= |s| && s[0] == ':' && s[1] == ':') by {
        if 2 <= |s| { assert !(s[1 - 1] == ':' && s[1] == ':'); }
      }
      assert Clean(s[1..]) by {
        assert forall i :: 0 < i < |s[1..]| ==> s[1..][i - 1] == s[i] && s[1..][i] == s[i + 1];
      }
      NormalizeKeepsClean(s[1..]);
    }
  }

  /** The single pass writes only `_` and characters of its input. */
  lemma {:induction false} NormalizeAddsOnlyUnderscores(s: string, c: char)
    requires c != '_' && c !in s
    ensures c !in Normalize(s)
    decreases |s|
  {
    if |s| > 0 {
      assert forall x :: x in s[1..] ==> x in s;
      if 2 <= |s| && s[0] == ':' && s[1] == ':' {
        assert forall x :: x in s[2..] ==> x in s;
        NormalizeAddsOnlyUnderscores(s[2..], c);
      } else {
        NormalizeAddsOnlyUnderscores(s[1..], c);
      }
    }
  }

  /** The result of `convert_name` contains no space, no `-` and no `::`. */
  lemma ConvertNameIsClean(s: string)
    ensures Clean(ConvertName(s))
  {
    ConvertNameIsNormalize(s);
    NormalizeIsClean(s);
  }

  /** A name without space, `-` or `::` is returned unchanged. */
  lemma ConvertNameKeepsClean(s: string)
    requires Clean(s)
    ensures ConvertName(s) == s
  {
    ConvertNameIsNormalize(s);
    NormalizeKeepsClean(s);
  }

  /** Normalising an already normalised name changes nothing. */
  lemma ConvertNameIdempotent(s: string)
    ensures ConvertName(ConvertName(s)) == ConvertName(s)
  {
    ConvertNameIsClean(s);
    ConvertNameKeepsClean(ConvertName(s));
  }

  /** Without colons, the single pass rewrites each character on its own. */
  lemma {:induction false} NormalizeWithoutColons(s: string)
    requires ':' !in s
    ensures |Normalize(s)| == |s|
    ensures forall i :: 0 <= i < |s| ==> Normalize(s)[i] == if s[i] == ' ' || s[i] == '-' then '_' else s[i]
    decreases |s|
  {
    if |s| > 0 {
      assert forall x :: x in s[1..] ==> x in s;
      NormalizeWithoutColons(s[1..]);
    }
  }

  /** `convert_name("My Var-Name")` is `"My_Var_Name"`. */
  lemma ConvertNameExample(s: string)
    requires s == "My Var-Name"
    ensures ConvertName(s) == "My_Var_Name"
  {
    ConvertNameIsNormalize(s);
    assert ':' !in s;
    NormalizeWithoutColons(s);
  }
}
