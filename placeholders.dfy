/**
 * Placeholder extraction from a prompt template: the names that Python's
 * `re.findall(r"\{(.*?)\}", text)` returns, with `.` not matching a newline.
 *
 * A scan position holding `{` starts a match when a `}` follows before any
 * newline; the lazy `.*?` stops at the FIRST such `}`, the text in between is
 * captured, and scanning resumes after that `}`. Otherwise the scan moves on by
 * one character. `Extract` is that scanner; `Decomposition` is an independent,
 * declarative description of a findall result (the text cut into gaps and
 * `{name}` pieces, where no gap opens a match), and the lemmas at the end prove
 * that `Extract` gives a decomposition and that it is the only one.
 */
module Placeholders {
  import opened Wrappers

  /** Index in `t` of the `}` that closes a placeholder opened just before `t`:
      the first `}`, provided no newline comes before it. */
  function CloseIndex(t: string): (r: Option<nat>)
    ensures r.Some? ==> r.value < |t| && t[r.value] == '}'
  {
    if t == [] then None
    else if t[0] == '}' then Some(0)
    else if t[0] == '\n' then None
    else
      match CloseIndex(t[1..])
      case Some(j) => Some(j + 1)
      case None => None
  }

  /** The closing brace is the first `}` and no newline comes before it; when
      there is none, a newline comes before every `}`. */
  lemma {:induction false} CloseIndexFirst(t: string)
    ensures CloseIndex(t).Some? ==> forall k :: 0 <= k < CloseIndex(t).value ==> t[k] != '}' && t[k] != '\n'
    ensures CloseIndex(t).None? ==> forall k :: 0 <= k < |t| && t[k] == '}' ==> '\n' in t[..k]
    decreases |t|
  {
    if t != [] && t[0] != '}' && t[0] != '\n' {
      CloseIndexFirst(t[1..]);
      assert forall k :: 1 <= k < |t| ==> t[1..][..k - 1] == t[1..k] && t[k] == t[1..][k - 1];
    }
  }

  /** The captured placeholder names of `s`, left to right, duplicates kept. */
  function Extract(s: string): (names: seq<string>)
    ensures forall k :: 0 <= k < |names| ==> '}' !in names[k] && '\n' !in names[k]
    decreases |s|
  {
    if s == [] then []
    else if s[0] == '{' && CloseIndex(s[1..]).Some? then
      var j := CloseIndex(s[1..]).value;
      CloseIndexFirst(s[1..]);
      assert forall m :: 0 <= m < j ==> s[1..j + 1][m] == s[1..][m];
      [s[1..j + 1]] + Extract(s[j + 2..])
    else Extract(s[1..])
  }

  /** The text around the matches of `s`: the piece before the first match,
      between consecutive matches, and after the last one. */
  function Gaps(s: string): (gaps: seq<string>)
    ensures |gaps| == |Extract(s)| + 1
    decreases |s|
  {
    if s == [] then [""]
    else if s[0] == '{' && CloseIndex(s[1..]).Some? then
      [""] + Gaps(s[CloseIndex(s[1..]).value + 2..])
    else
      var rest := Gaps(s[1..]);
      [[s[0]] + rest[0]] + rest[1..]
  }

  /** The text `gaps[0] {names[0]} gaps[1] ... {names[n-1]} gaps[n]`. */
  function Assemble(gaps: seq<string>, names: seq<string>): (s: string)
    requires |gaps| == |names| + 1
    decreases |names|
  {
    if names == [] then gaps[0]
    else gaps[0] + "{" + names[0] + "}" + Assemble(gaps[1..], names[1..])
  }

  /** No `{` of `gap` starts a match: each one reaches a newline before any `}`,
      counting, when a match follows the gap, the `}` that closes that match. */
  predicate OpensNothing(gap: string, followed: bool)
  {
    forall j :: 0 <= j < |gap| && gap[j] == '{' ==> CloseIndex(gap[j + 1..] + Closer(followed)).None?
  }

  /** The `}` of the match that follows a gap, if one does. */
  function Closer(followed: bool): (closer: string)
  {
    if followed then "}" else ""
  }

  /** Every gap opens nothing; all but the last are followed by a match. */
  predicate GapsOpenNothing(gaps: seq<string>)
  {
    forall i :: 0 <= i < |gaps| ==> OpensNothing(gaps[i], i < |gaps| - 1)
  }

  /** `names` is what a left-to-right, non-overlapping search for `{...}`
      (no newline and no `}` inside) finds in `s`, with `gaps` the text around it. */
  predicate Decomposition(s: string, gaps: seq<string>, names: seq<string>)
  {
    && |gaps| == |names| + 1
    && Assemble(gaps, names) == s
    && (forall k :: 0 <= k < |names| ==> '}' !in names[k] && '\n' !in names[k])
    && GapsOpenNothing(gaps)
  }

  // ----- facts about CloseIndex -----

  /** A name free of `}` and newline is closed by the `}` right after it. */
  lemma CloseAfterName(p: string, rest: string)
    requires '}' !in p && '\n' !in p
    ensures CloseIndex(p + "}" + rest) == Some(|p|)
  {
    var t := p + "}" + rest;
    CloseIndexFirst(t);
    assert t[|p|] == '}';
    assert t[..|p|] == p;
    assert forall k :: 0 <= k < |p| ==> t[k] == p[k];
  }

  /** A newline stops the search for a closing brace, whatever follows it. */
  lemma {:induction false} CloseAcrossNewline(t: string, b: string)
    ensures CloseIndex(t + "\n" + b) == CloseIndex(t)
    decreases |t|
  {
    if t == [] {
      assert (t + "\n" + b)[0] == '\n';
    } else {
      assert (t + "\n" + b)[0] == t[0];
      assert (t + "\n" + b)[1..] == t[1..] + "\n" + b;
      if t[0] != '}' && t[0] != '\n' {
        CloseAcrossNewline(t[1..], b);
      }
    }
  }

  /** When `a` reaches a newline before any brace, nothing appended to it can close. */
  lemma {:induction false} BlockedPrefix(a: string, b: string)
    requires CloseIndex(a + "}").None?
    ensures CloseIndex(a + b).None?
    decreases |a|
  {
    if a != [] {
      assert (a + "}")[0] == a[0] && (a + b)[0] == a[0];
      assert (a + "}")[1..] == a[1..] + "}";
      assert (a + b)[1..] == a[1..] + b;
      if a[0] != '\n' {
        BlockedPrefix(a[1..], b);
      }
    }
  }

  /** When `a` reaches the end without a newline (or closes inside), a closable
      continuation closes. */
  lemma {:induction false} ReachesClose(a: string, c: string)
    requires CloseIndex(a + "}").Some?
    requires CloseIndex(c).Some?
    ensures CloseIndex(a + c).Some?
    decreases |a|
  {
    if a == [] {
      assert a + c == c;
    } else {
      assert (a + "}")[0] == a[0] && (a + c)[0] == a[0];
      assert (a + "}")[1..] == a[1..] + "}";
      assert (a + c)[1..] == a[1..] + c;
      if a[0] != '}' {
        ReachesClose(a[1..], c);
      }
    }
  }

  // ----- Extract is a findall -----

  lemma AssembleCons(c: char, gaps: seq<string>, names: seq<string>)
    requires |gaps| == |names| + 1
    ensures Assemble([[c] + gaps[0]] + gaps[1..], names) == [c] + Assemble(gaps, names)
  {
    var gaps' := [[c] + gaps[0]] + gaps[1..];
    assert gaps'[1..] == gaps[1..];
  }

  lemma GapsOpenNothingCons(g: string, gaps: seq<string>)
    ensures GapsOpenNothing([g] + gaps) <==> OpensNothing(g, gaps != []) && GapsOpenNothing(gaps)
  {
    var all := [g] + gaps;
    assert all[0] == g;
    assert forall i :: 0 <= i < |gaps| ==> all[i + 1] == gaps[i];
    if OpensNothing(g, gaps != []) && GapsOpenNothing(gaps) {
      forall i | 0 <= i < |all|
        ensures OpensNothing(all[i], i < |all| - 1)
      {
        if i > 0 {
          assert all[i] == gaps[i - 1];
        }
      }
    }
  }

  /** A gap that starts with `c` opens nothing when its remainder opens nothing
      and, if `c` is `{`, the remainder blocks it. */
  lemma OpensNothingCons(c: char, g: string, followed: bool)
    ensures OpensNothing([c] + g, followed) <==>
      OpensNothing(g, followed) && (c == '{' ==> CloseIndex(g + Closer(followed)).None?)
  {
    var cg := [c] + g;
    assert cg[1..] == g;
    assert forall j :: 0 <= j < |g| ==> cg[j + 1] == g[j] && cg[j + 2..] == g[j + 1..];
    if OpensNothing(g, followed) && (c == '{' ==> CloseIndex(g + Closer(followed)).None?) {
      forall j | 0 <= j < |cg| && cg[j] == '{'
        ensures CloseIndex(cg[j + 1..] + Closer(followed)).None?
      {
        if j > 0 {
          assert cg[j + 1..] == g[j..];
        }
      }
    }
    if OpensNothing(cg, followed) {
      forall j | 0 <= j < |g| && g[j] == '{'
        ensures CloseIndex(g[j + 1..] + Closer(followed)).None?
      {
        assert cg[j + 1] == '{';
      }
      if c == '{' {
        assert cg[0] == '{' && cg[1..] == g;
      }
    }
  }

  /** One step of the scan when a match starts at position 0. */
  lemma ScanMatch(s: string)
    requires s != [] && s[0] == '{' && CloseIndex(s[1..]).Some?
    ensures var j := CloseIndex(s[1..]).value;
      && Extract(s) == [s[1..j + 1]] + Extract(s[j + 2..])
      && Gaps(s) == [""] + Gaps(s[j + 2..])
  {
  }

  lemma SplitAtMatch(s: string, j: nat)
    requires j + 2 <= |s| && s[0] == '{' && s[j + 1] == '}'
    ensures s == ("{" + s[1..j + 1]) + "}" + s[j + 2..]
  {
    var t := ("{" + s[1..j + 1]) + "}" + s[j + 2..];
    assert |t| == |s|;
    forall i | 0 <= i < |s|
      ensures t[i] == s[i]
    {
      if i == 0 {
      } else if i <= j {
        assert t[i] == s[1..j + 1][i - 1];
      } else if i == j + 1 {
      } else {
        assert t[i] == s[j + 2..][i - j - 2];
      }
    }
  }

  /** One step of the scan when no match starts at position 0. */
  lemma ScanStep(s: string)
    requires s != [] && !(s[0] == '{' && CloseIndex(s[1..]).Some?)
    ensures Extract(s) == Extract(s[1..])
    ensures Gaps(s) == [[s[0]] + Gaps(s[1..])[0]] + Gaps(s[1..])[1..]
    ensures s == [s[0]] + s[1..]
  {
  }

  /** Putting the gaps and the `{name}` pieces back together gives the text. */
  lemma {:induction false} ReassembleGaps(s: string)
    ensures Assemble(Gaps(s), Extract(s)) == s
    decreases |s|
  {
    if s == [] {
    } else if s[0] == '{' && CloseIndex(s[1..]).Some? {
      var j := CloseIndex(s[1..]).value;
      var rest := s[j + 2..];
      ScanMatch(s);
      ReassembleGaps(rest);
      AssembleLeadingMatch(s[1..j + 1], Gaps(rest), Extract(rest));
      SplitAtMatch(s, j);
    } else {
      ScanStep(s);
      ReassembleGaps(s[1..]);
      AssembleCons(s[0], Gaps(s[1..]), Extract(s[1..]));
    }
  }

  /** Text in which nothing closes keeps its first gap blocked up to the
      closing brace of the first match. */
  lemma FirstGapBlocked(t: string)
    requires CloseIndex(t).None?
    ensures CloseIndex(Gaps(t)[0] + Closer(|Gaps(t)| > 1)).None?
  {
    ReassembleGaps(t);
    BlockedBeforeMatch(Gaps(t), Extract(t));
  }

  /** When the assembled text does not close, its first gap is blocked. */
  lemma BlockedBeforeMatch(gaps: seq<string>, names: seq<string>)
    requires |gaps| == |names| + 1
    requires forall k :: 0 <= k < |names| ==> '}' !in names[k] && '\n' !in names[k]
    requires CloseIndex(Assemble(gaps, names)).None?
    ensures CloseIndex(gaps[0] + Closer(names != [])).None?
  {
    if names != [] {
      var head := "{" + names[0];
      var rest := Assemble(gaps[1..], names[1..]);
      AssembleFirst(gaps, names);
      if CloseIndex(gaps[0] + "}").Some? {
        CloseAfterName(head, rest);
        ReachesClose(gaps[0], head + "}" + rest);
        assert false;
      }
    } else {
      assert gaps[0] + Closer(false) == Assemble(gaps, names);
    }
  }

  lemma AssembleLeadingMatch(name: string, gaps: seq<string>, names: seq<string>)
    requires |gaps| == |names| + 1
    ensures Assemble([""] + gaps, [name] + names) == ("{" + name) + "}" + Assemble(gaps, names)
  {
    assert ([""] + gaps)[1..] == gaps && ([name] + names)[1..] == names;
  }

  /** The assembled text is the first gap followed by the first match and the rest. */
  lemma AssembleFirst(gaps: seq<string>, names: seq<string>)
    requires |gaps| == |names| + 1 && names != []
    ensures Assemble(gaps, names) == gaps[0] + (("{" + names[0]) + "}" + Assemble(gaps[1..], names[1..]))
  {
  }

  /** No gap that `Extract` skips over could have started a match. */
  lemma {:induction false} GapsOfOpenNothing(s: string)
    ensures GapsOpenNothing(Gaps(s))
    decreases |s|
  {
    if s == [] {
    } else if s[0] == '{' && CloseIndex(s[1..]).Some? {
      var j := CloseIndex(s[1..]).value;
      ScanMatch(s);
      GapsOfOpenNothing(s[j + 2..]);
      GapsOpenNothingCons("", Gaps(s[j + 2..]));
    } else {
      ScanStep(s);
      GapsOfOpenNothing(s[1..]);
      if s[0] == '{' {
        FirstGapBlocked(s[1..]);
      }
      GapsOpenNothingStep(s[0], Gaps(s[1..]));
    }
  }

  /** Prepending a character to the first gap keeps every gap opening nothing,
      provided a `{` so prepended is blocked by the rest of the gap. */
  lemma GapsOpenNothingStep(c: char, gaps: seq<string>)
    requires gaps != [] && GapsOpenNothing(gaps)
    requires c == '{' ==> CloseIndex(gaps[0] + Closer(|gaps| > 1)).None?
    ensures GapsOpenNothing([[c] + gaps[0]] + gaps[1..])
  {
    assert gaps == [gaps[0]] + gaps[1..];
    GapsOpenNothingCons(gaps[0], gaps[1..]);
    OpensNothingCons(c, gaps[0], gaps[1..] != []);
    GapsOpenNothingCons([c] + gaps[0], gaps[1..]);
  }

  /** `Extract` finds a decomposition of its input. */
  lemma ExtractDecomposes(s: string)
    ensures Decomposition(s, Gaps(s), Extract(s))
  {
    ReassembleGaps(s);
    GapsOfOpenNothing(s);
  }

  /** ... and it is the only one: any decomposition names exactly `Extract(s)`. */
  lemma {:induction false} DecompositionUnique(s: string, gaps: seq<string>, names: seq<string>)
    requires Decomposition(s, gaps, names)
    ensures names == Extract(s) && gaps == Gaps(s)
    decreases |s|
  {
    assert gaps == [gaps[0]] + gaps[1..];
    GapsOpenNothingCons(gaps[0], gaps[1..]);
    if gaps[0] == [] {
      if names != [] {
        DecompositionUniqueMatch(s, gaps, names);
      }
    } else {
      DecompositionUniqueStep(s, gaps, names);
    }
  }

  /** A decomposition that starts with a match: the scan matches at position 0. */
  lemma {:induction false} DecompositionUniqueMatch(s: string, gaps: seq<string>, names: seq<string>)
    requires Decomposition(s, gaps, names) && gaps[0] == [] && names != []
    ensures names == Extract(s) && gaps == Gaps(s)
    decreases |s|, 0
  {
    var n := names[0];
    var rest := Assemble(gaps[1..], names[1..]);
    assert s == "{" + n + "}" + rest;
    assert s[1..] == n + "}" + rest;
    CloseAfterName(n, rest);
    assert s[1..|n| + 1] == n;
    assert s[|n| + 2..] == rest;
    assert Extract(s) == [n] + Extract(rest);
    assert Gaps(s) == [""] + Gaps(rest);
    assert gaps == [gaps[0]] + gaps[1..];
    GapsOpenNothingCons(gaps[0], gaps[1..]);
    DecompositionUnique(rest, gaps[1..], names[1..]);
  }

  /** Dropping the first character of a non-empty first gap leaves a
      decomposition of the rest of the text; a `{` there is blocked. */
  lemma DecompositionTail(s: string, gaps: seq<string>, names: seq<string>)
    requires Decomposition(s, gaps, names) && gaps[0] != []
    ensures s != [] && s[0] == gaps[0][0]
    ensures Decomposition(s[1..], [gaps[0][1..]] + gaps[1..], names)
    ensures s[0] == '{' ==> CloseIndex(s[1..]).None?
  {
    var c, g := gaps[0][0], gaps[0][1..];
    var gaps' := [g] + gaps[1..];
    assert gaps[0] == [c] + g;
    AssembleCons(c, gaps', names);
    assert [[c] + gaps'[0]] + gaps'[1..] == gaps;
    assert s == [c] + Assemble(gaps', names);
    assert gaps == [gaps[0]] + gaps[1..];
    GapsOpenNothingCons(gaps[0], gaps[1..]);
    OpensNothingCons(c, g, gaps[1..] != []);
    GapsOpenNothingCons(g, gaps[1..]);
    if c == '{' {
      if names == [] {
        assert s[1..] == g + Closer(false);
      } else {
        var more := "{" + names[0] + "}" + Assemble(gaps'[1..], names[1..]);
        assert s[1..] == g + more;
        BlockedPrefix(g, more);
      }
    }
  }

  /** A decomposition whose first gap is not empty: the scan steps over its
      first character. */
  lemma {:induction false} DecompositionUniqueStep(s: string, gaps: seq<string>, names: seq<string>)
    requires Decomposition(s, gaps, names) && gaps[0] != []
    ensures names == Extract(s) && gaps == Gaps(s)
    decreases |s|, 0
  {
    DecompositionTail(s, gaps, names);
    var gaps' := [gaps[0][1..]] + gaps[1..];
    DecompositionUnique(s[1..], gaps', names);
    ScanStep(s);
    assert gaps[0] == [gaps[0][0]] + gaps[0][1..];
    assert gaps == [[s[0]] + gaps'[0]] + gaps'[1..];
  }

  // ----- how Extract treats newlines -----

  /** A match never crosses a newline, so scanning `a`, a newline and `b`
      finds the matches of `a` followed by those of `b`. */
  lemma {:induction false} ExtractAcrossNewline(a: string, b: string)
    ensures Extract(a + "\n" + b) == Extract(a) + Extract(b)
    decreases |a|
  {
    var s := a + "\n" + b;
    if a == [] {
      assert s[0] == '\n' && s[1..] == b;
    } else {
      assert s[0] == a[0];
      assert s[1..] == a[1..] + "\n" + b;
      if a[0] == '{' {
        CloseAcrossNewline(a[1..], b);
        match CloseIndex(a[1..])
        case Some(j) =>
          assert s[1..j + 1] == a[1..j + 1];
          assert s[j + 2..] == a[j + 2..] + "\n" + b;
          ExtractAcrossNewline(a[j + 2..], b);
        case None =>
          ExtractAcrossNewline(a[1..], b);
      } else {
        ExtractAcrossNewline(a[1..], b);
      }
    }
  }

  // ----- examples of the scan -----

  /** Doubled braces capture the inner opening brace. */
  lemma ExampleDoubledBraces()
    ensures Extract("{{a}}") == ["{a"]
  {
    var s := "{{a}}";
    assert s[1..] == "{a" + "}" + "}";
    CloseAfterName("{a", "}");
    assert s[1..3] == "{a" && s[4..] == "}";
    assert Extract("}") == [];
  }

  /** `{}` captures the empty name. */
  lemma ExampleEmptyName()
    ensures Extract("{}") == [""]
  {
    var s := "{}";
    assert s[1..] == "" + "}" + "";
    CloseAfterName("", "");
    assert s[1..1] == "" && s[2..] == "";
  }

  /** A repeated placeholder is captured each time it occurs. */
  lemma ExampleDuplicates()
    ensures Extract("{a}{a}") == ["a", "a"]
  {
    var s := "{a}{a}";
    assert s[1..] == "a" + "}" + "{a}";
    CloseAfterName("a", "{a}");
    assert s[1..2] == "a" && s[3..] == "{a}";
    var t := "{a}";
    assert t[1..] == "a" + "}" + "";
    CloseAfterName("a", "");
    assert t[1..2] == "a" && t[3..] == "";
  }

  /** A newline between the braces prevents a match. */
  lemma ExampleNewline()
    ensures Extract("{a\n}") == []
  {
    var s := "{a\n}";
    assert s[1..] == "a" + "\n" + "}";
    CloseAcrossNewline("a", "}");
    assert s[1..][1..] == "\n}";
    assert Extract(s[1..]) == Extract("\n}");
    assert "\n}"[1..] == "}";
  }
}
