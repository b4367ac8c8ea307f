/**
 * The template renderer (`fillTemplate`): six ordered replace-all passes over
 * the raw prompt text. The three "As a {{profession}} ..." forms are matched
 * case-insensitively and collapse to a fixed back-reference phrase; the exact
 * `{{name}}`, `{{profession}}` and `{{curiosity}}` tokens then fall back to
 * the learner's name or to fixed text.
 *
 * A regular expression is modelled as a sequence of atoms. `String.replace`
 * with the `g` flag scans left to right, replaces the leftmost match and
 * resumes after it; `ReplaceAll` does exactly that.
 */
module Template {
  import opened Wrappers
  import opened Text

  /** One element of a search pattern. */
  datatype Atom =
    | Exact(c: char)   // this character only: a literal of a case-sensitive pattern
    | Fold(c: char)    // this character up to ASCII case: a literal under the `i` flag
    | Blanks           // a maximal run of one or more white-space characters: `\s+`

  type Pattern = seq<Atom>

  /** Whether a single-character atom accepts `x`. */
  predicate Accepts(a: Atom, x: char)
  {
    match a
    case Exact(c) => x == c
    case Fold(c) => Lower(x) == Lower(c)
    case Blanks => IsSpace(x)
  }

  /** The case-sensitive pattern for a literal string. */
  function ExactLit(s: string): (p: Pattern)
    ensures |p| == |s| && forall i :: 0 <= i < |s| ==> p[i] == Exact(s[i])
  {
    seq(|s|, i requires 0 <= i < |s| => Exact(s[i]))
  }

  /** The case-insensitive pattern for a literal string. */
  function FoldLit(s: string): (p: Pattern)
    ensures |p| == |s| && forall i :: 0 <= i < |s| ==> p[i] == Fold(s[i])
  {
    seq(|s|, i requires 0 <= i < |s| => Fold(s[i]))
  }

  /** Length of the white-space run that starts `s`. */
  function SpaceRun(s: string): (n: nat)
    ensures n <= |s|
  {
    if s != [] && IsSpace(s[0]) then 1 + SpaceRun(s[1..]) else 0
  }

  /** The run is white space throughout and stops at the first other character. */
  lemma {:induction false} SpaceRunSpaces(s: string)
    ensures forall i :: 0 <= i < SpaceRun(s) ==> IsSpace(s[i])
    ensures SpaceRun(s) < |s| ==> !IsSpace(s[SpaceRun(s)])
  {
    if s != [] && IsSpace(s[0]) {
      SpaceRunSpaces(s[1..]);
      forall i | 0 <= i < SpaceRun(s) ensures IsSpace(s[i]) {
        if i > 0 { assert s[i] == s[1..][i - 1]; }
      }
    }
  }

  function Shift(m: Option<nat>, k: nat): Option<nat>
  {
    if m.Some? then Some(m.value + k) else None
  }

  /**
   * The length of the match of `p` at the start of `s`, if any. `Blanks`
   * takes the whole white-space run; in every pattern of the renderer it is
   * followed by a letter, so a backtracking matcher finds the same match.
   */
  function MatchPrefix(s: string, p: Pattern): (m: Option<nat>)
    ensures m.Some? ==> m.value <= |s|
    ensures m.Some? && p != [] ==> 0 < m.value
    decreases |p|
  {
    if p == [] then Some(0)
    else if p[0] == Blanks then
      var w := SpaceRun(s);
      if w == 0 then None else Shift(MatchPrefix(s[w..], p[1..]), w)
    else if s != [] && Accepts(p[0], s[0]) then Shift(MatchPrefix(s[1..], p[1..]), 1)
    else None
  }

  /** `s.replace(/p/g, r)` with `r` inserted literally. */
  function ReplaceAll(s: string, p: Pattern, r: string): string
    requires p != []
    decreases |s|
  {
    if s == [] then []
    else
      var m := MatchPrefix(s, p);
      if m.Some? then r + ReplaceAll(s[m.value..], p, r)
      else [s[0]] + ReplaceAll(s[1..], p, r)
  }

  const Collapsed := "Given what you know about me"
  const DefaultName := "the learner"
  const ProfessionFallback := "someone in my position"
  const CuriosityFallback := "the topics I care about"

  const AsAText := "As a "
  const ProfessionText := "{{profession}}"
  const CuriosityText := "{{curiosity}}"
  const WhoText := "who is curious about "
  const CuriousText := "curious about "

  /** `/As a \{\{profession\}\}\s+who is curious about \{\{curiosity\}\}/gi` */
  const LongForm: Pattern :=
    FoldLit(AsAText) + FoldLit(ProfessionText) + [Blanks] + FoldLit(WhoText) + FoldLit(CuriosityText)
  /** `/As a \{\{profession\}\}\s+curious about \{\{curiosity\}\}/gi` */
  const ShortForm: Pattern :=
    FoldLit(AsAText) + FoldLit(ProfessionText) + [Blanks] + FoldLit(CuriousText) + FoldLit(CuriosityText)
  /** `/As a \{\{profession\}\}/gi` */
  const BareForm: Pattern := FoldLit(AsAText) + FoldLit(ProfessionText)
  /** `/\{\{name\}\}/g`, `/\{\{profession\}\}/g` and `/\{\{curiosity\}\}/g` */
  const NameToken: Pattern := ExactLit("{{name}}")
  const ProfessionToken: Pattern := ExactLit(ProfessionText)
  const CuriosityToken: Pattern := ExactLit(CuriosityText)
  /** `{{profession}}` up to ASCII case: what the collapse forms look for. */
  const ProfessionFold: Pattern := FoldLit(ProfessionText)

  /** `intake.name || 'the learner'` */
  function LearnerName(name: string): string
  {
    if name == [] then DefaultName else name
  }

  /**
   * `fillTemplate(template)` for a learner called `name`. Every form and
   * token the passes look for holds a brace, so a template without braces
   * is returned as it is.
   */
  function FillTemplate(template: string, name: string): (r: string)
    ensures '{' !in template ==> r == template
  {
    var text1 := ReplaceAll(template, LongForm, Collapsed);
    var text2 := ReplaceAll(text1, ShortForm, Collapsed);
    var text3 := ReplaceAll(text2, BareForm, Collapsed);
    var text4 := ReplaceAll(text3, NameToken, LearnerName(name));
    var text5 := ReplaceAll(text4, ProfessionToken, ProfessionFallback);
    assert '{' !in template ==> text5 == template && ReplaceAll(text5, CuriosityToken, CuriosityFallback) == template by {
      if '{' !in template {
        BraceFreeUntouched(template, name);
      }
    }
    ReplaceAll(text5, CuriosityToken, CuriosityFallback)
  }

  // ---------------------------------------------------------------------
  // Matching facts

  /** `a` accepts the character `c` and nothing else. */
  predicate OnlyAccepts(a: Atom, c: char)
  {
    a == Exact(c) || (a == Fold(c) && !IsLetter(c))
  }

  lemma AcceptsOnly(a: Atom, c: char, x: char)
    requires OnlyAccepts(a, c) && Accepts(a, x)
    ensures x == c
  {
  }

  /** No character of `s` is accepted by the atom `a`. */
  predicate Refuses(s: string, a: Atom)
  {
    forall k | 0 <= k < |s| :: !Accepts(a, s[k])
  }

  /** A match of `p` needs a character for each of its single-character atoms. */
  lemma {:induction false} MatchNeedsAtom(s: string, p: Pattern, j: nat)
    requires j < |p| && p[j] != Blanks && Refuses(s, p[j])
    ensures MatchPrefix(s, p).None?
    decreases |p|
  {
    if j > 0 && s != [] {
      var w := if p[0] == Blanks then SpaceRun(s) else 1;
      if w > 0 {
        MatchNeedsAtom(s[w..], p[1..], j - 1);
      }
    }
  }

  /** A pass whose pattern needs a character the text lacks changes nothing. */
  lemma {:induction false} UntouchedRefused(s: string, p: Pattern, r: string, j: nat)
    requires j < |p| && p[j] != Blanks && Refuses(s, p[j])
    ensures ReplaceAll(s, p, r) == s
    decreases |s|
  {
    if s != [] {
      MatchNeedsAtom(s, p, j);
      UntouchedRefused(s[1..], p, r, j);
    }
  }

  /** In particular, a pass whose pattern insists on a character absent from the text changes nothing. */
  lemma UntouchedWithout(s: string, p: Pattern, r: string, j: nat, c: char)
    requires j < |p| && OnlyAccepts(p[j], c) && c !in s
    ensures ReplaceAll(s, p, r) == s
  {
    forall k | 0 <= k < |s| ensures !Accepts(p[j], s[k]) {
      if Accepts(p[j], s[k]) {
        AcceptsOnly(p[j], c, s[k]);
      }
    }
    UntouchedRefused(s, p, r, j);
  }

  /** How many characters the atom `a` takes at the start of `s`; 0 when it fails. */
  function Lead(s: string, a: Atom): (w: nat)
    ensures w <= |s|
  {
    if a == Blanks then SpaceRun(s) else if s != [] && Accepts(a, s[0]) then 1 else 0
  }

  /** A non-empty pattern matches by its first atom, then the rest. */
  lemma MatchPrefixLead(s: string, p: Pattern)
    requires p != []
    ensures var w := Lead(s, p[0]);
            MatchPrefix(s, p) == if w == 0 then None else Shift(MatchPrefix(s[w..], p[1..]), w)
  {
  }

  /**
   * A case-insensitive literal is matched by any spelling of it up to case,
   * and the rest of the pattern then goes on after it.
   */
  lemma {:induction false} FoldLitThen(v: string, x: string, y: string, b: Pattern)
    requires SameUpToCase(v, x)
    ensures MatchPrefix(v + y, FoldLit(x) + b) == Shift(MatchPrefix(y, b), |x|)
    decreases |x|
  {
    if x == [] {
      assert v + y == y && FoldLit(x) + b == b;
    } else {
      var p := FoldLit(x) + b;
      assert p[0] == Fold(x[0]) && p[1..] == FoldLit(x[1..]) + b;
      assert (v + y)[0] == v[0] && (v + y)[1..] == v[1..] + y;
      assert Lower(v[0]) == Lower(x[0]);
      forall i | 0 <= i < |x| - 1 ensures Lower(v[1..][i]) == Lower(x[1..][i]) {
        assert v[1..][i] == v[i + 1] && x[1..][i] == x[i + 1];
      }
      FoldLitThen(v[1..], x[1..], y, b);
    }
  }

  /** A character equal up to case to a letter is a letter too, never white space. */
  lemma LetterNotSpace(y: char, x: char)
    requires IsLetter(x) && Lower(y) == Lower(x)
    ensures !IsSpace(y)
  {
  }

  lemma {:induction false} SpaceRunOfBlank(gap: string, rest: string)
    requires IsBlank(gap) && (rest == [] || !IsSpace(rest[0]))
    ensures SpaceRun(gap + rest) == |gap|
  {
    if gap == [] {
      assert gap + rest == rest;
    } else {
      assert (gap + rest)[1..] == gap[1..] + rest;
      SpaceRunOfBlank(gap[1..], rest);
    }
  }

  /** `\s+` takes a whole non-empty run of white space, and the rest of the pattern goes on after it. */
  lemma BlanksThen(gap: string, rest: string, b: Pattern)
    requires gap != [] && IsBlank(gap) && rest != [] && !IsSpace(rest[0])
    ensures MatchPrefix(gap + rest, [Blanks] + b) == Shift(MatchPrefix(rest, b), |gap|)
  {
    SpaceRunOfBlank(gap, rest);
    MatchPrefixLead(gap + rest, [Blanks] + b);
    assert ([Blanks] + b)[1..] == b;
    assert (gap + rest)[|gap|..] == rest;
  }

  /**
   * The head `x1 x2 \s+` of a collapse form (each literal case-insensitive)
   * takes a spelling of each literal and a non-empty white-space run; the
   * rest of the form goes on from the first character after the run.
   */
  lemma FormPrefix(v1: string, v2: string, gap: string, rest: string, x1: string, x2: string, after: Pattern)
    requires SameUpToCase(v1, x1) && SameUpToCase(v2, x2)
    requires gap != [] && IsBlank(gap) && rest != [] && !IsSpace(rest[0])
    ensures MatchPrefix(v1 + (v2 + (gap + rest)), FoldLit(x1) + (FoldLit(x2) + ([Blanks] + after)))
            == Shift(Shift(Shift(MatchPrefix(rest, after), |gap|), |x2|), |x1|)
  {
    BlanksThen(gap, rest, after);
    FoldLitThen(v2, x2, gap + rest, [Blanks] + after);
    FoldLitThen(v1, x1, v2 + (gap + rest), FoldLit(x2) + ([Blanks] + after));
  }

  /** Two case-insensitive literals in a row match spellings of the two in a row, whatever follows. */
  lemma LiteralPair(v3: string, v4: string, x3: string, x4: string, tail: string)
    requires SameUpToCase(v3, x3) && SameUpToCase(v4, x4)
    ensures MatchPrefix(v3 + (v4 + tail), FoldLit(x3) + FoldLit(x4)) == Some(|x3| + |x4|)
  {
    FoldLitThen(v4, x4, tail, []);
    assert FoldLit(x4) + [] == FoldLit(x4);
    FoldLitThen(v3, x3, v4 + tail, FoldLit(x4));
  }

  /**
   * The long collapse form matches "As a {{profession}}", any non-empty run of
   * white space, then "who is curious about {{curiosity}}", each written in
   * any mix of case, whatever follows.
   */
  lemma LongFormMatches(a: string, p: string, gap: string, w: string, c: string, tail: string)
    requires SameUpToCase(a, AsAText) && SameUpToCase(p, ProfessionText)
    requires gap != [] && IsBlank(gap)
    requires SameUpToCase(w, WhoText) && SameUpToCase(c, CuriosityText)
    ensures var head := a + p + gap + w + c;
            MatchPrefix(head + tail, LongForm) == Some(|head|)
  {
    var after := FoldLit(WhoText) + FoldLit(CuriosityText);
    var tailL, tailS := FormShapes();
    Nest6(a, p, gap, w, c, tail);
    LiteralPair(w, c, WhoText, CuriosityText, tail);
    LetterNotSpace(w[0], WhoText[0]);
    FormPrefix(a, p, gap, w + (c + tail), AsAText, ProfessionText, after);
  }

  /**
   * A prompt holding the long form, in any case and with any run of white
   * space, after text without placeholders and before text without
   * placeholders, renders as that first text, the back-reference phrase and
   * that last text, for every learner: no form starts inside the first text,
   * and the other five rewrites leave the result alone.
   */
  lemma LongFormCollapses(pre: string, a: string, p: string, gap: string, w: string, c: string, tail: string, name: string)
    requires '{' !in pre
    requires SameUpToCase(a, AsAText) && SameUpToCase(p, ProfessionText)
    requires gap != [] && IsBlank(gap)
    requires SameUpToCase(w, WhoText) && SameUpToCase(c, CuriosityText)
    requires '{' !in tail
    ensures FillTemplate(pre + a + p + gap + w + c + tail, name) == pre + Collapsed + tail
  {
    var head := a + p + gap + w + c;
    var s := head + tail;
    Nest7(pre, a, p, gap, w, c, tail);
    assert s[..|AsAText|] == a;
    FormsScanBefore(pre, s);
    LongFormMatches(a, p, gap, w, c, tail);
    UntouchedWithout(tail, LongForm, Collapsed, 5, '{');
    assert s[|head|..] == tail;
    assert ReplaceAll(s, LongForm, Collapsed) == Collapsed + tail;
    Nest3(pre, Collapsed, tail);
    assert ReplaceAll(pre + s, LongForm, Collapsed) == pre + Collapsed + tail;
    AfterCollapse(pre, tail, name);
  }

  lemma Nest7<T>(pre: seq<T>, a: seq<T>, b: seq<T>, c: seq<T>, d: seq<T>, e: seq<T>, f: seq<T>)
    ensures pre + a + b + c + d + e + f == pre + (a + b + c + d + e + f)
  {
  }

  lemma Nest4<T>(pre: seq<T>, a: seq<T>, b: seq<T>, c: seq<T>)
    ensures pre + a + b + c == pre + (a + b + c)
  {
  }

  lemma Nest3<T>(a: seq<T>, b: seq<T>, c: seq<T>)
    ensures a + (b + c) == a + b + c
  {
  }

  /** The worked example of a learner called Asha. */
  lemma Scenario()
    ensures FillTemplate("As a " + "{{profession}}" + " " + "who is curious about " + "{{curiosity}}"
                         + ", what should I watch for?", "Asha")
            == "Given what you know about me" + ", what should I watch for?"
  {
    var e: string := [];
    assert IsSpace(" "[0]);
    assert e + AsAText == AsAText && e + Collapsed == Collapsed;
    LongFormCollapses(e, AsAText, ProfessionText, " ", WhoText, CuriosityText, ", what should I watch for?", "Asha");
  }

  /** The `i` flag at work: the long form in another case, across a line break, collapses too. */
  lemma ScenarioAnyCase()
    ensures FillTemplate("as A " + "{{PROFESSION}}" + "\n  " + "Who Is Curious About " + "{{Curiosity}}" + "?", "Asha")
            == "Given what you know about me" + "?"
  {
    var gap := "\n  ";
    assert IsSpace(gap[0]) && IsSpace(gap[1]) && IsSpace(gap[2]);
    var e: string := [];
    ExampleSpellings();
    assert e + "as A " == "as A " && e + Collapsed == Collapsed;
    LongFormCollapses(e, "as A ", "{{PROFESSION}}", gap, "Who Is Curious About ", "{{Curiosity}}", "?", "Asha");
  }

  lemma ExampleSpellings()
    ensures SameUpToCase("as A ", AsAText) && SameUpToCase("{{PROFESSION}}", ProfessionText)
    ensures SameUpToCase("Who Is Curious About ", WhoText) && SameUpToCase("{{Curiosity}}", CuriosityText)
  {
    WhoSpelling();
  }

  lemma WhoSpelling()
    ensures SameUpToCase("Who Is Curious About ", WhoText)
  {
  }

  // ---------------------------------------------------------------------
  // Placeholders left in the output

  /** `w` is matched, character by character, by the fixed-width pattern `q`. */
  predicate FixedMatch(w: string, q: Pattern)
  {
    |w| == |q| && forall i :: 0 <= i < |q| ==> Accepts(q[i], w[i])
  }

  predicate OccursAt(s: string, q: Pattern, k: int)
  {
    0 <= k && k + |q| <= |s| && FixedMatch(s[k..k + |q|], q)
  }

  /** A placeholder-shaped pattern: fixed width, opening with '{' and closing with '}'. */
  predicate Delimited(q: Pattern)
  {
    && 2 <= |q|
    && (forall i :: 0 <= i < |q| ==> q[i] != Blanks)
    && OnlyAccepts(q[0], '{')
    && OnlyAccepts(q[|q| - 1], '}')
  }

  /**
   * Replacement text that cannot help form an occurrence of `q`: it has no
   * braces, and no stretch of `q` accepts all of it.
   */
  predicate Inert(r: string, q: Pattern)
  {
    && '{' !in r
    && '}' !in r
    && forall j | 0 <= j <= |q| - |r| :: !FitsAt(r, q, j)
  }

  /** The stretch of `q` starting at `j` accepts all of `r`. */
  predicate FitsAt(r: string, q: Pattern, j: int)
  {
    0 <= j && j + |r| <= |q| && FixedMatch(r, q[j..j + |r|])
  }

  /** `w` is the slice of `s` that starts at `i`. */
  predicate SliceAt(s: string, i: int, w: string)
  {
    0 <= i && i + |w| <= |s| && s[i..i + |w|] == w
  }

  lemma EndsAreBraces(q: Pattern, w: string)
    requires Delimited(q) && FixedMatch(w, q)
    ensures w[0] == '{' && w[|w| - 1] == '}'
  {
    AcceptsOnly(q[0], '{', w[0]);
    AcceptsOnly(q[|q| - 1], '}', w[|w| - 1]);
  }

  /** A fixed match splits into its first character and the rest. */
  lemma FixedMatchCons(w: string, q: Pattern)
    requires |w| == |q| && q != []
    ensures FixedMatch(w, q) <==> Accepts(q[0], w[0]) && FixedMatch(w[1..], q[1..])
  {
    if Accepts(q[0], w[0]) && FixedMatch(w[1..], q[1..]) {
      forall i | 0 <= i < |q| ensures Accepts(q[i], w[i]) {
        if i > 0 {
          assert w[i] == w[1..][i - 1] && q[i] == q[1..][i - 1];
        }
      }
    }
    if FixedMatch(w, q) {
      forall i | 0 <= i < |q| - 1 ensures Accepts(q[1..][i], w[1..][i]) {
        assert w[1..][i] == w[i + 1] && q[1..][i] == q[i + 1];
      }
    }
  }

  /** A fixed-width pattern matches a prefix exactly when its characters line up. */
  lemma {:induction false} FixedMatchPrefix(s: string, q: Pattern)
    requires forall i :: 0 <= i < |q| ==> q[i] != Blanks
    ensures MatchPrefix(s, q) == if |q| <= |s| && FixedMatch(s[..|q|], q) then Some(|q|) else None
    decreases |q|
  {
    if q != [] && s != [] {
      assert q[0] != Blanks;
      FixedMatchPrefix(s[1..], q[1..]);
      if |q| <= |s| {
        assert s[..|q|][1..] == s[1..][..|q| - 1];
        FixedMatchCons(s[..|q|], q);
      }
    }
  }

  /**
   * If the output of a pass starts with the tail `w` of an occurrence of `q`
   * (all of it but the opening character), the input started with `w` too.
   */
  lemma {:induction false} TailSurvives(s: string, p: Pattern, r: string, q: Pattern, j: nat, w: string)
    requires p != [] && Delimited(q) && Inert(r, q)
    requires 1 <= j < |q| && FixedMatch(w, q[j..])
    requires |w| <= |ReplaceAll(s, p, r)| && ReplaceAll(s, p, r)[..|w|] == w
    ensures |w| <= |s| && s[..|w|] == w
    decreases |s|
  {
    var out := ReplaceAll(s, p, r);
    AcceptsOnly(q[|q| - 1], '}', w[|w| - 1]);
    if s != [] {
      var m := MatchPrefix(s, p);
      if m.Some? {
        assert out == r + ReplaceAll(s[m.value..], p, r);
        assert w[|w| - 1] == out[|w| - 1];
        assert |r| < |w|;
        assert FitsAt(r, q, j) by {
          forall i | 0 <= i < |r| ensures Accepts(q[j..j + |r|][i], r[i]) {
            assert r[i] == w[i];
          }
        }
      } else {
        var t := ReplaceAll(s[1..], p, r);
        assert out == [s[0]] + t;
        if |w| > 1 {
          assert t[..|w| - 1] == w[1..];
          TailSurvives(s[1..], p, r, q, j + 1, w[1..]);
        }
      }
    }
  }

  /** A brace in `pre + t` lies beyond a brace-free `pre`. */
  lemma BraceBeyond(pre: string, t: string, k: nat)
    requires '{' !in pre && k < |pre + t| && (pre + t)[k] == '{'
    ensures |pre| <= k
  {
    forall j | 0 <= j < |pre| ensures (pre + t)[j] != '{' {
      assert (pre + t)[j] == pre[j];
    }
  }

  /** A window of `pre + t` past `pre` is a window of `t`. */
  lemma WindowPast(pre: string, t: string, k: nat, n: nat)
    requires |pre| <= k && k + n <= |pre + t|
    ensures (pre + t)[k..k + n] == t[k - |pre|..k - |pre| + n]
  {
  }

  /** A slice of a suffix of `s` is a slice of `s`. */
  lemma SliceOfSuffix(s: string, d: nat, i: nat, w: string)
    requires d <= |s| && SliceAt(s[d..], i, w)
    ensures SliceAt(s, d + i, w)
  {
    assert s[d + i..d + i + |w|] == s[d..][i..i + |w|];
  }

  /** A window at the very start of an unmatched position's output is a prefix of the input. */
  lemma {:induction false} WindowAtStart(s: string, p: Pattern, r: string, q: Pattern)
    requires p != [] && s != [] && Delimited(q) && Inert(r, q)
    requires MatchPrefix(s, p).None? && OccursAt(ReplaceAll(s, p, r), q, 0)
    ensures SliceAt(s, 0, ReplaceAll(s, p, r)[..|q|])
  {
    var t := ReplaceAll(s[1..], p, r);
    var win := ReplaceAll(s, p, r)[..|q|];
    assert win == ([s[0]] + t)[..|q|];
    assert win[0] == s[0] && t[..|q| - 1] == win[1..];
    assert FixedMatch(win[1..], q[1..]) by {
      assert FixedMatch(win, q) by { assert win == ReplaceAll(s, p, r)[0..0 + |q|]; }
      forall i | 0 <= i < |q| - 1 ensures Accepts(q[1..][i], win[1..][i]) {
        assert win[1..][i] == win[i + 1];
      }
    }
    TailSurvives(s[1..], p, r, q, 1, win[1..]);
    assert s[0..|q|] == [s[0]] + s[1..][..|q| - 1];
  }

  /** `WindowSurvives` where the pass replaces a match at the start of `s`. */
  lemma {:induction false} WindowAfterMatch(s: string, p: Pattern, r: string, q: Pattern, k: nat) returns (i: nat)
    requires p != [] && Delimited(q) && Inert(r, q) && MatchPrefix(s, p).Some?
    requires OccursAt(ReplaceAll(s, p, r), q, k)
    ensures SliceAt(s, i, ReplaceAll(s, p, r)[k..k + |q|])
    decreases |s|, 0
  {
    var d := MatchPrefix(s, p).value;
    var t := ReplaceAll(s[d..], p, r);
    var win := ReplaceAll(s, p, r)[k..k + |q|];
    assert ReplaceAll(s, p, r) == r + t;
    EndsAreBraces(q, win);
    BraceBeyond(r, t, k);
    WindowPast(r, t, k, |q|);
    var i' := WindowSurvives(s[d..], p, r, q, k - |r|);
    SliceOfSuffix(s, d, i', win);
    i := d + i';
  }

  /** Every occurrence of `q` in the output of a pass is a copy of one in its input. */
  lemma {:induction false} WindowSurvives(s: string, p: Pattern, r: string, q: Pattern, k: nat) returns (i: nat)
    requires p != [] && Delimited(q) && Inert(r, q)
    requires OccursAt(ReplaceAll(s, p, r), q, k)
    ensures SliceAt(s, i, ReplaceAll(s, p, r)[k..k + |q|])
    decreases |s|, 1
  {
    var out := ReplaceAll(s, p, r);
    var win := out[k..k + |q|];
    var m := MatchPrefix(s, p);
    if m.Some? {
      i := WindowAfterMatch(s, p, r, q, k);
    } else if k == 0 {
      WindowAtStart(s, p, r, q);
      i := 0;
    } else {
      var t := ReplaceAll(s[1..], p, r);
      assert out == [s[0]] + t;
      WindowPast([s[0]], t, k, |q|);
      var i' := WindowSurvives(s[1..], p, r, q, k - 1);
      SliceOfSuffix(s, 1, i', win);
      i := 1 + i';
    }
  }

  /** Replacing every `q` by inert text leaves no `q` behind. */
  lemma {:induction false} ReplacedAway(s: string, q: Pattern, r: string, k: int)
    requires Delimited(q) && Inert(r, q)
    ensures !OccursAt(ReplaceAll(s, q, r), q, k)
    decreases |s|
  {
    if OccursAt(ReplaceAll(s, q, r), q, k) {
      ReplacedAwayStep(s, q, r, k);
    }
  }

  lemma {:induction false} ReplacedAwayStep(s: string, q: Pattern, r: string, k: nat)
    requires Delimited(q) && Inert(r, q)
    requires OccursAt(ReplaceAll(s, q, r), q, k)
    ensures false
    decreases |s|, 1
  {
    if MatchPrefix(s, q).Some? {
      ReplacedAwayAfterMatch(s, q, r, k);
    } else if k == 0 {
      var win := ReplaceAll(s, q, r)[..|q|];
      WindowAtStart(s, q, r, q);
      assert s[..|q|] == win;
      FixedMatchPrefix(s, q);
    } else {
      var t := ReplaceAll(s[1..], q, r);
      assert ReplaceAll(s, q, r) == [s[0]] + t;
      WindowPast([s[0]], t, k, |q|);
      ReplacedAwayStep(s[1..], q, r, k - 1);
    }
  }

  /** `ReplacedAwayStep` where the pass replaces a match at the start of `s`. */
  lemma {:induction false} ReplacedAwayAfterMatch(s: string, q: Pattern, r: string, k: nat)
    requires Delimited(q) && Inert(r, q) && MatchPrefix(s, q).Some?
    requires OccursAt(ReplaceAll(s, q, r), q, k)
    ensures false
    decreases |s|, 0
  {
    var d := MatchPrefix(s, q).value;
    var t := ReplaceAll(s[d..], q, r);
    var win := ReplaceAll(s, q, r)[k..k + |q|];
    assert ReplaceAll(s, q, r) == r + t;
    EndsAreBraces(q, win);
    BraceBeyond(r, t, k);
    WindowPast(r, t, k, |q|);
    ReplacedAwayStep(s[d..], q, r, k - |r|);
  }

  /** An occurrence of `q` in the output of a pass is an occurrence in its input. */
  lemma OccurrenceSurvives(s: string, p: Pattern, r: string, q: Pattern, k: nat) returns (i: nat)
    requires p != [] && Delimited(q) && Inert(r, q)
    requires OccursAt(ReplaceAll(s, p, r), q, k)
    ensures OccursAt(s, q, i) && s[i..i + |q|] == ReplaceAll(s, p, r)[k..k + |q|]
  {
    i := WindowSurvives(s, p, r, q, k);
  }

  /** An occurrence of `q` missing from the input of a pass is missing from its output. */
  lemma StaysAbsentAt(s: string, p: Pattern, r: string, q: Pattern, k: int)
    requires p != [] && Delimited(q) && Inert(r, q)
    requires forall i :: !OccursAt(s, q, i)
    ensures !OccursAt(ReplaceAll(s, p, r), q, k)
  {
    if OccursAt(ReplaceAll(s, p, r), q, k) {
      var i := OccurrenceSurvives(s, p, r, q, k);
    }
  }

  /** A pass never creates an occurrence of `q` when its replacement is inert for `q`. */
  lemma StaysAbsent(s: string, p: Pattern, r: string, q: Pattern)
    requires p != [] && Delimited(q) && Inert(r, q)
    requires forall k :: !OccursAt(s, q, k)
    ensures forall k :: !OccursAt(ReplaceAll(s, p, r), q, k)
  {
    forall k ensures !OccursAt(ReplaceAll(s, p, r), q, k) {
      StaysAbsentAt(s, p, r, q, k);
    }
  }

  /** No exact `{{name}}`, `{{profession}}` or `{{curiosity}}` token is present. */
  ghost predicate Settled(s: string)
  {
    forall k :: !OccursAt(s, NameToken, k) && !OccursAt(s, ProfessionToken, k) && !OccursAt(s, CuriosityToken, k)
  }

  /** The exact tokens, and "{{profession}}" in any case, are placeholder-shaped. */
  lemma TokensDelimited()
    ensures Delimited(NameToken) && Delimited(ProfessionToken) && Delimited(CuriosityToken)
    ensures Delimited(ProfessionFold)
  {
  }

  /** A brace-free text longer than a pattern completes none of it. */
  lemma LongTextInert(r: string, q: Pattern)
    requires |q| < |r| && '{' !in r && '}' !in r
    ensures Inert(r, q)
  {
  }

  lemma BraceFree(r: string)
    requires forall i | 0 <= i < |r| :: r[i] != '{' && r[i] != '}'
    ensures '{' !in r && '}' !in r
  {
  }

  /** The fixed replacement texts are longer than any token and brace-free, so they complete none. */
  lemma FallbacksInert()
    ensures Inert(ProfessionFallback, NameToken) && Inert(ProfessionFallback, ProfessionToken)
    ensures Inert(CuriosityFallback, NameToken) && Inert(CuriosityFallback, ProfessionToken)
    ensures Inert(CuriosityFallback, CuriosityToken)
    ensures Inert(Collapsed, ProfessionFold) && Inert(ProfessionFallback, ProfessionFold)
    ensures Inert(CuriosityFallback, ProfessionFold)
  {
    BraceFree(ProfessionFallback);
    BraceFree(CuriosityFallback);
    BraceFree(Collapsed);
    LongTextInert(ProfessionFallback, NameToken);
    LongTextInert(ProfessionFallback, ProfessionToken);
    LongTextInert(ProfessionFallback, ProfessionFold);
    LongTextInert(CuriosityFallback, NameToken);
    LongTextInert(CuriosityFallback, ProfessionToken);
    LongTextInert(CuriosityFallback, CuriosityToken);
    LongTextInert(CuriosityFallback, ProfessionFold);
    LongTextInert(Collapsed, ProfessionFold);
  }

  /**
   * The safety net works: when the learner's name cannot itself complete a
   * `{{name}}` token (it has no braces and is not a piece of the word
   * "name"), no exact placeholder token is left in the rendered prompt,
   * whatever the template.
   */
  lemma NoPlaceholderLeft(t: string, name: string)
    requires Inert(LearnerName(name), NameToken)
    ensures Settled(FillTemplate(t, name))
  {
    var text1 := ReplaceAll(t, LongForm, Collapsed);
    var text2 := ReplaceAll(text1, ShortForm, Collapsed);
    var text3 := ReplaceAll(text2, BareForm, Collapsed);
    var text4 := ReplaceAll(text3, NameToken, LearnerName(name));
    var text5 := ReplaceAll(text4, ProfessionToken, ProfessionFallback);
    var text6 := ReplaceAll(text5, CuriosityToken, CuriosityFallback);
    TokensDelimited();
    FallbacksInert();
    forall k ensures !OccursAt(text4, NameToken, k) {
      ReplacedAway(text3, NameToken, LearnerName(name), k);
    }
    forall k ensures !OccursAt(text5, ProfessionToken, k) {
      ReplacedAway(text4, ProfessionToken, ProfessionFallback, k);
    }
    forall k ensures !OccursAt(text6, CuriosityToken, k) {
      ReplacedAway(text5, CuriosityToken, CuriosityFallback, k);
    }
    StaysAbsent(text4, ProfessionToken, ProfessionFallback, NameToken);
    StaysAbsent(text5, CuriosityToken, CuriosityFallback, NameToken);
    StaysAbsent(text5, CuriosityToken, CuriosityFallback, ProfessionToken);
  }

  /** The letters of the words "name" and "profession". */
  const TokenLetters := "nameprofsi"

  /**
   * A brace-free name with one character outside the letters of "name" and
   * "profession" (in either case) can complete neither token: for instance
   * "Asha", whose 'h' is such a character.
   */
  lemma PlainNameInert(name: string, i: nat)
    requires '{' !in name && '}' !in name
    requires i < |name| && Lower(name[i]) !in TokenLetters
    ensures Inert(name, NameToken) && Inert(name, ProfessionFold)
  {
    TokenTextChars("{{name}}");
    TokenTextChars(ProfessionText);
    forall j | 0 <= j <= |NameToken| - |name| ensures !FitsAt(name, NameToken, j) {
      assert NameToken[j..j + |name|][i] == Exact("{{name}}"[j + i]);
      OutsideToken(name[i], "{{name}}"[j + i]);
    }
    forall j | 0 <= j <= |ProfessionFold| - |name| ensures !FitsAt(name, ProfessionFold, j) {
      assert ProfessionFold[j..j + |name|][i] == Fold(ProfessionText[j + i]);
      OutsideToken(name[i], ProfessionText[j + i]);
    }
  }

  /** A character of a token: a brace or a letter of "name" or "profession". */
  predicate TokenChar(c: char)
  {
    c == '{' || c == '}' || Lower(c) in TokenLetters
  }

  lemma TokenTextChars(t: string)
    requires t == "{{name}}" || t == ProfessionText
    ensures forall k | 0 <= k < |t| :: TokenChar(t[k])
  {
  }

  /** A character that is no brace and whose lower case is no token letter matches no token character, in any case. */
  lemma OutsideToken(x: char, c: char)
    requires x != '{' && x != '}' && Lower(x) !in TokenLetters && TokenChar(c)
    ensures x != c && Lower(x) != Lower(c)
  {
  }

  /** The default name "the learner" completes no token either. */
  lemma DefaultNameInert()
    ensures Inert(DefaultName, NameToken) && Inert(DefaultName, ProfessionFold)
  {
    assert DefaultName[1] == 'h';
    PlainNameInert(DefaultName, 1);
  }

  // ---------------------------------------------------------------------
  // Rendering twice

  /** A pass that finds no match anywhere changes nothing. */
  lemma {:induction false} NoMatchUntouched(s: string, p: Pattern, r: string)
    requires p != []
    requires forall i | 0 <= i < |s| :: MatchPrefix(s[i..], p).None?
    ensures ReplaceAll(s, p, r) == s
    decreases |s|
  {
    if s != [] {
      assert s[0..] == s;
      forall i | 0 <= i < |s| - 1 ensures MatchPrefix(s[1..][i..], p).None? {
        assert s[1..][i..] == s[i + 1..];
      }
      NoMatchUntouched(s[1..], p, r);
    }
  }

  /** A fixed-width pattern that occurs nowhere changes nothing. */
  lemma AbsentUntouched(s: string, q: Pattern, r: string)
    requires q != [] && forall i :: 0 <= i < |q| ==> q[i] != Blanks
    requires forall k :: !OccursAt(s, q, k)
    ensures ReplaceAll(s, q, r) == s
  {
    forall i | 0 <= i < |s| ensures MatchPrefix(s[i..], q).None? {
      FixedMatchPrefix(s[i..], q);
      if |q| <= |s[i..]| {
        assert s[i..][..|q|] == s[i..i + |q|];
        assert !OccursAt(s, q, i);
      }
    }
    NoMatchUntouched(s, q, r);
  }

  /** A match of a concatenated pattern is a match of its first part followed by one of its second. */
  lemma {:induction false} MatchSplit(s: string, a: Pattern, b: Pattern)
    requires MatchPrefix(s, a + b).Some?
    ensures MatchPrefix(s, a).Some?
    ensures MatchPrefix(s[MatchPrefix(s, a).value..], b).Some?
    decreases |a|
  {
    if a == [] {
      assert a + b == b;
    } else {
      var c := a + b;
      assert c[0] == a[0] && c[1..] == a[1..] + b;
      var w := if a[0] == Blanks then SpaceRun(s) else 1;
      assert MatchPrefix(s, c) == Shift(MatchPrefix(s[w..], a[1..] + b), w);
      MatchSplit(s[w..], a[1..], b);
      var m := MatchPrefix(s[w..], a[1..]).value;
      assert MatchPrefix(s, a) == Some(w + m);
      assert s[w..][m..] == s[w + m..];
    }
  }

  /** A collapse form matches only where "{{profession}}", in some case, follows "As a ". */
  lemma FormNeedsProfession(s: string, form: Pattern, tail: Pattern)
    requires form == FoldLit(AsAText) + (ProfessionFold + tail)
    requires MatchPrefix(s, form).Some?
    ensures OccursAt(s, ProfessionFold, |AsAText|)
  {
    MatchSplit(s, FoldLit(AsAText), ProfessionFold + tail);
    FixedMatchPrefix(s, FoldLit(AsAText));
    var rest := s[|AsAText|..];
    MatchSplit(rest, ProfessionFold, tail);
    FixedMatchPrefix(rest, ProfessionFold);
    assert rest[..|ProfessionFold|] == s[|AsAText|..|AsAText| + |ProfessionFold|];
  }

  /** A collapse pass over text without "{{profession}}" in any case (past its first five characters) changes nothing. */
  lemma FormUntouched(s: string, form: Pattern, tail: Pattern)
    requires form == FoldLit(AsAText) + (ProfessionFold + tail)
    requires forall k :: |AsAText| <= k ==> !OccursAt(s, ProfessionFold, k)
    ensures ReplaceAll(s, form, Collapsed) == s
  {
    forall i | 0 <= i < |s| ensures MatchPrefix(s[i..], form).None? {
      if MatchPrefix(s[i..], form).Some? {
        FormNeedsProfession(s[i..], form, tail);
        var n := |AsAText|;
        assert s[i..][n..n + |ProfessionFold|] == s[i + n..i + n + |ProfessionFold|];
        assert OccursAt(s, ProfessionFold, i + n);
      }
    }
    NoMatchUntouched(s, form, Collapsed);
  }

  /** Without "{{profession}}" in any case (past the first five characters), none of the three collapse forms applies. */
  lemma FormsUntouched(s: string)
    requires forall k :: |AsAText| <= k ==> !OccursAt(s, ProfessionFold, k)
    ensures ReplaceAll(s, LongForm, Collapsed) == s
    ensures ReplaceAll(s, ShortForm, Collapsed) == s
    ensures ReplaceAll(s, BareForm, Collapsed) == s
  {
    var tail, tail' := FormShapes();
    FormUntouched(s, LongForm, tail);
    FormUntouched(s, ShortForm, tail');
    FormUntouched(s, BareForm, []);
  }

  /** Each collapse form is "As a " and "{{profession}}", case-insensitive, then its own rest. */
  lemma FormShapes() returns (tail: Pattern, tail': Pattern)
    ensures tail == [Blanks] + (FoldLit(WhoText) + FoldLit(CuriosityText))
    ensures tail' == [Blanks] + (FoldLit(CuriousText) + FoldLit(CuriosityText))
    ensures LongForm == FoldLit(AsAText) + (ProfessionFold + tail)
    ensures ShortForm == FoldLit(AsAText) + (ProfessionFold + tail')
    ensures BareForm == FoldLit(AsAText) + (ProfessionFold + [])
  {
    tail := [Blanks] + (FoldLit(WhoText) + FoldLit(CuriosityText));
    tail' := [Blanks] + (FoldLit(CuriousText) + FoldLit(CuriosityText));
    Nest5(FoldLit(AsAText), ProfessionFold, [Blanks], FoldLit(WhoText), FoldLit(CuriosityText));
    Nest5(FoldLit(AsAText), ProfessionFold, [Blanks], FoldLit(CuriousText), FoldLit(CuriosityText));
    assert ProfessionFold + [] == ProfessionFold;
  }

  lemma Nest6<T>(a: seq<T>, b: seq<T>, c: seq<T>, d: seq<T>, e: seq<T>, f: seq<T>)
    ensures a + b + c + d + e + f == a + (b + (c + (d + (e + f))))
  {
  }

  lemma Nest5<T>(a: seq<T>, b: seq<T>, c: seq<T>, d: seq<T>, e: seq<T>)
    ensures a + b + c + d + e == a + (b + (c + (d + e)))
  {
  }

  /** Every "{{profession}}" of `s`, in whatever case, is written in lower case. */
  ghost predicate FoldsExact(s: string)
  {
    forall k :: OccursAt(s, ProfessionFold, k) ==> OccursAt(s, ProfessionToken, k)
  }

  lemma FoldsExactStays(s: string, p: Pattern, r: string)
    requires p != [] && Inert(r, ProfessionFold) && FoldsExact(s)
    ensures FoldsExact(ReplaceAll(s, p, r))
  {
    var out := ReplaceAll(s, p, r);
    forall k | OccursAt(out, ProfessionFold, k) ensures OccursAt(out, ProfessionToken, k) {
      var i := OccurrenceSurvives(s, p, r, ProfessionFold, k);
    }
  }

  /** No "{{profession}}" in any case is left by a rendering under the conditions of `Idempotent`. */
  lemma NoProfessionLeft(t: string, name: string)
    requires Inert(LearnerName(name), ProfessionFold) && FoldsExact(t)
    ensures forall k :: !OccursAt(FillTemplate(t, name), ProfessionFold, k)
  {
    var text1 := ReplaceAll(t, LongForm, Collapsed);
    var text2 := ReplaceAll(text1, ShortForm, Collapsed);
    var text3 := ReplaceAll(text2, BareForm, Collapsed);
    var text4 := ReplaceAll(text3, NameToken, LearnerName(name));
    var text5 := ReplaceAll(text4, ProfessionToken, ProfessionFallback);
    TokensDelimited();
    FallbacksInert();
    FoldsExactStays(t, LongForm, Collapsed);
    FoldsExactStays(text1, ShortForm, Collapsed);
    FoldsExactStays(text2, BareForm, Collapsed);
    FoldsExactStays(text3, NameToken, LearnerName(name));
    FoldsExactStays(text4, ProfessionToken, ProfessionFallback);
    forall k ensures !OccursAt(text5, ProfessionToken, k) {
      ReplacedAway(text4, ProfessionToken, ProfessionFallback, k);
    }
    StaysAbsent(text5, CuriosityToken, CuriosityFallback, ProfessionFold);
  }

  /** Text with no placeholder, in any case, is rendered unchanged. */
  lemma SettledUntouched(s: string, name: string)
    requires Settled(s) && forall k :: !OccursAt(s, ProfessionFold, k)
    ensures FillTemplate(s, name) == s
  {
    FormsUntouched(s);
    AbsentUntouched(s, NameToken, LearnerName(name));
    AbsentUntouched(s, ProfessionToken, ProfessionFallback);
    AbsentUntouched(s, CuriosityToken, CuriosityFallback);
  }

  /**
   * Rendering is idempotent when neither the template nor the name can
   * produce a placeholder the first rendering leaves behind: the name cannot
   * complete `{{name}}` or "{{profession}}" in any case, and the template
   * writes every "{{profession}}" in lower case.
   */
  lemma Idempotent(t: string, name: string)
    requires Inert(LearnerName(name), NameToken) && Inert(LearnerName(name), ProfessionFold)
    requires FoldsExact(t)
    ensures FillTemplate(FillTemplate(t, name), name) == FillTemplate(t, name)
  {
    NoPlaceholderLeft(t, name);
    NoProfessionLeft(t, name);
    SettledUntouched(FillTemplate(t, name), name);
  }

  // ---------------------------------------------------------------------
  // The shorter collapse forms and the fallbacks

  /** Text without braces passes all six rewrites untouched: each form and token needs a `{`. */
  lemma BraceFreeUntouched(t: string, name: string)
    requires '{' !in t
    ensures && ReplaceAll(t, LongForm, Collapsed) == t
            && ReplaceAll(t, ShortForm, Collapsed) == t
            && ReplaceAll(t, BareForm, Collapsed) == t
            && ReplaceAll(t, NameToken, LearnerName(name)) == t
            && ReplaceAll(t, ProfessionToken, ProfessionFallback) == t
            && ReplaceAll(t, CuriosityToken, CuriosityFallback) == t
  {
    UntouchedWithout(t, LongForm, Collapsed, 5, '{');
    UntouchedWithout(t, ShortForm, Collapsed, 5, '{');
    UntouchedWithout(t, BareForm, Collapsed, 5, '{');
    UntouchedWithout(t, NameToken, LearnerName(name), 0, '{');
    UntouchedWithout(t, ProfessionToken, ProfessionFallback, 0, '{');
    UntouchedWithout(t, CuriosityToken, CuriosityFallback, 0, '{');
  }

  /** The back-reference phrase between brace-free texts passes every later rewrite untouched. */
  lemma AfterCollapse(pre: string, tail: string, name: string)
    requires '{' !in pre && '{' !in tail
    ensures var t := pre + Collapsed + tail;
            && ReplaceAll(t, ShortForm, Collapsed) == t
            && ReplaceAll(t, BareForm, Collapsed) == t
            && ReplaceAll(t, NameToken, LearnerName(name)) == t
            && ReplaceAll(t, ProfessionToken, ProfessionFallback) == t
            && ReplaceAll(t, CuriosityToken, CuriosityFallback) == t
  {
    assert '{' !in Collapsed;
    assert '{' !in pre + Collapsed + tail;
    BraceFreeUntouched(pre + Collapsed + tail, name);
  }

  /**
   * A prompt holding the shorter form "As a {{profession}} curious about
   * {{curiosity}}" (any case, any run of white space) between texts without
   * placeholders renders as the first text, the back-reference phrase and the
   * last text: the longer form, tried first, finds nothing to take.
   */
  lemma ShortFormCollapses(pre: string, a: string, p: string, gap: string, cu: string, c: string, tail: string, name: string)
    requires '{' !in pre
    requires SameUpToCase(a, AsAText) && SameUpToCase(p, ProfessionText)
    requires gap != [] && IsBlank(gap)
    requires SameUpToCase(cu, CuriousText) && SameUpToCase(c, CuriosityText)
    requires '{' !in tail
    ensures FillTemplate(pre + a + p + gap + cu + c + tail, name) == pre + Collapsed + tail
  {
    var head := a + p + gap + cu + c;
    var s := head + tail;
    Nest7(pre, a, p, gap, cu, c, tail);
    assert s[..|AsAText|] == a;
    FormsScanBefore(pre, s);
    LongFormSkipsShort(a, p, gap, cu, c, tail);
    assert ReplaceAll(pre + s, LongForm, Collapsed) == pre + s;
    ShortFormTaken(a, p, gap, cu, c, tail);
    Nest3(pre, Collapsed, tail);
    assert ReplaceAll(pre + s, ShortForm, Collapsed) == pre + Collapsed + tail;
    AfterCollapse(pre, tail, name);
  }

  /** The shorter form's pass turns the shorter form into the back-reference phrase and keeps the brace-free text after it. */
  lemma ShortFormTaken(a: string, p: string, gap: string, cu: string, c: string, tail: string)
    requires SameUpToCase(a, AsAText) && SameUpToCase(p, ProfessionText)
    requires gap != [] && IsBlank(gap)
    requires SameUpToCase(cu, CuriousText) && SameUpToCase(c, CuriosityText)
    requires '{' !in tail
    ensures ReplaceAll(a + p + gap + cu + c + tail, ShortForm, Collapsed) == Collapsed + tail
  {
    var head := a + p + gap + cu + c;
    ShortFormMatches(a, p, gap, cu, c, tail);
    assert (head + tail)[|head|..] == tail;
    UntouchedWithout(tail, ShortForm, Collapsed, 5, '{');
  }

  /** The longer form does not match the shorter one: "curious" is not "who is". */
  lemma LongFormSkipsShort(a: string, p: string, gap: string, cu: string, c: string, tail: string)
    requires SameUpToCase(a, AsAText) && SameUpToCase(p, ProfessionText)
    requires gap != [] && IsBlank(gap)
    requires SameUpToCase(cu, CuriousText) && SameUpToCase(c, CuriosityText)
    requires '{' !in tail
    ensures var text0 := a + p + gap + cu + c + tail;
            ReplaceAll(text0, LongForm, Collapsed) == text0
  {
    var text0 := a + p + gap + cu + c + tail;
    LongFormMissesShort(a, p, gap, cu, c, tail);
    ClosedAfterHead(gap, cu, c, tail);
    SplitFirst(a + p, gap, cu, c, tail);
    OnlyAtStart(a, p, gap + cu + c + tail);
  }

  lemma SplitFirst<T>(a: seq<T>, b: seq<T>, c: seq<T>, d: seq<T>, e: seq<T>)
    ensures a + b + c + d + e == a + (b + c + d + e)
  {
  }

  /** At its first character, the longer form does not match the shorter one. */
  lemma LongFormMissesShort(a: string, p: string, gap: string, cu: string, c: string, tail: string)
    requires SameUpToCase(a, AsAText) && SameUpToCase(p, ProfessionText)
    requires gap != [] && IsBlank(gap) && SameUpToCase(cu, CuriousText)
    ensures MatchPrefix(a + p + gap + cu + c + tail, LongForm).None?
  {
    var after := FoldLit(WhoText) + FoldLit(CuriosityText);
    var tailL, tailS := FormShapes();
    Nest6(a, p, gap, cu, c, tail);
    LetterNotSpace(cu[0], CuriousText[0]);
    WhoIsNotCurious(cu + (c + tail), after);
    FormPrefix(a, p, gap, cu + (c + tail), AsAText, ProfessionText, after);
  }

  /** "curious" does not start "who is": the case-insensitive 'w' refuses a 'c'. */
  lemma WhoIsNotCurious(s: string, after: Pattern)
    requires s != [] && Lower(s[0]) == 'c' && after != [] && after[0] == Fold('w')
    ensures MatchPrefix(s, after).None?
  {
  }

  /** What follows "{{profession}}" in the shorter form holds no opening of another "{{profession}}". */
  lemma ClosedAfterHead(gap: string, cu: string, c: string, tail: string)
    requires IsBlank(gap) && SameUpToCase(cu, CuriousText) && SameUpToCase(c, CuriosityText)
    requires '{' !in tail
    ensures Closed(gap + cu + c + tail)
  {
    forall k | 0 <= k < |gap| ensures gap[k] != '{' {
      assert IsSpace(gap[k]);
    }
    BraceFreeClosed(gap);
    BraceFreeClosed(tail);
    LiteralsClosed();
    ClosedVariant(cu, CuriousText);
    ClosedVariant(c, CuriosityText);
    ClosedConcat(gap, cu);
    ClosedConcat(gap + cu, c);
    ClosedConcat(gap + cu + c, tail);
  }

  /**
   * The shorter collapse form matches "As a {{profession}}", any non-empty run
   * of white space, then "curious about {{curiosity}}", each written in any
   * mix of case, whatever follows.
   */
  lemma ShortFormMatches(a: string, p: string, gap: string, cu: string, c: string, tail: string)
    requires SameUpToCase(a, AsAText) && SameUpToCase(p, ProfessionText)
    requires gap != [] && IsBlank(gap)
    requires SameUpToCase(cu, CuriousText) && SameUpToCase(c, CuriosityText)
    ensures var head := a + p + gap + cu + c;
            MatchPrefix(head + tail, ShortForm) == Some(|head|)
  {
    var after := FoldLit(CuriousText) + FoldLit(CuriosityText);
    var tailL, tailS := FormShapes();
    Nest6(a, p, gap, cu, c, tail);
    LiteralPair(cu, c, CuriousText, CuriosityText, tail);
    LetterNotSpace(cu[0], CuriousText[0]);
    FormPrefix(a, p, gap, cu + (c + tail), AsAText, ProfessionText, after);
  }

  /**
   * A prompt holding the bare form "As a {{profession}}" (any case) between
   * texts without placeholders renders as the first text, the back-reference
   * phrase and the last text: both longer forms need a second placeholder,
   * which the text lacks.
   */
  lemma BareFormCollapses(pre: string, a: string, p: string, tail: string, name: string)
    requires '{' !in pre
    requires SameUpToCase(a, AsAText) && SameUpToCase(p, ProfessionText)
    requires '{' !in tail
    ensures FillTemplate(pre + a + p + tail, name) == pre + Collapsed + tail
  {
    var text0 := a + p + tail;
    Nest4(pre, a, p, tail);
    assert text0[..|AsAText|] == a;
    FormsScanBefore(pre, text0);
    var tailL, tailS := FormShapes();
    assert tailL[22] == Fold('{') && tailS[15] == Fold('{');
    BraceFreeClosed(tail);
    OnlyAtStart(a, p, tail);
    BareFormMisses(a, p, tail, LongForm, tailL, 22);
    BareFormMisses(a, p, tail, ShortForm, tailS, 15);
    BareFormMatches(a, p, tail);
    UntouchedWithout(tail, BareForm, Collapsed, 5, '{');
    assert ReplaceAll(text0, BareForm, Collapsed) == Collapsed + tail;
    assert ReplaceAll(pre + text0, LongForm, Collapsed) == pre + text0;
    assert ReplaceAll(pre + text0, ShortForm, Collapsed) == pre + text0;
    Nest3(pre, Collapsed, tail);
    assert ReplaceAll(pre + text0, BareForm, Collapsed) == pre + Collapsed + tail;
    AfterCollapse(pre, tail, name);
  }

  /** A form that needs another `{` after "{{profession}}" does not match a bare form followed by brace-free text. */
  lemma BareFormMisses(a: string, p: string, tail: string, form: Pattern, rest: Pattern, j: nat)
    requires SameUpToCase(a, AsAText) && SameUpToCase(p, ProfessionText) && '{' !in tail
    requires form == FoldLit(AsAText) + (ProfessionFold + rest)
    requires j < |rest| && rest[j] == Fold('{')
    ensures MatchPrefix(a + p + tail, form).None?
  {
    forall k | 0 <= k < |tail| ensures !Accepts(Fold('{'), tail[k]) {
      assert tail[k] != '{';
    }
    MatchNeedsAtom(tail, rest, j);
    FoldLitThen(p, ProfessionText, tail, rest);
    FoldLitThen(a, AsAText, p + tail, ProfessionFold + rest);
    assert a + p + tail == a + (p + tail);
  }

  /** The bare form matches "As a {{profession}}", in any case, whatever follows. */
  lemma BareFormMatches(a: string, p: string, tail: string)
    requires SameUpToCase(a, AsAText) && SameUpToCase(p, ProfessionText)
    ensures var text0 := a + p + tail;
            && MatchPrefix(text0, BareForm) == Some(|a| + |p|)
            && text0[|a| + |p|..] == tail
  {
    FoldLitThen(p, ProfessionText, tail, []);
    assert FoldLit(ProfessionText) + [] == FoldLit(ProfessionText);
    FoldLitThen(a, AsAText, p + tail, FoldLit(ProfessionText));
    assert a + p + tail == a + (p + tail);
  }

  /** A pass that does not match at the first character and leaves the rest alone leaves the whole text alone. */
  lemma SkipFirst(s: string, q: Pattern, r: string)
    requires s != [] && q != [] && MatchPrefix(s, q).None? && ReplaceAll(s[1..], q, r) == s[1..]
    ensures ReplaceAll(s, q, r) == s
  {
    assert [s[0]] + s[1..] == s;
  }

  /**
   * No "{{p" (the 'p' in either case) starts anywhere in `s`, and `s` does
   * not end with a brace: no "{{profession}}" in any case can begin inside
   * `s`, nor straddle its end.
   */
  predicate Closed(s: string)
  {
    && (forall l | 0 <= l && l + 2 < |s| :: !(s[l] == '{' && s[l + 1] == '{' && Lower(s[l + 2]) == 'p'))
    && (s != [] ==> s[|s| - 1] != '{')
  }

  lemma BraceFreeClosed(s: string)
    requires '{' !in s
    ensures Closed(s)
  {
  }

  lemma ClosedConcat(x: string, y: string)
    requires Closed(x) && Closed(y)
    ensures Closed(x + y)
  {
    var s := x + y;
    forall l | 0 <= l && l + 2 < |s| ensures !(s[l] == '{' && s[l + 1] == '{' && Lower(s[l + 2]) == 'p') {
      if l + 2 < |x| {
        assert s[l] == x[l] && s[l + 1] == x[l + 1] && s[l + 2] == x[l + 2];
      } else if |x| <= l {
        assert s[l] == y[l - |x|] && s[l + 1] == y[l + 1 - |x|] && s[l + 2] == y[l + 2 - |x|];
      } else if l + 1 == |x| {
        assert s[l] == x[|x| - 1];
      } else {
        assert s[l + 1] == x[|x| - 1];
      }
    }
    if y == [] {
      assert s == x;
    } else {
      assert s[|s| - 1] == y[|y| - 1];
    }
  }

  /** Another spelling up to case of a closed text is closed: braces have no case. */
  lemma ClosedVariant(v: string, x: string)
    requires SameUpToCase(v, x) && Closed(x)
    ensures Closed(v)
  {
    forall i | 0 <= i < |v| ensures v[i] == '{' <==> x[i] == '{' {
      assert Lower(v[i]) == Lower(x[i]);
    }
  }

  /** The literal parts after "{{" in the shorter forms are closed. */
  lemma LiteralsClosed()
    ensures Closed(ProfessionText[1..]) && Closed(CuriousText) && Closed(CuriosityText)
    ensures '{' !in ProfessionText[2..] && '{' !in CuriosityText[2..]
  {
    assert '{' !in ProfessionText[2..];
    assert ProfessionText[1..] == ['{'] + ProfessionText[2..];
    assert '{' !in CuriousText;
    assert '{' !in CuriosityText[2..];
    assert Lower(CuriosityText[2]) == 'c';
  }

  /**
   * A text that opens with "As a {{profession}}" (any case) and goes on with
   * a closed text is left alone by a longer form that does not match at its
   * first character.
   */
  lemma OnlyAtStart(a: string, p: string, rest: string)
    requires SameUpToCase(a, AsAText) && SameUpToCase(p, ProfessionText) && Closed(rest)
    ensures var t := a + p + rest;
            && (MatchPrefix(t, LongForm).None? ==> ReplaceAll(t, LongForm, Collapsed) == t)
            && (MatchPrefix(t, ShortForm).None? ==> ReplaceAll(t, ShortForm, Collapsed) == t)
  {
    var t := a + p + rest;
    PastOpening(a, p, rest);
    if MatchPrefix(t, LongForm).None? {
      SkipFirst(t, LongForm, Collapsed);
    }
    if MatchPrefix(t, ShortForm).None? {
      SkipFirst(t, ShortForm, Collapsed);
    }
  }

  /**
   * Past the first character of a text that opens with "As a
   * {{profession}}" (any case) and goes on with a closed text, none of the
   * three collapse forms finds anything to take.
   */
  lemma PastOpening(a: string, p: string, rest: string)
    requires SameUpToCase(a, AsAText) && SameUpToCase(p, ProfessionText) && Closed(rest)
    ensures var s := (a + p + rest)[1..];
            && ReplaceAll(s, LongForm, Collapsed) == s
            && ReplaceAll(s, ShortForm, Collapsed) == s
            && ReplaceAll(s, BareForm, Collapsed) == s
  {
    var s := (a + p + rest)[1..];
    var t := p[1..] + rest;
    assert s[5..] == t;
    forall i | 0 <= i < |p| - 1 ensures Lower(p[1..][i]) == Lower(ProfessionText[1..][i]) {
      assert p[1..][i] == p[i + 1];
    }
    LiteralsClosed();
    ClosedVariant(p[1..], ProfessionText[1..]);
    ClosedConcat(p[1..], rest);
    forall k | |AsAText| <= k ensures !OccursAt(s, ProfessionFold, k) {
      OccursOpening(s, ProfessionFold, k);
    }
    FormsUntouched(s);
  }

  /** An occurrence of `q` puts characters its first three atoms accept at its first three positions. */
  lemma OccursOpening(s: string, q: Pattern, k: int)
    requires 3 <= |q|
    ensures OccursAt(s, q, k) ==> Accepts(q[0], s[k]) && Accepts(q[1], s[k + 1]) && Accepts(q[2], s[k + 2])
  {
    if OccursAt(s, q, k) {
      OccursChar(s, q, k, 0);
      OccursChar(s, q, k, 1);
      OccursChar(s, q, k, 2);
    }
  }

  /** An occurrence of `q` puts a character each of its atoms accepts at each of its positions. */
  lemma OccursChar(s: string, q: Pattern, k: int, i: nat)
    requires OccursAt(s, q, k) && i < |q|
    ensures Accepts(q[i], s[k + i])
  {
    assert s[k..k + |q|][i] == s[k + i];
  }

  /**
   * In a text whose only braces are its first two characters, a pattern
   * opening with two braces occurs nowhere unless its third atom accepts
   * the third character.
   */
  lemma OpeningOnly(s: string, q: Pattern)
    requires 3 <= |q| && OnlyAccepts(q[0], '{') && OnlyAccepts(q[1], '{')
    requires 3 <= |s| && !Accepts(q[2], s[2]) && forall k | 2 <= k < |s| :: s[k] != '{'
    ensures forall k :: !OccursAt(s, q, k)
  {
    forall k ensures !OccursAt(s, q, k) {
      if 0 <= k && k + |q| <= |s| {
        var w := s[k..k + |q|];
        if k == 0 {
          assert w[2] == s[2];
        } else if k == 1 {
          assert w[1] == s[2];
        } else {
          assert w[0] == s[k];
        }
      }
    }
  }

  lemma LateBracesNoProfession(s: string)
    requires forall k | 2 <= k < |s| :: s[k] != '{'
    ensures forall k :: |AsAText| <= k ==> !OccursAt(s, ProfessionFold, k)
  {
    forall k | |AsAText| <= k && OccursAt(s, ProfessionFold, k) ensures false {
      OccursChar(s, ProfessionFold, k, 0);
    }
  }

  /** A text whose only braces are its first two characters passes the three collapse forms untouched. */
  lemma FormsSkipLateBraces(s: string)
    requires forall k | 2 <= k < |s| :: s[k] != '{'
    ensures ReplaceAll(s, LongForm, Collapsed) == s
    ensures ReplaceAll(s, ShortForm, Collapsed) == s
    ensures ReplaceAll(s, BareForm, Collapsed) == s
  {
    LateBracesNoProfession(s);
    FormsUntouched(s);
  }

  /**
   * `{{name}}` becomes the learner's name, or "the learner" when the name is
   * empty, wherever it stands; a brace-free name and the brace-free texts
   * around it are kept as they are.
   */
  lemma NameFilledIn(pre: string, tail: string, name: string)
    requires '{' !in pre && '{' !in tail && '{' !in name
    ensures FillTemplate(pre + "{{name}}" + tail, name) == pre + LearnerName(name) + tail
    ensures name == [] ==> FillTemplate(pre + "{{name}}" + tail, name) == pre + "the learner" + tail
  {
    var t := pre + "{{name}}" + tail;
    NameClosed();
    ClosedAround(pre, "{{name}}", tail);
    ClosedFormsUntouched(t);
    TokenFilled(pre, "{{name}}", tail, LearnerName(name));
    var text4 := pre + LearnerName(name) + tail;
    assert '{' !in DefaultName;
    assert '{' !in text4;
    UntouchedWithout(text4, ProfessionToken, ProfessionFallback, 0, '{');
    UntouchedWithout(text4, CuriosityToken, CuriosityFallback, 0, '{');
  }

  /**
   * A leftover `{{profession}}`, one the text before it does not complete to
   * "As a {{profession}}" in any case, becomes "someone in my position".
   */
  lemma ProfessionFilledIn(pre: string, tail: string, name: string)
    requires '{' !in pre && !EndsInAsA(pre) && '{' !in tail
    ensures FillTemplate(pre + ProfessionText + tail, name) == pre + ProfessionFallback + tail
  {
    var s := ProfessionText + tail;
    var t := pre + s;
    Nest3(pre, ProfessionText, tail);
    LiteralsClosed();
    LateBraces(ProfessionText, tail);
    FormsSkipLateBraces(s);
    LoneProfession(pre, s);
    FormsScan(pre, s);
    TokensDelimited();
    TokenOpenings();
    assert s[2] == 'p';
    TokenMissed(pre, s, NameToken, LearnerName(name));
    TokenFilled(pre, ProfessionText, tail, ProfessionFallback);
    var text5 := pre + ProfessionFallback + tail;
    assert '{' !in ProfessionFallback;
    assert '{' !in text5;
    UntouchedWithout(text5, CuriosityToken, CuriosityFallback, 0, '{');
  }

  /** `s` ends with "As a " in some case. */
  predicate EndsInAsA(s: string)
  {
    |AsAText| <= |s| && SameUpToCase(s[|s| - |AsAText|..], AsAText)
  }

  /**
   * Before "{{profession}}" and a text whose other braces come later, a
   * brace-free `pre` that does not end with "As a " holds no start of a
   * collapse form.
   */
  lemma LoneProfession(pre: string, s: string)
    requires '{' !in pre && !EndsInAsA(pre)
    requires |ProfessionText| <= |s| && s[..|ProfessionText|] == ProfessionText
    requires forall k | 2 <= k < |s| :: s[k] != '{'
    ensures forall i | 0 <= i < |pre| :: !(OccursAt(pre + s, FoldLit(AsAText), i) && OccursAt(pre + s, ProfessionFold, i + |AsAText|))
  {
    var t := pre + s;
    var n := |AsAText|;
    forall i | 0 <= i < |pre| ensures !(OccursAt(t, FoldLit(AsAText), i) && OccursAt(t, ProfessionFold, i + n)) {
      OccursOpening(t, ProfessionFold, i + n);
      var j := i + n - |pre|;
      if j < 0 {
        assert t[i + n] == pre[i + n];
      } else if j == 0 {
        assert t[i..i + n] == pre[|pre| - n..];
        FixedFoldSame(t[i..i + n], AsAText);
      } else if j == 1 {
        assert s[2] == ProfessionText[2];
        assert t[i + n + 1] == s[2];
      } else {
        assert t[i + n] == s[j];
      }
    }
  }

  /** A text the case-insensitive pattern of a literal matches is a spelling of that literal up to case. */
  lemma FixedFoldSame(w: string, x: string)
    ensures FixedMatch(w, FoldLit(x)) ==> SameUpToCase(w, x)
  {
    if FixedMatch(w, FoldLit(x)) {
      forall i | 0 <= i < |x| ensures Lower(w[i]) == Lower(x[i]) {
        assert Accepts(FoldLit(x)[i], w[i]);
      }
    }
  }

  /** A leftover `{{curiosity}}` becomes "the topics I care about", wherever it stands. */
  lemma CuriosityFilledIn(pre: string, tail: string, name: string)
    requires '{' !in pre && '{' !in tail
    ensures FillTemplate(pre + CuriosityText + tail, name) == pre + CuriosityFallback + tail
  {
    var s := CuriosityText + tail;
    var t := pre + s;
    Nest3(pre, CuriosityText, tail);
    LiteralsClosed();
    ClosedAround(pre, CuriosityText, tail);
    ClosedFormsUntouched(t);
    LateBraces(CuriosityText, tail);
    TokensDelimited();
    TokenOpenings();
    assert s[2] == 'c';
    TokenMissed(pre, s, NameToken, LearnerName(name));
    TokenMissed(pre, s, ProfessionToken, ProfessionFallback);
    TokenFilled(pre, CuriosityText, tail, CuriosityFallback);
  }

  lemma NameClosed()
    ensures Closed("{{name}}")
  {
    assert '{' !in "{{name}}"[2..] && Lower("{{name}}"[2]) == 'n';
  }

  /** A closed text between brace-free texts stays closed. */
  lemma ClosedAround(pre: string, x: string, tail: string)
    requires '{' !in pre && Closed(x) && '{' !in tail
    ensures Closed(pre + x + tail)
  {
    BraceFreeClosed(pre);
    BraceFreeClosed(tail);
    ClosedConcat(pre, x);
    ClosedConcat(pre + x, tail);
  }

  /** The first three atoms of the tokens, and the third character of the placeholders. */
  lemma TokenOpenings()
    ensures |NameToken| == 8 && NameToken[1] == Exact('{') && NameToken[2] == Exact('n')
    ensures |ProfessionToken| == 14 && ProfessionToken[1] == Exact('{') && ProfessionToken[2] == Exact('p')
    ensures |ProfessionText| == 14 && ProfessionText[2] == 'p'
    ensures |CuriosityText| == 13 && CuriosityText[2] == 'c'
  {
  }

  /** A literal whose only braces open it, followed by brace-free text, has no brace past its second character. */
  lemma LateBraces(x: string, tail: string)
    requires 2 <= |x| && '{' !in x[2..] && '{' !in tail
    ensures forall k | 2 <= k < |x + tail| :: (x + tail)[k] != '{'
  {
    forall k | 2 <= k < |x + tail| ensures (x + tail)[k] != '{' {
      if k < |x| {
        assert (x + tail)[k] == x[2..][k - 2];
      } else {
        assert (x + tail)[k] == tail[k - |x|];
      }
    }
  }

  /**
   * A token opening with two braces, whose third atom refuses the third
   * character of `s` (the only braces of which are its first two), finds
   * nothing in `s` nor in a brace-free `pre` before it.
   */
  lemma TokenMissed(pre: string, s: string, q: Pattern, r: string)
    requires Delimited(q) && 3 <= |q| && OnlyAccepts(q[1], '{') && '{' !in pre
    requires 3 <= |s| && !Accepts(q[2], s[2]) && forall k | 2 <= k < |s| :: s[k] != '{'
    ensures ReplaceAll(pre + s, q, r) == pre + s
  {
    OpeningOnly(s, q);
    AbsentUntouched(s, q, r);
    TokenScan(pre, s, q, r);
  }

  /** An exact token between brace-free texts is replaced, and the texts kept. */
  lemma TokenFilled(pre: string, token: string, tail: string, r: string)
    requires token != [] && token[0] == '{' && '{' !in pre && '{' !in tail
    ensures ReplaceAll(pre + token + tail, ExactLit(token), r) == pre + r + tail
  {
    Nest3(pre, token, tail);
    TokenScan(pre, token + tail, ExactLit(token), r);
    TokenHit(token, tail, r);
    Nest3(pre, r, tail);
  }

  /** A closed text passes the three collapse forms untouched. */
  lemma ClosedFormsUntouched(t: string)
    requires Closed(t)
    ensures ReplaceAll(t, LongForm, Collapsed) == t
    ensures ReplaceAll(t, ShortForm, Collapsed) == t
    ensures ReplaceAll(t, BareForm, Collapsed) == t
  {
    forall k | |AsAText| <= k ensures !OccursAt(t, ProfessionFold, k) {
      OccursOpening(t, ProfessionFold, k);
    }
    FormsUntouched(t);
  }

  // ---------------------------------------------------------------------
  // Text before a form or a placeholder

  /** A pass that finds no match starting inside `pre` keeps `pre` and goes on with the text after it. */
  lemma {:induction false} ScanPrefix(pre: string, s: string, q: Pattern, r: string)
    requires q != []
    requires forall i | 0 <= i < |pre| :: MatchPrefix((pre + s)[i..], q).None?
    ensures ReplaceAll(pre + s, q, r) == pre + ReplaceAll(s, q, r)
    decreases |pre|
  {
    var t := pre + s;
    if pre == [] {
      assert t == s;
    } else {
      assert t[0..] == t;
      assert MatchPrefix(t, q).None?;
      var rest := pre[1..] + s;
      assert t[1..] == rest;
      assert ReplaceAll(t, q, r) == [t[0]] + ReplaceAll(rest, q, r);
      forall i | 0 <= i < |pre| - 1 ensures MatchPrefix(rest[i..], q).None? {
        assert rest[i..] == t[i + 1..];
      }
      ScanPrefix(pre[1..], s, q, r);
      Nest3([pre[0]], pre[1..], ReplaceAll(s, q, r));
      assert [pre[0]] + pre[1..] == pre;
    }
  }

  /** A pattern that opens with a brace finds nothing to take inside a brace-free `pre`. */
  lemma TokenScan(pre: string, s: string, q: Pattern, r: string)
    requires q != [] && OnlyAccepts(q[0], '{') && '{' !in pre
    ensures ReplaceAll(pre + s, q, r) == pre + ReplaceAll(s, q, r)
  {
    var t := pre + s;
    forall i | 0 <= i < |pre| ensures MatchPrefix(t[i..], q).None? {
      assert t[i..][0] == pre[i];
      MatchPrefixLead(t[i..], q);
    }
    ScanPrefix(pre, s, q, r);
  }

  /** A match of a collapse form at `i` spells "As a " there and "{{profession}}" right after it, each in some case. */
  lemma FormOccurs(t: string, i: nat, form: Pattern, tail: Pattern)
    requires form == FoldLit(AsAText) + (ProfessionFold + tail) && i <= |t|
    ensures MatchPrefix(t[i..], form).Some? ==> OccursAt(t, FoldLit(AsAText), i) && OccursAt(t, ProfessionFold, i + |AsAText|)
  {
    if MatchPrefix(t[i..], form).Some? {
      var s := t[i..];
      var n := |AsAText|;
      FormNeedsProfession(s, form, tail);
      MatchSplit(s, FoldLit(AsAText), ProfessionFold + tail);
      FixedMatchPrefix(s, FoldLit(AsAText));
      assert s[..n] == t[i..i + n];
      assert s[n..n + |ProfessionFold|] == t[i + n..i + n + |ProfessionFold|];
    }
  }

  /**
   * The three collapse forms find nothing to take inside `pre` when no "As a "
   * starting in it is followed by "{{profession}}" (each in some case): they
   * keep `pre` and go on with the text after it.
   */
  lemma FormsScan(pre: string, s: string)
    requires forall i | 0 <= i < |pre| :: !(OccursAt(pre + s, FoldLit(AsAText), i) && OccursAt(pre + s, ProfessionFold, i + |AsAText|))
    ensures ReplaceAll(pre + s, LongForm, Collapsed) == pre + ReplaceAll(s, LongForm, Collapsed)
    ensures ReplaceAll(pre + s, ShortForm, Collapsed) == pre + ReplaceAll(s, ShortForm, Collapsed)
    ensures ReplaceAll(pre + s, BareForm, Collapsed) == pre + ReplaceAll(s, BareForm, Collapsed)
  {
    var t := pre + s;
    var tail, tail' := FormShapes();
    forall i | 0 <= i < |pre|
      ensures MatchPrefix(t[i..], LongForm).None? && MatchPrefix(t[i..], ShortForm).None? && MatchPrefix(t[i..], BareForm).None?
    {
      FormOccurs(t, i, LongForm, tail);
      FormOccurs(t, i, ShortForm, tail');
      FormOccurs(t, i, BareForm, []);
    }
    ScanPrefix(pre, s, LongForm, Collapsed);
    ScanPrefix(pre, s, ShortForm, Collapsed);
    ScanPrefix(pre, s, BareForm, Collapsed);
  }

  /** Before a text that opens with "As a " in some case, a brace-free `pre` holds no start of a collapse form. */
  lemma FormsScanBefore(pre: string, s: string)
    requires '{' !in pre && |AsAText| <= |s| && SameUpToCase(s[..|AsAText|], AsAText)
    ensures ReplaceAll(pre + s, LongForm, Collapsed) == pre + ReplaceAll(s, LongForm, Collapsed)
    ensures ReplaceAll(pre + s, ShortForm, Collapsed) == pre + ReplaceAll(s, ShortForm, Collapsed)
    ensures ReplaceAll(pre + s, BareForm, Collapsed) == pre + ReplaceAll(s, BareForm, Collapsed)
  {
    var t := pre + s;
    var n := |AsAText|;
    forall k | 0 <= k < n ensures s[k] != '{' {
      assert Lower(s[..n][k]) == Lower(AsAText[k]);
    }
    forall k | n <= k < |pre| + n ensures !OccursAt(t, ProfessionFold, k) {
      OccursOpening(t, ProfessionFold, k);
      if k < |pre| {
        assert t[k] == pre[k];
      } else {
        assert t[k] == s[k - |pre|];
      }
    }
    FormsScan(pre, s);
  }

  // ---------------------------------------------------------------------
  // Why `NoPlaceholderLeft` needs its condition on the name

  lemma ScanPast(c: char, y: string, q: Pattern, r: string)
    requires q != [] && MatchPrefix([c] + y, q).None?
    ensures ReplaceAll([c] + y, q, r) == [c] + ReplaceAll(y, q, r)
  {
    assert ([c] + y)[1..] == y;
  }

  lemma NameTokenMiss(s: string, i: nat)
    requires i < 8 && 8 <= |s| && s[i] != "{{name}}"[i]
    ensures MatchPrefix(s, NameToken).None?
  {
    FixedMatchPrefix(s, NameToken);
    assert s[..8][i] == s[i];
  }

  /** A brace-free text after an exact token: the token is replaced and the text kept. */
  lemma TokenHit(token: string, y: string, r: string)
    requires token != [] && token[0] == '{' && '{' !in y
    ensures ReplaceAll(token + y, ExactLit(token), r) == r + y
  {
    FixedMatchPrefix(token + y, ExactLit(token));
    assert (token + y)[..|token|] == token;
    assert (token + y)[|token|..] == y;
    UntouchedWithout(y, ExactLit(token), r, 0, '{');
  }

  lemma ForgedNamePass()
    ensures ReplaceAll("{{na" + "{{name}}" + "e}}", NameToken, "m") == "{{name}}"
  {
    var y := "{{name}}" + "e}}";
    var s2 := ['n'] + (['a'] + y);
    ForgedInner();
    NameTokenMiss(['{'] + s2, 4);
    ScanPast('{', s2, NameToken, "m");
    NameTokenMiss(['{'] + (['{'] + s2), 4);
    ScanPast('{', ['{'] + s2, NameToken, "m");
    assert ['{'] + (['{'] + s2) == "{{na" + "{{name}}" + "e}}";
    assert ['{'] + (['{'] + (['n'] + (['a'] + ("m" + "e}}")))) == "{{name}}";
  }

  /** The pass over "na{{name}}e}}": "na" is kept, the inner token becomes "m", "e}}" is kept. */
  lemma ForgedInner()
    ensures ReplaceAll(['n'] + (['a'] + ("{{name}}" + "e}}")), NameToken, "m") == ['n'] + (['a'] + ("m" + "e}}"))
  {
    var y := "{{name}}" + "e}}";
    var s3 := ['a'] + y;
    TokenHit("{{name}}", "e}}", "m");
    NameTokenMiss(s3, 0);
    ScanPast('a', y, NameToken, "m");
    NameTokenMiss(['n'] + s3, 0);
    ScanPast('n', s3, NameToken, "m");
  }

  /**
   * A name free of braces and of `$` can still leave a `{{name}}` token
   * behind: the one-letter name "m" completes the text around an inner
   * token into a new one, which the single left-to-right pass has already
   * moved past.
   */
  lemma NameCanForgeToken()
    ensures FillTemplate("{{na" + "{{name}}" + "e}}", "m") == "{{name}}"
    ensures OccursAt(FillTemplate("{{na" + "{{name}}" + "e}}", "m"), NameToken, 0)
  {
    ForgeSkipsForms();
    ForgedNamePass();
    ForgedTokenStays();
    var text4 := "{{name}}";
    assert text4[0..8] == text4;
  }

  /** The forging template has no white space, so no collapse form applies. */
  lemma ForgeSkipsForms()
    ensures var s := "{{na" + "{{name}}" + "e}}";
            && ReplaceAll(s, LongForm, Collapsed) == s
            && ReplaceAll(s, ShortForm, Collapsed) == s
            && ReplaceAll(s, BareForm, Collapsed) == s
  {
    var s := "{{na" + "{{name}}" + "e}}";
    assert ' ' !in s;
    UntouchedWithout(s, LongForm, Collapsed, 2, ' ');
    UntouchedWithout(s, ShortForm, Collapsed, 2, ' ');
    UntouchedWithout(s, BareForm, Collapsed, 2, ' ');
  }

  /** The forged `{{name}}` has no 'p' and no 'c', so the fallback passes leave it. */
  lemma ForgedTokenStays()
    ensures ReplaceAll("{{name}}", ProfessionToken, ProfessionFallback) == "{{name}}"
    ensures ReplaceAll("{{name}}", CuriosityToken, CuriosityFallback) == "{{name}}"
  {
    var text4 := "{{name}}";
    assert 'p' !in text4 && 'c' !in text4;
    UntouchedWithout(text4, ProfessionToken, ProfessionFallback, 2, 'p');
    UntouchedWithout(text4, CuriosityToken, CuriosityFallback, 2, 'c');
  }
}
