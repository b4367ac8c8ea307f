/**
 * The Markdown export ("download .md"): the collected prompts grouped by
 * slide, slides that only carry a note merged in, all of them sorted by
 * number and rendered as numbered sections between a fixed tutor preamble
 * and a closing meta-prompt that lists the topics explored. The date is
 * supplied by the caller; the file name is derived from the learner's name.
 */
module Export {
  import opened Wrappers
  import opened Text
  import Catalog
  import opened Collector
  import Notes
  import Template

  /** What the intake form recorded about the learner. */
  datatype Intake = Intake(name: string, profession: string, curiosity: string)

  /** The result of the download action. */
  datatype Export =
    | NothingToExport                            // the "click some prompts or add notes first" toast
    | MarkdownFile(filename: string, body: string)

  /** One value of `grouped`: its title (`None` is `undefined`) and its records in click order. */
  datatype Group = Group(title: Option<string>, prompts: seq<Collected>)

  /** One rendered section: a slide, its title, its records and its note (`""` when none). */
  datatype Section = Section(slide: int, title: Option<string>, prompts: seq<Collected>, note: string)

  // ---------------------------------------------------------------------
  // Grouping and ordering

  /** `grouped` after the loop over the collected records: one group per slide with a record. */
  function Grouped(cs: seq<Collected>): (g: map<int, Group>)
    ensures g.Keys == SlidesOf(cs)
  {
    if cs == [] then map[]
    else
      var g := Grouped(cs[..|cs| - 1]);
      var p := cs[|cs| - 1];
      SlidesOfSnoc(cs);
      if p.slide in g then g[p.slide := Group(g[p.slide].title, g[p.slide].prompts + [p])]
      else g[p.slide := Group(Some(p.title), [p])]
  }

  /** The records collected on slide `n`, in click order. */
  function PromptsOn(cs: seq<Collected>, n: int): (r: seq<Collected>)
    ensures forall i :: 0 <= i < |r| ==> r[i].slide == n
  {
    if cs == [] then []
    else PromptsOn(cs[..|cs| - 1], n) + (if cs[|cs| - 1].slide == n then [cs[|cs| - 1]] else [])
  }

  /** `r` opens with `head` and closes with `tail`. */
  predicate Frames(r: string, head: string, tail: string)
  {
    |head| <= |r| && r[..|head|] == head && EndsWith(r, tail)
  }

  /** `r` closes with `tail`. */
  predicate EndsWith(r: string, tail: string)
  {
    |tail| <= |r| && r[|r| - |tail|..] == tail
  }

  /** A four-part concatenation opens with its first part and closes with its last two. */
  lemma Framed(a: string, b: string, c: string, d: string)
    ensures Frames(a + b + c + d, a, c + d)
  {
    var r := a + b + c + d;
    assert r == (a + b) + (c + d);
    assert r[..|a|] == a;
  }

  /** A three-part concatenation opens with its first part and closes with its last. */
  lemma Framed3(a: string, b: string, c: string)
    ensures Frames(a + b + c, a, c)
  {
    var r := a + b + c;
    assert r == a + (b + c);
    assert r[..|a|] == a;
  }

  /** What closes the last part closes the whole. */
  lemma FramedAround(a: string, b: string, m: string, t: string)
    requires EndsWith(m, t)
    ensures Frames(a + b + m, a, t)
  {
    var r := a + b + m;
    assert r == a + (b + m);
    assert r[|r| - |t|..] == m[|m| - |t|..];
  }

  /** The slides with at least one collected record. */
  function SlidesOf(cs: seq<Collected>): set<int>
  {
    set i | 0 <= i < |cs| :: cs[i].slide
  }

  /** The slides of a list are those of all but its last record, and that record's. */
  lemma SlidesOfSnoc(cs: seq<Collected>)
    requires cs != []
    ensures SlidesOf(cs) == SlidesOf(cs[..|cs| - 1]) + {cs[|cs| - 1].slide}
  {
    var init := cs[..|cs| - 1];
    forall k | k in SlidesOf(cs) ensures k in SlidesOf(init) + {cs[|cs| - 1].slide} {
      var i :| 0 <= i < |cs| && cs[i].slide == k;
      if i < |init| { assert cs[i] == init[i]; }
    }
    forall k | k in SlidesOf(init) ensures k in SlidesOf(cs) {
      var i :| 0 <= i < |init| && init[i].slide == k;
      assert cs[i] == init[i];
    }
  }

  /** `grouped` after the notes are merged in: a note-only slide gets `slideTitles[n - 1]`. */
  function Merged(g: map<int, Group>, notes: Notes.NoteMap): (m: map<int, Group>)
    ensures m.Keys == g.Keys + notes.Keys
  {
    map n | n in g.Keys + notes.Keys :: if n in g then g[n] else Group(Catalog.SlideTitle(n), [])
  }

  /** A map with the merged keys and the merged values is the merge. */
  lemma MergedIs(g: map<int, Group>, notes: Notes.NoteMap, m: map<int, Group>)
    requires forall n :: n in m <==> n in g || n in notes
    requires forall n :: n in m ==> m[n] == if n in g then g[n] else Group(Catalog.SlideTitle(n), [])
    ensures m == Merged(g, notes)
  {
    var r := Merged(g, notes);
    forall n ensures n in m.Keys <==> n in r.Keys {
      assert n in r.Keys <==> n in g.Keys + notes.Keys;
    }
    assert m.Keys == r.Keys;
    forall n | n in m ensures m[n] == r[n] {
    }
  }

  /** `m` is the least member of `s`. */
  predicate IsLeast(m: int, s: set<int>)
  {
    m in s && forall x :: x in s ==> m <= x
  }

  /** The least member of a non-empty set. */
  function Least(s: set<int>): (m: int)
    requires s != {}
    ensures IsLeast(m, s)
  {
    LeastExists(s);
    var m :| IsLeast(m, s);
    m
  }

  lemma LeastExists(s: set<int>)
    requires s != {}
    ensures exists m :: IsLeast(m, s)
    decreases |s|
  {
    assert (forall y :: y !in s) ==> s == {};
    var y :| y in s;
    var rest := s - {y};
    if rest == {} {
      assert s == {y};
      assert IsLeast(y, s);
    } else {
      LeastExists(rest);
      var m :| IsLeast(m, rest);
      var least := if y < m then y else m;
      forall x | x in s ensures least <= x {
        if x != y { assert x in rest; }
      }
      assert IsLeast(least, s);
    }
  }

  /** `Object.keys(grouped).map(Number).sort((a, b) => a - b)` */
  function SortedKeys(s: set<int>): (r: seq<int>)
    ensures |r| == |s|
    ensures forall n :: n in s <==> n in r
    ensures forall i, j :: 0 <= i < j < |r| ==> r[i] < r[j]
    decreases |s|
  {
    if s == {} then []
    else
      var m := Least(s);
      var rest := SortedKeys(s - {m});
      assert forall i :: 0 <= i < |rest| ==> m < rest[i] by {
        forall i | 0 <= i < |rest| ensures m < rest[i] {
          assert rest[i] in s - {m};
        }
      }
      [m] + rest
  }

  /** The groups of `g` listed in the order of `ns`, each with its slide's note. */
  function Sections(g: map<int, Group>, notes: Notes.NoteMap, ns: seq<int>): (ss: seq<Section>)
    requires forall i :: 0 <= i < |ns| ==> ns[i] in g
    ensures |ss| == |ns| && forall i :: 0 <= i < |ss| ==> ss[i].slide == ns[i]
  {
    seq(|ns|, i requires 0 <= i < |ns| =>
      Section(ns[i], g[ns[i]].title, g[ns[i]].prompts, Notes.Read(notes, ns[i])))
  }

  /**
   * The sections in export order: one for each slide with a record or a
   * note, in ascending slide order.
   */
  function Outline(cs: seq<Collected>, notes: Notes.NoteMap): (ss: seq<Section>)
    ensures |ss| == |SlidesOf(cs) + notes.Keys|
    ensures forall i :: 0 <= i < |ss| ==> ss[i].slide in SlidesOf(cs) + notes.Keys
    ensures forall i, j :: 0 <= i < j < |ss| ==> ss[i].slide < ss[j].slide
  {
    var g := Merged(Grouped(cs), notes);
    assert g.Keys == SlidesOf(cs) + notes.Keys;
    var ns := SortedKeys(g.Keys);
    Sections(g, notes, ns)
  }

  // ---------------------------------------------------------------------
  // Rendering

  /** How `${title}` prints a title. */
  function TitleText(t: Option<string>): string
  {
    if t.Some? then t.value else "undefined"
  }

  /** How `Array.prototype.join` prints a title: `undefined` becomes the empty string. */
  function TopicText(t: Option<string>): string
  {
    if t.Some? then t.value else ""
  }

  /** `### i. Slide n: title` */
  function Heading(number: nat, s: Section): string
  {
    "### " + NatToString(number) + ". Slide " + IntToString(s.slide) + ": " + TitleText(s.title) + "\n\n"
  }

  /** `**label**` then the prompt text, for each record in order. */
  function PromptsText(ps: seq<Collected>): string
  {
    if ps == [] then []
    else
      var p := ps[|ps| - 1];
      PromptsText(ps[..|ps| - 1]) + "**" + p.caption + "**\n\n" + p.prompt + "\n\n"
  }

  /** The "Your Notes" block, present only for a non-empty note. */
  function NoteText(note: string): string
  {
    if note != [] then "**Your Notes**\n\n" + note + "\n\n" else []
  }

  /** A section numbered `number`: heading, prompts, note, rule. */
  function SectionText(number: nat, s: Section): string
  {
    Heading(number, s) + PromptsText(s.prompts) + NoteText(s.note) + "---\n\n"
  }

  /**
   * A section opens with its heading and closes with the rule; a non-empty
   * note sits just before the rule, and an empty one adds nothing.
   */
  lemma SectionLayout(number: nat, s: Section)
    ensures Frames(SectionText(number, s), Heading(number, s), "---\n\n")
    ensures s.note == [] ==> SectionText(number, s) == Heading(number, s) + PromptsText(s.prompts) + "---\n\n"
    ensures s.note != [] ==> Frames(SectionText(number, s), Heading(number, s), s.note + "\n\n" + "---\n\n")
  {
    NoteFramed(Heading(number, s), PromptsText(s.prompts), s.note);
  }

  /** Where the heading, the note and the rule of a section sit. */
  lemma NoteFramed(h: string, p: string, note: string)
    ensures Frames(h + p + NoteText(note) + "---\n\n", h, "---\n\n")
    ensures note != [] ==> Frames(h + p + NoteText(note) + "---\n\n", h, note + "\n\n" + "---\n\n")
  {
    var r := h + p + NoteText(note) + "---\n\n";
    assert r == h + (p + NoteText(note)) + "---\n\n";
    Framed3(h, p + NoteText(note), "---\n\n");
    if note != [] {
      Regroup(h, p, "**Your Notes**\n\n", note, "\n\n", "---\n\n");
      Framed(h, p + "**Your Notes**\n\n", note + "\n\n", "---\n\n");
    }
  }

  lemma Regroup(h: string, p: string, y: string, n: string, e: string, f: string)
    ensures h + p + (y + n + e) + f == h + (p + y) + (n + e) + f
  {
  }

  /** The sections numbered 1, 2, ... in order. */
  function SectionsText(ss: seq<Section>): string
  {
    if ss == [] then []
    else SectionsText(ss[..|ss| - 1]) + SectionText(|ss|, ss[|ss| - 1])
  }

  /** The titles of the sections, in order. */
  function TopicList(ss: seq<Section>): seq<string>
  {
    seq(|ss|, i requires 0 <= i < |ss| => TopicText(ss[i].title))
  }

  /** `topicsAll` */
  function Topics(ss: seq<Section>): string
  {
    Join(TopicList(ss), ", ")
  }

  // The fixed wording of the file. Each passage is written as its short pieces
  // joined: the verifier then has no need to spell the text out character by
  // character.

  /** The tutor instructions, up to the learner's name. */
  const AboutHeading := Join([
      "# Economics of AI \U{2014} ", "Personal Learning ", "Prompts\n\n", "---\n\n",
      "## INSTRUCTIONS FOR THE AI TUTOR\n\n", "**Please read these ", "instructions carefully ",
      "before proceeding.**\n\n", "You are acting as a ", "**personalized tutor** ",
      "for the learner ", "described below. They ", "attended a lecture on ",
      "the Economics of AI and ", "collected a set of ", "prompts based on topics ",
      "that caught their ", "interest. Your role is ", "to help them explore ",
      "these topics deeply, at ", "their own pace.\n\n", "**Before you begin**, ",
      "check whether the ", "learner has also ", "uploaded the original ",
      ".pptx presentation file ", "alongside this ", "document. If they have, ",
      "use the slide content ", "to provide richer, more ", "specific responses \U{2014} ",
      "reference specific ", "charts, diagrams, and ", "data points when ",
      "answering each prompt. ", "If they have NOT ", "uploaded the .pptx, ",
      "gently let them know ", "that uploading it will ", "significantly improve ",
      "the conversation, and ", "ask if they'd like to ", "add it before you ", "start.\n\n",
      "### How this conversation should work:\n\n", "1. **One question at a ",
      "time.** Start with the ", "first prompt below ", "(under \"Collected ",
      "Prompts\"). Address it ", "thoroughly \U{2014} explain ", "concepts clearly, use ",
      "examples relevant to ", "the learner's ", "profession, and invite ",
      "follow-up questions.\n\n", "2. **Have a real ", "conversation.** After ",
      "your initial response ", "to each prompt, wait ", "for the learner to ask ",
      "follow-ups, challenge ", "your answer, or say ", "they're satisfied. Do ",
      "NOT move to the next ", "prompt until the ", "learner explicitly says ",
      "something like \"next ", "question,\" \"move on,\" ", "or \"let's continue.\"\n\n",
      "3. **Tailor ", "everything** to the ", "learner's profession ", "and curiosity ",
      "(described below). Use ", "concrete examples from ", "their field. Avoid ",
      "generic explanations ", "when you can be ", "specific.\n\n", "4. **At the end of the ",
      "conversation**, once ", "all prompts have been ", "discussed (or the ",
      "learner says they're ", "done), generate a ", "**Learning Pack** \U{2014} a ",
      "nicely formatted ", "document that includes:\n", "   - **Top Takeaways**: ",
      "5-7 key insights from ", "the entire conversation\n", "   - **Things to ",
      "Note**: Important ", "nuances, caveats, or ", "counterarguments that ", "came up\n",
      "   - **Further ", "Reading**: 5-10 ", "specific books, papers, ",
      "articles, or resources ", "to explore next\n", "   - **Conversation ",
      "Summary**: A concise ", "narrative summary of ", "everything discussed, ",
      "organized by topic\n\n", "Format the Learning ", "Pack clearly with ",
      "headers and bullet ", "points so the learner ", "can save it as a ",
      "reference document.\n\n", "---\n\n", "## About the Learner\n", "- **Name**: "
    ], "")

  // The labels of the learner's details and the joins of the meta-prompt.
  const RoleLabel := "\n- **Role/Profession**: "

  const CuriosityLabel := "\n- **Curiosity**: "

  const DateLabel := "\n- **Date**: "

  /** After the date: the heading of the collected prompts. */
  const PromptsHeading := Join([
      "\n\n", "---\n\n", "## Collected Prompts\n\n", "The learner clicked on ",
      "these prompts during ", "the presentation. ", "Handle them **one at a ",
      "time**, in order.\n\n"
    ], "")

  /** The closing meta-prompt, up to the learner's name. */
  const MetaOpening := Join([
      "## Continue the Learning Journey\n\n", "Once you've worked ", "through all the prompts ",
      "above, use this ", "meta-prompt to ", "continue:\n\n", "> I'm "
    ], "")

  const MetaRole := ", a "

  const MetaCurious := " who is curious about "

  /** After the curiosity, up to the topic list. */
  const MetaTopics := Join([
      ". I just went through a ", "presentation on the ", "Economics of AI that ",
      "covered the full value ", "chain: upstream costs ", "(silicon, data, ",
      "training, energy, ", "talent), midstream ", "market structure ", "(oligopoly, open ",
      "source, geopolitics), ", "and downstream impacts ", "(pricing, agentic AI, ",
      "labor markets, ", "inequality). During the ", "presentation, I ",
      "explored these specific ", "topics: "
    ], "")

  /** After the topic list: the end of the meta-prompt and the footer. */
  const MetaClosing := Join([
      ". Based on what I've ", "shown interest in, ", "continue my learning ",
      "journey. Go deeper on ", "the areas I explored, ", "connect them to each ",
      "other, and suggest new ", "angles I might not have ", "considered. Frame ",
      "everything in terms of ", "my profession and my ", "specific curiosity.\n\n", "---\n\n",
      "*Generated from the ", "Economics of AI ", "Interactive Learning ", "Resource*\n",
      "*Presentation by Ashish ", "Kulkarni \U{2014} Takshashila ", "Institution, GCPP ",
      "Program*\n"
    ], "")

  /** The preamble for the receiving assistant, ending with the learner's details. */
  function Preamble(intake: Intake, date: string): string
  {
    var head := AboutHeading + (if intake.name == [] then "Not provided" else intake.name);
    head + (RoleLabel + intake.profession + CuriosityLabel + intake.curiosity + DateLabel) + date + PromptsHeading
  }

  /** The closing meta-prompt with the topic list. */
  function MetaPrompt(intake: Intake, topics: string): string
  {
    var head := MetaOpening + (if intake.name == [] then "a learner" else intake.name);
    head + (MetaRole + intake.profession + MetaCurious + intake.curiosity + MetaTopics) + topics + MetaClosing
  }

  /** The whole Markdown text. */
  function Body(cs: seq<Collected>, notes: Notes.NoteMap, intake: Intake, date: string): string
  {
    var ss := Outline(cs, notes);
    Preamble(intake, date) + SectionsText(ss) + MetaPrompt(intake, Topics(ss))
  }

  /**
   * The learner's details in the preamble open with the name, or "Not
   * provided" without one; the date comes last, just before the heading of
   * the collected prompts.
   */
  lemma PreambleLayout(intake: Intake, date: string)
    ensures Frames(Preamble(intake, date), AboutHeading + (if intake.name == [] then "Not provided" else intake.name),
                   date + PromptsHeading)
  {
    var head := AboutHeading + (if intake.name == [] then "Not provided" else intake.name);
    var mid := RoleLabel + intake.profession + CuriosityLabel + intake.curiosity + DateLabel;
    assert Preamble(intake, date) == head + mid + date + PromptsHeading;
    Framed(head, mid, date, PromptsHeading);
  }

  /**
   * The meta-prompt opens with the learner's name, or "a learner" without
   * one; the topic list comes last, just before the fixed closing text.
   */
  lemma MetaPromptLayout(intake: Intake, topics: string)
    ensures Frames(MetaPrompt(intake, topics), MetaOpening + (if intake.name == [] then "a learner" else intake.name),
                   topics + MetaClosing)
  {
    var head := MetaOpening + (if intake.name == [] then "a learner" else intake.name);
    Framed(head, MetaRole + intake.profession + MetaCurious + intake.curiosity + MetaTopics, topics, MetaClosing);
  }

  /** The file opens with the preamble and closes with the topic list and the fixed closing text. */
  lemma BodyLayout(cs: seq<Collected>, notes: Notes.NoteMap, intake: Intake, date: string)
    ensures Frames(Body(cs, notes, intake, date), Preamble(intake, date), Topics(Outline(cs, notes)) + MetaClosing)
  {
    var ss := Outline(cs, notes);
    MetaPromptLayout(intake, Topics(ss));
    FramedAround(Preamble(intake, date), SectionsText(ss), MetaPrompt(intake, Topics(ss)), Topics(ss) + MetaClosing);
  }

  /** `downloadMd()` on date `date`. */
  function Document(cs: seq<Collected>, notes: Notes.NoteMap, intake: Intake, date: string): (d: Export)
    ensures d.NothingToExport? <==> |cs| == 0 && |notes| == 0
  {
    if |cs| == 0 && |notes| == 0 then NothingToExport
    else MarkdownFile(Filename(intake.name), Body(cs, notes, intake, date))
  }

  // ---------------------------------------------------------------------
  // File name

  /** `toLowerCase()` on ASCII letters. */
  function LowerAll(s: string): (r: string)
    ensures |r| == |s| && forall i :: 0 <= i < |s| ==> r[i] == Lower(s[i])
  {
    seq(|s|, i requires 0 <= i < |s| => Lower(s[i]))
  }

  /**
   * The name in lower case with every run of white space turned into one
   * '-', or "learner" without a name: never empty, with no white space and
   * no upper-case letter.
   */
  function Slug(name: string): (r: string)
    ensures name == [] ==> r == "learner"
    ensures r != [] && forall i :: 0 <= i < |r| ==> !IsSpace(r[i]) && !IsUpper(r[i])
  {
    if name == [] then "learner"
    else
      var low := LowerAll(name);
      var dashed := Template.ReplaceAll(low, [Template.Blanks], "-");
      DashesReplaceSpaces(low);
      assert forall i :: 0 <= i < |dashed| ==> !IsUpper(dashed[i]) by {
        forall i | 0 <= i < |dashed| ensures !IsUpper(dashed[i]) {
          if dashed[i] != '-' {
            var k :| 0 <= k < |low| && low[k] == dashed[i];
          }
        }
      }
      dashed
  }

  /**
   * The download's file name: the fixed prefix, the name part, then ".md",
   * with no white space and no upper-case letter anywhere.
   */
  function Filename(name: string): (r: string)
    ensures r == FilePrefix + Slug(name) + ".md"
    ensures |FilePrefix| + 3 < |r| && r[..|FilePrefix|] == FilePrefix && r[|r| - 3..] == ".md"
    ensures forall i :: 0 <= i < |r| ==> !IsSpace(r[i]) && !IsUpper(r[i])
  {
    var slug := Slug(name);
    PrefixClean();
    CleanJoin(FilePrefix, slug);
    CleanJoin(FilePrefix + slug, ".md");
    assert (FilePrefix + slug + ".md")[..|FilePrefix|] == FilePrefix;
    FilePrefix + slug + ".md"
  }

  /** The fixed opening of every downloaded file name. */
  const FilePrefix := "economics-of-ai-prompts-"

  lemma PrefixClean()
    ensures Clean(FilePrefix)
  {
  }

  /** No white space and no upper-case letter anywhere in `r`. */
  predicate Clean(r: string)
  {
    forall i :: 0 <= i < |r| ==> !IsSpace(r[i]) && !IsUpper(r[i])
  }

  lemma CleanJoin(a: string, b: string)
    requires Clean(a) && Clean(b)
    ensures Clean(a + b)
  {
    forall i | 0 <= i < |a + b| ensures !IsSpace((a + b)[i]) && !IsUpper((a + b)[i]) {
      if i >= |a| {
        assert (a + b)[i] == b[i - |a|];
      }
    }
  }

  // ---------------------------------------------------------------------
  // Properties of the grouping and ordering

  lemma {:induction false} PromptsOnEmpty(cs: seq<Collected>, n: int)
    ensures PromptsOn(cs, n) == [] <==> n !in SlidesOf(cs)
  {
    if cs != [] {
      var init := cs[..|cs| - 1];
      PromptsOnEmpty(init, n);
      SlidesOfSnoc(cs);
    }
  }

  /**
   * Grouping keeps, for every slide with a collected record, exactly that
   * slide's records in click order, titled by the first of them.
   */
  lemma {:induction false} GroupedMatches(cs: seq<Collected>)
    ensures forall n :: n in Grouped(cs) ==>
              && Grouped(cs)[n].prompts == PromptsOn(cs, n)
              && PromptsOn(cs, n) != []
              && Grouped(cs)[n].title == Some(PromptsOn(cs, n)[0].title)
  {
    if cs != [] {
      var init := cs[..|cs| - 1];
      var p := cs[|cs| - 1];
      GroupedMatches(init);
      PromptsOnEmpty(init, p.slide);
      PromptsOnEmpty(cs, p.slide);
      var g := Grouped(init);
      forall n | n in Grouped(cs)
        ensures && Grouped(cs)[n].prompts == PromptsOn(cs, n)
                && PromptsOn(cs, n) != []
                && Grouped(cs)[n].title == Some(PromptsOn(cs, n)[0].title)
      {
        if n == p.slide && n in g {
          assert PromptsOn(cs, n) == PromptsOn(init, n) + [p];
          assert PromptsOn(cs, n)[0] == PromptsOn(init, n)[0];
        }
      }
    }
  }

  /** A strictly increasing listing of a set is its sorted listing. */
  lemma SortedKeysUnique(s: set<int>, r: seq<int>)
    requires forall n :: n in s <==> n in r
    requires forall i, j :: 0 <= i < j < |r| ==> r[i] < r[j]
    ensures r == SortedKeys(s)
  {
    IncreasingUnique(r, SortedKeys(s));
  }

  predicate Increasing(r: seq<int>)
  {
    forall i, j :: 0 <= i < j < |r| ==> r[i] < r[j]
  }

  /** Two strictly increasing sequences with the same members are equal. */
  lemma {:induction false} IncreasingUnique(a: seq<int>, b: seq<int>)
    requires forall n :: n in a <==> n in b
    requires Increasing(a) && Increasing(b)
    ensures a == b
    decreases |a|
  {
    EmptyTogether(a, b);
    if a != [] {
      HeadsAgree(a, b);
      TailsAgree(a, b);
      IncreasingUnique(a[1..], b[1..]);
      assert a == [a[0]] + a[1..] && b == [b[0]] + b[1..];
    }
  }

  lemma EmptyTogether(a: seq<int>, b: seq<int>)
    requires forall n :: n in a <==> n in b
    ensures a == [] <==> b == []
  {
    if a != [] {
      var x := a[0];
      assert x in a;
      assert x in b;
    }
    if b != [] {
      var x := b[0];
      assert x in b;
      assert x in a;
    }
  }

  lemma HeadsAgree(a: seq<int>, b: seq<int>)
    requires a != [] && b != []
    requires forall n :: n in a <==> n in b
    requires Increasing(a) && Increasing(b)
    ensures a[0] == b[0]
  {
    assert a[0] in a;
    assert a[0] in b;
    var k :| 0 <= k < |b| && b[k] == a[0];
    assert b[0] in b;
    assert b[0] in a;
    var l :| 0 <= l < |a| && a[l] == b[0];
    assert b[0] <= b[k] && a[0] <= a[l];
  }

  lemma TailsAgree(a: seq<int>, b: seq<int>)
    requires a != [] && b != [] && a[0] == b[0]
    requires forall n :: n in a <==> n in b
    requires Increasing(a) && Increasing(b)
    ensures forall n :: n in a[1..] <==> n in b[1..]
    ensures Increasing(a[1..]) && Increasing(b[1..])
  {
    forall n ensures n in a[1..] ==> n in b[1..] {
      if n in a[1..] {
        var i :| 1 <= i < |a| && a[i] == n;
        assert n in b;
        var k :| 0 <= k < |b| && b[k] == n;
        assert a[0] < a[i];
        assert b[1..][k - 1] == n;
      }
    }
    forall n ensures n in b[1..] ==> n in a[1..] {
      if n in b[1..] {
        var i :| 1 <= i < |b| && b[i] == n;
        assert n in a;
        var k :| 0 <= k < |a| && a[k] == n;
        assert b[0] < b[i];
        assert a[1..][k - 1] == n;
      }
    }
    forall i, j | 0 <= i < j < |a| - 1 ensures a[1..][i] < a[1..][j] {
      assert a[1..][i] == a[i + 1] && a[1..][j] == a[j + 1];
    }
    forall i, j | 0 <= i < j < |b| - 1 ensures b[1..][i] < b[1..][j] {
      assert b[1..][i] == b[i + 1] && b[1..][j] == b[j + 1];
    }
  }

  /** The slide numbers of the sections, in order. */
  function SlidesInOrder(ss: seq<Section>): seq<int>
  {
    seq(|ss|, i requires 0 <= i < |ss| => ss[i].slide)
  }

  /** The `i`-th section, read off the merged groups and the sorted keys. */
  lemma OutlineAt(cs: seq<Collected>, notes: Notes.NoteMap, i: nat)
    requires i < |Outline(cs, notes)|
    ensures var g := Merged(Grouped(cs), notes);
            var ns := SortedKeys(g.Keys);
            && i < |ns| && ns[i] in g
            && Outline(cs, notes)[i] == Section(ns[i], g[ns[i]].title, g[ns[i]].prompts, Notes.Read(notes, ns[i]))
  {
  }

  /** `ss` lists, in the order of `ns`, the groups of `g` with their notes. */
  predicate ListsGroups(g: map<int, Group>, ns: seq<int>, notes: Notes.NoteMap, ss: seq<Section>)
  {
    && |ns| == |ss|
    && (forall i :: 0 <= i < |ns| ==> ns[i] in g)
    && forall i :: 0 <= i < |ns| ==> ss[i] == Section(ns[i], g[ns[i]].title, g[ns[i]].prompts, Notes.Read(notes, ns[i]))
  }

  /** The outline lists the merged groups in the order of their sorted keys. */
  lemma OutlineListsGroups(cs: seq<Collected>, notes: Notes.NoteMap)
    ensures var g := Merged(Grouped(cs), notes);
            ListsGroups(g, SortedKeys(g.Keys), notes, Outline(cs, notes))
  {
    var g := Merged(Grouped(cs), notes);
    var ns := SortedKeys(g.Keys);
    forall i | 0 <= i < |ns|
      ensures ns[i] in g
      ensures Outline(cs, notes)[i] == Section(ns[i], g[ns[i]].title, g[ns[i]].prompts, Notes.Read(notes, ns[i]))
    {
      OutlineAt(cs, notes, i);
    }
  }

  /** The `i`-th section is slide `ns[i]` of the sorted keys. */
  lemma OutlineSlideAt(cs: seq<Collected>, notes: Notes.NoteMap, i: nat)
    requires i < |Outline(cs, notes)|
    ensures Outline(cs, notes)[i].slide == SortedKeys(Merged(Grouped(cs), notes).Keys)[i]
  {
  }

  /** What a single section holds. */
  lemma OutlineSection(cs: seq<Collected>, notes: Notes.NoteMap, i: nat)
    requires i < |Outline(cs, notes)|
    ensures var s := Outline(cs, notes)[i];
            && s.prompts == PromptsOn(cs, s.slide)
            && s.note == Notes.Read(notes, s.slide)
            && s.title == if PromptsOn(cs, s.slide) != [] then Some(PromptsOn(cs, s.slide)[0].title)
                          else Catalog.SlideTitle(s.slide)
  {
    GroupedMatches(cs);
    var g := Merged(Grouped(cs), notes);
    var ns := SortedKeys(g.Keys);
    var s := Outline(cs, notes)[i];
    assert s.slide == ns[i] && s.slide in g;
    PromptsOnEmpty(cs, s.slide);
  }

  /** The sections are listed by the sorted slide numbers with a record or a note. */
  lemma OutlineSlides(cs: seq<Collected>, notes: Notes.NoteMap)
    ensures SlidesInOrder(Outline(cs, notes)) == SortedKeys(SlidesOf(cs) + notes.Keys)
  {
    GroupedMatches(cs);
    var ss := Outline(cs, notes);
    var keys := Merged(Grouped(cs), notes).Keys;
    assert keys == SlidesOf(cs) + notes.Keys;
    var ns := SortedKeys(keys);
    var sl := SlidesInOrder(ss);
    assert |sl| == |ns|;
    forall i | 0 <= i < |ns| ensures sl[i] == ns[i] {
      OutlineSlideAt(cs, notes, i);
    }
  }

  /** The sections are the slides with a record or a note, each once, in ascending order. */
  lemma OutlineOrder(cs: seq<Collected>, notes: Notes.NoteMap)
    ensures var ss := Outline(cs, notes);
            && (forall n :: n in SlidesInOrder(ss) <==> n in SlidesOf(cs) || n in notes)
            && (forall i, j :: 0 <= i < j < |ss| ==> ss[i].slide < ss[j].slide)
  {
    var ss := Outline(cs, notes);
    OutlineSlides(cs, notes);
    var sl := SlidesInOrder(ss);
    forall i, j | 0 <= i < j < |ss| ensures ss[i].slide < ss[j].slide {
      assert ss[i].slide == sl[i] && ss[j].slide == sl[j];
    }
  }

  /**
   * Each section holds its slide's records in click order, its note, and
   * the title of its first record, or `slideTitles[n - 1]` for a slide that
   * only has a note.
   */
  lemma OutlineContents(cs: seq<Collected>, notes: Notes.NoteMap)
    ensures var ss := Outline(cs, notes);
            forall i :: 0 <= i < |ss| ==>
              && ss[i].prompts == PromptsOn(cs, ss[i].slide)
              && ss[i].note == Notes.Read(notes, ss[i].slide)
              && ss[i].title == if PromptsOn(cs, ss[i].slide) != []
                                then Some(PromptsOn(cs, ss[i].slide)[0].title)
                                else Catalog.SlideTitle(ss[i].slide)
  {
    var ss := Outline(cs, notes);
    forall i | 0 <= i < |ss|
      ensures && ss[i].prompts == PromptsOn(cs, ss[i].slide)
              && ss[i].note == Notes.Read(notes, ss[i].slide)
              && ss[i].title == if PromptsOn(cs, ss[i].slide) != []
                                then Some(PromptsOn(cs, ss[i].slide)[0].title)
                                else Catalog.SlideTitle(ss[i].slide)
    {
      OutlineSection(cs, notes, i);
    }
  }

  /**
   * Clicks on slides 5, 2 and 5 again, with a note on slide 9, give the
   * sections for slides 2, 5 and 9 in that order, the two records of slide 5
   * together in click order.
   */
  lemma SectionOrderExample(t2: string, t5: string, la: string, lb: string, lc: string,
                            pa: string, pb: string, pc: string, note: string)
    requires la != lc
    ensures var cs := Collect(Collect(Collect([], 5, t5, la, pa), 2, t2, lb, pb), 5, t5, lc, pc);
            var ss := Outline(cs, map[9 := note]);
            && SlidesInOrder(ss) == [2, 5, 9]
            && ss[1].prompts == [Collected(5, t5, la, pa), Collected(5, t5, lc, pc)]
            && ss[2].prompts == [] && ss[2].note == note
            && ss[2].title == Some("MIDSTREAM: Market Structure")
  {
    var a := Collected(5, t5, la, pa);
    var b := Collected(2, t2, lb, pb);
    var c := Collected(5, t5, lc, pc);
    ExampleClicks(a, b, c);
    ExampleSections([a, b, c], map[9 := note], [a, c]);
  }

  lemma ExampleSections(cs: seq<Collected>, notes: Notes.NoteMap, on5: seq<Collected>)
    requires SlidesOf(cs) == {2, 5} && notes.Keys == {9}
    requires PromptsOn(cs, 5) == on5 && PromptsOn(cs, 9) == []
    ensures var ss := Outline(cs, notes);
            && SlidesInOrder(ss) == [2, 5, 9]
            && ss[1].prompts == on5
            && ss[2].prompts == [] && ss[2].note == notes[9]
            && ss[2].title == Some("MIDSTREAM: Market Structure")
  {
    var ss := Outline(cs, notes);
    ExampleOrder(cs, notes);
    assert |ss| == 3 && SlidesInOrder(ss)[1] == 5 && SlidesInOrder(ss)[2] == 9;
    SectionOfSlide(cs, notes, 1, 5, on5);
    SectionOfSlide(cs, notes, 2, 9, []);
    SlideNineTitle();
  }

  /** The section at position `i` of the outline, given the slide it is for and the records on that slide. */
  lemma SectionOfSlide(cs: seq<Collected>, notes: Notes.NoteMap, i: nat, n: int, ps: seq<Collected>)
    requires i < |SlidesInOrder(Outline(cs, notes))| && SlidesInOrder(Outline(cs, notes))[i] == n
    requires PromptsOn(cs, n) == ps
    ensures var s := Outline(cs, notes)[i];
            && s.prompts == ps && s.note == Notes.Read(notes, n)
            && (ps == [] ==> s.title == Catalog.SlideTitle(n))
  {
    OutlineSection(cs, notes, i);
  }

  /** Slide 9's catalog title. */
  lemma SlideNineTitle()
    ensures Catalog.SlideTitle(9) == Some("MIDSTREAM: Market Structure")
  {
  }

  lemma ExampleOrder(cs: seq<Collected>, notes: Notes.NoteMap)
    requires SlidesOf(cs) == {2, 5} && notes.Keys == {9}
    ensures SlidesInOrder(Outline(cs, notes)) == [2, 5, 9]
  {
    var keys := SlidesOf(cs) + notes.Keys;
    assert keys == {2, 5, 9};
    ExampleKeys(keys);
    OutlineOrderIs(cs, notes, [2, 5, 9]);
  }

  /** The outline lists the slides in the sorted order of its keys. */
  lemma OutlineOrderIs(cs: seq<Collected>, notes: Notes.NoteMap, r: seq<int>)
    requires SortedKeys(SlidesOf(cs) + notes.Keys) == r
    ensures SlidesInOrder(Outline(cs, notes)) == r
  {
    OutlineSlides(cs, notes);
  }

  /** Sorting the example's three slide numbers. */
  lemma ExampleKeys(s: set<int>)
    requires s == {2, 5, 9}
    ensures SortedKeys(s) == [2, 5, 9]
  {
    SortedKeysUnique(s, [2, 5, 9]);
  }

  /** The three clicks of the example, and what they leave per slide. */
  lemma ExampleClicks(a: Collected, b: Collected, c: Collected)
    requires a.slide == 5 && b.slide == 2 && c.slide == 5 && a.caption != c.caption
    ensures Collect(Collect(Collect([], 5, a.title, a.caption, a.prompt), 2, b.title, b.caption, b.prompt),
                    5, c.title, c.caption, c.prompt) == [a, b, c]
    ensures SlidesOf([a, b, c]) == {2, 5}
    ensures PromptsOn([a, b, c], 5) == [a, c] && PromptsOn([a, b, c], 9) == []
  {
    assert !Has([a], 2, b.caption);
    assert !Has([a, b], 5, c.caption);
    var cs := [a, b, c];
    assert cs[0].slide == 5 && cs[1].slide == 2;
    assert [a, b] == cs[..2] && [a] == [a, b][..1];
    assert PromptsOn([a], 5) == [a];
    assert PromptsOn([a, b], 5) == [a];
    assert PromptsOn([a], 9) == [];
    assert PromptsOn([a, b], 9) == [];
  }

  // ---------------------------------------------------------------------
  // Properties of the file name

  lemma {:induction false} DashesReplaceSpaces(s: string)
    ensures var r := Template.ReplaceAll(s, [Template.Blanks], "-");
            && (s != [] ==> r != [])
            && forall i :: 0 <= i < |r| ==> !IsSpace(r[i]) && (r[i] == '-' || r[i] in s)
    decreases |s|
  {
    if s != [] {
      var d, head := DashStep(s);
      var t := Template.ReplaceAll(s[d..], [Template.Blanks], "-");
      DashesReplaceSpaces(s[d..]);
      CharsFromSuffix(s, d, t);
      var r := head + t;
      forall i | 0 <= i < |r| ensures !IsSpace(r[i]) && (r[i] == '-' || r[i] in s) {
        if i > 0 { assert r[i] == t[i - 1]; }
      }
    }
  }

  /** One step of turning white-space runs into dashes: a run becomes one dash, anything else is kept. */
  lemma DashStep(s: string) returns (d: nat, head: string)
    requires s != []
    ensures 0 < d <= |s| && |head| == 1 && !IsSpace(head[0]) && (head[0] == '-' || head[0] == s[0])
    ensures Template.ReplaceAll(s, [Template.Blanks], "-")
            == head + Template.ReplaceAll(s[d..], [Template.Blanks], "-")
  {
    var run := Template.SpaceRun(s);
    assert Template.MatchPrefix(s, [Template.Blanks])
           == if run == 0 then None else Some(run);
    if run > 0 {
      d, head := run, "-";
    } else {
      d, head := 1, [s[0]];
    }
  }

  /** Characters drawn from a suffix of `s` (or dashes) are drawn from `s` (or dashes). */
  lemma CharsFromSuffix(s: string, d: nat, t: string)
    requires d <= |s| && forall i :: 0 <= i < |t| ==> t[i] == '-' || t[i] in s[d..]
    ensures forall i :: 0 <= i < |t| ==> t[i] == '-' || t[i] in s
  {
    forall i | 0 <= i < |t| && t[i] != '-' ensures t[i] in s {
      var k :| 0 <= k < |s[d..]| && s[d..][k] == t[i];
      assert s[d + k] == t[i];
    }
  }

  lemma {:induction false} DashesKeepSpaceFree(s: string)
    requires forall i :: 0 <= i < |s| ==> !IsSpace(s[i])
    ensures Template.ReplaceAll(s, [Template.Blanks], "-") == s
    decreases |s|
  {
    if s != [] {
      DashesKeepSpaceFree(s[1..]);
    }
  }

  /** A name without white space is only lower-cased. */
  lemma SlugOfOneWord(name: string)
    requires name != [] && forall i :: 0 <= i < |name| ==> !IsSpace(name[i])
    ensures Slug(name) == LowerAll(name)
  {
    var low := LowerAll(name);
    forall i | 0 <= i < |low| ensures !IsSpace(low[i]) {
      assert low[i] == Lower(name[i]);
    }
    DashesKeepSpaceFree(low);
  }

  /** Deriving the file-name part from its own result changes nothing. */
  lemma SlugIdempotent(name: string)
    ensures Slug(Slug(name)) == Slug(name)
  {
    var r := Slug(name);
    SlugOfOneWord(r);
    assert LowerAll(r) == r;
  }

  lemma {:induction false} DashedRunThenWord(gap: string, rest: string)
    requires gap != [] && IsBlank(gap) && (rest == [] || !IsSpace(rest[0]))
    ensures Template.ReplaceAll(gap + rest, [Template.Blanks], "-") == "-" + Template.ReplaceAll(rest, [Template.Blanks], "-")
  {
    Template.SpaceRunOfBlank(gap, rest);
    assert (gap + rest)[|gap|..] == rest;
    assert [Template.Blanks][1..] == [];
  }

  lemma {:induction false} WordThenRest(word: string, rest: string)
    requires forall i :: 0 <= i < |word| ==> !IsSpace(word[i])
    ensures Template.ReplaceAll(word + rest, [Template.Blanks], "-") == word + Template.ReplaceAll(rest, [Template.Blanks], "-")
  {
    if word != [] {
      assert (word + rest)[1..] == word[1..] + rest;
      WordThenRest(word[1..], rest);
    } else {
      assert word + rest == rest;
    }
  }

  /** Two words separated by any run of white space become two lower-case words joined by one dash. */
  lemma SlugOfTwoWords(first: string, gap: string, last: string)
    requires first != [] && gap != [] && IsBlank(gap)
    requires forall i :: 0 <= i < |first| ==> !IsSpace(first[i])
    requires forall i :: 0 <= i < |last| ==> !IsSpace(last[i])
    ensures Slug(first + gap + last) == LowerAll(first) + "-" + LowerAll(last)
  {
    var low := LowerAll(first + gap + last);
    assert low == LowerAll(first) + (LowerAll(gap) + LowerAll(last));
    assert LowerAll(gap) == gap by {
      forall i | 0 <= i < |gap| ensures LowerAll(gap)[i] == gap[i] {
        assert IsSpace(gap[i]);
      }
    }
    forall i | 0 <= i < |first| ensures !IsSpace(LowerAll(first)[i]) {
      assert LowerAll(first)[i] == Lower(first[i]);
    }
    forall i | 0 <= i < |last| ensures !IsSpace(LowerAll(last)[i]) {
      assert LowerAll(last)[i] == Lower(last[i]);
    }
    WordThenRest(LowerAll(first), gap + LowerAll(last));
    DashedRunThenWord(gap, LowerAll(last));
    DashesKeepSpaceFree(LowerAll(last));
  }
}
