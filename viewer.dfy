/**
 * The slide viewer's state and its event handlers: the current slide, the
 * collected prompts and the notes, with the learner's intake and the prompt
 * catalog fixed once loaded. Each handler changes only what the page's own
 * handler changes, and is proved against the pure definitions of the other
 * modules; the export is built step by step, as the page builds its text,
 * and proved equal to `Export.Document`.
 */
module Viewer {
  import opened Wrappers
  import opened Text
  import Catalog
  import opened Collector
  import Notes
  import Navigation
  import Template
  import Export

  class Viewer {
    var currentSlide: int
    var collected: seq<Collected>
    var notes: Notes.NoteMap
    const intake: Export.Intake
    const catalog: seq<Catalog.Entry>

    /** What every handler keeps: distinct collected pairs, no blank note, a slide of the deck. */
    predicate Valid()
      reads this
    {
      UniqueKeys(collected) && Notes.NonBlank(notes) && Navigation.InRange(currentSlide)
    }

    /** A fresh session: slide 1, nothing collected, no notes. */
    constructor (intake: Export.Intake, catalog: seq<Catalog.Entry>)
      ensures Valid()
      ensures this.intake == intake && this.catalog == catalog
      ensures currentSlide == 1 && collected == [] && notes == map[]
    {
      this.intake := intake;
      this.catalog := catalog;
      currentSlide := 1;
      collected := [];
      notes := map[];
    }

    /** `goToSlide(n)`: numbers outside the deck are ignored. */
    method GoToSlide(n: int)
      requires Valid()
      modifies this
      ensures Valid()
      ensures currentSlide == Navigation.GoTo(old(currentSlide), n)
      ensures collected == old(collected) && notes == old(notes)
    {
      if n < 1 || n > Catalog.TotalSlides {
        return;
      }
      currentSlide := n;
    }

    /** The previous button, ArrowLeft and ArrowUp. */
    method Prev() returns (o: Navigation.Outcome)
      requires Valid()
      modifies this
      ensures Valid()
      ensures o == Navigation.Back(old(currentSlide))
      ensures currentSlide == if o.InDeck? then o.slide else old(currentSlide)
      ensures collected == old(collected) && notes == old(notes)
    {
      if currentSlide <= 1 {
        o := Navigation.ToIntro;
      } else {
        GoToSlide(currentSlide - 1);
        o := Navigation.InDeck(currentSlide);
      }
    }

    /** The next button, ArrowRight and ArrowDown. */
    method Next() returns (o: Navigation.Outcome)
      requires Valid()
      modifies this
      ensures Valid()
      ensures o == Navigation.Forward(old(currentSlide))
      ensures currentSlide == if o.InDeck? then o.slide else old(currentSlide)
      ensures collected == old(collected) && notes == old(notes)
    {
      if currentSlide >= Catalog.TotalSlides {
        o := Navigation.ToHelp;
      } else {
        GoToSlide(currentSlide + 1);
        o := Navigation.InDeck(currentSlide);
      }
    }

    /** The collecting half of `copyPrompt`: a new (slide, label) pair is appended. */
    method CopyPrompt(promptText: string, slideTitle: string, caption: string)
      requires Valid()
      modifies this
      ensures Valid()
      ensures collected == Collect(old(collected), currentSlide, slideTitle, caption, promptText)
      ensures currentSlide == old(currentSlide) && notes == old(notes)
    {
      CollectKeepsUnique(collected, currentSlide, slideTitle, caption, promptText);
      if !Has(collected, currentSlide, caption) {
        collected := collected + [Collected(currentSlide, slideTitle, caption, promptText)];
      }
    }

    /** A click on a catalog entry: its filled-in text is collected under the current slide's title. */
    method ClickPrompt(e: Catalog.Entry)
      requires Valid()
      modifies this
      ensures Valid()
      ensures Catalog.SlideTitle(currentSlide).Some?
      ensures collected == Collect(old(collected), currentSlide, Catalog.SlideTitle(currentSlide).value,
                                   e.caption, Template.FillTemplate(e.prompt, intake.name))
      ensures currentSlide == old(currentSlide) && notes == old(notes)
    {
      var title := Catalog.SlideTitles[currentSlide - 1];
      CopyPrompt(Template.FillTemplate(e.prompt, intake.name), title, e.caption);
    }

    /** `updatePromptCount`: the number shown on the download button. */
    method PromptCount() returns (c: nat)
      ensures c == |collected|
    {
      c := |collected|;
    }

    /** `getCustomNotes` */
    method GetCustomNotes() returns (m: Notes.NoteMap)
      ensures m == notes
    {
      m := notes;
    }

    /** `saveCustomNote(slide, text)` */
    method SaveCustomNote(slide: int, text: string)
      requires Valid()
      modifies this
      ensures Valid()
      ensures notes == Notes.Saved(old(notes), slide, text)
      ensures currentSlide == old(currentSlide) && collected == old(collected)
    {
      Notes.SavePreservesNonBlank(notes, slide, text);
      if Trim(text) != [] {
        notes := notes[slide := text];
      } else {
        notes := notes - {slide};
      }
    }

    /** `loadCustomNoteForSlide`: the text put into the notes box. */
    method LoadCustomNoteForSlide() returns (t: string)
      ensures t == Notes.Read(notes, currentSlide)
    {
      t := if currentSlide in notes then notes[currentSlide] else "";
    }

    /** `downloadMd()` on the date `date`, built up as the page builds it. */
    method DownloadMd(date: string) returns (d: Export.Export)
      ensures d == Export.Document(collected, notes, intake, date)
    {
      var customNotes := notes;
      if |collected| == 0 && |customNotes| == 0 {
        return Export.NothingToExport;
      }
      var md := BuildMd(collected, customNotes, intake, date);
      d := Export.MarkdownFile(Export.Filename(intake.name), md);
    }
  }

  /** The Markdown text of `downloadMd`: preamble, grouped sections, then the meta-prompt. */
  method BuildMd(collected: seq<Collected>, customNotes: Notes.NoteMap, intake: Export.Intake, date: string)
    returns (md: string)
    ensures md == Export.Body(collected, customNotes, intake, date)
  {
    var grouped := GroupBySlide(collected);
    md := Export.Preamble(intake, date);
    ghost var byPrompt := grouped;
    grouped := MergeNoteSlides(grouped, customNotes);
    Export.MergedIs(byPrompt, customNotes, grouped);
    var ns := Export.SortedKeys(grouped.Keys);
    ghost var ss := Export.Outline(collected, customNotes);
    Export.OutlineListsGroups(collected, customNotes);
    var topics := TopicsAll(grouped, ns, customNotes, ss);
    md := AppendSections(md, grouped, ns, customNotes, ss);
    md := md + Export.MetaPrompt(intake, topics);
  }

  /** The grouping loop of `downloadMd`: each record goes to its slide's group, the first fixing the title. */
  method GroupBySlide(cs: seq<Collected>) returns (grouped: map<int, Export.Group>)
    ensures grouped == Export.Grouped(cs)
  {
    grouped := map[];
    var i := 0;
    while i < |cs|
      invariant 0 <= i <= |cs|
      invariant grouped == Export.Grouped(cs[..i])
    {
      var p := cs[i];
      assert cs[..i + 1][..i] == cs[..i] && cs[..i + 1][i] == p;
      // A new slide's group starts with this record; a known slide's grows by it.
      if p.slide in grouped {
        grouped := grouped[p.slide := Export.Group(grouped[p.slide].title, grouped[p.slide].prompts + [p])];
      } else {
        grouped := grouped[p.slide := Export.Group(Some(p.title), [p])];
      }
      i := i + 1;
    }
    assert cs[..i] == cs;
  }

  /** The merging loop of `downloadMd`: a slide with a note but no group gets an empty one under its deck title. */
  method MergeNoteSlides(g: map<int, Export.Group>, customNotes: Notes.NoteMap) returns (grouped: map<int, Export.Group>)
    ensures forall n :: n in grouped <==> n in g || n in customNotes
    ensures forall n :: n in grouped ==>
              grouped[n] == if n in g then g[n] else Export.Group(Catalog.SlideTitle(n), [])
  {
    grouped := g;
    var rest := customNotes.Keys;
    while rest != {}
      invariant forall n :: n in rest ==> n in customNotes
      invariant forall n :: n in grouped <==> n in g || (n in customNotes && n !in rest)
      invariant forall n :: n in grouped ==>
                  grouped[n] == if n in g then g[n] else Export.Group(Catalog.SlideTitle(n), [])
      decreases |rest|
    {
      assert (forall y :: y !in rest) ==> rest == {};
      var k :| k in rest;
      if k !in grouped {
        grouped := grouped[k := Export.Group(Catalog.SlideTitle(k), [])];
      }
      rest := rest - {k};
    }
  }

  /** `topicsAll`: the titles of the listed groups, joined by ", ". */
  method TopicsAll(grouped: map<int, Export.Group>, ns: seq<int>, customNotes: Notes.NoteMap,
                   ghost ss: seq<Export.Section>) returns (topics: string)
    requires Export.ListsGroups(grouped, ns, customNotes, ss)
    ensures topics == Export.Topics(ss)
  {
    var titles := seq(|ns|, j requires 0 <= j < |ns| => Export.TopicText(grouped[ns[j]].title));
    assert titles == Export.TopicList(ss);
    topics := Join(titles, ", ");
  }

  /** The section loop of `downloadMd`, numbering the sections from 1. */
  method AppendSections(md0: string, grouped: map<int, Export.Group>, ns: seq<int>, customNotes: Notes.NoteMap,
                        ghost ss: seq<Export.Section>) returns (md: string)
    requires Export.ListsGroups(grouped, ns, customNotes, ss)
    ensures md == md0 + Export.SectionsText(ss)
  {
    md := md0;
    var idx := 0;
    while idx < |ns|
      invariant 0 <= idx <= |ns|
      invariant md == md0 + Export.SectionsText(ss[..idx])
    {
      md := AppendSection(md, idx + 1, ns[idx], grouped[ns[idx]], customNotes);
      assert ss[..idx + 1][..idx] == ss[..idx];
      ConcatAssoc(md0, Export.SectionsText(ss[..idx]), Export.SectionText(idx + 1, ss[idx]));
      idx := idx + 1;
    }
    assert ss[..idx] == ss;
  }

  /** One section: its heading, its records, the note if there is one, and a rule. */
  method AppendSection(md0: string, number: nat, n: int, group: Export.Group, customNotes: Notes.NoteMap)
    returns (md: string)
    ensures md == md0 + Export.SectionText(number, Export.Section(n, group.title, group.prompts, Notes.Read(customNotes, n)))
  {
    ghost var s := Export.Section(n, group.title, group.prompts, Notes.Read(customNotes, n));
    var heading := "### " + NatToString(number) + ". Slide " + IntToString(n) + ": "
                   + Export.TitleText(group.title) + "\n\n";
    assert heading == Export.Heading(number, s);
    md := md0 + heading;
    md := AppendPrompts(md, group.prompts);
    ghost var withPrompts := md;
    if n in customNotes && customNotes[n] != [] {
      md := md + "**Your Notes**\n\n";
      md := md + customNotes[n] + "\n\n";
    }
    assert md == withPrompts + Export.NoteText(s.note);
    md := md + "---\n\n";
    ghost var h, p, t := Export.Heading(number, s), Export.PromptsText(s.prompts), Export.NoteText(s.note);
    ConcatAssoc(md0, h, p);
    ConcatAssoc(md0, h + p, t);
    ConcatAssoc(md0, h + p + t, "---\n\n");
  }

  lemma ConcatAssoc(a: string, b: string, c: string)
    ensures a + b + c == a + (b + c)
  {
  }

  /** The inner loop over a group's records: the label in bold, then the prompt. */
  method AppendPrompts(md0: string, ps: seq<Collected>) returns (md: string)
    ensures md == md0 + Export.PromptsText(ps)
  {
    md := md0;
    var j := 0;
    while j < |ps|
      invariant 0 <= j <= |ps|
      invariant md == md0 + Export.PromptsText(ps[..j])
    {
      var p := ps[j];
      assert ps[..j + 1][..j] == ps[..j];
      md := md + "**" + p.caption + "**\n\n";
      md := md + p.prompt + "\n\n";
      j := j + 1;
    }
    assert ps[..j] == ps;
  }
}
