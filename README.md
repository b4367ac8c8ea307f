# Economics of AI slide viewer: prompt collection and Markdown export

This project models the core of the viewer's `js/app.js` in Dafny and proves
properties of that model. The viewer shows a 20-slide deck and overlays
clickable prompts on it. The learner collects prompts and writes notes, and
the viewer then exports everything as one Markdown file for a tutoring
assistant. The core has these parts:

- **Template renderer** (`template.dfy`, module `Template`). `fillTemplate`
  makes six ordered replace-all passes. Three case-insensitive
  "As a {{profession}} …" forms collapse to "Given what you know about me",
  longest form first. The exact `{{name}}`, `{{profession}}` and
  `{{curiosity}}` tokens then fall back to the learner's name (or
  "the learner") and to fixed phrases. A regular expression is a sequence of
  atoms: an exact character, a character up to ASCII case, or a white-space
  run. `ReplaceAll` scans left to right the way `String.prototype.replace`
  with the `g` flag does.
- **Prompt collector** (`collector.dfy`, module `Collector`). This is the
  de-duplicating append of `copyPrompt`, keyed by (current slide, label). The
  list is append-only, keeps insertion order and keeps the first click's text.
- **Note store** (`notes.dfy`, module `Notes`). This is a sparse
  `map<int, string>` from slide to note. Text that is all white space deletes
  the slide's entry. Any other text is stored untrimmed. A missing entry reads
  back as `""`.
- **Export assembler** (`export.dfy`, module `Export`). `downloadMd` refuses
  when there is nothing to export. Otherwise it groups the prompts by slide,
  adds the slides that only have a note, sorts the slides numerically and
  renders numbered sections. The sections sit between the fixed tutor preamble
  and the closing meta-prompt, which lists the section titles joined by ", ".
  The date is a parameter. The file name uses the learner's name, lower-cased,
  with each white-space run turned into `-`, or `learner` when there is no name.
- **Navigation and catalog** (`navigation.dfy`, `catalog.dfy`). `goToSlide`
  ignores targets outside 1..20. Previous and next step one slide, or leave
  the deck for the intake page or the help page at either end. A slide's
  catalog entries split into the first `master` entry and every non-master
  entry in catalog order.
- **The page state** (`viewer.dfy`, class `Viewer.Viewer`). The fields
  `currentSlide`, `collected` and `notes` are updated in place by methods.
  Each method is proved against the pure definitions above.
  `Viewer.Viewer.DownloadMd` builds the document as the page does: a grouping
  loop, a merging loop and an appending loop with `+=`. It is proved equal to
  `Export.Document`.

`text.dfy` holds JavaScript's white-space class, `trim`, ASCII lower-casing,
`join` and decimal rendering. `wrappers.dfy` holds `Option`.

## Model

| member | source | states |
|---|---|---|
| Template.FillTemplate | js/app.js:298-312 | the six passes run in the source's order; a template without `{` comes back unchanged, since every form and token needs one |
| Template.MatchPrefix | js/app.js:301-310 | a match of a pattern at the start of a text never runs past the text, and a non-empty pattern takes at least one character |
| Template.ReplaceAll | js/app.js:301-310 | no contract of its own: the left-to-right `g` scan; its properties are `Template.ReplacedAway`, `Template.StaysAbsent` and `Template.OccurrenceSurvives` |
| Template.BraceFreeUntouched | js/app.js:301-310 | none of the six passes changes a text without `{` |
| Template.LongFormCollapses | js/app.js:298-312 | "As a {{profession}}", any non-empty white-space run, then "who is curious about {{curiosity}}", each part in any mix of ASCII case, standing between two brace-free texts, renders as the first text, "Given what you know about me", then the second text, for every name; no form starts inside the first text |
| Template.LongFormMatches | js/app.js:301-302 | the long pattern matches that phrase, in any case and with any non-empty white-space run between its halves, whatever follows |
| Template.ShortFormCollapses | js/app.js:301-304 | "As a {{profession}}", a white-space run, then "curious about {{curiosity}}", in any case, between two brace-free texts collapses the same way, the texts around it kept; the long pattern, tried first, takes nothing from it |
| Template.ShortFormMatches | js/app.js:303-304 | the short pattern matches its phrase in any case with any non-empty white-space run, whatever follows |
| Template.BareFormCollapses | js/app.js:301-306 | a bare "As a {{profession}}" in any case, between two brace-free texts, collapses and the texts around it are kept; neither longer pattern takes anything from it |
| Template.BareFormMatches | js/app.js:305-306 | the bare pattern matches "As a {{profession}}" in any case, whatever follows |
| Template.Scenario | js/app.js:298-312 | the profession/curiosity template for "Asha" renders as "Given what you know about me, what should I watch for?" |
| Template.ScenarioAnyCase | js/app.js:301-302 | "as A {{PROFESSION}}", a line break and indent, then "Who Is Curious About {{Curiosity}}?" renders as "Given what you know about me?" |
| Template.NameFilledIn | js/app.js:308 | `{{name}}` between two brace-free texts becomes the learner's (brace-free) name, or "the learner" when the name is empty; the texts around it are kept |
| Template.ProfessionFilledIn | js/app.js:309 | a `{{profession}}` between two brace-free texts becomes "someone in my position", the texts around it kept, unless the first text ends with "As a " in some case (then the bare form takes it: `Template.BareFormCollapses`) |
| Template.CuriosityFilledIn | js/app.js:310 | a `{{curiosity}}` between two brace-free texts becomes "the topics I care about"; the texts around it are kept |
| Template.ReplacedAway | js/app.js:308-310 | a replace-all pass of a brace-delimited token with inert text leaves no occurrence of that token |
| Template.StaysAbsent | js/app.js:301-311 | a pass with an inert replacement never creates an occurrence of a token that was absent |
| Template.OccurrenceSurvives | js/app.js:301-311 | every token occurrence after a pass is a copy of an occurrence before it |
| Template.NoPlaceholderLeft | js/app.js:307-311 | when the name cannot complete a `{{name}}` token, no exact `{{name}}`, `{{profession}}` or `{{curiosity}}` is left, whatever the template |
| Template.PlainNameInert | js/app.js:308 | a brace-free name with a character outside the letters of "name" and "profession" cannot complete either token |
| Template.DefaultNameInert | js/app.js:308 | the fallback "the learner" cannot complete either token |
| Template.SettledUntouched | js/app.js:298-312 | text with no placeholder in any case renders unchanged |
| Template.Idempotent | js/app.js:298-312 | rendering twice equals rendering once, for an inert name and a template that writes every `{{profession}}` in lower case |
| Template.NameCanForgeToken | js/app.js:308 | counterexample: the name "m" turns "{{na{{name}}e}}" into a fresh `{{name}}` that the single pass has moved past |
| Collector.Collect | js/app.js:336-349 | an already-collected (slide, label) pair leaves the list unchanged; a new one is appended at the end; earlier entries stay unchanged |
| Collector.CollectKeepsUnique | js/app.js:337-341 | collecting keeps the (slide, label) pairs distinct |
| Collector.RecollectIsNoOp | js/app.js:337-340 | a second click on a collected pair, whatever its title and text, changes nothing |
| Collector.CollectAll | js/app.js:336-349 | after any click sequence the list never holds a (slide, label) pair twice and is no longer than the clicks |
| Collector.CollectAllHas | js/app.js:336-349 | after any click sequence, a pair is collected exactly when some click was on it |
| Collector.CollectAllFirstWins | js/app.js:336-349 | the list holds the first click on each pair, ordered by first click, with no pair twice |
| Collector.CountIsDistinctPairs | js/app.js:341-354 | the count equals the number of distinct (slide, label) pairs clicked |
| Viewer.Viewer.CopyPrompt | js/app.js:336-349 | the list becomes `Collect` of the old list under the current slide; slide and notes are unchanged |
| Viewer.Viewer.ClickPrompt | js/app.js:184-186 | a click collects the filled-in template under the current slide's deck title |
| Viewer.Viewer.PromptCount | js/app.js:352-354 | the count shown is the list length |
| Notes.Saved | js/app.js:427-435 | a blank text removes the slide's key; any other text is stored untrimmed; every other key and value is unchanged |
| Notes.Read | js/app.js:437-440 | a missing slide reads as `""`, a present one as its stored text |
| Text.Trim | js/app.js:429 | the text is a blank prefix, the result, then a blank suffix, and the result neither starts nor ends with white space |
| Text.TrimEmptyIffBlank | js/app.js:429 | `trim()` is empty exactly when every character is JavaScript white space |
| Notes.ReadAfterSave | js/app.js:427-440 | reading a slide after saving gives the text, or `""` if the text was blank |
| Notes.SaveKeepsOthers | js/app.js:427-435 | saving one slide's note leaves every other slide's note as it was |
| Notes.SavePreservesNonBlank | js/app.js:429-433 | the store only ever holds notes with visible text |
| Notes.SaveOverwrites | js/app.js:427-435 | the later of two saves to one slide wins |
| Notes.ReadEmptyIffAbsent | js/app.js:429-439 | in the store, a slide reads as empty exactly when it has no entry |
| Viewer.Viewer.GetCustomNotes | js/app.js:422-425 | returns the notes map |
| Viewer.Viewer.SaveCustomNote | js/app.js:427-435 | the notes become `Notes.Saved` of the old notes; slide and list are unchanged |
| Viewer.Viewer.LoadCustomNoteForSlide | js/app.js:437-440 | the note box shows `Notes.Read` of the current slide |
| Export.Document | js/app.js:443-450 | export refuses exactly when no prompt is collected and the notes map has no key |
| Viewer.Viewer.DownloadMd | js/app.js:443-555 | the export built step by step equals `Export.Document` for the same state and date |
| Viewer.BuildMd | js/app.js:456-548 | the Markdown text assembled with `+=` equals `Export.Body` |
| Export.Grouped | js/app.js:456-463 | the grouped slides are exactly the slides with a collected prompt |
| Viewer.GroupBySlide | js/app.js:456-463 | the grouping loop yields `Export.Grouped` of the list |
| Viewer.MergeNoteSlides | js/app.js:511-517 | a note-only slide gets an empty group titled `slideTitles[n-1]`; existing groups are kept |
| Text.Join | js/app.js:520 | `join` of no items is empty; otherwise the result opens with the first item and is as long as the items plus one separator between each two |
| Viewer.TopicsAll | js/app.js:519-520 | the topic list is the section titles joined by ", " in section order |
| Viewer.AppendSections | js/app.js:522-535 | the loop appends the sections numbered 1..k in sorted order |
| Viewer.AppendSection | js/app.js:524-534 | one section is the heading, the prompts, the note if non-empty, then `---` |
| Viewer.AppendPrompts | js/app.js:526-529 | each prompt is `**label**` followed by its text, in collection order |
| Export.GroupedMatches | js/app.js:456-463 | each slide with a collected prompt gets exactly its prompts in click order, titled by the first |
| Export.Merged | js/app.js:511-517 | the merged slides are the prompt slides plus the note slides |
| Export.SortedKeys | js/app.js:519 | the sorted slide list holds each slide once, strictly ascending |
| Export.SortedKeysUnique | js/app.js:519 | a strictly ascending listing of the slides is the sorted one |
| Export.Outline | js/app.js:511-523 | one section per slide with a prompt or a note, in strictly ascending slide order |
| Export.OutlineSlides | js/app.js:511-519 | the section slides are the sorted union of prompt slides and note slides |
| Export.OutlineOrder | js/app.js:511-523 | each slide with a prompt or a note appears once, and the slides ascend |
| Export.OutlineContents | js/app.js:456-534 | a section holds its slide's prompts in click order and its note; its title is the first prompt's title, or `slideTitles[n-1]` for a note-only slide |
| Export.PreambleLayout | js/app.js:469-509 | the preamble opens with the tutor instructions and the name, or "Not provided" without one, and closes with the date and the "Collected Prompts" heading |
| Export.SectionLayout | js/app.js:525-534 | a section opens with its numbered heading and closes with `---`; a non-empty note sits just before the rule, and an empty note adds nothing |
| Export.MetaPromptLayout | js/app.js:538-548 | the meta-prompt opens with "I'm" and the name, or "a learner" without one, and closes with the topic list and the fixed footer |
| Export.BodyLayout | js/app.js:469-548 | the file opens with the preamble and closes with the topic list and the footer |
| Export.SectionOrderExample | js/app.js:456-535 | clicks on slides 5, 2, 5 and a note on slide 9 give sections 2, 5, 9; slide 5's two prompts stay in click order |
| Export.LowerAll | js/app.js:555 | each character is lower-cased in place |
| Export.Slug | js/app.js:555 | the file-name part is "learner" without a name; it is never empty and holds no white space and no upper-case letter |
| Export.Filename | js/app.js:555 | the file name is exactly "economics-of-ai-prompts-", then `Export.Slug` of the name, then ".md"; it holds no white space and no upper-case letter |
| Export.SlugOfOneWord | js/app.js:555 | a name without white space is only lower-cased |
| Export.SlugOfTwoWords | js/app.js:555 | two words with any white-space run between them become lower-case words joined by one `-` |
| Export.SlugIdempotent | js/app.js:555 | deriving the file-name part from its own result changes nothing |
| Text.NatToStringRoundTrip | js/app.js:525 | the decimal rendering of a section number reads back as that number |
| Navigation.GoTo | js/app.js:129-131 | a target in 1..20 becomes the current slide; any other target is ignored |
| Navigation.Back | js/app.js:96-99 | previous leaves for the intake page exactly at slide 1 or below, and otherwise goes to the slide before |
| Navigation.Forward | js/app.js:100-103 | next leaves for the help page exactly at slide 20 or above, and otherwise goes to the slide after |
| Navigation.StepsByOne | js/app.js:96-103 | inside the deck, previous and next move exactly one slide and stay in range |
| Navigation.ForwardBackRoundTrip | js/app.js:96-103 | next then previous, or previous then next, returns to the start |
| Navigation.WalkThroughDeck | js/app.js:100-103 | k presses of next from slide 1 reach slide 1 + k while k < 20 |
| Navigation.LeavesForHelp | js/app.js:100-103 | the twentieth press of next from slide 1 leaves for the help page |
| Viewer.Viewer.GoToSlide | js/app.js:129-136 | the slide becomes `Navigation.GoTo` of the old slide; list and notes are unchanged |
| Viewer.Viewer.Prev | js/app.js:96-99 | the outcome is `Navigation.Back`; the slide moves only inside the deck |
| Viewer.Viewer.Next | js/app.js:100-103 | the outcome is `Navigation.Forward`; the slide moves only inside the deck |
| Viewer.Viewer.constructor | js/app.js:8-12 | a session starts on slide 1 with nothing collected and no notes |
| Catalog.SlideTitle | js/app.js:15-36 | a title exists exactly for slides 1..20 |
| Catalog.OnSlide | js/app.js:168 | exactly the catalog entries of the slide are selected |
| Catalog.OnSlideConcat | js/app.js:168 | the selection keeps catalog order |
| Catalog.FirstMasterIsFirst | js/app.js:169 | the master shown is the earliest `master` entry, and none is shown only when there is none |
| Catalog.NonMasters | js/app.js:170 | exactly the non-master entries are kept |
| Catalog.NonMastersConcat | js/app.js:170 | the specialized entries keep catalog order |
| Catalog.MenuDropsLaterMasters | js/app.js:168-170 | a slide shows all its specialized entries and exactly one master when it has any; further masters are dropped |
| Catalog.SlideMenu | js/app.js:168-170 | the menu offers only catalog entries of that slide, the master typed `master` and the specialized ones not |

## Left out

- The DOM is not modelled: rendering, hotspot circles, tooltip placement, the mobile list, the navigation drawer and event wiring (js/app.js:138-293, 364-419). These are presentation only.
- Clipboard copying, the `execCommand` fallback and the toast timer are browser I/O. `CopyPrompt` models only the collecting half.
- Loading `prompts.json`, `JSON.parse`, `localStorage` and `sessionStorage` are not modelled. The catalog is a constructor parameter, and a failed load is the empty catalog. Session state is held in the class fields. Restoring state from storage at start-up is not modelled (including `parseInt` of the saved slide): a session starts on slide 1 with nothing collected.
- The date from `toLocaleDateString` is an opaque string parameter.
- The Blob, URL and anchor download is not modelled. The export's value is the file name and the Markdown text. The page redirects are the outcomes `ToIntro` and `ToHelp`.
- `slideNumbers` and `topicsExplored` (js/app.js:465-466) are computed and never used, so they are not modelled.
- Template.FillTemplate: `$` patterns in the name are not expanded. The name is inserted literally, as when it contains no `$`.
- Template.FillTemplate: the `i` flag is modelled as ASCII case folding. This matches a non-Unicode JavaScript regular expression with ASCII-only patterns. `\s+` takes the whole white-space run, which matches backtracking because a letter always follows it in these patterns.
- Template.Idempotent: holds only for a name that cannot complete a placeholder and a template whose `{{profession}}` is always lower case. `Template.NameCanForgeToken` shows a name without `{{` or `$` that leaves a `{{name}}` behind. A name such as `As a ` before a `{{Profession}}` would also be collapsed by a second pass.
- Template.NoPlaceholderLeft: holds only for a name that cannot complete `{{name}}`. Placeholders in another case, such as `{{Name}}`, are not exact tokens and do survive.
- Export.Slug: lower-cases ASCII letters only. Full Unicode `toLowerCase` (for example, letters that change length) is not modelled.
- The learner's name is a string, and an absent name is the empty string. An absent profession or curiosity, which the page would print as `undefined`, is not modelled.
- Note keys are integers. JavaScript stores them as property-name strings and turns them back into numbers with `Number`. Slide numbers are integers, so that round trip is the identity.

## Behaviour worth knowing

- `saveCustomNote` stores the note as typed, untrimmed (js/app.js:430); `trim()` only decides whether the note is empty and so removed.
- Rendering is not idempotent in general: `Template.NameCanForgeToken` gives a name and a template for which a second rendering changes the text. `Template.Idempotent` proves idempotence under sufficient conditions: a name that cannot complete a placeholder and a template that writes every `{{profession}}` in lower case.
- The file name turns each run of any white space, not only of spaces, into one hyphen (js/app.js:555).
- A note-only slide outside 1..20 has no title. The heading prints `undefined`, and the topic list prints an empty string, which is how `Array.prototype.join` prints `undefined`.
