/**
 * The learner's free-text notes: a sparse map from slide number to text.
 * Saving text that trims to nothing deletes the slide's entry; any other
 * text is stored exactly as typed, untrimmed. A slide without an entry
 * reads back as the empty string.
 */
module Notes {
  import opened Text

  type NoteMap = map<int, string>

  /** The notes after `saveCustomNote(slide, text)`. */
  function Saved(notes: NoteMap, slide: int, text: string): (r: NoteMap)
    ensures IsBlank(text) ==> slide !in r
    ensures !IsBlank(text) ==> slide in r && r[slide] == text
    ensures forall k :: k != slide ==> (k in r <==> k in notes)
    ensures forall k :: k != slide && k in r ==> r[k] == notes[k]
  {
    TrimEmptyIffBlank(text);
    if Trim(text) != [] then notes[slide := text] else notes - {slide}
  }

  /** `notes[slide] || ''` */
  function Read(notes: NoteMap, slide: int): (t: string)
    ensures slide !in notes ==> t == []
    ensures slide in notes ==> t == notes[slide]
  {
    if slide in notes then notes[slide] else []
  }

  /** Every stored note has something besides white space. */
  predicate NonBlank(notes: NoteMap)
  {
    forall k :: k in notes ==> !IsBlank(notes[k])
  }

  /** Reading a slide back gives what was saved, or nothing if it was blank. */
  lemma ReadAfterSave(notes: NoteMap, slide: int, text: string)
    ensures Read(Saved(notes, slide, text), slide) == if IsBlank(text) then [] else text
  {
  }

  /** Saving one slide's note leaves every other slide's note as it was. */
  lemma SaveKeepsOthers(notes: NoteMap, slide: int, text: string, other: int)
    requires other != slide
    ensures Read(Saved(notes, slide, text), other) == Read(notes, other)
  {
  }

  /** The store only ever holds notes with visible text. */
  lemma SavePreservesNonBlank(notes: NoteMap, slide: int, text: string)
    requires NonBlank(notes)
    ensures NonBlank(Saved(notes, slide, text))
  {
  }

  /** Saving the same text twice is the same as saving it once; the later of two saves wins. */
  lemma SaveOverwrites(notes: NoteMap, slide: int, first: string, second: string)
    ensures Saved(Saved(notes, slide, first), slide, second) == Saved(notes, slide, second)
  {
    var once := Saved(notes, slide, first);
    SavedIs(notes, slide, second, Saved(once, slide, second));
  }

  /** A map that agrees with `notes` off `slide` and holds what saving `text` puts at `slide` is that save. */
  lemma SavedIs(notes: NoteMap, slide: int, text: string, r: NoteMap)
    requires IsBlank(text) ==> slide !in r
    requires !IsBlank(text) ==> slide in r && r[slide] == text
    requires forall k :: k != slide ==> (k in r <==> k in notes)
    requires forall k :: k != slide && k in r ==> r[k] == notes[k]
    ensures r == Saved(notes, slide, text)
  {
    var b := Saved(notes, slide, text);
    assert r.Keys == b.Keys by {
      forall k ensures k in r <==> k in b {
        if k != slide {
          assert k in r <==> k in notes;
        }
      }
    }
    assert forall k :: k in r ==> r[k] == b[k];
    SameEntries(r, b);
  }

  /** Two stores with the same slides and the same text on each are the same store. */
  lemma SameEntries(r: NoteMap, b: NoteMap)
    requires r.Keys == b.Keys && forall k :: k in r ==> r[k] == b[k]
    ensures r == b
  {
    forall k ensures k in r <==> k in b {
      assert k in r.Keys <==> k in b.Keys;
    }
    forall k | k in r ensures r[k] == b[k] {
    }
    assert r == b;
  }

  /** In a store of non-blank notes, a slide reads as empty exactly when it has no entry. */
  lemma ReadEmptyIffAbsent(notes: NoteMap, slide: int)
    requires NonBlank(notes)
    ensures Read(notes, slide) == [] <==> slide !in notes
  {
    if slide in notes {
      assert !IsBlank(notes[slide]);
    }
  }
}
