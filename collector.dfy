/**
 * The collected-prompt list that the export is built from. Clicking a
 * prompt records `{slide, title, label, prompt}` unless a record for the
 * same slide and label is already present; the list only ever grows at its
 * end, and the prompt counter shows its length.
 */
module Collector {

  /** `{ slide, title, label, prompt }`; `caption` is the record's `label`. */
  datatype Collected = Collected(slide: int, title: string, caption: string, prompt: string)

  /** What de-duplication compares: the slide and the label. */
  function KeyOf(e: Collected): (int, string)
  {
    (e.slide, e.caption)
  }

  /** `collectedPrompts.some(p => p.slide === slide && p.label === caption)` */
  predicate Has(cs: seq<Collected>, slide: int, caption: string)
  {
    exists i | 0 <= i < |cs| :: KeyOf(cs[i]) == (slide, caption)
  }

  /** No two records share a slide and a label. */
  predicate UniqueKeys(cs: seq<Collected>)
  {
    forall i, j | 0 <= i < j < |cs| :: KeyOf(cs[i]) != KeyOf(cs[j])
  }

  /**
   * The list after a click on the prompt labelled `caption` of slide
   * `slide`: nothing changes when that pair is already collected; otherwise
   * the new record goes at the end.
   */
  function Collect(cs: seq<Collected>, slide: int, title: string, caption: string, prompt: string)
    : (r: seq<Collected>)
    ensures |r| == |cs| + (if Has(cs, slide, caption) then 0 else 1)
    ensures r[..|cs|] == cs
    ensures |r| > |cs| ==> r[|cs|] == Collected(slide, title, caption, prompt)
    ensures Has(r, slide, caption)
  {
    if Has(cs, slide, caption) then cs
    else
      var r := cs + [Collected(slide, title, caption, prompt)];
      assert KeyOf(r[|cs|]) == (slide, caption);
      r
  }

  /** The list after a sequence of clicks, each given as the record it would add. */
  function CollectAll(clicks: seq<Collected>): (r: seq<Collected>)
    ensures UniqueKeys(r) && |r| <= |clicks|
  {
    if clicks == [] then []
    else
      var e := clicks[|clicks| - 1];
      var r0 := CollectAll(clicks[..|clicks| - 1]);
      CollectKeepsUnique(r0, e.slide, e.title, e.caption, e.prompt);
      Collect(r0, e.slide, e.title, e.caption, e.prompt)
  }

  /** The position of the first click on the pair `k`, or `|clicks|` if there is none. */
  function FirstIndex(clicks: seq<Collected>, k: (int, string)): (i: nat)
    ensures i <= |clicks|
    ensures i < |clicks| ==> KeyOf(clicks[i]) == k
    ensures forall j :: 0 <= j < i ==> KeyOf(clicks[j]) != k
  {
    if clicks == [] then 0
    else if KeyOf(clicks[0]) == k then 0
    else 1 + FirstIndex(clicks[1..], k)
  }

  /** Collecting keeps the pairs distinct. */
  lemma CollectKeepsUnique(cs: seq<Collected>, slide: int, title: string, caption: string, prompt: string)
    requires UniqueKeys(cs)
    ensures UniqueKeys(Collect(cs, slide, title, caption, prompt))
  {
    var r := Collect(cs, slide, title, caption, prompt);
    forall i, j | 0 <= i < j < |r| ensures KeyOf(r[i]) != KeyOf(r[j]) {
      if j == |cs| {
        assert r[i] == cs[i];
        assert !Has(cs, slide, caption);
      } else {
        assert r[i] == cs[i] && r[j] == cs[j];
      }
    }
  }

  /**
   * A second click on a collected pair changes nothing: the first record,
   * with its title and prompt text, stays.
   */
  lemma RecollectIsNoOp(cs: seq<Collected>, slide: int, title: string, caption: string, prompt: string,
                        title': string, prompt': string)
    ensures var once := Collect(cs, slide, title, caption, prompt);
            Collect(once, slide, title', caption, prompt') == once
  {
  }

  /** A pair is collected exactly when some click was on it. */
  lemma {:induction false} CollectAllHas(clicks: seq<Collected>, slide: int, caption: string)
    ensures Has(CollectAll(clicks), slide, caption) <==> Has(clicks, slide, caption)
  {
    if clicks != [] {
      var init := clicks[..|clicks| - 1];
      var e := clicks[|clicks| - 1];
      assert clicks == init + [e];
      CollectAllHas(init, slide, caption);
      HasCollect(CollectAll(init), e.slide, e.title, e.caption, e.prompt, slide, caption);
      HasAppend(init, e, slide, caption);
    }
  }

  /** After a collect, a pair is present when it was before or is the one collected. */
  lemma HasCollect(cs: seq<Collected>, slide: int, title: string, caption: string, prompt: string,
                   s: int, c: string)
    ensures Has(Collect(cs, slide, title, caption, prompt), s, c) <==> Has(cs, s, c) || (s, c) == (slide, caption)
  {
    var r := Collect(cs, slide, title, caption, prompt);
    if Has(r, s, c) {
      var a :| 0 <= a < |r| && KeyOf(r[a]) == (s, c);
      if a < |cs| {
        assert r[a] == cs[a];
      }
    }
    if Has(cs, s, c) {
      var a :| 0 <= a < |cs| && KeyOf(cs[a]) == (s, c);
      assert r[a] == cs[a];
    }
  }

  /** A click sequence with one more click has a pair when the shorter one did or the new click is on it. */
  lemma HasAppend(cs: seq<Collected>, e: Collected, s: int, c: string)
    ensures Has(cs + [e], s, c) <==> Has(cs, s, c) || KeyOf(e) == (s, c)
  {
    var r := cs + [e];
    if Has(r, s, c) {
      var a :| 0 <= a < |r| && KeyOf(r[a]) == (s, c);
      if a < |cs| {
        assert r[a] == cs[a];
      }
    }
    if Has(cs, s, c) {
      var a :| 0 <= a < |cs| && KeyOf(cs[a]) == (s, c);
      assert r[a] == cs[a];
    }
    if KeyOf(e) == (s, c) {
      assert r[|cs|] == e;
    }
  }

  /** The clicks after the first one on a pair do not move it. */
  lemma {:induction false} FirstIndexAppend(clicks: seq<Collected>, e: Collected, k: (int, string))
    ensures FirstIndex(clicks + [e], k)
            == if FirstIndex(clicks, k) < |clicks| then FirstIndex(clicks, k)
               else if KeyOf(e) == k then |clicks| else |clicks| + 1
  {
    if clicks != [] {
      assert (clicks + [e])[1..] == clicks[1..] + [e];
      FirstIndexAppend(clicks[1..], e, k);
    }
  }

  /**
   * `r` consists of the first click on each pair of `clicks`, in the order of
   * those first clicks, with no pair twice.
   */
  predicate FirstClicks(clicks: seq<Collected>, r: seq<Collected>)
  {
    && UniqueKeys(r)
    && (forall a :: 0 <= a < |r| ==>
          FirstIndex(clicks, KeyOf(r[a])) < |clicks| && clicks[FirstIndex(clicks, KeyOf(r[a]))] == r[a])
    && (forall a, b :: 0 <= a < b < |r| ==>
          FirstIndex(clicks, KeyOf(r[a])) < FirstIndex(clicks, KeyOf(r[b])))
  }

  /**
   * The collected list consists of the first click on each pair, in the
   * order of those first clicks: the first click wins and nothing is
   * reordered by later ones.
   */
  lemma {:induction false} CollectAllFirstWins(clicks: seq<Collected>)
    ensures FirstClicks(clicks, CollectAll(clicks))
  {
    if clicks != [] {
      var init := clicks[..|clicks| - 1];
      var e := clicks[|clicks| - 1];
      assert clicks == init + [e];
      CollectAllFirstWins(init);
      FirstClicksStep(init, e);
    }
  }

  /** One more click keeps the list made of first clicks. */
  lemma FirstClicksStep(init: seq<Collected>, e: Collected)
    requires FirstClicks(init, CollectAll(init))
    ensures FirstClicks(init + [e], Collect(CollectAll(init), e.slide, e.title, e.caption, e.prompt))
  {
    var r0 := CollectAll(init);
    CollectKeepsUnique(r0, e.slide, e.title, e.caption, e.prompt);
    StepFacts(init, e);
    StepKeepsFirst(init, e);
    StepKeepsOrder(init, e);
  }

  /** What one more click does to the first-click positions of the list. */
  lemma StepFacts(init: seq<Collected>, e: Collected)
    requires FirstClicks(init, CollectAll(init))
    ensures var r0 := CollectAll(init);
            var r := Collect(r0, e.slide, e.title, e.caption, e.prompt);
            && (forall a :: 0 <= a < |r0| ==> FirstIndex(init + [e], KeyOf(r0[a])) == FirstIndex(init, KeyOf(r0[a])))
            && (|r| > |r0| ==> r == r0 + [e] && FirstIndex(init + [e], KeyOf(e)) == |init|)
  {
    var r0 := CollectAll(init);
    var r := Collect(r0, e.slide, e.title, e.caption, e.prompt);
    forall a | 0 <= a < |r0| ensures FirstIndex(init + [e], KeyOf(r0[a])) == FirstIndex(init, KeyOf(r0[a])) {
      FirstIndexAppend(init, e, KeyOf(r0[a]));
    }
    if |r| > |r0| {
      CollectAllHas(init, e.slide, e.caption);
      FirstIndexAppend(init, e, KeyOf(e));
      assert r == r0 + [e];
    }
  }

  lemma StepKeepsFirst(init: seq<Collected>, e: Collected)
    requires FirstClicks(init, CollectAll(init))
    ensures var r := Collect(CollectAll(init), e.slide, e.title, e.caption, e.prompt);
            forall a :: 0 <= a < |r| ==>
              FirstIndex(init + [e], KeyOf(r[a])) < |init + [e]| && (init + [e])[FirstIndex(init + [e], KeyOf(r[a]))] == r[a]
  {
    var clicks := init + [e];
    var r0 := CollectAll(init);
    var r := Collect(r0, e.slide, e.title, e.caption, e.prompt);
    StepFacts(init, e);
    forall a | 0 <= a < |r|
      ensures FirstIndex(clicks, KeyOf(r[a])) < |clicks| && clicks[FirstIndex(clicks, KeyOf(r[a]))] == r[a]
    {
      if a < |r0| {
        assert r[a] == r0[a];
        assert clicks[FirstIndex(init, KeyOf(r0[a]))] == init[FirstIndex(init, KeyOf(r0[a]))];
      }
    }
  }

  lemma StepKeepsOrder(init: seq<Collected>, e: Collected)
    requires FirstClicks(init, CollectAll(init))
    ensures var r := Collect(CollectAll(init), e.slide, e.title, e.caption, e.prompt);
            forall a, b :: 0 <= a < b < |r| ==>
              FirstIndex(init + [e], KeyOf(r[a])) < FirstIndex(init + [e], KeyOf(r[b]))
  {
    var clicks := init + [e];
    var r0 := CollectAll(init);
    var r := Collect(r0, e.slide, e.title, e.caption, e.prompt);
    StepFacts(init, e);
    forall a, b | 0 <= a < b < |r|
      ensures FirstIndex(clicks, KeyOf(r[a])) < FirstIndex(clicks, KeyOf(r[b]))
    {
      assert r[a] == r0[a];
      if b < |r0| {
        assert r[b] == r0[b];
      }
    }
  }

  /** The distinct pairs clicked. */
  function Pairs(cs: seq<Collected>): set<(int, string)>
  {
    set i | 0 <= i < |cs| :: KeyOf(cs[i])
  }

  lemma {:induction false} UniquePairsCount(cs: seq<Collected>)
    requires UniqueKeys(cs)
    ensures |Pairs(cs)| == |cs|
  {
    if cs != [] {
      var init := cs[..|cs| - 1];
      UniquePairsCount(init);
      assert Pairs(cs) == Pairs(init) + {KeyOf(cs[|cs| - 1])} by {
        forall k | k in Pairs(cs) ensures k in Pairs(init) + {KeyOf(cs[|cs| - 1])} {
          var i :| 0 <= i < |cs| && KeyOf(cs[i]) == k;
          if i < |init| { assert cs[i] == init[i]; }
        }
        forall k | k in Pairs(init) ensures k in Pairs(cs) {
          var i :| 0 <= i < |init| && KeyOf(init[i]) == k;
          assert cs[i] == init[i];
        }
      }
      assert KeyOf(cs[|cs| - 1]) !in Pairs(init);
    }
  }

  /** The prompt counter ends up showing the number of distinct (slide, label) pairs clicked. */
  lemma CountIsDistinctPairs(clicks: seq<Collected>)
    ensures |CollectAll(clicks)| == |Pairs(clicks)|
  {
    var r := CollectAll(clicks);
    UniquePairsCount(r);
    forall k ensures k in Pairs(r) <==> k in Pairs(clicks) {
      CollectAllHas(clicks, k.0, k.1);
      if k in Pairs(r) {
        var a :| 0 <= a < |r| && KeyOf(r[a]) == k;
        assert Has(r, k.0, k.1);
      }
      if k in Pairs(clicks) {
        var i :| 0 <= i < |clicks| && KeyOf(clicks[i]) == k;
        assert Has(clicks, k.0, k.1);
        var a :| 0 <= a < |r| && KeyOf(r[a]) == k;
      }
    }
    assert Pairs(r) == Pairs(clicks);
  }
}
