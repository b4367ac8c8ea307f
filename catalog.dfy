/**
 * The deck and its prompt catalog: the twenty slide titles, and the rule that
 * splits the catalog entries of one slide into the master prompt (the first
 * entry typed "master") and the numbered specialized prompts (every entry of
 * another type, in catalog order). Further master entries are never shown.
 */
module Catalog {
  import opened Wrappers

  /** `totalSlides` */
  const TotalSlides := 20

  /** `slideTitles` */
  const SlideTitles: seq<string> := [
    "Economics of AI",
    "The Central Tension",
    "The Pipeline: AI Economics",
    "UPSTREAM: Cost Structure",
    "Silicon & Infrastructure",
    "Data: The New Constraint",
    "Training vs. Inference",
    "Energy & Talent",
    "MIDSTREAM: Market Structure",
    "The Two-Tier Oligopoly",
    "Why Oligopoly Persists",
    "Open Source: Competitive Force",
    "Supply Chains & Geopolitics",
    "DOWNSTREAM: Markets & Impacts",
    "Pricing & Business Models",
    "The Agentic Economy",
    "Labor Markets & Productivity",
    "Who Captures the Gains?",
    "The Spine: 12 Takeaways",
    "Thank You"
  ]

  /** `slideTitles[n - 1]`, where `None` is JavaScript's `undefined`. */
  function SlideTitle(n: int): (t: Option<string>)
    ensures t.Some? <==> 1 <= n <= TotalSlides
  {
    if 1 <= n <= |SlideTitles| then Some(SlideTitles[n - 1]) else None
  }

  /** A prompt's `type`: "master", or anything else. */
  datatype Kind = Master | Specialized

  /** One record of the prompt catalog; `caption` is the record's `label`. */
  datatype Entry = Entry(slide: int, kind: Kind, caption: string, prompt: string)

  /** What a slide offers: the starred master prompt, if any, then the numbered ones. */
  datatype Menu = Menu(master: Option<Entry>, specialized: seq<Entry>)

  /** `prompts.filter(p => p.slide === n)` */
  function OnSlide(catalog: seq<Entry>, n: int): (r: seq<Entry>)
    ensures |r| <= |catalog|
    ensures forall i :: 0 <= i < |r| ==> r[i].slide == n && r[i] in catalog
    ensures forall i :: 0 <= i < |catalog| && catalog[i].slide == n ==> catalog[i] in r
  {
    if catalog == [] then []
    else (if catalog[0].slide == n then [catalog[0]] else []) + OnSlide(catalog[1..], n)
  }

  /** The position of the first entry typed "master", or `|es|` when there is none. */
  function FirstMasterIndex(es: seq<Entry>): (i: nat)
    ensures i <= |es|
    ensures forall j :: 0 <= j < i ==> es[j].kind != Master
    ensures i < |es| ==> es[i].kind == Master
  {
    if es == [] || es[0].kind == Master then 0 else 1 + FirstMasterIndex(es[1..])
  }

  /** `slidePrompts.find(p => p.type === 'master')` */
  function FirstMaster(es: seq<Entry>): (m: Option<Entry>)
  {
    var i := FirstMasterIndex(es);
    if i < |es| then Some(es[i]) else None
  }

  /** `find` yields the earliest master, and nothing only when there is none. */
  lemma FirstMasterIsFirst(es: seq<Entry>)
    ensures FirstMaster(es).None? <==> forall i :: 0 <= i < |es| ==> es[i].kind != Master
    ensures FirstMaster(es).Some? ==>
              exists i :: 0 <= i < |es| && es[i] == FirstMaster(es).value && es[i].kind == Master
                          && forall j :: 0 <= j < i ==> es[j].kind != Master
  {
    var i := FirstMasterIndex(es);
    if i < |es| {
      assert es[i] == FirstMaster(es).value;
    }
  }

  /** `slidePrompts.filter(p => p.type !== 'master')` */
  function NonMasters(es: seq<Entry>): (r: seq<Entry>)
    ensures |r| <= |es|
    ensures forall i :: 0 <= i < |r| ==> r[i].kind != Master && r[i] in es
    ensures forall i :: 0 <= i < |es| && es[i].kind != Master ==> es[i] in r
  {
    if es == [] then []
    else (if es[0].kind != Master then [es[0]] else []) + NonMasters(es[1..])
  }

  /**
   * The menu of slide `n`. It offers only entries of the catalog recorded
   * for that slide: a master entry as the master, the others as the
   * specialized prompts.
   */
  function SlideMenu(catalog: seq<Entry>, n: int): (menu: Menu)
    ensures menu.master.Some? ==> menu.master.value in catalog && menu.master.value.slide == n
                                  && menu.master.value.kind == Master
    ensures forall i :: 0 <= i < |menu.specialized| ==>
              menu.specialized[i] in catalog && menu.specialized[i].slide == n
              && menu.specialized[i].kind != Master
  {
    var es := OnSlide(catalog, n);
    var menu := Menu(FirstMaster(es), NonMasters(es));
    assert menu.master.Some? ==> es[FirstMasterIndex(es)] == menu.master.value;
    menu
  }

  /** How many entries are typed "master". */
  function MasterCount(es: seq<Entry>): nat
  {
    if es == [] then 0 else (if es[0].kind == Master then 1 else 0) + MasterCount(es[1..])
  }

  /** Selecting a slide's entries keeps catalog order: it distributes over concatenation. */
  lemma {:induction false} OnSlideConcat(a: seq<Entry>, b: seq<Entry>, n: int)
    ensures OnSlide(a + b, n) == OnSlide(a, n) + OnSlide(b, n)
  {
    if a == [] {
      assert a + b == b;
    } else {
      assert (a + b)[1..] == a[1..] + b;
      OnSlideConcat(a[1..], b, n);
    }
  }

  /** The specialized prompts keep catalog order: the split distributes over concatenation. */
  lemma {:induction false} NonMastersConcat(a: seq<Entry>, b: seq<Entry>)
    ensures NonMasters(a + b) == NonMasters(a) + NonMasters(b)
  {
    if a == [] {
      assert a + b == b;
    } else {
      assert (a + b)[1..] == a[1..] + b;
      NonMastersConcat(a[1..], b);
    }
  }

  /** Every entry is either a master or specialized, so the two counts add up. */
  lemma {:induction false} SplitCounts(es: seq<Entry>)
    ensures |NonMasters(es)| + MasterCount(es) == |es|
  {
    if es != [] {
      SplitCounts(es[1..]);
    }
  }

  /**
   * A slide's menu shows all of its specialized entries and exactly one of
   * its masters when it has any: every master but the first is dropped.
   */
  lemma MenuDropsLaterMasters(catalog: seq<Entry>, n: int)
    ensures var es := OnSlide(catalog, n);
            var menu := SlideMenu(catalog, n);
            && (menu.master.Some? <==> MasterCount(es) > 0)
            && |menu.specialized| + (if menu.master.Some? then 1 else 0)
               == |es| - MasterCount(es) + (if MasterCount(es) > 0 then 1 else 0)
  {
    var es := OnSlide(catalog, n);
    SplitCounts(es);
    MasterCountZero(es);
    FirstMasterIsFirst(es);
  }

  lemma {:induction false} MasterCountZero(es: seq<Entry>)
    ensures MasterCount(es) == 0 <==> forall i :: 0 <= i < |es| ==> es[i].kind != Master
  {
    if es != [] {
      MasterCountZero(es[1..]);
      if MasterCount(es[1..]) != 0 {
        var i :| 0 <= i < |es[1..]| && es[1..][i].kind == Master;
        assert es[i + 1].kind == Master;
      }
      if MasterCount(es) == 0 {
        forall i | 0 <= i < |es| ensures es[i].kind != Master {
          if i > 0 { assert es[i] == es[1..][i - 1]; }
        }
      }
    }
  }

}
