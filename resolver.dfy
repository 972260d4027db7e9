/**
 * Record resolution, the body of the `download` command: checking the shortname,
 * defaulting the destination and turning the corpus's `text` entry into the
 * ordered list of downloads to perform.
 */
module Resolver {
  import opened Wrappers
  import opened Strings
  import opened Registry

  /** One download: a URL, the file format that selects the strategy, and the destination directory. */
  datatype Job = Job(url: string, format: string, destination: string)

  /** The two ways `download` refuses before anything is fetched. */
  datatype DownloadError =
    | ShortnameNotFound
      // the corpus lists several markup variants and no `--markup` was given:
      // how many there are and their tags joined with ", "
    | AmbiguousMarkup(count: nat, markupTypes: string)

  function JobOf(v: Variant, destination: string): Job
  {
    Job(v.url, v.format, destination)
  }

  /** The markup tag of every variant, in list order. */
  function Markups(variants: seq<Variant>): seq<string>
  {
    seq(|variants|, i requires 0 <= i < |variants| => variants[i].markup)
  }

  /** A download for every variant, in list order. */
  function AllJobs(variants: seq<Variant>, destination: string): seq<Job>
  {
    seq(|variants|, i requires 0 <= i < |variants| => JobOf(variants[i], destination))
  }

  /** The downloads of the variants whose markup tag is one of `markups`, in list order. */
  function Selected(variants: seq<Variant>, markups: seq<string>, destination: string): seq<Job>
    decreases |variants|
  {
    if variants == [] then []
    else if variants[0].markup in markups then
      [JobOf(variants[0], destination)] + Selected(variants[1..], markups, destination)
    else Selected(variants[1..], markups, destination)
  }

  /**
   * `idx` lists, in increasing order, exactly the positions of the variants whose
   * markup tag is one of `markups`.
   */
  ghost predicate PicksExactly(variants: seq<Variant>, markups: seq<string>, idx: seq<int>)
  {
    (forall k :: 0 <= k < |idx| ==> 0 <= idx[k] < |variants|)
    && (forall k, l :: 0 <= k < l < |idx| ==> idx[k] < idx[l])
    && (forall i :: 0 <= i < |variants| ==> (variants[i].markup in markups <==> i in idx))
  }

  /** Every index moved one position on, for a list that gained a variant at its front. */
  ghost function Shifted(idx: seq<int>): (r: seq<int>)
    ensures |r| == |idx|
  {
    seq(|idx|, k requires 0 <= k < |idx| => idx[k] + 1)
  }

  lemma ShiftedMembers(idx: seq<int>)
    ensures forall i :: i in Shifted(idx) <==> i - 1 in idx
  {
    forall i
      ensures i in Shifted(idx) <==> i - 1 in idx
    {
      if i - 1 in idx {
        var k :| 0 <= k < |idx| && idx[k] == i - 1;
        assert Shifted(idx)[k] == i;
      }
    }
  }

  /** The positions picked in `rest`, moved on by one, plus the front variant when it is selected. */
  lemma PicksCons(v: Variant, rest: seq<Variant>, markups: seq<string>, idx: seq<int>)
    requires PicksExactly(rest, markups, idx)
    ensures PicksExactly([v] + rest, markups, (if v.markup in markups then [0] else []) + Shifted(idx))
  {
    var variants := [v] + rest;
    var moved := Shifted(idx);
    ShiftedMembers(idx);
    assert forall i :: 1 <= i < |variants| ==> variants[i] == rest[i - 1];
    assert PicksExactly(variants[1..], markups, idx);
    assert 0 !in moved;
    assert forall i :: 1 <= i < |variants| ==> (variants[i].markup in markups <==> i in moved);
    if v.markup in markups {
      PicksFront(variants, markups, moved);
    } else {
      assert PicksExactly(variants, markups, moved);
    }
  }

  lemma PicksFront(variants: seq<Variant>, markups: seq<string>, moved: seq<int>)
    requires |variants| > 0 && variants[0].markup in markups && 0 !in moved
    requires forall k :: 0 <= k < |moved| ==> 1 <= moved[k] < |variants|
    requires forall k, l :: 0 <= k < l < |moved| ==> moved[k] < moved[l]
    requires forall i :: 1 <= i < |variants| ==> (variants[i].markup in markups <==> i in moved)
    ensures PicksExactly(variants, markups, [0] + moved)
  {
    var all := [0] + moved;
    assert forall k :: 1 <= k < |all| ==> all[k] == moved[k - 1];
    assert forall i :: i in all <==> i == 0 || i in moved;
  }

  /** The positions of the selected variants, in increasing order. */
  ghost function PickedIndices(variants: seq<Variant>, markups: seq<string>): seq<int>
    decreases |variants|
  {
    if variants == [] then []
    else (if variants[0].markup in markups then [0] else []) + Shifted(PickedIndices(variants[1..], markups))
  }

  lemma {:induction false} PickedIndicesPick(variants: seq<Variant>, markups: seq<string>)
    ensures PicksExactly(variants, markups, PickedIndices(variants, markups))
    decreases |variants|
  {
    if variants != [] {
      PickedIndicesPick(variants[1..], markups);
      assert variants == [variants[0]] + variants[1..];
      PicksCons(variants[0], variants[1..], markups, PickedIndices(variants[1..], markups));
    }
  }

  lemma {:induction false} PickedIndicesJobs(variants: seq<Variant>, markups: seq<string>, destination: string)
    ensures |PickedIndices(variants, markups)| == |Selected(variants, markups, destination)|
    ensures forall k :: 0 <= k < |PickedIndices(variants, markups)| ==>
      0 <= PickedIndices(variants, markups)[k] < |variants| &&
      Selected(variants, markups, destination)[k] == JobOf(variants[PickedIndices(variants, markups)[k]], destination)
    decreases |variants|
  {
    if variants != [] {
      var rest := variants[1..];
      PickedIndicesJobs(rest, markups, destination);
      var idx' := PickedIndices(rest, markups);
      var tail := Selected(rest, markups, destination);
      if variants[0].markup in markups {
        var idx := [0] + Shifted(idx');
        var jobs := [JobOf(variants[0], destination)] + tail;
        assert PickedIndices(variants, markups) == idx;
        assert Selected(variants, markups, destination) == jobs;
        forall k | 1 <= k < |idx|
          ensures 0 <= idx[k] < |variants| && jobs[k] == JobOf(variants[idx[k]], destination)
        {
          assert idx[k] == idx'[k - 1] + 1 && jobs[k] == tail[k - 1];
        }
      } else {
        var idx := Shifted(idx');
        assert PickedIndices(variants, markups) == idx;
        assert Selected(variants, markups, destination) == tail;
        forall k | 0 <= k < |idx|
          ensures 0 <= idx[k] < |variants| && tail[k] == JobOf(variants[idx[k]], destination)
        {
          assert idx[k] == idx'[k] + 1;
        }
      }
    }
  }

  /**
   * The selection, position by position: the k-th download is the download of the
   * k-th selected variant, so there is one download per selected variant and none
   * for any other, even when two variants share their url and format.
   */
  lemma SelectedByIndex(variants: seq<Variant>, markups: seq<string>, destination: string)
    ensures exists idx :: (PicksExactly(variants, markups, idx)
      && |idx| == |Selected(variants, markups, destination)|
      && forall k :: 0 <= k < |idx| ==> Selected(variants, markups, destination)[k] == JobOf(variants[idx[k]], destination))
  {
    PickedIndicesPick(variants, markups);
    PickedIndicesJobs(variants, markups, destination);
    var idx := PickedIndices(variants, markups);
    assert PicksExactly(variants, markups, idx);
  }

  /**
   * A variant is downloaded exactly when its tag is selected; the downloads come in
   * the order of the variants; a selector that matches no variant gives no download.
   */
  lemma {:induction false} SelectedKeeps(variants: seq<Variant>, markups: seq<string>, destination: string)
    ensures forall j :: j in Selected(variants, markups, destination) <==>
      exists v :: v in variants && v.markup in markups && j == JobOf(v, destination)
    ensures IsSubsequence(Selected(variants, markups, destination), AllJobs(variants, destination))
    ensures |Selected(variants, markups, destination)| <= |variants|
    decreases |variants|
  {
    if variants != [] {
      var rest := variants[1..];
      SelectedKeeps(rest, markups, destination);
      assert forall v :: v in variants <==> v == variants[0] || v in rest;
      assert AllJobs(variants, destination)[1..] == AllJobs(rest, destination);
    }
  }

  /** Selection distributes over concatenation of variant lists. */
  lemma {:induction false} SelectedConcat(a: seq<Variant>, b: seq<Variant>, markups: seq<string>, destination: string)
    ensures Selected(a + b, markups, destination) == Selected(a, markups, destination) + Selected(b, markups, destination)
    decreases |a|
  {
    if a != [] {
      SelectedConcat(a[1..], b, markups, destination);
      assert (a + b)[0] == a[0] && (a + b)[1..] == a[1..] + b;
    } else {
      assert a + b == b;
    }
  }

  /** One download per mirror URL, in URL order, all with the variant's format. */
  function MirrorJobs(urls: seq<string>, format: string, destination: string): seq<Job>
  {
    seq(|urls|, i requires 0 <= i < |urls| => Job(urls[i], format, destination))
  }

  /**
   * Resolution of a `text` entry into downloads.
   * A list of variants fails without a markup selector, and otherwise downloads
   * the variants whose tag is among the comma-separated selector's tags; a single
   * variant with a list of URLs downloads every URL; a single variant with one URL
   * downloads that URL. Only the first shape consults the selector, and every
   * download goes to `destination`.
   */
  function ResolveText(text: Text, markup: Option<string>, destination: string): (r: Result<seq<Job>, DownloadError>)
    ensures r.Failure? <==> text.Alternatives? && markup.None?
    ensures r.Failure? ==> r.error.AmbiguousMarkup? && r.error.count == |text.variants|
    ensures r.Success? && text.Alternatives? ==>
      (forall j :: j in r.value <==>
        exists v :: v in text.variants && v.markup in Split(markup.value, ',') && j == JobOf(v, destination))
      && IsSubsequence(r.value, AllJobs(text.variants, destination))
      && (exists idx :: (PicksExactly(text.variants, Split(markup.value, ','), idx)
        && |idx| == |r.value|
        && forall k :: 0 <= k < |idx| ==> r.value[k] == JobOf(text.variants[idx[k]], destination)))
    ensures r.Success? && text.Mirrors? ==>
      |r.value| == |text.urls| &&
      forall i :: 0 <= i < |r.value| ==> r.value[i] == Job(text.urls[i], text.format, destination)
    ensures r.Success? && text.Single? ==> r.value == [JobOf(text.variant, destination)]
    ensures r.Success? ==> forall i :: 0 <= i < |r.value| ==> r.value[i].destination == destination
  {
    match text
    case Alternatives(variants) =>
      if markup.None? then
        Failure(AmbiguousMarkup(|variants|, Join(Markups(variants), ", ")))
      else
        var jobs := Selected(variants, Split(markup.value, ','), destination);
        SelectedKeeps(variants, Split(markup.value, ','), destination);
        SelectedByIndex(variants, Split(markup.value, ','), destination);
        assert forall i :: 0 <= i < |jobs| ==> jobs[i] in jobs;
        Success(jobs)
    case Mirrors(_, format, urls) => Success(MirrorJobs(urls, format, destination))
    case Single(variant) => Success([JobOf(variant, destination)])
  }

  /**
   * The `download` command up to the first download: a shortname that is not in
   * the registry is an error and nothing is resolved; otherwise the corpus's
   * `text` is resolved into downloads to `destination`, or to the configured
   * `downloadTo` when no destination was given.
   */
  function Resolve(registry: seq<CorpusRecord>, shortname: string, destination: Option<string>,
                   markup: Option<string>, downloadTo: string): (r: Result<seq<Job>, DownloadError>)
    ensures r == Failure(ShortnameNotFound) <==>
      forall i :: 0 <= i < |registry| ==> registry[i].shortname != shortname
    ensures r != Failure(ShortnameNotFound) ==> exists i :: (0 <= i < |registry| && registry[i].shortname == shortname &&
      (forall k :: 0 <= k < i ==> registry[k].shortname != shortname) &&
      r == ResolveText(registry[i].text, markup, destination.GetOr(downloadTo)))
    ensures r.Success? ==> forall i :: 0 <= i < |r.value| ==>
      r.value[i].destination == (if destination.Some? then destination.value else downloadTo)
  {
    match Lookup(registry, shortname)
    case None => Failure(ShortnameNotFound)
    case Some(corpus) => ResolveText(corpus.text, markup, destination.GetOr(downloadTo))
  }

  /** The ambiguity error counts the variants and names every variant's markup tag. */
  lemma AmbiguityListsEveryTag(variants: seq<Variant>, destination: string)
    ensures ResolveText(Alternatives(variants), None, destination) ==
      Failure(AmbiguousMarkup(|variants|, Join(Markups(variants), ", ")))
    ensures forall k :: 0 <= k < |variants| ==>
      Contains(ResolveText(Alternatives(variants), None, destination).error.markupTypes, variants[k].markup)
  {
    forall k | 0 <= k < |variants|
      ensures Contains(Join(Markups(variants), ", "), variants[k].markup)
    {
      JoinContainsEach(Markups(variants), ", ", k);
    }
  }

  /** Outside the list shape the markup selector is ignored. */
  lemma SelectorIgnoredForOneVariant(text: Text, m1: Option<string>, m2: Option<string>, destination: string)
    requires !text.Alternatives?
    ensures ResolveText(text, m1, destination) == ResolveText(text, m2, destination)
  {
  }
}
