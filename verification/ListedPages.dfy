/** The pages of a listing, one after the other, are all that is stored. */
module ListedPages {
  import opened Options
  import opened Records
  import opened Keys
  import opened Pagination
  import opened F = FlatStore
  import opened Refinement
  import opened IndexCoherence
  import Sorting

  /** The keys of the stored records, in ascending order. */
  ghost function ListedKeys(db: Db, fam: Family, t: string): seq<string> {
    match Slot(db, IndexPath(fam, t))
    case Some(Members(members)) => Sorting.Sorted(members)
    case _ => Sorting.Sorted({})
  }

  /** What the RPC that lists the records of a family answers. */
  ghost function ListAnswer(db: Db, now: int, fam: Family, t: string, pr: Option<PageRequest>): Response {
    match fam
    case Flags => DoListFlags(db, now, t, pr)
    case Experiments => DoListExperiments(db, now, t, pr)
    case ApiKeys => DoListAPIKeys(db, now, t, pr)
  }

  predicate IsPage(r: Response, fam: Family) {
    match fam
    case Flags => r.FlagPage?
    case Experiments => r.ExperimentPage?
    case ApiKeys => r.ApiKeyPage?
  }

  function FlagDocs(fs: seq<FlagDefinition>): (docs: seq<Doc>)
    ensures |docs| == |fs|
  {
    seq(|fs|, i requires 0 <= i < |fs| => FlagDoc(fs[i]))
  }

  function ExperimentDocs(es: seq<Experiment>): (docs: seq<Doc>)
    ensures |docs| == |es|
  {
    seq(|es|, i requires 0 <= i < |es| => ExperimentDoc(es[i]))
  }

  function ApiKeyDocs(t: string, ks: seq<APIKey>): (docs: seq<Doc>)
    ensures |docs| == |ks|
  {
    seq(|ks|, i requires 0 <= i < |ks| => ApiKeyDoc(ApiKeyData(t, ks[i])))
  }

  /** The records in an answer, as the store keeps them. */
  function ListedDocs(r: Response, t: string): seq<Doc> {
    match r
    case FlagPage(flags, _) => FlagDocs(flags)
    case ExperimentPage(experiments, _) => ExperimentDocs(experiments)
    case ApiKeyPage(keys, _) => ApiKeyDocs(t, keys)
    case _ => []
  }

  /** Under each key is the record at the same place. */
  predicate Match(db: Db, fam: Family, t: string, keys: seq<string>, docs: seq<Doc>) {
    && |docs| == |keys|
    && forall i :: 0 <= i < |keys| ==> Slot(db, RecordPath(fam, t, keys[i])) == Some(Data(docs[i], None))
  }

  predicate AllStored(db: Db, fam: Family, t: string, keys: seq<string>) {
    forall k <- keys :: IsRecordOf(Slot(db, RecordPath(fam, t, k)), fam, t, k)
  }

  // ---- What is fetched for keys that all have a record ----

  lemma {:induction false} FlagsMatch(db: Db, now: int, t: string, keys: seq<string>)
    requires AllStored(db, Flags, t, keys)
    ensures Match(db, Flags, t, keys, FlagDocs(FetchFlags(db, now, t, keys)))
    decreases |keys|
  {
    hide Render;
    if keys != [] {
      FlagsMatch(db, now, t, keys[1..]);
      assert IsRecordOf(Slot(db, RecordPath(Flags, t, keys[0])), Flags, t, keys[0]);
      assert |FetchFlags(db, now, t, keys)| == |FetchFlags(db, now, t, keys[1..])| + 1;
    }
  }

  lemma {:induction false} ExperimentsMatch(db: Db, now: int, t: string, keys: seq<string>)
    requires AllStored(db, Experiments, t, keys)
    ensures Match(db, Experiments, t, keys, ExperimentDocs(FetchExperiments(db, now, t, keys)))
    decreases |keys|
  {
    hide Render;
    if keys != [] {
      ExperimentsMatch(db, now, t, keys[1..]);
      assert IsRecordOf(Slot(db, RecordPath(Experiments, t, keys[0])), Experiments, t, keys[0]);
      assert |FetchExperiments(db, now, t, keys)| == |FetchExperiments(db, now, t, keys[1..])| + 1;
    }
  }

  lemma {:induction false} ApiKeysMatch(db: Db, now: int, t: string, keys: seq<string>)
    requires AllStored(db, ApiKeys, t, keys)
    ensures Match(db, ApiKeys, t, keys, ApiKeyDocs(t, FetchApiKeys(db, now, t, keys)))
    decreases |keys|
  {
    hide Render;
    if keys != [] {
      ApiKeysMatch(db, now, t, keys[1..]);
      assert IsRecordOf(Slot(db, RecordPath(ApiKeys, t, keys[0])), ApiKeys, t, keys[0]);
      assert |FetchApiKeys(db, now, t, keys)| == |FetchApiKeys(db, now, t, keys[1..])| + 1;
    }
  }

  // ---- What is fetched for any keys: each record that can be read, and nothing for the others ----

  function FlagIn(r: Response): seq<FlagDefinition> {
    if r.FlagIs? && r.flag.Some? then [r.flag.value] else []
  }

  lemma {:induction false} UnreadableFlagsAreSkipped(db: Db, now: int, t: string, before: seq<string>, k: string)
    ensures FetchFlags(db, now, t, before + [k]) ==
            FetchFlags(db, now, t, before) + FlagIn(DoGetFlag(db, now, t, k))
    decreases |before|
  {
    hide Render, GetFlagDoc;
    var keys := before + [k];
    if before != [] {
      UnreadableFlagsAreSkipped(db, now, t, before[1..], k);
      assert keys[0] == before[0] && keys[1..] == before[1..] + [k];
    } else {
      assert keys[1..] == [];
    }
  }

  function ExperimentIn(r: Response): seq<Experiment> {
    if r.ExperimentIs? && r.experiment.Some? then [r.experiment.value] else []
  }

  lemma {:induction false} UnreadableExperimentsAreSkipped(db: Db, now: int, t: string, before: seq<string>, k: string)
    ensures FetchExperiments(db, now, t, before + [k]) ==
            FetchExperiments(db, now, t, before) + ExperimentIn(DoGetExperiment(db, now, t, k))
    decreases |before|
  {
    hide Render, GetExperimentDoc;
    var keys := before + [k];
    if before != [] {
      UnreadableExperimentsAreSkipped(db, now, t, before[1..], k);
      assert keys[0] == before[0] && keys[1..] == before[1..] + [k];
    } else {
      assert keys[1..] == [];
    }
  }

  // ---- Pages ----

  /** The keys on a page are the intended ones. */
  lemma PageKeysAre(db: Db, now: int, fam: Family, t: string, page: Int32, perPage: Int32)
    requires IndexExact(db, fam, t) && 1 <= perPage <= MAX_PER_PAGE && page >= 1
    requires Slice(ListedKeys(db, fam, t), page, perPage) == Some(Intended(ListedKeys(db, fam, t), page, perPage))
    ensures var members := SMembers(db, now, Render(IndexPath(fam, t)));
            var pr := Some(PageRequest(page, perPage));
            && members.Some? && PageOfKeys(members.value, pr).Some?
            && PageOfKeys(members.value, pr).value.keys == Intended(ListedKeys(db, fam, t), page, perPage)
  {
    hide Render, Slice, Intended, ExactAt, IndexPath, Sorting.Sorted;
  }

  lemma OneFlagPage(db: Db, now: int, t: string, pr: Option<PageRequest>, keys: seq<string>)
    requires var members := SMembers(db, now, Render(IndexPath(Flags, t)));
             members.Some? && PageOfKeys(members.value, pr).Some? && PageOfKeys(members.value, pr).value.keys == keys
    requires AllStored(db, Flags, t, keys)
    ensures var r := DoListFlags(db, now, t, pr);
            r.FlagPage? && Match(db, Flags, t, keys, FlagDocs(r.flags))
  {
    hide Render, SMembers, PageOfKeys, FetchFlags, AllStored, Match, FlagDocs;
    FlagsMatch(db, now, t, keys);
  }

  lemma OneExperimentPage(db: Db, now: int, t: string, pr: Option<PageRequest>, keys: seq<string>)
    requires var members := SMembers(db, now, Render(IndexPath(Experiments, t)));
             members.Some? && PageOfKeys(members.value, pr).Some? && PageOfKeys(members.value, pr).value.keys == keys
    requires AllStored(db, Experiments, t, keys)
    ensures var r := DoListExperiments(db, now, t, pr);
            r.ExperimentPage? && Match(db, Experiments, t, keys, ExperimentDocs(r.experiments))
  {
    hide Render, SMembers, PageOfKeys, FetchExperiments, AllStored, Match, ExperimentDocs;
    ExperimentsMatch(db, now, t, keys);
  }

  lemma OneApiKeyPage(db: Db, now: int, t: string, pr: Option<PageRequest>, keys: seq<string>)
    requires var members := SMembers(db, now, Render(IndexPath(ApiKeys, t)));
             members.Some? && PageOfKeys(members.value, pr).Some? && PageOfKeys(members.value, pr).value.keys == keys
    requires AllStored(db, ApiKeys, t, keys)
    ensures var r := DoListAPIKeys(db, now, t, pr);
            r.ApiKeyPage? && Match(db, ApiKeys, t, keys, ApiKeyDocs(t, r.keys))
  {
    hide Render, SMembers, PageOfKeys, FetchApiKeys, AllStored, Match, ApiKeyDocs;
    ApiKeysMatch(db, now, t, keys);
  }

  /** One page: the records of the keys that the page is meant to have. */
  lemma OnePage(db: Db, now: int, fam: Family, t: string, page: Int32, perPage: Int32, keys: seq<string>)
    requires IndexExact(db, fam, t) && 1 <= perPage <= MAX_PER_PAGE && page >= 1
    requires keys == Intended(ListedKeys(db, fam, t), page, perPage) && AllStored(db, fam, t, keys)
    requires Slice(ListedKeys(db, fam, t), page, perPage) == Some(keys)
    ensures var r := ListAnswer(db, now, fam, t, Some(PageRequest(page, perPage)));
            IsPage(r, fam) && Match(db, fam, t, keys, ListedDocs(r, t))
  {
    hide Render, Slice, Intended, IndexExact, AllStored, Match, SMembers, PageOfKeys, ListedKeys, IndexPath;
    hide FlagDocs, ExperimentDocs, ApiKeyDocs, DoListFlags, DoListExperiments, DoListAPIKeys;
    PageKeysAre(db, now, fam, t, page, perPage);
    var pr := Some(PageRequest(page, perPage));
    match fam
    case Flags => OneFlagPage(db, now, t, pr, keys);
    case Experiments => OneExperimentPage(db, now, t, pr, keys);
    case ApiKeys => OneApiKeyPage(db, now, t, pr, keys);
  }

  /** What the listing RPC answers for pages 1 to n, one after the other. */
  ghost function AllPages(db: Db, now: int, fam: Family, t: string, perPage: Int32, n: nat): seq<Doc>
    requires n <= MAX32
  {
    if n == 0 then []
    else
      AllPages(db, now, fam, t, perPage, n - 1) +
      ListedDocs(ListAnswer(db, now, fam, t, Some(PageRequest(n, perPage))), t)
  }

  lemma MatchAppend(
    db: Db, fam: Family, t: string, keys: seq<string>, docs: seq<Doc>, more: seq<string>, moreDocs: seq<Doc>)
    requires Match(db, fam, t, keys, docs) && Match(db, fam, t, more, moreDocs)
    ensures Match(db, fam, t, keys + more, docs + moreDocs)
  {
    hide Slot, RecordPath;
  }

  lemma ListedIsStored(db: Db, fam: Family, t: string)
    requires IndexExact(db, fam, t)
    ensures forall k: string :: k in ListedKeys(db, fam, t) <==> Slot(db, RecordPath(fam, t, k)).Some?
    ensures AllStored(db, fam, t, ListedKeys(db, fam, t))
  {
    hide Slot, IsRecordOf, RecordPath;
    forall k: string
      ensures k in ListedKeys(db, fam, t) <==> Slot(db, RecordPath(fam, t, k)).Some?
      ensures k in ListedKeys(db, fam, t) ==> IsRecordOf(Slot(db, RecordPath(fam, t, k)), fam, t, k)
    {
      assert ExactAt(db, fam, t, k);
    }
  }

  lemma PartStored(db: Db, fam: Family, t: string, keys: seq<string>, page: Int32, perPage: Int32)
    requires AllStored(db, fam, t, keys) && page >= 1 && perPage >= 1
    ensures AllStored(db, fam, t, Intended(keys, page, perPage))
  {
    hide Slot, IsRecordOf, RecordPath;
    forall k <- Intended(keys, page, perPage)
      ensures k in keys
    {
      OneMorePage(page, perPage);
    }
  }

  lemma AtLeastFactor(page: nat, perPage: int)
    requires perPage >= 1
    ensures page <= page * perPage
  {
    ProductGrows(1, perPage, page);
  }

  lemma PageIsServed(keys: seq<string>, page: nat, perPage: Int32)
    requires 1 <= perPage <= MAX_PER_PAGE && |keys| <= MAX32 && 1 <= page <= TotalPages(|keys|, perPage)
    requires TotalPages(|keys|, perPage) * perPage <= MAX32
    ensures page <= MAX32 && Slice(keys, page, perPage) == Some(Intended(keys, page, perPage))
  {
    hide Slice, Intended, TotalPages;
    var last: nat := TotalPages(|keys|, perPage);
    ProductGrows(page, last, perPage);
    AtLeastFactor(page, perPage);
    SliceIsIntended(keys, page, perPage);
  }

  lemma NextPage(db: Db, now: int, fam: Family, t: string, perPage: Int32, n: nat)
    requires IndexExact(db, fam, t) && 1 <= perPage <= MAX_PER_PAGE && |ListedKeys(db, fam, t)| <= MAX32
    requires 1 <= n <= TotalPages(|ListedKeys(db, fam, t)|, perPage)
    requires TotalPages(|ListedKeys(db, fam, t)|, perPage) * perPage <= MAX32
    ensures n <= MAX32
    ensures Match(db, fam, t, Intended(ListedKeys(db, fam, t), n, perPage),
                  ListedDocs(ListAnswer(db, now, fam, t, Some(PageRequest(n, perPage))), t))
  {
    hide IndexExact, ListedKeys, Slice, Intended, ListAnswer, ListedDocs, AllStored, Match, IsPage, RecordPath, Slot;
    var keys := ListedKeys(db, fam, t);
    ListedIsStored(db, fam, t);
    PageIsServed(keys, n, perPage);
    PartStored(db, fam, t, keys, n, perPage);
    OnePage(db, now, fam, t, n, perPage, Intended(keys, n, perPage));
  }

  lemma {:induction false} PagesMatch(db: Db, now: int, fam: Family, t: string, perPage: Int32, n: nat)
    requires IndexExact(db, fam, t) && 1 <= perPage <= MAX_PER_PAGE && |ListedKeys(db, fam, t)| <= MAX32
    requires n <= TotalPages(|ListedKeys(db, fam, t)|, perPage)
    requires TotalPages(|ListedKeys(db, fam, t)|, perPage) * perPage <= MAX32
    ensures n <= MAX32
    ensures Match(db, fam, t, Pages(ListedKeys(db, fam, t), perPage, n), AllPages(db, now, fam, t, perPage, n))
    decreases n
  {
    hide IndexExact, ListedKeys, Intended, ListAnswer, ListedDocs, Slot, RecordPath, TotalPages;
    if n > 0 {
      var keys := ListedKeys(db, fam, t);
      NextPage(db, now, fam, t, perPage, n);
      PagesMatch(db, now, fam, t, perPage, n - 1);
      hide Match;
      var r := ListAnswer(db, now, fam, t, Some(PageRequest(n, perPage)));
      MatchAppend(db, fam, t, Pages(keys, perPage, n - 1), AllPages(db, now, fam, t, perPage, n - 1),
                  Intended(keys, n, perPage), ListedDocs(r, t));
    }
  }

  lemma ListedAscends(db: Db, fam: Family, t: string)
    ensures Sorting.Ascending(ListedKeys(db, fam, t))
  {
    match Slot(db, IndexPath(fam, t))
    case Some(Members(members)) => Sorting.SortedAscending(members);
    case _ => Sorting.SortedAscending({});
  }

  // ---- What an answer says about the listing ----

  function InfoOf(r: Response): PageInfo
    requires r.FlagPage? || r.ExperimentPage? || r.ApiKeyPage?
  {
    match r
    case FlagPage(_, info) => info
    case ExperimentPage(_, info) => info
    case ApiKeyPage(_, info) => info
  }

  /** The page and the page size that the answer to a request is to say. */
  predicate IsPageAskedFor(info: PageInfo, pr: Option<PageRequest>) {
    && info.page == (if pr.Some? && pr.value.page > 0 then pr.value.page else 1)
    && info.perPage == if pr.Some? && pr.value.perPage > 0 then Min(pr.value.perPage, 100) else 20
  }

  lemma InfoIs(db: Db, now: int, fam: Family, t: string, pr: Option<PageRequest>)
    requires IndexExact(db, fam, t) && |ListedKeys(db, fam, t)| <= MAX32
    ensures var r, keys := ListAnswer(db, now, fam, t, pr), ListedKeys(db, fam, t);
            if Slice(keys, PageOf(pr), PerPageOf(pr)).None? then r == Failed(SliceBounds)
            else
              IsPage(r, fam) && IsPageAskedFor(InfoOf(r), pr)
              && InfoOf(r).total == |keys| && InfoOf(r).totalPages == TotalPages(|keys|, InfoOf(r).perPage)
  {
    hide Render, Slice, IndexExact, Sorting.Sorted, FetchFlags, FetchExperiments, FetchApiKeys, TotalPages;
    ListedFrom(db, now, fam, t);
    hide SMembers, ListedKeys;
  }

  /** An index that exists is read as the set that it is, and else as the empty set. */
  lemma ListedFrom(db: Db, now: int, fam: Family, t: string)
    requires IndexExact(db, fam, t)
    ensures var members := SMembers(db, now, Render(IndexPath(fam, t)));
            members.Some? && ListedKeys(db, fam, t) == Sorting.Sorted(members.value)
  {
    hide Render, ExactAt, IndexPath, Sorting.Sorted;
  }

  lemma LeastPages(total: nat, perPage: int, n: nat)
    requires perPage > 0
    ensures total <= n * perPage <==> TotalPages(total, perPage) <= n
  {
    var least := TotalPages(total, perPage);
    if least <= n {
      ProductGrows(least, n, perPage);
    } else {
      ProductGrows(n, least - 1, perPage);
    }
  }

  lemma SetIsListed(keys: seq<string>, stored: set<string>)
    requires Sorting.Ascending(keys) && forall k: string :: k in keys <==> k in stored
    ensures |stored| == |keys|
  {
    Sorting.AscendingIsSorted(keys, stored);
  }

  /**
   * The answer of a listing says which page it is, how many records are stored in all,
   * and the least number of pages that shows them; there is none exactly if the wrapped
   * bounds of the page are out of order.
   */
  lemma ListingSaysHowMany(
    db: Db, now: int, fam: Family, t: string, pr: Option<PageRequest>, stored: set<string>)
    requires IndexExact(db, fam, t) && |stored| <= MAX32
    requires forall k: string :: k in stored <==> Slot(db, RecordPath(fam, t, k)).Some?
    ensures var r := ListAnswer(db, now, fam, t, pr);
            if !IsPage(r, fam) then r == Failed(SliceBounds)
            else
              && IsPageAskedFor(InfoOf(r), pr) && InfoOf(r).total == |stored|
              && forall n: nat :: InfoOf(r).totalPages <= n <==> |stored| <= n * InfoOf(r).perPage
    ensures IsPage(ListAnswer(db, now, fam, t, pr), fam) <==>
            0 <= Wrap((PageOf(pr) - 1) * PerPageOf(pr)) <= MAX32 - PerPageOf(pr)
  {
    hide IndexExact, Slot, RecordPath, ListAnswer, TotalPages, Slice;
    var keys := ListedKeys(db, fam, t);
    ListedIsStored(db, fam, t);
    ListedAscends(db, fam, t);
    SetIsListed(keys, stored);
    hide ListedKeys;
    InfoIs(db, now, fam, t, pr);
    PanicsExactlyWhen(keys, PageOf(pr), PerPageOf(pr));
    var r := ListAnswer(db, now, fam, t, pr);
    hide Wrap, PageOf, PerPageOf;
    if IsPage(r, fam) {
      forall n: nat
        ensures InfoOf(r).totalPages <= n <==> |stored| <= n * InfoOf(r).perPage
      {
        LeastPages(|keys|, InfoOf(r).perPage, n);
      }
    }
  }

  /**
   * Pages 1 to the last, as the first answer counts them, are all records of the family
   * that are stored for the tenant, each once and in the order of their keys.
   */
  lemma PagesListEverything(db: Db, now: int, fam: Family, t: string, perPage: Int32)
    requires IndexExact(db, fam, t) && 1 <= perPage <= MAX_PER_PAGE && |ListedKeys(db, fam, t)| <= MAX32
    requires TotalPages(|ListedKeys(db, fam, t)|, perPage) * perPage <= MAX32
    ensures var keys, first := ListedKeys(db, fam, t), ListAnswer(db, now, fam, t, Some(PageRequest(1, perPage)));
            && IsPage(first, fam) && InfoOf(first).totalPages >= 0
            && (forall k: string :: k in keys <==> Slot(db, RecordPath(fam, t, k)).Some?)
            && Sorting.Ascending(keys)
            && Match(db, fam, t, keys, AllPages(db, now, fam, t, perPage, InfoOf(first).totalPages))
  {
    var keys, pr := ListedKeys(db, fam, t), Some(PageRequest(1, perPage));
    SliceIsIntended(keys, 1, perPage);
    InfoIs(db, now, fam, t, pr);
    PagesMatch(db, now, fam, t, perPage, TotalPages(|keys|, perPage));
    PagesPartition(keys, perPage);
    ListedIsStored(db, fam, t);
    ListedAscends(db, fam, t);
    hide IndexExact, ListedKeys, AllPages, Pages, Slot, Match, ListAnswer, TotalPages;
  }
}
