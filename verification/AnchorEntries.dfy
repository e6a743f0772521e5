/** Cursor pagination over the archive: `get_anchor_entries` reads the entries of one anchor in pages,
    while the archive keeps growing between the calls. */
module AnchorEntries {
  import opened Types
  import opened Ordered
  import opened Codec
  import opened ArchiveProtocol

  datatype Cursor = NextToken(token: Bytes) | Timestamp(timestamp: u64)

  datatype Page = Page(entries: seq<Bytes>, cursor: Option<Cursor>)

  function LimitOrDefault(limit: Option<u16>, maxEntriesPerCall: u16): nat {
    match limit
    case Some(l) => Min(l, maxEntriesPerCall)
    case None => maxEntriesPerCall
  }

  /** `None` is a trap: an undecodable token, or one of another anchor. */
  function StartKey(anchor: u64, cursor: Option<Cursor>): Option<AnchorIndexKey> {
    match cursor
    case None => Some(AnchorIndexKey(anchor, 0, 0))
    case Some(Timestamp(t)) => Some(AnchorIndexKey(anchor, t, 0))
    case Some(NextToken(token)) =>
      (match DecodeAnchorIndexKey(token)
       case None => None
       case Some(k) => if k.anchor == anchor then Some(k) else None)
  }

  /** Exclusive end of the range. The addition wraps around for the greatest anchor number. */
  function EndKey(anchor: u64): AnchorIndexKey {
    AnchorIndexKey(Add64(anchor, 1), 0, 0)
  }

  function Range(index: set<AnchorIndexKey>, start: AnchorIndexKey, end: AnchorIndexKey): set<AnchorIndexKey> {
    set k | k in index && AnchorIndexRank(start) <= AnchorIndexRank(k) < AnchorIndexRank(end)
  }

  predicate Resolves(log: seq<Bytes>, keys: seq<AnchorIndexKey>) {
    forall i :: 0 <= i < |keys| ==> keys[i].logIndex < |log|
  }

  function Lookup(log: seq<Bytes>, keys: seq<AnchorIndexKey>): (es: seq<Bytes>)
    requires Resolves(log, keys)
    ensures |es| == |keys|
  {
    seq(|keys|, i requires 0 <= i < |keys| => log[keys[i].logIndex])
  }

  function PageOf(log: seq<Bytes>, keys: seq<AnchorIndexKey>, limit: nat): Page
    requires Resolves(log, keys) && |keys| <= limit + 1
  {
    if |keys| > limit then Page(Lookup(log, keys[..limit]), Some(NextToken(EncodeAnchorIndexKey(keys[limit]))))
    else Page(Lookup(log, keys), None)
  }

  /** `None` is a trap, also when an index key names a log position that does not exist. */
  ghost function GetAnchorEntries(a: Archive, anchor: u64, cursor: Option<Cursor>, limit: nat): Option<Page> {
    match StartKey(anchor, cursor)
    case None => None
    case Some(start) =>
      var keys := First(Range(a.index, start, EndKey(anchor)), AnchorIndexRank, limit + 1);
      if Resolves(a.log, keys) then Some(PageOf(a.log, keys, limit)) else None
  }

  method ReadPage(a: Archive, anchor: u64, cursor: Option<Cursor>, limit: Option<u16>, maxEntriesPerCall: u16)
    returns (page: Option<Page>)
    ensures page == GetAnchorEntries(a, anchor, cursor, LimitOrDefault(limit, maxEntriesPerCall))
    ensures page != None ==> |page.value.entries| <= maxEntriesPerCall
    ensures page != None && limit != None ==> |page.value.entries| <= limit.value
    ensures page != None && page.value.cursor != None ==>
              |page.value.entries| == if limit != None && limit.value <= maxEntriesPerCall then limit.value else maxEntriesPerCall
  {
    hide AnchorIndexRank, Ascending, Injective, Range, EncodeAnchorIndexKey, DecodeAnchorIndexKey;
    RankIsInjective();
    var take := LimitOrDefault(limit, maxEntriesPerCall);
    var start := StartKey(anchor, cursor);
    if start == None {
      return None;
    }
    var keys := CollectFirst(Range(a.index, start.value, EndKey(anchor)), AnchorIndexRank, take + 1);
    var log, entries: seq<Bytes> := a.log, [];
    for i := 0 to |keys|
      invariant Resolves(log, keys[..i]) && entries == Lookup(log, keys[..i])
    {
      if keys[i].logIndex >= |log| {
        return None;
      }
      assert keys[..i + 1] == keys[..i] + [keys[i]];
      entries := entries + [log[keys[i].logIndex]];
    }
    assert keys[..|keys|] == keys;
    if |keys| > take {
      assert entries[..take] == Lookup(log, keys[..take]);
      page := Some(Page(entries[..take], Some(NextToken(EncodeAnchorIndexKey(keys[take])))));
    } else {
      page := Some(Page(entries, None));
    }
  }

  lemma RankIsInjective()
    ensures Injective(AnchorIndexRank)
  {
    forall a: AnchorIndexKey, b: AnchorIndexKey | AnchorIndexRank(a) == AnchorIndexRank(b)
      ensures a == b
    {
      AnchorIndexRankOrder(a, b);
    }
  }

  // ----- One page -----

  predicate WellIndexed(a: Archive) {
    forall k :: k in a.index ==> k.logIndex < |a.log|
  }

  lemma AscendingResolves(a: Archive, keys: set<AnchorIndexKey>)
    requires WellIndexed(a) && keys <= a.index
    ensures Resolves(a.log, Ascending(keys, AnchorIndexRank))
  {
    var ks := Ascending(keys, AnchorIndexRank);
    AscendingLists(keys, AnchorIndexRank);
    assert forall i :: 0 <= i < |ks| ==> ks[i] in Elements(ks);
  }

  /** The entries whose index keys lie between two keys, in key order. */
  ghost function Listing(a: Archive, start: AnchorIndexKey, end: AnchorIndexKey): seq<Bytes>
    requires WellIndexed(a)
  {
    AscendingResolves(a, Range(a.index, start, end));
    Lookup(a.log, Ascending(Range(a.index, start, end), AnchorIndexRank))
  }

  lemma RangeSplits(index: set<AnchorIndexKey>, start: AnchorIndexKey, mid: AnchorIndexKey, end: AnchorIndexKey)
    requires AnchorIndexRank(start) <= AnchorIndexRank(mid) <= AnchorIndexRank(end)
    ensures Range(index, start, end) == Range(index, start, mid) + Range(index, mid, end)
    ensures forall a, b :: a in Range(index, start, mid) && b in Range(index, mid, end) ==>
                             AnchorIndexRank(a) < AnchorIndexRank(b)
  {
    hide AnchorIndexRank;
  }

  lemma ListingSplits(a: Archive, start: AnchorIndexKey, mid: AnchorIndexKey, end: AnchorIndexKey)
    requires WellIndexed(a)
    requires AnchorIndexRank(start) <= AnchorIndexRank(mid) <= AnchorIndexRank(end)
    ensures Listing(a, start, end) == Listing(a, start, mid) + Listing(a, mid, end)
  {
    hide AnchorIndexRank, Injective, Ascending, WellIndexed, Range;
    RankIsInjective();
    RangeSplits(a.index, start, mid, end);
    AscendingSplits(Range(a.index, start, mid), Range(a.index, mid, end), AnchorIndexRank);
  }

  ghost predicate PointsAt(cursor: Option<Cursor>, range: set<AnchorIndexKey>, next: AnchorIndexKey) {
    next in range && cursor == Some(NextToken(EncodeAnchorIndexKey(next)))
  }

  /** Having read `read`, a client holding `cursor` has everything from the start up to the cursor, or
      up to the end if there is no cursor. */
  ghost predicate HasRead(a: Archive, anchor: u64, start: AnchorIndexKey, cursor: Option<Cursor>, read: seq<Bytes>) {
    && WellIndexed(a)
    && (cursor == None ==> read == Listing(a, start, EndKey(anchor)))
    && (cursor != None ==>
          exists next :: PointsAt(cursor, Range(a.index, start, EndKey(anchor)), next) && read == Listing(a, start, next))
  }

  /** A page with a token is full; a page without a token is the rest. */
  lemma PageIsListing(a: Archive, anchor: u64, cursor: Option<Cursor>, limit: nat)
    requires WellIndexed(a) && StartKey(anchor, cursor).Some?
    ensures var page := GetAnchorEntries(a, anchor, cursor, limit);
            && page.Some?
            && HasRead(a, anchor, StartKey(anchor, cursor).value, page.value.cursor, page.value.entries)
            && |page.value.entries| <= limit
            && (page.value.cursor != None ==> |page.value.entries| == limit)
  {
    hide AnchorIndexRank, EncodeAnchorIndexKey, DecodeAnchorIndexKey, Injective, Ascending;
    var start, end := StartKey(anchor, cursor).value, EndKey(anchor);
    var keys := Range(a.index, start, end);
    var all := Ascending(keys, AnchorIndexRank);
    AscendingResolves(a, keys);
    var taken := First(keys, AnchorIndexRank, limit + 1);
    assert Resolves(a.log, taken);
    if |keys| > limit {
      var next := all[limit];
      RankIsInjective();
      CutBelow(keys, AnchorIndexRank, limit);
      assert Range(a.index, start, next) == Below(keys, AnchorIndexRank, next);
      assert taken[..limit] == all[..limit] && taken[limit] == next;
      assert PointsAt(PageOf(a.log, taken, limit).cursor, keys, next);
    } else {
      assert taken == all;
    }
  }

  /** A call traps exactly if its token is not that of a key of the anchor. */
  lemma TrapsIffForeignToken(a: Archive, anchor: u64, cursor: Option<Cursor>, limit: nat)
    requires WellIndexed(a)
    ensures GetAnchorEntries(a, anchor, cursor, limit) == None <==>
              && cursor != None && cursor.value.NextToken?
              && forall k: AnchorIndexKey :: k.anchor == anchor ==> EncodeAnchorIndexKey(k) != cursor.value.token
  {
    hide GetAnchorEntries, EncodeAnchorIndexKey, DecodeAnchorIndexKey, WellIndexed;
    if StartKey(anchor, cursor) != None {
      PageIsListing(a, anchor, cursor, limit);
    } else {
      TrapsWithoutStart(a, anchor, cursor, limit);
    }
    if cursor != None && cursor.value.NextToken? {
      forall k: AnchorIndexKey
        ensures DecodeAnchorIndexKey(cursor.value.token) == Some(k) <==> EncodeAnchorIndexKey(k) == cursor.value.token
      {
        AnchorIndexKeyCodec(k, cursor.value.token);
      }
    }
  }

  lemma TrapsWithoutStart(a: Archive, anchor: u64, cursor: Option<Cursor>, limit: nat)
    requires StartKey(anchor, cursor) == None
    ensures GetAnchorEntries(a, anchor, cursor, limit) == None
  {
  }

  // ----- Reading page after page -----

  /** The archive as a later call finds it: new entries have later keys within their anchor. */
  ghost predicate Grows(a: Archive, b: Archive) {
    && WellIndexed(a) && WellIndexed(b)
    && a.log <= b.log && a.index <= b.index
    && (forall j, k :: j in a.index && k in b.index && k !in a.index && j.anchor == k.anchor ==>
                       AnchorIndexRank(j) < AnchorIndexRank(k))
  }

  function CursorOf(first: Option<Cursor>, pages: seq<Page>, i: nat): Option<Cursor>
    requires i <= |pages|
  {
    if i == 0 then first else pages[i - 1].cursor
  }

  /** Call `i` asks for at most `limits[i]` entries and is answered with page `i`; another call follows only
      if the page has a token. */
  ghost predicate Call(anchor: u64, first: Option<Cursor>, limits: seq<nat>, archives: seq<Archive>, pages: seq<Page>, i: nat)
    requires i < |pages| == |archives| == |limits|
  {
    && WellIndexed(archives[i])
    && GetAnchorEntries(archives[i], anchor, CursorOf(first, pages, i), limits[i]) == Some(pages[i])
    && (i > 0 ==> pages[i - 1].cursor != None && Grows(archives[i - 1], archives[i]))
  }

  /** A client follows the tokens, with any limit in each call; `archives[i]` is what the archive holds at
      call `i`. */
  ghost predicate Session(anchor: u64, first: Option<Cursor>, limits: seq<nat>, archives: seq<Archive>, pages: seq<Page>) {
    |limits| == |archives| == |pages| && forall i :: 0 <= i < |pages| ==> Call(anchor, first, limits, archives, pages, i)
  }

  function Sum(limits: seq<nat>): nat {
    if limits == [] then 0 else Sum(limits[..|limits| - 1]) + limits[|limits| - 1]
  }

  function Concatenation(pages: seq<Page>): seq<Bytes> {
    if pages == [] then [] else Concatenation(pages[..|pages| - 1]) + pages[|pages| - 1].entries
  }

  /** Growth does not touch what lies before a key that was already there. */
  lemma GrowthKeepsEarlier(a: Archive, b: Archive, start: AnchorIndexKey, next: AnchorIndexKey)
    requires Grows(a, b) && next in a.index && start.anchor == next.anchor
    ensures Listing(a, start, next) == Listing(b, start, next)
  {
    forall k | k in Range(b.index, start, next)
      ensures k in a.index
    {
      AnchorIndexRankOrder(start, k);
      AnchorIndexRankOrder(k, next);
      AnchorIndexRankOrder(next, k);
      AnchorIndexRankOrder(k, start);
    }
    assert Range(a.index, start, next) == Range(b.index, start, next);
    AscendingResolves(a, Range(a.index, start, next));
  }

  /** One more call, on a possibly larger archive, extends what was read. */
  lemma NextPageContinues(a: Archive, b: Archive, anchor: u64, start: AnchorIndexKey, cursor: Option<Cursor>,
                          read: seq<Bytes>, limit: nat)
    requires Grows(a, b) && start.anchor == anchor && cursor != None
    requires HasRead(a, anchor, start, cursor, read)
    ensures var page := GetAnchorEntries(b, anchor, cursor, limit);
            page.Some? && HasRead(b, anchor, start, page.value.cursor, read + page.value.entries)
  {
    var next :| PointsAt(cursor, Range(a.index, start, EndKey(anchor)), next) && read == Listing(a, start, next);
    KeyInRange(a.index, anchor, start, next);
    AnchorIndexKeyCodec(next, EncodeAnchorIndexKey(next));
    hide GetAnchorEntries, AnchorIndexRank, EncodeAnchorIndexKey, DecodeAnchorIndexKey, Listing;
    assert StartKey(anchor, cursor) == Some(next);
    PageIsListing(b, anchor, cursor, limit);
    GrowthKeepsEarlier(a, b, start, next);
    var page := GetAnchorEntries(b, anchor, cursor, limit).value;
    if page.cursor == None {
      ListingSplits(b, start, next, EndKey(anchor));
    } else {
      var later :| PointsAt(page.cursor, Range(b.index, next, EndKey(anchor)), later) &&
          page.entries == Listing(b, next, later);
      ListingSplits(b, start, next, later);
      assert PointsAt(page.cursor, Range(b.index, start, EndKey(anchor)), later);
    }
  }

  lemma KeyInRange(index: set<AnchorIndexKey>, anchor: u64, start: AnchorIndexKey, next: AnchorIndexKey)
    requires start.anchor == anchor && next in Range(index, start, EndKey(anchor))
    ensures next.anchor == anchor
  {
  }

  lemma SessionPrefix(anchor: u64, first: Option<Cursor>, limits: seq<nat>, archives: seq<Archive>, pages: seq<Page>)
    requires Session(anchor, first, limits, archives, pages) && pages != []
    ensures Session(anchor, first, limits[..|pages| - 1], archives[..|pages| - 1], pages[..|pages| - 1])
  {
    hide GetAnchorEntries, Grows;
    var n := |pages| - 1;
    forall i | 0 <= i < n
      ensures Call(anchor, first, limits[..n], archives[..n], pages[..n], i)
    {
      assert Call(anchor, first, limits, archives, pages, i);
      assert CursorOf(first, pages[..n], i) == CursorOf(first, pages, i);
    }
  }

  lemma SessionStarts(anchor: u64, first: Option<Cursor>, limits: seq<nat>, archives: seq<Archive>, pages: seq<Page>)
    requires Session(anchor, first, limits, archives, pages) && pages != []
    ensures StartKey(anchor, first).Some? && StartKey(anchor, first).value.anchor == anchor
  {
    assert Call(anchor, first, limits, archives, pages, 0);
  }

  lemma LastPage(pages: seq<Page>)
    requires pages != []
    ensures Concatenation(pages) == Concatenation(pages[..|pages| - 1]) + pages[|pages| - 1].entries
  {
  }

  lemma OnlyPage(pages: seq<Page>)
    requires |pages| == 1
    ensures Concatenation(pages) == pages[0].entries
  {
    assert pages[..0] == [] && Concatenation([]) == [];
  }

  lemma FirstPageIsListing(anchor: u64, first: Option<Cursor>, limits: seq<nat>, archives: seq<Archive>, pages: seq<Page>)
    requires Session(anchor, first, limits, archives, pages) && pages != [] && StartKey(anchor, first).Some?
    ensures HasRead(archives[0], anchor, StartKey(anchor, first).value, pages[0].cursor, pages[0].entries)
  {
    hide GetAnchorEntries, StartKey, HasRead, Grows, WellIndexed;
    assert Call(anchor, first, limits, archives, pages, 0);
    PageIsListing(archives[0], anchor, first, limits[0]);
  }

  lemma CallsFollow(anchor: u64, first: Option<Cursor>, limits: seq<nat>, archives: seq<Archive>, pages: seq<Page>, i: nat)
    requires Session(anchor, first, limits, archives, pages) && 0 < i < |pages|
    ensures Grows(archives[i - 1], archives[i]) && pages[i - 1].cursor != None
    ensures GetAnchorEntries(archives[i], anchor, pages[i - 1].cursor, limits[i]) == Some(pages[i])
  {
    hide GetAnchorEntries, Grows, WellIndexed;
    assert Call(anchor, first, limits, archives, pages, i);
  }

  lemma {:induction false} PagesReadInOrder(anchor: u64, first: Option<Cursor>, limits: seq<nat>, archives: seq<Archive>,
                                            pages: seq<Page>)
    requires Session(anchor, first, limits, archives, pages) && pages != [] && StartKey(anchor, first).Some?
    ensures HasRead(archives[|pages| - 1], anchor, StartKey(anchor, first).value, pages[|pages| - 1].cursor,
                    Concatenation(pages))
    decreases |pages|
  {
    hide GetAnchorEntries, StartKey, HasRead, Grows, WellIndexed, EndKey, Concatenation, Call;
    SessionStarts(anchor, first, limits, archives, pages);
    var n := |pages| - 1;
    var start := StartKey(anchor, first).value;
    if n == 0 {
      FirstPageIsListing(anchor, first, limits, archives, pages);
      OnlyPage(pages);
    } else {
      CallsFollow(anchor, first, limits, archives, pages, n);
      SessionPrefix(anchor, first, limits, archives, pages);
      LastPage(pages);
      PagesReadInOrder(anchor, first, limits[..n], archives[..n], pages[..n]);
      NextPageContinues(archives[n - 1], archives[n], anchor, start, pages[n - 1].cursor, Concatenation(pages[..n]),
          limits[n]);
    }
  }

  /** Following the tokens until there is none reads every entry of the anchor from the start key on,
      each once and in key order, including those appended between the calls. */
  lemma PaginationIsComplete(anchor: u64, first: Option<Cursor>, limits: seq<nat>, archives: seq<Archive>, pages: seq<Page>)
    requires Session(anchor, first, limits, archives, pages)
    requires pages != [] && pages[|pages| - 1].cursor == None
    ensures StartKey(anchor, first).Some?
    ensures WellIndexed(archives[|pages| - 1])
    ensures Concatenation(pages) == Listing(archives[|pages| - 1], StartKey(anchor, first).value, EndKey(anchor))
  {
    SessionStarts(anchor, first, limits, archives, pages);
    PagesReadInOrder(anchor, first, limits, archives, pages);
  }

  lemma TokenPagesAreFull(anchor: u64, first: Option<Cursor>, limits: seq<nat>, archives: seq<Archive>,
                          pages: seq<Page>, i: nat)
    requires Session(anchor, first, limits, archives, pages)
    requires i < |pages| && pages[i].cursor != None
    ensures |pages[i].entries| == limits[i]
  {
    assert Call(anchor, first, limits, archives, pages, i);
    assert StartKey(anchor, CursorOf(first, pages, i)).Some?;
    PageIsListing(archives[i], anchor, CursorOf(first, pages, i), limits[i]);
  }

  lemma {:induction false} FullPagesLength(pages: seq<Page>, limits: seq<nat>)
    requires |limits| == |pages|
    requires forall i :: 0 <= i < |pages| ==> |pages[i].entries| == limits[i]
    ensures |Concatenation(pages)| == Sum(limits)
    decreases |pages|
  {
    if pages != [] {
      FullPagesLength(pages[..|pages| - 1], limits[..|pages| - 1]);
    }
  }

  lemma {:induction false} SumOfPositive(limits: seq<nat>)
    requires forall i :: 0 <= i < |limits| ==> limits[i] >= 1
    ensures |limits| <= Sum(limits)
  {
    if limits != [] {
      SumOfPositive(limits[..|limits| - 1]);
    }
  }

  /** The calls that return a token hand out as many entries as they were asked for, and fewer than there are:
      with limits of at least one, a client gets to the end after at most one call per entry. */
  lemma PaginationTerminates(anchor: u64, first: Option<Cursor>, limits: seq<nat>, archives: seq<Archive>, pages: seq<Page>)
    requires Session(anchor, first, limits, archives, pages)
    requires pages != [] && pages[|pages| - 1].cursor != None
    ensures Sum(limits) < |archives[|pages| - 1].index|
    ensures (forall i :: 0 <= i < |limits| ==> limits[i] >= 1) ==> |pages| < |archives[|pages| - 1].index|
  {
    hide GetAnchorEntries, StartKey, HasRead;
    SessionStarts(anchor, first, limits, archives, pages);
    PagesReadInOrder(anchor, first, limits, archives, pages);
    forall i | 0 <= i < |pages|
      ensures |pages[i].entries| == limits[i]
    {
      assert i + 1 < |pages| ==> Call(anchor, first, limits, archives, pages, i + 1);
      TokenPagesAreFull(anchor, first, limits, archives, pages, i);
    }
    FullPagesLength(pages, limits);
    if forall i :: 0 <= i < |limits| ==> limits[i] >= 1 {
      SumOfPositive(limits);
    }
    TokenLeavesAnEntry(archives[|pages| - 1], anchor, StartKey(anchor, first).value, pages[|pages| - 1].cursor,
                       Concatenation(pages));
  }

  lemma TokenLeavesAnEntry(a: Archive, anchor: u64, start: AnchorIndexKey, cursor: Option<Cursor>, read: seq<Bytes>)
    requires HasRead(a, anchor, start, cursor, read) && cursor != None
    ensures |read| < |a.index|
  {
    hide AnchorIndexRank, EncodeAnchorIndexKey;
    var next :| PointsAt(cursor, Range(a.index, start, EndKey(anchor)), next) && read == Listing(a, start, next);
    assert next in a.index && next !in Range(a.index, start, next);
    ProperSubsetIsSmaller(Range(a.index, start, next), a.index);
  }

  /** With a limit of zero a client never gets past the first entry: the token leads to the same page. */
  lemma ZeroLimitNeverAdvances(a: Archive, anchor: u64, cursor: Option<Cursor>)
    requires WellIndexed(a) && StartKey(anchor, cursor).Some?
    requires GetAnchorEntries(a, anchor, cursor, 0).value.cursor != None
    ensures var page := GetAnchorEntries(a, anchor, cursor, 0).value;
            page.entries == [] && GetAnchorEntries(a, anchor, page.cursor, 0) == Some(page)
  {
    var start := StartKey(anchor, cursor).value;
    var keys := Range(a.index, start, EndKey(anchor));
    var next := Ascending(keys, AnchorIndexRank)[0];
    SmallestIsFirst(keys, next);
    KeyInRange(a.index, anchor, start, next);
    AnchorIndexKeyCodec(next, EncodeAnchorIndexKey(next));
    hide AnchorIndexRank, EncodeAnchorIndexKey, DecodeAnchorIndexKey;
    assert StartKey(anchor, Some(NextToken(EncodeAnchorIndexKey(next)))) == Some(next);
    var again := Range(a.index, next, EndKey(anchor));
    assert again == keys;
  }

  lemma SmallestIsFirst(keys: set<AnchorIndexKey>, next: AnchorIndexKey)
    requires keys != {} && next == Ascending(keys, AnchorIndexRank)[0]
    ensures next in keys && forall k :: k in keys ==> AnchorIndexRank(next) <= AnchorIndexRank(k)
  {
  }

  // ----- On top of the replication protocol -----

  lemma IndexMembers(es: seq<BufferedEntry>, k: AnchorIndexKey)
    requires |es| < TWO_64
    ensures k in IndexFrom(es, 0) <==> k.logIndex < |es| && k == IndexKey(es[k.logIndex], k.logIndex)
  {
    if k.logIndex < |es| && k == IndexKey(es[k.logIndex], k.logIndex) {
      assert IndexKey(es[k.logIndex], 0 + k.logIndex) in IndexFrom(es, 0);
    }
  }

  /** The archive only ever grows at the end of each anchor's keys, because canister time does not run
      backwards. */
  lemma PrefixesGrow(a: Archive, b: Archive, history: seq<BufferedEntry>)
    requires Numbered(history)
    requires HoldsPrefix(a, history) && HoldsPrefix(b, history) && Archived(a) <= Archived(b)
    ensures Grows(a, b)
  {
    var es, fs := history[..Archived(a)], history[..Archived(b)];
    assert fs == es + fs[|es|..];
    PayloadsConcatenate(es, fs[|es|..]);
    forall k: AnchorIndexKey
      ensures k in a.index <==> k.logIndex < |es| && k == IndexKey(history[k.logIndex], k.logIndex)
      ensures k in b.index <==> k.logIndex < |fs| && k == IndexKey(history[k.logIndex], k.logIndex)
    {
      IndexMembers(es, k);
      IndexMembers(fs, k);
    }
    hide IndexFrom, Payloads, AnchorIndexRank;
    forall j, k | j in a.index && k in b.index && k !in a.index && j.anchor == k.anchor
      ensures AnchorIndexRank(j) < AnchorIndexRank(k)
    {
      assert history[j.logIndex].timestamp <= history[k.logIndex].timestamp;
      AnchorIndexRankOrder(j, k);
    }
  }

  lemma {:induction false} RunGrowsArchive(c: Config, s: System, run: seq<Step>)
    requires Inv(s) && Possible(c, s, run)
    ensures Inv(After(c, s, run))
    ensures s.history <= After(c, s, run).history
    ensures Archived(s.archive) <= Archived(After(c, s, run).archive)
    decreases |run|
  {
    if run != [] {
      var t := Apply(c, s, run[0]);
      StepKeepsInv(c, s, run[0]);
      StepExtends(c, s, run[0]);
      hide Inv, Apply, Enabled;
      RunGrowsArchive(c, t, run[1..]);
    }
  }

  lemma StepExtends(c: Config, s: System, step: Step)
    requires Inv(s) && Enabled(s, step)
    ensures s.history <= Apply(c, s, step).history
    ensures Archived(s.archive) <= Archived(Apply(c, s, step).archive)
  {
    if step.DeliverReply? {
      DeliverReplyKeepsInv(c, s, step.reply);
    }
  }

  /** Between two calls of a client the replication protocol may take any number of steps. */
  lemma ReplicationGrowsArchive(c: Config, s: System, run: seq<Step>)
    requires Inv(s) && Possible(c, s, run)
    ensures Grows(s.archive, After(c, s, run).archive)
  {
    RunGrowsArchive(c, s, run);
    var t := After(c, s, run);
    assert t.history[..Archived(s.archive)] == s.history[..Archived(s.archive)];
    PrefixesGrow(s.archive, t.archive, t.history);
  }

  /** The operations of an anchor from a point in time on. */
  function EntriesSince(es: seq<BufferedEntry>, anchor: u64, since: u64): seq<Bytes> {
    if es == [] then []
    else
      var e := es[|es| - 1];
      EntriesSince(es[..|es| - 1], anchor, since) +
      if e.anchorNumber == anchor && since <= e.timestamp then [e.entry] else []
  }

  function KeysSince(es: seq<BufferedEntry>, anchor: u64, since: u64): seq<AnchorIndexKey> {
    if es == [] then []
    else
      var e := es[|es| - 1];
      KeysSince(es[..|es| - 1], anchor, since) +
      if e.anchorNumber == anchor && since <= e.timestamp then [IndexKey(e, |es| - 1)] else []
  }

  predicate IsSince(k: AnchorIndexKey, anchor: u64, since: u64) {
    k.anchor == anchor && since <= k.timestamp
  }

  function Since(index: set<AnchorIndexKey>, anchor: u64, since: u64): set<AnchorIndexKey> {
    set k | k in index && IsSince(k, anchor, since)
  }

  lemma {:induction false} KeysAreSince(es: seq<BufferedEntry>, anchor: u64, since: u64)
    requires |es| < TWO_64
    ensures Elements(KeysSince(es, anchor, since)) == Since(IndexFrom(es, 0), anchor, since)
    decreases |es|
  {
    hide IndexFrom, IndexKey;
    if es == [] {
      NothingIndexed();
    } else {
      var init, e := es[..|es| - 1], es[|es| - 1];
      var keys, key := KeysSince(init, anchor, since), IndexKey(e, |init|);
      KeysAreSince(init, anchor, since);
      IndexGrowsByOne(init, e);
      assert es == init + [e];
      OneMoreSince(IndexFrom(init, 0), key, anchor, since);
      IndexKeyFields(e, |init|);
      assert KeysSince(es, anchor, since) == keys + (if e.anchorNumber == anchor && since <= e.timestamp then [key] else []);
      assert Elements(keys + [key]) == Elements(keys) + {key} && keys + [] == keys;
    }
  }

  lemma NothingIndexed()
    ensures IndexFrom([], 0) == {}
  {
  }

  lemma IndexKeyFields(e: BufferedEntry, n: u64)
    ensures IndexKey(e, n) == AnchorIndexKey(e.anchorNumber, e.timestamp, n)
  {
  }

  lemma OneMoreSince(index: set<AnchorIndexKey>, key: AnchorIndexKey, anchor: u64, since: u64)
    ensures Since(index + {key}, anchor, since)
         == Since(index, anchor, since) + (if IsSince(key, anchor, since) then {key} else {})
  {
  }

  lemma {:induction false} KeysOfIncrease(es: seq<BufferedEntry>, anchor: u64, since: u64)
    requires Numbered(es)
    ensures Increasing(KeysSince(es, anchor, since), AnchorIndexRank)
    decreases |es|
  {
    hide AnchorIndexRank, IndexFrom, IndexKey;
    if es != [] {
      var init, e := es[..|es| - 1], es[|es| - 1];
      var keys, key := KeysSince(init, anchor, since), IndexKey(e, |init|);
      KeysOfIncrease(init, anchor, since);
      if e.anchorNumber == anchor && since <= e.timestamp {
        forall k | k in keys
          ensures AnchorIndexRank(k) < AnchorIndexRank(key)
        {
          KeysComeBefore(es, anchor, since, k);
        }
        OneMoreIncreases(keys, key);
      } else {
        assert keys + [] == keys;
      }
    }
  }

  lemma KeysComeBefore(es: seq<BufferedEntry>, anchor: u64, since: u64, k: AnchorIndexKey)
    requires Numbered(es) && es != [] && es[|es| - 1].anchorNumber == anchor && k in KeysSince(es[..|es| - 1], anchor, since)
    ensures AnchorIndexRank(k) < AnchorIndexRank(IndexKey(es[|es| - 1], |es| - 1))
  {
    hide AnchorIndexRank, IndexFrom;
    var init, e := es[..|es| - 1], es[|es| - 1];
    KeysAreSince(init, anchor, since);
    assert k in Elements(KeysSince(init, anchor, since));
    IndexMembers(init, k);
    assert es[k.logIndex].timestamp <= e.timestamp;
    AnchorIndexRankOrder(k, IndexKey(e, |es| - 1));
  }

  lemma OneMoreIncreases(keys: seq<AnchorIndexKey>, key: AnchorIndexKey)
    requires Increasing(keys, AnchorIndexRank) && forall k :: k in keys ==> AnchorIndexRank(k) < AnchorIndexRank(key)
    ensures Increasing(keys + [key], AnchorIndexRank)
  {
    hide AnchorIndexRank;
  }

  lemma LookupAppends(log: seq<Bytes>, keys: seq<AnchorIndexKey>, key: AnchorIndexKey)
    requires Resolves(log, keys) && key.logIndex < |log|
    ensures Resolves(log, keys + [key])
    ensures Lookup(log, keys + [key]) == Lookup(log, keys) + [log[key.logIndex]]
  {
  }

  lemma NothingToResolve(log: seq<Bytes>)
    ensures Resolves(log, []) && Lookup(log, []) == []
  {
  }

  lemma {:induction false} KeysResolveToEntries(es: seq<BufferedEntry>, anchor: u64, since: u64, log: seq<Bytes>)
    requires |es| < TWO_64 && |es| <= |log|
    requires forall i :: 0 <= i < |es| ==> log[i] == es[i].entry
    ensures Resolves(log, KeysSince(es, anchor, since))
    ensures Lookup(log, KeysSince(es, anchor, since)) == EntriesSince(es, anchor, since)
    decreases |es|
  {
    hide AnchorIndexRank, Lookup, Resolves, IndexKey;
    if es == [] {
      NothingToResolve(log);
    } else {
      var init, e := es[..|es| - 1], es[|es| - 1];
      KeysResolveToEntries(init, anchor, since, log);
      assert log[|es| - 1] == e.entry;
      IndexKeyFields(e, |es| - 1);
      LookupAppends(log, KeysSince(init, anchor, since), IndexKey(e, |es| - 1));
      assert KeysSince(init, anchor, since) + [] == KeysSince(init, anchor, since);
      assert EntriesSince(init, anchor, since) + [] == EntriesSince(init, anchor, since);
    }
  }

  lemma PrefixIsWellIndexed(a: Archive, history: seq<BufferedEntry>)
    requires Numbered(history) && HoldsPrefix(a, history)
    ensures WellIndexed(a)
    ensures Numbered(history[..Archived(a)]) && Archived(a) == |a.log|
    ensures forall i :: 0 <= i < |a.log| ==> a.log[i] == history[..Archived(a)][i].entry
  {
    forall k | k in a.index
      ensures k.logIndex < |a.log|
    {
      IndexMembers(history[..Archived(a)], k);
    }
  }

  /** Read from a point in time, an anchor's listing is exactly its archived operations since then, in the order
      they happened; the greatest anchor number alone gets nothing, as its end key wraps around. */
  lemma ListingIsHistory(a: Archive, history: seq<BufferedEntry>, anchor: u64, since: u64)
    requires Numbered(history) && HoldsPrefix(a, history)
    ensures WellIndexed(a)
    ensures Listing(a, AnchorIndexKey(anchor, since, 0), EndKey(anchor))
         == if anchor + 1 < TWO_64 then EntriesSince(history[..Archived(a)], anchor, since) else []
  {
    hide AnchorIndexRank, Injective, Payloads, IndexFrom, Ascending, Numbered, Increasing;
    PrefixIsWellIndexed(a, history);
    var es := history[..Archived(a)];
    if anchor + 1 < TWO_64 {
      RangeIsSince(a.index, anchor, since);
      hide Range;
      KeysOfIncrease(es, anchor, since);
      KeysAreSince(es, anchor, since);
      KeysResolveToEntries(es, anchor, since, a.log);
      RankIsInjective();
      AscendingIsUnique(Since(a.index, anchor, since), AnchorIndexRank, KeysSince(es, anchor, since));
    } else {
      LastAnchorRange(a.index, anchor, since);
    }
  }

  lemma RangeIsSince(index: set<AnchorIndexKey>, anchor: u64, since: u64)
    requires anchor + 1 < TWO_64
    ensures Range(index, AnchorIndexKey(anchor, since, 0), EndKey(anchor)) == Since(index, anchor, since)
  {
    var start, end := AnchorIndexKey(anchor, since, 0), EndKey(anchor);
    forall k: AnchorIndexKey
      ensures AnchorIndexRank(start) <= AnchorIndexRank(k) < AnchorIndexRank(end) <==> IsSince(k, anchor, since)
    {
      AnchorIndexRankOrder(k, start);
      AnchorIndexRankOrder(k, end);
    }
  }

  lemma LastAnchorRange(index: set<AnchorIndexKey>, anchor: u64, since: u64)
    requires anchor + 1 == TWO_64
    ensures Range(index, AnchorIndexKey(anchor, since, 0), EndKey(anchor)) == {}
    ensures Ascending(Range(index, AnchorIndexKey(anchor, since, 0), EndKey(anchor)), AnchorIndexRank) == []
  {
  }

  /** What a client asks for first: everything, or everything since a point in time. */
  predicate AsksSince(first: Option<Cursor>, since: u64) {
    first == Some(Timestamp(since)) || (first == None && since == 0)
  }

  /** What a client sees of an anchor by following the tokens is that anchor's part of the history, from the
      point in time on that it asked for. */
  lemma PagesTellTheHistory(anchor: u64, first: Option<Cursor>, since: u64, limits: seq<nat>, archives: seq<Archive>,
                            pages: seq<Page>, history: seq<BufferedEntry>)
    requires Session(anchor, first, limits, archives, pages) && AsksSince(first, since)
    requires pages != [] && pages[|pages| - 1].cursor == None
    requires anchor + 1 < TWO_64 && Numbered(history) && HoldsPrefix(archives[|pages| - 1], history)
    ensures Concatenation(pages) == EntriesSince(history[..Archived(archives[|pages| - 1])], anchor, since)
  {
    hide Call, HoldsPrefix, Numbered, Listing;
    PaginationIsComplete(anchor, first, limits, archives, pages);
    ListingIsHistory(archives[|pages| - 1], history, anchor, since);
  }

  // ----- A client reading while the archive replicates -----

  lemma {:induction false} RunSplits(c: Config, s: System, run: seq<Step>, n: nat)
    requires Possible(c, s, run) && n <= |run|
    ensures Possible(c, s, run[..n]) && Possible(c, After(c, s, run[..n]), run[n..])
    ensures After(c, s, run) == After(c, After(c, s, run[..n]), run[n..])
    decreases n
  {
    hide Apply, Enabled;
    if n == 0 {
      assert run[..0] == [] && run[0..] == run;
    } else {
      RunSplits(c, Apply(c, s, run[0]), run[1..], n - 1);
      assert run[..n][0] == run[0] && run[..n][1..] == run[1..][..n - 1] && run[n..] == run[1..][n - 1..];
    }
  }

  /** The system after the first steps of a run. */
  ghost function SystemAt(c: Config, run: seq<Step>, n: nat): System
    requires n <= |run|
  {
    After(c, INITIAL, run[..n])
  }

  /** A call made after the first `at[i]` steps; calls are made one after the other. */
  ghost predicate Answered(c: Config, run: seq<Step>, at: seq<nat>, anchor: u64, first: Option<Cursor>, limits: seq<nat>,
                           pages: seq<Page>, i: nat)
    requires i < |pages| == |limits| == |at|
  {
    && at[i] <= |run|
    && GetAnchorEntries(SystemAt(c, run, at[i]).archive, anchor, CursorOf(first, pages, i), limits[i]) == Some(pages[i])
    && (i > 0 ==> at[i - 1] <= at[i] && pages[i - 1].cursor != None)
  }

  /** A client follows the tokens while the protocol runs. */
  ghost predicate ReadsAlong(c: Config, run: seq<Step>, at: seq<nat>, anchor: u64, first: Option<Cursor>, limits: seq<nat>,
                             pages: seq<Page>)
  {
    |pages| == |limits| == |at| && forall i: nat :: i < |pages| ==> Answered(c, run, at, anchor, first, limits, pages, i)
  }

  lemma SystemsGrow(c: Config, run: seq<Step>, m: nat, n: nat)
    requires Possible(c, INITIAL, run) && m <= n <= |run|
    ensures Inv(SystemAt(c, run, m)) && Inv(SystemAt(c, run, n))
    ensures Grows(SystemAt(c, run, m).archive, SystemAt(c, run, n).archive)
  {
    hide Inv, Grows, Apply, Enabled;
    RunSplits(c, INITIAL, run, n);
    RunSplits(c, INITIAL, run[..n], m);
    assert run[..n][..m] == run[..m];
    InitialInv();
    RunKeepsInv(c, INITIAL, run[..m]);
    RunKeepsInv(c, INITIAL, run[..n]);
    ReplicationGrowsArchive(c, SystemAt(c, run, m), run[..n][m..]);
  }

  lemma SystemIsWellIndexed(c: Config, run: seq<Step>, n: nat)
    requires Possible(c, INITIAL, run) && n <= |run|
    ensures Inv(SystemAt(c, run, n)) && WellIndexed(SystemAt(c, run, n).archive)
  {
    hide Inv, Apply, Enabled;
    SystemsGrow(c, run, n, n);
  }

  lemma ReadingIsSession(c: Config, run: seq<Step>, at: seq<nat>, anchor: u64, first: Option<Cursor>, limits: seq<nat>,
                         pages: seq<Page>) returns (archives: seq<Archive>)
    requires Possible(c, INITIAL, run) && ReadsAlong(c, run, at, anchor, first, limits, pages)
    ensures Session(anchor, first, limits, archives, pages)
    ensures forall i: nat :: i < |pages| ==> at[i] <= |run| && archives[i] == SystemAt(c, run, at[i]).archive
  {
    hide GetAnchorEntries, Grows, Possible, SystemAt, WellIndexed;
    forall i: nat | i < |pages|
      ensures at[i] <= |run|
    {
      assert Answered(c, run, at, anchor, first, limits, pages, i);
    }
    archives := seq(|pages|, i requires 0 <= i < |pages| => SystemAt(c, run, at[i]).archive);
    forall i | 0 <= i < |pages|
      ensures Call(anchor, first, limits, archives, pages, i)
    {
      assert Answered(c, run, at, anchor, first, limits, pages, i);
      SystemIsWellIndexed(c, run, at[i]);
      if i > 0 {
        SystemsGrow(c, run, at[i - 1], at[i]);
      }
    }
  }

  /** Whatever the protocol does in the meantime, a client that follows the tokens to their end has read the
      anchor's part of what was archived by the last call, from the point in time on that it asked for, each
      operation once and in the order it happened. */
  lemma ReadingTellsTheHistory(c: Config, run: seq<Step>, at: seq<nat>, anchor: u64, first: Option<Cursor>, since: u64,
                               limits: seq<nat>, pages: seq<Page>)
    requires Possible(c, INITIAL, run) && ReadsAlong(c, run, at, anchor, first, limits, pages) && AsksSince(first, since)
    requires pages != [] && pages[|pages| - 1].cursor == None && anchor + 1 < TWO_64
    ensures |at| == |pages| && at[|at| - 1] <= |run|
    ensures var s := SystemAt(c, run, at[|at| - 1]);
            && Archived(s.archive) <= |s.history|
            && Concatenation(pages) == EntriesSince(s.history[..Archived(s.archive)], anchor, since)
  {
    hide Answered, Possible, SystemAt, Session, Concatenation, EntriesSince;
    var archives := ReadingIsSession(c, run, at, anchor, first, limits, pages);
    var n := |pages| - 1;
    SystemIsWellIndexed(c, run, at[n]);
    PagesTellTheHistory(anchor, first, since, limits, archives, pages, SystemAt(c, run, at[n]).history);
  }
}
