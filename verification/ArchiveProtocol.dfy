/** Replication of anchor operations from the Internet Identity canister to the archive canister.
    The archive polls: it fetches a prefix of the buffered entries, appends those it does not have
    yet and acknowledges the highest one. Calls overlap, replies arrive late and out of order, and
    any message may get lost. */
module ArchiveProtocol {
  import opened Types
  import opened Ordered
  import opened Codec

  datatype BufferedEntry =
    BufferedEntry(anchorNumber: u64, timestamp: u64, entry: Bytes, sequenceNumber: u64)

  datatype Config = Config(entriesBufferLimit: u64, entriesFetchLimit: u16)

  /** What Internet Identity keeps: the entries not acknowledged yet and the next sequence number. */
  datatype Buffer = Buffer(entries: map<u64, BufferedEntry>, sequenceNumber: u64)

  /** What the archive keeps: the log, the index over it and the highest sequence number archived. */
  datatype Archive = Archive(log: seq<Bytes>, index: set<AnchorIndexKey>, highest: Option<u64>)

  function SequenceRank(n: u64): int {
    n
  }

  lemma SequenceRankIsInjective()
    ensures Injective(SequenceRank)
  {
  }

  // ----- Internet Identity's side -----

  /** `None` is the trap on a full buffer. */
  function ArchiveOperation(c: Config, b: Buffer, anchor: u64, entry: Bytes, now: u64): Option<Buffer> {
    if |b.entries| >= c.entriesBufferLimit then None
    else
      var e := BufferedEntry(anchor, now, entry, b.sequenceNumber);
      Some(Buffer(b.entries[b.sequenceNumber := e], Add64(b.sequenceNumber, 1)))
  }

  ghost function FetchEntries(c: Config, b: Buffer): seq<BufferedEntry> {
    FirstAreKeys(b.entries, c.entriesFetchLimit);
    Values(b.entries, First(b.entries.Keys, SequenceRank, c.entriesFetchLimit))
  }

  function AcknowledgeEntries(b: Buffer, sequenceNumber: u64): Buffer {
    b.(entries := map n | n in b.entries && n > sequenceNumber :: b.entries[n])
  }

  ghost function Values<K, V>(m: map<K, V>, ks: seq<K>): (vs: seq<V>)
    requires forall k :: k in ks ==> k in m
  {
    seq(|ks|, i requires 0 <= i < |ks| => m[ks[i]])
  }

  lemma FirstAreKeys(m: map<u64, BufferedEntry>, n: nat)
    ensures forall k :: k in First(m.Keys, SequenceRank, n) ==> k in m
  {
    SequenceRankIsInjective();
    FirstAreSmallest(m.Keys, SequenceRank, n);
    assert forall k :: k in First(m.Keys, SequenceRank, n) ==> k in Elements(First(m.Keys, SequenceRank, n));
  }

  class InternetIdentity {
    const config: Config
    var entries: map<u64, BufferedEntry>
    var sequenceNumber: u64

    function State(): Buffer
      reads this
    {
      Buffer(entries, sequenceNumber)
    }

    constructor (config: Config)
      ensures this.config == config && State() == Buffer(map[], 0)
    {
      this.config, entries, sequenceNumber := config, map[], 0;
    }

    method Operate(anchor: u64, entry: Bytes, now: u64) returns (trapped: bool)
      modifies this
      ensures trapped <==> ArchiveOperation(config, old(State()), anchor, entry, now).None?
      ensures trapped ==> State() == old(State())
      ensures !trapped ==> Some(State()) == ArchiveOperation(config, old(State()), anchor, entry, now)
    {
      if |entries| >= config.entriesBufferLimit {
        return true;
      }
      entries := entries[sequenceNumber := BufferedEntry(anchor, now, entry, sequenceNumber)];
      sequenceNumber := Add64(sequenceNumber, 1);
      trapped := false;
    }

    method Fetch() returns (reply: seq<BufferedEntry>)
      ensures reply == FetchEntries(config, State())
    {
      SequenceRankIsInjective();
      var keys := CollectFirst(entries.Keys, SequenceRank, config.entriesFetchLimit);
      FirstAreKeys(entries, config.entriesFetchLimit);
      var buffered := entries;
      reply := seq(|keys|, i requires 0 <= i < |keys| => buffered[keys[i]]);
    }

    method Acknowledge(upTo: u64)
      modifies this`entries
      ensures State() == AcknowledgeEntries(old(State()), upTo)
    {
      var toPrune := set n | n in entries && n <= upTo;
      var before := entries;
      while toPrune != {}
        invariant toPrune <= entries.Keys
        invariant forall n :: n in toPrune ==> n <= upTo
        invariant forall n :: n in entries <==> n in before && (n > upTo || n in toPrune)
        invariant forall n :: n in entries ==> entries[n] == before[n]
        decreases toPrune
      {
        var n :| n in toPrune;
        entries := entries - {n};
        toPrune := toPrune - {n};
      }
    }
  }

  // ----- The archive's side -----

  function IndexKey(e: BufferedEntry, position: nat): AnchorIndexKey {
    AnchorIndexKey(e.anchorNumber, e.timestamp, position % TWO_64)
  }

  function WriteEntry(a: Archive, e: BufferedEntry): Archive {
    a.(log := a.log + [e.entry], index := a.index + {IndexKey(e, |a.log|)})
  }

  function WriteAll(a: Archive, es: seq<BufferedEntry>): Archive
    decreases |es|
  {
    if es == [] then a else WriteAll(WriteEntry(a, es[0]), es[1..])
  }

  function FromSequenceNumber(es: seq<BufferedEntry>, expected: u64): seq<BufferedEntry> {
    if es == [] then []
    else if es[0].sequenceNumber >= expected then [es[0]] + FromSequenceNumber(es[1..], expected)
    else FromSequenceNumber(es[1..], expected)
  }

  function ExpectedSequenceNumber(a: Archive, entries: seq<BufferedEntry>): u64
    requires entries != []
  {
    match a.highest
    case Some(n) => Add64(n, 1)
    case None => entries[0].sequenceNumber
  }

  /** The entries between the archived ones and this reply are gone for good. */
  predicate GapBefore(a: Archive, entries: seq<BufferedEntry>)
    requires entries != []
  {
    entries[0].sequenceNumber > ExpectedSequenceNumber(a, entries)
  }

  /** Everything `fetch_entries` does between receiving a reply and sending the acknowledgement. */
  function ProcessReply(a: Archive, entries: seq<BufferedEntry>): Archive {
    if entries == [] then a
    else
      var highest := entries[|entries| - 1].sequenceNumber;
      var expected := ExpectedSequenceNumber(a, entries);
      if highest >= expected then
        WriteAll(a, FromSequenceNumber(entries, expected)).(highest := Some(highest))
      else a
  }

  class ArchiveCanister {
    var log: seq<Bytes>
    var index: set<AnchorIndexKey>
    var highest: Option<u64>

    function State(): Archive
      reads this
    {
      Archive(log, index, highest)
    }

    constructor ()
      ensures State() == Archive([], {}, None)
    {
      log, index, highest := [], {}, None;
    }

    method Write(e: BufferedEntry)
      modifies this`log, this`index
      ensures State() == WriteEntry(old(State()), e)
    {
      var position := |log|;
      log := log + [e.entry];
      index := index + {IndexKey(e, position)};
    }

    /** `acknowledge` is the argument of the acknowledging call, `None` if there is no such call. */
    method Process(entries: seq<BufferedEntry>) returns (acknowledge: Option<u64>, gap: bool)
      modifies this
      ensures State() == ProcessReply(old(State()), entries)
      ensures acknowledge == if entries == [] then None else Some(entries[|entries| - 1].sequenceNumber)
      ensures gap <==> entries != [] && GapBefore(old(State()), entries)
    {
      gap := false;
      if entries == [] {
        return None, false;
      }
      var lowestNr, highestNr := entries[0].sequenceNumber, entries[|entries| - 1].sequenceNumber;
      var expected := match highest case Some(n) => Add64(n, 1) case None => lowestNr;
      if lowestNr > expected {
        gap := true;
      }
      if highestNr >= expected {
        ghost var before := State();
        for i := 0 to |entries|
          invariant WriteAll(State(), FromSequenceNumber(entries[i..], expected))
                 == WriteAll(before, FromSequenceNumber(entries, expected))
        {
          assert entries[i..][0] == entries[i] && entries[i..][1..] == entries[i + 1..];
          if entries[i].sequenceNumber >= expected {
            ghost var rest, current := FromSequenceNumber(entries[i + 1..], expected), State();
            assert FromSequenceNumber(entries[i..], expected) == [entries[i]] + rest;
            assert ([entries[i]] + rest)[1..] == rest;
            assert WriteAll(current, [entries[i]] + rest) == WriteAll(WriteEntry(current, entries[i]), rest);
            Write(entries[i]);
          }
        }
        assert entries[|entries|..] == [];
        highest := Some(highestNr);
      }
      acknowledge := Some(highestNr);
    }
  }

  // ----- The two canisters and the messages between them -----

  /** `history` lists every operation Internet Identity has accepted; no canister stores it. */
  datatype System = System(history: seq<BufferedEntry>, buffer: Buffer, archive: Archive,
                           replies: multiset<seq<BufferedEntry>>, acknowledgements: multiset<u64>)

  datatype Step =
    | Operate(anchor: u64, entry: Bytes, now: u64)
    | ServeFetch
    | DeliverReply(reply: seq<BufferedEntry>)
    | LoseReply(reply: seq<BufferedEntry>)
    | ServeAcknowledgement(upTo: u64)
    | LoseAcknowledgement(upTo: u64)

  const INITIAL: System := System([], Buffer(map[], 0), Archive([], {}, None), multiset{}, multiset{})

  /** Canister time does not run backwards, and fewer than 2^64 operations ever happen. */
  predicate Enabled(s: System, step: Step) {
    match step
    case Operate(_, _, now) =>
      |s.history| + 1 < TWO_64 && (s.history == [] || s.history[|s.history| - 1].timestamp <= now)
    case ServeFetch => true
    case DeliverReply(r) => r in s.replies
    case LoseReply(r) => r in s.replies
    case ServeAcknowledgement(n) => n in s.acknowledgements
    case LoseAcknowledgement(n) => n in s.acknowledgements
  }

  ghost function Apply(c: Config, s: System, step: Step): System {
    match step
    case Operate(anchor, entry, now) =>
      (match ArchiveOperation(c, s.buffer, anchor, entry, now)
       case None => s
       case Some(b) =>
         s.(history := s.history + [BufferedEntry(anchor, now, entry, s.buffer.sequenceNumber)], buffer := b))
    case ServeFetch => s.(replies := s.replies + multiset{FetchEntries(c, s.buffer)})
    case DeliverReply(r) =>
      s.(archive := ProcessReply(s.archive, r), replies := s.replies - multiset{r},
         acknowledgements := s.acknowledgements +
           (if r == [] then multiset{} else multiset{r[|r| - 1].sequenceNumber}))
    case LoseReply(r) => s.(replies := s.replies - multiset{r})
    case ServeAcknowledgement(n) =>
      s.(buffer := AcknowledgeEntries(s.buffer, n), acknowledgements := s.acknowledgements - multiset{n})
    case LoseAcknowledgement(n) => s.(acknowledgements := s.acknowledgements - multiset{n})
  }

  ghost predicate Possible(c: Config, s: System, run: seq<Step>)
    decreases |run|
  {
    run == [] || (Enabled(s, run[0]) && Possible(c, Apply(c, s, run[0]), run[1..]))
  }

  ghost function After(c: Config, s: System, run: seq<Step>): System
    decreases |run|
  {
    if run == [] then s else After(c, Apply(c, s, run[0]), run[1..])
  }

  // ----- The invariant -----

  /** How many operations the archive has. */
  function Archived(a: Archive): nat {
    match a.highest case None => 0 case Some(n) => n + 1
  }

  function Payloads(es: seq<BufferedEntry>): (ps: seq<Bytes>)
    ensures |ps| == |es|
  {
    seq(|es|, i requires 0 <= i < |es| => es[i].entry)
  }

  /** The index keys of entries that start at a log position. */
  function IndexFrom(es: seq<BufferedEntry>, start: nat): set<AnchorIndexKey> {
    set i | 0 <= i < |es| :: IndexKey(es[i], start + i)
  }

  predicate Numbered(history: seq<BufferedEntry>) {
    && |history| < TWO_64
    && (forall i :: 0 <= i < |history| ==> history[i].sequenceNumber == i)
    && (forall i, j :: 0 <= i < j < |history| ==> history[i].timestamp <= history[j].timestamp)
  }

  /** The buffer holds exactly the operations from `lowest` on. */
  ghost predicate BuffersFrom(s: System, lowest: nat) {
    && lowest <= Archived(s.archive)
    && lowest <= |s.history|
    && (forall n :: n in s.buffer.entries <==> lowest <= n < |s.history|)
    && (forall n :: n in s.buffer.entries ==> s.buffer.entries[n] == s.history[n])
  }

  /** The archive holds exactly the first operations, each once, in order, and indexed. */
  predicate HoldsPrefix(a: Archive, history: seq<BufferedEntry>) {
    && Archived(a) <= |history|
    && a.log == Payloads(history[..Archived(a)])
    && a.index == IndexFrom(history[..Archived(a)], 0)
  }

  predicate StaleSlice(s: System, reply: seq<BufferedEntry>) {
    reply != [] ==>
      var first := reply[0].sequenceNumber;
      first <= Archived(s.archive) && first + |reply| <= |s.history| && reply == s.history[first..first + |reply|]
  }

  ghost predicate Inv(s: System) {
    && Numbered(s.history)
    && s.buffer.sequenceNumber == |s.history|
    && (exists lowest :: BuffersFrom(s, lowest))
    && HoldsPrefix(s.archive, s.history)
    && (forall r :: r in s.replies ==> StaleSlice(s, r))
    && (forall n :: n in s.acknowledgements ==> n < Archived(s.archive))
  }

  // ----- Lemmas about single operations -----

  lemma IntervalAscends(s: set<u64>, lo: nat, hi: nat)
    requires lo <= hi <= TWO_64
    requires forall n :: n in s <==> lo <= n < hi
    ensures Ascending(s, SequenceRank) == seq(hi - lo, i requires 0 <= i < hi - lo => (lo + i) as u64)
  {
    SequenceRankIsInjective();
    var ks: seq<u64> := seq(hi - lo, i requires 0 <= i < hi - lo => (lo + i) as u64);
    assert Elements(ks) == s by {
      forall n | n in s
        ensures n in Elements(ks)
      {
        assert ks[n - lo] == n;
      }
    }
    AscendingIsUnique(s, SequenceRank, ks);
  }

  lemma FirstOfInterval(m: map<u64, BufferedEntry>, history: seq<BufferedEntry>, lowest: nat, limit: nat)
    requires lowest <= |history| < TWO_64
    requires forall n :: n in m <==> lowest <= n < |history|
    requires forall n :: n in m ==> m[n] == history[n]
    ensures |m| == |history| - lowest
    ensures forall k :: k in First(m.Keys, SequenceRank, limit) ==> k in m
    ensures Values(m, First(m.Keys, SequenceRank, limit)) == history[lowest..lowest + Min(limit, |history| - lowest)]
  {
    hide Ascending;
    IntervalAscends(m.Keys, lowest, |history|);
    FirstAreKeys(m, limit);
    assert |m.Keys| == |history| - lowest;
    var taken := First(m.Keys, SequenceRank, limit);
    var served := Values(m, taken);
    forall i | 0 <= i < |taken|
      ensures served[i] == history[lowest + i]
    {
      assert taken[i] == lowest + i;
      assert taken[i] in taken;
    }
  }

  /** A fetch on a contiguous buffer is served a slice of the history. */
  lemma FetchServesSlice(c: Config, s: System, lowest: nat)
    requires Numbered(s.history) && BuffersFrom(s, lowest)
    ensures |s.buffer.entries| == |s.history| - lowest
    ensures FetchEntries(c, s.buffer) == s.history[lowest..lowest + Min(c.entriesFetchLimit, |s.history| - lowest)]
  {
    FirstOfInterval(s.buffer.entries, s.history, lowest, c.entriesFetchLimit);
  }

  lemma IndexConcatenates(es: seq<BufferedEntry>, fs: seq<BufferedEntry>, start: nat)
    ensures IndexFrom(es + fs, start) == IndexFrom(es, start) + IndexFrom(fs, start + |es|)
  {
    forall i | 0 <= i < |es|
      ensures IndexKey(es[i], start + i) in IndexFrom(es + fs, start)
    {
      assert (es + fs)[i] == es[i];
    }
    forall i | 0 <= i < |fs|
      ensures IndexKey(fs[i], start + |es| + i) in IndexFrom(es + fs, start)
    {
      assert (es + fs)[|es| + i] == fs[i];
      assert IndexKey((es + fs)[|es| + i], start + (|es| + i)) in IndexFrom(es + fs, start);
    }
    forall i | |es| <= i < |es + fs|
      ensures IndexKey((es + fs)[i], start + i) in IndexFrom(fs, start + |es|)
    {
      assert IndexKey(fs[i - |es|], start + |es| + (i - |es|)) in IndexFrom(fs, start + |es|);
    }
  }

  lemma {:induction false} WritingAppends(a: Archive, es: seq<BufferedEntry>)
    ensures WriteAll(a, es) == a.(log := a.log + Payloads(es), index := a.index + IndexFrom(es, |a.log|))
    decreases |es|
  {
    if es == [] {
      assert Payloads(es) == [] && IndexFrom(es, |a.log|) == {};
      assert a.log + Payloads(es) == a.log;
    } else {
      var b := WriteEntry(a, es[0]);
      WritingAppends(b, es[1..]);
      assert es == [es[0]] + es[1..];
      assert Payloads(es) == [es[0].entry] + Payloads(es[1..]);
      assert b.log + Payloads(es[1..]) == a.log + Payloads(es);
      IndexConcatenates([es[0]], es[1..], |a.log|);
      assert IndexFrom([es[0]], |a.log|) == {IndexKey(es[0], |a.log|)} by {
        assert IndexKey([es[0]][0], |a.log| + 0) in IndexFrom([es[0]], |a.log|);
      }
    }
  }

  /** Of any entries, in whatever order, the filter keeps those from the expected number on, in that order. */
  lemma {:induction false} FilterKeepsOrder(es: seq<BufferedEntry>, e: BufferedEntry, fs: seq<BufferedEntry>, expected: u64)
    ensures FromSequenceNumber(es + [e] + fs, expected)
         == FromSequenceNumber(es, expected) + (if e.sequenceNumber >= expected then [e] else []) +
            FromSequenceNumber(fs, expected)
    decreases |es|
  {
    if es == [] {
      assert ([e] + fs)[1..] == fs && [] + [e] + fs == [e] + fs;
    } else {
      FilterKeepsOrder(es[1..], e, fs, expected);
      assert (es + [e] + fs)[1..] == es[1..] + [e] + fs;
    }
  }

  lemma {:induction false} FilterDropsArchived(history: seq<BufferedEntry>, lo: nat, hi: nat, expected: u64)
    requires Numbered(history) && lo <= hi <= |history|
    ensures FromSequenceNumber(history[lo..hi], expected) == history[Min(Max(lo, expected), hi)..hi]
    decreases hi - lo
  {
    if lo < hi {
      assert history[lo..hi][1..] == history[lo + 1..hi];
      FilterDropsArchived(history, lo + 1, hi, expected);
      assert history[lo..hi] == [history[lo]] + history[lo + 1..hi];
    }
  }

  lemma WritingExtendsPrefix(a: Archive, history: seq<BufferedEntry>, end: nat)
    requires HoldsPrefix(a, history) && Archived(a) < end <= |history| < TWO_64
    ensures HoldsPrefix(WriteAll(a, history[Archived(a)..end]).(highest := Some(end - 1)), history)
  {
    var archived, missing := history[..Archived(a)], history[Archived(a)..end];
    WritingAppends(a, missing);
    assert history[..end] == archived + missing;
    PayloadsConcatenate(archived, missing);
    IndexConcatenates(archived, missing, 0);
  }

  lemma PayloadsConcatenate(es: seq<BufferedEntry>, fs: seq<BufferedEntry>)
    ensures Payloads(es + fs) == Payloads(es) + Payloads(fs)
  {
  }

  /** Whatever slice arrives, the archive ends up with the longer of the two prefixes. */
  lemma ProcessingExtendsPrefix(s: System, reply: seq<BufferedEntry>)
    requires Numbered(s.history) && HoldsPrefix(s.archive, s.history)
    requires StaleSlice(s, reply) && reply != []
    ensures !GapBefore(s.archive, reply)
    ensures HoldsPrefix(ProcessReply(s.archive, reply), s.history)
    ensures Archived(ProcessReply(s.archive, reply))
         == Max(Archived(s.archive), reply[|reply| - 1].sequenceNumber + 1)
  {
    hide Payloads, IndexFrom;
    var first, archived := reply[0].sequenceNumber, Archived(s.archive);
    var end := first + |reply|;
    assert reply[|reply| - 1].sequenceNumber == end - 1;
    assert ExpectedSequenceNumber(s.archive, reply) == archived by {
      assert archived < TWO_64;
    }
    if end > archived {
      FilterDropsArchived(s.history, first, end, archived);
      assert FromSequenceNumber(reply, archived) == s.history[archived..end];
      WritingExtendsPrefix(s.archive, s.history, end);
    }
  }

  // ----- Every step keeps the invariant -----

  lemma AppendingKeepsPrefix(history: seq<BufferedEntry>, e: BufferedEntry, a: Archive)
    requires Numbered(history) && HoldsPrefix(a, history)
    requires |history| + 1 < TWO_64 && e.sequenceNumber == |history|
    requires history == [] || history[|history| - 1].timestamp <= e.timestamp
    ensures Numbered(history + [e]) && HoldsPrefix(a, history + [e])
  {
    var n := |history|;
    assert (history + [e])[..Archived(a)] == history[..Archived(a)];
    assert forall i :: 0 <= i < n ==> history[i].timestamp <= history[n - 1].timestamp;
  }

  lemma AcceptedOperation(c: Config, s: System, anchor: u64, entry: Bytes, now: u64)
    requires s.buffer.sequenceNumber == |s.history| && |s.history| + 1 < TWO_64
    ensures Apply(c, s, Operate(anchor, entry, now)) ==
            if |s.buffer.entries| >= c.entriesBufferLimit then s
            else
              var e := BufferedEntry(anchor, now, entry, |s.history|);
              s.(history := s.history + [e], buffer := Buffer(s.buffer.entries[|s.history| := e], |s.history| + 1))
  {
  }

  lemma OperateKeepsInv(c: Config, s: System, anchor: u64, entry: Bytes, now: u64)
    requires Inv(s) && Enabled(s, Operate(anchor, entry, now))
    ensures Inv(Apply(c, s, Operate(anchor, entry, now)))
  {
    hide Apply, HoldsPrefix, BuffersFrom, StaleSlice, Numbered;
    AcceptedOperation(c, s, anchor, entry, now);
    if |s.buffer.entries| < c.entriesBufferLimit {
      var t, e := Apply(c, s, Operate(anchor, entry, now)), BufferedEntry(anchor, now, entry, |s.history|);
      AppendingKeepsPrefix(s.history, e, s.archive);
      AppendingKeepsBuffer(s, t, e);
      AppendingKeepsReplies(s, t, e);
    }
  }

  lemma AppendingKeepsBuffer(s: System, t: System, e: BufferedEntry)
    requires exists lowest: nat :: BuffersFrom(s, lowest)
    requires |s.history| + 1 < TWO_64 && e.sequenceNumber == |s.history|
    requires t.history == s.history + [e] && t.archive == s.archive
    requires t.buffer.entries == s.buffer.entries[e.sequenceNumber := e]
    ensures exists lowest: nat :: BuffersFrom(t, lowest)
  {
    var lowest: nat :| BuffersFrom(s, lowest);
    assert BuffersFrom(t, lowest);
  }

  lemma AppendingKeepsReplies(s: System, t: System, e: BufferedEntry)
    requires forall r :: r in s.replies ==> StaleSlice(s, r)
    requires t.history == s.history + [e] && t.archive == s.archive && t.replies == s.replies
    ensures forall r :: r in t.replies ==> StaleSlice(t, r)
  {
    forall r | r in t.replies
      ensures StaleSlice(t, r)
    {
      assert StaleSlice(s, r);
    }
  }

  lemma FetchedSliceIsStale(c: Config, s: System, lowest: nat)
    requires Numbered(s.history) && BuffersFrom(s, lowest)
    ensures StaleSlice(s, FetchEntries(c, s.buffer))
  {
    FetchServesSlice(c, s, lowest);
    var reply := FetchEntries(c, s.buffer);
    assert reply != [] ==> reply[0] == s.history[lowest];
  }

  lemma ServeFetchKeepsInv(c: Config, s: System)
    requires Inv(s)
    ensures Inv(Apply(c, s, ServeFetch))
  {
    var t := Apply(c, s, ServeFetch);
    var lowest: nat :| BuffersFrom(s, lowest);
    assert BuffersFrom(t, lowest);
    FetchedSliceIsStale(c, s, lowest);
    forall r | r in t.replies
      ensures StaleSlice(t, r)
    {
      assert r == FetchEntries(c, s.buffer) || StaleSlice(s, r);
    }
  }

  lemma DeliverReplyKeepsInv(c: Config, s: System, reply: seq<BufferedEntry>)
    requires Inv(s) && reply in s.replies
    ensures Inv(Apply(c, s, DeliverReply(reply)))
    ensures Archived(s.archive) <= Archived(Apply(c, s, DeliverReply(reply)).archive)
  {
    var t := Apply(c, s, DeliverReply(reply));
    if reply != [] {
      ProcessingExtendsPrefix(s, reply);
    }
    var lowest: nat :| BuffersFrom(s, lowest);
    assert BuffersFrom(t, lowest);
    forall r | r in t.replies
      ensures StaleSlice(t, r)
    {
      assert r in s.replies && StaleSlice(s, r);
    }
  }

  lemma ServeAcknowledgementKeepsInv(c: Config, s: System, upTo: u64)
    requires Inv(s) && upTo in s.acknowledgements
    ensures Inv(Apply(c, s, ServeAcknowledgement(upTo)))
  {
    var t := Apply(c, s, ServeAcknowledgement(upTo));
    var lowest: nat :| BuffersFrom(s, lowest);
    assert BuffersFrom(t, Max(lowest, upTo + 1));
    forall r | r in t.replies
      ensures StaleSlice(t, r)
    {
      assert StaleSlice(s, r);
    }
  }

  lemma StepKeepsInv(c: Config, s: System, step: Step)
    requires Inv(s) && Enabled(s, step)
    ensures Inv(Apply(c, s, step))
  {
    match step
    case Operate(anchor, entry, now) => OperateKeepsInv(c, s, anchor, entry, now);
    case ServeFetch => ServeFetchKeepsInv(c, s);
    case DeliverReply(r) => DeliverReplyKeepsInv(c, s, r);
    case ServeAcknowledgement(n) => ServeAcknowledgementKeepsInv(c, s, n);
    case LoseReply(r) =>
      var lowest: nat :| BuffersFrom(s, lowest);
      assert BuffersFrom(Apply(c, s, step), lowest);
      assert forall q :: q in Apply(c, s, step).replies ==> StaleSlice(s, q);
    case LoseAcknowledgement(n) =>
      var lowest: nat :| BuffersFrom(s, lowest);
      assert BuffersFrom(Apply(c, s, step), lowest);
      assert forall q :: q in Apply(c, s, step).replies ==> StaleSlice(s, q);
  }

  lemma {:induction false} RunKeepsInv(c: Config, s: System, run: seq<Step>)
    requires Inv(s) && Possible(c, s, run)
    ensures Inv(After(c, s, run))
    decreases |run|
  {
    if run != [] {
      StepKeepsInv(c, s, run[0]);
      RunKeepsInv(c, Apply(c, s, run[0]), run[1..]);
    }
  }

  lemma InitialInv()
    ensures Inv(INITIAL)
  {
    assert BuffersFrom(INITIAL, 0);
    assert Payloads(INITIAL.history[..0]) == [];
  }

  // ----- What holds in every reachable state -----

  lemma IndexGrowsByOne(es: seq<BufferedEntry>, e: BufferedEntry)
    requires |es| < TWO_64
    ensures IndexFrom(es + [e], 0) == IndexFrom(es, 0) + {IndexKey(e, |es|)}
    ensures IndexKey(e, |es|) !in IndexFrom(es, 0)
  {
    IndexConcatenates(es, [e], 0);
    assert IndexFrom([e], |es|) == {IndexKey(e, |es|)} by {
      assert IndexKey([e][0], |es| + 0) in IndexFrom([e], |es|);
    }
    assert forall k :: k in IndexFrom(es, 0) ==> k.logIndex < |es|;
  }

  lemma {:induction false} IndexSize(es: seq<BufferedEntry>)
    requires |es| < TWO_64
    ensures |IndexFrom(es, 0)| == |es|
    decreases |es|
  {
    if es != [] {
      var init, last := es[..|es| - 1], es[|es| - 1];
      IndexSize(init);
      IndexGrowsByOne(init, last);
      assert es == init + [last];
    }
  }

  /** Overlapping fetches, stale, reordered or lost messages: the log is always the first operations
      of the history, each once and in order, and the index names every log position exactly once. */
  lemma ArchivingIsExactlyOnce(c: Config, run: seq<Step>)
    requires Possible(c, INITIAL, run)
    ensures var s := After(c, INITIAL, run);
            && |s.archive.log| == Archived(s.archive) <= |s.history|
            && (forall i :: 0 <= i < |s.archive.log| ==> s.archive.log[i] == s.history[i].entry)
            && |s.archive.index| == |s.archive.log|
            && (forall i :: 0 <= i < |s.archive.log| ==> IndexKey(s.history[i], i) in s.archive.index)
  {
    InitialInv();
    RunKeepsInv(c, INITIAL, run);
    var s := After(c, INITIAL, run);
    var prefix := s.history[..Archived(s.archive)];
    IndexSize(prefix);
    forall i | 0 <= i < |prefix|
      ensures IndexKey(s.history[i], i) in s.archive.index
    {
      assert prefix[i] == s.history[i] && IndexKey(prefix[i], 0 + i) in IndexFrom(prefix, 0);
    }
  }

  /** Every operation is in the log or still buffered; the buffer is one contiguous range that ends
      at the next sequence number; nothing is acknowledged before it is archived. */
  lemma NothingIsLost(c: Config, run: seq<Step>, n: nat)
    requires Possible(c, INITIAL, run)
    requires n < |After(c, INITIAL, run).history|
    ensures var s := After(c, INITIAL, run);
            && s.buffer.sequenceNumber == |s.history|
            && (n in s.buffer.entries ==> s.buffer.entries[n] == s.history[n])
            && (n !in s.buffer.entries ==> n < |s.archive.log| && s.archive.log[n] == s.history[n].entry)
            && (forall m :: m in s.buffer.entries ==> m < |s.history| && (n >= m ==> n in s.buffer.entries))
            && (forall m :: m in s.acknowledgements ==> m < |s.archive.log|)
  {
    ArchivingIsExactlyOnce(c, run);
    InitialInv();
    RunKeepsInv(c, INITIAL, run);
  }

  /** The branch that reports entries lost for good is dead, whatever reply is processed when. */
  lemma GapIsUnreachable(c: Config, run: seq<Step>, reply: seq<BufferedEntry>)
    requires Possible(c, INITIAL, run)
    requires reply != [] && reply in After(c, INITIAL, run).replies
    ensures !GapBefore(After(c, INITIAL, run).archive, reply)
  {
    InitialInv();
    RunKeepsInv(c, INITIAL, run);
    ProcessingExtendsPrefix(After(c, INITIAL, run), reply);
  }

  // ----- Progress -----

  /** One undisturbed execution of the archive's `fetch_entries`. */
  ghost function Round(c: Config, s: System): (run: seq<Step>) {
    var reply := FetchEntries(c, s.buffer);
    if reply == [] then [ServeFetch, DeliverReply(reply)]
    else [ServeFetch, DeliverReply(reply), ServeAcknowledgement(reply[|reply| - 1].sequenceNumber)]
  }

  lemma UnrollTwo(c: Config, s: System, a: Step, b: Step)
    requires Enabled(s, a) && Enabled(Apply(c, s, a), b)
    ensures Possible(c, s, [a, b]) && After(c, s, [a, b]) == Apply(c, Apply(c, s, a), b)
  {
    hide Apply, Enabled;
    var t := Apply(c, s, a);
    assert [a, b][1..] == [b] && [b][1..] == [];
    assert After(c, Apply(c, t, b), []) == Apply(c, t, b) && Possible(c, Apply(c, t, b), []);
    assert Possible(c, t, [b]) && After(c, t, [b]) == Apply(c, t, b);
  }

  lemma UnrollThree(c: Config, s: System, a: Step, b: Step, d: Step)
    requires Enabled(s, a) && Enabled(Apply(c, s, a), b) && Enabled(Apply(c, Apply(c, s, a), b), d)
    ensures Possible(c, s, [a, b, d])
    ensures After(c, s, [a, b, d]) == Apply(c, Apply(c, Apply(c, s, a), b), d)
  {
    hide Apply, Enabled;
    assert [a, b, d][1..] == [b, d];
    UnrollTwo(c, Apply(c, s, a), b, d);
  }

  /** What a round does to the buffer. */
  lemma RoundAcknowledges(c: Config, s: System)
    ensures Possible(c, s, Round(c, s))
    ensures var t, reply := After(c, s, Round(c, s)), FetchEntries(c, s.buffer);
            && t.history == s.history
            && t.buffer == if reply == [] then s.buffer
                           else AcknowledgeEntries(s.buffer, reply[|reply| - 1].sequenceNumber)
  {
    hide FetchEntries, AcknowledgeEntries, Possible, After, ProcessReply;
    var reply := FetchEntries(c, s.buffer);
    if reply == [] {
      UnrollTwo(c, s, ServeFetch, DeliverReply(reply));
    } else {
      UnrollThree(c, s, ServeFetch, DeliverReply(reply), ServeAcknowledgement(reply[|reply| - 1].sequenceNumber));
    }
  }

  lemma RoundShrinksBuffer(c: Config, s: System, lowest: nat, reply: seq<BufferedEntry>)
    requires Inv(s) && BuffersFrom(s, lowest)
    requires reply == FetchEntries(c, s.buffer) && reply != []
    ensures reply[|reply| - 1].sequenceNumber == lowest + |reply| - 1
    ensures |AcknowledgeEntries(s.buffer, reply[|reply| - 1].sequenceNumber).entries| == |s.buffer.entries| - |reply|
    ensures |reply| == Min(c.entriesFetchLimit, |s.buffer.entries|)
  {
    FetchServesSlice(c, s, lowest);
    assert reply[|reply| - 1] == s.history[lowest + |reply| - 1];
    var left := AcknowledgeEntries(s.buffer, reply[|reply| - 1].sequenceNumber).entries;
    IntervalAscends(left.Keys, lowest + |reply|, |s.history|);
    assert |left.Keys| == |left|;
  }

  /** A round removes a full batch from the buffer, however much of it was archived before and
      whatever other messages are still in flight. */
  lemma RoundMakesProgress(c: Config, s: System)
    requires Inv(s)
    ensures Possible(c, s, Round(c, s))
    ensures Inv(After(c, s, Round(c, s)))
    ensures After(c, s, Round(c, s)).history == s.history
    ensures |After(c, s, Round(c, s)).buffer.entries|
         == |s.buffer.entries| - Min(c.entriesFetchLimit, |s.buffer.entries|)
  {
    hide Apply, Enabled, Round, Possible, After, FetchEntries, AcknowledgeEntries, HoldsPrefix, StaleSlice;
    var lowest: nat :| BuffersFrom(s, lowest);
    var reply := FetchEntries(c, s.buffer);
    RoundAcknowledges(c, s);
    if reply == [] {
      FetchServesSlice(c, s, lowest);
    } else {
      RoundShrinksBuffer(c, s, lowest, reply);
    }
    RunKeepsInv(c, s, Round(c, s));
  }

  ghost function AfterRounds(c: Config, s: System, n: nat): System
    decreases n
  {
    if n == 0 then s else AfterRounds(c, After(c, s, Round(c, s)), n - 1)
  }

  /** From any reachable state, enough rounds empty the buffer and archive the whole history. */
  lemma {:induction false} ArchiveCatchesUp(c: Config, s: System, n: nat)
    requires Inv(s)
    requires n * c.entriesFetchLimit >= |s.buffer.entries|
    ensures Inv(AfterRounds(c, s, n))
    ensures AfterRounds(c, s, n).history == s.history
    ensures AfterRounds(c, s, n).buffer.entries == map[]
    ensures AfterRounds(c, s, n).archive.log == Payloads(s.history)
    decreases n
  {
    hide Inv, After, Round, Payloads, Possible;
    if n == 0 {
      EmptyBufferMeansArchived(c, s);
    } else {
      RoundMakesProgress(c, s);
      RoundsSuffice(n, c.entriesFetchLimit, |s.buffer.entries|);
      ArchiveCatchesUp(c, After(c, s, Round(c, s)), n - 1);
    }
  }

  lemma RoundsSuffice(n: nat, limit: nat, buffered: nat)
    requires n > 0 && n * limit >= buffered
    ensures (n - 1) * limit >= buffered - Min(limit, buffered)
  {
  }

  lemma EmptyBufferMeansArchived(c: Config, s: System)
    requires Inv(s) && |s.buffer.entries| == 0
    ensures s.buffer.entries == map[]
    ensures s.archive.log == Payloads(s.history)
  {
    var lowest: nat :| BuffersFrom(s, lowest);
    FetchServesSlice(c, s, lowest);
    assert s.history[..Archived(s.archive)] == s.history;
  }

  lemma ZeroLimitServesNothing(c: Config, s: System)
    requires c.entriesFetchLimit == 0
    ensures FetchEntries(c, s.buffer) == []
  {
  }

  lemma DeliveringNothing(a: Archive)
    ensures ProcessReply(a, []) == a
  {
  }

  /** With a fetch limit of zero no run ever archives anything. */
  lemma {:induction false} ZeroLimitArchivesNothing(c: Config, s: System, run: seq<Step>)
    requires c.entriesFetchLimit == 0 && Possible(c, s, run)
    requires forall r :: r in s.replies ==> r == []
    ensures After(c, s, run).archive == s.archive
    decreases |run|
  {
    hide ProcessReply, FetchEntries, AcknowledgeEntries;
    if run != [] {
      ZeroLimitServesNothing(c, s);
      DeliveringNothing(s.archive);
      ZeroLimitArchivesNothing(c, Apply(c, s, run[0]), run[1..]);
    }
  }
}
