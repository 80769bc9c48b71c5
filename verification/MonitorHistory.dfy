/**
 The ring log refines the whole history of messages, and the metric table a bounded map.
 */
module MonitorHistory {
  import opened Machine
  import opened CStrings
  import opened Sequences
  import opened Monitor

  // ----- the ring

  ghost function PushAll(r: Ring, history: seq<LogEntry>): (t: Ring)
    requires r.WellFormed()
    ensures t.WellFormed()
  {
    if history == [] then r else Push(PushAll(r, history[..|history| - 1]), history[|history| - 1])
  }

  /** The last n entries, or all. */
  function Last(history: seq<LogEntry>, n: nat): seq<LogEntry> {
    if n < |history| then history[|history| - n..] else history
  }

  /** The slot of the n-th message ever logged. */
  function SlotOf(n: nat): (k: nat)
    ensures k < MAX_LOG_ENTRIES
  {
    n % MAX_LOG_ENTRIES
  }

  lemma {:induction false} WholeTurns(q: nat, k: nat)
    ensures SlotOf(MAX_LOG_ENTRIES * q + k) == SlotOf(k)
  {
    if q > 0 {
      WholeTurns(q - 1, k);
    }
  }

  /** Messages less than a full turn apart have different slots. */
  lemma SlotsApart(k: nat, n: nat)
    requires n - MAX_LOG_ENTRIES < k < n
    ensures SlotOf(k) != SlotOf(n)
  {
    var q, i := k / MAX_LOG_ENTRIES, k % MAX_LOG_ENTRIES + (n - k);
    WholeTurns(q, i);
    if i >= MAX_LOG_ENTRIES {
      WholeTurns(1, i - MAX_LOG_ENTRIES);
    }
  }

  /** The next message has the next slot. */
  lemma NextSlot(n: nat)
    ensures SlotOf(n + 1) == (SlotOf(n) + 1) % MAX_LOG_ENTRIES
  {
    WholeTurns(n / MAX_LOG_ENTRIES, n % MAX_LOG_ENTRIES + 1);
  }

  /** The slots of the ring hold the last messages, each at its own slot. */
  ghost predicate Mirrors(r: Ring, history: seq<LogEntry>) {
    && r.WellFormed()
    && r.count == |Last(history, MAX_LOG_ENTRIES)|
    && r.head == SlotOf(|history|)
    && forall k: nat :: |history| - r.count <= k < |history| ==> r.slots[SlotOf(k)] == history[k]
  }

  lemma PushMirrors(r: Ring, history: seq<LogEntry>, e: LogEntry)
    requires Mirrors(r, history)
    ensures Mirrors(Push(r, e), history + [e])
  {
    hide SlotOf;
    var t, longer := Push(r, e), history + [e];
    NextSlot(|history|);
    forall k: nat | |longer| - t.count <= k < |longer|
      ensures t.slots[SlotOf(k)] == longer[k]
    {
      if |history| - MAX_LOG_ENTRIES < k < |history| {
        SlotsApart(k, |history|);
      }
    }
  }

  lemma {:induction false} PushAllMirrors(r: Ring, history: seq<LogEntry>)
    requires r.WellFormed() && r.head == 0 && r.count == 0
    ensures Mirrors(PushAll(r, history), history)
  {
    if history != [] {
      var init := history[..|history| - 1];
      PushAllMirrors(r, init);
      PushMirrors(PushAll(r, init), init, history[|history| - 1]);
      assert history == init + [history[|history| - 1]];
    }
  }

  /** Counting back from the head and forth again leads to the slot of the message meant. */
  lemma SlotIs(n: nat, count: nat, i: nat)
    requires count <= n && count <= MAX_LOG_ENTRIES && i < count
    ensures ((SlotOf(n) - count + MAX_LOG_ENTRIES) % MAX_LOG_ENTRIES + i) % MAX_LOG_ENTRIES == SlotOf(n - count + i)
  {
    var a, q := n % MAX_LOG_ENTRIES, n / MAX_LOG_ENTRIES;
    if a >= count {
      WholeTurns(q, a - count + i);
    } else {
      WholeTurns(q - 1, a - count + MAX_LOG_ENTRIES + i);
    }
  }

  lemma MirroredAt(r: Ring, history: seq<LogEntry>, i: nat)
    requires Mirrors(r, history) && i < r.count
    ensures |r.InOrder()| == r.count && r.InOrder()[i] == history[|history| - r.count + i]
  {
    hide SlotOf;
    SlotIs(|history|, r.count, i);
    assert r.slots[SlotOf(|history| - r.count + i)] == history[|history| - r.count + i];
  }

  lemma MirrorsInOrder(r: Ring, history: seq<LogEntry>)
    requires Mirrors(r, history)
    ensures r.InOrder() == Last(history, MAX_LOG_ENTRIES)
  {
    hide SlotOf;
    forall i: nat | i < r.count
      ensures r.InOrder()[i] == Last(history, MAX_LOG_ENTRIES)[i]
    {
      MirroredAt(r, history, i);
    }
  }

  /**
   After any sequence of log_message calls on an empty ring, get_logs gives the first entries, oldest first,
   of those at the level or above among the last MAX_LOG_ENTRIES messages.
   */
  lemma RingRefinesHistory(r: Ring, history: seq<LogEntry>, maxEntries: int, level: Level)
    requires r.WellFormed() && r.head == 0 && r.count == 0
    ensures Logs(PushAll(r, history), maxEntries, level) ==
            Take(AtLeast(Last(history, MAX_LOG_ENTRIES), level), maxEntries)
  {
    PushAllMirrors(r, history);
    MirrorsInOrder(PushAll(r, history), history);
  }

  /** Which levels a minimum lets through, level by level. */
  predicate Reaches(level: Level, min: Level) {
    match min
    case Debug => true
    case Info => !level.Debug?
    case Warning => level.Warning? || level.Error? || level.Critical?
    case Error => level.Error? || level.Critical?
    case Critical => level.Critical?
  }

  lemma RankOrder(level: Level, min: Level)
    ensures level.Rank() >= min.Rank() <==> Reaches(level, min)
  {
  }

  /** The positions at `at` are, in order, all those below n whose entries reach the level. */
  ghost predicate Picks(es: seq<LogEntry>, min: Level, at: seq<nat>, n: nat)
    requires n <= |es|
  {
    && (forall k :: 0 <= k < |at| ==> at[k] < n && Reaches(es[at[k]].level, min))
    && (forall k, l :: 0 <= k < l < |at| ==> at[k] < at[l])
    && (forall j :: 0 <= j < n && Reaches(es[j].level, min) ==> j in at)
  }

  lemma PicksNext(es: seq<LogEntry>, min: Level, at: seq<nat>, n: nat)
    requires n < |es| && Picks(es, min, at, n) && Reaches(es[n].level, min)
    ensures Picks(es, min, at + [n], n + 1)
  {
    hide Reaches;
    var more: seq<nat> := at + [n];
    assert forall k :: 0 <= k < |at| ==> more[k] == at[k];
    assert more[|at|] == n;
  }

  lemma SkipsNext(es: seq<LogEntry>, min: Level, at: seq<nat>, n: nat)
    requires n < |es| && Picks(es, min, at, n) && !Reaches(es[n].level, min)
    ensures Picks(es, min, at, n + 1)
  {
    hide Reaches;
  }

  /** The entries at these positions. */
  ghost predicate EntriesAt(es: seq<LogEntry>, at: seq<nat>, selected: seq<LogEntry>) {
    |selected| == |at| && forall k :: 0 <= k < |at| ==> at[k] < |es| && selected[k] == es[at[k]]
  }

  lemma NothingPicked(es: seq<LogEntry>, min: Level)
    ensures Picks(es, min, [], 0) && EntriesAt(es, [], [])
  {
  }

  lemma EntriesNext(es: seq<LogEntry>, at: seq<nat>, selected: seq<LogEntry>, n: nat)
    requires EntriesAt(es, at, selected) && n < |es|
    ensures EntriesAt(es, at + [n], selected + [es[n]])
  {
  }

  lemma {:induction false} SelectedAt(es: seq<LogEntry>, min: Level, n: nat) returns (at: seq<nat>)
    requires n <= |es|
    ensures Picks(es, min, at, n) && EntriesAt(es, at, AtLeast(es[..n], min))
  {
    hide *;
    at := [];
    if n == 0 {
      NothingPicked(es, min);
      NoneSelected(min);
      assert es[..0] == [];
    } else {
      var last := n - 1;
      at := SelectedAt(es, min, last);
      SelectOneMore(es, last, min);
      RankOrder(es[last].level, min);
      if Reaches(es[last].level, min) {
        PicksNext(es, min, at, last);
        EntriesNext(es, at, AtLeast(es[..last], min), last);
        at := at + [last];
      } else {
        SkipsNext(es, min, at, last);
        assert AtLeast(es[..last], min) + [] == AtLeast(es[..last], min);
      }
    }
  }

  /**
   What get_logs returns after any sequence of log_message calls: of the last MAX_LOG_ENTRIES messages, those of the
   level asked for or a graver one, each once and oldest first, cut to the number asked for, none for a negative one.
   */
  lemma LogsByPosition(r: Ring, history: seq<LogEntry>, maxEntries: int, min: Level) returns (at: seq<nat>)
    requires r.WellFormed() && r.head == 0 && r.count == 0
    ensures var latest, logs := Last(history, MAX_LOG_ENTRIES), Logs(PushAll(r, history), maxEntries, min);
            && Picks(latest, min, at, |latest|)
            && |logs| == (if maxEntries < 0 then 0 else if maxEntries < |at| then maxEntries else |at|)
            && forall k :: 0 <= k < |logs| ==> at[k] < |latest| && logs[k] == latest[at[k]]
  {
    hide AtLeast, Logs, Picks;
    RingRefinesHistory(r, history, maxEntries, min);
    var latest := Last(history, MAX_LOG_ENTRIES);
    at := SelectedAt(latest, min, |latest|);
    assert latest[..|latest|] == latest;
  }

  // ----- the metrics

  datatype Sample = Sample(name: CString, value: uint32, now: uint64)

  ghost function RecordAll(samples: seq<Sample>): seq<Metric> {
    if samples == [] then []
    else
      var s := samples[|samples| - 1];
      Record(RecordAll(samples[..|samples| - 1]), s.name, s.value, s.now)
  }

  /** The different names recorded, in the order they first came. */
  ghost function FirstNames(samples: seq<Sample>): seq<CString> {
    if samples == [] then []
    else
      var earlier, name := FirstNames(samples[..|samples| - 1]), samples[|samples| - 1].name;
      if name in earlier then earlier else earlier + [name]
  }

  ghost predicate Recorded(samples: seq<Sample>, name: CString) {
    exists i :: 0 <= i < |samples| && samples[i].name == name
  }

  /** The last value recorded under a name and its time, or zeros. */
  ghost function LastValue(samples: seq<Sample>, name: CString): (uint32, uint64) {
    if samples == [] then (0, 0)
    else
      var s := samples[|samples| - 1];
      if s.name == name then (s.value, s.now) else LastValue(samples[..|samples| - 1], name)
  }

  /** The names are short enough to be stored whole, and none is a proper prefix of another. */
  ghost predicate GoodNames(names: set<CString>) {
    PrefixFree(names) && forall a :: a in names ==> |a| < NAME_BUFFER
  }

  ghost predicate NamesFrom(samples: seq<Sample>, names: set<CString>) {
    forall i :: 0 <= i < |samples| ==> samples[i].name in names
  }

  lemma {:induction false} FirstNamesFacts(samples: seq<Sample>, names: set<CString>)
    requires NamesFrom(samples, names)
    ensures Distinct(FirstNames(samples))
    ensures forall a :: a in FirstNames(samples) ==> a in names
    ensures forall a :: a in FirstNames(samples) <==> Recorded(samples, a)
  {
    if samples != [] {
      var n := |samples| - 1;
      FirstNamesFacts(samples[..n], names);
      assert samples[n].name == samples[n].name;
      forall a | Recorded(samples, a)
        ensures Recorded(samples[..n], a) || a == samples[n].name
      {
        var i :| 0 <= i < |samples| && samples[i].name == a;
        if i < n {
          assert samples[..n][i].name == a;
        }
      }
      forall a | Recorded(samples[..n], a)
        ensures Recorded(samples, a)
      {
        var i :| 0 <= i < n && samples[..n][i].name == a;
        assert samples[i].name == a;
      }
    }
  }

  /** The table holds the first names, as many as fit, each with its last value and the time of that. */
  ghost predicate Tabulates(ms: seq<Metric>, samples: seq<Sample>) {
    && |ms| == (if |FirstNames(samples)| < MAX_METRICS then |FirstNames(samples)| else MAX_METRICS)
    && forall i :: 0 <= i < |ms| ==>
         ms[i].name == FirstNames(samples)[i] &&
         (ms[i].value, ms[i].timestamp) == LastValue(samples, FirstNames(samples)[i])
  }

  /** For good names a hit is an equal name, and the only one. */
  lemma HitIsName(ms: seq<Metric>, samples: seq<Sample>, names: set<CString>, q: CString)
    requires Tabulates(ms, samples) && NamesFrom(samples, names) && GoodNames(names) && q in names
    ensures Hit(ms, q) != -1 ==> ms[Hit(ms, q)].name == q
    ensures forall i :: 0 <= i < |ms| && ms[i].name == q ==> Hit(ms, q) == i
  {
    FirstNamesFacts(samples, names);
    forall i | 0 <= i < |ms|
      ensures q <= ms[i].name ==> ms[i].name == q
    {
      assert ms[i].name in FirstNames(samples);
    }
    forall i | 0 <= i < |ms| && ms[i].name == q
      ensures Hit(ms, q) == i
    {
      HitIs(ms, q, i);
    }
  }

  lemma OneMoreName(samples: seq<Sample>)
    requires samples != []
    ensures var n := |samples| - 1;
            var earlier, s := samples[..n], samples[n];
            && FirstNames(samples) ==
                 (if s.name in FirstNames(earlier) then FirstNames(earlier) else FirstNames(earlier) + [s.name])
            && forall a {:trigger LastValue(samples, a)} ::
                 LastValue(samples, a) == if a == s.name then (s.value, s.now) else LastValue(earlier, a)
  {
  }

  lemma KnownNames(ms: seq<Metric>, samples: seq<Sample>, names: set<CString>)
    requires samples != [] && NamesFrom(samples, names) && GoodNames(names)
    requires Tabulates(ms, samples[..|samples| - 1])
    ensures var n := |samples| - 1;
            var earlier, s := samples[..n], samples[n];
            && Distinct(FirstNames(earlier))
            && |s.name| < NAME_BUFFER
            && (Hit(ms, s.name) != -1 ==> ms[Hit(ms, s.name)].name == s.name)
            && forall i :: 0 <= i < |ms| && ms[i].name == s.name ==> Hit(ms, s.name) == i
  {
    var n := |samples| - 1;
    FirstNamesFacts(samples[..n], names);
    HitIsName(ms, samples[..n], names, samples[n].name);
  }

  /** Recording a name seen before updates its entry, or nothing when it found no room at first. */
  lemma RecordKnown(ms: seq<Metric>, samples: seq<Sample>)
    requires samples != []
    requires var n := |samples| - 1;
             var earlier, s := samples[..n], samples[n];
             && Tabulates(ms, earlier) && Distinct(FirstNames(earlier))
             && s.name in FirstNames(earlier) && FirstNames(samples) == FirstNames(earlier)
             && (Hit(ms, s.name) != -1 ==> ms[Hit(ms, s.name)].name == s.name)
             && (forall i :: 0 <= i < |ms| && ms[i].name == s.name ==> Hit(ms, s.name) == i)
             && forall a {:trigger LastValue(samples, a)} ::
                  LastValue(samples, a) == if a == s.name then (s.value, s.now) else LastValue(earlier, a)
    ensures var s := samples[|samples| - 1];
            Tabulates(Record(ms, s.name, s.value, s.now), samples)
  {
  }

  /** Recording a new name adds an entry, while there is room. */
  lemma RecordNew(ms: seq<Metric>, samples: seq<Sample>)
    requires samples != []
    requires var n := |samples| - 1;
             var earlier, s := samples[..n], samples[n];
             && Tabulates(ms, earlier) && |s.name| < NAME_BUFFER
             && s.name !in FirstNames(earlier) && FirstNames(samples) == FirstNames(earlier) + [s.name]
             && (Hit(ms, s.name) != -1 ==> ms[Hit(ms, s.name)].name == s.name)
             && forall a {:trigger LastValue(samples, a)} ::
                  LastValue(samples, a) == if a == s.name then (s.value, s.now) else LastValue(earlier, a)
    ensures var s := samples[|samples| - 1];
            Tabulates(Record(ms, s.name, s.value, s.now), samples)
  {
  }

  lemma RecordOneMore(ms: seq<Metric>, samples: seq<Sample>, names: set<CString>)
    requires samples != [] && NamesFrom(samples, names) && GoodNames(names)
    requires Tabulates(ms, samples[..|samples| - 1])
    ensures var s := samples[|samples| - 1];
            Tabulates(Record(ms, s.name, s.value, s.now), samples)
  {
    hide Hit, FirstNames, LastValue, GoodNames, NamesFrom, Recorded, Tabulates, Record;
    var n := |samples| - 1;
    var earlier, s := samples[..n], samples[n];
    OneMoreName(samples);
    KnownNames(ms, samples, names);
    if s.name in FirstNames(earlier) {
      RecordKnown(ms, samples);
    } else {
      RecordNew(ms, samples);
    }
  }

  lemma {:induction false} RecordAllTabulates(samples: seq<Sample>, names: set<CString>)
    requires NamesFrom(samples, names) && GoodNames(names)
    ensures Tabulates(RecordAll(samples), samples)
  {
    if samples != [] {
      var n := |samples| - 1;
      RecordAllTabulates(samples[..n], names);
      RecordOneMore(RecordAll(samples[..n]), samples, names);
    }
  }

  /** A name never recorded has the value 0. */
  lemma {:induction false} NewNameValue(samples: seq<Sample>, name: CString)
    ensures !Recorded(samples, name) ==> LastValue(samples, name) == (0, 0)
  {
    if samples != [] {
      var n := |samples| - 1;
      NewNameValue(samples[..n], name);
      if Recorded(samples[..n], name) {
        var i :| 0 <= i < n && samples[..n][i].name == name;
        assert samples[i].name == name;
      }
    }
  }

  function Take50(names: seq<CString>): seq<CString> {
    if |names| <= MAX_METRICS then names else names[..MAX_METRICS]
  }

  /** The reading to expect: the last value recorded for any of the first 50 different names, and 0 for all others. */
  ghost function Expected(samples: seq<Sample>, q: CString): uint32 {
    if q in Take50(FirstNames(samples)) then LastValue(samples, q).0 else 0
  }

  /** For names of at most 63 characters from a prefix-free set, get_metric gives what is expected. */
  lemma TableRefinesMap(samples: seq<Sample>, names: set<CString>, q: CString)
    requires NamesFrom(samples, names) && GoodNames(names) && q in names
    ensures Get(RecordAll(samples), q) == Expected(samples, q)
  {
    RecordAllTabulates(samples, names);
    HitIsName(RecordAll(samples), samples, names, q);
  }

  /**
   In any table: recording y changes what a stored x reads as iff both hit the same entry. An x not stored yet
   begins to read as the value iff y gets a new entry whose name starts with x.
   */
  lemma RecordEffect(ms: seq<Metric>, x: CString, y: CString, value: uint32, now: uint64)
    ensures Get(Record(ms, y, value, now), x) ==
            if Hit(ms, x) != -1 then
              if Hit(ms, y) == Hit(ms, x) then value else Get(ms, x)
            else if Hit(ms, y) == -1 && |ms| < MAX_METRICS && x <= Truncated(y, NAME_BUFFER - 1) then value
            else 0
  {
    hide Hit, Truncated;
    var after := Record(ms, y, value, now);
    if Hit(ms, x) != -1 {
      HitIs(after, x, Hit(ms, x));
    } else if Hit(ms, y) == -1 && |ms| < MAX_METRICS && x <= Truncated(y, NAME_BUFFER - 1) {
      HitIs(after, x, |ms|);
    }
  }

  /** Names that are not prefix-free interfere: a shorter name recorded later overwrites a longer one it starts. */
  lemma PrefixOverwrites(x: CString, y: CString, v: uint32, w: uint32)
    requires y <= x && |x| < NAME_BUFFER
    ensures Get(RecordAll([Sample(x, v, 0), Sample(y, w, 0)]), x) == w
  {
    var samples := [Sample(x, v, 0), Sample(y, w, 0)];
    assert samples[..1] == [samples[0]] && samples[..1][..0] == [];
    assert RecordAll(samples[..0]) == [];
    var ms := RecordAll(samples[..1]);
    assert ms == [Metric(x, v, 0)];
    HitIs(ms, x, 0);
    HitIs(ms, y, 0);
    RecordEffect(ms, x, y, w, 0);
  }

  /** A name of 64 characters or more is cut when stored and never found again: each record takes a new entry. */
  lemma LongNamesNeverHit(ms: seq<Metric>, name: CString, value: uint32, now: uint64)
    requires |name| >= NAME_BUFFER && forall i :: 0 <= i < |ms| ==> |ms[i].name| < NAME_BUFFER
    ensures Get(ms, name) == 0
    ensures |ms| < MAX_METRICS ==> Record(ms, name, value, now) == ms + [Metric(name[..NAME_BUFFER - 1], value, now)]
  {
  }

  // ----- which sets of names work

  /** Whatever is recorded under these names, each of them reads as expected. */
  ghost predicate Refines(names: set<CString>) {
    forall samples: seq<Sample>, q: CString | NamesFrom(samples, names) && q in names ::
      Get(RecordAll(samples), q) == Expected(samples, q)
  }

  lemma LongNameFails(names: set<CString>, a: CString)
    requires a in names && |a| >= NAME_BUFFER
    ensures !Refines(names)
  {
    var samples := [Sample(a, 1, 0)];
    assert samples[..0] == [] && RecordAll(samples[..0]) == [] && FirstNames(samples[..0]) == [];
    LongNamesNeverHit([], a, 1, 0);
    LongNamesNeverHit(RecordAll(samples), a, 1, 0);
    assert FirstNames(samples) == [a];
    assert NamesFrom(samples, names) && Expected(samples, a) == 1;
  }

  lemma TwoNames(samples: seq<Sample>)
    requires |samples| == 2 && samples[0].name != samples[1].name
    ensures FirstNames(samples) == [samples[0].name, samples[1].name]
    ensures Expected(samples, samples[0].name) == samples[0].value
  {
    assert samples[..1][..0] == [];
    assert FirstNames(samples[..1][..0]) == [];
    assert FirstNames(samples[..1]) == [samples[0].name];
    assert LastValue(samples[..1], samples[0].name).0 == samples[0].value;
  }

  lemma PrefixFails(names: set<CString>, a: CString, b: CString)
    requires a in names && b in names && a <= b && a != b && |b| < NAME_BUFFER
    ensures !Refines(names)
  {
    hide Get, RecordAll, Expected;
    var samples := [Sample(b, 1, 0), Sample(a, 2, 0)];
    PrefixOverwrites(b, a, 1, 2);
    TwoNames(samples);
    assert NamesFrom(samples, names) && Expected(samples, b) == 1;
  }

  /** The table reads as expected for all recordings iff the names are short and none starts another. */
  lemma TableRefinesMapIff(names: set<CString>)
    ensures Refines(names) <==> GoodNames(names)
  {
    if GoodNames(names) {
      forall samples: seq<Sample>, q: CString | NamesFrom(samples, names) && q in names
        ensures Get(RecordAll(samples), q) == Expected(samples, q)
      {
        TableRefinesMap(samples, names, q);
      }
    } else if a :| a in names && |a| >= NAME_BUFFER {
      LongNameFails(names, a);
    } else {
      var a, b :| a in names && b in names && a <= b && a != b;
      PrefixFails(names, a, b);
    }
  }
}
