/**
 The monitor's two tables: the ring buffer of log entries and the table of metrics. Ring and
 seq<Metric> are what they say; the class Recorder keeps the records with their char buffers.
 */
module Monitor {
  import opened Machine
  import opened CStrings

  const MAX_LOG_ENTRIES := 1000
  const MAX_METRICS := 50
  const COMPONENT_BUFFER := 64
  const MESSAGE_BUFFER := 256
  const NAME_BUFFER := 64

  datatype Level = Debug | Info | Warning | Error | Critical {
    function Rank(): nat {
      match this
      case Debug => 0
      case Info => 1
      case Warning => 2
      case Error => 3
      case Critical => 4
    }
  }

  // ----- the log

  datatype LogEntry = LogEntry(timestamp: uint64, level: Level, component: CString, message: CString)

  /** The ring: `head` is the next slot to write, `count` how many slots are in use. */
  datatype Ring = Ring(slots: seq<LogEntry>, head: nat, count: nat) {
    predicate WellFormed() {
      |slots| == MAX_LOG_ENTRIES && head < MAX_LOG_ENTRIES && count <= MAX_LOG_ENTRIES
    }

    /** The slot of the i-th entry, oldest first. */
    function Slot(i: nat): (k: nat)
      requires WellFormed() && i < count
      ensures k < MAX_LOG_ENTRIES
    {
      ((head - count + MAX_LOG_ENTRIES) % MAX_LOG_ENTRIES + i) % MAX_LOG_ENTRIES
    }

    function InOrder(): seq<LogEntry>
      requires WellFormed()
    {
      seq(count, i requires 0 <= i < count => slots[Slot(i)])
    }
  }

  function Push(r: Ring, e: LogEntry): (t: Ring)
    requires r.WellFormed()
    ensures t.WellFormed()
  {
    Ring(r.slots[r.head := e], (r.head + 1) % MAX_LOG_ENTRIES,
         if r.count < MAX_LOG_ENTRIES then r.count + 1 else r.count)
  }

  function AtLeast(es: seq<LogEntry>, level: Level): (r: seq<LogEntry>)
    ensures |r| <= |es|
  {
    if es == [] then []
    else
      var last := es[|es| - 1];
      AtLeast(es[..|es| - 1], level) + (if last.level.Rank() >= level.Rank() then [last] else [])
  }

  lemma NoneSelected(level: Level)
    ensures AtLeast([], level) == []
  {
  }

  lemma SelectOneMore(es: seq<LogEntry>, i: nat, level: Level)
    requires i < |es|
    ensures AtLeast(es[..i + 1], level) ==
            AtLeast(es[..i], level) + (if es[i].level.Rank() >= level.Rank() then [es[i]] else [])
  {
    assert es[..i + 1][..i] == es[..i];
  }

  /** What was selected from a prefix comes first in what is selected from the whole. */
  lemma {:induction false} AtLeastPrefix(es: seq<LogEntry>, i: nat, level: Level)
    requires i <= |es|
    ensures AtLeast(es[..i], level) <= AtLeast(es, level)
  {
    if i < |es| {
      AtLeastPrefix(es[..|es| - 1], i, level);
      assert es[..|es| - 1][..i] == es[..i];
    } else {
      assert es[..i] == es;
    }
  }

  /** The first n entries, or all; none for a negative n. */
  function Take(es: seq<LogEntry>, n: int): seq<LogEntry> {
    if n < 0 then [] else if n < |es| then es[..n] else es
  }

  function Logs(r: Ring, maxEntries: int, level: Level): seq<LogEntry>
    requires r.WellFormed()
  {
    Take(AtLeast(r.InOrder(), level), maxEntries)
  }

  // ----- the metrics

  datatype Metric = Metric(name: CString, value: uint32, timestamp: uint64)

  /** The first metric whose name starts with the name asked for, or -1. */
  function Hit(ms: seq<Metric>, name: CString): (r: int)
    ensures r == -1 <==> forall i :: 0 <= i < |ms| ==> !(name <= ms[i].name)
    ensures r != -1 ==> 0 <= r < |ms| && name <= ms[r].name && forall i :: 0 <= i < r ==> !(name <= ms[i].name)
  {
    if ms == [] then -1
    else
      var n := |ms| - 1;
      var r := Hit(ms[..n], name);
      if r != -1 then r else if name <= ms[n].name then n else -1
  }

  lemma HitIs(ms: seq<Metric>, name: CString, i: nat)
    requires i < |ms| && name <= ms[i].name && forall k :: 0 <= k < i ==> !(name <= ms[k].name)
    ensures Hit(ms, name) == i
  {
  }

  function Record(ms: seq<Metric>, name: CString, value: uint32, now: uint64): seq<Metric> {
    if Hit(ms, name) != -1 then ms[Hit(ms, name) := ms[Hit(ms, name)].(value := value, timestamp := now)]
    else if |ms| < MAX_METRICS then ms + [Metric(Truncated(name, NAME_BUFFER - 1), value, now)]
    else ms
  }

  function Get(ms: seq<Metric>, name: CString): uint32 {
    if Hit(ms, name) == -1 then 0 else ms[Hit(ms, name)].value
  }

  // ----- the tables themselves

  datatype LogRecord = LogRecord(timestamp: uint64, level: Level, message: seq<bv8>, component: seq<bv8>) {
    ghost predicate WellFormed() {
      |message| == MESSAGE_BUFFER && |component| == COMPONENT_BUFFER && 0 in message && 0 in component
    }

    ghost function AsEntry(): LogEntry {
      LogEntry(timestamp, level, Text(component), Text(message))
    }
  }

  datatype MetricRecord = MetricRecord(name: seq<bv8>, value: uint32, timestamp: uint64) {
    ghost predicate WellFormed() {
      |name| == NAME_BUFFER && 0 in name
    }

    ghost function AsMetric(): Metric {
      Metric(Text(name), value, timestamp)
    }
  }

  class Recorder {
    const logBuffer: array<LogRecord>
    const metrics: array<MetricRecord>
    var logHead: nat
    var logCount: nat
    var metricCount: nat
    var uptime: uint64

    ghost predicate Valid()
      reads this, logBuffer, metrics
    {
      && logBuffer.Length == MAX_LOG_ENTRIES && logHead < MAX_LOG_ENTRIES && logCount <= MAX_LOG_ENTRIES
      && metrics.Length == MAX_METRICS && metricCount <= MAX_METRICS
      && (forall i :: 0 <= i < MAX_LOG_ENTRIES ==> logBuffer[i].WellFormed())
      && (forall i :: 0 <= i < MAX_METRICS ==> metrics[i].WellFormed())
    }

    ghost function Log(): (r: Ring)
      requires Valid()
      reads this, logBuffer, metrics
      ensures r.WellFormed()
    {
      Ring(seq(MAX_LOG_ENTRIES, i requires 0 <= i < logBuffer.Length reads logBuffer => logBuffer[i].AsEntry()),
           logHead, logCount)
    }

    ghost function Table(): (ms: seq<Metric>)
      requires Valid()
      reads this, logBuffer, metrics
    {
      seq(metricCount, i requires 0 <= i < metrics.Length reads metrics => metrics[i].AsMetric())
    }

    constructor ()
      ensures Valid() && Log().count == 0 && Log().head == 0 && Table() == [] && uptime == 0
      ensures fresh(logBuffer) && fresh(metrics)
    {
      logBuffer := new LogRecord[MAX_LOG_ENTRIES](_ =>
        LogRecord(0, Info, seq(MESSAGE_BUFFER, _ => 0), seq(COMPONENT_BUFFER, _ => 0)));
      metrics := new MetricRecord[MAX_METRICS](_ => MetricRecord(seq(NAME_BUFFER, _ => 0), 0, 0));
      logHead, logCount, metricCount, uptime := 0, 0, 0, 0;
      new;
      assert forall i :: 0 <= i < MAX_LOG_ENTRIES ==> logBuffer[i].message[0] == 0 && logBuffer[i].component[0] == 0;
      assert forall i :: 0 <= i < MAX_METRICS ==> metrics[i].name[0] == 0;
      assert |Table()| == 0;
    }

    /** monitoring_init: both tables empty again; the components of old entries stay in the buffer. */
    method Init()
      requires Valid()
      modifies this, logBuffer
      ensures Valid() && Log().count == 0 && Log().head == 0 && Table() == [] && uptime == 0
    {
      logHead, logCount, metricCount, uptime := 0, 0, 0, 0;
      for i := 0 to MAX_LOG_ENTRIES
        invariant Valid() && logHead == 0 && logCount == 0 && metricCount == 0 && uptime == 0
      {
        var message := seq(MESSAGE_BUFFER, _ => 0);
        assert message[0] == 0;
        logBuffer[i] := LogRecord(0, Info, message, logBuffer[i].component);
      }
      assert |Table()| == 0;
    }

    method LogMessage(level: Level, component: CString, message: CString)
      requires Valid()
      modifies this`logHead, this`logCount, logBuffer
      ensures Valid() && Table() == old(Table())
      ensures Log() == Push(old(Log()), LogEntry(uptime, level, Truncated(component, COMPONENT_BUFFER - 1),
                                                 Truncated(message, MESSAGE_BUFFER - 1)))
    {
      hide Text, Truncated;
      var c := CopyTruncated(logBuffer[logHead].component, component, COMPONENT_BUFFER - 1);
      var m := CopyTruncated(logBuffer[logHead].message, message, MESSAGE_BUFFER - 1);
      logBuffer[logHead] := LogRecord(uptime, level, m, c);
      ghost var written := logHead;
      logHead := (logHead + 1) % MAX_LOG_ENTRIES;
      if logCount < MAX_LOG_ENTRIES {
        logCount := logCount + 1;
      }
      assert Log().slots == old(Log()).slots[written := logBuffer[written].AsEntry()];
    }

    /** The loop of get_logs over the entries es, which begin at slot `start`. */
    method SelectLogs(buffer: array<LogRecord>, start: nat, maxEntries: int, minLevel: Level, ghost es: seq<LogEntry>)
      returns (count: nat)
      requires logBuffer.Length == MAX_LOG_ENTRIES && |es| == logCount
      requires forall k :: 0 <= k < |es| ==> es[k] == logBuffer[(start + k) % MAX_LOG_ENTRIES].AsEntry()
      requires buffer != logBuffer && (maxEntries <= buffer.Length || logCount <= buffer.Length)
      modifies buffer
      ensures count == |Take(AtLeast(es, minLevel), maxEntries)|
      ensures forall k :: 0 <= k < count ==> buffer[k].AsEntry() == Take(AtLeast(es, minLevel), maxEntries)[k]
      ensures forall k :: count <= k < buffer.Length ==> buffer[k] == old(buffer[k])
    {
      hide Text, AtLeast;
      count := 0;
      ghost var sel := [];
      NoneSelected(minLevel);
      assert es[..0] == [];
      var i := 0;
      while i < logCount && count < maxEntries
        invariant 0 <= i <= logCount
        invariant sel == AtLeast(es[..i], minLevel) && count == |sel| <= i && (count <= maxEntries || count == 0)
        invariant forall k :: 0 <= k < count ==> buffer[k].AsEntry() == sel[k]
        invariant forall k :: count <= k < buffer.Length ==> buffer[k] == old(buffer[k])
        decreases logCount - i
      {
        var idx := (start + i) % MAX_LOG_ENTRIES;
        assert es[i] == logBuffer[idx].AsEntry();
        SelectOneMore(es, i, minLevel);
        if logBuffer[idx].level.Rank() >= minLevel.Rank() {
          buffer[count] := logBuffer[idx];
          count, sel := count + 1, sel + [es[i]];
        }
        i := i + 1;
      }
      AtLeastPrefix(es, i, minLevel);
      assert es[..|es|] == es;
    }

    /** get_logs: the entries go to the front of the caller's buffer, which has room for them. */
    method GetLogs(buffer: array<LogRecord>, maxEntries: int, minLevel: Level) returns (count: nat)
      requires Valid() && buffer != logBuffer && (maxEntries <= buffer.Length || logCount <= buffer.Length)
      modifies buffer
      ensures Valid() && Log() == old(Log())
      ensures count == |Logs(Log(), maxEntries, minLevel)|
      ensures forall k :: 0 <= k < count ==> buffer[k].AsEntry() == Logs(Log(), maxEntries, minLevel)[k]
      ensures forall k :: count <= k < buffer.Length ==> buffer[k] == old(buffer[k])
    {
      hide Text, AtLeast;
      ghost var es := Log().InOrder();
      var start := (logHead - logCount + MAX_LOG_ENTRIES) % MAX_LOG_ENTRIES;
      count := SelectLogs(buffer, start, maxEntries, minLevel, es);
    }

    /** The position of the first metric that matches, or -1. */
    method FindMetric(name: CString) returns (r: int)
      requires Valid()
      ensures r == Hit(Table(), name)
    {
      for i := 0 to metricCount
        invariant forall k :: 0 <= k < i ==> !(name <= Table()[k].name)
      {
        var matches := MatchesQuery(metrics[i].name, name);
        if matches {
          HitIs(Table(), name, i);
          return i;
        }
      }
      return -1;
    }

    method RecordMetric(name: CString, value: uint32)
      requires Valid()
      modifies this`metricCount, metrics
      ensures Valid() && Log() == old(Log())
      ensures Table() == Record(old(Table()), name, value, uptime)
    {
      hide Hit, Text, Truncated;
      var i := FindMetric(name);
      if i != -1 {
        metrics[i] := metrics[i].(value := value, timestamp := uptime);
        assert Table() == old(Table())[i := metrics[i].AsMetric()];
        return;
      }
      if metricCount < MAX_METRICS {
        var n := CopyTruncated(metrics[metricCount].name, name, NAME_BUFFER - 1);
        metrics[metricCount] := MetricRecord(n, value, uptime);
        metricCount := metricCount + 1;
        assert Table() == old(Table()) + [metrics[metricCount - 1].AsMetric()];
      }
    }

    method GetMetric(name: CString) returns (value: uint32)
      requires Valid()
      ensures value == Get(Table(), name)
    {
      var i := FindMetric(name);
      if i == -1 {
        return 0;
      }
      return metrics[i].value;
    }
  }
}
