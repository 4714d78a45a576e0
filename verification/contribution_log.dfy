/**
 * The contribution log's list logic: add, update and remove yearly entries
 * by id, and the summary (planned and actual totals, the average actual
 * contribution and how many years met their plan). New ids are a parameter.
 */
module ContributionLog {
  import opened PlanTypes
  import IdLists

  datatype LogEntry = LogEntry(id: string, year: int, planned: real, actual: real, note: Option<string>)

  /** An entry without its id, as the log form submits it. */
  datatype LogFields = LogFields(year: int, planned: real, actual: real, note: Option<string>)

  /** A partial update: only the present fields overwrite the entry's. */
  datatype LogUpdate = LogUpdate(year: Option<int>, planned: Option<real>, actual: Option<real>, note: Option<Option<string>>)

  function LogId(l: LogEntry): string
  {
    l.id
  }

  /** `{ ...l, ...updates }` */
  function Apply(l: LogEntry, u: LogUpdate): (l': LogEntry)
    ensures l'.id == l.id
  {
    LogEntry(l.id, u.year.GetOr(l.year), u.planned.GetOr(l.planned), u.actual.GetOr(l.actual), u.note.GetOr(l.note))
  }

  /** addLog: the new entry, with the given fields and the new id, after the unchanged old ones. */
  function AddLog(logs: seq<LogEntry>, f: LogFields, newId: string): (r: seq<LogEntry>)
    ensures |r| == |logs| + 1 && r[..|logs|] == logs
    ensures r[|logs|] == LogEntry(newId, f.year, f.planned, f.actual, f.note)
  {
    IdLists.Add(logs, LogEntry(newId, f.year, f.planned, f.actual, f.note))
  }

  /** updateLog: same length and ids; only entries with the id change, taking the update's present fields. */
  function UpdateLog(logs: seq<LogEntry>, id: string, u: LogUpdate): (r: seq<LogEntry>)
    ensures |r| == |logs|
    ensures forall i | 0 <= i < |logs| :: r[i].id == logs[i].id
    ensures forall i | 0 <= i < |logs| && logs[i].id != id :: r[i] == logs[i]
    ensures forall i | 0 <= i < |logs| && logs[i].id == id :: r[i] == Apply(logs[i], u)
  {
    IdLists.Update(logs, LogId, id, l => Apply(l, u))
  }

  /** removeLog: every entry with the id is dropped and every other one kept. */
  function RemoveLog(logs: seq<LogEntry>, id: string): (r: seq<LogEntry>)
    ensures |r| <= |logs|
    ensures forall i | 0 <= i < |r| :: r[i].id != id && r[i] in logs
    ensures forall i | 0 <= i < |logs| && logs[i].id != id :: logs[i] in r
  {
    IdLists.Remove(logs, LogId, id)
  }

  /** Removing keeps the surviving entries in order: removal distributes over concatenation. */
  lemma RemoveLogAppend(a: seq<LogEntry>, b: seq<LogEntry>, id: string)
    ensures RemoveLog(a + b, id) == RemoveLog(a, id) + RemoveLog(b, id)
  {
    IdLists.RemoveAppend(a, b, LogId, id);
  }

  /** Updating an entry and then removing it leaves what removing it alone leaves. */
  lemma UpdateThenRemoveLog(logs: seq<LogEntry>, id: string, u: LogUpdate)
    ensures RemoveLog(UpdateLog(logs, id, u), id) == RemoveLog(logs, id)
  {
    IdLists.UpdateThenRemove(logs, LogId, id, l => Apply(l, u));
  }

  /** `logs.reduce((s, l) => s + l.planned, 0)` */
  function TotalPlanned(logs: seq<LogEntry>): real
  {
    if |logs| == 0 then 0.0 else TotalPlanned(logs[..|logs| - 1]) + logs[|logs| - 1].planned
  }

  /** `logs.reduce((s, l) => s + l.actual, 0)` */
  function TotalActual(logs: seq<LogEntry>): real
  {
    if |logs| == 0 then 0.0 else TotalActual(logs[..|logs| - 1]) + logs[|logs| - 1].actual
  }

  /** `logs.filter(l => l.actual >= l.planned).length` */
  function OnTrackYears(logs: seq<LogEntry>): nat
  {
    if |logs| == 0 then 0
    else OnTrackYears(logs[..|logs| - 1]) + (if logs[|logs| - 1].actual >= logs[|logs| - 1].planned then 1 else 0)
  }

  /** At most every year is on track; exactly all of them when each actual meets its plan, none when none does. */
  lemma {:induction false} OnTrackBounds(logs: seq<LogEntry>)
    ensures OnTrackYears(logs) <= |logs|
    ensures (forall i | 0 <= i < |logs| :: logs[i].actual >= logs[i].planned) ==> OnTrackYears(logs) == |logs|
    ensures (forall i | 0 <= i < |logs| :: logs[i].actual < logs[i].planned) ==> OnTrackYears(logs) == 0
  {
    if |logs| > 0 {
      var n := |logs| - 1;
      assert forall i | 0 <= i < n :: logs[..n][i] == logs[i];
      OnTrackBounds(logs[..n]);
    }
  }

  datatype Summary = Summary(totalPlanned: real, totalActual: real, avgActual: real, onTrackYears: nat, totalYears: nat)

  /**
   * The log's summary: the average times the number of years is the actual
   * total (0 for an empty log), and the on-track count is at most the
   * number of years, which is the number of entries.
   */
  function LogSummary(logs: seq<LogEntry>): (s: Summary)
    ensures s.totalPlanned == TotalPlanned(logs) && s.totalActual == TotalActual(logs)
    ensures s.totalYears == |logs|
    ensures |logs| == 0 ==> s.avgActual == 0.0 && s.totalActual == 0.0 && s.onTrackYears == 0
    ensures s.avgActual * (|logs| as real) == s.totalActual
    ensures s.onTrackYears <= s.totalYears
  {
    OnTrackBounds(logs);
    var totalActual := TotalActual(logs);
    Summary(TotalPlanned(logs), totalActual,
            if |logs| > 0 then totalActual / (|logs| as real) else 0.0,
            OnTrackYears(logs), |logs|)
  }

  /** Logging one more year adds its planned and actual amounts to the totals and counts it if it met its plan. */
  lemma AddLogSummary(logs: seq<LogEntry>, f: LogFields, newId: string)
    ensures var s, s' := LogSummary(logs), LogSummary(AddLog(logs, f, newId));
            && s'.totalPlanned == s.totalPlanned + f.planned
            && s'.totalActual == s.totalActual + f.actual
            && s'.onTrackYears == s.onTrackYears + (if f.actual >= f.planned then 1 else 0)
            && s'.totalYears == s.totalYears + 1
  {
    var r := AddLog(logs, f, newId);
    assert r[..|r| - 1] == logs;
  }

  /** The summary of a concatenation adds the parts' totals and counts. */
  lemma {:induction false} SummaryAppend(a: seq<LogEntry>, b: seq<LogEntry>)
    ensures TotalPlanned(a + b) == TotalPlanned(a) + TotalPlanned(b)
    ensures TotalActual(a + b) == TotalActual(a) + TotalActual(b)
    ensures OnTrackYears(a + b) == OnTrackYears(a) + OnTrackYears(b)
  {
    if |b| > 0 {
      var n := |b| - 1;
      assert (a + b)[..|a| + n] == a + b[..n];
      assert (a + b)[|a| + n] == b[n];
      SummaryAppend(a, b[..n]);
    } else {
      assert a + b == a;
    }
  }
}
