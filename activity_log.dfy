/**
 * The browser script's activity log: a list of at most ten entries shown by
 * the panel, newest first. A message equal to the previous accepted message
 * is dropped; the previous message is remembered even while the panel is not
 * mounted, in which case nothing is listed.
 */
module ActivityLog {
  import opened Common

  /** `CONFIG.MAX_LOG_ENTRIES`. */
  const MaxLogEntries: nat := 10

  /** One line of the log: the time it was written (`HH:MM:SS`), the text and its kind (`info`, `warning`, ...). */
  datatype LogItem = LogItem(timestamp: string, message: string, kind: string)

  /** The log's state: the listed entries, `lastLogMessage` (null at first) and whether the panel's callback is set. */
  datatype LogState = LogState(entries: seq<LogItem>, last: Option<string>, mounted: bool)

  /** `lastLogMessage && message === lastLogMessage`: an empty previous message never suppresses. */
  predicate IsRepeat(last: Option<string>, message: string) {
    last.Some? && last.value != "" && message == last.value
  }

  /** The listing after the panel's update: the item in front, the oldest entry dropped beyond the bound. */
  function Prepend(entries: seq<LogItem>, item: LogItem): (r: seq<LogItem>)
    requires |entries| <= MaxLogEntries
    ensures |r| == if |entries| < MaxLogEntries then |entries| + 1 else MaxLogEntries
    ensures r[0] == item && r[1..] <= entries
  {
    var grown := [item] + entries;
    if |grown| > MaxLogEntries then grown[..|grown| - 1] else grown
  }

  /** `addLog(message, kind)` written at `timestamp`. */
  function AddLog(st: LogState, item: LogItem): (r: LogState)
    requires |st.entries| <= MaxLogEntries
    ensures r.last == Some(item.message) && r.mounted == st.mounted
    ensures |r.entries| <= MaxLogEntries
    ensures r.entries == st.entries || (|r.entries| > 0 && r.entries[0] == item)
    ensures !st.mounted ==> r.entries == st.entries
  {
    if IsRepeat(st.last, item.message) then st
    else LogState(if st.mounted then Prepend(st.entries, item) else st.entries, Some(item.message), st.mounted)
  }

  /** The panel mounts (its `useState([])` starts empty and the callback is set). */
  function Mount(st: LogState): (r: LogState)
    ensures Inv(r) && r.mounted && r.last == st.last
  {
    LogState([], st.last, true)
  }

  /** The panel unmounts: the callback is cleared and its state is gone. */
  function Unmount(st: LogState): (r: LogState)
    ensures Inv(r) && !r.mounted && r.last == st.last
  {
    LogState([], st.last, false)
  }

  /** Two neighbouring entries never carry the same non-empty message. */
  predicate NoRepeats(entries: seq<LogItem>) {
    forall i :: 0 <= i < |entries| - 1 ==> (entries[i].message == entries[i + 1].message ==> entries[i].message == "")
  }

  /** What the log always satisfies. */
  predicate Inv(st: LogState) {
    |st.entries| <= MaxLogEntries
    && (!st.mounted ==> st.entries == [])
    && (st.entries != [] ==> st.last == Some(st.entries[0].message))
    && NoRepeats(st.entries)
  }

  lemma InitialInv()
    ensures Inv(LogState([], None, false))
  {
  }

  /** Every operation keeps the invariant: bounded, newest first in step with `lastLogMessage`, no repeated neighbours. */
  lemma AddLogKeepsInv(st: LogState, item: LogItem)
    requires Inv(st)
    ensures Inv(AddLog(st, item)) && Inv(Mount(st)) && Inv(Unmount(st))
  {
    if !IsRepeat(st.last, item.message) && st.mounted {
      var r := Prepend(st.entries, item);
      forall i | 0 <= i < |r| - 1
        ensures r[i].message == r[i + 1].message ==> r[i].message == ""
      {
        if i > 0 {
          assert r[i] == st.entries[i - 1] && r[i + 1] == st.entries[i];
        }
      }
    }
  }

  /** An accepted message goes in front and the older entries follow in their order, the oldest falling off past ten. */
  lemma AcceptedGoesFirst(st: LogState, item: LogItem)
    requires Inv(st) && st.mounted && !IsRepeat(st.last, item.message)
    ensures var e := AddLog(st, item).entries;
      e[0] == item && e[1..] <= st.entries && |e| == (if |st.entries| < MaxLogEntries then |st.entries| + 1 else MaxLogEntries)
  {
  }

  /** Writing the same non-empty message twice in a row lists it once. */
  lemma RepeatDropped(st: LogState, item: LogItem, again: LogItem)
    requires Inv(st) && again.message == item.message && item.message != ""
    ensures AddLog(AddLog(st, item), again) == AddLog(st, item)
  {
  }

  /** The log as the script keeps it: the panel's entry list, `lastLogMessage` and the callback's presence. */
  class Log {
    var entries: seq<LogItem>
    var lastLogMessage: Option<string>
    var mounted: bool

    function State(): LogState
      reads this
    {
      LogState(entries, lastLogMessage, mounted)
    }

    constructor ()
      ensures State() == LogState([], None, false)
    {
      entries := [];
      lastLogMessage := None;
      mounted := false;
    }

    /** `addLog(message, kind)` at `timestamp`. */
    method Add(timestamp: string, message: string, kind: string)
      requires Inv(State())
      modifies this
      ensures State() == AddLog(old(State()), LogItem(timestamp, message, kind))
      ensures Inv(State())
    {
      AddLogKeepsInv(State(), LogItem(timestamp, message, kind));
      if lastLogMessage.Some? && lastLogMessage.value != "" && message == lastLogMessage.value {
        return;
      }
      lastLogMessage := Some(message);
      var item := LogItem(timestamp, message, kind);
      if mounted {
        var newEntries := [item] + entries;
        if |newEntries| > MaxLogEntries {
          newEntries := newEntries[..|newEntries| - 1];
        }
        entries := newEntries;
      }
    }

    method OnMount()
      requires Inv(State())
      modifies this
      ensures State() == Mount(old(State())) && Inv(State())
    {
      entries := [];
      mounted := true;
    }

    method OnUnmount()
      requires Inv(State())
      modifies this
      ensures State() == Unmount(old(State())) && Inv(State())
    {
      entries := [];
      mounted := false;
    }
  }
}
