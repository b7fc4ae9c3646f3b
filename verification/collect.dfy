/**
 * The collection loop of the analyser: every process the operating system
 * reports is turned into a usage row when its creation date parses and lies
 * inside the trailing seven-day window; any other process is skipped and the
 * loop carries on with the next one.
 */
module Collect {
  import opened Wrappers
  import opened Calendar
  import opened Strptime

  /** Length of the observation window: seven days. */
  const WindowSeconds: int := 7 * SecondsPerDay

  /**
   * One process as enumerated: its executable name and its WMI
   * `CreationDate` text (`yyyymmddHHMMSS.ffffff+zzz`), absent for some
   * system processes.
   */
  datatype RawProcess = RawProcess(name: string, creationDate: Option<string>)

  /** A usage row: app name, start instant, and seconds elapsed from start to `now`. */
  datatype Usage = Usage(app: string, start: int, duration: int)

  /** The earliest start the window admits. */
  function Cutoff(now: int): int {
    now - WindowSeconds
  }

  /** `text.split('.')[0]`: everything before the first dot, or the whole text when it has none. */
  function BeforeFirstDot(text: string): (r: string)
    ensures r <= text
    ensures '.' !in r
    ensures |r| < |text| ==> text[|r|] == '.'
  {
    if |text| == 0 || text[0] == '.' then [] else [text[0]] + BeforeFirstDot(text[1..])
  }

  /**
   * The start instant of a process, or `None` where Python raises: a
   * missing date (`None.split`) or text `strptime` refuses.
   */
  function StartInstant(creationDate: Option<string>): (r: Option<int>)
    ensures r.Some? <==> creationDate.Some? && ParseDateTime(BeforeFirstDot(creationDate.value)).Some?
    ensures r.Some? ==> r.value >= 0
  {
    match creationDate
    case None => None
    case Some(text) =>
      match ParseDateTime(BeforeFirstDot(text))
      case None => None
      case Some(t) => Some(ToInstant(t))
  }

  /** The row a process contributes at `now`, if any. */
  function Observe(p: RawProcess, now: int): (r: Option<Usage>)
    ensures r.Some? <==> StartInstant(p.creationDate).Some? && StartInstant(p.creationDate).value >= Cutoff(now)
    ensures r.Some? ==> r.value.app == p.name && r.value.start == StartInstant(p.creationDate).value
    ensures r.Some? ==> r.value.duration == now - r.value.start
  {
    match StartInstant(p.creationDate)
    case None => None
    case Some(start) =>
      if start >= Cutoff(now) then Some(Usage(p.name, start, now - start)) else None
  }

  /** The rows of all processes, in enumeration order; skipped processes leave no trace. */
  function CollectRows(ps: seq<RawProcess>, now: int): (r: seq<Usage>)
    ensures |r| <= |ps|
    ensures forall u :: u in r ==> u.start >= Cutoff(now) && u.duration == now - u.start
  {
    if |ps| == 0 then []
    else
      var tail := CollectRows(ps[1..], now);
      match Observe(ps[0], now)
      case None => tail
      case Some(u) => [u] + tail
  }

  /** Every row comes from some process, and every process that yields a row has it collected. */
  lemma {:induction false} CollectedRowsAreObservations(ps: seq<RawProcess>, now: int)
    ensures forall u :: u in CollectRows(ps, now) ==> exists p :: p in ps && Observe(p, now) == Some(u)
    ensures forall p :: p in ps && Observe(p, now).Some? ==> Observe(p, now).value in CollectRows(ps, now)
  {
    if |ps| > 0 {
      CollectedRowsAreObservations(ps[1..], now);
      assert forall p :: p in ps[1..] ==> p in ps;
      assert ps[0] in ps;
    }
  }

  /** Collection distributes over concatenation: each process is handled on its own. */
  lemma {:induction false} CollectRowsAppend(a: seq<RawProcess>, b: seq<RawProcess>, now: int)
    ensures CollectRows(a + b, now) == CollectRows(a, now) + CollectRows(b, now)
  {
    if |a| > 0 {
      var head, rest, tail := CollectRows([a[0]], now), CollectRows(a[1..], now), CollectRows(b, now);
      CollectRowsAppend(a[1..], b, now);
      CollectRowsCons(a, now);
      CollectRowsConsAppend(a, b, now);
      assert head + (rest + tail) == head + rest + tail;
    } else {
      assert a + b == b;
      assert CollectRows(a, now) == [];
    }
  }

  /** Collection on `a + b` splits off the first process of `a`. */
  lemma {:induction false} CollectRowsConsAppend(a: seq<RawProcess>, b: seq<RawProcess>, now: int)
    requires |a| > 0
    ensures CollectRows(a + b, now) == CollectRows([a[0]], now) + CollectRows(a[1..] + b, now)
  {
    CollectRowsCons(a + b, now);
    assert (a + b)[0] == a[0];
    assert (a + b)[1..] == a[1..] + b;
  }

  /** The rows of a non-empty sequence: those of its first process, then those of the rest. */
  lemma {:induction false} CollectRowsCons(ps: seq<RawProcess>, now: int)
    requires |ps| > 0
    ensures CollectRows(ps, now) == CollectRows([ps[0]], now) + CollectRows(ps[1..], now)
  {
    CollectOne(ps[0], now);
  }

  /** A single process contributes its own row or nothing. */
  lemma CollectOne(p: RawProcess, now: int)
    ensures CollectRows([p], now) == if Observe(p, now).Some? then [Observe(p, now).value] else []
  {
    assert [p][1..] == [];
  }

  /**
   * A process without a usable date, or one started before the cutoff,
   * drops out alone: the rows are those of the other processes.
   */
  lemma SkippedProcessLeavesNoTrace(a: seq<RawProcess>, p: RawProcess, b: seq<RawProcess>, now: int)
    requires Observe(p, now).None?
    ensures CollectRows(a + [p] + b, now) == CollectRows(a + b, now)
  {
    var ca, cb := CollectRows(a, now), CollectRows(b, now);
    assert CollectRows([p], now) == [] by {
      CollectOne(p, now);
    }
    assert CollectRows(a + [p], now) == ca by {
      CollectRowsAppend(a, [p], now);
      assert ca + [] == ca;
    }
    assert CollectRows(a + [p] + b, now) == ca + cb by {
      CollectRowsAppend(a + [p], b, now);
    }
    CollectRowsAppend(a, b, now);
  }

  /**
   * A WMI creation date is read through its `yyyymmddHHMMSS` part, whatever
   * fraction and offset follow the dot.
   */
  lemma CreationDateRoundTrip(t: DateTime, fraction: string)
    requires ValidDateTime(t)
    ensures StartInstant(Some(FormatDateTime(t) + "." + fraction)) == Some(ToInstant(t))
  {
    var text := FormatDateTime(t) + "." + fraction;
    BeforeFirstDotOfPrefix(FormatDateTime(t), "." + fraction);
    assert text == FormatDateTime(t) + ("." + fraction);
    ParseFormatted(t);
  }

  /**
   * A creation date whose part before the first dot is 14 ASCII digits
   * yields a start iff those digits spell a valid date and time, and the
   * start is then that date and time's instant.
   */
  lemma DigitCreationDateStart(text: string)
    requires |BeforeFirstDot(text)| == 14 && AsciiDigits(BeforeFirstDot(text))
    ensures StartInstant(Some(text)).Some? <==> exists t :: ValidDateTime(t) && FormatDateTime(t) == BeforeFirstDot(text)
    ensures forall t :: ValidDateTime(t) && FormatDateTime(t) == BeforeFirstDot(text) ==> StartInstant(Some(text)) == Some(ToInstant(t))
  {
    DigitTextParsesIffValid(BeforeFirstDot(text));
  }

  lemma {:induction false} BeforeFirstDotOfPrefix(head: string, tail: string)
    requires '.' !in head && |tail| > 0 && tail[0] == '.'
    ensures BeforeFirstDot(head + tail) == head
  {
    if |head| > 0 {
      assert (head + tail)[1..] == head[1..] + tail;
      BeforeFirstDotOfPrefix(head[1..], tail);
    } else {
      assert head + tail == tail;
    }
  }
}
