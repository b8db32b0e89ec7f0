/** The progress hook `report_progress` that `download_audio` registers with
    the extractor: a throttle over the two variables it shares with its
    enclosing call, turning raw progress events into status-message edits. */
module Progress {
  import opened Base
  import opened Strings
  import opened Numbers

  /** The closure's shared state: the last percent shown and the clock
      reading (seconds) of the edit that showed it. */
  datatype Throttle = Throttle(lastProgress: int, lastUpdate: real)

  /** Both variables start at zero for every request; the clock reading 0
      is the epoch. */
  const Initial := Throttle(0, 0.0)

  /** An edit is due once progress has risen by this many points ... */
  const MinStep := 5

  /** ... or once strictly more than this many seconds have passed. */
  const MinInterval := 2.0

  /** A raw event from the extractor: its `status` and its `_percent_str`
      entry, which may be missing. */
  datatype Event = Event(status: string, percent: Option<string>)

  /** What one event does: the text of the status edit it sends, if any, and
      the state afterwards. */
  datatype Step = Step(edit: Option<string>, next: Throttle)

  const ProgressPrefix := "Downloading... "

  /** The status text for percent `p`, as `f"Downloading... {p}%"` renders it. */
  function ProgressText(p: int): string {
    ProgressPrefix + ShowInt(p) + "%"
  }

  /** The percent of an event: a missing entry counts as `"0%"`, the text is
      stripped, every `%` is removed, and `int(float(...))` is taken; `None`
      where that conversion raises `ValueError`. */
  function ParsePercent(percent: Option<string>): (r: Option<int>)
    ensures percent.None? ==> r == Some(0)
  {
    var zero := Decimal(Unsigned, "0", None);
    assert zero.Valid() && zero.Truncate() == 0 && zero.Render() + "%" == "0%";
    PercentTextValue(zero);
    ParseDecimal(RemoveChar(Strip(percent.GetOr("0%")), '%'))
  }

  /** The progress value the hook works with: the parsed percent, or the last
      shown percent when parsing fails. */
  function Observed(t: Throttle, e: Event): int {
    ParsePercent(e.percent).GetOr(t.lastProgress)
  }

  /** Whether `b` was far enough from `a` to be emitted: progress rose by at
      least `MinStep`, or more than `MinInterval` seconds passed. */
  predicate Apart(a: Throttle, b: Throttle) {
    b.lastProgress >= a.lastProgress + MinStep || b.lastUpdate - a.lastUpdate > MinInterval
  }

  /** Since the last update time starts at the epoch, the first
      `downloading` event at any clock reading more than 2 seconds after it
      (that is, at any real time) is always shown. */
  lemma FirstEventShown(e: Event, now: real)
    requires e.status == "downloading" && now > MinInterval
    ensures Report(Initial, e, now).edit.Some?
    ensures Report(Initial, e, now).next == Throttle(Observed(Initial, e), now)
  {
  }

  /** What the hook takes from an event: whether its status is
      `downloading`, and its parsed percent (`None` when unparsable). */
  datatype Reading = Reading(downloading: bool, percent: Option<int>)

  function Read(e: Event): Reading {
    Reading(e.status == "downloading", ParsePercent(e.percent))
  }

  /** The throttle on a reading taken at clock reading `now`: the state an
      edit records, when one is due. A reading that is not `downloading`
      is ignored; otherwise the progress is the parsed percent, or the last
      shown one when there is none, and an edit is due exactly when that
      progress, at `now`, is `Apart` from the last edit. */
  function Due(t: Throttle, x: Reading, now: real): (r: Option<Throttle>)
    ensures !x.downloading ==> r.None?
    ensures x.downloading ==>
              (r.Some? <==> Apart(t, Throttle(x.percent.GetOr(t.lastProgress), now)))
    ensures r.Some? ==> r.value == Throttle(x.percent.GetOr(t.lastProgress), now)
  {
    if x.downloading then
      var progress := x.percent.GetOr(t.lastProgress);
      if progress >= t.lastProgress + MinStep || now - t.lastUpdate > MinInterval then
        Some(Throttle(progress, now))
      else None
    else None
  }

  /** One call of the hook with event `e` at clock reading `now`. */
  function Report(t: Throttle, e: Event, now: real): (r: Step)
    ensures e.status != "downloading" ==> r == Step(None, t)
    ensures e.status == "downloading" ==>
              (r.edit.Some? <==> Apart(t, Throttle(Observed(t, e), now)))
    ensures r.edit.None? ==> r.next == t
    ensures r.edit.Some? ==> r.next == Throttle(Observed(t, e), now)
                             && r.edit.value == ProgressText(r.next.lastProgress)
    ensures e.status == "downloading" && ParsePercent(e.percent).None? ==>
              r.next.lastProgress == t.lastProgress
              && (r.edit.Some? <==> now - t.lastUpdate > MinInterval)
  {
    match Due(t, Read(e), now)
    case None => Step(None, t)
    case Some(next) => Step(Some(ProgressText(next.lastProgress)), next)
  }

  /** A rendered literal contains no `%`. */
  lemma RenderHasNoPercent(d: Decimal)
    requires d.Valid()
    ensures '%' !in d.Render()
  {
    var t := d.Render();
    forall i | 0 <= i < |t| ensures t[i] != '%' {
      var n := |SignText(d.sign)|;
      if n <= i < n + |d.whole| {
        assert t[i] == d.whole[i - n];
        assert IsDigit(d.whole[i - n]);
      } else if i >= n + |d.whole| + 1 {
        var f := d.frac.value;
        assert t[i] == f[i - n - |d.whole| - 1];
        assert IsDigit(f[i - n - |d.whole| - 1]);
      }
    }
  }

  /** A percent string as the extractor writes it, a literal followed by `%`
      and padded with whitespace, yields the literal's truncated value. */
  lemma ParsePercentLiteral(lead: string, d: Decimal, trail: string)
    requires AllIn(lead, Whitespace) && AllIn(trail, Whitespace) && d.Valid()
    ensures ParsePercent(Some(lead + d.Render() + "%" + trail)) == Some(d.Truncate())
  {
    var u := d.Render() + "%";
    RenderedIsTrimmed(d);
    assert lead + d.Render() + "%" + trail == lead + u + trail;
    StripPadded(lead, u, trail, Whitespace);
    RemovePercentSign(d);
    ParseLiteral(d);
  }

  /** A literal directly followed by `%` yields its truncated value. */
  lemma ParsePercentOf(d: Decimal)
    requires d.Valid()
    ensures ParsePercent(Some(d.Render() + "%")) == Some(d.Truncate())
  {
    PercentTextValue(d);
  }

  /** The steps of the hook's conversion on a literal followed by `%`:
      nothing to strip, the `%` removed, the literal parsed. */
  lemma PercentTextValue(d: Decimal)
    requires d.Valid()
    ensures ParseDecimal(RemoveChar(Strip(d.Render() + "%"), '%')) == Some(d.Truncate())
  {
    PercentTextTrimmed(d);
    RemovePercentSign(d);
    ParseLiteral(d);
  }

  /** A literal followed by `%` has nothing to strip. */
  lemma PercentTextTrimmed(d: Decimal)
    requires d.Valid()
    ensures Strip(d.Render() + "%") == d.Render() + "%"
  {
    var x := d.Render() + "%";
    RenderedIsTrimmed(d);
    assert x[0] == d.Render()[0];
    StripTrimmed(x, Whitespace);
  }

  /** Removing `%` from a literal followed by `%` leaves the literal. */
  lemma RemovePercentSign(d: Decimal)
    requires d.Valid()
    ensures RemoveChar(d.Render() + "%", '%') == d.Render()
  {
    var t := d.Render();
    RenderHasNoPercent(d);
    RemoveCharConcat(t, "%", '%');
    RemoveCharAbsent(t, '%');
    assert RemoveChar("%", '%') == [];
    assert t + [] == t;
  }

  /** A percent whose number is followed by one of the separators
      U+001C to U+001F survives `strip()` and reaches `float()`, which
      rejects it: the hook keeps the last shown percent, and only the time
      test can send an edit. */
  lemma SeparatorKeepsLastPercent(t: Throttle, n: nat, now: real)
    ensures var s := Report(t, Event("downloading", Some(ShowNat(n) + "\U{1C}%")), now);
            && s.next.lastProgress == t.lastProgress
            && (s.edit.Some? <==> now - t.lastUpdate > MinInterval)
  {
    SeparatorPercentText(n);
    SeparatorNotSkipped(n);
    assert ParsePercent(Some(ShowNat(n) + "\U{1C}%")) == None;
  }

  /** Stripping and removing `%` leave the separator in place. */
  lemma SeparatorPercentText(n: nat)
    ensures RemoveChar(Strip(ShowNat(n) + "\U{1C}%"), '%') == ShowNat(n) + "\U{1C}"
  {
    var u := ShowNat(n) + "\U{1C}";
    var x := u + "%";
    assert x == ShowNat(n) + "\U{1C}%";
    assert x[0] == ShowNat(n)[0] && IsDigit(x[0]);
    StripTrimmed(x, Whitespace);
    RemoveCharConcat(u, "%", '%');
    assert RemoveChar("%", '%') == [];
    assert '%' !in u by {
      assert forall i :: 0 <= i < |ShowNat(n)| ==> u[i] == ShowNat(n)[i];
    }
    RemoveCharAbsent(u, '%');
    assert u + [] == u;
  }

  /** The number in a progress text reads back, through the hook's own
      parser, as the percent it was rendered from. */
  lemma ProgressTextReadsBack(p: int)
    ensures ParsePercent(Some(ProgressText(p)[|ProgressPrefix|..])) == Some(p)
  {
    var d := IntDecimal(p, None);
    var x := ShowInt(p) + "%";
    assert ProgressText(p) == ProgressPrefix + x;
    assert ProgressText(p)[|ProgressPrefix|..] == x;
    assert d.Render() == ShowInt(p) + "" == ShowInt(p);
    ParsePercentOf(d);
  }

  /** The shown percent can go down: once the interval has passed, an event
      reporting a lower percent than the last one shown is shown as is. */
  lemma ShownPercentCanDrop(t: Throttle, q: int, now: real)
    requires q < t.lastProgress && now - t.lastUpdate > MinInterval
    ensures Report(t, Event("downloading", Some(ShowInt(q) + "%")), now)
            == Step(Some(ProgressText(q)), Throttle(q, now))
  {
    var d := IntDecimal(q, None);
    assert d.Render() == ShowInt(q) + "" == ShowInt(q);
    ParsePercentOf(d);
  }

  /** The reading of an event together with the clock reading at which the
      event arrives. */
  datatype Timed = Timed(reading: Reading, at: real)

  /** The effect of a run: the state recorded by each edit sent, in order
      (the edit shows that state's percent), and the state at the end. */
  datatype RunLog = RunLog(marks: seq<Throttle>, final: Throttle)

  /** Each recorded state is `Apart` from the one before it, the first from
      the starting state. */
  predicate Spaced(start: Throttle, marks: seq<Throttle>)
    decreases |marks|
  {
    |marks| == 0 || (Apart(start, marks[0]) && Spaced(marks[0], marks[1..]))
  }

  /** The hook called on each reading in turn, starting from state `t`. */
  function Run(t: Throttle, events: seq<Timed>): (r: RunLog)
    decreases |events|
    ensures |r.marks| <= |events|
  {
    if |events| == 0 then RunLog([], t)
    else
      var rest := Run(Due(t, events[0].reading, events[0].at).GetOr(t), events[1..]);
      match Due(t, events[0].reading, events[0].at)
      case None => rest
      case Some(next) => RunLog([next] + rest.marks, rest.final)
  }

  /** One step of a run: the first reading's decision, followed by the run
      of the rest from the state it leaves. */
  lemma RunStep(t: Throttle, events: seq<Timed>)
    requires |events| > 0
    ensures var d := Due(t, events[0].reading, events[0].at);
            var rest := Run(d.GetOr(t), events[1..]);
            Run(t, events) == (if d.None? then rest else RunLog([d.value] + rest.marks, rest.final))
  {
  }

  /** The first event of a run does what one call of the hook does: it
      records a state exactly when the hook sends an edit, that edit shows
      the recorded percent, and the rest of the run starts from the state the
      hook leaves. */
  lemma RunStartsWithReport(t: Throttle, e: Event, now: real, events: seq<Timed>)
    ensures var s := Report(t, e, now);
            var r := Run(t, [Timed(Read(e), now)] + events);
            && (s.edit.None? ==> r == Run(t, events))
            && (s.edit.Some? ==> r.marks != [] && r.marks[0] == s.next
                                 && s.edit.value == ProgressText(r.marks[0].lastProgress)
                                 && r.marks[1..] == Run(s.next, events).marks)
  {
    var all := [Timed(Read(e), now)] + events;
    assert all[1..] == events;
    RunStep(t, all);
  }

  /** A run ends in the state its last edit recorded, or where it started
      when it sent none. */
  lemma {:induction false} RunFinal(t: Throttle, events: seq<Timed>)
    decreases |events|
    ensures var r := Run(t, events);
            r.final == (if |r.marks| == 0 then t else r.marks[|r.marks| - 1])
  {
    if |events| > 0 {
      var d := Due(t, events[0].reading, events[0].at);
      var rest := Run(d.GetOr(t), events[1..]);
      RunStep(t, events);
      RunFinal(d.GetOr(t), events[1..]);
      if d.Some? {
        var marks := [d.value] + rest.marks;
        assert |rest.marks| > 0 ==> marks[|marks| - 1] == rest.marks[|rest.marks| - 1];
      }
    }
  }

  /** Consecutive edits of a run are always `Apart`, the first from the
      starting state. */
  lemma {:induction false} RunSpaced(t: Throttle, events: seq<Timed>)
    decreases |events|
    ensures Spaced(t, Run(t, events).marks)
  {
    if |events| > 0 {
      var d := Due(t, events[0].reading, events[0].at);
      RunStep(t, events);
      RunSpaced(d.GetOr(t), events[1..]);
      if d.Some? {
        var r := Run(t, events);
        assert r.marks[1..] == Run(d.value, events[1..]).marks;
      }
    }
  }

  /** Over any run: the state ends at the one the last edit recorded, and
      consecutive edits are always `Apart`. */
  lemma RunIsThrottled(t: Throttle, events: seq<Timed>)
    ensures var r := Run(t, events);
            && r.final == (if |r.marks| == 0 then t else r.marks[|r.marks| - 1])
            && Spaced(t, r.marks)
  {
    RunFinal(t, events);
    RunSpaced(t, events);
  }

  /** The throttle holds: events that all arrive within `MinInterval` of the
      last edit and whose percent stays below `lastProgress + MinStep` send
      no edit and leave the state as it was. */
  lemma {:induction false} QuietRun(t: Throttle, events: seq<Timed>)
    requires forall i :: 0 <= i < |events| ==>
               events[i].at - t.lastUpdate <= MinInterval
               && events[i].reading.percent.GetOr(t.lastProgress) < t.lastProgress + MinStep
    ensures Run(t, events) == RunLog([], t)
  {
    if |events| > 0 {
      assert Due(t, events[0].reading, events[0].at).None?;
      assert forall i :: 0 <= i < |events| - 1 ==> events[1..][i] == events[i + 1];
      QuietRun(t, events[1..]);
      assert Run(t, events) == Run(t, events[1..]);
    }
  }
}
