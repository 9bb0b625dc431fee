/** The terminal page's state (App.tsx): the capped log feed, the breach
    progress bar and the probe of a target. Timers become explicit calls made
    in the order the timers fire; randomness and the clock become parameters. */
module App {
  import opened Types
  import GeminiService

  // ---------------------------------------------------------------------
  // The capped log feed
  // ---------------------------------------------------------------------

  /** How many entries the feed keeps. */
  const FeedCapacity: nat := 50

  /** The last `n` elements of `s`, or all of them when there are fewer. */
  function LastN<T>(s: seq<T>, n: nat): (r: seq<T>)
    ensures |r| == if |s| < n then |s| else n
    ensures r == s[|s| - |r|..]
  {
    if |s| <= n then s else s[|s| - n..]
  }

  /** The updater `addLog` hands to `setLogs`: `[...prev.slice(-49), newLog]`. */
  function Appended(prev: seq<LogMessage>, m: LogMessage): (r: seq<LogMessage>)
    ensures |r| <= FeedCapacity
    ensures |r| > 0 && r[|r| - 1] == m
    ensures r[..|r| - 1] == LastN(prev, FeedCapacity - 1)
    ensures |prev| < FeedCapacity ==> r == prev + [m]
  {
    LastN(prev, FeedCapacity - 1) + [m]
  }

  /** Appending is a sliding window: the result is the last 50 entries of the
      old feed followed by the new one, whatever the old feed's length. */
  lemma AppendedIsWindow(prev: seq<LogMessage>, m: LogMessage)
    ensures Appended(prev, m) == LastN(prev + [m], FeedCapacity)
  {
  }

  lemma LastNOfLastN<T>(s: seq<T>, t: seq<T>, n: nat)
    ensures LastN(LastN(s, n) + t, n) == LastN(s + t, n)
  {
    var u := LastN(s, n);
    var k := |s| - |u|;
    assert u + t == (s + t)[k..];
    LastNOfSuffix(s + t, k, n);
  }

  /** Dropping entries from the front changes nothing as long as at least n remain. */
  lemma LastNOfSuffix<T>(v: seq<T>, k: nat, n: nat)
    requires k <= |v| && (k == 0 || |v| - k >= n)
    ensures LastN(v[k..], n) == LastN(v, n)
  {
    if k == 0 {
      assert v[k..] == v;
    } else {
      assert v[k..][|v| - k - n..] == v[|v| - n..];
    }
  }

  /** The feed after appending `ms` one at a time to a feed `prev`: the most
      recent 50 of all entries, in their original order. `AppendAllFirst` and
      `AppendAllSnoc` show this is what the appends do, one `Appended` each. */
  function AppendAll(prev: seq<LogMessage>, ms: seq<LogMessage>): (r: seq<LogMessage>)
    ensures |r| <= FeedCapacity
    ensures |prev| <= FeedCapacity && |ms| == 0 ==> r == prev
    ensures |ms| > 0 ==> |r| > 0 && r[|r| - 1] == ms[|ms| - 1]
  {
    LastN(prev + ms, FeedCapacity)
  }

  /** Appending a batch is appending its first entry, then the rest. */
  lemma AppendAllFirst(prev: seq<LogMessage>, ms: seq<LogMessage>)
    requires |ms| > 0
    ensures AppendAll(prev, ms) == AppendAll(Appended(prev, ms[0]), ms[1..])
  {
    AppendedIsWindow(prev, ms[0]);
    LastNOfLastN(prev + [ms[0]], ms[1..], FeedCapacity);
    assert prev + [ms[0]] + ms[1..] == prev + ms;
  }

  /** Appending a batch and then one more entry is appending the longer batch. */
  lemma AppendAllSnoc(prev: seq<LogMessage>, ms: seq<LogMessage>, m: LogMessage)
    ensures AppendAll(prev, ms + [m]) == Appended(AppendAll(prev, ms), m)
  {
    var f := LastN(prev + ms, FeedCapacity);
    assert Appended(f, m) == LastN(f + [m], FeedCapacity) by {
      AppendedIsWindow(f, m);
    }
    assert LastN(f + [m], FeedCapacity) == LastN(prev + (ms + [m]), FeedCapacity) by {
      LastNOfLastN(prev + ms, [m], FeedCapacity);
      assert prev + ms + [m] == prev + (ms + [m]);
    }
  }

  /** Appending at most 50 entries ends the feed with exactly those entries. */
  lemma AppendAllEndsWith(prev: seq<LogMessage>, ms: seq<LogMessage>)
    requires |ms| <= FeedCapacity
    ensures var f := AppendAll(prev, ms); |f| >= |ms| && f[|f| - |ms|..] == ms
  {
    var s := prev + ms;
    var f := LastN(s, FeedCapacity);
    assert f[|f| - |ms|..] == s[|s| - |ms|..];
    assert s[|s| - |ms|..] == ms;
  }

  /** Appending 52 messages one at a time to an empty feed keeps the last 50,
      the first two having been evicted. */
  lemma FiftyTwoAppends(ms: seq<LogMessage>)
    requires |ms| == 52
    ensures AppendAll([], ms) == ms[2..]
  {
    assert [] + ms == ms;
  }

  // ---------------------------------------------------------------------
  // Breach progress
  // ---------------------------------------------------------------------

  /** What `Math.floor(Math.random() * 15) + 5` can yield. */
  type Increment = d: int | 5 <= d <= 19 witness 5

  /** The updater of one progress tick: at 100 or more it clamps to 100 (and
      the interval is cleared), otherwise it adds the random increment. */
  function NextBreach(prev: int, d: Increment): (r: int)
    ensures prev >= 100 ==> r == 100
    ensures prev < 100 ==> prev + 5 <= r <= prev + 19
  {
    if prev >= 100 then 100 else prev + d
  }

  /** The progress after the ticks with increments `ds`, starting from 0. */
  function BreachAfter(ds: seq<Increment>): (r: int)
    ensures r == 0 <==> |ds| == 0
    ensures |ds| > 0 ==> r >= 5
    decreases |ds|
  {
    if |ds| == 0 then 0 else NextBreach(BreachAfter(ds[..|ds| - 1]), ds[|ds| - 1])
  }

  /** Progress stays between 0 and 118: it may overshoot 100 by up to 18
      before the next tick clamps it. */
  lemma {:induction false} BreachBounded(ds: seq<Increment>)
    ensures 0 <= BreachAfter(ds) <= 118
    decreases |ds|
  {
    if |ds| > 0 {
      BreachBounded(ds[..|ds| - 1]);
    }
  }

  /** Below 100 every tick strictly raises the progress; at 100 or more the
      next tick sets exactly 100. */
  lemma BreachStep(ds: seq<Increment>, d: Increment)
    ensures BreachAfter(ds) < 100 ==> BreachAfter(ds + [d]) > BreachAfter(ds)
    ensures BreachAfter(ds) >= 100 ==> BreachAfter(ds + [d]) == 100
  {
  }

  /** After n ticks the progress is at least 5n or has reached 100. */
  lemma {:induction false} BreachProgresses(ds: seq<Increment>)
    ensures BreachAfter(ds) >= 100 || BreachAfter(ds) >= 5 * |ds|
    decreases |ds|
  {
    if |ds| > 0 {
      BreachProgresses(ds[..|ds| - 1]);
    }
  }

  /** Twenty ticks always suffice to reach 100. */
  lemma BreachReachesFull(ds: seq<Increment>)
    requires |ds| >= 20
    ensures BreachAfter(ds) >= 100
  {
    BreachProgresses(ds);
  }

  // ---------------------------------------------------------------------
  // The probe's timers
  // ---------------------------------------------------------------------

  /** The gap between two intelligence lines, in milliseconds. */
  const LineStagger: nat := 800
  /** The extra wait before the report completes, in milliseconds. */
  const CompletionBuffer: nat := 500

  /** What a timer does when it fires. */
  datatype Action = ShowLine(index: nat) | Complete

  datatype Timer = Timer(delay: nat, action: Action)

  /** The timers `handleNameClick` sets once the two calls have resolved:
      line `idx` after idx * 800 ms, the completion after n * 800 + 500 ms. */
  function Schedule(n: nat): (r: seq<Timer>)
    ensures |r| == n + 1
    ensures forall i :: 0 <= i < n ==> r[i].action == ShowLine(i)
    ensures r[n].action == Complete
  {
    seq(n, i requires 0 <= i < n => Timer(i * LineStagger, ShowLine(i)))
      + [Timer(n * LineStagger + CompletionBuffer, Complete)]
  }

  /** The delays strictly increase along the schedule, so the timers fire in
      the order listed: every line in array order, then the completion. */
  lemma ScheduleFiresInOrder(n: nat)
    ensures forall i, j :: 0 <= i < j <= n ==> Schedule(n)[i].delay < Schedule(n)[j].delay
  {
  }

  /** With at most five lines the whole report is done within 4.5 seconds. */
  lemma ScheduleWithinBudget(n: nat)
    requires n <= GeminiService.MaxIntelLines
    ensures Schedule(n)[n].delay <= 4500
  {
  }

  /** The text of the warning that opens a probe: the name follows a fixed
      33-character lead. */
  function ProbeNotice(name: string): (r: string)
    ensures |r| == 33 + |name| && r[33..] == name
  {
    "Initiating deep probe on target: " + name
  }

  /** The text of the success entry that closes a probe: the name follows a
      fixed 24-character lead and is followed by a fixed 10-character tail. */
  function CompletionNotice(name: string): (r: string)
    ensures |r| == 34 + |name| && r[24..24 + |name|] == name
  {
    "Intelligence Report for " + name + " Complete."
  }

  /** Each notice names its target unambiguously, and a warning is never
      mistaken for a completion. */
  lemma NoticesNameTheTarget(a: string, b: string)
    ensures ProbeNotice(a) == ProbeNotice(b) ==> a == b
    ensures CompletionNotice(a) == CompletionNotice(b) ==> a == b
    ensures ProbeNotice(a) != CompletionNotice(b)
  {
    assert ProbeNotice(a)[2] == 'i';
    assert CompletionNotice(b)[2] == 't';
  }

  /** The entries the schedule adds to the feed, in firing order: each line at
      info level, then the completion at success level. */
  function ReportEntries(name: string, intel: seq<string>, stamps: seq<Stamp>): (r: seq<LogMessage>)
    requires |stamps| == |intel| + 1
    ensures |r| == |intel| + 1
    ensures forall i :: 0 <= i < |intel| ==> r[i].text == intel[i] && r[i].level == Info
    ensures r[|intel|].text == CompletionNotice(name) && r[|intel|].level == Success
  {
    seq(|intel|, i requires 0 <= i < |intel| => MakeLog(intel[i], Info, stamps[i]))
      + [MakeLog(CompletionNotice(name), Success, stamps[|intel|])]
  }

  /** The two entries logged on mount. */
  const Greeting: string := "System Initialized. Awaiting Input..."
  const LinkNotice: string := "Matrix Protocol V4.2 - Link Active"

  /** The page's state cells. */
  class AppState {
    var logs: seq<LogMessage>
    var activeUser: Option<string>
    var manifesto: Option<string>
    var loading: bool
    var breachLevel: int
    /** Whether the progress interval is still scheduled. */
    var breachTicking: bool

    ghost predicate Valid()
      reads this
    {
      |logs| <= FeedCapacity && 0 <= breachLevel <= 118
    }

    /** Mounting: empty state, then the mount effect logs two entries. */
    constructor (first: Stamp, second: Stamp)
      ensures Valid()
      ensures logs == [MakeLog(Greeting, Success, first), MakeLog(LinkNotice, Info, second)]
      ensures activeUser == None && manifesto == None && !loading
      ensures breachLevel == 0 && !breachTicking
    {
      logs := [];
      activeUser := None;
      manifesto := None;
      loading := false;
      breachLevel := 0;
      breachTicking := false;
      new;
      AddLog(Greeting, Success, first);
      AddLog(LinkNotice, Info, second);
    }

    /** `addLog(text, type)`. */
    method AddLog(text: string, level: Level, stamp: Stamp)
      requires Valid()
      modifies this`logs
      ensures Valid()
      ensures logs == Appended(old(logs), MakeLog(text, level, stamp))
    {
      logs := Appended(logs, MakeLog(text, level, stamp));
    }

    /** The synchronous start of `handleNameClick(name)`: select the target,
        raise the loading flag, reset progress, log one warning and start the
        progress interval. */
    method StartProbe(name: string, stamp: Stamp)
      requires Valid()
      modifies this
      ensures Valid()
      ensures activeUser == Some(name) && loading && breachLevel == 0 && breachTicking
      ensures logs == Appended(old(logs), MakeLog(ProbeNotice(name), Warning, stamp))
      ensures manifesto == old(manifesto)
    {
      activeUser := Some(name);
      loading := true;
      breachLevel := 0;
      AddLog(ProbeNotice(name), Warning, stamp);
      breachTicking := true;
    }

    /** One firing of the progress interval, `d` being the random increment. */
    method BreachTick(d: Increment)
      requires Valid()
      modifies this`breachLevel, this`breachTicking
      ensures Valid()
      ensures old(breachTicking) ==> breachLevel == NextBreach(old(breachLevel), d)
      ensures old(breachTicking) ==> breachTicking == (old(breachLevel) < 100)
      ensures !old(breachTicking) ==> breachLevel == old(breachLevel) && !breachTicking
    {
      if breachTicking {
        if breachLevel >= 100 {
          breachTicking := false;
        }
        breachLevel := NextBreach(breachLevel, d);
      }
    }

    /** The completion timer: store the manifesto, log success, drop the
        loading flag and force the progress to 100. */
    method CompleteProbe(name: string, manifestoText: string, stamp: Stamp)
      requires Valid()
      modifies this
      ensures Valid()
      ensures manifesto == Some(manifestoText) && !loading && breachLevel == 100
      ensures logs == Appended(old(logs), MakeLog(CompletionNotice(name), Success, stamp))
      ensures activeUser == old(activeUser) && breachTicking == old(breachTicking)
    {
      var notice := CompletionNotice(name);
      AddLog(notice, Success, stamp);
      manifesto := Some(manifestoText);
      loading := false;
      breachLevel := 100;
    }

    /** What timer `t` of the report does when it fires. */
    method Fire(action: Action, name: string, intel: seq<string>, manifestoText: string,
                stamps: seq<Stamp>, t: nat)
      requires Valid() && |stamps| == |intel| + 1 && t <= |intel|
      requires action == Schedule(|intel|)[t].action
      modifies this
      ensures Valid() && activeUser == old(activeUser) && breachTicking == old(breachTicking)
      ensures logs == Appended(old(logs), ReportEntries(name, intel, stamps)[t])
      ensures t < |intel| ==> manifesto == old(manifesto) && loading == old(loading)
                              && breachLevel == old(breachLevel)
      ensures t == |intel| ==> manifesto == Some(manifestoText) && !loading && breachLevel == 100
    {
      ReportEntryAt(name, intel, stamps, t);
      if action.ShowLine? {
        AddLog(intel[action.index], Info, stamps[action.index]);
      } else {
        CompleteProbe(name, manifestoText, stamps[|intel|]);
      }
    }

    /** The timers set once both calls have resolved, fired in the order of
        their delays; `stamps[i]` is the id and time of the entry timer `i` logs. */
    method RunReport(name: string, intel: seq<string>, manifestoText: string, stamps: seq<Stamp>)
      requires Valid() && |stamps| == |intel| + 1
      modifies this
      ensures Valid()
      ensures logs == AppendAll(old(logs), ReportEntries(name, intel, stamps))
      ensures manifesto == Some(manifestoText) && !loading && breachLevel == 100
      ensures activeUser == old(activeUser) && breachTicking == old(breachTicking)
    {
      // The delays increase along the list (ScheduleFiresInOrder), so list
      // order is firing order.
      var timers := Schedule(|intel|);
      ghost var entries := ReportEntries(name, intel, stamps);
      ghost var start := logs;
      var t := 0;
      while t < |timers|
        invariant Valid() && 0 <= t <= |timers|
        invariant logs == AppendAll(start, entries[..t])
        invariant t > |intel| ==> manifesto == Some(manifestoText) && !loading && breachLevel == 100
        invariant activeUser == old(activeUser) && breachTicking == old(breachTicking)
      {
        Fire(timers[t].action, name, intel, manifestoText, stamps, t);
        AppendAllPrefix(start, entries, t);
        t := t + 1;
      }
      assert entries[..t] == entries;
    }

    /** A whole probe of `name`, once the two calls' outcomes are known. The
        progress interval's firings interleave with the report's timers but
        touch neither the feed nor the flags, so they are not replayed here. */
    method Probe(name: string, intelResponse: GeminiService.Response,
                 manifestoResponse: GeminiService.Response, stamps: seq<Stamp>)
      requires Valid()
      requires |stamps| == |GeminiService.GenerateIntel(name, intelResponse)| + 2
      modifies this
      ensures Valid()
      ensures logs == AppendAll(old(logs), ProbeEntries(name, intelResponse, stamps))
      ensures activeUser == Some(name)
      ensures manifesto == Some(GeminiService.GetManifesto(manifestoResponse))
      ensures !loading && breachLevel == 100 && breachTicking
    {
      StartProbe(name, stamps[0]);
      var intel := GeminiService.GenerateIntel(name, intelResponse);
      var manifestoText := GeminiService.GetManifesto(manifestoResponse);
      RunReport(name, intel, manifestoText, stamps[1..]);
      ghost var ms := ProbeEntries(name, intelResponse, stamps);
      AppendAllFirst(old(logs), ms);
      assert ms[0] == MakeLog(ProbeNotice(name), Warning, stamps[0]);
      assert ms[1..] == ReportEntries(name, intel, stamps[1..]);
    }
  }

  lemma ReportEntryAt(name: string, intel: seq<string>, stamps: seq<Stamp>, t: nat)
    requires |stamps| == |intel| + 1 && t <= |intel|
    ensures ReportEntries(name, intel, stamps)[t] ==
      if t < |intel| then MakeLog(intel[t], Info, stamps[t])
      else MakeLog(CompletionNotice(name), Success, stamps[|intel|])
  {
  }

  lemma AppendAllPrefix(prev: seq<LogMessage>, ms: seq<LogMessage>, t: nat)
    requires t < |ms|
    ensures AppendAll(prev, ms[..t + 1]) == Appended(AppendAll(prev, ms[..t]), ms[t])
  {
    assert ms[..t + 1] == ms[..t] + [ms[t]];
    AppendAllSnoc(prev, ms[..t], ms[t]);
  }

  /** Every entry a probe adds: the warning, the lines, the completion. */
  function ProbeEntries(name: string, intelResponse: GeminiService.Response, stamps: seq<Stamp>): (r: seq<LogMessage>)
    requires |stamps| == |GeminiService.GenerateIntel(name, intelResponse)| + 2
    ensures |r| == |stamps|
    ensures r[0].text == ProbeNotice(name) && r[0].level == Warning
  {
    [MakeLog(ProbeNotice(name), Warning, stamps[0])]
      + ReportEntries(name, GeminiService.GenerateIntel(name, intelResponse), stamps[1..])
  }

  /** The texts of some feed entries, in order. */
  function Texts(entries: seq<LogMessage>): (r: seq<string>)
    ensures |r| == |entries|
    ensures forall i :: 0 <= i < |r| ==> r[i] == entries[i].text
  {
    seq(|entries|, i requires 0 <= i < |entries| => entries[i].text)
  }

  /** The report logs the lines in array order and then the completion notice. */
  lemma ReportTexts(name: string, intel: seq<string>, stamps: seq<Stamp>)
    requires |stamps| == |intel| + 1
    ensures Texts(ReportEntries(name, intel, stamps)) == intel + [CompletionNotice(name)]
  {
  }

  /** Whatever the calls returned, a probe leaves the feed ending with the
      intelligence lines in array order followed by the completion notice. */
  lemma ProbeFeedEnds(feed: seq<LogMessage>, name: string, intelResponse: GeminiService.Response,
                      stamps: seq<Stamp>)
    requires |feed| <= FeedCapacity
    requires |stamps| == |GeminiService.GenerateIntel(name, intelResponse)| + 2
    ensures var f := AppendAll(feed, ProbeEntries(name, intelResponse, stamps));
      var n := |stamps| - 1;
      |f| >= n && Texts(f[|f| - n..]) == GeminiService.GenerateIntel(name, intelResponse) + [CompletionNotice(name)]
  {
    var intel := GeminiService.GenerateIntel(name, intelResponse);
    var ms := ProbeEntries(name, intelResponse, stamps);
    var report := ReportEntries(name, intel, stamps[1..]);
    var f := AppendAll(feed, ms);
    assert |f| >= |stamps| - 1 && f[|f| - (|stamps| - 1)..] == report by {
      assert ms[1..] == report;
      FeedEndsWithTail(feed, ms);
    }
    assert Texts(report) == intel + [CompletionNotice(name)] by {
      ReportTexts(name, intel, stamps[1..]);
    }
  }

  /** After appending a batch, all of it but its first entry ends the feed. */
  lemma FeedEndsWithTail(feed: seq<LogMessage>, ms: seq<LogMessage>)
    requires |feed| <= FeedCapacity && 1 <= |ms| <= FeedCapacity
    ensures var f := AppendAll(feed, ms); |f| >= |ms| - 1 && f[|f| - (|ms| - 1)..] == ms[1..]
  {
    var f := AppendAll(feed, ms);
    assert |f| >= |ms| && f[|f| - |ms|..] == ms by {
      AppendAllEndsWith(feed, ms);
    }
    SuffixTail(f, ms);
  }

  lemma SuffixTail<T>(f: seq<T>, ms: seq<T>)
    requires 1 <= |ms| <= |f| && f[|f| - |ms|..] == ms
    ensures f[|f| - (|ms| - 1)..] == ms[1..]
  {
    assert f[|f| - |ms|..][1..] == f[|f| - (|ms| - 1)..];
  }

  /** A probe of MNB whose calls both fail still completes: the feed ends with
      the five canned lines and the completion notice, and the stored
      manifesto is the failure text. */
  lemma FailedProbeOfMnb(feed: seq<LogMessage>, stamps: seq<Stamp>)
    requires |feed| <= FeedCapacity && |stamps| == 7
    ensures var f := AppendAll(feed, ProbeEntries("MNB", GeminiService.Failed, stamps));
      |f| >= 6 && Texts(f[|f| - 6..])
        == GeminiService.FallbackIntel("MNB") + ["Intelligence Report for MNB Complete."]
    ensures GeminiService.GetManifesto(GeminiService.Failed) == GeminiService.FailureManifesto
  {
    var intel := GeminiService.GenerateIntel("MNB", GeminiService.Failed);
    var f := AppendAll(feed, ProbeEntries("MNB", GeminiService.Failed, stamps));
    assert |f| >= 6 && Texts(f[|f| - 6..]) == intel + [CompletionNotice("MNB")] by {
      ProbeFeedEnds(feed, "MNB", GeminiService.Failed, stamps);
    }
    assert intel == GeminiService.FallbackIntel("MNB");
    MnbCompletionNotice();
  }

  lemma MnbCompletionNotice()
    ensures CompletionNotice("MNB") == "Intelligence Report for MNB Complete."
  {
  }
}
