/** The log stream of the web front end (`stream_logs`): the generator polls
    the log queue once a second and turns what it gets into server-sent
    events until the scraper's stop signal arrives or something breaks. The
    SSE framing and the JSON encoding are not modelled; an event is the
    dictionary the generator encodes. */
module Stream {

  /** The item the scraper puts on the queue when a run ends. */
  const StopSignal: string := "STOP_SIGNAL"

  /** The level reported for anything that is not a log record. */
  const Info: string := "INFO"

  /** What sits on the log queue: a plain string, a `logging.LogRecord`
      (its formatted message and level name), or any other object (its
      `str`). */
  datatype Item = Plain(text: string) | LogRecord(message: string, level: string) | Other(repr: string)

  /** One `log_queue.get(timeout=1)` as the generator sees it: nothing
      within the second, an item, or an exception other than `queue.Empty`
      (a broken pipe, a failing record). */
  datatype Poll = TimedOut | Got(item: Item) | Broken

  /** The dictionaries the generator encodes: `{'heartbeat': True}` or
      `{'message': ..., 'level': ...}`. */
  datatype Event = Heartbeat | Message(message: string, level: string)

  /** `record == "STOP_SIGNAL"`: only the plain string compares equal. */
  predicate IsStop(item: Item) {
    item == Plain(StopSignal)
  }

  /** A poll after which the generator stops. */
  predicate Ends(p: Poll) {
    p.Broken? || (p.Got? && IsStop(p.item))
  }

  /** The message of a log record with its level; anything else as text
      with level INFO. */
  function Translate(item: Item): (e: Event)
    ensures e.Message?
    ensures item.LogRecord? ==> e == Message(item.message, item.level)
    ensures !item.LogRecord? ==> e.level == Info
  {
    match item
    case Plain(t) => Message(t, Info)
    case LogRecord(m, l) => Message(m, l)
    case Other(r) => Message(r, Info)
  }

  /** The events the generator yields for a run of polls (the polls it
      would make later are not in `polls`). */
  function Generate(polls: seq<Poll>): seq<Event>
    decreases |polls|
  {
    if polls == [] then []
    else
      match polls[0]
      case TimedOut => [Heartbeat] + Generate(polls[1..])
      case Broken => []
      case Got(item) =>
        if IsStop(item) then [Message(StopSignal, Info)]
        else [Translate(item)] + Generate(polls[1..])
  }

  /** The position of the first poll that ends the stream, or `|polls|`. */
  function FirstEnd(polls: seq<Poll>): (n: nat)
    ensures n <= |polls|
    ensures forall i :: 0 <= i < n ==> !Ends(polls[i])
    ensures n < |polls| ==> Ends(polls[n])
    decreases |polls|
  {
    if polls == [] || Ends(polls[0]) then 0
    else
      var n := FirstEnd(polls[1..]);
      assert forall i :: 1 <= i < |polls| ==> polls[i] == polls[1..][i - 1];
      n + 1
  }

  /** The event a poll before the end yields. */
  function EventOf(p: Poll): Event
    requires !p.Broken?
  {
    if p.TimedOut? then Heartbeat else Translate(p.item)
  }

  /** Poll by poll: every poll before the first ending one yields exactly
      its own event (a heartbeat for a timeout), the stop signal yields
      one stop message and nothing after it is read, and a broken poll
      yields nothing. */
  lemma {:induction false} GenerateSpec(polls: seq<Poll>)
    ensures var n := FirstEnd(polls);
      |Generate(polls)| == if n < |polls| && polls[n].Got? then n + 1 else n
    ensures forall i :: 0 <= i < FirstEnd(polls) ==> Generate(polls)[i] == EventOf(polls[i])
    ensures FirstEnd(polls) < |polls| && polls[FirstEnd(polls)].Got? ==>
      Generate(polls)[FirstEnd(polls)] == Message(StopSignal, Info)
    decreases |polls|
  {
    if polls != [] && !Ends(polls[0]) {
      var rest := polls[1..];
      GenerateSpec(rest);
      assert FirstEnd(polls) == FirstEnd(rest) + 1;
      assert Generate(polls) == [EventOf(polls[0])] + Generate(rest);
      forall i | 1 <= i < FirstEnd(polls) ensures Generate(polls)[i] == EventOf(polls[i]) {
        assert polls[i] == rest[i - 1];
      }
    }
  }

  /** Once the stream has ended, later queue items are never read; before
      that, the stream is the concatenation of its parts. */
  lemma {:induction false} GenerateAppend(polls: seq<Poll>, more: seq<Poll>)
    ensures FirstEnd(polls) < |polls| ==> Generate(polls + more) == Generate(polls)
    ensures FirstEnd(polls) == |polls| ==> Generate(polls + more) == Generate(polls) + Generate(more)
    decreases |polls|
  {
    if polls != [] {
      assert (polls + more)[0] == polls[0];
      assert (polls + more)[1..] == polls[1..] + more;
      if !Ends(polls[0]) {
        GenerateAppend(polls[1..], more);
      }
    } else {
      assert polls + more == more;
    }
  }

  /** A log record whose text happens to be the stop signal is passed on
      like any other record: it does not end the stream. */
  lemma StopNeedsPlainString(level: string, polls: seq<Poll>)
    ensures Generate([Got(LogRecord(StopSignal, level))] + polls) ==
      [Message(StopSignal, level)] + Generate(polls)
  {
    assert ([Got(LogRecord(StopSignal, level))] + polls)[1..] == polls;
  }

  /** One turn of the generator, from poll `i` on. */
  lemma GenerateAt(polls: seq<Poll>, i: nat)
    requires i < |polls|
    ensures polls[i].TimedOut? ==> Generate(polls[i..]) == [Heartbeat] + Generate(polls[i + 1..])
    ensures polls[i].Broken? ==> Generate(polls[i..]) == []
    ensures polls[i].Got? && IsStop(polls[i].item) ==> Generate(polls[i..]) == [Message(StopSignal, Info)]
    ensures polls[i].Got? && !IsStop(polls[i].item) ==>
      Generate(polls[i..]) == [Translate(polls[i].item)] + Generate(polls[i + 1..])
  {
    assert polls[i..][0] == polls[i];
    assert polls[i..][1..] == polls[i + 1..];
  }

  /** The loop's invariant carried over one poll that does not end the
      stream ... */
  lemma DrainStep(polls: seq<Poll>, i: nat, events: seq<Event>)
    requires i < |polls| && !Ends(polls[i])
    requires events + Generate(polls[i..]) == Generate(polls)
    ensures (events + [EventOf(polls[i])]) + Generate(polls[i + 1..]) == Generate(polls)
  {
    GenerateAt(polls, i);
  }

  /** ... and over the poll that ends it. */
  lemma DrainEnd(polls: seq<Poll>, i: nat, events: seq<Event>)
    requires i < |polls| && Ends(polls[i])
    requires events + Generate(polls[i..]) == Generate(polls)
    ensures (if polls[i].Broken? then events else events + [Message(StopSignal, Info)]) == Generate(polls)
  {
    GenerateAt(polls, i);
  }

  /** The generator's loop over the polls it gets: the events it yields and
      how many polls it makes. */
  method Drain(polls: seq<Poll>) returns (events: seq<Event>, polled: nat)
    ensures events == Generate(polls)
    ensures polled == if FirstEnd(polls) < |polls| then FirstEnd(polls) + 1 else |polls|
  {
    events := [];
    polled := 0;
    while polled < |polls|
      invariant polled <= FirstEnd(polls)
      invariant events + Generate(polls[polled..]) == Generate(polls)
      decreases |polls| - polled
    {
      var p := polls[polled];
      if Ends(p) {
        DrainEnd(polls, polled, events);
        events := if p.Broken? then events else events + [Message(StopSignal, Info)];
        return events, polled + 1;
      }
      DrainStep(polls, polled, events);
      events := events + [EventOf(p)];
      polled := polled + 1;
    }
  }

  // ----- What the stream gets from a run -----

  /** `n` polls that find the queue empty. */
  function Quiet(n: nat): (ps: seq<Poll>)
    ensures |ps| == n
  {
    seq(n, i => TimedOut)
  }

  /** Log records (message and level) as a `QueueHandler` would put them on
      the queue. */
  function Records(logged: seq<(string, string)>): (ps: seq<Poll>)
    ensures |ps| == |logged|
  {
    seq(|logged|, i requires 0 <= i < |logged| => Got(LogRecord(logged[i].0, logged[i].1)))
  }

  /** As the program stands, a run started from the web front end never
      puts anything on the log queue: no handler forwards its log records
      there, and its final "STOP_SIGNAL" is only logged. Every poll times
      out, so the stream yields nothing but heartbeats and never ends. */
  lemma StreamNeverStops(n: nat)
    ensures |Generate(Quiet(n))| == n
    ensures forall i :: 0 <= i < n ==> Generate(Quiet(n))[i] == Heartbeat
    ensures Message(StopSignal, Info) !in Generate(Quiet(n))
  {
    GenerateSpec(Quiet(n));
    assert forall i :: 0 <= i < n ==> !Ends(Quiet(n)[i]);
    assert FirstEnd(Quiet(n)) == n;
  }

  /** The intended stream: the run's records are forwarded to the queue and
      the run ends by putting the plain stop string there. After the quiet
      polls' heartbeats the page gets every record, then the stop message,
      and nothing put on the queue later is read. */
  lemma StreamStopsAfterRun(quiet: nat, logged: seq<(string, string)>, more: seq<Poll>)
    ensures var g := Generate(Quiet(quiet) + Records(logged) + [Got(Plain(StopSignal))] + more);
      && |g| == quiet + |logged| + 1
      && (forall i :: 0 <= i < quiet ==> g[i] == Heartbeat)
      && (forall i :: 0 <= i < |logged| ==> g[quiet + i] == Message(logged[i].0, logged[i].1))
      && g[quiet + |logged|] == Message(StopSignal, Info)
  {
    var ps := Quiet(quiet) + Records(logged) + [Got(Plain(StopSignal))] + more;
    var n := quiet + |logged|;
    assert forall i :: 0 <= i < quiet ==> ps[i] == TimedOut;
    assert forall i :: 0 <= i < |logged| ==> ps[quiet + i] == Got(LogRecord(logged[i].0, logged[i].1));
    assert ps[n] == Got(Plain(StopSignal));
    assert forall i :: 0 <= i < n ==> !Ends(ps[i]) by {
      forall i | 0 <= i < n ensures !Ends(ps[i]) {
        if i >= quiet {
          assert ps[i] == ps[quiet + (i - quiet)];
        }
      }
    }
    assert FirstEnd(ps) == n;
    GenerateSpec(ps);
  }
}
