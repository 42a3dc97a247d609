/** The pure parts of the simulation log: splitting the simulated time into
    hours, minutes and seconds with C++'s integer division, and the layout of a
    log line. Writing to the log file and reading the clock are left to the
    caller. */
module Logging {
  import opened Base
  import opened Parsing

  // ---------------------------------------------------------------------------
  // C++ integer division
  // ---------------------------------------------------------------------------

  /** `a / b` on C++ `int`: the quotient is truncated toward zero, so the
      remainder takes the sign of `a`. */
  function TDiv(a: int, b: int): (q: int)
    requires b > 0
    ensures a >= 0 ==> 0 <= a - b * q < b
    ensures a < 0 ==> -b < a - b * q <= 0
  {
    if a >= 0 then a / b else -((-a) / b)
  }

  /** `a % b` on C++ `int`: what the truncated division leaves over. */
  function TMod(a: int, b: int): (r: int)
    requires b > 0
    ensures a == b * TDiv(a, b) + r
    ensures a >= 0 ==> 0 <= r < b
    ensures a < 0 ==> -b < r <= 0
  {
    a - b * TDiv(a, b)
  }

  /** Truncated division is the only way to write `a` as `b * q + r` with a
      remainder of `a`'s sign below `b` in magnitude. */
  lemma TDivUnique(a: int, b: int, q: int, r: int)
    requires b > 0 && a == b * q + r
    requires a >= 0 ==> 0 <= r < b
    requires a < 0 ==> -b < r <= 0
    ensures q == TDiv(a, b) && r == TMod(a, b)
  {
    var q0 := TDiv(a, b);
    var r0 := TMod(a, b);
    assert b * q + r == b * q0 + r0;
    if q > q0 {
      StepApart(b, q0, q);
    } else if q < q0 {
      StepApart(b, q, q0);
    }
  }

  /** Two distinct multiples of `b` lie at least `b` apart. */
  lemma StepApart(b: int, lo: int, hi: int)
    requires b > 0 && lo < hi
    ensures b * hi - b * lo >= b
  {
    var d := hi - lo;
    assert b * hi - b * lo == b * d;
    assert b * d == b + b * (d - 1);
  }

  // ---------------------------------------------------------------------------
  // Simulated time
  // ---------------------------------------------------------------------------

  /** A time of day on the simulated clock. */
  datatype Clock = Clock(hours: int, minutes: int, seconds: int)

  /** The number of seconds a clock reading stands for. */
  function TotalSeconds(c: Clock): int {
    c.hours * 3600 + c.minutes * 60 + c.seconds
  }

  /** Minutes and seconds below sixty, all of the sign of the time they stand for. */
  predicate Normal(c: Clock, t: int) {
    && (t >= 0 ==> c.hours >= 0 && 0 <= c.minutes < 60 && 0 <= c.seconds < 60)
    && (t < 0 ==> c.hours <= 0 && -60 < c.minutes <= 0 && -60 < c.seconds <= 0)
  }

  /** The split of `sim_time` in `getCurrentTime`: hours are whole multiples
      of 3600 seconds, minutes are the whole minutes of what is left over, and
      seconds the remainder modulo 60, each with C++'s truncating operators. */
  function TimeParts(simTime: int): (c: Clock)
    ensures TotalSeconds(c) == simTime
    ensures Normal(c, simTime)
  {
    var h := TDiv(simTime, 3600);
    var left := TMod(simTime, 3600);
    var m := TDiv(left, 60);
    var s := TMod(simTime, 60);
    MinutesAndSeconds(simTime, h, left);
    Clock(h, m, s)
  }

  /** The seconds taken modulo 60 from the whole time equal those taken from
      what is left over after the hours, because an hour is sixty minutes. */
  lemma MinutesAndSeconds(t: int, h: int, left: int)
    requires h == TDiv(t, 3600) && left == TMod(t, 3600)
    ensures TMod(t, 60) == TMod(left, 60)
  {
    var m := TDiv(left, 60);
    var s := TMod(left, 60);
    assert t == 60 * (60 * h + m) + s;
    TDivUnique(t, 60, 60 * h + m, s);
  }

  /** The split is the only normal reading of a time: any clock with minutes
      and seconds below sixty, of the time's sign, that adds up to `t` is the
      one `getCurrentTime` computes. */
  lemma TimePartsUnique(t: int, c: Clock)
    requires TotalSeconds(c) == t && Normal(c, t)
    ensures c == TimeParts(t)
  {
    var rest := c.minutes * 60 + c.seconds;
    assert t == 3600 * c.hours + rest;
    TDivUnique(t, 3600, c.hours, rest);
    TDivUnique(rest, 60, c.minutes, c.seconds);
  }

  // ---------------------------------------------------------------------------
  // Log lines
  // ---------------------------------------------------------------------------

  /** One line of the log: when, who, and what. */
  datatype Entry = Entry(timestamp: string, source: string, message: string)

  /** The line `log` writes: the timestamp in brackets, the source, a colon,
      and the message, ended by the newline `std::endl` puts out. */
  function LogLine(timestamp: string, source: string, message: string): (line: string)
    ensures |line| == |timestamp| + |source| + |message| + 6
    ensures line[0] == '[' && line[|line| - 1] == '\n'
  {
    "[" + timestamp + "] " + source + ": " + message + "\n"
  }

  /** Cutting at the first delimiter finds the head in front of it. */
  lemma CutAtFirst(head: string, delim: char, rest: string)
    requires delim !in head
    ensures CutAt(head + [delim] + rest, delim) == Cut(head, rest)
  {
    var line := head + [delim] + rest;
    assert line[|head|] == delim;
    assert forall j :: 0 <= j < |head| ==> line[j] == head[j];
    assert IndexOf(line, delim) == |head|;
    assert line[..|head|] == head && line[|head| + 1..] == rest;
  }

  /** A log line as it is read back: one piece after another. */
  lemma LogLinePieces(timestamp: string, source: string, message: string)
    ensures LogLine(timestamp, source, message)
         == ['['] + (timestamp + [']'] + ([' '] + (source + [':'] + ([' '] + (message + ['\n'])))))
  {
  }

  /** Reads a log line back: the timestamp up to the first `]`, the source up
      to the first `:` after it, and the rest of the line before the final
      newline as the message. A line not of that shape gives `None`. */
  function ParseLogLine(line: string): (r: Option<Entry>)
    ensures r.Some? ==> ']' !in r.value.timestamp && ':' !in r.value.source
    ensures r.Some? ==> line == LogLine(r.value.timestamp, r.value.source, r.value.message)
  {
    if line == [] || line[0] != '[' then None
    else
      var r := ReadTimestamp(line[1..]);
      if r.None? then None
      else
        Bracketed(line, r.value);
        r
  }

  /** A line that opens with `[` followed by the pieces of an entry after the
      bracket is that entry's log line. */
  lemma Bracketed(line: string, e: Entry)
    requires line != [] && line[0] == '['
    requires line[1..] == e.timestamp + [']'] + ([' '] + (e.source + [':'] + ([' '] + (e.message + ['\n']))))
    ensures line == LogLine(e.timestamp, e.source, e.message)
  {
    assert line == ['['] + line[1..];
    LogLinePieces(e.timestamp, e.source, e.message);
  }

  /** The text after `[`: the timestamp up to the first `]`, then a space. */
  function ReadTimestamp(s: string): (r: Option<Entry>)
    ensures r.Some? ==> ']' !in r.value.timestamp && ':' !in r.value.source
    ensures r.Some? ==> s == r.value.timestamp + [']'] + ([' '] + (r.value.source + [':'] + ([' '] + (r.value.message + ['\n']))))
  {
    var c := CutAt(s, ']');
    if ']' !in s || c.rest == [] || c.rest[0] != ' ' then None
    else
      assert c.rest == [' '] + c.rest[1..];
      ReadSource(c.head, c.rest[1..])
  }

  /** The text after the timestamp: the source up to the first `:`, then a space. */
  function ReadSource(timestamp: string, s: string): (r: Option<Entry>)
    ensures r.Some? ==> r.value.timestamp == timestamp && ':' !in r.value.source
    ensures r.Some? ==> s == r.value.source + [':'] + ([' '] + (r.value.message + ['\n']))
  {
    var c := CutAt(s, ':');
    if ':' !in s || c.rest == [] || c.rest[0] != ' ' then None
    else
      assert c.rest == [' '] + c.rest[1..];
      ReadMessage(timestamp, c.head, c.rest[1..])
  }

  /** The rest of the line: the message, ended by a newline. */
  function ReadMessage(timestamp: string, source: string, s: string): (r: Option<Entry>)
    ensures r.Some? ==> r.value.timestamp == timestamp && r.value.source == source
    ensures r.Some? ==> s == r.value.message + ['\n']
  {
    if s == [] || s[|s| - 1] != '\n' then None
    else
      assert s == s[..|s| - 1] + ['\n'];
      Some(Entry(timestamp, source, s[..|s| - 1]))
  }

  /** A line written with a timestamp free of `]` and a source free of `:`
      reads back as what was written, whatever the message holds. */
  lemma LogLineRoundTrip(timestamp: string, source: string, message: string)
    requires ']' !in timestamp && ':' !in source
    ensures ParseLogLine(LogLine(timestamp, source, message)) == Some(Entry(timestamp, source, message))
  {
    var after := source + [':'] + ([' '] + (message + ['\n']));
    var body := timestamp + [']'] + ([' '] + after);
    ReadsMessage(timestamp, source, message);
    ReadsSource(timestamp, source, message);
    ReadsTimestamp(timestamp, after, Entry(timestamp, source, message));
    LogLinePieces(timestamp, source, message);
    ReadsBracket(body);
  }

  /** A message followed by a newline reads back as that message. */
  lemma ReadsMessage(timestamp: string, source: string, message: string)
    ensures ReadMessage(timestamp, source, message + ['\n']) == Some(Entry(timestamp, source, message))
  {
    var tail := message + ['\n'];
    assert tail[..|tail| - 1] == message;
  }

  /** A source free of `:`, then `: ` and the rest, reads back as that source. */
  lemma ReadsSource(timestamp: string, source: string, message: string)
    requires ':' !in source
    ensures ReadSource(timestamp, source + [':'] + ([' '] + (message + ['\n'])))
         == ReadMessage(timestamp, source, message + ['\n'])
  {
    var rest := [' '] + (message + ['\n']);
    CutAtFirst(source, ':', rest);
    assert (source + [':'] + rest)[|source|] == ':';
    assert rest[1..] == message + ['\n'];
  }

  /** A timestamp free of `]`, then `] ` and the rest, reads back as that
      timestamp. */
  lemma ReadsTimestamp(timestamp: string, after: string, e: Entry)
    requires ']' !in timestamp
    requires ReadSource(timestamp, after) == Some(e)
    ensures ReadTimestamp(timestamp + [']'] + ([' '] + after)) == Some(e)
  {
    var rest := [' '] + after;
    CutAtFirst(timestamp, ']', rest);
    assert (timestamp + [']'] + rest)[|timestamp|] == ']';
    assert rest[1..] == after;
  }

  /** A line opening with `[` is read from what follows the bracket. */
  lemma ReadsBracket(body: string)
    ensures ParseLogLine(['['] + body) == ReadTimestamp(body)
  {
    assert (['['] + body)[1..] == body;
  }

  /** What follows `SERVER: ` on a grant line. */
  function GrantMessage(train: string, intersection: string, additional: string): (msg: string)
    ensures additional == [] ==> |msg| == |intersection| + |train| + 29
    ensures additional != [] ==> |msg| == |intersection| + |train| + |additional| + 30
  {
    var base := "GRANTED Intersection" + intersection + " to Train" + train;
    if additional == [] then base else base + " " + additional
  }

  /** The line `logGrant` writes: the grant announcement from the server,
      with the additional detail after a space only when there is one. */
  function GrantLine(timestamp: string, train: string, intersection: string, additional: string): (line: string)
    ensures line == LogLine(timestamp, "SERVER", GrantMessage(train, intersection, additional))
  {
    var head := "[" + timestamp + "] SERVER: GRANTED Intersection" + intersection + " to Train" + train;
    var line := if additional != [] then head + " " + additional else head;
    GrantHead(timestamp, train, intersection);
    GrantTail(timestamp, train, intersection, additional);
    line + "\n"
  }

  /** The fixed text in front of a grant announcement is the bracketed
      timestamp and the `SERVER` source of an ordinary log line. */
  lemma GrantHead(timestamp: string, train: string, intersection: string)
    ensures "[" + timestamp + "] SERVER: GRANTED Intersection" + intersection + " to Train" + train
         == "[" + timestamp + "] " + "SERVER" + ": " + GrantMessage(train, intersection, [])
  {
    var pre, lit := "[" + timestamp, "] SERVER: GRANTED Intersection";
    var ann := "GRANTED Intersection" + intersection + " to Train" + train;
    var tag := "] " + "SERVER" + ": ";
    assert lit == tag + "GRANTED Intersection";
    Assoc(pre, tag, "GRANTED Intersection");
    Assoc(pre + tag, "GRANTED Intersection", intersection);
    Assoc(pre + tag, "GRANTED Intersection" + intersection, " to Train");
    Assoc(pre + tag, "GRANTED Intersection" + intersection + " to Train", train);
    Assoc(pre, "] ", "SERVER");
    Assoc(pre, "] " + "SERVER", ": ");
  }

  /** The optional detail and the newline close a grant line as they close
      the log line of the full grant message. */
  lemma GrantTail(timestamp: string, train: string, intersection: string, additional: string)
    ensures var prefix := "[" + timestamp + "] " + "SERVER" + ": ";
      var ann := GrantMessage(train, intersection, []);
      (if additional != [] then prefix + ann + " " + additional else prefix + ann) + "\n"
      == prefix + GrantMessage(train, intersection, additional) + "\n"
  {
    var prefix := "[" + timestamp + "] " + "SERVER" + ": ";
    var ann := GrantMessage(train, intersection, []);
    if additional != [] {
      Assoc(prefix, ann, " ");
      Assoc(prefix, ann + " ", additional);
    }
  }

  /** Concatenation is associative. */
  lemma Assoc(a: string, b: string, c: string)
    ensures a + b + c == a + (b + c)
  {
  }

  /** A grant line reads back as an entry from the server whose message is the
      grant announcement, extended by the detail exactly when one was given. */
  lemma GrantLineParses(timestamp: string, train: string, intersection: string, additional: string)
    requires ']' !in timestamp
    ensures var e := ParseLogLine(GrantLine(timestamp, train, intersection, additional));
      && e.Some? && e.value.timestamp == timestamp && e.value.source == "SERVER"
      && (additional == [] <==> e.value.message == "GRANTED Intersection" + intersection + " to Train" + train)
  {
    LogLineRoundTrip(timestamp, "SERVER", GrantMessage(train, intersection, additional));
    var base := "GRANTED Intersection" + intersection + " to Train" + train;
    if additional != [] {
      assert |GrantMessage(train, intersection, additional)| > |base|;
    }
  }
}
