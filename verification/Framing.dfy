/**
 Newline-delimited messages: the daemon's receiving side, whose handler for one chunk
 may still be dispatching when the next chunk arrives, and the client's, which settles
 on the first line.
 */
module Framing {
  import opened Basics
  import opened Text

  /** Trimmed lines that are not blank. */
  function Requests(lines: seq<string>): seq<string> {
    if lines == [] then []
    else (if Trim(lines[0]) == "" then [] else [Trim(lines[0])]) + Requests(lines[1..])
  }

  /** One invocation of the `data` callback: the requests it extracted, how many of them
      it has begun to dispatch, and how many it has answered. Between two awaits it has
      begun at most one more than it has answered. */
  datatype Handler = Handler(requests: seq<string>, begun: nat, answered: nat)

  /** A request by its place in the stream: the handler that extracted it, and which of
      that handler's requests it is. */
  datatype Ticket = Ticket(handler: nat, index: nat)

  /** `begun` records the requests in the order their dispatch began. */
  datatype Connection = Connection(buffer: string, handlers: seq<Handler>, begun: seq<Ticket>)

  datatype Event =
    | Data(chunk: string)
    | Answered(handler: nat)

  function Open(): Connection {
    Connection("", [], [])
  }

  /** Dispatching the handler's next request, if it has one. */
  function Proceed(c: Connection, h: nat): Connection
    requires h < |c.handlers|
  {
    var x := c.handlers[h];
    if x.begun < |x.requests| then
      c.(handlers := c.handlers[h := x.(begun := x.begun + 1)], begun := c.begun + [Ticket(h, x.begun)])
    else c
  }

  function Step(c: Connection, e: Event): Connection {
    match e
    case Data(chunk) =>
      var accumulated := c.buffer + chunk;
      var d := Connection(Tail(accumulated), c.handlers + [Handler(Requests(Lines(accumulated)), 0, 0)], c.begun);
      Proceed(d, |c.handlers|)
    case Answered(h) =>
      if h < |c.handlers| && c.handlers[h].answered < c.handlers[h].begun then
        Proceed(c.(handlers := c.handlers[h := c.handlers[h].(answered := c.handlers[h].answered + 1)]), h)
      else c
  }

  // ---- the daemon's connection ------------------------------------------------------

  class Socket {
    var buffer: string
    var handlers: seq<Handler>
    var begun: seq<Ticket>

    ghost function State(): Connection
      reads this
    {
      Connection(buffer, handlers, begun)
    }

    constructor ()
      ensures State() == Open()
    {
      buffer, handlers, begun := "", [], [];
    }

    /** Up to the first await: the buffer is saved before anything is dispatched. */
    method OnData(chunk: string)
      modifies this
      ensures State() == Step(old(State()), Data(chunk))
    {
      hide Trim, Requests, Proceed;
      var accumulated := buffer + chunk;
      var lines := Split(accumulated);
      buffer := lines[|lines| - 1];
      lines := lines[..|lines| - 1];
      var requests: seq<string> := [];
      assert Requests(lines[..0]) == [] by { NoRequests(lines[..0]); }
      for i := 0 to |lines|
        invariant requests == Requests(lines[..i])
        invariant State() == old(State()).(buffer := Tail(accumulated))
      {
        RequestsSnoc(lines[..i], lines[i]);
        assert lines[..i + 1] == lines[..i] + [lines[i]];
        var trimmed := Trim(lines[i]);
        if trimmed != "" {
          requests := requests + [trimmed];
        }
      }
      assert lines[..|lines|] == lines;
      handlers := handlers + [Handler(requests, 0, 0)];
      Continue(|handlers| - 1);
    }

    /** A dispatch finished and its response was written; the loop goes on. */
    method OnAnswered(h: nat)
      requires h < |handlers| && handlers[h].answered < handlers[h].begun
      modifies this
      ensures State() == Step(old(State()), Answered(h))
    {
      handlers := handlers[h := handlers[h].(answered := handlers[h].answered + 1)];
      Continue(h);
    }

    method Continue(h: nat)
      requires h < |handlers|
      modifies this
      ensures State() == Proceed(old(State()), h)
    {
      var x := handlers[h];
      if x.begun < |x.requests| {
        begun := begun + [Ticket(h, x.begun)];
        handlers := handlers[h := x.(begun := x.begun + 1)];
      }
    }
  }

  lemma NoRequests(lines: seq<string>)
    requires lines == []
    ensures Requests(lines) == []
  {}

  lemma {:induction false} RequestsSnoc(lines: seq<string>, line: string)
    ensures Requests(lines + [line]) == Requests(lines) + if Trim(line) == "" then [] else [Trim(line)]
  {
    hide Trim;
    RequestsConcat(lines, [line]);
  }

  lemma {:induction false} RequestsConcat(a: seq<string>, b: seq<string>)
    ensures Requests(a + b) == Requests(a) + Requests(b)
  {
    hide Trim;
    if a == [] {
      assert a + b == b;
    } else {
      RequestsConcat(a[1..], b);
      assert (a + b)[1..] == a[1..] + b;
      Associative(if Trim(a[0]) == "" then [] else [Trim(a[0])], Requests(a[1..]), Requests(b));
    }
  }

  /** A line is a request exactly when it is not blank, and the request is the line without
      the white space around it. */
  lemma RequestOfLine(pre: string, mid: string, post: string)
    requires AllSpace(pre) && AllSpace(post) && Trimmed(mid)
    ensures Requests([pre + mid + post]) == if mid == "" then [] else [mid]
  {
    hide Trim;
    TrimIs(pre, mid, post);
    assert [pre + mid + post][1..] == [];
  }

  // ---- every run ----------------------------------------------------------------------

  function Run(es: seq<Event>): Connection {
    if es == [] then Open() else Step(Run(es[..|es| - 1]), es[|es| - 1])
  }

  /** The characters received. */
  function Stream(es: seq<Event>): string {
    if es == [] then ""
    else Stream(es[..|es| - 1]) + match es[|es| - 1] case Data(chunk) => chunk case Answered(_) => ""
  }

  function Extracted(handlers: seq<Handler>): seq<string> {
    if handlers == [] then [] else Extracted(handlers[..|handlers| - 1]) + handlers[|handlers| - 1].requests
  }

  lemma ExtractedSnoc(hs: seq<Handler>, h: Handler)
    ensures Extracted(hs + [h]) == Extracted(hs) + h.requests
  {
    assert (hs + [h])[..|hs|] == hs;
  }

  lemma {:induction false} ExtractedSame(hs: seq<Handler>, i: nat, h: Handler)
    requires i < |hs| && h.requests == hs[i].requests
    ensures Extracted(hs[i := h]) == Extracted(hs)
  {
    var n := |hs| - 1;
    if i < n {
      ExtractedSame(hs[..n], i, h);
      assert hs[i := h][..n] == hs[..n][i := h];
    } else {
      assert hs[i := h][..n] == hs[..n];
    }
  }

  ghost predicate Ordered(c: Connection) {
    forall h :: 0 <= h < |c.handlers| ==>
      c.handlers[h].answered <= c.handlers[h].begun <= Min(c.handlers[h].answered + 1, |c.handlers[h].requests|)
      && (c.handlers[h].begun == c.handlers[h].answered ==> c.handlers[h].answered == |c.handlers[h].requests|)
  }

  lemma ProceedSame(c: Connection, h: nat)
    requires h < |c.handlers|
    ensures var d := Proceed(c, h);
            Extracted(d.handlers) == Extracted(c.handlers) && d.buffer == c.buffer && |d.handlers| == |c.handlers|
  {
    var x := c.handlers[h];
    ExtractedSame(c.handlers, h, x.(begun := x.begun + 1));
  }

  /** What holds of a connection that has received the stream s. */
  ghost predicate Exact(c: Connection, s: string) {
    && c.buffer == Tail(s)
    && Extracted(c.handlers) == Requests(Lines(s))
    && Ordered(c)
  }

  lemma DataExact(c: Connection, s: string, chunk: string)
    requires Exact(c, s)
    ensures Exact(Step(c, Data(chunk)), s + chunk)
  {
    hide Split, Trim, Requests, Extracted;
    SplitResumes(s, chunk);
    var accumulated := c.buffer + chunk;
    RequestsConcat(Lines(s), Lines(accumulated));
    var h := Handler(Requests(Lines(accumulated)), 0, 0);
    ExtractedSnoc(c.handlers, h);
    ProceedSame(Connection(Tail(accumulated), c.handlers + [h], c.begun), |c.handlers|);
  }

  lemma AnsweredExact(c: Connection, s: string, h: nat)
    requires Exact(c, s)
    ensures Exact(Step(c, Answered(h)), s)
  {
    hide Split, Requests, Extracted;
    if h < |c.handlers| && c.handlers[h].answered < c.handlers[h].begun {
      var x := c.handlers[h].(answered := c.handlers[h].answered + 1);
      ExtractedSame(c.handlers, h, x);
      ProceedSame(c.(handlers := c.handlers[h := x]), h);
    }
  }

  /** However the stream is cut into chunks and however dispatching interleaves with
      their arrival, the requests extracted, in order, are those of the lines of the
      whole stream, each once, the saved buffer is its newline-free tail, and every
      handler works through its own requests in order, one at a time. */
  lemma {:induction false} FramingExact(es: seq<Event>)
    ensures Exact(Run(es), Stream(es)) && NewlineFree(Run(es).buffer)
    decreases |es|
  {
    hide Exact, Step;
    SplitParts(Stream(es));
    if es == [] {
      NothingReceived();
    } else {
      var n := |es| - 1;
      FramingExact(es[..n]);
      match es[n]
      case Data(chunk) => DataExact(Run(es[..n]), Stream(es[..n]), chunk);
      case Answered(h) =>
        assert Stream(es) == Stream(es[..n]);
        AnsweredExact(Run(es[..n]), Stream(es[..n]), h);
    }
    BufferIsTail(Run(es), Stream(es));
  }

  lemma NothingReceived()
    ensures Exact(Open(), "")
  {}

  lemma ExtractedExact(c: Connection, s: string)
    requires Exact(c, s)
    ensures Extracted(c.handlers) == Requests(Lines(s))
  {}

  lemma BufferIsTail(c: Connection, s: string)
    requires Exact(c, s)
    ensures c.buffer == Tail(s)
  {}

  /** Two cuttings of the same stream extract the same requests and save the same tail. */
  lemma ChunkingIrrelevant(es: seq<Event>, fs: seq<Event>)
    requires Stream(es) == Stream(fs)
    ensures Run(es).buffer == Run(fs).buffer && Extracted(Run(es).handlers) == Extracted(Run(fs).handlers)
  {
    FramingExact(es);
    FramingExact(fs);
  }

  // ---- the order in which dispatch begins ------------------------------------------------

  function Numbered(h: nat, n: nat): (ts: seq<Ticket>)
    ensures |ts| == n
  {
    seq(n, i requires 0 <= i < n => Ticket(h, i))
  }

  /** Every request extracted so far, in stream order. */
  function AllTickets(hs: seq<Handler>): seq<Ticket> {
    if hs == [] then [] else AllTickets(hs[..|hs| - 1]) + Numbered(|hs| - 1, |hs[|hs| - 1].requests|)
  }

  /** No request has begun before an earlier one of the stream. */
  ghost predicate InOrder(c: Connection) {
    c.begun <= AllTickets(c.handlers)
  }

  ghost predicate AllBegun(c: Connection) {
    forall h :: 0 <= h < |c.handlers| ==> c.handlers[h].begun == |c.handlers[h].requests|
  }

  /** The requests this chunk completes. */
  function Arriving(c: Connection, chunk: string): seq<string> {
    Requests(Lines(c.buffer + chunk))
  }

  ghost predicate Guard(c: Connection, e: Event) {
    e.Data? && Arriving(c, e.chunk) != [] ==> AllBegun(c)
  }

  /** Every chunk that completes a request arrives when all earlier requests have begun. */
  ghost predicate Guarded(es: seq<Event>) {
    forall i :: 0 <= i < |es| ==> Guard(Run(es[..i]), es[i])
  }

  function CountBegun(hs: seq<Handler>): nat {
    if hs == [] then 0 else CountBegun(hs[..|hs| - 1]) + hs[|hs| - 1].begun
  }

  ghost predicate Within(hs: seq<Handler>) {
    forall h :: 0 <= h < |hs| ==> hs[h].begun <= |hs[h].requests|
  }

  /** The record is of that many requests, of these handlers. */
  ghost predicate Tallied(c: Connection) {
    && Within(c.handlers)
    && |c.begun| == CountBegun(c.handlers)
    && forall i :: 0 <= i < |c.begun| ==> c.begun[i].handler < |c.handlers|
  }

  /** Only the last handler with requests may have some that have not begun. */
  ghost predicate OneBehind(hs: seq<Handler>) {
    forall g, h :: 0 <= g < h < |hs| && hs[g].begun < |hs[g].requests| ==> hs[h].requests == []
  }

  lemma TicketsSnoc(hs: seq<Handler>, h: Handler)
    ensures AllTickets(hs + [h]) == AllTickets(hs) + Numbered(|hs|, |h.requests|)
    ensures CountBegun(hs + [h]) == CountBegun(hs) + h.begun
  {
    assert (hs + [h])[..|hs|] == hs;
  }

  lemma {:induction false} TicketsUpdate(hs: seq<Handler>, i: nat, h: Handler)
    requires i < |hs| && h.requests == hs[i].requests
    ensures AllTickets(hs[i := h]) == AllTickets(hs)
    ensures CountBegun(hs[i := h]) == CountBegun(hs) - hs[i].begun + h.begun
  {
    var n := |hs| - 1;
    if i < n {
      TicketsUpdate(hs[..n], i, h);
      assert hs[i := h][..n] == hs[..n][i := h];
    } else {
      assert hs[i := h][..n] == hs[..n];
    }
  }

  lemma {:induction false} TicketHandlers(hs: seq<Handler>)
    ensures forall i :: 0 <= i < |AllTickets(hs)| ==> AllTickets(hs)[i].handler < |hs|
  {
    if hs != [] {
      TicketHandlers(hs[..|hs| - 1]);
    }
  }

  /** As many have begun as there are exactly when every handler has begun all its own. */
  lemma {:induction false} CountedAll(hs: seq<Handler>)
    requires Within(hs)
    ensures CountBegun(hs) <= |AllTickets(hs)|
    ensures CountBegun(hs) == |AllTickets(hs)| <==> forall h :: 0 <= h < |hs| ==> hs[h].begun == |hs[h].requests|
  {
    if hs != [] {
      var n := |hs| - 1;
      assert forall h :: 0 <= h < n ==> hs[..n][h] == hs[h];
      CountedAll(hs[..n]);
      assert |AllTickets(hs)| == |AllTickets(hs[..n])| + |hs[n].requests|;
      assert CountBegun(hs) == CountBegun(hs[..n]) + hs[n].begun;
    }
  }

  /** The next request in stream order is the next one of the handler that is behind. */
  lemma {:induction false} NextTicket(hs: seq<Handler>, h: nat)
    requires Within(hs) && OneBehind(hs) && h < |hs| && hs[h].begun < |hs[h].requests|
    ensures CountBegun(hs) < |AllTickets(hs)| && AllTickets(hs)[CountBegun(hs)] == Ticket(h, hs[h].begun)
  {
    var n := |hs| - 1;
    var front := hs[..n];
    assert forall g :: 0 <= g < n ==> front[g] == hs[g];
    if h < n {
      NextTicket(front, h);
      assert hs[n].requests == [];
    } else {
      CountedAll(front);
      assert Numbered(n, |hs[n].requests|)[hs[n].begun] == Ticket(h, hs[n].begun);
    }
  }

  /** A handler goes on: the record stays in order if it was and this one is behind. */
  lemma ProceedOrder(c: Connection, h: nat)
    requires Tallied(c) && h < |c.handlers|
    ensures Tallied(Proceed(c, h)) && AllTickets(Proceed(c, h).handlers) == AllTickets(c.handlers)
    ensures c.begun <= Proceed(c, h).begun
    ensures InOrder(c) && OneBehind(c.handlers) ==> InOrder(Proceed(c, h)) && OneBehind(Proceed(c, h).handlers)
  {
    hide AllTickets, CountBegun;
    var x := c.handlers[h];
    if x.begun < |x.requests| {
      TicketsUpdate(c.handlers, h, x.(begun := x.begun + 1));
      if InOrder(c) && OneBehind(c.handlers) {
        NextTicket(c.handlers, h);
      }
    }
  }

  lemma AnsweredOrder(c: Connection, k: nat)
    requires Tallied(c)
    ensures Tallied(Step(c, Answered(k)))
    ensures InOrder(Step(c, Answered(k))) ==> InOrder(c)
    ensures InOrder(c) && OneBehind(c.handlers)
            ==> InOrder(Step(c, Answered(k))) && OneBehind(Step(c, Answered(k)).handlers)
  {
    hide AllTickets, CountBegun, Proceed;
    if k < |c.handlers| && c.handlers[k].answered < c.handlers[k].begun {
      var x := c.handlers[k].(answered := c.handlers[k].answered + 1);
      TicketsUpdate(c.handlers, k, x);
      ProceedOrder(c.(handlers := c.handlers[k := x]), k);
    }
  }

  lemma DataOrder(c: Connection, chunk: string)
    requires Tallied(c)
    ensures Tallied(Step(c, Data(chunk)))
    ensures InOrder(Step(c, Data(chunk))) ==> InOrder(c) && Guard(c, Data(chunk))
    ensures InOrder(c) && OneBehind(c.handlers) && Guard(c, Data(chunk))
            ==> InOrder(Step(c, Data(chunk))) && OneBehind(Step(c, Data(chunk)).handlers)
  {
    hide AllTickets, CountBegun, Proceed, Requests, Lines, Tail;
    var n := |c.handlers|;
    var h := Handler(Arriving(c, chunk), 0, 0);
    var d := Connection(Tail(c.buffer + chunk), c.handlers + [h], c.begun);
    TicketsSnoc(c.handlers, h);
    ProceedOrder(d, n);
    CountedAll(c.handlers);
    if InOrder(Step(c, Data(chunk))) {
      FirstOfNew(c, h, Step(c, Data(chunk)).begun);
      FirstBegins(d, n);
    }
    if InOrder(c) && OneBehind(c.handlers) && Guard(c, Data(chunk)) {
      assert OneBehind(d.handlers);
    }
  }

  lemma FirstBegins(d: Connection, n: nat)
    requires n < |d.handlers| && d.handlers[n].begun == 0
    ensures d.handlers[n].requests != [] ==> Proceed(d, n).begun == d.begun + [Ticket(n, 0)]
  {}

  /** A new handler's first request is next in stream order only when nothing is behind. */
  lemma FirstOfNew(c: Connection, h: Handler, begun: seq<Ticket>)
    requires Tallied(c) && c.begun <= begun <= AllTickets(c.handlers + [h])
    ensures InOrder(c)
    ensures begun == c.begun + [Ticket(|c.handlers|, 0)] ==> CountBegun(c.handlers) == |AllTickets(c.handlers)|
  {
    hide AllTickets, CountBegun;
    var all := AllTickets(c.handlers);
    TicketsSnoc(c.handlers, h);
    TicketHandlers(c.handlers);
    CountedAll(c.handlers);
    var more := all + Numbered(|c.handlers|, |h.requests|);
    assert forall i :: 0 <= i < |c.begun| ==> c.begun[i] == more[i] == all[i];
    assert |c.begun| < |all| ==> more[|c.begun|] == all[|c.begun|];
    assert |c.begun| < |begun| ==> begun[|c.begun|] == more[|c.begun|];
  }

  /** Dispatch begins in stream order exactly when every chunk that completes a request
      arrives with all earlier requests begun. */
  lemma {:induction false} InOrderIff(es: seq<Event>)
    ensures InOrder(Run(es)) <==> Guarded(es)
    ensures Guarded(es) ==> Texts(Run(es).handlers, Run(es).begun) <= Requests(Lines(Stream(es)))
  {
    hide Step, InOrder, Guarded;
    OrderOfRun(es);
    if Guarded(es) {
      FramingExact(es);
      ExtractedExact(Run(es), Stream(es));
      TextsInOrder(Run(es));
    }
  }

  lemma {:induction false} OrderOfRun(es: seq<Event>)
    ensures Tallied(Run(es))
    ensures InOrder(Run(es)) <==> Guarded(es)
    ensures Guarded(es) ==> OneBehind(Run(es).handlers)
    decreases |es|
  {
    hide Step, InOrder, Tallied, OneBehind, Guard;
    if es == [] {
      NothingBegun();
    } else {
      var n := |es| - 1;
      var c := Run(es[..n]);
      assert forall i :: 0 <= i < n ==> es[..n][i] == es[i] && es[..n][..i] == es[..i];
      OrderOfRun(es[..n]);
      assert Guarded(es) <==> Guarded(es[..n]) && Guard(c, es[n]);
      match es[n]
      case Data(chunk) => DataOrder(c, chunk);
      case Answered(k) =>
        AnsweredOrder(c, k);
        AlwaysGuarded(c, k);
    }
  }

  lemma AlwaysGuarded(c: Connection, k: nat)
    ensures Guard(c, Answered(k))
  {}

  lemma NothingBegun()
    ensures Tallied(Open()) && InOrder(Open()) && OneBehind(Open().handlers)
  {}

  function Request(hs: seq<Handler>, t: Ticket): string {
    if t.handler < |hs| && t.index < |hs[t.handler].requests| then hs[t.handler].requests[t.index] else ""
  }

  function Texts(hs: seq<Handler>, ts: seq<Ticket>): seq<string> {
    seq(|ts|, i requires 0 <= i < |ts| => Request(hs, ts[i]))
  }

  lemma {:induction false} TextsOfAll(hs: seq<Handler>)
    ensures Texts(hs, AllTickets(hs)) == Extracted(hs)
  {
    if hs != [] {
      var n := |hs| - 1;
      TextsOfAll(hs[..n]);
      TicketHandlers(hs[..n]);
      assert Texts(hs[..n], AllTickets(hs[..n])) == Texts(hs, AllTickets(hs[..n]));
      assert Texts(hs, Numbered(n, |hs[n].requests|)) == hs[n].requests;
    }
  }

  lemma TextsInOrder(c: Connection)
    requires InOrder(c)
    ensures Texts(c.handlers, c.begun) <= Extracted(c.handlers)
  {
    TextsOfAll(c.handlers);
  }

  lemma LinesOf(lines: seq<string>, s: string)
    requires Unlines(lines) == s && forall i :: 0 <= i < |lines| ==> NewlineFree(lines[i])
    ensures Lines(s) == lines && Tail(s) == ""
  {
    SplitUnique(lines, "");
    assert s + "" == s;
  }

  lemma OneRequest(s: string)
    requires s != "" && Trimmed(s)
    ensures Requests([s]) == [s]
  {
    hide Trim;
    TrimExact(s);
    assert [s][1..] == [];
  }

  lemma OneLine(s: string)
    ensures Unlines([s]) == s + "\n"
  {
    assert [s][1..] == [];
  }

  lemma Literals()
    ensures Lines("a\nb\n") == ["a", "b"] && Tail("a\nb\n") == ""
    ensures Lines("c\n") == ["c"] && Tail("c\n") == ""
    ensures Requests(["a", "b"]) == ["a", "b"] && Requests(["c"]) == ["c"]
  {
    hide Unlines, Requests, Lines, Tail;
    OneLine("a");
    OneLine("b");
    OneLine("c");
    UnlinesConcat(["a"], ["b"]);
    assert ["a"] + ["b"] == ["a", "b"] && "a\n" + "b\n" == "a\nb\n";
    LinesOf(["a", "b"], "a\nb\n");
    LinesOf(["c"], "c\n");
    OneRequest("a");
    OneRequest("b");
    OneRequest("c");
    RequestsConcat(["a"], ["b"]);
  }

  /** Two chunks, the second arriving while a line of the first is being dispatched. */
  lemma OverlapRun(es: seq<Event>)
    requires es == [Data("a\nb\n"), Data("c\n"), Answered(0)]
    ensures Run(es).handlers == [Handler(["a", "b"], 2, 1), Handler(["c"], 1, 0)]
    ensures Run(es).begun == [Ticket(0, 0), Ticket(1, 0), Ticket(0, 1)]
  {
    hide Lines, Tail, Requests;
    Literals();
    assert es[..2][..1] == [Data("a\nb\n")] && es[..2][..1][..0] == [];
    assert es[..2] == [Data("a\nb\n"), Data("c\n")];
    assert "" + "a\nb\n" == "a\nb\n" && "" + "c\n" == "c\n";
    assert Run(es[..2][..1]) == Step(Open(), Data("a\nb\n"));
    assert [] + [Handler(["a", "b"], 0, 0)] == [Handler(["a", "b"], 0, 0)];
    assert Run(es[..2][..1]) == Connection("", [Handler(["a", "b"], 1, 0)], [Ticket(0, 0)]);
    assert Run(es[..2]) == Step(Run(es[..2][..1]), Data("c\n"));
    assert Run(es[..2]) == Connection("", [Handler(["a", "b"], 1, 0), Handler(["c"], 1, 0)],
                                      [Ticket(0, 0), Ticket(1, 0)]);
  }

  /** Otherwise order is lost, here for good: the second request of the first chunk begins after
      the only request of the second. */
  lemma OverlapReorders()
    ensures var es := [Data("a\nb\n"), Data("c\n"), Answered(0)];
            Requests(Lines(Stream(es))) == ["a", "b", "c"]
            && Texts(Run(es).handlers, Run(es).begun) == ["a", "c", "b"]
  {
    hide Split, Requests, Lines, Tail, Run, Stream;
    var es := [Data("a\nb\n"), Data("c\n"), Answered(0)];
    OverlapRun(es);
    FramingExact(es);
    var c := Run(es);
    ExtractedExact(c, Stream(es));
    assert c.handlers[..1] == [Handler(["a", "b"], 2, 1)] && c.handlers[..1][..0] == [];
    assert Extracted(c.handlers[..1]) == [] + ["a", "b"];
    assert Extracted(c.handlers) == ["a", "b"] + ["c"];
  }

  // ---- the client's reply ----------------------------------------------------------------

  /** The per-request buffer, and the line the promise has settled with. */
  datatype Pending = Pending(buffer: string, settled: Option<string>)

  function Receive(p: Pending, chunk: string): Pending {
    var buffer := p.buffer + chunk;
    match FirstLine(buffer)
    case None => p.(buffer := buffer)
    case Some(line) => Pending(buffer, if p.settled.Some? then p.settled else Some(line))
  }

  function FirstLine(s: string): Option<string> {
    if Lines(s) == [] then None else Some(Lines(s)[0])
  }

  function ReceiveAll(chunks: seq<string>): Pending {
    if chunks == [] then Pending("", None) else Receive(ReceiveAll(chunks[..|chunks| - 1]), chunks[|chunks| - 1])
  }

  function Concat(chunks: seq<string>): string {
    if chunks == [] then "" else Concat(chunks[..|chunks| - 1]) + chunks[|chunks| - 1]
  }

  /** Whatever the chunks, the request settles with the first line of the reply stream,
      as soon as it is complete, and never changes. */
  lemma {:induction false} SettlesOnFirstLine(chunks: seq<string>)
    ensures ReceiveAll(chunks) == Pending(Concat(chunks), FirstLine(Concat(chunks)))
  {
    if chunks != [] {
      var n := |chunks| - 1;
      SettlesOnFirstLine(chunks[..n]);
      SplitResumes(Concat(chunks[..n]), chunks[n]);
    }
  }
}
