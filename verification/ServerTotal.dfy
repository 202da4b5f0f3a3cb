/** A run of the Asio server on which the total it prints is too low. */
module ServerTotal {
  import opened Framing
  import opened AsioEndpoint
  import Session = AsioSession
  import opened Connection
  import opened Progress
  import Table = ServerTable
  import opened Tally

  /** The steps of one connection as steps of a server. */
  function Lift(ls: seq<Label>, id: nat): seq<Table.Step> {
    if ls == [] then [] else [Table.At(id, ls[0])] + Lift(ls[1..], id)
  }

  /** Steps that fail nothing leave the total alone. */
  lemma {:induction false} SoundStepsLeaveTotal(h: Handler, w: Table.World, ls: seq<Label>, id: nat)
    requires id in w.conns && Live(h, w.conns[id]) && Legal(h, w.conns[id], ls)
    requires forall l :: l in ls ==> Sound(l)
    ensures Table.Legal(h, w, Lift(ls, id))
    ensures var w' := Table.Run(h, w, Lift(ls, id));
            w' == w.(conns := w.conns[id := Run(h, w.conns[id], ls)])
    decreases |ls|
  {
    hide Live, Enabled, Apply, Sound;
    if ls == [] {
      assert w.conns[id := w.conns[id]] == w.conns;
    } else {
      var l, rest := ls[0], Lift(ls[1..], id);
      assert l in ls;
      SoundKeepsLive(h, w.conns[id], l);
      LiveIsBusy(h, w.conns[id]);
      LiveIsBusy(h, Apply(h, w.conns[id], l));
      var w' := Table.Apply(h, w, Table.At(id, l));
      SoundStepsLeaveTotal(h, w', ls[1..], id);
      assert Lift(ls, id)[0] == Table.At(id, l) && Lift(ls, id)[1..] == rest;
    }
  }

  lemma LiveIsBusy(h: Handler, c: Conn)
    requires Live(h, c)
    ensures !c.server.ep.phase.Failed?
  {
  }

  /** Once the client has its responses, all that is left to the session is to notice. */
  lemma OnlyHandlersLeft(h: Handler, c: Conn)
    requires Live(h, c) && c.client.ep.phase.Idle? && Session.Replying(c.server)
    ensures c.server.ep.Settled() && Enabled(c, ServerCompletes(false))
  {
    hide Session.Completed, Frames, Header, Replies;
    InvImpliesCallLoop(h, c);
    var handled := c.server.handled;
    assert handled == c.client.requests == c.client.requests[..|c.client.responses|];
    assert c.client.ep.received + [] == c.client.ep.received;
    assert |c.server.ep.sent| + |ToSend(c.server.ep)| == |Frames(Replies(h, handled))| <= |c.server.ep.sent|;
  }

  lemma {:induction false} SessionCatchesUp(h: Handler, c: Conn) returns (ls: seq<Label>)
    requires Live(h, c) && c.client.ep.phase.Idle?
    ensures Legal(h, c, ls) && (forall l :: l in ls ==> Sound(l))
    ensures Live(h, Run(h, c, ls)) && !Session.Replying(Run(h, c, ls).server)
    ensures Run(h, c, ls).client == c.client
    decreases 4 - Session.Stage(c.server.ep.phase)
  {
    hide Live, Enabled;
    if !Session.Replying(c.server) {
      return [];
    }
    OnlyHandlersLeft(h, c);
    SoundKeepsLive(h, c, ServerCompletes(false));
    LiveIsBusy(h, Apply(h, c, ServerCompletes(false)));
    var c' := Apply(h, c, ServerCompletes(false));
    if c'.server.ep.phase.SendData? {
      var rest := SessionCatchesUp(h, c');
      ls := [ServerCompletes(false)] + rest;
      assert ls[0] == ServerCompletes(false) && ls[1..] == rest;
    } else {
      ls := [ServerCompletes(false)];
      assert ls[1..] == [];
    }
  }

  lemma {:induction false} RunsInTwo(h: Handler, c: Conn, before: seq<Label>, after: seq<Label>)
    requires Legal(h, c, before) && Legal(h, Run(h, c, before), after)
    ensures Legal(h, c, before + after) && Run(h, c, before + after) == Run(h, Run(h, c, before), after)
    decreases |before|
  {
    hide Apply, Enabled;
    if before == [] {
      assert before + after == after;
    } else {
      assert (before + after)[0] == before[0] && (before + after)[1..] == before[1..] + after;
      RunsInTwo(h, Apply(h, c, before[0]), before[1..], after);
    }
  }

  /** A whole exchange, from an accepted connection until both sides are done with it. */
  lemma OneExchange(h: Handler, p: Payload) returns (ls: seq<Label>)
    requires |p| <= LIMIT
    ensures Legal(h, ACCEPTED, ls) && (forall l :: l in ls ==> Sound(l))
    ensures var c := Run(h, ACCEPTED, ls);
            Live(h, c) && c.client.responses == [h(p)] && c.server.requestCount == 1
  {
    hide Live, Enabled, Run, Legal;
    AcceptedIsLive(h);
    RequestIsEnabled(h, p);
    var c := Apply(h, ACCEPTED, Request(p));
    SoundKeepsLive(h, ACCEPTED, Request(p));
    var answer := CanAlwaysFinish(h, c);
    var after := SessionCatchesUp(h, Run(h, c, answer));
    RunsInTwo(h, c, answer, after);
    ls := [Request(p)] + (answer + after);
    Begins(h, p, answer + after);
    AllCounted(h, Run(h, ACCEPTED, ls));
    assert Replies(h, [p]) == [h(p)];
  }

  lemma RequestIsEnabled(h: Handler, p: Payload)
    requires |p| <= LIMIT
    ensures Enabled(ACCEPTED, Request(p)) && Apply(h, ACCEPTED, Request(p)).client.requests == [p]
  {
  }

  lemma Begins(h: Handler, p: Payload, rest: seq<Label>)
    requires Enabled(ACCEPTED, Request(p)) && Legal(h, Apply(h, ACCEPTED, Request(p)), rest)
    ensures Legal(h, ACCEPTED, [Request(p)] + rest)
    ensures Run(h, ACCEPTED, [Request(p)] + rest) == Run(h, Apply(h, ACCEPTED, Request(p)), rest)
  {
    hide Enabled, Apply;
    assert ([Request(p)] + rest)[1..] == rest;
  }

  lemma AllCounted(h: Handler, c: Conn)
    requires Live(h, c) && c.client.ep.phase.Idle? && !Session.Replying(c.server)
    ensures c.server.requestCount == |c.client.responses|
  {
    InvImpliesCallLoop(h, c);
  }

  /** One client, one request, answered and counted by its session; stopping the server then prints a
      total of zero. */
  lemma ServedButNotPrinted(h: Handler, p: Payload) returns (steps: seq<Table.Step>)
    requires |p| <= LIMIT
    ensures Table.Legal(h, Table.START, steps)
    ensures var w := Table.Run(h, Table.START, steps);
            && 0 in w.conns && w.conns[0].client.responses == [h(p)]
            && w.total == 0 && Table.Written(h, Table.START, steps) == 1
  {
    hide Live, Enabled, Run, Legal, Table.Run, Table.Legal, Table.Written, Table.Counts, Sum;
    var ls := OneExchange(h, p);
    AcceptedIsLive(h);
    var w1 := Table.Apply(h, Table.START, Table.Accepted);
    assert w1.conns[0] == ACCEPTED && w1.total == 0;
    SoundStepsLeaveTotal(h, w1, ls, 0);
    steps := [Table.Accepted] + Lift(ls, 0);
    AcceptedFirst(h, Lift(ls, 0));
    Table.TotalPlusLiveIsWritten(h, steps);
    OneLiveSession(Table.Run(h, Table.START, steps));
  }

  lemma OneLiveSession(w: Table.World)
    requires w.conns.Keys == {0} && 0 in w.table && w.table[0].Serving? && w.conns[0].server.requestCount == 1
    ensures Sum(Table.Counts(w)) == 1
  {
    assert Table.Counts(w) == map[0 := 1];
    SumRemoves(map[0 := 1], 0);
    SumIsZero(map[0 := 1] - {0});
  }

  lemma AcceptedFirst(h: Handler, rest: seq<Table.Step>)
    requires Table.Legal(h, Table.Apply(h, Table.START, Table.Accepted), rest)
    ensures Table.Legal(h, Table.START, [Table.Accepted] + rest)
    ensures Table.Run(h, Table.START, [Table.Accepted] + rest)
         == Table.Run(h, Table.Apply(h, Table.START, Table.Accepted), rest)
  {
    hide Table.Apply;
    assert ([Table.Accepted] + rest)[1..] == rest;
  }
}
