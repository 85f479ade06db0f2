/** The repository's client against its own server: the command encoder of redis/client.go, the read
    events of server.go, the reply writers of redis.go and the reply loop of redis/client.go. */
module EndToEnd {
  import opened Bytes
  import HttpHeader
  import ReadState
  import Command
  import opened Requests
  import Resp
  import ReplyLoop

  /** The value a server's handler writes for a command. */
  type Service = seq<bytes> -> Resp.Value

  /** What the client puts on the wire for a command, message by message: AUTH first on a connection
      that has just been opened with a password. */
  function Messages(password: Option<bytes>, args: seq<bytes>): (ms: seq<bytes>) {
    if password.None? then [Command.Encode(args)] else [Command.AuthPreface(password.value), Command.Encode(args)]
  }

  function Commands(password: Option<bytes>, args: seq<bytes>): (cs: seq<seq<bytes>>) {
    if password.None? then [args] else [[Command.AUTH, password.value], args]
  }

  function AuthReply(password: Option<bytes>, service: Service): (b: bytes) {
    if password.None? then [] else Resp.Encode(service([Command.AUTH, password.value]))
  }

  predicate Small(args: seq<bytes>) {
    |args| <= 65535 && |Command.Encode(args)| < 0x1_0000_0000
  }

  predicate AllSmall(password: Option<bytes>, args: seq<bytes>) {
    Small(args) && (password.Some? ==> Small([Command.AUTH, password.value]))
  }

  lemma MessagesTaken(lib: HttpHeader.Library, password: Option<bytes>, args: seq<bytes>)
    requires AllSmall(password, args)
    ensures AllTake(lib, Messages(password, args))
  {
    hide ReadState.Processed;
    hide Command.Encode;
    MessageTaken(lib, Cmd(args));
    if password.Some? {
      Command.PrefaceIsCommand(password.value);
      MessageTaken(lib, Cmd([Command.AUTH, password.value]));
    }
  }

  /** Between commands: the server has handled everything and its buffer is empty. */
  predicate AtRest(v: Peer) {
    v.status.Open? && v.st == ReadState.START && v.input == []
  }

  /** The newly handled requests are the client's commands. */
  predicate Handed(v: Peer, v': Peer, cs: seq<seq<bytes>>) {
    && |v.handled| <= |v'.handled| && v'.handled[..|v.handled|] == v.handled
    && AllHold(v'.handled[|v.handled|..], cs)
  }

  predicate AllHold(rs: seq<ReadState.State>, cs: seq<seq<bytes>>) {
    |rs| == |cs| && forall i :: 0 <= i < |cs| ==> Command.Holds(ReadState.Outcome(rs[i], [], ReadState.Done), cs[i])
  }

  lemma AllHoldConcat(rs: seq<ReadState.State>, cs: seq<seq<bytes>>, rs': seq<ReadState.State>, cs': seq<seq<bytes>>)
    requires AllHold(rs, cs) && AllHold(rs', cs')
    ensures AllHold(rs + rs', cs + cs')
  {
    hide Command.Holds;
    forall i | 0 <= i < |cs + cs'|
      ensures Command.Holds(ReadState.Outcome((rs + rs')[i], [], ReadState.Done), (cs + cs')[i])
    {
      if i < |cs| {
        assert (rs + rs')[i] == rs[i] && (cs + cs')[i] == cs[i];
      } else {
        assert (rs + rs')[i] == rs'[i - |cs|] && (cs + cs')[i] == cs'[i - |cs|];
      }
    }
  }

  // ----- the server's side

  lemma {:induction false} WholeAll(ms: seq<bytes>)
    ensures Whole(ms, |Flatten(ms)|) == |ms|
  {
    if ms != [] { WholeAll(ms[1..]); }
  }

  /** One message at a time is always kept up with. */
  lemma SingleKeepsUp(m: bytes, es: seq<Event>)
    ensures KeepsUp([m], es)
  {
    hide Whole;
    hide Total;
    assert es[..|es|] == es;
  }

  lemma NothingBehind(lib: HttpHeader.Library, v: Peer)
    requires Behind(lib, v, [])
    ensures v.st == ReadState.START && v.input == []
  {
  }

  /** A server at rest that keeps up hands over every message and is at rest again. */
  lemma ServesAll(lib: HttpHeader.Library, v: Peer, es: seq<Event>, ms: seq<bytes>)
    requires AtRest(v) && AllTake(lib, ms) && Flatten(Chunks(es)) == Flatten(ms)
    requires Continues(ms, es, 0, lib.requestMaxBytes) && KeepsUp(ms, es)
    ensures ReadAll(lib, v, es) == v.(handled := v.handled + RequestsOf(lib, ms))
  {
    hide ReadState.Processed;
    hide Takes;
    hide ReadAll;
    hide Continues;
    hide KeepsUp;
    hide Due;
    hide Whole;
    hide RequestsOf;
    hide Behind;
    hide Explained;
    hide Flatten;
    forall i | 0 <= i < |ms| ensures ms[i] != [] { TakesSome(lib, ms[i]); }
    assert [] + Flatten(Chunks(es)) == Flatten(Chunks(es)) && Flatten(Chunks(es)) + [] == Flatten(Chunks(es));
    assert Flatten(ms) + [] == Flatten(ms);
    BehindNew(lib, v, []);
    var k, n, rest := HandledInOrder(lib, v, [], es, ms, [], []);
    var v' := ReadAll(lib, v, es);
    OpenIff(v'.status, es, ms, n, 0, lib.requestMaxBytes);
    Ends(lib, v'.status, es, ms, n);
    assert es[..|es|] == es && ms[..|ms|] == ms;
    DueAllIff(ms, es);
    WholeAll(ms);
    assert rest == [];
    NothingBehind(lib, v');
  }

  lemma HandedBy(v: Peer, rs: seq<ReadState.State>, cs: seq<seq<bytes>>)
    requires AllHold(rs, cs)
    ensures Handed(v, v.(handled := v.handled + rs), cs)
  {
    hide AllHold;
    var n, all := |v.handled|, v.handled + rs;
    assert all[..n] == v.handled && all[n..] == rs;
  }

  lemma HandedAll(lib: HttpHeader.Library, v: Peer, password: Option<bytes>, args: seq<bytes>)
    requires AllSmall(password, args)
    ensures Handed(v, v.(handled := v.handled + RequestsOf(lib, Messages(password, args))), Commands(password, args))
  {
    hide ReadState.Processed;
    hide Command.Encode;
    hide Command.Holds;
    hide Handed;
    hide RequestsOf;
    var ms, cs := Messages(password, args), Commands(password, args);
    var rs := RequestsOf(lib, ms);
    assert ms[..|ms|] == ms;
    RequestAt(lib, ms, |ms|, 0);
    forall i | 0 <= i < |cs| ensures Command.Holds(ReadState.Outcome(rs[i], [], ReadState.Done), cs[i]) {
      RequestAt(lib, ms, |ms|, i);
      if password.Some? && i == 0 { Command.PrefaceIsCommand(password.value); }
      MessageTaken(lib, Cmd(cs[i]));
    }
    HandedBy(v, rs, cs);
  }

  // ----- one command

  /** A command's way there and back: how the server reads it and how the client reads the answer. */
  datatype Trip = Trip(args: seq<bytes>, es: seq<Event>, chunks: seq<bytes>)

  /** The bytes arrive as they were sent, both ways, within the limits of either side; the server's
      handlers want more, and it keeps up with AUTH and the command behind it. */
  predicate Travels(lib: HttpHeader.Library, password: Option<bytes>, t: Trip, service: Service, limit: nat) {
    var ms := Messages(password, t.args);
    && AllSmall(password, t.args)
    && Flatten(Chunks(t.es)) == Flatten(ms) && Continues(ms, t.es, 0, lib.requestMaxBytes)
    && (password.Some? ==> KeepsUp(ms, t.es))
    && Resp.Encodable(service(t.args)) && (password.Some? ==> Resp.Encodable(service([Command.AUTH, password.value])))
    && NoneEmpty(t.chunks) && |Flatten(t.chunks)| <= limit
    && Flatten(t.chunks) == AuthReply(password, service) + Resp.Encode(service(t.args))
  }

  /** The client is waiting for the answer to a command just sent. */
  predicate Waiting(l: ReplyLoop.Link, password: Option<bytes>) {
    l.active && l.status.Busy? && l.input == [] && l.auth == if password.Some? then 1 else 0
  }

  lemma ServerSide(lib: HttpHeader.Library, v: Peer, password: Option<bytes>, t: Trip, service: Service, limit: nat)
    requires AtRest(v) && Travels(lib, password, t, service, limit)
    ensures var v' := ReadAll(lib, v, t.es); AtRest(v') && Handed(v, v', Commands(password, t.args))
  {
    hide ReadState.Processed;
    hide ReadAll;
    hide Continues;
    hide KeepsUp;
    hide RequestsOf;
    hide Flatten;
    hide AllTake;
    hide Handed;
    if password.None? {
      SingleKeepsUp(Command.Encode(t.args), t.es);
      assert Messages(password, t.args) == [Command.Encode(t.args)];
    }
    hide Messages;
    MessagesTaken(lib, password, t.args);
    ServesAll(lib, v, t.es, Messages(password, t.args));
    HandedAll(lib, v, password, t.args);
  }

  lemma ClientSide(lib: HttpHeader.Library, l: ReplyLoop.Link, password: Option<bytes>, t: Trip, service: Service, limit: nat)
    returns (c: ReplyLoop.Call)
    requires Waiting(l, password) && Travels(lib, password, t, service, limit)
    ensures var l' := ReplyLoop.ReadAll(l, t.chunks, limit, true);
            l' == l.(input := [], auth := 0, calls := l.calls + [c], status := ReplyLoop.Idle, active := false)
    ensures ReplyLoop.Shows(c, service(t.args))
  {
    hide ReplyLoop.ReadAll;
    hide ReplyLoop.Shows;
    hide Resp.Element;
    hide Resp.Encode;
    hide Continues;
    hide KeepsUp;
    hide Flatten;
    var reply, first := Resp.Encode(service(t.args)), AuthReply(password, service);
    ReplyLoop.CallShows(service(t.args));
    if password.Some? { ReplyLoop.CallShows(service([Command.AUTH, password.value])); }
    assert [] + reply == reply;
    ReplyLoop.AnsweredOnce(l, t.chunks, first, reply, limit, true);
    c := ReplyLoop.CallFor(reply);
  }

  // ----- a session

  function Served(lib: HttpHeader.Library, v: Peer, ts: seq<Trip>): (v': Peer)
    requires v.status.Open? ==> ReadState.Ready(v.st, v.input)
    decreases |ts|
  {
    if ts == [] then v
    else
      ReadAllConcat(lib, v, ts[0].es, []);
      Served(lib, ReadAll(lib, v, ts[0].es), ts[1..])
  }

  function Answered(l: ReplyLoop.Link, ts: seq<Trip>, limit: nat): (l': ReplyLoop.Link)
    decreases |ts|
  {
    if ts == [] then l
    else Answered(ReplyLoop.ReadAll(ReplyLoop.Refilled(l), ts[0].chunks, limit, true), ts[1..], limit)
  }

  /** All commands of the session, AUTH before the first of a connection with a password. */
  function AllCommands(password: Option<bytes>, ts: seq<Trip>): (cs: seq<seq<bytes>>)
    decreases |ts|
  {
    if ts == [] then [] else Commands(password, ts[0].args) + AllCommands(None, ts[1..])
  }

  predicate AllTravel(lib: HttpHeader.Library, password: Option<bytes>, ts: seq<Trip>, service: Service, limit: nat)
    decreases |ts|
  {
    ts == [] || (Travels(lib, password, ts[0], service, limit) && AllTravel(lib, None, ts[1..], service, limit))
  }

  /** The new calls show what the service answers, command by command. */
  predicate AllShown(before: seq<ReplyLoop.Call>, after: seq<ReplyLoop.Call>, ts: seq<Trip>, service: Service) {
    && |after| == |before| + |ts| && after[..|before|] == before
    && forall i :: 0 <= i < |ts| ==> ReplyLoop.Shows(after[|before| + i], service(ts[i].args))
  }

  lemma HandedTwice(v: Peer, v1: Peer, v2: Peer, a: seq<seq<bytes>>, b: seq<seq<bytes>>)
    requires Handed(v, v1, a) && Handed(v1, v2, b)
    ensures Handed(v, v2, a + b)
  {
    hide AllHold;
    var n, m := |v.handled|, |v1.handled|;
    assert v2.handled[..n] == v2.handled[..m][..n];
    assert v2.handled[n..] == v2.handled[..m][n..] + v2.handled[m..];
    AllHoldConcat(v1.handled[n..], a, v2.handled[m..], b);
  }

  lemma ShownTwice(before: seq<ReplyLoop.Call>, c: ReplyLoop.Call, after: seq<ReplyLoop.Call>, ts: seq<Trip>, service: Service)
    requires ts != [] && ReplyLoop.Shows(c, service(ts[0].args)) && AllShown(before + [c], after, ts[1..], service)
    ensures AllShown(before, after, ts, service)
  {
    hide ReplyLoop.Shows;
    var n := |before|;
    assert after[..n] == after[..n + 1][..n] && after[n] == after[..n + 1][n];
    forall i | 0 <= i < |ts| ensures ReplyLoop.Shows(after[n + i], service(ts[i].args)) {
      if i > 0 { assert ts[i] == ts[1..][i - 1] && after[n + i] == after[n + 1 + (i - 1)]; }
    }
  }

  /** A whole session, client to server and back: however every command and every answer is cut,
      the server's handlers are given exactly the client's commands, in order and once each (AUTH
      first on a fresh connection with a password), and the client's callbacks run once per
      command, in order, each reading the value the server wrote for its own command. */
  lemma {:induction false} SessionAnswered(lib: HttpHeader.Library, v: Peer, l: ReplyLoop.Link, password: Option<bytes>,
                                           ts: seq<Trip>, service: Service, limit: nat)
    requires AtRest(v) && l.input == [] && l.auth == (if password.Some? then 1 else 0)
    requires AllTravel(lib, password, ts, service, limit)
    ensures var v' := Served(lib, v, ts); AtRest(v') && Handed(v, v', AllCommands(password, ts))
    ensures var l' := Answered(l, ts, limit);
            l'.input == [] && (ts != [] ==> l'.status.Idle? && l'.auth == 0) && AllShown(l.calls, l'.calls, ts, service)
    decreases |ts|
  {
    hide ReadAll;
    hide ReplyLoop.ReadAll;
    hide Travels;
    hide ReplyLoop.Shows;
    hide Command.Holds;
    hide Commands;
    if ts != [] {
      var t := ts[0];
      ServerSide(lib, v, password, t, service, limit);
      var c := ClientSide(lib, ReplyLoop.Refilled(l), password, t, service, limit);
      var v1, l1 := ReadAll(lib, v, t.es), ReplyLoop.ReadAll(ReplyLoop.Refilled(l), t.chunks, limit, true);
      SessionAnswered(lib, v1, l1, None, ts[1..], service, limit);
      HandedTwice(v, v1, Served(lib, v, ts), Commands(password, t.args), AllCommands(None, ts[1..]));
      ShownTwice(l.calls, c, Answered(l, ts, limit).calls, ts, service);
    }
  }

  /** The client writes AUTH and its first command into one buffer. A server that reads both at once
      handles AUTH only: the command stays in its buffer, and no further bytes will come. */
  lemma CommandAfterAuthWaits(lib: HttpHeader.Library, password: bytes, args: seq<bytes>)
    requires AllSmall(Some(password), args)
    requires |Command.AuthPreface(password) + Command.Encode(args)| <= lib.requestMaxBytes
    ensures var v := Read(lib, FRESH, Event(Command.AuthPreface(password) + Command.Encode(args), true));
            && v.status.Open? && v.input == Command.Encode(args)
            && |v.handled| == 1
            && Command.Holds(ReadState.Outcome(v.handled[0], [], ReadState.Done), [Command.AUTH, password])
  {
    hide ReadState.Processed;
    hide Command.Encode;
    hide Command.Holds;
    hide Takes;
    Command.PrefaceIsCommand(password);
    MessageTaken(lib, Cmd([Command.AUTH, password]));
    MessageTaken(lib, Cmd(args));
    TakesSome(lib, Command.AuthPreface(password));
    SecondRequestWaits(lib, Command.AuthPreface(password), Command.Encode(args));
  }
}
