/**
  The retention run: connect to the daemon, fetch the status snapshot once,
  walk it in order, and call `remove` for every torrent the rule chain
  condemns. `remove` makes no RPC in dry-run mode; otherwise it asks the
  daemon to delete the torrent with its data, and any reply other than
  exactly `True` ends the whole run with exit code 2.

  The daemon is an oracle: whether the connection comes up, the status
  reply it sends (raw, and as read into typed records) and its reply to each
  removal are fixed in advance, and a ghost log records the handshake and
  every RPC the run makes.
 */
module Engine {
  import opened Values
  import opened Retention
  import opened Settings

  /** A torrent's info hash, the key of the status snapshot. */
  type TorrentId = string

  /** The decoded status snapshot, in the dictionary's iteration order. */
  type Snapshot = seq<(TorrentId, TorrentStatus)>

  predicate DistinctIds(s: Snapshot) {
    forall i, j :: 0 <= i < j < |s| ==> s[i].0 != s[j].0
  }

  predicate Distinct(ids: seq<TorrentId>) {
    forall i, j :: 0 <= i < j < |ids| ==> ids[i] != ids[j]
  }

  /** The exchanges with the daemon: the connection handshake and the RPCs. */
  datatype Rpc = Handshake | GetTorrentsStatus | RemoveTorrent(id: TorrentId, removeData: bool)

  /** `Continue`, or the process exit status the run stops with. */
  datatype Status = Continue | Exit(code: int)

  /** The RPC client, with the daemon behind it as an oracle. */
  class Client {
    var connected: bool
    /** Whether the connection handshake succeeds. */
    const reachable: bool
    /** What `core.get_torrents_status` answers, as sent. */
    const statusReply: Value
    /** The same answer once decoded, read as typed records. */
    const torrents: Snapshot
    /** What `core.remove_torrent` answers for each torrent. */
    const reply: TorrentId -> Value
    /** Every RPC made through this client, in order. */
    ghost var log: seq<Rpc>

    constructor (reachable: bool, statusReply: Value, torrents: Snapshot, reply: TorrentId -> Value)
      ensures !connected && log == []
      ensures this.reachable == reachable && this.statusReply == statusReply
      ensures this.torrents == torrents && this.reply == reply
    {
      this.connected := false;
      this.reachable := reachable;
      this.statusReply := statusReply;
      this.torrents := torrents;
      this.reply := reply;
      this.log := [];
    }

    method Connect()
      modifies this`connected, this`log
      ensures connected == reachable
      ensures log == old(log) + [Handshake]
    {
      log := log + [Handshake];
      connected := reachable;
    }

    method CallGetTorrentsStatus() returns (v: Value)
      modifies this`log
      ensures v == statusReply
      ensures log == old(log) + [GetTorrentsStatus]
    {
      log := log + [GetTorrentsStatus];
      v := statusReply;
    }

    method CallRemoveTorrent(id: TorrentId, removeData: bool) returns (r: Value)
      modifies this`log
      ensures r == reply(id)
      ensures log == old(log) + [RemoveTorrent(id, removeData)]
    {
      log := log + [RemoveTorrent(id, removeData)];
      r := reply(id);
    }
  }

  // ---------------------------------------------------------------------
  // Specification of a run

  function RemoveRpcs(ids: seq<TorrentId>): (rs: seq<Rpc>)
    ensures |rs| == |ids|
    ensures forall i :: 0 <= i < |ids| ==> rs[i] == RemoveTorrent(ids[i], true)
  {
    seq(|ids|, i requires 0 <= i < |ids| => RemoveTorrent(ids[i], true))
  }

  /** What `remove` makes of the daemon's reply once it is decoded: only
      exactly `True` lets the run go on; a reply that does not decode raises
      (exit status 1); anything else is fatal with exit code 2. */
  function ReplyStatus(v: Value): (s: Status)
    ensures s == Continue <==> v == Bool(true)
    ensures s == Exit(1) <==> !AsciiOnly(v)
    ensures s == Exit(2) <==> AsciiOnly(v) && v != Bool(true)
  {
    match Convert(v)
    case Failure(_) => Exit(1)
    case Success(decoded) => if decoded == Bool(true) then Continue else Exit(2)
  }

  /** The ids of the torrents the rule chain condemns, in snapshot order. */
  function Doomed(p: Policy, s: Snapshot): (ids: seq<TorrentId>)
    ensures |ids| <= |s|
  {
    if s == [] then []
    else
      var last := s[|s| - 1];
      Doomed(p, s[..|s| - 1]) + (if Decide(last.1, p).Remove? then [last.0] else [])
  }

  /** The removal RPCs made so far and whether the run has stopped. */
  datatype RunState = RunState(calls: seq<TorrentId>, status: Status)

  /** One iteration of the snapshot loop. */
  function Step(p: Policy, dryRun: bool, reply: TorrentId -> Value, st: RunState,
                e: (TorrentId, TorrentStatus)): RunState
  {
    if st.status.Exit? || Decide(e.1, p).Keep? || dryRun then st
    else RunState(st.calls + [e.0], ReplyStatus(reply(e.0)))
  }

  /** The state of the run after the given prefix of the snapshot. */
  function Processed(p: Policy, dryRun: bool, reply: TorrentId -> Value, s: Snapshot): RunState
  {
    if s == [] then RunState([], Continue)
    else Step(p, dryRun, reply, Processed(p, dryRun, reply, s[..|s| - 1]), s[|s| - 1])
  }

  // ---------------------------------------------------------------------
  // Properties of a run

  /** A torrent is condemned exactly when some entry of the snapshot with
      its id is judged removable. */
  lemma {:induction false} DoomedMembership(p: Policy, s: Snapshot, id: TorrentId)
    ensures id in Doomed(p, s) <==>
      exists k :: 0 <= k < |s| && s[k].0 == id && Decide(s[k].1, p).Remove?
  {
    if s != [] {
      var init := s[..|s| - 1];
      DoomedMembership(p, init, id);
      if id in Doomed(p, s) && id !in Doomed(p, init) {
        assert s[|s| - 1].0 == id;
      }
      if id !in Doomed(p, s) {
        forall k | 0 <= k < |s| && s[k].0 == id ensures Decide(s[k].1, p).Keep? {
          if k < |s| - 1 {
            assert init[k] == s[k];
          }
        }
      } else if id in Doomed(p, init) {
        var k :| 0 <= k < |init| && init[k].0 == id && Decide(init[k].1, p).Remove?;
        assert s[k] == init[k];
      }
    }
  }

  /** Decisions are independent: the doomed torrents of two consecutive
      parts of a snapshot are those of each part, one after the other. */
  lemma {:induction false} DoomedAppend(p: Policy, a: Snapshot, b: Snapshot)
    ensures Doomed(p, a + b) == Doomed(p, a) + Doomed(p, b)
  {
    if b == [] {
      assert a + b == a;
    } else {
      var init := b[..|b| - 1];
      DoomedAppend(p, a, init);
      assert (a + b)[..|a + b| - 1] == a + init;
      assert (a + b)[|a + b| - 1] == b[|b| - 1];
    }
  }

  /** With distinct ids, no torrent is condemned twice. */
  lemma {:induction false} DoomedDistinct(p: Policy, s: Snapshot)
    requires DistinctIds(s)
    ensures Distinct(Doomed(p, s))
  {
    if s != [] {
      var init := s[..|s| - 1];
      var last := s[|s| - 1];
      assert DistinctIds(init);
      DoomedDistinct(p, init);
      forall k | 0 <= k < |init| ensures init[k].0 != last.0 {
        assert init[k] == s[k];
      }
      DoomedMembership(p, init, last.0);
    }
  }

  /** In dry-run mode the run makes no removal RPC and never stops early. */
  lemma {:induction false} DryRunRemovesNothing(p: Policy, reply: TorrentId -> Value, s: Snapshot)
    ensures Processed(p, true, reply, s) == RunState([], Continue)
  {
    if s != [] {
      DryRunRemovesNothing(p, reply, s[..|s| - 1]);
    }
  }

  /** Once the run has stopped, later torrents change nothing. */
  lemma {:induction false} StoppedStaysStopped(p: Policy, dryRun: bool, reply: TorrentId -> Value,
                                               s: Snapshot, i: nat)
    requires i <= |s|
    requires Processed(p, dryRun, reply, s[..i]).status.Exit?
    ensures Processed(p, dryRun, reply, s) == Processed(p, dryRun, reply, s[..i])
  {
    if i < |s| {
      var init := s[..|s| - 1];
      assert init[..i] == s[..i];
      StoppedStaysStopped(p, dryRun, reply, init, i);
    } else {
      assert s[..i] == s;
    }
  }

  /** Outside dry-run mode the removal RPCs are the doomed torrents in order,
      up to and including the first whose reply is not `True`; the run stops
      with that reply's status, or goes through when every reply is `True`. */
  lemma {:induction false} RunOutcome(p: Policy, reply: TorrentId -> Value, s: Snapshot)
    ensures var r := Processed(p, false, reply, s);
      && r.calls <= Doomed(p, s)
      && (r.status == Continue ==> r.calls == Doomed(p, s))
      && (r.status.Exit? ==> |r.calls| > 0 && r.status == ReplyStatus(reply(r.calls[|r.calls| - 1])))
      && (forall i :: 0 <= i < |r.calls| - 1 ==> ReplyStatus(reply(r.calls[i])) == Continue)
      && (r.status == Continue ==> forall id :: id in r.calls ==> ReplyStatus(reply(id)) == Continue)
  {
    if s != [] {
      var init := s[..|s| - 1];
      var last := s[|s| - 1];
      RunOutcome(p, reply, init);
      var r0 := Processed(p, false, reply, init);
      var r := Processed(p, false, reply, s);
      assert Doomed(p, init) <= Doomed(p, s);
      if r0.status == Continue && Decide(last.1, p).Remove? {
        assert r.calls == r0.calls + [last.0];
        assert forall i :: 0 <= i < |r0.calls| ==> r.calls[i] == r0.calls[i];
        assert forall i :: 0 <= i < |r0.calls| ==> r0.calls[i] in r0.calls;
      }
    }
  }

  /** The run goes through exactly when the daemon answers `True` to every
      doomed torrent; then the removal RPCs are exactly the doomed torrents. */
  lemma CompletesIffAllRepliesTrue(p: Policy, reply: TorrentId -> Value, s: Snapshot)
    ensures Processed(p, false, reply, s).status == Continue <==>
      forall id :: id in Doomed(p, s) ==> reply(id) == Bool(true)
  {
    RunOutcome(p, reply, s);
    var r := Processed(p, false, reply, s);
    if r.status.Exit? {
      var last := r.calls[|r.calls| - 1];
      assert r.calls == Doomed(p, s)[..|r.calls|];
      assert last in Doomed(p, s);
    }
  }

  /** When the run goes through outside dry-run mode, a torrent gets a
      removal RPC exactly when some snapshot entry with its id is judged
      removable. */
  lemma RemovedExactlyTheDoomed(p: Policy, reply: TorrentId -> Value, s: Snapshot, id: TorrentId)
    requires Processed(p, false, reply, s).status == Continue
    ensures id in Processed(p, false, reply, s).calls <==>
      exists k :: 0 <= k < |s| && s[k].0 == id && Decide(s[k].1, p).Remove?
  {
    RunOutcome(p, reply, s);
    DoomedMembership(p, s, id);
  }

  /** With distinct ids, every torrent causes at most one removal RPC. */
  lemma AtMostOneRemovePerTorrent(p: Policy, dryRun: bool, reply: TorrentId -> Value, s: Snapshot)
    requires DistinctIds(s)
    ensures Distinct(Processed(p, dryRun, reply, s).calls)
  {
    if dryRun {
      DryRunRemovesNothing(p, reply, s);
    } else {
      RunOutcome(p, reply, s);
      DoomedDistinct(p, s);
      var r := Processed(p, false, reply, s);
      assert r.calls == Doomed(p, s)[..|r.calls|];
    }
  }

  // ---------------------------------------------------------------------
  // The run

  /** `remove(torrent_id)`. */
  method Remove(dryRun: bool, client: Client, id: TorrentId) returns (st: Status)
    modifies client`log
    ensures dryRun ==> st == Continue && client.log == old(client.log)
    ensures !dryRun ==> st == ReplyStatus(client.reply(id))
    ensures !dryRun ==> client.log == old(client.log) + [RemoveTorrent(id, true)]
  {
    if dryRun {
      st := Continue;
    } else {
      var answer := client.CallRemoveTorrent(id, true);
      var removed := Convert(answer);
      if removed.Failure? {
        st := Exit(1);
      } else if removed.value != Bool(true) {
        st := Exit(2);
      } else {
        st := Continue;
      }
    }
  }

  /** The loop over the snapshot: each torrent is judged by the rule chain
      and `remove` is called for it at most once. */
  method RemoveExpired(p: Policy, dryRun: bool, client: Client, snapshot: Snapshot) returns (st: Status)
    modifies client`log
    ensures st == Processed(p, dryRun, client.reply, snapshot).status
    ensures client.log == old(client.log) + RemoveRpcs(Processed(p, dryRun, client.reply, snapshot).calls)
  {
    var i := 0;
    while i < |snapshot|
      invariant 0 <= i <= |snapshot|
      invariant Processed(p, dryRun, client.reply, snapshot[..i]).status == Continue
      invariant client.log == old(client.log) + RemoveRpcs(Processed(p, dryRun, client.reply, snapshot[..i]).calls)
    {
      var (id, torrent) := snapshot[i];
      assert snapshot[..i + 1][..i] == snapshot[..i];
      if Decide(torrent, p).Remove? {
        st := Remove(dryRun, client, id);
        if st.Exit? {
          StoppedStaysStopped(p, dryRun, client.reply, snapshot, i + 1);
          return;
        }
      }
      i := i + 1;
    }
    assert snapshot[..i] == snapshot;
    st := Continue;
  }

  /** The whole program once the command line is parsed: the mandatory
      settings, the connection, the snapshot, the loop. Returns the process
      exit status. */
  method Execute(args: Args, client: Client) returns (code: int)
    modifies client
    ensures !AllMandatorySet(args) ==>
      code == 2 && client.log == old(client.log) && client.connected == old(client.connected)
    ensures AllMandatorySet(args) && !client.reachable ==>
      code == 2 && client.log == old(client.log) + [Handshake]
    ensures AllMandatorySet(args) && client.reachable && !AsciiOnly(client.statusReply) ==>
      code == 1 && client.log == old(client.log) + [Handshake, GetTorrentsStatus]
    ensures AllMandatorySet(args) && client.reachable && AsciiOnly(client.statusReply) ==>
      var r := Processed(args.policy, args.dryRun, client.reply, client.torrents);
      && client.log == old(client.log) + [Handshake, GetTorrentsStatus] + RemoveRpcs(r.calls)
      && code == (if r.status.Exit? then r.status.code else 0)
  {
    var missing := FirstMissing(args);
    if missing.Some? {
      return 2;
    }
    client.Connect();
    if !client.connected {
      return 2;
    }
    var answer := client.CallGetTorrentsStatus();
    var decoded := Convert(answer);
    if decoded.Failure? {
      return 1;
    }
    var st := RemoveExpired(args.policy, args.dryRun, client, client.torrents);
    code := if st.Exit? then st.code else 0;
  }
}
