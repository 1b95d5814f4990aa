/**
 * The peer process: the message it keeps for the tracker, the file server's
 * answer to one request, and one sync round (send the message, read the
 * tracker's directory, fetch what is missing or newer, switch to the
 * liveness message).
 */
module Synchronizer {
  import opened Common
  import opened Chunking
  import opened Inventory
  import opened Reconcile

  /** The message to the tracker: the one-time registration with the port
      and the inventory, or the liveness message with the port only. */
  datatype Message = Init(port: int, files: seq<FileRecord>) | KeepAlive(port: int)

  /** How a round ends. Only a completed round arms the timer for the next
      one; an empty tracker response returns quietly, and an exception
      (socket error, unparseable reply, failed scan or fetch) is re-raised. */
  datatype RoundOutcome = NoReply | Completed | Aborted

  /** The tracker link's part of a round: the message send or the response
      read fails (timeout or socket error), or the response text arrives. */
  datatype TrackerReply = Failed | Reply(text: string)

  /** The file server's reaction to one request: nothing for an empty read,
      the file body in slices, or the not-found answer. */
  datatype ServeReply = Silent | Body(chunks: seq<seq<byte>>) | NotFound

  /** The message after a round that ended with `o`. */
  function NextMessage(m: Message, port: int, o: RoundOutcome): Message {
    if o == Completed then KeepAlive(port) else m
  }

  /** The messages sent in a run of consecutive rounds with outcomes `outcomes`. */
  function SentMessages(m: Message, port: int, outcomes: seq<RoundOutcome>): (r: seq<Message>)
    ensures |r| == |outcomes|
    decreases outcomes
  {
    if outcomes == [] then []
    else [m] + SentMessages(NextMessage(m, port, outcomes[0]), port, outcomes[1..])
  }

  /** Round k sends the first message until some earlier round has completed, and the liveness message after. */
  lemma {:induction false} MessageOfRound(m: Message, port: int, outcomes: seq<RoundOutcome>, k: nat)
    requires k < |outcomes|
    ensures SentMessages(m, port, outcomes)[k] ==
      if exists j :: 0 <= j < k && outcomes[j] == Completed then KeepAlive(port) else m
    decreases k
  {
    if k > 0 {
      var m' := NextMessage(m, port, outcomes[0]);
      MessageOfRound(m', port, outcomes[1..], k - 1);
      assert forall j :: 0 <= j < k - 1 ==> outcomes[1..][j] == outcomes[j + 1];
      if outcomes[0] == Completed {
        assert KeepAlive(port) == (if exists j :: 0 <= j < k - 1 && outcomes[1..][j] == Completed then KeepAlive(port) else m');
      }
    }
  }

  /** A run of rounds as the timer chain produces it: a round follows only a completed one. */
  predicate Rescheduled(outcomes: seq<RoundOutcome>) {
    forall k :: 0 <= k < |outcomes| - 1 ==> outcomes[k] == Completed
  }

  /** Exactly one registration per process: the first round sends the
      registration, every later round the liveness message. */
  lemma SingleRegistration(port: int, files: seq<FileRecord>, outcomes: seq<RoundOutcome>)
    requires Rescheduled(outcomes) && |outcomes| > 0
    ensures SentMessages(Init(port, files), port, outcomes)[0] == Init(port, files)
    ensures forall k :: 1 <= k < |outcomes| ==> SentMessages(Init(port, files), port, outcomes)[k] == KeepAlive(port)
  {
    forall k | 1 <= k < |outcomes|
      ensures SentMessages(Init(port, files), port, outcomes)[k] == KeepAlive(port)
    {
      MessageOfRound(Init(port, files), port, outcomes, k);
      assert outcomes[0] == Completed;
    }
  }

  /** What a round leaves behind: the shared directory, the files requested
      from peers in order, and how the round ended. */
  datatype RoundResult = RoundResult(fs: FileSystem, attempted: seq<string>, outcome: RoundOutcome)

  /** Specification of one sync round after its message is sent. */
  function Round(fs: FileSystem, reply: TrackerReply, parse: string -> Option<Directory>,
                 names: seq<string>, fetch: Peers, now: int): RoundResult
    requires IsListing(names, fs)
  {
    match reply
    case Failed => RoundResult(fs, [], Aborted)
    case Reply(text) =>
      if text == [] then RoundResult(fs, [], NoReply)
      else match parse(text)
        case None => RoundResult(fs, [], Aborted)
        case Some(dir) =>
          match KeptRecords(Listing(names, fs))
          case None => RoundResult(fs, [], Aborted)
          case Some(inv) =>
            var a := Apply(fs, dir, LocalMap(inv), fetch, now);
            RoundResult(a.fs, a.attempted, if a.ok then Completed else Aborted)
  }

  /** A round whose tracker exchange fails, or whose response is empty,
      requests nothing, leaves the directory as it was, keeps the message
      and does not count as completed, so no further round is scheduled. */
  lemma QuietRound(fs: FileSystem, reply: TrackerReply, parse: string -> Option<Directory>,
                   names: seq<string>, fetch: Peers, now: int, m: Message, port: int)
    requires IsListing(names, fs)
    requires reply.Failed? || reply.text == []
    ensures var r := Round(fs, reply, parse, names, fetch, now);
      r.fs == fs && r.attempted == [] && r.outcome != Completed && NextMessage(m, port, r.outcome) == m
  {
  }

  /** Convergence: after a completed round, the round requested exactly the
      entries missing locally or strictly newer, each of them now holds what
      its peer sent and the tracker's mtime, and every other file is as it was. */
  lemma CompletedRoundConverges(fs: FileSystem, text: string, parse: string -> Option<Directory>,
                                names: seq<string>, fetch: Peers, now: int)
    requires IsListing(names, fs)
    requires Round(fs, Reply(text), parse, names, fetch, now).outcome == Completed
    ensures parse(text).Some? && KeptRecords(Listing(names, fs)).Some?
    ensures var dir, r := parse(text).value, Round(fs, Reply(text), parse, names, fetch, now);
      var local := LocalMap(KeptRecords(Listing(names, fs)).value);
      && r.attempted == SelectedNames(dir, local)
      && (forall n :: n !in r.attempted ==> (n in r.fs <==> n in fs) && (n in fs ==> r.fs[n] == fs[n]))
      && (UniqueNames(dir) ==>
            forall i :: 0 <= i < |dir| && NeedsUpdate(dir[i], local) ==>
              dir[i].name in r.fs && r.fs[dir[i].name] == Delivered(dir[i], fetch))
  {
    CompletedRound(fs, text, parse, names, fetch, now);
    var dir := parse(text).value;
    var local := LocalMap(KeptRecords(Listing(names, fs)).value);
    ApplyFrame(fs, dir, local, fetch, now);
    ApplyDelivers(fs, dir, local, fetch, now);
  }

  /** A completed round is one whose response parsed, whose scan succeeded
      and whose fetch pass completed; the round leaves what the pass leaves. */
  lemma CompletedRound(fs: FileSystem, text: string, parse: string -> Option<Directory>,
                       names: seq<string>, fetch: Peers, now: int)
    requires IsListing(names, fs)
    ensures var r := Round(fs, Reply(text), parse, names, fetch, now);
      r.outcome == Completed <==>
        && text != [] && parse(text).Some? && KeptRecords(Listing(names, fs)).Some?
        && Apply(fs, parse(text).value, LocalMap(KeptRecords(Listing(names, fs)).value), fetch, now).ok
    ensures var r := Round(fs, Reply(text), parse, names, fetch, now);
      r.outcome == Completed ==>
        var a := Apply(fs, parse(text).value, LocalMap(KeptRecords(Listing(names, fs)).value), fetch, now);
        r.fs == a.fs && r.attempted == a.attempted
  {
  }

  /** Idempotence: when each name in the directory appears once and is kept
      by the inventory scan, a second round on the same tracker response
      right after a completed one requests nothing, changes nothing and completes. */
  lemma SecondRoundIsQuiet(fs: FileSystem, text: string, parse: string -> Option<Directory>,
                           names: seq<string>, fetch: Peers, now: int,
                           names': seq<string>, fetch': Peers, now': int)
    requires IsListing(names, fs)
    requires Round(fs, Reply(text), parse, names, fetch, now).outcome == Completed
    requires parse(text).Some? && UniqueNames(parse(text).value)
    requires forall i :: 0 <= i < |parse(text).value| ==> Kept(parse(text).value[i].name)
    requires IsListing(names', Round(fs, Reply(text), parse, names, fetch, now).fs)
    ensures var fs' := Round(fs, Reply(text), parse, names, fetch, now).fs;
      Round(fs', Reply(text), parse, names', fetch', now') == RoundResult(fs', [], Completed)
  {
    var dir := parse(text).value;
    CompletedRound(fs, text, parse, names, fetch, now);
    var inv := KeptRecords(Listing(names, fs)).value;
    var fs' := Apply(fs, dir, LocalMap(inv), fetch, now).fs;
    ReapplySelectsNothing(names, fs, inv, dir, fetch, now, names');
    var inv' := KeptRecords(Listing(names', fs')).value;
    ApplyNothingSelected(fs', dir, LocalMap(inv'), fetch', now');
    CompletedRound(fs', text, parse, names', fetch', now');
  }

  /** A completed round that fetches a dotless name (which the inventory
      can never hold, so the entry is always selected) leaves a file the
      scan cannot pass: from then on, whatever the tracker answers, no round
      completes and the directory stays as it is, so syncing stops. */
  lemma DotlessEntryStopsSync(fs: FileSystem, text: string, parse: string -> Option<Directory>,
                              names: seq<string>, fetch: Peers, now: int, i: nat,
                              names': seq<string>, reply': TrackerReply, parse': string -> Option<Directory>,
                              fetch': Peers, now': int)
    requires IsListing(names, fs)
    requires Round(fs, Reply(text), parse, names, fetch, now).outcome == Completed
    requires parse(text).Some? && UniqueNames(parse(text).value)
    requires i < |parse(text).value| && '.' !in parse(text).value[i].name
    requires IsListing(names', Round(fs, Reply(text), parse, names, fetch, now).fs)
    ensures var fs' := Round(fs, Reply(text), parse, names, fetch, now).fs;
      var r := Round(fs', reply', parse', names', fetch', now');
      r.fs == fs' && r.attempted == [] && r.outcome != Completed
  {
    CompletedRound(fs, text, parse, names, fetch, now);
    var dir := parse(text).value;
    var inv := KeptRecords(Listing(names, fs)).value;
    var fs' := Apply(fs, dir, LocalMap(inv), fetch, now).fs;
    var d := dir[i];
    DotlessEntryFetched(names, fs, inv, dir, fetch, now, i);
    DotlessScanFails(names', fs', d.name);
  }

  /** The peer process's state: its listening port, the message for the next
      round, and the shared directory it serves from and downloads into. */
  class FileSynchronizer {
    const port: int
    var msg: Message
    var fs: FileSystem

    /** The registration message is built from the inventory scan at start-up. */
    constructor(port: int, fs: FileSystem, names: seq<string>)
      requires IsListing(names, fs) && KeptRecords(Listing(names, fs)).Some?
      ensures this.port == port && this.fs == fs
      ensures msg == Init(port, KeptRecords(Listing(names, fs)).value)
    {
      var info := GetFileInfo(Listing(names, fs));
      this.port := port;
      this.fs := fs;
      msg := Init(port, info.value);
    }

    /** `process_message`: an empty request gets no answer; a request naming
        a file gets its whole body in slices of at most `BufferSize` bytes;
        any other name gets the not-found answer. */
    method ProcessMessage(request: string) returns (reply: ServeReply)
      ensures request == [] ==> reply == Silent
      ensures request != [] && request in fs ==>
        reply.Body? && ChunkedAs(reply.chunks, fs[request].content, BufferSize) &&
        |reply.chunks| == CeilDiv(|fs[request].content|, BufferSize)
      ensures request != [] && request !in fs ==> reply == NotFound
    {
      if request == [] {
        return Silent;
      }
      if request !in fs {
        return NotFound;
      }
      var chunks := Chunk(fs[request].content, BufferSize);
      return Body(chunks);
    }

    /** Fetching one directory entry: truncate the file, append each read
        until an empty one, then stamp the tracker's mtime. */
    method Retrieve(e: DirEntry, stream: PeerStream, now: int) returns (ok: bool)
      modifies this
      ensures fs == Retrieved(old(fs), e, stream, now).fs
      ensures ok == Retrieved(old(fs), e, stream, now).ok
      ensures msg == old(msg)
    {
      match stream
      case Refused =>
        return false;
      case Stream(pieces, reset) =>
        var n := WriteReads(e.name, pieces, now);
        if n == |pieces| && reset {
          return false;
        }
        fs := fs[e.name := FileEntry(fs[e.name].content, e.mtime)];
        return true;
    }

    /** The read loop of a fetch: truncate the file, then append each read
        until the first empty one; `n` is the number of reads written. */
    method WriteReads(name: string, pieces: seq<seq<byte>>, now: int) returns (n: nat)
      modifies this
      ensures fs == old(fs)[name := FileEntry(Received(pieces), now)]
      ensures n == FirstEmpty(pieces)
      ensures msg == old(msg)
    {
      var body := [];
      fs := fs[name := FileEntry(body, now)];
      n := 0;
      while n < |pieces| && pieces[n] != []
        invariant n <= FirstEmpty(pieces)
        invariant body == Flatten(pieces[..n])
        invariant fs == old(fs)[name := FileEntry(body, now)]
        invariant msg == old(msg)
      {
        FlattenSnoc(pieces[..n], pieces[n]);
        assert pieces[..n + 1] == pieces[..n] + [pieces[n]];
        body := body + pieces[n];
        fs := fs[name := FileEntry(body, now)];
        n := n + 1;
      }
    }

    /** The fetch loop of `sync`: for each directory entry in order, fetch it
        when it is missing from `local` or strictly newer there, and stop at
        the first fetch that fails. */
    method FetchAll(dir: Directory, local: map<string, int>, fetch: Peers, now: int)
      returns (attempted: seq<string>, ok: bool)
      modifies this
      ensures Applied(fs, attempted, ok) == Apply(old(fs), dir, local, fetch, now)
      ensures msg == old(msg)
    {
      ghost var whole := Apply(fs, dir, local, fetch, now);
      attempted := [];
      var k := 0;
      assert dir[k..] == dir && whole == After([], Apply(fs, dir[k..], local, fetch, now));
      while k < |dir|
        invariant k <= |dir|
        invariant msg == old(msg)
        invariant whole == After(attempted, Apply(fs, dir[k..], local, fetch, now))
      {
        var e := dir[k];
        if NeedsUpdate(e, local) {
          FetchStep(whole, attempted, fs, dir, k, local, fetch, now);
          attempted := attempted + [e.name];
          ok := Retrieve(e, fetch(e.name, e.ip, e.port), now);
          if !ok {
            return;
          }
        } else {
          SkipStep(whole, attempted, fs, dir, k, local, fetch, now);
        }
        k := k + 1;
      }
      assert dir[k..] == [] && attempted + [] == attempted;
      return attempted, true;
    }

    /** `sync`: send the current message in slices, read the tracker's
        directory, scan the local inventory, fetch every entry that is missing
        or strictly newer, and on completion switch to the liveness message.
        `sent` is the sequence of slices the send loop hands to `send`; when
        the exchange fails (`Failed`), the send may have stopped partway
        through it. */
    method Sync(encode: Message -> string, reply: TrackerReply, parse: string -> Option<Directory>,
                names: seq<string>, fetch: Peers, now: int)
      returns (sent: seq<string>, attempted: seq<string>, outcome: RoundOutcome)
      requires IsListing(names, fs)
      modifies this
      ensures ChunkedAs(sent, encode(old(msg)), BufferSize)
      ensures |sent| == CeilDiv(|encode(old(msg))|, BufferSize)
      ensures RoundResult(fs, attempted, outcome) == Round(old(fs), reply, parse, names, fetch, now)
      ensures msg == NextMessage(old(msg), port, outcome)
    {
      sent := Chunk(encode(msg), BufferSize);
      attempted := [];
      if reply.Failed? {
        return sent, attempted, Aborted;
      }
      var text := reply.text;
      if text == [] {
        return sent, attempted, NoReply;
      }
      var parsed := parse(text);
      if parsed.None? {
        return sent, attempted, Aborted;
      }
      var dir := parsed.value;
      var localDir := GetFileInfo(Listing(names, fs));
      if localDir.None? {
        return sent, attempted, Aborted;
      }
      var local := BuildLocalMap(localDir.value);
      var ok;
      attempted, ok := FetchAll(dir, local, fetch, now);
      if !ok {
        return sent, attempted, Aborted;
      }
      msg := KeepAlive(port);
      return sent, attempted, Completed;
    }
  }
}
