/**
 * The reconciliation rule of a sync round, as functions of values: which
 * entries of the tracker's directory are fetched, what one fetch does to
 * the shared directory, and what a whole pass over the directory does.
 */
module Reconcile {
  import opened Common
  import opened Strings
  import opened Chunking
  import opened Inventory

  /** One entry of the tracker's directory response: a file name, the newest
      mtime the tracker knows for it, and the address of the peer serving it. */
  datatype DirEntry = DirEntry(name: string, mtime: int, ip: string, port: int)

  /** The directory response in the order its keys are iterated. */
  type Directory = seq<DirEntry>

  /** A decoded JSON object has each key once. */
  predicate UniqueNames(dir: Directory) {
    forall i, j :: 0 <= i < j < |dir| ==> dir[i].name != dir[j].name
  }

  /** The fetch condition: the file is not in the local table, or the
      tracker's mtime is strictly newer than the local one. */
  predicate NeedsUpdate(e: DirEntry, local: map<string, int>) {
    e.name !in local || e.mtime > local[e.name]
  }

  /** The names a round fetches, in directory order: exactly the entries
      that are missing locally or strictly newer; equal or older local
      copies are never fetched, and nothing outside the directory is. */
  function SelectedNames(dir: Directory, local: map<string, int>): (r: seq<string>)
    ensures forall n :: n in r <==>
      exists i :: 0 <= i < |dir| && dir[i].name == n && NeedsUpdate(dir[i], local)
    ensures r == [] <==> forall i :: 0 <= i < |dir| ==> !NeedsUpdate(dir[i], local)
    ensures |r| <= |dir|
  {
    if dir == [] then []
    else
      var rest := SelectedNames(dir[1..], local);
      assert forall i :: 0 <= i < |dir| - 1 ==> dir[1..][i] == dir[i + 1];
      if NeedsUpdate(dir[0], local) then [dir[0].name] + rest else rest
  }

  /** What a peer does with one file request: refuse the connection (the
      connect or the request send fails), or deliver a sequence of reads,
      after which the connection either closes in order (`reset` false:
      every further read is empty) or breaks (`reset` true: the next read
      raises). */
  datatype PeerStream = Refused | Stream(pieces: seq<seq<byte>>, reset: bool)

  /** The peers' answers, by requested file name and peer address. */
  type Peers = (string, string, int) -> PeerStream

  /** The shared directory after one fetch, and whether the round may go on. */
  datatype Step = Step(fs: FileSystem, ok: bool)

  /** One fetch of `e`: a refused connection touches nothing and aborts; a
      stream truncates the file and writes every read before the first empty
      one; a stream that breaks before an empty read aborts with the partial
      file left stamped `now`; otherwise the file gets the tracker's mtime. */
  function Retrieved(fs: FileSystem, e: DirEntry, stream: PeerStream, now: int): (s: Step)
    ensures s.ok ==> stream.Stream? && s.fs == fs[e.name := FileEntry(Received(stream.pieces), e.mtime)]
    ensures !s.ok ==> forall n :: n != e.name ==> (n in s.fs <==> n in fs) && (n in fs ==> s.fs[n] == fs[n])
  {
    match stream
    case Refused => Step(fs, false)
    case Stream(pieces, reset) =>
      var body := Received(pieces);
      if reset && FirstEmpty(pieces) == |pieces| then Step(fs[e.name := FileEntry(body, now)], false)
      else Step(fs[e.name := FileEntry(body, e.mtime)], true)
  }

  /** A peer that sends a file in slices and then closes the connection
      delivers exactly that file, whatever reads the stream arrives in: the
      fetch completes and the local copy has the sender's bytes and the
      tracker's mtime. */
  lemma ServedFileArrives(fs: FileSystem, e: DirEntry, chunks: seq<seq<byte>>, pieces: seq<seq<byte>>,
                          content: seq<byte>, now: int)
    requires ChunkedAs(chunks, content, BufferSize)
    requires forall k :: 0 <= k < |pieces| ==> pieces[k] != []
    requires Flatten(pieces) == Flatten(chunks)
    ensures Retrieved(fs, e, Stream(pieces + [[]], false), now) == Step(fs[e.name := FileEntry(content, e.mtime)], true)
  {
    ReceiveReads(pieces, content);
  }

  /** The result of passing over a directory: the shared directory, the
      names requested from peers in order, and whether every fetch completed. */
  datatype Applied = Applied(fs: FileSystem, attempted: seq<string>, ok: bool)

  /** The fetch loop of a round over `dir`, stopping at the first fetch that fails. */
  function Apply(fs: FileSystem, dir: Directory, local: map<string, int>, fetch: Peers, now: int): (r: Applied)
    ensures r.ok ==> r.attempted == SelectedNames(dir, local)
    ensures |r.attempted| <= |dir|
    decreases dir
  {
    if dir == [] then Applied(fs, [], true)
    else
      var e := dir[0];
      if !NeedsUpdate(e, local) then Apply(fs, dir[1..], local, fetch, now)
      else
        var s := Retrieved(fs, e, fetch(e.name, e.ip, e.port), now);
        if !s.ok then Applied(s.fs, [e.name], false)
        else
          var rest := Apply(s.fs, dir[1..], local, fetch, now);
          Applied(rest.fs, [e.name] + rest.attempted, rest.ok)
  }

  /** A pass that has already requested `attempted` and goes on with `rest`. */
  function After(attempted: seq<string>, rest: Applied): Applied {
    Applied(rest.fs, attempted + rest.attempted, rest.ok)
  }

  /** Passing over an entry that is not selected leaves the pass's outcome as it was. */
  lemma SkipStep(whole: Applied, attempted: seq<string>, fs: FileSystem, dir: Directory, k: nat,
                 local: map<string, int>, fetch: Peers, now: int)
    requires k < |dir| && !NeedsUpdate(dir[k], local)
    requires whole == After(attempted, Apply(fs, dir[k..], local, fetch, now))
    ensures whole == After(attempted, Apply(fs, dir[k + 1..], local, fetch, now))
  {
    assert dir[k..][0] == dir[k] && dir[k..][1..] == dir[k + 1..];
  }

  /** Fetching a selected entry: a failed fetch ends the pass with the entry
      as its last request; a completed one goes on with the rest of the directory. */
  lemma FetchStep(whole: Applied, attempted: seq<string>, fs: FileSystem, dir: Directory, k: nat,
                  local: map<string, int>, fetch: Peers, now: int)
    requires k < |dir| && NeedsUpdate(dir[k], local)
    requires whole == After(attempted, Apply(fs, dir[k..], local, fetch, now))
    ensures var e := dir[k]; var s := Retrieved(fs, e, fetch(e.name, e.ip, e.port), now);
      if s.ok then whole == After(attempted + [e.name], Apply(s.fs, dir[k + 1..], local, fetch, now))
      else whole == Applied(s.fs, attempted + [e.name], false)
  {
    var e := dir[k];
    assert dir[k..][0] == e && dir[k..][1..] == dir[k + 1..];
    var s := Retrieved(fs, e, fetch(e.name, e.ip, e.port), now);
    if s.ok {
      var rest := Apply(s.fs, dir[k + 1..], local, fetch, now);
      assert attempted + ([e.name] + rest.attempted) == attempted + [e.name] + rest.attempted;
    }
  }

  /** What a completed fetch of `e` leaves in the shared directory. */
  function Delivered(e: DirEntry, fetch: Peers): FileEntry {
    match fetch(e.name, e.ip, e.port)
    case Refused => FileEntry([], e.mtime)
    case Stream(pieces, _) => FileEntry(Received(pieces), e.mtime)
  }

  /** The worked case of the sync rule: with `a.txt` at mtime 10 locally,
      a directory offering `a.txt` at 20 and `b.txt` at 5 fetches both,
      the first because it is newer and the second because it is missing. */
  lemma SelectionExample()
    ensures SelectedNames([DirEntry("a.txt", 20, "10.0.0.5", 9000), DirEntry("b.txt", 5, "10.0.0.5", 9000)],
                          map["a.txt" := 10]) == ["a.txt", "b.txt"]
  {
  }

  /** A pass over the directory changes only selected files: every other
      name keeps its presence and its value. */
  lemma {:induction false} ApplyFrame(fs: FileSystem, dir: Directory, local: map<string, int>, fetch: Peers, now: int)
    ensures var r := Apply(fs, dir, local, fetch, now);
      forall n :: n !in SelectedNames(dir, local) ==>
        (n in r.fs <==> n in fs) && (n in fs ==> r.fs[n] == fs[n])
    decreases dir
  {
    if dir != [] {
      var e, tail := dir[0], dir[1..];
      assert forall i :: 1 <= i < |dir| ==> dir[i] == tail[i - 1];
      if !NeedsUpdate(e, local) {
        ApplyFrame(fs, tail, local, fetch, now);
      } else {
        var s := Retrieved(fs, e, fetch(e.name, e.ip, e.port), now);
        if s.ok {
          ApplyFrame(s.fs, tail, local, fetch, now);
        }
      }
    }
  }

  /** When a pass completes over a directory that has each name once, every
      selected file got a stream and holds what its peer sent before
      closing, stamped with the tracker's mtime. */
  lemma {:induction false} ApplyDelivers(fs: FileSystem, dir: Directory, local: map<string, int>, fetch: Peers, now: int)
    ensures var r := Apply(fs, dir, local, fetch, now);
      r.ok && UniqueNames(dir) ==>
        forall i :: 0 <= i < |dir| && NeedsUpdate(dir[i], local) ==>
          fetch(dir[i].name, dir[i].ip, dir[i].port).Stream? &&
          dir[i].name in r.fs && r.fs[dir[i].name] == Delivered(dir[i], fetch)
    decreases dir
  {
    if dir != [] {
      var e, tail := dir[0], dir[1..];
      assert forall i :: 1 <= i < |dir| ==> dir[i] == tail[i - 1];
      if !NeedsUpdate(e, local) {
        ApplyDelivers(fs, tail, local, fetch, now);
        assert UniqueNames(dir) ==> UniqueNames(tail);
      } else {
        var s := Retrieved(fs, e, fetch(e.name, e.ip, e.port), now);
        if s.ok {
          ApplyDelivers(s.fs, tail, local, fetch, now);
          if UniqueNames(dir) {
            assert UniqueNames(tail);
            assert e.name !in SelectedNames(tail, local);
            ApplyFrame(s.fs, tail, local, fetch, now);
          }
        }
      }
    }
  }

  /** When nothing is selected, a pass over the directory requests nothing and changes nothing. */
  lemma {:induction false} ApplyNothingSelected(fs: FileSystem, dir: Directory, local: map<string, int>, fetch: Peers, now: int)
    requires SelectedNames(dir, local) == []
    ensures Apply(fs, dir, local, fetch, now) == Applied(fs, [], true)
  {
    if dir != [] {
      assert forall i :: 0 <= i < |dir| - 1 ==> dir[1..][i] == dir[i + 1];
      ApplyNothingSelected(fs, dir[1..], local, fetch, now);
    }
  }

  /** A completed pass over a directory of kept names leaves every file
      name with a dot, so the next inventory scan succeeds. */
  lemma ApplyKeepsDots(fs: FileSystem, dir: Directory, local: map<string, int>, fetch: Peers, now: int)
    requires forall n :: n in fs ==> '.' in n
    requires forall i :: 0 <= i < |dir| ==> Kept(dir[i].name)
    ensures forall n :: n in Apply(fs, dir, local, fetch, now).fs ==> '.' in n
  {
    var fs' := Apply(fs, dir, local, fetch, now).fs;
    ApplyFrame(fs, dir, local, fetch, now);
    forall n | n in fs' ensures '.' in n {
      if n in SelectedNames(dir, local) {
        var j :| 0 <= j < |dir| && dir[j].name == n && NeedsUpdate(dir[j], local);
        KeptHasDot(n);
      }
    }
  }

  /** Idempotence of the sync rule: after a completed pass over a directory
      whose names are kept by the inventory, rebuilding the local table from
      the new directory contents selects nothing from the same directory. */
  lemma ReapplySelectsNothing(names: seq<string>, fs: FileSystem, inv: seq<FileRecord>,
                              dir: Directory, fetch: Peers, now: int, names': seq<string>)
    requires IsListing(names, fs) && KeptRecords(Listing(names, fs)) == Some(inv)
    requires UniqueNames(dir) && forall i :: 0 <= i < |dir| ==> Kept(dir[i].name)
    requires Apply(fs, dir, LocalMap(inv), fetch, now).ok
    requires IsListing(names', Apply(fs, dir, LocalMap(inv), fetch, now).fs)
    ensures var fs' := Apply(fs, dir, LocalMap(inv), fetch, now).fs;
      KeptRecords(Listing(names', fs')).Some? &&
      SelectedNames(dir, LocalMap(KeptRecords(Listing(names', fs')).value)) == []
  {
    var fs' := Apply(fs, dir, LocalMap(inv), fetch, now).fs;
    RescanSucceeds(names, fs, inv, dir, fetch, now, names');
    var inv' := KeptRecords(Listing(names', fs')).value;
    forall i | 0 <= i < |dir| ensures !NeedsUpdate(dir[i], LocalMap(inv')) {
      EntryFresh(names, fs, inv, dir, fetch, now, names', inv', i);
    }
  }

  /** After a completed pass over kept names, the next inventory scan succeeds. */
  lemma RescanSucceeds(names: seq<string>, fs: FileSystem, inv: seq<FileRecord>,
                       dir: Directory, fetch: Peers, now: int, names': seq<string>)
    requires IsListing(names, fs) && KeptRecords(Listing(names, fs)) == Some(inv)
    requires forall i :: 0 <= i < |dir| ==> Kept(dir[i].name)
    requires IsListing(names', Apply(fs, dir, LocalMap(inv), fetch, now).fs)
    ensures KeptRecords(Listing(names', Apply(fs, dir, LocalMap(inv), fetch, now).fs)).Some?
  {
    var local := LocalMap(inv);
    ListedNamesHaveDots(names, fs);
    ApplyKeepsDots(fs, dir, local, fetch, now);
    DottedNamesListed(names', Apply(fs, dir, local, fetch, now).fs);
  }

  /** One kept directory entry, against the table rebuilt after a completed pass. */
  lemma EntryFresh(names: seq<string>, fs: FileSystem, inv: seq<FileRecord>,
                   dir: Directory, fetch: Peers, now: int, names': seq<string>, inv': seq<FileRecord>, i: nat)
    requires IsListing(names, fs) && KeptRecords(Listing(names, fs)) == Some(inv)
    requires i < |dir| && UniqueNames(dir) && Kept(dir[i].name)
    requires Apply(fs, dir, LocalMap(inv), fetch, now).ok
    requires var fs' := Apply(fs, dir, LocalMap(inv), fetch, now).fs;
      IsListing(names', fs') && KeptRecords(Listing(names', fs')) == Some(inv')
    ensures !NeedsUpdate(dir[i], LocalMap(inv'))
  {
    var local, local' := LocalMap(inv), LocalMap(inv');
    var fs' := Apply(fs, dir, local, fetch, now).fs;
    var n := dir[i].name;
    assert n in fs' ==> n in local' && local'[n] == fs'[n].mtime by {
      LocalMapOfListing(names', fs', inv');
    }
    assert n in local ==> n in fs && local[n] == fs[n].mtime by {
      LocalMapOfListing(names, fs, inv);
    }
    EntryUpToDate(fs, dir, local, fetch, now, local', i);
  }

  /** One directory entry after a completed pass: its local copy is now at
      least as new as the tracker's. */
  lemma EntryUpToDate(fs: FileSystem, dir: Directory, local: map<string, int>, fetch: Peers, now: int,
                      local': map<string, int>, i: nat)
    requires i < |dir| && UniqueNames(dir)
    requires Apply(fs, dir, local, fetch, now).ok
    requires dir[i].name in local ==> dir[i].name in fs && local[dir[i].name] == fs[dir[i].name].mtime
    requires var fs' := Apply(fs, dir, local, fetch, now).fs;
      dir[i].name in fs' ==> dir[i].name in local' && local'[dir[i].name] == fs'[dir[i].name].mtime
    ensures !NeedsUpdate(dir[i], local')
  {
    var e := dir[i];
    var fs' := Apply(fs, dir, local, fetch, now).fs;
    if NeedsUpdate(e, local) {
      ApplyDelivers(fs, dir, local, fetch, now);
      assert e.name in fs' && fs'[e.name].mtime == e.mtime;
    } else {
      ApplyFrame(fs, dir, local, fetch, now);
      assert e.name !in SelectedNames(dir, local);
      assert e.name in fs' && fs'[e.name] == fs[e.name];
    }
  }

  /** A directory entry whose name the inventory filter drops (a dotted
      name such as `x.py`) is never in the local table, so every round whose
      scan succeeds selects it again, however recent the local copy is. */
  lemma ExcludedNameRefetched(names: seq<string>, fs: FileSystem, inv: seq<FileRecord>, e: DirEntry)
    requires IsListing(names, fs) && KeptRecords(Listing(names, fs)) == Some(inv)
    requires !Kept(e.name)
    ensures NeedsUpdate(e, LocalMap(inv))
  {
    LocalMapOfListing(names, fs, inv);
  }

  /** `x.py` is such a name: its second component is "py". */
  lemma PyNameExcluded()
    ensures !Kept("x.py")
  {
    SplitOfJoin(["x", "py"], '.');
    assert Join(["x", "py"], '.') == "x.py";
  }

  /** A completed pass over a directory with a dotless entry leaves a file
      of that name: the local table, built from a scan, holds only dotted
      names, so the entry is selected and fetched. */
  lemma DotlessEntryFetched(names: seq<string>, fs: FileSystem, inv: seq<FileRecord>,
                            dir: Directory, fetch: Peers, now: int, i: nat)
    requires IsListing(names, fs) && KeptRecords(Listing(names, fs)) == Some(inv)
    requires UniqueNames(dir) && i < |dir| && '.' !in dir[i].name
    requires Apply(fs, dir, LocalMap(inv), fetch, now).ok
    ensures dir[i].name in Apply(fs, dir, LocalMap(inv), fetch, now).fs
  {
    var local := LocalMap(inv);
    var d := dir[i];
    assert NeedsUpdate(d, local) by {
      LocalMapOfListing(names, fs, inv);
      if d.name in local {
        KeptHasDot(d.name);
      }
    }
    ApplyDelivers(fs, dir, local, fetch, now);
  }
}
