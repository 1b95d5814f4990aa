/**
 * The peer's local inventory: the in-memory model of the shared directory,
 * the `get_file_info` filter that turns a directory listing into the
 * records reported to the tracker, and the name-to-mtime table that a sync
 * round builds from those records.
 */
module Inventory {
  import opened Common
  import opened Strings

  /** One inventory record as reported to the tracker: `{'name': .., 'mtime': ..}`. */
  datatype FileRecord = FileRecord(name: string, mtime: int)

  /** A regular file of the shared directory: its bytes and its modification time in whole seconds. */
  datatype FileEntry = FileEntry(content: seq<byte>, mtime: int)

  /** The shared flat directory, by file name. */
  type FileSystem = map<string, FileEntry>

  /** `names` is a directory listing of `fs`: it names every file and nothing else. */
  ghost predicate IsListing(names: seq<string>, fs: FileSystem) {
    forall n :: n in names <==> n in fs
  }

  /** The listing paired with each file's modification time. */
  function Listing(names: seq<string>, fs: FileSystem): (r: seq<FileRecord>)
    requires forall i :: 0 <= i < |names| ==> names[i] in fs
    ensures |r| == |names|
    ensures forall i :: 0 <= i < |r| ==> r[i] == FileRecord(names[i], fs[names[i]].mtime)
  {
    if names == [] then []
    else Listing(names[..|names| - 1], fs) + [FileRecord(names[|names| - 1], fs[names[|names| - 1]].mtime)]
  }

  /** The index of the last occurrence of `c` in `s`, or -1 (Python's `rfind`). */
  function LastIndex(s: string, c: char): (r: int)
    ensures -1 <= r < |s|
    ensures r >= 0 ==> s[r] == c
    ensures forall k :: r < k < |s| ==> s[k] != c
  {
    if s == [] then -1
    else if s[|s| - 1] == c then |s| - 1
    else LastIndex(s[..|s| - 1], c)
  }

  /** The extension part of `os.path.splitext` for a name without '/': from
      the last '.' on, provided some character before that dot is not a dot;
      otherwise empty. */
  function Extension(name: string): (ext: string)
    ensures ext == [] || (ext[0] == '.' && |ext| <= |name| && ext == name[|name| - |ext|..])
  {
    var d := LastIndex(name, '.');
    if d >= 0 && exists k :: 0 <= k < d && name[k] != '.' then name[d..] else []
  }

  /** The listing filter on `splitext` compares the extension (empty or
      starting with '.') against "docx" and "py", so it never drops a name. */
  lemma ExtensionNeverExcluded(name: string)
    ensures Extension(name) != "docx" && Extension(name) != "py"
  {
  }

  /** Whether the inventory keeps a file: its second '.'-separated component
      is neither "docx" nor "py". A name without a dot has no second component. */
  predicate Kept(name: string) {
    var p := Split(name, '.');
    |p| >= 2 && p[1] != "docx" && p[1] != "py"
  }

  lemma KeptHasDot(name: string)
    requires Kept(name)
    ensures '.' in name
  {
  }

  /** Specification of `get_file_info`: the records whose names are kept, in
      listing order and unchanged; None (the IndexError the source raises)
      when some name has no dot. */
  function KeptRecords(listing: seq<FileRecord>): Option<seq<FileRecord>> {
    if listing == [] then Some([])
    else
      var last := listing[|listing| - 1];
      match KeptRecords(listing[..|listing| - 1])
      case None => None
      case Some(rest) =>
        if '.' !in last.name then None
        else Some(if Kept(last.name) then rest + [last] else rest)
  }

  /** The inventory exists exactly when every name has a dot, and then holds
      exactly the listed records whose names are kept. */
  lemma {:induction false} KeptRecordsMeaning(listing: seq<FileRecord>)
    ensures KeptRecords(listing).Some? <==> forall i :: 0 <= i < |listing| ==> '.' in listing[i].name
    ensures KeptRecords(listing).Some? ==>
      forall x :: x in KeptRecords(listing).value <==> x in listing && Kept(x.name)
    ensures KeptRecords(listing).Some? ==> |KeptRecords(listing).value| <= |listing|
  {
    if listing != [] {
      var init, last := listing[..|listing| - 1], listing[|listing| - 1];
      assert listing == init + [last];
      KeptRecordsMeaning(init);
    }
  }

  /** The filter distributes over concatenation of listings, so the kept
      records keep their relative order. */
  lemma {:induction false} KeptRecordsAppend(a: seq<FileRecord>, b: seq<FileRecord>)
    ensures KeptRecords(a + b) ==
      if KeptRecords(a).Some? && KeptRecords(b).Some?
      then Some(KeptRecords(a).value + KeptRecords(b).value)
      else None
  {
    if b == [] {
      assert a + b == a;
      if KeptRecords(a).Some? {
        assert KeptRecords(a).value + [] == KeptRecords(a).value;
      }
    } else {
      var init, last := b[..|b| - 1], b[|b| - 1];
      assert (a + b)[..|a + b| - 1] == a + init;
      assert (a + b)[|a + b| - 1] == last;
      KeptRecordsAppend(a, init);
      var ka, ki := KeptRecords(a), KeptRecords(init);
      if ka.Some? && ki.Some? && '.' in last.name && Kept(last.name) {
        assert ka.value + ki.value + [last] == ka.value + (ki.value + [last]);
      }
    }
  }

  /** One name without a dot makes the whole scan fail. */
  lemma DotlessFails(listing: seq<FileRecord>, i: nat)
    requires i < |listing| && '.' !in listing[i].name
    ensures KeptRecords(listing) == None
  {
    KeptRecordsMeaning(listing);
  }

  /** A directory holding a file without a dot in its name cannot be scanned. */
  lemma DotlessScanFails(names: seq<string>, fs: FileSystem, n: string)
    requires IsListing(names, fs) && n in fs && '.' !in n
    ensures KeptRecords(Listing(names, fs)) == None
  {
    var k :| 0 <= k < |names| && names[k] == n;
    DotlessFails(Listing(names, fs), k);
  }

  /** `get_file_info` over a listing: walk the records in order, fail at a
      name without a dot, skip names whose second component is "docx" or
      "py", and collect the rest. */
  method GetFileInfo(listing: seq<FileRecord>) returns (r: Option<seq<FileRecord>>)
    ensures r == KeptRecords(listing)
  {
    var fileArr := [];
    for i := 0 to |listing|
      invariant KeptRecords(listing[..i]) == Some(fileArr)
    {
      var f := listing[i];
      assert listing[..i + 1][..i] == listing[..i] && listing[..i + 1][i] == f;
      if '.' !in f.name {
        DotlessFails(listing, i);
        return None;
      }
      var parts := Split(f.name, '.');
      if parts[1] == "docx" || parts[1] == "py" {
        continue;
      }
      fileArr := fileArr + [f];
    }
    assert listing[..|listing|] == listing;
    return Some(fileArr);
  }

  /** The `local` table of a sync round: each record's name mapped to its
      mtime, a later record with the same name overriding an earlier one, so
      every name holds the mtime of its last record. */
  function LocalMap(inv: seq<FileRecord>): (r: map<string, int>)
    ensures forall x :: x in inv ==> x.name in r
    ensures forall n :: n in r ==> exists x :: x in inv && x.name == n && x.mtime == r[n]
    ensures inv != [] ==> r[inv[|inv| - 1].name] == inv[|inv| - 1].mtime
  {
    if inv == [] then map[]
    else
      var init, last := inv[..|inv| - 1], inv[|inv| - 1];
      assert inv == init + [last];
      LocalMap(init)[last.name := last.mtime]
  }

  /** The last record with a given name is the one whose mtime the table keeps. */
  lemma {:induction false} LocalMapLastWins(inv: seq<FileRecord>, i: nat)
    requires i < |inv| && forall j :: i < j < |inv| ==> inv[j].name != inv[i].name
    ensures inv[i].name in LocalMap(inv) && LocalMap(inv)[inv[i].name] == inv[i].mtime
  {
    var init := inv[..|inv| - 1];
    if i < |inv| - 1 {
      assert init[i] == inv[i];
      assert forall j :: i < j < |init| ==> init[j] == inv[j];
      LocalMapLastWins(init, i);
    }
  }

  /** The loop that fills the `local` table from the inventory. */
  method BuildLocalMap(inv: seq<FileRecord>) returns (local: map<string, int>)
    ensures local == LocalMap(inv)
  {
    local := map[];
    for i := 0 to |inv|
      invariant local == LocalMap(inv[..i])
    {
      assert inv[..i + 1][..i] == inv[..i];
      local := local[inv[i].name := inv[i].mtime];
    }
    assert inv[..|inv|] == inv;
  }

  /** Built from a listing of the directory, the `local` table holds exactly
      the kept files, each with its modification time on disk. */
  lemma LocalMapOfListing(names: seq<string>, fs: FileSystem, inv: seq<FileRecord>)
    requires IsListing(names, fs)
    requires KeptRecords(Listing(names, fs)) == Some(inv)
    ensures forall n :: n in LocalMap(inv) <==> n in fs && Kept(n)
    ensures forall n :: n in LocalMap(inv) ==> LocalMap(inv)[n] == fs[n].mtime
  {
    KeptFilesInLocalMap(names, fs, inv);
    LocalMapInFiles(names, fs, inv);
  }

  lemma KeptFilesInLocalMap(names: seq<string>, fs: FileSystem, inv: seq<FileRecord>)
    requires IsListing(names, fs)
    requires KeptRecords(Listing(names, fs)) == Some(inv)
    ensures forall n :: n in fs && Kept(n) ==> n in LocalMap(inv)
  {
    var listing := Listing(names, fs);
    KeptRecordsMeaning(listing);
    forall n | n in fs && Kept(n) ensures n in LocalMap(inv) {
      var i :| 0 <= i < |names| && names[i] == n;
      assert listing[i] in inv;
    }
  }

  lemma LocalMapInFiles(names: seq<string>, fs: FileSystem, inv: seq<FileRecord>)
    requires forall i :: 0 <= i < |names| ==> names[i] in fs
    requires KeptRecords(Listing(names, fs)) == Some(inv)
    ensures forall n :: n in LocalMap(inv) ==> n in fs && Kept(n) && LocalMap(inv)[n] == fs[n].mtime
  {
    var listing := Listing(names, fs);
    var local := LocalMap(inv);
    KeptRecordsMeaning(listing);
    forall n | n in local ensures n in fs && Kept(n) && local[n] == fs[n].mtime {
      var x :| x in inv && x.name == n && x.mtime == local[n];
      assert x in listing;
      var i :| 0 <= i < |listing| && listing[i] == x;
    }
  }

  /** A directory whose inventory scan succeeds has a dot in every file name. */
  lemma ListedNamesHaveDots(names: seq<string>, fs: FileSystem)
    requires IsListing(names, fs) && KeptRecords(Listing(names, fs)).Some?
    ensures forall n :: n in fs ==> '.' in n
  {
    var listing := Listing(names, fs);
    KeptRecordsMeaning(listing);
    forall n | n in fs ensures '.' in n {
      var k :| 0 <= k < |names| && names[k] == n;
      assert listing[k].name == n;
    }
  }

  /** The inventory scan of a directory whose file names all have a dot succeeds. */
  lemma DottedNamesListed(names: seq<string>, fs: FileSystem)
    requires IsListing(names, fs) && forall n :: n in fs ==> '.' in n
    ensures KeptRecords(Listing(names, fs)).Some?
  {
    var listing := Listing(names, fs);
    KeptRecordsMeaning(listing);
    assert forall i :: 0 <= i < |listing| ==> listing[i].name == names[i] && names[i] in fs;
  }
}
