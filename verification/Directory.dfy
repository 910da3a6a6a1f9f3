/**
  The directory that finalised files are renamed into (stream_server/src/compressed_recorder.c,
  484-562). A name is the second of the segment's start and the extension of its codec; renaming
  replaces a file that already has the name.
 */
module Directory {
  import opened Bytes
  import opened SegmentSpec

  datatype Name = Name(second: nat, codec: nat)

  datatype File = File(name: Name, bytes: seq<byte>)

  function NameFor(codec: nat, seg: Segment): Name {
    Name(seg.start / 1000, codec)
  }

  function FileFor(codec: nat, seg: Segment): File {
    File(NameFor(codec, seg), FileOf(codec, seg))
  }

  /** The files of an epoch, in the order in which they were finalised. */
  function FilesOf(codec: nat, closed: seq<Segment>): seq<File> {
    if closed == [] then [] else FilesOf(codec, closed[..|closed| - 1]) + [FileFor(codec, closed[|closed| - 1])]
  }

  function FilesOfAll(past: seq<Epoch>): seq<File> {
    if past == [] then []
    else
      var last := past[|past| - 1];
      FilesOfAll(past[..|past| - 1]) + FilesOf(last.codec, last.closed)
  }

  lemma FilesOfSnoc(codec: nat, closed: seq<Segment>, seg: Segment)
    ensures FilesOf(codec, closed + [seg]) == FilesOf(codec, closed) + [FileFor(codec, seg)]
  {
    assert (closed + [seg])[..|closed|] == closed;
  }

  lemma FilesOfAllSnoc(past: seq<Epoch>, e: Epoch)
    ensures FilesOfAll(past + [e]) == FilesOfAll(past) + FilesOf(e.codec, e.closed)
  {
    assert (past + [e])[..|past|] == past;
  }

  /** The directory after these files have been renamed into it, one after the other. */
  function Renamed(files: seq<File>): map<Name, seq<byte>> {
    if files == [] then map[]
    else
      var last := files[|files| - 1];
      Renamed(files[..|files| - 1])[last.name := last.bytes]
  }

  lemma RenamedSnoc(files: seq<File>, f: File)
    ensures Renamed(files + [f]) == Renamed(files)[f.name := f.bytes]
  {
    assert (files + [f])[..|files|] == files;
  }

  ghost predicate Distinct(files: seq<File>) {
    forall i, j :: 0 <= i < j < |files| ==> files[i].name != files[j].name
  }

  /** Every file is there, with its own bytes, and nothing else is. */
  ghost predicate OnDisk(dir: map<Name, seq<byte>>, files: seq<File>) {
    && |dir| == |files|
    && forall i :: 0 <= i < |files| ==> files[i].name in dir && dir[files[i].name] == files[i].bytes
  }

  lemma {:induction false} RenamedHas(files: seq<File>, i: nat)
    requires i < |files|
    ensures files[i].name in Renamed(files)
    ensures (forall j :: i < j < |files| ==> files[j].name != files[i].name) ==>
      Renamed(files)[files[i].name] == files[i].bytes
  {
    var n := |files| - 1;
    if i < n {
      RenamedHas(files[..n], i);
      assert forall j :: i < j < n ==> files[..n][j] == files[j];
    }
  }

  lemma {:induction false} NoStrangers(files: seq<File>, name: Name)
    requires name in Renamed(files)
    ensures exists i :: 0 <= i < |files| && files[i].name == name
  {
    var n := |files| - 1;
    if files[n].name != name {
      NoStrangers(files[..n], name);
      var i :| 0 <= i < n && files[..n][i].name == name;
      assert files[i].name == name;
    }
  }

  lemma InsertSize(dir: map<Name, seq<byte>>, name: Name, bytes: seq<byte>)
    ensures |dir[name := bytes]| == if name in dir then |dir| else |dir| + 1
  {
  }

  /** A name is taken exactly when a file already has it. */
  lemma TakenIff(files: seq<File>, name: Name)
    ensures name in Renamed(files) <==> exists i :: 0 <= i < |files| && files[i].name == name
  {
    if name in Renamed(files) {
      NoStrangers(files, name);
    } else {
      forall i | 0 <= i < |files| ensures files[i].name != name {
        RenamedHas(files, i);
      }
    }
  }

  lemma {:induction false} DirectorySize(files: seq<File>)
    ensures |Renamed(files)| <= |files|
    ensures |Renamed(files)| == |files| <==> Distinct(files)
  {
    if files == [] {
      assert |Renamed([])| == 0;
    } else {
      var front := files[..|files| - 1];
      var last := files[|files| - 1];
      DirectorySize(front);
      assert files == front + [last];
      hide Renamed, Distinct;
      RenamedSnoc(front, last);
      DistinctSnoc(front, last);
      TakenIff(front, last.name);
      InsertSize(Renamed(front), last.name, last.bytes);
    }
  }

  lemma DistinctSnoc(front: seq<File>, last: File)
    ensures Distinct(front + [last]) <==>
      Distinct(front) && forall i :: 0 <= i < |front| ==> front[i].name != last.name
  {
    var files := front + [last];
    assert forall i :: 0 <= i < |front| ==> files[i] == front[i];
    assert files[|front|] == last;
  }

  /** All finalised files are in the directory, each with its own bytes, exactly when no name was used twice. */
  lemma OnDiskIff(files: seq<File>)
    ensures OnDisk(Renamed(files), files) <==> Distinct(files)
  {
    DirectorySize(files);
    if Distinct(files) {
      forall i | 0 <= i < |files|
        ensures files[i].name in Renamed(files) && Renamed(files)[files[i].name] == files[i].bytes
      {
        RenamedHas(files, i);
      }
    }
  }
}
