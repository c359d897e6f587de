/**
 * The three things the engine keeps on disk: the log, the MANIFEST and the table files.
 * Each operation also records, in a ghost trace, every state a process crash could leave behind while
 * it runs: a write may stop after any byte, a rename, a truncation to zero and a removal are atomic.
 */
module FileSystem {
  import opened Bytes

  type Files = map<bytes, bytes>

  datatype Image = Image(wal: bytes, manifest: Option<bytes>, files: Files)

  /** The states passed while s is appended to the log. */
  function AppendTrace(d: Image, s: bytes): (t: seq<Image>)
    ensures |t| == |s|
  {
    seq(|s|, j requires 0 <= j < |s| => d.(wal := d.wal + s[..j + 1]))
  }

  /** The states passed while the file is created empty, or cut to nothing, and then filled with s. */
  function WriteTrace(d: Image, name: bytes, s: bytes): (t: seq<Image>)
    ensures |t| == |s| + 1
  {
    seq(|s| + 1, j requires 0 <= j <= |s| => d.(files := d.files[name := s[..j]]))
  }

  class Disk {
    var wal: bytes
    var manifest: Option<bytes>
    var files: Files
    ghost var trace: seq<Image>

    function Now(): Image
      reads this
    {
      Image(wal, manifest, files)
    }

    constructor (image: Image)
      ensures Now() == image && trace == []
    {
      wal, manifest, files := image.wal, image.manifest, image.files;
      trace := [];
    }

    method AppendWal(s: bytes)
      modifies this
      ensures Now() == old(Now()).(wal := old(wal) + s)
      ensures trace == old(trace) + AppendTrace(old(Now()), s)
    {
      trace := trace + AppendTrace(Now(), s);
      wal := wal + s;
    }

    method TruncateWal()
      modifies this
      ensures Now() == old(Now()).(wal := [])
      ensures trace == old(trace) + [Now()]
    {
      wal := [];
      trace := trace + [Now()];
    }

    method RenameManifest(text: bytes)
      modifies this
      ensures Now() == old(Now()).(manifest := Some(text))
      ensures trace == old(trace) + [Now()]
    {
      manifest := Some(text);
      trace := trace + [Now()];
    }

    method WriteFile(name: bytes, contents: bytes)
      modifies this
      ensures Now() == old(Now()).(files := old(files)[name := contents])
      ensures trace == old(trace) + WriteTrace(old(Now()), name, contents)
    {
      trace := trace + WriteTrace(Now(), name, contents);
      files := files[name := contents];
    }

    method RemoveFile(name: bytes)
      modifies this
      ensures Now() == old(Now()).(files := old(files) - {name})
      ensures trace == old(trace) + [Now()]
    {
      files := files - {name};
      trace := trace + [Now()];
    }
  }
}
