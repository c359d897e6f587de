/** storage.cpp and manifest.cpp: how a table's id becomes its file name and is read back from it. */
module TableNames {
  import opened Bytes
  import opened Text

  const SLASH: byte := 47

  function Prefix(): bytes { Ascii("table_") }

  function Extension(): bytes { Ascii(".sst") }

  function BaseName(id: nat): bytes
  {
    Prefix() + Dec(id) + Extension()
  }

  /** Storage::table_filename */
  function TableName(directory: bytes, id: nat): bytes
  {
    directory + [SLASH] + BaseName(id)
  }

  /** The id rebuild_from_directory takes from a file name: std::stoull on what stands between the fixed parts. */
  function IdOfBase(base: bytes): Option<nat>
  {
    if |base| < 10 || base[..6] != Prefix() || base[|base| - 4..] != Extension() then None
    else match ReadNumber(base[6..|base| - 4])
         case NoNumber => None
         case GotNumber(id, rest) => Some(id)
  }

  /** The same for a path inside the directory. */
  function IdOf(directory: bytes, path: bytes): Option<nat>
  {
    if |path| <= |directory| || path[..|directory|] != directory || path[|directory|] != SLASH then None
    else IdOfBase(path[|directory| + 1..])
  }

  lemma PrefixIs()
    ensures Prefix() == [116, 97, 98, 108, 101, 95]
  {
    assert |"table_"| == 6;
  }

  lemma ExtensionIs()
    ensures Extension() == [46, 115, 115, 116]
  {
    assert |".sst"| == 4;
  }

  lemma FixedParts()
    ensures |Prefix()| == 6 && |Extension()| == 4
    ensures AllIn(Visible, Prefix()) && AllIn(Visible, Extension())
  {
    PrefixIs();
    ExtensionIs();
    hide Prefix, Extension;
  }

  /** Reading the id of a printed name gives the id back. */
  lemma IdOfTableName(directory: bytes, id: nat)
    requires id < TWO_64
    ensures IdOf(directory, TableName(directory, id)) == Some(id)
  {
    hide Prefix, Extension, Dec, ReadNumber;
    FixedParts();
    var base := BaseName(id);
    assert base[6..|base| - 4] == Dec(id) + [];
    ReadWrittenNumber(id, []);
    assert base[..6] == Prefix() && base[|base| - 4..] == Extension();
    var path := TableName(directory, id);
    assert path[..|directory|] == directory && path[|directory| + 1..] == base;
  }

  /** "table_", something that begins like this number, ".sst". */
  predicate IsTableBase(base: bytes, middle: bytes, id: nat)
  {
    && base == [116, 97, 98, 108, 101, 95] + middle + [46, 115, 115, 116]
    && ReadNumber(middle).GotNumber? && ReadNumber(middle).value == id
  }

  lemma BaseHasId(base: bytes, middle: bytes, id: nat)
    requires IsTableBase(base, middle, id)
    ensures IdOfBase(base) == Some(id)
  {
    hide ReadNumber;
    PrefixIs();
    ExtensionIs();
    hide Prefix, Extension;
    assert base[..6] == [116, 97, 98, 108, 101, 95] && base[6..|base| - 4] == middle;
    assert base[|base| - 4..] == [46, 115, 115, 116];
  }

  lemma IdHasBase(base: bytes, id: nat) returns (middle: bytes)
    requires IdOfBase(base) == Some(id)
    ensures IsTableBase(base, middle, id)
  {
    hide ReadNumber;
    PrefixIs();
    ExtensionIs();
    hide Prefix, Extension;
    middle := base[6..|base| - 4];
    assert base == base[..6] + middle + base[|base| - 4..];
  }

  lemma PathSplit(directory: bytes, path: bytes)
    ensures IdOf(directory, path).Some? ==>
              var base := path[|directory| + 1..];
              path == directory + [47] + base && IdOf(directory, path) == IdOfBase(base)
  {
    hide IdOfBase;
    var n := |directory|;
    if IdOf(directory, path).Some? {
      assert path == path[..n] + [path[n]] + path[n + 1..];
    }
  }

  lemma PathJoin(directory: bytes, base: bytes)
    ensures IdOf(directory, directory + [47] + base) == IdOfBase(base)
  {
    hide IdOfBase;
    var path := directory + [47] + base;
    assert path[..|directory|] == directory && path[|directory| + 1..] == base;
  }

  /**
   * A path gives an id if and only if it is a file of the directory whose name is "table_", something that begins
   * like the number, and ".sst".
   */
  lemma IdOfExactly(directory: bytes, path: bytes, id: nat)
    ensures IdOf(directory, path) == Some(id)
            <==> exists base: bytes, middle: bytes :: path == directory + [47] + base && IsTableBase(base, middle, id)
  {
    hide IdOf, IdOfBase, IsTableBase;
    PathSplit(directory, path);
    if IdOf(directory, path) == Some(id) {
      var middle := IdHasBase(path[|directory| + 1..], id);
    }
    if base: bytes, middle: bytes :| path == directory + [47] + base && IsTableBase(base, middle, id) {
      PathJoin(directory, base);
      BaseHasId(base, middle, id);
    }
  }

  lemma TableNameInjective(directory: bytes, i: nat, j: nat)
    requires TableName(directory, i) == TableName(directory, j)
    ensures i == j
  {
    hide Prefix, Extension, Dec;
    FixedParts();
    var a, b := BaseName(i), BaseName(j);
    assert TableName(directory, i)[|directory| + 1..] == a && TableName(directory, j)[|directory| + 1..] == b;
    assert a[6..|a| - 4] == Dec(i) && b[6..|b| - 4] == Dec(j);
    DecInjective(i, j);
  }

  lemma TableNameIsToken(directory: bytes, id: nat)
    requires AllIn(Visible, directory)
    ensures IsToken(TableName(directory, id))
  {
    hide Prefix, Extension, Dec;
    FixedParts();
    DecDigits(id);
  }
}
