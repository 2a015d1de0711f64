/** MCMapData (MCMapData.cpp): a grid of colour IDs stored flat and
    row-major, and its file format: one byte per cell, no header. */
module MapData {
  import opened Numeric
  import opened Wrappers

  /** The map size the program uses. */
  const DefaultWidth: nat := 128
  const DefaultHeight: nat := 128

  function Min(a: int, b: int): int
  {
    if a <= b then a else b
  }

  /** The bytes SaveToFile writes for a sequence of cells: each ID cast to
      `char`, which keeps it modulo 256. */
  function Encode(ids: seq<int>): (r: seq<byte>)
    ensures |r| == |ids|
  {
    seq(|ids|, i requires 0 <= i < |ids| => ToByte(ids[i]))
  }

  /** The cells LoadFromFile reads for `count` requested cells: byte after
      byte until `count` cells are read or the bytes run out. */
  function Decode(bytes: seq<byte>, count: nat): (r: seq<int>)
    ensures |r| == Min(|bytes|, count)
  {
    seq(Min(|bytes|, count), i requires 0 <= i < Min(|bytes|, count) => bytes[i] as int)
  }

  /** Every ID fits in a byte. */
  ghost predicate ByteIds(ids: seq<int>)
  {
    forall i :: 0 <= i < |ids| ==> 0 <= ids[i] < 256
  }

  /** Saving a grid whose IDs fit in a byte and loading the bytes back with
      the same size reproduces the IDs. */
  lemma DecodeEncode(ids: seq<int>)
    requires ByteIds(ids)
    ensures Decode(Encode(ids), |ids|) == ids
  {
    var r := Decode(Encode(ids), |ids|);
    assert |r| == |ids|;
    forall i | 0 <= i < |ids|
      ensures r[i] == ids[i]
    {
      assert Encode(ids)[i] as int == ids[i];
    }
  }

  /** Loading reads at most `count` cells, each a value in [0, 255], cell i
      being byte i; a stream shorter than `count` gives a grid of exactly its
      length, with no cells filled in for the missing bytes. */
  lemma DecodeCells(bytes: seq<byte>, count: nat)
    ensures |Decode(bytes, count)| <= count
    ensures ByteIds(Decode(bytes, count))
    ensures forall i :: 0 <= i < |Decode(bytes, count)| ==> Decode(bytes, count)[i] == bytes[i] as int
    ensures |bytes| < count ==> |Decode(bytes, count)| == |bytes|
    ensures count <= |bytes| ==> Encode(Decode(bytes, count)) == bytes[..count]
  {
    var r := Decode(bytes, count);
    if count <= |bytes| {
      forall i | 0 <= i < count
        ensures Encode(r)[i] == bytes[i]
      {
        assert r[i] == bytes[i] as int;
      }
    }
  }

  class MCMapData {
    var width: nat
    var height: nat
    var colourID: seq<int>

    /** The grid holds a cell for every position. A fresh grid does; a grid
        loaded from a short file does not. */
    ghost predicate Complete()
      reads this
    {
      |colourID| == width * height
    }

    /** `MCMapData(width, height)`: width * height cells, all 0. */
    constructor (width: nat, height: nat)
      ensures Complete() && this.width == width && this.height == height
      ensures colourID == seq(width * height, _ => 0)
    {
      var ids: seq<int> := [];
      var i := 0;
      while i < width * height
        invariant 0 <= i <= width * height
        invariant ids == seq(i, _ => 0)
      {
        ids := ids + [0];
        i := i + 1;
      }
      this.width := width;
      this.height := height;
      colourID := ids;
    }

    /** `Get(x, y)`: the cell at flat index x + y * width. */
    function Get(x: int, y: int): int
      reads this
      requires 0 <= x + y * width < |colourID|
    {
      colourID[x + y * width]
    }

    /** `Set(x, y, val)`: afterwards Get(x, y) is val and every other cell is
        unchanged. */
    method Set(x: int, y: int, val: int)
      requires 0 <= x + y * width < |colourID|
      modifies this
      ensures width == old(width) && height == old(height)
      ensures |colourID| == old(|colourID|) && Get(x, y) == val
      ensures forall i :: 0 <= i < |colourID| && i != x + y * width ==> colourID[i] == old(colourID[i])
      ensures colourID == old(colourID)[x + y * width := val]
    {
      colourID := colourID[x + y * width := val];
    }

    /** `LoadFromFile(filename, width, height)`. `file` is the content of the
        file, or None when it cannot be opened: then nothing changes and the
        result is false. Otherwise the grid takes the requested size and the
        cells read until width * height cells are read or a read fails. */
    method LoadFromFile(file: Option<seq<byte>>, width: nat, height: nat) returns (ok: bool)
      modifies this
      ensures ok == file.Some?
      ensures !ok ==> unchanged(this)
      ensures ok ==> this.width == width && this.height == height
      ensures ok ==> colourID == Decode(file.value, width * height)
    {
      if file.None? {
        return false;
      }
      var bytes := file.value;
      this.width := width;
      this.height := height;
      var ids: seq<int> := [];
      var i := 0;
      while i < width * height
        invariant 0 <= i <= width * height && i <= |bytes|
        invariant ids == Decode(bytes, i)
      {
        // A read past the end of the stream fails and ends the loop.
        if i >= |bytes| {
          break;
        }
        ids := ids + [bytes[i] as int];
        i := i + 1;
      }
      colourID := ids;
      return true;
    }

    /** `SaveToFile(filename)`. `canOpen` says whether the output file could
        be opened; when it could, exactly width * height bytes are written,
        byte i being cell i modulo 256. */
    method SaveToFile(canOpen: bool) returns (ok: bool, written: seq<byte>)
      requires width * height <= |colourID|
      ensures ok == canOpen
      ensures ok ==> |written| == width * height && written == Encode(colourID[..width * height])
      ensures !ok ==> written == []
    {
      if !canOpen {
        return false, [];
      }
      written := [];
      var i := 0;
      while i < width * height
        invariant 0 <= i <= width * height
        invariant written == Encode(colourID[..i])
      {
        written := written + [ToByte(colourID[i])];
        i := i + 1;
      }
      return true, written;
    }
  }
}
