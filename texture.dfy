/** Texture2D (Texture.cpp): an RGBA pixel buffer stored flat and row-major,
    pixel (x, y) at index `x + y * width`. */
module Texture {
  import opened Numeric
  import opened Wrappers
  import opened Vector4i

  /** The fill of a new texture. */
  const OpaqueBlack := Vector4(0, 0, 0, 255)
  /** The fill of the space a canvas resize adds. */
  const Transparent := Vector4(0, 0, 0, 0)

  /** What the image decoder hands back: size, channel count of the file and
      4 bytes (R, G, B, A) per pixel. */
  datatype DecodedImage = DecodedImage(width: nat, height: nat, channels: int, data: seq<byte>)

  /** What the PNG branch of SaveToFile hands to the PNG writer. */
  datatype PngImage = PngImage(width: nat, height: nat, channels: int, data: seq<byte>)

  // ---------------------------------------------------------------------
  // Canvas resize (Texture.cpp:193-229)

  /** The pixel a canvas resize copies from source position (sx, sy), or
      transparent black when that position is outside the old canvas. */
  function CanvasSource(pixels: seq<Vector4>, oldWidth: nat, oldHeight: nat, sx: int, sy: int): Vector4
    requires |pixels| == oldWidth * oldHeight
  {
    if 0 <= sx < oldWidth && 0 <= sy < oldHeight then
      FlatBounds(sx, sy, oldWidth, oldHeight);
      pixels[sx + sy * oldWidth]
    else
      Transparent
  }

  /** The pixels after ResizeCanvas(width, height): destination (x, y) reads
      the old canvas at (x + (oldWidth - width) / 2, y + (oldHeight - height) / 2),
      both divisions truncating toward zero. */
  function CanvasPixels(pixels: seq<Vector4>, oldWidth: nat, oldHeight: nat, width: nat, height: nat): (r: seq<Vector4>)
    requires |pixels| == oldWidth * oldHeight
    ensures |r| == width * height
  {
    seq(width * height, i requires 0 <= i < width * height =>
      CanvasSource(pixels, oldWidth, oldHeight,
                   i % width + TruncDiv(oldWidth - width, 2), i / width + TruncDiv(oldHeight - height, 2)))
  }

  /** Destination (x, y) of a canvas resize holds the old canvas's pixel at the
      offset position when that lies inside the old canvas, and transparent
      black otherwise. */
  lemma CanvasAt(pixels: seq<Vector4>, oldWidth: nat, oldHeight: nat, width: nat, height: nat, x: int, y: int)
    requires |pixels| == oldWidth * oldHeight
    requires 0 <= x < width && 0 <= y < height
    ensures 0 <= x + y * width < width * height
    ensures CanvasPixels(pixels, oldWidth, oldHeight, width, height)[x + y * width] ==
      CanvasSource(pixels, oldWidth, oldHeight, x + TruncDiv(oldWidth - width, 2), y + TruncDiv(oldHeight - height, 2))
  {
    FlatBounds(x, y, width, height);
    FlatUnique(x, y, width);
  }

  /** Resizing the canvas to its own size changes nothing, so the early
      return of Texture.cpp for equal sizes is only a shortcut. */
  lemma CanvasSameSize(pixels: seq<Vector4>, width: nat, height: nat)
    requires |pixels| == width * height
    ensures CanvasPixels(pixels, width, height, width, height) == pixels
  {
    var r := CanvasPixels(pixels, width, height, width, height);
    forall i | 0 <= i < |pixels|
      ensures r[i] == pixels[i]
    {
      FlatSplit(i, width);
      CanvasAt(pixels, width, height, width, height, i % width, i / width);
      assert TruncDiv(0, 2) == 0;
    }
  }

  /** Padding a canvas to at least its size and then resizing back restores
      every pixel: the two centring offsets cancel because truncating
      division is symmetric about zero. */
  lemma CanvasPadThenCrop(pixels: seq<Vector4>, oldWidth: nat, oldHeight: nat, width: nat, height: nat)
    requires |pixels| == oldWidth * oldHeight
    requires oldWidth <= width && oldHeight <= height
    ensures CanvasPixels(CanvasPixels(pixels, oldWidth, oldHeight, width, height), width, height, oldWidth, oldHeight) == pixels
  {
    var padded := CanvasPixels(pixels, oldWidth, oldHeight, width, height);
    var r := CanvasPixels(padded, width, height, oldWidth, oldHeight);
    var ox, oy := TruncDiv(width - oldWidth, 2), TruncDiv(height - oldHeight, 2);
    TruncDivNeg(width - oldWidth, 2);
    TruncDivNeg(height - oldHeight, 2);
    assert 0 <= ox && 2 * ox <= width - oldWidth;
    assert 0 <= oy && 2 * oy <= height - oldHeight;
    forall i | 0 <= i < |pixels|
      ensures r[i] == pixels[i]
    {
      FlatSplit(i, oldWidth);
      var x, y := i % oldWidth, i / oldWidth;
      CanvasAt(padded, width, height, oldWidth, oldHeight, x, y);
      CanvasAt(pixels, oldWidth, oldHeight, width, height, x + ox, y + oy);
    }
  }

  // ---------------------------------------------------------------------
  // RGBA byte buffers (Texture.cpp:252-264 and 302-308)

  /** Channel k of a pixel in R, G, B, A order. */
  function Channel(c: Vector4, k: int): int
  {
    if k == 0 then c.x else if k == 1 then c.y else if k == 2 then c.z else c.w
  }

  /** The pixels the load loop builds: pixel i takes bytes 4i .. 4i+3 as
      R, G, B, A. */
  function Unpacked(data: seq<byte>, count: nat): (r: seq<Vector4>)
    requires 4 * count <= |data|
    ensures |r| == count
  {
    seq(count, i requires 0 <= i < count =>
      Vector4(data[4 * i] as int, data[4 * i + 1] as int, data[4 * i + 2] as int, data[4 * i + 3] as int))
  }

  /** The bytes the PNG branch writes: byte 4i + k is channel k of pixel i,
      converted to `unsigned char`. */
  function Packed(pixels: seq<Vector4>): (r: seq<byte>)
    ensures |r| == 4 * |pixels|
  {
    seq(4 * |pixels|, k requires 0 <= k < 4 * |pixels| => ToByte(Channel(pixels[k / 4], k % 4)))
  }

  /** Bytes 4i .. 4i+3 of the packed buffer are the channels of pixel i. */
  lemma PackedAt(pixels: seq<Vector4>, i: int, c: int)
    requires 0 <= i < |pixels| && 0 <= c < 4
    ensures 4 * i + c < |Packed(pixels)| && Packed(pixels)[4 * i + c] == ToByte(Channel(pixels[i], c))
  {
    assert (4 * i + c) / 4 == i && (4 * i + c) % 4 == c;
  }

  /** Writing the four channels of pixel i after the bytes of the pixels
      before it extends the packed prefix by one pixel. */
  lemma PackStep(pixels: seq<Vector4>, i: int, before: seq<byte>, after: seq<byte>)
    requires 0 <= i < |pixels| && |before| == |after| == 4 * |pixels|
    requires forall k :: 0 <= k < 4 * i ==> before[k] == Packed(pixels)[k]
    requires forall k :: 0 <= k < 4 * i ==> after[k] == before[k]
    requires forall c :: 0 <= c < 4 ==> after[4 * i + c] == ToByte(Channel(pixels[i], c))
    ensures forall k :: 0 <= k < 4 * (i + 1) ==> after[k] == Packed(pixels)[k]
  {
    forall k | 4 * i <= k < 4 * (i + 1)
      ensures after[k] == Packed(pixels)[k]
    {
      PackedAt(pixels, i, k - 4 * i);
      assert after[4 * i + (k - 4 * i)] == ToByte(Channel(pixels[i], k - 4 * i));
    }
  }

  /** Every channel of every pixel is a byte value. */
  ghost predicate ByteChannels(pixels: seq<Vector4>)
  {
    forall i :: 0 <= i < |pixels| ==>
      0 <= pixels[i].x < 256 && 0 <= pixels[i].y < 256 && 0 <= pixels[i].z < 256 && 0 <= pixels[i].w < 256
  }

  /** Packing unpacked bytes gives back the bytes. */
  lemma PackUnpacked(data: seq<byte>, count: nat)
    requires 4 * count <= |data|
    ensures Packed(Unpacked(data, count)) == data[..4 * count]
  {
    var p := Unpacked(data, count);
    forall k | 0 <= k < 4 * count
      ensures Packed(p)[k] == data[k]
    {
      var i, c := k / 4, k % 4;
      assert k == 4 * i + c;
    }
  }

  /** Unpacking packed pixels gives back the pixels when every channel is a
      byte value. */
  lemma UnpackPacked(pixels: seq<Vector4>)
    requires ByteChannels(pixels)
    ensures Unpacked(Packed(pixels), |pixels|) == pixels
  {
    var b := Packed(pixels);
    var u := Unpacked(b, |pixels|);
    forall i | 0 <= i < |pixels|
      ensures u[i] == pixels[i]
    {
      UnpackPackedAt(pixels, b, i);
    }
  }

  lemma UnpackPackedAt(pixels: seq<Vector4>, b: seq<byte>, i: int)
    requires b == Packed(pixels) && 0 <= i < |pixels|
    requires 0 <= pixels[i].x < 256 && 0 <= pixels[i].y < 256 && 0 <= pixels[i].z < 256 && 0 <= pixels[i].w < 256
    ensures 4 * i + 3 < |b|
    ensures Vector4(b[4 * i] as int, b[4 * i + 1] as int, b[4 * i + 2] as int, b[4 * i + 3] as int) == pixels[i]
  {
    PackedAt(pixels, i, 0);
    PackedAt(pixels, i, 1);
    PackedAt(pixels, i, 2);
    PackedAt(pixels, i, 3);
  }

  // ---------------------------------------------------------------------
  // File name extensions (std::filesystem::path::extension as SaveToFile uses it)

  predicate IsSeparator(c: char)
  {
    c == '/' || c == '\\'
  }

  /** The last path component: everything after the last separator. */
  function FileName(path: string): (r: string)
    ensures |r| <= |path| && r == path[|path| - |r|..]
    ensures forall j :: 0 <= j < |r| ==> !IsSeparator(r[j])
    ensures |r| < |path| ==> IsSeparator(path[|path| - |r| - 1])
  {
    if path == [] || IsSeparator(path[|path| - 1]) then []
    else FileName(path[..|path| - 1]) + [path[|path| - 1]]
  }

  /** The index of the last '.' of a name, or -1 when it has none. */
  function LastDot(name: string): (k: int)
    ensures -1 <= k < |name|
    ensures 0 <= k ==> name[k] == '.'
    ensures forall j :: k < j < |name| ==> name[j] != '.'
  {
    if name == [] then -1
    else if name[|name| - 1] == '.' then |name| - 1
    else LastDot(name[..|name| - 1])
  }

  /** `path.extension()`: the file name from its last '.' on; empty when the
      name has no '.', when its only '.' is the leading one, and for the
      names "." and "..". */
  function Extension(path: string): string
  {
    var name := FileName(path);
    if name == "." || name == ".." then ""
    else
      var k := LastDot(name);
      if k <= 0 then "" else name[k..]
  }

  /** `path.has_extension()` */
  predicate HasExtension(path: string)
  {
    Extension(path) != ""
  }

  lemma FileNameNoSeparator(s: string)
    requires forall j :: 0 <= j < |s| ==> !IsSeparator(s[j])
    ensures FileName(s) == s
  {
  }

  /** A name `stem.ext` whose extension text holds no '.' and neither part a
      separator has the extension ".ext", whatever dots the stem holds. */
  lemma ExtensionOfName(stem: string, ext: string)
    requires stem != [] && stem != "."
    requires forall j :: 0 <= j < |stem| ==> !IsSeparator(stem[j])
    requires forall j :: 0 <= j < |ext| ==> !IsSeparator(ext[j]) && ext[j] != '.'
    ensures Extension(stem + "." + ext) == "." + ext
  {
    var name := stem + "." + ext;
    FileNameNoSeparator(name);
    var k := LastDot(name);
    assert name[|stem|] == '.';
    assert k == |stem|;
    assert name[k..] == "." + ext;
  }

  // ---------------------------------------------------------------------
  // The texture

  class Texture2D {
    var channels: int
    var width: nat
    var height: nat
    var pixel: seq<Vector4>

    /** The buffer holds exactly width * height pixels. */
    ghost predicate Valid()
      reads this
    {
      |pixel| == width * height
    }

    /** `Texture2D(width, height)`: width * height opaque black pixels. */
    constructor (width: nat, height: nat)
      ensures Valid() && this.width == width && this.height == height && channels == 4
      ensures pixel == seq(width * height, _ => OpaqueBlack)
    {
      var newPixel: seq<Vector4> := [];
      var i := 0;
      while i < width * height
        invariant 0 <= i <= width * height
        invariant newPixel == seq(i, _ => OpaqueBlack)
      {
        newPixel := newPixel + [OpaqueBlack];
        i := i + 1;
      }
      this.width := width;
      this.height := height;
      channels := 4;
      pixel := newPixel;
    }

    /** `Get(x, y)`: the pixel at flat index x + y * width (not bounds-checked
        against x and y separately). */
    function Get(x: int, y: int): Vector4
      reads this
      requires 0 <= x + y * width < |pixel|
    {
      pixel[x + y * width]
    }

    /** `Set(x, y, colour)`: afterwards Get(x, y) is colour and every other
        pixel is unchanged. */
    method Set(x: int, y: int, colour: Vector4)
      requires 0 <= x + y * width < |pixel|
      modifies this
      ensures width == old(width) && height == old(height) && channels == old(channels)
      ensures |pixel| == old(|pixel|) && Get(x, y) == colour
      ensures forall i :: 0 <= i < |pixel| && i != x + y * width ==> pixel[i] == old(pixel[i])
      ensures pixel == old(pixel)[x + y * width := colour]
    {
      pixel := pixel[x + y * width := colour];
    }

    /** `SetA(x, y, alpha)`: writes the alpha of one pixel and nothing else. */
    method SetA(x: int, y: int, alpha: int)
      requires 0 <= x + y * width < |pixel|
      modifies this
      ensures width == old(width) && height == old(height) && channels == old(channels)
      ensures |pixel| == old(|pixel|) && Get(x, y) == old(Get(x, y)).(w := alpha)
      ensures forall i :: 0 <= i < |pixel| && i != x + y * width ==> pixel[i] == old(pixel[i])
      ensures pixel == old(pixel)[x + y * width := old(pixel)[x + y * width].(w := alpha)]
    {
      var i := x + y * width;
      pixel := pixel[i := pixel[i].(w := alpha)];
    }

    /** `ResizeCanvas(width, height)`: re-frames the picture about its centre,
        cropping or padding with transparent black. */
    method ResizeCanvas(width: nat, height: nat)
      requires Valid()
      modifies this
      ensures Valid() && this.width == width && this.height == height && channels == old(channels)
      ensures pixel == CanvasPixels(old(pixel), old(this.width), old(this.height), width, height)
    {
      if width != this.width || height != this.height {
        ghost var target := CanvasPixels(pixel, this.width, this.height, width, height);
        var newPixel: seq<Vector4> := [];
        var y := 0;
        while y < height
          invariant unchanged(this)
          invariant 0 <= y <= height
          invariant |newPixel| == y * width && |newPixel| <= |target| && newPixel == target[..|newPixel|]
        {
          var x := 0;
          RowPrefix(x, y, width, height);
          while x < width
            invariant unchanged(this)
            invariant 0 <= x <= width
            invariant |newPixel| == x + y * width && |newPixel| <= |target| && newPixel == target[..|newPixel|]
          {
            ghost var n := |newPixel|;
            var sx := x + TruncDiv(this.width - width, 2);
            var sy := y + TruncDiv(this.height - height, 2);
            var colour;
            if 0 <= sx < this.width && 0 <= sy < this.height {
              FlatBounds(sx, sy, this.width, this.height);
              colour := pixel[sx + sy * this.width];
            } else {
              colour := Transparent;
            }
            CanvasAt(pixel, this.width, this.height, width, height, x, y);
            assert colour == target[n];
            newPixel := newPixel + [colour];
            assert newPixel == target[..n + 1];
            x := x + 1;
            RowPrefix(x, y, width, height);
          }
          NextRow(y, width);
          y := y + 1;
        }
        FlatBoundsTotal(width, height);
        this.width := width;
        this.height := height;
        pixel := newPixel;
      } else {
        CanvasSameSize(pixel, width, height);
      }
    }

    /** `LoadFromFile`: when the decoder delivers an image, this texture takes
        its size and channel count and unpacks its bytes into pixels; when it
        fails, the texture is left as it was. */
    method LoadFromFile(image: Option<DecodedImage>) returns (ok: bool)
      requires image.Some? ==> 4 * (image.value.width * image.value.height) <= |image.value.data|
      modifies this
      ensures ok == image.Some?
      ensures !ok ==> unchanged(this)
      ensures ok ==> (Valid() && width == image.value.width && height == image.value.height &&
                      channels == image.value.channels &&
                      pixel == Unpacked(image.value.data, width * height))
    {
      if image.None? {
        return false;
      }
      var data := image.value.data;
      channels := image.value.channels;
      width := image.value.width;
      height := image.value.height;
      var newPixel: seq<Vector4> := [];
      var i := 0;
      while i < width * height * 4
        invariant i % 4 == 0 && 0 <= i <= width * height * 4
        invariant newPixel == Unpacked(data, i / 4)
      {
        var colour := Vector4(data[i] as int, data[i + 1] as int, data[i + 2] as int, data[i + 3] as int);
        newPixel := newPixel + [colour];
        i := i + 4;
      }
      pixel := newPixel;
      return true;
    }

    /** The PNG branch's memory block: byte 4i + k is channel k of pixel i. */
    method Pack() returns (memblock: array<byte>)
      requires Valid()
      ensures fresh(memblock) && memblock[..] == Packed(pixel)
    {
      memblock := new byte[width * height * 4];
      var i := 0;
      while i < width * height
        invariant 0 <= i <= width * height
        invariant forall k :: 0 <= k < 4 * i ==> memblock[k] == Packed(pixel)[k]
      {
        ghost var before := memblock[..];
        memblock[i * 4 + 0] := ToByte(pixel[i].x);
        memblock[i * 4 + 1] := ToByte(pixel[i].y);
        memblock[i * 4 + 2] := ToByte(pixel[i].z);
        memblock[i * 4 + 3] := ToByte(pixel[i].w);
        PackStep(pixel, i, before, memblock[..]);
        i := i + 1;
      }
    }

    /** `SaveToFile(filename)`: dispatch on the extension. ".ppm" returns what
        the PPM writer reports (`ppmWritten`); ".png" hands the packed pixels
        to the PNG writer and returns true whatever it does; anything else,
        or no extension, returns false. */
    method SaveToFile(filename: string, ppmWritten: bool) returns (ok: bool, png: Option<PngImage>)
      requires Valid()
      ensures ok <==> (Extension(filename) == ".ppm" && ppmWritten) || Extension(filename) == ".png"
      ensures png.Some? <==> Extension(filename) == ".png"
      ensures png.Some? ==> png.value == PngImage(width, height, channels, Packed(pixel))
    {
      png := None;
      if HasExtension(filename) {
        var extension := Extension(filename);
        if extension == ".ppm" {
          return ppmWritten, None;
        } else if extension == ".png" {
          var memblock := Pack();
          png := Some(PngImage(width, height, channels, memblock[..]));
        } else {
          return false, None;
        }
      } else {
        return false, None;
      }
      return true, png;
    }
  }
}
