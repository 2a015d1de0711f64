# MC-Cartographer core in Dafny

MC-Cartographer converts an RGBA image into a 128 x 128 Minecraft map: a grid
of colour IDs, each an index into a palette of four shades per base colour.
It also turns such a map back into an image. This project models the integer
core of both conversions and proves properties about it:

- `Vector3i` and `Vector4i` (modules `Vector3i`, `Vector4i`): the integer
  vector algebra. Binary operators are datatype functions. Compound operators
  are methods of the classes `MutableVector3` and `MutableVector4`, which
  update their fields in place.
- `Texture2D` (module `Texture`): a row-major RGBA pixel buffer held as a
  `seq` field, with its constructor fill, `Get`, `Set` and `SetA`.
  `ResizeCanvas` is a centred crop or pad. The module also has the RGBA
  unpack and pack loops of `LoadFromFile`/`SaveToFile` and the extension
  dispatch of `SaveToFile`.
- `MCMapData` (module `MapData`): the grid of IDs, its zero-filled
  construction, `Get`/`Set`, and the one-byte-per-cell file format. The load
  loop stops at the first failed read.
- main.cpp (modules `Palette`, `Bayer`, `Conversion`):
  - palette expansion;
  - the nearest-colour scan from index 4;
  - the Floyd-Steinberg pass and the ordered (16 x 16 Bayer) pass of
    `ConvertImageToMap`;
  - the map-to-image lookup of `ConvertMapToImage`.

Arithmetic follows C++ on the values involved:

- `TruncDiv` is division truncating toward zero. It models integer `/` and
  float-to-int casts.
- `RoundHalfAway` is `roundf`.
- A float factor is an exact fraction `Ratio(num, den)`.
  - The factors `7.0f`, `16.0f` and friends are exact.
  - The shade factors `0.71f`, `0.86f` and `0.53f` are idealised as 71/100,
    86/100 and 53/100.
- A Bayer threshold t is a rank k with t = k / 256. So the ordered alpha is
  round((256w + 255k - 32640) / 65280), and the colour offset is
  trunc(255 (k - 128) / 2048).

The Floyd-Steinberg pass has a specification function, `FsUpTo`: the texture
pixels and map IDs after the first n positions of the raster scan. The
method `FloydSteinbergDither` is proved to end in `FsUpTo` of all positions.
Lemmas about `FsUpTo` then prove:

- every emitted ID is 0 or in [4, palette size);
- a cell's ID is final once the scan passes it;
- locality of the 7/3/5/1 kernel;
- exact recovery of a map from its own image.

The ordered pass is specified the same way, by `OrderedIds`. The ordered
methods take the 16 x 16 threshold matrix as a parameter, and both callers
pass the program's table `Bayer.Ranks`.

The map loader follows the code. When the file ends before width * height
bytes, the grid keeps only the cells read, fewer than width * height. It is
not padded with zeros, as a description of the format might suggest.

## Model

| member | source | states |
|---|---|---|
| Numeric.TruncDiv | cartographer/Texture.cpp:208 | definition, no ensures: int `/` and a float-to-int cast of an exact quotient, truncating toward zero; its bounds are TruncDivBounds |
| Numeric.MulRatio | cartographer/Vector3.h:145-151 | definition, no ensures: `static_cast<int>(c * f)` for f = num/den, that is trunc(c*num/den) |
| Numeric.DivRatio | cartographer/Vector3.h:152-156 | definition, no ensures: `static_cast<int>(c / f)` for a non-zero f = num/den, that is trunc(c*den/num) |
| Numeric.RoundHalfAway | cartographer/main.cpp:235 | definition, no ensures: `roundf(n / d)`; its meaning is RoundHalfAwayBounds |
| Numeric.NearestAlpha | cartographer/main.cpp:235 | definition, no ensures: `roundf(w / 255.f) * 255`; its meaning is NearestAlphaError |
| Numeric.ToByte | cartographer/MCMapData.cpp:109-113 | the byte kept of an int equals it when it is in [0, 255] |
| Numeric.ToByteCongruent | cartographer/MCMapData.cpp:109-113 | the byte kept of an int differs from it by a multiple of 256 |
| Numeric.TruncDivBounds | cartographer/Texture.cpp:208 | the quotient truncates toward zero: q*d lies between 0 and a, less than d from a |
| Numeric.TruncDivNeg | cartographer/Texture.cpp:208 | truncating division is symmetric about zero, so a negative canvas offset is minus the positive one |
| Numeric.TruncDivExact | cartographer/Vector4.h:152-165 | an exact quotient is returned unchanged |
| Numeric.RoundHalfAwayBounds | cartographer/main.cpp:235 | the result is the integer nearest n/d, a tie going away from zero |
| Numeric.NearestAlphaError | cartographer/main.cpp:235-236 | roundf(w/255)*255 never ties; the alpha error is at most 127 in size; the nearest alpha is 0 exactly for w in [-127, 127]; it is 0 or 255 for w in [0, 255] |
| Numeric.FlatBounds | cartographer/Texture.cpp:52-55 | (x, y) inside a width x height grid has a flat index x + y*width inside [0, width*height) |
| Numeric.FlatUnique | cartographer/Texture.cpp:52-55 | a flat index gives back its column and row |
| Numeric.NeighbourIndices | cartographer/main.cpp:239-242 | index bookkeeping the diffusion methods use: the flat indices of (x+1, y), (x-1, y+1), (x, y+1) and (x+1, y+1) are n+1, n+width-1, n+width and n+width+1 for n = x + y*width |
| Vector3i.Dot | cartographer/Vector3.h:59-62 | definition, no ensures: a.x*b.x + a.y*b.y + a.z*b.z |
| Vector3i.Cross | cartographer/Vector3.h:64-71 | definition, no ensures: the cross product component by component; its property is CrossOrthogonal |
| Vector3i.LengthSqr | cartographer/Vector3.h:88-91 | definition, no ensures: the sum of the squared components; its properties are LengthSqrZero and DotSelf |
| Vector3i.Add | cartographer/Vector3.h:135-139 | definition, no ensures: binary + component by component; its inverse is Sub (SubAdd) |
| Vector3i.Sub | cartographer/Vector3.h:140-144 | definition, no ensures: binary - component by component |
| Vector3i.Mul | cartographer/Vector3.h:145-151 | definition, no ensures: `v * f`, each product truncated by MulRatio; its bounds are MulShrinks |
| Vector3i.Div | cartographer/Vector3.h:152-156 | definition, no ensures: `v / f`, each quotient truncated by DivRatio |
| Vector3i.Equal | cartographer/Vector3.h:158-161 | `==` holds exactly when the vectors are equal |
| Vector3i.SubAdd | cartographer/Vector3.h:135-144 | binary - undoes binary + and + undoes -, component by component |
| Vector3i.SubZero | cartographer/Vector3.h:140-144 | a - b is the zero vector exactly when a == b |
| Vector3i.LengthSqrZero | cartographer/Vector3.h:88-91 | LengthSqr is never negative and is zero only for the zero vector |
| Vector3i.LengthSqrSubSymmetric | cartographer/Vector3.h:88-91 | LengthSqr(a - b) == LengthSqr(b - a): the palette distance does not depend on operand order |
| Vector3i.DotSelf | cartographer/Vector3.h:59-62 | Dot(v, v) == LengthSqr(v) |
| Vector3i.CrossOrthogonal | cartographer/Vector3.h:64-71 | the cross product has dot product 0 with both operands, and Cross(a, a) is zero |
| Vector3i.MulShrinks | cartographer/Vector3.h:145-151 | scaling by a factor in [0, 1] leaves a non-negative component c in [0, c] and a negative one in [c, 0] |
| Vector3i.MutableVector3.constructor | cartographer/Vector3.h:53-56 | the copy constructor copies all three components |
| Vector3i.MutableVector3.Assign | cartographer/Vector3.h:93-100 | after `*this = other` the vector equals other |
| Vector3i.MutableVector3.AddAssign | cartographer/Vector3.h:102-109 | after `+=` the vector equals old value + rhs |
| Vector3i.MutableVector3.SubAssign | cartographer/Vector3.h:110-117 | after `-=` the vector equals old value - rhs |
| Vector3i.MutableVector3.MulAssign | cartographer/Vector3.h:118-125 | after `*=` the vector equals old value * f, each product truncated |
| Vector3i.MutableVector3.DivAssign | cartographer/Vector3.h:126-133 | after `/=` the vector equals old value / f, each quotient truncated |
| Vector4i.FromVector3 | cartographer/Vector4.h:59-62 | definition, no ensures: `Vector4(v, w)`; its inverse is FromVector3Xyz |
| Vector4i.Dot | cartographer/Vector4.h:64-68 | definition, no ensures: the four-component dot product |
| Vector4i.LengthSqr | cartographer/Vector4.h:85-89 | definition, no ensures: the sum of the four squared components; related to Dot by DotSelf |
| Vector4i.Add | cartographer/Vector4.h:142-146 | definition, no ensures: binary + over all four components; its inverse is Sub (SubAdd) |
| Vector4i.Sub | cartographer/Vector4.h:147-151 | definition, no ensures: binary - over all four components |
| Vector4i.Mul | cartographer/Vector4.h:152-158 | definition, no ensures: `v * f`, each product truncated |
| Vector4i.Div | cartographer/Vector4.h:159-165 | definition, no ensures: `v / f`, each quotient truncated; with Mul it gives KernelWeight |
| Vector4i.Equal | cartographer/Vector4.h:167-170 | `==` holds exactly when all four components are equal |
| Vector4i.SubAdd | cartographer/Vector4.h:142-151 | binary - undoes + and + undoes -, over all four components |
| Vector4i.FromVector3Xyz | cartographer/Vector4.h:59-62 | Vector4(v3, w) copies x, y, z from v3 and sets w; taking the colour part and the alpha back rebuilds the vector |
| Vector4i.DotSelf | cartographer/Vector4.h:86-89 | Dot(v, v) == LengthSqr(v) over four components |
| Vector4i.AddColourOnly | cartographer/Vector4.h:142-146 | adding Vector4(q, 0) adds q to x, y, z and leaves w unchanged |
| Vector4i.KernelWeight | cartographer/Vector4.h:152-165 | v * k / 16.0f is trunc(k*c/16) in every component |
| Vector4i.MutableVector4.constructor | cartographer/Vector4.h:55-58 | the copy constructor copies all four components |
| Vector4i.MutableVector4.Assign | cartographer/Vector4.h:91-99 | after `*this = other` the vector equals other |
| Vector4i.MutableVector4.AddAssign | cartographer/Vector4.h:101-109 | after `+=` the vector equals old value + rhs in all four fields |
| Vector4i.MutableVector4.SubAssign | cartographer/Vector4.h:110-118 | after `-=` the vector equals old value - rhs |
| Vector4i.MutableVector4.MulAssign | cartographer/Vector4.h:119-129 | after `*=` the vector equals old value * f, each product truncated |
| Vector4i.MutableVector4.DivAssign | cartographer/Vector4.h:130-140 | after `/=` the vector equals old value / f, each quotient truncated |
| Texture.Texture2D.constructor | cartographer/Texture.cpp:19-29 | exactly width*height pixels, each (0, 0, 0, 255), and 4 channels |
| Texture.Texture2D.Get | cartographer/Texture.cpp:52-55 | definition, no ensures: the pixel at flat index x + y*width |
| Texture.Texture2D.Set | cartographer/Texture.cpp:63-66 | afterwards Get(x, y) is the colour, at index x + y*width, and every other pixel and the size are unchanged |
| Texture.Texture2D.SetA | cartographer/Texture.h:48 | afterwards only the alpha of pixel (x, y) has changed, to the given value |
| Texture.Texture2D.ResizeCanvas | cartographer/Texture.cpp:193-229 | the new size is (w, h) with w*h pixels, and the pixels are CanvasPixels of the old ones (the same-size early return included) |
| Texture.CanvasPixels | cartographer/Texture.cpp:199-227 | a canvas resize produces exactly width*height pixels |
| Texture.CanvasAt | cartographer/Texture.cpp:208-220 | destination (x, y) holds the old canvas's pixel at (x + (W0-w)/2, y + (H0-h)/2), truncating, when that is inside the old canvas, and (0, 0, 0, 0) otherwise |
| Texture.CanvasSameSize | cartographer/Texture.cpp:196 | resizing the canvas to its current size changes nothing |
| Texture.CanvasPadThenCrop | cartographer/Texture.cpp:208-220 | padding to w >= W0, h >= H0 and resizing back restores every pixel |
| Texture.Unpacked | cartographer/Texture.cpp:252-264 | unpacking yields exactly one pixel per 4 bytes |
| Texture.Packed | cartographer/Texture.cpp:302-308 | packing yields exactly 4 bytes per pixel |
| Texture.PackedAt | cartographer/Texture.cpp:302-308 | byte 4i + c of the packed buffer is channel c of pixel i, in R, G, B, A order, kept modulo 256 |
| Texture.PackUnpacked | cartographer/Texture.cpp:252-264 | packing the unpacked pixels gives back the 4*W*H bytes |
| Texture.UnpackPacked | cartographer/Texture.cpp:302-308 | unpacking the packed bytes of byte-valued pixels gives back the pixels, pixel i being bytes 4i..4i+3 in R, G, B, A order |
| Texture.Texture2D.LoadFromFile | cartographer/Texture.cpp:232-276 | on success the size and channels are the decoder's and the pixels are the unpacked data; on failure the result is false and nothing changes |
| Texture.Texture2D.Pack | cartographer/Texture.cpp:299-308 | the memory block holds the packed pixels |
| Texture.Texture2D.SaveToFile | cartographer/Texture.cpp:279-326 | true exactly for ".ppm" with a successful PPM write or for ".png" whatever the PNG writer does; false with no extension or any other one; the PNG writer gets size, channels and the packed pixels |
| Texture.FileName | cartographer/Texture.cpp:282 | the file name is the suffix of the path after its last separator and holds no separator |
| Texture.LastDot | cartographer/Texture.cpp:288 | the index of the last '.' of the name, or -1 when it has none |
| Texture.Extension | cartographer/Texture.cpp:285-288 | definition, no ensures: the file name from its last '.' on, empty for no '.', a leading-only '.', "." and ".."; its property is ExtensionOfName |
| Texture.HasExtension | cartographer/Texture.cpp:285 | definition, no ensures: the extension is not empty |
| Texture.ExtensionOfName | cartographer/Texture.cpp:285-288 | a name stem.ext has the extension ".ext" |
| MapData.Encode | cartographer/MCMapData.cpp:109-113 | saving writes one byte per cell |
| MapData.Decode | cartographer/MCMapData.cpp:74-81 | loading reads min(bytes available, width*height) cells |
| MapData.DecodeEncode | cartographer/MCMapData.cpp:74-81 | with every ID in [0, 255], loading the bytes of a saved grid with the same size reproduces the grid |
| MapData.DecodeCells | cartographer/MCMapData.cpp:65-87 | loading reads at most width*height cells, cell i is byte i in [0, 255], a short stream gives a grid of exactly its length, and re-encoding the cells gives back the bytes read |
| MapData.MCMapData.constructor | cartographer/MCMapData.cpp:7-17 | width*height cells, all 0 |
| MapData.MCMapData.Get | cartographer/MCMapData.cpp:40-43 | definition, no ensures: the cell at flat index x + y*width |
| MapData.MCMapData.Set | cartographer/MCMapData.cpp:45-48 | afterwards Get(x, y) is the value, at index x + y*width, and every other cell and the size are unchanged |
| MapData.MCMapData.LoadFromFile | cartographer/MCMapData.cpp:51-97 | true exactly when the file opens; then the size is the requested one and the cells are the decoded bytes; otherwise nothing changes |
| MapData.MCMapData.SaveToFile | cartographer/MCMapData.cpp:99-126 | true exactly when the file opens; then exactly width*height bytes are written, byte i being cell i modulo 256 |
| Bayer.Ranks | cartographer/main.cpp:17-37 | definition, no ensures: the 16 x 16 matrix, entry t written as the rank k = 256t |
| Bayer.RankAt | cartographer/main.cpp:299 | definition, no ensures: the matrix entry at x % 16 + (y % 16) * 16 |
| Bayer.RankPeriodic | cartographer/main.cpp:299 | the matrix is read at (x mod 16) + (y mod 16)*16, so it repeats every 16 pixels in both directions |
| Palette.Shades | cartographer/main.cpp:174-177 | definition, no ensures: c * 0.71, c * 0.86, c, c * 0.53, in that order; its properties are ShadeOrder, ShadesInRange and ShadesOfRed |
| Palette.Expanded | cartographer/main.cpp:174-177 | the palette has four entries per base colour |
| Palette.ExpandedAt | cartographer/main.cpp:174-177 | entry 4i + j is shade j of base colour i, in the order c*0.71, c*0.86, c, c*0.53 |
| Palette.ExpandPalette | cartographer/main.cpp:174-177 | the expansion loop builds exactly Expanded of the base colours, four times as many entries |
| Palette.ShadeOrder | cartographer/main.cpp:174-177 | a channel c in [0, 255] scales to 0 <= c*0.53 <= c*0.71 <= c*0.86 <= c |
| Palette.ShadesInRange | cartographer/main.cpp:174-177 | every shade of a colour in [0, 255]^3 is in [0, 255]^3, channel by channel no larger than the colour |
| Palette.ShadesOfRed | cartographer/main.cpp:174-177 | pure red expands to (181,0,0), (219,0,0), (255,0,0), (135,0,0) |
| Palette.Dist | cartographer/main.cpp:253-254 | definition, no ensures: `LengthSqr(palette[i] - sample)`; its property is DistZero |
| Palette.IsNearest | cartographer/main.cpp:253-269 | definition, no ensures: r is in [4, size), no entry from 4 on is closer, and every entry from 4 before r is strictly farther |
| Palette.Nearest | cartographer/main.cpp:253-269 | the search needs five entries and returns an index in [4, palette size) |
| Palette.NearestSpec | cartographer/main.cpp:253-269 | the result has the least squared distance among the entries from 4 on, and ties go to the lowest index |
| Palette.NearestUnique | cartographer/main.cpp:253-269 | any index nearest in that sense is the one the search returns |
| Palette.NearestExact | cartographer/main.cpp:315-331 | a colour present in the palette is matched to its first occurrence from index 4 on |
| Palette.DistZero | cartographer/main.cpp:253-254 | the squared distance is non-negative and zero exactly for the same colour |
| Palette.NearestIndex | cartographer/main.cpp:315-331 | the scan loop returns Nearest, which is nearest in the sense above |
| Conversion.SpreadAlpha | cartographer/main.cpp:239 | one alpha share keeps the buffer size |
| Conversion.SpreadError | cartographer/main.cpp:278 | one colour share keeps the buffer size |
| Conversion.Kernel | cartographer/main.cpp:239-242 | definition, no ensures: shares 7, 3, 5, 1 out of 16 at offsets +1, +W-1, +W, +W+1, in write order; its targets are KernelTargets |
| Conversion.DiffuseAlpha | cartographer/main.cpp:239-242 | the alpha shares keep the buffer size |
| Conversion.DiffuseError | cartographer/main.cpp:278-281 | the colour shares keep the buffer size |
| Conversion.SpreadAlphaEffect | cartographer/main.cpp:239 | an alpha share changes only the alpha of its target, to trunc(w + k*err/16) |
| Conversion.ErrorShareExact | cartographer/main.cpp:278 | `Vector4i(q, 0) * k / 16.0f` through the float operators is trunc(k*c/16) in each colour channel and 0 in alpha |
| Conversion.SpreadErrorEffect | cartographer/main.cpp:278 | a colour share adds trunc(k*q/16) to each colour channel of its target and keeps every alpha |
| Conversion.SpreadNothing | cartographer/main.cpp:239-281 | zero alpha error and zero colour error change nothing |
| Conversion.DiffuseNothing | cartographer/main.cpp:239-281 | a zero error diffused over the whole kernel changes nothing |
| Conversion.DiffuseAlphaEffect | cartographer/main.cpp:239-242 | the alpha pass keeps every colour and changes only kernel targets |
| Conversion.DiffuseErrorEffect | cartographer/main.cpp:278-281 | the colour pass keeps every alpha and changes only kernel targets |
| Conversion.DiffuseAlphaChain | cartographer/main.cpp:239-242 | the link between the four SetA writes and the recursive definition: four single shares in kernel order make DiffuseAlpha over Kernel(W) |
| Conversion.DiffuseErrorChain | cartographer/main.cpp:278-281 | the link between the four colour Set writes and the recursive definition: four single shares in kernel order make DiffuseError over Kernel(W) |
| Conversion.KernelTargets | cartographer/main.cpp:239-242 | the targets of position n are n+1, n+W-1, n+W and n+W+1, all later than n for W >= 2 |
| Conversion.FsStep | cartographer/main.cpp:232-282 | one position of the pass keeps the number of pixels and cells |
| Conversion.FsStepIds | cartographer/main.cpp:245-272 | only cell n changes; it is 0 exactly when the alpha rounds to 0, and otherwise the nearest palette index |
| Conversion.FsStepTargets | cartographer/main.cpp:239-281 | only kernel targets change, and a position whose alpha rounds to 0 diffuses no colour error |
| Conversion.FsStepPixels | cartographer/main.cpp:239-281 | only the four neighbour indices change; for width >= 2 no pixel at or before n changes |
| Conversion.FsStepTransparent | cartographer/main.cpp:235-249 | a transparent pixel gets ID 0 and diffuses nothing |
| Conversion.FsStepExact | cartographer/main.cpp:235-281 | an opaque pixel of exactly palette colour k (k its first index) gets ID k and diffuses nothing |
| Conversion.FsUpTo | cartographer/main.cpp:227-284 | the state after n positions keeps the number of pixels and cells |
| Conversion.FsUpToNext | cartographer/main.cpp:229-283 | the state after n + 1 positions is FsStep at position n of the state after n |
| Conversion.FsIdSettled | cartographer/main.cpp:227-284 | a cell's ID is final once the scan has passed it |
| Conversion.FsIdsEmitted | cartographer/main.cpp:227-284 | the pass emits only IDs 0 and [4, palette size) |
| Conversion.FsTransparent | cartographer/main.cpp:245-249 | a cell is 0 exactly when its pixel's alpha, as the scan found it, rounds to 0 |
| Conversion.FsRecoversMap | cartographer/main.cpp:227-284 | the image of a canonical grid passes through the pass unchanged and yields the grid with 1-3 read as 0 |
| Conversion.FsRecoversCell | cartographer/main.cpp:232-282 | the step of that recovery at one cell |
| Conversion.FsUniform | cartographer/main.cpp:227-284 | an opaque image of one palette colour k (its first index) gives k in every cell and is left unchanged |
| Conversion.SpreadAlphaTo | cartographer/main.cpp:239 | one SetA share leaves exactly SpreadAlpha of the pixels |
| Conversion.SpreadErrorTo | cartographer/main.cpp:278 | one Set share leaves exactly SpreadError of the pixels |
| Conversion.DiffuseAlphaTo | cartographer/main.cpp:239-242 | the four SetA calls leave DiffuseAlpha of the pixels |
| Conversion.DiffuseErrorTo | cartographer/main.cpp:278-281 | the four colour Set calls leave DiffuseError of the pixels |
| Conversion.FsPixel | cartographer/main.cpp:232-282 | the loop body at (x, y) performs FsStep at x + y*width on texture and map together |
| Conversion.FsRow | cartographer/main.cpp:229-283 | one row of the scan takes FsUpTo of y*W positions to FsUpTo of (y+1)*W |
| Conversion.FloydSteinbergDither | cartographer/main.cpp:227-284 | the pass leaves texture and map at FsUpTo of all W*H positions |
| Conversion.OrderedAlpha | cartographer/main.cpp:299-300 | definition, no ensures: the dithered alpha round((256w + 255k - 32640) / 65280) for threshold k/256; its meaning is OrderedAlphaZero |
| Conversion.ColourDither | cartographer/main.cpp:311 | definition, no ensures: the colour offset trunc(255(k - 128) / 2048); its bound is ColourDitherBound |
| Conversion.OrderedId | cartographer/main.cpp:296-334 | definition, no ensures: 0 for raw alpha 0 or dithered alpha 0, otherwise Nearest of the offset colour; its meaning is OrderedIdSpec |
| Conversion.OrderedAlphaZero | cartographer/main.cpp:298-303 | the dithered alpha rounds to 0 exactly when 0 < 256w + 255k < 65280 |
| Conversion.OrderedAlphaMissesZero | cartographer/main.cpp:302-303 | a fully transparent pixel on rank 0 rounds to -1, so the raw-alpha check is needed |
| Conversion.OrderedIdSpec | cartographer/main.cpp:296-334 | on a cell of Bayer rank k, the ID is 0 exactly for raw alpha 0 or dithered alpha 0, else the nearest index to the colour with the same offset d added to R, G and B; raw alpha 0 gives 0, alpha >= 255 never does |
| Conversion.ColourDitherBound | cartographer/main.cpp:311 | the colour offset is at most 15 in size |
| Conversion.OrderedIds | cartographer/main.cpp:291-337 | the ordered IDs of count cells are count IDs |
| Conversion.OrderedIdsEmitted | cartographer/main.cpp:291-337 | the ordered pass emits only IDs 0 and [4, palette size) |
| Conversion.OrderedIdsNext | cartographer/main.cpp:299 | cell x + y*W of the ordered pass uses the Bayer rank at (x, y) |
| Conversion.OrderedPixel | cartographer/main.cpp:296-334 | the loop body at (x, y) sets only that cell, to OrderedId of its pixel |
| Conversion.OrderedRow | cartographer/main.cpp:293-335 | after row y the first (y+1)*W cells are the ordered IDs |
| Conversion.OrderedDither | cartographer/main.cpp:291-337 | the map ends as OrderedIds of the texture, which is never modified, so the grid depends on the pixels alone |
| Conversion.CellColour | cartographer/main.cpp:370-379 | definition, no ensures: IDs 0-3 give (0, 0, 0, 0), any other ID (palette[id], 255) |
| Conversion.ImagePixels | cartographer/main.cpp:362-381 | the image has one pixel per cell |
| Conversion.Recovered | cartographer/main.cpp:370-379 | recovering IDs keeps their number |
| Conversion.MapRow | cartographer/main.cpp:364-380 | after row y every pixel up to (y+1)*W is the colour of its cell |
| Conversion.MapToTexture | cartographer/main.cpp:359-381 | a fresh texture of the map's size whose pixels are ImagePixels: IDs 0-3 give (0,0,0,0), any other ID (palette[id], 255) |
| Conversion.DecodeIds | cartographer/main.cpp:355-367 | a long enough map file of valid bytes loads to a complete grid of valid IDs |
| Conversion.ConvertMapToImage | cartographer/main.cpp:351-389 | true exactly when the map loads and the image saves; a PNG output is 128x128, 4 channels, the packed image of the loaded IDs |
| Conversion.ConvertedIds | cartographer/main.cpp:222-340 | either method yields 128*128 IDs |
| Conversion.ConvertedIdsEmitted | cartographer/main.cpp:222-340 | both methods emit only IDs 0 and [4, palette size) |
| Conversion.MapImageRoundTrip | cartographer/main.cpp:227-381 | converting a canonical map to an image and back with Floyd-Steinberg gives back the map with IDs 1-3 read as 0 |
| Conversion.ConvertImageToMap | cartographer/main.cpp:193-349 | true exactly when the image loads and the map file opens; the bytes written encode ConvertedIds of the 128x128 canvas for the chosen method |

## Left out

- Image decoding and encoding (stb), PPM text writing and the fstream open/read/close calls are modelled as parameters. A decoded image or None stands for `stbi_load`. The bytes of a map file or None stand for the input stream. A flag stands for whether the output opens and for what the PPM writer reports. The PNG writer's input is returned instead of written.
- Palette file parsing (`LoadPaletteFromFile`'s quoted records, `getline` and `atoi`): the model starts from the parsed list of base colours.
- The command line (`main`), its path derivation and prompts, and the cast of a prompted integer to `DitherType`. The model's `DitherType` has the two named values. The `default:` branch of main.cpp's switch, the ordered pass, is the `Ordered` case.
- `Texture2D::Sample`, `Resize` and the float fit-to-map scaling in `ConvertImageToMap` are floating point. `ConvertImageToMap` takes the texture as `Resize` leaves it.
- The default constructor of Vector4 (Vector4.h:47-50, giving (0, 0, 0, 1)) is not modelled: no operation of the core uses it.
- `Vector2`, `Length` and the float `Lerp` of Vector3.h and Vector4.h are floating point and have no integer use here.
- The filename constructor of `MCMapData` is a wrapper over `LoadFromFile`.
- `Texture2D::SetA` has no body in the C++ code: its declaration (Texture.h:48) and its calls are all there is. It is modelled as a write of the alpha of one pixel. Its alpha argument is the truncated float sum w + k*err/16.
- Palette.Shades: the shade factors are the exact fractions 71/100, 86/100 and 53/100, not the nearest floats. With real floats some products truncate one lower (100 * 0.53f gives 52).
- Bayer.RankAt: the float matrix literals are taken as exactly k/256. The six-digit literals are roundings of these.
- Integers are unbounded, and no 32-bit wrap-around is modelled.
  - Index arithmetic on a 128 x 128 grid is small, and so are the values of the ordered pass: 8-bit samples, with the colour offset bounded by ColourDitherBound.
  - The Floyd-Steinberg pass is different. Diffused errors push channels outside [0, 255], and main.cpp:278-281 does not clamp them. Channels and errors therefore grow without a bound fixed by the 8-bit range.
  - For a palette far from the image's colours, the squared distances of the nearest-colour scan can exceed 2^31 - 1. Those are `int distance` and `int nearestDistance` at main.cpp:254-260, computed by Vector3.h:88-91. The C++ code then compares wrapped values. The model compares the exact distances and does not capture that overflow.
- Conversion.SpreadAlpha: a diffusion write whose flat index is outside the buffer is dropped. main.cpp writes there without a bounds check, which is undefined behaviour. `Get`, `Set` and `SetA` index x + y*width with int coordinates, so every target index is n + 1, n + W - 1, n + W or n + W + 1, never below n. The only writes that leave the buffer are those with index W*H or more: the writes of the last row, including (x + 1, y) at the last pixel. Writes at a row's edge land in the neighbouring row, as they do in main.cpp.
- MapData.MCMapData.SaveToFile: requires width * height <= |colourID|. A grid loaded from a short file holds fewer cells than that. On such a grid MCMapData.cpp:109-113 reads `colourID_` past its end, which is undefined behaviour. The model does not cover that case.
- Conversion.ConvertMapToImage: requires a map file of at least 128 * 128 bytes, where every byte of 4 or more indexes the palette. For a shorter file or a larger ID main.cpp reads out of bounds, which is undefined behaviour.
- Conversion.FloydSteinbergDither and Conversion.OrderedDither, like the nearest-colour search, require a palette of at least five entries. main.cpp's scan starts at index 4 without checking this.
- `Texture::Extension` models `std::filesystem::path::extension` for '/' and '\\' separators only. Root names and other platform path rules are not modelled.
