# GG.js core in Dafny

A model of the core of the GG.js WebGL mini-library and of the pure logic in three
of the graphics assignments built on it, with proofs of what that code promises:

- **Colour keys** (`Colour`): the 24-bit packing `rgbToInt`, the hex helpers
  `rgb2Hex` and `hex2Rgb`, and the inverse of the packing.
- **Scene registry and picking** (`Scenes`): `scene.addRenderable`, `remove`, `render`
  and `pick`. The scene is a finite map from colour key to renderable. Each
  renderable's picking colour is its identity.
- **Textures** (`Textures`): the texture-unit allocator and the lifecycle of
  `texture.init` and `texture.bind`.
- **Renderables** (`Renderables`): the lazy shader, buffer and geometry
  initialisation of `renderable.render`, the scene binding, and the draw-call
  ranges of `draw`.
- **Mesh layout** (`Mesh`): the vertex buffers that `initialise` builds for the
  cube, cone, cylinder and sphere, and the sphere's planar UVs.
- **Subdivision** (`Subdivision`): `subdivideTri` and `subdivideSquare` of the
  fractal demo (`assignment1.js`), with and without gasket mode. `Swirl` models
  `rotateVertices`.
- **Checkerboard** (`Checkerboard`): the procedural texture of `assignment5.js`.
- **Stroke buffers** (`Stroke`): the line and poly-line append buffers of the
  drawing demo (`assignment2.js`).

Each WebGL operation takes the next free object handle and returns the calls it
made, as an `Effect` (`GlLog`). A JavaScript `throw` becomes the `Threw` case of
`Outcome`, which carries the state reached when the exception left the code.
Colours are byte triples. Vertex coordinates are reals. `Math.cos`, `Math.sin`,
`normalize` and the other library functions are parameters (`MathLib`, `Trig`),
never interpreted.

Points where the code's behaviour is easy to misread:

- **Square gasket:** gasket mode in `subdivideSquare` drops the fourth child,
  the quad `AD-mid-CD-D` at corner D (assignment1.js:230-233). The four
  children tile the square, so none of them is a centre cell: the dropped one
  is a corner quadrant.
- **Degenerate normals:** the source never raises an error for a degenerate
  normal; `normalize` is whatever the library returns.
- **Unassigned lights:** the scene constructor never assigns `lights`
  (common/GG.js:225-231), renderables start lit, and the lit branch of
  `bindToScene` reads `lights.length` (common/GG.js:258). So rendering a lit
  renderable in a scene whose `lights` was never set throws a TypeError. The
  `lights` flag of `Scene` records whether the application assigned it, as
  assignment5.js:390 does. `pick` renders every renderable unlit and so never
  reaches that read.
- **Hex digits beyond 2^53:** `parseInt` reads the digits exactly and then
  rounds to the nearest double, ties to even. Up to 13 digits nothing is
  lost. `"20000000000001"` is worth 2^53 + 1, rounds to 2^53, and decodes to
  black although the low byte of its exact value is 1. A value of 2^1024 or
  more becomes `Infinity`, which ToInt32 maps to 0.

## Model

| member | source | states |
|---|---|---|
| Colour.RgbToInt | common/GG.js:95-100 | shifting left by 8 twice equals r·65536 + g·256 + b for bytes, so the key is below 2^24 |
| Colour.KeyRoundTrip | common/GG.js:95-100 | splitting a key back into three bytes recovers the colour, so the packing has an inverse |
| Colour.KeyInjective | common/GG.js:95-100 | two colours have the same key exactly when they are the same colour |
| Colour.PackBits | common/GG.js:68-71 | the OR of blue, green<<8 and red<<16 in `rgb2Hex` is the same number as `rgbToInt` |
| Colour.Rgb2HexFormat | common/GG.js:68-71 | `rgb2Hex` is '#' followed by exactly six lower-case hex digits, leading zeros kept, which read back as the packed colour |
| Colour.Hex2RgbRoundTrip | common/GG.js:59-71 | stripping non-hex characters, parsing base 16 and taking the three bytes recovers the colour `rgb2Hex` encoded |
| Colour.ParseToHexString | common/GG.js:70 | `toString(16)` and base-16 parsing are inverse on naturals |
| Colour.ToHexStringLength | common/GG.js:70 | a number in [16^k, 16^(k+1)) prints as k+1 digits, and its leading digit is the top base-16 digit |
| Colour.StripKeepsHex | common/GG.js:60 | the non-hex filter leaves an all-hex string unchanged |
| Colour.HexDigit | common/GG.js:70 | each digit value prints as a lower-case hex character that parses back to it |
| Colour.Rgb2Hex | common/GG.js:68-71 | no contract of its own; its format and read-back are stated by Colour.Rgb2HexFormat, and its inverse by Colour.Hex2RgbRoundTrip |
| Colour.Hex2Rgb | common/GG.js:59-66 | no contract of its own; Colour.Hex2RgbShort, Colour.Hex2RgbLosesDigits and Colour.Hex2RgbRoundTrip state what it returns |
| Colour.NumberExact | common/GG.js:61 | `parseInt` returns the exact value of digits worth less than 2^53 |
| Colour.RoundNearest | common/GG.js:61 | the number `parseInt` returns is a multiple of the double spacing at that size, at most half a spacing from the exact value |
| Colour.NumberAboveTwo53 | common/GG.js:61 | 2^53 + 1 lies halfway between two doubles and rounds to the even one, 2^53 |
| Colour.Hex2RgbShort | common/GG.js:59-64 | with at most 13 hex digits the colour's key is the digits' value modulo 2^24, and no digits give black |
| Colour.Hex2RgbLosesDigits | common/GG.js:59-64 | digits worth 2^53 + 1 decode to black although their exact value is 1 modulo 2^24 |
| Scenes.NewScene | common/GG.js:225-231 | a new scene has no renderables, is not initialised, and has no `lights` assigned |
| Scenes.Register | common/GG.js:383-386 | an accepted colour becomes the renderable's colour and its key maps to it; every other entry is unchanged |
| Scenes.FirstFree | common/GG.js:379-388 | reference for the retry loop: the first candidate whose key is free, or none if every key is taken |
| Scenes.AddRenderable | common/GG.js:375-390 | the loop stops at the first free candidate and registers it; the new key was absent; validity is kept; removing the result restores the map |
| Scenes.FirstFreeIs | common/GG.js:379-388 | the index the scanning loop stops at is the reference's first free index |
| Scenes.RegisterKeepsValid | common/GG.js:375-390 | registering keeps every entry under its own colour's 24-bit key |
| Scenes.Remove | common/GG.js:354-358 | removal deletes exactly the key of the renderable's stored colour and leaves every other entry as it was |
| Scenes.RemoveAbsent | common/GG.js:354-358 | removing a renderable whose key is absent changes nothing, whoever owns the key |
| Scenes.RemoveAfterRegister | common/GG.js:354-390 | add followed by remove of the returned renderable restores the previous map |
| Scenes.RemoveKeepsValid | common/GG.js:354-358 | removal keeps the scene valid |
| Scenes.KeysBelowOrder | common/GG.js:367 | the visiting order of `for ... in` lists each key once, in ascending order, and nothing else |
| Scenes.OrderOfValid | common/GG.js:367 | for a valid scene the visiting order holds exactly the registered keys, without repeats |
| Scenes.RenderEach | common/GG.js:367-372 | rendering the renderables in turn keeps every entry's kind, colour, flags and key, thrown or not |
| Scenes.RenderEachOutcome | common/GG.js:367-372 | the loop throws exactly when a visited lit renderable has an unbindable texture or the scene's `lights` is unassigned; otherwise it sets exactly the unlit renderables' flat colours |
| Scenes.SomeThrowsAll | common/GG.js:367-372 | over a key list holding every key of the scene, some visited renderable throws exactly when some lit one has an unbindable texture, or some renderable is lit while `lights` is unassigned |
| Scenes.RenderScene | common/GG.js:360-373 | render clears first, marks the scene initialised, keeps the `lights` flag and keeps every entry's identity |
| Scenes.RenderSceneThrows | common/GG.js:360-373 | a scene render throws exactly when some lit renderable has a texture with neither a GL texture nor an image, or some renderable is lit while `lights` is unassigned |
| Scenes.RenderSceneColours | common/GG.js:360-373 | a render that does not throw sets as flat colours exactly the colours of the unlit renderables |
| Scenes.UnlitColoursAll | common/GG.js:367-372 | over a key list holding every key, the colours collected are those of every unlit entry |
| Scenes.SetUnlit | common/GG.js:328-345 | the flag loops set `useUnlit` on every entry and change nothing else |
| Scenes.FlaggedValid | common/GG.js:328-331 | once every entry is unlit, the scene is still valid, its flat colours are all its colours, and nothing can throw |
| Scenes.PickRenders | common/GG.js:328-333 | the render inside pick never throws, lights or not, because every renderable renders unlit during it |
| Scenes.Pick | common/GG.js:303-352 | a renderable pick returns has exactly the colour of the pixel read back |
| Scenes.PickRestores | common/GG.js:342-345 | after pick every renderable is lit again; keys and colours are unchanged; the scene is initialised and valid |
| Scenes.PickAnswer | common/GG.js:347-351 | pick returns the renderable stored under the pixel's key, or nothing when the key is absent |
| Scenes.PickColours | common/GG.js:328-334 | the pick render paints exactly the colours of the registered renderables |
| Scenes.PickFinds | common/GG.js:328-351 | a pixel painted by the pick render resolves to the renderable of exactly that colour |
| Textures.NewTextureManager | common/GG.js:405-407 | the allocator starts at unit 0 |
| Textures.RequestTexUnit | common/GG.js:409-413 | the unit handed out is not below the old counter, so it differs from every earlier unit, and the counter moves past it by one |
| Textures.RequestsIncrease | common/GG.js:409-413 | n requests return the counter and the next n-1 values, strictly increasing, and advance the counter by n |
| Textures.NewTexture | common/GG.js:423-429 | a new texture holds its image and has no GL texture and no unit |
| Textures.TexInit | common/GG.js:431-445 | init creates one texture, uploads the pixels or the element by image kind, and clears the image |
| Textures.TexBind | common/GG.js:447-459 | bind throws exactly when neither a texture nor an image is present; it initialises only once and assigns a unit only while none is set, so a unit never changes; it ends by activating the unit and binding the texture |
| Textures.TexBindAgain | common/GG.js:447-459 | binding a bound texture again creates nothing, requests no unit, and only activates and binds |
| Textures.BindTextures | common/GG.js:620-631 | binding a texture list throws exactly when one is unbindable; units are kept or freshly drawn; units stay distinct and below the counter |
| Textures.BindTexturesPlain | common/GG.js:620-631 | texture binding sets no flat colour and uploads no vertex data |
| Renderables.NewRenderable | common/GG.js:539-556 | a new renderable is lit, uninitialised and outside any scene; it has no programs and no buffer; only the cube starts with 6 faces, from its own constructor |
| Renderables.UseShader | common/GG.js:560-572 | the lit program is compiled once, and the unlit one only when first needed; the program put in use is the one the flag selects |
| Renderables.EnsureProgram | common/GG.js:561-566 | a program is compiled only when wanted and still missing |
| Renderables.Bind | common/GG.js:578-636 | binding throws exactly for a lit renderable with an unbindable texture; the unlit path sets the picking colour and touches no texture; it uploads nothing |
| Renderables.BindLit | common/GG.js:598-633 | the lit path sets no flat colour and throws exactly when a texture is unbindable |
| Renderables.DrawCalls | common/GG.js:638-647 | draw issues exactly `faces` calls |
| Renderables.DrawCallsAt | common/GG.js:638-647 | call k draws `vertsPerFace` vertices from offset k·vertsPerFace, in line-loop or triangle-fan mode as `outlineMode` says |
| Renderables.DrawRangesPartition | common/GG.js:638-647 | the draw ranges start at 0, follow each other without gaps, end at faces·vertsPerFace, and each vertex lies in exactly one range |
| Renderables.BindToScene | common/GG.js:235-287 | the scene binding runs only for a renderable added to a scene, and throws exactly when the renderable is lit and the scene's `lights` is unassigned; it sets no flat colour and uploads nothing |
| Renderables.Draw | common/GG.js:655-660 | the geometry initialises once, uploading one buffer, sets no flat colour, and the calls end with the face draws |
| Renderables.Prepare | common/GG.js:650-651 | `useShader` and `bind` keep the renderable's identity; they set the flat colour only when unlit and throw only for a lit renderable with an unbindable texture |
| Renderables.Render | common/GG.js:649-661 | render throws exactly for a lit renderable with an unbindable texture, or for a lit renderable in a scene whose `lights` is unassigned; otherwise it is initialised, its textures are all bound, and it ends with the draw calls |
| Renderables.RenderFlatColours | common/GG.js:649-661 | a render sets the picking colour exactly when the renderable is unlit |
| Renderables.RenderUploads | common/GG.js:656-659 | vertex data is uploaded exactly once, on the first successful render |
| Renderables.RenderKeepsUnitsFresh | common/GG.js:620-631 | texture units stay distinct and below the allocator's counter across renders |
| Renderables.RenderAgain | common/GG.js:649-661 | a second render succeeds, uploads nothing and keeps the face count |
| Mesh.CubeLayout | common/GG.js:709-721 | the cube is 24 vertices and 144 floats, 6 faces of 4 distinct corners, and each face shares one normal with every corner on that face's plane |
| Mesh.CubeFaceGood | common/GG.js:710-719 | each face of the corner table lies on the plane of its normal, with four distinct corners |
| Mesh.ConeLayout | common/GG.js:731-759 | the cone is 2·12 triangles of 18 floats, so faces = length/18 = 24; the top part's triangles wind opposite to the bottom's; the whole second part lies in the plane y = 1; each triangle shares one normal |
| Mesh.ConeStep | common/GG.js:731-761 | no contract of its own; Mesh.ConeIndex places its vertices and Mesh.ConeLayout states their winding, plane and normals |
| Mesh.ConeIndex | common/GG.js:744-756 | vertex 3s+j of part p is vertex j of angle step s of that part |
| Mesh.CylinderLayout | common/GG.js:770-802 | the cylinder is 4 triangles per step, 15 steps, 72·15 floats, faces = length/18 = 60; each step emits top, side, bottom, side in order; each triangle shares one normal |
| Mesh.CylinderStep | common/GG.js:770-803 | no contract of its own; Mesh.CylinderIndex places its vertices and Mesh.CylinderLayout states their order and normals |
| Mesh.CylinderIndex | common/GG.js:783-798 | vertex 12s+j is vertex j of step s |
| Mesh.SphereLayout | common/GG.js:819-862 | the sphere is one 4-vertex quad of 8 floats per grid cell, faces = length/32 = 13·13, and every normal is the normalised position |
| Mesh.SphereCell | common/GG.js:819-862 | no contract of its own; Mesh.SphereMembers and Mesh.SphereLayout state the quad it emits |
| Mesh.SphereMembers | common/GG.js:848-856 | each sphere vertex carries the normalised position and the UV of its projection |
| Mesh.SpherePlanarUV | common/GG.js:864-867 | in the planar buffer the UV floats of every vertex repeat its x and z floats |
| Mesh.SphereProjectionIndependent | common/GG.js:819-862 | the projection changes no position or normal float, only the UVs |
| Mesh.SphereGeometry | common/GG.js:819-862 | the positions and normals of the sphere do not depend on the projection |
| Mesh.Initialise | common/GG.js:709-862 | faces are 6, 24, 60 and 169 for cube, cone, cylinder and sphere |
| Mesh.InitialiseConsistent | common/GG.js:709-862 | the buffer length is faces × vertsPerFace × floats per vertex for every primitive |
| Mesh.StepsIndex | common/GG.js:744-756 | a loop that emits w vertices per step puts vertex j of step s at index w·s+j |
| Mesh.FlattenIndex | common/GG.js:739 | flattening vertices of width w puts float c of vertex k at index w·k+c |
| Subdivision.SubdivideTri | assignment1.js:239-271 | no contract of its own; Subdivision.TriVertexCount, Subdivision.TriCellIndex and Subdivision.TriGasketInNormal state its output |
| Subdivision.SubdivideSquare | assignment1.js:200-236 | no contract of its own; Subdivision.QuadVertexCount, Subdivision.SquareCellIndex and Subdivision.QuadGasketInNormal state its output |
| Subdivision.TriVertexCount | assignment1.js:239-271 | a triangle at depth d yields 3·4^d vertices, or 3·3^d in gasket mode |
| Subdivision.QuadVertexCount | assignment1.js:200-236 | a square at depth d yields 6·4^d vertices, or 6·3^d in gasket mode |
| Subdivision.TriSplit | assignment1.js:259-268 | one level is the children AB-B-BC, A-AB-AC, AC-BC-C, then the centre AC-AB-BC, which gasket mode omits |
| Subdivision.QuadSplit | assignment1.js:224-233 | one level is the children A-AB-mid-AD, AB-B-BC-mid, mid-BC-C-CD, then AD-mid-CD-D, which gasket mode omits |
| Subdivision.TriCellIndex | assignment1.js:239-271 | vertex 3m+c of the output is corner c of the cell reached by following the base-b digits of m through the children |
| Subdivision.QuadCellIndex | assignment1.js:200-236 | vertex 6m+c of an inner square's output is vertex c of the inner-leaf pattern of the cell the digits of m pick |
| Subdivision.SquareCellIndex | assignment1.js:200-236 | the same holds for the square at any positive depth |
| Subdivision.SquareDepthZero | assignment1.js:206-246 | depth 0 gives [A,B,C,B,C,D], which equals the inner leaf [A,B,C,C,D,A] only for a degenerate square; a triangle leaf is the same at depth 0 and inside |
| Subdivision.TriOrLeafIsSubdivide | assignment1.js:255-257 | the triangle child helper is plain subdivision, leaf included |
| Subdivision.TriGasketInNormal | assignment1.js:259-268 | the gasket output is the normal output with the centre blocks removed: gasket vertex 3m+c is normal vertex 3·Lift(m)+c |
| Subdivision.QuadGasketInNormal | assignment1.js:224-233 | the same embedding holds for the square |
| Subdivision.LiftMonotone | assignment1.js:259-268 | the embedding keeps the order of the kept cells |
| Subdivision.LiftOnto | assignment1.js:259-268 | every normal-mode cell whose path avoids child 3 is hit by the embedding |
| Subdivision.DigitsOfFromDigits | assignment1.js:239-271 | a child path and its cell number are inverse |
| Swirl.SwirlPoint | assignment1.js:186-196 | no contract of its own; Swirl.SwirlKeepsRadius and Swirl.SwirlFixesOrigin state what it keeps |
| Swirl.RotateVertices | assignment1.js:184-198 | rotation keeps the vertex count, turns each vertex by theta times its radius, and leaves everything unchanged at theta = 0 |
| Swirl.SwirlKeepsRadius | assignment1.js:190-196 | a rotation keeps the distance from the origin, given cos² + sin² = 1 |
| Swirl.SwirlFixesOrigin | assignment1.js:190-196 | the origin stays put |
| Checkerboard.Checkers | assignment5.js:44-59 | the texture is 4·size² bytes |
| Checkerboard.CreateCheckerboard | assignment5.js:44-59 | the nested loops produce exactly the reference image |
| Checkerboard.PixelBytes | assignment5.js:52-55 | pixel (i, j) is at byte offset 4·i·size + 4·j: three equal grey bytes, then alpha 255 |
| Checkerboard.PixelsGreyAndOpaque | assignment5.js:51-55 | every pixel has R = G = B, each 0 or 255, and alpha 255 |
| Checkerboard.ParityWhenDivides | assignment5.js:49-51 | when numChecks divides size, pixel (i, j) is white exactly when ⌊i/w⌋ and ⌊j/w⌋ differ in parity, for w = size/numChecks |
| Checkerboard.Symmetric | assignment5.js:49-51 | pixel (i, j) and pixel (j, i) hold the same bytes |
| Checkerboard.NoChecksBlack | assignment5.js:49-51 | with zero checks the square size is infinite and the image is black |
| Stroke.NewStrokes | assignment2.js:146-170 | the renderer starts with both counts 0, and `initBuffers` gives it two distinct buffers that hold nothing yet |
| Stroke.SetColor | assignment2.js:177-181 | a colour change re-renders and writes no vertex data |
| Stroke.DoRender | assignment2.js:192-207 | rendering writes no vertex data |
| Stroke.AddLinePos | assignment2.js:237-251 | without a line buffer nothing changes; with one, only the line count moves, by exactly 1 |
| Stroke.LinePosStored | assignment2.js:237-251 | the point and colour land at float slots 6n..6n+5 (byte offset n·4·6); earlier slots and other buffers are untouched |
| Stroke.StartOrEndDrawingLine | assignment2.js:227-235 | the drawing colour after the call is the colour before it |
| Stroke.StartOrEndLineTransparent | assignment2.js:227-235 | the start or end point is written with colour (0, 0, 0, 0) |
| Stroke.AddPolyPos | assignment2.js:263-292 | without a poly buffer nothing changes; with one, the poly count moves by exactly 2 and the previous point becomes the new one |
| Stroke.PolyPosStored | assignment2.js:263-292 | t2, colour, b2, colour land at float slots 6n..6n+11; earlier slots and other buffers are untouched |
| Stroke.OffsetsPerpendicular | assignment2.js:277-278 | dirB = (−dy, dx) and dirT = (dy, −dx) are opposite, both perpendicular to dir and as long as it |
| Stroke.EdgesAroundPoint | assignment2.js:277-280 | the point is the midpoint of t2 and b2, and t2 − b2 is perpendicular to the direction |
| Stroke.StartOrEndDrawingPoly | assignment2.js:253-261 | the drawing colour after the call is the colour before it |
| Stroke.StartOrEndPolyTransparent | assignment2.js:253-261 | both points of a start or end step are written with colour (0, 0, 0, 0) |
| Stroke.LineAndPolyIndependent | assignment2.js:237-292 | a line point keeps the poly count, the previous point and the poly buffer; a poly step keeps the line count and the line buffer |
| Stroke.WritesContiguous | assignment2.js:237-292 | the next write's byte offset is this write's offset plus the bytes it wrote, in both buffers |

## Left out

- Camera, light values, materials, node transforms (`getScale`, `getRotation`) and the matrices and light uniforms `bindToScene` sets: floating-point matrix maths. The scene binding is one event, and whether it throws depends only on the renderable's flag and on whether `lights` is assigned; a `lights` value that is assigned but not an array of lights is not modelled.
- The off-screen framebuffer, texture and renderbuffer setup in `pick`, and `gl.readPixels` itself: WebGL plumbing; the colour read back is a parameter of `Pick`.
- Shader compilation and linking, `getShaderText`, attribute and uniform locations: WebGL plumbing; a compile is one event with a fresh handle.
- Renderables.UseShader: the compile and link failures `compileShader` and `initShaders` throw (common/GG.js:136, 148) are not modelled; the driver decides them, so a compile always succeeds here.
- Renderables.Render: does not throw for a failed shader compile or link, for the reason above.
- Scenes.RenderEachOutcome: does not count a failed shader compile or link among the throws, for the reason above.
- Scenes.RenderSceneThrows: does not count a failed shader compile or link among the throws, for the reason above.
- Scenes.Register: a scene holds renderables as values. Adding an object that is already in a scene again makes the source recolour that same object, so the entry under its old key changes too (common/GG.js:383-386); the model gives the old entry its old colour.
- Scenes.AddRenderable: for the same reason, re-adding an object already in the scene is not modelled; the old entry keeps its old colour.
- Scenes.RegisterKeepsValid: for the same reason, validity is proved for the value model only; re-adding an object already in the scene leaves its old key pointing at an object of another colour in the source.
- The attribute stride of 8 floats in `renderable.bind`, which mismatches the 6-float cone, cylinder and cube buffers: not modelled.
- `Math.round(c*255)` and the float colours of `nextRgb` and `hsv2Rgb`: colours are byte triples, and a random colour is a given candidate.
- Scenes.AddRenderable: the source retries without bound until a colour is free; the model draws from a finite candidate list and returns nothing when every candidate's key is taken.
- Colour.Hex2RgbRoundTrip: `hex2Rgb` returns floats r/255, g/255, b/255 and alpha 1; the model stops at the byte triple.
- Checkerboard.Patch: `Math.floor(i/(texSize/numChecks))` is computed in floating point; the model uses the exact quotient ⌊i·numChecks/texSize⌋, which rounding could change when the square size is not a whole number.
- Mesh.SphereLayout: the sphere's `theta` and `phi` loops accumulate floating-point degrees; the model runs exactly 13 steps each way. The cone and cylinder loops are likewise taken as exactly 12 and 15 steps.
- The spherical UV formula (`atan2`, `asin`) is an uninterpreted part of `MathLib`, and the comparison with the nonexistent `UVProjections.POLAR` is always false, so only the two real projections exist.
- The plane primitive: its loop bound accumulates `x += 0.1` in floating point, and it is not part of this core.
- `resolveTextureUnit` and its `eval`: the unit number stands for the GL constant.
- `gl.bufferSubData` past the 10,000-point capacity of the stroke buffers: the source never checks `maxPts`, and what WebGL does with an out-of-range write is not modelled.
- The stroke renderer's `drawing` flag, `drawingMode`, `thickness` slider and the other GUI wiring in `assignment2.js`, `assignment4.js`, `assignment5.js` and `assignment3.js`: DOM code.
- The vertex-attribute setup in the stroke renderer's `setupShaderAttribs`: each buffer bind is one event.
- Exceptions from a degenerate `normalize`: the library function is a parameter, and the source does not check it.
