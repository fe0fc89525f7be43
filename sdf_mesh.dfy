/** The SDF instanced mesh of the device renderer: circles and ellipses drawn
    as one quad each, with a six-float packed style record per instance. The
    merge rule and the stroke rules are functions of the parsed style; the
    buffer layout is built by loops into a Geometry that records what it is
    given. */
module SdfMesh {
  import opened Wrappers

  /** A paint value: a colour, which says whether it is `none`, or a gradient
      or pattern, whose `isNone` reads undefined. */
  datatype Paint = Color(isNone: bool) | Gradient

  /** `paint.isNone` as JavaScript reads it: undefined on a gradient. */
  function IsNoneFlag(p: Paint): Option<bool> {
    match p
    case Color(n) => Some(n)
    case Gradient => None
  }

  /** The parsed style fields the mesh reads; an absent (undefined) field is None. */
  datatype ParsedStyle = ParsedStyle(
    fill: Paint,
    stroke: Option<Paint>,
    lineWidth: Option<real>,
    lineDash: Option<seq<real>>,
    strokeOpacity: Option<real>,
    radius: Option<real>,
    r: real,
    rx: real,
    ry: real)

  datatype DisplayObject = DisplayObject(nodeName: string, parsedStyle: ParsedStyle)

  const Circle := "circle"
  const Ellipse := "ellipse"

  /** The shapes this mesh draws; a shape's code is its position here. */
  const SdfShapes: seq<string> := [Circle, Ellipse]

  /** `stroke && !stroke.isNone`, as a truth value. */
  predicate HasStroke(s: ParsedStyle) {
    s.stroke.Some? && IsNoneFlag(s.stroke.value) != Some(true)
  }

  /** `lineDash && lineDash.length && lineDash.every(d => d !== 0)`, as a truth value. */
  predicate HasLineDash(s: ParsedStyle) {
    s.lineDash.Some? && |s.lineDash.value| > 0 && forall i :: 0 <= i < |s.lineDash.value| ==> s.lineDash.value[i] != 0.0
  }

  /** `strokeOpacity < 1`; an undefined opacity compares false. */
  predicate HasStrokeOpacity(s: ParsedStyle) {
    s.strokeOpacity.Some? && s.strokeOpacity.value < 1.0
  }

  /** `lineWidth > 0`; an undefined width compares false. */
  predicate HasLineWidth(s: ParsedStyle) {
    s.lineWidth.Some? && s.lineWidth.value > 0.0
  }

  /** The instance shader leaves the stroke out: there is none, or it is dashed or translucent. */
  predicate ShouldOmitStroke(s: ParsedStyle) {
    !HasStroke(s) || (HasStroke(s) && (HasLineDash(s) || HasStrokeOpacity(s)))
  }

  /** The stroke needs a separate pass: it exists, has width, and is dashed or translucent. */
  predicate NeedDrawStrokeSeparately(s: ParsedStyle) {
    HasStroke(s) && HasLineWidth(s) && (HasLineDash(s) || HasStrokeOpacity(s))
  }

  /** A stroke drawn separately is never also drawn by the instance shader;
      one that is absent is drawn by neither. */
  lemma SeparateStrokeIsOmitted(s: ParsedStyle)
    ensures NeedDrawStrokeSeparately(s) ==> ShouldOmitStroke(s)
    ensures !HasStroke(s) ==> ShouldOmitStroke(s) && !NeedDrawStrokeSeparately(s)
  {
  }

  /** A visible stroke of positive width is drawn exactly once: by the
      instance shader, or in a separate pass. */
  lemma VisibleStrokeDrawnOnce(s: ParsedStyle)
    requires HasStroke(s) && HasLineWidth(s)
    ensures ShouldOmitStroke(s) <==> NeedDrawStrokeSeparately(s)
    ensures ShouldOmitStroke(s) <==> HasLineDash(s) || HasStrokeOpacity(s)
  {
  }

  /** Whether `obj` may join the batch whose first object is `instance`.
      `baseMerge` is the verdict of the generic instanced-mesh check. */
  predicate ShouldMerge(baseMerge: bool, instance: DisplayObject, obj: DisplayObject) {
    if !baseMerge then false
    else if NeedDrawStrokeSeparately(obj.parsedStyle) || NeedDrawStrokeSeparately(instance.parsedStyle) then false
    else if IsNoneFlag(instance.parsedStyle.fill) != IsNoneFlag(obj.parsedStyle.fill) then false
    else true
  }

  /** For a given verdict of the generic check, the SDF part of the merge test
      does not depend on which object leads the batch. */
  lemma ShouldMergeSymmetric(baseMerge: bool, a: DisplayObject, b: DisplayObject)
    ensures ShouldMerge(baseMerge, a, b) == ShouldMerge(baseMerge, b, a)
  {
  }

  /** Once the generic check passes, merging is an equivalence on the objects
      that draw their stroke in the shader: they fall into batches by fill. */
  lemma ShouldMergeEquivalence(a: DisplayObject, b: DisplayObject, c: DisplayObject)
    ensures ShouldMerge(true, a, a) <==> !NeedDrawStrokeSeparately(a.parsedStyle)
    ensures ShouldMerge(true, a, b) && ShouldMerge(true, b, c) ==> ShouldMerge(true, a, c)
  {
  }

  /** Nothing whose stroke needs a separate pass is ever batched, and batched
      objects agree on whether they are filled. */
  lemma MergedObjectsAgree(baseMerge: bool, instance: DisplayObject, obj: DisplayObject)
    requires ShouldMerge(baseMerge, instance, obj)
    ensures baseMerge
    ensures !NeedDrawStrokeSeparately(obj.parsedStyle) && !NeedDrawStrokeSeparately(instance.parsedStyle)
    ensures ShouldOmitStroke(obj.parsedStyle) ==> !HasStroke(obj.parsedStyle) || !HasLineWidth(obj.parsedStyle)
    ensures IsNoneFlag(instance.parsedStyle.fill) == IsNoneFlag(obj.parsedStyle.fill)
  {
  }

  /** `list.indexOf(x)`: the first position of x, or -1. */
  function IndexOf(list: seq<string>, x: string): (r: int)
    ensures -1 <= r < |list|
    ensures r == -1 <==> x !in list
    ensures r >= 0 ==> list[r] == x && x !in list[..r]
  {
    if list == [] then -1
    else if list[0] == x then 0
    else
      var k := IndexOf(list[1..], x);
      assert list[1..][..if k < 0 then 0 else k] == list[1..if k < 0 then 1 else k + 1];
      if k == -1 then -1 else k + 1
  }

  /** Half extents of the quad: [r, r] for a circle, [rx, ry] for an ellipse, [0, 0] otherwise. */
  function GetSize(s: ParsedStyle, tagName: string): (real, real) {
    if tagName == Circle then (s.r, s.r)
    else if tagName == Ellipse then (s.rx, s.ry)
    else (0.0, 0.0)
  }

  /** `radius || 0`. */
  function RadiusOrZero(radius: Option<real>): real {
    if radius.Some? && radius.value != 0.0 then radius.value else 0.0
  }

  const PackedRecordSize: nat := 6
  const QuadFloats: nat := 16
  const IndicesPerQuad: nat := 6
  const VerticesPerQuad: nat := 4

  /** One instance's packed style: half width, half height, shape code,
      corner radius, stroke-omitted flag, padding. */
  function PackedRecord(o: DisplayObject): (rec: seq<real>) {
    var (w, h) := GetSize(o.parsedStyle, o.nodeName);
    [w, h, IndexOf(SdfShapes, o.nodeName) as real, RadiusOrZero(o.parsedStyle.radius),
     if ShouldOmitStroke(o.parsedStyle) then 1.0 else 0.0, 0.0]
  }

  /** Corners of the unit quad, each as position (x, y) then uv (u, v). */
  const QuadVertices: seq<real> := [-1.0, -1.0, 0.0, 0.0, 1.0, -1.0, 1.0, 0.0, 1.0, 1.0, 1.0, 1.0, -1.0, 1.0, 0.0, 1.0]

  /** The two triangles of quad i, over its four vertices 4i .. 4i+3. */
  function QuadIndices(i: nat): seq<int> {
    var offset := i * VerticesPerQuad;
    [0 + offset, 2 + offset, 1 + offset, 0 + offset, 3 + offset, 2 + offset]
  }

  /** The packed records of the objects, in order. */
  function PackedRecords(objects: seq<DisplayObject>): seq<real> {
    if objects == [] then [] else PackedRecords(objects[..|objects| - 1]) + PackedRecord(objects[|objects| - 1])
  }

  function Quads(n: nat): seq<real> {
    if n == 0 then [] else Quads(n - 1) + QuadVertices
  }

  function Indices(n: nat): seq<int> {
    if n == 0 then [] else Indices(n - 1) + QuadIndices(n - 1)
  }

  lemma {:induction false} PackedRecordsLength(objects: seq<DisplayObject>)
    ensures |PackedRecords(objects)| == PackedRecordSize * |objects|
  {
    if objects != [] {
      PackedRecordsLength(objects[..|objects| - 1]);
    }
  }

  /** Six floats per object; those of object i sit at 6i .. 6i+5. */
  lemma {:induction false} PackedRecordsLayout(objects: seq<DisplayObject>)
    ensures |PackedRecords(objects)| == PackedRecordSize * |objects|
    ensures forall i :: 0 <= i < |objects| ==>
      PackedRecords(objects)[PackedRecordSize * i..PackedRecordSize * i + PackedRecordSize] == PackedRecord(objects[i])
  {
    PackedRecordsLength(objects);
    if objects != [] {
      var init := objects[..|objects| - 1];
      var last := PackedRecord(objects[|objects| - 1]);
      PackedRecordsLayout(init);
      var prev := PackedRecords(init);
      assert PackedRecords(objects) == prev + last;
      forall i | 0 <= i < |objects|
        ensures PackedRecords(objects)[PackedRecordSize * i..PackedRecordSize * i + PackedRecordSize] == PackedRecord(objects[i])
      {
        if i < |init| {
          assert objects[i] == init[i];
          assert PackedRecordSize * i + PackedRecordSize <= |prev|;
          assert (prev + last)[PackedRecordSize * i..PackedRecordSize * i + PackedRecordSize]
              == prev[PackedRecordSize * i..PackedRecordSize * i + PackedRecordSize];
        } else {
          assert PackedRecordSize * i == |prev|;
          assert (prev + last)[|prev|..|prev| + PackedRecordSize] == last;
        }
      }
    }
  }

  lemma {:induction false} QuadsLayout(n: nat)
    ensures |Quads(n)| == QuadFloats * n
    ensures forall i :: 0 <= i < n ==> Quads(n)[QuadFloats * i..QuadFloats * i + QuadFloats] == QuadVertices
  {
    if n > 0 {
      QuadsLayout(n - 1);
    }
  }

  /** Six indices per quad; those of quad i are QuadIndices(i); all stay below 4n. */
  lemma {:induction false} IndicesLayout(n: nat)
    ensures |Indices(n)| == IndicesPerQuad * n
    ensures forall i :: 0 <= i < n ==> Indices(n)[IndicesPerQuad * i..IndicesPerQuad * i + IndicesPerQuad] == QuadIndices(i)
    ensures forall k :: 0 <= k < |Indices(n)| ==> 0 <= Indices(n)[k] < VerticesPerQuad * n
  {
    if n > 0 {
      IndicesLayout(n - 1);
      var prev := Indices(n - 1);
      forall k | 0 <= k < |Indices(n)| ensures 0 <= Indices(n)[k] < VerticesPerQuad * n {
        if k >= |prev| {
          assert Indices(n)[k] == QuadIndices(n - 1)[k - |prev|];
        } else {
          assert Indices(n)[k] == prev[k];
        }
      }
    }
  }

  /** What each field of a packed record holds, by shape. */
  lemma PackedRecordFields(o: DisplayObject)
    ensures |PackedRecord(o)| == PackedRecordSize
    ensures o.nodeName == Circle ==> PackedRecord(o)[..3] == [o.parsedStyle.r, o.parsedStyle.r, 0.0]
    ensures o.nodeName == Ellipse ==> PackedRecord(o)[..3] == [o.parsedStyle.rx, o.parsedStyle.ry, 1.0]
    ensures o.nodeName != Circle && o.nodeName != Ellipse ==> PackedRecord(o)[..3] == [0.0, 0.0, -1.0]
    ensures PackedRecord(o)[3] == RadiusOrZero(o.parsedStyle.radius)
    ensures PackedRecord(o)[4] == (if ShouldOmitStroke(o.parsedStyle) then 1.0 else 0.0) && PackedRecord(o)[5] == 0.0
  {
    assert Circle != Ellipse by { assert Circle[0] != Ellipse[0]; }
  }

  lemma {:induction false} PackedRecordsAppend(a: seq<DisplayObject>, b: seq<DisplayObject>)
    ensures PackedRecords(a + b) == PackedRecords(a) + PackedRecords(b)
    decreases |b|
  {
    if b == [] {
      assert a + b == a;
    } else {
      var b' := b[..|b| - 1];
      assert (a + b)[..|a + b| - 1] == a + b';
      PackedRecordsAppend(a, b');
    }
  }

  /** Rewriting the records of objects startIndex .. startIndex+|changed|-1 in
      place gives the buffer the new object list would have been built with:
      records before and after the range are untouched. */
  lemma PartialUpdateIsLocal(objects: seq<DisplayObject>, startIndex: nat, changed: seq<DisplayObject>)
    requires startIndex + |changed| <= |objects|
    ensures var buffer := PackedRecords(objects);
      var at := PackedRecordSize * startIndex;
      at + |PackedRecords(changed)| <= |buffer|
      && buffer[..at] + PackedRecords(changed) + buffer[at + |PackedRecords(changed)|..]
         == PackedRecords(objects[..startIndex] + changed + objects[startIndex + |changed|..])
  {
    var before, within, after := objects[..startIndex], objects[startIndex..startIndex + |changed|], objects[startIndex + |changed|..];
    assert objects == (before + within) + after;
    assert objects[..startIndex] + changed + objects[startIndex + |changed|..] == (before + changed) + after;
    PackedRecordsAppend(before + within, after);
    PackedRecordsAppend(before, within);
    PackedRecordsAppend(before + changed, after);
    PackedRecordsAppend(before, changed);
    PackedRecordsLength(before);
    PackedRecordsLength(within);
    PackedRecordsLength(changed);
    var pb, pw, pa, pc := PackedRecords(before), PackedRecords(within), PackedRecords(after), PackedRecords(changed);
    assert PackedRecords(objects) == pb + pw + pa;
    assert PackedRecords((before + changed) + after) == pb + pc + pa;
    Splice(pb, pw, pa, pc);
  }

  /** Overwriting the middle part of a sequence with one of the same length. */
  lemma Splice(pb: seq<real>, pw: seq<real>, pa: seq<real>, pc: seq<real>)
    requires |pw| == |pc|
    ensures |pb| + |pc| <= |pb + pw + pa|
    ensures (pb + pw + pa)[..|pb|] + pc + (pb + pw + pa)[|pb| + |pc|..] == pb + pc + pa
  {
    assert (pb + pw + pa)[..|pb|] == pb;
    assert (pb + pw + pa)[|pb| + |pc|..] == pa;
  }

  // ---- Geometry: records the buffers it is given ----

  datatype Format = F32_RG | F32_RGBA

  function ComponentCount(f: Format): nat {
    match f
    case F32_RG => 2
    case F32_RGBA => 4
  }

  datatype Frequency = PerVertex | PerInstance

  /** The vertex buffer slots this mesh fills: the base class's position
      buffer and the packed-style buffer right after it. */
  datatype BufferIndex = PositionBuffer | PackedStyleBuffer

  /** Attribute locations: the base class's position and uv, and the two this
      mesh adds after the base class's last location. */
  datatype Location = Position | Uv | PackedStyle3 | Size

  datatype VertexAttribute = VertexAttribute(format: Format, bufferByteOffset: nat, location: Location, divisor: nat)

  datatype VertexBuffer = VertexBuffer(
    bufferIndex: BufferIndex,
    byteStride: nat,
    frequency: Frequency,
    attributes: seq<VertexAttribute>,
    data: seq<real>)

  datatype BufferUpdate = BufferUpdate(bufferIndex: BufferIndex, location: Location, startIndex: nat, data: seq<real>)

  const FloatBytes: nat := 4

  /** The per-vertex buffer: position then uv, two floats each, 16 bytes per vertex. */
  function QuadBuffer(n: nat): VertexBuffer {
    VertexBuffer(PositionBuffer, FloatBytes * 4, PerVertex,
      [VertexAttribute(F32_RG, FloatBytes * 0, Position, 0), VertexAttribute(F32_RG, FloatBytes * 2, Uv, 0)],
      Quads(n))
  }

  /** The per-instance buffer: size (two floats) then the packed style (four floats), 24 bytes per instance. */
  function StyleBuffer(objects: seq<DisplayObject>): VertexBuffer {
    VertexBuffer(PackedStyleBuffer, FloatBytes * 6, PerInstance,
      [VertexAttribute(F32_RG, FloatBytes * 0, Size, 1), VertexAttribute(F32_RGBA, FloatBytes * 2, PackedStyle3, 1)],
      PackedRecords(objects))
  }

  /** The attributes lie back to back and fill the declared stride exactly. */
  predicate AttributesTileStride(b: VertexBuffer) {
    |b.attributes| > 0
    && b.attributes[0].bufferByteOffset == 0
    && (forall i :: 0 <= i < |b.attributes| - 1 ==>
          b.attributes[i + 1].bufferByteOffset == b.attributes[i].bufferByteOffset + FloatBytes * ComponentCount(b.attributes[i].format))
    && b.attributes[|b.attributes| - 1].bufferByteOffset + FloatBytes * ComponentCount(b.attributes[|b.attributes| - 1].format) == b.byteStride
  }

  /** Declared strides match what is stored: 16 bytes for each vertex's 4
      floats, 24 bytes for each instance's 6-float record, attributes tiling
      each stride; the data holds one quad or one record per obj. */
  lemma BufferLayoutsAgree(objects: seq<DisplayObject>)
    ensures AttributesTileStride(QuadBuffer(|objects|)) && AttributesTileStride(StyleBuffer(objects))
    ensures QuadBuffer(|objects|).byteStride == FloatBytes * QuadFloats / VerticesPerQuad
    ensures StyleBuffer(objects).byteStride == FloatBytes * PackedRecordSize
    ensures |QuadBuffer(|objects|).data| == QuadFloats * |objects|
    ensures |StyleBuffer(objects).data| == PackedRecordSize * |objects|
  {
    QuadsLayout(|objects|);
    PackedRecordsLayout(objects);
  }

  /** The render geometry, as the calls it receives. */
  class Geometry {
    var indexBuffer: seq<int>
    var vertexCount: nat
    var vertexBuffers: map<BufferIndex, VertexBuffer>
    var updates: seq<BufferUpdate>

    constructor ()
      ensures indexBuffer == [] && vertexCount == 0 && vertexBuffers == map[] && updates == []
    {
      indexBuffer, vertexCount, vertexBuffers, updates := [], 0, map[], [];
    }

    method SetIndexBuffer(indices: seq<int>)
      modifies this
      ensures indexBuffer == indices
      ensures vertexCount == old(vertexCount) && vertexBuffers == old(vertexBuffers) && updates == old(updates)
    {
      indexBuffer := indices;
    }

    method SetVertexBuffer(buffer: VertexBuffer)
      modifies this
      ensures vertexBuffers == old(vertexBuffers)[buffer.bufferIndex := buffer]
      ensures indexBuffer == old(indexBuffer) && vertexCount == old(vertexCount) && updates == old(updates)
    {
      vertexBuffers := vertexBuffers[buffer.bufferIndex := buffer];
    }

    method UpdateVertexBuffer(bufferIndex: BufferIndex, location: Location, startIndex: nat, data: seq<real>)
      modifies this
      ensures updates == old(updates) + [BufferUpdate(bufferIndex, location, startIndex, data)]
      ensures indexBuffer == old(indexBuffer) && vertexCount == old(vertexCount) && vertexBuffers == old(vertexBuffers)
    {
      updates := updates + [BufferUpdate(bufferIndex, location, startIndex, data)];
    }
  }

  /** Style attributes whose change rewrites the packed records. */
  const RestyledAttributes: set<string> := {"r", "rx", "ry", "lineWidth", "stroke", "lineDash", "strokeOpacity"}

  class Mesh {
    const geometry: Geometry

    constructor (geometry: Geometry)
      ensures this.geometry == geometry
    {
      this.geometry := geometry;
    }

    /** Builds the quads, indices and packed records of all objects and hands them to the geometry. */
    method CreateGeometry(objects: seq<DisplayObject>)
      modifies geometry
      ensures geometry.indexBuffer == Indices(|objects|)
      ensures geometry.vertexCount == IndicesPerQuad
      ensures geometry.vertexBuffers ==
        old(geometry.vertexBuffers)[PositionBuffer := QuadBuffer(|objects|)][PackedStyleBuffer := StyleBuffer(objects)]
      ensures geometry.updates == old(geometry.updates)
    {
      var interleaved: seq<real> := [];
      var instanced: seq<real> := [];
      var indices: seq<int> := [];
      var i := 0;
      while i < |objects|
        invariant 0 <= i <= |objects|
        invariant instanced == PackedRecords(objects[..i])
        invariant interleaved == Quads(i)
        invariant indices == Indices(i)
      {
        var obj := objects[i];
        var offset := i * 4;
        var omitStroke := ShouldOmitStroke(obj.parsedStyle);
        var (w, h) := GetSize(obj.parsedStyle, obj.nodeName);
        instanced := instanced + [w, h, IndexOf(SdfShapes, obj.nodeName) as real,
          RadiusOrZero(obj.parsedStyle.radius), if omitStroke then 1.0 else 0.0, 0.0];
        interleaved := interleaved + [-1.0, -1.0, 0.0, 0.0, 1.0, -1.0, 1.0, 0.0, 1.0, 1.0, 1.0, 1.0, -1.0, 1.0, 0.0, 1.0];
        indices := indices + [0 + offset, 2 + offset, 1 + offset, 0 + offset, 3 + offset, 2 + offset];
        assert objects[..i + 1][..i] == objects[..i];
        i := i + 1;
      }
      assert objects[..i] == objects;
      geometry.SetIndexBuffer(indices);
      geometry.vertexCount := 6;
      geometry.SetVertexBuffer(VertexBuffer(PositionBuffer, 4 * 4, PerVertex,
        [VertexAttribute(F32_RG, 4 * 0, Position, 0), VertexAttribute(F32_RG, 4 * 2, Uv, 0)],
        interleaved));
      geometry.SetVertexBuffer(VertexBuffer(PackedStyleBuffer, 4 * 6, PerInstance,
        [VertexAttribute(F32_RG, 4 * 0, Size, 1), VertexAttribute(F32_RGBA, 4 * 2, PackedStyle3, 1)],
        instanced));
    }

    /** After a change of attribute `name` on objects[0..] (which start at
        instance startIndex), rewrites their packed records, but only for the
        attributes the records depend on. */
    method UpdateAttribute(objects: seq<DisplayObject>, startIndex: nat, name: string)
      modifies geometry
      ensures name in RestyledAttributes ==>
        geometry.updates == old(geometry.updates) + [BufferUpdate(PackedStyleBuffer, Size, startIndex, PackedRecords(objects))]
      ensures name !in RestyledAttributes ==> geometry.updates == old(geometry.updates)
      ensures geometry.indexBuffer == old(geometry.indexBuffer) && geometry.vertexCount == old(geometry.vertexCount)
      ensures geometry.vertexBuffers == old(geometry.vertexBuffers)
    {
      if name == "r" || name == "rx" || name == "ry" || name == "lineWidth" || name == "stroke"
        || name == "lineDash" || name == "strokeOpacity"
      {
        var packed: seq<real> := [];
        var i := 0;
        while i < |objects|
          invariant 0 <= i <= |objects|
          invariant packed == PackedRecords(objects[..i])
        {
          var obj := objects[i];
          var omitStroke := ShouldOmitStroke(obj.parsedStyle);
          var (halfWidth, halfHeight) := GetSize(obj.parsedStyle, obj.nodeName);
          packed := packed + [halfWidth, halfHeight, IndexOf(SdfShapes, obj.nodeName) as real,
            RadiusOrZero(obj.parsedStyle.radius), if omitStroke then 1.0 else 0.0, 0.0];
          assert objects[..i + 1][..i] == objects[..i];
          i := i + 1;
        }
        assert objects[..i] == objects;
        geometry.UpdateVertexBuffer(PackedStyleBuffer, Size, startIndex, packed);
      }
    }
  }
}
