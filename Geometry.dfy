/** Static geometry of the sample: the `Vertex3D` layout and the constant-buffer sizes
    (main/Renderer.h), the cube's index buffer filled by `Cube::onInit` (main/Cube.cpp) and the
    quad the renderer draws (main/Renderer.cpp, `createAssets`). Vertex positions, normals and
    colours are floating-point data and are not modelled; only counts, sizes and indices are. */
module Geometry {

  const FloatSize: nat := 4
  /** `sizeof(UINT)`, the index format DXGI_FORMAT_R32_UINT. */
  const UintSize: nat := 4

  /** One interleaved attribute of a vertex: its float count. */
  datatype Attribute = Position | Normal | TexCoord | Color

  function Components(a: Attribute): nat {
    match a
    case Position => 3
    case Normal => 3
    case TexCoord => 2
    case Color => 4
  }

  /** `Vertex3D`: position, normal, texCoord, color, in that order. */
  const Vertex3DLayout: seq<Attribute> := [Position, Normal, TexCoord, Color]

  /** Bytes taken by a prefix of a layout of float attributes. */
  function LayoutSize(layout: seq<Attribute>): nat {
    if layout == [] then 0 else LayoutSize(layout[..|layout| - 1]) + Components(layout[|layout| - 1]) * FloatSize
  }

  /** Byte offset of attribute `i` inside a vertex. */
  function AttributeOffset(layout: seq<Attribute>, i: nat): nat
    requires i <= |layout|
  {
    LayoutSize(layout[..i])
  }

  /** `sizeof(Vertex3D)`, the vertex-buffer stride. */
  function Vertex3DSize(): nat {
    LayoutSize(Vertex3DLayout)
  }

  /** A vertex is 12 floats, 48 bytes; the attributes sit at byte offsets 0, 12, 24 and 32. */
  lemma Vertex3DIs48Bytes()
    ensures Vertex3DSize() == 48
    ensures AttributeOffset(Vertex3DLayout, 0) == 0
    ensures AttributeOffset(Vertex3DLayout, 1) == 12
    ensures AttributeOffset(Vertex3DLayout, 2) == 24
    ensures AttributeOffset(Vertex3DLayout, 3) == 32
  {
    assert Vertex3DLayout[..0] == [];
    assert Vertex3DLayout[..1] == [Position];
    assert Vertex3DLayout[..2] == [Position, Normal];
    assert Vertex3DLayout[..3] == [Position, Normal, TexCoord];
    assert [Position, Normal, TexCoord, Color][..3] == [Position, Normal, TexCoord];
    assert [Position, Normal, TexCoord][..2] == [Position, Normal];
    assert [Position, Normal][..1] == [Position];
    assert [Position][..0] == [];
  }

  /** `_declspec(align(256u))`: the size of a struct rounded up to the next multiple of 256. */
  function AlignUp(n: nat, alignment: nat): (r: nat)
    requires alignment > 0
    ensures r % alignment == 0
    ensures n <= r < n + alignment
  {
    var q, rem := n / alignment, n % alignment;
    MultipleModZero(q, alignment);
    MultipleModZero(q + 1, alignment);
    if rem == 0 then n else (q + 1) * alignment
  }

  lemma MultipleModZero(k: nat, a: nat)
    requires a > 0
    ensures (k * a) % a == 0
  {
    var q, r := (k * a) / a, (k * a) % a;
    assert (k - q) * a == r;
    if k - q >= 1 {
      assert (k - q) * a == (k - q - 1) * a + a;
    } else if k - q <= -1 {
      assert (q - k) * a == (q - k - 1) * a + a;
    }
  }

  const ConstantBufferAlignment: nat := 256
  /** One 4x4 float matrix (world). */
  const ObjectConstantBufferFields: nat := 16 * FloatSize
  /** Two 4x4 float matrices (view, projection). */
  const CameraConstantBufferFields: nat := 32 * FloatSize

  function ObjectConstantBufferSize(): nat {
    AlignUp(ObjectConstantBufferFields, ConstantBufferAlignment)
  }

  function CameraConstantBufferSize(): nat {
    AlignUp(CameraConstantBufferFields, ConstantBufferAlignment)
  }

  /** Both constant buffers are a single 256-byte block, as constant-buffer views require. */
  lemma ConstantBuffersAre256Bytes()
    ensures ObjectConstantBufferSize() == 256
    ensures CameraConstantBufferSize() == 256
  {
  }

  // ---------------------------------------------------------------------------
  // The cube (Cube::onInit)

  const CubeFaceCount: nat := 6
  const CubeVertexCount: nat := 24
  const CubeIndexCount: nat := 36

  /** The six indices written per face, relative to the face's first vertex. */
  const FacePattern: seq<nat> := [0, 1, 2, 1, 3, 2]

  /** The index buffer the loop leaves: entry `6i + k` is `4i + FacePattern[k]`. */
  function CubeIndices(): (s: seq<nat>)
    ensures |s| == CubeIndexCount
  {
    seq(CubeIndexCount, j requires 0 <= j < CubeIndexCount => CubeIndex(j))
  }

  /** The `for (UINT i = 0; i < 6; ++i)` loop of `Cube::onInit`, writing the mapped index buffer
      in place. */
  method FillCubeIndices(indexBegin: array<nat>)
    requires indexBegin.Length == CubeIndexCount
    modifies indexBegin
    ensures indexBegin[..] == CubeIndices()
  {
    var i := 0;
    while i < CubeFaceCount
      invariant 0 <= i <= CubeFaceCount
      invariant forall j :: 0 <= j < 6 * i ==> indexBegin[j] == CubeIndex(j)
    {
      FaceSlots(i);
      ghost var before := indexBegin[..];
      indexBegin[i * 6 + 0] := i * 4 + 0;
      indexBegin[i * 6 + 1] := i * 4 + 1;
      indexBegin[i * 6 + 2] := i * 4 + 2;
      indexBegin[i * 6 + 3] := i * 4 + 1;
      indexBegin[i * 6 + 4] := i * 4 + 3;
      indexBegin[i * 6 + 5] := i * 4 + 2;
      FaceStep(before, indexBegin[..], i);
      i := i + 1;
    }
  }

  /** Face `i`'s six entries lie inside the index buffer, just after the faces before it. */
  lemma FaceSlots(i: nat)
    requires i < CubeFaceCount
    ensures i * 6 == 6 * i && i * 4 == 4 * i
    ensures 6 * (i + 1) == 6 * i + 6 && 6 * i + 6 <= CubeIndexCount
  {
  }

  /** Writing face `i`'s six entries after the faces before it extends the prefix that agrees
      with `CubeIndices`. */
  lemma FaceStep(before: seq<nat>, after: seq<nat>, i: nat)
    requires i < CubeFaceCount && |before| == CubeIndexCount && |after| == CubeIndexCount
    requires forall j :: 0 <= j < 6 * i ==> before[j] == CubeIndex(j)
    requires forall j :: 0 <= j < 6 * i ==> after[j] == before[j]
    requires after[6 * i] == 4 * i && after[6 * i + 1] == 4 * i + 1 && after[6 * i + 2] == 4 * i + 2
    requires after[6 * i + 3] == 4 * i + 1 && after[6 * i + 4] == 4 * i + 3 && after[6 * i + 5] == 4 * i + 2
    ensures forall j :: 0 <= j < 6 * i + 6 ==> after[j] == CubeIndex(j)
  {
    FaceEntries(i);
  }

  /** The six entries of face `f`, written out. */
  lemma FaceEntries(f: nat)
    ensures CubeIndex(6 * f) == 4 * f && CubeIndex(6 * f + 1) == 4 * f + 1
    ensures CubeIndex(6 * f + 2) == 4 * f + 2 && CubeIndex(6 * f + 3) == 4 * f + 1
    ensures CubeIndex(6 * f + 4) == 4 * f + 3 && CubeIndex(6 * f + 5) == 4 * f + 2
  {
    CubeIndexAt(f, 0);
    CubeIndexAt(f, 1);
    CubeIndexAt(f, 2);
    CubeIndexAt(f, 3);
    CubeIndexAt(f, 4);
    CubeIndexAt(f, 5);
  }

  /** Entry `j` of the cube's index buffer: face `j / 6`, position `j % 6` in the face. */
  function CubeIndex(j: nat): nat {
    4 * (j / 6) + FacePattern[j % 6]
  }

  /** Entry `k` of face `f` sits at index `6f + k` of the index buffer. */
  lemma CubeIndexAt(f: nat, k: nat)
    requires k < 6
    ensures CubeIndex(6 * f + k) == 4 * f + FacePattern[k]
  {
    assert (6 * f + k) / 6 == f && (6 * f + k) % 6 == k;
  }

  /** A triangle of an index buffer. */
  datatype Triangle = Triangle(a: nat, b: nat, c: nat)

  /** The triangle list an index buffer stands for (D3D_PRIMITIVE_TOPOLOGY_TRIANGLELIST). */
  function Triangles(indices: seq<nat>): (ts: seq<Triangle>)
    requires |indices| % 3 == 0
    ensures |ts| * 3 == |indices|
    ensures forall t :: 0 <= t < |ts| ==>
      ts[t] == Triangle(indices[3 * t], indices[3 * t + 1], indices[3 * t + 2])
  {
    seq(|indices| / 3, t requires 0 <= t < |indices| / 3 => Triangle(indices[3 * t], indices[3 * t + 1], indices[3 * t + 2]))
  }

  /** Face `i` is drawn as triangles (4i, 4i+1, 4i+2) and (4i+1, 4i+3, 4i+2). */
  lemma CubeFaceTriangles(i: nat)
    requires i < CubeFaceCount
    ensures Triangles(CubeIndices())[2 * i] == Triangle(4 * i, 4 * i + 1, 4 * i + 2)
    ensures Triangles(CubeIndices())[2 * i + 1] == Triangle(4 * i + 1, 4 * i + 3, 4 * i + 2)
  {
    var s := CubeIndices();
    assert (6 * i) / 6 == i && (6 * i + 1) / 6 == i && (6 * i + 2) / 6 == i;
    assert (6 * i + 3) / 6 == i && (6 * i + 4) / 6 == i && (6 * i + 5) / 6 == i;
    assert s[6 * i] == 4 * i;
    assert s[6 * i + 1] == 4 * i + 1;
    assert s[6 * i + 2] == 4 * i + 2;
    assert s[6 * i + 3] == 4 * i + 1;
    assert s[6 * i + 4] == 4 * i + 3;
    assert s[6 * i + 5] == 4 * i + 2;
  }

  /** The 36 indices form 12 triangles, and every index entry of face `j / 6` lies among that
      face's own four vertices, so every index is below the 24 vertices written. */
  lemma CubeIndicesValid()
    ensures |Triangles(CubeIndices())| == 12
    ensures forall j :: 0 <= j < CubeIndexCount ==>
      4 * (j / 6) <= CubeIndices()[j] < 4 * (j / 6) + 4 && CubeIndices()[j] < CubeVertexCount
  {
  }

  /** Every one of the 24 vertices is referenced by some index. */
  lemma CubeUsesEveryVertex(v: nat)
    requires v < CubeVertexCount
    ensures exists j :: 0 <= j < CubeIndexCount && CubeIndices()[j] == v
  {
    var face, k := v / 4, v % 4;
    var slot := if k == 0 then 0 else if k == 1 then 1 else if k == 2 then 2 else 4;
    var j := 6 * face + slot;
    assert j / 6 == face && j % 6 == slot;
    assert CubeIndices()[j] == v;
  }

  /** `resDesc.Width` for the cube's buffers: 24 vertices of `sizeof(Vertex3D)` and 36 `UINT`s;
      the draw call's count, 36, is what the index buffer holds. */
  function CubeVertexBufferSize(): nat { CubeVertexCount * Vertex3DSize() }
  function CubeIndexBufferSize(): nat { UintSize * CubeIndexCount }
  const CubeDrawIndexCount: nat := 36

  lemma CubeBufferSizes()
    ensures CubeVertexBufferSize() == 1152
    ensures CubeIndexBufferSize() == 144
    ensures CubeIndexBufferSize() / UintSize == |CubeIndices()| == CubeDrawIndexCount
    ensures CubeVertexBufferSize() / Vertex3DSize() == CubeVertexCount
  {
    Vertex3DIs48Bytes();
  }

  // ---------------------------------------------------------------------------
  // The renderer's quad (Renderer::createAssets)

  const QuadVertexCount: nat := 4
  const QuadIndices: seq<nat> := [0, 1, 2, 1, 3, 2]

  function QuadVertexBufferSize(): nat { QuadVertexCount * Vertex3DSize() }
  function QuadIndexBufferSize(): nat { UintSize * |QuadIndices| }

  /** The quad is two triangles over its 4 vertices with the same winding as one cube face;
      `mIndexCount` is 6 and the buffers are 192 and 24 bytes. */
  lemma QuadIndicesValid()
    ensures forall j :: 0 <= j < |QuadIndices| ==> QuadIndices[j] < QuadVertexCount
    ensures Triangles(QuadIndices) == [Triangle(0, 1, 2), Triangle(1, 3, 2)]
    ensures QuadIndices == CubeIndices()[..6]
    ensures QuadVertexBufferSize() == 192 && QuadIndexBufferSize() == 24
  {
    Vertex3DIs48Bytes();
    var t := Triangles(QuadIndices);
    assert t[0] == Triangle(0, 1, 2) && t[1] == Triangle(1, 3, 2);
  }
}
