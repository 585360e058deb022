/** The three persisted component structs of the entity–component model, the
    cached world matrix, and the per-entity component record. An entity holds
    at most one component of each kind; the record's optional fields make that
    structural. */
module Components {
  import opened Wrappers
  import opened ResourceManager

  /** A `vec3`; float rounding is not modelled. */
  datatype Vec3 = Vec3(x: real, y: real, z: real)

  const Origin := Vec3(0.0, 0.0, 0.0)
  const UnitScale := Vec3(1.0, 1.0, 1.0)

  /** A `mat4`. `CreateSRT` is uninterpreted: it is the symbolic value
      `Srt(scale, rotation, position)`; any other matrix is `Other`. */
  datatype Mat4 = Srt(scale: Vec3, rotation: Vec3, position: Vec3) | Other(id: nat)

  const NUL: char := '\0'

  /** Size of `NameData::m_Name`, terminator included. */
  const MaxNameLength: nat := 32

  /** The string a `const char*` designates: everything before the first NUL. */
  function CStr(s: string): (r: string)
    ensures |r| <= |s| && r == s[..|r|]
    ensures NUL !in r
    ensures |r| < |s| ==> s[|r|] == NUL
  {
    if |s| == 0 || s[0] == NUL then []
    else [s[0]] + CStr(s[1..])
  }

  /** A string with no NUL in it is its own C string. */
  lemma {:induction false} CStrOfPlain(s: string)
    requires NUL !in s
    ensures CStr(s) == s
  {
    if |s| > 0 {
      assert NUL !in s[1..];
      CStrOfPlain(s[1..]);
    }
  }

  /** The C string of `p + [NUL] + q` is `p`, whatever follows the NUL. */
  lemma {:induction false} CStrStopsAtNul(p: string, q: string)
    requires NUL !in p
    ensures CStr(p + [NUL] + q) == p
  {
    if |p| == 0 {
      assert (p + [NUL] + q)[0] == NUL;
    } else {
      assert (p + [NUL] + q)[1..] == p[1..] + [NUL] + q;
      assert NUL !in p[1..];
      CStrStopsAtNul(p[1..], q);
    }
  }

  /** `NameData`: a fixed 32-character buffer holding a NUL-terminated name. */
  datatype NameData = NameData(buffer: seq<char>)

  /** The name a `NameData` holds: its buffer read as a C string. */
  function NameOf(n: NameData): string {
    CStr(n.buffer)
  }

  /** `NameData(name)`: `strncpy_s(m_Name, 32, name, 32)`. The copy is only
      defined when the name fits with its terminator (at most 31 characters);
      a longer name violates the runtime constraint of `strncpy_s`. The bytes
      after the terminator are unspecified by `strncpy_s`; they are NUL here. */
  function NewNameData(name: string): (n: NameData)
    requires |CStr(name)| < MaxNameLength
    ensures |n.buffer| == MaxNameLength
    ensures n.buffer[..|CStr(name)|] == CStr(name)
    ensures n.buffer[|CStr(name)|] == NUL
    ensures NameOf(n) == CStr(name)
  {
    var s := CStr(name);
    var padding := seq(MaxNameLength - |s| - 1, _ => NUL);
    CStrStopsAtNul(s, padding);
    assert s + [NUL] + padding == s + seq(MaxNameLength - |s|, _ => NUL);
    NameData(s + seq(MaxNameLength - |s|, _ => NUL))
  }

  /** A plain name of at most 31 characters is stored exactly. */
  lemma StoredExactly(name: string)
    requires NUL !in name && |name| < MaxNameLength
    ensures NameOf(NewNameData(name)) == name
  {
    CStrOfPlain(name);
  }

  /** `TransformData`: three independent vectors, no parent link. */
  datatype TransformData = TransformData(position: Vec3, rotation: Vec3, scale: Vec3)

  /** `MeshData`: two non-owning pointers, either of which may be null. */
  datatype MeshData = MeshData(mesh: Option<Resource>, material: Option<Resource>)

  datatype Kind = NameKind | TransformKind | TransformMatrixKind | MeshKind

  /** One component value, tagged with its kind. */
  datatype Component =
    | NameC(name: NameData)
    | TransformC(transform: TransformData)
    | TransformMatrixC(matrix: Mat4)
    | MeshC(meshData: MeshData)
  {
    function KindOf(): Kind {
      match this
      case NameC(_) => NameKind
      case TransformC(_) => TransformKind
      case TransformMatrixC(_) => TransformMatrixKind
      case MeshC(_) => MeshKind
    }
  }

  /** The components attached to one entity, at most one per kind. */
  datatype Components = Components(
    name: Option<NameData>,
    transform: Option<TransformData>,
    matrix: Option<Mat4>,
    mesh: Option<MeshData>)

  const NoComponents := Components(None, None, None, None)

  predicate Has(cs: Components, k: Kind) {
    match k
    case NameKind => cs.name.Some?
    case TransformKind => cs.transform.Some?
    case TransformMatrixKind => cs.matrix.Some?
    case MeshKind => cs.mesh.Some?
  }

  function Attached(cs: Components): (r: set<Kind>)
    ensures forall k :: k in r <==> Has(cs, k)
  {
    (if cs.name.Some? then {NameKind} else {})
    + (if cs.transform.Some? then {TransformKind} else {})
    + (if cs.matrix.Some? then {TransformMatrixKind} else {})
    + (if cs.mesh.Some? then {MeshKind} else {})
  }

  /** `try_get` / `get`: the component of kind `k`, if attached. */
  function Lookup(cs: Components, k: Kind): (r: Option<Component>)
    ensures r.Some? <==> Has(cs, k)
    ensures r.Some? ==> r.value.KindOf() == k
  {
    match k
    case NameKind => if cs.name.Some? then Some(NameC(cs.name.value)) else None
    case TransformKind => if cs.transform.Some? then Some(TransformC(cs.transform.value)) else None
    case TransformMatrixKind => if cs.matrix.Some? then Some(TransformMatrixC(cs.matrix.value)) else None
    case MeshKind => if cs.mesh.Some? then Some(MeshC(cs.mesh.value)) else None
  }

  /** Attaches `c`, replacing any component of the same kind. */
  function Attach(cs: Components, c: Component): (r: Components)
    ensures Lookup(r, c.KindOf()) == Some(c)
    ensures forall k :: k != c.KindOf() ==> Lookup(r, k) == Lookup(cs, k)
    ensures Attached(r) == Attached(cs) + {c.KindOf()}
  {
    match c
    case NameC(n) => cs.(name := Some(n))
    case TransformC(t) => cs.(transform := Some(t))
    case TransformMatrixC(m) => cs.(matrix := Some(m))
    case MeshC(m) => cs.(mesh := Some(m))
  }

  /** Two component records with the same lookups are the same record. */
  lemma LookupDetermines(a: Components, b: Components)
    requires forall k :: Lookup(a, k) == Lookup(b, k)
    ensures a == b
  {
    assert Lookup(a, NameKind) == Lookup(b, NameKind);
    assert Lookup(a, TransformKind) == Lookup(b, TransformKind);
    assert Lookup(a, TransformMatrixKind) == Lookup(b, TransformMatrixKind);
    assert Lookup(a, MeshKind) == Lookup(b, MeshKind);
  }
}
