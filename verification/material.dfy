/** `Material` of the resource revision: the shader, textures, colour and UV
    transform a mesh is drawn with, plus blend, write, cull and depth settings
    that `GetBGFXRenderState` packs into a 64-bit bgfx state word. A state
    word is modelled as the set of positions of its set bits, so `|` is
    union and `&` is intersection. The bgfx constants and state macros are
    not part of this model: they are the fields of a `Bgfx` value,
    constrained only as far as the packing relies on them. */
module Materials {
  import Wrappers
  import MathHelpers
  import ResourceManager

  datatype BlendEquation = None | Add | Sub | RevSub | Min | Max | SameAsColor

  datatype BlendFunc =
    | Zero | One | SrcColor | InvSrcColor | SrcAlpha | InvSrcAlpha
    | DstAlpha | InvDstAlpha | DstColor | InvDstColor | SrcAlphaSaturate | SameAsColor

  datatype DepthTest = Less | LEqual | Equal | GEqual | Greater | NotEqual | Never | Always

  /** The value of a `BlendEquation` enumerator. */
  function EquationOrdinal(e: BlendEquation): nat {
    match e
    case None => 0 case Add => 1 case Sub => 2 case RevSub => 3
    case Min => 4 case Max => 5 case SameAsColor => 6
  }

  /** The enumerator of a `BlendEquation` value. */
  function EquationAt(i: nat): (e: BlendEquation)
    requires i < 7
    ensures EquationOrdinal(e) == i
  {
    [None, Add, Sub, RevSub, Min, Max, BlendEquation.SameAsColor][i]
  }

  /** The value of a `BlendFunc` enumerator. */
  function FuncOrdinal(f: BlendFunc): nat {
    match f
    case Zero => 0 case One => 1 case SrcColor => 2 case InvSrcColor => 3
    case SrcAlpha => 4 case InvSrcAlpha => 5 case DstAlpha => 6 case InvDstAlpha => 7
    case DstColor => 8 case InvDstColor => 9 case SrcAlphaSaturate => 10 case SameAsColor => 11
  }

  /** The enumerator of a `BlendFunc` value. */
  function FuncAt(i: nat): (f: BlendFunc)
    requires i < 12
    ensures FuncOrdinal(f) == i
  {
    [Zero, One, SrcColor, InvSrcColor, SrcAlpha, InvSrcAlpha,
     DstAlpha, InvDstAlpha, DstColor, InvDstColor, SrcAlphaSaturate, BlendFunc.SameAsColor][i]
  }

  /** The value of a `DepthTest` enumerator. */
  function DepthOrdinal(d: DepthTest): nat {
    match d
    case Less => 0 case LEqual => 1 case Equal => 2 case GEqual => 3
    case Greater => 4 case NotEqual => 5 case Never => 6 case Always => 7
  }

  /** The enumerator of a `DepthTest` value. */
  function DepthAt(i: nat): (d: DepthTest)
    requires i < 8
    ensures DepthOrdinal(d) == i
  {
    [Less, LEqual, Equal, GEqual, Greater, NotEqual, Never, Always][i]
  }

  /** `SameAsColor` is the last enumerator of both blend enums, so the value
      of every other enumerator indexes the conversion tables; the ordinals
      number the enumerators one to one. */
  lemma SameAsColorIsLast(e: BlendEquation, f: BlendFunc)
    ensures EquationOrdinal(BlendEquation.SameAsColor) == 6 && FuncOrdinal(BlendFunc.SameAsColor) == 11
    ensures e != BlendEquation.SameAsColor <==> EquationOrdinal(e) < 6
    ensures f != BlendFunc.SameAsColor <==> FuncOrdinal(f) < 11
    ensures EquationAt(EquationOrdinal(e)) == e && FuncAt(FuncOrdinal(f)) == f
  {
  }

  /** `DepthTest` runs from `Less` = 0 to `Always` = 7, one to one. */
  lemma DepthOrdinalsRoundTrip(d: DepthTest)
    ensures DepthOrdinal(d) < 8 && DepthAt(DepthOrdinal(d)) == d
    ensures DepthOrdinal(Less) == 0 && DepthOrdinal(Always) == 7
  {
  }

  /** `RenderStateFlag`: the material's own flags. Each enumerator is a
      single bit of a `uint32`, `1 << k`; the constants here are the bit
      positions `k`, and a flag word is the set of its set positions. */
  const WriteR: nat := 0
  const WriteG: nat := 1
  const WriteB: nat := 2
  const WriteA: nat := 3
  const WriteZ: nat := 4
  const CullCW: nat := 6
  const CullCCW: nat := 7

  /** A `uint32` flag word: the positions (0 to 31) of its set bits. */
  type Flags = set<nat>

  /** The enumerator whose bit position is `k`, as an integer. */
  function FlagValue(k: nat): bv64
    requires k < 64
  {
    MathHelpers.Bit(k as bv7)
  }

  /** `WriteRGB` and `WriteRGBA`, defined in the source as sums of the single
      flags; `FlagsAreDistinctBits` shows the sums are these unions. */
  const WriteRGB: Flags := {WriteR, WriteG, WriteB}
  const WriteRGBA: Flags := {WriteR, WriteG, WriteB, WriteA}

  /** The enumerators are distinct powers of two, so the sums that define the
      combined flags carry no bit into another: they equal the ORs. */
  lemma FlagsAreDistinctBits()
    ensures |{WriteR, WriteG, WriteB, WriteA, WriteZ, CullCW, CullCCW}| == 7
    ensures WriteR < 32 && WriteG < 32 && WriteB < 32 && WriteA < 32 && WriteZ < 32 && CullCW < 32 && CullCCW < 32
    ensures MathHelpers.IsPowerOfTwo(FlagValue(WriteR)) && MathHelpers.IsPowerOfTwo(FlagValue(WriteG))
    ensures MathHelpers.IsPowerOfTwo(FlagValue(WriteB)) && MathHelpers.IsPowerOfTwo(FlagValue(WriteA))
    ensures MathHelpers.IsPowerOfTwo(FlagValue(WriteZ)) && MathHelpers.IsPowerOfTwo(FlagValue(CullCW))
    ensures MathHelpers.IsPowerOfTwo(FlagValue(CullCCW))
    ensures FlagValue(WriteR) + FlagValue(WriteG) + FlagValue(WriteB)
         == FlagValue(WriteR) | FlagValue(WriteG) | FlagValue(WriteB)
    ensures FlagValue(WriteR) + FlagValue(WriteG) + FlagValue(WriteB) + FlagValue(WriteA)
         == FlagValue(WriteR) | FlagValue(WriteG) | FlagValue(WriteB) | FlagValue(WriteA)
  {
  }

  /** A `uint64` bgfx state word: the positions (0 to 63) of its set bits. */
  type Word = set<nat>

  /** The word of a number, truncated to 64 bits: bit `k` of `n mod 2^64`
      for every position from `k` up. */
  function WordFrom(n: nat, k: nat): (w: Word)
    ensures forall i :: i in w ==> k <= i < 64
    decreases 64 - k
  {
    if k >= 64 then {}
    else (if n % 2 == 1 then {k} else {}) + WordFrom(n / 2, k + 1)
  }

  function Pow2(k: nat): (r: nat)
    ensures r >= 1
  {
    if k == 0 then 1 else 2 * Pow2(k - 1)
  }

  /** The number of `uint64` values. */
  const WordRange: nat := Pow2(64)

  lemma {:induction false} Pow2Add(a: nat, b: nat)
    ensures Pow2(a + b) == Pow2(a) * Pow2(b)
  {
    if a > 0 {
      Pow2Add(a - 1, b);
      assert Pow2(a + b) == 2 * Pow2(a - 1 + b);
    }
  }

  /** The `uint64` word of a number: its bits, truncated to 64. */
  function WordOf(n: nat): Word {
    WordFrom(n, 0)
  }

  /** The number a word stands for, reading its bits below 64. */
  function Value(w: Word): nat {
    ValueFrom(w, 0)
  }

  /** The number the bits of a word at positions `k` to 63 spell, bit `k`
      being the least significant. */
  function ValueFrom(w: Word, k: nat): (n: nat)
    decreases 64 - k
  {
    if k >= 64 then 0
    else (if k in w then 1 else 0) + 2 * ValueFrom(w, k + 1)
  }

  /** The value reads only the positions from `k` to 63. */
  lemma {:induction false} ValueFromAgree(w1: Word, w2: Word, k: nat)
    requires forall i :: k <= i < 64 ==> (i in w1 <==> i in w2)
    ensures ValueFrom(w1, k) == ValueFrom(w2, k)
    decreases 64 - k
  {
    if k < 64 {
      ValueFromAgree(w1, w2, k + 1);
    }
  }

  /** Reading a word as a number and writing it back keeps exactly its
      bits from `k` to 63. */
  lemma {:induction false} WordOfValue(w: Word, k: nat)
    ensures WordFrom(ValueFrom(w, k), k) == set i | i in w && k <= i < 64
    decreases 64 - k
  {
    if k < 64 {
      WordOfValue(w, k + 1);
      var n := ValueFrom(w, k);
      assert n % 2 == (if k in w then 1 else 0) && n / 2 == ValueFrom(w, k + 1);
    }
  }

  /** Writing a number below `2^(64-k)` as the bits from `k` up and reading
      it back gives the number. */
  lemma {:induction false} ValueOfWord(n: nat, k: nat)
    requires k <= 64 && n < Pow2(64 - k)
    ensures ValueFrom(WordFrom(n, k), k) == n
    decreases 64 - k
  {
    if k < 64 {
      assert Pow2(64 - k) == 2 * Pow2(64 - (k + 1));
      ValueOfWord(n / 2, k + 1);
      var w := WordFrom(n, k);
      ValueFromAgree(w, WordFrom(n / 2, k + 1), k + 1);
      assert k in w <==> n % 2 == 1;
    }
  }

  /** The bgfx constants and macros the packing uses. The write and cull
      masks are single bits, given by their positions. `blendEquations`
      holds `BGFX_STATE_BLEND_EQUATION_ADD` … `_MAX`; `blendFuncs` holds
      `BGFX_STATE_BLEND_ZERO` … `_SRC_ALPHA_SAT`; the four functions are the
      `BGFX_STATE_BLEND_EQUATION`, `_EQUATION_SEPARATE`, `_FUNC` and
      `_FUNC_SEPARATE` macros. */
  datatype Bgfx = Bgfx(
    writeR: nat, writeG: nat, writeB: nat, writeA: nat,
    cullCW: nat, cullCCW: nat,
    depthTestLess: Word,
    blendEquations: seq<Word>,
    blendFuncs: seq<Word>,
    equation: Word -> Word,
    equationSeparate: (Word, Word) -> Word,
    func: (Word, Word) -> Word,
    funcSeparate: (Word, Word, Word, Word) -> Word)

  /** The six flags the packing translates, each with its bgfx mask, in the
      order R, G, B, A, CW, CCW. `WriteZ` has no entry. */
  function FlagTable(b: Bgfx): seq<(nat, Word)> {
    [(WriteR, {b.writeR}), (WriteG, {b.writeG}), (WriteB, {b.writeB}),
     (WriteA, {b.writeA}), (CullCW, {b.cullCW}), (CullCCW, {b.cullCCW})]
  }

  /** The conversion tables have an entry for every enumerator before
      `SameAsColor`. */
  predicate TablesFull(b: Bgfx) {
    |b.blendEquations| == 5 && |b.blendFuncs| == 11
  }

  /** The masks of a flag table are non-empty and share no bit. */
  predicate Disjoint(t: seq<(nat, Word)>) {
    && (forall i :: 0 <= i < |t| ==> t[i].1 != {})
    && (forall i, j :: 0 <= i < j < |t| ==> t[i].1 * t[j].1 == {})
  }

  /** The bit positions of the write and cull masks, in table order. */
  function MaskBits(b: Bgfx): seq<nat> {
    [b.writeR, b.writeG, b.writeB, b.writeA, b.cullCW, b.cullCCW]
  }

  /** The shape the packing relies on: full conversion tables, and write and
      cull masks that are distinct single bits of a 64-bit word. */
  predicate Valid(b: Bgfx) {
    && TablesFull(b)
    && (forall i :: 0 <= i < 6 ==> MaskBits(b)[i] < 64)
    && (forall i, j :: 0 <= i < j < 6 ==> MaskBits(b)[i] != MaskBits(b)[j])
  }

  /** Distinct bit positions give disjoint masks. */
  lemma ValidMasksDisjoint(b: Bgfx)
    requires Valid(b)
    ensures Disjoint(FlagTable(b))
  {
    assert forall i :: 0 <= i < 6 ==> FlagTable(b)[i].1 == {MaskBits(b)[i]};
  }

  /** A `Bgfx` with the shape the packing relies on exists. */
  lemma SomeValidBgfx()
    ensures exists b :: Valid(b)
  {
    var b := Bgfx(0, 1, 2, 3, 6, 7, {4}, [{}, {}, {}, {}, {}], [{}, {}, {}, {}, {}, {}, {}, {}, {}, {}, {}],
      e => e, (c, a) => c + a, (s, d) => s + d, (s, d, sa, da) => s + d + sa + da);
    assert MaskBits(b) == [0, 1, 2, 3, 6, 7];
    assert Valid(b);
  }

  /** `c_BlendEquationConversions`: 0 for `None`, then ADD … MAX. */
  function EquationTable(b: Bgfx): (t: seq<Word>)
    requires TablesFull(b)
    ensures |t| == 6 && t[0] == {} && t[1..] == b.blendEquations
  {
    [{}] + b.blendEquations
  }

  /** `c_BlendFuncConversions`: ZERO … SRC_ALPHA_SAT. */
  function FuncTable(b: Bgfx): (t: seq<Word>)
    requires TablesFull(b)
    ensures |t| == 11
  {
    b.blendFuncs
  }

  datatype Vec4 = Vec4(x: real, y: real, z: real, w: real)

  datatype Color4 = Color4(r: real, g: real, b: real, a: real)

  /** A `Material`. Pointers are optional resources; `m_ControlPerc` is an
      uninitialised vector and is not part of this model. */
  datatype Material = Material(
    name: string,
    shader: Wrappers.Option<ResourceManager.Resource>,
    textureColor: Wrappers.Option<ResourceManager.Resource>,
    textureNoise: Wrappers.Option<ResourceManager.Resource>,
    uvScaleOffset: Vec4,
    color: Color4,
    colorEquation: BlendEquation,
    alphaEquation: BlendEquation,
    srcColorFunc: BlendFunc,
    dstColorFunc: BlendFunc,
    srcAlphaFunc: BlendFunc,
    dstAlphaFunc: BlendFunc,
    flags: Flags,
    depthTest: DepthTest)

  /** `Material(name, pShader, pTextureColor, color, hasAlpha, uvScaleOffset)`:
      the member defaults, except that a material without alpha has no
      colour blend equation. */
  function NewMaterialWithUV(name: string, shader: Wrappers.Option<ResourceManager.Resource>,
                             textureColor: Wrappers.Option<ResourceManager.Resource>,
                             color: Color4, hasAlpha: bool, uvScaleOffset: Vec4): (m: Material)
    ensures m.name == name && m.shader == shader && m.textureColor == textureColor && m.textureNoise.None?
    ensures m.color == color && m.uvScaleOffset == uvScaleOffset
    ensures m.colorEquation == (if hasAlpha then Add else None)
    ensures m.alphaEquation == BlendEquation.SameAsColor
    ensures m.srcColorFunc == SrcAlpha && m.dstColorFunc == InvSrcAlpha
    ensures m.srcAlphaFunc == BlendFunc.SameAsColor && m.dstAlphaFunc == BlendFunc.SameAsColor
    ensures m.flags == WriteRGBA + {CullCCW} && m.depthTest == Less
  {
    Material(name, shader, textureColor, Wrappers.None, uvScaleOffset, color,
      if hasAlpha then Add else None, BlendEquation.SameAsColor,
      SrcAlpha, InvSrcAlpha, BlendFunc.SameAsColor, BlendFunc.SameAsColor,
      WriteRGBA + {CullCCW}, Less)
  }

  /** The UV transform of the five-argument constructor: the whole texture. */
  const IdentityUV := Vec4(1.0, 1.0, 0.0, 0.0)

  /** `Material(name, pShader, pTextureColor, color, hasAlpha)`: the full
      constructor with UV scale (1,1) and offset (0,0). */
  function NewMaterial(name: string, shader: Wrappers.Option<ResourceManager.Resource>,
                       textureColor: Wrappers.Option<ResourceManager.Resource>,
                       color: Color4, hasAlpha: bool): (m: Material)
    ensures m.uvScaleOffset == Vec4(1.0, 1.0, 0.0, 0.0)
    ensures m == NewMaterialWithUV(name, shader, textureColor, color, hasAlpha, m.uvScaleOffset)
  {
    NewMaterialWithUV(name, shader, textureColor, color, hasAlpha, IdentityUV)
  }

  /** `SetColorBlend`: sets the three colour-blend fields and nothing else. */
  function SetColorBlend(m: Material, eq: BlendEquation, src: BlendFunc, dst: BlendFunc): (r: Material)
    ensures r.colorEquation == eq && r.srcColorFunc == src && r.dstColorFunc == dst
    ensures r.(colorEquation := m.colorEquation, srcColorFunc := m.srcColorFunc, dstColorFunc := m.dstColorFunc) == m
  {
    m.(colorEquation := eq, srcColorFunc := src, dstColorFunc := dst)
  }

  /** `SetAlphaBlend`: sets the three alpha-blend fields and nothing else;
      every argument defaults to `SameAsColor`. */
  function SetAlphaBlend(m: Material, eq: BlendEquation := BlendEquation.SameAsColor,
                         src: BlendFunc := BlendFunc.SameAsColor, dst: BlendFunc := BlendFunc.SameAsColor): (r: Material)
    ensures r.alphaEquation == eq && r.srcAlphaFunc == src && r.dstAlphaFunc == dst
    ensures r.(alphaEquation := m.alphaEquation, srcAlphaFunc := m.srcAlphaFunc, dstAlphaFunc := m.dstAlphaFunc) == m
  {
    m.(alphaEquation := eq, srcAlphaFunc := src, dstAlphaFunc := dst)
  }

  /** When `GetBGFXAlphaState` is defined: with a colour equation, the
      asserted equations are below `SameAsColor`, and every function it
      reads indexes the 11-entry table. The colour functions are always
      read; the alpha functions only on the separate path. */
  predicate AlphaStateDefined(m: Material) {
    m.colorEquation == None
    || (&& m.colorEquation != BlendEquation.SameAsColor
        && m.srcColorFunc != BlendFunc.SameAsColor && m.dstColorFunc != BlendFunc.SameAsColor
        && (m.alphaEquation != BlendEquation.SameAsColor ==>
              m.srcAlphaFunc != BlendFunc.SameAsColor && m.dstAlphaFunc != BlendFunc.SameAsColor))
  }

  /** The table entry of a blend equation. */
  function EquationBits(b: Bgfx, e: BlendEquation): Word
    requires TablesFull(b) && e != BlendEquation.SameAsColor
  {
    EquationTable(b)[EquationOrdinal(e)]
  }

  /** The table entry of a blend function. */
  function FuncBits(b: Bgfx, f: BlendFunc): Word
    requires TablesFull(b) && f != BlendFunc.SameAsColor
  {
    FuncTable(b)[FuncOrdinal(f)]
  }

  /** `GetBGFXAlphaState`: no blending without a colour equation; with the
      alpha equation `SameAsColor`, the single-equation and single-function
      macros over the colour settings; otherwise the separate macros, with the
      function arguments in the order the source passes them (source colour,
      source alpha, destination colour, destination alpha). */
  function AlphaState(m: Material, b: Bgfx): (r: Word)
    requires TablesFull(b) && AlphaStateDefined(m)
    ensures m.colorEquation == None ==> r == {}
    ensures m.colorEquation != None && m.alphaEquation == BlendEquation.SameAsColor ==>
      r == b.equation(EquationBits(b, m.colorEquation)) + b.func(FuncBits(b, m.srcColorFunc), FuncBits(b, m.dstColorFunc))
    ensures m.colorEquation != None && m.alphaEquation != BlendEquation.SameAsColor ==>
      r == b.equationSeparate(EquationBits(b, m.colorEquation), EquationBits(b, m.alphaEquation))
           + b.funcSeparate(FuncBits(b, m.srcColorFunc), FuncBits(b, m.srcAlphaFunc),
                            FuncBits(b, m.dstColorFunc), FuncBits(b, m.dstAlphaFunc))
  {
    if m.colorEquation == None then {}
    else if m.alphaEquation == BlendEquation.SameAsColor then
      var colorBlendEquation := EquationBits(b, m.colorEquation);
      var srcColorBlendFunc := FuncBits(b, m.srcColorFunc);
      var dstColorBlendFunc := FuncBits(b, m.dstColorFunc);
      b.equation(colorBlendEquation) + b.func(srcColorBlendFunc, dstColorBlendFunc)
    else
      var colorBlendEquation := EquationBits(b, m.colorEquation);
      var alphaBlendEquation := EquationBits(b, m.alphaEquation);
      var srcColorBlendFunc := FuncBits(b, m.srcColorFunc);
      var dstColorBlendFunc := FuncBits(b, m.dstColorFunc);
      var srcAlphaBlendFunc := FuncBits(b, m.srcAlphaFunc);
      var dstAlphaBlendFunc := FuncBits(b, m.dstAlphaFunc);
      b.equationSeparate(colorBlendEquation, alphaBlendEquation)
        + b.funcSeparate(srcColorBlendFunc, srcAlphaBlendFunc, dstColorBlendFunc, dstAlphaBlendFunc)
  }

  /** Without a colour equation the alpha state is 0 whatever the other blend
      fields hold; with the alpha equation `SameAsColor` it depends on the
      colour equation and functions only. */
  lemma AlphaStateIgnoresUnusedFields(m1: Material, m2: Material, b: Bgfx)
    requires TablesFull(b) && AlphaStateDefined(m1) && AlphaStateDefined(m2)
    requires m1.colorEquation == m2.colorEquation
    requires m1.alphaEquation == BlendEquation.SameAsColor && m2.alphaEquation == BlendEquation.SameAsColor
    requires m1.colorEquation != None ==> m1.srcColorFunc == m2.srcColorFunc && m1.dstColorFunc == m2.dstColorFunc
    ensures AlphaState(m1, b) == AlphaState(m2, b)
  {
  }

  /** A material made without alpha does not blend, and keeps not blending
      whatever alpha settings it is given later; one made with alpha blends
      by ADD with SRC_ALPHA / INV_SRC_ALPHA. */
  lemma ConstructedBlending(name: string, shader: Wrappers.Option<ResourceManager.Resource>,
                            texture: Wrappers.Option<ResourceManager.Resource>, color: Color4,
                            b: Bgfx, eq: BlendEquation, src: BlendFunc, dst: BlendFunc)
    requires TablesFull(b)
    ensures AlphaStateDefined(SetAlphaBlend(NewMaterial(name, shader, texture, color, false), eq, src, dst))
    ensures AlphaState(SetAlphaBlend(NewMaterial(name, shader, texture, color, false), eq, src, dst), b) == {}
    ensures AlphaStateDefined(NewMaterial(name, shader, texture, color, true))
    ensures AlphaState(NewMaterial(name, shader, texture, color, true), b)
      == b.equation(b.blendEquations[0]) + b.func(b.blendFuncs[4], b.blendFuncs[5])
  {
    var m := NewMaterial(name, shader, texture, color, true);
    assert EquationBits(b, m.colorEquation) == b.blendEquations[0];
  }

  /** Setting only the alpha equation leaves the alpha functions at
      `SameAsColor`, which the separate path reads past the end of the
      function table: such a material has no defined alpha state. */
  lemma AlphaEquationAloneUndefined(name: string, color: Color4)
    ensures !AlphaStateDefined(SetAlphaBlend(NewMaterial(name, Wrappers.None, Wrappers.None, color, true), Add))
  {
  }

  /** `SetAlphaBlend()` with its defaults makes the alpha state follow the
      colour settings only. */
  lemma ResetAlphaBlendFollowsColor(m: Material, b: Bgfx)
    requires TablesFull(b) && m.colorEquation != BlendEquation.SameAsColor
    requires m.srcColorFunc != BlendFunc.SameAsColor && m.dstColorFunc != BlendFunc.SameAsColor
    ensures AlphaStateDefined(SetAlphaBlend(m))
    ensures forall m2: Material ::
      (&& AlphaStateDefined(m2) && m2.alphaEquation == BlendEquation.SameAsColor
       && m2.colorEquation == m.colorEquation && m2.srcColorFunc == m.srcColorFunc && m2.dstColorFunc == m.dstColorFunc)
      ==> AlphaState(SetAlphaBlend(m), b) == AlphaState(m2, b)
  {
  }

  /** `mask` when `flag` is set in `flags`, nothing otherwise. */
  function Pick(flags: Flags, flag: nat, mask: Word): Word {
    if flag in flags then mask else {}
  }

  /** The union of the masks of a flag table. */
  function MaskUnion(t: seq<(nat, Word)>): (u: Word)
    ensures forall i :: 0 <= i < |t| ==> t[i].1 <= u
    decreases |t|
  {
    if t == [] then {}
    else
      var rest := MaskUnion(t[1..]);
      assert forall i :: 1 <= i < |t| ==> t[i] == t[1..][i - 1];
      t[0].1 + rest
  }

  /** The masks of the table entries whose flag is set in `flags`, OR-ed
      together: one `if (flags & flag) state |= mask;` per entry. It holds
      the mask of every selected entry and lies within the union of the
      table's masks. */
  function TranslateFlags(flags: Flags, t: seq<(nat, Word)>): (r: Word)
    ensures forall i :: 0 <= i < |t| && t[i].0 in flags ==> t[i].1 <= r
    ensures r <= MaskUnion(t)
    decreases |t|
  {
    if t == [] then {}
    else
      var rest := TranslateFlags(flags, t[1..]);
      assert forall i :: 1 <= i < |t| ==> t[i] == t[1..][i - 1];
      Pick(flags, t[0].0, t[0].1) + rest
  }

  /** A word apart from every mask of a table is apart from their union. */
  lemma {:induction false} ApartFromUnion(x: Word, t: seq<(nat, Word)>)
    requires forall j :: 0 <= j < |t| ==> x * t[j].1 == {}
    ensures x * MaskUnion(t) == {}
    decreases |t|
  {
    if t != [] {
      assert forall j :: 0 <= j < |t[1..]| ==> t[1..][j] == t[j + 1];
      ApartFromUnion(x, t[1..]);
      assert MaskUnion(t) == t[0].1 + MaskUnion(t[1..]);
      assert x * t[0].1 == {};
    }
  }

  /** With disjoint masks, a bit of entry `i`'s mask is in the translation
      exactly when entry `i`'s flag is set. */
  lemma {:induction false} TranslateFlagsIff(flags: Flags, t: seq<(nat, Word)>, i: int)
    requires Disjoint(t) && 0 <= i < |t|
    ensures t[i].1 * TranslateFlags(flags, t) != {} <==> t[i].0 in flags
    decreases |t|
  {
    var tail := t[1..];
    assert forall j :: 0 <= j < |tail| ==> tail[j] == t[j + 1];
    var rest := TranslateFlags(flags, tail);
    var head := Pick(flags, t[0].0, t[0].1);
    assert TranslateFlags(flags, t) == head + rest;
    assert t[i].1 * (head + rest) == t[i].1 * head + t[i].1 * rest;
    if i == 0 {
      ApartFromUnion(t[0].1, tail);
      assert t[0].1 * rest == {};
      assert t[0].1 * t[0].1 == t[0].1;
    } else {
      assert Disjoint(tail);
      assert t[i].1 * head == {};
      TranslateFlagsIff(flags, tail, i - 1);
    }
  }

  /** Two flag words that select the same table entries translate alike. */
  lemma {:induction false} TranslateBySelection(f1: Flags, f2: Flags, t: seq<(nat, Word)>)
    requires forall i :: 0 <= i < |t| ==> (t[i].0 in f1 <==> t[i].0 in f2)
    ensures TranslateFlags(f1, t) == TranslateFlags(f2, t)
    decreases |t|
  {
    if t != [] {
      assert forall i :: 0 <= i < |t[1..]| ==> t[1..][i] == t[i + 1];
      TranslateBySelection(f1, f2, t[1..]);
    }
  }

  /** The bgfx write and cull bits the material's flags select. */
  function WriteBits(flags: Flags, b: Bgfx): Word {
    TranslateFlags(flags, FlagTable(b))
  }

  /** The integer `BGFX_STATE_DEPTH_TEST_LESS + (uint64)m_DepthTest`. */
  function DepthSum(d: DepthTest, b: Bgfx): nat {
    Value(b.depthTestLess) + DepthOrdinal(d)
  }

  /** The depth part: that sum as a 64-bit word. */
  function DepthBits(d: DepthTest, b: Bgfx): (r: Word)
    ensures forall i :: i in r ==> i < 64
  {
    WordOf(DepthSum(d, b))
  }

  /** A word's value written back as a word is the word, when its bits
      lie below 64. */
  lemma WordValueRoundTrip(w: Word)
    requires forall i :: i in w ==> i < 64
    ensures WordOf(Value(w)) == w
  {
    WordOfValue(w, 0);
  }

  /** A number below `2^64` written as a word and read back is the number. */
  lemma ValueWordRoundTrip(n: nat)
    requires n < WordRange
    ensures Value(WordOf(n)) == n
  {
    ValueOfWord(n, 0);
  }

  /** A `LESS` depth test contributes exactly the bits of
      `BGFX_STATE_DEPTH_TEST_LESS`. */
  lemma LessDepthIsLess(b: Bgfx)
    requires forall i :: i in b.depthTestLess ==> i < 64
    ensures DepthBits(Less, b) == b.depthTestLess
  {
    WordValueRoundTrip(b.depthTestLess);
  }

  /** Every depth part is the word whose value is the integer sum of
      `BGFX_STATE_DEPTH_TEST_LESS` and the enumerator, whenever that sum fits
      in 64 bits. */
  lemma DepthIsIntegerSum(d: DepthTest, b: Bgfx)
    requires Value(b.depthTestLess) + DepthOrdinal(d) < WordRange
    ensures Value(DepthBits(d, b)) == Value(b.depthTestLess) + DepthOrdinal(d)
  {
    ValueWordRoundTrip(DepthSum(d, b));
  }

  /** `GetBGFXRenderState`: the selected write and cull bits, the depth part
      and the alpha state, OR-ed together, and no other bit. */
  function RenderState(m: Material, b: Bgfx): (r: Word)
    requires TablesFull(b) && AlphaStateDefined(m)
    ensures forall i :: 0 <= i < 6 && FlagTable(b)[i].0 in m.flags ==> FlagTable(b)[i].1 <= r
    ensures DepthBits(m.depthTest, b) <= r && AlphaState(m, b) <= r
    ensures r <= MaskUnion(FlagTable(b)) + DepthBits(m.depthTest, b) + AlphaState(m, b)
  {
    WriteBits(m.flags, b) + DepthBits(m.depthTest, b) + AlphaState(m, b)
  }

  /** With distinct single-bit masks, and when the depth and alpha parts do
      not carry it, each bgfx write or cull bit is in the state exactly when
      its flag is set. */
  lemma FlagBitIff(m: Material, b: Bgfx, i: int)
    requires Valid(b) && AlphaStateDefined(m) && 0 <= i < 6
    requires MaskBits(b)[i] !in DepthBits(m.depthTest, b) + AlphaState(m, b)
    ensures MaskBits(b)[i] in RenderState(m, b) <==> FlagTable(b)[i].0 in m.flags
  {
    ValidMasksDisjoint(b);
    TranslateFlagsIff(m.flags, FlagTable(b), i);
    assert FlagTable(b)[i].1 == {MaskBits(b)[i]};
  }

  /** `WriteZ` has no effect on the state. */
  lemma WriteZIgnored(m: Material, b: Bgfx)
    requires TablesFull(b) && AlphaStateDefined(m)
    ensures RenderState(m.(flags := m.flags + {WriteZ}), b) == RenderState(m.(flags := m.flags - {WriteZ}), b)
  {
    TranslateBySelection(m.flags + {WriteZ}, m.flags - {WriteZ}, FlagTable(b));
  }

  /** A constructed material writes R, G, B and A, culls counter-clockwise and
      tests depth with `LESS`; with distinct single-bit masks it culls
      clockwise only if the depth or alpha part carries that bit. */
  lemma DefaultRenderState(name: string, color: Color4, hasAlpha: bool, b: Bgfx)
    requires Valid(b)
    ensures
      var m := NewMaterial(name, Wrappers.None, Wrappers.None, color, hasAlpha);
      && AlphaStateDefined(m)
      && var r := RenderState(m, b);
      && b.writeR in r && b.writeG in r && b.writeB in r && b.writeA in r && b.cullCCW in r
      && DepthBits(Less, b) <= r
      && (b.cullCW !in DepthBits(Less, b) + AlphaState(m, b) ==> b.cullCW !in r)
  {
    var m := NewMaterial(name, Wrappers.None, Wrappers.None, color, hasAlpha);
    var t := FlagTable(b);
    assert t[0].0 in m.flags && t[1].0 in m.flags && t[2].0 in m.flags && t[3].0 in m.flags;
    assert t[5].0 in m.flags && t[4].0 !in m.flags;
    if b.cullCW !in DepthBits(Less, b) + AlphaState(m, b) {
      FlagBitIff(m, b, 4);
    }
  }
}
