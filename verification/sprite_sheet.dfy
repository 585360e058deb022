/** `SpriteSheet`: a table from sprite name to the UV rectangle of that sprite
    in its texture, built once from a parsed sprite-sheet description and then
    only read. Both revisions (nlohmann-json and rapidjson) compute the same
    table; file reading and parsing are not part of this model, so the
    constructor starts from the parsed values. */
module SpriteSheets {
  import opened Components

  /** A `vec2`; float rounding is not modelled. */
  datatype Vec2 = Vec2(x: real, y: real)

  /** `SpriteInfo`: the scale and offset that map a quad's 0..1 UVs onto the
      sprite's rectangle of the sheet. */
  datatype SpriteInfo = SpriteInfo(uvScale: Vec2, uvOffset: Vec2)

  /** One element of the description's `"Sprites"` array: a name and a pixel
      rectangle. */
  datatype SpriteEntry = SpriteEntry(name: string, x: real, y: real, w: real, h: real)

  /** The parsed description: the sheet's size in pixels (read as integers)
      and its sprites. */
  datatype SheetFile = SheetFile(width: int, height: int, sprites: seq<SpriteEntry>)

  /** What `GetSpriteByName` returns for a name it does not know: the whole
      texture. */
  const WholeTexture := SpriteInfo(Vec2(1.0, 1.0), Vec2(0.0, 0.0))

  /** The stored info of one sprite. The rectangle is inset by half a pixel on
      every side, so that sampling stays on the centres of its border pixels;
      a zero sheet size (a float division by zero in the source) is not
      modelled. */
  function InfoFor(e: SpriteEntry, width: int, height: int): (r: SpriteInfo)
    requires width != 0 && height != 0
    ensures r.uvOffset.x * width as real == e.x + 0.5 && r.uvOffset.y * height as real == e.y + 0.5
    ensures r.uvScale.x * width as real == e.w - 1.0 && r.uvScale.y * height as real == e.h - 1.0
    ensures (r.uvOffset.x + r.uvScale.x) * width as real == e.x + e.w - 0.5
    ensures (r.uvOffset.y + r.uvScale.y) * height as real == e.y + e.h - 0.5
  {
    var x := e.x + 0.5;
    var y := e.y + 0.5;
    var w := e.w - 1.0;
    var h := e.h - 1.0;
    SpriteInfo(Vec2(w / width as real, h / height as real), Vec2(x / width as real, y / height as real))
  }

  /** The pixel rectangle an info covers, inset corrected: the inverse of
      `InfoFor`. */
  function PixelRect(info: SpriteInfo, width: int, height: int): (r: (real, real, real, real))
  {
    (info.uvOffset.x * width as real - 0.5, info.uvOffset.y * height as real - 0.5,
     info.uvScale.x * width as real + 1.0, info.uvScale.y * height as real + 1.0)
  }

  /** The stored info determines the sprite's rectangle: no two different
      rectangles of one sheet get the same info. */
  lemma InfoDeterminesRect(e: SpriteEntry, width: int, height: int)
    requires width != 0 && height != 0
    ensures PixelRect(InfoFor(e, width, height), width, height) == (e.x, e.y, e.w, e.h)
  {
    var r := InfoFor(e, width, height);
    assert r.uvOffset.x * width as real - 0.5 == e.x;
    assert r.uvOffset.y * height as real - 0.5 == e.y;
    assert r.uvScale.x * width as real + 1.0 == e.w;
    assert r.uvScale.y * height as real + 1.0 == e.h;
    var p := PixelRect(r, width, height);
    assert p.0 == e.x && p.1 == e.y && p.2 == e.w && p.3 == e.h;
  }

  /** The name a sprite is stored under: the array's string read as a C
      string. */
  function KeyOf(e: SpriteEntry): string {
    CStr(e.name)
  }

  /** The names of the sprites of `sprites`, as stored. */
  function Names(sprites: seq<SpriteEntry>): set<string> {
    set i | 0 <= i < |sprites| :: KeyOf(sprites[i])
  }

  /** Element `i` is the last one stored under `k`. */
  predicate LastWith(sprites: seq<SpriteEntry>, i: int, k: string) {
    0 <= i < |sprites| && KeyOf(sprites[i]) == k
    && forall j :: i < j < |sprites| ==> KeyOf(sprites[j]) != k
  }

  /** The constructor's table after its loop has visited `sprites`: each
      element assigns `m_Sprites[name]`, so there is one entry per distinct
      name. */
  function BuildTable(sprites: seq<SpriteEntry>, width: int, height: int): (r: map<string, SpriteInfo>)
    requires width != 0 && height != 0
    ensures r.Keys == Names(sprites)
    decreases |sprites|
  {
    if sprites == [] then map[]
    else
      var n := |sprites| - 1;
      var prefix := BuildTable(sprites[..n], width, height);
      NamesOfSnoc(sprites);
      prefix[KeyOf(sprites[n]) := InfoFor(sprites[n], width, height)]
  }

  lemma NamesOfSnoc(sprites: seq<SpriteEntry>)
    requires sprites != []
    ensures Names(sprites) == Names(sprites[..|sprites| - 1]) + {KeyOf(sprites[|sprites| - 1])}
  {
    var n := |sprites| - 1;
    forall k | k in Names(sprites)
      ensures k in Names(sprites[..n]) + {KeyOf(sprites[n])}
    {
      var i :| 0 <= i < |sprites| && KeyOf(sprites[i]) == k;
      if i < n {
        assert sprites[..n][i] == sprites[i];
      }
    }
    forall k | k in Names(sprites[..n])
      ensures k in Names(sprites)
    {
      var i :| 0 <= i < n && KeyOf(sprites[..n][i]) == k;
      assert sprites[i] == sprites[..n][i];
    }
  }

  /** For a repeated name the last element wins: the entry of a name is the
      info of the last sprite stored under it. */
  lemma {:induction false} LastWins(sprites: seq<SpriteEntry>, width: int, height: int, i: int, k: string)
    requires width != 0 && height != 0
    requires LastWith(sprites, i, k)
    ensures k in BuildTable(sprites, width, height)
    ensures BuildTable(sprites, width, height)[k] == InfoFor(sprites[i], width, height)
    decreases |sprites|
  {
    var n := |sprites| - 1;
    var prefix := BuildTable(sprites[..n], width, height);
    assert BuildTable(sprites, width, height) == prefix[KeyOf(sprites[n]) := InfoFor(sprites[n], width, height)];
    if i < n {
      assert KeyOf(sprites[n]) != k;
      assert sprites[..n][i] == sprites[i];
      assert LastWith(sprites[..n], i, k) by {
        forall j | i < j < n
          ensures KeyOf(sprites[..n][j]) != k
        {
          assert sprites[..n][j] == sprites[j];
        }
      }
      LastWins(sprites[..n], width, height, i, k);
    }
  }

  /** `SpriteSheet(name, filename, pTexture)`: the loop over the description's
      sprites, in array order. */
  method Construct(sheet: SheetFile) returns (table: map<string, SpriteInfo>)
    requires sheet.width != 0 && sheet.height != 0
    ensures table == BuildTable(sheet.sprites, sheet.width, sheet.height)
  {
    table := map[];
    var i := 0;
    while i < |sheet.sprites|
      invariant 0 <= i <= |sheet.sprites|
      invariant table == BuildTable(sheet.sprites[..i], sheet.width, sheet.height)
    {
      var e := sheet.sprites[i];
      assert sheet.sprites[..i + 1][..i] == sheet.sprites[..i];
      table := table[KeyOf(e) := InfoFor(e, sheet.width, sheet.height)];
      i := i + 1;
    }
    assert sheet.sprites[..i] == sheet.sprites;
  }

  /** `GetSpriteByName`: the stored info of a registered name, the whole
      texture otherwise. The table is only read. */
  function GetSpriteByName(table: map<string, SpriteInfo>, name: string): (r: SpriteInfo)
    ensures name in table ==> r == table[name]
    ensures name !in table ==> r == WholeTexture
  {
    if name in table then table[name] else WholeTexture
  }

  /** Looking a name up in a constructed sheet: the info of the last sprite
      stored under that name, or the whole texture when no sprite has it. */
  lemma LookupAfterConstruct(sheet: SheetFile, name: string)
    requires sheet.width != 0 && sheet.height != 0
    ensures name !in Names(sheet.sprites) ==>
      GetSpriteByName(BuildTable(sheet.sprites, sheet.width, sheet.height), name) == WholeTexture
    ensures forall i :: LastWith(sheet.sprites, i, name) ==>
      GetSpriteByName(BuildTable(sheet.sprites, sheet.width, sheet.height), name) == InfoFor(sheet.sprites[i], sheet.width, sheet.height)
  {
    forall i | LastWith(sheet.sprites, i, name)
      ensures GetSpriteByName(BuildTable(sheet.sprites, sheet.width, sheet.height), name) == InfoFor(sheet.sprites[i], sheet.width, sheet.height)
    {
      LastWins(sheet.sprites, sheet.width, sheet.height, i, name);
    }
  }

  /** A name with a NUL in it is never found: keys are stored as C strings. */
  lemma NulNamesNotFound(sheet: SheetFile, name: string)
    requires sheet.width != 0 && sheet.height != 0
    requires NUL in name
    ensures GetSpriteByName(BuildTable(sheet.sprites, sheet.width, sheet.height), name) == WholeTexture
  {
  }
}
