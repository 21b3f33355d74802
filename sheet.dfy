/** The asset generator: the two export strategies of `generate`.  The sheet
    strategy packs one glyph per grid cell of a square atlas and writes a
    registry line and a descriptor for every variant; the individual strategy
    writes a descriptor and a material declaration for every variant.  Files
    are modelled by the records written into them, in writing order. */
module Sheet {
  import opened Decimal
  import opened Glyphs

  /** Side of the square sheet, in pixels. */
  const SheetDim: nat := 1024
  /** Grid columns of the sheet. */
  const Cols: nat := 10
  /** Side of one grid cell (the default of `build_sheet`'s `cell`). */
  const Cell: nat := 96
  /** How many cells lie wholly inside the sheet: 10 columns of 10 rows. */
  const GridCapacity: nat := Cols * (SheetDim / Cell)

  /** One registered variant: its name, the base identifier of its glyph and
      the glyph's position in the enumeration (its grid cell). */
  datatype Variant = Variant(name: string, base: string, cell: nat)

  /** A line of `spritea.sta`: a comment, or a registry entry locating a
      variant's pixels in the sheet. */
  datatype StaLine =
    | Comment(text: string)
    | Entry(name: string, sheet: string, x: nat, y: nat, w: nat, h: nat,
            sheetW: nat, sheetH: nat, colorMask: string)

  /** The arguments of `write_odf`: the file name stem and the texture the
      descriptor draws; everything else in the file is constant. */
  datatype Descriptor = Descriptor(name: string, textureName: string)

  /** A material block of `master_font.material`: its name and the texture
      aliased as its diffuse map. */
  datatype Material = Material(name: string, diffuseMap: string)

  const StaHeader: seq<StaLine> :=
    [Comment("# BZ Optimized Sprite Sheet"), Comment("# HARDCODED TO spritea.sta")]

  /** The one material of the sheet strategy. */
  const SheetMaterial: Material := Material("font_sheet", "font_sheet.dds")

  /** The pixel origin of grid cell `idx`: column `idx mod 10`, row
      `idx div 10`, scaled by the cell size. */
  function CellOrigin(idx: nat): (r: (nat, nat))
    ensures r.0 + Cell <= SheetDim
  {
    ((idx % Cols) * Cell, (idx / Cols) * Cell)
  }

  /** Cell origins are multiples of the cell size, every column fits the
      sheet's width, and the cell lies wholly inside the sheet exactly when
      `idx` is below the grid capacity. */
  lemma CellOriginInside(idx: nat)
    ensures var p := CellOrigin(idx);
      && p.0 % Cell == 0 && p.1 % Cell == 0
      && p.0 + Cell <= SheetDim
      && (p.1 + Cell <= SheetDim <==> idx < GridCapacity)
  {
  }

  /** `range(1, n + 1)` has this many elements. */
  function VariantCount(n: int): nat
  {
    if n < 0 then 0 else n
  }

  /** The first `m` variants of glyph `g`, at position `idx` of the list. */
  function GlyphVariants(g: Glyph, idx: nat, m: nat): (vs: seq<Variant>)
    ensures |vs| == m
    ensures forall t :: 0 <= t < m ==> vs[t] == Variant(VariantName(g.base, t + 1), g.base, idx)
  {
    seq(m, t requires 0 <= t < m => Variant(VariantName(g.base, t + 1), g.base, idx))
  }

  /** All variants of a glyph list, glyph-major and variant-minor. */
  function Variants(chars: seq<Glyph>, n: int): seq<Variant>
  {
    if chars == [] then []
    else Variants(chars[..|chars| - 1], n) + GlyphVariants(chars[|chars| - 1], |chars| - 1, VariantCount(n))
  }

  function MapSeq<A, B>(f: A -> B, s: seq<A>): (r: seq<B>)
    ensures |r| == |s| && forall k :: 0 <= k < |s| ==> r[k] == f(s[k])
  {
    seq(|s|, k requires 0 <= k < |s| => f(s[k]))
  }

  lemma MapSeqSnoc<A, B>(f: A -> B, s: seq<A>, x: A)
    ensures MapSeq(f, s + [x]) == MapSeq(f, s) + [f(x)]
  {
  }

  /** The registry line of a variant: the coordinates of its glyph's cell. */
  function EntryOf(v: Variant): StaLine
  {
    var (x, y) := CellOrigin(v.cell);
    Entry(v.name, "font_sheet", x, y, Cell, Cell, SheetDim, SheetDim, "0x00000000")
  }

  function SheetDescriptor(v: Variant): Descriptor
  {
    Descriptor(v.name, v.name)
  }

  function IndividualDescriptor(v: Variant): Descriptor
  {
    Descriptor(v.name, v.name + ".tga")
  }

  function IndividualMaterial(v: Variant): Material
  {
    Material(v.name + ".tga", v.base + ".dds")
  }

  /** The whole of `spritea.sta` for a glyph list and variant count. */
  function SheetRegistry(chars: seq<Glyph>, n: int): (r: seq<StaLine>)
    ensures |r| == 2 + |Variants(chars, n)| && r[0] == StaHeader[0] && r[1] == StaHeader[1]
  {
    StaHeader + MapSeq(EntryOf, Variants(chars, n))
  }

  lemma VariantsSnoc(chars: seq<Glyph>, n: int, idx: nat)
    requires idx < |chars|
    ensures Variants(chars[..idx + 1], n) ==
      Variants(chars[..idx], n) + GlyphVariants(chars[idx], idx, VariantCount(n))
  {
    assert chars[..idx + 1][..idx] == chars[..idx];
  }

  lemma GlyphVariantsSnoc(g: Glyph, idx: nat, m: nat)
    ensures GlyphVariants(g, idx, m + 1) ==
      GlyphVariants(g, idx, m) + [Variant(VariantName(g.base, m + 1), g.base, idx)]
  {
  }

  /** `build_sheet`: one registry line and one descriptor per variant, each
      descriptor drawing the texture named after the variant itself; the
      material file gets the single sheet material. */
  method BuildSheet(chars: seq<Glyph>, variantCount: int)
    returns (staLines: seq<StaLine>, odfs: seq<Descriptor>, materials: seq<Material>)
    ensures staLines == SheetRegistry(chars, variantCount)
    ensures odfs == MapSeq(SheetDescriptor, Variants(chars, variantCount))
    ensures materials == [SheetMaterial]
  {
    staLines := StaHeader;
    odfs := [];
    materials := [SheetMaterial];
    ghost var vs: seq<Variant> := [];
    for idx := 0 to |chars|
      invariant vs == Variants(chars[..idx], variantCount)
      invariant staLines == StaHeader + MapSeq(EntryOf, vs)
      invariant odfs == MapSeq(SheetDescriptor, vs)
    {
      var base := chars[idx].base;
      var x, y := (idx % Cols) * Cell, (idx / Cols) * Cell;
      ghost var done := vs;
      var i := 1;
      while i <= variantCount
        invariant 1 <= i && i - 1 <= VariantCount(variantCount)
        invariant vs == done + GlyphVariants(chars[idx], idx, i - 1)
        invariant staLines == StaHeader + MapSeq(EntryOf, vs)
        invariant odfs == MapSeq(SheetDescriptor, vs)
      {
        var vn := base + NatToString(i);
        ghost var v := Variant(vn, base, idx);
        GlyphVariantsSnoc(chars[idx], idx, i - 1);
        MapSeqSnoc(EntryOf, vs, v);
        MapSeqSnoc(SheetDescriptor, vs, v);
        vs := vs + [v];
        staLines := staLines + [Entry(vn, "font_sheet", x, y, Cell, Cell, SheetDim, SheetDim, "0x00000000")];
        odfs := odfs + [Descriptor(vn, vn)];
        i := i + 1;
      }
      VariantsSnoc(chars, variantCount, idx);
    }
    assert chars[..|chars|] == chars;
  }

  /** `build_individual`: for every variant a descriptor drawing `<name>.tga`
      and a material `<name>.tga` aliasing the glyph's own `<base>.dds`. */
  method BuildIndividual(chars: seq<Glyph>, variantCount: int)
    returns (odfs: seq<Descriptor>, materials: seq<Material>)
    ensures odfs == MapSeq(IndividualDescriptor, Variants(chars, variantCount))
    ensures materials == MapSeq(IndividualMaterial, Variants(chars, variantCount))
  {
    odfs := [];
    materials := [];
    ghost var vs: seq<Variant> := [];
    for idx := 0 to |chars|
      invariant vs == Variants(chars[..idx], variantCount)
      invariant odfs == MapSeq(IndividualDescriptor, vs)
      invariant materials == MapSeq(IndividualMaterial, vs)
    {
      var base := chars[idx].base;
      ghost var done := vs;
      var i := 1;
      while i <= variantCount
        invariant 1 <= i && i - 1 <= VariantCount(variantCount)
        invariant vs == done + GlyphVariants(chars[idx], idx, i - 1)
        invariant odfs == MapSeq(IndividualDescriptor, vs)
        invariant materials == MapSeq(IndividualMaterial, vs)
      {
        var vn := base + NatToString(i);
        ghost var v := Variant(vn, base, idx);
        GlyphVariantsSnoc(chars[idx], idx, i - 1);
        MapSeqSnoc(IndividualDescriptor, vs, v);
        MapSeqSnoc(IndividualMaterial, vs, v);
        vs := vs + [v];
        odfs := odfs + [Descriptor(vn, vn + ".tga")];
        materials := materials + [Material(vn + ".tga", base + ".dds")];
        i := i + 1;
      }
      VariantsSnoc(chars, variantCount, idx);
    }
    assert chars[..|chars|] == chars;
  }

  lemma MulMonotone(a: nat, b: nat, m: nat)
    requires a <= b
    ensures a * m <= b * m
  {
  }

  /** The variants of a glyph list come glyph-major and variant-minor:
      there are `N` per glyph, and the one at `k * N + t` is variant `t + 1`
      of glyph `k`, placed in cell `k`. */
  lemma {:induction false} VariantsAt(chars: seq<Glyph>, n: int, k: nat, t: nat)
    requires k < |chars| && t < VariantCount(n)
    ensures |Variants(chars, n)| == |chars| * VariantCount(n)
    ensures k * VariantCount(n) + t < |Variants(chars, n)|
    ensures Variants(chars, n)[k * VariantCount(n) + t] ==
      Variant(VariantName(chars[k].base, t + 1), chars[k].base, k)
    decreases |chars|
  {
    var m, nv := |chars|, VariantCount(n);
    var prefix := chars[..m - 1];
    var P := Variants(prefix, n);
    VariantsLength(chars, n);
    VariantsLength(prefix, n);
    assert Variants(chars, n) == P + GlyphVariants(chars[m - 1], m - 1, nv);
    if k < m - 1 {
      assert prefix[k] == chars[k];
      VariantsAt(prefix, n, k, t);
    } else {
      assert k * nv == |P|;
    }
  }

  lemma {:induction false} VariantsLength(chars: seq<Glyph>, n: int)
    ensures |Variants(chars, n)| == |chars| * VariantCount(n)
    decreases |chars|
  {
    if chars != [] {
      var m, nv := |chars|, VariantCount(n);
      VariantsLength(chars[..m - 1], n);
      assert |Variants(chars, n)| == (m - 1) * nv + nv;
      assert (m - 1) * nv + nv == m * nv;
    }
  }

  /** Every variant belongs to a glyph of the list: its cell is that glyph's
      position, its base that glyph's identifier, its index in `1..N`. */
  ghost predicate VariantOf(chars: seq<Glyph>, n: int, v: Variant)
  {
    v.cell < |chars| && v.base == chars[v.cell].base &&
    exists i :: 1 <= i <= VariantCount(n) && v.name == VariantName(v.base, i)
  }

  lemma {:induction false} VariantsBelong(chars: seq<Glyph>, n: int)
    ensures forall v :: v in Variants(chars, n) ==> VariantOf(chars, n, v)
    decreases |chars|
  {
    if chars != [] {
      var prefix := chars[..|chars| - 1];
      VariantsBelong(prefix, n);
      forall v | v in Variants(chars, n)
        ensures VariantOf(chars, n, v)
      {
        if v in Variants(prefix, n) {
          assert VariantOf(prefix, n, v);
          assert prefix[v.cell] == chars[v.cell];
        } else {
          var g := GlyphVariants(chars[|chars| - 1], |chars| - 1, VariantCount(n));
          var t :| 0 <= t < |g| && g[t] == v;
          assert v.name == VariantName(v.base, t + 1);
        }
      }
    }
  }

  /** `spritea.sta` holds the two header lines and then exactly `N` lines per
      glyph; the line for variant `i` of glyph `k` is named `base_k + i` and
      carries the pixel origin of cell `k`. */
  lemma RegistryEntryAt(chars: seq<Glyph>, n: int, k: nat, i: nat)
    requires k < |chars| && 1 <= i <= VariantCount(n)
    ensures |SheetRegistry(chars, n)| == 2 + |chars| * VariantCount(n)
    ensures SheetRegistry(chars, n)[..2] == StaHeader
    ensures 2 + k * VariantCount(n) + (i - 1) < |SheetRegistry(chars, n)|
    ensures SheetRegistry(chars, n)[2 + k * VariantCount(n) + (i - 1)] ==
      Entry(VariantName(chars[k].base, i), "font_sheet",
            (k % Cols) * Cell, (k / Cols) * Cell, Cell, Cell, SheetDim, SheetDim, "0x00000000")
  {
    var a := k * VariantCount(n) + (i - 1);
    VariantsAt(chars, n, k, i - 1);
    RegistryLine(chars, n, a);
    EntryOfVariant(chars[k].base, i, k);
  }

  lemma EntryOfVariant(b: string, i: nat, k: nat)
    ensures EntryOf(Variant(VariantName(b, i), b, k)) ==
      Entry(VariantName(b, i), "font_sheet",
            (k % Cols) * Cell, (k / Cols) * Cell, Cell, Cell, SheetDim, SheetDim, "0x00000000")
  {
  }

  /** Registry line `a + 2` is the entry of variant `a`. */
  lemma RegistryLine(chars: seq<Glyph>, n: int, a: nat)
    requires a < |Variants(chars, n)|
    ensures |SheetRegistry(chars, n)| == 2 + |Variants(chars, n)|
    ensures SheetRegistry(chars, n)[..2] == StaHeader
    ensures SheetRegistry(chars, n)[2 + a] == EntryOf(Variants(chars, n)[a])
  {
    assert SheetRegistry(chars, n) == StaHeader + MapSeq(EntryOf, Variants(chars, n));
  }

  /** Variant `i` of glyph `k` has a data line of its own in the registry. */
  lemma VariantRegistered(chars: seq<Glyph>, n: int, k: nat, i: nat)
    requires k < |chars| && 1 <= i <= VariantCount(n)
    ensures exists r ::
      && 2 <= r < |SheetRegistry(chars, n)|
      && SheetRegistry(chars, n)[r].Entry?
      && SheetRegistry(chars, n)[r].name == VariantName(chars[k].base, i)
  {
    RegistryEntryAt(chars, n, k, i);
    var r := 2 + k * VariantCount(n) + (i - 1);
    assert SheetRegistry(chars, n)[r].name == VariantName(chars[k].base, i);
  }

  /** With no more glyphs than grid cells, every registry entry lies inside
      the sheet: `x + w <= sheet_w` and `y + h <= sheet_h`. */
  lemma RegistryInsideSheet(chars: seq<Glyph>, n: int)
    requires |chars| <= GridCapacity
    ensures forall j :: 2 <= j < |SheetRegistry(chars, n)| ==>
      var e := SheetRegistry(chars, n)[j];
      e.Entry? && e.x + e.w <= e.sheetW && e.y + e.h <= e.sheetH
  {
    VariantsBelong(chars, n);
    var vs := Variants(chars, n);
    forall j | 2 <= j < |SheetRegistry(chars, n)|
      ensures var e := SheetRegistry(chars, n)[j];
        e.Entry? && e.x + e.w <= e.sheetW && e.y + e.h <= e.sheetH
    {
      assert vs[j - 2] in vs;
      CellOriginInside(vs[j - 2].cell);
    }
  }

  /** The 95 glyphs of the enumeration fit the 100 cells of the sheet. */
  lemma GlyphSheetInsideSheet(n: int)
    ensures forall j :: 2 <= j < |SheetRegistry(GlyphList(), n)| ==>
      var e := SheetRegistry(GlyphList(), n)[j];
      e.Entry? && e.x + e.w <= e.sheetW && e.y + e.h <= e.sheetH
  {
    GlyphAt(0);
    RegistryInsideSheet(GlyphList(), n);
  }

  /** Euclidean division of an index below `m * nv` by `nv`. */
  lemma DivModOf(a: nat, m: nat, nv: nat) returns (q: nat, r: nat)
    requires a < m * nv
    ensures q < m && r < nv && a == q * nv + r
  {
    q, r := a / nv, a % nv;
    if q >= m {
      MulMonotone(m, q, nv);
    }
  }

  /** Every position of the variant list is some variant `t + 1` of some
      glyph `k`, at position `k * N + t`. */
  lemma VariantAtIndex(chars: seq<Glyph>, n: int, a: nat) returns (k: nat, t: nat)
    requires a < |Variants(chars, n)|
    ensures k < |chars| && t < VariantCount(n) && a == k * VariantCount(n) + t
    ensures Variants(chars, n)[a] == Variant(VariantName(chars[k].base, t + 1), chars[k].base, k)
  {
    VariantsLength(chars, n);
    k, t := DivModOf(a, |chars|, VariantCount(n));
    VariantsAt(chars, n, k, t);
  }

  /** When the glyphs of the list have distinct well-formed identifiers, no
      two variants share a name. */
  lemma VariantNamesDistinct(chars: seq<Glyph>, n: int, a: nat, b: nat)
    requires forall k :: 0 <= k < |chars| ==> IsBase(chars[k].base)
    requires forall k, k' :: 0 <= k < k' < |chars| ==> chars[k].base != chars[k'].base
    requires a < b < |Variants(chars, n)|
    ensures Variants(chars, n)[a].name != Variants(chars, n)[b].name
  {
    var ka, ta := VariantAtIndex(chars, n, a);
    var kb, tb := VariantAtIndex(chars, n, b);
    VariantNameInjective(chars[ka].base, ta + 1, chars[kb].base, tb + 1);
    if ka < kb {
      assert chars[ka].base != chars[kb].base;
    } else if kb < ka {
      assert chars[kb].base != chars[ka].base;
    } else {
      assert ta != tb;
    }
  }

  /** No two data lines of the generated `spritea.sta` register the same name. */
  lemma RegistryNamesDistinct(n: int, j: nat, j': nat)
    requires 2 <= j < j' < |SheetRegistry(GlyphList(), n)|
    ensures SheetRegistry(GlyphList(), n)[j].name != SheetRegistry(GlyphList(), n)[j'].name
  {
    forall k | 0 <= k < |GlyphList()|
      ensures IsBase(GlyphList()[k].base)
    {
      GlyphListResolves(k);
    }
    forall k, k' | 0 <= k < k' < |GlyphList()|
      ensures GlyphList()[k].base != GlyphList()[k'].base
    {
      GlyphBasesDistinct(k, k');
    }
    VariantNamesDistinct(GlyphList(), n, j - 2, j' - 2);
  }

  /** In sheet mode descriptor `j` and registry line `j + 2` are for the same
      variant, and the descriptor's texture is that variant's own name, so
      every texture a descriptor draws is registered. */
  lemma SheetDescriptorsRegistered(chars: seq<Glyph>, n: int)
    ensures var odfs := MapSeq(SheetDescriptor, Variants(chars, n));
      var reg := SheetRegistry(chars, n);
      |reg| == |odfs| + 2 &&
      forall j :: 0 <= j < |odfs| ==>
        odfs[j].textureName == odfs[j].name && reg[j + 2].Entry? && reg[j + 2].name == odfs[j].textureName
  {
  }

  /** In individual mode descriptor and material `k * N + t` are for variant
      `t + 1` of glyph `k`: the descriptor draws `<name>.tga`, and the
      material of that name aliases the glyph's `<base>.dds`. */
  lemma IndividualBindings(chars: seq<Glyph>, n: int, k: nat, t: nat)
    requires k < |chars| && t < VariantCount(n)
    ensures var vs := Variants(chars, n);
      var odfs := MapSeq(IndividualDescriptor, vs);
      var mats := MapSeq(IndividualMaterial, vs);
      var vn := VariantName(chars[k].base, t + 1);
      |odfs| == |mats| == |chars| * VariantCount(n) &&
      k * VariantCount(n) + t < |odfs| &&
      odfs[k * VariantCount(n) + t] == Descriptor(vn, vn + ".tga") &&
      mats[k * VariantCount(n) + t] == Material(vn + ".tga", chars[k].base + ".dds")
  {
    VariantsAt(chars, n, k, t);
    var vs := Variants(chars, n);
    var j := k * VariantCount(n) + t;
    assert MapSeq(IndividualDescriptor, vs)[j] == IndividualDescriptor(vs[j]);
    assert MapSeq(IndividualMaterial, vs)[j] == IndividualMaterial(vs[j]);
  }

  /** The registry only holds variants `1..N`: a variant index outside that
      range names no registry line. */
  lemma RegistryLacks(chars: seq<Glyph>, n: int, b: string, i: nat)
    requires forall k :: 0 <= k < |chars| ==> IsBase(chars[k].base)
    requires IsBase(b) && (i == 0 || i > VariantCount(n))
    ensures forall r :: 0 <= r < |SheetRegistry(chars, n)| ==>
      !(SheetRegistry(chars, n)[r].Entry? && SheetRegistry(chars, n)[r].name == VariantName(b, i))
  {
    var reg := SheetRegistry(chars, n);
    var vs := Variants(chars, n);
    forall r | 0 <= r < |reg|
      ensures !(reg[r].Entry? && reg[r].name == VariantName(b, i))
    {
      if r >= 2 {
        var a := r - 2;
        var k, t := VariantAtIndex(chars, n, a);
        assert reg[r] == EntryOf(vs[a]);
        VariantNameInjective(chars[k].base, t + 1, b, i);
      }
    }
  }
}
