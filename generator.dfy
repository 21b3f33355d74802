/** `generate`: enumerate the glyph set, then run the export strategy the
    mode selects, and the text of the files that strategy writes. */
module Generator {
  import opened Glyphs
  import opened Sheet
  import opened Text
  import opened Render

  /** What one build writes: the material blocks of `master_font.material`
      (after its fixed import line), `spritea.sta` if the sheet strategy ran,
      and the descriptors, in writing order. */
  datatype Build = Build(materials: seq<Material>, registry: Option<seq<StaLine>>, descriptors: seq<Descriptor>)

  /** The build for a mode and variant count: exactly the string `Sheet`
      selects the sheet strategy, any other mode the individual one. */
  function Generated(exportMode: string, n: int): (r: Build)
    ensures r.registry.Some? <==> exportMode == "Sheet"
    ensures |r.descriptors| == |Variants(GlyphList(), n)|
  {
    var vs := Variants(GlyphList(), n);
    if exportMode == "Sheet" then
      Build([SheetMaterial], Some(SheetRegistry(GlyphList(), n)), MapSeq(SheetDescriptor, vs))
    else
      Build(MapSeq(IndividualMaterial, vs), None, MapSeq(IndividualDescriptor, vs))
  }

  method Generate(exportMode: string, variantCount: int) returns (b: Build)
    ensures b == Generated(exportMode, variantCount)
  {
    var chars := EnumerateGlyphs();
    if exportMode == "Sheet" {
      var staLines, odfs, materials := BuildSheet(chars, variantCount);
      b := Build(materials, Some(staLines), odfs);
    } else {
      var odfs, materials := BuildIndividual(chars, variantCount);
      b := Build(materials, None, odfs);
    }
  }

  /** Sheet mode writes one material, a registry of two header lines and
      `95 * N` entries, and `95 * N` descriptors; descriptor `j` draws the
      texture named after itself, and entry `j` of the registry registers it. */
  lemma SheetBuild(n: int)
    ensures var b := Generated("Sheet", n);
      var N := VariantCount(n);
      b.materials == [SheetMaterial] && b.registry.Some? &&
      |b.registry.value| == 2 + 95 * N && |b.descriptors| == 95 * N &&
      forall j :: 0 <= j < |b.descriptors| ==>
        b.descriptors[j].textureName == b.descriptors[j].name &&
        b.registry.value[j + 2].Entry? && b.registry.value[j + 2].name == b.descriptors[j].name
  {
    GlyphAt(0);
    VariantsLength(GlyphList(), n);
    SheetDescriptorsRegistered(GlyphList(), n);
  }

  /** Any other mode writes no registry, and one descriptor and one material
      per variant: descriptor `j` draws `<name>.tga`, and material `j` is
      declared under exactly that texture name. */
  lemma IndividualBuild(exportMode: string, n: int)
    requires exportMode != "Sheet"
    ensures var b := Generated(exportMode, n);
      var N := VariantCount(n);
      b.registry.None? && |b.descriptors| == |b.materials| == 95 * N &&
      forall j :: 0 <= j < |b.descriptors| ==>
        b.descriptors[j].textureName == b.descriptors[j].name + ".tga" &&
        b.materials[j].name == b.descriptors[j].textureName
  {
    GlyphAt(0);
    VariantsLength(GlyphList(), n);
  }

  /** Every line of the generated `spritea.sta` is well formed. */
  lemma GlyphRegistryWellFormed(n: int)
    ensures forall k :: 0 <= k < |SheetRegistry(GlyphList(), n)| ==> WellFormedLine(SheetRegistry(GlyphList(), n)[k])
  {
    var reg := SheetRegistry(GlyphList(), n);
    var vs := Variants(GlyphList(), n);
    VariantsBelong(GlyphList(), n);
    assert Free("font_sheet", ' ') && Free("font_sheet", '\n');
    assert Free("0x00000000", ' ') && Free("0x00000000", '\n');
    forall k | 0 <= k < |reg|
      ensures WellFormedLine(reg[k])
    {
      if k >= 2 {
        var v := vs[k - 2];
        assert v in vs;
        var i :| 1 <= i <= VariantCount(n) && v.name == VariantName(v.base, i);
        GlyphListResolves(v.cell);
        VariantNamePlain(v.base, i);
        assert reg[k] == EntryOf(v);
      }
    }
  }

  /** The text written to `spritea.sta` reads back as the registry lines. */
  lemma SheetRegistryReadsBack(n: int)
    ensures ParseRegistry(RegistryText(SheetRegistry(GlyphList(), n))) == Some(SheetRegistry(GlyphList(), n))
  {
    GlyphRegistryWellFormed(n);
    RegistryRoundTrip(SheetRegistry(GlyphList(), n));
  }

  /** Every descriptor file written, in either mode, reads back as the
      descriptor it was written for. */
  lemma DescriptorsReadBack(exportMode: string, n: int, j: nat)
    requires j < |Generated(exportMode, n).descriptors|
    ensures ParseOdf(OdfText(Generated(exportMode, n).descriptors[j])) == Some(Generated(exportMode, n).descriptors[j])
  {
    var vs := Variants(GlyphList(), n);
    VariantsBelong(GlyphList(), n);
    var v := vs[j];
    assert v in vs;
    var i :| 1 <= i <= VariantCount(n) && v.name == VariantName(v.base, i);
    GlyphListResolves(v.cell);
    VariantNamePlain(v.base, i);
    var d := Generated(exportMode, n).descriptors[j];
    assert d.name == v.name;
    if exportMode != "Sheet" {
      var tex := v.name + ".tga";
      assert d.textureName == tex;
      forall k | 0 <= k < |tex|
        ensures tex[k] != '"'
      {
        if k < |v.name| {
          assert tex[k] == v.name[k];
        }
      }
    }
    OdfRoundTrip(d);
  }
}
