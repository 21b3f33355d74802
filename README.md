# HUD font generator: the naming, registry and placement core

`hud_gen.py` is a small tool for a game's HUD text. It renders glyphs into
sprite assets. It also compiles a line of text into a Lua script that spawns
one sprite per non-space character. This project models the part of the tool that
decides names, layout and file contents, and proves properties of it.

- **Glyphs** (`glyphs.dfy`) covers three things:
  - the punctuation table of `get_ascii_map`;
  - the character-to-identifier rule: `ui` plus a capital or a digit, `uiL`
    plus the upper-cased letter, or `ui_` plus a table mnemonic, with `ui_un`
    as the fallback;
  - the fixed 95-glyph list that `generate` builds with four loops.
- **Decimal** (`decimal.dfy`) models `f"{i}"`, the decimal index appended to a
  base identifier to form a variant name (`uiA1`, `uiA2`, …). It also reads
  the index back.
- **Sheet** (`sheet.dfy`) models the two export strategies:
  - `build_sheet` packs glyph `k` into grid cell `(k mod 10, k div 10)` of a
    1024-pixel atlas with 96-pixel cells. For every variant it writes one
    `spritea.sta` line and one descriptor that draws the variant's own name.
  - `build_individual` writes a descriptor drawing `<name>.tga` for every
    variant. It also writes a material of that name aliasing `<base>.dds`.

  Both are imperative methods with nested loops. Each is proved equal to a
  specification built from the variant list. The list is glyph-major and
  variant-minor. Lemmas about it give:
  - line counts, positions and grid bounds;
  - name distinctness;
  - the agreement between registry lines and descriptors.
- **Text** (`text.dfy`) models `sep.join` and `s.split(sep)` for a
  one-character separator. It proves that splitting undoes joining when no
  part contains the separator.
- **Render** (`render.dfy`) gives the text of a descriptor as `write_odf`
  writes it, and the text of `spritea.sta` as its lines joined by newlines.
  Each comes with a parser, and the round trips are proved.
- **Compiler** (`compiler.dfy`) models `generate_lua_block`:
  - the four header lines;
  - one `MakeExplosion` call per non-space character, in input order;
  - offsets `-((len - 1) * s / 2) + i * s` over the full index, so a space
    keeps its slot;
  - a per-identifier usage dictionary that numbers the repeats of each
    identifier 1, 2, 3, …

  The method is proved against a functional compiler. Lemmas then prove:
  - the one-to-one correspondence with the non-space characters;
  - mirror symmetry of the offsets;
  - distinct asset names;
  - registry agreement exactly while no identifier repeats more than the
    variant count: past it, the last repeat names an unregistered asset.
- **Generator** (`generator.dfy`) models `generate`. It enumerates the glyphs,
  then runs the strategy that the export mode selects: exactly the string
  `Sheet` selects the sheet strategy. It also proves that `spritea.sta` and
  every descriptor file read back as the records written into them.
  `master_font.material` has no text model, so it has no parser.

Files are modelled by what is written into them, in writing order:
- registry lines (`StaLine`);
- descriptors (`Descriptor`, the two arguments of `write_odf`);
- material blocks (`Material`);
- Lua lines (`LuaLine`).

Configuration read from the window is passed in as parameters:
- the variant count, as an `int` (a non-positive count gives no variants,
  as `range(1, n + 1)` does);
- the export mode, as a string;
- the text and anchor handle, as strings;
- the spacing, as a `real`.

Two behaviours of the code are kept as written. An uncovered character
resolves to `ui_un`, the same identifier as `_`. The usage counter keeps
counting past the variant count.

## Model

| member | source | states |
|---|---|---|
| Decimal.NatToString | hud_gen.py:138 | `f"{i}"` is a non-empty string of digits with no leading zero unless `i` is zero |
| Decimal.ParseNatToString | hud_gen.py:138 | reading the decimal form of `i` back gives `i` |
| Decimal.NatToStringInjective | hud_gen.py:138 | distinct indices print differently |
| Glyphs.AsciiTableEntries | hud_gen.py:73 | the table has 33 entries; every key is a printable punctuation code point and every value a two-letter lower-case mnemonic |
| Glyphs.AsciiTableKeysIncrease | hud_gen.py:73 | keys strictly increase in insertion order, so no key repeats |
| Glyphs.AsciiTableMnemonicsDistinct | hud_gen.py:73 | no mnemonic is used for two code points |
| Glyphs.Lookup | hud_gen.py:173 | `map.get(code)` is `Some` exactly when `code` is a key, and then holds that key's mnemonic |
| Glyphs.CodeOfMnemonic | hud_gen.py:73 | the reverse lookup yields the code point carrying a mnemonic, and `None` only when no entry carries it |
| Glyphs.BaseOf | hud_gen.py:170-173 | every character resolves to a well-formed identifier, and a character that is not a letter, digit or table key resolves to `ui_un` |
| Glyphs.ResolveRoundTrip | hud_gen.py:170-173 | decoding the identifier gives back the character when it is covered, and `_` otherwise (the fallback collides with the underscore) |
| Glyphs.BaseOfInjective | hud_gen.py:170-173 | distinct covered characters get distinct identifiers |
| Glyphs.VariantName | hud_gen.py:138 | `f"{base}{i}"` begins with the base identifier and is longer than it (the decimal index follows) |
| Glyphs.VariantNameInjective | hud_gen.py:138 | a variant name `base + str(i)` determines both the base identifier and the index |
| Glyphs.GlyphList | hud_gen.py:98-102 | no contract of its own: the concatenation of the four loops' lists (A-Z as `ui<c>`, a-z as `uiL<C>`, 0-9 as `ui<d>`, then the table as `ui_<mnemonic>`); GlyphAt, GlyphListResolves and EnumerateGlyphs state its content |
| Glyphs.GlyphAt | hud_gen.py:98-102 | the glyph list has 95 entries: A-Z, then a-z under `uiL`, then 0-9, then the table in insertion order |
| Glyphs.GlyphIndex | hud_gen.py:98-102 | every covered character has a position in the list whose glyph draws it under the resolver's identifier |
| Glyphs.GlyphListResolves | hud_gen.py:98-102 | every glyph's identifier is the resolver's identifier for its character, and decoding its position gives the position back |
| Glyphs.GlyphBasesDistinct | hud_gen.py:98-102 | no two glyphs of the list share a base identifier |
| Glyphs.ResolvedBaseIsGlyph | hud_gen.py:170-173 | every character, covered or not, resolves to the identifier of some glyph of the list |
| Glyphs.EnumerateGlyphs | hud_gen.py:98-102 | the four loops build exactly the glyph list |
| Sheet.CellOrigin | hud_gen.py:133 | whatever the index, the cell at its origin fits the sheet's width: `x + 96 <= 1024` |
| Sheet.CellOriginInside | hud_gen.py:133 | cell origins are multiples of 96; `x + 96 <= 1024` always; `y + 96 <= 1024` exactly when the index is below 100 |
| Sheet.BuildSheet | hud_gen.py:121-144 | the registry is the two header lines followed by one entry per variant at its glyph's cell; the descriptors draw each variant's own name; the single material is `font_sheet` |
| Sheet.BuildIndividual | hud_gen.py:146-158 | one descriptor drawing `<name>.tga` and one material `<name>.tga` aliasing `<base>.dds` per variant, in glyph-major order |
| Sheet.Variants | hud_gen.py:132-138 | no contract of its own: for each glyph in order, the variants `1..N` named `base + str(i)` at the glyph's cell; VariantsAt, VariantsBelong and VariantAtIndex state its content |
| Sheet.SheetRegistry | hud_gen.py:127-140 | `spritea.sta` is the two header comments followed by one line per variant |
| Sheet.VariantsAt | hud_gen.py:132-138 | there are `N` variants per glyph, and the one at `k * N + t` is variant `t + 1` of glyph `k`, in cell `k` |
| Sheet.VariantsBelong | hud_gen.py:132-138 | every variant's cell is a glyph position, its base that glyph's identifier, and its index in `1..N` |
| Sheet.VariantAtIndex | hud_gen.py:132-138 | every position of the variant list decomposes as `k * N + t` with `k` a glyph and `t < N` |
| Sheet.RegistryEntryAt | hud_gen.py:127-140 | `spritea.sta` has `2 + |chars| * N` lines, starts with the two comments, and line `2 + k * N + i - 1` is `"base_k i" font_sheet x y 96 96 1024 1024 0x00000000` for cell `k` |
| Sheet.VariantRegistered | hud_gen.py:137-140 | every variant of every glyph has a data line of its own in the registry |
| Sheet.RegistryInsideSheet | hud_gen.py:121-140 | with no more glyphs than the 100 grid cells, every entry satisfies `x + w <= sheet_w` and `y + h <= sheet_h` |
| Sheet.GlyphSheetInsideSheet | hud_gen.py:132-140 | for the 95 generated glyphs every registry entry lies inside the sheet |
| Sheet.VariantNamesDistinct | hud_gen.py:137-138 | for glyphs with distinct well-formed identifiers, no two variants share a name |
| Sheet.RegistryNamesDistinct | hud_gen.py:137-140 | no two data lines of the generated `spritea.sta` register the same name |
| Sheet.SheetDescriptorsRegistered | hud_gen.py:138-141 | in sheet mode descriptor `j` draws its own name and registry line `j + 2` registers exactly that name |
| Sheet.IndividualBindings | hud_gen.py:155-158 | in individual mode descriptor and material `k * N + t` are `(vn, vn.tga)` and `(vn.tga, base_k.dds)` for `vn = base_k + str(t + 1)` |
| Sheet.RegistryLacks | hud_gen.py:137-140 | an index `0` or above `N` names no registry line |
| Text.Join | hud_gen.py:144 | `sep.join(parts)` begins with the first part |
| Text.SplitJoin | hud_gen.py:144 | splitting a join gives the parts back when no part contains the separator |
| Text.JoinFree | hud_gen.py:144 | a join of parts free of a character other than the separator is free of it |
| Render.VariantNamePlain | hud_gen.py:138-140 | variant names hold no space, newline or double quote |
| Render.OdfText | hud_gen.py:162 | the descriptor text is the fixed head directly followed by the name |
| Render.ParseOdfSound | hud_gen.py:160-162 | the parser accepts only what `write_odf` writes: whatever it reads back has quote-free fields and renders to exactly the input text |
| Render.FramedRoundTrip | hud_gen.py:162 | a text laid out as head, field, middle, field, tail reads back as its two fields when neither holds a quote |
| Render.OdfRoundTrip | hud_gen.py:160-162 | the descriptor text of `write_odf(name, tex)` reads back as `(name, tex)` whenever neither contains a double quote |
| Render.EntryFields | hud_gen.py:140 | an entry has nine fields: the quoted name, the sheet, six decimal pixel numbers and the colour mask |
| Render.StaLineText | hud_gen.py:140 | a comment is written as it stands; an entry's line opens with the quote before its name, so it never reads as a `#` comment |
| Render.RegistryText | hud_gen.py:144 | the text of `spritea.sta` begins with the text of its first line |
| Render.StaLineRoundTrip | hud_gen.py:140 | a well-formed registry line reads back from its text |
| Render.StaLineOneLine | hud_gen.py:140 | a well-formed registry line's text holds no newline |
| Render.ParseLinesOf | hud_gen.py:144 | a sequence of well-formed line texts reads back as the lines |
| Render.RegistryRoundTrip | hud_gen.py:144 | `"\n".join` of well-formed lines reads back as those lines |
| Compiler.ScriptHeader | hud_gen.py:166 | the script opens with four lines, none of them a call |
| Compiler.Offset | hud_gen.py:167-175 | no contract of its own: the centring start `-((len - 1) * s / 2)` plus `i * s`; OffsetsMirror and OffsetIncreasing state its properties |
| Compiler.OffsetIncreasing | hud_gen.py:167-175 | with a positive spacing a later index gets a strictly larger offset |
| Compiler.UsageMap | hud_gen.py:174 | after `k` characters the dictionary has at most `k` entries |
| Compiler.PlacementAt | hud_gen.py:170-175 | no contract of its own: the character's identifier, the counter of that identifier after it, and the offset of its index; PlacementsAt and VariantIsOccurrence state its role |
| Compiler.Placements | hud_gen.py:168-176 | no contract of its own: the placements of the non-space characters among the first `k`, in order; PlacementsAt and PlacementsLength state its content |
| Compiler.PlacementsLength | hud_gen.py:168-176 | the first `k` characters give at most `k` placements |
| Compiler.Compile | hud_gen.py:164-176 | a text gives at most one placement per character; CompileFollowsText states which |
| Compiler.UsageMapCounts | hud_gen.py:174 | the `usage` dictionary holds, for each identifier used so far, its number of uses, and has no entry for an unused identifier |
| Compiler.GenerateLuaBlock | hud_gen.py:164-176 | the script is the four header lines followed by one call per placement of the compiled text, each naming the placement's asset, its offset along the right vector and the fixed 2.5 along the up vector |
| Compiler.SpaceStep | hud_gen.py:169 | a space adds no call and leaves the dictionary unchanged |
| Compiler.CharStep | hud_gen.py:170-176 | a non-space character appends the call whose variant is its identifier's new dictionary entry and whose offset is `start + i * s` |
| Compiler.PlacementsAt | hud_gen.py:168-176 | placement `j` is the one made for the `j`-th non-space character |
| Compiler.CompileFollowsText | hud_gen.py:168-176 | one placement per non-space character, none for a space, in increasing index order, covering every non-space character |
| Compiler.UsesCountsPlacements | hud_gen.py:174 | the usage counter equals the number of placements made with that identifier |
| Compiler.VariantIsOccurrence | hud_gen.py:174-176 | the variant of a placement is its rank among the placements with the same identifier |
| Compiler.VariantsIncrease | hud_gen.py:174 | a later placement with the same identifier has a larger variant |
| Compiler.CompiledNamesDistinct | hud_gen.py:174-176 | no two calls of one script spawn the same asset |
| Compiler.VariantBounds | hud_gen.py:174 | a placement's variant lies between 1 and the identifier's number of uses in the text |
| Compiler.PlacementGlyph | hud_gen.py:170-173 | every compiled identifier is the identifier of a glyph of the generated list |
| Compiler.CompiledNamesRegistered | hud_gen.py:174-176 | when no identifier is used more than `N` times, every call names a line of the generated `spritea.sta` |
| Compiler.OverusedNameUnregistered | hud_gen.py:174-176 | for every text, an identifier used more than `N` times has a call, its last use, naming variant `Uses > N`, which no registry line carries; with CompiledNamesRegistered, every call is registered exactly when no identifier is used more than `N` times |
| Compiler.RepeatsOverflowRegistry | hud_gen.py:174-176 | `N + 1` copies of `A` make the last call name `uiA` + `(N + 1)`, which no registry line carries: the counter is not clamped |
| Compiler.RepeatedUses | hud_gen.py:174 | in a text of `A`s the counter of `uiA` after `k` characters is `k` |
| Compiler.OffsetsMirror | hud_gen.py:167-175 | the offsets of indices `i` and `len - 1 - i` sum to zero |
| Compiler.CompileCentred | hud_gen.py:167-175 | in a text without spaces, placements `j` and `len - 1 - j` have offsets summing to zero |
| Compiler.CompileLeftToRight | hud_gen.py:167-175 | with a positive spacing, later placements have strictly larger offsets |
| Compiler.ExampleCentring | hud_gen.py:164-176 | `"AB"` with spacing 2 gives `uiA1` at -1 and `uiB1` at +1 |
| Compiler.ExampleSpaceSlot | hud_gen.py:164-176 | `"A B"` with spacing 1 gives two placements, at -1 and +1 |
| Compiler.ExampleRepeats | hud_gen.py:164-176 | `"AAA"` gives `uiA1`, `uiA2`, `uiA3` |
| Generator.Generate | hud_gen.py:93-111 | the build is the glyph list run through the sheet strategy when the mode is `Sheet` and through the individual strategy otherwise |
| Generator.Generated | hud_gen.py:104-111 | a registry is written exactly when the mode is `Sheet`, and in either mode one descriptor per variant |
| Generator.SheetBuild | hud_gen.py:108-109 | sheet mode writes one material, a registry of `2 + 95N` lines and `95N` descriptors, each drawing the name registered at its line |
| Generator.IndividualBuild | hud_gen.py:110-111 | any other mode writes no registry and `95N` descriptors and materials, descriptor `j` drawing the texture that material `j` declares |
| Generator.GlyphRegistryWellFormed | hud_gen.py:127-140 | every line of the generated `spritea.sta` is well formed |
| Generator.SheetRegistryReadsBack | hud_gen.py:144 | the text written to `spritea.sta` reads back as the registry lines |
| Generator.DescriptorsReadBack | hud_gen.py:160-162 | every descriptor file written, in either mode, reads back as the descriptor it was written for |

## Left out

- The tkinter window is not modelled: widgets, dialogs, the colour chooser and the success message box. Its values are parameters of the model instead.
- Rasterisation with PIL is not modelled: `Image.new`, `textbbox`, `draw.text` and saving PNG files. These are foreign font-metric calls.
- `get_auto_font` is not modelled. Font loading and its float scaling happen inside a library.
- The `texconv.exe` run, the deletion of PNG files and the creation of the output directory are not modelled. They are external tools and filesystem effects.
- File names and paths are not modelled; every file is the sequence of records written into it.
- Generate: the fixed `import * from "sprites.material"` line at the top of `master_font.material` is not part of `Build`.
- Material blocks are records holding a name and a diffuse-map texture, not their text, so `master_font.material` is not read back. Beyond the two names the text differs between the strategies: the sheet block ends with `}` and one newline, each individual block with `}` and two newlines.
- GenerateLuaBlock: a call is the record `Explosion(name, offset)`, not its text. The `{off:.2f}` rendering of the offset and the final `"\n".join` into the output widget are float-to-string formatting and UI.
- Offset: offsets are exact reals. The source computes them in binary floating point, so there the mirror sums of CompileCentred are zero only up to rounding.
- BuildSheet: the `cell` parameter is fixed at its default 96, the only value `generate` passes.
